/** The static maximum-cardinality heuristic: a greedy order in which each
    next variable is the one most connected to the variables already placed. */
module CardinalityOrder {
  import opened Csp
  import opened Lists

  /** How many entries of `placed` the constraint mentions (with repetition). */
  function MentionedIn(c: Constraint, placed: seq<Var>): nat {
    if placed == [] then 0
    else (if c.Mentions(placed[0]) then 1 else 0) + MentionedIn(c, placed[1..])
  }

  /** The number of (constraint, placed variable) pairs in which the
      constraint mentions both `v` and the placed variable. */
  function Links(v: Var, placed: seq<Var>, constraints: seq<Constraint>): nat {
    if constraints == [] then 0
    else
      (if constraints[0].Mentions(v) then MentionedIn(constraints[0], placed) else 0)
      + Links(v, placed, constraints[1..])
  }

  /** The cardinality of every remaining variable, in order (`cardList`). */
  function LinkCounts(remaining: seq<Var>, placed: seq<Var>, constraints: seq<Constraint>): (counts: seq<nat>)
    ensures |counts| == |remaining|
    ensures forall i :: 0 <= i < |remaining| ==> counts[i] == Links(remaining[i], placed, constraints)
  {
    if remaining == [] then []
    else [Links(remaining[0], placed, constraints)] + LinkCounts(remaining[1..], placed, constraints)
  }

  /** `s` with position `k` taken out, as `list.pop(k)` leaves it. */
  function RemoveAt(s: seq<Var>, k: nat): seq<Var>
    requires k < |s|
  {
    s[..k] + s[k + 1..]
  }

  /** Position `k` of `remaining` has the largest cardinality with respect to
      `placed`, and no earlier position has as large a one. */
  ghost predicate EarliestMostLinked(constraints: seq<Constraint>, placed: seq<Var>, remaining: seq<Var>, k: int) {
    && 0 <= k < |remaining|
    && (forall j :: 0 <= j < |remaining| ==>
          Links(remaining[j], placed, constraints) <= Links(remaining[k], placed, constraints))
    && (forall j :: 0 <= j < k ==>
          Links(remaining[j], placed, constraints) < Links(remaining[k], placed, constraints))
  }

  /** `order` arises from `placed` by repeatedly moving an earliest most-linked
      remaining variable to the end of the placed ones. */
  ghost predicate GreedyOrder(constraints: seq<Constraint>, placed: seq<Var>, remaining: seq<Var>, order: seq<Var>)
    decreases |remaining|
  {
    if remaining == [] then order == placed
    else exists k :: && EarliestMostLinked(constraints, placed, remaining, k)
                     && GreedyOrder(constraints, placed + [remaining[k]], RemoveAt(remaining, k), order)
  }

  /** `cardList.index(max(cardList))`: the position of the first remaining
      variable with the largest cardinality. */
  function MostLinkedIndex(placed: seq<Var>, remaining: seq<Var>, constraints: seq<Constraint>): (k: nat)
    requires remaining != []
    ensures EarliestMostLinked(constraints, placed, remaining, k)
  {
    var counts := LinkCounts(remaining, placed, constraints);
    MaxIndexIsEarliestMostLinked(constraints, placed, remaining);
    IndexOf(counts, Max(counts))
  }

  /** The selection loop: place the most-linked remaining variable until none remain. */
  function Greedy(placed: seq<Var>, remaining: seq<Var>, constraints: seq<Constraint>): (order: seq<Var>)
    ensures multiset(order) == multiset(placed) + multiset(remaining)
    ensures |order| == |placed| + |remaining|
    ensures order[..|placed|] == placed
    ensures GreedyOrder(constraints, placed, remaining, order)
    decreases |remaining|
  {
    if remaining == [] then placed
    else
      var k := MostLinkedIndex(placed, remaining, constraints);
      var order := Greedy(placed + [remaining[k]], RemoveAt(remaining, k), constraints);
      GreedyExtends(constraints, placed, remaining, k, order);
      order
  }

  /** `cardList.index(max(cardList))` is an earliest most-linked position. */
  lemma MaxIndexIsEarliestMostLinked(constraints: seq<Constraint>, placed: seq<Var>, remaining: seq<Var>)
    requires remaining != []
    ensures var counts := LinkCounts(remaining, placed, constraints);
            EarliestMostLinked(constraints, placed, remaining, IndexOf(counts, Max(counts)))
  {
    var counts := LinkCounts(remaining, placed, constraints);
    var maxIndex := IndexOf(counts, Max(counts));
    forall j | 0 <= j < |remaining|
      ensures Links(remaining[j], placed, constraints) <= Links(remaining[maxIndex], placed, constraints)
    {
      assert counts[j] in counts;
    }
  }

  /** One selection step: what the rest of the loop guarantees for the
      extended placement, the whole loop guarantees for `placed`. */
  lemma GreedyExtends(constraints: seq<Constraint>, placed: seq<Var>, remaining: seq<Var>, k: nat, order: seq<Var>)
    requires EarliestMostLinked(constraints, placed, remaining, k)
    requires multiset(order) == multiset(placed + [remaining[k]]) + multiset(RemoveAt(remaining, k))
    requires |order| == |placed + [remaining[k]]| + |RemoveAt(remaining, k)|
    requires order[..|placed + [remaining[k]]|] == placed + [remaining[k]]
    requires GreedyOrder(constraints, placed + [remaining[k]], RemoveAt(remaining, k), order)
    ensures multiset(order) == multiset(placed) + multiset(remaining)
    ensures |order| == |placed| + |remaining|
    ensures order[..|placed|] == placed
    ensures GreedyOrder(constraints, placed, remaining, order)
  {
    GreedyStep(constraints, placed, remaining, k, order);
    GreedyStepContents(placed, remaining, k, order);
  }

  /** One selection step, for the order: the remaining run is greedy, and the
      step itself picked an earliest most-linked variable. */
  lemma GreedyStep(constraints: seq<Constraint>, placed: seq<Var>, remaining: seq<Var>, k: nat, order: seq<Var>)
    requires EarliestMostLinked(constraints, placed, remaining, k)
    requires GreedyOrder(constraints, placed + [remaining[k]], RemoveAt(remaining, k), order)
    ensures GreedyOrder(constraints, placed, remaining, order)
  {
  }

  /** One selection step, for the contents: the remaining run's permutation and
      prefix facts give the whole run's. */
  lemma GreedyStepContents(placed: seq<Var>, remaining: seq<Var>, k: nat, order: seq<Var>)
    requires k < |remaining|
    requires multiset(order) == multiset(placed + [remaining[k]]) + multiset(RemoveAt(remaining, k))
    requires |order| == |placed + [remaining[k]]| + |RemoveAt(remaining, k)|
    requires order[..|placed| + 1] == placed + [remaining[k]]
    ensures multiset(order) == multiset(placed) + multiset(remaining)
    ensures |order| == |placed| + |remaining|
    ensures order[..|placed|] == placed
  {
    assert remaining == remaining[..k] + [remaining[k]] + remaining[k + 1..];
    assert order[..|placed|] == (order[..|placed| + 1])[..|placed|];
  }

  /** Maximum cardinality: seed with the queue's first variable, then order
      the rest greedily. The result is a permutation of the queue that starts
      with the queue's first variable. */
  function MaximumCardinality(queue: seq<Var>, constraints: seq<Constraint>): (order: seq<Var>)
    requires |queue| > 0
    ensures multiset(order) == multiset(queue)
    ensures |order| == |queue| && order[0] == queue[0]
    ensures GreedyOrder(constraints, [queue[0]], queue[1..], order)
  {
    assert queue == [queue[0]] + queue[1..];
    Greedy([queue[0]], queue[1..], constraints)
  }
}
