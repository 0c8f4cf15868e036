/** Soundness of forward checking: whenever the search reports success, every
    variable is pinned to one value and every constraint holds between the
    pinned values. Completeness is not claimed: a failure below a depth is
    returned without trying that depth's remaining values. */
module Soundness {
  import opened Csp
  import opened Revision
  import opened Setup
  import opened Search

  /** What the search is given: each variable queued once and known to the
      store, every arc between known variables, and arcs closed under
      reversal, as `GenerateArcs` produces them. */
  ghost predicate WellFormed(dom: Domains, queue: seq<Var>, arcs: seq<Arc>) {
    && Distinct(queue)
    && (forall v :: v in queue ==> v in dom)
    && (forall a :: a in arcs ==> a.head in dom && a.tail in dom)
    && (forall a :: a in arcs ==> a.Reversed() in arcs)
  }

  /** Every fixed variable holds at most one value. */
  ghost predicate AtMostOne(dom: Domains, fixed: seq<Var>) {
    forall x :: x in fixed ==> x in dom && |dom[x]| <= 1
  }

  /** A fixed variable that a failed trial emptied is the head of an arc
      to a variable still to be fixed, whose own revision pass will
      therefore fail. */
  ghost predicate EmptiedBlocked(dom: Domains, fixed: seq<Var>, future: seq<Var>, arcs: seq<Arc>) {
    forall x :: x in fixed && x in dom && dom[x] == [] ==>
      exists c :: c in future && Pair(x, c) in arcs
  }

  /** Any two fixed variables that share an arc and still hold values
      satisfy the relation. */
  ghost predicate Agree(rel: Relation, arcs: seq<Arc>, dom: Domains, fixed: seq<Var>) {
    forall a :: (a in arcs && a.head in fixed && a.tail in fixed
                 && a.head in dom && a.tail in dom && dom[a.head] != [] && dom[a.tail] != [])
                ==> rel.Holds(dom[a.head][0], dom[a.tail][0])
  }

  /** The state at the entry of a search call at `depth`, with
      `queue[..depth]` fixed and `queue[depth..]` still to do. */
  ghost predicate PartialAssignment(rel: Relation, arcs: seq<Arc>, dom: Domains, queue: seq<Var>, depth: nat)
    requires depth <= |queue|
  {
    && AtMostOne(dom, queue[..depth])
    && EmptiedBlocked(dom, queue[..depth], queue[depth..], arcs)
    && Agree(rel, arcs, dom, queue[..depth])
  }

  /** `dom` solves the arcs among `vars`: each variable is pinned to one value
      and every arc between them holds of the pinned values. */
  ghost predicate SolvesArcs(rel: Relation, arcs: seq<Arc>, vars: seq<Var>, dom: Domains) {
    && (forall v :: v in vars ==> v in dom && |dom[v]| == 1)
    && (forall a :: a in arcs && a.head in vars && a.tail in vars ==>
          rel.Holds(dom[a.head][0], dom[a.tail][0]))
  }

  /** A non-empty sub-collection of a domain with at most one value is that domain. */
  lemma SameSingle(s: seq<Val>, t: seq<Val>)
    requires |s| <= 1 && t != [] && |t| <= |s|
    requires forall w :: w in t ==> w in s
    ensures t == s
  {
    assert t[0] in t;
    assert |t| == 1 == |s| && t[0] == s[0];
  }

  /** Well-formedness depends only on which variables the store knows. */
  lemma WellFormedKeys(dom: Domains, d: Domains, queue: seq<Var>, arcs: seq<Arc>)
    requires WellFormed(dom, queue, arcs) && d.Keys == dom.Keys
    ensures WellFormed(d, queue, arcs)
  {
  }

  /** Reordering keeps the well-formedness and the partial assignment. */
  lemma ReorderKeeps(h: Heuristic, rel: Relation, arcs: seq<Arc>, dom: Domains, queue: seq<Var>,
                     depth: nat, constraints: seq<Constraint>)
    requires WellFormed(dom, queue, arcs) && depth < |queue|
    requires PartialAssignment(rel, arcs, dom, queue, depth)
    ensures var q := Reorder(h, queue, dom, depth, constraints);
            && WellFormed(dom, q, arcs)
            && (forall v :: v in q <==> v in queue)
            && PartialAssignment(rel, arcs, dom, q, depth)
  {
    var q := Reorder(h, queue, dom, depth, constraints);
    PermutedSuffix(queue, q, depth);
  }

  /** Two queues with the same prefix that are permutations of each other
      have the same members after the prefix too. */
  lemma PermutedSuffix(queue: seq<Var>, q: seq<Var>, depth: nat)
    requires depth <= |queue| && |q| == |queue|
    requires multiset(q) == multiset(queue) && q[..depth] == queue[..depth]
    ensures forall v :: v in q <==> v in queue
    ensures forall v :: v in q[depth..] <==> v in queue[depth..]
  {
    var prefix := q[..depth];
    var mine := q[depth..];
    var theirs := queue[depth..];
    assert q == prefix + mine && queue == prefix + theirs;
    assert multiset(q) == multiset(prefix) + multiset(mine);
    assert multiset(queue) == multiset(prefix) + multiset(theirs);
    forall v
      ensures multiset(mine)[v] == multiset(theirs)[v]
    {
      assert multiset(q)[v] == multiset(prefix)[v] + multiset(mine)[v];
      assert multiset(queue)[v] == multiset(prefix)[v] + multiset(theirs)[v];
    }
    assert multiset(mine) == multiset(theirs);
    forall v
      ensures v in q <==> v in queue
      ensures v in mine <==> v in theirs
    {
      assert v in q <==> v in multiset(q);
      assert v in queue <==> v in multiset(queue);
      assert v in mine <==> v in multiset(mine);
      assert v in theirs <==> v in multiset(theirs);
    }
  }

  /** The variable at `depth` is neither among the fixed ones nor later in the queue. */
  lemma CurrentIsFresh(queue: seq<Var>, depth: nat)
    requires Distinct(queue) && depth < |queue|
    ensures queue[depth] !in queue[..depth]
    ensures queue[depth] !in queue[depth + 1..]
    ensures queue[..depth + 1] == queue[..depth] + [queue[depth]]
    ensures queue[depth..] == [queue[depth]] + queue[depth + 1..]
  {
    var cur := queue[depth];
    assert queue == queue[..depth] + [cur] + queue[depth + 1..];
    assert multiset(queue)[cur] == multiset(queue[..depth])[cur] + 1 + multiset(queue[depth + 1..])[cur];
  }

  /** Pinning the variable at `depth` leaves the fixed part untouched. */
  lemma PinKeeps(rel: Relation, arcs: seq<Arc>, dom: Domains, queue: seq<Var>, depth: nat, value: Val)
    requires WellFormed(dom, queue, arcs) && depth < |queue|
    requires PartialAssignment(rel, arcs, dom, queue, depth)
    ensures WellFormed(dom[queue[depth] := [value]], queue, arcs)
    ensures PartialAssignment(rel, arcs, dom[queue[depth] := [value]], queue, depth)
  {
    CurrentIsFresh(queue, depth);
    var pinned := dom[queue[depth] := [value]];
    assert forall x :: x in queue[..depth] ==> pinned[x] == dom[x];
  }

  // Descent: a consistent trial moves `cur` into the fixed part.

  lemma AtMostOneDescent(pinned: Domains, d: Domains, fixed: seq<Var>, cur: Var)
    requires AtMostOne(pinned, fixed)
    requires d.Keys == pinned.Keys && cur in d && |d[cur]| == 1
    requires forall k :: k in pinned ==> |d[k]| <= |pinned[k]|
    ensures AtMostOne(d, fixed + [cur])
  {
  }

  lemma EmptiedDescent(pinned: Domains, d: Domains, fixed: seq<Var>, cur: Var, future: seq<Var>, arcs: seq<Arc>)
    requires EmptiedBlocked(pinned, fixed, [cur] + future, arcs)
    requires d.Keys == pinned.Keys && cur in d && d[cur] != []
    requires forall k :: k in pinned && pinned[k] != [] ==> d[k] != []
    requires forall a :: a in arcs && a.tail == cur ==> a.head in d && d[a.head] != []
    ensures EmptiedBlocked(d, fixed + [cur], future, arcs)
  {
    forall x | x in fixed + [cur] && x in d && d[x] == []
      ensures exists c :: c in future && Pair(x, c) in arcs
    {
      var c :| c in [cur] + future && Pair(x, c) in arcs;
      assert Pair(x, c).tail == c && Pair(x, c).head == x;
      assert c != cur;
      assert c in future;
    }
  }

  lemma AgreeDescent(rel: Relation, arcs: seq<Arc>, pinned: Domains, d: Domains, fixed: seq<Var>,
                     cur: Var, value: Val)
    requires AtMostOne(pinned, fixed) && Agree(rel, arcs, pinned, fixed)
    requires forall a :: a in arcs ==> a.Reversed() in arcs
    requires d.Keys == pinned.Keys && cur in d && d[cur] == [value]
    requires forall k :: k in pinned ==> |d[k]| <= |pinned[k]|
    requires forall k, w :: k in pinned && w in d[k] ==> w in pinned[k]
    requires forall a, w :: a in arcs && a.tail == cur && a.head in d && w in d[a.head] ==> rel.Holds(w, value)
    ensures Agree(rel, arcs, d, fixed + [cur])
  {
    forall a | (a in arcs && a.head in fixed + [cur] && a.tail in fixed + [cur]
                && a.head in d && a.tail in d && d[a.head] != [] && d[a.tail] != [])
      ensures rel.Holds(d[a.head][0], d[a.tail][0])
    {
      if a.tail == cur {
        assert d[a.head][0] in d[a.head];
        assert d[a.tail][0] == value;
      } else if a.head == cur {
        var b := a.Reversed();
        assert b in arcs && b.tail == cur && b.head == a.tail;
        assert d[a.tail][0] in d[b.head];
        assert rel.Holds(d[a.tail][0], value);
        assert d[a.head][0] == value;
      } else {
        assert a.head in fixed && a.tail in fixed;
        SameSingle(pinned[a.head], d[a.head]);
        SameSingle(pinned[a.tail], d[a.tail]);
      }
    }
  }

  /** A consistent trial at `depth` establishes the partial assignment at `depth + 1`. */
  lemma DescentKeeps(rel: Relation, arcs: seq<Arc>, pinned: Domains, queue: seq<Var>, depth: nat,
                     checked: Checked)
    requires WellFormed(pinned, queue, arcs) && depth < |queue|
    requires |pinned[queue[depth]]| == 1
    requires PartialAssignment(rel, arcs, pinned, queue, depth)
    requires checked == ReviseNeighbours(rel, arcs, queue[depth], pinned) && checked.consistent
    ensures PartialAssignment(rel, arcs, checked.dom, queue, depth + 1)
  {
    var cur := queue[depth];
    CurrentIsFresh(queue, depth);
    var fixed := queue[..depth];
    var future := queue[depth + 1..];
    var d := checked.dom;
    AtMostOneDescent(pinned, d, fixed, cur);
    EmptiedDescent(pinned, d, fixed, cur, future, arcs);
    AgreeDescent(rel, arcs, pinned, d, fixed, cur, pinned[cur][0]);
  }

  // Retry: a failed trial with values left gives `cur` those values back.

  lemma AtMostOneRetry(pinned: Domains, d: Domains, fixed: seq<Var>)
    requires AtMostOne(pinned, fixed)
    requires d.Keys == pinned.Keys
    requires forall k :: k in pinned && k in fixed ==> |d[k]| <= |pinned[k]|
    ensures AtMostOne(d, fixed)
  {
  }

  lemma EmptiedRetry(pinned: Domains, d: Domains, fixed: seq<Var>, cur: Var, future: seq<Var>, arcs: seq<Arc>)
    requires EmptiedBlocked(pinned, fixed, future, arcs) && cur in future
    requires d.Keys == pinned.Keys
    requires forall k :: k in pinned && k in fixed && d[k] != pinned[k] ==> Pair(k, cur) in arcs
    ensures EmptiedBlocked(d, fixed, future, arcs)
  {
    forall x | x in fixed && x in d && d[x] == []
      ensures exists c :: c in future && Pair(x, c) in arcs
    {
      if d[x] != pinned[x] {
        assert Pair(x, cur) in arcs;
      }
    }
  }

  lemma AgreeRetry(rel: Relation, arcs: seq<Arc>, pinned: Domains, d: Domains, fixed: seq<Var>)
    requires AtMostOne(pinned, fixed) && Agree(rel, arcs, pinned, fixed)
    requires d.Keys == pinned.Keys
    requires forall k :: k in pinned && k in fixed ==> |d[k]| <= |pinned[k]|
    requires forall k, w :: k in pinned && k in fixed && w in d[k] ==> w in pinned[k]
    ensures Agree(rel, arcs, d, fixed)
  {
    forall a | (a in arcs && a.head in fixed && a.tail in fixed
                && a.head in d && a.tail in d && d[a.head] != [] && d[a.tail] != [])
      ensures rel.Holds(d[a.head][0], d[a.tail][0])
    {
      SameSingle(pinned[a.head], d[a.head]);
      SameSingle(pinned[a.tail], d[a.tail]);
    }
  }

  /** A failed trial at `depth` keeps the partial assignment once the current
      variable is given its remaining values back. */
  lemma RetryKeeps(rel: Relation, arcs: seq<Arc>, pinned: Domains, queue: seq<Var>, depth: nat,
                   checked: Checked, leftOver: seq<Val>)
    requires WellFormed(pinned, queue, arcs) && depth < |queue|
    requires PartialAssignment(rel, arcs, pinned, queue, depth)
    requires checked == ReviseNeighbours(rel, arcs, queue[depth], pinned)
    ensures PartialAssignment(rel, arcs, checked.dom[queue[depth] := leftOver], queue, depth)
  {
    var cur := queue[depth];
    CurrentIsFresh(queue, depth);
    var fixed := queue[..depth];
    var d := checked.dom[cur := leftOver];
    AtMostOneRetry(pinned, d, fixed);
    EmptiedRetry(pinned, d, fixed, cur, queue[depth..], arcs);
    AgreeRetry(rel, arcs, pinned, d, fixed);
  }

  /** Once every variable is fixed, the partial assignment is a solution. */
  lemma CompleteSolves(rel: Relation, arcs: seq<Arc>, dom: Domains, queue: seq<Var>)
    requires PartialAssignment(rel, arcs, dom, queue, |queue|)
    ensures SolvesArcs(rel, arcs, queue, dom)
  {
    assert queue[..|queue|] == queue;
    assert queue[|queue|..] == [];
  }

  /** Soundness from any call whose entry state is a partial assignment. */
  lemma {:induction false} ForwardCheckSound(depth: nat, rel: Relation, dom: Domains, queue: seq<Var>,
                                             arcs: seq<Arc>, constraints: seq<Constraint>, h: Heuristic)
    requires WellFormed(dom, queue, arcs) && depth <= |queue|
    requires PartialAssignment(rel, arcs, dom, queue, depth)
    ensures var r := ForwardCheck(depth, rel, dom, queue, arcs, constraints, h);
            r.Solved? ==> SolvesArcs(rel, arcs, queue, r.dom)
    decreases |queue| - depth, Mass(dom), 1
  {
    if depth < |queue| {
      var q := Reorder(h, queue, dom, depth, constraints);
      ReorderKeeps(h, rel, arcs, dom, queue, depth, constraints);
      TrialSound(depth, rel, dom, q, arcs, constraints, h);
    }
  }

  /** Soundness of one trial whose entry state is a partial assignment. */
  lemma {:induction false} TrialSound(depth: nat, rel: Relation, dom: Domains, queue: seq<Var>,
                                      arcs: seq<Arc>, constraints: seq<Constraint>, h: Heuristic)
    requires WellFormed(dom, queue, arcs) && depth < |queue|
    requires PartialAssignment(rel, arcs, dom, queue, depth)
    ensures var r := Trial(depth, rel, dom, queue, arcs, constraints, h);
            r.Solved? ==> SolvesArcs(rel, arcs, queue, r.dom)
    decreases |queue| - depth, Mass(dom), 0
  {
    var cur := queue[depth];
    if dom[cur] == [] {
      return;
    }
    var checked := ReviseNeighbours(rel, arcs, cur, dom[cur := [dom[cur][0]]]);
    TrialKeeps(rel, arcs, dom, queue, depth);
    TrialShrinks(dom, cur, checked);
    var retry := checked.dom[cur := dom[cur][1..]];
    if checked.consistent && depth < |queue| - 1 {
      ForwardCheckSound(depth + 1, rel, checked.dom, queue, arcs, constraints, h);
    }
    if !checked.consistent && |dom[cur]| > 1 {
      ForwardCheckSound(depth, rel, retry, queue, arcs, constraints, h);
    }
    TrialOutcome(depth, rel, dom, queue, arcs, constraints, h);
  }

  /** How the outcome of a trial follows from the outcome of the search call
      it makes: a solution it returns is a solution of that call, or the store
      after a consistent pass at the last depth. */
  lemma TrialOutcome(depth: nat, rel: Relation, dom: Domains, queue: seq<Var>,
                     arcs: seq<Arc>, constraints: seq<Constraint>, h: Heuristic)
    requires depth < |queue| && (forall v :: v in queue ==> v in dom)
    requires forall a :: a in arcs && a.tail in queue ==> a.head in dom
    requires dom[queue[depth]] != []
    requires var cur := queue[depth];
             var checked := ReviseNeighbours(rel, arcs, cur, dom[cur := [dom[cur][0]]]);
             && (checked.consistent && depth == |queue| - 1 ==> SolvesArcs(rel, arcs, queue, checked.dom))
             && (checked.consistent && depth < |queue| - 1 ==>
                   var r := ForwardCheck(depth + 1, rel, checked.dom, queue, arcs, constraints, h);
                   r.Solved? ==> SolvesArcs(rel, arcs, queue, r.dom))
             && (!checked.consistent && |dom[cur]| > 1 ==>
                   var r := ForwardCheck(depth, rel, checked.dom[cur := dom[cur][1..]], queue, arcs, constraints, h);
                   r.Solved? ==> SolvesArcs(rel, arcs, queue, r.dom))
    ensures var r := Trial(depth, rel, dom, queue, arcs, constraints, h);
            r.Solved? ==> SolvesArcs(rel, arcs, queue, r.dom)
  {
  }

  /** One trial keeps the search's invariant: after a consistent pass it
      holds one depth further down (and is a solution at the last depth),
      and once the current variable gets its remaining values back it holds
      at the same depth. */
  lemma TrialKeeps(rel: Relation, arcs: seq<Arc>, dom: Domains, queue: seq<Var>, depth: nat)
    requires WellFormed(dom, queue, arcs) && depth < |queue|
    requires PartialAssignment(rel, arcs, dom, queue, depth)
    requires dom[queue[depth]] != []
    ensures var cur := queue[depth];
            var checked := ReviseNeighbours(rel, arcs, cur, dom[cur := [dom[cur][0]]]);
            && WellFormed(checked.dom, queue, arcs)
            && (checked.consistent ==> PartialAssignment(rel, arcs, checked.dom, queue, depth + 1))
            && (checked.consistent && depth == |queue| - 1 ==> SolvesArcs(rel, arcs, queue, checked.dom))
            && WellFormed(checked.dom[cur := dom[cur][1..]], queue, arcs)
            && PartialAssignment(rel, arcs, checked.dom[cur := dom[cur][1..]], queue, depth)
  {
    var cur := queue[depth];
    var pinned := dom[cur := [dom[cur][0]]];
    PinKeeps(rel, arcs, dom, queue, depth, dom[cur][0]);
    var checked := ReviseNeighbours(rel, arcs, cur, pinned);
    WellFormedKeys(pinned, checked.dom, queue, arcs);
    WellFormedKeys(pinned, checked.dom[cur := dom[cur][1..]], queue, arcs);
    RetryKeeps(rel, arcs, pinned, queue, depth, checked, dom[cur][1..]);
    if checked.consistent {
      DescentKeeps(rel, arcs, pinned, queue, depth, checked);
      if depth == |queue| - 1 {
        CompleteSolves(rel, arcs, checked.dom, queue);
      }
    }
  }

  /** `solution` pins every variable of `dom` to one of its own values, and
      every constraint holds between the pinned values. */
  ghost predicate Solves(rel: Relation, dom: Domains, constraints: seq<Constraint>, solution: Domains) {
    && solution.Keys == dom.Keys
    && (forall v :: v in dom ==> |solution[v]| == 1 && solution[v][0] in dom[v])
    && (forall c :: c in constraints ==>
          c.head in dom && c.tail in dom && rel.Holds(solution[c.head][0], solution[c.tail][0]))
  }

  /** Soundness of the whole search. Given every variable of the store queued
      exactly once and constraints between known variables, a successful
      search pins every variable to a single value taken from its domain, and
      the pinned values satisfy every constraint. */
  lemma Soundness(rel: Relation, dom: Domains, queue: seq<Var>, constraints: seq<Constraint>, h: Heuristic)
    requires Distinct(queue) && (forall v :: v in dom <==> v in queue)
    requires forall c :: c in constraints ==> c.head in dom && c.tail in dom
    ensures var r := ForwardCheck(0, rel, dom, queue, GenerateArcs(constraints), constraints, h);
            r.Solved? ==> Solves(rel, dom, constraints, r.dom)
  {
    var arcs := GenerateArcs(constraints);
    GenerateArcsBothWays(constraints);
    GenerateArcsSymmetric(constraints);
    assert queue[..0] == [];
    ForwardCheckSound(0, rel, dom, queue, arcs, constraints, h);
    var r := ForwardCheck(0, rel, dom, queue, arcs, constraints, h);
    if r.Solved? {
      forall v | v in dom
        ensures r.dom[v][0] in dom[v]
      {
        assert r.dom[v][0] in r.dom[v];
      }
    }
  }
}
