/** The forward-checking search: assign the variable at the current depth its
    first remaining value, prune its neighbours, and descend or retry. */
module Search {
  import opened Csp
  import opened Revision
  import opened RevisionLaws
  import opened DomainOrder
  import opened DegreeOrder
  import opened CardinalityOrder

  /** Which variable ordering the search uses. The two static orders are
      computed at depth 0, the dynamic one at every depth; with `Unordered`
      (any other heuristic kind) the queue is used as given. */
  datatype Heuristic = StaticMaxDegree | StaticMaxCardinality | DynamicSmallestDomainFirst | Unordered

  /** The result of a search: `Solved` carries the final domain store; `Raised`
      stands for the exception the source raises on an empty queue (in the
      heuristic, or when it indexes the queue) or when it pops a value from
      an empty domain. Python's recursion limit is not modelled. */
  datatype Outcome = Solved(dom: Domains) | NoSolution | Raised

  /** The heuristic step at the top of every search call. Only positions from
      `depth` on may move, and the queue stays a permutation of itself. */
  function Reorder(h: Heuristic, queue: seq<Var>, dom: Domains, depth: nat,
                   constraints: seq<Constraint>): (q: seq<Var>)
    requires depth < |queue|
    requires forall v :: v in queue ==> v in dom
    ensures |q| == |queue| && multiset(q) == multiset(queue)
    ensures q[..depth] == queue[..depth]
    ensures forall v :: v in q <==> v in queue
  {
    var q := match h
      case DynamicSmallestDomainFirst => SmallestDomainFirst(queue, dom, depth)
      case StaticMaxDegree => if depth == 0 then MaximumDegree(queue, constraints) else queue
      case StaticMaxCardinality => if depth == 0 then MaximumCardinality(queue, constraints) else queue
      case Unordered => queue;
    SameMembers(q, queue);
    q
  }

  /** Permutations have the same members. */
  lemma SameMembers(q: seq<Var>, queue: seq<Var>)
    requires multiset(q) == multiset(queue)
    ensures forall v :: v in q <==> v in queue
  {
    forall v
      ensures v in q <==> v in queue
    {
      assert v in q <==> v in multiset(q);
      assert v in queue <==> v in multiset(queue);
    }
  }

  /** What a revision pass over `arcs` into `cur` guarantees of its result
      `r` on the store `dom`. Only heads of arcs into `cur` change, and they
      only lose values. A consistent pass leaves every such head non-empty;
      a failed one leaves one of them empty. When `cur` is pinned to one
      value, a consistent pass keeps it pinned and leaves in each such head
      only values related to that value. */
  ghost predicate PassEffect(rel: Relation, arcs: seq<Arc>, cur: Var, dom: Domains, r: Checked)
    requires cur in dom
    requires forall a :: a in arcs && a.tail == cur ==> a.head in dom
  {
    && r.dom.Keys == dom.Keys
    && (forall k :: k in dom ==> |r.dom[k]| <= |dom[k]|)
    && (forall k, w :: k in dom && w in r.dom[k] ==> w in dom[k])
    && (forall k :: k in dom && r.dom[k] != dom[k] ==> Pair(k, cur) in arcs)
    && (r.consistent ==> forall k :: k in dom && dom[k] != [] ==> r.dom[k] != [])
    && (r.consistent ==> forall a :: a in arcs && a.tail == cur ==> r.dom[a.head] != [])
    && (!r.consistent ==> exists a :: a in arcs && a.tail == cur && r.dom[a.head] == [])
    && (r.consistent && |dom[cur]| == 1 ==> r.dom[cur] == dom[cur])
    && (r.consistent && |dom[cur]| == 1 ==>
          forall a, w :: a in arcs && a.tail == cur && w in r.dom[a.head] ==> rel.Holds(w, dom[cur][0]))
  }

  /** A failed pass ends at an arc `arcs[i]` into `cur` whose head it
      emptied, and every domain that changed is the head of an arc into
      `cur` among `arcs[..i+1]`. (That `arcs[i]` is the first failing arc is
      stated, for a pinned `cur`, by `PinnedFailure`.) */
  ghost predicate StopsAtFailure(arcs: seq<Arc>, cur: Var, dom: Domains, r: Checked)
    requires r.dom.Keys == dom.Keys
    requires forall a :: a in arcs && a.tail == cur ==> a.head in dom
  {
    !r.consistent ==> exists i :: EndsAt(arcs, cur, dom, r, i)
  }

  /** The pass ends at `arcs[i]`, an arc into `cur` whose head it emptied,
      and changed nothing but heads of arcs into `cur` up to that one. */
  ghost predicate EndsAt(arcs: seq<Arc>, cur: Var, dom: Domains, r: Checked, i: int)
    requires r.dom.Keys == dom.Keys
    requires forall a :: a in arcs && a.tail == cur ==> a.head in dom
  {
    && 0 <= i < |arcs| && arcs[i].tail == cur && r.dom[arcs[i].head] == []
    && forall k :: k in dom && r.dom[k] != dom[k] ==> Pair(k, cur) in arcs[..i + 1]
  }

  /** A consistent pass from a pinned `cur` leaves each other neighbour with
      exactly the values the pinned value supports. */
  ghost predicate PinnedPassExact(rel: Relation, arcs: seq<Arc>, cur: Var, dom: Domains, r: Checked)
    requires cur in dom && r.dom.Keys == dom.Keys
    requires forall a :: a in arcs && a.tail == cur ==> a.head in dom
  {
    r.consistent && |dom[cur]| == 1 ==>
      forall a :: a in arcs && a.tail == cur && a.head != cur ==>
        r.dom[a.head] == Supported(rel, dom[a.head], dom[cur])
  }

  /** From a pinned `cur`, the pass fails at `arcs[i]`: it is the first arc
      into `cur` whose head has no value the pinned value supports; every
      arc into `cur` up to it leaves its head at exactly the supported
      values; and nothing after it changes. */
  ghost predicate FailsFirstAt(rel: Relation, arcs: seq<Arc>, cur: Var, dom: Domains, r: Checked, i: int)
    requires cur in dom && r.dom.Keys == dom.Keys
    requires forall a :: a in arcs && a.tail == cur ==> a.head in dom
  {
    && 0 <= i < |arcs| && arcs[i].tail == cur
    && Supported(rel, dom[arcs[i].head], dom[cur]) == []
    && (forall j :: 0 <= j < i && arcs[j].tail == cur ==> Supported(rel, dom[arcs[j].head], dom[cur]) != [])
    && (forall j :: 0 <= j <= i && arcs[j].tail == cur ==>
          r.dom[arcs[j].head] == Supported(rel, dom[arcs[j].head], dom[cur]))
    && (forall k :: k in dom && r.dom[k] != dom[k] ==> Pair(k, cur) in arcs[..i + 1])
  }

  /** A failed pass from a pinned `cur` fails at its first arc without
      support. */
  ghost predicate PinnedFailure(rel: Relation, arcs: seq<Arc>, cur: Var, dom: Domains, r: Checked)
    requires cur in dom && r.dom.Keys == dom.Keys
    requires forall a :: a in arcs && a.tail == cur ==> a.head in dom
  {
    !r.consistent && |dom[cur]| == 1 ==> exists i :: FailsFirstAt(rel, arcs, cur, dom, r, i)
  }

  /** From a pinned `cur`, the pass succeeds exactly when every arc into
      `cur` has a head with some value the pinned value supports. */
  ghost predicate PinnedVerdict(rel: Relation, arcs: seq<Arc>, cur: Var, dom: Domains, r: Checked)
    requires cur in dom
    requires forall a :: a in arcs && a.tail == cur ==> a.head in dom
  {
    |dom[cur]| == 1 ==>
      (r.consistent <==> forall a :: a in arcs && a.tail == cur ==> Supported(rel, dom[a.head], dom[cur]) != [])
  }

  /** The revision loop of one trial: every arc whose tail is `cur` is
      revised, in order, until one revision empties its head. */
  function ReviseNeighbours(rel: Relation, arcs: seq<Arc>, cur: Var, dom: Domains): (r: Checked)
    requires cur in dom
    requires forall a :: a in arcs && a.tail == cur ==> a.head in dom
    ensures PassEffect(rel, arcs, cur, dom, r)
    ensures StopsAtFailure(arcs, cur, dom, r)
    ensures PinnedPassExact(rel, arcs, cur, dom, r)
  {
    if arcs == [] then Checked(dom, true)
    else if arcs[0].tail != cur then
      assert forall a :: a in arcs[1..] ==> a in arcs;
      var r := ReviseNeighbours(rel, arcs[1..], cur, dom);
      SkipStep(rel, arcs, cur, dom, r);
      SkipStops(rel, arcs, cur, dom, r);
      SkipExact(rel, arcs, cur, dom, r);
      r
    else
      var first := Revise(rel, arcs[0], dom);
      if !first.consistent then
        StopStep(rel, arcs, cur, dom, first);
        first
      else
        assert forall a :: a in arcs[1..] ==> a in arcs;
        var r := ReviseNeighbours(rel, arcs[1..], cur, first.dom);
        PinnedStaysPinned(rel, arcs[0], dom, first);
        TakeStep(rel, arcs, cur, dom, first, r);
        TakeStops(arcs, cur, dom, first, r);
        TakeExact(rel, arcs, cur, dom, first, r);
        r
  }

  /** The converse for a pinned `cur`: the pass reports failure exactly when
      some arc into `cur` has a head without a value the pinned value
      supports, and then it fails at the first such arc. */
  lemma {:induction false} PassVerdict(rel: Relation, arcs: seq<Arc>, cur: Var, dom: Domains)
    requires cur in dom
    requires forall a :: a in arcs && a.tail == cur ==> a.head in dom
    ensures var r := ReviseNeighbours(rel, arcs, cur, dom);
            PinnedFailure(rel, arcs, cur, dom, r) && PinnedVerdict(rel, arcs, cur, dom, r)
  {
    var r := ReviseNeighbours(rel, arcs, cur, dom);
    if arcs == [] {
    } else if arcs[0].tail != cur {
      assert forall a :: a in arcs[1..] ==> a in arcs;
      PassVerdict(rel, arcs[1..], cur, dom);
      SkipFailure(rel, arcs, cur, dom, r);
    } else {
      var first := Revise(rel, arcs[0], dom);
      if !first.consistent {
        StopFailure(rel, arcs, cur, dom, first);
      } else {
        assert forall a :: a in arcs[1..] ==> a in arcs;
        PassVerdict(rel, arcs[1..], cur, first.dom);
        PinnedStaysPinned(rel, arcs[0], dom, first);
        TakeFailure(rel, arcs, cur, dom, first, r);
      }
    }
    VerdictFromEffect(rel, arcs, cur, dom, r);
  }

  /** Passing over an arc that does not point at `cur` keeps what the rest of
      the pass guarantees. */
  lemma SkipStep(rel: Relation, arcs: seq<Arc>, cur: Var, dom: Domains, r: Checked)
    requires cur in dom && arcs != [] && arcs[0].tail != cur
    requires forall a :: a in arcs && a.tail == cur ==> a.head in dom
    requires PassEffect(rel, arcs[1..], cur, dom, r)
    ensures PassEffect(rel, arcs, cur, dom, r)
  {
    assert forall a :: a in arcs[1..] ==> a in arcs;
    if !r.consistent {
      var a :| a in arcs[1..] && a.tail == cur && r.dom[a.head] == [];
      assert a in arcs;
    }
  }

  /** A revision of the arc `arcs[0]` into `cur` that empties its head ends
      the pass with what the whole pass guarantees. */
  lemma StopStep(rel: Relation, arcs: seq<Arc>, cur: Var, dom: Domains, first: Checked)
    requires cur in dom && arcs != [] && arcs[0].tail == cur
    requires forall a :: a in arcs && a.tail == cur ==> a.head in dom
    requires first == Revise(rel, arcs[0], dom) && !first.consistent
    ensures PassEffect(rel, arcs, cur, dom, first)
    ensures StopsAtFailure(arcs, cur, dom, first)
  {
    assert arcs[..1] == [arcs[0]];
    assert EndsAt(arcs, cur, dom, first, 0);
  }

  /** Passing over an arc that does not point at `cur` keeps the stopping
      point of the rest of the pass. */
  lemma SkipStops(rel: Relation, arcs: seq<Arc>, cur: Var, dom: Domains, r: Checked)
    requires cur in dom && arcs != [] && arcs[0].tail != cur
    requires forall a :: a in arcs && a.tail == cur ==> a.head in dom
    requires r.dom.Keys == dom.Keys
    requires StopsAtFailure(arcs[1..], cur, dom, r)
    ensures StopsAtFailure(arcs, cur, dom, r)
  {
    if !r.consistent {
      var i :| EndsAt(arcs[1..], cur, dom, r, i);
      assert arcs[..i + 2] == [arcs[0]] + arcs[1..][..i + 1];
      assert arcs[i + 1] == arcs[1..][i];
      assert EndsAt(arcs, cur, dom, r, i + 1);
    }
  }

  /** Passing over an arc that does not point at `cur` keeps the exact
      pruning of the rest of the pass. */
  lemma SkipExact(rel: Relation, arcs: seq<Arc>, cur: Var, dom: Domains, r: Checked)
    requires cur in dom && arcs != [] && arcs[0].tail != cur
    requires forall a :: a in arcs && a.tail == cur ==> a.head in dom
    requires r.dom.Keys == dom.Keys
    requires PinnedPassExact(rel, arcs[1..], cur, dom, r)
    ensures PinnedPassExact(rel, arcs, cur, dom, r)
  {
    assert arcs == [arcs[0]] + arcs[1..];
  }

  /** A consistent first revision followed by a failing rest stops where the
      rest stops. */
  lemma TakeStops(arcs: seq<Arc>, cur: Var, dom: Domains, first: Checked, r: Checked)
    requires cur in dom && arcs != [] && arcs[0].tail == cur
    requires forall a :: a in arcs && a.tail == cur ==> a.head in dom
    requires first.dom.Keys == dom.Keys
    requires forall k :: k in dom && k != arcs[0].head ==> first.dom[k] == dom[k]
    requires r.dom.Keys == first.dom.Keys
    requires StopsAtFailure(arcs[1..], cur, first.dom, r)
    ensures StopsAtFailure(arcs, cur, dom, r)
  {
    if !r.consistent {
      var i :| EndsAt(arcs[1..], cur, first.dom, r, i);
      assert arcs[..i + 2] == [arcs[0]] + arcs[1..][..i + 1];
      assert arcs[0] == Pair(arcs[0].head, cur);
      assert arcs[i + 1] == arcs[1..][i];
      assert EndsAt(arcs, cur, dom, r, i + 1);
    }
  }

  /** A consistent first revision followed by a consistent rest, from a
      pinned `cur`, prunes every other neighbour to exactly its supported
      values: a neighbour revised twice is filtered twice against the same
      value, which changes nothing. */
  lemma TakeExact(rel: Relation, arcs: seq<Arc>, cur: Var, dom: Domains, first: Checked, r: Checked)
    requires cur in dom && arcs != [] && arcs[0].tail == cur
    requires forall a :: a in arcs && a.tail == cur ==> a.head in dom
    requires first.dom.Keys == dom.Keys
    requires forall k :: k in dom && k != arcs[0].head ==> first.dom[k] == dom[k]
    requires arcs[0].head != cur ==> first.dom[arcs[0].head] == Supported(rel, dom[arcs[0].head], dom[cur])
    requires |dom[cur]| == 1 ==> first.dom[cur] == dom[cur]
    requires r.dom.Keys == first.dom.Keys
    requires forall k :: k in first.dom && r.dom[k] != first.dom[k] ==> Pair(k, cur) in arcs[1..]
    requires PinnedPassExact(rel, arcs[1..], cur, first.dom, r)
    ensures PinnedPassExact(rel, arcs, cur, dom, r)
  {
    if !r.consistent || |dom[cur]| != 1 {
      return;
    }
    forall a | a in arcs && a.tail == cur && a.head != cur
      ensures r.dom[a.head] == Supported(rel, dom[a.head], dom[cur])
    {
      if a.head == arcs[0].head {
        SupportedIdempotent(rel, dom[a.head], dom[cur]);
      }
      if a !in arcs[1..] {
        assert arcs == [arcs[0]] + arcs[1..];
        assert a == Pair(a.head, cur);
      }
    }
  }

  /** A consistent revision of the arc `arcs[0]` into `cur`, followed by the
      rest of the pass, gives what the whole pass guarantees. */
  lemma TakeStep(rel: Relation, arcs: seq<Arc>, cur: Var, dom: Domains, first: Checked, r: Checked)
    requires cur in dom && arcs != [] && arcs[0].tail == cur
    requires forall a :: a in arcs && a.tail == cur ==> a.head in dom
    requires first.dom.Keys == dom.Keys && first.consistent
    requires forall k :: k in dom && k != arcs[0].head ==> first.dom[k] == dom[k]
    requires first.dom[arcs[0].head] != []
    requires |first.dom[arcs[0].head]| <= |dom[arcs[0].head]|
    requires forall w :: w in first.dom[arcs[0].head] ==> w in dom[arcs[0].head]
    requires |dom[cur]| == 1 ==> first.dom[cur] == dom[cur]
    requires |dom[cur]| == 1 ==> forall w :: w in first.dom[arcs[0].head] ==> rel.Holds(w, dom[cur][0])
    requires PassEffect(rel, arcs[1..], cur, first.dom, r)
    ensures PassEffect(rel, arcs, cur, dom, r)
  {
    assert forall a :: a in arcs[1..] ==> a in arcs;
    if !r.consistent {
      var a :| a in arcs[1..] && a.tail == cur && r.dom[a.head] == [];
      assert a in arcs;
    }
  }

  /** The verdict of a pass from a pinned `cur` follows from what it does to
      the heads: a consistent pass leaves every head at its non-empty
      supported values, and a failed one stops at a head without support. */
  lemma VerdictFromEffect(rel: Relation, arcs: seq<Arc>, cur: Var, dom: Domains, r: Checked)
    requires cur in dom
    requires forall a :: a in arcs && a.tail == cur ==> a.head in dom
    requires PassEffect(rel, arcs, cur, dom, r)
    requires PinnedPassExact(rel, arcs, cur, dom, r)
    requires PinnedFailure(rel, arcs, cur, dom, r)
    ensures PinnedVerdict(rel, arcs, cur, dom, r)
  {
    if |dom[cur]| != 1 {
      return;
    }
    if r.consistent {
      forall a | a in arcs && a.tail == cur
        ensures Supported(rel, dom[a.head], dom[cur]) != []
      {
        if a.head == cur {
          var v := dom[cur][0];
          assert v in r.dom[a.head];
          assert HasSupport(rel, v, dom[cur]);
          assert v in Supported(rel, dom[a.head], dom[cur]);
        }
      }
    } else {
      var i :| FailsFirstAt(rel, arcs, cur, dom, r, i);
      assert arcs[i] in arcs;
    }
  }

  /** Passing over an arc that does not point at `cur` keeps the first
      failing arc of the rest of the pass. */
  lemma SkipFailure(rel: Relation, arcs: seq<Arc>, cur: Var, dom: Domains, r: Checked)
    requires cur in dom && arcs != [] && arcs[0].tail != cur
    requires forall a :: a in arcs && a.tail == cur ==> a.head in dom
    requires r.dom.Keys == dom.Keys
    requires PinnedFailure(rel, arcs[1..], cur, dom, r)
    ensures PinnedFailure(rel, arcs, cur, dom, r)
  {
    if !r.consistent && |dom[cur]| == 1 {
      var i :| FailsFirstAt(rel, arcs[1..], cur, dom, r, i);
      forall j | 0 <= j <= i + 1 && arcs[j].tail == cur
        ensures 1 <= j && arcs[j] == arcs[1..][j - 1]
      {
      }
      assert arcs[..i + 2] == [arcs[0]] + arcs[1..][..i + 1];
      assert FailsFirstAt(rel, arcs, cur, dom, r, i + 1);
    }
  }

  /** A first revision into a pinned `cur` that empties its head is the
      first failing arc. */
  lemma StopFailure(rel: Relation, arcs: seq<Arc>, cur: Var, dom: Domains, first: Checked)
    requires cur in dom && arcs != [] && arcs[0].tail == cur
    requires forall a :: a in arcs && a.tail == cur ==> a.head in dom
    requires first == Revise(rel, arcs[0], dom) && !first.consistent
    ensures PinnedFailure(rel, arcs, cur, dom, first)
  {
    if |dom[cur]| == 1 {
      assert arcs[..1] == [arcs[0]];
      assert FailsFirstAt(rel, arcs, cur, dom, first, 0);
    }
  }

  /** Filtering a revised head again against the same pinned value gives the
      same supported values as filtering the original head. */
  lemma SameSupport(rel: Relation, h0: Var, dom: Domains, first: Domains, pin: seq<Val>)
    requires first.Keys == dom.Keys && h0 in dom
    requires forall k :: k in dom && k != h0 ==> first[k] == dom[k]
    requires first[h0] == Supported(rel, dom[h0], pin)
    ensures forall k :: k in dom ==> Supported(rel, first[k], pin) == Supported(rel, dom[k], pin)
  {
    SupportedIdempotent(rel, dom[h0], pin);
  }

  /** A consistent first revision into a pinned `cur`, followed by a failing
      rest, fails at the rest's first failing arc. */
  lemma TakeFailure(rel: Relation, arcs: seq<Arc>, cur: Var, dom: Domains, first: Checked, r: Checked)
    requires cur in dom && arcs != [] && arcs[0].tail == cur
    requires forall a :: a in arcs && a.tail == cur ==> a.head in dom
    requires first.dom.Keys == dom.Keys && r.dom.Keys == dom.Keys
    requires forall k :: k in dom && k != arcs[0].head ==> first.dom[k] == dom[k]
    requires arcs[0].head != arcs[0].tail || |dom[arcs[0].head]| <= 1 ==>
      first.dom[arcs[0].head] == Supported(rel, dom[arcs[0].head], dom[arcs[0].tail])
    requires first.dom[arcs[0].head] != []
    requires |dom[cur]| == 1 ==> first.dom[cur] == dom[cur]
    requires PinnedFailure(rel, arcs[1..], cur, first.dom, r)
    ensures PinnedFailure(rel, arcs, cur, dom, r)
  {
    if !r.consistent && |dom[cur]| == 1 {
      var i :| FailsFirstAt(rel, arcs[1..], cur, first.dom, r, i);
      SameSupport(rel, arcs[0].head, dom, first.dom, dom[cur]);
      TakeFailsFirst(rel, arcs, cur, dom, first.dom, r, i);
    }
  }

  /** The step of `TakeFailure` for one witness `i` of the rest of the pass. */
  lemma TakeFailsFirst(rel: Relation, arcs: seq<Arc>, cur: Var, dom: Domains, first: Domains, r: Checked, i: int)
    requires cur in dom && arcs != [] && arcs[0].tail == cur
    requires forall a :: a in arcs && a.tail == cur ==> a.head in dom
    requires first.Keys == dom.Keys && r.dom.Keys == dom.Keys
    requires forall k :: k in dom && k != arcs[0].head ==> first[k] == dom[k]
    requires first[arcs[0].head] == Supported(rel, dom[arcs[0].head], dom[cur]) && first[arcs[0].head] != []
    requires first[cur] == dom[cur]
    requires forall k :: k in dom ==> Supported(rel, first[k], dom[cur]) == Supported(rel, dom[k], dom[cur])
    requires FailsFirstAt(rel, arcs[1..], cur, first, r, i)
    ensures FailsFirstAt(rel, arcs, cur, dom, r, i + 1)
  {
    forall j | 1 <= j <= i + 1
      ensures arcs[j] == arcs[1..][j - 1]
    {
    }
    TakeRevisedExact(rel, arcs, cur, dom, first, r, i);
    TakeChangedWithin(arcs, cur, dom, first, r, i);
  }

  /** Every arc into `cur` up to the failing one leaves its head at exactly
      its supported values, the first arc included. */
  lemma TakeRevisedExact(rel: Relation, arcs: seq<Arc>, cur: Var, dom: Domains, first: Domains, r: Checked, i: int)
    requires cur in dom && arcs != [] && arcs[0].tail == cur
    requires forall a :: a in arcs && a.tail == cur ==> a.head in dom
    requires first.Keys == dom.Keys && r.dom.Keys == dom.Keys
    requires first[arcs[0].head] == Supported(rel, dom[arcs[0].head], dom[cur])
    requires first[cur] == dom[cur]
    requires forall k :: k in dom ==> Supported(rel, first[k], dom[cur]) == Supported(rel, dom[k], dom[cur])
    requires FailsFirstAt(rel, arcs[1..], cur, first, r, i)
    ensures forall j :: 0 <= j <= i + 1 && arcs[j].tail == cur ==>
      r.dom[arcs[j].head] == Supported(rel, dom[arcs[j].head], dom[cur])
  {
    var h0 := arcs[0].head;
    var revised := arcs[1..][..i + 1];
    if Pair(h0, cur) in revised {
      var j :| 0 <= j < |revised| && revised[j] == Pair(h0, cur);
      assert arcs[1..][j] == Pair(h0, cur);
    }
    assert r.dom[h0] == first[h0];
    forall j | 1 <= j <= i + 1 && arcs[j].tail == cur
      ensures r.dom[arcs[j].head] == Supported(rel, dom[arcs[j].head], dom[cur])
    {
      assert arcs[j] == arcs[1..][j - 1];
    }
  }

  /** Every domain that changed is the head of an arc into `cur` up to the
      failing one. */
  lemma TakeChangedWithin(arcs: seq<Arc>, cur: Var, dom: Domains, first: Domains, r: Checked, i: int)
    requires arcs != [] && arcs[0].tail == cur && 0 <= i < |arcs| - 1
    requires first.Keys == dom.Keys && r.dom.Keys == dom.Keys
    requires forall k :: k in dom && k != arcs[0].head ==> first[k] == dom[k]
    requires forall k :: k in first && r.dom[k] != first[k] ==> Pair(k, cur) in arcs[1..][..i + 1]
    ensures forall k :: k in dom && r.dom[k] != dom[k] ==> Pair(k, cur) in arcs[..i + 2]
  {
    assert arcs[..i + 2] == [arcs[0]] + arcs[1..][..i + 1];
    assert arcs[0] == Pair(arcs[0].head, cur);
  }

  /** A consistent revision against a pinned tail keeps the tail pinned and
      leaves only values related to the pinned value. */
  lemma PinnedStaysPinned(rel: Relation, arc: Arc, dom: Domains, first: Checked)
    requires arc.head in dom && arc.tail in dom
    requires first == Revise(rel, arc, dom) && first.consistent
    ensures |dom[arc.tail]| == 1 ==> first.dom[arc.tail] == dom[arc.tail]
    ensures |dom[arc.tail]| == 1 ==> forall w :: w in first.dom[arc.head] ==> rel.Holds(w, dom[arc.tail][0])
  {
    if |dom[arc.tail]| != 1 {
      return;
    }
    var v := dom[arc.tail][0];
    assert dom[arc.tail] == [v];
    forall w | w in first.dom[arc.head]
      ensures rel.Holds(w, v)
    {
      assert HasSupport(rel, w, dom[arc.tail]);
    }
    if arc.head == arc.tail {
      var r := first.dom[arc.head];
      assert r[0] in r;
      assert r == [v];
    }
  }

  /** Some member of a non-empty set of variables, the same one every time. */
  ghost function Pick(keys: set<Var>): (k: Var)
    requires keys != {}
    ensures k in keys
  {
    var k :| k in keys; k
  }

  /** Total number of values left in the domains of `keys`. */
  ghost function MassOf(dom: Domains, keys: set<Var>): nat
    requires keys <= dom.Keys
    decreases keys
  {
    if keys == {} then 0
    else |dom[Pick(keys)]| + MassOf(dom, keys - {Pick(keys)})
  }

  /** Total number of values left in the whole store. */
  ghost function Mass(dom: Domains): nat {
    MassOf(dom, dom.Keys)
  }

  /** Pointwise smaller domains have smaller mass, strictly so when one of
      them is strictly smaller. */
  lemma {:induction false} MassOfShrinks(smaller: Domains, larger: Domains, keys: set<Var>, k0: Var)
    requires keys <= smaller.Keys && keys <= larger.Keys
    requires forall k :: k in keys ==> |smaller[k]| <= |larger[k]|
    ensures MassOf(smaller, keys) <= MassOf(larger, keys)
    ensures k0 in keys && |smaller[k0]| < |larger[k0]| ==> MassOf(smaller, keys) < MassOf(larger, keys)
    decreases keys
  {
    if keys != {} {
      var k := Pick(keys);
      MassOfShrinks(smaller, larger, keys - {k}, k0);
    }
  }

  /** A trial only shrinks the store: after pinning `cur` and revising, and
      again after restoring `cur` to its remaining values, every domain draws
      its values from what it was, the revised domains are no longer than
      before, and the restored store has strictly less mass. */
  lemma TrialShrinks(dom: Domains, cur: Var, checked: Checked)
    requires cur in dom && dom[cur] != []
    requires checked.dom.Keys == dom.Keys
    requires forall k :: k in dom ==> |checked.dom[k]| <= |dom[cur := [dom[cur][0]]][k]|
    requires forall k, w :: k in dom && w in checked.dom[k] ==> w in dom[cur := [dom[cur][0]]][k]
    ensures forall k :: k in dom ==> |checked.dom[k]| <= |dom[k]|
    ensures forall k, w :: k in dom && w in checked.dom[k] ==> w in dom[k]
    ensures forall k, w :: k in dom && w in checked.dom[cur := dom[cur][1..]][k] ==> w in dom[k]
    ensures Mass(checked.dom[cur := dom[cur][1..]]) < Mass(dom)
  {
    var retry := checked.dom[cur := dom[cur][1..]];
    forall k, w | k in dom && w in retry[k]
      ensures w in dom[k]
    {
      if k == cur {
        assert dom[cur] == [dom[cur][0]] + dom[cur][1..];
      }
    }
    assert retry.Keys == dom.Keys;
    MassOfShrinks(retry, dom, dom.Keys, cur);
  }

  /** Forward checking from `depth`: reorder the queue as the heuristic
      says, then run a trial on the variable now at `depth`. */
  function ForwardCheck(depth: nat, rel: Relation, dom: Domains, queue: seq<Var>,
                        arcs: seq<Arc>, constraints: seq<Constraint>, h: Heuristic): (r: Outcome)
    requires forall v :: v in queue ==> v in dom
    requires forall a :: a in arcs && a.tail in queue ==> a.head in dom
    ensures r.Solved? ==> r.dom.Keys == dom.Keys
    ensures r.Solved? ==> forall k, w :: k in dom && w in r.dom[k] ==> w in dom[k]
    decreases |queue| - depth, Mass(dom), 1
  {
    if depth >= |queue| then Raised
    else
      var q := Reorder(h, queue, dom, depth, constraints);
      Trial(depth, rel, dom, q, arcs, constraints, h)
  }

  /** One trial at `depth`: the first value of the current variable is
      removed and pinned, the rest kept. A consistent revision pass succeeds
      at the last depth and descends otherwise; a failed one retries at the
      same depth with the kept values, without undoing the neighbours'
      pruning, or fails when none are kept. A failure returned from the
      descent is passed straight up. */
  function Trial(depth: nat, rel: Relation, dom: Domains, queue: seq<Var>,
                 arcs: seq<Arc>, constraints: seq<Constraint>, h: Heuristic): (r: Outcome)
    requires depth < |queue|
    requires forall v :: v in queue ==> v in dom
    requires forall a :: a in arcs && a.tail in queue ==> a.head in dom
    ensures r.Solved? ==> r.dom.Keys == dom.Keys
    ensures r.Solved? ==> forall k, w :: k in dom && w in r.dom[k] ==> w in dom[k]
    decreases |queue| - depth, Mass(dom), 0
  {
    var cur := queue[depth];
    if dom[cur] == [] then Raised
    else
      var value := dom[cur][0];
      var leftOver := dom[cur][1..];
      var checked := ReviseNeighbours(rel, arcs, cur, dom[cur := [value]]);
      TrialShrinks(dom, cur, checked);
      if checked.consistent then
        if depth == |queue| - 1 then Solved(checked.dom)
        else
          var r := ForwardCheck(depth + 1, rel, checked.dom, queue, arcs, constraints, h);
          SolvedWithin(dom, checked.dom, r);
          r
      else if |leftOver| > 0 then
        var r := ForwardCheck(depth, rel, checked.dom[cur := leftOver], queue, arcs, constraints, h);
        SolvedWithin(dom, checked.dom[cur := leftOver], r);
        r
      else
        NoSolution
  }

  /** A solution drawn from a store whose values come from `dom` draws its
      values from `dom`. */
  lemma SolvedWithin(dom: Domains, mid: Domains, r: Outcome)
    requires mid.Keys == dom.Keys
    requires forall k, w :: k in dom && w in mid[k] ==> w in dom[k]
    requires r.Solved? ==> r.dom.Keys == mid.Keys
    requires r.Solved? ==> forall k, w :: k in mid && w in r.dom[k] ==> w in mid[k]
    ensures r.Solved? ==> r.dom.Keys == dom.Keys
    ensures r.Solved? ==> forall k, w :: k in dom && w in r.dom[k] ==> w in dom[k]
  {
  }
}
