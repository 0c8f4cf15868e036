/** Small concrete instances of the solver. Each concrete store is passed in
    as a parameter pinned by a precondition, so that the verifier steps
    through the search one call at a time. */
module Instances {
  import opened Csp
  import opened Setup
  import opened Revision
  import opened Search
  import opened RevisionLaws
  import opened Soundness

  // One step of the search, for any store.

  /** A search call without heuristic is the trial at the same depth. */
  lemma UnorderedIsTrial(depth: nat, rel: Relation, dom: Domains, queue: seq<Var>,
                         arcs: seq<Arc>, constraints: seq<Constraint>)
    requires depth < |queue|
    requires forall v :: v in queue ==> v in dom
    requires forall a :: a in arcs && a.tail in queue ==> a.head in dom
    ensures ForwardCheck(depth, rel, dom, queue, arcs, constraints, Unordered)
            == Trial(depth, rel, dom, queue, arcs, constraints, Unordered)
  {
  }

  /** A consistent trial before the last depth continues at the next depth. */
  lemma TrialDescends(depth: nat, rel: Relation, dom: Domains, queue: seq<Var>,
                      arcs: seq<Arc>, constraints: seq<Constraint>, h: Heuristic, after: Domains)
    requires depth + 1 < |queue|
    requires forall v :: v in queue ==> v in dom
    requires forall a :: a in arcs && a.tail in queue ==> a.head in dom
    requires dom[queue[depth]] != []
    requires ReviseNeighbours(rel, arcs, queue[depth], dom[queue[depth] := [dom[queue[depth]][0]]])
             == Checked(after, true)
    ensures Trial(depth, rel, dom, queue, arcs, constraints, h)
            == ForwardCheck(depth + 1, rel, after, queue, arcs, constraints, h)
  {
  }

  /** A consistent trial at the last depth is a solution. */
  lemma TrialSolves(depth: nat, rel: Relation, dom: Domains, queue: seq<Var>,
                    arcs: seq<Arc>, constraints: seq<Constraint>, h: Heuristic, after: Domains)
    requires depth + 1 == |queue|
    requires forall v :: v in queue ==> v in dom
    requires forall a :: a in arcs && a.tail in queue ==> a.head in dom
    requires dom[queue[depth]] != []
    requires ReviseNeighbours(rel, arcs, queue[depth], dom[queue[depth] := [dom[queue[depth]][0]]])
             == Checked(after, true)
    ensures Trial(depth, rel, dom, queue, arcs, constraints, h) == Solved(after)
  {
  }

  /** A failed trial of a variable's last value ends the search. */
  lemma TrialLastValueFails(depth: nat, rel: Relation, dom: Domains, queue: seq<Var>,
                            arcs: seq<Arc>, constraints: seq<Constraint>, h: Heuristic)
    requires depth < |queue|
    requires forall v :: v in queue ==> v in dom
    requires forall a :: a in arcs && a.tail in queue ==> a.head in dom
    requires |dom[queue[depth]]| == 1
    requires !ReviseNeighbours(rel, arcs, queue[depth], dom).consistent
    ensures Trial(depth, rel, dom, queue, arcs, constraints, h) == NoSolution
  {
    var cur := queue[depth];
    assert dom[cur] == [dom[cur][0]];
    assert dom[cur := [dom[cur][0]]] == dom;
  }

  /** An arc whose tail is not the current variable is passed over. */
  lemma SkipArc(rel: Relation, arcs: seq<Arc>, cur: Var, dom: Domains)
    requires cur in dom && forall a :: a in arcs && a.tail == cur ==> a.head in dom
    requires arcs != [] && arcs[0].tail != cur
    ensures ReviseNeighbours(rel, arcs, cur, dom) == ReviseNeighbours(rel, arcs[1..], cur, dom)
  {
  }

  /** An arc into the current variable is revised, and the pass goes on when
      the revision leaves its head non-empty. */
  lemma TakeArc(rel: Relation, arcs: seq<Arc>, cur: Var, dom: Domains)
    requires cur in dom && forall a :: a in arcs && a.tail == cur ==> a.head in dom
    requires arcs != [] && arcs[0].tail == cur && Revise(rel, arcs[0], dom).consistent
    ensures ReviseNeighbours(rel, arcs, cur, dom)
            == ReviseNeighbours(rel, arcs[1..], cur, Revise(rel, arcs[0], dom).dom)
  {
  }

  /** An arc into the current variable whose revision empties its head ends the pass. */
  lemma StopArc(rel: Relation, arcs: seq<Arc>, cur: Var, dom: Domains)
    requires cur in dom && forall a :: a in arcs && a.tail == cur ==> a.head in dom
    requires arcs != [] && arcs[0].tail == cur && !Revise(rel, arcs[0], dom).consistent
    ensures ReviseNeighbours(rel, arcs, cur, dom) == Revise(rel, arcs[0], dom)
  {
  }

  // A lone variable.

  /** Any reordering of a one-variable queue is that queue. */
  lemma LoneReorder(h: Heuristic, dom: Domains, queue: seq<Var>)
    requires queue == ["x1"] && "x1" in dom
    ensures Reorder(h, queue, dom, 0, []) == queue
  {
    var q := Reorder(h, queue, dom, 0, []);
    assert q[0] in multiset(q);
  }

  /** A lone variable with the one-value domain `[1]` and no constraints is
      solved with that value, under either relation and any heuristic. */
  lemma LoneVariable(rel: Relation, h: Heuristic, dom: Domains, queue: seq<Var>)
    requires dom == AssignDomains(["x1"], [1]) && queue == ["x1"]
    ensures ForwardCheck(0, rel, dom, queue, GenerateArcs([]), [], h) == Solved(map["x1" := [1]])
  {
    assert dom == map["x1" := [1]];
    assert GenerateArcs([]) == [];
    LoneReorder(h, dom, queue);
    assert dom["x1" := [1]] == dom;
    assert ReviseNeighbours(rel, [], "x1", dom) == Checked(dom, true);
    TrialSolves(0, rel, dom, queue, [], [], h, dom);
  }

  // A self-arc.

  /** On a self-arc the marking loop reads its own marks: revising `(x, x)`
      under inequality with the domain `[1, 1]` keeps one `1`, and revising
      again empties the domain. */
  lemma SelfArcNotIdempotent(dom: Domains)
    requires dom == map["x" := [1, 1]]
    ensures var once := Revise(Inequality, Pair("x", "x"), dom);
            && once.dom["x"] == [1]
            && Revise(Inequality, Pair("x", "x"), once.dom).dom["x"] == []
  {
    var cells := AsCells([1, 1]);
    assert cells == [Some(1), Some(1)];
    assert !CellSupported(Inequality, Some(1), cells);
    var next := cells[0 := None];
    assert CellSupported(Inequality, Some(1), next) by {
      assert Inequality.Holds(Some(1), next[0]);
    }
    assert MarkUnsupported(Inequality, next, 1, cells, true) == next;
    assert next == [None, Some(1)] && next[1..] == [Some(1)];
    assert DropMarked(next[1..][1..]) == [];
    assert DropMarked(next) == [1];
    var once := Revise(Inequality, Pair("x", "x"), dom);
    assert once.dom["x"] == [1];
    assert AsCells([1]) == [Some(1)];
    assert !CellSupported(Inequality, Some(1), [Some(1)]);
  }

  // A solvable chain `a = b`, `b = c` that the search reports unsolvable.

  /** The arcs of the constraints `a = b`, `b = c`. */
  function ChainArcs(): seq<Arc> {
    [Pair("a", "b"), Pair("b", "a"), Pair("b", "c"), Pair("c", "b")]
  }

  /** The chain's arcs, as generated from its constraints. */
  lemma ChainArcsGenerated()
    ensures GenerateArcs([Pair("a", "b"), Pair("b", "c")]) == ChainArcs()
  {
  }

  /** A revision between two different variables that keeps `v` of the head
      stores `v` and reports whether it is non-empty. */
  lemma ReviseTo(rel: Relation, arc: Arc, dom: Domains, v: seq<Val>)
    requires arc.head in dom && arc.tail in dom && arc.head != arc.tail
    requires Supported(rel, dom[arc.head], dom[arc.tail]) == v
    ensures Revise(rel, arc, dom) == Checked(dom[arc.head := v], v != [])
  {
    var r := Revise(rel, arc, dom);
    assert r.dom == dom[arc.head := v];
  }

  /** Depth 0 of the chain: with `a` pinned to 1, the pass prunes `b` from
      `[1, 2]` to `[1]` and succeeds. */
  lemma ChainDepthZero(pinned: Domains)
    requires "a" in pinned && "b" in pinned && "c" in pinned
    requires pinned["a"] == [1] && pinned["b"] == [1, 2]
    ensures ReviseNeighbours(Equality, ChainArcs(), "a", pinned) == Checked(pinned["b" := [1]], true)
  {
    var arcs := ChainArcs();
    var after := pinned["b" := [1]];
    assert OnlyOf([1, 2], 1) == [1] by {
      assert OnlyOf([2], 1) == [];
    }
    EqualitySingleton([1, 2], 1);
    ReviseTo(Equality, Pair("b", "a"), pinned, [1]);
    assert arcs[1..][0] == Pair("b", "a") && arcs[1..][1..] == arcs[2..];
    assert arcs[2..][1..] == arcs[3..] && arcs[3..][1..] == arcs[4..];
    SkipArc(Equality, arcs[3..], "a", after);
    SkipArc(Equality, arcs[2..], "a", after);
    TakeArc(Equality, arcs[1..], "a", pinned);
    SkipArc(Equality, arcs, "a", pinned);
  }

  /** Depth 1 of the chain: with `a` and `b` pinned to 1, the pass keeps `a`
      and empties `c`, so it fails. */
  lemma ChainDepthOne(d: Domains)
    requires "a" in d && "b" in d && "c" in d
    requires d["a"] == [1] && d["b"] == [1] && d["c"] == [2]
    ensures !ReviseNeighbours(Equality, ChainArcs(), "b", d).consistent
  {
    var arcs := ChainArcs();
    assert OnlyOf([1], 1) == [1];
    EqualitySingleton([1], 1);
    ReviseTo(Equality, Pair("a", "b"), d, [1]);
    assert d["a" := [1]] == d;
    assert OnlyOf([2], 1) == [];
    EqualitySingleton([2], 1);
    ReviseTo(Equality, Pair("c", "b"), d, []);
    assert arcs[1..][1..] == arcs[2..] && arcs[2..][1..] == arcs[3..];
    assert arcs[3..][0] == Pair("c", "b");
    StopArc(Equality, arcs[3..], "b", d);
    SkipArc(Equality, arcs[2..], "b", d);
    SkipArc(Equality, arcs[1..], "b", d);
    TakeArc(Equality, arcs, "b", d);
  }

  /** The search call at depth 1 of the chain: `b` has no value left after 1. */
  lemma ChainSearchOne(d: Domains, queue: seq<Var>, constraints: seq<Constraint>)
    requires "a" in d && "b" in d && "c" in d
    requires d["a"] == [1] && d["b"] == [1] && d["c"] == [2]
    requires queue == ["a", "b", "c"] && constraints == [Pair("a", "b"), Pair("b", "c")]
    ensures ForwardCheck(1, Equality, d, queue, ChainArcs(), constraints, Unordered) == NoSolution
  {
    UnorderedIsTrial(1, Equality, d, queue, ChainArcs(), constraints);
    ChainDepthOne(d);
    TrialLastValueFails(1, Equality, d, queue, ChainArcs(), constraints, Unordered);
  }

  /** The search call at depth 0 of the chain: `a = 1` passes, so the search
      goes on to depth 1 with `a` and `b` pinned to 1. */
  lemma ChainSearchZero(dom: Domains, queue: seq<Var>, constraints: seq<Constraint>)
    requires "a" in dom && "b" in dom && "c" in dom
    requires dom["a"] == [1, 2] && dom["b"] == [1, 2]
    requires queue == ["a", "b", "c"] && constraints == [Pair("a", "b"), Pair("b", "c")]
    ensures ForwardCheck(0, Equality, dom, queue, ChainArcs(), constraints, Unordered)
            == ForwardCheck(1, Equality, dom["a" := [1]]["b" := [1]], queue, ChainArcs(), constraints, Unordered)
  {
    var pinned := dom["a" := [dom["a"][0]]];
    ChainDepthZero(pinned);
    UnorderedIsTrial(0, Equality, dom, queue, ChainArcs(), constraints);
    TrialDescends(0, Equality, dom, queue, ChainArcs(), constraints, Unordered, pinned["b" := [1]]);
  }

  /** A failure one level down is final. With `a`, `b` in `[1, 2]`, `c` in
      `[2]` and the equality constraints `a = b`, `b = c`, the search tries
      `a = 1`, prunes `b` to `[1]`, then finds `c` unsupported at depth 1
      with no value of `b` left to try, and reports no solution, although
      choosing 2 for every variable satisfies both constraints. */
  lemma NoBacktrackAcrossDepths(dom: Domains, queue: seq<Var>, constraints: seq<Constraint>)
    requires dom == map["a" := [1, 2], "b" := [1, 2], "c" := [2]]
    requires queue == ["a", "b", "c"] && constraints == [Pair("a", "b"), Pair("b", "c")]
    ensures exists solution :: Solves(Equality, dom, constraints, solution)
    ensures ForwardCheck(0, Equality, dom, queue, GenerateArcs(constraints), constraints, Unordered)
            == NoSolution
  {
    ChainHasSolution(dom, constraints);
    ChainArcsGenerated();
    ChainSearchZero(dom, queue, constraints);
    ChainSearchOne(dom["a" := [1]]["b" := [1]], queue, constraints);
  }

  /** Choosing 2 for every variable solves the chain. */
  lemma ChainHasSolution(dom: Domains, constraints: seq<Constraint>)
    requires dom == map["a" := [1, 2], "b" := [1, 2], "c" := [2]]
    requires constraints == [Pair("a", "b"), Pair("b", "c")]
    ensures exists solution :: Solves(Equality, dom, constraints, solution)
  {
    assert Solves(Equality, dom, constraints, map["a" := [2], "b" := [2], "c" := [2]]);
  }
}
