/** Arc revision: pruning the head's domain to the values that some value of
    the tail's domain supports. The inequality and equality revisers of the
    source are one algorithm, parameterised here by the `Relation`. */
module Revision {
  import opened Csp

  /** Some value of `ys` supports `v` under `rel`. */
  predicate HasSupport(rel: Relation, v: Val, ys: seq<Val>) {
    exists w :: w in ys && rel.Holds(v, w)
  }

  /** Reference meaning of a revision: the values of `xs` that have support in
      `ys`, in their original order and with their multiplicity. */
  function Supported(rel: Relation, xs: seq<Val>, ys: seq<Val>): (r: seq<Val>)
    ensures |r| <= |xs|
    ensures forall v :: v in r <==> v in xs && HasSupport(rel, v, ys)
  {
    if xs == [] then []
    else
      assert xs == [xs[0]] + xs[1..];
      (if HasSupport(rel, xs[0], ys) then [xs[0]] else []) + Supported(rel, xs[1..], ys)
  }

  /** The cells of a domain list before any of them is marked. */
  function AsCells(xs: seq<Val>): (cells: seq<Option<Val>>)
    ensures |cells| == |xs|
    ensures forall i :: 0 <= i < |xs| ==> cells[i] == Some(xs[i])
  {
    if xs == [] then [] else [Some(xs[0])] + AsCells(xs[1..])
  }

  /** The support test of the inner loop: some cell of `against` is related to `c`. */
  predicate CellSupported(rel: Relation, c: Option<Val>, against: seq<Option<Val>>) {
    exists k :: 0 <= k < |against| && rel.Holds(c, against[k])
  }

  /** The marking loop over positions `i..`: a cell without support is
      overwritten with `None`. When head and tail are the same variable
      (`aliased`) the list being marked is also the list searched for support,
      so cells marked earlier take part in later support tests. */
  function MarkUnsupported(rel: Relation, cells: seq<Option<Val>>, i: nat,
                           tail: seq<Option<Val>>, aliased: bool): (r: seq<Option<Val>>)
    requires i <= |cells|
    ensures |r| == |cells|
    ensures forall j :: 0 <= j < |cells| ==> r[j] == cells[j] || r[j] == None
    ensures forall j :: 0 <= j < i ==> r[j] == cells[j]
    ensures !aliased ==> forall j :: i <= j < |cells| ==>
      r[j] == (if CellSupported(rel, cells[j], tail) then cells[j] else None)
    decreases |cells| - i
  {
    if i == |cells| then cells
    else
      var against := if aliased then cells else tail;
      var next := if CellSupported(rel, cells[i], against) then cells else cells[i := None];
      MarkUnsupported(rel, next, i + 1, tail, aliased)
  }

  /** The comprehension that drops the `None` cells. */
  function DropMarked(cells: seq<Option<Val>>): seq<Val> {
    if cells == [] then []
    else (if cells[0].Some? then [cells[0].value] else []) + DropMarked(cells[1..])
  }

  /** The outcome of a revision: the new store and whether the head kept a value. */
  datatype Checked = Checked(dom: Domains, consistent: bool)

  /** One revision of `arc`: only the head's entry changes; it becomes the
      supported values (exactly the reference filter whenever the head is not
      also the tail, or has at most one value), and the result reports whether
      any value is left. */
  function Revise(rel: Relation, arc: Arc, dom: Domains): (r: Checked)
    requires arc.head in dom && arc.tail in dom
    ensures r.dom.Keys == dom.Keys
    ensures forall k :: k in dom && k != arc.head ==> r.dom[k] == dom[k]
    ensures r.consistent <==> r.dom[arc.head] != []
    ensures |r.dom[arc.head]| <= |dom[arc.head]|
    ensures forall w :: w in r.dom[arc.head] ==> w in dom[arc.head]
    ensures arc.head != arc.tail || |dom[arc.head]| <= 1 ==>
      r.dom[arc.head] == Supported(rel, dom[arc.head], dom[arc.tail])
  {
    var xs := dom[arc.head];
    var cells := AsCells(xs);
    var marked := MarkUnsupported(rel, cells, 0, AsCells(dom[arc.tail]), arc.head == arc.tail);
    var kept := DropMarked(marked);
    DropMarkedShrinks(marked, cells);
    DropAsCells(xs);
    if arc.head != arc.tail then
      DropMarkedAgainst(rel, xs, dom[arc.tail], marked);
      Checked(dom[arc.head := kept], |kept| > 0)
    else
      SelfArcShort(rel, xs, marked);
      Checked(dom[arc.head := kept], |kept| > 0)
  }

  /** Dropping unmarked cells gives the original list back. */
  lemma {:induction false} DropAsCells(xs: seq<Val>)
    ensures DropMarked(AsCells(xs)) == xs
  {
    if xs != [] {
      assert AsCells(xs)[1..] == AsCells(xs[1..]);
      DropAsCells(xs[1..]);
    }
  }

  /** Marking can only shorten the list that survives, and never adds values. */
  lemma {:induction false} DropMarkedShrinks(marked: seq<Option<Val>>, cells: seq<Option<Val>>)
    requires |marked| == |cells|
    requires forall j :: 0 <= j < |cells| ==> marked[j] == cells[j] || marked[j] == None
    ensures |DropMarked(marked)| <= |DropMarked(cells)|
    ensures forall w :: w in DropMarked(marked) ==> w in DropMarked(cells)
  {
    if cells != [] {
      DropMarkedShrinks(marked[1..], cells[1..]);
    }
  }

  /** A cell holding a value is supported by the cells of `ys` exactly when the
      value is supported by `ys`. */
  lemma CellSupportedAsCells(rel: Relation, v: Val, ys: seq<Val>)
    ensures CellSupported(rel, Some(v), AsCells(ys)) <==> HasSupport(rel, v, ys)
  {
    var cells := AsCells(ys);
    if CellSupported(rel, Some(v), cells) {
      var k :| 0 <= k < |cells| && rel.Holds(Some(v), cells[k]);
      assert ys[k] in ys && rel.Holds(v, ys[k]);
    }
    if HasSupport(rel, v, ys) {
      var w :| w in ys && rel.Holds(v, w);
      var k :| 0 <= k < |ys| && ys[k] == w;
      assert rel.Holds(Some(v), cells[k]);
    }
  }

  /** Without aliasing, marking then dropping is the reference filter. */
  lemma {:induction false} DropMarkedAgainst(rel: Relation, xs: seq<Val>, ys: seq<Val>,
                                             marked: seq<Option<Val>>)
    requires |marked| == |xs|
    requires forall j :: 0 <= j < |xs| ==>
      marked[j] == (if CellSupported(rel, Some(xs[j]), AsCells(ys)) then Some(xs[j]) else None)
    ensures DropMarked(marked) == Supported(rel, xs, ys)
  {
    if xs != [] {
      CellSupportedAsCells(rel, xs[0], ys);
      assert forall j :: 0 <= j < |xs| - 1 ==> marked[1..][j] == marked[j + 1];
      DropMarkedAgainst(rel, xs[1..], ys, marked[1..]);
    }
  }

  /** A self-arc on at most one value behaves like the reference filter. */
  lemma SelfArcShort(rel: Relation, xs: seq<Val>, marked: seq<Option<Val>>)
    requires marked == MarkUnsupported(rel, AsCells(xs), 0, AsCells(xs), true)
    ensures |xs| <= 1 ==> DropMarked(marked) == Supported(rel, xs, xs)
  {
    if |xs| == 1 {
      var v := xs[0];
      var cells := AsCells(xs);
      assert cells == [Some(v)];
      CellSupportedAsCells(rel, v, xs);
      var next := if CellSupported(rel, Some(v), cells) then cells else cells[0 := None];
      assert marked == MarkUnsupported(rel, next, 1, cells, true);
      assert marked == next;
    } else if xs == [] {
      assert AsCells(xs) == [];
    }
  }
}
