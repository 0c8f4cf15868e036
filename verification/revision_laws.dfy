/** Laws of arc revision: idempotence, and what revising against an empty or
    a single-valued tail does under each relation. */
module RevisionLaws {
  import opened Csp
  import opened Revision

  /** `xs` with every occurrence of `w` removed. */
  function Without(xs: seq<Val>, w: Val): seq<Val> {
    if xs == [] then [] else (if xs[0] != w then [xs[0]] else []) + Without(xs[1..], w)
  }

  /** `xs` with every value other than `w` removed. */
  function OnlyOf(xs: seq<Val>, w: Val): seq<Val> {
    if xs == [] then [] else (if xs[0] == w then [xs[0]] else []) + OnlyOf(xs[1..], w)
  }

  /** Filtering twice against the same tail removes nothing more. */
  lemma {:induction false} SupportedIdempotent(rel: Relation, xs: seq<Val>, ys: seq<Val>)
    ensures Supported(rel, Supported(rel, xs, ys), ys) == Supported(rel, xs, ys)
  {
    if xs != [] {
      SupportedIdempotent(rel, xs[1..], ys);
      var head := if HasSupport(rel, xs[0], ys) then [xs[0]] else [];
      var once := head + Supported(rel, xs[1..], ys);
      if head != [] {
        assert once[0] == xs[0] && once[1..] == Supported(rel, xs[1..], ys);
      } else {
        assert once == Supported(rel, xs[1..], ys);
      }
    }
  }

  /** A second revision of the same arc leaves the store as the first one left
      it. The head must differ from the tail: on a self-arc the marking loop
      reads its own marks, and a second pass can remove more. */
  lemma ReviseIdempotent(rel: Relation, arc: Arc, dom: Domains)
    requires arc.head in dom && arc.tail in dom
    requires arc.head != arc.tail
    ensures Revise(rel, arc, Revise(rel, arc, dom).dom) == Revise(rel, arc, dom)
  {
    var once := Revise(rel, arc, dom);
    var twice := Revise(rel, arc, once.dom);
    SupportedIdempotent(rel, dom[arc.head], dom[arc.tail]);
    assert twice.dom[arc.head] == once.dom[arc.head];
    assert twice.dom == once.dom;
  }

  /** Revising against an empty tail empties the head and reports failure,
      under either relation. */
  lemma ReviseEmptyTail(rel: Relation, arc: Arc, dom: Domains)
    requires arc.head in dom && arc.tail in dom
    requires dom[arc.tail] == []
    ensures Revise(rel, arc, dom).dom[arc.head] == []
    ensures !Revise(rel, arc, dom).consistent
  {
    SupportedEmptyTail(rel, dom[arc.head]);
  }

  /** Nothing has support in an empty tail. */
  lemma {:induction false} SupportedEmptyTail(rel: Relation, xs: seq<Val>)
    ensures Supported(rel, xs, []) == []
  {
    if xs != [] {
      SupportedEmptyTail(rel, xs[1..]);
    }
  }

  /** Under inequality, the only values a single-valued tail `[w]` cannot
      support are the copies of `w`. */
  lemma {:induction false} InequalitySingleton(xs: seq<Val>, w: Val)
    ensures Supported(Inequality, xs, [w]) == Without(xs, w)
  {
    if xs != [] {
      assert HasSupport(Inequality, xs[0], [w]) <==> xs[0] != w by {
        if xs[0] != w {
          assert w in [w];
        }
      }
      InequalitySingleton(xs[1..], w);
    }
  }

  /** Under equality, a single-valued tail `[w]` supports the copies of `w` only. */
  lemma {:induction false} EqualitySingleton(xs: seq<Val>, w: Val)
    ensures Supported(Equality, xs, [w]) == OnlyOf(xs, w)
  {
    if xs != [] {
      assert HasSupport(Equality, xs[0], [w]) <==> xs[0] == w by {
        if xs[0] == w {
          assert w in [w];
        }
      }
      EqualitySingleton(xs[1..], w);
    }
  }

  /** Revising an inequality arc whose tail is pinned to `w` removes exactly the
      occurrences of `w` from the head. */
  lemma ReviseInequalityPinnedTail(arc: Arc, dom: Domains, w: Val)
    requires arc.head in dom && arc.tail in dom
    requires dom[arc.tail] == [w]
    ensures Revise(Inequality, arc, dom).dom[arc.head] == Without(dom[arc.head], w)
  {
    InequalitySingleton(dom[arc.head], w);
  }

  /** Revising an equality arc whose tail is pinned to `w` keeps exactly the
      occurrences of `w` in the head. */
  lemma ReviseEqualityPinnedTail(arc: Arc, dom: Domains, w: Val)
    requires arc.head in dom && arc.tail in dom
    requires dom[arc.tail] == [w]
    ensures Revise(Equality, arc, dom).dom[arc.head] == OnlyOf(dom[arc.head], w)
  {
    EqualitySingleton(dom[arc.head], w);
  }
}
