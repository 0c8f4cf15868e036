/** The static maximum-degree heuristic: a stable sort, most constrained first. */
module DegreeOrder {
  import opened Csp

  /** The number of constraints that mention `v`. */
  function Degree(v: Var, constraints: seq<Constraint>): nat {
    if constraints == [] then 0
    else (if constraints[0].Mentions(v) then 1 else 0) + Degree(v, constraints[1..])
  }

  /** Degrees never increase along `s`. */
  ghost predicate ByDegree(s: seq<Var>, constraints: seq<Constraint>) {
    forall i, j :: 0 <= i < j < |s| ==> Degree(s[i], constraints) >= Degree(s[j], constraints)
  }

  /** The variables of `s` whose degree is `d`, in their order in `s`. */
  function OfDegree(s: seq<Var>, constraints: seq<Constraint>, d: nat): seq<Var> {
    if s == [] then []
    else (if Degree(s[0], constraints) == d then [s[0]] else []) + OfDegree(s[1..], constraints, d)
  }

  /** Insert `x` in front of the first entry whose degree does not exceed its own. */
  function InsertByDegree(x: Var, s: seq<Var>, constraints: seq<Constraint>): (r: seq<Var>)
    ensures multiset(r) == multiset(s) + multiset{x}
    ensures ByDegree(s, constraints) ==> ByDegree(r, constraints)
    ensures forall d :: (OfDegree(r, constraints, d) ==
      (if Degree(x, constraints) == d then [x] else []) + OfDegree(s, constraints, d))
  {
    if s == [] then [x]
    else if Degree(s[0], constraints) <= Degree(x, constraints) then
      InsertFront(x, s, constraints);
      [x] + s
    else
      var rest := InsertByDegree(x, s[1..], constraints);
      InsertBehind(x, s, rest, constraints);
      [s[0]] + rest
  }

  /** The case where `x` goes first. */
  lemma InsertFront(x: Var, s: seq<Var>, constraints: seq<Constraint>)
    requires s != [] && Degree(s[0], constraints) <= Degree(x, constraints)
    ensures ByDegree(s, constraints) ==> ByDegree([x] + s, constraints)
    ensures forall d :: (OfDegree([x] + s, constraints, d) ==
      (if Degree(x, constraints) == d then [x] else []) + OfDegree(s, constraints, d))
  {
    var r := [x] + s;
    assert r[1..] == s;
    if ByDegree(s, constraints) {
      forall i, j | 0 <= i < j < |r|
        ensures Degree(r[i], constraints) >= Degree(r[j], constraints)
      {
        if i == 0 {
          assert r[j] == s[j - 1];
          assert Degree(s[0], constraints) >= Degree(s[j - 1], constraints) || j - 1 == 0;
        } else {
          assert r[i] == s[i - 1] && r[j] == s[j - 1];
        }
      }
    }
  }

  /** The case where `s[0]` stays first and `x` is inserted into the rest. */
  lemma InsertBehind(x: Var, s: seq<Var>, rest: seq<Var>, constraints: seq<Constraint>)
    requires s != [] && Degree(s[0], constraints) > Degree(x, constraints)
    requires multiset(rest) == multiset(s[1..]) + multiset{x}
    requires ByDegree(s[1..], constraints) ==> ByDegree(rest, constraints)
    requires forall d :: (OfDegree(rest, constraints, d) ==
      (if Degree(x, constraints) == d then [x] else []) + OfDegree(s[1..], constraints, d))
    ensures multiset([s[0]] + rest) == multiset(s) + multiset{x}
    ensures ByDegree(s, constraints) ==> ByDegree([s[0]] + rest, constraints)
    ensures forall d :: (OfDegree([s[0]] + rest, constraints, d) ==
      (if Degree(x, constraints) == d then [x] else []) + OfDegree(s, constraints, d))
  {
    assert s == [s[0]] + s[1..];
    if ByDegree(s, constraints) {
      InsertBehindSorted(x, s, rest, constraints);
    }
    forall d: nat
      ensures OfDegree([s[0]] + rest, constraints, d) ==
        (if Degree(x, constraints) == d then [x] else []) + OfDegree(s, constraints, d)
    {
      InsertBehindOfDegree(x, s, rest, constraints, d);
    }
  }

  /** Filtering by one degree `d` after inserting behind `s[0]`. */
  lemma InsertBehindOfDegree(x: Var, s: seq<Var>, rest: seq<Var>, constraints: seq<Constraint>, d: nat)
    requires s != [] && Degree(s[0], constraints) > Degree(x, constraints)
    requires OfDegree(rest, constraints, d) ==
      (if Degree(x, constraints) == d then [x] else []) + OfDegree(s[1..], constraints, d)
    ensures OfDegree([s[0]] + rest, constraints, d) ==
      (if Degree(x, constraints) == d then [x] else []) + OfDegree(s, constraints, d)
  {
    assert ([s[0]] + rest)[1..] == rest;
    var first := if Degree(s[0], constraints) == d then [s[0]] else [];
    assert OfDegree([s[0]] + rest, constraints, d) == first + OfDegree(rest, constraints, d);
    assert OfDegree(s, constraints, d) == first + OfDegree(s[1..], constraints, d);
  }

  /** A sorted `s` stays sorted when `x`, of smaller degree than `s[0]`, is
      inserted somewhere after `s[0]`. */
  lemma InsertBehindSorted(x: Var, s: seq<Var>, rest: seq<Var>, constraints: seq<Constraint>)
    requires s != [] && Degree(s[0], constraints) > Degree(x, constraints)
    requires multiset(rest) == multiset(s[1..]) + multiset{x}
    requires ByDegree(s[1..], constraints) ==> ByDegree(rest, constraints)
    requires ByDegree(s, constraints)
    ensures ByDegree([s[0]] + rest, constraints)
  {
    SortedTail(s, constraints);
    HeadDominates(x, s, rest, constraints);
    SortedCons(s[0], rest, constraints);
  }

  /** The tail of a sorted sequence is sorted. */
  lemma SortedTail(s: seq<Var>, constraints: seq<Constraint>)
    requires s != [] && ByDegree(s, constraints)
    ensures ByDegree(s[1..], constraints)
  {
    forall i, j | 0 <= i < j < |s[1..]|
      ensures Degree(s[1..][i], constraints) >= Degree(s[1..][j], constraints)
    {
      assert s[1..][i] == s[i + 1] && s[1..][j] == s[j + 1];
    }
  }

  /** After inserting `x` into the tail of a sorted `s`, `s[0]` still has the
      largest degree. */
  lemma HeadDominates(x: Var, s: seq<Var>, rest: seq<Var>, constraints: seq<Constraint>)
    requires s != [] && Degree(s[0], constraints) > Degree(x, constraints)
    requires multiset(rest) == multiset(s[1..]) + multiset{x}
    requires ByDegree(s, constraints)
    ensures forall j :: 0 <= j < |rest| ==> Degree(s[0], constraints) >= Degree(rest[j], constraints)
  {
    forall j | 0 <= j < |rest|
      ensures Degree(s[0], constraints) >= Degree(rest[j], constraints)
    {
      var y := rest[j];
      assert y in multiset(rest);
      if y != x {
        assert y in multiset(s[1..]);
        var m :| 0 <= m < |s[1..]| && s[1..][m] == y;
        assert y == s[m + 1];
      }
    }
  }

  /** A sorted sequence headed by an entry of largest degree is sorted. */
  lemma SortedCons(y: Var, rest: seq<Var>, constraints: seq<Constraint>)
    requires ByDegree(rest, constraints)
    requires forall j :: 0 <= j < |rest| ==> Degree(y, constraints) >= Degree(rest[j], constraints)
    ensures ByDegree([y] + rest, constraints)
  {
    var r := [y] + rest;
    forall i, j | 0 <= i < j < |r|
      ensures Degree(r[i], constraints) >= Degree(r[j], constraints)
    {
      if i == 0 {
        assert r[j] == rest[j - 1];
      } else {
        assert r[i] == rest[i - 1] && r[j] == rest[j - 1];
      }
    }
  }

  /** `sorted(queue, key=degree, reverse=True)`: a permutation of the queue,
      non-increasing by degree, and stable: the variables of any one degree
      keep their relative order from the queue. */
  function MaximumDegree(queue: seq<Var>, constraints: seq<Constraint>): (r: seq<Var>)
    ensures multiset(r) == multiset(queue)
    ensures ByDegree(r, constraints)
    ensures forall d :: OfDegree(r, constraints, d) == OfDegree(queue, constraints, d)
  {
    if queue == [] then []
    else
      assert queue == [queue[0]] + queue[1..];
      InsertByDegree(queue[0], MaximumDegree(queue[1..], constraints), constraints)
  }
}
