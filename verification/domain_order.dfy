/** The dynamic smallest-domain-first heuristic, recomputed at every depth. */
module DomainOrder {
  import opened Csp
  import opened Lists

  /** The domain size of each variable of `vs`, in order. */
  function Sizes(dom: Domains, vs: seq<Var>): (sizes: seq<nat>)
    requires forall v :: v in vs ==> v in dom
    ensures |sizes| == |vs|
    ensures forall i :: 0 <= i < |vs| ==> sizes[i] == |dom[vs[i]]|
  {
    if vs == [] then [] else [|dom[vs[0]]|] + Sizes(dom, vs[1..])
  }

  /** Position `k` of the unassigned suffix `queue[depth..]` holds a variable of
      smallest domain, and no earlier position of the suffix does. */
  ghost predicate EarliestSmallest(queue: seq<Var>, dom: Domains, depth: nat, k: int)
    requires forall i :: depth <= i < |queue| ==> queue[i] in dom
  {
    && depth <= k < |queue|
    && (forall j :: depth <= j < |queue| ==> |dom[queue[k]]| <= |dom[queue[j]]|)
    && (forall j :: depth <= j < k ==> |dom[queue[k]]| < |dom[queue[j]]|)
  }

  /** Exchange the entries at `i` and `j`. */
  function Swap(s: seq<Var>, i: nat, j: nat): (r: seq<Var>)
    requires i < |s| && j < |s|
    ensures |r| == |s| && r[i] == s[j] && r[j] == s[i]
    ensures forall k :: 0 <= k < |s| && k != i && k != j ==> r[k] == s[k]
  {
    s[i := s[j]][j := s[i]]
  }

  /** Exchanging two entries permutes the sequence and leaves everything
      before both positions alone. */
  lemma SwapPermutes(s: seq<Var>, i: nat, j: nat)
    requires i <= j < |s|
    ensures multiset(Swap(s, i, j)) == multiset(s)
    ensures Swap(s, i, j)[..i] == s[..i]
  {
    var t := s[i := s[j]];
    assert multiset(t) == multiset(s) - multiset{s[i]} + multiset{s[j]};
    assert multiset(t[j := s[i]]) == multiset(t) - multiset{t[j]} + multiset{s[i]};
  }

  /** Smallest domain first: the earliest smallest-domain variable of the
      suffix is swapped into position `depth`; every other position, and in
      particular the assigned prefix, is left alone. */
  function SmallestDomainFirst(queue: seq<Var>, dom: Domains, depth: nat): (r: seq<Var>)
    requires depth < |queue|
    requires forall i :: depth <= i < |queue| ==> queue[i] in dom
    ensures |r| == |queue| && multiset(r) == multiset(queue)
    ensures r[..depth] == queue[..depth]
    ensures exists k :: && EarliestSmallest(queue, dom, depth, k)
                        && r[depth] == queue[k] && r[k] == queue[depth]
                        && forall i :: 0 <= i < |queue| && i != depth && i != k ==> r[i] == queue[i]
  {
    var sizes := Sizes(dom, queue[depth..]);
    var minIndex := IndexOf(sizes, Min(sizes));
    var k := depth + minIndex;
    assert EarliestSmallest(queue, dom, depth, k) by {
      forall j | depth <= j < |queue|
        ensures |dom[queue[k]]| <= |dom[queue[j]]|
      {
        assert sizes[j - depth] in sizes;
      }
    }
    SwapPermutes(queue, depth, k);
    if minIndex > 0 then Swap(queue, depth, k) else queue
  }
}
