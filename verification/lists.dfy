/** The list built-ins the heuristics rely on: `min`, `max` and `list.index`. */
module Lists {

  /** `min(s)`: a smallest element. */
  function Min(s: seq<nat>): (m: nat)
    requires |s| > 0
    ensures m in s
    ensures forall x :: x in s ==> m <= x
  {
    if |s| == 1 then s[0]
    else
      assert s == [s[0]] + s[1..];
      var rest := Min(s[1..]);
      if s[0] <= rest then s[0] else rest
  }

  /** `max(s)`: a largest element. */
  function Max(s: seq<nat>): (m: nat)
    requires |s| > 0
    ensures m in s
    ensures forall x :: x in s ==> x <= m
  {
    if |s| == 1 then s[0]
    else
      assert s == [s[0]] + s[1..];
      var rest := Max(s[1..]);
      if rest <= s[0] then s[0] else rest
  }

  /** `s.index(x)`: the position of the first occurrence of `x`. */
  function IndexOf(s: seq<nat>, x: nat): (k: nat)
    requires x in s
    ensures k < |s| && s[k] == x
    ensures forall j :: 0 <= j < k ==> s[j] != x
  {
    if s[0] == x then 0 else 1 + IndexOf(s[1..], x)
  }
}
