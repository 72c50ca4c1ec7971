/*
 * The standard library's `sort` and `dedup` on vectors of integers, as
 * the programs src/clockpictures.rs and src/hnumbers.rs use them.
 */
module Sorting {
  predicate Sorted(s: seq<int>)
  {
    forall j, k | 0 <= j < k < |s| :: s[j] <= s[k]
  }

  /** x put into the sorted sequence s before its first element not below x. */
  function Insert(x: int, s: seq<int>): (r: seq<int>)
    requires Sorted(s)
    ensures Sorted(r) && multiset(r) == multiset(s) + multiset{x}
    ensures |r| == |s| + 1 && (r[0] == x || (s != [] && r[0] == s[0]))
  {
    if s == [] || x <= s[0] then [x] + s
    else
      assert s == [s[0]] + s[1..];
      [s[0]] + Insert(x, s[1..])
  }

  /** `sort`: the elements of s in ascending order. */
  function Sort(s: seq<int>): (r: seq<int>)
    ensures Sorted(r) && multiset(r) == multiset(s) && |r| == |s|
  {
    if s == [] then []
    else
      assert s == [s[0]] + s[1..];
      Insert(s[0], Sort(s[1..]))
  }

  predicate Increasing(s: seq<int>)
  {
    forall j, k | 0 <= j < k < |s| :: s[j] < s[k]
  }

  /** `dedup`: s without the repetitions of an element right after itself. */
  function Dedup(s: seq<int>): (r: seq<int>)
    ensures forall x :: x in r <==> x in s
    ensures Sorted(s) ==> Increasing(r)
    ensures |r| <= |s| && (s != [] ==> r != [] && r[0] == s[0])
  {
    if |s| <= 1 then s
    else if s[0] == s[1] then Dedup(s[1..])
    else [s[0]] + Dedup(s[1..])
  }
}
