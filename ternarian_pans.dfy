/*
 * The state of the digit loop of src/ternarianweights.rs: the weights on
 * the two pans and what is still to weigh.
 */
module TernarianPans {
  ghost predicate IsPow3(x: int)
    decreases if x > 0 then x else 0
  {
    x == 1 || (x > 1 && x % 3 == 0 && IsPow3(x / 3))
  }

  function Sum(s: seq<int>): int
  {
    if s == [] then 0 else Sum(s[..|s| - 1]) + s[|s| - 1]
  }

  predicate Increasing(s: seq<int>)
  {
    forall j, k | 0 <= j < k < |s| :: s[j] < s[k]
  }

  predicate Decreasing(s: seq<int>)
  {
    forall j, k | 0 <= j < k < |s| :: s[j] > s[k]
  }

  /** Every element of s is a power of 3 below bound. */
  ghost predicate Below(s: seq<int>, bound: int)
  {
    forall x | x in s :: IsPow3(x) && x < bound
  }

  /**
   * The pans so far: weights below modi, each a power of 3, pushed in
   * increasing order, no weight on both pans; what is still to weigh is
   * modi * m plus modi again for a carry.
   */
  ghost predicate Pans(m0: nat, m: nat, modi: nat, rest: nat, left: seq<int>, right: seq<int>)
  {
    IsPow3(modi) &&
    Increasing(left) && Increasing(right) &&
    Below(left, modi) && Below(right, modi) &&
    (forall x | x in left :: x !in right) &&
    Sum(right) - Sum(left) + (if rest > 0 then modi else 0) + modi * m == m0
  }
}
