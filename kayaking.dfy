/*
 * src/kayaking.rs: the largest speed the slowest kayak can reach is found
 * by a binary search over speeds, with a comparator that says whether the
 * participants can be seated so that every kayak reaches the tested speed.
 */
module Kayaking {
  datatype Ordering = Less | Equal | Greater

  /**
   * Lines 29-33: the least speed the two rowers of a kayak with speed factor
   * kayak must add up to for the kayak to reach test, the quotient rounded up.
   */
  function MinPeopleSpeed(test: nat, kayak: nat): (r: nat)
    requires kayak > 0
    ensures r * kayak >= test && (r - 1) * kayak < test
  {
    if test % kayak == 0 then test / kayak else test / kayak + 1
  }

  /** Whatever cmp says of a value up to hi, it says Greater of all smaller values from lo. */
  ghost predicate Monotone(cmp: nat -> Ordering, lo: nat, hi: nat)
  {
    (forall x | lo <= x <= hi :: cmp(x) != Equal) &&
    forall x, y | lo <= x <= y <= hi && cmp(y) == Greater :: cmp(x) == Greater
  }

  /**
   * `binary_search`: a value in min0 ..= max0, returned at once when cmp
   * says Equal.  For a comparator that says Greater up to some point and Less
   * after it, starting with Greater at min0, the result is the largest value
   * of which it says Greater.
   */
  method BinarySearch(min0: nat, max0: nat, cmp: nat -> Ordering) returns (r: nat)
    requires min0 <= max0
    ensures min0 <= r <= max0
    ensures r == min0 || cmp(r) == Greater || cmp(r) == Equal
    ensures Monotone(cmp, min0, max0) && cmp(min0) == Greater ==>
              cmp(r) == Greater && forall y | r < y <= max0 :: cmp(y) == Less
  {
    var min, max := min0, max0;
    while max - min > 1
      invariant min0 <= min <= max <= max0
      invariant min == min0 || cmp(min) == Greater
      invariant Monotone(cmp, min0, max0) && cmp(min0) == Greater ==>
                  cmp(min) == Greater && forall y | max < y <= max0 :: cmp(y) == Less
      decreases max - min
    {
      var mid := (max + min) / 2;
      match cmp(mid) {
        case Less => max := mid;
        case Greater => min := mid;
        case Equal => return mid;
      }
    }
    if cmp(max) == Greater {
      r := max;
    } else {
      r := min;
    }
  }
}
