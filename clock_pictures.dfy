/*
 * src/clockpictures.rs: two pictures of a clock with n identical hands
 * show the same clock turned if the gaps between neighbouring hands, in
 * order round the dial, are the same cyclic sequence.  The program compares
 * the hash of the first gap sequence with the hash of every rotation of the
 * second, updating the second hash one rotation at a time.
 */
module ClockPictures {
  import opened NumberTheory
  import opened Powers
  import opened RollingHash
  import opened Sorting

  /** One turn of the dial, in thousandths of a degree. */
  const FULL: nat := 360_000

  function Sum(s: seq<int>): int
  {
    if s == [] then 0 else Sum(s[..|s| - 1]) + s[|s| - 1]
  }

  /** The elements of a sequence are among those of its multiset. */
  lemma Bounded(s: seq<int>, t: seq<int>)
    requires multiset(s) == multiset(t) && forall k | 0 <= k < |t| :: 0 <= t[k] <= FULL
    ensures |s| == |t| && forall k | 0 <= k < |s| :: 0 <= s[k] <= FULL
  {
    assert |s| == |multiset(s)| == |t|;
    forall k | 0 <= k < |s|
      ensures 0 <= s[k] <= FULL
    {
      assert s[k] in multiset(s);
      var j :| 0 <= j < |t| && t[j] == s[k];
    }
  }

  /** The gaps between neighbouring hands of sorted positions, round the dial from each hand to the next. */
  function Gaps(sorted: seq<int>): (r: seq<int>)
    requires |sorted| >= 1
    ensures |r| == |sorted|
  {
    seq(|sorted|, k requires 0 <= k < |sorted| =>
      if k < |sorted| - 1 then sorted[k + 1] - sorted[k] else FULL - sorted[|sorted| - 1] + sorted[0])
  }

  /**
   * `to_delta_vec`: the gaps between the sorted hand positions, the last one
   * wrapping round the dial from the highest hand to the lowest, so that
   * they add up to one full turn.
   */
  method ToDeltaVec(inp: seq<int>) returns (res: seq<int>)
    requires |inp| >= 1 && forall k | 0 <= k < |inp| :: 0 <= inp[k] <= FULL
    ensures |res| == |inp| && Sum(res) == FULL
    ensures forall k | 0 <= k < |res| :: 0 <= res[k] <= FULL
    ensures forall k | 0 <= k < |inp| - 1 :: res[k] == Sort(inp)[k + 1] - Sort(inp)[k]
    ensures res[|inp| - 1] == FULL - Sort(inp)[|inp| - 1] + Sort(inp)[0]
    ensures res == Gaps(Sort(inp))
  {
    var sorted := Sort(inp);
    Bounded(sorted, inp);
    res := Windows(sorted);
    var n := |sorted|;
    GapsClose(sorted, res);
    res := res + [FULL - sorted[n - 1] + sorted[0]];
    assert res[..n - 1] == res[..|res| - 1];
  }

  /** The gaps after each hand but the last, closed by the wrap-around gap, are Gaps(sorted). */
  lemma GapsClose(sorted: seq<int>, w: seq<int>)
    requires |sorted| >= 1 && |w| == |sorted| - 1
    requires forall k | 0 <= k < |w| :: w[k] == sorted[k + 1] - sorted[k]
    ensures w + [FULL - sorted[|sorted| - 1] + sorted[0]] == Gaps(sorted)
  {
  }

  /** The loop over `inp.windows(2)`: the gap after each element but the last. */
  method Windows(sorted: seq<int>) returns (res: seq<int>)
    requires |sorted| >= 1 && Sorted(sorted) && forall k | 0 <= k < |sorted| :: 0 <= sorted[k] <= FULL
    ensures |res| == |sorted| - 1 && Sum(res) == sorted[|sorted| - 1] - sorted[0]
    ensures forall k | 0 <= k < |res| :: res[k] == sorted[k + 1] - sorted[k] && 0 <= res[k] <= FULL
  {
    res := [];
    for k := 0 to |sorted| - 1
      invariant |res| == k && Sum(res) == sorted[k] - sorted[0]
      invariant forall j | 0 <= j < k :: res[j] == sorted[j + 1] - sorted[j] && 0 <= res[j] <= FULL
    {
      res := res + [sorted[k + 1] - sorted[k]];
      assert res[..k] == res[..|res| - 1];
    }
  }

  /** The sequence s turned to start at position i. */
  function Rotation(s: seq<int>, i: nat): (r: seq<int>)
    requires i <= |s|
    ensures |r| == |s| && (i == |s| ==> r == s)
  {
    s[i..] + s[..i]
  }

  /** Turning back by one: Rotation(s, i) is s[i] followed by Rotation(s, i + 1) without its last element. */
  lemma RotationStep(s: seq<int>, i: nat)
    requires i < |s|
    ensures var cur := Rotation(s, i + 1);
            cur[|s| - 1] == s[i] && Rotation(s, i) == [s[i]] + cur[..|s| - 1]
  {
    var cur := Rotation(s, i + 1);
    assert cur[..|s| - 1] == s[i + 1..] + s[..i];
    assert s[i..] == [s[i]] + s[i + 1..] && s[..i + 1] == s[..i] + [s[i]];
  }

  /**
   * The body of the loop at lines 51-62: from the hash of d2 turned to start
   * at i + 1, the hash of d2 turned to start at i.  Each `%` is Rust's
   * truncating remainder.
   */
  method Turn(d2: seq<int>, i: nat, h: int) returns (h': int)
    requires i < |d2| && h == Hash(Rotation(d2, i + 1))
    ensures h' == Hash(Rotation(d2, i))
  {
    var n := |d2|;
    var h1 := TRem(h - Calc(n - 1, d2[i]), M);
    var h2 := TRem(h1 * P, M);
    var h3 := h2 + Calc(0, d2[i]);
    h' := TRem(h3 + M, M);
    ghost var rest := Rotation(d2, i + 1)[..n - 1];
    Shifted(d2, i, rest);
    Rehash(Poly(rest), d2[i], d2[i] * Pow(P, n - 1), h, Calc(n - 1, d2[i]), Calc(0, d2[i]));
    PolyCons(d2[i], rest);
  }

  /** The hash before the turn, as the polynomial of the hands kept plus that of the last one. */
  lemma Shifted(d2: seq<int>, i: nat, rest: seq<int>)
    requires i < |d2| && rest == Rotation(d2, i + 1)[..|d2| - 1]
    ensures Poly(Rotation(d2, i + 1)) == Poly(rest) + d2[i] * Pow(P, |d2| - 1)
    ensures Rotation(d2, i) == [d2[i]] + rest
  {
    var cur := Rotation(d2, i + 1);
    RotationStep(d2, i);
    assert cur[..|cur| - 1] == rest;
  }

  /**
   * The arithmetic of one turn: with h the hash of a + top, taking off the
   * last hand's term c, multiplying by P and adding the new first hand's term
   * cx gives the hash of x + P * a.
   */
  lemma Rehash(a: int, x: int, top: int, h: int, c: int, cx: int)
    requires 0 <= h < M && h == (a + top) % M
    requires 0 <= c < M && c == top % M && 0 <= cx < M && cx == x % M
    ensures TRem(TRem(TRem(h - c, M) * P, M) + cx + M, M) == (x + P * a) % M
  {
    ModUnique(h, M, 0, h);
    ModUnique(c, M, 0, c);
    Congruent(h, a + top, c, top);
    assert a + top - top == a;
    var h1 := TRem(h - c, M);
    TRemMod(h - c, M);
    var h2 := TRem(h1 * P, M);
    TRemMod(h1 * P, M);
    ModMul(h1, a, P, M);
    Congruent(h2, a * P, cx, x);
    var h3 := h2 + cx;
    TRemMod(h3 + M, M);
    ModShift(h3, 1, M);
  }

  /**
   * The loop at lines 51-68: whether some rotation of d2 hashes like d1.
   * The rotations are tried from d2 turned by its last position down to d2
   * itself.
   */
  method Rotations(d1: seq<int>, d2: seq<int>) returns (possible: bool)
    ensures possible <==> exists i | 0 <= i < |d2| :: Hash(Rotation(d2, i)) == Hash(d1)
  {
    var d1Hash := Hash(d1);
    var d2Hash := Hash(d2);
    var i := |d2|;
    while i > 0
      invariant 0 <= i <= |d2| && d2Hash == Hash(Rotation(d2, i))
      invariant forall j | i <= j < |d2| :: Hash(Rotation(d2, j)) != d1Hash
    {
      i := i - 1;
      d2Hash := Turn(d2, i, d2Hash);
      if d2Hash == d1Hash {
        return true;
      }
    }
    return false;
  }

  /** A rotation that equals d1 is always found; hash collisions may find others. */
  lemma Complete(d1: seq<int>, d2: seq<int>, i: nat)
    requires i < |d2| && Rotation(d2, i) == d1
    ensures exists j | 0 <= j < |d2| :: Hash(Rotation(d2, j)) == Hash(d1)
  {
    assert Hash(Rotation(d2, i)) == Hash(d1);
  }

  /**
   * `solve` after reading the hand positions a and b: the gap sequences of
   * both pictures, and whether some rotation of the second hashes like the
   * first.
   */
  method Solve(a: seq<int>, b: seq<int>) returns (d1: seq<int>, d2: seq<int>, possible: bool)
    requires |a| >= 1 && forall k | 0 <= k < |a| :: 0 <= a[k] <= FULL
    requires |b| >= 1 && forall k | 0 <= k < |b| :: 0 <= b[k] <= FULL
    ensures d1 == Gaps(Sort(a)) && d2 == Gaps(Sort(b))
    ensures |d1| == |a| && |d2| == |b| && Sum(d1) == FULL && Sum(d2) == FULL
    ensures possible <==> exists i | 0 <= i < |d2| :: Hash(Rotation(d2, i)) == Hash(d1)
    ensures (exists i | 0 <= i < |d2| :: Rotation(d2, i) == d1) ==> possible
  {
    d1 := ToDeltaVec(a);
    d2 := ToDeltaVec(b);
    possible := Rotations(d1, d2);
    if i :| 0 <= i < |d2| && Rotation(d2, i) == d1 {
      Complete(d1, d2, i);
    }
  }
}
