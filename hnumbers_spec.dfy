/*
 * The arithmetic of src/hnumbers.rs.  An H-number is a number of the form
 * 4k + 1.  An H-prime is an H-number above 1 that is not the product of two
 * H-numbers above 1; an H-semi-prime is the product of two H-primes.  The
 * program works with the H-numbers up to 1 000 001, H-number 4i + 1 at
 * index i of its sieve.
 */
module HNumbersSpec {
  import opened Sorting

  /** The length of the sieve: indices 0 ..= 250 000. */
  const SIEVE: nat := 250_001
  /** The largest H-number considered, 4 * 250 000 + 1. */
  const LIMIT: nat := 1_000_001

  predicate IsH(x: int)
  {
    x % 4 == 1
  }

  /** x is the product a * b of H-numbers 5 <= a <= b. */
  ghost predicate Splits(x: int, a: int, b: int)
  {
    5 <= a <= b && IsH(a) && IsH(b) && a * b == x
  }

  ghost predicate HComposite(x: int)
  {
    exists a, b :: Splits(x, a, b)
  }

  ghost predicate HPrime(x: int)
  {
    IsH(x) && x >= 5 && !HComposite(x)
  }

  /** x is a multiple p * q of the H-number p, the cofactor q an H-number at least p. */
  ghost predicate Struck(x: int, p: int)
  {
    exists q :: Splits(x, p, q)
  }

  /** x is struck by an H-prime below bound: what the sieve has cleared before reaching bound. */
  ghost predicate Cleared(x: int, bound: int)
  {
    exists a, b :: Splits(x, a, b) && HPrime(a) && a < bound
  }

  /** The product H-numbers of H-numbers is one. */
  lemma ProductH(a: int, b: int)
    requires IsH(a) && IsH(b)
    ensures IsH(a * b)
  {
    var j, k := a / 4, b / 4;
    assert a == 4 * j + 1 && b == 4 * k + 1;
    assert a * b == 4 * (4 * j * k + j + k) + 1;
  }

  /** A factor of at least 5 makes a positive number grow. */
  lemma Grows(a: int, b: int)
    requires a >= 1 && b >= 5
    ensures a * b > a
  {
  }

  lemma Regroup(c: int, a: int, b: int, p: int, q: int)
    requires c == a * b && a == p * q
    ensures c == p * (q * b)
  {
  }

  /** Every H-composite is struck by one of its H-prime factors. */
  lemma {:induction false} PrimeFactor(c: int)
    requires HComposite(c)
    ensures exists p, q :: Splits(c, p, q) && HPrime(p)
    decreases c
  {
    var a, b :| Splits(c, a, b);
    if !HPrime(a) {
      Grows(a, b);
      PrimeFactor(a);
      var p, q :| Splits(a, p, q) && HPrime(p);
      ProductH(q, b);
      Regroup(c, a, b, p, q);
      Grows(q, b);
      assert Splits(c, p, q * b);
    }
  }

  /** The sieve's test at index i: an H-number is prime iff no smaller H-prime struck it. */
  lemma FirstUncleared(x: int)
    requires IsH(x) && x >= 5
    ensures !Cleared(x, x) <==> HPrime(x)
  {
    if HComposite(x) {
      PrimeFactor(x);
      var p, q :| Splits(x, p, q) && HPrime(p);
      Grows(p, q);
    }
  }

  /** Passing the H-number bound adds bound's own multiples when it is prime. */
  lemma ClearStep(x: int, bound: int)
    requires IsH(bound)
    ensures Cleared(x, bound + 4) <==> Cleared(x, bound) || (HPrime(bound) && Struck(x, bound))
  {
    if Cleared(x, bound + 4) {
      var a, b :| Splits(x, a, b) && HPrime(a) && a < bound + 4;
      if a >= bound {
        assert a == bound;
        assert Splits(x, bound, b);
      }
    }
  }

  /** The inner loop's e after t steps from p * p: p * (p + 4t). */
  function Multiple(p: int, t: int): int
  {
    p * (p + 4 * t)
  }

  /** Multiple(p, t) is an H-number, is increasing in t, and steps by 4p. */
  lemma MultipleFacts(p: int, t: nat)
    requires IsH(p) && p >= 5
    ensures IsH(Multiple(p, t)) && Multiple(p, t + 1) == Multiple(p, t) + 4 * p
    ensures Multiple(p, t) >= p * p
  {
    assert IsH(p + 4 * t) by {
      assert p + 4 * t == 4 * (p / 4 + t) + 1;
    }
    ProductH(p, p + 4 * t);
    assert p * (p + 4 * (t + 1)) == p * (p + 4 * t) + 4 * p;
    assert p * (p + 4 * t) == p * p + p * (4 * t);
  }

  lemma MultipleMono(p: int, s: int, t: int)
    requires p >= 1 && s >= t
    ensures Multiple(p, s) >= Multiple(p, t)
  {
    assert Multiple(p, s) - Multiple(p, t) == 4 * (p * (s - t));
  }

  /** An H-number q >= p is p + 4s for s = (q - p) / 4, so p * q is the multiple of step s. */
  lemma Cofactor(p: int, q: int)
    requires IsH(p) && IsH(q) && p <= q
    ensures (q - p) / 4 >= 0 && q == p + 4 * ((q - p) / 4) && Multiple(p, (q - p) / 4) == p * q
  {
  }

  /** p + 4s is an H-number at least p. */
  lemma StepH(p: int, s: nat)
    requires IsH(p)
    ensures IsH(p + 4 * s) && p <= p + 4 * s
  {
    assert p + 4 * s == 4 * (p / 4 + s) + 1;
  }

  /**
   * The inner loop covers every struck H-number up to LIMIT: once the
   * multiple for step t is past LIMIT, each x <= LIMIT that p strikes is the
   * multiple of an earlier step.
   */
  lemma StruckBefore(x: int, p: int, t: nat)
    requires IsH(p) && p >= 5 && x <= LIMIT < Multiple(p, t)
    ensures Struck(x, p) <==> Reached(x, p, t)
  {
    if Struck(x, p) {
      var q :| Splits(x, p, q);
      Cofactor(p, q);
      var s := (q - p) / 4;
      if s >= t {
        MultipleMono(p, s, t);
      }
      assert 0 <= s < t && Multiple(p, s) == x;
    }
    if Reached(x, p, t) {
      var s :| 0 <= s < t && Multiple(p, s) == x;
      StepH(p, s);
      assert Splits(x, p, p + 4 * s);
    }
  }

  /** The index of an H-number e at most LIMIT: (e - 1) / 4, below SIEVE. */
  lemma IndexOfH(e: int)
    requires IsH(e) && 1 <= e <= LIMIT
    ensures 0 <= (e - 1) / 4 < SIEVE && 4 * ((e - 1) / 4) + 1 == e
  {
  }

  /** The H-primes 4j + 1 for 1 <= j < i, in increasing order. */
  ghost function HPrimesBelow(i: nat): seq<int>
  {
    if i <= 1 then [] else HPrimesBelow(i - 1) + (if HPrime(4 * (i - 1) + 1) then [4 * (i - 1) + 1] else [])
  }

  /** HPrimesBelow(i) lists exactly the H-primes below 4i + 1, increasing. */
  lemma {:induction false} PrimesListed(i: nat)
    ensures forall x :: x in HPrimesBelow(i) <==> HPrime(x) && x < 4 * i + 1
    ensures forall j, k | 0 <= j < k < |HPrimesBelow(i)| :: HPrimesBelow(i)[j] < HPrimesBelow(i)[k]
    ensures forall j | 0 <= j < |HPrimesBelow(i)| :: HPrimesBelow(i)[j] < 4 * i + 1
  {
    if i > 1 {
      PrimesListed(i - 1);
      forall x | HPrime(x) && x < 4 * i + 1
        ensures x in HPrimesBelow(i)
      {
        if x >= 4 * (i - 1) + 1 {
          assert x == 4 * (i - 1) + 1;
        }
      }
    }
  }

  /** Some step s < t of the inner loop reached x. */
  ghost predicate Reached(x: int, p: int, t: int)
  {
    exists s | 0 <= s < t :: Multiple(p, s) == x
  }

  lemma ReachedStep(x: int, p: int, t: nat)
    ensures Reached(x, p, t + 1) <==> Reached(x, p, t) || Multiple(p, t) == x
  {
  }

  /** x is p * q for H-primes p <= q. */
  ghost predicate HSemiPrime(x: int)
  {
    exists p, q :: HPrime(p) && HPrime(q) && p <= q && p * q == x
  }

  function Product(primes: seq<int>, a: nat, b: nat): int
    requires a < |primes| && b < |primes|
  {
    primes[a] * primes[b]
  }

  /** x is primes[a] * primes[b] for some a < i with a <= b, and at most LIMIT. */
  ghost predicate InRows(primes: seq<int>, i: nat, x: int)
  {
    exists a, b | 0 <= a < i && a <= b < |primes| :: Product(primes, a, b) == x && x <= LIMIT
  }

  /** x is primes[i] * primes[b] for some i <= b < j. */
  ghost predicate InRow(primes: seq<int>, i: nat, j: nat, x: int)
    requires i < |primes|
  {
    exists b | i <= b < j && b < |primes| :: Product(primes, i, b) == x
  }

  /** The next row: the products with primes[i] are at most LIMIT up to column j, and past it above LIMIT. */
  lemma NextRow(primes: seq<int>, i: nat, j: nat, x: int)
    requires i < |primes| && i <= j <= |primes|
    requires forall b | i <= b < j :: Product(primes, i, b) <= LIMIT
    requires forall b | j <= b < |primes| :: Product(primes, i, b) > LIMIT
    ensures InRows(primes, i + 1, x) <==> InRows(primes, i, x) || InRow(primes, i, j, x)
  {
    if InRows(primes, i + 1, x) && !InRows(primes, i, x) {
      var a, b :| 0 <= a < i + 1 && a <= b < |primes| && Product(primes, a, b) == x && x <= LIMIT;
      assert a == i && b < j;
    }
  }

  /** A larger second factor gives a larger product. */
  lemma ProductMono(primes: seq<int>, i: nat, j: nat, b: nat)
    requires Increasing(primes) && i < |primes| && j <= b < |primes| && primes[i] >= 1
    ensures Product(primes, i, b) >= Product(primes, i, j)
  {
    if j < b {
      assert primes[i] * primes[b] - primes[i] * primes[j] == primes[i] * (primes[b] - primes[j]);
    }
  }

  /**
   * With primes the H-primes up to LIMIT in increasing order, the products
   * of the rows are the H-semi-primes up to LIMIT.
   */
  lemma SemiPrimesCovered(primes: seq<int>, x: int)
    requires Increasing(primes) && forall y :: y in primes <==> HPrime(y) && y <= LIMIT
    ensures InRows(primes, |primes|, x) <==> HSemiPrime(x) && x <= LIMIT
  {
    if InRows(primes, |primes|, x) {
      var a, b :| 0 <= a < |primes| && a <= b < |primes| && Product(primes, a, b) == x && x <= LIMIT;
      assert primes[a] in primes && primes[b] in primes;
      assert primes[a] <= primes[b];
    }
    if HSemiPrime(x) && x <= LIMIT {
      var p, q :| HPrime(p) && HPrime(q) && p <= q && p * q == x;
      Grows(q, p);
      Grows(p, q);
      assert p in primes && q in primes;
      var a :| 0 <= a < |primes| && primes[a] == p;
      var b :| 0 <= b < |primes| && primes[b] == q;
      assert a <= b;
      assert Product(primes, a, b) == x;
    }
  }

  /** The number of elements of s that are at most x. */
  function AtMost(s: seq<int>, x: int): nat
  {
    if s == [] then 0 else AtMost(s[..|s| - 1], x) + (if s[|s| - 1] <= x then 1 else 0)
  }

  /** When the first r elements are at most x and the rest above it, r of them are at most x. */
  lemma {:induction false} AtMostSplit(s: seq<int>, x: int, r: nat)
    requires r <= |s| && (forall k | 0 <= k < r :: s[k] <= x) && forall k | r <= k < |s| :: s[k] > x
    ensures AtMost(s, x) == r
  {
    if r < |s| {
      AtMostSplit(s[..|s| - 1], x, r);
    } else if s != [] {
      AtMostSplit(s[..|s| - 1], x, r - 1);
    }
  }

  /** The smallest H-semi-prime, 5 * 5. */
  lemma Smallest()
    ensures HSemiPrime(25)
  {
    assert !HComposite(5) by {
      if a, b :| Splits(5, a, b) {
        Grows(a, b);
      }
    }
    assert HPrime(5) && 5 <= 5 && 5 * 5 == 25;
  }

  /** H-number 4i + 1 sits at index i. */
  lemma IndexOf(i: nat)
    ensures IsH(4 * i + 1) && (4 * i + 1 - 1) / 4 == i
  {
  }

  /** s with the index of every H-number that p strikes cleared. */
  ghost function StrikeOut(s: seq<bool>, p: int): (r: seq<bool>)
    ensures |r| == |s|
  {
    seq(|s|, j requires 0 <= j < |s| => s[j] && !Struck(4 * j + 1, p))
  }

  /** s with the index of every step before t of the inner loop for p cleared. */
  ghost function Marked(s: seq<bool>, p: int, t: int): (r: seq<bool>)
    ensures |r| == |s|
  {
    seq(|s|, j requires 0 <= j < |s| => s[j] && !Reached(4 * j + 1, p, t))
  }

  /** One step of the inner loop clears the index of Multiple(p, t). */
  lemma MarkStep(s: seq<bool>, p: int, t: nat, idx: nat)
    requires idx < |s| && 4 * idx + 1 == Multiple(p, t)
    ensures Marked(s, p, t)[idx := false] == Marked(s, p, t + 1)
  {
    var a, b := Marked(s, p, t)[idx := false], Marked(s, p, t + 1);
    forall j | 0 <= j < |s|
      ensures a[j] == b[j]
    {
      ReachedStep(4 * j + 1, p, t);
    }
  }

  /** Before the first step nothing is cleared; past LIMIT every struck index is. */
  lemma MarkedEnds(s: seq<bool>, p: int, t: nat)
    requires IsH(p) && p >= 5 && |s| == SIEVE
    ensures Marked(s, p, 0) == s
    ensures LIMIT < Multiple(p, t) ==> Marked(s, p, t) == StrikeOut(s, p)
  {
    if LIMIT < Multiple(p, t) {
      forall j | 0 <= j < |s|
        ensures Marked(s, p, t)[j] == StrikeOut(s, p)[j]
      {
        StruckBefore(4 * j + 1, p, t);
      }
    }
  }

  /** The sieve before index i: each later index is clear iff an H-prime below 4i + 1 struck it. */
  ghost predicate SieveState(s: seq<bool>, i: nat)
  {
    |s| == SIEVE && forall j | i <= j < SIEVE :: s[j] == !Cleared(4 * j + 1, 4 * i + 1)
  }

  /** At first nothing is cleared: there is no H-prime below 5. */
  lemma SieveStart()
    ensures SieveState(seq(SIEVE, _ => true), 1)
  {
  }

  /**
   * One pass of the outer loop: index i is still set iff 4i + 1 is an
   * H-prime, and striking its multiples then (and only then) gives the state
   * before index i + 1.
   */
  lemma SieveStep(s: seq<bool>, i: nat)
    requires SieveState(s, i) && 1 <= i < SIEVE
    ensures s[i] <==> HPrime(4 * i + 1)
    ensures SieveState(if s[i] then StrikeOut(s, 4 * i + 1) else s, i + 1)
  {
    IndexOf(i);
    FirstUncleared(4 * i + 1);
    var s' := if s[i] then StrikeOut(s, 4 * i + 1) else s;
    forall j | i + 1 <= j < SIEVE
      ensures s'[j] == !Cleared(4 * j + 1, 4 * (i + 1) + 1)
    {
      ClearStep(4 * j + 1, 4 * i + 1);
    }
  }

  /** The H-primes listed below index n are those up to 4n - 3, increasing and at least 5. */
  lemma PrimesUpTo(ps: seq<int>, n: nat)
    requires ps == HPrimesBelow(n)
    ensures forall x :: x in ps <==> HPrime(x) && x <= 4 * n - 3
    ensures Increasing(ps)
    ensures forall k | 0 <= k < |ps| :: IsH(ps[k]) && ps[k] >= 5
  {
    PrimesListed(n);
    forall x | HPrime(x) && x < 4 * n + 1
      ensures x <= 4 * n - 3
    {
      var k := x / 4;
      assert x == 4 * k + 1;
    }
    forall k | 0 <= k < |ps|
      ensures IsH(ps[k]) && ps[k] >= 5
    {
      assert ps[k] in ps;
    }
  }

  /**
   * The sorted, deduplicated products: a table holding exactly the products
   * of the rows holds exactly the H-semi-primes up to LIMIT, 25 among them.
   */
  lemma SemiTable(primes: seq<int>, table: seq<int>)
    requires Increasing(primes) && forall y :: y in primes <==> HPrime(y) && y <= LIMIT
    requires forall x :: x in table <==> InRows(primes, |primes|, x)
    ensures forall x :: x in table <==> HSemiPrime(x) && x <= LIMIT
    ensures 25 in table
  {
    forall x
      ensures x in table <==> HSemiPrime(x) && x <= LIMIT
    {
      SemiPrimesCovered(primes, x);
    }
    Smallest();
  }
}
