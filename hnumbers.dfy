/*
 * `solve` and `binary_search` of src/hnumbers.rs: a sieve over the
 * H-numbers up to 1 000 001 lists the H-primes, their products up to that
 * bound are collected, sorted and deduplicated, and each query is answered
 * with the number of H-semi-primes up to it.
 */
module HNumbers {
  import opened Sorting
  import opened HNumbersSpec

  /**
   * The inner loop of the sieve for the H-prime p: clear the index of each
   * multiple p * p, p * (p + 4), ... up to LIMIT, H-number e at index
   * (e - 1) / 4, Rust's `(e - 1) >> 2`.
   */
  method Strike(sieve: array<bool>, p: int)
    requires sieve.Length == SIEVE && IsH(p) && p >= 5
    modifies sieve
    ensures sieve[..] == StrikeOut(old(sieve[..]), p)
  {
    ghost var s := sieve[..];
    var e := p * p;
    ghost var t: nat := 0;
    MultipleFacts(p, 0);
    MarkedEnds(s, p, 0);
    while e <= LIMIT
      invariant e == Multiple(p, t) && IsH(e)
      invariant sieve[..] == Marked(s, p, t)
      decreases LIMIT - e
    {
      MultipleFacts(p, t);
      IndexOfH(e);
      var idx := (e - 1) / 4;
      MarkStep(s, p, t, idx);
      sieve[idx] := false;
      assert sieve[..] == Marked(s, p, t)[idx := false];
      e := e + 4 * p;
      t := t + 1;
    }
    MarkedEnds(s, p, t);
  }

  /**
   * Lines 19-31: index i of the sieve stands for the H-number 4i + 1; the
   * loop lists the H-primes up to LIMIT in increasing order.
   */
  method Sieve() returns (primes: seq<int>)
    ensures primes == HPrimesBelow(SIEVE)
    ensures forall x :: x in primes <==> HPrime(x) && x <= LIMIT
    ensures Increasing(primes) && forall k | 0 <= k < |primes| :: IsH(primes[k]) && primes[k] >= 5
  {
    var sieve := new bool[SIEVE](_ => true);
    assert sieve[..] == seq(SIEVE, _ => true);
    SieveStart();
    primes := [];
    for i := 1 to sieve.Length
      invariant primes == HPrimesBelow(i)
      invariant SieveState(sieve[..], i)
    {
      var p := i * 4 + 1;
      SieveStep(sieve[..], i);
      IndexOf(i);
      if sieve[i] {
        primes := primes + [p];
        Strike(sieve, p);
      }
    }
    PrimesUpTo(primes, sieve.Length);
  }

  /**
   * One row of lines 35-43: the products primes[i] * primes[j] for j from i
   * on, until one exceeds LIMIT (`continue 'outerloop`).
   */
  method Row(primes: seq<int>, i: nat, semi: seq<int>) returns (semi': seq<int>)
    requires Increasing(primes) && i < |primes| && forall k | 0 <= k < |primes| :: primes[k] >= 1
    requires forall x :: x in semi <==> InRows(primes, i, x)
    ensures forall x :: x in semi' <==> InRows(primes, i + 1, x)
  {
    semi' := semi;
    var j := i;
    while j < |primes| && primes[i] * primes[j] <= LIMIT
      invariant i <= j <= |primes|
      invariant forall b | i <= b < j :: Product(primes, i, b) <= LIMIT
      invariant forall x :: x in semi' <==> InRows(primes, i, x) || InRow(primes, i, j, x)
    {
      semi' := semi' + [Product(primes, i, j)];
      j := j + 1;
    }
    forall b | j <= b < |primes|
      ensures Product(primes, i, b) > LIMIT
    {
      ProductMono(primes, i, j, b);
    }
    forall x
      ensures InRows(primes, i + 1, x) <==> InRows(primes, i, x) || InRow(primes, i, j, x)
    {
      NextRow(primes, i, j, x);
    }
  }

  /** Lines 34-43: every product of two listed primes, the first not after the second, up to LIMIT. */
  method Products(primes: seq<int>) returns (semi: seq<int>)
    requires Increasing(primes) && forall k | 0 <= k < |primes| :: primes[k] >= 1
    ensures forall x :: x in semi <==> InRows(primes, |primes|, x)
  {
    semi := [];
    for i := 0 to |primes|
      invariant forall x :: x in semi <==> InRows(primes, i, x)
    {
      semi := Row(primes, i, semi);
    }
  }

  /**
   * `binary_search` over a non-empty increasing sequence: the number of its
   * elements at most search.
   */
  method BinarySearch(inp: seq<int>, search: int) returns (r: nat)
    requires |inp| >= 1 && Increasing(inp)
    ensures r <= |inp| && r == AtMost(inp, search)
    ensures (forall k | 0 <= k < r :: inp[k] <= search) && forall k | r <= k < |inp| :: inp[k] > search
  {
    var min := 0;
    var max := |inp| - 1;
    while max - min > 1
      invariant 0 <= min <= max < |inp|
      invariant min == 0 || inp[min] < search
      invariant forall k | max < k < |inp| :: inp[k] > search
    {
      var mid := (max + min) / 2;
      if inp[mid] < search {
        min := mid;
      } else if inp[mid] > search {
        if mid == 0 {
          // the early `return 0`: not reachable, as the loop runs only while max >= min + 2
          assert false;
        }
        max := mid - 1;
      } else {
        // the remaining case, `inp[mid] == search`
        r := mid + 1;
        AtMostSplit(inp, search, r);
        return;
      }
    }
    if inp[max] <= search {
      r := max + 1;
    } else if inp[min] <= search {
      r := min + 1;
    } else {
      r := 0;
    }
    AtMostSplit(inp, search, r);
  }

  /** Lines 34-46: the H-semi-primes up to LIMIT, in increasing order. */
  method SemiPrimes(primes: seq<int>) returns (semiPrimes: seq<int>)
    requires Increasing(primes) && forall y :: y in primes <==> HPrime(y) && y <= LIMIT
    requires forall k | 0 <= k < |primes| :: primes[k] >= 5
    ensures Increasing(semiPrimes) && forall x :: x in semiPrimes <==> HSemiPrime(x) && x <= LIMIT
    ensures semiPrimes != []
  {
    var semi := Products(primes);
    semiPrimes := Dedup(Sort(semi));
    forall x
      ensures x in semiPrimes <==> x in semi
    {
      assert x in Sort(semi) <==> x in multiset(semi);
    }
    SemiTable(primes, semiPrimes);
  }

  /** Lines 48-54: each query before the first 0, with the number of entries of table up to it. */
  method Answers(table: seq<int>, queries: seq<int>) returns (out: seq<(int, nat)>)
    requires table != [] && Increasing(table)
    ensures |out| <= |queries| && (|out| < |queries| ==> queries[|out|] == 0)
    ensures forall k | 0 <= k < |out| :: queries[k] != 0 && out[k] == (queries[k], AtMost(table, queries[k]))
  {
    out := [];
    for k := 0 to |queries|
      invariant |out| == k
      invariant forall j | 0 <= j < k :: queries[j] != 0 && out[j] == (queries[j], AtMost(table, queries[j]))
    {
      if queries[k] == 0 {
        return;
      }
      var count := BinarySearch(table, queries[k]);
      out := out + [(queries[k], count)];
    }
  }

  /**
   * `solve` after reading the queries: the H-semi-primes up to LIMIT in
   * increasing order, and for each query before the first 0 the query with
   * the number of them up to it.
   */
  method Solve(queries: seq<int>) returns (semiPrimes: seq<int>, out: seq<(int, nat)>)
    ensures Increasing(semiPrimes) && forall x :: x in semiPrimes <==> HSemiPrime(x) && x <= LIMIT
    ensures |out| <= |queries| && (|out| < |queries| ==> queries[|out|] == 0)
    ensures forall k | 0 <= k < |out| :: queries[k] != 0 && out[k] == (queries[k], AtMost(semiPrimes, queries[k]))
  {
    var primes := Sieve();
    semiPrimes := SemiPrimes(primes);
    out := Answers(semiPrimes, queries);
  }
}
