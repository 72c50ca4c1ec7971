/*
 * src/nine.rs: how many q-digit numbers have no digit 9, modulo 10^9 + 7,
 * written as 8 * 9^(q - 1); and `contains_nine`, the digit test the formula
 * came from.
 */
module Nine {
  import opened NumberTheory
  import opened Powers

  const MOD: nat := 1_000_000_007

  /** The decimal digits of d, most significant first; none for 0. */
  function DecimalDigits(d: nat): seq<nat>
  {
    if d == 0 then [] else DecimalDigits(d / 10) + [d % 10]
  }

  /** `contains_nine`: whether some decimal digit of dig is 9. */
  method ContainsNine(dig: nat) returns (r: bool)
    ensures r <==> 9 in DecimalDigits(dig)
  {
    var d := dig;
    while d != 0
      invariant 9 in DecimalDigits(dig) <==> 9 in DecimalDigits(d)
      decreases d
    {
      if d % 10 == 9 {
        return true;
      }
      d := d / 10;
    }
    return false;
  }

  /** How many numbers in lo .. hi have no digit 9. */
  ghost function Free(lo: nat, hi: nat): nat
    decreases hi
  {
    if hi <= lo then 0 else Free(lo, hi - 1) + (if 9 in DecimalDigits(hi - 1) then 0 else 1)
  }

  lemma {:induction false} FreeSplit(a: nat, b: nat, c: nat)
    requires a <= b <= c
    ensures Free(a, c) == Free(a, b) + Free(b, c)
    decreases c
  {
    if b < c {
      FreeSplit(a, b, c - 1);
    }
  }

  /** Appending digit d to n adds a 9 exactly when d is 9. */
  lemma NineAppend(n: nat, d: nat)
    requires d < 10
    ensures 9 in DecimalDigits(10 * n + d) <==> 9 in DecimalDigits(n) || d == 9
  {
    var x := 10 * n + d;
    if x != 0 {
      assert x / 10 == n && x % 10 == d;
    }
  }

  lemma {:induction false} BlockPrefix(n: nat, k: nat)
    requires k <= 9
    ensures Free(10 * n, 10 * n + k) == if 9 in DecimalDigits(n) then 0 else k
  {
    if k > 0 {
      BlockPrefix(n, k - 1);
      NineAppend(n, k - 1);
    }
  }

  /** The ten numbers 10 n .. 10 n + 9 hold nine without a 9 unless n has one, and none if it does. */
  lemma Block(n: nat)
    ensures Free(10 * n, 10 * n + 10) == if 9 in DecimalDigits(n) then 0 else 9
  {
    BlockPrefix(n, 9);
    NineAppend(n, 9);
  }

  /** Up to 10 n there are 9 times as many numbers without a 9 as up to n. */
  lemma {:induction false} Tenfold(n: nat)
    ensures Free(0, 10 * n) == 9 * Free(0, n)
  {
    if n > 0 {
      Tenfold(n - 1);
      FreeSplit(0, 10 * (n - 1), 10 * n);
      Block(n - 1);
    }
  }

  lemma {:induction false} FreeBelow(q: nat)
    ensures Free(0, Pow(10, q)) == Pow(9, q)
  {
    if q > 0 {
      FreeBelow(q - 1);
      Tenfold(Pow(10, q - 1));
    }
  }

  lemma {:induction false} PowPositive(b: nat, e: nat)
    requires b >= 1
    ensures Pow(b, e) >= 1
  {
    if e > 0 {
      PowPositive(b, e - 1);
      NatMul(b, Pow(b, e - 1));
      NatMul(Pow(b, e - 1), b);
    }
  }

  /** There are 8 * 9^(q - 1) numbers of q digits without a 9. */
  lemma Count(q: nat)
    requires q >= 1
    ensures Pow(10, q - 1) <= Pow(10, q)
    ensures Free(Pow(10, q - 1), Pow(10, q)) == 8 * Pow(9, q - 1)
  {
    PowPositive(10, q - 1);
    FreeBelow(q);
    FreeBelow(q - 1);
    FreeSplit(0, Pow(10, q - 1), Pow(10, q));
  }

  /**
   * The answer `solve` writes for a query q >= 1: the number of q-digit
   * numbers without a 9, modulo 10^9 + 7.
   */
  method Answer(q: nat) returns (r: nat)
    requires q >= 1
    ensures Pow(10, q - 1) <= Pow(10, q) && r == Free(Pow(10, q - 1), Pow(10, q)) % MOD
  {
    var p := ModPow(9, q - 1, MOD);
    r := (8 * p) % MOD;
    Count(q);
    ModUnique(p, MOD, 0, p);
    ModMul(p, Pow(9, q - 1), 8, MOD);
  }
}
