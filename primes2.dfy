/*
 * src/primes2.rs: a line of digits read in bases 2, 8, 10 and 16; the
 * fraction of the readings that are prime, in lowest terms.
 */
module Primes2 {
  import opened Wrappers
  import opened NumberTheory

  /** The bases a line is read in. */
  const BASES: seq<nat> := [2, 8, 10, 16]

  /** `char::to_digit(base)` for base <= 36: 0-9, then a-z or A-Z from 10, below base. */
  function ToDigit(c: char, base: nat): (r: Option<nat>)
    ensures r.Some? ==> r.value < base
  {
    var v: int :=
      if '0' <= c <= '9' then c as int - '0' as int
      else if 'a' <= c <= 'z' then c as int - 'a' as int + 10
      else if 'A' <= c <= 'Z' then c as int - 'A' as int + 10
      else base;
    if 0 <= v < base then Some(v) else None
  }

  /** Every character of s is a digit in base. */
  predicate Digits(s: string, base: nat)
  {
    forall i | 0 <= i < |s| :: ToDigit(s[i], base).Some?
  }

  /** The value of the digits s in base, most significant first. */
  function Horner(s: string, base: nat): nat
    requires Digits(s, base)
  {
    if s == [] then 0
    else Horner(s[..|s| - 1], base) * base + ToDigit(s[|s| - 1], base).value
  }

  /**
   * `str_to_digit_with_base`: the value of input in base, None if some
   * character is not a digit in base.
   */
  method StrToDigit(input: string, base: nat) returns (r: Option<nat>)
    ensures r.None? <==> !Digits(input, base)
    ensures r.Some? ==> r.value == Horner(input, base)
  {
    var res := 0;
    for i := 0 to |input|
      invariant Digits(input[..i], base) && res == Horner(input[..i], base)
    {
      var c := input[i];
      assert input[..i + 1][..i] == input[..i];
      var dig := ToDigit(c, base);
      if dig.None? {
        return None;
      }
      res := res * base + dig.value;
    }
    assert input[..|input|] == input;
    return Some(res);
  }

  /** n is prime: 2 or more, with no divisor strictly between 1 and n. */
  predicate Prime(n: nat)
  {
    n >= 2 && forall d | 2 <= d < n :: n % d != 0
  }

  /** The integer square root: the largest s with s * s <= n. */
  function Isqrt(n: nat): (s: nat)
    ensures s * s <= n < (s + 1) * (s + 1)
  {
    if n == 0 then 0
    else
      var s := Isqrt(n - 1);
      if (s + 1) * (s + 1) <= n then s + 1 else s
  }

  /** A number with a divisor strictly between 1 and n has one that is at most its square root. */
  lemma SmallDivisor(n: nat, d: nat)
    requires 2 <= d < n && n % d == 0
    ensures exists e | 2 <= e <= Isqrt(n) && e < n :: n % e == 0
  {
    var f := Cofactor(n, d);
    var e := if d <= f then d else f;
    Smaller(e, d, f);
    var s := Isqrt(n);
    if e > s {
      Larger(s + 1, e);
      assert false;
    }
    assert 2 <= e <= Isqrt(n) && e < n && n % e == 0;
  }

  /** The cofactor of a proper divisor is a proper divisor too. */
  lemma Cofactor(n: nat, d: nat) returns (f: nat)
    requires 2 <= d < n && n % d == 0
    ensures n == d * f && 2 <= f < n && n % f == 0
  {
    f := n / d;
    assert n == d * f;
    assert f >= 2 by {
      Below(d, f);
    }
    assert d * f >= 2 * f;
    ModUnique(n, f, d, 0);
  }

  lemma Below(d: nat, f: nat)
    requires d >= 1 && d * f > d
    ensures f >= 2
  {
    assert d * f - d == d * (f - 1);
  }

  lemma Smaller(e: nat, d: nat, f: nat)
    requires e == d || e == f
    requires e <= d && e <= f
    ensures e * e <= d * f
  {
    assert e * e <= e * f;
    assert e * f <= d * f;
  }

  lemma Larger(a: nat, b: nat)
    requires a <= b
    ensures a * a <= b * b
  {
    assert a * a <= a * b <= b * b;
  }

  /**
   * `is_prime`: trial division by 2 ..= min(n, sqrt(n) + 1), passing over
   * n itself; false for n <= 1.
   */
  method IsPrime(n: nat) returns (r: bool)
    ensures r <==> Prime(n)
    ensures n <= 1 ==> !r
  {
    if n <= 1 {
      return false;
    }
    var max := Isqrt(n) + 1;
    var top := if n < max then n else max;
    for x := 2 to top + 1
      invariant forall d | 2 <= d < x && d != n :: n % d != 0
    {
      if n != x && n % x == 0 {
        return false;
      }
    }
    if !Prime(n) {
      var d :| 2 <= d < n && n % d == 0;
      SmallDivisor(n, d);
    }
    return true;
  }

  /** `gcd`: Euclid's loop; a common divisor of a0 and b0 that every common divisor divides. */
  method Gcd(a0: nat, b0: nat) returns (g: nat)
    ensures Divides(g, a0) && Divides(g, b0)
    ensures forall d | Divides(d, a0) && Divides(d, b0) :: Divides(d, g)
    ensures b0 == 0 ==> g == a0
  {
    var a, b := a0, b0;
    while b > 0
      invariant forall d :: Divides(d, a) && Divides(d, b) <==> Divides(d, a0) && Divides(d, b0)
      invariant b0 == 0 ==> a == a0
      decreases b
    {
      forall d
        ensures Divides(d, a) && Divides(d, b) <==> Divides(d, b) && Divides(d, a % b)
      {
        CommonRem(d, a, b);
        TruncatedDivision(a, b);
      }
      var tmp := a;
      a := b;
      b := tmp % b;
    }
    assert Divides(a, a) && Divides(a, 0);
    g := a;
  }

  /** No integer above 1 divides both x and y. */
  ghost predicate Lowest(x: int, y: int)
  {
    forall d | d > 1 :: !(Divides(d, x) && Divides(d, y))
  }

  /** A positive multiple of k that divides x > 0 is not above x. */
  lemma DividesLe(k: int, x: int)
    requires k > 0 && x > 0 && Divides(k, x)
    ensures k <= x
  {
    Quotient(k, x);
    NatMul(k, x / k);
  }

  lemma Scale(d: int, x: int, c: int)
    requires Divides(d, x)
    ensures Divides(d * c, x * c)
  {
    if d == 0 {
    } else {
      Quotient(d, x);
      var j := x / d;
      assert x * c == (d * c) * j;
      DividesMultiple(d * c, j);
    }
  }

  /** d > 1 times div > 0 does not divide div. */
  lemma NotCommon(d: int, div: int)
    requires d > 1 && div > 0
    ensures !Divides(d * div, div)
  {
    NatMul(div, d);
    assert d * div > div;
    if Divides(d * div, div) {
      DividesLe(d * div, div);
    }
  }

  lemma CrossMultiply(num: nat, den: nat, div: nat, primes: nat, count: nat)
    requires primes == num * div && count == den * div
    ensures num * count == primes * den
  {
    assert num * (den * div) == (num * div) * den;
  }

  /**
   * The fraction primes / count of `solve`, divided by their gcd; "0/1"
   * when both are 0.
   */
  method Fraction(primes: nat, count: nat) returns (num: nat, den: nat)
    ensures num * count == primes * den && Lowest(num, den)
    ensures count > 0 ==> den >= 1
    ensures primes == 0 && count == 0 ==> num == 0 && den == 1
  {
    var div := Gcd(primes, count);
    if div != 0 {
      num, den := primes / div, count / div;
      Quotient(div, primes);
      Quotient(div, count);
      CrossMultiply(num, den, div, primes, count);
      forall d | d > 1
        ensures !(Divides(d, num) && Divides(d, den))
      {
        if Divides(d, num) && Divides(d, den) {
          Scale(d, num, div);
          Scale(d, den, div);
          NotCommon(d, div);
        }
      }
    } else {
      assert Divides(0, primes);
      num, den := 0, 1;
      assert Lowest(num, den) by {
        forall d | d > 1
          ensures !Divides(d, 1)
        {
          if Divides(d, 1) {
            DividesOne(d);
          }
        }
      }
    }
  }

  /** The values of input in each base of bases in which it is a number, in order. */
  function Readings(input: string, bases: seq<nat>): (r: seq<nat>)
    ensures |r| <= |bases|
  {
    if bases == [] then []
    else
      var base := bases[|bases| - 1];
      Readings(input, bases[..|bases| - 1]) + (if Digits(input, base) then [Horner(input, base)] else [])
  }

  /** How many elements of s are prime. */
  function PrimeCount(s: seq<nat>): (c: nat)
    ensures c <= |s|
  {
    if s == [] then 0 else PrimeCount(s[..|s| - 1]) + (if Prime(s[|s| - 1]) then 1 else 0)
  }

  /**
   * The body of the loop of `solve` for one line: the readings of the line
   * in bases 2, 8, 10 and 16, and the fraction of them that are prime, in
   * lowest terms ("0/1" when there is none).
   */
  method Line(input: string) returns (num: nat, den: nat)
    ensures var poss := Readings(input, BASES);
      num * |poss| == PrimeCount(poss) * den && Lowest(num, den) && den >= 1
    ensures Readings(input, BASES) == [] ==> num == 0 && den == 1
  {
    var poss: seq<nat> := [];
    for j := 0 to |BASES|
      invariant poss == Readings(input, BASES[..j])
    {
      assert BASES[..j + 1][..j] == BASES[..j];
      var r := StrToDigit(input, BASES[j]);
      if r.Some? {
        poss := poss + [r.value];
      }
    }
    assert BASES[..|BASES|] == BASES;
    var primes := 0;
    for k := 0 to |poss|
      invariant primes == PrimeCount(poss[..k])
    {
      assert poss[..k + 1][..k] == poss[..k];
      var p := IsPrime(poss[k]);
      if p {
        primes := primes + 1;
      }
    }
    assert poss[..|poss|] == poss;
    num, den := Fraction(primes, |poss|);
  }
}
