/*
 * src/chineseremainder.rs: the extended Euclidean algorithm on signed
 * 128-bit integers, the modular inverse built on it, and the Chinese
 * remainder combination of x = a (mod n) and x = b (mod m).
 */
module ChineseRemainder {
  import opened Wrappers
  import opened NumberTheory

  /** A gcd g of x and y with its coefficients: a x + b y == g. */
  datatype Bezout = Bezout(g: int, a: int, b: int)

  /** x and y have no common divisor above 1. */
  ghost predicate Coprime(x: int, y: int)
  {
    forall d | d > 1 :: !(Divides(d, x) && Divides(d, y))
  }

  lemma Regroup(ea: int, eb: int, x: int, y: int, q: int, r: int)
    requires x == q * y + r
    ensures eb * x + (ea - q * eb) * y == ea * y + eb * r
  {
  }

  /**
   * Extended Euclid, step by step as `extended_gcd` takes it: the gcd of
   * x and y (up to sign) with its coefficients.
   */
  function ExtGcd(x: int, y: int): (r: Bezout)
    ensures r.a * x + r.b * y == r.g
    ensures Divides(r.g, x) && Divides(r.g, y)
    ensures x >= 0 && y >= 0 ==> r.g >= 0
    decreases Abs(y)
  {
    if y == 0 then Bezout(x, 1, 0)
    else
      var q, rem := TDiv(x, y), TRem(x, y);
      var e := ExtGcd(y, rem);
      TruncatedDivision(x, y);
      Regroup(e.a, e.b, x, y, q, rem);
      CommonRem(e.g, x, y);
      Bezout(e.g, e.b, e.a - q * e.b)
  }

  lemma Coefficients(ea: int, eb: int, a0: int, a1: int, q: int)
    ensures ea * a1 + eb * (a0 - q * a1) == eb * a0 + (ea - q * eb) * a1
  {
  }

  /** The loop state of `extended_gcd`: (x, y) from (x0, y0) by the matrix (a0 b0; a1 b1). */
  ghost predicate Euclid(x0: int, y0: int, x: int, y: int, a0: int, a1: int, b0: int, b1: int)
  {
    a0 * x0 + b0 * y0 == x && a1 * x0 + b1 * y0 == y &&
    var e := ExtGcd(x, y);
    ExtGcd(x0, y0) == Bezout(e.g, e.a * a0 + e.b * a1, e.a * b0 + e.b * b1)
  }

  /** One pass of the loop of `extended_gcd` keeps its state. */
  lemma EuclidStep(x0: int, y0: int, x: int, y: int, a0: int, a1: int, b0: int, b1: int)
    requires y != 0 && Euclid(x0, y0, x, y, a0, a1, b0, b1)
    ensures Euclid(x0, y0, y, TRem(x, y), a1, a0 - TDiv(x, y) * a1, b1, b0 - TDiv(x, y) * b1)
  {
    var q, r := TDiv(x, y), TRem(x, y);
    TruncatedDivision(x, y);
    var e := ExtGcd(y, r);
    Coefficients(e.a, e.b, a0, a1, q);
    Coefficients(e.a, e.b, b0, b1, q);
    Shift(a0, a1, b0, b1, x0, y0, q);
  }

  /** `extended_gcd`: g with a x + b y == g, g a common divisor of x and y. */
  method ExtendedGcd(x0: int, y0: int) returns (g: int, a: int, b: int)
    ensures Bezout(g, a, b) == ExtGcd(x0, y0)
    ensures a * x0 + b * y0 == g && Divides(g, x0) && Divides(g, y0)
  {
    var x, y := x0, y0;
    var a0, a1, b0, b1 := 1, 0, 0, 1;
    while y != 0
      invariant Euclid(x0, y0, x, y, a0, a1, b0, b1)
      decreases Abs(y)
    {
      var q, r := TDiv(x, y), TRem(x, y);
      var c, d := a0 - q * a1, b0 - q * b1;
      EuclidStep(x0, y0, x, y, a0, a1, b0, b1);
      x, y := y, r;
      a0, a1 := a1, c;
      b0, b1 := b1, d;
    }
    g, a, b := x, a0, b0;
  }

  lemma Shift(a0: int, a1: int, b0: int, b1: int, x0: int, y0: int, q: int)
    ensures (a0 - q * a1) * x0 + (b0 - q * b1) * y0 == (a0 * x0 + b0 * y0) - q * (a1 * x0 + b1 * y0)
  {
  }

  /** Every common divisor of x and y divides the g of ExtGcd: g is a greatest common divisor. */
  lemma Greatest(x: int, y: int, d: int)
    requires Divides(d, x) && Divides(d, y)
    ensures Divides(d, ExtGcd(x, y).g)
  {
    var e := ExtGcd(x, y);
    DividesLinear(d, x, y, e.a, e.b);
  }

  /** For x, y >= 0, ExtGcd finds 1 exactly when x and y are coprime. */
  lemma CoprimeGcd(x: int, y: int)
    ensures x >= 0 && y > 0 ==> (ExtGcd(x, y).g == 1 <==> Coprime(x, y))
  {
    var g := ExtGcd(x, y).g;
    if x < 0 || y <= 0 {
    } else if g == 1 {
      forall d | d > 1
        ensures !(Divides(d, x) && Divides(d, y))
      {
        if Divides(d, x) && Divides(d, y) {
          Greatest(x, y, d);
          DividesOne(d);
        }
      }
    } else {
      assert g != 0;
      assert !(Divides(g, x) && Divides(g, y)) ==> !Coprime(x, y);
    }
  }

  /** The representative in 0 .. m of v mod m, as `(v % m + m) % m` computes it. */
  function Normal(v: int, m: int): (r: int)
    requires m > 0
    ensures 0 <= r < m && r == v % m
  {
    NormalRem(v, m);
    TRem(TRem(v, m) + m, m)
  }

  /**
   * `modulus_inverse`: the inverse of mi modulo modulus, None when the gcd
   * the extended Euclid finds is not 1.  The program divides by zero for
   * modulus 0 and mi 1.
   */
  function ModulusInverse(mi: int, modulus: int): (r: Option<int>)
    requires modulus != 0 || mi != 1
    ensures mi >= 0 && modulus > 0 ==> (r.None? <==> !Coprime(mi, modulus))
    ensures r.Some? && modulus > 0 ==> 0 <= r.value < modulus && (mi * r.value) % modulus == 1 % modulus
  {
    var e := ExtGcd(mi, modulus);
    if e.g == 1 then
      if modulus > 0 then
        var inv := Normal(e.a, modulus);
        CoprimeGcd(mi, modulus);
        Inverse(mi, modulus, e.a, e.b, inv);
        Some(inv)
      else
        Some(TRem(TRem(e.a, modulus) + modulus, modulus))
    else
      CoprimeGcd(mi, modulus);
      None
  }

  lemma Inverse(mi: int, m: int, a: int, b: int, inv: int)
    requires m > 0 && a * mi + b * m == 1 && inv == a % m
    ensures (mi * inv) % m == 1 % m
  {
    ModUnique(inv, m, 0, inv);
    ModMul(inv, a, mi, m);
    assert a * mi == 1 + (-b) * m;
    ModShift(1, -b, m);
  }

  /**
   * `test_case`: x = a (mod n) and x = b (mod m) combined into one x mod
   * k = n m, from the inverses of m mod n and of n mod m.
   */
  function TestCase(a: int, n: int, b: int, m: int): (r: (int, int))
    requires (n != 0 || m != 1) && (m != 0 || n != 1)
    requires ModulusInverse(m, n).Some? && ModulusInverse(n, m).Some?
    ensures r.1 == n * m
    ensures n > 0 && m > 0 && a >= 0 && b >= 0 ==>
      0 <= r.0 < n * m && r.0 % n == a % n && r.0 % m == b % m
  {
    var k := n * m;
    var i1, i2 := ModulusInverse(m, n).value, ModulusInverse(n, m).value;
    assert n != 0 && m != 0;
    NonZero(n, m);
    Combination(a, n, b, m, i1, i2);
    (TRem(m * i1 * a + n * i2 * b, k), k)
  }

  lemma NonZero(n: int, m: int)
    requires n != 0 && m != 0
    ensures n * m != 0
  {
  }

  lemma Combination(a: int, n: int, b: int, m: int, i1: int, i2: int)
    requires n != 0 && m != 0
    requires n > 0 && m > 0 ==> 0 <= i1 < n && (m * i1) % n == 1 % n && 0 <= i2 < m && (n * i2) % m == 1 % m
    ensures n * m != 0
    ensures n > 0 && m > 0 && a >= 0 && b >= 0 ==>
      var x := TRem(m * i1 * a + n * i2 * b, n * m);
      0 <= x < n * m && x % n == a % n && x % m == b % m
  {
    NonZero(n, m);
    if n > 0 && m > 0 && a >= 0 && b >= 0 {
      var k := n * m;
      var p1, p2 := m * i1, n * i2;
      var s := p1 * a + p2 * b;
      assert m * i1 * a + n * i2 * b == s;
      assert p1 >= 0 && p2 >= 0;
      TruncatedDivision(s, k);
      ModOuter(s, n, m);
      assert m * n == k;
      ModOuter(s, m, n);
      Rotate(n, i2, b);
      Rotate(m, i1, a);
      Component(s, p1, a, i2 * b, n);
      Component(s, p2, b, i1 * a, m);
    }
  }

  lemma Rotate(x: int, y: int, z: int)
    ensures (x * y) * z == (y * z) * x
  {
  }

  /** s = p a + j n with p = 1 (mod n) gives s = a (mod n). */
  lemma Component(s: int, p: int, a: int, j: int, n: int)
    requires n > 0 && p % n == 1 % n && (s == p * a + j * n || s == j * n + p * a)
    ensures s % n == a % n
  {
    ModShift(p * a, j, n);
    ModMul(p, 1, a, n);
  }

  /** For coprime positive n and m both inverses exist, so `test_case` applies. */
  lemma CoprimeApplies(n: int, m: int)
    requires n > 0 && m > 0 && Coprime(n, m)
    ensures ModulusInverse(m, n).Some? && ModulusInverse(n, m).Some?
  {
    assert Coprime(m, n);
  }
}
