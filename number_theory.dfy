/*
 * Divisibility and the integer division of Rust's signed types, which
 * rounds toward zero (Dafny's `/` and `%` are Euclidean).
 */
module NumberTheory {
  /** d divides x: x is d times some integer. */
  predicate Divides(d: int, x: int)
  {
    if d == 0 then x == 0 else x % d == 0
  }

  function Abs(x: int): nat
  {
    if x < 0 then -x else x
  }

  lemma DividesMultiple(d: int, k: int)
    ensures Divides(d, d * k)
  {
    if d != 0 {
      var p := d * k;
      assert p == d * (p / d) + p % d;
      assert d * (k - p / d) == p % d;
      if k - p / d != 0 {
        assert Abs(d * (k - p / d)) >= Abs(d) by {
          AbsMul(d, k - p / d);
        }
      }
    }
  }

  lemma AbsMul(a: int, b: int)
    requires b != 0
    ensures Abs(a * b) >= Abs(a)
  {
    AbsProduct(a, b);
    NatMul(Abs(a), Abs(b));
  }

  lemma AbsProduct(a: int, b: int)
    ensures Abs(a * b) == Abs(a) * Abs(b)
  {
    if a < 0 && b < 0 {
      assert a * b == (-a) * (-b);
    } else if a < 0 {
      assert a * b == -((-a) * b);
    } else if b < 0 {
      assert a * b == -(a * (-b));
    }
  }

  lemma NatMul(a: nat, b: nat)
    requires b >= 1
    ensures a * b >= a
  {
  }

  /** x is d times x / d when d divides x. */
  lemma Quotient(d: int, x: int)
    requires d != 0 && Divides(d, x)
    ensures x == d * (x / d)
  {
  }

  /** A common divisor of x and y divides every combination a x + b y. */
  lemma DividesLinear(d: int, x: int, y: int, a: int, b: int)
    requires Divides(d, x) && Divides(d, y)
    ensures Divides(d, a * x + b * y)
  {
    if d != 0 {
      var i, j := x / d, y / d;
      Quotient(d, x);
      Quotient(d, y);
      assert a * x + b * y == d * (a * i + b * j) by {
        assert a * (d * i) == d * (a * i);
        assert b * (d * j) == d * (b * j);
      }
      DividesMultiple(d, a * i + b * j);
    }
  }

  /** The only divisors of 1 are 1 and -1. */
  lemma DividesOne(d: int)
    requires Divides(d, 1)
    ensures d == 1 || d == -1
  {
    Quotient(d, 1);
    if Abs(d) > 1 {
      AbsMul(d, 1 / d);
    }
  }

  /** Rust's `/` on signed integers: the quotient rounded toward zero. */
  function TDiv(x: int, y: int): int
    requires y != 0
  {
    if (x < 0) == (y < 0) then Abs(x) / Abs(y) else -(Abs(x) / Abs(y))
  }

  /** Rust's `%` on signed integers: the remainder takes the sign of x. */
  function TRem(x: int, y: int): (r: int)
    requires y != 0
    ensures Abs(r) < Abs(y) && (x >= 0 ==> r >= 0) && (x < 0 ==> r <= 0)
  {
    if x < 0 then -(Abs(x) % Abs(y)) else Abs(x) % Abs(y)
  }

  /** x == (x / y) * y + x % y holds for Rust's operators too. */
  lemma TruncatedDivision(x: int, y: int)
    requires y != 0
    ensures x == TDiv(x, y) * y + TRem(x, y)
    ensures x >= 0 && y > 0 ==> TDiv(x, y) == x / y && TRem(x, y) == x % y
  {
    var ax, ay := Abs(x), Abs(y);
    var q, r := ax / ay, ax % ay;
    assert ax == q * ay + r;
    SignCases(x, y, q, r);
  }

  lemma SignCases(x: int, y: int, q: int, r: int)
    requires y != 0 && Abs(x) == q * Abs(y) + r
    ensures x == (if (x < 0) == (y < 0) then q else -q) * y + (if x < 0 then -r else r)
  {
    Negate(q, y);
  }

  lemma Negate(a: int, b: int)
    ensures (-a) * b == -(a * b) && a * (-b) == -(a * b)
  {
  }

  lemma DividesSubMul(d: int, x: int, y: int, q: int)
    requires Divides(d, x) && Divides(d, y)
    ensures Divides(d, x - q * y)
  {
    DividesLinear(d, x, y, 1, -q);
    assert 1 * x + (-q) * y == x - q * y;
  }

  lemma DividesAddMul(d: int, r: int, y: int, q: int)
    requires Divides(d, r) && Divides(d, y)
    ensures Divides(d, q * y + r)
  {
    DividesLinear(d, y, r, q, 1);
  }

  /** Replacing x by x % y keeps the common divisors of x and y. */
  lemma CommonRem(d: int, x: int, y: int)
    requires y != 0
    ensures Divides(d, x) && Divides(d, y) <==> Divides(d, y) && Divides(d, TRem(x, y))
  {
    TruncatedDivision(x, y);
    var q, r := TDiv(x, y), TRem(x, y);
    if Divides(d, x) && Divides(d, y) {
      DividesSubMul(d, x, y, q);
    }
    if Divides(d, y) && Divides(d, r) {
      DividesAddMul(d, r, y, q);
    }
  }

  /** Euclidean division is unique: y = q m + r with 0 <= r < m fixes y % m. */
  lemma ModUnique(y: int, m: int, q: int, r: int)
    requires m > 0 && y == q * m + r && 0 <= r < m
    ensures y % m == r && y / m == q
  {
    var q', r' := y / m, y % m;
    assert (q - q') * m == r' - r;
    if q - q' != 0 {
      AbsMul(m, q - q');
    }
  }

  /** Adding a multiple of m does not change the remainder. */
  lemma ModShift(x: int, k: int, m: int)
    requires m > 0
    ensures (x + k * m) % m == x % m
  {
    var q, r := x / m, x % m;
    assert x + k * m == (q + k) * m + r;
    ModUnique(x + k * m, m, q + k, r);
  }

  /** Congruence mod m is kept by multiplication. */
  lemma ModMul(x: int, y: int, c: int, m: int)
    requires m > 0 && x % m == y % m
    ensures (x * c) % m == (y * c) % m
  {
    var j := x / m - y / m;
    assert x == y + j * m;
    assert x * c == y * c + (j * c) * m;
    ModShift(y * c, j * c, m);
  }

  /** A remainder mod n * m, taken mod n, is the remainder mod n. */
  lemma ModOuter(s: int, n: int, m: int)
    requires n > 0 && m > 0
    ensures (s % (n * m)) % n == s % n
  {
    var k := n * m;
    NatMul(n, m);
    var q := s / k;
    assert s == s % k + (q * m) * n;
    ModShift(s % k, q * m, n);
  }

  /** `(v % m + m) % m` with Rust's `%` is the Euclidean remainder of v. */
  lemma NormalRem(v: int, m: int)
    requires m > 0
    ensures TRem(TRem(v, m) + m, m) == v % m
  {
    var t, q := TRem(v, m), TDiv(v, m);
    TruncatedDivision(v, m);
    ModShift(t, q, m);
    assert t + q * m == v;
    TruncatedDivision(t + m, m);
    ModShift(t, 1, m);
  }

  /** Rust's `%` agrees with the Euclidean one up to a multiple of m. */
  lemma TRemMod(v: int, m: int)
    requires m > 0
    ensures TRem(v, m) % m == v % m
    ensures v >= 0 ==> TRem(v, m) == v % m
  {
    TruncatedDivision(v, m);
    var q := TDiv(v, m);
    assert TRem(v, m) + q * m == v;
    ModShift(TRem(v, m), q, m);
  }
}
