/*
 * `mod_pow`, which src/nine.rs, src/clockpictures.rs and src/typo.rs each
 * carry a copy of: square-and-multiply exponentiation modulo a number.
 */
module Powers {
  import opened NumberTheory

  /** b to the power e. */
  function Pow(b: int, e: nat): (r: int)
    ensures b >= 0 ==> r >= 0
  {
    if e == 0 then 1 else b * Pow(b, e - 1)
  }

  lemma {:induction false} PowAdd(b: int, e1: nat, e2: nat)
    ensures Pow(b, e1 + e2) == Pow(b, e1) * Pow(b, e2)
    decreases e1
  {
    if e1 > 0 {
      PowAdd(b, e1 - 1, e2);
      assert b * (Pow(b, e1 - 1) * Pow(b, e2)) == (b * Pow(b, e1 - 1)) * Pow(b, e2);
    }
  }

  lemma {:induction false} PowSquare(b: int, e: nat)
    ensures Pow(b * b, e) == Pow(b, 2 * e)
    decreases e
  {
    if e > 0 {
      PowSquare(b, e - 1);
      PowAdd(b, 2, 2 * e - 2);
      assert Pow(b, 2) == b * b by { assert Pow(b, 1) == b; }
    }
  }

  /** One square-and-multiply step: b^e is b^(e mod 2) times (b b)^(e / 2). */
  lemma Halve(b: int, e: nat)
    ensures Pow(b, e) == (if e % 2 == 1 then b else 1) * Pow(b * b, e / 2)
  {
    PowSquare(b, e / 2);
    if e % 2 == 1 {
      assert e == 2 * (e / 2) + 1;
      PowAdd(b, 1, 2 * (e / 2));
    } else {
      assert e == 2 * (e / 2);
    }
  }

  lemma {:induction false} PowMod(b: int, e: nat, m: int)
    requires m > 0
    ensures Pow(b % m, e) % m == Pow(b, e) % m
    decreases e
  {
    if e > 0 {
      PowMod(b, e - 1, m);
      ModUnique(b % m, m, 0, b % m);
      ModMulBoth(b % m, b, Pow(b % m, e - 1), Pow(b, e - 1), m);
    }
  }

  lemma ModMulBoth(x: int, x': int, y: int, y': int, m: int)
    requires m > 0 && x % m == x' % m && y % m == y' % m
    ensures (x * y) % m == (x' * y') % m
  {
    ModMul(x, x', y, m);
    ModMul(y, y', x', m);
  }

  /** The loop state of `mod_pow`: result b^e is the power asked for, modulo m. */
  ghost predicate Powering(base0: int, exp0: nat, m: int, result: int, b: int, e: nat)
    requires m > 0
  {
    0 <= result < m && 0 <= b < m && (result * Pow(b, e)) % m == Pow(base0, exp0) % m
  }

  lemma Assoc(x: int, y: int, z: int)
    ensures (x * y) * z == x * (y * z)
  {
  }

  lemma Square(base0: int, exp0: nat, m: int, result: int, b: int, e: nat)
    requires m > 1 && e > 0 && Powering(base0, exp0, m, result, b, e)
    ensures Powering(base0, exp0, m, if e % 2 == 1 then result * b % m else result, b * b % m, e / 2)
  {
    var f := if e % 2 == 1 then b else 1;
    var result', b' := result * f % m, b * b % m;
    var p, p' := Pow(b * b, e / 2), Pow(b', e / 2);
    Halve(b, e);
    assert Pow(b, e) == f * p;
    PowMod(b * b, e / 2, m);
    assert p' % m == p % m;
    ModUnique(result', m, 0, result');
    ModMulBoth(result', result * f, p', p, m);
    Assoc(result, f, p);
    assert (result' * p') % m == (result * Pow(b, e)) % m;
    if e % 2 != 1 {
      assert result * f == result;
      ModUnique(result, m, 0, result);
    }
    assert result' == if e % 2 == 1 then result * b % m else result;
  }

  /**
   * `mod_pow(base, exp, modulus)`: base^exp mod modulus; 0 when modulus is 1.
   * All values stay below modulus^2, so nothing overflows for modulus < 2^31.
   */
  method ModPow(base: nat, exp: nat, modulus: nat) returns (result: nat)
    requires modulus >= 1
    ensures result == Pow(base, exp) % modulus
    ensures result < modulus && (modulus == 1 ==> result == 0)
  {
    if modulus == 1 {
      ModUnique(Pow(base, exp), 1, Pow(base, exp), 0);
      return 0;
    }
    result := 1;
    var b := base % modulus;
    var e := exp;
    PowMod(base, exp, modulus);
    while e > 0
      invariant Powering(base, exp, modulus, result, b, e)
      decreases e
    {
      Square(base, exp, modulus, result, b, e);
      if e % 2 == 1 {
        result := result * b % modulus;
      }
      e := e / 2;
      b := b * b % modulus;
    }
    assert result * Pow(b, e) == result;
    ModUnique(result, modulus, 0, result);
  }
}
