/*
 * src/bracket_sequence.rs: an expression of numbers and brackets whose
 * levels alternate between sums and products: the top level adds its
 * terms, a bracket inside a sum multiplies its terms, a bracket inside a
 * product adds them, and so on.  `add` and `mul` read the tokens from a
 * shared iterator, here a position in the token sequence, and reduce every
 * step modulo 10^9 + 7.
 */
module BracketSequence {
  import opened NumberTheory

  const MOD: nat := 1_000_000_007

  /** The tokens of a line, split at spaces: "(", ")" or a number. */
  datatype Token = Open | Close | Num(n: nat)

  /**
   * The exact value of the sum level read from position pos, and the
   * position after it: the terms up to the closing bracket, which is
   * consumed, or up to the end.
   */
  function SumFrom(t: seq<Token>, pos: nat): (r: (int, nat))
    requires pos <= |t|
    ensures pos <= r.1 <= |t| && r.0 >= 0
    decreases |t| - pos
  {
    if pos == |t| then (0, pos)
    else match t[pos]
      case Close => (0, pos + 1)
      case Open =>
        var a := ProductFrom(t, pos + 1);
        var b := SumFrom(t, a.1);
        (a.0 + b.0, b.1)
      case Num(n) =>
        var b := SumFrom(t, pos + 1);
        (n + b.0, b.1)
  }

  /** The exact value of the product level read from position pos, and the position after it. */
  function ProductFrom(t: seq<Token>, pos: nat): (r: (int, nat))
    requires pos <= |t|
    ensures pos <= r.1 <= |t| && r.0 >= 0
    decreases |t| - pos
  {
    if pos == |t| then (1, pos)
    else match t[pos]
      case Close => (1, pos + 1)
      case Open =>
        var a := SumFrom(t, pos + 1);
        var b := ProductFrom(t, a.1);
        (a.0 * b.0, b.1)
      case Num(n) =>
        var b := ProductFrom(t, pos + 1);
        (n * b.0, b.1)
  }

  /** No bracket among the tokens. */
  ghost predicate Flat(t: seq<Token>)
  {
    forall k | 0 <= k < |t| :: t[k].Num?
  }

  /** The numbers of a flat token sequence, added up. */
  function Total(t: seq<Token>): int
    requires Flat(t)
  {
    if t == [] then 0 else t[0].n + Total(t[1..])
  }

  /** The numbers of a flat token sequence, multiplied. */
  function Product(t: seq<Token>): int
    requires Flat(t)
  {
    if t == [] then 1 else t[0].n * Product(t[1..])
  }

  /**
   * Without brackets, a level reads every remaining token: a sum level adds
   * the numbers and a product level multiplies them.
   */
  lemma {:induction false} FlatLevels(t: seq<Token>, pos: nat)
    requires pos <= |t| && Flat(t[pos..])
    ensures SumFrom(t, pos) == (Total(t[pos..]), |t|)
    ensures ProductFrom(t, pos) == (Product(t[pos..]), |t|)
    decreases |t| - pos
  {
    if pos < |t| {
      assert t[pos..][0] == t[pos] && t[pos..][1..] == t[pos + 1..];
      FlatLevels(t, pos + 1);
    }
  }

  /** Sums of congruent terms are congruent. */
  lemma AddMod(a: int, b: int, x: int, y: int)
    requires a % MOD == b % MOD && x % MOD == y % MOD
    ensures (a + x) % MOD == (b + y) % MOD
  {
    var ja, jb, jx, jy := a / MOD, b / MOD, x / MOD, y / MOD;
    assert a + x == (b + y) + (ja - jb + jx - jy) * MOD;
    ModShift(b + y, ja - jb + jx - jy, MOD);
  }

  /** Products of congruent factors are congruent. */
  lemma MulMod(a: int, b: int, x: int, y: int)
    requires a % MOD == b % MOD && x % MOD == y % MOD
    ensures (a * x) % MOD == (b * y) % MOD
  {
    ModMul(a, b, x, MOD);
    ModMul(x, y, b, MOD);
    assert b * x == x * b && b * y == y * b;
  }

  lemma Assoc(a: int, b: int, c: int)
    ensures a * (b * c) == (a * b) * c
  {
  }

  /**
   * `mul`: the product level from position pos, modulo MOD, and the
   * position after it; 1 when the tokens are exhausted.
   */
  method Mul(t: seq<Token>, pos: nat) returns (total: nat, next: nat)
    requires pos <= |t|
    ensures total < MOD && total == ProductFrom(t, pos).0 % MOD && next == ProductFrom(t, pos).1
    ensures pos == |t| ==> total == 1
    decreases |t| - pos, 0
  {
    total := 1;
    next := pos;
    ghost var acc := 1;
    while next < |t|
      invariant pos <= next <= |t| && total == acc % MOD
      invariant ProductFrom(t, pos) == (acc * ProductFrom(t, next).0, ProductFrom(t, next).1)
      decreases |t| - next
    {
      var c := t[next];
      match c {
        case Open =>
          var x, after := Add(t, next + 1);
          ghost var a := SumFrom(t, next + 1);
          ModUnique(total, MOD, 0, total);
          ModUnique(x, MOD, 0, x);
          MulMod(total, acc, x, a.0);
          Assoc(acc, a.0, ProductFrom(t, after).0);
          total, acc := (total * x) % MOD, acc * a.0;
          next := after;
        case Close =>
          next := next + 1;
          return;
        case Num(n) =>
          ModUnique(total, MOD, 0, total);
          MulMod(total, acc, n, n);
          Assoc(acc, n, ProductFrom(t, next + 1).0);
          total, acc := (total * n) % MOD, acc * n;
          next := next + 1;
      }
    }
  }

  /**
   * `add`: the sum level from position pos, modulo MOD, and the position
   * after it; 0 when the tokens are exhausted.
   */
  method Add(t: seq<Token>, pos: nat) returns (total: nat, next: nat)
    requires pos <= |t|
    ensures total < MOD && total == SumFrom(t, pos).0 % MOD && next == SumFrom(t, pos).1
    ensures pos == |t| ==> total == 0
    decreases |t| - pos, 0
  {
    total := 0;
    next := pos;
    ghost var acc := 0;
    while next < |t|
      invariant pos <= next <= |t| && total == acc % MOD
      invariant SumFrom(t, pos) == (acc + SumFrom(t, next).0, SumFrom(t, next).1)
      decreases |t| - next
    {
      var c := t[next];
      match c {
        case Open =>
          var x, after := Mul(t, next + 1);
          ghost var a := ProductFrom(t, next + 1);
          ModUnique(total, MOD, 0, total);
          ModUnique(x, MOD, 0, x);
          AddMod(total, acc, x, a.0);
          total, acc := (total + x) % MOD, acc + a.0;
          next := after;
        case Close =>
          next := next + 1;
          return;
        case Num(n) =>
          ModUnique(total, MOD, 0, total);
          AddMod(total, acc, n, n);
          total, acc := (total + n) % MOD, acc + n;
          next := next + 1;
      }
    }
  }

  /** `main` for one line: the value of the whole line modulo MOD. */
  method Evaluate(t: seq<Token>) returns (r: nat)
    ensures r < MOD && r == SumFrom(t, 0).0 % MOD
  {
    var res, _ := Add(t, 0);
    r := res % MOD;
  }
}
