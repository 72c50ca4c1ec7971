/*
 * The polynomial hash that src/clockpictures.rs and src/typo.rs each carry
 * a copy of: element i of a word counts b * 31^i, modulo 10^9 + 9.
 */
module RollingHash {
  import opened NumberTheory
  import opened Powers

  const P: nat := 31
  const M: nat := 1_000_000_009

  /** The polynomial of w at P, not reduced: the sum of w[i] * P^i. */
  function Poly(w: seq<int>): int
  {
    if w == [] then 0 else Poly(w[..|w| - 1]) + w[|w| - 1] * Pow(P, |w| - 1)
  }

  /**
   * `calc(i, b)`: b * P^i mod M, with `mod_pow(P, i, M)` by its result
   * P^i mod M.
   */
  function Calc(i: nat, b: int): (r: int)
    ensures 0 <= r < M && r == (b * Pow(P, i)) % M
  {
    var p := Pow(P, i);
    ModUnique(p % M, M, 0, p % M);
    ModMul(p % M, p, b, M);
    assert (p % M) * b == b * (p % M) && p * b == b * p;
    ((p % M) % M * b) % M
  }

  /** `hash`: the fold adding calc(i, w[i]) modulo M, which is the polynomial mod M. */
  function Hash(w: seq<int>): (r: int)
    ensures 0 <= r < M && r == Poly(w) % M
  {
    if w == [] then 0
    else
      var n := |w| - 1;
      var h := Hash(w[..n]);
      Reduce(h, Poly(w[..n]), Calc(n, w[n]), w[n] * Pow(P, n));
      (h + Calc(n, w[n])) % M
  }

  /** The sum of two residues reduces to the residue of the sum. */
  lemma Reduce(h: int, p: int, c: int, x: int)
    requires h == p % M && c == x % M
    ensures (h + c) % M == (p + x) % M
  {
    var j, k := p / M, x / M;
    assert p == h + j * M && x == c + k * M;
    assert p + x == (h + c) + (j + k) * M;
    ModShift(h + c, j + k, M);
  }

  /** Sums and differences of congruent terms are congruent modulo M. */
  lemma Congruent(h: int, p: int, c: int, x: int)
    requires h % M == p % M && c % M == x % M
    ensures (h + c) % M == (p + x) % M && (h - c) % M == (p - x) % M
  {
    var j, k := h / M - p / M, c / M - x / M;
    assert h == p + j * M && c == x + k * M;
    assert h + c == (p + x) + (j + k) * M;
    assert h - c == (p - x) + (j - k) * M;
    ModShift(p + x, j + k, M);
    ModShift(p - x, j - k, M);
  }

  /** Writing x at position j changes the polynomial by (x - w[j]) * P^j. */
  lemma {:induction false} PolyUpdate(w: seq<int>, j: nat, x: int)
    requires j < |w|
    ensures Poly(w[j := x]) == Poly(w) + (x - w[j]) * Pow(P, j)
    decreases |w|
  {
    var n := |w| - 1;
    assert w[j := x][..n] == if j < n then w[..n][j := x] else w[..n];
    if j < n {
      PolyUpdate(w[..n], j, x);
    }
  }

  /** A new first element x shifts the others up one power: x + P * Poly(w). */
  lemma {:induction false} PolyCons(x: int, w: seq<int>)
    ensures Poly([x] + w) == x + P * Poly(w)
    decreases |w|
  {
    if w != [] {
      var n := |w| - 1;
      assert ([x] + w)[..n + 1] == [x] + w[..n];
      PolyCons(x, w[..n]);
      assert Pow(P, n + 1) == P * Pow(P, n);
    }
  }
}
