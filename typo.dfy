/*
 * src/typo.rs: a word of the dictionary is a typo if deleting one of its
 * bytes gives another word of the dictionary.  Words are found by the hash
 * of RollingHash; `check_word` updates the hash of the word to that of each
 * one-byte deletion in turn, from the last byte to the first.
 */
module Typo {
  import opened NumberTheory
  import opened Powers
  import opened RollingHash
  import opened TypoSpec

  /** Taking off the term c of top, with Rust's `%`, leaves a value congruent to a. */
  lemma Remove(h: int, c: int, a: int, top: int)
    requires -(M as int) < h < M && h % M == (a + top) % M && 0 <= c < M && c == top % M
    ensures -(M as int) < TRem(h - c, M) < M && TRem(h - c, M) % M == a % M
  {
    ModUnique(c, M, 0, c);
    Congruent(h, a + top, c, top);
    assert a + top - top == a;
    TRemMod(h - c, M);
  }

  /** Adding the term c of x, with Rust's `%`, keeps the congruence. */
  lemma Restore(h: int, c: int, a: int, x: int)
    requires h % M == a % M && 0 <= c < M && c == x % M
    ensures -(M as int) < TRem(h + c, M) < M && TRem(h + c, M) % M == (a + x) % M
  {
    ModUnique(c, M, 0, c);
    Congruent(h, a, c, x);
    TRemMod(h + c, M);
  }

  /**
   * One pass of the loop of `check_word` for byte i: hash goes from the
   * word without byte i but with it weighted at i, to the word without byte
   * i; key is that deletion's hash.
   */
  method Probe(word: seq<int>, i: nat, h: int) returns (h': int, key: int)
    requires i < |word| && -(M as int) < h < M
    requires h % M == (Poly(Del(word, i)) + word[i] * Pow(P, i)) % M
    ensures -(M as int) < h' < M && h' % M == Poly(Del(word, i)) % M
    ensures key == Hash(Del(word, i))
  {
    h' := TRem(h - Calc(i, word[i]), M);
    Remove(h, Calc(i, word[i]), Poly(Del(word, i)), word[i] * Pow(P, i));
    key := TRem(TRem(h', M) + M, M);
    NormalRem(h', M);
  }

  /** The end of a pass for byte i > 0: byte i weighted at i - 1 again. */
  method Shift(word: seq<int>, i: nat, h: int) returns (h': int)
    requires 0 < i < |word| && h % M == Poly(Del(word, i)) % M
    ensures -(M as int) < h' < M
    ensures h' % M == (Poly(Del(word, i - 1)) + word[i - 1] * Pow(P, i - 1)) % M
  {
    h' := TRem(h + Calc(i - 1, word[i]), M);
    Restore(h, Calc(i - 1, word[i]), Poly(Del(word, i)), word[i] * Pow(P, i - 1));
    DelStep(word, i);
  }

  /**
   * One pass of the loop of `check_word`, for byte i: whether the table holds
   * the word without byte i, and otherwise the hash the next pass starts from.
   */
  method Pass(word: seq<int>, i: nat, h: int, list: Table) returns (found: bool, h': int)
    requires i < |word| && Pending(word, i, h)
    ensures found <==> Deleted(word, i, list)
    ensures !found && i > 0 ==> Pending(word, i - 1, h')
  {
    var key;
    h', key := Probe(word, i, h);
    found := key in list && list[key].0 == Del(word, i);
    if !found && i != 0 {
      h' := Shift(word, i, h');
    }
  }

  /**
   * `check_word`: given the word's own hash, whether the table holds the
   * word with some one byte deleted under that deletion's hash.
   */
  method CheckWord(hash: int, word: seq<int>, list: Table) returns (r: bool)
    requires hash == Hash(word)
    ensures r <==> IsTypo(word, list)
  {
    var h := hash;
    var i := |word|;
    if i > 0 {
      assert Del(word, i - 1) == word[..i - 1];
      ModUnique(h, M, 0, h);
    }
    while i > 0
      invariant 0 <= i <= |word| && (i > 0 ==> Pending(word, i - 1, h))
      invariant Missing(word, i, list)
    {
      i := i - 1;
      var found;
      found, h := Pass(word, i, h, list);
      if found {
        return true;
      }
    }
    return false;
  }

  /** The bytes of the line "NO TYPOS". */
  const NO_TYPOS: seq<int> := [78, 79, 32, 84, 89, 80, 79, 83]

  function Words(res: seq<(seq<int>, nat)>): (r: seq<seq<int>>)
    ensures |r| == |res| && forall k | 0 <= k < |res| :: r[k] == res[k].0
  {
    if res == [] then [] else Words(res[..|res| - 1]) + [res[|res| - 1].0]
  }

  /** One pass of the loop of `solve`: line k is reported if it is its hash's entry and a typo. */
  method Visit(lines: seq<seq<int>>, words: Table, k: nat, res: seq<(seq<int>, nat)>) returns (res': seq<(seq<int>, nat)>)
    requires words == Collect(lines) && k < |lines| && res == Pick(lines, Reported(lines), k)
    ensures res' == Pick(lines, Reported(lines), k + 1)
  {
    var key := Hash(lines[k]);
    ReportedAt(lines, k);
    var r := false;
    if words[key] == (lines[k], k) {
      r := CheckWord(key, lines[k], words);
    }
    res' := if r then res + [(lines[k], k)] else res;
  }

  /**
   * `solve` after reading the lines: res, sorted by line number, holds the
   * kept lines that are typos; the output is their words, or "NO TYPOS"
   * when there are none.
   */
  method Solve(lines: seq<seq<int>>) returns (res: seq<(seq<int>, nat)>, out: seq<seq<int>>)
    ensures res == Pick(lines, Reported(lines), |lines|)
    ensures out == if res == [] then [NO_TYPOS] else Words(res)
  {
    var words := Collect(lines);
    res := [];
    for k := 0 to |lines|
      invariant res == Pick(lines, Reported(lines), k)
    {
      res := Visit(lines, words, k, res);
    }
    out := if res == [] then [NO_TYPOS] else Words(res);
  }
}
