/*
 * What src/typo.rs computes, on values: one-byte deletions, the table of
 * words `solve` collects, and the words it reports.
 */
module TypoSpec {
  import opened Powers
  import opened RollingHash

  /** The table `solve` builds: each word's hash to the word and its line number. */
  type Table = map<int, (seq<int>, nat)>

  /** `&word[0..i]` followed by `&word[(i + 1)..]`: the word without byte i. */
  function Del(w: seq<int>, i: nat): (r: seq<int>)
    requires i < |w|
    ensures |r| == |w| - 1
    ensures forall k | 0 <= k < |r| :: r[k] == if k < i then w[k] else w[k + 1]
  {
    w[..i] + w[i + 1..]
  }

  /** The table holds word without byte i, under that deletion's hash. */
  ghost predicate Deleted(word: seq<int>, i: nat, list: Table)
    requires i < |word|
  {
    var d := Del(word, i);
    Hash(d) in list && list[Hash(d)].0 == d
  }

  /**
   * The state of `check_word`'s hash h before the pass for byte i: within
   * one modulus of zero, and congruent to the word without byte i but with
   * byte i still weighted at position i.
   */
  ghost predicate Pending(word: seq<int>, i: nat, h: int)
    requires i < |word|
  {
    -(M as int) < h < M && h % M == (Poly(Del(word, i)) + word[i] * Pow(P, i)) % M
  }

  /** None of the deletions of bytes i and after is in the table. */
  ghost predicate Missing(word: seq<int>, i: nat, list: Table)
  {
    forall j | i <= j < |word| :: !Deleted(word, j, list)
  }

  /**
   * Moving the deletion one byte to the left: the polynomial of the word
   * without byte i, with byte i weighted at position i - 1, is that of the
   * word without byte i - 1, with byte i - 1 weighted there.
   */
  lemma DelStep(w: seq<int>, i: nat)
    requires 0 < i < |w|
    ensures Poly(Del(w, i)) + w[i] * Pow(P, i - 1) == Poly(Del(w, i - 1)) + w[i - 1] * Pow(P, i - 1)
  {
    assert Del(w, i - 1) == Del(w, i)[i - 1 := w[i]];
    PolyUpdate(Del(w, i), i - 1, w[i]);
  }

  /**
   * The map `solve` collects from the lines (the first line of the input,
   * the count, skipped): each line under its hash with its line number, a
   * later line replacing an earlier one of the same hash.
   */
  function Collect(lines: seq<seq<int>>): Table
  {
    if lines == [] then map[]
    else
      var n := |lines| - 1;
      Collect(lines[..n])[Hash(lines[n]) := (lines[n], n)]
  }

  /** Every line's hash is a key, and each entry is a line under its own hash with its line number. */
  lemma {:induction false} CollectFacts(lines: seq<seq<int>>)
    ensures forall key | key in Collect(lines) ::
              Collect(lines)[key].1 < |lines| && Collect(lines)[key].0 == lines[Collect(lines)[key].1] &&
              key == Hash(Collect(lines)[key].0)
    ensures forall k | 0 <= k < |lines| :: Hash(lines[k]) in Collect(lines)
  {
    if lines != [] {
      var n := |lines| - 1;
      CollectFacts(lines[..n]);
      var t0, t := Collect(lines[..n]), Collect(lines);
      forall key | key in t
        ensures t[key].1 < |lines| && t[key].0 == lines[t[key].1] && key == Hash(t[key].0)
      {
        if key != Hash(lines[n]) {
          assert key in t0 && t[key] == t0[key];
          assert t0[key].1 < n && t0[key].0 == lines[..n][t0[key].1];
        }
      }
      assert forall k | 0 <= k < n :: lines[..n][k] == lines[k];
    }
  }

  /** Line k is the entry the table keeps for its hash: `solve` checks each such entry once. */
  ghost predicate Kept(lines: seq<seq<int>>, k: nat)
    requires k < |lines|
  {
    CollectFacts(lines);
    Collect(lines)[Hash(lines[k])] == (lines[k], k)
  }

  /** Each entry of the table is kept for exactly one line, the one it names. */
  lemma Entries(lines: seq<seq<int>>, key: int)
    requires key in Collect(lines)
    ensures var k := Collect(lines)[key].1;
            k < |lines| && Kept(lines, k) && Hash(lines[k]) == key
    ensures forall k | 0 <= k < |lines| && Kept(lines, k) && Hash(lines[k]) == key :: k == Collect(lines)[key].1
  {
    CollectFacts(lines);
  }

  /** A typo: a word that the table holds with one byte deleted. */
  ghost predicate IsTypo(word: seq<int>, list: Table)
  {
    exists i | 0 <= i < |word| :: Deleted(word, i, list)
  }

  /** For each line, whether `solve` reports it: it is the kept entry for its hash and a typo. */
  ghost function Reported(lines: seq<seq<int>>): (r: seq<bool>)
    ensures |r| == |lines|
  {
    var t := Collect(lines);
    seq(|lines|, k requires 0 <= k < |lines| => Kept(lines, k) && IsTypo(lines[k], t))
  }

  /** Line k is reported iff the table keeps it for its hash and it is a typo. */
  lemma ReportedAt(lines: seq<seq<int>>, k: nat)
    requires k < |lines|
    ensures Hash(lines[k]) in Collect(lines)
    ensures Reported(lines)[k] <==> Collect(lines)[Hash(lines[k])] == (lines[k], k) && IsTypo(lines[k], Collect(lines))
  {
    CollectFacts(lines);
  }

  /** The lines before line k whose flag is set, with their line numbers, in line order. */
  function Pick(lines: seq<seq<int>>, flags: seq<bool>, k: nat): seq<(seq<int>, nat)>
    requires k <= |lines| == |flags|
  {
    if k == 0 then []
    else Pick(lines, flags, k - 1) + (if flags[k - 1] then [(lines[k - 1], k - 1)] else [])
  }

  /** Pick lists exactly the flagged lines, by strictly increasing line number. */
  lemma {:induction false} PickExactly(lines: seq<seq<int>>, flags: seq<bool>, k: nat)
    requires k <= |lines| == |flags|
    ensures forall e | e in Pick(lines, flags, k) :: e.1 < k && e.0 == lines[e.1] && flags[e.1]
    ensures forall j | 0 <= j < k && flags[j] :: (lines[j], j) in Pick(lines, flags, k)
    ensures forall a, b | 0 <= a < b < |Pick(lines, flags, k)| :: Pick(lines, flags, k)[a].1 < Pick(lines, flags, k)[b].1
  {
    if k > 0 {
      PickExactly(lines, flags, k - 1);
    }
  }
}
