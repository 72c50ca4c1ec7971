/*
 * The counting loop of src/megainversions.rs: the number of triples
 * i < j < k with a_i > a_j > a_k, found by sweeping j left to right with a
 * tree of counts for the values already passed and one for the values
 * still ahead.
 */
module MegaInversions {
  import opened TreeLayout
  import opened SumSegmentTree

  /** The number of elements of s below c. */
  function Less(s: seq<int>, c: int): nat
  {
    if s == [] then 0 else (if s[0] < c then 1 else 0) + Less(s[1..], c)
  }

  /** The number of elements of s above c. */
  function Greater(s: seq<int>, c: int): nat
  {
    if s == [] then 0 else (if s[0] > c then 1 else 0) + Greater(s[1..], c)
  }

  /** The number of pairs j < k of positions of t with c > t[j] > t[k]. */
  function Pairs(c: int, t: seq<int>): nat
  {
    if t == [] then 0 else (if c > t[0] then Less(t[1..], t[0]) else 0) + Pairs(c, t[1..])
  }

  /** The number of triples i < j < k of positions of s with s[i] > s[j] > s[k]. */
  function Triples(s: seq<int>): nat
  {
    if s == [] then 0 else Pairs(s[0], s[1..]) + Triples(s[1..])
  }

  /** The pairs of t below each element of pre, added up. */
  function PairsFrom(pre: seq<int>, t: seq<int>): nat
  {
    if pre == [] then 0 else Pairs(pre[0], t) + PairsFrom(pre[1..], t)
  }

  /**
   * The loop's sum over the elements c of t: the elements before c (pre and
   * the earlier ones of t) above c, times the elements after c below it.
   */
  function Middle(pre: seq<int>, t: seq<int>): nat
    decreases |t|
  {
    if t == [] then 0 else Greater(pre, t[0]) * Less(t[1..], t[0]) + Middle(pre + [t[0]], t[1..])
  }

  lemma {:induction false} PairsFromSnoc(pre: seq<int>, c: int, t: seq<int>)
    ensures PairsFrom(pre + [c], t) == PairsFrom(pre, t) + Pairs(c, t)
  {
    if pre == [] {
      assert pre + [c] == [c];
      assert [c][1..] == [];
    } else {
      assert (pre + [c])[1..] == pre[1..] + [c];
      PairsFromSnoc(pre[1..], c, t);
    }
  }

  lemma Distribute(a: nat, b: nat, m: nat)
    ensures (a + b) * m == a * m + b * m
  {
  }

  /** A new first element c of t makes a pair below each element of pre above c, once per element after c below c. */
  lemma {:induction false} PairsFromCons(pre: seq<int>, c: int, t: seq<int>)
    ensures PairsFrom(pre, [c] + t) == Greater(pre, c) * Less(t, c) + PairsFrom(pre, t)
  {
    if pre != [] {
      assert ([c] + t)[1..] == t;
      PairsFromCons(pre[1..], c, t);
      Distribute(if pre[0] > c then 1 else 0, Greater(pre[1..], c), Less(t, c));
    }
  }

  /** The loop's sum counts the triples within t and those that start in pre. */
  lemma {:induction false} MiddleTriples(pre: seq<int>, t: seq<int>)
    ensures Middle(pre, t) == Triples(t) + PairsFrom(pre, t)
    decreases |t|
  {
    if t == [] {
      PairsFromEmpty(pre);
    } else {
      var c := t[0];
      assert t == [c] + t[1..];
      MiddleTriples(pre + [c], t[1..]);
      PairsFromSnoc(pre, c, t[1..]);
      PairsFromCons(pre, c, t[1..]);
    }
  }

  lemma {:induction false} PairsFromEmpty(pre: seq<int>)
    ensures PairsFrom(pre, []) == 0
  {
    if pre != [] {
      PairsFromEmpty(pre[1..]);
    }
  }

  /** Every element of s that is above c is in c + 1 ..= n when none exceeds n. */
  lemma {:induction false} GreaterWithin(s: seq<int>, c: int, n: int)
    requires forall k | 0 <= k < |s| :: s[k] <= n
    ensures Greater(s, c) == CountWithin(s, c + 1, n)
  {
    if s != [] {
      GreaterWithin(s[1..], c, n);
    }
  }

  /** Every element of s that is below c is in 0 ..= c - 1 when none is negative. */
  lemma {:induction false} LessWithin(s: seq<int>, c: int)
    requires forall k | 0 <= k < |s| :: 0 <= s[k]
    ensures Less(s, c) == CountWithin(s, 0, c - 1)
  {
    if s != [] {
      LessWithin(s[1..], c);
    }
  }

  /**
   * One step of the loop: with hl the histogram of the values before
   * position j and hr that of the values from j on, the two queries give the
   * term that position j adds to the loop's sum.
   */
  lemma Step(s: seq<int>, j: nat, n: nat, hl: seq<int>, hr: seq<int>)
    requires j < |s| && forall k | 0 <= k < |s| :: 1 <= s[k] <= n
    requires n < |hl| && n < |hr|
    requires forall x | 0 <= x < |hl| :: hl[x] == multiset(s[..j])[x]
    requires forall x | 0 <= x < |hr| :: hr[x] == multiset(s[j..])[x]
    ensures RangeSum(hl, s[j] + 1, n) * RangeSum(hr, 0, s[j] - 1) + Middle(s[..j + 1], s[j + 1..])
         == Middle(s[..j], s[j..])
  {
    var c := s[j];
    HistogramSum(hl, s[..j], c + 1, n);
    GreaterWithin(s[..j], c, n);
    HistogramSum(hr, s[j..], 0, c - 1);
    LessWithin(s[j..], c);
    assert s[j..] == [c] + s[j + 1..];
    assert s[..j + 1] == s[..j] + [c];
  }

  /** `initial_right_tree`: how often each value 0 ..= n occurs in the sequence. */
  method Counts(n: nat, sequence: seq<nat>) returns (counts: seq<int>)
    requires forall k | 0 <= k < |sequence| :: sequence[k] <= n
    ensures |counts| == n + 1 && forall x | 0 <= x <= n :: counts[x] == multiset(sequence)[x]
  {
    counts := seq(n + 1, _ => 0);
    for k := 0 to |sequence|
      invariant |counts| == n + 1
      invariant forall x | 0 <= x <= n :: counts[x] == multiset(sequence[..k])[x]
    {
      var c := sequence[k];
      assert sequence[..k + 1] == sequence[..k] + [c];
      HistogramAdd(counts, sequence[..k], c);
      counts := counts[c := counts[c] + 1];
    }
    assert sequence[..|sequence|] == sequence;
  }

  /**
   * The state of the sweep before position j: left counts the values before
   * j, right the values from j on.
   */
  ghost predicate Swept(left: SegmentTree, right: SegmentTree, s: seq<nat>, n: nat, j: nat)
    reads left, left.tree, right, right.tree
  {
    j <= |s| && left.Valid() && right.Valid() && left.tree != right.tree && n < left.N && n < right.N &&
    (forall x | 0 <= x < left.N :: left.Leaves()[x] == multiset(s[..j])[x]) &&
    (forall x | 0 <= x < right.N :: right.Leaves()[x] == multiset(s[j..])[x])
  }

  /**
   * One pass of the loop body: the values above s[j] already passed times
   * the values below it still ahead, then s[j] moves from right to left.
   */
  method Advance(left: SegmentTree, right: SegmentTree, s: seq<nat>, n: nat, j: nat) returns (term: int)
    requires j < |s| && forall k | 0 <= k < |s| :: 1 <= s[k] <= n
    requires Swept(left, right, s, n, j)
    modifies left.tree, right.tree
    ensures Swept(left, right, s, n, j + 1)
    ensures term + Middle(s[..j + 1], s[j + 1..]) == Middle(s[..j], s[j..])
  {
    var c := s[j];
    ghost var hl, hr := left.Leaves(), right.Leaves();
    Step(s, j, n, hl, hr);
    term := left.Query(c + 1, n) * right.Query(0, c - 1);
    assert s[..j + 1] == s[..j] + [c];
    HistogramAdd(hl, s[..j], c);
    HistogramRemove(hr, s[j..], c);
    assert s[j..][1..] == s[j + 1..];
    left.Update(c, 1);
    right.Update(c, -1);
  }

  /**
   * The loop of `solve`: total is the number of triples i < j < k with
   * sequence[i] > sequence[j] > sequence[k], for values in 1 ..= n.
   */
  method CountTriples(n: nat, sequence: seq<nat>) returns (total: int)
    requires forall k | 0 <= k < |sequence| :: 1 <= sequence[k] <= n
    ensures total == Triples(sequence)
  {
    var initialRight := Counts(n, sequence);
    var leftTree := new SegmentTree.Empty(n + 1);
    var rightTree := new SegmentTree(initialRight);
    assert sequence[0..] == sequence && sequence[..0] == [];
    total := 0;
    for j := 0 to |sequence|
      invariant Swept(leftTree, rightTree, sequence, n, j)
      invariant fresh(leftTree.tree) && fresh(rightTree.tree)
      invariant total + Middle(sequence[..j], sequence[j..]) == Middle([], sequence)
    {
      var term := Advance(leftTree, rightTree, sequence, n, j);
      total := total + term;
    }
    MiddleTriples([], sequence);
  }
}
