/**
 * Segment tree over a sequence of labels 1..k that reports, after point
 * updates, the length of the shortest contiguous window holding all k labels
 * (src/nekameleoni.rs).
 *
 * Every node stores a summary `Element` of its range.  The source packs the
 * labels of a range into a `u64` whose bit a-1 stands for label a; here that
 * mask is the set of labels it encodes, so `|` is union, comparison with
 * `(1 << k) - 1` is comparison with {1..k}, and `mask | prev > prev` (the
 * test that a prefix grows) is "prev is a proper subset of the union".  The
 * specification of a summary is `Summarises`, stated in terms of the labels
 * of the range and not of the algorithm.
 */
module Nekameleoni {
  import opened TreeLayout

  /** `usize::MAX`, the source's "no window" sentinel. */
  const INF: nat := 0xFFFF_FFFF_FFFF_FFFF

  /** The number of (mask, length) slots of a prefix or suffix table. */
  const SLOTS: nat := 50

  /** The set of labels whose bits a source mask holds. */
  type Mask = set<int>

  /** A (mask, length) slot of a prefix or suffix table. */
  type Slot = (Mask, nat)

  /** The summary of a range (the source's `Element`). */
  datatype Element = Element(mask: Mask, min: nat, len: nat, pref: seq<Slot>, posf: seq<Slot>)

  /** An unused slot, `(0, 0)`. */
  const BLANK: Slot := ({}, 0)

  /** `Element::default()`: the summary of an empty range. */
  function Default(): Element {
    Element({}, INF, 0, seq(SLOTS, _ => BLANK), seq(SLOTS, _ => BLANK))
  }

  // ---------------------------------------------------------------------------
  // Labels and windows
  // ---------------------------------------------------------------------------

  /** The labels occurring in s (the mask of s). */
  function Labels(s: seq<int>): Mask {
    set x | x in s
  }

  /** `(1 << k) - 1`: every label 1..k. */
  function Full(k: nat): (r: Mask)
    ensures forall x :: x in r <==> 1 <= x <= k
  {
    if k == 0 then {} else Full(k - 1) + {k}
  }

  /** Every label of s lies in 1..k. */
  ghost predicate LabelsIn(s: seq<int>, k: nat) {
    forall i :: 0 <= i < |s| ==> 1 <= s[i] <= k
  }

  /** The window w holds every label 1..k. */
  ghost predicate Covers(w: seq<int>, k: nat) {
    Full(k) <= Labels(w)
  }

  /**
   * m is the length of a shortest window of s holding every label 1..k, or
   * INF when no window does.
   */
  ghost predicate Shortest(s: seq<int>, k: nat, m: nat) {
    (forall i, j | 0 <= i <= j <= |s| && Covers(s[i..j], k) :: m <= j - i) &&
    (m != INF ==> exists i, j | 0 <= i <= j <= |s| :: Covers(s[i..j], k) && j - i == m)
  }

  function Reverse(s: seq<int>): (r: seq<int>)
    ensures |r| == |s|
  {
    if s == [] then [] else Reverse(s[1..]) + [s[0]]
  }

  // ---------------------------------------------------------------------------
  // Prefix and suffix tables
  // ---------------------------------------------------------------------------

  /**
   * The slots of the prefixes of s, offset by o, at which the union of A and
   * the labels seen so far grows: one (union, o + prefix length) per growth.
   */
  function Growth(A: Mask, s: seq<int>, o: nat): seq<Slot>
    decreases |s|
  {
    if s == [] then []
    else if s[0] in A then Growth(A, s[1..], o + 1)
    else [(A + {s[0]}, o + 1)] + Growth(A + {s[0]}, s[1..], o + 1)
  }

  /** The prefix table of s: where the labels of a prefix first grow. */
  function PrefTable(s: seq<int>): seq<Slot> {
    Growth({}, s, 0)
  }

  /** The suffix table of s: the prefix table of s read backwards. */
  function SufTable(s: seq<int>): seq<Slot> {
    Growth({}, Reverse(s), 0)
  }

  /** A table written into the 50 slots, unused slots blank. */
  function Pad(t: seq<Slot>): (r: seq<Slot>)
    requires |t| <= SLOTS
    ensures |r| == SLOTS
  {
    t + seq(SLOTS - |t|, _ => BLANK)
  }

  /**
   * The second loop of each table in `merge`: the entries of the table of the
   * second range, each joined with the last mask so far and offset by the
   * length of the first range, kept only where the joined mask grows.
   */
  function Extend(last: Mask, entries: seq<Slot>, off: nat): seq<Slot>
    decreases |entries|
  {
    if entries == [] then []
    else
      var joined := entries[0].0 + last;
      if last < joined then [(joined, entries[0].1 + off)] + Extend(joined, entries[1..], off)
      else Extend(last, entries[1..], off)
  }

  /** A summary is exact for the range s of labels 1..k. */
  ghost predicate Summarises(e: Element, s: seq<int>, k: nat) {
    e.mask == Labels(s) && e.len == |s| && Shortest(s, k, e.min) &&
    |PrefTable(s)| <= SLOTS && e.pref == Pad(PrefTable(s)) &&
    |SufTable(s)| <= SLOTS && e.posf == Pad(SufTable(s))
  }

  // ---------------------------------------------------------------------------
  // Facts about labels and sequences
  // ---------------------------------------------------------------------------

  lemma LabelsAppend(s: seq<int>, t: seq<int>)
    ensures Labels(s + t) == Labels(s) + Labels(t)
  {
    forall x | x in Labels(s) + Labels(t) ensures x in s + t {
      if x in s {
        var i :| 0 <= i < |s| && s[i] == x;
        assert (s + t)[i] == x;
      } else {
        var i :| 0 <= i < |t| && t[i] == x;
        assert (s + t)[|s| + i] == x;
      }
    }
  }

  lemma LabelsCons(a: int, s: seq<int>)
    ensures Labels([a] + s) == {a} + Labels(s)
  {
    LabelsAppend([a], s);
  }

  lemma {:induction false} ReverseAppend(s: seq<int>, t: seq<int>)
    ensures Reverse(s + t) == Reverse(t) + Reverse(s)
    decreases |s|
  {
    if s == [] {
      assert s + t == t;
    } else {
      assert (s + t)[1..] == s[1..] + t;
      ReverseAppend(s[1..], t);
    }
  }

  lemma {:induction false} ReverseIndex(s: seq<int>, i: nat)
    requires i < |s|
    ensures Reverse(s)[i] == s[|s| - 1 - i]
    decreases |s|
  {
    if i < |s| - 1 {
      ReverseIndex(s[1..], i);
    }
  }

  lemma ReverseLabels(s: seq<int>)
    ensures Labels(Reverse(s)) == Labels(s)
  {
    forall x | x in s ensures x in Reverse(s) {
      var i :| 0 <= i < |s| && s[i] == x;
      ReverseIndex(s, |s| - 1 - i);
    }
    forall x | x in Reverse(s) ensures x in s {
      var i :| 0 <= i < |s| && Reverse(s)[i] == x;
      ReverseIndex(s, i);
    }
  }

  /** The first l labels of the reversed s are the last l labels of s, reversed. */
  lemma ReverseTake(s: seq<int>, l: nat)
    requires l <= |s|
    ensures Reverse(s)[..l] == Reverse(s[|s| - l..])
  {
    var a, b := s[..|s| - l], s[|s| - l..];
    assert a + b == s;
    ReverseAppend(a, b);
    assert Reverse(s) == Reverse(b) + Reverse(a);
  }

  lemma ReverseInRange(s: seq<int>, k: nat)
    requires LabelsIn(s, k)
    ensures LabelsIn(Reverse(s), k)
  {
    forall i | 0 <= i < |s| ensures 1 <= Reverse(s)[i] <= k {
      ReverseIndex(s, i);
    }
  }

  /** A set of labels within 1..n has at most n members. */
  lemma {:induction false} FullBound(A: set<int>, n: nat)
    requires A <= Full(n)
    ensures |A| <= n
    decreases n
  {
    if n > 0 {
      FullBound(A - {n}, n - 1);
    } else {
      assert A == {};
    }
  }

  // ---------------------------------------------------------------------------
  // Facts about the growth tables
  // ---------------------------------------------------------------------------

  /**
   * Every slot of a growth table records a real prefix: its length lies past
   * the offset and within the range, and its mask is A joined with the labels
   * of that prefix.  Along the table, lengths and masks strictly increase.
   */
  lemma {:induction false} GrowthSound(A: Mask, s: seq<int>, o: nat)
    ensures forall i | 0 <= i < |Growth(A, s, o)| ::
      o < Growth(A, s, o)[i].1 <= o + |s| &&
      Growth(A, s, o)[i].0 == A + Labels(s[..Growth(A, s, o)[i].1 - o])
    ensures forall i, j | 0 <= i < j < |Growth(A, s, o)| ::
      Growth(A, s, o)[i].1 < Growth(A, s, o)[j].1 && Growth(A, s, o)[i].0 < Growth(A, s, o)[j].0
    ensures forall i | 0 <= i < |Growth(A, s, o)| :: A < Growth(A, s, o)[i].0
    decreases |s|
  {
    if s != [] {
      var a, t := s[0], s[1..];
      var B := if a in A then A else A + {a};
      GrowthSound(B, t, o + 1);
      var g, h := Growth(A, s, o), Growth(B, t, o + 1);
      forall i | 0 <= i < |h|
        ensures h[i].0 == A + Labels(s[..h[i].1 - o])
      {
        assert s[..h[i].1 - o] == [a] + t[..h[i].1 - o - 1];
        LabelsCons(a, t[..h[i].1 - o - 1]);
      }
      if a !in A {
        assert g == [(B, o + 1)] + h;
        assert s[..1] == [a];
        LabelsCons(a, []);
      }
    }
  }

  /**
   * Every non-empty prefix of s whose labels are not all in A is represented
   * in the growth table by a slot no longer than it, with the same mask.
   */
  lemma {:induction false} GrowthComplete(A: Mask, s: seq<int>, o: nat, p: nat)
    requires p <= |s| && !(Labels(s[..p]) <= A)
    ensures exists i | 0 <= i < |Growth(A, s, o)| ::
      Growth(A, s, o)[i].1 <= o + p && Growth(A, s, o)[i].0 == A + Labels(s[..p])
    decreases |s|
  {
    var a, t := s[0], s[1..];
    assert s[..p] == [a] + t[..p - 1];
    LabelsCons(a, t[..p - 1]);
    var B := if a in A then A else A + {a};
    var g, h := Growth(A, s, o), Growth(B, t, o + 1);
    if Labels(t[..p - 1]) <= B {
      assert a !in A;
      assert g[0] == (A + {a}, o + 1);
    } else {
      GrowthComplete(B, t, o + 1, p - 1);
      var i :| 0 <= i < |h| && h[i].1 <= o + p && h[i].0 == B + Labels(t[..p - 1]);
      if a in A {
        assert g[i] == h[i];
      } else {
        assert g[i + 1] == h[i];
      }
    }
  }

  /** A growth table is empty exactly when s adds no label to A. */
  lemma {:induction false} GrowthEmpty(A: Mask, s: seq<int>, o: nat)
    ensures Growth(A, s, o) == [] <==> Labels(s) <= A
    decreases |s|
  {
    if s != [] {
      var a, t := s[0], s[1..];
      LabelsCons(a, t);
      assert s == [a] + t;
      GrowthEmpty(if a in A then A else A + {a}, t, o + 1);
    }
  }

  /** The last slot of a growth table holds A joined with every label of s. */
  lemma {:induction false} GrowthLast(A: Mask, s: seq<int>, o: nat)
    requires Growth(A, s, o) != []
    ensures Growth(A, s, o)[|Growth(A, s, o)| - 1].0 == A + Labels(s)
    decreases |s|
  {
    var a, t := s[0], s[1..];
    LabelsCons(a, t);
    assert s == [a] + t;
    var B := if a in A then A else A + {a};
    if Growth(B, t, o + 1) != [] {
      GrowthLast(B, t, o + 1);
    } else {
      assert a !in A;
      GrowthEmpty(B, t, o + 1);
    }
  }

  /** The table has one slot per label that s adds to A. */
  lemma {:induction false} GrowthCount(A: Mask, s: seq<int>, o: nat)
    ensures |Growth(A, s, o)| == |Labels(s) - A|
    decreases |s|
  {
    if s != [] {
      var a, t := s[0], s[1..];
      LabelsCons(a, t);
      assert s == [a] + t;
      var B := if a in A then A else A + {a};
      GrowthCount(B, t, o + 1);
      if a !in A {
        assert Labels(s) - A == {a} + (Labels(t) - B);
      } else {
        assert Labels(s) - A == Labels(t) - B;
      }
    }
  }

  /** The table of a concatenation: the first part's, then the second's on top of it. */
  lemma {:induction false} GrowthAppend(A: Mask, s: seq<int>, t: seq<int>, o: nat)
    ensures Growth(A, s + t, o) == Growth(A, s, o) + Growth(A + Labels(s), t, o + |s|)
    decreases |s|
  {
    if s == [] {
      assert s + t == t;
      assert A + Labels(s) == A;
    } else {
      var a := s[0];
      assert (s + t)[0] == a && (s + t)[1..] == s[1..] + t;
      var B := if a in A then A else A + {a};
      GrowthAppend(B, s[1..], t, o + 1);
      LabelsCons(a, s[1..]);
      assert s == [a] + s[1..];
      assert B + Labels(s[1..]) == A + Labels(s);
    }
  }

  /** The joining loop turns a table over a smaller base into one over a larger. */
  lemma {:induction false} ExtendGrowth(A: Mask, B: Mask, t: seq<int>, o: nat, off: nat)
    requires A <= B
    ensures Extend(B, Growth(A, t, o), off) == Growth(B, t, o + off)
    decreases |t|
  {
    if t != [] {
      var a, u := t[0], t[1..];
      if a in A {
        ExtendGrowth(A, B, u, o + 1, off);
      } else {
        var g := Growth(A, t, o);
        assert g == [(A + {a}, o + 1)] + Growth(A + {a}, u, o + 1);
        assert g[1..] == Growth(A + {a}, u, o + 1);
        assert g[0].0 + B == B + {a};
        if a in B {
          assert B + {a} == B;
          ExtendGrowth(A + {a}, B, u, o + 1, off);
        } else {
          ExtendGrowth(A + {a}, B + {a}, u, o + 1, off);
        }
      }
    }
  }

  lemma PrefAppend(s: seq<int>, t: seq<int>)
    ensures PrefTable(s + t) == PrefTable(s) + Growth(Labels(s), t, |s|)
  {
    GrowthAppend({}, s, t, 0);
    assert {} + Labels(s) == Labels(s);
  }

  lemma ExtendPref(B: Mask, t: seq<int>, n: nat)
    ensures Extend(B, PrefTable(t), n) == Growth(B, t, n)
  {
    ExtendGrowth({}, B, t, 0, n);
  }

  /** Merging two prefix tables as `merge` does gives the table of the whole range. */
  lemma JoinedTable(s: seq<int>, t: seq<int>)
    ensures PrefTable(s) + Extend(Labels(s), PrefTable(t), |s|) == PrefTable(s + t)
  {
    PrefAppend(s, t);
    ExtendPref(Labels(s), t, |s|);
  }

  /** Labels in 1..k give a table of at most k, and so at most 50, slots. */
  lemma TableBound(s: seq<int>, k: nat)
    requires LabelsIn(s, k) && k <= SLOTS
    ensures |PrefTable(s)| <= k && |SufTable(s)| <= k
  {
    GrowthCount({}, s, 0);
    GrowthCount({}, Reverse(s), 0);
    ReverseLabels(s);
    assert Labels(s) - {} == Labels(s);
    assert Labels(s) <= Full(k);
    FullBound(Labels(s), k);
  }


  /** The labels of the first p places of s. */
  ghost function Front(s: seq<int>, p: nat): Mask
    requires p <= |s|
  {
    Labels(s[..p])
  }

  /** The labels of the last p places of s. */
  ghost function Back(s: seq<int>, p: nat): Mask
    requires p <= |s|
  {
    Labels(s[|s| - p..])
  }

  /** The padded prefix table read slot by slot: each slot is a real prefix. */
  lemma PrefSlots(s: seq<int>)
    requires |PrefTable(s)| <= SLOTS
    ensures forall q | 0 <= q < SLOTS ::
      Pad(PrefTable(s))[q].1 <= |s| && Pad(PrefTable(s))[q].0 == Front(s, Pad(PrefTable(s))[q].1)
    ensures forall q | 0 <= q < |PrefTable(s)| :: Pad(PrefTable(s))[q] == PrefTable(s)[q] && Pad(PrefTable(s))[q].0 != {}
    ensures forall q | |PrefTable(s)| <= q < SLOTS :: Pad(PrefTable(s))[q] == BLANK
  {
    GrowthSound({}, s, 0);
    var t := PrefTable(s);
    forall q | 0 <= q < SLOTS
      ensures Pad(t)[q].1 <= |s| && Pad(t)[q].0 == Front(s, Pad(t)[q].1)
    {
      if q < |t| {
        assert Pad(t)[q] == t[q];
      } else {
        assert Pad(t)[q] == BLANK;
        assert s[..0] == [];
      }
    }
  }

  /** Every non-empty prefix of s has a slot in the padded table no longer than it with the same labels. */
  lemma PrefReaches(s: seq<int>, p: nat)
    requires |PrefTable(s)| <= SLOTS && 1 <= p <= |s|
    ensures exists q | 0 <= q < SLOTS ::
      Pad(PrefTable(s))[q].1 <= p && Pad(PrefTable(s))[q].0 == Front(s, p)
  {
    assert s[0] in Labels(s[..p]);
    GrowthComplete({}, s, 0, p);
    var t := PrefTable(s);
    var q :| 0 <= q < |t| && t[q].1 <= p && t[q].0 == {} + Labels(s[..p]);
    assert Pad(t)[q] == t[q];
  }

  /** The labels of the last l places of s are the labels of the first l places of its reverse. */
  lemma TailLabels(s: seq<int>, l: nat)
    requires l <= |s|
    ensures Front(Reverse(s), l) == Back(s, l)
  {
    ReverseTake(s, l);
    ReverseLabels(s[|s| - l..]);
  }

  /** The padded suffix table read slot by slot: each slot is a real suffix. */
  lemma SufSlots(s: seq<int>)
    requires |SufTable(s)| <= SLOTS
    ensures forall q | 0 <= q < SLOTS ::
      Pad(SufTable(s))[q].1 <= |s| && Pad(SufTable(s))[q].0 == Back(s, Pad(SufTable(s))[q].1)
  {
    var r := Reverse(s);
    PrefSlots(r);
    forall q | 0 <= q < SLOTS
      ensures Pad(SufTable(s))[q].1 <= |s| && Pad(SufTable(s))[q].0 == Back(s, Pad(SufTable(s))[q].1)
    {
      TailLabels(s, Pad(PrefTable(r))[q].1);
    }
  }

  /** Every non-empty suffix of s has a slot in the padded table no longer than it with the same labels. */
  lemma SufReaches(s: seq<int>, p: nat)
    requires |SufTable(s)| <= SLOTS && 1 <= p <= |s|
    ensures exists q | 0 <= q < SLOTS ::
      Pad(SufTable(s))[q].1 <= p && Pad(SufTable(s))[q].0 == Back(s, p)
  {
    var r := Reverse(s);
    PrefReaches(r, p);
    TailLabels(s, p);
  }

  // ---------------------------------------------------------------------------
  // Facts about shortest windows
  // ---------------------------------------------------------------------------

  lemma SliceLabels(s: seq<int>, i: nat, j: nat)
    requires i <= j <= |s|
    ensures Labels(s[i..j]) <= Labels(s)
  {
    forall x | x in s[i..j] ensures x in s {
      var p :| 0 <= p < j - i && s[i..j][p] == x;
      assert s[i + p] == x;
    }
  }

  lemma Antisymmetric(A: Mask, B: Mask)
    requires A <= B && B <= A
    ensures A == B
  {
  }

  /** Within labels 1..k, a window covers exactly when its labels are all of 1..k. */
  lemma CoversExactly(w: seq<int>, k: nat)
    requires LabelsIn(w, k)
    ensures Covers(w, k) <==> Labels(w) == Full(k)
  {
    assert Labels(w) <= Full(k);
  }

  /**
   * The shortest window is unique, it is INF exactly when some label 1..k is
   * missing from s, and otherwise it is a length of s.
   */
  lemma ShortestFacts(s: seq<int>, k: nat, m: nat)
    requires Shortest(s, k, m) && |s| < INF
    ensures m == INF <==> !Covers(s, k)
    ensures m != INF ==> m <= |s|
    ensures forall m' | Shortest(s, k, m') :: m' == m
  {
    if Covers(s, k) {
      assert s[0..|s|] == s;
    } else if m != INF {
      var i, j :| 0 <= i <= j <= |s| && Covers(s[i..j], k) && j - i == m;
      SliceLabels(s, i, j);
    }
    forall m' | Shortest(s, k, m') ensures m' == m {
      if m' != INF {
        var i, j :| 0 <= i <= j <= |s| && Covers(s[i..j], k) && j - i == m';
      }
      if m != INF {
        var i, j :| 0 <= i <= j <= |s| && Covers(s[i..j], k) && j - i == m;
      }
    }
  }

  /** A sequence whose labels fall short of 1..k has no covering window. */
  lemma NoWindow(s: seq<int>, k: nat)
    requires LabelsIn(s, k) && Labels(s) != Full(k)
    ensures Shortest(s, k, INF)
    ensures forall i, j | 0 <= i <= j <= |s| :: !Covers(s[i..j], k)
  {
    forall i, j | 0 <= i <= j <= |s| ensures !Covers(s[i..j], k) {
      SliceLabels(s, i, j);
      CoversExactly(s, k);
    }
  }

  /** A window of a concatenation inside its first part. */
  lemma LeftSlice(sl: seq<int>, sr: seq<int>, i: nat, j: nat)
    requires i <= j <= |sl|
    ensures (sl + sr)[i..j] == sl[i..j]
  {
    assert forall p | 0 <= p < j - i :: (sl + sr)[i..j][p] == sl[i..j][p];
  }

  /** A window of a concatenation inside its second part. */
  lemma RightSlice(sl: seq<int>, sr: seq<int>, i: nat, j: nat)
    requires |sl| <= i <= j <= |sl| + |sr|
    ensures (sl + sr)[i..j] == sr[i - |sl|..j - |sl|]
  {
    assert forall p | 0 <= p < j - i :: (sl + sr)[i..j][p] == sr[i - |sl|..j - |sl|][p];
  }

  /** The window s[i..j] of a concatenation that straddles the join. */
  lemma Straddle(sl: seq<int>, sr: seq<int>, i: nat, j: nat)
    requires i <= |sl| <= j <= |sl| + |sr|
    ensures Labels((sl + sr)[i..j]) == Back(sl, |sl| - i) + Front(sr, j - |sl|)
  {
    assert (sl + sr)[i..j] == sl[i..] + sr[..j - |sl|];
    assert sl[|sl| - (|sl| - i)..] == sl[i..];
    LabelsAppend(sl[i..], sr[..j - |sl|]);
  }

  /** Some slot of t is a suffix of s no longer than p with the labels of the last p places. */
  ghost predicate BackReached(t: seq<Slot>, s: seq<int>, p: nat)
    requires |t| == SLOTS && p <= |s|
  {
    exists q | 0 <= q < SLOTS :: t[q].1 <= p && t[q].0 == Back(s, p)
  }

  /** Some slot of t is a prefix of s no longer than p with the labels of the first p places. */
  ghost predicate FrontReached(t: seq<Slot>, s: seq<int>, p: nat)
    requires |t| == SLOTS && p <= |s|
  {
    exists q | 0 <= q < SLOTS :: t[q].1 <= p && t[q].0 == Front(s, p)
  }

  /** Every slot of t is a suffix of s, and every non-empty suffix of s is reached by a slot. */
  ghost predicate SuffixSlots(t: seq<Slot>, s: seq<int>) {
    |t| == SLOTS &&
    (forall q | 0 <= q < SLOTS :: t[q].1 <= |s| && t[q].0 == Back(s, t[q].1)) &&
    (forall p | 1 <= p <= |s| :: BackReached(t, s, p))
  }

  /** Every slot of t is a prefix of s, and every non-empty prefix of s is reached by a slot. */
  ghost predicate PrefixSlots(t: seq<Slot>, s: seq<int>) {
    |t| == SLOTS &&
    (forall q | 0 <= q < SLOTS :: t[q].1 <= |s| && t[q].0 == Front(s, t[q].1)) &&
    (forall p | 1 <= p <= |s| :: FrontReached(t, s, p))
  }

  lemma PrefIsSlots(s: seq<int>)
    requires |PrefTable(s)| <= SLOTS
    ensures PrefixSlots(Pad(PrefTable(s)), s)
  {
    PrefSlots(s);
    var t := Pad(PrefTable(s));
    forall p | 1 <= p <= |s|
      ensures FrontReached(t, s, p)
    {
      PrefReaches(s, p);
    }
    assert forall q | 0 <= q < SLOTS :: t[q].1 <= |s| && t[q].0 == Front(s, t[q].1);
  }

  lemma SufIsSlots(s: seq<int>)
    requires |SufTable(s)| <= SLOTS
    ensures SuffixSlots(Pad(SufTable(s)), s)
  {
    SufSlots(s);
    var t := Pad(SufTable(s));
    forall p | 1 <= p <= |s|
      ensures BackReached(t, s, p)
    {
      SufReaches(s, p);
    }
    assert forall q | 0 <= q < SLOTS :: t[q].1 <= |s| && t[q].0 == Back(s, t[q].1);
  }

  /** The labels of a window of a sequence of labels 1..k lie in 1..k. */
  lemma SliceIn(s: seq<int>, i: nat, j: nat, k: nat)
    requires LabelsIn(s, k) && i <= j <= |s|
    ensures LabelsIn(s[i..j], k) && Labels(s[i..j]) <= Full(k)
  {
    assert forall p | 0 <= p < j - i :: s[i..j][p] == s[i + p];
  }

  /** c is the least slot-pair length over the pairs of slots whose labels are all of 1..k. */
  ghost predicate LeastPair(posf: seq<Slot>, pref: seq<Slot>, k: nat, c: nat)
    requires |posf| == SLOTS && |pref| == SLOTS
  {
    (forall a, b | 0 <= a < SLOTS && 0 <= b < SLOTS && posf[a].0 + pref[b].0 == Full(k) ::
      c <= posf[a].1 + pref[b].1) &&
    (c != INF ==> exists a, b | 0 <= a < SLOTS && 0 <= b < SLOTS ::
      posf[a].0 + pref[b].0 == Full(k) && c == posf[a].1 + pref[b].1)
  }

  /** A covering window across the join splits into a suffix and a prefix whose labels are all of 1..k. */
  lemma StraddleCovers(sl: seq<int>, sr: seq<int>, k: nat, i: nat, j: nat)
    requires LabelsIn(sl + sr, k)
    requires i < |sl| < j <= |sl| + |sr| && Covers((sl + sr)[i..j], k)
    ensures Back(sl, |sl| - i) + Front(sr, j - |sl|) == Full(k)
  {
    Straddle(sl, sr, i, j);
    SliceIn(sl + sr, i, j, k);
    Antisymmetric(Labels((sl + sr)[i..j]), Full(k));
  }

  /** A suffix and a prefix whose labels are all of 1..k make a covering window across the join. */
  lemma StraddleWindow(sl: seq<int>, sr: seq<int>, k: nat, la: nat, lb: nat)
    requires la <= |sl| && lb <= |sr| && Back(sl, la) + Front(sr, lb) == Full(k)
    ensures exists i, j | 0 <= i <= j <= |sl + sr| :: Covers((sl + sr)[i..j], k) && j - i == la + lb
  {
    var i, j := |sl| - la, |sl| + lb;
    Straddle(sl, sr, i, j);
    assert Covers((sl + sr)[i..j], k);
  }

  /** A covering window across the join is no shorter than the least slot pair. */
  lemma StraddleBound(sl: seq<int>, sr: seq<int>, k: nat, posf: seq<Slot>, pref: seq<Slot>, c: nat, i: nat, j: nat)
    requires LabelsIn(sl + sr, k) && SuffixSlots(posf, sl) && PrefixSlots(pref, sr) && LeastPair(posf, pref, k, c)
    requires i < |sl| < j <= |sl| + |sr| && Covers((sl + sr)[i..j], k)
    ensures c <= j - i
  {
    var n := |sl|;
    StraddleCovers(sl, sr, k, i, j);
    assert BackReached(posf, sl, n - i) && FrontReached(pref, sr, j - n);
    var a :| 0 <= a < SLOTS && posf[a].1 <= n - i && posf[a].0 == Back(sl, n - i);
    var b :| 0 <= b < SLOTS && pref[b].1 <= j - n && pref[b].0 == Front(sr, j - n);
    assert posf[a].0 + pref[b].0 == Full(k);
  }

  /** No covering window of a concatenation is shorter than the merged minimum. */
  lemma MergedLower(sl: seq<int>, sr: seq<int>, k: nat, lmin: nat, rmin: nat, posf: seq<Slot>, pref: seq<Slot>, c: nat)
    requires LabelsIn(sl + sr, k) && Shortest(sl, k, lmin) && Shortest(sr, k, rmin)
    requires SuffixSlots(posf, sl) && PrefixSlots(pref, sr) && LeastPair(posf, pref, k, c)
    ensures forall i, j | 0 <= i <= j <= |sl + sr| && Covers((sl + sr)[i..j], k) ::
      Min(c, Min(lmin, rmin)) <= j - i
  {
    var s, n := sl + sr, |sl|;
    forall i, j | 0 <= i <= j <= |s| && Covers(s[i..j], k)
      ensures Min(c, Min(lmin, rmin)) <= j - i
    {
      if j <= n {
        LeftSlice(sl, sr, i, j);
      } else if i >= n {
        RightSlice(sl, sr, i, j);
      } else {
        StraddleBound(sl, sr, k, posf, pref, c, i, j);
      }
    }
  }

  /** A shortest window of the left part is a window of the concatenation. */
  lemma LeftAttained(sl: seq<int>, sr: seq<int>, k: nat, m: nat)
    requires Shortest(sl, k, m) && m != INF
    ensures exists i, j | 0 <= i <= j <= |sl + sr| :: Covers((sl + sr)[i..j], k) && j - i == m
  {
    var i, j :| 0 <= i <= j <= |sl| && Covers(sl[i..j], k) && j - i == m;
    LeftSlice(sl, sr, i, j);
  }

  /** A shortest window of the right part, shifted by |sl|, is a window of the concatenation. */
  lemma RightAttained(sl: seq<int>, sr: seq<int>, k: nat, m: nat)
    requires Shortest(sr, k, m) && m != INF
    ensures exists i, j | 0 <= i <= j <= |sl + sr| :: Covers((sl + sr)[i..j], k) && j - i == m
  {
    var n := |sl|;
    var i, j :| 0 <= i <= j <= |sr| && Covers(sr[i..j], k) && j - i == m;
    RightSlice(sl, sr, n + i, n + j);
    assert Covers((sl + sr)[n + i..n + j], k) && (n + j) - (n + i) == m;
  }

  /** The least slot pair, unless INF, is the length of a covering window across the join. */
  lemma PairAttained(sl: seq<int>, sr: seq<int>, k: nat, posf: seq<Slot>, pref: seq<Slot>, c: nat)
    requires SuffixSlots(posf, sl) && PrefixSlots(pref, sr) && LeastPair(posf, pref, k, c) && c != INF
    ensures exists i, j | 0 <= i <= j <= |sl + sr| :: Covers((sl + sr)[i..j], k) && j - i == c
  {
    var a, b :| 0 <= a < SLOTS && 0 <= b < SLOTS && posf[a].0 + pref[b].0 == Full(k) &&
      c == posf[a].1 + pref[b].1;
    StraddleWindow(sl, sr, k, posf[a].1, pref[b].1);
  }

  /** The merged minimum, unless INF, is the length of a covering window of the concatenation. */
  lemma MergedAttained(sl: seq<int>, sr: seq<int>, k: nat, lmin: nat, rmin: nat, posf: seq<Slot>, pref: seq<Slot>, c: nat)
    requires Shortest(sl, k, lmin) && Shortest(sr, k, rmin)
    requires SuffixSlots(posf, sl) && PrefixSlots(pref, sr) && LeastPair(posf, pref, k, c)
    requires Min(c, Min(lmin, rmin)) != INF
    ensures exists i, j | 0 <= i <= j <= |sl + sr| ::
      Covers((sl + sr)[i..j], k) && j - i == Min(c, Min(lmin, rmin))
  {
    var m := Min(c, Min(lmin, rmin));
    if m == lmin {
      LeftAttained(sl, sr, k, m);
    } else if m == rmin {
      RightAttained(sl, sr, k, m);
    } else {
      PairAttained(sl, sr, k, posf, pref, c);
    }
  }

  /**
   * The windows of a concatenation: the shortest is the least of the
   * shortest of each part and of the straddling windows, which the pairs of
   * suffix and prefix slots represent.
   */
  lemma MergedShortest(sl: seq<int>, sr: seq<int>, k: nat, lmin: nat, rmin: nat, posf: seq<Slot>, pref: seq<Slot>, c: nat)
    requires LabelsIn(sl + sr, k) && Shortest(sl, k, lmin) && Shortest(sr, k, rmin)
    requires SuffixSlots(posf, sl) && PrefixSlots(pref, sr) && LeastPair(posf, pref, k, c)
    ensures Shortest(sl + sr, k, Min(c, Min(lmin, rmin)))
  {
    MergedLower(sl, sr, k, lmin, rmin, posf, pref, c);
    if Min(c, Min(lmin, rmin)) != INF {
      MergedAttained(sl, sr, k, lmin, rmin, posf, pref, c);
    }
  }

  function Min(a: nat, b: nat): (r: nat)
    ensures r <= a && r <= b && (r == a || r == b)
  {
    if a < b then a else b
  }


  // ---------------------------------------------------------------------------
  // Leaves and the empty range
  // ---------------------------------------------------------------------------

  /** The default element summarises the empty range (a padding leaf). */
  lemma DefaultSummarisesEmpty(k: nat)
    requires 1 <= k
    ensures Summarises(Default(), [], k)
  {
    assert PrefTable([]) == [] && SufTable([]) == [];
    assert Pad([]) == seq(SLOTS, _ => BLANK);
    assert 1 in Full(k);
    assert Labels([]) == {};
  }

  /** The leaf written by `new` and `set` for label d. */
  function Leaf(d: int, k: nat): Element
  {
    Default().(mask := {d}, min := if k == 1 then 1 else INF, len := 1,
               pref := Default().pref[0 := ({d}, 1)], posf := Default().posf[0 := ({d}, 1)])
  }

  /**
   * The leaf summarises the one-element range [d]: mask {d}, length 1, the
   * one-slot tables, and a window of length 1 exactly when k is 1.
   */
  lemma LeafSummarises(d: int, k: nat)
    requires 1 <= d <= k <= SLOTS
    ensures Summarises(Leaf(d, k), [d], k)
    ensures k == 1 ==> Leaf(d, k).min == 1
    ensures k > 1 ==> Leaf(d, k).min == INF
  {
    LeafSummary(d, k);
  }

  lemma LeafSummary(d: int, k: nat)
    requires 1 <= d <= k <= SLOTS
    ensures Labels([d]) == {d}
    ensures PrefTable([d]) == [({d}, 1)] && SufTable([d]) == [({d}, 1)]
    ensures Pad([({d}, 1)]) == Default().pref[0 := ({d}, 1)]
    ensures Shortest([d], k, if k == 1 then 1 else INF)
  {
    var s := [d];
    assert Labels(s) == {d};
    assert Reverse(s) == s;
    assert s[1..] == [];
    assert Growth({}, s, 0) == [({} + {d}, 1)] + Growth({d}, [], 1);
    assert {} + {d} == {d};
    assert 1 in Full(k);
    if k > 1 {
      assert 2 in Full(k);
    }
    forall i, j | 0 <= i <= j <= 1 && Covers(s[i..j], k)
      ensures (if k == 1 then 1 else INF) <= j - i
    {
      if j - i == 1 {
        assert s[i..j] == s;
      }
    }
    if k == 1 {
      assert s[0..1] == s;
      assert Covers(s[0..1], k);
    }
  }

  // ---------------------------------------------------------------------------
  // The pieces of `merge`
  // ---------------------------------------------------------------------------

  /**
   * The first table loop of `merge`: copy the slots of a table up to its
   * first blank slot.
   */
  method CopyTable(first: seq<Slot>, ghost entries: seq<Slot>) returns (t: seq<Slot>, count: nat)
    requires |entries| <= SLOTS && first == Pad(entries)
    requires forall q | 0 <= q < |entries| :: entries[q].0 != {}
    ensures count == |entries| && t == Pad(entries)
  {
    t := seq(SLOTS, _ => BLANK);
    count := 0;
    while count < SLOTS && first[count].0 != {}
      invariant 0 <= count <= |entries|
      invariant t == Pad(entries[..count])
    {
      t := t[count := first[count]];
      count := count + 1;
      assert entries[..count] == entries[..count - 1] + [entries[count - 1]];
    }
    assert entries[..count] == entries;
  }

  /**
   * The second table loop of `merge`: join each slot of the second table, up
   * to its first blank slot, with the last mask written, and append it with
   * its length offset when the mask grows and a slot is free.
   */
  method ExtendTable(t0: seq<Slot>, count0: nat, second: seq<Slot>, off: nat,
                     ghost written: seq<Slot>, ghost entries: seq<Slot>, ghost target: seq<Slot>)
    returns (t: seq<Slot>, count: nat)
    requires 1 <= count0 == |written| <= SLOTS && |target| <= SLOTS && t0 == Pad(written)
    requires |entries| <= SLOTS && second == Pad(entries)
    requires forall q | 0 <= q < |entries| :: entries[q].0 != {}
    requires written + Extend(written[count0 - 1].0, entries, off) == target
    ensures count == |target| && t == Pad(target)
  {
    t, count := t0, count0;
    ghost var acc: seq<Slot> := written;
    var q := 0;
    assert entries[q..] == entries;
    while q < SLOTS && second[q].0 != {}
      invariant 0 <= q <= |entries| && 1 <= count == |acc| <= SLOTS
      invariant t == Pad(acc)
      invariant acc + Extend(acc[count - 1].0, entries[q..], off) == target
    {
      var (mask, length) := second[q];
      ghost var last := acc[count - 1].0;
      assert entries[q..][0] == (mask, length) && entries[q..][1..] == entries[q + 1..];
      if count < SLOTS && t[count - 1].0 < mask + t[count - 1].0 {
        t := t[count := (mask + t[count - 1].0, length + off)];
        acc := acc + [(mask + last, length + off)];
        count := count + 1;
      }
      q := q + 1;
    }
    assert entries[q..] == [];
  }

  /**
   * The table loops of `merge` together: the prefix table of a + b from
   * those of a and b (and, with the parts swapped and reversed, the suffix
   * table).
   */
  method JoinTables(first: seq<Slot>, second: seq<Slot>, firstLen: nat,
                    ghost a: seq<int>, ghost b: seq<int>, ghost k: nat) returns (t: seq<Slot>)
    requires 1 <= k <= SLOTS && LabelsIn(a + b, k) && a != []
    requires |PrefTable(a)| <= SLOTS && first == Pad(PrefTable(a))
    requires |PrefTable(b)| <= SLOTS && second == Pad(PrefTable(b))
    requires firstLen == |a|
    ensures |PrefTable(a + b)| <= SLOTS && t == Pad(PrefTable(a + b))
  {
    ghost var A, B, target := PrefTable(a), PrefTable(b), PrefTable(a + b);
    TableBound(a + b, k);
    JoinedTable(a, b);
    PrefSlots(a);
    PrefSlots(b);
    GrowthEmpty({}, a, 0);
    assert a[0] in Labels(a);
    GrowthLast({}, a, 0);
    assert {} + Labels(a) == Labels(a);
    var t1, count := CopyTable(first, A);
    t, count := ExtendTable(t1, count, second, firstLen, A, B, target);
  }

  /**
   * The cross term of `merge`: the least summed length over the pairs of a
   * left suffix slot and a right prefix slot whose masks together are full.
   */
  method CrossMin(posf: seq<Slot>, pref: seq<Slot>, full: Mask) returns (c: nat)
    requires |posf| == SLOTS && |pref| == SLOTS
    ensures forall a, b | 0 <= a < SLOTS && 0 <= b < SLOTS && posf[a].0 + pref[b].0 == full ::
      c <= posf[a].1 + pref[b].1
    ensures c != INF ==> exists a, b | 0 <= a < SLOTS && 0 <= b < SLOTS ::
      posf[a].0 + pref[b].0 == full && c == posf[a].1 + pref[b].1
  {
    c := INF;
    for pre := 0 to SLOTS
      invariant forall a, b | 0 <= a < SLOTS && 0 <= b < pre && posf[a].0 + pref[b].0 == full ::
        c <= posf[a].1 + pref[b].1
      invariant c != INF ==> exists a, b | 0 <= a < SLOTS && 0 <= b < pre ::
        posf[a].0 + pref[b].0 == full && c == posf[a].1 + pref[b].1
    {
      for post := 0 to SLOTS
        invariant forall a, b | 0 <= a < SLOTS && 0 <= b < pre && posf[a].0 + pref[b].0 == full ::
          c <= posf[a].1 + pref[b].1
        invariant forall a | 0 <= a < post && posf[a].0 + pref[pre].0 == full ::
          c <= posf[a].1 + pref[pre].1
        invariant c != INF ==> exists a, b | 0 <= a < SLOTS && 0 <= b <= pre ::
          posf[a].0 + pref[b].0 == full && c == posf[a].1 + pref[b].1
      {
        if posf[post].0 + pref[pre].0 == full {
          c := Min(posf[post].1 + pref[pre].1, c);
        }
      }
    }
  }


  /** A sequence whose labels fall short of 1..k has INF as its only shortest window. */
  lemma NoCoverIsInf(s: seq<int>, k: nat, m: nat)
    requires LabelsIn(s, k) && Labels(s) != Full(k) && Shortest(s, k, m)
    ensures m == INF
  {
    NoWindow(s, k);
  }

  /** The labels of the parts of a concatenation fall short of 1..k when the whole does. */
  lemma PartsFallShort(sl: seq<int>, sr: seq<int>, k: nat)
    requires LabelsIn(sl + sr, k) && Labels(sl + sr) != Full(k)
    ensures LabelsIn(sl, k) && Labels(sl) != Full(k)
    ensures LabelsIn(sr, k) && Labels(sr) != Full(k)
  {
    LabelsAppend(sl, sr);
    assert Labels(sl + sr) <= Full(k);
    assert forall i | 0 <= i < |sl| :: sl[i] == (sl + sr)[i];
    assert forall i | 0 <= i < |sr| :: sr[i] == (sl + sr)[|sl| + i];
  }

  /** The part of `merge` that computes the shortest window. */
  lemma MergedMin(sl: seq<int>, sr: seq<int>, k: nat, left: Element, right: Element, full: bool, c: nat)
    requires 1 <= k <= SLOTS && LabelsIn(sl + sr, k)
    requires Summarises(left, sl, k) && Summarises(right, sr, k)
    requires full <==> Labels(sl + sr) == Full(k)
    requires full ==> LeastPair(left.posf, right.pref, k, c)
    ensures Shortest(sl + sr, k, if full then Min(c, Min(left.min, right.min)) else Min(left.min, right.min))
  {
    if full {
      SufIsSlots(sl);
      PrefIsSlots(sr);
      MergedShortest(sl, sr, k, left.min, right.min, left.posf, right.pref, c);
    } else {
      PartsFallShort(sl, sr, k);
      NoCoverIsInf(sl, k, left.min);
      NoCoverIsInf(sr, k, right.min);
      NoWindow(sl + sr, k);
    }
  }

  /** A full suffix slot bounds the shortest window from above. */
  lemma FullSuffixBound(sl: seq<int>, k: nat, left: Element)
    requires Summarises(left, sl, k)
    ensures forall a | 0 <= a < SLOTS && left.posf[a].0 == Full(k) :: left.min <= left.posf[a].1
  {
    SufIsSlots(sl);
    forall a | 0 <= a < SLOTS && left.posf[a].0 == Full(k) ensures left.min <= left.posf[a].1 {
      var p := left.posf[a].1;
      assert sl[|sl| - p..] == sl[|sl| - p..|sl|];
      assert Covers(sl[|sl| - p..|sl|], k);
    }
  }

  /** Only the empty sequence has no labels. */
  lemma LabelsEmpty(s: seq<int>)
    ensures Labels(s) == {} <==> s == []
  {
    if s != [] {
      assert s[0] in Labels(s);
    }
  }

  /** A range without labels has INF as its shortest window. */
  lemma EmptyIsInf(k: nat, m: nat)
    requires 1 <= k && Shortest([], k, m)
    ensures m == INF
  {
    assert 1 in Full(k);
    var s: seq<int> := [];
    assert forall i, j | 0 <= i <= j <= |s| :: Labels(s[i..j]) == {};
  }

  /**
   * `merge`: the summary of two adjacent ranges from theirs (the source
   * reads them from the children `2 * idx` and `2 * idx + 1`).  Padding may
   * only follow the data: a right part may be non-empty only after a
   * non-empty left part.
   */
  method Merge(left: Element, right: Element, k: nat, ghost sl: seq<int>, ghost sr: seq<int>) returns (e: Element)
    requires 1 <= k <= SLOTS && LabelsIn(sl + sr, k) && (sl == [] ==> sr == []) && |sl + sr| < INF
    requires Summarises(left, sl, k) && Summarises(right, sr, k)
    ensures Summarises(e, sl + sr, k)
    ensures e.mask == left.mask + right.mask && e.len == left.len + right.len
    ensures e.min <= Min(left.min, right.min)
    ensures right.mask == {} ==> e.pref == left.pref && e.posf == left.posf
    ensures e.mask == Full(k) ==> forall a, b | 0 <= a < SLOTS && 0 <= b < SLOTS &&
      left.posf[a].0 + right.pref[b].0 == Full(k) :: e.min <= left.posf[a].1 + right.pref[b].1
  {
    var expV := Full(k);
    e := Default().(mask := left.mask + right.mask, min := Min(left.min, right.min), len := left.len + right.len);
    LabelsAppend(sl, sr);
    if e.mask == {} {
      LabelsEmpty(sl);
      LabelsEmpty(sr);
      EmptyIsInf(k, left.min);
      EmptyIsInf(k, right.min);
      assert e == Default();
      DefaultSummarisesEmpty(k);
      assert sl + sr == [];
      return;
    }
    if right.mask == {} {
      LabelsEmpty(sr);
      EmptyIsInf(k, right.min);
      assert sl + sr == sl;
      ShortestFacts(sl, k, left.min);
      FullSuffixBound(sl, k, left);
      assert right.pref == Pad([]);
      e := e.(posf := left.posf, pref := left.pref);
      assert e == left;
      return;
    }
    LabelsEmpty(sr);
    var pref := JoinTables(left.pref, right.pref, left.len, sl, sr, k);
    ReverseAppend(sl, sr);
    ReverseInRange(sl + sr, k);
    var posf := JoinTables(right.posf, left.posf, right.len, Reverse(sr), Reverse(sl), k);
    e := e.(pref := pref, posf := posf);
    var c := 0;
    if e.mask == expV {
      c := CrossMin(left.posf, right.pref, expV);
      e := e.(min := Min(c, e.min));
    }
    MergedMin(sl, sr, k, left, right, e.mask == expV, c);
  }


  /** Two summaries of the same range are equal: a summary is determined by its range. */
  lemma SummaryUnique(e1: Element, e2: Element, s: seq<int>, k: nat)
    requires Summarises(e1, s, k) && Summarises(e2, s, k) && |s| < INF
    ensures e1 == e2
  {
    ShortestFacts(s, k, e1.min);
  }
}
