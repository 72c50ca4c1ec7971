/*
 * The point-set, range-sum segment tree that src/megainversions.rs and
 * src/moviecollection.rs both carry: inner node v holds the sum of its two
 * children 2v and 2v + 1, and the leaves N .. 2N - 1 hold the values.
 */
module SumSegmentTree {
  import opened TreeLayout

  /** The sum of the elements of s. */
  function Sum(s: seq<int>): int
  {
    if s == [] then 0 else s[0] + Sum(s[1..])
  }

  /** The sum of those elements of s whose position lies in l ..= r, s[0] sitting at position at. */
  function SumWithin(s: seq<int>, at: int, l: int, r: int): int
  {
    if s == [] then 0 else (if l <= at <= r then s[0] else 0) + SumWithin(s[1..], at + 1, l, r)
  }

  /** The sum of s[l ..= r]; positions past the end of s add nothing. */
  function RangeSum(s: seq<int>, l: int, r: int): int
  {
    SumWithin(s, 0, l, r)
  }

  function Zeros(n: nat): (s: seq<int>)
    ensures |s| == n && forall i | 0 <= i < n :: s[i] == 0
  {
    seq(n, _ => 0)
  }

  lemma {:induction false} SumConcat(a: seq<int>, b: seq<int>)
    ensures Sum(a + b) == Sum(a) + Sum(b)
  {
    if a != [] {
      assert (a + b)[1..] == a[1..] + b;
      SumConcat(a[1..], b);
    } else {
      assert a + b == b;
    }
  }

  lemma {:induction false} WithinConcat(a: seq<int>, b: seq<int>, at: int, l: int, r: int)
    ensures SumWithin(a + b, at, l, r) == SumWithin(a, at, l, r) + SumWithin(b, at + |a|, l, r)
  {
    if a != [] {
      assert (a + b)[1..] == a[1..] + b;
      WithinConcat(a[1..], b, at + 1, l, r);
    } else {
      assert a + b == b;
    }
  }

  /** No position of s lies in l ..= r: s adds nothing. */
  lemma {:induction false} WithinOutside(s: seq<int>, at: int, l: int, r: int)
    requires r < at || l >= at + |s|
    ensures SumWithin(s, at, l, r) == 0
  {
    if s != [] {
      WithinOutside(s[1..], at + 1, l, r);
    }
  }

  /** Every position of s lies in l ..= r: all of s is added. */
  lemma {:induction false} WithinInside(s: seq<int>, at: int, l: int, r: int)
    requires l <= at && at + |s| <= r + 1
    ensures SumWithin(s, at, l, r) == Sum(s)
  {
    if s != [] {
      WithinInside(s[1..], at + 1, l, r);
    }
  }

  /** Changing s[i] to x changes the sum by x - s[i] exactly when position at + i is in range. */
  lemma {:induction false} WithinUpdate(s: seq<int>, at: int, l: int, r: int, i: nat, x: int)
    requires i < |s|
    ensures SumWithin(s[i := x], at, l, r) == SumWithin(s, at, l, r) + (if l <= at + i <= r then x - s[i] else 0)
  {
    if i > 0 {
      assert s[i := x][1..] == s[1..][i - 1 := x];
      WithinUpdate(s[1..], at + 1, l, r, i - 1, x);
    } else {
      assert s[i := x][1..] == s[1..];
    }
  }

  /** Inner node u of t holds the sum of its two children. */
  ghost predicate SumAt(t: seq<int>, u: nat)
    requires 2 * u + 1 < |t|
  {
    t[u] == t[2 * u] + t[2 * u + 1]
  }

  /** The number of elements of s in lo ..= hi. */
  function CountWithin(s: seq<int>, lo: int, hi: int): nat
  {
    if s == [] then 0 else (if lo <= s[0] <= hi then 1 else 0) + CountWithin(s[1..], lo, hi)
  }

  /**
   * A histogram h of s (h[x] counts the x's in s) sums over lo ..= hi to the
   * number of elements of s in that range.
   */
  lemma {:induction false} HistogramSum(h: seq<int>, s: seq<int>, lo: int, hi: int)
    requires forall x | 0 <= x < |h| :: h[x] == multiset(s)[x]
    requires forall k | 0 <= k < |s| :: 0 <= s[k] < |h|
    ensures RangeSum(h, lo, hi) == CountWithin(s, lo, hi)
    decreases |s|
  {
    if s == [] {
      WithinZero(h, 0, lo, hi);
    } else {
      var c := s[0];
      assert s == [c] + s[1..];
      assert multiset(s) == multiset{c} + multiset(s[1..]);
      var h' := h[c := h[c] - 1];
      HistogramSum(h', s[1..], lo, hi);
      assert h'[c := h[c]] == h;
      WithinUpdate(h', 0, lo, hi, c, h[c]);
    }
  }

  /** A sequence of zeros adds nothing over any range. */
  lemma {:induction false} WithinZero(h: seq<int>, at: int, lo: int, hi: int)
    requires forall x | 0 <= x < |h| :: h[x] == 0
    ensures SumWithin(h, at, lo, hi) == 0
  {
    if h != [] {
      WithinZero(h[1..], at + 1, lo, hi);
    }
  }

  /** One more c in s: its histogram's entry c grows by one. */
  lemma HistogramAdd(h: seq<int>, s: seq<int>, c: nat)
    requires c < |h| && forall x | 0 <= x < |h| :: h[x] == multiset(s)[x]
    ensures forall x | 0 <= x < |h| :: h[c := h[c] + 1][x] == multiset(s + [c])[x]
  {
    assert multiset(s + [c]) == multiset(s) + multiset{c};
  }

  /** One c fewer at the front of s: its histogram's entry c shrinks by one. */
  lemma HistogramRemove(h: seq<int>, s: seq<int>, c: nat)
    requires c < |h| && s != [] && s[0] == c && forall x | 0 <= x < |h| :: h[x] == multiset(s)[x]
    ensures forall x | 0 <= x < |h| :: h[c := h[c] - 1][x] == multiset(s[1..])[x]
  {
    assert s == [c] + s[1..];
    assert multiset(s) == multiset{c} + multiset(s[1..]);
  }

  /** Every inner node of t except x and its ancestors holds the sum of its two children. */
  ghost predicate SummedBut(t: seq<int>, N: nat, x: nat)
    requires |t| == 2 * N
  {
    forall u {:trigger SumAt(t, u)} | 1 <= u < N && !Above(u, x) :: SumAt(t, u)
  }

  /** Every inner node of t holds the sum of its two children. */
  ghost predicate Summed(t: seq<int>, N: nat)
    requires |t| == 2 * N
  {
    SummedBut(t, N, 0)
  }

  /** In a summed tree every node holds the sum of the leaves below it. */
  lemma {:induction false} NodeSum(t: seq<int>, N: nat, v: nat)
    requires |t| == 2 * N && Summed(t, N) && 1 <= v < 2 * N
    ensures t[v] == Sum(Seg(t[N..], N, v))
    decreases 2 * N - v
  {
    if v < N {
      var a, b := Seg(t[N..], N, 2 * v), Seg(t[N..], N, 2 * v + 1);
      NodeSum(t, N, 2 * v);
      NodeSum(t, N, 2 * v + 1);
      assert SumAt(t, v);
      SumConcat(a, b);
      assert Seg(t[N..], N, v) == a + b;
    } else {
      assert Seg(t[N..], N, v) == [t[v]];
    }
  }

  /**
   * `inner_query`: node v spans leaves x ..= y; the sum of the leaves that
   * also lie in l ..= r, found by splitting at the midpoint.
   */
  function InnerQuery(t: seq<int>, l: int, r: int, v: nat, x: nat, y: nat): int
    requires |t| % 2 == 0 && Spans(|t| / 2, v, x, y)
    decreases y - x
  {
    SpanChildren(|t| / 2, v, x, y);
    if r < x || l > y then 0
    else if l <= x && y <= r then t[v]
    else InnerQuery(t, l, r, 2 * v, x, (x + y) / 2) + InnerQuery(t, l, r, 2 * v + 1, (x + y) / 2 + 1, y)
  }

  /** A node spanning x ..= y holds the sum of those leaves. */
  lemma SpanSum(t: seq<int>, v: nat, x: nat, y: nat)
    requires |t| % 2 == 0 && Spans(|t| / 2, v, x, y) && Summed(t, |t| / 2)
    ensures t[v] == Sum(t[|t| / 2 + x..|t| / 2 + y + 1])
  {
    var N := |t| / 2;
    SegSpan(t[N..], N, v, y - x + 1, x);
    NodeSum(t, N, v);
    assert t[N..][x..y + 1] == t[N + x..N + y + 1];
  }

  /**
   * Over a summed tree, `inner_query` at node v adds exactly the leaves of
   * x ..= y that lie in l ..= r; a node disjoint from l ..= r adds 0.
   */
  lemma {:induction false} InnerQuerySum(t: seq<int>, l: int, r: int, v: nat, x: nat, y: nat)
    requires |t| % 2 == 0 && Spans(|t| / 2, v, x, y) && Summed(t, |t| / 2)
    ensures InnerQuery(t, l, r, v, x, y) == SumWithin(t[|t| / 2 + x..|t| / 2 + y + 1], x, l, r)
    decreases y - x, 1
  {
    var N := |t| / 2;
    if r < x || l > y {
      WithinOutside(t[N + x..N + y + 1], x, l, r);
    } else if l <= x && y <= r {
      SpanSum(t, v, x, y);
      WithinInside(t[N + x..N + y + 1], x, l, r);
    } else {
      InnerQuerySplit(t, l, r, v, x, y);
    }
  }

  /** A node partly inside l ..= r: the two halves' sums add up. */
  lemma {:induction false} InnerQuerySplit(t: seq<int>, l: int, r: int, v: nat, x: nat, y: nat)
    requires |t| % 2 == 0 && Spans(|t| / 2, v, x, y) && Summed(t, |t| / 2)
    requires !(r < x || l > y) && !(l <= x && y <= r)
    ensures InnerQuery(t, l, r, v, x, y) == SumWithin(t[|t| / 2 + x..|t| / 2 + y + 1], x, l, r)
    decreases y - x, 0
  {
    var N := |t| / 2;
    SpanChildren(N, v, x, y);
    var mid := (x + y) / 2;
    InnerQuerySum(t, l, r, 2 * v, x, mid);
    InnerQuerySum(t, l, r, 2 * v + 1, mid + 1, y);
    assert t[N + x..N + y + 1] == t[N + x..N + mid + 1] + t[N + mid + 1..N + y + 1];
    WithinConcat(t[N + x..N + mid + 1], t[N + mid + 1..N + y + 1], x, l, r);
  }

  /** Writing leaf N + i of a summed tree leaves only the leaf's strict ancestors out of date. */
  lemma LeafWritten(t: seq<int>, N: nat, i: nat, v: int)
    requires |t| == 2 * N && Summed(t, N) && i < N
    ensures SummedBut(t[N + i := v], N, (N + i) / 2)
  {
    var t1 := t[N + i := v];
    forall u | 1 <= u < N && !Above(u, (N + i) / 2)
      ensures SumAt(t1, u)
    {
      assert SumAt(t, u);
    }
  }

  /** Re-summing node idx leaves only idx's strict ancestors out of date. */
  lemma Resummed(t: seq<int>, N: nat, idx: nat)
    requires |t| == 2 * N && 1 <= idx < N && SummedBut(t, N, idx)
    ensures SummedBut(t[idx := t[2 * idx] + t[2 * idx + 1]], N, idx / 2)
  {
    var t1 := t[idx := t[2 * idx] + t[2 * idx + 1]];
    forall u | 1 <= u < N && !Above(u, idx / 2)
      ensures SumAt(t1, u)
    {
      if u != idx {
        assert SumAt(t, u);
      }
    }
  }

  /**
   * The sum segment tree: `tree` has 2N entries, N a power of two; entry
   * N + i is position i, and every inner node is the sum of its children.
   */
  class SegmentTree {
    var tree: array<int>
    ghost var N: nat

    ghost predicate Valid()
      reads this, tree
    {
      IsPow2(N) && tree.Length == 2 * N && Summed(tree[..], N)
    }

    /** The values the tree holds, position i at leaf N + i. */
    ghost function Leaves(): (s: seq<int>)
      reads this, tree
      requires Valid()
      ensures |s| == N
    {
      tree[N..]
    }

    /** `new(data)`: data at the first leaves, zeros after it, inner nodes summed bottom-up. */
    constructor (data: seq<int>)
      requires |data| >= 1
      ensures Valid() && fresh(tree)
      ensures N == NextPow2(|data|) && Leaves() == data + Zeros(N - |data|)
    {
      var n := NextPow2(|data|);
      var t := new int[2 * n](_ => 0);
      var treeSize := t.Length;
      for i := 0 to |data|
        invariant forall v | n <= v < n + i :: t[v] == data[v - n]
        invariant forall v | n + i <= v < 2 * n :: t[v] == 0
      {
        t[i + treeSize / 2] := data[i];
      }
      tree := t;
      N := n;
      new;
      Build();
      assert Leaves() == data + Zeros(N - |data|);
    }

    /** `empty(size)`: a tree over at least size positions, all zero. */
    constructor Empty(size: nat)
      requires size >= 1
      ensures Valid() && fresh(tree)
      ensures N == NextPow2(size) && size <= N && Leaves() == Zeros(N)
    {
      var n := NextPow2(size);
      tree := new int[2 * n](_ => 0);
      N := n;
      new;
      assert Leaves() == Zeros(N);
    }

    /** `new(filled, capacity)` of src/moviecollection.rs: ones at the first filled leaves, zeros after them. */
    constructor Filled(filled: nat, capacity: nat)
      requires filled <= capacity && capacity >= 1
      ensures Valid() && fresh(tree)
      ensures N == NextPow2(capacity) && capacity <= N
      ensures forall i | 0 <= i < N :: Leaves()[i] == if i < filled then 1 else 0
    {
      var n := NextPow2(capacity);
      var t := new int[2 * n](_ => 0);
      var treeSize := t.Length;
      for i := 0 to filled
        invariant forall v | n <= v < n + i :: t[v] == 1
        invariant forall v | n + i <= v < 2 * n :: t[v] == 0
      {
        t[i + treeSize / 2] := 1;
      }
      tree := t;
      N := n;
      new;
      Build();
    }

    /** The bottom-up loop of `new`: nodes N - 1 down to 1 become the sum of their children. */
    method Build()
      requires IsPow2(N) && tree.Length == 2 * N
      modifies tree
      ensures Valid() && tree[N..] == old(tree[N..])
    {
      var idx := tree.Length / 2 - 1;
      while idx >= 1
        invariant 0 <= idx < N
        invariant forall u | idx < u < N :: tree[u] == tree[2 * u] + tree[2 * u + 1]
        invariant tree[N..] == old(tree[N..])
        decreases idx
      {
        tree[idx] := tree[idx * 2 + 1] + tree[idx * 2];
        idx := idx - 1;
      }
    }

    /** `query(l, r)`: the sum of the values at positions l ..= r. */
    function Query(l: nat, r: nat): (s: int)
      reads this, tree
      requires Valid()
      ensures s == RangeSum(Leaves(), l, r)
    {
      var n := tree.Length / 2;
      MulOne(n);
      InnerQuerySum(tree[..], l, r, 1, 0, n - 1);
      assert tree[..][n + 0..n + (n - 1) + 1] == Leaves();
      InnerQuery(tree[..], l, r, 1, 0, n - 1)
    }

    /** `index(i)`: the leaf holding position i. */
    function Index(i: nat): (r: nat)
      reads this, tree
      requires Valid() && i < N
      ensures N <= r < 2 * N && tree[r] == Leaves()[i]
    {
      tree.Length / 2 + i
    }

    /** `set(i, v)`: position i becomes v, then its ancestors are re-summed leaf to root. */
    method Set(i: nat, v: int)
      requires Valid() && i < N
      modifies tree
      ensures Valid() && Leaves() == old(Leaves())[i := v]
    {
      var idx: nat := Index(i);
      LeafWritten(tree[..], N, i, v);
      tree[idx] := v;
      idx := idx / 2;
      while idx > 0
        invariant idx < N && tree.Length == 2 * N
        invariant tree[N..] == old(tree[N..])[i := v]
        invariant SummedBut(tree[..], N, idx)
        decreases idx
      {
        ghost var t := tree[..];
        Resummed(t, N, idx);
        tree[idx] := tree[idx * 2] + tree[idx * 2 + 1];
        assert tree[..] == t[idx := t[2 * idx] + t[2 * idx + 1]];
        idx := idx / 2;
      }
    }

    /** `update(i, d)`: position i grows by d. */
    method Update(i: nat, d: int)
      requires Valid() && i < N
      modifies tree
      ensures Valid() && Leaves() == old(Leaves())[i := old(Leaves())[i] + d]
    {
      Set(i, tree[Index(i)] + d);
    }
  }
}
