/*
 * The segment tree of src/uib_pointsofsnow.rs.  It adds a value to a range
 * by adding it at the few nodes that together cover the range exactly; the
 * value at a position is then the sum of the nodes on the path from its leaf
 * up to the root.
 */
module SnowTree {
  import opened TreeLayout

  /** The sum of t[u] over node w and its ancestors: the path from w up to the root. */
  function PathSum(t: seq<int>, w: nat): int
    requires w < |t|
    decreases w
  {
    if w == 0 then 0 else t[w] + PathSum(t, w / 2)
  }

  /** The value at position i of a tree over n leaves: the path sum of leaf n + i. */
  function Point(t: seq<int>, n: nat, i: nat): int
    requires n + i < |t|
  {
    PathSum(t, n + i)
  }

  /** Each position of s, plus d where it lies in l ..= r. */
  function Added(s: seq<int>, l: int, r: int, d: int): (a: seq<int>)
    ensures |a| == |s|
    ensures forall i | 0 <= i < |s| && (i < l || r < i) :: a[i] == s[i]
    ensures forall i | 0 <= i < |s| && l <= i <= r :: a[i] == s[i] + d
  {
    seq(|s|, i requires 0 <= i < |s| => s[i] + (if l <= i <= r then d else 0))
  }

  /** Under an inner node v, the nodes below v are those below one of its children. */
  lemma {:induction false} AboveChildren(v: nat, w: nat)
    requires 1 <= v < w
    ensures Above(v, w) <==> Above(2 * v, w) || Above(2 * v + 1, w)
    decreases w
  {
    AboveLe(2 * v, w / 2);
    AboveLe(2 * v + 1, w / 2);
    AboveLe(v, w / 2);
    if w / 2 > v {
      AboveChildren(v, w / 2);
    }
  }

  lemma {:induction false} AboveTrans(u: nat, v: nat, w: nat)
    requires Above(u, v) && Above(v, w)
    ensures Above(u, w)
    decreases w
  {
    if v != w {
      AboveTrans(u, v, w / 2);
    }
  }

  /** A node spanning leaves x ..= y is an ancestor of exactly the leaves of that range. */
  lemma {:induction false} LeafBelow(n: nat, v: nat, x: nat, y: nat, i: nat)
    requires Spans(n, v, x, y) && i < n
    ensures Above(v, n + i) <==> x <= i <= y
    decreases y - x
  {
    SpanChildren(n, v, x, y);
    if x == y {
      AboveLe(v, (n + i) / 2);
    } else {
      AboveChildren(v, n + i);
      LeafBelow(n, 2 * v, x, (x + y) / 2, i);
      LeafBelow(n, 2 * v + 1, (x + y) / 2 + 1, y, i);
    }
  }

  /** Adding d at node v adds d to the path sum of every node below v, and nothing to the others. */
  lemma {:induction false} PathAdd(t: seq<int>, v: nat, d: int, w: nat)
    requires 1 <= v < |t| && w < |t|
    ensures PathSum(t[v := t[v] + d], w) == PathSum(t, w) + (if Above(v, w) then d else 0)
    decreases w
  {
    if w > 0 {
      AboveLe(v, w / 2);
      PathAdd(t, v, d, w / 2);
    }
  }

  /** The path sum of w depends only on the nodes above w. */
  lemma {:induction false} PathFrame(t: seq<int>, t': seq<int>, w: nat)
    requires w < |t| == |t'|
    requires forall u | 1 <= u < |t| && Above(u, w) :: t[u] == t'[u]
    ensures PathSum(t, w) == PathSum(t', w)
    decreases w
  {
    if w > 0 {
      forall u | 1 <= u < |t| && Above(u, w / 2)
        ensures t[u] == t'[u]
      {
        AboveTrans(u, w / 2, w);
      }
      PathFrame(t, t', w / 2);
    }
  }

  /** With every inner node 0, the path sum of a leaf is the leaf. */
  lemma {:induction false} ZeroPath(t: seq<int>, n: nat, w: nat)
    requires |t| == 2 * n && w < 2 * n
    requires forall u | 1 <= u < n :: t[u] == 0
    ensures PathSum(t, w) == if n <= w then t[w] else 0
    decreases w
  {
    if w > 0 {
      ZeroPath(t, n, w / 2);
    }
  }

  /**
   * `inner_update_range`: add d to every leaf of l ..= r below node v, which
   * spans leaves x ..= y.  It writes only nodes below v.
   */
  method InnerUpdateRange(tree: array<int>, ghost n: nat, l: int, r: int, v: nat, x: nat, y: nat, d: int)
    requires tree.Length == 2 * n && Spans(n, v, x, y)
    modifies tree
    ensures forall u | 0 <= u < tree.Length && !Above(v, u) :: tree[u] == old(tree[u])
    ensures r < x || l > y ==> tree[..] == old(tree[..])
    ensures l <= x && y <= r ==> tree[..] == old(tree[..])[v := old(tree[v]) + d]
    ensures forall i | x <= i <= y :: Point(tree[..], n, i) == Point(old(tree[..]), n, i) + (if l <= i <= r then d else 0)
    decreases y - x
  {
    SpanChildren(n, v, x, y);
    ghost var t0 := tree[..];
    if r < x || l > y {
      assert tree[..] == t0;
      return;
    }
    if l <= x && y <= r {
      tree[v] := tree[v] + d;
      assert tree[..] == t0[v := t0[v] + d];
      Covered(t0, n, v, x, y, d);
      return;
    }
    var mid := (x + y) / 2;
    InnerUpdateRange(tree, n, l, r, 2 * v, x, mid, d);
    ghost var t1 := tree[..];
    InnerUpdateRange(tree, n, l, r, 2 * v + 1, mid + 1, y, d);
    Combined(t0, t1, tree[..], n, l, r, v, x, y, d);
  }

  /** Adding d at node v, which spans leaves x ..= y, adds d at each of those leaves. */
  lemma Covered(t: seq<int>, n: nat, v: nat, x: nat, y: nat, d: int)
    requires |t| == 2 * n && Spans(n, v, x, y)
    ensures v < |t| && forall i | x <= i <= y :: Point(t[v := t[v] + d], n, i) == Point(t, n, i) + d
  {
    SpanChildren(n, v, x, y);
    forall i | x <= i <= y
      ensures Point(t[v := t[v] + d], n, i) == Point(t, n, i) + d
    {
      PathAdd(t, v, d, n + i);
      LeafBelow(n, v, x, y, i);
    }
  }

  /** Writes below node c, which spans leaves cx ..= cy, leave the path sums of the other leaves alone. */
  lemma Untouched(t: seq<int>, t': seq<int>, n: nat, c: nat, cx: nat, cy: nat, i: nat)
    requires |t| == |t'| == 2 * n && Spans(n, c, cx, cy) && i < n && !(cx <= i <= cy)
    requires forall u | 0 <= u < 2 * n && !Above(c, u) :: t'[u] == t[u]
    ensures Point(t', n, i) == Point(t, n, i)
  {
    forall u | 1 <= u < 2 * n && Above(u, n + i)
      ensures t'[u] == t[u]
    {
      if Above(c, u) {
        AboveTrans(c, u, n + i);
        LeafBelow(n, c, cx, cy, i);
      }
    }
    PathFrame(t', t, n + i);
  }

  /** The two recursive calls of `inner_update_range` together update both halves of v's leaves. */
  lemma Combined(t0: seq<int>, t1: seq<int>, t2: seq<int>, n: nat, l: int, r: int, v: nat, x: nat, y: nat, d: int)
    requires |t0| == |t1| == |t2| == 2 * n && x < y && y < n && 1 <= v
    requires Spans(n, 2 * v, x, (x + y) / 2) && Spans(n, 2 * v + 1, (x + y) / 2 + 1, y)
    requires forall u | 0 <= u < 2 * n && !Above(2 * v, u) :: t1[u] == t0[u]
    requires forall u | 0 <= u < 2 * n && !Above(2 * v + 1, u) :: t2[u] == t1[u]
    requires forall i | x <= i <= (x + y) / 2 :: Point(t1, n, i) == Point(t0, n, i) + (if l <= i <= r then d else 0)
    requires forall i | (x + y) / 2 + 1 <= i <= y :: Point(t2, n, i) == Point(t1, n, i) + (if l <= i <= r then d else 0)
    ensures forall i | x <= i <= y :: Point(t2, n, i) == Point(t0, n, i) + (if l <= i <= r then d else 0)
    ensures forall u | 0 <= u < 2 * n && !Above(v, u) :: t2[u] == t0[u]
  {
    var mid := (x + y) / 2;
    forall u | 0 <= u < 2 * n && !Above(v, u)
      ensures t2[u] == t0[u]
    {
      if Above(2 * v, u) || Above(2 * v + 1, u) {
        AboveParent(2 * v, u);
        AboveParent(2 * v + 1, u);
      }
    }
    forall i | x <= i <= y
      ensures Point(t2, n, i) == Point(t0, n, i) + (if l <= i <= r then d else 0)
    {
      if i <= mid {
        Untouched(t1, t2, n, 2 * v + 1, mid + 1, y, i);
      } else {
        Untouched(t0, t1, n, 2 * v, x, mid, i);
      }
    }
  }

  /** The values at the n positions of the tree t. */
  function Snow(t: seq<int>, n: nat): (s: seq<int>)
    requires |t| == 2 * n
    ensures |s| == n && forall i | 0 <= i < n :: s[i] == Point(t, n, i)
  {
    seq(n, i requires 0 <= i < n => Point(t, n, i))
  }

  /**
   * The tree of src/uib_pointsofsnow.rs: tree[1] is the root, node v has
   * children 2v and 2v + 1, and the N leaves are tree[N ..].
   */
  class SegmentTree {
    var tree: array<int>
    ghost var N: nat

    ghost predicate Valid()
      reads this
    {
      IsPow2(N) && tree.Length == 2 * N
    }

    /** The value at each of the N positions. */
    ghost function Values(): (s: seq<int>)
      reads this, tree
      requires Valid()
      ensures |s| == N
    {
      Snow(tree[..], N)
    }

    /** `new`: the positions hold data, then 0 up to the next power of two. */
    constructor (data: seq<int>)
      requires |data| >= 1
      ensures Valid() && fresh(tree) && N == NextPow2(|data|)
      ensures Values()[..|data|] == data && forall i | |data| <= i < N :: Values()[i] == 0
    {
      var n := NextPow2(|data|);
      var t := new int[2 * n](_ => 0);
      var treeSize := t.Length;
      for i := 0 to |data|
        invariant forall u | 0 <= u < 2 * n && !(n <= u < n + i) :: t[u] == 0
        invariant forall u | n <= u < n + i :: t[u] == data[u - n]
      {
        t[i + treeSize / 2] := data[i];
      }
      tree := t;
      N := n;
      new;
      Filled(tree[..], N, data);
    }

    /** `empty`: every position holds 0. */
    constructor Empty(size: nat)
      requires size >= 1
      ensures Valid() && fresh(tree) && N == NextPow2(size)
      ensures forall i | 0 <= i < N :: Values()[i] == 0
    {
      var n := NextPow2(size);
      tree := new int[2 * n](_ => 0);
      N := n;
      new;
      Filled(tree[..], N, []);
    }

    /** `index`: the leaf of position i, whose path sum is the value there. */
    function Index(i: nat): (r: nat)
      reads this, tree
      requires Valid() && i < N
      ensures N <= r < tree.Length && PathSum(tree[..], r) == Values()[i]
    {
      tree.Length / 2 + i
    }

    /** `query`: the value at position i, summed from its leaf up to the root. */
    method Query(i: nat) returns (sum: int)
      requires Valid() && i < N
      ensures sum == Values()[i]
    {
      sum := 0;
      var idx: nat := Index(i);
      while idx > 0
        invariant idx < tree.Length
        invariant sum + PathSum(tree[..], idx) == Values()[i]
        decreases idx
      {
        sum := sum + tree[idx];
        idx := idx / 2;
      }
    }

    /** `update_range`: add d at every position of l ..= r. */
    method UpdateRange(l: int, r: int, d: int)
      requires Valid()
      modifies tree
      ensures Valid() && N == old(N)
      ensures Values() == Added(old(Values()), l, r, d)
    {
      var n := tree.Length / 2;
      MulOne(n);
      InnerUpdateRange(tree, N, l, r, 1, 0, n - 1, d);
      assert Values() == Added(old(Values()), l, r, d) by {
        forall i | 0 <= i < N
          ensures Values()[i] == Added(old(Values()), l, r, d)[i]
        {
        }
      }
    }
  }

  /** A tree with every inner node 0 holds its leaves; here data and then zeros. */
  lemma Filled(t: seq<int>, n: nat, data: seq<int>)
    requires |t| == 2 * n && |data| <= n
    requires forall u | 0 <= u < 2 * n && !(n <= u < n + |data|) :: t[u] == 0
    requires forall u | n <= u < n + |data| :: t[u] == data[u - n]
    ensures Snow(t, n)[..|data|] == data && forall i | |data| <= i < n :: Snow(t, n)[i] == 0
  {
    forall i | 0 <= i < n
      ensures Snow(t, n)[i] == if i < |data| then data[i] else 0
    {
      ZeroPath(t, n, n + i);
    }
  }
}
