/*
 * The segment tree of `nekameleoni` (src/nekameleoni.rs): an array of
 * Element summaries in which node v summarises the labels below it.
 */
module NekameleoniTree {
  import opened TreeLayout
  import opened Nekameleoni

  /** What `merge` needs of an inner node's two ranges. */
  lemma InnerRanges(data: seq<int>, N: nat, k: nat, v: nat)
    requires IsPow2(N) && 1 <= v < N && LabelsIn(data, k) && |data| < INF
    ensures Seg(data, N, v) == Seg(data, N, 2 * v) + Seg(data, N, 2 * v + 1)
    ensures LabelsIn(Seg(data, N, v), k) && |Seg(data, N, v)| < INF
    ensures Seg(data, N, 2 * v) == [] ==> Seg(data, N, 2 * v + 1) == []
  {
    InnerNode(data, N, v);
    NodeSpan(data, N, v);
    SliceIn(data, Lo(N, v, |data|), Hi(N, v, |data|), k);
  }

  /** A leaf's summary is the one `new` and `set` write for its label. */
  lemma LeafIsLeaf(e: Element, d: int, k: nat)
    requires 1 <= d <= k <= SLOTS && Summarises(e, [d], k)
    ensures e == Leaf(d, k)
  {
    LeafSummarises(d, k);
    SummaryUnique(e, Leaf(d, k), [d], k);
  }

  /** Node v of a tree over N leaves holds e, the summary of the data below v. */
  ghost predicate NodeOk(e: Element, data: seq<int>, N: nat, v: nat, k: nat)
    requires 1 <= v < 2 * N
  {
    Summarises(e, Seg(data, N, v), k)
  }

  /** Every node of t except x and its ancestors summarises the data below it. */
  ghost predicate AllOkBut(t: seq<Element>, data: seq<int>, N: nat, k: nat, x: nat)
    requires |t| == 2 * N
  {
    forall u {:trigger NodeOk(t[u], data, N, u, k)} | 1 <= u < 2 * N && !Above(u, x) :: NodeOk(t[u], data, N, u, k)
  }

  /** Every leaf of t summarises its one data element, or nothing past the data. */
  ghost predicate LeavesOk(t: seq<Element>, data: seq<int>, N: nat, k: nat)
    requires |t| == 2 * N
  {
    forall v {:trigger NodeOk(t[v], data, N, v, k)} | N <= v < 2 * N :: NodeOk(t[v], data, N, v, k)
  }

  /** The leaves `new` writes: Leaf for each data element, Default after them. */
  lemma FilledLeaves(t: seq<Element>, data: seq<int>, N: nat, k: nat)
    requires |t| == 2 * N && |data| <= N && 1 <= k <= SLOTS && LabelsIn(data, k)
    requires forall v | N <= v < N + |data| :: t[v] == Leaf(data[v - N], k)
    requires forall v | N + |data| <= v < 2 * N :: t[v] == Default()
    ensures LeavesOk(t, data, N, k)
  {
    DefaultSummarisesEmpty(k);
    forall v | N <= v < 2 * N
      ensures NodeOk(t[v], data, N, v, k)
    {
      if v < N + |data| {
        LeafSeg(data, N, v - N);
        LeafSummarises(data[v - N], k);
      }
    }
  }

  /**
   * Relabelling leaf N + i keeps every node but the leaf's strict ancestors
   * summarised: the leaf by its new label, the rest because their data is
   * unchanged.
   */
  lemma Relabelled(t0: seq<Element>, t1: seq<Element>, data: seq<int>, N: nat, k: nat, i: nat, v: int)
    requires |t0| == 2 * N && i < |data| <= N && 1 <= v <= k <= SLOTS
    requires AllOkBut(t0, data, N, k, 0)
    requires t1 == t0[N + i := Leaf(v, k)]
    ensures AllOkBut(t1, data[i := v], N, k, (N + i) / 2)
  {
    forall u | 1 <= u < 2 * N && !Above(u, (N + i) / 2)
      ensures NodeOk(t1[u], data[i := v], N, u, k)
    {
      if u == N + i {
        LeafSeg(data[i := v], N, i);
        LeafSummarises(v, k);
      } else {
        assert NodeOk(t0[u], data, N, u, k);
        SegFrame(data, N, u, i, v);
      }
    }
  }

  /**
   * The segment tree of `nekameleoni`: node v of `tree` summarises the
   * labels below it, so the root answers the whole query.
   */
  class SegmentTree {
    var tree: array<Element>
    var k: nat
    ghost var Data: seq<int>
    ghost var N: nat

    /** The tree's shape: N leaves, N a power of two, data labelled 1..k. */
    ghost predicate Shape()
      reads this
    {
      1 <= k <= SLOTS && IsPow2(N) && tree.Length == 2 * N &&
      1 <= |Data| <= N < INF && LabelsIn(Data, k)
    }

    /** Every node except x and its ancestors summarises its range. */
    ghost predicate SummarisedBut(x: nat)
      reads this, tree
      requires Shape()
    {
      AllOkBut(tree[..], Data, N, k, x)
    }

    ghost predicate Valid()
      reads this, tree
    {
      Shape() && AllOkBut(tree[..], Data, N, k, 0)
    }

    /** `new`: leaves from the data, padding leaves empty, inner nodes merged bottom-up. */
    constructor (data: seq<int>, k: nat)
      requires 1 <= k <= SLOTS && 1 <= |data| && 2 * |data| < INF && LabelsIn(data, k)
      ensures Valid() && Data == data && this.k == k
      ensures fresh(tree) && tree.Length == 2 * NextPow2(|data|)
    {
      var n := NextPow2(|data|);
      NextPow2Least(|data|);
      var t := new Element[2 * n](_ => Default());
      var treeSize := t.Length;
      for i := 0 to |data|
        invariant forall v | n <= v < n + i :: t[v] == Leaf(data[v - n], k)
        invariant forall v | n + i <= v < 2 * n :: t[v] == Default()
      {
        t[i + treeSize / 2] := Leaf(data[i], k);
      }
      tree := t;
      this.k := k;
      Data := data;
      N := n;
      new;
      FilledLeaves(tree[..], Data, N, k);
      Build();
    }

    /** The bottom-up loop of `new`: merge nodes N - 1 down to 1 over summarised leaves. */
    method Build()
      requires Shape() && LeavesOk(tree[..], Data, N, k)
      modifies tree
      ensures Valid()
    {
      var idx := tree.Length / 2 - 1;
      while idx >= 1
        invariant 0 <= idx < N
        invariant forall v | idx < v < 2 * N :: NodeOk(tree[v], Data, N, v, k)
        decreases idx
      {
        Remerge(idx);
        idx := idx - 1;
      }
    }

    /** `tree[idx] = merge(idx)`: node idx from its two children. */
    method Remerge(idx: nat)
      requires Shape() && 1 <= idx < N
      requires NodeOk(tree[2 * idx], Data, N, 2 * idx, k) && NodeOk(tree[2 * idx + 1], Data, N, 2 * idx + 1, k)
      modifies tree
      ensures NodeOk(tree[idx], Data, N, idx, k)
      ensures forall v | 0 <= v < tree.Length && v != idx :: tree[v] == old(tree[v])
    {
      InnerRanges(Data, N, k, idx);
      tree[idx] := Merge(tree[2 * idx], tree[2 * idx + 1], k, Seg(Data, N, 2 * idx), Seg(Data, N, 2 * idx + 1));
    }

    /** `query`: the length of the shortest window holding every label 1..k, INF if none. */
    method Query() returns (r: nat)
      requires Valid()
      ensures Shortest(Data, k, r)
      ensures r == INF <==> !Covers(Data, k)
      ensures r != INF ==> r <= |Data|
    {
      RootSeg(Data, N);
      assert NodeOk(tree[..][1], Data, N, 1, k);
      r := tree[1].min;
      ShortestFacts(Data, k, r);
    }

    /** `index`: the leaf holding data position i. */
    function Index(i: nat): (r: nat)
      reads this, tree
      requires Valid() && i < |Data|
      ensures N <= r < 2 * N && Seg(Data, N, r) == [Data[i]]
    {
      tree.Length / 2 + i
    }

    /**
     * `set`: relabel position i with v, then re-merge the leaf's ancestors;
     * nothing is re-merged when the label is unchanged.
     */
    method Set(i: nat, v: int)
      requires Valid() && i < |Data| && 1 <= v <= k
      modifies tree, this`Data
      ensures Valid() && Data == old(Data)[i := v]
      ensures forall u | 1 <= u < 2 * N && !Above(u, N + i) :: tree[u] == old(tree[u])
      ensures old(Data)[i] == v ==> tree[..] == old(tree[..])
    {
      var leaf := Index(i);
      var old_ := tree[leaf].mask;
      assert NodeOk(tree[..][leaf], Data, N, leaf, k);
      LeafIsLeaf(tree[leaf], Data[i], k);
      var min := if k == 1 then 1 else INF;
      if {v} == old_ {
        // the source rewrites the leaf's mask and minimum with the values they already hold
        assert Data[i] == v by {
          assert v in {Data[i]};
        }
        assert Data[i := v] == Data;
        Data := Data[i := v];
        return;
      }
      ghost var data0 := Data;
      Data := Data[i := v];
      assert LabelsIn(Data, k);
      ghost var t0 := tree[..];
      var e := tree[leaf].(mask := {v}, min := min);
      e := e.(pref := e.pref[0 := ({v}, 1)], posf := e.posf[0 := ({v}, 1)]);
      assert e.pref == Default().pref[0 := ({v}, 1)];
      assert e.posf == Default().posf[0 := ({v}, 1)];
      tree[leaf] := e;
      assert tree[..] == t0[leaf := Leaf(v, k)];
      Relabelled(t0, tree[..], data0, N, k, i, v);
      if leaf >= 2 {
        AboveParent(leaf, leaf);
      }
      Repair(leaf / 2, leaf);
    }

    /** The loop of `set`: re-merge x and its ancestors, the only nodes out of date. */
    method Repair(x: nat, ghost leaf: nat)
      requires Shape() && SummarisedBut(x) && x < N && (x == 0 || Above(x, leaf))
      modifies tree
      ensures Valid()
      ensures forall u | 1 <= u < 2 * N && !Above(u, leaf) :: tree[u] == old(tree[u])
    {
      var idx := x;
      while idx > 0
        invariant 0 <= idx < N && (idx == 0 || Above(idx, leaf))
        invariant SummarisedBut(idx)
        invariant forall u | 1 <= u < 2 * N && !Above(u, leaf) :: tree[u] == old(tree[u])
        decreases idx
      {
        AboveLe(2 * idx, idx);
        AboveLe(2 * idx + 1, idx);
        Remerge(idx);
        if idx >= 2 {
          AboveParent(idx, leaf);
        }
        idx := idx / 2;
      }
    }
  }
}
