/*
 * The array layout shared by the segment trees of the repository: node 1 is
 * the root, node v has children 2v and 2v + 1, and a tree over N leaves (N a
 * power of two) stores them at N .. 2N - 1.  The first |data| leaves hold the
 * data, the others are padding.
 */
module TreeLayout {

  predicate IsPow2(w: nat)
    decreases w
  {
    w == 1 || (w >= 2 && w % 2 == 0 && IsPow2(w / 2))
  }

  /** 2 to the power ceil(log2 n), for n >= 1. */
  function NextPow2(n: nat): (r: nat)
    requires n >= 1
    ensures IsPow2(r) && n <= r
  {
    if n == 1 then 1 else 2 * NextPow2((n + 1) / 2)
  }

  /** NextPow2(n) is the least power of two not below n: half of it is below n. */
  lemma {:induction false} NextPow2Least(n: nat)
    requires n >= 1
    ensures NextPow2(n) == 1 || NextPow2(n) / 2 < n
  {
    if n > 1 {
      var m := (n + 1) / 2;
      NextPow2Least(m);
      var r := NextPow2(m);
      assert NextPow2(n) == 2 * r;
      assert r == 1 || r % 2 == 0;
    }
  }

  function Clip(a: int, n: nat): nat
  {
    if a < 0 then 0 else if a < n then a else n
  }

  /** The data below node v, read off the tree shape. */
  ghost function Seg<T>(data: seq<T>, N: nat, v: nat): seq<T>
    requires 1 <= v < 2 * N
    decreases 2 * N - v
  {
    if v >= N then (if v - N < |data| then [data[v - N]] else [])
    else Seg(data, N, 2 * v) + Seg(data, N, 2 * v + 1)
  }

  /** The number of leaves below node v. */
  ghost function Width(N: nat, v: nat): nat
    requires 1 <= v
    decreases v
  {
    if v == 1 then N else Width(N, v / 2) / 2
  }

  /** The first data position below node v (clipped to the data). */
  ghost function Lo(N: nat, v: nat, n: nat): nat
    requires 1 <= v
  {
    Clip(v * Width(N, v) - N, n)
  }

  /** One past the last data position below node v (clipped to the data). */
  ghost function Hi(N: nat, v: nat, n: nat): nat
    requires 1 <= v
  {
    Clip(v * Width(N, v) - N + Width(N, v), n)
  }

  /** u is v or one of v's ancestors. */
  predicate Above(u: nat, v: nat)
    decreases v
  {
    v >= 1 && (u == v || Above(u, v / 2))
  }

  lemma {:induction false} AboveLe(u: nat, v: nat)
    ensures Above(u, v) ==> u <= v
    decreases v
  {
    if v >= 1 && u != v {
      AboveLe(u, v / 2);
    }
  }

  lemma {:induction false} AboveParent(c: nat, v: nat)
    requires c >= 2
    ensures Above(c, v) ==> Above(c / 2, v)
    decreases v
  {
    if v >= 1 && c != v {
      AboveParent(c, v / 2);
    }
  }

  lemma MulSplit(p: nat, r: nat, w: nat)
    ensures (2 * p + r) * w == p * (2 * w) + r * w
  {
  }

  lemma MulAtLeast(a: nat, b: nat)
    requires b >= 1
    ensures a * b >= a
  {
  }

  lemma MulOne(a: nat)
    ensures a * 1 == a
  {
  }

  /** Node v spans Width(N, v) leaves, from leaf v * Width(N, v). */
  lemma {:induction false} NodeWidth(N: nat, v: nat)
    requires IsPow2(N) && 1 <= v < 2 * N
    ensures IsPow2(Width(N, v)) && Width(N, v) >= 1
    ensures N <= v * Width(N, v) && v * Width(N, v) + Width(N, v) <= 2 * N
    decreases v
  {
    if v > 1 {
      var p := v / 2;
      NodeWidth(N, p);
      var wp := Width(N, p);
      MulOne(p);
      assert wp != 1;
      ChildWidth(N, p, wp, v, wp / 2);
    }
  }

  lemma ChildWidth(N: nat, p: nat, wp: nat, v: nat, w: nat)
    requires wp == 2 * w && v / 2 == p && N <= p * wp && p * wp + wp <= 2 * N
    ensures N <= v * w && v * w + w <= 2 * N
  {
    MulSplit(p, v - 2 * p, w);
  }

  lemma SliceSplit<T>(s: seq<T>, i: nat, j: nat, l: nat)
    requires i <= j <= l <= |s|
    ensures s[i..j] + s[j..l] == s[i..l]
  {
    assert forall q | 0 <= q < l - i :: (s[i..j] + s[j..l])[q] == s[i + q];
  }

  /** The children of a node spanning w = 2h leaves from leaf N + lo span h leaves each. */
  lemma ChildPlaces(N: nat, v: nat, w: nat, h: nat, lo: int)
    requires 1 <= v && w == 2 * h && h >= 1 && lo + N == v * w && lo + w <= N
    ensures v < N && lo + N == (2 * v) * h && lo + h + N == (2 * v + 1) * h
  {
    MulSplit(v, 0, h);
    MulSplit(v, 1, h);
    MulAtLeast(v, h);
  }

  /** A node spanning w leaves from leaf N + lo covers that window of the data. */
  lemma {:induction false} SegSpan<T>(data: seq<T>, N: nat, v: nat, w: nat, lo: int)
    requires IsPow2(w) && 1 <= v && 0 <= lo && lo + N == v * w && lo + w <= N
    ensures v < 2 * N
    ensures Seg(data, N, v) == data[Clip(lo, |data|)..Clip(lo + w, |data|)]
    decreases w
  {
    if w == 1 {
      MulOne(v);
    } else {
      var h := w / 2;
      ChildPlaces(N, v, w, h, lo);
      SegSpan(data, N, 2 * v, h, lo);
      SegSpan(data, N, 2 * v + 1, h, lo + h);
      SpanStep(data, N, v, lo, h);
    }
  }

  lemma SpanStep<T>(data: seq<T>, N: nat, v: nat, a: int, h: nat)
    requires 1 <= v < N
    requires Seg(data, N, 2 * v) == data[Clip(a, |data|)..Clip(a + h, |data|)]
    requires Seg(data, N, 2 * v + 1) == data[Clip(a + h, |data|)..Clip(a + h + h, |data|)]
    ensures Seg(data, N, v) == data[Clip(a, |data|)..Clip(a + 2 * h, |data|)]
  {
    SliceSplit(data, Clip(a, |data|), Clip(a + h, |data|), Clip(a + 2 * h, |data|));
  }

  /** Node v covers data[Lo .. Hi]. */
  lemma NodeSpan<T>(data: seq<T>, N: nat, v: nat)
    requires IsPow2(N) && 1 <= v < 2 * N
    ensures Lo(N, v, |data|) <= Hi(N, v, |data|) <= |data|
    ensures Seg(data, N, v) == data[Lo(N, v, |data|)..Hi(N, v, |data|)]
  {
    NodeWidth(N, v);
    SegSpan(data, N, v, Width(N, v), v * Width(N, v) - N);
  }

  /** The root covers all the data. */
  lemma RootSeg<T>(data: seq<T>, N: nat)
    requires IsPow2(N) && |data| <= N
    ensures Seg(data, N, 1) == data
  {
    MulOne(N);
    SegSpan(data, N, 1, N, 0);
    assert data[0..|data|] == data;
  }

  /** An inner node's range is its children's, and padding comes last. */
  lemma InnerNode<T>(data: seq<T>, N: nat, v: nat)
    requires IsPow2(N) && 1 <= v < N
    ensures Seg(data, N, v) == Seg(data, N, 2 * v) + Seg(data, N, 2 * v + 1)
    ensures Seg(data, N, 2 * v) == [] ==> Seg(data, N, 2 * v + 1) == []
  {
    NodeWidth(N, v);
    var w := Width(N, v);
    var lo := v * w - N;
    MulOne(v);
    assert w != 1;
    var h := w / 2;
    ChildPlaces(N, v, w, h, lo);
    SegSpan(data, N, 2 * v, h, lo);
    SegSpan(data, N, 2 * v + 1, h, lo + h);
  }

  /** A data leaf holds its one element. */
  lemma LeafSeg<T>(data: seq<T>, N: nat, i: nat)
    requires i < |data| <= N
    ensures Seg(data, N, N + i) == [data[i]]
  {
  }

  /** Changing data[i] leaves every node that is not an ancestor of leaf N + i unchanged. */
  lemma {:induction false} SegFrame<T>(data: seq<T>, N: nat, v: nat, i: nat, x: T)
    requires 1 <= v < 2 * N && i < |data| && !Above(v, N + i)
    ensures Seg(data[i := x], N, v) == Seg(data, N, v)
    decreases 2 * N - v
  {
    if v < N {
      AboveParent(2 * v, N + i);
      AboveParent(2 * v + 1, N + i);
      SegFrame(data, N, 2 * v, i, x);
      SegFrame(data, N, 2 * v + 1, i, x);
    }
  }

  /** Node v of a tree over n leaves spans the leaves x ..= y. */
  ghost predicate Spans(n: nat, v: nat, x: nat, y: nat)
  {
    1 <= v && x <= y < n && IsPow2(y - x + 1) && x + n == v * (y - x + 1)
  }

  /** A node spans one leaf, or its children span the two halves of its leaves. */
  lemma SpanChildren(n: nat, v: nat, x: nat, y: nat)
    requires Spans(n, v, x, y)
    ensures v < 2 * n && (x == y ==> v == n + x)
    ensures x < y ==> v < n && Spans(n, 2 * v, x, (x + y) / 2) && Spans(n, 2 * v + 1, (x + y) / 2 + 1, y)
  {
    var w := y - x + 1;
    MulAtLeast(v, w);
    if x == y {
      MulOne(v);
    } else {
      var mid := (x + y) / 2;
      var h := w / 2;
      ChildPlaces(n, v, w, h, x);
      assert mid - x + 1 == h && y - (mid + 1) + 1 == h;
    }
  }
}
