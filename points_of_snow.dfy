/*
 * src/uib_pointsofsnow.rs: a segment tree for range-add and point-query.
 * `update_range(l, r, d)` adds d at the highest nodes that cover l ..= r,
 * and the value at position i is the sum of the nodes on the path from leaf
 * i up to the root; `from_string` reads the two kinds of operation.
 */
module PointsOfSnow {
  import opened Wrappers
  import opened Numerals
  import opened TreeLayout
  import opened SnowTree

  datatype Operation = Update(l: nat, r: nat, d: int) | Query(idx: nat)

  /**
   * `Operation::from_string`: "! l r d" is an update (the first piece before
   * a space is skipped, later pieces ignored), "? i" a query (everything from
   * the third character on is the number).  None where the program panics.
   */
  function FromString(inp: string): (r: Option<Operation>)
    ensures r.Some? && r.value.Update? ==> |inp| > 0 && inp[0] == '!'
    ensures r.Some? && r.value.Query? ==> |inp| >= 2 && inp[0] == '?' && ParseUsize(inp[2..]) == Some(r.value.idx)
    ensures |inp| > 0 && inp[0] != '!' && inp[0] != '?' ==> r.None?
  {
    if |inp| == 0 then None
    else if inp[0] == '!' then
      var pieces := Split(inp);
      if |pieces| < 4 then None
      else
        match (ParseUsize(pieces[1]), ParseUsize(pieces[2]), ParseIsize(pieces[3]))
        case (Some(l), Some(r), Some(d)) => Some(Update(l, r, d))
        case _ => None
    else if inp[0] == '?' then
      if |inp| < 2 then None
      else
        match ParseUsize(inp[2..])
        case Some(idx) => Some(Query(idx))
        case None => None
    else None
  }

  /** The line that describes op. */
  function Format(op: Operation): string
  {
    match op
    case Update(l, r, d) => "! " + Show(l) + " " + Show(r) + " " + ShowInt(d)
    case Query(idx) => "? " + Show(idx)
  }

  predicate InRange(op: Operation)
  {
    match op
    case Update(l, r, d) => l <= USIZE_MAX && r <= USIZE_MAX && ISIZE_MIN <= d <= ISIZE_MAX
    case Query(idx) => idx <= USIZE_MAX
  }

  /** Reading the line of an operation gives the operation back. */
  lemma FromFormat(op: Operation)
    requires InRange(op)
    ensures FromString(Format(op)) == Some(op)
  {
    match op
    case Update(l, r, d) =>
      var s := Format(op);
      assert s == "!" + " " + (Show(l) + " " + (Show(r) + " " + ShowInt(d)));
      SplitWord("!", Show(l) + " " + (Show(r) + " " + ShowInt(d)));
      SplitWord(Show(l), Show(r) + " " + ShowInt(d));
      SplitWord(Show(r), ShowInt(d));
      SplitLast(ShowInt(d));
      ParseShowUsize(l);
      ParseShowUsize(r);
      ParseShowIsize(d);
    case Query(idx) =>
      assert Format(op)[2..] == Show(idx);
      ParseShowUsize(idx);
  }

  /** What `solve` needs of an operation on a tree of n positions: r >= 1, 1 <= idx <= n. */
  predicate Allowed(op: Operation, n: nat)
  {
    match op
    case Update(_, r, _) => r >= 1
    case Query(idx) => 1 <= idx <= n
  }

  /** The snow after op: an update adds d on l .. r - 1. */
  function Apply(s: seq<int>, op: Operation): (s': seq<int>)
    requires Allowed(op, |s|)
    ensures |s'| == |s|
  {
    match op
    case Update(l, r, d) => Added(s, l, r - 1, d)
    case Query(_) => s
  }

  /** The line a query writes: the value at idx - 1. */
  function Out(s: seq<int>, op: Operation): seq<int>
    requires Allowed(op, |s|)
  {
    match op
    case Update(_, _, _) => []
    case Query(idx) => [s[idx - 1]]
  }

  predicate AllAllowed(ops: seq<Operation>, n: nat)
  {
    forall j | 0 <= j < |ops| :: Allowed(ops[j], n)
  }

  /** The snow after every operation of ops, starting from s. */
  function Fold(s: seq<int>, ops: seq<Operation>): (s': seq<int>)
    requires AllAllowed(ops, |s|)
    ensures |s'| == |s|
    decreases |ops|
  {
    if ops == [] then s else Fold(Apply(s, ops[0]), ops[1..])
  }

  /** The lines written for ops, starting from s. */
  function Outputs(s: seq<int>, ops: seq<Operation>): seq<int>
    requires AllAllowed(ops, |s|)
    decreases |ops|
  {
    if ops == [] then [] else Out(s, ops[0]) + Outputs(Apply(s, ops[0]), ops[1..])
  }

  /** Outputs unfolded once: the first operation writes, the rest run on its result. */
  lemma OutputsCons(s: seq<int>, ops: seq<Operation>)
    requires ops != [] && AllAllowed(ops, |s|)
    ensures Allowed(ops[0], |s|) && AllAllowed(ops[1..], |s|)
    ensures Outputs(s, ops) == Out(s, ops[0]) + Outputs(Apply(s, ops[0]), ops[1..])
  {
    assert forall j | 0 <= j < |ops| - 1 :: ops[1..][j] == ops[j + 1];
  }

  /** The snow the updates of ops lay on position i. */
  function Depth(ops: seq<Operation>, i: int): int
  {
    if ops == [] then 0
    else
      var op := ops[|ops| - 1];
      Depth(ops[..|ops| - 1], i) + (if op.Update? && op.l <= i < op.r then op.d else 0)
  }

  lemma {:induction false} FoldSnoc(s: seq<int>, ops: seq<Operation>, op: Operation)
    requires AllAllowed(ops, |s|) && Allowed(op, |s|)
    ensures AllAllowed(ops + [op], |s|) && Fold(s, ops + [op]) == Apply(Fold(s, ops), op)
    decreases |ops|
  {
    assert forall j | 0 <= j < |ops| :: (ops + [op])[j] == ops[j];
    if ops == [] {
      assert [op][1..] == [];
    } else {
      assert (ops + [op])[1..] == ops[1..] + [op];
      FoldSnoc(Apply(s, ops[0]), ops[1..], op);
    }
  }

  /** After ops, position i holds its start value plus the snow the updates covering i laid on it. */
  lemma {:induction false} Snowed(s: seq<int>, ops: seq<Operation>, i: nat)
    requires AllAllowed(ops, |s|) && i < |s|
    ensures Fold(s, ops)[i] == s[i] + Depth(ops, i)
    decreases |ops|
  {
    if ops != [] {
      var pre, op := ops[..|ops| - 1], ops[|ops| - 1];
      assert ops == pre + [op];
      assert forall j | 0 <= j < |pre| :: pre[j] == ops[j];
      FoldSnoc(s, pre, op);
      Snowed(s, pre, i);
    }
  }

  /** A query written after ops answers with the snow at its position. */
  lemma {:induction false} OutputsSnoc(s: seq<int>, ops: seq<Operation>, op: Operation)
    requires AllAllowed(ops, |s|) && Allowed(op, |s|)
    ensures AllAllowed(ops + [op], |s|) && Outputs(s, ops + [op]) == Outputs(s, ops) + Out(Fold(s, ops), op)
    decreases |ops|
  {
    assert forall j | 0 <= j < |ops| :: (ops + [op])[j] == ops[j];
    if ops == [] {
      assert [op][1..] == [];
    } else {
      assert (ops + [op])[1..] == ops[1..] + [op];
      OutputsSnoc(Apply(s, ops[0]), ops[1..], op);
    }
  }

  /** The answer to a query after ops on fresh snow is the snow the earlier updates laid there. */
  lemma QueryAnswer(n: nat, ops: seq<Operation>, idx: nat)
    requires AllAllowed(ops, n) && 1 <= idx <= n
    ensures AllAllowed(ops + [Query(idx)], n)
    ensures Outputs(seq(n, _ => 0), ops + [Query(idx)]) == Outputs(seq(n, _ => 0), ops) + [Depth(ops, idx - 1)]
  {
    var zero := seq(n, _ => 0);
    OutputsSnoc(zero, ops, Query(idx));
    Snowed(zero, ops, idx - 1);
  }

  /** The body of the operation loop of `solve`: one operation on the tree. */
  method Perform(segmentTree: SegmentTree, op: Operation) returns (written: seq<int>)
    requires segmentTree.Valid() && Allowed(op, segmentTree.N)
    modifies segmentTree.tree
    ensures segmentTree.Valid() && segmentTree.N == old(segmentTree.N)
    ensures written == Out(old(segmentTree.Values()), op)
    ensures segmentTree.Values() == Apply(old(segmentTree.Values()), op)
  {
    match op
    case Update(l, r, d) =>
      segmentTree.UpdateRange(l, r - 1, d);
      written := [];
    case Query(idx) =>
      var value := segmentTree.Query(idx - 1);
      written := [value];
  }

  /** The operation loop of `solve`: the numbers written are the reference outputs from the tree's values. */
  method Feed(segmentTree: SegmentTree, ops: seq<Operation>) returns (out: seq<int>)
    requires segmentTree.Valid() && AllAllowed(ops, segmentTree.N)
    modifies segmentTree.tree
    ensures segmentTree.Valid() && segmentTree.N == old(segmentTree.N)
    ensures out == Outputs(old(segmentTree.Values()), ops)
  {
    ghost var start := segmentTree.Values();
    out := [];
    for t := 0 to |ops|
      invariant segmentTree.Valid() && segmentTree.N == |start|
      invariant AllAllowed(ops[t..], |start|)
      invariant out + Outputs(segmentTree.Values(), ops[t..]) == Outputs(start, ops)
    {
      assert ops[t..][0] == ops[t] && ops[t..][1..] == ops[t + 1..];
      OutputsCons(segmentTree.Values(), ops[t..]);
      var written := Perform(segmentTree, ops[t]);
      out := out + written;
    }
    assert ops[|ops|..] == [];
  }

  /**
   * `solve` after its first line, over a tree of NextPow2(n) positions: each
   * update adds on l .. r - 1, each query writes the value at idx - 1.
   */
  method Run(n: nat, ops: seq<Operation>) returns (out: seq<int>)
    requires n >= 1 && AllAllowed(ops, NextPow2(n))
    ensures out == Outputs(seq(NextPow2(n), _ => 0), ops)
  {
    var segmentTree := new SegmentTree.Empty(n);
    assert segmentTree.Values() == seq(NextPow2(n), _ => 0);
    out := Feed(segmentTree, ops);
  }

  /** The operations the lines describe. */
  function Parsed(lines: seq<string>): (ops: seq<Operation>)
    requires forall j | 0 <= j < |lines| :: FromString(lines[j]).Some?
    ensures |ops| == |lines| && forall j | 0 <= j < |lines| :: Some(ops[j]) == FromString(lines[j])
  {
    seq(|lines|, j requires 0 <= j < |lines| => FromString(lines[j]).value)
  }

  /**
   * `solve` after its first line: n positions and the first k + q of the
   * remaining lines, each an operation; the result is the numbers written.
   */
  method Solve(n: nat, k: nat, q: nat, lines: seq<string>) returns (out: seq<int>)
    requires n >= 1
    requires forall j | 0 <= j < |lines| && j < k + q :: FromString(lines[j]).Some?
    requires forall j | 0 <= j < |lines| && j < k + q :: Allowed(FromString(lines[j]).value, NextPow2(n))
    ensures var taken := if |lines| < k + q then lines else lines[..k + q];
      out == Outputs(seq(NextPow2(n), _ => 0), Parsed(taken))
  {
    var taken := if |lines| < k + q then lines else lines[..k + q];
    out := Run(n, Parsed(taken));
  }
}
