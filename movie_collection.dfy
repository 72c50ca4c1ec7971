/*
 * The request loop of src/moviecollection.rs.  A stack of m movies, movie 1
 * on top, serves requests: each answer is the number of movies above the
 * requested one, which then moves to the top.  The program keeps, for each
 * movie, a slot in a sum segment tree (`index`); a taken slot holds 1, and a
 * movie moved to the top gets the next fresh slot (`index_pointer`), so the
 * movies above one are the taken slots after its own.
 */
module MovieCollection {
  import opened TreeLayout
  import opened SumSegmentTree
  import opened MovieStack

  /**
   * The tree work of one request: count the taken slots after p up to cap,
   * then free slot p and take slot ptr.
   */
  method Take(tree: SegmentTree, p: nat, ptr: nat, cap: nat) returns (above: int)
    requires tree.Valid() && p < tree.N && ptr < tree.N
    modifies tree.tree
    ensures tree.Valid() && tree.N == old(tree.N)
    ensures above == RangeSum(old(tree.Leaves()), p + 1, cap)
    ensures tree.Leaves() == old(tree.Leaves())[p := 0][ptr := 1]
  {
    above := tree.Query(p + 1, cap);
    tree.Set(p, 0);
    tree.Set(ptr, 1);
  }

  /**
   * The body of the request loop of `solve`: the taken slots after the
   * requested movie's slot up to cap are the movies above it as long as
   * every taken slot is at most cap; its slot is then freed and it takes
   * the fresh slot ptr.
   */
  method Answer(tree: SegmentTree, ghost stack: seq<nat>, index: seq<int>, ptr: nat, m: nat, cap: nat, req: nat)
    returns (above: int, index': seq<int>)
    requires tree.Valid() && cap <= tree.N && ptr < tree.N && 1 <= req <= m
    requires Consistent(stack, index, ptr, m, tree.Leaves())
    modifies tree.tree
    ensures tree.Valid() && tree.N == old(tree.N)
    ensures req in stack && index' == index[req - 1 := ptr]
    ensures ptr <= cap ==> above == IndexOf(stack, req)
    ensures Consistent(MoveToTop(stack, req), index', ptr + 1, m, tree.Leaves())
  {
    ghost var leaves := tree.Leaves();
    if ptr <= cap {
      Depth(stack, index, ptr, m, leaves, req, cap);
    }
    Served(stack, index, ptr, m, leaves, req);
    above := Take(tree, index[req - 1], ptr, cap);
    index' := index[req - 1 := ptr];
  }

  /** One pass of the request loop: answer request t and move its movie to the top. */
  method Next(tree: SegmentTree, ghost stack: seq<nat>, index: seq<int>, ptr: nat, ghost leaves: seq<int>, m: nat, r: nat,
              requests: seq<nat>, t: nat, ghost result: seq<int>, ghost truth: seq<nat>, ghost all: seq<nat>)
    returns (above: int, index': seq<int>, ghost stack': seq<nat>, ghost leaves': seq<int>, ghost depth: nat)
    requires tree.Valid() && tree.Leaves() == leaves
    requires t < |requests| && 1 <= requests[t] <= m
    requires Slots(stack, index, ptr, leaves, m, r, requests, t)
    requires Serving(stack, r, requests, t, result, truth, all)
    modifies tree.tree
    ensures tree.Valid() && tree.Leaves() == leaves'
    ensures Slots(stack', index', ptr + 1, leaves', m, r, requests, t + 1)
    ensures Serving(stack', r, requests, t + 1, result + [above], truth + [depth], all)
  {
    var req := requests[t];
    above, index' := Answer(tree, stack, index, ptr, m, m + r, req);
    stack' := MoveToTop(stack, req);
    leaves' := tree.Leaves();
    depth := IndexOf(stack, req);
    ServingStep(stack, r, requests, t, result, truth, all, above);
  }

  /** Lines 73-76 of `solve`: the state before the first request. */
  method Open(m: nat, r: nat, requests: seq<nat>)
    returns (tree: SegmentTree, index: seq<int>, indexPointer: nat, ghost stack: seq<nat>, ghost leaves: seq<int>, ghost all: seq<nat>)
    requires forall k | 0 <= k < |requests| :: 1 <= requests[k] <= m
    requires m + r >= 1 && m + |requests| <= NextPow2(m + r)
    ensures tree.Valid() && tree.Leaves() == leaves && fresh(tree.tree)
    ensures Slots(stack, index, indexPointer, leaves, m, r, requests, 0)
    ensures Serving(stack, r, requests, 0, [], [], all)
    ensures stack == Initial(m) && all == Answers(Initial(m), requests)
    ensures forall k | 0 <= k < |requests| :: requests[k] in Initial(m)
  {
    tree := new SegmentTree.Filled(m, m + r);
    index := seq(m, q => m - 1 - q);
    indexPointer := m;
    stack := Initial(m);
    leaves := tree.Leaves();
    Start(m, leaves);
    forall k | 0 <= k < |requests|
      ensures requests[k] in stack
    {
      OnStack(stack, m, requests[k]);
    }
    all := Answers(stack, requests);
    ServingStart(stack, r, requests);
  }

  /** Lines 77-84 of `solve`: the request loop, from request 0 to the last. */
  method Serve(tree: SegmentTree, ghost stack: seq<nat>, index: seq<int>, indexPointer: nat, ghost leaves: seq<int>,
               m: nat, r: nat, requests: seq<nat>, ghost all: seq<nat>)
    returns (result: seq<int>, ghost truth: seq<nat>, ghost stack': seq<nat>)
    requires forall k | 0 <= k < |requests| :: 1 <= requests[k] <= m
    requires tree.Valid() && tree.Leaves() == leaves
    requires Slots(stack, index, indexPointer, leaves, m, r, requests, 0)
    requires Serving(stack, r, requests, 0, [], [], all)
    modifies tree.tree
    ensures Serving(stack', r, requests, |requests|, result, truth, all)
  {
    var index, indexPointer, leaves := index, indexPointer, leaves;
    result, truth, stack' := [], [], stack;
    for t := 0 to |requests|
      invariant tree.Valid() && tree.Leaves() == leaves
      invariant Slots(stack', index, indexPointer, leaves, m, r, requests, t)
      invariant Serving(stack', r, requests, t, result, truth, all)
    {
      var above, index', stack'', leaves', depth := Next(tree, stack', index, indexPointer, leaves, m, r, requests, t, result, truth, all);
      result, index, stack', leaves, truth := result + [above], index', stack'', leaves', truth + [depth];
      indexPointer := indexPointer + 1;
    }
  }

  /**
   * One test case of `solve`: request t gets the number of movies above the
   * requested one, which then moves to the top, for every t <= r.  A request
   * past that still gets an answer, counted over the slots up to m + r only.
   */
  method Solve(m: nat, r: nat, requests: seq<nat>) returns (result: seq<int>)
    requires forall k | 0 <= k < |requests| :: 1 <= requests[k] <= m
    requires m + r >= 1 && m + |requests| <= NextPow2(m + r)
    ensures forall k | 0 <= k < |requests| :: requests[k] in Initial(m)
    ensures |result| == |requests| == |Answers(Initial(m), requests)|
    ensures forall t | 0 <= t < |requests| && t <= r :: result[t] == Answers(Initial(m), requests)[t]
    ensures |requests| <= r + 1 ==> result == Answers(Initial(m), requests)
  {
    var tree, index, indexPointer, stack, leaves, all := Open(m, r, requests);
    ghost var truth, stack';
    result, truth, stack' := Serve(tree, stack, index, indexPointer, leaves, m, r, requests, all);
    ServingDone(stack', r, requests, result, truth, all);
  }
}
