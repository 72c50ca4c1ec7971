/*
 * The stack of src/moviecollection.rs as values: the answers the requests
 * get, and the correspondence between the stack and the program's slots
 * (`index`) and tree of taken slots, with the facts the request loop needs.
 */
module MovieStack {
  import opened SumSegmentTree

  /** The first position of x in s. */
  function IndexOf(s: seq<nat>, x: nat): (p: nat)
    requires x in s
    ensures p < |s| && s[p] == x && x !in s[..p]
  {
    if s[0] == x then 0 else 1 + IndexOf(s[1..], x)
  }

  /** The stack before any request: movie 1 on top, then 2 .. m. */
  function Initial(m: nat): (s: seq<nat>)
    ensures |s| == m && forall q | 0 <= q < m :: s[q] == q + 1
  {
    seq(m, q => q + 1)
  }

  /** The stack after x is taken out and put back on top. */
  function MoveToTop(stack: seq<nat>, x: nat): (r: seq<nat>)
    requires x in stack
    ensures |r| == |stack| && r[0] == x && multiset(r) == multiset(stack)
  {
    var p := IndexOf(stack, x);
    assert stack == stack[..p] + [x] + stack[p + 1..];
    [x] + stack[..p] + stack[p + 1..]
  }

  /** The answers to the requests: how many movies lie above each requested one when it is asked for. */
  function Answers(stack: seq<nat>, requests: seq<nat>): (a: seq<nat>)
    requires forall k | 0 <= k < |requests| :: requests[k] in stack
    ensures |a| == |requests|
    decreases |requests|
  {
    if requests == [] then []
    else
      var next := MoveToTop(stack, requests[0]);
      assert forall k | 0 <= k < |requests[1..]| :: requests[1..][k] in multiset(next);
      [IndexOf(stack, requests[0])] + Answers(next, requests[1..])
  }

  /** Answering request t of the rest: its depth, then the answers from the stack with it moved to the top. */
  lemma AnswersStep(stack: seq<nat>, requests: seq<nat>, t: nat)
    requires t < |requests| && forall k | t <= k < |requests| :: requests[k] in stack
    ensures requests[t] in stack && forall k | t + 1 <= k < |requests| :: requests[k] in MoveToTop(stack, requests[t])
    ensures Answers(stack, requests[t..])
         == [IndexOf(stack, requests[t])] + Answers(MoveToTop(stack, requests[t]), requests[t + 1..])
  {
    var next := MoveToTop(stack, requests[t]);
    forall k | t + 1 <= k < |requests|
      ensures requests[k] in next
    {
      assert requests[k] in multiset(stack);
    }
    assert requests[t..][0] == requests[t] && requests[t..][1..] == requests[t + 1..];
  }

  /** The slot of each movie of the stack, in stack order. */
  function SlotsOf(stack: seq<nat>, index: seq<int>): (s: seq<int>)
    requires forall q | 0 <= q < |stack| :: 1 <= stack[q] <= |index|
    ensures |s| == |stack|
  {
    seq(|stack|, q requires 0 <= q < |stack| => index[stack[q] - 1])
  }

  ghost predicate Decreasing(s: seq<int>)
  {
    forall a, b | 0 <= a < b < |s| :: s[a] > s[b]
  }

  /** In a strictly decreasing s bounded by hi, exactly the p elements before s[p] are above it. */
  lemma {:induction false} DecreasingCount(s: seq<int>, p: nat, hi: int)
    requires Decreasing(s) && p < |s| && forall q | 0 <= q < |s| :: s[q] <= hi
    ensures CountWithin(s, s[p] + 1, hi) == p
  {
    if p == 0 {
      NoneWithin(s[1..], s[0] + 1, hi);
    } else {
      assert s[1..][p - 1] == s[p];
      DecreasingCount(s[1..], p - 1, hi);
    }
  }

  lemma {:induction false} NoneWithin(s: seq<int>, lo: int, hi: int)
    requires forall q | 0 <= q < |s| :: s[q] < lo
    ensures CountWithin(s, lo, hi) == 0
  {
    if s != [] {
      NoneWithin(s[1..], lo, hi);
    }
  }

  lemma {:induction false} AllWithin(s: seq<int>, lo: int, hi: int)
    requires forall q | 0 <= q < |s| :: lo <= s[q] <= hi
    ensures CountWithin(s, lo, hi) == |s|
  {
    if s != [] {
      AllWithin(s[1..], lo, hi);
    }
  }

  /** An element of a strictly decreasing sequence occurs in it once. */
  lemma DecreasingOnce(s: seq<int>, p: nat)
    requires Decreasing(s) && p < |s|
    ensures multiset(s)[s[p]] == 1
  {
    assert s == s[..p] + [s[p]] + s[p + 1..];
    assert s[p] !in s[..p];
    assert s[p] !in s[p + 1..];
  }

  /** The slots of a strictly decreasing s are each taken at most once. */
  lemma DecreasingAtMostOnce(s: seq<int>, x: int)
    requires Decreasing(s)
    ensures multiset(s)[x] <= 1
  {
    if x in s {
      var p :| 0 <= p < |s| && s[p] == x;
      DecreasingOnce(s, p);
    }
  }

  /** The slots `new` fills: m - 1 down to 0, each once. */
  lemma {:induction false} CountDown(m: nat, x: int)
    ensures multiset(seq(m, q => m - 1 - q))[x] == if 0 <= x < m then 1 else 0
  {
    if m > 0 {
      assert seq(m, q => m - 1 - q) == [m - 1] + seq(m - 1, q => m - 2 - q);
      CountDown(m - 1, x);
    }
  }

  /**
   * The program's state stands for the stack: the movies' slots, top first,
   * strictly decrease and lie below ptr, and leaf x of the tree counts the
   * movies in slot x.
   */
  ghost predicate Consistent(stack: seq<nat>, index: seq<int>, ptr: int, m: nat, leaves: seq<int>)
  {
    |index| == m && |stack| == m && multiset(stack) == multiset(Initial(m)) &&
    (forall q | 0 <= q < m :: 1 <= stack[q] <= m) &&
    (forall a | 0 <= a < m :: 0 <= index[a] < ptr) &&
    Decreasing(SlotsOf(stack, index)) &&
    (forall x | 0 <= x < |leaves| :: leaves[x] == multiset(SlotsOf(stack, index))[x])
  }

  /** Every movie 1 ..= m is on the stack. */
  lemma OnStack(stack: seq<nat>, m: nat, x: nat)
    requires multiset(stack) == multiset(Initial(m)) && 1 <= x <= m
    ensures x in stack
  {
    assert Initial(m)[x - 1] == x;
    assert x in multiset(Initial(m));
  }

  /** The state lines 73-75 of `solve` set up stands for the initial stack. */
  lemma Start(m: nat, leaves: seq<int>)
    requires m <= |leaves| && forall x | 0 <= x < |leaves| :: leaves[x] == if x < m then 1 else 0
    ensures Consistent(Initial(m), seq(m, q => m - 1 - q), m, m, leaves)
  {
    var index := seq(m, q => m - 1 - q);
    assert SlotsOf(Initial(m), index) == index;
    forall x | 0 <= x < |leaves|
      ensures leaves[x] == multiset(index)[x]
    {
      CountDown(m, x);
    }
  }

  /** A consistent state answers req with its depth in the stack. */
  lemma Depth(stack: seq<nat>, index: seq<int>, ptr: int, m: nat, leaves: seq<int>, req: nat, cap: nat)
    requires Consistent(stack, index, ptr, m, leaves) && 1 <= req <= m && ptr <= cap <= |leaves|
    ensures req in stack && 0 <= index[req - 1] < ptr
    ensures RangeSum(leaves, index[req - 1] + 1, cap) == IndexOf(stack, req)
  {
    OnStack(stack, m, req);
    var pos := IndexOf(stack, req);
    var slots := SlotsOf(stack, index);
    assert slots[pos] == index[req - 1];
    HistogramSum(leaves, slots, index[req - 1] + 1, cap);
    DecreasingCount(slots, pos, cap);
  }

  /** Serving req (slot freed, fresh slot ptr taken, req on top) keeps the state consistent. */
  lemma Served(stack: seq<nat>, index: seq<int>, ptr: int, m: nat, leaves: seq<int>, req: nat)
    requires Consistent(stack, index, ptr, m, leaves) && 1 <= req <= m && ptr < |leaves|
    ensures req in stack && 0 <= index[req - 1] < ptr
    ensures Consistent(MoveToTop(stack, req), index[req - 1 := ptr], ptr + 1, m, leaves[index[req - 1] := 0][ptr := 1])
  {
    OnStack(stack, m, req);
    var pos := IndexOf(stack, req);
    var slots := SlotsOf(stack, index);
    assert slots[pos] == index[req - 1];
    StackSlots(stack, index, req, pos, ptr);
    Moved(slots, leaves, pos, ptr, leaves[index[req - 1] := 0][ptr := 1]);
    var s1 := MoveToTop(stack, req);
    assert s1 == [req] + stack[..pos] + stack[pos + 1..];
  }

  /**
   * The tree side of the request loop of `solve` before request t: the
   * fresh slot is m + t, the tree has a leaf for every slot the requests
   * can take and for every slot up to m + r, and the state is consistent.
   */
  ghost predicate Slots(stack: seq<nat>, index: seq<int>, ptr: nat, leaves: seq<int>, m: nat, r: nat,
                        requests: seq<nat>, t: nat)
  {
    m + r <= |leaves| && m + |requests| <= |leaves| && ptr == m + t &&
    Consistent(stack, index, ptr, m, leaves)
  }

  /**
   * The answers of the request loop of `solve` before request t: the depths
   * so far (truth) followed by the answers still to come are all the
   * answers, and the answers written agree with the depths for the requests
   * t <= r, served while the fresh slot m + t was at most m + r, the end of
   * the range `query` counts.
   */
  ghost predicate Serving(stack: seq<nat>, r: nat, requests: seq<nat>, t: nat,
                          result: seq<int>, truth: seq<nat>, all: seq<nat>)
  {
    t <= |requests| && (forall k | t <= k < |requests| :: requests[k] in stack) &&
    |result| == |truth| == t && truth + Answers(stack, requests[t..]) == all &&
    (forall j | 0 <= j < t && j <= r :: result[j] == truth[j])
  }

  /** Before the first request nothing is written and all the answers are still to come. */
  lemma ServingStart(stack: seq<nat>, r: nat, requests: seq<nat>)
    requires forall k | 0 <= k < |requests| :: requests[k] in stack
    ensures Serving(stack, r, requests, 0, [], [], Answers(stack, requests))
  {
    assert requests[0..] == requests;
  }

  /**
   * Serving request t: its depth joins the truth, and the answer written
   * matches it when t <= r.
   */
  lemma ServingStep(stack: seq<nat>, r: nat, requests: seq<nat>, t: nat,
                    result: seq<int>, truth: seq<nat>, all: seq<nat>, above: int)
    requires Serving(stack, r, requests, t, result, truth, all) && t < |requests|
    requires t <= r ==> requests[t] in stack && above == IndexOf(stack, requests[t])
    ensures requests[t] in stack
    ensures Serving(MoveToTop(stack, requests[t]), r, requests, t + 1,
                    result + [above], truth + [IndexOf(stack, requests[t])], all)
  {
    var req := requests[t];
    var d := IndexOf(stack, req);
    AnswersStep(stack, requests, t);
    Regroup(truth, d, Answers(MoveToTop(stack, req), requests[t + 1..]), all);
    Agree(result, truth, above, d, r);
  }

  lemma Regroup(truth: seq<nat>, d: nat, rest: seq<nat>, all: seq<nat>)
    requires truth + ([d] + rest) == all
    ensures (truth + [d]) + rest == all
  {
    assert (truth + [d]) + rest == truth + ([d] + rest);
  }

  lemma Agree(result: seq<int>, truth: seq<nat>, above: int, d: nat, r: nat)
    requires |result| == |truth| && forall j | 0 <= j < |truth| && j <= r :: result[j] == truth[j]
    requires |truth| <= r ==> above == d
    ensures forall j | 0 <= j < |truth| + 1 && j <= r :: (result + [above])[j] == (truth + [d])[j]
  {
    forall j | 0 <= j < |truth| + 1 && j <= r
      ensures (result + [above])[j] == (truth + [d])[j]
    {
      if j < |truth| {
        assert (result + [above])[j] == result[j] && (truth + [d])[j] == truth[j];
      }
    }
  }

  /** After the last request the answers written agree with all the depths for every t <= r. */
  lemma ServingDone(stack: seq<nat>, r: nat, requests: seq<nat>, result: seq<int>, truth: seq<nat>, all: seq<nat>)
    requires Serving(stack, r, requests, |requests|, result, truth, all)
    ensures |result| == |all| == |requests|
    ensures forall t | 0 <= t < |requests| && t <= r :: result[t] == all[t]
    ensures |requests| <= r + 1 ==> result == all
  {
    assert requests[|requests|..] == [];
  }

  /** Every slot holds 0 or 1, and exactly m hold 1. */
  lemma Ones(stack: seq<nat>, index: seq<int>, ptr: int, m: nat, leaves: seq<int>)
    requires Consistent(stack, index, ptr, m, leaves) && ptr <= |leaves|
    ensures forall x | 0 <= x < |leaves| :: leaves[x] == 0 || leaves[x] == 1
    ensures Sum(leaves) == m
  {
    var slots := SlotsOf(stack, index);
    forall x | 0 <= x < |leaves|
      ensures leaves[x] == 0 || leaves[x] == 1
    {
      DecreasingAtMostOnce(slots, x);
    }
    HistogramSum(leaves, slots, 0, |leaves|);
    AllWithin(slots, 0, |leaves|);
    WithinInside(leaves, 0, 0, |leaves|);
  }

  /** The slots of distinct movies differ. */
  lemma Distinct(stack: seq<nat>, index: seq<int>, ptr: int, m: nat, leaves: seq<int>)
    requires Consistent(stack, index, ptr, m, leaves)
    ensures forall a, b | 0 <= a < b < m :: index[a] != index[b]
  {
    var slots := SlotsOf(stack, index);
    forall a, b | 0 <= a < b < m
      ensures index[a] != index[b]
    {
      OnStack(stack, m, a + 1);
      OnStack(stack, m, b + 1);
      var qa := IndexOf(stack, a + 1);
      var qb := IndexOf(stack, b + 1);
      assert slots[qa] == index[a] && slots[qb] == index[b];
    }
  }
  /**
   * The tree after the two `set` calls is the histogram of the new slots:
   * slot p freed, fresh slot ptr taken.
   */
  lemma Moved(slots: seq<int>, leaves: seq<int>, pos: nat, ptr: int, after: seq<int>)
    requires Decreasing(slots) && pos < |slots| && 0 <= slots[pos] < ptr < |leaves|
    requires forall q | 0 <= q < |slots| :: slots[q] < ptr
    requires forall x | 0 <= x < |leaves| :: leaves[x] == multiset(slots)[x]
    requires after == leaves[slots[pos] := 0][ptr := 1]
    ensures Decreasing([ptr] + slots[..pos] + slots[pos + 1..])
    ensures forall x | 0 <= x < |after| :: after[x] == multiset([ptr] + slots[..pos] + slots[pos + 1..])[x]
  {
    DecreasingOnce(slots, pos);
    assert slots == slots[..pos] + [slots[pos]] + slots[pos + 1..];
    assert ptr !in slots;
  }

  /**
   * Moving req to the top, with the fresh slot ptr as its new slot, puts ptr
   * first and keeps the other movies' slots in order.
   */
  lemma StackSlots(s0: seq<nat>, i0: seq<int>, req: nat, pos: nat, ptr: int)
    requires pos < |s0| && s0[pos] == req && 1 <= req <= |i0|
    requires forall q | 0 <= q < |s0| :: 1 <= s0[q] <= |i0|
    requires Decreasing(SlotsOf(s0, i0))
    ensures var s1 := [req] + s0[..pos] + s0[pos + 1..];
      (forall q | 0 <= q < |s1| :: 1 <= s1[q] <= |i0|) &&
      SlotsOf(s1, i0[req - 1 := ptr]) == [ptr] + SlotsOf(s0, i0)[..pos] + SlotsOf(s0, i0)[pos + 1..]
  {
    var s1 := [req] + s0[..pos] + s0[pos + 1..];
    var P0 := SlotsOf(s0, i0);
    var i1 := i0[req - 1 := ptr];
    forall q | 0 <= q < |s1|
      ensures 1 <= s1[q] <= |i0|
      ensures q > 0 ==> i1[s1[q] - 1] == ([ptr] + P0[..pos] + P0[pos + 1..])[q]
    {
      if 0 < q <= pos {
        assert s1[q] == s0[q - 1];
        assert P0[q - 1] > P0[pos];
      } else if q > pos {
        assert s1[q] == s0[q];
        assert P0[pos] > P0[q];
      }
    }
  }
}
