/*
 * src/tiredterry.rs: Terry's day repeats an n-minute pattern of sleeping
 * ('Z') and waking minutes; a minute counts as tired when fewer than d of
 * the p minutes ending with it, wrapping round the pattern, were spent
 * asleep.
 */
module TiredTerry {
  import opened NumberTheory

  /** 1 for a sleeping minute, 0 for a waking one. */
  function Z(c: char): nat
  {
    if c == 'Z' then 1 else 0
  }

  /** The marks of the minutes of s. */
  function Marks(s: string): (t: seq<nat>)
    ensures |t| == |s| && forall k | 0 <= k < |s| :: t[k] == Z(s[k])
  {
    if s == [] then [] else [Z(s[0])] + Marks(s[1..])
  }

  /**
   * `time_period`: the pattern's marks repeated (`cycle`) and cut after m
   * minutes (`take`), so minute j is pattern minute j mod the pattern's length.
   */
  function TimePeriod(line: string, m: nat): (tp: seq<nat>)
    requires |line| >= 1
    ensures |tp| == m && forall j | 0 <= j < m :: tp[j] == Z(line[j % |line|])
    decreases m
  {
    if m <= |line| then
      Cycled(line, m, Marks(line[..m]), []);
      Marks(line[..m])
    else
      var rest := TimePeriod(line, m - |line|);
      Cycled(line, m, Marks(line), rest);
      Marks(line) + rest
  }

  /** One more copy in front: position j reads where j - |line| read. */
  lemma Cycled(line: string, m: nat, head: seq<nat>, rest: seq<nat>)
    requires |line| >= 1 && |head| <= |line| && (|head| < |line| ==> rest == []) && |head| + |rest| == m
    requires forall k | 0 <= k < |head| :: head[k] == Z(line[k])
    requires forall j | 0 <= j < |rest| :: rest[j] == Z(line[j % |line|])
    ensures forall j | 0 <= j < m :: (head + rest)[j] == Z(line[j % |line|])
  {
    forall j | 0 <= j < m
      ensures (head + rest)[j] == Z(line[j % |line|])
    {
      if j < |head| {
        ModUnique(j, |line|, 0, j);
      } else {
        ModShift(j - |line|, 1, |line|);
      }
    }
  }

  /** The minutes asleep among the p minutes ending with minute i of the pattern, wrapping round. */
  function Asleep(line: string, i: int, p: nat): nat
    requires |line| >= 1
  {
    if p == 0 then 0 else Z(line[(i - (p - 1)) % |line|]) + Asleep(line, i, p - 1)
  }

  /** The number of tired minutes among the first i minutes of the pattern. */
  function Tired(line: string, i: nat, p: nat, d: nat): nat
    requires |line| >= 1
  {
    if i == 0 then 0 else Tired(line, i - 1, p, d) + (if Asleep(line, i - 1, p) < d then 1 else 0)
  }

  /** `iter().sum()` */
  function Sum(s: seq<nat>): nat
  {
    if s == [] then 0 else s[0] + Sum(s[1..])
  }

  /** The marks of the p positions of tp ending with e. */
  function Window(tp: seq<nat>, e: int, p: nat): nat
    requires p <= e + 1 <= |tp|
  {
    if p == 0 then 0 else tp[e - (p - 1)] + Window(tp, e, p - 1)
  }

  /** The slice the program sums first is a window. */
  lemma {:induction false} SumWindow(tp: seq<nat>, e: int, p: nat)
    requires p <= e + 1 <= |tp|
    ensures Sum(tp[e + 1 - p..e + 1]) == Window(tp, e, p)
  {
    if p > 0 {
      assert tp[e + 1 - p..e + 1][1..] == tp[e + 1 - (p - 1)..e + 1];
      SumWindow(tp, e, p - 1);
    }
  }

  /**
   * Sliding the window one position drops its oldest mark and takes the
   * new one; the oldest mark is part of the window, so the drop never
   * goes below zero.
   */
  lemma {:induction false} Slide(tp: seq<nat>, e: int, p: nat)
    requires 1 <= p <= e + 1 && e + 2 <= |tp|
    ensures Window(tp, e, p) >= tp[e + 1 - p]
    ensures Window(tp, e + 1, p) == Window(tp, e, p) - tp[e + 1 - p] + tp[e + 1]
  {
    if p > 1 {
      Slide(tp, e, p - 1);
    }
  }

  /** A window of marks of 0 or 1 holds at most p. */
  lemma {:induction false} WindowBound(tp: seq<nat>, e: int, p: nat)
    requires p <= e + 1 <= |tp| && forall j | 0 <= j < |tp| :: tp[j] <= 1
    ensures Window(tp, e, p) <= p
  {
    if p > 0 {
      WindowBound(tp, e, p - 1);
    }
  }

  /** Position j of tp marks minute j mod the pattern's length. */
  predicate Periodic(line: string, tp: seq<nat>)
    requires |line| >= 1
  {
    forall j | 0 <= j < |tp| :: tp[j] == Z(line[j % |line|])
  }

  /** The window of the doubled time period ending at i + n is Terry's sleep before minute i. */
  lemma {:induction false} WindowAsleep(line: string, tp: seq<nat>, i: nat, p: nat)
    requires |line| >= 1 && |tp| == 2 * |line| && i < |line| && p <= |line| && Periodic(line, tp)
    ensures Window(tp, i + |line|, p) == Asleep(line, i, p)
  {
    if p > 0 {
      WindowAsleep(line, tp, i, p - 1);
      ModShift(i - (p - 1), 1, |line|);
    }
  }

  /** The sleep before minute i is one of 0 ..= p. */
  lemma {:induction false} AsleepBound(line: string, i: int, p: nat)
    requires |line| >= 1
    ensures Asleep(line, i, p) <= p
  {
    if p > 0 {
      AsleepBound(line, i, p - 1);
    }
  }

  /**
   * One pass of the loop: the marks the program drops and adds turn the
   * sleep before minute i - 1 into the sleep before minute i, and the
   * dropped mark is part of the former.
   */
  lemma Advance(line: string, tp: seq<nat>, i: nat, p: nat)
    requires 1 <= p <= |line| && i < |line| && |tp| == 2 * |line| && Periodic(line, tp)
    ensures Asleep(line, i - 1, p) >= tp[i + |line| - p]
    ensures Asleep(line, i, p) == Asleep(line, i - 1, p) - tp[i + |line| - p] + tp[i + |line|]
  {
    var n := |line|;
    Slide(tp, i + n - 1, p);
    WindowAsleep(line, tp, i, p);
    if i == 0 {
      WindowEnd(line, tp, p);
    } else {
      WindowAsleep(line, tp, i - 1, p);
    }
  }

  /** The window the program sums first, ending at n - 1, is the sleep before minute -1. */
  lemma WindowEnd(line: string, tp: seq<nat>, p: nat)
    requires 1 <= p <= |line| && |tp| == 2 * |line| && Periodic(line, tp)
    ensures Window(tp, |line| - 1, p) == Asleep(line, -1, p)
  {
    WindowAsleepBelow(line, tp, p, p);
  }

  lemma {:induction false} WindowAsleepBelow(line: string, tp: seq<nat>, p: nat, q: nat)
    requires 1 <= p <= |line| && q <= p && |tp| == 2 * |line| && Periodic(line, tp)
    ensures Window(tp, |line| - 1, q) == Asleep(line, -1, q)
  {
    if q > 0 {
      WindowAsleepBelow(line, tp, p, q - 1);
      ModShift(-1 - (q - 1), 1, |line|);
      assert |line| - 1 - (q - 1) == -1 - (q - 1) + 1 * |line|;
    }
  }

  /** Line 15 of `solve`: the time period, as far as the loop reads it. */
  method Pattern(line: string, m: nat) returns (tp: seq<nat>)
    requires |line| >= 1
    ensures |tp| == m && Periodic(line, tp)
  {
    tp := TimePeriod(line, m);
  }

  /**
   * `solve`: the number of minutes of the pattern at which fewer than d of
   * the last p minutes were slept.
   */
  method CountTired(n: nat, p: nat, d: nat, line: string) returns (count: nat)
    requires 1 <= p <= n && |line| == n
    ensures count == Tired(line, n, p, d) && count <= n
  {
    var timePeriod := Pattern(line, n * 2);
    var slept: nat := Sum(timePeriod[n - p..n]);
    SumWindow(timePeriod, n - 1, p);
    WindowEnd(line, timePeriod, p);
    count := 0;
    for i := 0 to n
      invariant slept == Asleep(line, i - 1, p)
      invariant count == Tired(line, i, p, d) && count <= i
    {
      Advance(line, timePeriod, i, p);
      slept := slept - timePeriod[(i + n) - p];
      slept := slept + timePeriod[i + n];
      if slept < d {
        count := count + 1;
      }
    }
    AsleepBound(line, n - 1, p);
  }
}
