/*
 * The ledger of src/bokforing.rs: n people, each with an amount, a SET query
 * for one person, a PRINT query for one person, and a RESTART query that
 * gives everybody the same amount.  RESTART is lazy: it records only when it
 * happened and the amount, and a person's entry is brought up to date when
 * it is printed.
 */
module Bokforing {

  /** One query: `SET person value`, `PRINT person` or `RESTART value`. */
  datatype Query = SetQuery(person: nat, value: int) | PrintQuery(person: nat) | RestartQuery(value: int)

  /** q gives person x a new amount. */
  predicate Writes(q: Query, x: nat)
  {
    (q.SetQuery? && q.person == x) || q.RestartQuery?
  }

  /** The amount person x holds after the queries h, from the start where everybody holds 0. */
  function Current(h: seq<Query>, x: nat): int
  {
    if h == [] then 0
    else
      match h[|h| - 1]
      case SetQuery(y, v) => if y == x then v else Current(h[..|h| - 1], x)
      case PrintQuery(_) => Current(h[..|h| - 1], x)
      case RestartQuery(v) => v
  }

  /** What the PRINT queries among h write, in order. */
  function Outputs(h: seq<Query>): seq<int>
  {
    if h == [] then []
    else
      var prefix := h[..|h| - 1];
      Outputs(prefix) + (if h[|h| - 1].PrintQuery? then [Current(prefix, h[|h| - 1].person)] else [])
  }

  /** Every person a query names is one of 1 ..= n. */
  predicate People(h: seq<Query>, n: nat)
  {
    forall k | 0 <= k < |h| :: !h[k].RestartQuery? ==> 1 <= h[k].person <= n
  }

  /**
   * The amount is that of the last SET for x after the latest RESTART, else
   * that RESTART's amount.
   */
  lemma {:induction false} CurrentLast(h: seq<Query>, x: nat, k: nat)
    requires k < |h| && Writes(h[k], x)
    requires forall j | k < j < |h| :: !Writes(h[j], x)
    ensures Current(h, x) == h[k].value
  {
    if k < |h| - 1 {
      assert !Writes(h[|h| - 1], x);
      CurrentLast(h[..|h| - 1], x, k);
    }
  }

  /** With no SET for x and no RESTART at all, the amount is 0. */
  lemma {:induction false} CurrentNone(h: seq<Query>, x: nat)
    requires forall j | 0 <= j < |h| :: !Writes(h[j], x)
    ensures Current(h, x) == 0
  {
    if h != [] {
      assert !Writes(h[|h| - 1], x);
      CurrentNone(h[..|h| - 1], x);
    }
  }

  /** A PRINT changes nobody's amount, so printing twice writes the same amount twice. */
  lemma PrintTwice(h: seq<Query>, x: nat)
    ensures Outputs(h + [PrintQuery(x), PrintQuery(x)]) == Outputs(h) + [Current(h, x), Current(h, x)]
  {
    var h1 := h + [PrintQuery(x)];
    var h2 := h1 + [PrintQuery(x)];
    assert h + [PrintQuery(x), PrintQuery(x)] == h2;
    assert h2[..|h2| - 1] == h1 && h1[..|h1| - 1] == h;
    assert Current(h1, x) == Current(h, x);
  }

  /** The amount a PRINT of entry e shows when the latest RESTART was query lr with amount lrv. */
  function Shown(e: (int, int), lr: int, lrv: int): int
  {
    if e.1 < lr then lrv else e.0
  }

  /**
   * The ledger's state after the queries h: each entry holds an amount and
   * the RESTART it was written after, no later than the latest one, and
   * shows the person's current amount.
   */
  ghost predicate Tracks(people: seq<(int, int)>, lr: int, lrv: int, h: seq<Query>)
  {
    0 <= lr && (h == [] ==> lr == 0 && lrv == 0) && (h != [] ==> lr < |h|) &&
    forall x | 0 <= x < |people| ::
      -1 <= people[x].1 <= lr && (h == [] ==> people[x].1 == -1) &&
      Shown(people[x], lr, lrv) == Current(h, x + 1)
  }

  /** A SET stamped with the latest RESTART keeps the ledger in step. */
  lemma TrackSet(people: seq<(int, int)>, lr: int, lrv: int, h: seq<Query>, x: nat, v: int)
    requires Tracks(people, lr, lrv, h) && 1 <= x <= |people|
    ensures Tracks(people[x - 1 := (v, lr)], lr, lrv, h + [SetQuery(x, v)])
  {
    var h' := h + [SetQuery(x, v)];
    var people' := people[x - 1 := (v, lr)];
    assert h'[..|h'| - 1] == h && h'[|h'| - 1] == SetQuery(x, v);
    forall y | 0 <= y < |people'|
      ensures Shown(people'[y], lr, lrv) == Current(h', y + 1)
    {
      if y != x - 1 {
        assert people'[y] == people[y];
      }
    }
  }

  /** Bringing a stale entry up to date on PRINT keeps the ledger in step. */
  lemma TrackPrint(people: seq<(int, int)>, lr: int, lrv: int, h: seq<Query>, x: nat)
    requires Tracks(people, lr, lrv, h) && 1 <= x <= |people|
    ensures var people' := if people[x - 1].1 < lr then people[x - 1 := (lrv, lr)] else people;
      Tracks(people', lr, lrv, h + [PrintQuery(x)]) && people'[x - 1].1 >= lr &&
      people'[x - 1].0 == Current(h, x)
  {
    var h' := h + [PrintQuery(x)];
    assert h'[..|h'| - 1] == h;
  }

  /** A RESTART as query |h| leaves every entry stale, showing its amount. */
  lemma TrackRestart(people: seq<(int, int)>, lr: int, lrv: int, h: seq<Query>, v: int)
    requires Tracks(people, lr, lrv, h)
    ensures Tracks(people, |h|, v, h + [RestartQuery(v)])
  {
    var h' := h + [RestartQuery(v)];
    assert h'[..|h'| - 1] == h;
  }

  class Ledger {
    /** Per person: the amount and the index of the RESTART it was written after. */
    var people: seq<(int, int)>
    var lastRestart: int
    var lastRestartV: int
    /** The queries answered so far. */
    ghost var History: seq<Query>

    ghost predicate Valid()
      reads this
    {
      Tracks(people, lastRestart, lastRestartV, History)
    }

    /** `vec![(0, -1); n]` and no RESTART yet. */
    constructor (n: nat)
      ensures Valid() && History == []
      ensures people == seq(n, _ => (0, -1)) && lastRestart == 0 && lastRestartV == 0
    {
      people := seq(n, _ => (0, -1));
      lastRestart := 0;
      lastRestartV := 0;
      History := [];
    }

    /** `SET x v`: the entry takes v, stamped with the latest RESTART. */
    method Set(x: nat, v: int)
      requires Valid() && 1 <= x <= |people|
      modifies this
      ensures Valid() && History == old(History) + [SetQuery(x, v)]
      ensures people == old(people)[x - 1 := (v, lastRestart)]
      ensures lastRestart == old(lastRestart) && lastRestartV == old(lastRestartV)
    {
      TrackSet(people, lastRestart, lastRestartV, History, x, v);
      people := people[x - 1 := (v, lastRestart)];
      History := History + [SetQuery(x, v)];
    }

    /**
     * `PRINT x`: the person's current amount; an entry older than
     * the latest RESTART is first brought up to date.
     */
    method Print(x: nat) returns (out: int)
      requires Valid() && 1 <= x <= |people|
      modifies this
      ensures Valid() && History == old(History) + [PrintQuery(x)]
      ensures out == Current(old(History), x)
      ensures |people| == old(|people|) && lastRestart == old(lastRestart) && lastRestartV == old(lastRestartV)
      ensures people[x - 1].1 >= lastRestart && people[x - 1].0 == out
      ensures forall y | 0 <= y < |people| && y != x - 1 :: people[y] == old(people[y])
    {
      TrackPrint(people, lastRestart, lastRestartV, History, x);
      if people[x - 1].1 < lastRestart {
        people := people[x - 1 := (lastRestartV, lastRestart)];
      }
      out := people[x - 1].0;
      History := History + [PrintQuery(x)];
    }

    /** Query i, `RESTART v`: only the time and amount of the latest RESTART change. */
    method Restart(i: nat, v: int)
      requires Valid() && i == |History|
      modifies this
      ensures Valid() && History == old(History) + [RestartQuery(v)]
      ensures people == old(people) && lastRestart == i && lastRestartV == v
    {
      TrackRestart(people, lastRestart, lastRestartV, History, v);
      lastRestart := i;
      lastRestartV := v;
      History := History + [RestartQuery(v)];
    }
  }

  /** One query of the loop of `solve`: what it writes, nothing unless it is a PRINT. */
  method Answer(ledger: Ledger, i: nat, q: Query) returns (shown: seq<int>)
    requires ledger.Valid() && i == |ledger.History|
    requires !q.RestartQuery? ==> 1 <= q.person <= |ledger.people|
    modifies ledger
    ensures ledger.Valid() && ledger.History == old(ledger.History) + [q] && |ledger.people| == old(|ledger.people|)
    ensures Outputs(ledger.History) == Outputs(old(ledger.History)) + shown
  {
    ghost var h := ledger.History;
    assert (h + [q])[..|h|] == h;
    match q
    case SetQuery(x, v) =>
      ledger.Set(x, v);
      shown := [];
    case PrintQuery(x) =>
      var amount := ledger.Print(x);
      shown := [amount];
    case RestartQuery(v) =>
      ledger.Restart(i, v);
      shown := [];
  }

  /** The query loop of `solve`: the amounts the PRINT queries write. */
  method Solve(n: nat, queries: seq<Query>) returns (out: seq<int>)
    requires People(queries, n)
    ensures out == Outputs(queries)
  {
    var ledger := new Ledger(n);
    out := [];
    for i := 0 to |queries|
      invariant ledger.Valid() && ledger.History == queries[..i] && |ledger.people| == n
      invariant out == Outputs(queries[..i])
    {
      assert queries[..i + 1] == queries[..i] + [queries[i]];
      var shown := Answer(ledger, i, queries[i]);
      out := out + shown;
    }
    assert queries[..|queries|] == queries;
  }
}
