/** The process table of the scheduling simulator (main.c).

    Each row carries the two input columns (arrival time and computation time, here `burst`)
    and the two columns every scheduler rewrites on its private copy of the table
    (`remaining` and `completion`). This module also holds the accounting invariant that the
    preemptive and the non-preemptive schedulers share, and the one primitive that serves a
    process for a number of time units. */
module Table {

  /** One row of the table; `burst` is the source's computationTime. */
  datatype Proc = Proc(arrival: int, burst: int, remaining: int, completion: int)

  /** The working state of a scheduler loop: the table copy, the clock, the completion
      counter and the stack or queue of row indices (an unbounded sequence). */
  datatype Sim = Sim(table: seq<Proc>, clock: int, completed: int, waiting: seq<nat>)

  /** The outcome of one pass through a scheduler's while loop: carry on from the next state,
      or leave the loop (the source's `break`) in the given state. */
  datatype Turn = Go(next: Sim) | Stop(last: Sim)
  {
    function State(): Sim
    {
      match this
      case Go(n) => n
      case Stop(l) => l
    }
  }

  function Max(a: int, b: int): int
  {
    if a < b then b else a
  }

  /** A row as the input loader builds it: nothing served, no completion recorded. */
  function Load(arrival: int, burst: int): Proc
  {
    Proc(arrival, burst, burst, 0)
  }

  predicate Fresh(p: Proc)
  {
    p.remaining == p.burst && p.completion == 0
  }

  /** Every row is as the loader left it. */
  predicate Loaded(t: seq<Proc>)
  {
    forall i :: 0 <= i < |t| ==> Fresh(t[i])
  }

  predicate PositiveBursts(t: seq<Proc>)
  {
    forall i :: 0 <= i < |t| ==> t[i].burst > 0
  }

  /** Two tables describe the same jobs row by row: same arrival and computation times. */
  predicate SameJobs(a: seq<Proc>, b: seq<Proc>)
  {
    |a| == |b| && forall i :: 0 <= i < |a| ==> a[i].arrival == b[i].arrival && a[i].burst == b[i].burst
  }

  /** The readiness test every scan of main.c uses: arrived and not finished. */
  predicate Ready(p: Proc, clock: int)
  {
    p.arrival <= clock && p.remaining > 0
  }

  predicate IndicesIn(q: seq<nat>, n: nat)
  {
    forall k :: 0 <= k < |q| ==> q[k] < n
  }

  predicate Distinct(q: seq<nat>)
  {
    forall k, l :: 0 <= k < l < |q| ==> q[k] != q[l]
  }

  /** Number of rows whose remaining time is zero. */
  function CountFinished(t: seq<Proc>): nat
  {
    if |t| == 0 then 0 else (if t[0].remaining == 0 then 1 else 0) + CountFinished(t[1..])
  }

  /** Total outstanding work: the sum of the positive remaining times. */
  function Work(t: seq<Proc>): nat
  {
    if |t| == 0 then 0 else Max(t[0].remaining, 0) + Work(t[1..])
  }

  /** A row is accounted for at time `clock` when its remaining time lies in [0, burst], the
      time it has been served fits between its arrival and the clock, a completion time is
      recorded exactly when nothing remains, and that completion is at least arrival + burst. */
  predicate Accounted(p: Proc, clock: int)
  {
    && 0 <= p.remaining <= p.burst
    && (p.remaining < p.burst ==> p.arrival + (p.burst - p.remaining) <= clock)
    && (p.remaining == 0 ==> p.completion >= p.arrival + p.burst)
    && (p.remaining > 0 ==> p.completion == 0)
  }

  predicate Consistent(t: seq<Proc>, clock: int)
  {
    forall i :: 0 <= i < |t| ==> Accounted(t[i], clock)
  }

  /** Run row i for d time units starting at `clock`; when its remaining time reaches zero the
      completion time clock + d is recorded. Every execution step of LCFS-P, RR and SJF is one. */
  function Serve(t: seq<Proc>, i: nat, clock: int, d: int): (r: seq<Proc>)
    requires i < |t|
    ensures SameJobs(r, t) && forall k :: 0 <= k < |t| && k != i ==> r[k] == t[k]
    ensures r[i].remaining == t[i].remaining - d
    ensures r[i].completion == (if r[i].remaining == 0 then clock + d else t[i].completion)
  {
    var left := t[i].remaining - d;
    t[i := t[i].(remaining := left, completion := if left == 0 then clock + d else t[i].completion)]
  }

  /** Record row i as finished at time c, whatever it had left (the LCFS-NP pop). */
  function Complete(t: seq<Proc>, i: nat, c: int): seq<Proc>
    requires i < |t|
  {
    t[i := t[i].(remaining := 0, completion := c)]
  }

  lemma {:induction false} CountFinishedAtMost(t: seq<Proc>)
    ensures CountFinished(t) <= |t|
    ensures CountFinished(t) == |t| ==> forall i :: 0 <= i < |t| ==> t[i].remaining == 0
  {
    if |t| > 0 {
      CountFinishedAtMost(t[1..]);
      assert forall i :: 1 <= i < |t| ==> t[i] == t[1..][i - 1];
    }
  }

  lemma {:induction false} CountFinishedAll(t: seq<Proc>)
    requires forall i :: 0 <= i < |t| ==> t[i].remaining == 0
    ensures CountFinished(t) == |t|
  {
    if |t| > 0 {
      assert forall i :: 1 <= i < |t| ==> t[1..][i - 1] == t[i];
      CountFinishedAll(t[1..]);
    }
  }

  lemma {:induction false} CountFinishedUpdate(t: seq<Proc>, i: nat, p: Proc)
    requires i < |t|
    ensures CountFinished(t[i := p]) + (if t[i].remaining == 0 then 1 else 0)
         == CountFinished(t) + (if p.remaining == 0 then 1 else 0)
  {
    if i > 0 {
      assert t[i := p][1..] == t[1..][i - 1 := p];
      CountFinishedUpdate(t[1..], i - 1, p);
    } else {
      assert t[i := p][1..] == t[1..];
    }
  }

  lemma {:induction false} WorkUpdate(t: seq<Proc>, i: nat, p: Proc)
    requires i < |t|
    ensures Work(t[i := p]) + Max(t[i].remaining, 0) == Work(t) + Max(p.remaining, 0)
  {
    if i > 0 {
      assert t[i := p][1..] == t[1..][i - 1 := p];
      WorkUpdate(t[1..], i - 1, p);
    } else {
      assert t[i := p][1..] == t[1..];
    }
  }

  /** Serving a row for 0 < d <= remaining time units lowers the outstanding work by d. */
  lemma ServeLowersWork(t: seq<Proc>, i: nat, clock: int, d: int)
    requires i < |t| && 0 < d <= t[i].remaining
    ensures Work(Serve(t, i, clock, d)) + d == Work(t)
  {
    WorkUpdate(t, i, Serve(t, i, clock, d)[i]);
  }

  /** A freshly loaded table with positive bursts is accounted for at every clock, and
      nothing in it is finished. */
  lemma {:induction false} LoadedIsConsistent(t: seq<Proc>, clock: int)
    requires Loaded(t) && PositiveBursts(t)
    ensures Consistent(t, clock)
    ensures CountFinished(t) == 0
  {
    if |t| > 0 {
      LoadedIsConsistent(t[1..], clock);
      assert Accounted(t[0], clock);
      assert forall i :: 0 <= i < |t| ==> t[i].remaining > 0;
      forall i | 0 <= i < |t|
        ensures Accounted(t[i], clock)
      {
        if i > 0 {
          assert t[i] == t[1..][i - 1];
        }
      }
    }
  }

  /** Letting time pass keeps every row accounted for. */
  lemma ConsistentLater(t: seq<Proc>, clock: int, later: int)
    requires Consistent(t, clock) && clock <= later
    ensures Consistent(t, later)
  {
    forall i | 0 <= i < |t|
      ensures Accounted(t[i], later)
    {
      assert Accounted(t[i], clock);
    }
  }

  /** Serving an arrived, unfinished row for 0 < d <= remaining time units keeps the table
      accounted for at the advanced clock, finishes the row exactly when d is all it had left,
      and lowers the outstanding work by d. */
  lemma ServeKeepsAccounts(t: seq<Proc>, i: nat, clock: int, d: int)
    requires Consistent(t, clock)
    requires i < |t| && t[i].arrival <= clock && 0 < d <= t[i].remaining
    ensures SameJobs(Serve(t, i, clock, d), t)
    ensures Consistent(Serve(t, i, clock, d), clock + d)
    ensures CountFinished(Serve(t, i, clock, d)) == CountFinished(t) + (if d == t[i].remaining then 1 else 0)
    ensures Work(Serve(t, i, clock, d)) + d == Work(t)
  {
    var r := Serve(t, i, clock, d);
    assert Accounted(t[i], clock);
    forall k | 0 <= k < |r|
      ensures Accounted(r[k], clock + d)
    {
      if k != i {
        assert Accounted(t[k], clock);
      }
    }
    CountFinishedUpdate(t, i, r[i]);
    ServeLowersWork(t, i, clock, d);
  }
}
