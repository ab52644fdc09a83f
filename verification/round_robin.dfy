/** Round Robin with a quantum of two time units (main.c:186-261).

    The table is scheduled in input order: unlike the other disciplines roundRobin does not
    sort its copy, so rows with equal arrival times, and rows listed out of arrival order, are
    admitted in index order. A row enters the queue only if it is not already there. */
module RoundRobin {
  import opened Wrappers
  import opened Table
  import opened Arrivals

  const Quantum := 2

  /** Time the front row is served in one dispatch: what it has left, at most a quantum. */
  function Slice(remaining: int): int
  {
    if remaining <= Quantum then remaining else Quantum
  }

  /** The queue after a preempting quantum of row i: the rows ready at the new clock that are
      neither queued nor i join at the rear, and i goes behind them. */
  function Requeue(t: seq<Proc>, clock: int, rest: seq<nat>, i: nat): (q: seq<nat>)
    requires IndicesIn(rest, |t|) && i < |t|
    ensures IndicesIn(q, |t|) && |q| > 0 && q[|q| - 1] == i
  {
    Enqueue(t, clock, rest, Some(i)) + [i]
  }

  /** Dispatch of the front row of the queue (main.c:213-242): serve it for Slice(remaining)
      time units; it completes when that was all it had left, and is otherwise requeued. */
  function Dispatch(s: Sim): (r: Sim)
    requires IndicesIn(s.waiting, |s.table|) && |s.waiting| > 0
    ensures SameJobs(r.table, s.table) && IndicesIn(r.waiting, |s.table|)
    ensures || r.completed == s.completed + 1
            || (r.completed == s.completed && Work(r.table) < Work(s.table))
  {
    var i := s.waiting[0];
    var d := Slice(s.table[i].remaining);
    var t' := Serve(s.table, i, s.clock, d);
    var clock := s.clock + d;
    if s.table[i].remaining <= Quantum then Sim(t', clock, s.completed + 1, s.waiting[1..])
    else
      ServeLowersWork(s.table, i, s.clock, d);
      Sim(t', clock, s.completed, Requeue(t', clock, s.waiting[1..], i))
  }

  /** One pass of the while loop of roundRobin: admit the ready rows not yet queued, then
      dispatch the front row, or, with an empty queue, idle-advance. */
  function Step(s: Sim): (r: Turn)
    requires IndicesIn(s.waiting, |s.table|)
    ensures SameJobs(r.State().table, s.table) && IndicesIn(r.State().waiting, |s.table|)
    ensures r.Go? ==>
      || r.next.completed == s.completed + 1
      || (r.next.completed == s.completed && Work(r.next.table) < Work(s.table))
      || (r.next.completed == s.completed && r.next.table == s.table
          && Later(s.table, r.next.clock) < Later(s.table, s.clock))
  {
    var q := Enqueue(s.table, s.clock, s.waiting, None);
    assert IndicesIn(q, |s.table|);
    if |q| > 0 then
      Go(Dispatch(Sim(s.table, s.clock, s.completed, q)))
    else
      NextArrivalShrinksLater(s.table, s.clock);
      match NextArrival(s.table, s.clock)
      case None => Stop(Sim(s.table, s.clock, s.completed, q))
      case Some(a) => Go(Sim(s.table, a, s.completed, q))
  }

  /** The while loop of roundRobin, from state s on. */
  function Loop(s: Sim): (r: Sim)
    requires IndicesIn(s.waiting, |s.table|)
    ensures SameJobs(r.table, s.table)
    decreases |s.table| - s.completed, Work(s.table), Later(s.table, s.clock)
  {
    if s.completed >= |s.table| then s
    else
      match Step(s)
      case Stop(last) => last
      case Go(next) => Loop(next)
  }

  /** roundRobin on the table as loaded, in input order. */
  function Schedule(t: seq<Proc>): (r: seq<Proc>)
    ensures SameJobs(r, t)
  {
    Loop(Sim(t, 0, 0, [])).table
  }

  /** The state invariant: rows are accounted for, the counter is the number of finished
      rows, and the queue holds distinct arrived rows that still have work left. */
  predicate Inv(s: Sim)
  {
    && Consistent(s.table, s.clock)
    && s.completed == CountFinished(s.table)
    && IndicesIn(s.waiting, |s.table|)
    && Distinct(s.waiting)
    && forall k :: 0 <= k < |s.waiting| ==>
      s.table[s.waiting[k]].remaining > 0 && s.table[s.waiting[k]].arrival <= s.clock
  }

  /** The admission scan keeps the invariant: it adds only ready rows and no duplicates. */
  lemma AdmitKeepsInv(s: Sim)
    requires Inv(s)
    ensures Inv(Sim(s.table, s.clock, s.completed, Enqueue(s.table, s.clock, s.waiting, None)))
  {
    var q := Enqueue(s.table, s.clock, s.waiting, None);
    var a := AdmittedFrom(s.table, s.clock, s.waiting, None, 0);
    EnqueueSpec(s.table, s.clock, s.waiting, None);
    forall k | 0 <= k < |q|
      ensures q[k] < |s.table| && s.table[q[k]].remaining > 0 && s.table[q[k]].arrival <= s.clock
    {
      if k >= |s.waiting| {
        assert q[k] == a[k - |s.waiting|];
      }
    }
  }

  /** The queue facts of a requeue: when the rest of the queue holds distinct arrived rows
      with work left, none of them i, and i itself has arrived and has work left, the new
      queue again holds distinct arrived rows with work left. */
  lemma RequeueQueue(t: seq<Proc>, clock: int, rest: seq<nat>, i: nat)
    requires IndicesIn(rest, |t|) && Distinct(rest) && i < |t| && i !in rest
    requires forall k :: 0 <= k < |rest| ==> t[rest[k]].remaining > 0 && t[rest[k]].arrival <= clock
    requires t[i].remaining > 0 && t[i].arrival <= clock
    ensures var q := Requeue(t, clock, rest, i);
      && Distinct(q)
      && forall k :: 0 <= k < |q| ==> t[q[k]].remaining > 0 && t[q[k]].arrival <= clock
  {
    var a := AdmittedFrom(t, clock, rest, Some(i), 0);
    var e := Enqueue(t, clock, rest, Some(i));
    var q := e + [i];
    EnqueueSpec(t, clock, rest, Some(i));
    forall k | 0 <= k < |e|
      ensures e[k] != i && t[e[k]].remaining > 0 && t[e[k]].arrival <= clock
    {
      if k >= |rest| {
        assert e[k] == a[k - |rest|];
      }
    }
    forall k, l | 0 <= k < l < |q|
      ensures q[k] != q[l]
    {
      if l == |e| {
        assert q[k] == e[k];
      }
    }
  }

  /** A preempted row is requeued behind the rows admitted at the new clock, with no
      duplicate and every entry an arrived row with work left. */
  lemma RequeueKeepsInv(s: Sim)
    requires Inv(s) && |s.waiting| > 0 && s.table[s.waiting[0]].remaining > Quantum
    ensures Inv(Dispatch(s))
  {
    var q := s.waiting;
    var i := q[0];
    var t' := Serve(s.table, i, s.clock, Quantum);
    var c := s.clock + Quantum;
    var rest := q[1..];
    assert Dispatch(s) == Sim(t', c, s.completed, Requeue(t', c, rest, i));
    assert Consistent(t', c) && s.completed == CountFinished(t') by {
      ServeKeepsAccounts(s.table, i, s.clock, Quantum);
    }
    RestAfterServe(s.table, s.clock, q, t', c);
    RequeueQueue(t', c, rest, i);
  }

  /** After the front row of a queue of distinct arrived rows is served one quantum, the rest
      of the queue still holds distinct arrived rows with work left, none of them the served
      row, which has work left too. */
  lemma RestAfterServe(t: seq<Proc>, clock: int, q: seq<nat>, t': seq<Proc>, c: int)
    requires IndicesIn(q, |t|) && Distinct(q) && |q| > 0
    requires forall k :: 0 <= k < |q| ==> t[q[k]].remaining > 0 && t[q[k]].arrival <= clock
    requires t[q[0]].remaining > Quantum && c == clock + Quantum
    requires t' == Serve(t, q[0], clock, Quantum)
    ensures IndicesIn(q[1..], |t'|) && Distinct(q[1..]) && q[0] !in q[1..]
    ensures forall k :: 0 <= k < |q| - 1 ==> t'[q[1..][k]].remaining > 0 && t'[q[1..][k]].arrival <= c
    ensures t'[q[0]].remaining > 0 && t'[q[0]].arrival <= c
  {
    var rest := q[1..];
    forall k | 0 <= k < |rest|
      ensures rest[k] == q[k + 1] && rest[k] != q[0] && t'[rest[k]] == t[rest[k]]
    {
    }
  }

  /** Dispatching the front row of an admitted queue keeps the invariant: it is served for
      Slice(remaining) time units and counted exactly when that finishes it. */
  lemma DispatchKeepsInv(s: Sim)
    requires Inv(s) && |s.waiting| > 0
    ensures Inv(Dispatch(s))
  {
    var q := s.waiting;
    var i := q[0];
    if s.table[i].remaining > Quantum {
      RequeueKeepsInv(s);
    } else {
      var d := s.table[i].remaining;
      assert Dispatch(s) == Sim(Serve(s.table, i, s.clock, d), s.clock + d, s.completed + 1, q[1..]);
      ServeKeepsAccounts(s.table, i, s.clock, d);
      assert forall k :: 0 <= k < |q| - 1 ==> q[1..][k] == q[k + 1] != i;
    }
  }

  /** A pass whose admitted queue is non-empty dispatches its front row and keeps the
      invariant. */
  lemma AdmitDispatchKeepsInv(s: Sim)
    requires Inv(s) && |Enqueue(s.table, s.clock, s.waiting, None)| > 0
    ensures Step(s).Go? && Inv(Step(s).next)
  {
    var q := Enqueue(s.table, s.clock, s.waiting, None);
    var admitted := Sim(s.table, s.clock, s.completed, q);
    AdmitKeepsInv(s);
    assert Step(s) == Go(Dispatch(admitted));
    DispatchKeepsInv(admitted);
  }

  lemma StepKeepsInv(s: Sim)
    requires Inv(s)
    ensures Inv(Step(s).State())
    ensures Step(s).Stop? ==> forall i :: 0 <= i < |s.table| ==> Step(s).last.table[i].remaining == 0
  {
    if |Enqueue(s.table, s.clock, s.waiting, None)| > 0 {
      AdmitDispatchKeepsInv(s);
    } else {
      EnqueueSpec(s.table, s.clock, s.waiting, None);
      IdleKeepsInv(s);
    }
  }

  lemma IdleKeepsInv(s: Sim)
    requires Inv(s) && |Enqueue(s.table, s.clock, s.waiting, None)| == 0
    requires forall x :: 0 <= x < |s.table| && Ready(s.table[x], s.clock) ==> x in Enqueue(s.table, s.clock, s.waiting, None)
    ensures Inv(Step(s).State())
    ensures Step(s).Stop? ==> forall i :: 0 <= i < |s.table| ==> Step(s).last.table[i].remaining == 0
  {
    var t := s.table;
    match NextArrival(t, s.clock)
    case None =>
      assert Step(s) == Stop(Sim(t, s.clock, s.completed, []));
      forall i | 0 <= i < |t|
        ensures t[i].remaining == 0
      {
        assert !Ready(t[i], s.clock);
        assert Accounted(t[i], s.clock);
      }
    case Some(a) =>
      assert Step(s) == Go(Sim(t, a, s.completed, []));
      ConsistentLater(t, s.clock, a);
  }

  lemma {:induction false} LoopFinishes(s: Sim)
    requires Inv(s)
    ensures Inv(Loop(s))
    ensures forall i :: 0 <= i < |s.table| ==> Loop(s).table[i].remaining == 0
    decreases |s.table| - s.completed, Work(s.table), Later(s.table, s.clock)
  {
    if s.completed >= |s.table| {
      CountFinishedAtMost(s.table);
    } else {
      StepKeepsInv(s);
      if Step(s).Go? {
        LoopFinishes(Step(s).next);
      }
    }
  }

  /** Every job completes exactly once: the counter ends at n, every row is finished, and each
      completion is at least arrival + burst. */
  lemma ScheduleCompletesAll(t: seq<Proc>)
    requires Loaded(t) && PositiveBursts(t)
    ensures var r := Loop(Sim(t, 0, 0, []));
      && r.completed == |t|
      && forall i :: 0 <= i < |t| ==>
        r.table[i].remaining == 0 && r.table[i].completion >= r.table[i].arrival + r.table[i].burst
  {
    LoadedIsConsistent(t, 0);
    LoopFinishes(Sim(t, 0, 0, []));
    var r := Loop(Sim(t, 0, 0, []));
    forall i | 0 <= i < |t|
      ensures r.table[i].completion >= r.table[i].arrival + r.table[i].burst
    {
      assert Accounted(r.table[i], r.clock);
    }
    CountFinishedAll(r.table);
  }

  /** A dispatch serves the front row for min(remaining, 2): the clock and the row's remaining
      time move by that amount and no other row changes. The row completes at the new clock
      exactly when it had at most a quantum left, and then leaves the queue; otherwise every
      ready row other than it that is not queued yet joins the queue ahead of it, and it goes
      to the rear. */
  lemma DispatchOutcome(s: Sim)
    requires Inv(s) && |s.waiting| > 0
    ensures var i := s.waiting[0];
      var p := s.table[i];
      var r := Dispatch(s);
      && r.clock == s.clock + Slice(p.remaining)
      && r.table[i].remaining == p.remaining - Slice(p.remaining)
      && (forall k :: 0 <= k < |s.table| && k != i ==> r.table[k] == s.table[k])
      && (p.remaining <= Quantum ==>
          r.table[i].completion == r.clock && r.completed == s.completed + 1 && r.waiting == s.waiting[1..])
      && (p.remaining > Quantum ==>
          && r.completed == s.completed
          && r.waiting[|r.waiting| - 1] == i
          && i !in r.waiting[..|r.waiting| - 1]
          && s.waiting[1..] == r.waiting[..|s.waiting| - 1]
          && forall x :: 0 <= x < |s.table| && x != i && Ready(r.table[x], r.clock) ==>
               x in r.waiting[..|r.waiting| - 1])
  {
    if s.table[s.waiting[0]].remaining > Quantum {
      PreemptOutcome(s);
    }
  }

  /** A preempting dispatch: the old queue behind the front is kept as a prefix, every ready
      row other than the served one that is not queued yet joins it, and the served row goes
      to the rear, exactly once. */
  lemma PreemptOutcome(s: Sim)
    requires Inv(s) && |s.waiting| > 0 && s.table[s.waiting[0]].remaining > Quantum
    ensures var i := s.waiting[0];
      var r := Dispatch(s);
      && r.waiting[|r.waiting| - 1] == i
      && i !in r.waiting[..|r.waiting| - 1]
      && s.waiting[1..] == r.waiting[..|s.waiting| - 1]
      && forall x :: 0 <= x < |s.table| && x != i && Ready(r.table[x], r.clock) ==>
           x in r.waiting[..|r.waiting| - 1]
  {
    var q := s.waiting;
    var i := q[0];
    var t' := Serve(s.table, i, s.clock, Quantum);
    var c := s.clock + Quantum;
    var rest := q[1..];
    var e := Enqueue(t', c, rest, Some(i));
    var w := e + [i];
    assert Dispatch(s) == Sim(t', c, s.completed, w);
    PreemptQueue(s.table, s.clock, q, t', c, e);
    assert w[..|w| - 1] == e;
    assert w[..|rest|] == rest;
  }

  /** The queue a preempting dispatch builds ahead of the served row: the rest of the old
      queue, then every other ready row, and never the served row itself. */
  lemma PreemptQueue(t: seq<Proc>, clock: int, q: seq<nat>, t': seq<Proc>, c: int, e: seq<nat>)
    requires IndicesIn(q, |t|) && Distinct(q) && |q| > 0
    requires forall k :: 0 <= k < |q| ==> t[q[k]].remaining > 0 && t[q[k]].arrival <= clock
    requires t[q[0]].remaining > Quantum && c == clock + Quantum
    requires t' == Serve(t, q[0], clock, Quantum)
    requires e == Enqueue(t', c, q[1..], Some(q[0]))
    ensures q[0] !in e && |q| - 1 <= |e| && e[..|q| - 1] == q[1..]
    ensures forall x :: 0 <= x < |t'| && x != q[0] && Ready(t'[x], c) ==> x in e
  {
    RestAfterServe(t, clock, q, t', c);
    EnqueueSpec(t', c, q[1..], Some(q[0]));
  }

  /** The first pass admits the first job only: the second has not arrived at 0. */
  lemma TwoJobsFirstAdmission()
    ensures Enqueue([Load(0, 4), Load(1, 4)], 0, [], None) == [0]
  {
    var t := [Load(0, 4), Load(1, 4)];
    assert AdmittedFrom(t, 0, [], None, 2) == [];
    assert AdmittedFrom(t, 0, [], None, 1) == [];
    assert AdmittedFrom(t, 0, [], None, 0) == [0];
  }

  /** After its quantum the first job is requeued behind the second, which arrived at 1. */
  lemma TwoJobsFirstRequeue()
    ensures Requeue([Proc(0, 4, 2, 0), Load(1, 4)], 2, [], 0) == [1, 0]
  {
    var t1 := [Proc(0, 4, 2, 0), Load(1, 4)];
    assert AdmittedFrom(t1, 2, [], Some(0), 2) == [];
    assert AdmittedFrom(t1, 2, [], Some(0), 1) == [1];
    assert AdmittedFrom(t1, 2, [], Some(0), 0) == [1];
  }

  /** The first pass on jobs (0,4), (1,4): the first job runs 0-2 and is requeued behind the
      second, which arrived meanwhile. */
  lemma TwoJobsFirstQuantum()
    ensures Step(Sim([Load(0, 4), Load(1, 4)], 0, 0, [])) == Go(Sim([Proc(0, 4, 2, 0), Load(1, 4)], 2, 0, [1, 0]))
  {
    var t := [Load(0, 4), Load(1, 4)];
    TwoJobsFirstAdmission();
    TwoJobsFirstRequeue();
    var t1 := [Proc(0, 4, 2, 0), Load(1, 4)];
    assert Serve(t, 0, 0, 2) == t1;
    assert [0][1..] == [];
    assert Dispatch(Sim(t, 0, 0, [0])) == Sim(t1, 2, 0, [1, 0]);
  }

  /** The admission scan of the second pass admits nobody new: both rows are queued. */
  lemma TwoJobsSecondAdmission()
    ensures Enqueue([Proc(0, 4, 2, 0), Load(1, 4)], 2, [1, 0], None) == [1, 0]
  {
    var t1 := [Proc(0, 4, 2, 0), Load(1, 4)];
    assert AdmittedFrom(t1, 2, [1, 0], None, 2) == [];
    assert AdmittedFrom(t1, 2, [1, 0], None, 1) == [];
    assert AdmittedFrom(t1, 2, [1, 0], None, 0) == [];
  }

  /** The requeue of the second pass admits nobody either: the first job is still queued. */
  lemma TwoJobsSecondRequeue()
    ensures Requeue([Proc(0, 4, 2, 0), Proc(1, 4, 2, 0)], 4, [0], 1) == [0, 1]
  {
    var t2 := [Proc(0, 4, 2, 0), Proc(1, 4, 2, 0)];
    assert AdmittedFrom(t2, 4, [0], Some(1), 2) == [];
    assert AdmittedFrom(t2, 4, [0], Some(1), 1) == [];
    assert AdmittedFrom(t2, 4, [0], Some(1), 0) == [];
  }

  /** The dispatch of the second pass: the second job runs 2-4 and is requeued behind the
      first. */
  lemma TwoJobsSecondDispatch()
    ensures Dispatch(Sim([Proc(0, 4, 2, 0), Load(1, 4)], 2, 0, [1, 0]))
         == Sim([Proc(0, 4, 2, 0), Proc(1, 4, 2, 0)], 4, 0, [0, 1])
  {
    TwoJobsSecondRequeue();
    var t1 := [Proc(0, 4, 2, 0), Load(1, 4)];
    var t2 := [Proc(0, 4, 2, 0), Proc(1, 4, 2, 0)];
    assert t1[1].remaining == 4 && Slice(4) == 2;
    assert Serve(t1, 1, 2, 2) == t2;
    assert [1, 0][1..] == [0];
    assert Requeue(t2, 4, [0], 1) == [0, 1];
  }

  /** The second pass: the second job runs 2-4 and is requeued behind the first. */
  lemma TwoJobsSecondQuantum()
    ensures Step(Sim([Proc(0, 4, 2, 0), Load(1, 4)], 2, 0, [1, 0]))
         == Go(Sim([Proc(0, 4, 2, 0), Proc(1, 4, 2, 0)], 4, 0, [0, 1]))
  {
    TwoJobsSecondAdmission();
    TwoJobsSecondDispatch();
  }

  /** The third pass: the first job finishes its last two units at 6. */
  lemma TwoJobsThirdQuantum()
    ensures Step(Sim([Proc(0, 4, 2, 0), Proc(1, 4, 2, 0)], 4, 0, [0, 1]))
         == Go(Sim([Proc(0, 4, 0, 6), Proc(1, 4, 2, 0)], 6, 1, [1]))
  {
    var t2 := [Proc(0, 4, 2, 0), Proc(1, 4, 2, 0)];
    assert AdmittedFrom(t2, 4, [0, 1], None, 2) == [];
    assert AdmittedFrom(t2, 4, [0, 1], None, 1) == [];
    assert AdmittedFrom(t2, 4, [0, 1], None, 0) == [];
    assert Serve(t2, 0, 4, 2) == [Proc(0, 4, 0, 6), Proc(1, 4, 2, 0)];
    assert [0, 1][1..] == [1];
  }

  /** The last pass: the second job finishes its last two units at 8. */
  lemma TwoJobsLastQuantum()
    ensures Step(Sim([Proc(0, 4, 0, 6), Proc(1, 4, 2, 0)], 6, 1, [1]))
         == Go(Sim([Proc(0, 4, 0, 6), Proc(1, 4, 0, 8)], 8, 2, []))
  {
    var t3 := [Proc(0, 4, 0, 6), Proc(1, 4, 2, 0)];
    assert AdmittedFrom(t3, 6, [1], None, 2) == [];
    assert AdmittedFrom(t3, 6, [1], None, 1) == [];
    assert AdmittedFrom(t3, 6, [1], None, 0) == [];
    assert Serve(t3, 1, 6, 2) == [Proc(0, 4, 0, 6), Proc(1, 4, 0, 8)];
    assert [1][1..] == [];
  }

  /** Jobs (0,4), (1,4) in input order complete at 6 and 8. */
  lemma TwoJobsExample()
    ensures Schedule([Load(0, 4), Load(1, 4)]) == [Proc(0, 4, 0, 6), Proc(1, 4, 0, 8)]
  {
    TwoJobsFirstQuantum();
    TwoJobsSecondQuantum();
    TwoJobsThirdQuantum();
    TwoJobsLastQuantum();
    var s1 := Sim([Proc(0, 4, 2, 0), Load(1, 4)], 2, 0, [1, 0]);
    var s2 := Sim([Proc(0, 4, 2, 0), Proc(1, 4, 2, 0)], 4, 0, [0, 1]);
    var s3 := Sim([Proc(0, 4, 0, 6), Proc(1, 4, 2, 0)], 6, 1, [1]);
    var s4 := Sim([Proc(0, 4, 0, 6), Proc(1, 4, 0, 8)], 8, 2, []);
    assert Loop(s3) == s4;
    assert Loop(s2) == s4;
    assert Loop(s1) == s4;
  }
}
