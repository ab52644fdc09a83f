/** Last-come first-served, preemptive, in unit-time ticks (main.c:133-184).

    Each pass of the loop first discards finished entries from the top of the stack and runs
    the top live entry for one tick. When the stack is then empty it idle-advances to the next
    strictly later arrival, and only after that pushes every ready row. Because the idle test
    comes before the push, a job that is ready at the current clock is not seen: at clock 0
    before anything has been pushed, and right after a completion empties the stack. The model
    keeps that behaviour; `AdmitFirstLoop` is the corrected loop that pushes before it runs. */
module LcfsPreemptive {
  import opened Wrappers
  import opened Table
  import opened Arrivals
  import opened BubbleSort

  /** The inner while loop: entries whose row has nothing left are popped, with no time
      passing, until a live entry is on top or the stack is empty. */
  function Drain(t: seq<Proc>, stack: seq<nat>): (r: seq<nat>)
    requires IndicesIn(stack, |t|)
    ensures |r| <= |stack| && r == stack[..|r|]
    ensures |r| > 0 ==> t[r[|r| - 1]].remaining > 0
    ensures forall k :: |r| <= k < |stack| ==> t[stack[k]].remaining <= 0
  {
    if |stack| == 0 || t[stack[|stack| - 1]].remaining > 0 then stack
    else Drain(t, stack[..|stack| - 1])
  }

  /** The idle-advance of main.c:161-174 followed by the push of main.c:176-180. */
  function Idle(t: seq<Proc>, clock: int, completed: int): (r: Turn)
    ensures r.State().table == t && r.State().completed == completed
    ensures IndicesIn(r.State().waiting, |t|)
    ensures r.Go? ==> Later(t, r.next.clock) < Later(t, clock)
  {
    NextArrivalShrinksLater(t, clock);
    match NextArrival(t, clock)
    case None => Stop(Sim(t, clock, completed, []))
    case Some(a) => Go(Sim(t, a, completed, Arrived(t, a)))
  }

  /** What follows a completing tick (main.c:155-180): with entries left below the finished
      one the ready rows are pushed, otherwise the loop idle-advances. */
  function AfterFinish(t: seq<Proc>, clock: int, completed: int, rest: seq<nat>): (r: Turn)
    requires IndicesIn(rest, |t|)
    ensures r.State().table == t && r.State().completed == completed
    ensures IndicesIn(r.State().waiting, |t|)
  {
    if |rest| > 0 then Go(Sim(t, clock, completed, rest + Arrived(t, clock)))
    else Idle(t, clock, completed)
  }

  /** The tick of main.c:145-154 on the top live entry, and what follows it in the pass: the
      row is served for one time unit; a completion is counted and its entry popped, and
      otherwise the entry stays and the ready rows are pushed above it. */
  function Tick(t: seq<Proc>, clock: int, completed: int, live: seq<nat>): (r: Turn)
    requires IndicesIn(live, |t|) && |live| > 0 && t[live[|live| - 1]].remaining > 0
    ensures SameJobs(r.State().table, t) && IndicesIn(r.State().waiting, |t|)
    ensures Work(r.State().table) < Work(t)
  {
    var i := live[|live| - 1];
    var t' := Serve(t, i, clock, 1);
    ServeLowersWork(t, i, clock, 1);
    if t'[i].remaining == 0 then AfterFinish(t', clock + 1, completed + 1, live[..|live| - 1])
    else Go(Sim(t', clock + 1, completed, live + Arrived(t', clock + 1)))
  }

  /** One pass of the while loop of lcfsPreemptive. */
  function Step(s: Sim): (r: Turn)
    requires IndicesIn(s.waiting, |s.table|)
    ensures SameJobs(r.State().table, s.table) && IndicesIn(r.State().waiting, |s.table|)
    ensures r.Go? ==>
      || Work(r.next.table) < Work(s.table)
      || (r.next.table == s.table && Later(s.table, r.next.clock) < Later(s.table, s.clock))
  {
    var live := Drain(s.table, s.waiting);
    if |live| > 0 then Tick(s.table, s.clock, s.completed, live)
    else Idle(s.table, s.clock, s.completed)
  }

  /** The while loop of lcfsPreemptive, from state s on. */
  function Loop(s: Sim): (r: Sim)
    requires IndicesIn(s.waiting, |s.table|)
    ensures SameJobs(r.table, s.table)
    decreases Work(s.table), Later(s.table, s.clock)
  {
    if s.completed >= |s.table| then s
    else
      match Step(s)
      case Stop(last) => last
      case Go(next) => Loop(next)
  }

  function Schedule(t: seq<Proc>): (r: seq<Proc>)
    ensures SameJobs(r, BSort(t))
  {
    Loop(Sim(BSort(t), 0, 0, [])).table
  }

  /** A pass with a live entry on top runs exactly that row for exactly one tick: its
      remaining time drops by one, the clock rises by one, every other row is unchanged, and a
      completion is recorded, and counted, exactly on the 1 -> 0 transition. */
  lemma StepRunsOneTick(s: Sim)
    requires IndicesIn(s.waiting, |s.table|) && |Drain(s.table, s.waiting)| > 0
    ensures var live := Drain(s.table, s.waiting);
      var i := live[|live| - 1];
      var r := Step(s).State();
      && r.table[i].remaining == s.table[i].remaining - 1
      && (r.table[i].remaining == 0 ==> r.table[i].completion == s.clock + 1 && r.completed == s.completed + 1)
      && (r.table[i].remaining != 0 ==> r.table[i].completion == s.table[i].completion && r.completed == s.completed)
      && (forall k :: 0 <= k < |s.table| && k != i ==> r.table[k] == s.table[k])
      && (Step(s).Go? && r.table[i].remaining != 0 ==> r.clock == s.clock + 1)
  {
  }

  /** The state invariant: every row is accounted for, the counter is exactly the number of
      finished rows, and every stack entry is a row that has arrived. */
  predicate Inv(s: Sim)
  {
    && Consistent(s.table, s.clock)
    && s.completed == CountFinished(s.table)
    && IndicesIn(s.waiting, |s.table|)
    && forall k :: 0 <= k < |s.waiting| ==> s.table[s.waiting[k]].arrival <= s.clock
  }

  /** Pushing the rows ready at `clock` keeps every entry an arrived row. */
  lemma PushKeepsInv(t: seq<Proc>, clock: int, completed: int, stack: seq<nat>)
    requires Inv(Sim(t, clock, completed, stack))
    ensures Inv(Sim(t, clock, completed, stack + Arrived(t, clock)))
  {
    var a := Arrived(t, clock);
    var w := stack + a;
    forall k | 0 <= k < |w|
      ensures w[k] < |t| && t[w[k]].arrival <= clock
    {
      if k >= |stack| {
        assert w[k] == a[k - |stack|];
      }
    }
  }

  lemma IdleKeepsInv(t: seq<Proc>, clock: int, completed: int)
    requires Consistent(t, clock) && completed == CountFinished(t)
    ensures Inv(Idle(t, clock, completed).State())
  {
    match NextArrival(t, clock)
    case None =>
    case Some(a) =>
      ConsistentLater(t, clock, a);
      PushKeepsInv(t, a, completed, []);
  }

  /** The live part of the stack is a prefix of it, so it keeps the invariant. */
  lemma LivePrefixKeepsInv(s: Sim, live: seq<nat>)
    requires Inv(s) && |live| <= |s.waiting| && live == s.waiting[..|live|]
    ensures Inv(Sim(s.table, s.clock, s.completed, live))
  {
    assert forall k :: 0 <= k < |live| ==> live[k] == s.waiting[k];
  }

  /** Serving the top live entry for one tick keeps the invariant; the entry is popped
      exactly when the row finishes. */
  lemma ServeTopKeepsInv(t: seq<Proc>, clock: int, completed: int, live: seq<nat>)
    requires Inv(Sim(t, clock, completed, live)) && |live| > 0
    requires t[live[|live| - 1]].remaining > 0
    ensures var i := live[|live| - 1];
      var t' := Serve(t, i, clock, 1);
      && (t'[i].remaining == 0 ==> Inv(Sim(t', clock + 1, completed + 1, live[..|live| - 1])))
      && (t'[i].remaining != 0 ==> Inv(Sim(t', clock + 1, completed, live)))
  {
    ServeKeepsAccounts(t, live[|live| - 1], clock, 1);
  }

  /** A tick of the top live entry, with what follows it in the pass, keeps the invariant. */
  lemma TickKeepsInv(t: seq<Proc>, clock: int, completed: int, live: seq<nat>)
    requires Inv(Sim(t, clock, completed, live)) && |live| > 0
    requires t[live[|live| - 1]].remaining > 0
    ensures Inv(Tick(t, clock, completed, live).State())
  {
    var i := live[|live| - 1];
    if Serve(t, i, clock, 1)[i].remaining == 0 {
      TickFinishKeepsInv(t, clock, completed, live);
    } else {
      TickContinueKeepsInv(t, clock, completed, live);
    }
  }

  lemma TickFinishKeepsInv(t: seq<Proc>, clock: int, completed: int, live: seq<nat>)
    requires Inv(Sim(t, clock, completed, live)) && |live| > 0
    requires t[live[|live| - 1]].remaining > 0
    requires Serve(t, live[|live| - 1], clock, 1)[live[|live| - 1]].remaining == 0
    ensures Inv(Tick(t, clock, completed, live).State())
  {
    var t' := Serve(t, live[|live| - 1], clock, 1);
    var rest := live[..|live| - 1];
    assert Tick(t, clock, completed, live) == AfterFinish(t', clock + 1, completed + 1, rest);
    assert Inv(Sim(t', clock + 1, completed + 1, rest)) by {
      ServeTopKeepsInv(t, clock, completed, live);
    }
    AfterFinishKeepsInv(t', clock + 1, completed + 1, rest);
  }

  lemma TickContinueKeepsInv(t: seq<Proc>, clock: int, completed: int, live: seq<nat>)
    requires Inv(Sim(t, clock, completed, live)) && |live| > 0
    requires t[live[|live| - 1]].remaining > 0
    requires Serve(t, live[|live| - 1], clock, 1)[live[|live| - 1]].remaining != 0
    ensures Inv(Tick(t, clock, completed, live).State())
  {
    var t' := Serve(t, live[|live| - 1], clock, 1);
    assert Tick(t, clock, completed, live) == Go(Sim(t', clock + 1, completed, live + Arrived(t', clock + 1)));
    assert Inv(Sim(t', clock + 1, completed, live)) by {
      ServeTopKeepsInv(t, clock, completed, live);
    }
    PushKeepsInv(t', clock + 1, completed, live);
  }

  lemma AfterFinishKeepsInv(t: seq<Proc>, clock: int, completed: int, rest: seq<nat>)
    requires Inv(Sim(t, clock, completed, rest))
    ensures Inv(AfterFinish(t, clock, completed, rest).State())
  {
    if |rest| > 0 {
      PushKeepsInv(t, clock, completed, rest);
    } else {
      IdleKeepsInv(t, clock, completed);
    }
  }

  lemma StepKeepsInv(s: Sim)
    requires Inv(s)
    ensures Inv(Step(s).State())
  {
    var live := Drain(s.table, s.waiting);
    if |live| > 0 {
      LivePrefixKeepsInv(s, live);
      TickKeepsInv(s.table, s.clock, s.completed, live);
    } else {
      IdleKeepsInv(s.table, s.clock, s.completed);
    }
  }

  lemma {:induction false} LoopKeepsInv(s: Sim)
    requires Inv(s)
    ensures Inv(Loop(s))
    decreases Work(s.table), Later(s.table, s.clock)
  {
    if s.completed < |s.table| {
      StepKeepsInv(s);
      if Step(s).Go? {
        LoopKeepsInv(Step(s).next);
      }
    }
  }

  /** Whatever the schedule does, it stays honest: every row keeps 0 <= remaining <= burst,
      the counter equals the number of finished rows (a row is counted once, on its 1 -> 0
      tick), and every finished row completes no earlier than arrival + burst. */
  lemma ScheduleAccounts(t: seq<Proc>)
    requires Loaded(t) && PositiveBursts(t)
    ensures var r := Loop(Sim(BSort(t), 0, 0, []));
      && r.completed == CountFinished(r.table)
      && forall i :: 0 <= i < |t| ==>
        && 0 <= r.table[i].remaining <= r.table[i].burst
        && (r.table[i].remaining == 0 ==> r.table[i].completion >= r.table[i].arrival + r.table[i].burst)
  {
    BSortKeepsRows(t);
    LoadedIsConsistent(BSort(t), 0);
    LoopKeepsInv(Sim(BSort(t), 0, 0, []));
    var r := Loop(Sim(BSort(t), 0, 0, []));
    assert forall i :: 0 <= i < |t| ==> Accounted(r.table[i], r.clock);
  }

  /** A lone job arriving at 0: the loop idle-advances before anything is pushed, finds no
      strictly later arrival and stops; the job never runs and its completion stays 0. */
  lemma LoneJobNeverRuns()
    ensures Schedule([Load(0, 5)]) == [Load(0, 5)]
  {
    var t := [Load(0, 5)];
    BSortKeepsSorted(t);
    assert Loop(Sim(t, 0, 0, [])) == Sim(t, 0, 0, []);
  }

  /** First pass on (3,1), (4,1): nothing is on the stack, so the loop idle-advances to 3
      and pushes the first job. */
  lemma SkipFirstPass()
    ensures Step(Sim([Load(3, 1), Load(4, 1)], 0, 0, [])) == Go(Sim([Load(3, 1), Load(4, 1)], 3, 0, [0]))
  {
    var t := [Load(3, 1), Load(4, 1)];
    assert ArrivedFrom(t, 3, 2) == [];
    assert ArrivedFrom(t, 3, 1) == [];
    assert ArrivedFrom(t, 3, 0) == [0];
    assert NextArrival(t, 0) == Some(3);
  }

  /** Second pass: the first job runs from 3 to 4 and finishes; the stack is empty, and no
      arrival lies strictly after 4, so the loop stops. */
  lemma SkipSecondPass()
    ensures Step(Sim([Load(3, 1), Load(4, 1)], 3, 0, [0])) == Stop(Sim([Proc(3, 1, 0, 4), Load(4, 1)], 4, 1, []))
  {
    var t := [Load(3, 1), Load(4, 1)];
    var t1 := [Proc(3, 1, 0, 4), Load(4, 1)];
    assert Drain(t, [0]) == [0];
    assert Serve(t, 0, 3, 1) == t1;
    assert [0][..0] == [];
    assert NextArrival(t1, 4) == None;
  }

  lemma SkipFirstLoop()
    ensures Loop(Sim([Load(3, 1), Load(4, 1)], 0, 0, [])) == Loop(Sim([Load(3, 1), Load(4, 1)], 3, 0, [0]))
  {
    SkipFirstPass();
  }

  lemma SkipSecondLoop()
    ensures Loop(Sim([Load(3, 1), Load(4, 1)], 3, 0, [0])) == Sim([Proc(3, 1, 0, 4), Load(4, 1)], 4, 1, [])
  {
    SkipSecondPass();
  }

  /** Jobs (3,1), (4,1): the first runs from 3 to 4; its completion empties the stack, the
      idle-advance looks for an arrival strictly after 4, finds none and stops, so the job
      arriving at 4 never runs. */
  lemma SkipsArrivalAtClock()
    ensures Schedule([Load(3, 1), Load(4, 1)]) == [Proc(3, 1, 0, 4), Load(4, 1)]
  {
    var t := [Load(3, 1), Load(4, 1)];
    assert BSort(t) == t by {
      assert Sorted(t);
      BSortKeepsSorted(t);
    }
    assert Loop(Sim(t, 0, 0, [])).table == [Proc(3, 1, 0, 4), Load(4, 1)] by {
      SkipFirstLoop();
      SkipSecondLoop();
    }
  }

  /** The rest of a pass of the corrected loop, once the ready rows are on the stack:
      discard finished entries and run the top live one for a tick; idle-advance only when
      nothing is live. */
  function TickOrIdle(s: Sim): (r: Turn)
    requires IndicesIn(s.waiting, |s.table|)
    ensures SameJobs(r.State().table, s.table) && IndicesIn(r.State().waiting, |s.table|)
    ensures r.Go? ==>
      || Work(r.next.table) < Work(s.table)
      || (r.next.table == s.table && Later(s.table, r.next.clock) < Later(s.table, s.clock))
  {
    var live := Drain(s.table, s.waiting);
    if |live| > 0 then
      var i := live[|live| - 1];
      var t' := Serve(s.table, i, s.clock, 1);
      ServeLowersWork(s.table, i, s.clock, 1);
      if t'[i].remaining == 0 then Go(Sim(t', s.clock + 1, s.completed + 1, live[..|live| - 1]))
      else Go(Sim(t', s.clock + 1, s.completed, live))
    else
      NextArrivalShrinksLater(s.table, s.clock);
      match NextArrival(s.table, s.clock)
      case None => Stop(Sim(s.table, s.clock, s.completed, []))
      case Some(a) => Go(Sim(s.table, a, s.completed, []))
  }

  /** One pass of the corrected loop: push every ready row first, then tick or idle. */
  function AdmitFirstStep(s: Sim): (r: Turn)
    requires IndicesIn(s.waiting, |s.table|)
    ensures SameJobs(r.State().table, s.table) && IndicesIn(r.State().waiting, |s.table|)
    ensures r.Go? ==>
      || Work(r.next.table) < Work(s.table)
      || (r.next.table == s.table && Later(s.table, r.next.clock) < Later(s.table, s.clock))
  {
    var pushed := s.waiting + Arrived(s.table, s.clock);
    assert IndicesIn(pushed, |s.table|);
    TickOrIdle(Sim(s.table, s.clock, s.completed, pushed))
  }

  function AdmitFirstLoop(s: Sim): (r: Sim)
    requires IndicesIn(s.waiting, |s.table|)
    ensures SameJobs(r.table, s.table)
    decreases Work(s.table), Later(s.table, s.clock)
  {
    if s.completed >= |s.table| then s
    else
      match AdmitFirstStep(s)
      case Stop(last) => last
      case Go(next) => AdmitFirstLoop(next)
  }

  function ScheduleAdmitFirst(t: seq<Proc>): (r: seq<Proc>)
    ensures SameJobs(r, BSort(t))
  {
    AdmitFirstLoop(Sim(BSort(t), 0, 0, [])).table
  }

  /** When nothing on the stack is live after the push, no row is ready. */
  lemma NothingLiveNothingReady(t: seq<Proc>, clock: int, stack: seq<nat>)
    requires IndicesIn(stack, |t|)
    requires IndicesIn(stack + Arrived(t, clock), |t|)
    requires |Drain(t, stack + Arrived(t, clock))| == 0
    ensures forall i :: 0 <= i < |t| ==> !Ready(t[i], clock)
  {
    var w := stack + Arrived(t, clock);
    forall i | 0 <= i < |t|
      ensures !Ready(t[i], clock)
    {
      if Ready(t[i], clock) {
        assert false;
      }
    }
  }

  /** A tick of the corrected loop keeps the invariant. */
  lemma TickKeeps(s: Sim)
    requires Inv(s) && |Drain(s.table, s.waiting)| > 0
    ensures Inv(TickOrIdle(s).State())
  {
    var live := Drain(s.table, s.waiting);
    var i := live[|live| - 1];
    LivePrefixKeepsInv(s, live);
    ServeTopKeepsInv(s.table, s.clock, s.completed, live);
    var t' := Serve(s.table, i, s.clock, 1);
    if t'[i].remaining == 0 {
      assert TickOrIdle(s).State() == Sim(t', s.clock + 1, s.completed + 1, live[..|live| - 1]);
    } else {
      assert TickOrIdle(s).State() == Sim(t', s.clock + 1, s.completed, live);
    }
  }

  /** With nothing live and no row ready, idling keeps the invariant, and leaving the loop
      happens only when every row has finished. */
  lemma IdleFinishes(s: Sim)
    requires Inv(s) && |Drain(s.table, s.waiting)| == 0
    requires forall i :: 0 <= i < |s.table| ==> !Ready(s.table[i], s.clock)
    ensures Inv(TickOrIdle(s).State())
    ensures TickOrIdle(s).Stop? ==>
      forall i :: 0 <= i < |s.table| ==> TickOrIdle(s).last.table[i].remaining == 0
  {
    var t := s.table;
    match NextArrival(t, s.clock)
    case None =>
      assert TickOrIdle(s) == Stop(Sim(t, s.clock, s.completed, []));
      forall i | 0 <= i < |t|
        ensures t[i].remaining == 0
      {
        assert !Ready(t[i], s.clock);
        assert Accounted(t[i], s.clock);
      }
    case Some(a) =>
      assert TickOrIdle(s) == Go(Sim(t, a, s.completed, []));
      ConsistentLater(t, s.clock, a);
  }

  lemma AdmitFirstStepKeeps(s: Sim)
    requires Inv(s)
    ensures Inv(AdmitFirstStep(s).State())
    ensures AdmitFirstStep(s).Stop? ==>
      forall i :: 0 <= i < |s.table| ==> AdmitFirstStep(s).last.table[i].remaining == 0
  {
    PushKeepsInv(s.table, s.clock, s.completed, s.waiting);
    var pushed := Sim(s.table, s.clock, s.completed, s.waiting + Arrived(s.table, s.clock));
    assert AdmitFirstStep(s) == TickOrIdle(pushed);
    if |Drain(s.table, pushed.waiting)| > 0 {
      TickKeeps(pushed);
    } else {
      NothingLiveNothingReady(s.table, s.clock, s.waiting);
      IdleFinishes(pushed);
    }
  }

  lemma {:induction false} AdmitFirstLoopFinishes(s: Sim)
    requires Inv(s)
    ensures Inv(AdmitFirstLoop(s))
    ensures forall i :: 0 <= i < |s.table| ==> AdmitFirstLoop(s).table[i].remaining == 0
    decreases Work(s.table), Later(s.table, s.clock)
  {
    if s.completed >= |s.table| {
      CountFinishedAtMost(s.table);
    } else {
      AdmitFirstStepKeeps(s);
      if AdmitFirstStep(s).Go? {
        AdmitFirstLoopFinishes(AdmitFirstStep(s).next);
      }
    }
  }

  /** With the push moved before the tick, every job runs to completion: the counter ends at
      n, every row is finished, and each completion is at least arrival + burst. */
  lemma AdmitFirstCompletesAll(t: seq<Proc>)
    requires Loaded(t) && PositiveBursts(t)
    ensures var r := AdmitFirstLoop(Sim(BSort(t), 0, 0, []));
      && r.completed == |t|
      && forall i :: 0 <= i < |t| ==>
        r.table[i].remaining == 0 && r.table[i].completion >= r.table[i].arrival + r.table[i].burst
  {
    var t0 := BSort(t);
    BSortKeepsRows(t);
    LoadedIsConsistent(t0, 0);
    AdmitFirstLoopFinishes(Sim(t0, 0, 0, []));
    var r := AdmitFirstLoop(Sim(t0, 0, 0, []));
    forall i | 0 <= i < |t|
      ensures r.table[i].completion >= r.table[i].arrival + r.table[i].burst
    {
      assert Accounted(r.table[i], r.clock);
    }
    CountFinishedAll(r.table);
  }
}
