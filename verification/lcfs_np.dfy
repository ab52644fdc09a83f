/** Last-come first-served, non-preemptive (main.c:85-131).

    Every pass of the loop pushes the index of every ready row onto the stack, whether or not
    it is already there, then pops the top entry and runs that row to completion without
    checking that it still has work left. A stale entry of a row that has already finished can
    therefore be popped and run again, which advances the clock and the completion counter a
    second time while a job that arrives later never runs. The model keeps that behaviour;
    `AdmitOnceLoop` is the corrected loop in which a row enters the stack at most once. */
module LcfsNonPreemptive {
  import opened Wrappers
  import opened Table
  import opened Arrivals
  import opened BubbleSort

  /** The rest of a pass once the ready rows are on the stack: pop the top entry and run
      that row to completion, or, with an empty stack, idle-advance to the next strictly later
      arrival, or leave the loop when there is none. */
  function PopOrIdle(t: seq<Proc>, clock: int, completed: int, stack: seq<nat>): (r: Turn)
    requires IndicesIn(stack, |t|)
    ensures SameJobs(r.State().table, t) && IndicesIn(r.State().waiting, |t|)
    ensures r.Go? ==>
      || r.next.completed == completed + 1
      || (r.next.completed == completed && r.next.table == t && Later(t, r.next.clock) < Later(t, clock))
  {
    if |stack| > 0 then
      var i := stack[|stack| - 1];
      var c := Max(clock, t[i].arrival) + t[i].burst;
      Go(Sim(Complete(t, i, c), c, completed + 1, stack[..|stack| - 1]))
    else
      NextArrivalShrinksLater(t, clock);
      match NextArrival(t, clock)
      case None => Stop(Sim(t, clock, completed, stack))
      case Some(a) => Go(Sim(t, a, completed, stack))
  }

  /** One pass of the while loop of lcfsNonPreemptive: push every ready row, then pop the
      top entry and run that row to completion, or, with an empty stack, idle-advance. */
  function Step(s: Sim): (r: Turn)
    requires IndicesIn(s.waiting, |s.table|)
    ensures SameJobs(r.State().table, s.table) && IndicesIn(r.State().waiting, |s.table|)
    ensures r.Go? ==>
      || r.next.completed == s.completed + 1
      || (r.next.completed == s.completed && r.next.table == s.table
          && Later(s.table, r.next.clock) < Later(s.table, s.clock))
  {
    var stack := s.waiting + Arrived(s.table, s.clock);
    assert IndicesIn(stack, |s.table|);
    PopOrIdle(s.table, s.clock, s.completed, stack)
  }

  /** The while loop of lcfsNonPreemptive, from state s on. */
  function Loop(s: Sim): (r: Sim)
    requires IndicesIn(s.waiting, |s.table|)
    ensures SameJobs(r.table, s.table)
    decreases |s.table| - s.completed, Later(s.table, s.clock)
  {
    if s.completed >= |s.table| then s
    else
      match Step(s)
      case Stop(last) => last
      case Go(next) => Loop(next)
  }

  function Schedule(t: seq<Proc>): (r: seq<Proc>)
    ensures SameJobs(r, BSort(t))
  {
    Loop(Sim(BSort(t), 0, 0, [])).table
  }

  /** A row is either exactly as loaded or has been run to completion, finishing no earlier
      than its arrival plus its burst. */
  predicate RunOrUntouched(p: Proc, loaded: Proc)
  {
    p == loaded || (p.remaining == 0 && p.completion >= p.arrival + p.burst)
  }

  /** Running row i to completion at c >= arrival + burst keeps every row run or untouched,
      and the counter, raised by one, stays at least the number of finished rows. */
  lemma CompleteOutcome(t: seq<Proc>, i: nat, c: int, completed: int, t0: seq<Proc>)
    requires i < |t| && c >= t[i].arrival + t[i].burst
    requires |t0| == |t| && forall k :: 0 <= k < |t0| ==> RunOrUntouched(t[k], t0[k])
    requires CountFinished(t) <= completed
    ensures forall k :: 0 <= k < |t0| ==> RunOrUntouched(Complete(t, i, c)[k], t0[k])
    ensures CountFinished(Complete(t, i, c)) <= completed + 1
  {
    var t' := Complete(t, i, c);
    CountFinishedUpdate(t, i, t'[i]);
    forall k | 0 <= k < |t0|
      ensures RunOrUntouched(t'[k], t0[k])
    {
      if k != i {
        assert t'[k] == t[k];
      }
    }
  }

  /** With a non-empty stack the pass pops the top entry and runs that row to completion. */
  lemma PopOrIdlePops(t: seq<Proc>, clock: int, completed: int, stack: seq<nat>)
    requires IndicesIn(stack, |t|) && |stack| > 0
    ensures var i := stack[|stack| - 1];
      && i < |t|
      && var c := Max(clock, t[i].arrival) + t[i].burst;
      PopOrIdle(t, clock, completed, stack) == Go(Sim(Complete(t, i, c), c, completed + 1, stack[..|stack| - 1]))
  {
  }

  /** A pass with a non-empty stack pops its top entry and runs that row to completion. */
  lemma StepPops(s: Sim)
    requires IndicesIn(s.waiting, |s.table|) && |s.waiting + Arrived(s.table, s.clock)| > 0
    ensures var stack := s.waiting + Arrived(s.table, s.clock);
      var i := stack[|stack| - 1];
      && i < |s.table|
      && var c := Max(s.clock, s.table[i].arrival) + s.table[i].burst;
      Step(s) == Go(Sim(Complete(s.table, i, c), c, s.completed + 1, stack[..|stack| - 1]))
  {
    var stack := s.waiting + Arrived(s.table, s.clock);
    assert IndicesIn(stack, |s.table|);
    PopOrIdlePops(s.table, s.clock, s.completed, stack);
  }

  /** After a push that found a ready row, the pass runs the highest-index ready row, which
      in the arrival-sorted table is the latest to arrive: the clock advances by its whole
      burst, its completion is the new clock, it has nothing left, the counter rises by one,
      and no other row changes. */
  lemma PopsLatestReady(s: Sim, i: nat)
    requires IndicesIn(s.waiting, |s.table|)
    requires i < |s.table| && Ready(s.table[i], s.clock)
    requires forall k :: i < k < |s.table| ==> !Ready(s.table[k], s.clock)
    ensures Step(s).Go?
    ensures var r := Step(s).next;
      && r.clock == s.clock + s.table[i].burst
      && r.table[i].remaining == 0 && r.table[i].completion == r.clock
      && r.completed == s.completed + 1
      && forall k :: 0 <= k < |s.table| && k != i ==> r.table[k] == s.table[k]
  {
    var a := Arrived(s.table, s.clock);
    assert i in a;
    LatestOnTop(s.table, s.clock, s.waiting);
    var stack := s.waiting + a;
    assert stack[|stack| - 1] == i;
    StepPops(s);
  }

  /** A pass that pops: the popped row is run for its full burst from no earlier than its
      arrival, and the counter rises by one even when that row had already finished. */
  lemma PopOutcome(s: Sim, t0: seq<Proc>)
    requires IndicesIn(s.waiting, |s.table|) && |s.waiting + Arrived(s.table, s.clock)| > 0
    requires |t0| == |s.table| && forall i :: 0 <= i < |t0| ==> RunOrUntouched(s.table[i], t0[i])
    requires CountFinished(s.table) <= s.completed
    ensures forall i :: 0 <= i < |t0| ==> RunOrUntouched(Step(s).State().table[i], t0[i])
    ensures CountFinished(Step(s).State().table) <= Step(s).State().completed
  {
    StepPops(s);
    var stack := s.waiting + Arrived(s.table, s.clock);
    var i := stack[|stack| - 1];
    var c := Max(s.clock, s.table[i].arrival) + s.table[i].burst;
    CompleteOutcome(s.table, i, c, s.completed, t0);
  }

  /** What one pass of the as-written loop guarantees: every row stays run or untouched, and
      the counter stays at least the number of finished rows. */
  lemma StepOutcome(s: Sim, t0: seq<Proc>)
    requires IndicesIn(s.waiting, |s.table|)
    requires |t0| == |s.table| && forall i :: 0 <= i < |t0| ==> RunOrUntouched(s.table[i], t0[i])
    requires CountFinished(s.table) <= s.completed
    ensures forall i :: 0 <= i < |t0| ==> RunOrUntouched(Step(s).State().table[i], t0[i])
    ensures CountFinished(Step(s).State().table) <= Step(s).State().completed
  {
    if |s.waiting + Arrived(s.table, s.clock)| > 0 {
      PopOutcome(s, t0);
    } else {
      assert Step(s).State().table == s.table && Step(s).State().completed == s.completed;
    }
  }

  /** What the as-written loop guarantees: every row ends untouched or run to completion no
      earlier than arrival + burst, and the counter never falls below the number of finished
      rows (it can exceed it). */
  lemma {:induction false} LoopOutcome(s: Sim, t0: seq<Proc>)
    requires IndicesIn(s.waiting, |s.table|)
    requires |t0| == |s.table| && forall i :: 0 <= i < |t0| ==> RunOrUntouched(s.table[i], t0[i])
    requires CountFinished(s.table) <= s.completed
    ensures forall i :: 0 <= i < |t0| ==> RunOrUntouched(Loop(s).table[i], t0[i])
    ensures CountFinished(Loop(s).table) <= Loop(s).completed
    decreases |s.table| - s.completed, Later(s.table, s.clock)
  {
    if s.completed < |s.table| {
      StepOutcome(s, t0);
      if Step(s).Go? {
        LoopOutcome(Step(s).next, t0);
      }
    }
  }

  lemma ScheduleOutcome(t: seq<Proc>)
    requires Loaded(t) && PositiveBursts(t)
    ensures var r := Loop(Sim(BSort(t), 0, 0, []));
      && (forall i :: 0 <= i < |t| ==> RunOrUntouched(r.table[i], BSort(t)[i]))
      && CountFinished(r.table) <= r.completed
  {
    BSortKeepsRows(t);
    LoadedIsConsistent(BSort(t), 0);
    LoopOutcome(Sim(BSort(t), 0, 0, []), BSort(t));
  }

  lemma FirstPush()
    ensures Arrived([Load(0, 1), Load(0, 1), Load(100, 1)], 0) == [0, 1]
  {
    var t := [Load(0, 1), Load(0, 1), Load(100, 1)];
    assert ArrivedFrom(t, 0, 3) == [];
    assert ArrivedFrom(t, 0, 2) == [];
    assert ArrivedFrom(t, 0, 1) == [1];
  }

  /** First pass on (0,1), (0,1), (100,1): both jobs arriving at 0 are pushed and the second
      is popped and run from 0 to 1. */
  lemma RerunFirstPass()
    ensures Step(Sim([Load(0, 1), Load(0, 1), Load(100, 1)], 0, 0, []))
         == Go(Sim(Complete([Load(0, 1), Load(0, 1), Load(100, 1)], 1, 1), 1, 1, [0]))
  {
    var t := [Load(0, 1), Load(0, 1), Load(100, 1)];
    FirstPush();
    assert [] + [0, 1] == [0, 1];
    StepPops(Sim(t, 0, 0, []));
    assert [0, 1][..1] == [0];
  }

  lemma FirstCompletion()
    ensures Complete([Load(0, 1), Load(0, 1), Load(100, 1)], 1, 1) == [Load(0, 1), Proc(0, 1, 0, 1), Load(100, 1)]
  {
    var r := Complete([Load(0, 1), Load(0, 1), Load(100, 1)], 1, 1);
    assert r[0] == Load(0, 1) && r[1] == Proc(0, 1, 0, 1) && r[2] == Load(100, 1);
  }

  /** Second pass: the first job is pushed again on top of its own entry, popped and run
      from 1 to 2. */
  lemma RerunSecondPass()
    ensures Step(Sim([Load(0, 1), Proc(0, 1, 0, 1), Load(100, 1)], 1, 1, [0]))
         == Go(Sim([Proc(0, 1, 0, 2), Proc(0, 1, 0, 1), Load(100, 1)], 2, 2, [0]))
  {
    var t1 := [Load(0, 1), Proc(0, 1, 0, 1), Load(100, 1)];
    assert ArrivedFrom(t1, 1, 3) == [];
    assert ArrivedFrom(t1, 1, 2) == [];
    assert ArrivedFrom(t1, 1, 1) == [];
    assert ArrivedFrom(t1, 1, 0) == [0];
    assert Complete(t1, 0, 2) == [Proc(0, 1, 0, 2), Proc(0, 1, 0, 1), Load(100, 1)];
    assert [0, 0][..1] == [0];
  }

  /** Third pass: nothing is ready, yet the stale entry of the finished first job is popped
      and run again from 2 to 3, raising the counter to 3. */
  lemma RerunThirdPass()
    ensures Step(Sim([Proc(0, 1, 0, 2), Proc(0, 1, 0, 1), Load(100, 1)], 2, 2, [0]))
         == Go(Sim([Proc(0, 1, 0, 3), Proc(0, 1, 0, 1), Load(100, 1)], 3, 3, []))
  {
    var t2 := [Proc(0, 1, 0, 2), Proc(0, 1, 0, 1), Load(100, 1)];
    assert ArrivedFrom(t2, 2, 3) == [];
    assert ArrivedFrom(t2, 2, 2) == [];
    assert ArrivedFrom(t2, 2, 1) == [];
    assert ArrivedFrom(t2, 2, 0) == [];
    assert [0] + [] == [0];
    assert Complete(t2, 0, 3) == [Proc(0, 1, 0, 3), Proc(0, 1, 0, 1), Load(100, 1)];
  }

  /** The loop on (0,1), (0,1), (100,1) stops after three passes with the counter at 3. */
  lemma RerunLoop()
    ensures Loop(Sim([Load(0, 1), Load(0, 1), Load(100, 1)], 0, 0, []))
         == Sim([Proc(0, 1, 0, 3), Proc(0, 1, 0, 1), Load(100, 1)], 3, 3, [])
  {
    RerunFirstPass();
    FirstCompletion();
    RerunSecondPass();
    RerunThirdPass();
    var s1 := Sim([Load(0, 1), Proc(0, 1, 0, 1), Load(100, 1)], 1, 1, [0]);
    var s2 := Sim([Proc(0, 1, 0, 2), Proc(0, 1, 0, 1), Load(100, 1)], 2, 2, [0]);
    var s3 := Sim([Proc(0, 1, 0, 3), Proc(0, 1, 0, 1), Load(100, 1)], 3, 3, []);
    assert Loop(s3) == s3;
    assert Loop(s2) == s3;
    assert Loop(s1) == s3;
  }

  /** Jobs (0,1), (0,1), (100,1): the first job is popped twice, the counter reaches 3 after
      two distinct jobs have run, and the job arriving at 100 never runs (completion stays 0). */
  lemma RerunsFinishedJob()
    ensures var t := [Load(0, 1), Load(0, 1), Load(100, 1)];
      var r := Loop(Sim(t, 0, 0, []));
      && Schedule(t) == r.table
      && r == Sim([Proc(0, 1, 0, 3), Proc(0, 1, 0, 1), Load(100, 1)], 3, 3, [])
      && CountFinished(r.table) == 2
  {
    RerunSorted();
    RerunLoop();
    var u := [Proc(0, 1, 0, 3), Proc(0, 1, 0, 1), Load(100, 1)];
    assert CountFinished(u) == 2 by {
      assert u[1..] == [Proc(0, 1, 0, 1), Load(100, 1)];
      assert u[1..][1..] == [Load(100, 1)];
    }
  }

  /** The table (0,1), (0,1), (100,1) is already in arrival order. */
  lemma RerunSorted()
    ensures BSort([Load(0, 1), Load(0, 1), Load(100, 1)]) == [Load(0, 1), Load(0, 1), Load(100, 1)]
  {
    var t := [Load(0, 1), Load(0, 1), Load(100, 1)];
    assert Sorted(t);
    BSortKeepsSorted(t);
  }

  /** One pass of the corrected loop: a ready row is pushed only if it is not already on the
      stack; the rest is as in `Step`. */
  function AdmitOnceStep(s: Sim): (r: Turn)
    requires IndicesIn(s.waiting, |s.table|)
    ensures SameJobs(r.State().table, s.table) && IndicesIn(r.State().waiting, |s.table|)
    ensures r.Go? ==>
      || r.next.completed == s.completed + 1
      || (r.next.completed == s.completed && r.next.table == s.table
          && Later(s.table, r.next.clock) < Later(s.table, s.clock))
  {
    var stack := Enqueue(s.table, s.clock, s.waiting, None);
    assert IndicesIn(stack, |s.table|);
    PopOrIdle(s.table, s.clock, s.completed, stack)
  }

  function AdmitOnceLoop(s: Sim): (r: Sim)
    requires IndicesIn(s.waiting, |s.table|)
    ensures SameJobs(r.table, s.table)
    decreases |s.table| - s.completed, Later(s.table, s.clock)
  {
    if s.completed >= |s.table| then s
    else
      match AdmitOnceStep(s)
      case Stop(last) => last
      case Go(next) => AdmitOnceLoop(next)
  }

  function ScheduleAdmitOnce(t: seq<Proc>): (r: seq<Proc>)
    ensures SameJobs(r, BSort(t))
  {
    AdmitOnceLoop(Sim(BSort(t), 0, 0, [])).table
  }

  /** State invariant of the corrected loop: rows are accounted for, the counter is exactly
      the number of finished rows, every row is finished or untouched, and the stack holds
      distinct untouched rows. */
  predicate OnceInv(s: Sim)
  {
    && Consistent(s.table, s.clock)
    && s.completed == CountFinished(s.table)
    && (forall i :: 0 <= i < |s.table| ==> s.table[i].remaining == 0 || Fresh(s.table[i]))
    && IndicesIn(s.waiting, |s.table|)
    && Distinct(s.waiting)
    && (forall k :: 0 <= k < |s.waiting| ==> s.table[s.waiting[k]].remaining > 0)
  }

  /** Running an untouched row to completion from no earlier than its arrival keeps the
      rows accounted for and the counter exact. */
  lemma CompleteFreshAccounts(t: seq<Proc>, clock: int, completed: int, i: nat, c: int)
    requires Consistent(t, clock) && completed == CountFinished(t)
    requires i < |t| && Fresh(t[i]) && t[i].remaining > 0
    requires c == Max(clock, t[i].arrival) + t[i].burst
    ensures Consistent(Complete(t, i, c), c)
    ensures completed + 1 == CountFinished(Complete(t, i, c))
  {
    var start := Max(clock, t[i].arrival);
    assert Complete(t, i, c) == Serve(t, i, start, t[i].burst);
    ConsistentLater(t, clock, start);
    ServeKeepsAccounts(t, i, start, t[i].burst);
  }

  /** The entries below the popped one are distinct untouched rows other than it. */
  lemma RestStaysLive(t: seq<Proc>, stack: seq<nat>, c: int)
    requires IndicesIn(stack, |t|) && Distinct(stack) && |stack| > 0
    requires forall k :: 0 <= k < |stack| ==> t[stack[k]].remaining > 0
    ensures var rest := stack[..|stack| - 1];
      var t' := Complete(t, stack[|stack| - 1], c);
      && IndicesIn(rest, |t'|) && Distinct(rest)
      && forall k :: 0 <= k < |rest| ==> t'[rest[k]].remaining > 0
  {
    var i := stack[|stack| - 1];
    var rest := stack[..|stack| - 1];
    forall k | 0 <= k < |rest|
      ensures Complete(t, i, c)[rest[k]].remaining > 0
    {
      assert rest[k] == stack[k] != i;
    }
  }

  /** Completing a row keeps every row finished or untouched. */
  lemma CompleteKeepsDoneOrFresh(t: seq<Proc>, i: nat, c: int)
    requires i < |t| && forall j :: 0 <= j < |t| ==> t[j].remaining == 0 || Fresh(t[j])
    ensures forall j :: 0 <= j < |t| ==> Complete(t, i, c)[j].remaining == 0 || Fresh(Complete(t, i, c)[j])
  {
  }

  /** Popping an untouched row and running it to completion keeps the invariant. */
  lemma CompleteKeepsOnceInv(t: seq<Proc>, clock: int, completed: int, stack: seq<nat>, c: int)
    requires Consistent(t, clock) && completed == CountFinished(t)
    requires forall i :: 0 <= i < |t| ==> t[i].remaining == 0 || Fresh(t[i])
    requires IndicesIn(stack, |t|) && Distinct(stack) && |stack| > 0
    requires forall k :: 0 <= k < |stack| ==> t[stack[k]].remaining > 0
    requires c == Max(clock, t[stack[|stack| - 1]].arrival) + t[stack[|stack| - 1]].burst
    ensures OnceInv(Sim(Complete(t, stack[|stack| - 1], c), c, completed + 1, stack[..|stack| - 1]))
  {
    var i := stack[|stack| - 1];
    CompleteFreshAccounts(t, clock, completed, i, c);
    RestStaysLive(t, stack, c);
    CompleteKeepsDoneOrFresh(t, i, c);
    OnceInvIntro(Complete(t, i, c), c, completed + 1, stack[..|stack| - 1]);
  }

  lemma OnceInvIntro(t: seq<Proc>, clock: int, completed: int, stack: seq<nat>)
    requires Consistent(t, clock) && completed == CountFinished(t)
    requires forall i :: 0 <= i < |t| ==> t[i].remaining == 0 || Fresh(t[i])
    requires IndicesIn(stack, |t|) && Distinct(stack)
    requires forall k :: 0 <= k < |stack| ==> t[stack[k]].remaining > 0
    ensures OnceInv(Sim(t, clock, completed, stack))
  {
  }

  /** A pop of the corrected loop keeps the invariant. */
  lemma PopKeepsOnceInv(t: seq<Proc>, clock: int, completed: int, stack: seq<nat>)
    requires Consistent(t, clock) && completed == CountFinished(t)
    requires forall i :: 0 <= i < |t| ==> t[i].remaining == 0 || Fresh(t[i])
    requires IndicesIn(stack, |t|) && Distinct(stack) && |stack| > 0
    requires forall k :: 0 <= k < |stack| ==> t[stack[k]].remaining > 0
    ensures PopOrIdle(t, clock, completed, stack).Go? && OnceInv(PopOrIdle(t, clock, completed, stack).next)
  {
    var i := stack[|stack| - 1];
    var c := Max(clock, t[i].arrival) + t[i].burst;
    CompleteKeepsOnceInv(t, clock, completed, stack, c);
    PopCarriesOnceInv(t, clock, completed, stack, c);
  }

  lemma PopCarriesOnceInv(t: seq<Proc>, clock: int, completed: int, stack: seq<nat>, c: int)
    requires IndicesIn(stack, |t|) && |stack| > 0
    requires c == Max(clock, t[stack[|stack| - 1]].arrival) + t[stack[|stack| - 1]].burst
    requires OnceInv(Sim(Complete(t, stack[|stack| - 1], c), c, completed + 1, stack[..|stack| - 1]))
    ensures PopOrIdle(t, clock, completed, stack).Go? && OnceInv(PopOrIdle(t, clock, completed, stack).next)
  {
  }

  /** A pass of the corrected loop with an empty stack either leaves the loop with every row
      finished or idle-advances the clock, keeping the invariant. */
  lemma AdmitOnceIdleKeeps(s: Sim)
    requires OnceInv(s) && |Enqueue(s.table, s.clock, s.waiting, None)| == 0
    ensures OnceInv(AdmitOnceStep(s).State())
    ensures AdmitOnceStep(s).Stop? ==>
      forall i :: 0 <= i < |s.table| ==> AdmitOnceStep(s).last.table[i].remaining == 0
  {
    var t := s.table;
    EnqueueSpec(t, s.clock, s.waiting, None);
    match NextArrival(t, s.clock)
    case None =>
      assert AdmitOnceStep(s) == Stop(Sim(t, s.clock, s.completed, []));
      forall i | 0 <= i < |t|
        ensures t[i].remaining == 0
      {
        assert !Ready(t[i], s.clock);
        assert Accounted(t[i], s.clock);
      }
    case Some(a) =>
      assert AdmitOnceStep(s) == Go(Sim(t, a, s.completed, []));
      ConsistentLater(t, s.clock, a);
  }

  /** A pass of the corrected loop with a non-empty stack pops an untouched row and keeps
      the invariant. */
  lemma AdmitOncePopKeeps(s: Sim)
    requires OnceInv(s) && |Enqueue(s.table, s.clock, s.waiting, None)| > 0
    ensures AdmitOnceStep(s).Go? && OnceInv(AdmitOnceStep(s).next)
  {
    var stack := Enqueue(s.table, s.clock, s.waiting, None);
    assert IndicesIn(stack, |s.table|);
    assert AdmitOnceStep(s) == PopOrIdle(s.table, s.clock, s.completed, stack);
    EnqueueSpec(s.table, s.clock, s.waiting, None);
    PopKeepsOnceInv(s.table, s.clock, s.completed, stack);
  }

  /** One pass of the corrected loop keeps the invariant; when it leaves the loop, every row
      has finished. */
  lemma AdmitOnceStepKeeps(s: Sim)
    requires OnceInv(s) && s.completed < |s.table|
    ensures OnceInv(AdmitOnceStep(s).State())
    ensures AdmitOnceStep(s).Stop? ==>
      forall i :: 0 <= i < |s.table| ==> AdmitOnceStep(s).last.table[i].remaining == 0
  {
    if |Enqueue(s.table, s.clock, s.waiting, None)| > 0 {
      AdmitOncePopKeeps(s);
    } else {
      AdmitOnceIdleKeeps(s);
    }
  }

  lemma {:induction false} AdmitOnceLoopFinishes(s: Sim)
    requires OnceInv(s)
    ensures OnceInv(AdmitOnceLoop(s))
    ensures forall i :: 0 <= i < |s.table| ==> AdmitOnceLoop(s).table[i].remaining == 0
    decreases |s.table| - s.completed, Later(s.table, s.clock)
  {
    if s.completed >= |s.table| {
      CountFinishedAtMost(s.table);
    } else {
      AdmitOnceStepKeeps(s);
      if AdmitOnceStep(s).Go? {
        AdmitOnceLoopFinishes(AdmitOnceStep(s).next);
      }
    }
  }

  /** With a row entering the stack at most once, every job runs exactly once: the counter
      ends at n, every row is finished, and each completion is at least arrival + burst. */
  lemma AdmitOnceCompletesAll(t: seq<Proc>)
    requires Loaded(t) && PositiveBursts(t)
    ensures var r := AdmitOnceLoop(Sim(BSort(t), 0, 0, []));
      && r.completed == |t|
      && forall i :: 0 <= i < |t| ==>
        r.table[i].remaining == 0 && r.table[i].completion >= r.table[i].arrival + r.table[i].burst
  {
    var t0 := BSort(t);
    BSortKeepsRows(t);
    LoadedIsConsistent(t0, 0);
    AdmitOnceLoopFinishes(Sim(t0, 0, 0, []));
    var r := AdmitOnceLoop(Sim(t0, 0, 0, []));
    forall i | 0 <= i < |t|
      ensures r.table[i].completion >= r.table[i].arrival + r.table[i].burst
    {
      assert Accounted(r.table[i], r.clock);
    }
    CountFinishedAll(r.table);
  }
}
