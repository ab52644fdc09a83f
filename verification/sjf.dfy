/** Shortest job first, non-preemptive (main.c:263-307), on the arrival-sorted copy of the
    table. Each pass picks, among the ready rows, one with the least remaining time, the
    lowest index winning a tie, and runs it to completion; with nothing ready it idle-advances. */
module Sjf {
  import opened Wrappers
  import opened Table
  import opened Arrivals
  import opened BubbleSort

  /** `best` is the choice the selection scan has made after looking at rows 0 .. j - 1:
      none when none of them is ready, otherwise a ready row with the least remaining time,
      strictly less than that of every ready row before it. */
  predicate ChosenAmong(t: seq<Proc>, clock: int, j: nat, best: Option<nat>)
    requires j <= |t|
  {
    match best
    case None => forall k :: 0 <= k < j ==> !Ready(t[k], clock)
    case Some(b) =>
      && b < j && Ready(t[b], clock)
      && (forall k :: 0 <= k < j && Ready(t[k], clock) ==> t[b].remaining <= t[k].remaining)
      && (forall k :: 0 <= k < b && Ready(t[k], clock) ==> t[b].remaining < t[k].remaining)
  }

  /** The selection scan of main.c:275-282 from row j on; a row replaces the current choice
      only when its remaining time is strictly smaller. */
  function ShortestFrom(t: seq<Proc>, clock: int, j: nat, best: Option<nat>): (r: Option<nat>)
    requires j <= |t| && ChosenAmong(t, clock, j, best)
    ensures ChosenAmong(t, clock, |t|, r)
    decreases |t| - j
  {
    if j == |t| then best
    else if Ready(t[j], clock) && (best.None? || t[j].remaining < t[best.value].remaining) then
      ShortestFrom(t, clock, j + 1, Some(j))
    else
      ShortestFrom(t, clock, j + 1, best)
  }

  /** The row SJF runs next: none when nothing is ready; otherwise a ready row with the least
      remaining time, and of those the lowest index. */
  function Shortest(t: seq<Proc>, clock: int): (r: Option<nat>)
    ensures r.None? <==> forall k :: 0 <= k < |t| ==> !Ready(t[k], clock)
    ensures r.Some? ==>
      && r.value < |t| && Ready(t[r.value], clock)
      && (forall k :: 0 <= k < |t| && Ready(t[k], clock) ==> t[r.value].remaining <= t[k].remaining)
      && (forall k :: 0 <= k < r.value && Ready(t[k], clock) ==> t[r.value].remaining < t[k].remaining)
  {
    ShortestFrom(t, clock, 0, None)
  }

  /** The selection is determined: a ready row of least remaining time that beats every
      earlier ready row is the one chosen. */
  lemma ShortestUnique(t: seq<Proc>, clock: int, i: nat)
    requires i < |t| && Ready(t[i], clock)
    requires forall k :: 0 <= k < |t| && Ready(t[k], clock) ==> t[i].remaining <= t[k].remaining
    requires forall k :: 0 <= k < i && Ready(t[k], clock) ==> t[i].remaining < t[k].remaining
    ensures Shortest(t, clock) == Some(i)
  {
    var r := Shortest(t, clock);
    assert r.Some?;
  }

  /** One pass of the while loop of sjf. */
  function Step(s: Sim): (r: Turn)
    ensures SameJobs(r.State().table, s.table)
    ensures r.Go? ==>
      || r.next.completed == s.completed + 1
      || (r.next.completed == s.completed && r.next.table == s.table
          && Later(s.table, r.next.clock) < Later(s.table, s.clock))
  {
    match Shortest(s.table, s.clock)
    case Some(i) =>
      var d := s.table[i].remaining;
      Go(Sim(Serve(s.table, i, s.clock, d), s.clock + d, s.completed + 1, s.waiting))
    case None =>
      NextArrivalShrinksLater(s.table, s.clock);
      match NextArrival(s.table, s.clock)
      case None => Stop(s)
      case Some(a) => Go(Sim(s.table, a, s.completed, s.waiting))
  }

  /** The while loop of sjf, from state s on. */
  function Loop(s: Sim): (r: Sim)
    ensures SameJobs(r.table, s.table)
    decreases |s.table| - s.completed, Later(s.table, s.clock)
  {
    if s.completed >= |s.table| then s
    else
      match Step(s)
      case Stop(last) => last
      case Go(next) => Loop(next)
  }

  function Schedule(t: seq<Proc>): (r: seq<Proc>)
    ensures SameJobs(r, BSort(t))
  {
    Loop(Sim(BSort(t), 0, 0, [])).table
  }

  /** The state invariant: rows are accounted for, the counter is the number of finished
      rows, and a row is either finished or has its whole burst left. */
  predicate Inv(s: Sim)
  {
    && Consistent(s.table, s.clock)
    && s.completed == CountFinished(s.table)
    && forall i :: 0 <= i < |s.table| ==> s.table[i].remaining == 0 || s.table[i].remaining == s.table[i].burst
  }

  /** A pass that finds a ready row runs the shortest one to completion: the clock advances by
      its burst, its completion is the new clock, and no other row changes. */
  lemma StepRunsShortest(s: Sim)
    requires Inv(s) && Shortest(s.table, s.clock).Some?
    ensures var i := Shortest(s.table, s.clock).value;
      var r := Step(s).next;
      && Step(s).Go?
      && r.clock == s.clock + s.table[i].burst
      && r.table[i].remaining == 0 && r.table[i].completion == r.clock
      && r.completed == s.completed + 1
      && forall k :: 0 <= k < |s.table| && k != i ==> r.table[k] == s.table[k]
  {
  }

  lemma RunKeepsInv(s: Sim)
    requires Inv(s) && Shortest(s.table, s.clock).Some?
    ensures Inv(Step(s).State())
  {
    var t := s.table;
    var i := Shortest(t, s.clock).value;
    var d := t[i].remaining;
    assert Step(s) == Go(Sim(Serve(t, i, s.clock, d), s.clock + d, s.completed + 1, s.waiting));
    ServeKeepsAccounts(t, i, s.clock, d);
  }

  lemma IdleKeepsInv(s: Sim)
    requires Inv(s) && Shortest(s.table, s.clock).None?
    ensures Inv(Step(s).State())
    ensures Step(s).Stop? ==> forall i :: 0 <= i < |s.table| ==> Step(s).last.table[i].remaining == 0
  {
    var t := s.table;
    match NextArrival(t, s.clock)
    case None =>
      assert Step(s) == Stop(s);
      forall i | 0 <= i < |t|
        ensures t[i].remaining == 0
      {
        assert !Ready(t[i], s.clock);
        assert Accounted(t[i], s.clock);
      }
    case Some(a) =>
      assert Step(s) == Go(Sim(t, a, s.completed, s.waiting));
      ConsistentLater(t, s.clock, a);
  }

  lemma {:induction false} LoopFinishes(s: Sim)
    requires Inv(s)
    ensures Inv(Loop(s))
    ensures forall i :: 0 <= i < |s.table| ==> Loop(s).table[i].remaining == 0
    decreases |s.table| - s.completed, Later(s.table, s.clock)
  {
    if s.completed >= |s.table| {
      CountFinishedAtMost(s.table);
    } else {
      if Shortest(s.table, s.clock).Some? {
        RunKeepsInv(s);
      } else {
        IdleKeepsInv(s);
      }
      if Step(s).Go? {
        LoopFinishes(Step(s).next);
      }
    }
  }

  /** Every job completes exactly once: the counter ends at n, every row is finished, and each
      completion is at least arrival + burst. */
  lemma ScheduleCompletesAll(t: seq<Proc>)
    requires Loaded(t) && PositiveBursts(t)
    ensures var r := Loop(Sim(BSort(t), 0, 0, []));
      && r.completed == |t|
      && forall i :: 0 <= i < |t| ==>
        r.table[i].remaining == 0 && r.table[i].completion >= r.table[i].arrival + r.table[i].burst
  {
    var t0 := BSort(t);
    BSortKeepsRows(t);
    LoadedIsConsistent(t0, 0);
    LoopFinishes(Sim(t0, 0, 0, []));
    var r := Loop(Sim(t0, 0, 0, []));
    forall i | 0 <= i < |t|
      ensures r.table[i].completion >= r.table[i].arrival + r.table[i].burst
    {
      assert Accounted(r.table[i], r.clock);
    }
    CountFinishedAll(r.table);
  }
}
