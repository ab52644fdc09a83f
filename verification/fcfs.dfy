/** First-come first-served (main.c:68-83): the arrival-sorted rows run one after the other,
    each starting at the later of the clock and its own arrival. */
module Fcfs {
  import opened Table
  import opened BubbleSort

  /** When row k of the FCFS result may start: the clock handed to the run for the first row
      scheduled, the previous row's completion time for every later one. */
  function Start(r: seq<Proc>, first: nat, clock: int, k: nat): int
    requires first <= k < |r|
  {
    if k == first then clock else r[k - 1].completion
  }

  /** The FCFS loop from row i on, the clock standing at `clock`. Only completion times are
      written; remaining times are left as loaded. */
  function Run(t: seq<Proc>, i: nat, clock: int): (r: seq<Proc>)
    requires i <= |t|
    ensures SameJobs(r, t)
    ensures forall k :: 0 <= k < i ==> r[k] == t[k]
    ensures forall k :: i <= k < |t| ==> r[k].remaining == t[k].remaining
    ensures forall k :: i <= k < |t| ==>
      r[k].completion == Max(Start(r, i, clock, k), r[k].arrival) + r[k].burst
    decreases |t| - i
  {
    if i == |t| then t
    else
      var c := Max(clock, t[i].arrival) + t[i].burst;
      Run(t[i := t[i].(completion := c)], i + 1, c)
  }

  /** fcfs: the arrival-sorted rows, each completing no earlier than its arrival plus its
      burst. */
  function Schedule(t: seq<Proc>): (r: seq<Proc>)
    ensures SameJobs(r, BSort(t))
    ensures forall k :: 0 <= k < |r| ==> r[k].completion >= r[k].arrival + r[k].burst
  {
    Run(BSort(t), 0, 0)
  }

  /** A table whose consecutive completion times increase is increasing throughout. */
  lemma {:induction false} StepwiseIncreasing(r: seq<Proc>, b: nat)
    requires b <= |r|
    requires forall k :: 0 < k < b ==> r[k - 1].completion < r[k].completion
    ensures forall a, c :: 0 <= a < c < b ==> r[a].completion < r[c].completion
  {
    if b > 0 {
      StepwiseIncreasing(r, b - 1);
      forall a | 0 <= a < b - 1
        ensures r[a].completion < r[b - 1].completion
      {
        if a < b - 2 {
          assert r[a].completion < r[b - 2].completion;
        }
      }
    }
  }

  /** With positive bursts, FCFS completion times strictly increase in arrival order. */
  lemma ScheduleIncreasing(t: seq<Proc>)
    requires PositiveBursts(t)
    ensures forall a, b :: 0 <= a < b < |t| ==> Schedule(t)[a].completion < Schedule(t)[b].completion
  {
    var r := Schedule(t);
    BSortKeepsRows(t);
    forall k | 0 < k < |r|
      ensures r[k - 1].completion < r[k].completion
    {
      assert BSort(t)[k].burst > 0;
      assert r[k].completion == Max(r[k - 1].completion, r[k].arrival) + r[k].burst;
    }
    StepwiseIncreasing(r, |r|);
  }

  /** FCFS leaves every remaining time as loaded: the source never writes it. */
  lemma ScheduleKeepsRemaining(t: seq<Proc>)
    ensures forall k :: 0 <= k < |t| ==> Schedule(t)[k].remaining == BSort(t)[k].remaining
  {
    BSortKeepsRows(t);
  }
}
