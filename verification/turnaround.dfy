/** The figure every scheduler of the simulator reports (main.c:60-66): the sum over the
    rows of completion - arrival, which calculateAverageTurnaround divides by the number of
    rows in floating point. The model keeps the integer sum and relates it to the schedules:
    a scheduler that runs every job for its whole burst cannot report less than the total
    burst, and the defective LCFS schedules report less. */
module Turnaround {
  import opened Table
  import opened BubbleSort
  import Fcfs
  import LcfsNonPreemptive
  import LcfsPreemptive
  import RoundRobin
  import Sjf

  function TurnaroundOf(p: Proc): int
  {
    p.completion - p.arrival
  }

  function BurstOf(p: Proc): int
  {
    p.burst
  }

  /** The sum of f over the rows, accumulated from the first row to the last. */
  function Sum(t: seq<Proc>, f: Proc -> int): int
  {
    if |t| == 0 then 0 else Sum(t[..|t| - 1], f) + f(t[|t| - 1])
  }

  function TotalTurnaround(t: seq<Proc>): int
  {
    Sum(t, TurnaroundOf)
  }

  function TotalBurst(t: seq<Proc>): int
  {
    Sum(t, BurstOf)
  }

  /** The accumulation loop of calculateAverageTurnaround, before the division. */
  method SumTurnaround(arr: seq<Proc>) returns (total: int)
    ensures total == TotalTurnaround(arr)
  {
    total := 0;
    var i := 0;
    while i < |arr|
      invariant 0 <= i <= |arr|
      invariant total == TotalTurnaround(arr[..i])
    {
      assert arr[..i + 1][..i] == arr[..i];
      total := total + (arr[i].completion - arr[i].arrival);
      i := i + 1;
    }
    assert arr[..|arr|] == arr;
  }

  lemma {:induction false} SumAppend(u: seq<Proc>, v: seq<Proc>, f: Proc -> int)
    ensures Sum(u + v, f) == Sum(u, f) + Sum(v, f)
    decreases |v|
  {
    if |v| == 0 {
      assert u + v == u;
    } else {
      var w := v[..|v| - 1];
      assert (u + v)[..|u + v| - 1] == u + w;
      SumAppend(u, w, f);
    }
  }

  /** The sum does not depend on the order of the rows. */
  lemma {:induction false} SumPermutation(a: seq<Proc>, b: seq<Proc>, f: Proc -> int)
    requires multiset(a) == multiset(b)
    ensures Sum(a, f) == Sum(b, f)
    decreases |a|
  {
    if |a| == 0 {
      assert |b| == |multiset(b)| == 0;
    } else {
      var x := a[|a| - 1];
      var a' := a[..|a| - 1];
      assert a == a' + [x];
      assert x in multiset(b);
      var k :| 0 <= k < |b| && b[k] == x;
      var b' := b[..k] + b[k + 1..];
      assert b == b[..k] + [x] + b[k + 1..];
      assert multiset(a') == multiset(b') by {
        assert multiset(a) == multiset(a') + multiset([x]);
        assert multiset(b) == multiset(b[..k]) + multiset([x]) + multiset(b[k + 1..]);
        assert multiset(b') == multiset(b[..k]) + multiset(b[k + 1..]);
        assert multiset(b') == multiset(b) - multiset([x]);
        assert multiset(a') == multiset(a) - multiset([x]);
      }
      SumPermutation(a', b', f);
      SumAppend(b[..k] + [x], b[k + 1..], f);
      SumAppend(b[..k], b[k + 1..], f);
      SumAppend(b[..k], [x], f);
      assert Sum([x], f) == f(x) by {
        assert [x][..0] == [];
      }
    }
  }

  /** Rows that are the same jobs have the same total burst. */
  lemma {:induction false} SameJobsSameBurst(a: seq<Proc>, b: seq<Proc>)
    requires SameJobs(a, b)
    ensures TotalBurst(a) == TotalBurst(b)
    decreases |a|
  {
    if |a| > 0 {
      SameJobsSameBurst(a[..|a| - 1], b[..|b| - 1]);
    }
  }

  /** When every job completes no earlier than arrival + burst, the total turnaround is at
      least the total burst, and it equals the total burst exactly when every job completes at
      arrival + burst, that is, none of them ever waited. */
  lemma {:induction false} TurnaroundAtLeastBurst(t: seq<Proc>)
    requires forall i :: 0 <= i < |t| ==> t[i].completion >= t[i].arrival + t[i].burst
    ensures TotalTurnaround(t) >= TotalBurst(t)
    ensures TotalTurnaround(t) == TotalBurst(t) <==>
      forall i :: 0 <= i < |t| ==> t[i].completion == t[i].arrival + t[i].burst
    decreases |t|
  {
    if |t| > 0 {
      var w := t[..|t| - 1];
      TurnaroundAtLeastBurst(w);
      assert forall i :: 0 <= i < |w| ==> w[i] == t[i];
    }
  }

  /** Sorting the table by arrival changes neither total. */
  lemma SortKeepsTotals(t: seq<Proc>)
    ensures TotalTurnaround(BSort(t)) == TotalTurnaround(t)
    ensures TotalBurst(BSort(t)) == TotalBurst(t)
  {
    SumPermutation(BSort(t), t, TurnaroundOf);
    SumPermutation(BSort(t), t, BurstOf);
  }

  /** FCFS never reports less than the total burst. */
  lemma FcfsAtLeastBurst(t: seq<Proc>)
    ensures TotalTurnaround(Fcfs.Schedule(t)) >= TotalBurst(t)
  {
    TurnaroundAtLeastBurst(Fcfs.Schedule(t));
    SameJobsSameBurst(Fcfs.Schedule(t), BSort(t));
    SortKeepsTotals(t);
  }

  /** SJF never reports less than the total burst. */
  lemma SjfAtLeastBurst(t: seq<Proc>)
    requires Loaded(t) && PositiveBursts(t)
    ensures TotalTurnaround(Sjf.Schedule(t)) >= TotalBurst(t)
  {
    Sjf.ScheduleCompletesAll(t);
    TurnaroundAtLeastBurst(Sjf.Schedule(t));
    SameJobsSameBurst(Sjf.Schedule(t), BSort(t));
    SortKeepsTotals(t);
  }

  /** Round Robin never reports less than the total burst. */
  lemma RoundRobinAtLeastBurst(t: seq<Proc>)
    requires Loaded(t) && PositiveBursts(t)
    ensures TotalTurnaround(RoundRobin.Schedule(t)) >= TotalBurst(t)
  {
    RoundRobin.ScheduleCompletesAll(t);
    TurnaroundAtLeastBurst(RoundRobin.Schedule(t));
    SameJobsSameBurst(RoundRobin.Schedule(t), t);
  }

  /** The corrected LCFS schedules never report less than the total burst. */
  lemma CorrectedLcfsAtLeastBurst(t: seq<Proc>)
    requires Loaded(t) && PositiveBursts(t)
    ensures TotalTurnaround(LcfsNonPreemptive.ScheduleAdmitOnce(t)) >= TotalBurst(t)
    ensures TotalTurnaround(LcfsPreemptive.ScheduleAdmitFirst(t)) >= TotalBurst(t)
  {
    SortKeepsTotals(t);
    LcfsNonPreemptive.AdmitOnceCompletesAll(t);
    TurnaroundAtLeastBurst(LcfsNonPreemptive.ScheduleAdmitOnce(t));
    SameJobsSameBurst(LcfsNonPreemptive.ScheduleAdmitOnce(t), BSort(t));
    LcfsPreemptive.AdmitFirstCompletesAll(t);
    TurnaroundAtLeastBurst(LcfsPreemptive.ScheduleAdmitFirst(t));
    SameJobsSameBurst(LcfsPreemptive.ScheduleAdmitFirst(t), BSort(t));
  }

  lemma SumOfOne(p: Proc, f: Proc -> int)
    ensures Sum([p], f) == f(p)
  {
    assert [p][..0] == [];
  }

  lemma SumOfTwo(p: Proc, q: Proc, f: Proc -> int)
    ensures Sum([p, q], f) == f(p) + f(q)
  {
    SumOfOne(p, f);
    assert [p, q][..1] == [p];
  }

  lemma SumOfThree(p: Proc, q: Proc, u: Proc, f: Proc -> int)
    ensures Sum([p, q, u], f) == f(p) + f(q) + f(u)
  {
    assert [p, q, u][..2] == [p, q];
    SumOfTwo(p, q, f);
  }

  lemma NonPreemptiveExampleTotals()
    ensures TotalTurnaround([Proc(0, 1, 0, 3), Proc(0, 1, 0, 1), Load(100, 1)]) == -96
    ensures TotalBurst([Load(0, 1), Load(0, 1), Load(100, 1)]) == 3
  {
    SumOfThree(Proc(0, 1, 0, 3), Proc(0, 1, 0, 1), Load(100, 1), TurnaroundOf);
    SumOfThree(Load(0, 1), Load(0, 1), Load(100, 1), BurstOf);
  }

  /** The totals of a one-row table are that row's turnaround and burst. */
  lemma LoneTotals(p: Proc)
    ensures TotalTurnaround([p]) == p.completion - p.arrival
    ensures TotalBurst([p]) == p.burst
  {
    SumOfOne(p, TurnaroundOf);
    SumOfOne(p, BurstOf);
  }

  lemma LoneJobTotals()
    ensures TotalTurnaround([Load(0, 5)]) == 0 && TotalBurst([Load(0, 5)]) == 5
  {
    LoneTotals(Proc(0, 5, 5, 0));
  }

  lemma PreemptiveExampleTotals()
    ensures TotalTurnaround([Proc(3, 1, 0, 4), Load(4, 1)]) == -3
    ensures TotalBurst([Load(3, 1), Load(4, 1)]) == 2
  {
    SumOfTwo(Proc(3, 1, 0, 4), Load(4, 1), TurnaroundOf);
    SumOfTwo(Load(3, 1), Load(4, 1), BurstOf);
  }

  /** LCFS without preemption as written reports -96 against a total burst of 3 for
      (0,1), (0,1), (100,1): a finished job's second run stands in for the job that never ran. */
  lemma NonPreemptiveUnderReports()
    ensures var t := [Load(0, 1), Load(0, 1), Load(100, 1)];
      TotalTurnaround(LcfsNonPreemptive.Schedule(t)) == -96 && TotalBurst(t) == 3
  {
    var t := [Load(0, 1), Load(0, 1), Load(100, 1)];
    assert LcfsNonPreemptive.Schedule(t) == [Proc(0, 1, 0, 3), Proc(0, 1, 0, 1), Load(100, 1)] by {
      LcfsNonPreemptive.RerunsFinishedJob();
    }
    NonPreemptiveExampleTotals();
  }

  /** LCFS with preemption as written reports 0 against 5 for a lone (0,5) and -3 against 2
      for (3,1), (4,1): the jobs it never runs count with completion 0. */
  lemma PreemptiveUnderReports()
    ensures TotalTurnaround(LcfsPreemptive.Schedule([Load(0, 5)])) == 0
      && TotalBurst([Load(0, 5)]) == 5
    ensures TotalTurnaround(LcfsPreemptive.Schedule([Load(3, 1), Load(4, 1)])) == -3
      && TotalBurst([Load(3, 1), Load(4, 1)]) == 2
  {
    assert LcfsPreemptive.Schedule([Load(0, 5)]) == [Load(0, 5)] by {
      LcfsPreemptive.LoneJobNeverRuns();
    }
    assert LcfsPreemptive.Schedule([Load(3, 1), Load(4, 1)]) == [Proc(3, 1, 0, 4), Load(4, 1)] by {
      LcfsPreemptive.SkipsArrivalAtClock();
    }
    LoneJobTotals();
    PreemptiveExampleTotals();
  }
}
