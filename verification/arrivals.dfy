/** The scans main.c repeats inside every scheduler loop: the idle-advance to the next arrival,
    the push of every ready row onto an LCFS stack, and the Round Robin admission that skips
    rows already queued. */
module Arrivals {
  import opened Wrappers
  import opened Table

  /** Idle-advance target: the smallest arrival time strictly later than `clock` over all rows,
      finished or not; None when no row arrives later, which is where each loop breaks. */
  function NextArrival(t: seq<Proc>, clock: int): (r: Option<int>)
    ensures r.None? <==> forall i :: 0 <= i < |t| ==> t[i].arrival <= clock
    ensures r.Some? ==> clock < r.value && exists i :: 0 <= i < |t| && t[i].arrival == r.value
    ensures r.Some? ==> forall i :: 0 <= i < |t| && clock < t[i].arrival ==> r.value <= t[i].arrival
  {
    if |t| == 0 then None
    else
      var rest := NextArrival(t[1..], clock);
      assert forall i :: 1 <= i < |t| ==> t[i] == t[1..][i - 1];
      if clock < t[0].arrival && (rest.None? || t[0].arrival < rest.value) then Some(t[0].arrival)
      else rest
  }

  /** Number of rows that arrive strictly after `clock`: the measure the idle-advance lowers. */
  function Later(t: seq<Proc>, clock: int): nat
  {
    if |t| == 0 then 0 else (if clock < t[0].arrival then 1 else 0) + Later(t[1..], clock)
  }

  lemma {:induction false} LaterMonotone(t: seq<Proc>, early: int, late: int)
    requires early <= late
    ensures Later(t, late) <= Later(t, early)
  {
    if |t| > 0 {
      LaterMonotone(t[1..], early, late);
    }
  }

  lemma {:induction false} LaterShrinks(t: seq<Proc>, clock: int, i: nat)
    requires i < |t| && clock < t[i].arrival
    ensures Later(t, t[i].arrival) < Later(t, clock)
  {
    if i == 0 {
      LaterMonotone(t[1..], clock, t[0].arrival);
    } else {
      assert t[1..][i - 1] == t[i];
      LaterShrinks(t[1..], clock, i - 1);
    }
  }

  /** Jumping to the next arrival leaves strictly fewer rows in the future: every idle-advance
      brings the loop closer to its end. */
  lemma NextArrivalShrinksLater(t: seq<Proc>, clock: int)
    ensures NextArrival(t, clock).Some? ==> Later(t, NextArrival(t, clock).value) < Later(t, clock)
  {
    if NextArrival(t, clock).Some? {
      var i :| 0 <= i < |t| && t[i].arrival == NextArrival(t, clock).value;
      LaterShrinks(t, clock, i);
    }
  }

  /** One push scan of the LCFS loops from row j on: the index of every ready row, in index order. */
  function ArrivedFrom(t: seq<Proc>, clock: int, j: nat): (r: seq<nat>)
    requires j <= |t|
    ensures forall k :: 0 <= k < |r| ==> j <= r[k] < |t| && Ready(t[r[k]], clock)
    ensures forall i :: j <= i < |t| && Ready(t[i], clock) ==> i in r
    ensures forall k, l :: 0 <= k < l < |r| ==> r[k] < r[l]
    decreases |t| - j
  {
    if j == |t| then []
    else (if Ready(t[j], clock) then [j] else []) + ArrivedFrom(t, clock, j + 1)
  }

  function Arrived(t: seq<Proc>, clock: int): seq<nat>
  {
    ArrivedFrom(t, clock, 0)
  }

  /** After a push scan that pushed something, the top of the stack is the highest-index ready
      row; in an arrival-sorted table that is the latest-arriving one. */
  lemma LatestOnTop(t: seq<Proc>, clock: int, stack: seq<nat>)
    requires |Arrived(t, clock)| > 0
    ensures var s := stack + Arrived(t, clock);
      && Ready(t[s[|s| - 1]], clock)
      && forall i :: 0 <= i < |t| && Ready(t[i], clock) ==> i <= s[|s| - 1]
  {
    var a := Arrived(t, clock);
    var s := stack + a;
    assert s[|s| - 1] == a[|a| - 1];
    forall i | 0 <= i < |t| && Ready(t[i], clock)
      ensures i <= s[|s| - 1]
    {
      var k :| 0 <= k < |a| && a[k] == i;
      if k < |a| - 1 {
        assert a[k] < a[|a| - 1];
      }
    }
  }

  /** The Round Robin admission scan from row j on: the rows, in index order, that are ready,
      not already in the queue q and not `skip`. The source tests membership against the queue
      as it grows during the scan; rows appended earlier in the scan have smaller indices than
      j, so testing against q alone decides the same. */
  function AdmittedFrom(t: seq<Proc>, clock: int, q: seq<nat>, skip: Option<nat>, j: nat): (a: seq<nat>)
    requires j <= |t|
    ensures forall k :: 0 <= k < |a| ==>
      j <= a[k] < |t| && Ready(t[a[k]], clock) && a[k] !in q && skip != Some(a[k])
    ensures forall k, l :: 0 <= k < l < |a| ==> a[k] < a[l]
    ensures forall x :: j <= x < |t| && Ready(t[x], clock) && x !in q && skip != Some(x) ==> x in a
    decreases |t| - j
  {
    if j == |t| then []
    else
      var admit := Ready(t[j], clock) && j !in q && skip != Some(j);
      (if admit then [j] else []) + AdmittedFrom(t, clock, q, skip, j + 1)
  }

  /** The queue after an admission scan: q with the admitted rows appended at the rear. */
  function Enqueue(t: seq<Proc>, clock: int, q: seq<nat>, skip: Option<nat>): (r: seq<nat>)
    ensures forall k :: |q| <= k < |r| ==> r[k] < |t| && Ready(t[r[k]], clock) && r[k] !in q && skip != Some(r[k])
    ensures forall x :: 0 <= x < |t| && Ready(t[x], clock) && skip != Some(x) ==> x in r
  {
    q + AdmittedFrom(t, clock, q, skip, 0)
  }

  /** Admission never duplicates a queue entry, and afterwards every ready row other than
      `skip` is in the queue. */
  lemma EnqueueSpec(t: seq<Proc>, clock: int, q: seq<nat>, skip: Option<nat>)
    requires Distinct(q)
    ensures Enqueue(t, clock, q, skip)[..|q|] == q
    ensures Distinct(Enqueue(t, clock, q, skip))
    ensures forall x :: 0 <= x < |t| && Ready(t[x], clock) && skip != Some(x) ==> x in Enqueue(t, clock, q, skip)
  {
    var a := AdmittedFrom(t, clock, q, skip, 0);
    var r := q + a;
    forall k, l | 0 <= k < l < |r|
      ensures r[k] != r[l]
    {
      if l >= |q| && k < |q| {
        assert r[l] == a[l - |q|];
        assert r[k] in q;
      }
    }
  }
}
