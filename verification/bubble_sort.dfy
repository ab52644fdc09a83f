/** The bubble sort main.c runs on each private copy of the table before scheduling, with
    compareArrival as the comparator. Adjacent rows are swapped only when the comparator is
    strictly positive, which makes the sort stable. */
module BubbleSort {
  import opened Table

  /** compareArrival; the C subtraction can overflow, the model's integers do not. */
  function CompareArrival(a: Proc, b: Proc): int
  {
    a.arrival - b.arrival
  }

  predicate Sorted(s: seq<Proc>)
  {
    forall a, b :: 0 <= a < b < |s| ==> s[a].arrival <= s[b].arrival
  }

  /** The rows of s with arrival time x, in their order in s. */
  function WithArrival(s: seq<Proc>, x: int): seq<Proc>
  {
    if |s| == 0 then [] else (if s[0].arrival == x then [s[0]] else []) + WithArrival(s[1..], x)
  }

  /** Stability: rows with equal arrival times keep their relative order. */
  ghost predicate SameTies(r: seq<Proc>, s: seq<Proc>)
  {
    forall x :: WithArrival(r, x) == WithArrival(s, x)
  }

  function Swap(s: seq<Proc>, j: nat): seq<Proc>
    requires j + 1 < |s|
  {
    s[j := s[j + 1]][j + 1 := s[j]]
  }

  /** One comparison of the inner loop: rows j and j + 1 trade places when the first
      arrives strictly later. */
  function Bubble(s: seq<Proc>, j: nat): (r: seq<Proc>)
    requires j + 1 < |s|
    ensures |r| == |s|
  {
    if CompareArrival(s[j], s[j + 1]) > 0 then Swap(s, j) else s
  }

  /** The inner loop of bSort for j from `j` up to lim - 1: compare rows j and j + 1 and swap
      them when the first arrives strictly later. Rows beyond lim are untouched. */
  function Pass(s: seq<Proc>, j: nat, lim: nat): (r: seq<Proc>)
    requires j <= lim < |s|
    ensures |r| == |s|
    decreases lim - j
  {
    if j == lim then s
    else Pass(Bubble(s, j), j + 1, lim)
  }

  /** A pass leaves the rows after lim as they were. */
  lemma {:induction false} PassKeepsTail(s: seq<Proc>, j: nat, lim: nat)
    requires j <= lim < |s|
    ensures forall k :: lim < k < |s| ==> Pass(s, j, lim)[k] == s[k]
    decreases lim - j
  {
    if j < lim {
      PassKeepsTail(Bubble(s, j), j + 1, lim);
    }
  }

  /** The outer loop of bSort from round i on: round i bubbles over rows 0 .. n - i - 1. */
  function Sweep(s: seq<Proc>, i: nat): (r: seq<Proc>)
    ensures |r| == |s|
    decreases |s| - i
  {
    if i + 1 >= |s| then s else Sweep(Pass(s, 0, |s| - i - 1), i + 1)
  }

  /** bSort(arr, n, compareArrival): a stable sort of the table by arrival time. */
  function BSort(s: seq<Proc>): (r: seq<Proc>)
    ensures multiset(r) == multiset(s) && Sorted(r) && SameTies(r, s)
  {
    SweepPermutes(s, 0);
    SweepSorts(s, 0);
    SweepKeepsTies(s, 0);
    Sweep(s, 0)
  }

  lemma SwapPermutes(s: seq<Proc>, j: nat)
    requires j + 1 < |s|
    ensures multiset(Swap(s, j)) == multiset(s)
  {
    assert s == s[..j] + [s[j], s[j + 1]] + s[j + 2..];
    assert Swap(s, j) == s[..j] + [s[j + 1], s[j]] + s[j + 2..];
  }

  lemma BubblePermutes(s: seq<Proc>, j: nat)
    requires j + 1 < |s|
    ensures multiset(Bubble(s, j)) == multiset(s)
  {
    if CompareArrival(s[j], s[j + 1]) > 0 {
      SwapPermutes(s, j);
    }
  }

  lemma {:induction false} PassPermutes(s: seq<Proc>, j: nat, lim: nat)
    requires j <= lim < |s|
    ensures multiset(Pass(s, j, lim)) == multiset(s)
    decreases lim - j
  {
    if j < lim {
      BubblePermutes(s, j);
      PassPermutes(Bubble(s, j), j + 1, lim);
    }
  }

  lemma {:induction false} SweepPermutes(s: seq<Proc>, i: nat)
    ensures multiset(Sweep(s, i)) == multiset(s)
    decreases |s| - i
  {
    if i + 1 < |s| {
      PassPermutes(s, 0, |s| - i - 1);
      SweepPermutes(Pass(s, 0, |s| - i - 1), i + 1);
    }
  }

  lemma {:induction false} WithArrivalAppend(a: seq<Proc>, b: seq<Proc>, x: int)
    ensures WithArrival(a + b, x) == WithArrival(a, x) + WithArrival(b, x)
  {
    if |a| > 0 {
      assert (a + b)[1..] == a[1..] + b;
      WithArrivalAppend(a[1..], b, x);
    } else {
      assert a + b == b;
    }
  }

  /** Swapping two neighbours with different arrival times keeps every tie class in order. */
  lemma SwapKeepsTies(s: seq<Proc>, j: nat)
    requires j + 1 < |s| && s[j].arrival != s[j + 1].arrival
    ensures SameTies(Swap(s, j), s)
  {
    var pre, post := s[..j], s[j + 2..];
    assert s == pre + [s[j], s[j + 1]] + post;
    assert Swap(s, j) == pre + [s[j + 1], s[j]] + post;
    forall x
      ensures WithArrival(Swap(s, j), x) == WithArrival(s, x)
    {
      WithArrivalAppend(pre + [s[j], s[j + 1]], post, x);
      WithArrivalAppend(pre, [s[j], s[j + 1]], x);
      WithArrivalAppend(pre + [s[j + 1], s[j]], post, x);
      WithArrivalAppend(pre, [s[j + 1], s[j]], x);
      WithArrivalAppend([s[j]], [s[j + 1]], x);
      WithArrivalAppend([s[j + 1]], [s[j]], x);
    }
  }

  lemma {:induction false} PassKeepsTies(s: seq<Proc>, j: nat, lim: nat)
    requires j <= lim < |s|
    ensures SameTies(Pass(s, j, lim), s)
    decreases lim - j
  {
    if j < lim {
      if CompareArrival(s[j], s[j + 1]) > 0 {
        SwapKeepsTies(s, j);
      }
      PassKeepsTies(Bubble(s, j), j + 1, lim);
    }
  }

  lemma {:induction false} SweepKeepsTies(s: seq<Proc>, i: nat)
    ensures SameTies(Sweep(s, i), s)
    decreases |s| - i
  {
    if i + 1 < |s| {
      var r := Pass(s, 0, |s| - i - 1);
      PassKeepsTies(s, 0, |s| - i - 1);
      SweepKeepsTies(r, i + 1);
      assert Sweep(s, i) == Sweep(r, i + 1);
      forall x
        ensures WithArrival(Sweep(s, i), x) == WithArrival(s, x)
      {
        assert WithArrival(Sweep(r, i + 1), x) == WithArrival(r, x);
        assert WithArrival(r, x) == WithArrival(s, x);
      }
    }
  }

  /** A pass carries the latest arrival among rows 0 .. lim up to position lim. */
  lemma {:induction false} PassBubblesUp(s: seq<Proc>, j: nat, lim: nat)
    requires j <= lim < |s|
    requires forall k :: 0 <= k < j ==> s[k].arrival <= s[j].arrival
    ensures forall k :: 0 <= k <= lim ==> Pass(s, j, lim)[k].arrival <= Pass(s, j, lim)[lim].arrival
    decreases lim - j
  {
    if j < lim {
      var s' := Bubble(s, j);
      assert forall k :: 0 <= k <= j ==> s'[k].arrival <= s'[j + 1].arrival;
      PassBubblesUp(s', j + 1, lim);
    }
  }

  /** A pass only rearranges rows 0 .. lim, so a bound on their arrival times survives it. */
  lemma {:induction false} PassBounded(s: seq<Proc>, j: nat, lim: nat, bound: int)
    requires j <= lim < |s|
    requires forall k :: 0 <= k <= lim ==> s[k].arrival <= bound
    ensures forall k :: 0 <= k <= lim ==> Pass(s, j, lim)[k].arrival <= bound
    decreases lim - j
  {
    if j < lim {
      var s' := Bubble(s, j);
      PassBounded(s', j + 1, lim, bound);
    }
  }

  /** Rows m .. n - 1 are in order and none of rows 0 .. m - 1 arrives after row m. */
  predicate Settled(s: seq<Proc>, m: nat)
  {
    && (forall a, b :: m <= a < b < |s| ==> s[a].arrival <= s[b].arrival)
    && (m < |s| ==> forall a :: 0 <= a < m ==> s[a].arrival <= s[m].arrival)
  }

  lemma SettledSorted(s: seq<Proc>, m: nat)
    requires m <= 1 && Settled(s, m)
    ensures Sorted(s)
  {
    forall a, b | 0 <= a < b < |s|
      ensures s[a].arrival <= s[b].arrival
    {
      if a < m && m < b {
        assert s[a].arrival <= s[m].arrival;
      }
    }
  }

  /** One round of bSort over rows 0 .. m - 1 settles one more row. */
  lemma PassSettles(s: seq<Proc>, m: nat)
    requires 2 <= m <= |s| && Settled(s, m)
    ensures Settled(Pass(s, 0, m - 1), m - 1)
  {
    var lim := m - 1;
    var r := Pass(s, 0, lim);
    PassBubblesUp(s, 0, lim);
    PassKeepsTail(s, 0, lim);
    if m < |s| {
      PassBounded(s, 0, lim, s[m].arrival);
      assert r[lim].arrival <= r[m].arrival;
    }
    forall a, b | lim <= a < b < |r|
      ensures r[a].arrival <= r[b].arrival
    {
      if a == lim && m < b {
        assert r[m].arrival <= r[b].arrival;
      }
    }
  }

  lemma {:induction false} SweepSorts(s: seq<Proc>, i: nat)
    requires i <= |s| && Settled(s, |s| - i)
    ensures Sorted(Sweep(s, i))
    decreases |s| - i
  {
    if i + 1 >= |s| {
      SettledSorted(s, |s| - i);
      assert Sweep(s, i) == s;
    } else {
      var r := Pass(s, 0, |s| - i - 1);
      assert Sorted(Sweep(r, i + 1)) by {
        PassSettles(s, |s| - i);
        assert |r| - (i + 1) == |s| - i - 1;
        SweepSorts(r, i + 1);
      }
      SweepUnfolds(s, i);
    }
  }

  lemma SweepUnfolds(s: seq<Proc>, i: nat)
    requires i + 1 < |s|
    ensures Sweep(s, i) == Sweep(Pass(s, 0, |s| - i - 1), i + 1)
  {
  }

  lemma {:induction false} PassOnSorted(s: seq<Proc>, j: nat, lim: nat)
    requires j <= lim < |s| && Sorted(s)
    ensures Pass(s, j, lim) == s
    decreases lim - j
  {
    if j < lim {
      PassOnSorted(s, j + 1, lim);
    }
  }

  lemma {:induction false} SweepOnSorted(s: seq<Proc>, i: nat)
    requires Sorted(s)
    ensures Sweep(s, i) == s
    decreases |s| - i
  {
    if i + 1 < |s| {
      PassOnSorted(s, 0, |s| - i - 1);
      SweepOnSorted(s, i + 1);
    }
  }

  /** A table already in arrival order is left exactly as it is; in particular sorting twice
      is sorting once. */
  lemma BSortKeepsSorted(s: seq<Proc>)
    ensures Sorted(s) ==> BSort(s) == s
    ensures BSort(BSort(s)) == BSort(s)
  {
    if Sorted(s) {
      SweepOnSorted(s, 0);
    }
    SweepOnSorted(BSort(s), 0);
  }

  /** Every row of the sorted table is a row of the input, so row-wise facts about a loaded
      table carry over to its sorted copy. */
  lemma BSortKeepsRows(s: seq<Proc>)
    ensures |BSort(s)| == |s|
    ensures forall k :: 0 <= k < |s| ==> BSort(s)[k] in s
    ensures Loaded(s) ==> Loaded(BSort(s))
    ensures PositiveBursts(s) ==> PositiveBursts(BSort(s))
  {
    var r := BSort(s);
    SweepPermutes(s, 0);
    forall k | 0 <= k < |r|
      ensures r[k] in s
    {
      assert r[k] in multiset(r);
    }
  }
}
