/** CPktTimeWindow (UDT4/src/window.cpp:152-345): packet intervals, their median
    found by sorting half of the window in place, and the rate estimated from
    the intervals near the median. */
module PktTimeWindow {

  // ----- sorting half of an array -----

  /** The first n places are sorted, and nothing behind them is smaller. */
  ghost predicate SortedUpTo(s: seq<int>, n: int) {
    forall j, k :: 0 <= j < n && j < k < |s| ==> s[j] <= s[k]
  }

  method Exchange(a: array<int>, i: int, j: int)
    requires 0 <= i < a.Length && 0 <= j < a.Length
    modifies a
    ensures a[..] == old(a[..])[i := old(a[j])][j := old(a[i])]
    ensures multiset(a[..]) == multiset(old(a[..]))
  {
    a[i], a[j] := a[j], a[i];
  }

  /** The inner loop: the least of the rest comes to place i. */
  method Select(a: array<int>, i: int)
    requires 0 <= i < a.Length && SortedUpTo(a[..], i)
    modifies a
    ensures SortedUpTo(a[..], i + 1) && multiset(a[..]) == multiset(old(a[..]))
  {
    hide SortedUpTo, LeastOf;
    SelectStart(a[..], i);
    for j := i to a.Length
      invariant SortedUpTo(a[..], i) && LeastOf(a[..], i, j) && multiset(a[..]) == multiset(old(a[..]))
    {
      SelectTurn(a[..], i, j);
      if a[i] > a[j] {
        Exchange(a, i, j);
      }
    }
    SelectDone(a[..], i);
  }

  /** Place i holds the least of places i..j-1. */
  ghost predicate LeastOf(s: seq<int>, i: int, j: int)
    requires 0 <= i < |s| && j <= |s|
  {
    forall k :: i <= k < j ==> s[i] <= s[k]
  }

  lemma SelectStart(s: seq<int>, i: int)
    requires 0 <= i < |s|
    ensures LeastOf(s, i, i)
  {
  }

  lemma SelectTurn(s: seq<int>, i: int, j: int)
    requires 0 <= i <= j < |s| && SortedUpTo(s, i) && LeastOf(s, i, j)
    ensures var t := if s[i] > s[j] then s[i := s[j]][j := s[i]] else s;
      SortedUpTo(t, i) && LeastOf(t, i, j + 1)
  {
  }

  lemma SelectDone(s: seq<int>, i: int)
    requires 0 <= i < |s| && SortedUpTo(s, i) && LeastOf(s, i, |s|)
    ensures SortedUpTo(s, i + 1)
  {
  }

  /** The sort of getPktRcvSpeed(): one place more than half. */
  method SortHalf(a: array<int>)
    requires a.Length > 0
    modifies a
    ensures SortedUpTo(a[..], a.Length / 2 + 1) && multiset(a[..]) == multiset(old(a[..]))
  {
    for i := 0 to a.Length / 2 + 1
      invariant SortedUpTo(a[..], i) && multiset(a[..]) == multiset(old(a[..]))
    {
      Select(a, i);
    }
  }

  /** The sorted part holds what a full sort would put there. */
  lemma {:induction false} PartIsSorted(s: seq<int>, t: seq<int>, n: nat)
    requires multiset(s) == multiset(t) && SortedUpTo(s, n) && SortedUpTo(t, |t|) && n <= |s|
    ensures |s| == |t| && s[..n] == t[..n]
  {
    SameLength(s, t);
    if n > 0 {
      LeastFirst(s, t, n);
      LeastFirst(t, s, |t|);
      SameTail(s, t);
      PartIsSorted(s[1..], t[1..], n - 1);
      assert s[..n] == [s[0]] + s[1..][..n - 1] && t[..n] == [t[0]] + t[1..][..n - 1];
    }
  }

  lemma SameLength(s: seq<int>, t: seq<int>)
    requires multiset(s) == multiset(t)
    ensures |s| == |t|
  {
    assert |multiset(s)| == |multiset(t)|;
  }

  lemma LeastFirst(s: seq<int>, t: seq<int>, n: nat)
    requires multiset(s) == multiset(t) && 0 < n <= |s| == |t| && SortedUpTo(s, n)
    ensures s[0] <= t[0]
  {
    assert t[0] in multiset(t);
    assert t[0] in multiset(s);
    var k :| 0 <= k < |s| && s[k] == t[0];
  }

  lemma SameTail(s: seq<int>, t: seq<int>)
    requires multiset(s) == multiset(t) && |s| == |t| > 0 && s[0] == t[0]
    ensures multiset(s[1..]) == multiset(t[1..])
  {
    assert s == [s[0]] + s[1..] && t == [t[0]] + t[1..];
    assert multiset(s) == multiset{s[0]} + multiset(s[1..]);
    assert multiset(t) == multiset{t[0]} + multiset(t[1..]);
    assert multiset(s[1..]) == multiset(s) - multiset{s[0]};
    assert multiset(t[1..]) == multiset(t) - multiset{t[0]};
  }

  // ----- the estimates -----

  /** Half the sum, rounded down, times 8 and over 8: the shifts of the code
      round down for negative numbers as well. */
  function Median(x: int, y: int): (m: int)
    ensures 2 * m <= x + y < 2 * m + 2
  {
    (x + y) / 2
  }

  predicate NearMedian(x: int, median: int) { median / 8 < x < median * 8 }

  /** The values near the median, in order. */
  ghost function Filter(s: seq<int>, median: int): seq<int> {
    if |s| == 0 then []
    else
      var rest := Filter(s[..|s| - 1], median);
      if NearMedian(s[|s| - 1], median) then rest + [s[|s| - 1]] else rest
  }

  ghost function Sum(s: seq<int>): int {
    if |s| == 0 then 0 else Sum(s[..|s| - 1]) + s[|s| - 1]
  }

  lemma {:induction false} FilterIs(s: seq<int>, median: int, x: int)
    ensures multiset(Filter(s, median))[x] == if median / 8 < x < 8 * median then multiset(s)[x] else 0
  {
    if |s| > 0 {
      FilterIs(s[..|s| - 1], median, x);
      assert s == s[..|s| - 1] + [s[|s| - 1]];
    }
  }

  lemma {:induction false} SumJoin(s: seq<int>, t: seq<int>)
    ensures Sum(s + t) == Sum(s) + Sum(t)
    ensures |t| == 1 ==> Sum(t) == t[0]
  {
    if |t| == 0 {
      assert s + t == s;
    } else {
      SumJoin(s, t[..|t| - 1]);
      assert (s + t)[..|s + t| - 1] == s + t[..|t| - 1];
    }
  }

  /** `s` is the sum of `n` values from `lo` to `hi`. */
  ghost predicate SumBetween(n: int, s: int, lo: int, hi: int) { n * lo <= s <= n * hi }

  lemma {:induction false} FilterBounds(s: seq<int>, median: int)
    ensures |Filter(s, median)| <= |s|
    ensures var f := Filter(s, median); SumBetween(|f|, Sum(f), median / 8 + 1, median * 8 - 1)
    ensures Filter(s, median) != [] ==> median > 0
  {
    if |s| == 0 {
      assert SumBetween(0, 0, median / 8 + 1, median * 8 - 1);
    } else {
      hide SumBetween;
      var rest, x := Filter(s[..|s| - 1], median), s[|s| - 1];
      FilterBounds(s[..|s| - 1], median);
      assert (rest + [x])[..|rest|] == rest;
      if NearMedian(x, median) { StepBounds(|rest|, Sum(rest), x, median / 8 + 1, median * 8 - 1); }
    }
  }

  lemma StepBounds(n: int, s: int, x: int, lo: int, hi: int)
    requires SumBetween(n, s, lo, hi) && lo <= x <= hi
    ensures SumBetween(n + 1, s + x, lo, hi)
  {
    assert (n + 1) * lo == n * lo + lo && (n + 1) * hi == n * hi + hi;
  }

  /** Division rounded up, as of positive numbers by ceil(). */
  function CeilDiv(x: int, y: int): (q: int)
    requires y > 0
    ensures (q - 1) * y < x <= q * y
  {
    (x + y - 1) / y
  }

  lemma DivBounds(s: int, n: int, lo: int, hi: int)
    requires n > 0 && SumBetween(n, s, lo, hi)
    ensures lo <= s / n <= hi
  {
    var q, r := s / n, s % n;
    assert s == q * n + r;
    if q < lo { Scale(q, lo, n); }
    if q > hi { Scale(hi, q, n); }
  }

  lemma Scale(x: int, y: int, n: int)
    requires n > 0 && x < y
    ensures x * n + n <= y * n
  {
    NotNegative(y - x - 1, n);
    assert (y - x - 1) * n == y * n - x * n - n;
  }

  lemma NotNegative(a: int, b: int)
    requires a >= 0 && b >= 0
    ensures a * b >= 0
  {
  }

  lemma BandBounds(s: int, n: nat, m: int)
    requires SumBetween(n, s, m / 8 + 1, m * 8 - 1) && (n > 0 ==> m > 0)
    ensures (m + s > 0 <==> m > 0) && (m + s == 0 <==> m == 0)
    ensures m > 0 ==> (n + 1) * (m / 8) < m + s < (n + 1) * (m * 8)
  {
    if m > 0 {
      assert n * (m / 8 + 1) == n * (m / 8) + n && (n + 1) * (m / 8) == n * (m / 8) + m / 8;
      NotNegative(n, m / 8);
      assert n * (m * 8 - 1) == n * (m * 8) - n && (n + 1) * (m * 8) == n * (m * 8) + m * 8;
    } else {
      assert n == 0;
    }
  }

  datatype Option<T> = None | Some(value: T)

  /** The least integer not below x / y. */
  function Ceil(x: int, y: int): (q: int)
    requires y != 0
    ensures if y > 0 then (q - 1) * y < x <= q * y else q * y <= x < (q - 1) * y
  {
    if y > 0 then CeilDiv(x, y) else -(x / -y)
  }

  lemma CeilSign(x: int, y: int)
    requires x > 0 && y != 0
    ensures Ceil(x, y) > 0 <==> y > 0
  {
    if y > 0 {
      CeilBounds(x, y);
    } else {
      NotNegative(-y - 1, x);
      assert (-y - 1) * x == -y * x - x;
      DivBounds(x, -y, 0, x);
    }
  }

  lemma CeilBounds(x: int, y: int)
    requires x > 0 && y > 0
    ensures 1 <= CeilDiv(x, y) <= x
  {
    assert x * y - (x + y - 1) == (x - 1) * (y - 1);
    NotNegative(x - 1, y - 1);
    DivBounds(x + y - 1, y, 1, x);
  }

  // ----- which intervals the window holds -----

  /** The window as a ring, from the place that is written next. */
  ghost function Ring(w: seq<int>, at: int): seq<int>
    requires 0 <= at <= |w|
  {
    w[at..] + w[..at]
  }

  function NextPlace(w: seq<int>, at: int): int { if at + 1 == |w| then 0 else at + 1 }

  /** The newest `j` intervals of `h` are where `j` arrivals put them; with j = |w|
      the window holds the last ones and nothing else. */
  ghost predicate Newest(w: seq<int>, at: int, h: seq<int>, j: nat) {
    0 <= at < |w| && j <= |w| && j <= |h| && Ring(w, at)[|w| - j..] == h[|h| - j..]
  }

  lemma RingArrival(w: seq<int>, at: int, x: int)
    requires 0 <= at < |w|
    ensures Ring(w[at := x], NextPlace(w, at)) == Ring(w, at)[1..] + [x]
  {
  }

  /** An arrival on top of `j` makes it one more, up to the whole window. */
  lemma ArrivalNewest(w: seq<int>, at: int, h: seq<int>, j: nat, x: int)
    requires Newest(w, at, h, j)
    ensures Newest(w[at := x], NextPlace(w, at), h + [x], if j < |w| then j + 1 else j)
  {
    RingArrival(w, at, x);
    hide Ring;
    var r, k := Ring(w, at), if j < |w| then j + 1 else j;
    assert |Ring(w[at := x], NextPlace(w, at))| == |w|;
    if j > 0 { assert (r[1..] + [x])[|w| - k..] == r[|w| - k + 1..] + [x]; }
    assert (h + [x])[|h| + 1 - k..] == h[|h| + 1 - k..] + [x];
    assert k < |w| || j == |w| || j + 1 == |w|;
  }

  /** Sorting leaves the intervals but not their places.  After the next arrival
      the window holds the last ones if and only if the oldest of them has come
      to the place that is written next. */
  lemma SortedNewest(w: seq<int>, s: seq<int>, at: int, h: seq<int>, x: int)
    requires Newest(w, at, h, |w|) && multiset(s) == multiset(w) && |s| == |w|
    ensures multiset(s[at := x]) == multiset((h + [x])[|h| + 1 - |w|..]) <==> s[at] == h[|h| - |w|]
  {
    var n := |w|;
    RingSame(w, at);
    assert Ring(w, at) == h[|h| - n..] == [h[|h| - n]] + h[|h| - n + 1..];
    assert (h + [x])[|h| + 1 - n..] == h[|h| - n + 1..] + [x];
    Replaced(s, at, x, h[|h| - n], h[|h| - n + 1..]);
  }

  lemma RingSame(w: seq<int>, at: int)
    requires 0 <= at <= |w|
    ensures multiset(Ring(w, at)) == multiset(w)
  {
    assert w == w[..at] + w[at..];
    assert multiset(w) == multiset(w[..at]) + multiset(w[at..]);
  }

  lemma Replaced(s: seq<int>, at: int, x: int, oldest: int, rest: seq<int>)
    requires 0 <= at < |s| && multiset(s) == multiset([oldest] + rest)
    ensures multiset(s[at := x]) == multiset(rest + [x]) <==> s[at] == oldest
  {
    var m, t := multiset(rest), multiset(s[at := x]);
    assert multiset([oldest] + rest) == multiset{oldest} + m && multiset(rest + [x]) == m + multiset{x};
    assert t == multiset(s) - multiset{s[at]} + multiset{x} && s[at] in multiset(s);
    if s[at] != oldest { assert t[oldest] == (m + multiset{x})[oldest] + 1; }
  }

  class PktTimeWindow {
    const window: array<int>      // m_piPktWindow
    const probes: array<int>      // m_piProbeWindow
    var at: int                   // m_iPktWindowPtr
    var probeAt: int              // m_iProbeWindowPtr
    var lastArrival: int          // m_LastArrTime
    var probeTime: int            // m_ProbeTime

    ghost predicate Valid()
      reads this
    {
      && window.Length >= 2 && probes.Length >= 2 && window != probes
      && 0 <= at < window.Length && 0 <= probeAt < probes.Length
    }

    constructor (asize: int, psize: int, now: int)
      requires asize >= 2 && psize >= 2
      ensures Valid() && fresh(window) && fresh(probes) && lastArrival == now && at == probeAt == 0
      ensures window[..] == seq(asize, _ => 1000000) && probes[..] == seq(psize, _ => 1000)
    {
      window := new int[asize](_ => 1000000);
      probes := new int[psize](_ => 1000);
      at, probeAt, lastArrival, probeTime := 0, 0, now, 0;
    }

    /** onPktArrival(): the interval since the last arrival replaces one. */
    method OnPktArrival(now: int)
      requires Valid()
      modifies this`at, this`lastArrival, window
      ensures Valid() && window[..] == old(window[..])[old(at) := now - old(lastArrival)] && lastArrival == now
      ensures at == if old(at) + 1 == window.Length then 0 else old(at) + 1
    {
      window[at] := now - lastArrival;
      at := at + 1;
      if at == window.Length {
        at := 0;
      }
      lastArrival := now;
    }

    method Probe1Arrival(now: int)
      requires Valid()
      modifies this`probeTime
      ensures Valid() && probeTime == now
    {
      probeTime := now;
    }

    /** probe2Arrival(): the interval of a packet pair replaces one. */
    method Probe2Arrival(now: int)
      requires Valid()
      modifies this`probeAt, probes
      ensures Valid() && probes[..] == old(probes[..])[old(probeAt) := now - probeTime]
      ensures probeAt == if old(probeAt) + 1 == probes.Length then 0 else old(probeAt) + 1
    {
      probes[probeAt] := now - probeTime;
      probeAt := probeAt + 1;
      if probeAt == probes.Length {
        probeAt := 0;
      }
    }

    /** The sum and number of the values near the median, on top of what the
        caller starts with. */
    method Collect(a: array<int>, median: int, sum0: int, count0: int) returns (sum: int, count: int)
      ensures sum == sum0 + Sum(Filter(a[..], median)) && count == count0 + |Filter(a[..], median)|
    {
      sum, count := sum0, count0;
      for k := 0 to a.Length
        invariant sum == sum0 + Sum(Filter(a[..k], median)) && count == count0 + |Filter(a[..k], median)|
      {
        assert a[..k + 1][..k] == a[..k];
        ghost var f := Filter(a[..k], median);
        assert (f + [a[k]])[..|f|] == f;
        if a[k] < median * 8 && a[k] > median / 8 {
          count := count + 1;
          sum := sum + a[k];
        }
      }
      assert a[..a.Length] == a[..];
    }

    /** getPktRcvSpeed(): 0, or a rate from 1 to a million. */
    method GetPktRcvSpeed() returns (r: int, ghost median: int, ghost near: seq<int>)
      requires Valid()
      modifies window
      ensures Valid() && multiset(window[..]) == multiset(old(window[..]))
      ensures SortedUpTo(window[..], window.Length / 2 + 1)
      ensures median == Median(window[window.Length / 2 - 1], window[window.Length / 2])
      ensures 2 * median <= window[window.Length / 2 - 1] + window[window.Length / 2] < 2 * median + 2
      ensures |near| > window.Length / 2 ==> median / 8 < Sum(near) / |near| < median * 8 && Sum(near) / |near| > 0
      ensures near == Filter(window[..], median)
      ensures r == if |near| > window.Length / 2 then CeilDiv(1000000, Sum(near) / |near|) else 0
      ensures 0 <= r <= 1000000
    {
      SortHalf(window);
      var half := window.Length / 2;
      var m := Median(window[half - 1], window[half]);
      var sum, count := Collect(window, m, 0, 0);
      median, near := m, Filter(window[..], m);
      FilterBounds(window[..], m);
      if count > half {
        DivBounds(sum, count, m / 8 + 1, m * 8 - 1);
        r := CeilDiv(1000000, sum / count);
        CeilBounds(1000000, sum / count);
      } else {
        r := 0;
      }
    }

    /** getBandwidth(): the median counts as one more value, and the rate is that
        of the average of them all.  There is such a rate unless the median, and
        with it the sum, is 0; it is positive exactly when the median is. */
    method GetBandwidth() returns (rate: Option<int>, ghost median: int, ghost near: seq<int>)
      requires Valid()
      modifies probes
      ensures Valid() && multiset(probes[..]) == multiset(old(probes[..]))
      ensures SortedUpTo(probes[..], probes.Length / 2 + 1)
      ensures median == Median(probes[probes.Length / 2 - 1], probes[probes.Length / 2])
      ensures near == Filter(probes[..], median)
      ensures (median + Sum(near) == 0 <==> median == 0) && (median + Sum(near) > 0 <==> median > 0)
      ensures rate == if median == 0 then None else Some(Ceil(1000000 * (1 + |near|), median + Sum(near)))
      ensures rate.Some? ==> (rate.value > 0 <==> median > 0)
      ensures median > 0 ==>
        (1 + |near|) * (median / 8) < median + Sum(near) < (1 + |near|) * (median * 8)
    {
      hide Sum, Filter, SumBetween;
      SortHalf(probes);
      var half := probes.Length / 2;
      var m := Median(probes[half - 1], probes[half]);
      var sum, count := Collect(probes, m, m, 1);
      median, near := m, Filter(probes[..], m);
      FilterBounds(probes[..], m);
      BandBounds(sum - m, count - 1, m);
      if sum == 0 {
        rate := None;
      } else {
        CeilSign(1000000 * count, sum);
        rate := Some(Ceil(1000000 * count, sum));
      }
    }
  }

  /** The intervals 30 and 10 arrive, the speed is asked for, and 20 arrives: the
      window holds 20 and 30, though the last two are 10 and 20. */
  method OldestStays() returns (w: PktTimeWindow)
    ensures w.Valid() && w.window.Length == 2 && multiset(w.window[..]) == multiset{20, 30}
  {
    w := new PktTimeWindow(2, 2, 0);
    w.OnPktArrival(30);
    assert w.window[..] == [30, 1000000];
    w.OnPktArrival(40);
    assert w.window[..] == [30, 10];
    ghost var m, near;
    var r;
    r, m, near := w.GetPktRcvSpeed();
    TwoSorted(w.window[..], 30, 10);
    w.OnPktArrival(60);
    assert w.window[..] == [20, 30];
  }

  lemma TwoSorted(s: seq<int>, x: int, y: int)
    requires multiset(s) == multiset([x, y]) && SortedUpTo(s, 2) && y < x
    ensures s == [y, x]
  {
    SameLength(s, [x, y]);
    assert s[0] in multiset(s) && s[1] in multiset(s);
    assert s == [s[0], s[1]];
    assert multiset(s) == multiset{s[0], s[1]};
    if s[0] == x { assert x in multiset{s[0], s[1]} && y in multiset(s); }
  }
}
