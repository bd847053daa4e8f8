/** Pacing of the remote synchronisation: at most one run a frame, on a fixed grid of slots. */
module SyncPacing {

  /** The slot of the grid through `start` that a time falls into. */
  function Slot(start: int, interval: int, time: int): int
    requires interval > 0
  {
    (time - start) / interval
  }

  /** Where slot `k` begins. */
  function SlotStart(start: int, interval: int, k: int): int {
    start + k * interval
  }

  lemma SlotBounds(start: int, interval: int, time: int, k: int)
    requires interval > 0
    ensures SlotStart(start, interval, k) <= time < SlotStart(start, interval, k + 1) <==> k == Slot(start, interval, time)
  {
    var d, q, r := time - start, (time - start) / interval, (time - start) % interval;
    assert d == q * interval + r;
    assert (q + 1) * interval == q * interval + interval;
    assert (k + 1) * interval == k * interval + interval;
    if k < q { Monotone(k + 1, q, interval); }
    if k > q { Monotone(q + 1, k, interval); }
  }

  lemma Monotone(a: int, b: int, n: int)
    requires a <= b && n > 0
    ensures a * n <= b * n
  {
    assert (b - a) * n >= 0;
    assert b * n == a * n + (b - a) * n;
  }

  function Clamp(x: int, low: int, high: int): int
    requires low <= high
  {
    if x < low then low else if x > high then high else x
  }

  /** The effective rate: at least 60, at most 120 runs a second. */
  function Rate(snapshotRate: nat): (rate: nat)
    ensures snapshotRate <= 60 ==> rate == 60
    ensures 60 <= snapshotRate <= 120 ==> rate == snapshotRate
    ensures snapshotRate >= 120 ==> rate == 120
  {
    Clamp(if snapshotRate < 60 then 60 else snapshotRate, 1, 120)
  }

  const NANOSECONDS := 1_000_000_000

  function Interval(rate: nat): (i: int)
    requires 60 <= rate <= 120
    ensures i > 0 && i * rate <= 1_000_000_000 < (i + 1) * rate
  {
    NANOSECONDS / rate
  }

  class Schedule {
    var next: int
    var rate: nat

    constructor ()
      ensures next == 0 && rate == 0
    {
      next, rate := 0, 0;
    }

    method Reset()
      modifies this
      ensures next == 0 && rate == 0
    {
      next, rate := 0, 0;
    }

    /** Whether the synchronisation runs now. A run moves the deadline to the next slot boundary after
        `now` on the grid of the old deadline; a new rate starts a new grid here and now. */
    method RemoteSyncDue(now: int, snapshotRate: nat) returns (due: bool)
      modifies this
      ensures rate == Rate(snapshotRate)
      ensures var start := if old(rate) == rate then old(next) else now;
              && due == (now >= start)
              && next == if due then SlotStart(start, Interval(rate), Slot(start, Interval(rate), now) + 1) else start
      ensures due ==> next - Interval(rate) <= now < next
    {
      var wanted := Rate(snapshotRate);
      if wanted != rate {
        rate := wanted;
        next := now;
      }
      if now < next {
        return false;
      }
      var interval := Interval(rate);
      ghost var start, k := next, 1;
      next := next + interval;
      while next <= now
        invariant k >= 1 && next == SlotStart(start, interval, k) && SlotStart(start, interval, k - 1) <= now
        invariant rate == wanted
        decreases now - next
      {
        assert (k + 1) * interval == k * interval + interval;
        next := next + interval;
        k := k + 1;
      }
      SlotBounds(start, interval, now, k - 1);
      return true;
    }

    /** A session of frames at one rate, from a schedule that was reset: the synchronisation runs in
        exactly the frames that are the first of their slot. */
    method RunFrames(times: seq<int>, snapshotRate: nat) returns (runs: seq<bool>)
      requires rate == 0 && times != [] && NonDecreasing(times)
      modifies this
      ensures |runs| == |times|
      ensures forall i :: 0 <= i < |times| ==> runs[i] == FirstInSlot(times, Interval(Rate(snapshotRate)), i)
    {
      var first := RemoteSyncDue(times[0], snapshotRate);
      runs := [first];
      ghost var start, interval := times[0], Interval(Rate(snapshotRate));
      SlotBounds(start, interval, start, 0);
      for i := 1 to |times|
        invariant |runs| == i && rate == Rate(snapshotRate)
        invariant next == SlotStart(start, interval, Slot(start, interval, times[i - 1]) + 1)
        invariant forall j :: 0 <= j < i ==> runs[j] == FirstInSlot(times, interval, j)
      {
        NextSlot(start, interval, Slot(start, interval, times[i - 1]) + 1, times[i - 1], times[i]);
        var due := RemoteSyncDue(times[i], snapshotRate);
        runs := runs + [due];
      }
    }
  }

  predicate NonDecreasing(times: seq<int>) {
    forall i, j :: 0 <= i <= j < |times| ==> times[i] <= times[j]
  }

  /** No earlier frame falls into the slot of frame `i`; for ordered times the one before is enough. */
  predicate FirstInSlot(times: seq<int>, interval: int, i: nat)
    requires i < |times| && interval > 0
  {
    i == 0 || Slot(times[0], interval, times[i - 1]) != Slot(times[0], interval, times[i])
  }

  lemma SlotsAscend(start: int, interval: int, a: int, b: int)
    requires interval > 0 && a <= b
    ensures Slot(start, interval, a) <= Slot(start, interval, b)
  {
    var p, q := Slot(start, interval, a), Slot(start, interval, b);
    SlotBounds(start, interval, a, p);
    SlotBounds(start, interval, b, q);
    if q < p { Monotone(q + 1, p, interval); }
  }

  /** The grid through a later boundary is the same grid, counted from there. */
  lemma NextSlot(start: int, interval: int, k: int, before: int, now: int)
    requires interval > 0 && before <= now && k == Slot(start, interval, before) + 1
    ensures now >= SlotStart(start, interval, k) <==> Slot(start, interval, now) != Slot(start, interval, before)
    ensures now < SlotStart(start, interval, k) ==> Slot(start, interval, now) == k - 1
    ensures var there := SlotStart(start, interval, k);
            SlotStart(there, interval, Slot(there, interval, now) + 1) == SlotStart(start, interval, Slot(start, interval, now) + 1)
  {
    var there, n := SlotStart(start, interval, k), Slot(start, interval, now);
    SlotsAscend(start, interval, before, now);
    SlotBounds(start, interval, now, n);
    SlotBounds(start, interval, now, k - 1);
    assert SlotStart(there, interval, n - k) == SlotStart(start, interval, n) by {
      assert k * interval + (n - k) * interval == n * interval;
    }
    assert SlotStart(there, interval, n - k + 1) == SlotStart(start, interval, n + 1) by {
      assert k * interval + (n - k + 1) * interval == (n + 1) * interval;
    }
    SlotBounds(there, interval, now, n - k);
    if n >= k { Monotone(k, n, interval); }
    if n < k { Monotone(n + 1, k, interval); }
  }

  /** Exactly one frame of every slot that has frames is the first of it. */
  lemma {:induction false} OneRunPerSlot(times: seq<int>, interval: int, i: nat) returns (j: nat)
    requires interval > 0 && NonDecreasing(times) && i < |times|
    ensures j <= i && FirstInSlot(times, interval, j)
    ensures Slot(times[0], interval, times[j]) == Slot(times[0], interval, times[i])
    ensures forall k: nat :: k < |times| && k != j && FirstInSlot(times, interval, k) ==>
              Slot(times[0], interval, times[k]) != Slot(times[0], interval, times[i])
    decreases i
  {
    if FirstInSlot(times, interval, i) {
      j := i;
      forall k: nat | k < |times| && k != j && FirstInSlot(times, interval, k)
        ensures Slot(times[0], interval, times[k]) != Slot(times[0], interval, times[i])
      {
        FirstsDiffer(times, interval, if k < i then k else i, if k < i then i else k);
      }
    } else {
      j := OneRunPerSlot(times, interval, i - 1);
    }
  }

  lemma FirstsDiffer(times: seq<int>, interval: int, k: nat, i: nat)
    requires interval > 0 && NonDecreasing(times) && k < i < |times| && FirstInSlot(times, interval, i)
    ensures Slot(times[0], interval, times[k]) < Slot(times[0], interval, times[i])
  {
    SlotsAscend(times[0], interval, times[k], times[i - 1]);
    SlotsAscend(times[0], interval, times[i - 1], times[i]);
  }

  function Runs(times: seq<int>, interval: int, n: nat): nat
    requires interval > 0 && n <= |times|
  {
    if n == 0 then 0 else Runs(times, interval, n - 1) + if FirstInSlot(times, interval, n - 1) then 1 else 0
  }

  /** By any frame there were at most as many runs as slots had begun. */
  lemma {:induction false} RunsAreBounded(times: seq<int>, interval: int, n: nat)
    requires interval > 0 && NonDecreasing(times) && 0 < n <= |times|
    ensures Runs(times, interval, n) <= (times[n - 1] - times[0]) / interval + 1
  {
    if n == 1 {
      SlotBounds(times[0], interval, times[0], 0);
      assert Runs(times, interval, 0) == 0;
    } else {
      RunsAreBounded(times, interval, n - 1);
      SlotsAscend(times[0], interval, times[n - 2], times[n - 1]);
    }
  }
}
