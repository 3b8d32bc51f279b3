/** `pthread_cond_timeout_np`: a wait cut into slices of a quarter of its time, with the 32-bit
    counter of the loop, and the absolute deadlines of its slices. */
module TimedWait {
  import opened Protocol

  const UINT_RANGE: nat := 0x1_0000_0000
  const BILLION: nat := 1_000_000_000

  datatype TimeVal = TimeVal(sec: int, usec: nat)
  datatype TimeSpec = TimeSpec(sec: int, nsec: nat)

  function Nanos(t: TimeSpec): int { t.sec * BILLION + t.nsec }
  function NowNanos(t: TimeVal): int { t.sec * BILLION + t.usec * 1000 }

  /** `setTimespecRelative`. */
  method SetTimespecRelative(now: TimeVal, msec: nat) returns (ts: TimeSpec)
    requires now.usec < 1_000_000
    ensures ts.nsec < BILLION
    ensures Nanos(ts) == NowNanos(now) + msec * 1_000_000
  {
    var sec := now.sec + msec / 1000;
    var nsec := (now.usec + msec % 1000 * 1000) * 1000;
    assert msec == msec / 1000 * 1000 + msec % 1000;
    if nsec >= BILLION {
      ts := TimeSpec(sec + 1, nsec - BILLION);
    } else {
      ts := TimeSpec(sec, nsec);
    }
  }

  /** The length of the first k slices together. */
  function Elapsed(msecs: nat, k: nat): nat
  {
    if k == 0 then 0 else Elapsed(msecs, k - 1) + Slice(msecs)
  }

  /** How many slices it takes from i milliseconds on to make up the time. */
  function SlicesFrom(msecs: nat, i: nat): nat
    decreases msecs - i
  {
    if i >= msecs then 0 else 1 + SlicesFrom(msecs, i + Slice(msecs))
  }

  /** How many slices a wait of this time takes when all of them expire. */
  function SliceCount(msecs: nat): nat
  {
    SlicesFrom(msecs, 0)
  }

  /** The counter of the loop stays within 32 bits. */
  ghost predicate NoWrap(msecs: nat)
  {
    Elapsed(msecs, SliceCount(msecs)) < UINT_RANGE
  }

  /** The waits expire or, at some slice, one is ended by a wake-up; `now` is the clock at the
      start of each. */
  datatype Wait = Wait(now: TimeVal, expires: bool)

  lemma {:induction false} SlicesLeft(msecs: nat, k: nat)
    requires k <= SliceCount(msecs)
    ensures SlicesFrom(msecs, Elapsed(msecs, k)) == SliceCount(msecs) - k
    ensures Elapsed(msecs, k) < msecs <==> k < SliceCount(msecs)
  {
    if k > 0 { SlicesLeft(msecs, k - 1); }
  }

  lemma SevenSlices(msecs: nat)
    ensures Elapsed(msecs, 7) >= msecs
  {
    var t := Slice(msecs);
    assert Elapsed(msecs, 1) == t;
    assert Elapsed(msecs, 2) == 2 * t;
    assert Elapsed(msecs, 3) == 3 * t;
    assert Elapsed(msecs, 4) == 4 * t;
    assert Elapsed(msecs, 5) == 5 * t;
    assert Elapsed(msecs, 6) == 6 * t;
    assert Elapsed(msecs, 7) == 7 * t;
  }

  /** At most seven slices make up the time asked for, and overshoot it by less than one. */
  lemma SlicesCover(msecs: nat)
    requires 0 < msecs
    ensures var k := SliceCount(msecs);
            1 <= k <= 7 && Elapsed(msecs, k - 1) < msecs <= Elapsed(msecs, k) < msecs + Slice(msecs)
    ensures if msecs < 4 then Slice(msecs) == 1 && SliceCount(msecs) == msecs
            else 4 * Slice(msecs) <= msecs < 4 * Slice(msecs) + 4 && SliceCount(msecs) >= 4
  {
    var k := SliceCount(msecs);
    SlicesLeft(msecs, k);
    SlicesLeft(msecs, k - 1);
    SevenSlices(msecs);
    if k > 7 { SlicesLeft(msecs, 7); }
    if k < 4 { FewSlices(msecs, k); }
    if msecs < 4 { SmallWait(msecs); }
  }

  lemma SmallWait(msecs: nat)
    requires msecs < 4
    ensures SliceCount(msecs) == msecs
  {
    assert Slice(msecs) == 1 && SlicesFrom(msecs, msecs) == 0;
    assert msecs >= 1 ==> SlicesFrom(msecs, msecs - 1) == 1;
    assert msecs >= 2 ==> SlicesFrom(msecs, msecs - 2) == 2;
    assert msecs >= 3 ==> SlicesFrom(msecs, msecs - 3) == 3;
  }

  lemma FewSlices(msecs: nat, k: nat)
    requires k < 4
    ensures Elapsed(msecs, k) == k * Slice(msecs)
  {
    var t := Slice(msecs);
    assert Elapsed(msecs, 1) == t;
    assert Elapsed(msecs, 2) == 2 * t;
    assert Elapsed(msecs, 3) == 3 * t;
  }

  /** A wait that is given no time takes 15 seconds, in four slices. */
  lemma DefaultWait(req: Request)
    requires req.timeout == 0
    ensures Slice(Msecs(req)) == 3750 && SliceCount(Msecs(req)) == 4 && Elapsed(Msecs(req), 4) == 15000
  {
    var m := 15000;
    assert Slice(m) == 3750;
    FewSlices(m, 3);
    SlicesLeft(m, 0);
    assert SlicesFrom(m, 15000) == 0;
    assert SlicesFrom(m, 11250) == 1;
    assert SlicesFrom(m, 7500) == 2;
    assert SlicesFrom(m, 3750) == 3;
    assert SlicesFrom(m, 0) == 4;
  }

  /** The counter has 32 bits: the longest wait that does not wrap, and the first that does. */
  lemma WrapsFrom()
    ensures NoWrap(4294967292) && !NoWrap(4294967293)
  {
    SlicesCover(4294967292);
    SlicesCover(4294967293);
    FewSlices(4294967292, 3);
    FewSlices(4294967293, 3);
    assert Elapsed(4294967292, 4) == 4294967292;
    assert Elapsed(4294967293, 4) == 4294967292;
    SlicesLeft(4294967292, 4);
    SlicesLeft(4294967293, 4);
  }

  /** Below 2^31 the counter cannot wrap. */
  lemma ShortWaitsDoNotWrap(msecs: nat)
    requires 0 < msecs < 0x8000_0000
    ensures NoWrap(msecs)
  {
    SlicesCover(msecs);
  }

  /** The first slices, as many as make up the time, all expire. */
  ghost predicate AllExpire(msecs: nat, waits: seq<Wait>)
  {
    SliceCount(msecs) <= |waits| && forall j :: 0 <= j < SliceCount(msecs) ==> waits[j].expires
  }

  /** The unsigned addition of the loop. */
  function Add(i: nat, t: nat): nat
  {
    (i + t) % UINT_RANGE
  }

  lemma AddSmall(i: nat, t: nat)
    requires i + t < UINT_RANGE
    ensures Add(i, t) == i + t
  {
  }

  /** The counter after k slices, as long as the time is not made up. */
  ghost predicate Counter(msecs: nat, k: nat, i: nat)
  {
    var n := SliceCount(msecs);
    (k < n ==> i == Elapsed(msecs, k) < msecs) && (k == n > 0 ==> i == Add(Elapsed(msecs, n - 1), Slice(msecs)))
  }

  lemma CounterStep(msecs: nat, k: nat, i: nat)
    requires 0 < msecs < UINT_RANGE && i < msecs && Counter(msecs, k, i)
    ensures Counter(msecs, k + 1, Add(i, Slice(msecs)))
  {
    var n := SliceCount(msecs);
    if k + 1 < n {
      SlicesLeft(msecs, k + 1);
      AddSmall(i, Slice(msecs));
    }
  }

  /** Once all slices have expired the counter is past the time exactly when it has not
      wrapped. */
  lemma CounterEnd(msecs: nat, i: nat)
    requires 0 < msecs < UINT_RANGE && Counter(msecs, SliceCount(msecs), i)
    ensures i >= msecs <==> NoWrap(msecs)
  {
    SlicesCover(msecs);
    var before, t := Elapsed(msecs, SliceCount(msecs) - 1), Slice(msecs);
    if before + t < UINT_RANGE { AddSmall(before, t); } else { AddWraps(before, t); }
  }

  lemma AddWraps(i: nat, t: nat)
    requires i < UINT_RANGE && t < UINT_RANGE <= i + t
    ensures Add(i, t) == i + t - UINT_RANGE
  {
  }

  /** The counter at the beginning of a slice. */
  ghost predicate AtSlice(msecs: nat, i: nat)
  {
    exists k: nat :: i == Elapsed(msecs, k)
  }

  lemma FirstSlice(msecs: nat)
    ensures AtSlice(msecs, 0)
  {
    assert Elapsed(msecs, 0) == 0;
  }

  lemma {:induction false} ElapsedGrows(msecs: nat, k: nat, n: nat)
    requires k <= n
    ensures Elapsed(msecs, k) <= Elapsed(msecs, n)
    decreases n
  {
    if k < n { ElapsedGrows(msecs, k, n - 1); }
  }

  /** As long as the counter cannot wrap, a slice adds its length. */
  lemma CounterDoesNotWrap(msecs: nat, i: nat)
    requires 0 < msecs && NoWrap(msecs) && AtSlice(msecs, i) && i < msecs
    ensures Add(i, Slice(msecs)) == i + Slice(msecs) && AtSlice(msecs, i + Slice(msecs))
  {
    var k: nat :| i == Elapsed(msecs, k);
    var n := SliceCount(msecs);
    SlicesLeft(msecs, n);
    if k >= n { ElapsedGrows(msecs, n, k); }
    ElapsedGrows(msecs, k + 1, n);
    assert Elapsed(msecs, k + 1) == i + Slice(msecs);
    AddSmall(i, Slice(msecs));
  }

  /** One slice more: past the last one only if the counter wraps. */
  lemma NextCounter(msecs: nat, k: nat, i: nat)
    requires 0 < msecs < UINT_RANGE && i < msecs && Counter(msecs, k, i)
    requires NoWrap(msecs) ==> k < SliceCount(msecs)
    ensures Counter(msecs, k + 1, Add(i, Slice(msecs)))
    ensures NoWrap(msecs) && k + 1 == SliceCount(msecs) ==> Add(i, Slice(msecs)) >= msecs
    ensures !NoWrap(msecs) && k + 1 == SliceCount(msecs) ==> Add(i, Slice(msecs)) < msecs
  {
    CounterStep(msecs, k, i);
    if k + 1 == SliceCount(msecs) { CounterEnd(msecs, Add(i, Slice(msecs))); }
  }

  /** Waits slice by slice; when the given waits are used up the condition is signalled.  The
      call expires exactly when all its slices do, unless the counter wraps: then a wait whose
      slices all expire starts over. */
  method SlicedWait(msecs: nat, waits: seq<Wait>) returns (expired: bool, deadlines: seq<TimeSpec>)
    requires msecs < UINT_RANGE && forall j :: 0 <= j < |waits| ==> waits[j].now.usec < 1_000_000
    ensures msecs == 0 ==> !expired && deadlines == []
    ensures |deadlines| <= |waits|
    ensures forall j :: 0 <= j < |deadlines| ==>
              deadlines[j].nsec < BILLION &&
              Nanos(deadlines[j]) == NowNanos(waits[j].now) + Slice(msecs) * 1_000_000
    ensures msecs > 0 && NoWrap(msecs) ==> (expired <==> AllExpire(msecs, waits)) && |deadlines| <= SliceCount(msecs)
    ensures expired && NoWrap(msecs) ==> |deadlines| == SliceCount(msecs)
    ensures msecs > 0 && !NoWrap(msecs) && AllExpire(msecs, waits) && |waits| > SliceCount(msecs) ==>
              |deadlines| > SliceCount(msecs)
  {
    deadlines, expired := [], false;
    if msecs == 0 {
      return;
    }
    var t := Slice(msecs);
    ghost var n := SliceCount(msecs);
    var i: nat := 0;
    while i < msecs && |deadlines| < |waits|
      invariant |deadlines| <= |waits|
      invariant forall j :: 0 <= j < |deadlines| ==>
                  deadlines[j].nsec < BILLION && Nanos(deadlines[j]) == NowNanos(waits[j].now) + t * 1_000_000
      invariant forall j :: 0 <= j < |deadlines| ==> waits[j].expires
      invariant Counter(msecs, |deadlines|, i)
      invariant NoWrap(msecs) ==> |deadlines| <= n && (|deadlines| == n ==> i >= msecs)
      invariant !NoWrap(msecs) && |deadlines| == n ==> i < msecs
      invariant expired <==> |deadlines| > 0
      decreases |waits| - |deadlines|
    {
      var k := |deadlines|;
      var w := waits[k];
      var ts := SetTimespecRelative(w.now, t);
      deadlines := deadlines + [ts];
      if !w.expires {
        return false, deadlines;
      }
      expired := true;
      NextCounter(msecs, k, i);
      i := Add(i, t);
    }
    if i < msecs {
      expired := false;
    }
  }
}
