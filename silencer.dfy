/**
 * The non-silent interval scanner of `remove_silent_parts`
 * (whisper/main/silencer.py). The per-sample volumes are an input; the
 * time of sample `i` is `i / fps`, and an interval's end is either a sample
 * or the clip's duration.
 */
module Silencer {
  import opened Base

  const SilenceThreshold: real := 0.01
  const MinSilenceDuration: real := 0.5

  /** Where an interval ends: at a quiet sample, or at the end of the audio. */
  datatype Stop = AtSample(index: nat) | AtDuration

  /** A non-silent interval: its first loud sample and where it stops. */
  datatype Interval = Interval(start: nat, stop: Stop)

  /** The loop's variables: the intervals found so far and the open interval's start, if any. */
  datatype ScanState = ScanState(intervals: seq<Interval>, start: Option<nat>)

  predicate Loud(volume: real) {
    volume > SilenceThreshold
  }

  /** More than the minimum duration separates sample `s` from sample `i`, at `fps` samples per second. */
  predicate LongEnough(s: nat, i: nat, fps: real)
    requires fps > 0.0
  {
    i as real / fps - s as real / fps > MinSilenceDuration
  }

  /** One iteration of the loop, for sample `i` of volume `volume`. */
  function Step(st: ScanState, i: nat, volume: real, fps: real): ScanState
    requires fps > 0.0
  {
    if Loud(volume) then
      if st.start.None? then st.(start := Some(i)) else st
    else if st.start.Some? && LongEnough(st.start.value, i, fps) then
      ScanState(st.intervals + [Interval(st.start.value, AtSample(i))], None)
    else
      st
  }

  /** The loop's variables after the first `n` samples. */
  function Scanned(volumes: seq<real>, fps: real, n: nat): ScanState
    requires fps > 0.0 && n <= |volumes|
    decreases n
  {
    if n == 0 then ScanState([], None)
    else Step(Scanned(volumes, fps, n - 1), n - 1, volumes[n - 1], fps)
  }

  /** The intervals the scan reports: those closed in the loop, then the open one closed at the duration. */
  function Intervals(volumes: seq<real>, fps: real): seq<Interval>
    requires fps > 0.0
  {
    var st := Scanned(volumes, fps, |volumes|);
    if st.start.Some? then st.intervals + [Interval(st.start.value, AtDuration)] else st.intervals
  }

  /** The loop over the samples and the closing of the last open interval. */
  method NonSilentIntervals(volumes: seq<real>, fps: real) returns (intervals: seq<Interval>)
    requires fps > 0.0
    ensures intervals == Intervals(volumes, fps)
  {
    intervals := [];
    var start: Option<nat> := None;
    for i := 0 to |volumes|
      invariant ScanState(intervals, start) == Scanned(volumes, fps, i)
    {
      var volume := volumes[i];
      if volume > SilenceThreshold {
        if start.None? {
          start := Some(i);
        }
      } else {
        if start.Some? && LongEnough(start.value, i, fps) {
          intervals := intervals + [Interval(start.value, AtSample(i))];
          start := None;
        }
      }
    }
    if start.Some? {
      intervals := intervals + [Interval(start.value, AtDuration)];
    }
  }

  /** Whether a video is written: only when some interval was found. */
  predicate WritesOutput(volumes: seq<real>, fps: real)
    requires fps > 0.0
  {
    |Intervals(volumes, fps)| > 0
  }

  /** An interval starts at a loud sample; one closed at a sample ends at a later, quiet sample, more than the minimum later. */
  predicate WellFormed(volumes: seq<real>, fps: real, iv: Interval)
    requires fps > 0.0
  {
    iv.start < |volumes| && Loud(volumes[iv.start]) &&
    (iv.stop.AtSample? ==>
       iv.start < iv.stop.index < |volumes| && !Loud(volumes[iv.stop.index]) &&
       LongEnough(iv.start, iv.stop.index, fps))
  }

  /** Every interval but possibly the last stops at a sample before every later interval starts. */
  predicate Disjoint(ivs: seq<Interval>) {
    forall j, k :: 0 <= j < k < |ivs| ==> ivs[j].stop.AtSample? && ivs[j].stop.index < ivs[k].start
  }

  /** What holds of the loop's variables after `n` samples. */
  predicate ScanInvariant(volumes: seq<real>, fps: real, n: nat, st: ScanState)
    requires fps > 0.0
  {
    (forall k :: 0 <= k < |st.intervals| ==>
       WellFormed(volumes, fps, st.intervals[k]) && st.intervals[k].stop.AtSample? &&
       st.intervals[k].stop.index < n) &&
    Disjoint(st.intervals) &&
    (st.start.Some? ==>
       st.start.value < n <= |volumes| && Loud(volumes[st.start.value]) &&
       forall k :: 0 <= k < |st.intervals| ==> st.intervals[k].stop.index < st.start.value)
  }

  lemma {:induction false} ScannedInvariant(volumes: seq<real>, fps: real, n: nat)
    requires fps > 0.0 && n <= |volumes|
    ensures ScanInvariant(volumes, fps, n, Scanned(volumes, fps, n))
    decreases n
  {
    if n > 0 {
      ScannedInvariant(volumes, fps, n - 1);
      var st := Scanned(volumes, fps, n - 1);
      var i := n - 1;
      if !Loud(volumes[i]) && st.start.Some? && LongEnough(st.start.value, i, fps) {
        var ivs := st.intervals + [Interval(st.start.value, AtSample(i))];
        assert forall k :: 0 <= k < |st.intervals| ==> ivs[k] == st.intervals[k];
      }
    }
  }

  /**
   * The reported intervals start at loud samples, the ones closed in the loop
   * stop at a quiet sample more than the minimum duration later, only the last
   * may run to the end of the audio, and they come in increasing time order
   * without overlapping.
   */
  lemma IntervalsWellFormed(volumes: seq<real>, fps: real)
    requires fps > 0.0
    ensures var ivs := Intervals(volumes, fps);
            (forall k :: 0 <= k < |ivs| ==> WellFormed(volumes, fps, ivs[k])) && Disjoint(ivs)
  {
    var st := Scanned(volumes, fps, |volumes|);
    ScannedInvariant(volumes, fps, |volumes|);
    if st.start.Some? {
      var ivs := st.intervals + [Interval(st.start.value, AtDuration)];
      assert forall k :: 0 <= k < |st.intervals| ==> ivs[k] == st.intervals[k];
    }
  }

  /** Sample `i` lies in one of the intervals: at or after its start, and before its stop when it stops at a sample. */
  predicate Covered(ivs: seq<Interval>, i: nat) {
    exists k :: 0 <= k < |ivs| && ivs[k].start <= i && (ivs[k].stop.AtSample? ==> i < ivs[k].stop.index)
  }

  /** After `n` samples, every loud one among them lies in a closed interval or at or after the open one's start. */
  lemma {:induction false} ScannedCovers(volumes: seq<real>, fps: real, n: nat)
    requires fps > 0.0 && n <= |volumes|
    ensures var st := Scanned(volumes, fps, n);
            forall i :: 0 <= i < n && Loud(volumes[i]) ==>
              Covered(st.intervals, i) || (st.start.Some? && st.start.value <= i)
    decreases n
  {
    if n > 0 {
      ScannedCovers(volumes, fps, n - 1);
      var st := Scanned(volumes, fps, n - 1);
      var i := n - 1;
      if !Loud(volumes[i]) && st.start.Some? && LongEnough(st.start.value, i, fps) {
        var closed := Interval(st.start.value, AtSample(i));
        var ivs := st.intervals + [closed];
        forall j | 0 <= j < n && Loud(volumes[j])
          ensures Covered(ivs, j)
        {
          if Covered(st.intervals, j) {
            var k :| 0 <= k < |st.intervals| && st.intervals[k].start <= j &&
                     (st.intervals[k].stop.AtSample? ==> j < st.intervals[k].stop.index);
            assert ivs[k] == st.intervals[k];
          } else {
            assert ivs[|st.intervals|] == closed;
          }
        }
      } else {
        ScannedInvariant(volumes, fps, n - 1);
        var next := Scanned(volumes, fps, n);
        assert next.intervals == st.intervals;
        assert next.start == if st.start.None? && Loud(volumes[i]) then Some(i) else st.start;
        forall j | 0 <= j < n && Loud(volumes[j])
          ensures Covered(next.intervals, j) || (next.start.Some? && next.start.value <= j)
        {
          if j < i && !Covered(st.intervals, j) {
            assert st.start.Some? && st.start.value <= j;
          }
        }
      }
    }
  }

  /** Every loud sample lies in one of the reported intervals: the scan misses no sound. */
  lemma IntervalsCoverLoud(volumes: seq<real>, fps: real)
    requires fps > 0.0
    ensures forall i :: 0 <= i < |volumes| && Loud(volumes[i]) ==> Covered(Intervals(volumes, fps), i)
  {
    var st := Scanned(volumes, fps, |volumes|);
    ScannedCovers(volumes, fps, |volumes|);
    if st.start.Some? {
      var ivs := st.intervals + [Interval(st.start.value, AtDuration)];
      forall i | 0 <= i < |volumes| && Loud(volumes[i])
        ensures Covered(ivs, i)
      {
        if Covered(st.intervals, i) {
          var k :| 0 <= k < |st.intervals| && st.intervals[k].start <= i &&
                   (st.intervals[k].stop.AtSample? ==> i < st.intervals[k].stop.index);
          assert ivs[k] == st.intervals[k];
        } else {
          assert ivs[|st.intervals|].start <= i;
        }
      }
    }
  }

  /** A quiet sample before the minimum duration has passed leaves the open interval open and records nothing. */
  lemma ShortGapKeepsOpen(st: ScanState, i: nat, volume: real, fps: real)
    requires fps > 0.0 && st.start.Some? && !Loud(volume) && !LongEnough(st.start.value, i, fps)
    ensures Step(st, i, volume, fps) == st
  {
  }

  /** With no loud sample the scan opens no interval, so it reports none and writes no video. */
  lemma {:induction false} AllQuietNoIntervals(volumes: seq<real>, fps: real)
    requires fps > 0.0
    requires forall i :: 0 <= i < |volumes| ==> !Loud(volumes[i])
    ensures Intervals(volumes, fps) == [] && !WritesOutput(volumes, fps)
  {
    QuietPrefix(volumes, fps, |volumes|);
  }

  lemma {:induction false} QuietPrefix(volumes: seq<real>, fps: real, n: nat)
    requires fps > 0.0 && n <= |volumes|
    requires forall i :: 0 <= i < |volumes| ==> !Loud(volumes[i])
    ensures Scanned(volumes, fps, n) == ScanState([], None)
    decreases n
  {
    if n > 0 {
      QuietPrefix(volumes, fps, n - 1);
    }
  }

  /** A loud sample with no interval open opens one there. */
  lemma LoudOpens(st: ScanState, i: nat, volume: real, fps: real)
    requires fps > 0.0 && st.start.None? && Loud(volume)
    ensures Step(st, i, volume, fps) == ScanState(st.intervals, Some(i))
  {
  }
}
