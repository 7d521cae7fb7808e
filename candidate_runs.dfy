/**
  The reference times of the model runs the pipeline tries: the most recent
  three-hourly run at or before "now", then the three before it.
*/
module CandidateRuns {
  import opened Clock

  /** Runs start every three hours. */
  const RunInterval: int := 3
  /** How many runs are tried, most recent first. */
  const Lookback: nat := 4

  /** A time on a run boundary: hour a multiple of three, nothing below the hour. */
  predicate OnRunBoundary(t: Moment)
  {
    t.hour % RunInterval == 0 && t.minute == 0 && t.second == 0 && t.micro == 0
  }

  /**
    `now.replace(hour=(now.hour // 3) * 3, minute=0, second=0, microsecond=0)`:
    the same day, on a run boundary, at most "now" and less than three hours before it.
  */
  function LatestRun(now: Moment): (r: Moment)
    ensures r.day == now.day && OnRunBoundary(r)
    ensures ToMicros(r) <= ToMicros(now) < ToMicros(r) + RunInterval * MicrosPerHour
  {
    DateTime(now.day, (now.hour / 3) * 3, 0, 0, 0)
  }

  /** `[latest_run - timedelta(hours=i*3) for i in range(4)]`. */
  function Candidates(now: Moment): (ts: seq<Moment>)
    ensures |ts| == Lookback
  {
    seq(Lookback, i => HoursBefore(LatestRun(now), i * RunInterval))
  }

  /** A time is on a run boundary exactly when it is a whole number of run intervals after the epoch. */
  lemma {:induction false} BoundaryIsMultiple(t: Moment)
    ensures OnRunBoundary(t) <==> ToMicros(t) % (RunInterval * MicrosPerHour) == 0
  {
    var x := ToMicros(t);
    var k := t.day * 8 + t.hour / 3;
    var rest := ((t.hour % 3 * 60 + t.minute) * 60 + t.second) * 1_000_000 + t.micro;
    assert x == k * 10_800_000_000 + rest;
    assert 0 <= rest < 10_800_000_000;
    assert x % 10_800_000_000 == rest;
  }

  /** The instant a whole number `m` of run intervals after the epoch midnight is a run boundary. */
  lemma {:induction false} BoundaryAt(m: int)
    ensures OnRunBoundary(FromMicros(m * 10_800_000_000))
  {
    var x := m * 10_800_000_000;
    assert x / 1_000_000 == m * 10_800 && x % 1_000_000 == 0;
    assert (m * 10_800) / 60 == m * 180 && (m * 10_800) % 60 == 0;
    assert (m * 180) / 60 == m * 3 && (m * 180) % 60 == 0;
    var q := (m * 3) / 24;
    assert (m * 3) % 24 == 3 * (m - 8 * q);
  }

  /** Stepping back a whole number of run intervals from a run boundary lands on a run boundary. */
  lemma {:induction false} StepBackOnBoundary(t: Moment, n: int)
    requires OnRunBoundary(t)
    ensures OnRunBoundary(HoursBefore(t, n * RunInterval))
  {
    var k := t.day * 8 + t.hour / 3;
    assert t.hour == 3 * (t.hour / 3);
    assert ToMicros(t) == k * 10_800_000_000;
    assert ToMicros(t) - n * RunInterval * MicrosPerHour == (k - n) * 10_800_000_000;
    BoundaryAt(k - n);
  }

  /**
    The candidate times: four of them, the first being the latest run
    boundary at or before "now" (less than three hours before it), each later
    one exactly three hours before the one ahead of it, and all on run boundaries.
  */
  lemma {:induction false} CandidateTimes(now: Moment)
    ensures Candidates(now)[0] == LatestRun(now)
    ensures ToMicros(Candidates(now)[0]) <= ToMicros(now) < ToMicros(Candidates(now)[0]) + RunInterval * MicrosPerHour
    ensures forall i :: 0 < i < Lookback ==>
      ToMicros(Candidates(now)[i]) == ToMicros(Candidates(now)[i - 1]) - RunInterval * MicrosPerHour
    ensures forall i :: 0 <= i < Lookback ==> OnRunBoundary(Candidates(now)[i])
  {
    var ts := Candidates(now);
    var latest := LatestRun(now);
    FromToMicros(latest);
    forall i | 0 <= i < Lookback
      ensures OnRunBoundary(ts[i])
    {
      StepBackOnBoundary(latest, i);
    }
  }
}
