/**
 * atTimer: a stopwatch with two fields, the time of the last mark and the
 * interval that mark closed. Each operation that reads the clock takes the
 * reading `now` (in seconds) as a parameter; times are exact reals.
 */
module IntervalTimer {

  /** The two fields of an atTimer, as a value. */
  datatype TimerState = TimerState(markTime: real, markInterval: real)

  /** The state mark() leaves: the interval since the last mark, and a new mark now. */
  function Marked(s: TimerState, now: real): (r: TimerState)
    ensures r.markTime == now
    ensures r.markTime == s.markTime + r.markInterval
  {
    TimerState(now, now - s.markTime)
  }

  /**
   * The state markAtInterval() leaves. When more than `intervalTime` has
   * passed, the mark moves to the moment that interval expired and reports
   * exactly `intervalTime`; otherwise it is a plain mark.
   */
  function MarkedAtInterval(s: TimerState, now: real, intervalTime: real): (r: TimerState)
    ensures r.markInterval <= intervalTime
    ensures r.markTime <= now
    ensures r.markTime == s.markTime + r.markInterval
  {
    if now - s.markTime > intervalTime then TimerState(s.markTime + intervalTime, intervalTime)
    else Marked(s, now)
  }

  /** What getElapsed() reports. */
  function Elapsed(s: TimerState, now: real): real
  {
    now - s.markTime
  }

  /** The state the constructor leaves after its two marks, from any prior interval. */
  function Constructed(first: real, second: real, prior: real): TimerState
  {
    Marked(Marked(TimerState(0.0, prior), first), second)
  }

  /** A timer whose fields markTime and markInterval the operations overwrite. */
  class Timer {
    var markTime: real
    var markInterval: real

    /** The fields as a value. */
    function State(): (s: TimerState)
      reads this
      ensures s.markTime == markTime && s.markInterval == markInterval
    {
      TimerState(markTime, markInterval)
    }

    /**
     * atTimer(): markTime starts at 0, then two marks at clock readings
     * `first` and `second`. The interval field is written by the first mark
     * before anything reads it.
     */
    constructor(first: real, second: real)
      ensures State() == Constructed(first, second, 0.0)
      ensures markTime == second && markInterval == second - first
    {
      markTime := 0.0;
      markInterval := 0.0;
      new;
      Mark(first);
      Mark(second);
    }

    /** mark() at clock reading `now`. */
    method Mark(now: real)
      modifies this
      ensures State() == Marked(old(State()), now)
    {
      markInterval := now - markTime;
      markTime := now;
    }

    /** markAtInterval(intervalTime) at clock reading `now`. */
    method MarkAtInterval(now: real, intervalTime: real)
      modifies this
      ensures State() == MarkedAtInterval(old(State()), now, intervalTime)
    {
      markInterval := now - markTime;
      if markInterval > intervalTime {
        markTime := now - (markInterval - intervalTime);
        markInterval := intervalTime;
      } else {
        markTime := now;
      }
    }

    /** getInterval(): the interval the last mark closed. */
    method GetInterval() returns (r: real)
      ensures r == markInterval
    {
      r := markInterval;
    }

    /** getElapsed() at clock reading `now`: the time since the last mark. */
    method GetElapsed(now: real) returns (r: real)
      ensures r == Elapsed(State(), now)
      ensures now >= markTime ==> r >= 0.0
    {
      r := now - markTime;
    }
  }

  // ---------------------------------------------------------------------
  // Properties of single operations
  // ---------------------------------------------------------------------

  /** Past the interval: the mark advances by exactly `intervalTime`, which is reported. */
  lemma MarkAtIntervalCapped(s: TimerState, now: real, intervalTime: real)
    requires now - s.markTime > intervalTime
    ensures MarkedAtInterval(s, now, intervalTime) == TimerState(s.markTime + intervalTime, intervalTime)
    ensures Elapsed(MarkedAtInterval(s, now, intervalTime), now) == Elapsed(s, now) - intervalTime
    ensures Elapsed(MarkedAtInterval(s, now, intervalTime), now) > 0.0
  {
  }

  /** Within the interval: markAtInterval leaves exactly what mark leaves. */
  lemma MarkAtIntervalUncapped(s: TimerState, now: real, intervalTime: real)
    requires now - s.markTime <= intervalTime
    ensures MarkedAtInterval(s, now, intervalTime) == Marked(s, now)
  {
  }

  /** With a clock that does not run backwards, no mark moves markTime back. */
  lemma MarksDoNotGoBack(s: TimerState, now: real, intervalTime: real)
    requires now >= s.markTime && intervalTime >= 0.0
    ensures s.markTime <= Marked(s, now).markTime
    ensures s.markTime <= MarkedAtInterval(s, now, intervalTime).markTime
    ensures Marked(s, now).markInterval >= 0.0
    ensures MarkedAtInterval(s, now, intervalTime).markInterval >= 0.0
  {
  }

  /** The constructor's result does not depend on the interval field's prior value. */
  lemma ConstructionForgetsPrior(first: real, second: real, prior: real)
    ensures Constructed(first, second, prior) == TimerState(second, second - first)
  {
  }

  // ---------------------------------------------------------------------
  // Sequences of calls
  // ---------------------------------------------------------------------

  /** One public call on a timer, with the clock reading it takes. */
  datatype TimerCall =
    | MarkCall(now: real)
    | MarkAtIntervalCall(now: real, intervalTime: real)
    | GetIntervalCall
    | GetElapsedCall(now: real)

  /** Calls that only read the timer. */
  predicate IsQuery(c: TimerCall)
  {
    c.GetIntervalCall? || c.GetElapsedCall?
  }

  /** The state after one call. */
  function Step(s: TimerState, c: TimerCall): (r: TimerState)
    ensures IsQuery(c) ==> r == s
    ensures !IsQuery(c) ==> r.markTime == s.markTime + r.markInterval
  {
    match c
    case MarkCall(now) => Marked(s, now)
    case MarkAtIntervalCall(now, intervalTime) => MarkedAtInterval(s, now, intervalTime)
    case GetIntervalCall => s
    case GetElapsedCall(_) => s
  }

  /** The state after a sequence of calls, first to last. */
  function Run(s: TimerState, calls: seq<TimerCall>): TimerState
    decreases |calls|
  {
    if calls == [] then s else Run(Step(s, calls[0]), calls[1..])
  }

  /** The calls that are not queries, in order. */
  function WithoutQueries(calls: seq<TimerCall>): (r: seq<TimerCall>)
    ensures |r| <= |calls|
    ensures forall i :: 0 <= i < |r| ==> !IsQuery(r[i])
  {
    if calls == [] then []
    else (if IsQuery(calls[0]) then [] else [calls[0]]) + WithoutQueries(calls[1..])
  }

  /** The intervals the marks of a run report, in order. */
  function MarkIntervals(s: TimerState, calls: seq<TimerCall>): seq<real>
    decreases |calls|
  {
    if calls == [] then []
    else if IsQuery(calls[0]) then MarkIntervals(s, calls[1..])
    else [Step(s, calls[0]).markInterval] + MarkIntervals(Step(s, calls[0]), calls[1..])
  }

  /** The sum of a sequence of reals. */
  function Sum(xs: seq<real>): real
  {
    if xs == [] then 0.0 else xs[0] + Sum(xs[1..])
  }

  /** Dropping a leading query from a run changes nothing. */
  lemma WithoutQueriesCons(c: TimerCall, calls: seq<TimerCall>)
    ensures WithoutQueries([c] + calls) ==
      (if IsQuery(c) then [] else [c]) + WithoutQueries(calls)
  {
    assert ([c] + calls)[1..] == calls;
  }

  /** Queries between marks do not change what the marks leave. */
  lemma {:induction false} QueriesDoNotDisturb(s: TimerState, calls: seq<TimerCall>)
    ensures Run(s, WithoutQueries(calls)) == Run(s, calls)
    decreases |calls|
  {
    if calls != [] {
      var c, rest := calls[0], calls[1..];
      assert calls == [c] + rest;
      WithoutQueriesCons(c, rest);
      QueriesDoNotDisturb(Step(s, c), rest);
      if IsQuery(c) {
        assert WithoutQueries(calls) == WithoutQueries(rest);
      } else {
        assert WithoutQueries(calls) == [c] + WithoutQueries(rest);
        assert ([c] + WithoutQueries(rest))[1..] == WithoutQueries(rest);
      }
    }
  }

  /**
   * Every mark moves markTime by exactly the interval it reports, so after
   * any run markTime is the start plus the sum of the reported intervals.
   */
  lemma {:induction false} MarkTimeIsSumOfIntervals(s: TimerState, calls: seq<TimerCall>)
    ensures Run(s, calls).markTime == s.markTime + Sum(MarkIntervals(s, calls))
    decreases |calls|
  {
    if calls != [] {
      var next := Step(s, calls[0]);
      MarkTimeIsSumOfIntervals(next, calls[1..]);
      if !IsQuery(calls[0]) {
        var xs := [next.markInterval] + MarkIntervals(next, calls[1..]);
        assert xs[1..] == MarkIntervals(next, calls[1..]);
      }
    }
  }

  /** A call of markAtInterval(intervalTime) made late enough to be capped, on a fixed schedule from `start`. */
  predicate LateOnSchedule(calls: seq<TimerCall>, start: real, intervalTime: real)
  {
    forall i :: 0 <= i < |calls| ==>
      calls[i].MarkAtIntervalCall? && calls[i].intervalTime == intervalTime &&
      calls[i].now - (start + (i as real) * intervalTime) > intervalTime
  }

  /**
   * markAtInterval keeps a fixed rate without drift: k capped calls leave
   * the mark exactly k intervals after where it started, however late each
   * call came.
   */
  lemma {:induction false} NoDrift(s: TimerState, calls: seq<TimerCall>, intervalTime: real)
    requires LateOnSchedule(calls, s.markTime, intervalTime)
    ensures Run(s, calls).markTime == s.markTime + (|calls| as real) * intervalTime
    ensures calls != [] ==> Run(s, calls).markInterval == intervalTime
    decreases |calls|
  {
    if calls != [] {
      var next := Step(s, calls[0]);
      assert calls[0].now - s.markTime > intervalTime by {
        assert calls[0].now - (s.markTime + (0 as real) * intervalTime) > intervalTime;
      }
      MarkAtIntervalCapped(s, calls[0].now, intervalTime);
      assert LateOnSchedule(calls[1..], next.markTime, intervalTime) by {
        forall i | 0 <= i < |calls[1..]|
          ensures calls[1..][i].now - (next.markTime + (i as real) * intervalTime) > intervalTime
        {
          assert calls[1..][i] == calls[i + 1];
          assert next.markTime + (i as real) * intervalTime == s.markTime + ((i + 1) as real) * intervalTime;
        }
      }
      NoDrift(next, calls[1..], intervalTime);
      assert (|calls| as real) * intervalTime == intervalTime + (|calls[1..]| as real) * intervalTime;
    }
  }
}
