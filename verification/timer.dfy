/**
 * The test program's `Timer`: a two-state stopwatch. The steady clock is not modelled;
 * each operation that reads it takes the clock reading (in nanoseconds) as a
 * parameter instead.
 */
module Stopwatch {

  const NanosecondsInSecond: real := 1000.0 * 1000.0 * 1000.0

  /** `_startTime`, `duration` (seconds) and `started`. */
  datatype Timer = Timer(startTime: int, duration: real, started: bool)

  /** `Timer()`: no elapsed time recorded and not running. */
  function NewTimer(): (t: Timer)
    ensures t.duration == 0.0 && !t.started
  {
    Timer(0, 0.0, false)
  }

  /** `start()`: records the clock reading and marks the timer running. */
  function Start(t: Timer, now: int): (r: Timer)
    ensures r.started && r.startTime == now
    ensures r.duration == t.duration
  {
    t.(startTime := now, started := true)
  }

  /**
   * `stop()`: a running timer freezes the seconds elapsed since its start and stops;
   * a timer that is not running is left exactly as it was.
   */
  function Stop(t: Timer, now: int): (r: Timer)
    ensures !r.started
    ensures !t.started ==> r == t
    ensures t.started ==> r.duration == (now - t.startTime) as real / NanosecondsInSecond
    ensures r.startTime == t.startTime
  {
    if !t.started then t
    else t.(duration := (now - t.startTime) as real / NanosecondsInSecond, started := false)
  }

  /** `getDuration()`: the value the last effective `stop()` stored. */
  function GetDuration(t: Timer): real {
    t.duration
  }

  /** A second `stop()` changes nothing, whatever the clock reads by then. */
  lemma StopTwiceIsStopOnce(t: Timer, now1: int, now2: int)
    ensures Stop(Stop(t, now1), now2) == Stop(t, now1)
  {
  }

  /** The measured duration is the clock difference between `start()` and `stop()`. */
  lemma StartStopMeasures(t: Timer, t0: int, t1: int)
    ensures GetDuration(Stop(Start(t, t0), t1)) == (t1 - t0) as real / NanosecondsInSecond
    ensures t0 <= t1 ==> GetDuration(Stop(Start(t, t0), t1)) >= 0.0
  {
  }

  /** `stop()` on a fresh timer leaves duration 0. */
  lemma StopWithoutStart(now: int)
    ensures GetDuration(Stop(NewTimer(), now)) == 0.0
  {
  }
}
