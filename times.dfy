/** The (minutes, seconds, milliseconds, ticks) tuple both scripts pass around, and its value in seconds. */
module Times {

  /** libav's AV_TIME_BASE: ticks per second. */
  const AvTimeBase: nat := 1000000

  datatype Time = Time(minutes: nat, seconds: nat, milliseconds: nat, ticks: nat)

  /** Whole seconds of the minutes and seconds components. */
  function WholeSeconds(t: Time): nat
  {
    60 * t.minutes + t.seconds
  }

  /**
   * The offset in seconds, ticks / AV_TIME_BASE + milliseconds / 1000 + seconds + 60 * minutes,
   * computed exactly instead of in floating point.
   */
  function Seconds(t: Time): (r: real)
    ensures r >= WholeSeconds(t) as real
    ensures r == WholeSeconds(t) as real <==> t.milliseconds == 0 && t.ticks == 0
  {
    t.ticks as real / AvTimeBase as real + t.milliseconds as real / 1000.0 + t.seconds as real + 60.0 * t.minutes as real
  }
}
