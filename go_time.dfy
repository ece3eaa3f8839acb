/**
  The part of Go's `time` package that the auction store relies on.
  A `time.Duration` is a count of nanoseconds (an `int` here); a `time.Time`
  is a whole number of Unix seconds plus a sub-second nanosecond part.
 */
module GoTime {

  /** `time.Second` and `time.Minute`, in nanoseconds. */
  const Second: int := 1_000_000_000
  const Minute: int := 60 * Second

  /** The nanosecond part of an instant, always normalised into one second. */
  type SubSecond = n: int | 0 <= n < 1_000_000_000

  /** An instant: `Unix()` of it is `unixSec`, and `nsec` is what `Unix()` drops. */
  datatype Time = Time(unixSec: int, nsec: SubSecond)

  /** Instant as nanoseconds since the Unix epoch. */
  function EpochNanos(t: Time): int
  {
    t.unixSec * Second + t.nsec
  }

  /**
    `t.Add(d)`: the instant `d` nanoseconds after `t` (before it when `d` is
    negative), re-normalised so that the nanosecond part stays in one second.
   */
  function Add(t: Time, d: int): (r: Time)
    ensures EpochNanos(r) == EpochNanos(t) + d
  {
    var total := EpochNanos(t) + d;
    Time(total / Second, total % Second)
  }

  /** Adding whole seconds moves `Unix()` by that many seconds and keeps the nanoseconds. */
  lemma AddWholeSeconds(t: Time, k: int)
    ensures Add(t, k * Second) == Time(t.unixSec + k, t.nsec)
  {
  }

  /**
    `int64(d.Seconds())`: the duration in whole seconds, truncated toward zero
    as Go's float-to-integer conversion does (so -1.5s gives -1, not -2).
   */
  function WholeSeconds(d: int): (s: int)
    ensures 0 <= d ==> 0 <= s * Second <= d < s * Second + Second
    ensures d < 0 ==> d <= s * Second <= 0 && s * Second < d + Second
  {
    if d >= 0 then d / Second else -((-d) / Second)
  }

}
