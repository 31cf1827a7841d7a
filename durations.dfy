/** The integer arithmetic the statistics report relies on: Rust's `/` and
    `%` on `i64` (which round toward zero, unlike Dafny's Euclidean
    operators) and the whole-second, whole-minute and whole-hour counts of a
    chrono `TimeDelta` built from a millisecond difference. */
module Durations {

  /** Rust's `a / b` for a positive divisor: the quotient rounded toward zero. */
  function Quot(a: int, b: int): (q: int)
    requires b > 0
    ensures a >= 0 ==> 0 <= a - b * q < b
    ensures a < 0 ==> -b < a - b * q <= 0
  {
    if a >= 0 then a / b else -((-a) / b)
  }

  /** Rust's `a % b` for a positive divisor: the remainder takes the sign of `a`. */
  function Rem(a: int, b: int): (r: int)
    requires b > 0
    ensures b * Quot(a, b) + r == a
    ensures a >= 0 ==> 0 <= r < b
    ensures a < 0 ==> -b < r <= 0
  {
    a - b * Quot(a, b)
  }

  /** `TimeDelta::milliseconds(ms).num_seconds()`. chrono keeps the delta as
      floor seconds plus a non-negative nanosecond part and, for a negative
      delta with a nanosecond part, reports one second less in magnitude; the
      result is the second count rounded toward zero. */
  function NumSeconds(ms: int): (s: int)
    ensures s == Quot(ms, 1000)
  {
    var secs := ms / 1000;
    var nanos := (ms % 1000) * 1_000_000;
    if secs < 0 && nanos > 0 then secs + 1 else secs
  }

  /** `num_minutes()`: whole seconds divided by 60 with Rust's `/`. */
  function NumMinutes(ms: int): (r: int)
    ensures r == Quot(ms, 60_000)
  {
    Quot(NumSeconds(ms), 60)
  }

  /** `num_hours()`: whole seconds divided by 3600 with Rust's `/`. */
  function NumHours(ms: int): (r: int)
    ensures r == Quot(ms, 3_600_000)
  {
    Quot(NumSeconds(ms), 3600)
  }

  /** For non-negative deltas, whole minutes never decrease when deltas are
      added before truncating: floor(a + b) >= floor(a) + floor(b). */
  lemma MinutesSuperadditive(a: int, b: int)
    requires a >= 0 && b >= 0
    ensures NumMinutes(a + b) >= NumMinutes(a) + NumMinutes(b)
  {
  }
}
