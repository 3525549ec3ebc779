/** The integer arithmetic around a record's timestamp: turning a parsed
    date-time into microseconds (`RegExtractor::timestamp_micros`) and back
    into seconds and nanoseconds (`LogLine::date`).  Date parsing and
    formatting themselves are library calls and are not modelled: the parsed
    date-time arrives as whole seconds since the epoch plus the sub-second
    part in microseconds. */
module Timestamp {
  import opened Wrappers
  import opened LogLines

  const MICROS_PER_SEC: int := 1_000_000
  const NANOS_PER_MICRO: int := 1_000
  const NANOS_PER_SEC: int := 1_000_000_000
  const U32_MODULUS: int := 0x1_0000_0000

  /** The smallest timestamp whose whole seconds, times one million, still
      fit in `i64`: the whole second at or above `I64_MIN`. */
  const WHOLE_SECONDS_MIN: int := -9_223_372_036_854_000_000

  function Abs(a: int): nat {
    if a < 0 then -a else a
  }

  /** Rust's `/` on integers: the quotient rounded toward zero, so its
      magnitude is that of the floor quotient of the magnitudes and its sign
      follows the dividend. */
  function TruncDiv(a: int, b: int): (q: int)
    requires b > 0
    ensures Abs(q) == Abs(a) / b
    ensures a >= 0 ==> q >= 0
    ensures a <= 0 ==> q <= 0
  {
    if a >= 0 then a / b else -((-a) / b)
  }

  /** Rust's `%` on integers: the remainder that goes with `TruncDiv`, which
      takes the sign of the dividend. */
  function TruncRem(a: int, b: int): (m: int)
    requires b > 0
    ensures a == TruncDiv(a, b) * b + m
    ensures a >= 0 ==> 0 <= m < b
    ensures a < 0 ==> -b < m <= 0
  {
    if a >= 0 then a % b
    else
      var q := (-a) / b;
      assert -a == q * b + (-a) % b;
      assert a == (-q) * b - (-a) % b;
      -((-a) % b)
  }

  /** `timestamp_micros` after parsing: `secs * 1_000_000 + micros` in `i64`.
      Each of the two steps panics on overflow in a debug build; a panic is
      `None` here.  `micros` is chrono's sub-second part, which may reach up
      to two seconds during a leap second. */
  function TimestampMicros(secs: I64, micros: nat): (r: Option<I64>)
    requires micros < 2 * MICROS_PER_SEC
    ensures r.Some? ==> r.value - micros == secs * MICROS_PER_SEC
    ensures r.None? <==> !(I64_MIN <= secs * MICROS_PER_SEC <= I64_MAX && secs * MICROS_PER_SEC + micros <= I64_MAX)
  {
    var scaled := secs * MICROS_PER_SEC;
    if scaled < I64_MIN || I64_MAX < scaled then None
    else if I64_MAX < scaled + micros then None
    else Some(scaled + micros)
  }

  /** Seconds and nanoseconds since the epoch, the arguments of chrono's
      `NaiveDateTime::from_timestamp`. */
  datatype DateParts = DateParts(secs: int, nsecs: nat)

  /** `LogLine::date` as written: whole seconds by dividing the microsecond
      timestamp by one million, but nanoseconds as the remainder modulo one
      billion, cast to `u32`. */
  function DateAsWritten(timestamp: I64): (r: DateParts)
    ensures timestamp >= 0 ==> r.secs == timestamp / MICROS_PER_SEC && r.nsecs == timestamp % NANOS_PER_SEC
    ensures r.nsecs < U32_MODULUS
  {
    DateParts(TruncDiv(timestamp, MICROS_PER_SEC), TruncRem(timestamp, NANOS_PER_SEC) % U32_MODULUS)
  }

  /** The date as evidently intended: the seconds and the sub-second part of
      the microsecond timestamp, the latter in nanoseconds. */
  function Date(timestamp: I64): (r: DateParts)
    ensures r.nsecs < NANOS_PER_SEC && r.nsecs % NANOS_PER_MICRO == 0
    ensures I64_MIN <= r.secs <= I64_MAX
    ensures r.secs * MICROS_PER_SEC + r.nsecs / NANOS_PER_MICRO == timestamp
    ensures TimestampMicros(r.secs, r.nsecs / NANOS_PER_MICRO)
              == if WHOLE_SECONDS_MIN <= timestamp then Some(timestamp) else None
  {
    var secs, micros := timestamp / MICROS_PER_SEC, timestamp % MICROS_PER_SEC;
    assert timestamp == secs * MICROS_PER_SEC + micros;
    assert (micros * NANOS_PER_MICRO) / NANOS_PER_MICRO == micros;
    DateParts(secs, micros * NANOS_PER_MICRO)
  }

  /** Converting a parsed date-time to microseconds and back gives the same
      seconds and sub-second part. */
  lemma DateRoundTrip(secs: I64, micros: nat)
    requires micros < MICROS_PER_SEC
    requires TimestampMicros(secs, micros).Some?
    ensures Date(TimestampMicros(secs, micros).value) == DateParts(secs, micros * NANOS_PER_MICRO)
  {
  }

  /** Ordering records by their microsecond timestamp orders them by the
      date-time they were parsed from: seconds first, then the sub-second part. */
  lemma TimestampMonotonic(s1: I64, u1: nat, s2: I64, u2: nat)
    requires u1 < MICROS_PER_SEC && u2 < MICROS_PER_SEC
    requires TimestampMicros(s1, u1).Some? && TimestampMicros(s2, u2).Some?
    ensures TimestampMicros(s1, u1).value < TimestampMicros(s2, u2).value <==> s1 < s2 || (s1 == s2 && u1 < u2)
  {
  }

  /** During a leap second chrono reports a sub-second part of one second or
      more.  The timestamp then coincides with that of the same offset into
      the next second, and reading the date back gives that next second. */
  lemma LeapSecondCollides(secs: I64, u: nat)
    requires u < MICROS_PER_SEC
    ensures TimestampMicros(secs, MICROS_PER_SEC + u).Some? ==>
              && secs < I64_MAX
              && TimestampMicros(secs, MICROS_PER_SEC + u) == TimestampMicros(secs + 1, u)
              && Date(TimestampMicros(secs, MICROS_PER_SEC + u).value) == DateParts(secs + 1, u * NANOS_PER_MICRO)
  {
  }

  /** So a record stamped inside a leap second sorts after records of the
      following second that happened later than it: the microsecond
      timestamp is not monotonic across a leap second. */
  lemma LeapSecondSortsLate(secs: I64, u: nat, v: nat)
    requires v < u < MICROS_PER_SEC
    requires TimestampMicros(secs, MICROS_PER_SEC + u).Some?
    ensures secs < I64_MAX
    ensures TimestampMicros(secs + 1, v).Some?
    ensures TimestampMicros(secs + 1, v).value < TimestampMicros(secs, MICROS_PER_SEC + u).value
  {
  }

  /** `LogLine::date` as written misreads the sub-second part: a record
      stamped 1.5 seconds after the epoch is shown 1.0015 seconds after it. */
  lemma DateAsWrittenMisreads()
    ensures TimestampMicros(1, 500_000) == Some(1_500_000)
    ensures DateAsWritten(1_500_000) == DateParts(1, 1_500_000)
    ensures Date(1_500_000) == DateParts(1, 500_000_000)
  {
  }

  /** For non-negative timestamps the whole seconds of `LogLine::date` as
      written are right; only the sub-second part is misread. */
  lemma DateAsWrittenSecondsAgree(t: I64)
    requires t >= 0
    ensures DateAsWritten(t).secs == Date(t).secs
  {
  }

  /** Before the epoch `LogLine::date` as written goes wrong outright: the
      remainder is negative and the cast to `u32` wraps it to more than two
      billion nanoseconds, which chrono's `from_timestamp` refuses with a
      panic; the intended reading is a valid date just before the epoch. */
  lemma DateAsWrittenNegative()
    ensures DateAsWritten(-1) == DateParts(0, 4_294_967_295)
    ensures DateAsWritten(-1).nsecs >= 2 * NANOS_PER_SEC
    ensures Date(-1) == DateParts(-1, 999_999_000)
  {
  }
}
