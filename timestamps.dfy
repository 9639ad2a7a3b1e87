/** Millisecond timestamps and Go's `time.Time`, with Go's truncating integer
    division written out (Dafny's `/` rounds toward minus infinity for a
    negative dividend). */
module Timestamps {

  const MinInt64: int := -0x8000_0000_0000_0000
  const MaxInt64: int := 0x7FFF_FFFF_FFFF_FFFF
  const NanosPerSecond: int := 1_000_000_000
  const NanosPerMilli: int := 1_000_000

  predicate IsInt64(x: int)
  {
    MinInt64 <= x <= MaxInt64
  }

  /** Go's `a / b`: the quotient truncated toward zero, so the remainder has the
      sign of the dividend. */
  function Quot(a: int, b: int): (q: int)
    requires b > 0
    ensures -b < a - q * b < b
    ensures a >= 0 ==> 0 <= a - q * b
    ensures a < 0 ==> a - q * b <= 0
  {
    if a >= 0 then a / b else -((-a) / b)
  }

  /** `toTimestamp`'s split of a millisecond count into the seconds and
      nanoseconds it passes to `time.Unix`. */
  function SplitMillis(ms: int): (r: (int, int))
  {
    var sec := Quot(ms, 1000);
    (sec, (ms - sec * 1000) * 1000000)
  }

  /** The split loses nothing: the seconds and the whole milliseconds in the
      nanosecond part add back up to `ms`, the nanosecond part stays below one
      second in size and takes the sign of `ms`, and for an int64 input no
      intermediate value overflows. */
  lemma SplitMillisExact(ms: int)
    ensures var (sec, nsec) := SplitMillis(ms);
      && sec * 1000 + Quot(nsec, NanosPerMilli) == ms
      && nsec % NanosPerMilli == 0
      && -NanosPerSecond < nsec < NanosPerSecond
      && (ms >= 0 ==> nsec >= 0) && (ms < 0 ==> nsec <= 0)
      && (IsInt64(ms) ==> IsInt64(sec * 1000) && IsInt64(nsec))
  {
    var (sec, nsec) := SplitMillis(ms);
    var rem := ms - sec * 1000;
    assert -1000 < rem < 1000;
    assert nsec == rem * 1000000;
    assert Quot(nsec, NanosPerMilli) == rem by {
      var q := Quot(nsec, NanosPerMilli);
      assert -NanosPerMilli < (rem - q) * NanosPerMilli < NanosPerMilli;
    }
  }

  /** A `time.Time`, reduced to its instant: seconds since the epoch and a
      nanosecond offset. */
  datatype Instant = Instant(sec: int, nsec: int)

  predicate Normalized(t: Instant)
  {
    0 <= t.nsec < NanosPerSecond
  }

  /** `t.UnixNano()`: the instant in nanoseconds since the epoch. */
  function UnixNano(t: Instant): int
  {
    t.sec * NanosPerSecond + t.nsec
  }

  /** Go's `time.Unix(sec, nsec)`: an out-of-range nanosecond part is folded
      into the seconds. */
  function Unix(sec: int, nsec: int): (t: Instant)
    ensures Normalized(t)
    ensures UnixNano(t) == sec * NanosPerSecond + nsec
  {
    if nsec < 0 || nsec >= NanosPerSecond then
      var n := Quot(nsec, NanosPerSecond);
      var s, ns := sec + n, nsec - n * NanosPerSecond;
      if ns < 0 then Instant(s - 1, ns + NanosPerSecond) else Instant(s, ns)
    else Instant(sec, nsec)
  }

  /** `toTimestamp`: the instant `ms` milliseconds after the epoch. */
  function ToTimestamp(ms: int): (t: Instant)
    ensures Normalized(t)
  {
    var (sec, nsec) := SplitMillis(ms);
    Unix(sec, nsec)
  }

  /** `toTimestamp` is exact: its instant is `ms` milliseconds, whatever the
      sign of `ms`. */
  lemma ToTimestampExact(ms: int)
    ensures UnixNano(ToTimestamp(ms)) == ms * NanosPerMilli
  {
    var (sec, nsec) := SplitMillis(ms);
    assert nsec == (ms - sec * 1000) * 1000000;
    calc {
      UnixNano(ToTimestamp(ms));
      sec * NanosPerSecond + nsec;
      sec * 1000 * 1000000 + (ms - sec * 1000) * 1000000;
      ms * NanosPerMilli;
    }
  }

  /** The read path turns a scanned time back into milliseconds with
      `UnixNano() / 1000000`; on an instant made by `toTimestamp` this gives the
      original millisecond count back. */
  lemma MillisRoundTrip(ms: int)
    ensures Quot(UnixNano(ToTimestamp(ms)), NanosPerMilli) == ms
  {
    ToTimestampExact(ms);
    var q := Quot(ms * NanosPerMilli, NanosPerMilli);
    assert -NanosPerMilli < (ms - q) * NanosPerMilli < NanosPerMilli;
  }

  /** Go's `int64` arithmetic on overflow: the value wraps around modulo 2^64
      into the signed range. */
  function Wrap64(x: int): (r: int)
    ensures IsInt64(r)
    ensures (x - r) % 0x1_0000_0000_0000_0000 == 0
    ensures IsInt64(x) ==> r == x
  {
    var q := (x - MinInt64) / 0x1_0000_0000_0000_0000;
    x - q * 0x1_0000_0000_0000_0000
  }

  /** `model.Time.UnixNano()` on a millisecond timestamp: the timestamp times
      one million, computed in `int64`. */
  function TimeUnixNano(ms: int): int
  {
    Wrap64(ms * NanosPerMilli)
  }

  /** The write path turns a sample's timestamp into milliseconds with
      `UnixNano() / 1000000`. This gives the timestamp back exactly when the
      nanosecond count fits in `int64`, that is for timestamps within about 292
      years of the epoch. */
  lemma WriteMillisExact(ms: int)
    requires IsInt64(ms * NanosPerMilli)
    ensures Quot(TimeUnixNano(ms), NanosPerMilli) == ms
  {
    var q := Quot(ms * NanosPerMilli, NanosPerMilli);
    assert -NanosPerMilli < (ms - q) * NanosPerMilli < NanosPerMilli;
  }
}
