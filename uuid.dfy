/** The creation time of the session's version-7 UUID (uuid.go), as whole
    Unix seconds. */
module Uuid {

  /** Go's `int64`. */
  newtype int64 = x: int | -0x8000_0000_0000_0000 <= x < 0x8000_0000_0000_0000

  /** `uuid.Time`: a count of 100-nanosecond ticks since 1582-10-15 00:00 UTC,
      the start of the Gregorian calendar. */
  type Ticks = int64

  /** Ticks in one second. */
  const TicksPerSecond: int64 := 10_000_000

  /** `SecondsBetween15oct1582andStartUNIX`: seconds from 1582-10-15 to
      1970-01-01. */
  const SecondsBetween15oct1582andStartUNIX: int64 := 12_219_292_800

  /** `time.Time` built by `time.Unix(sec, nsec)`. */
  datatype UnixTime = UnixTime(sec: int64, nsec: int64)

  /** `ticks / 10_000_000` with Go's `/`, which truncates toward zero: the
      whole seconds in `ticks`. */
  function WholeSeconds(ticks: Ticks): (q: int64)
    ensures ticks >= 0 ==> q as int * TicksPerSecond as int <= ticks as int < (q as int + 1) * TicksPerSecond as int
    ensures ticks < 0 ==> (q as int - 1) * TicksPerSecond as int < ticks as int <= q as int * TicksPerSecond as int
  {
    if ticks >= 0 then ticks / TicksPerSecond else -((-(ticks as int)) / TicksPerSecond as int) as int64
  }

  /** `GetDateFromUUIDv7`: whole seconds since 1582-10-15 (the sub-second
      ticks dropped), shifted to the Unix epoch; the nanoseconds are zero. The
      subtraction cannot overflow `int64`. */
  function GetDateFromUUIDv7(ticks: Ticks): (t: UnixTime)
    ensures t.nsec == 0
    ensures ticks >= 0 ==>
      (t.sec as int + SecondsBetween15oct1582andStartUNIX as int) * TicksPerSecond as int <= ticks as int
      < (t.sec as int + SecondsBetween15oct1582andStartUNIX as int + 1) * TicksPerSecond as int
  {
    var secondsFrom15oct1582 := WholeSeconds(ticks);
    var secondsFromUnix := secondsFrom15oct1582 - SecondsBetween15oct1582andStartUNIX;
    UnixTime(secondsFromUnix, 0)
  }

  /** Ticks at the Unix epoch give second 0. */
  lemma EpochIsZero()
    ensures GetDateFromUUIDv7(SecondsBetween15oct1582andStartUNIX * TicksPerSecond) == UnixTime(0, 0)
  {
  }

  /** A later UUID never has an earlier date. */
  lemma Monotone(t1: Ticks, t2: Ticks)
    requires t1 <= t2
    ensures GetDateFromUUIDv7(t1).sec <= GetDateFromUUIDv7(t2).sec
  {
  }

  /** Every tick of one whole second after 1582-10-15 gives the same date:
      second `k` of the Gregorian count is Unix second `k - 12_219_292_800`. */
  lemma SameSecond(k: int64, ticks: Ticks)
    requires k >= 0 && k as int * TicksPerSecond as int <= ticks as int < (k as int + 1) * TicksPerSecond as int
    ensures GetDateFromUUIDv7(ticks) == UnixTime(k - SecondsBetween15oct1582andStartUNIX, 0)
  {
  }
}
