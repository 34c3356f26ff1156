/**
 * The server clock as the ingestion handler reads it: an instant in
 * nanoseconds since the Unix epoch, floored to a whole millisecond.
 */
module Clock {

  const NanosPerMilli: int := 1_000_000

  /** True of an instant with no sub-millisecond part. */
  predicate IsWholeMillis(nanos: int)
  {
    nanos % NanosPerMilli == 0
  }

  /**
   * `current_time_millis`: the instant rounded towards negative infinity
   * to a whole millisecond (floor mode, also before the epoch).
   */
  function CurrentTimeMillis(nanos: int): (r: int)
    ensures IsWholeMillis(r)
    ensures r <= nanos < r + NanosPerMilli
  {
    nanos - nanos % NanosPerMilli
  }

  /** The floor is the greatest whole millisecond not after the instant. */
  lemma FloorIsGreatestWholeMilli(nanos: int, m: int)
    requires IsWholeMillis(m) && m <= nanos
    ensures m <= CurrentTimeMillis(nanos)
  {
    var r := CurrentTimeMillis(nanos);
    var k, j := m / NanosPerMilli, r / NanosPerMilli;
    assert m == k * NanosPerMilli;
    assert r == j * NanosPerMilli;
    assert m - r == (k - j) * NanosPerMilli;
    assert k <= j;
  }

  /** Rounding an instant that is already rounded changes nothing. */
  lemma FloorIsIdempotent(nanos: int)
    ensures CurrentTimeMillis(CurrentTimeMillis(nanos)) == CurrentTimeMillis(nanos)
  {
    var r := CurrentTimeMillis(nanos);
    FloorIsGreatestWholeMilli(r, r);
  }

  /** Later instants never round to earlier milliseconds. */
  lemma FloorIsMonotone(a: int, b: int)
    requires a <= b
    ensures CurrentTimeMillis(a) <= CurrentTimeMillis(b)
  {
    FloorIsGreatestWholeMilli(b, CurrentTimeMillis(a));
  }

  /**
   * Rounding cannot leave a range whose lower end is a whole millisecond:
   * this is why the handler may treat a rounding failure as impossible.
   */
  lemma FloorStaysInRange(lo: int, hi: int, nanos: int)
    requires IsWholeMillis(lo) && lo <= nanos <= hi
    ensures lo <= CurrentTimeMillis(nanos) <= hi
  {
    FloorIsGreatestWholeMilli(nanos, lo);
  }
}
