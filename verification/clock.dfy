/**
 * Go's int64 and the clock offset the coordinator stores for a device.
 * Timestamps are milliseconds since the epoch held in int64; Go's `-` and `+`
 * on int64 wrap around in two's complement, which `Wrap` writes out.
 */
module Clock {

  const Half: int := 0x8000_0000_0000_0000      // 2^63
  const Modulus: int := 0x1_0000_0000_0000_0000 // 2^64

  type int64 = x: int | -0x8000_0000_0000_0000 <= x < 0x8000_0000_0000_0000

  predicate InInt64(x: int) {
    -Half <= x < Half
  }

  /** The int64 that Go's two's complement arithmetic yields for the exact value x. */
  function Wrap(x: int): (r: int64)
    ensures InInt64(x) ==> r == x
  {
    var m := (x + Half) % Modulus;
    assert InInt64(x) ==> m == x + Half;
    m - Half
  }

  /** Wrap(x) differs from x by a whole number of 2^64 steps. */
  lemma WrapCongruent(x: int) returns (q: int)
    ensures Wrap(x) == x - q * Modulus
  {
    q := (x + Half) / Modulus;
  }

  /** Values that differ by whole 2^64 steps wrap to the same int64. */
  lemma WrapShift(x: int, q: int)
    ensures Wrap(x + q * Modulus) == Wrap(x)
  {
  }

  /** Go's int64 subtraction a - b. */
  function Sub(a: int64, b: int64): int64 {
    Wrap(a - b)
  }

  /** Go's int64 addition a + b. */
  function Add(a: int64, b: int64): int64 {
    Wrap(a + b)
  }

  /**
   * The offset recorded at registration: coordinator arrival time minus the
   * clock the device reported. Exact unless the difference leaves int64, in
   * which case it is the two's complement wrap of the exact difference.
   */
  function ClockOffset(arrival: int64, deviceClock: int64): (offset: int64)
    ensures InInt64(arrival - deviceClock) ==> offset == arrival - deviceClock
    ensures offset == arrival - deviceClock
         || offset == arrival - deviceClock + Modulus
         || offset == arrival - deviceClock - Modulus
  {
    Sub(arrival, deviceClock)
  }

  /**
   * The offset aligns the device's clock to the coordinator's: adding it (in
   * int64) to the clock the device reported gives back the arrival time,
   * also when the subtraction wrapped.
   */
  lemma OffsetAlignsClock(arrival: int64, deviceClock: int64)
    ensures Add(deviceClock, ClockOffset(arrival, deviceClock)) == arrival
  {
    var q := WrapCongruent(arrival - deviceClock);
    assert deviceClock + ClockOffset(arrival, deviceClock) == arrival + (-q) * Modulus;
    WrapShift(arrival, -q);
  }
}
