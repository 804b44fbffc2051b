/**
 * The byte limit a process is measured against. The gigabyte count is a C#
 * `long`, and `limitInGb * 1024 * 1024 * 1024` is evaluated in unchecked
 * 64-bit arithmetic, so an oversized count wraps around in two's complement
 * instead of failing.
 */
module MemoryLimit {

  const TwoTo63: int := 0x8000_0000_0000_0000
  const TwoTo64: int := 0x1_0000_0000_0000_0000

  /** A C# `long`. */
  newtype int64 = x: int | -0x8000_0000_0000_0000 <= x < 0x8000_0000_0000_0000

  /** Bytes in one gigabyte, as the monitor counts them (1024^3). */
  const BytesPerGb: int := 1024 * 1024 * 1024

  /** Gigabyte counts whose byte value fits in a `long` (|limitInGb| < 2^33). */
  const ExactGbBound: int := 0x2_0000_0000

  /** Two's-complement truncation of a mathematical integer to 64 bits. */
  function WrapInt64(x: int): (r: int64)
    ensures (r as int - x) % TwoTo64 == 0
    ensures -TwoTo63 <= x < TwoTo63 ==> r as int == x
  {
    var m := (x + TwoTo63) % TwoTo64;
    assert m - TwoTo63 - x == -((x + TwoTo63) / TwoTo64) * TwoTo64;
    (m - TwoTo63) as int64
  }

  /**
   * The byte limit `limitInGb * 1024 * 1024 * 1024` as a `long`. Wrapping
   * after each multiplication gives the same value as wrapping the whole
   * product once, so the product is wrapped once here.
   */
  function CalculatedLimit(limitInGb: int64): (r: int64)
    ensures -ExactGbBound <= limitInGb as int < ExactGbBound ==> r as int == limitInGb as int * BytesPerGb
  {
    WrapInt64(limitInGb as int * BytesPerGb)
  }

  /** Outside that range the limit is the product reduced modulo 2^64 into the `long` range. */
  lemma CalculatedLimitWraps(limitInGb: int64)
    ensures (CalculatedLimit(limitInGb) as int - limitInGb as int * BytesPerGb) % TwoTo64 == 0
  {
  }

  /** A gigabyte count of 2^33 wraps to the most negative `long`, and 2^34 to zero. */
  lemma OversizedLimitWraps()
    ensures CalculatedLimit(0x2_0000_0000) as int == -TwoTo63
    ensures CalculatedLimit(0x4_0000_0000) == 0
  {
  }
}
