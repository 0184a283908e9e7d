/** TCK clock arithmetic of ftdiJTAG.c: the divisor `divisorForFrequency`
    picks for a requested frequency and the command `ftdiSetClockSpeed`
    sends.  The MPSSE engine divides its 60 MHz base clock by two and then by
    the divisor, so a divisor d gives 30 MHz / d. */
module Clock {
  import opened Bits

  const FTDI_CLOCK_RATE: nat := 60000000
  /** The largest divisor the engine supports (a 16-bit count plus one). */
  const MAX_DIVISOR: nat := 0x10000
  const DISABLE_TCK_PRESCALER: byte := 0x8A
  const SET_TCK_DIVISOR: byte := 0x86

  const UINT32: nat := 0x1_0000_0000

  /** The divisor that gives the fastest clock not above f Hz: the least d
      with 30 MHz / d <= f, i.e. ceil(30 MHz / f), when there is one in range,
      and otherwise the nearest end of the range.  This is what the source
      promises, written independently of how it computes it. */
  predicate IsDivisorFor(f: nat, d: nat)
    requires f >= 1
  {
    1 <= d <= MAX_DIVISOR &&
    (d < MAX_DIVISOR ==> d * f >= FTDI_CLOCK_RATE / 2) &&
    (d > 1 ==> (d - 1) * f < FTDI_CLOCK_RATE / 2)
  }

  /** `divisorForFrequency` as written, for an unsigned 32-bit frequency:
      zero is taken as 1 Hz, the rounding-up sum is computed modulo 2^32,
      and the quotient is clamped to 1 .. 0x10000. */
  function DivisorForFrequency(frequency: nat): (d: nat)
    requires frequency < UINT32
    ensures 1 <= d <= MAX_DIVISOR
  {
    var f := if frequency == 0 then 1 else frequency;
    var sum := (FTDI_CLOCK_RATE / 2 + (f - 1)) % UINT32;
    var q := sum / f;
    if q >= MAX_DIVISOR then MAX_DIVISOR
    else if q < 1 then 1
    else q
  }

  /** ceil(a / f) as the division by f of a + f - 1. */
  lemma CeilDivision(a: nat, f: nat)
    requires f >= 1
    ensures var q := (a + f - 1) / f;
            q * f >= a && (q >= 1 ==> (q - 1) * f < a)
  {
    var x := a + f - 1;
    var q := x / f;
    assert x == q * f + x % f;
    assert (q - 1) * f == q * f - f;
  }

  /** The divisor is the right one for every 32-bit request.  The sum at
      ftdiJTAG.c:410 wraps for requests above 2^32 - 30 MHz, but then the
      wrapped quotient is 0 and the clamp turns it into 1, which is also the
      right divisor for such a fast request: the wrap does no harm. */
  lemma DivisorCorrect(frequency: nat)
    requires frequency < UINT32
    ensures var f := if frequency == 0 then 1 else frequency;
            IsDivisorFor(f, DivisorForFrequency(frequency))
  {
    var f := if frequency == 0 then 1 else frequency;
    var a := FTDI_CLOCK_RATE / 2;
    if a + (f - 1) >= UINT32 {
      WrappedQuotient(a, f);
    } else {
      var q := (a + f - 1) / f;
      CeilDivision(a, f);
      MulMono(MAX_DIVISOR - 1, q - 1, f);
    }
  }

  /** When the rounding-up sum wraps, f is so large that the wrapped sum is
      below it. */
  lemma WrappedQuotient(a: nat, f: nat)
    requires a == FTDI_CLOCK_RATE / 2 && 1 <= f < UINT32 && a + (f - 1) >= UINT32
    ensures ((a + (f - 1)) % UINT32) / f == 0
  {
    var sum := (a + (f - 1)) % UINT32;
    assert sum == a + (f - 1) - UINT32;
    DivSmall(sum, f);
  }

  /** A quotient of a smaller number is zero. */
  lemma DivSmall(x: nat, f: nat)
    requires x < f
    ensures x / f == 0
  {
    var q, r := x / f, x % f;
    assert x == q * f + r && 0 <= r < f;
    MulMono(1, q, f);
    MulMono(q, -1, f);
  }

  /** There is only one right divisor, so `IsDivisorFor` pins the result. */
  lemma DivisorUnique(f: nat, d1: nat, d2: nat)
    requires f >= 1 && IsDivisorFor(f, d1) && IsDivisorFor(f, d2)
    ensures d1 == d2
  {
    MulMono(d1, d2 - 1, f);
    MulMono(d2, d1 - 1, f);
  }

  lemma MulMono(a: int, b: int, f: nat)
    ensures a <= b ==> a * f <= b * f
  {
    if a <= b {
      assert b * f == a * f + (b - a) * f;
    }
  }

  /** The frequency `ftdiSetClockSpeed` programs: a non-zero `lockedSpeed`
      overrides every request. */
  function EffectiveFrequency(lockedSpeed: nat, frequency: nat): (f: nat)
    ensures lockedSpeed != 0 ==> f == lockedSpeed
    ensures lockedSpeed == 0 ==> f == frequency
  {
    if lockedSpeed != 0 then lockedSpeed else frequency
  }

  /** The four bytes `ftdiSetClockSpeed` sends: disable the divide-by-5
      prescaler, then set the divisor, given as divisor - 1 in two
      little-endian bytes. */
  function ClockCommand(lockedSpeed: nat, frequency: nat): (cmd: seq<byte>)
    requires lockedSpeed < UINT32 && frequency < UINT32
    ensures |cmd| == 4 && cmd[0] == DISABLE_TCK_PRESCALER && cmd[1] == SET_TCK_DIVISOR
  {
    var count := DivisorForFrequency(EffectiveFrequency(lockedSpeed, frequency)) - 1;
    [DISABLE_TCK_PRESCALER, SET_TCK_DIVISOR] + Le16(count)
  }

  /** A 16-bit count as the engine takes it, low byte first: the stores of
      `count` and `count >> 8` into byte-sized buffer slots. */
  function Le16(x: nat): (b: seq<byte>)
    requires x < 0x10000
    ensures |b| == 2 && b[0] as int + 256 * b[1] as int == x
  {
    assert (x % 256) as byte as int == x % 256 by { ByteOf(x % 256); }
    assert (x / 256) as byte as int == x / 256 by { ByteOf(x / 256); }
    [(x % 256) as byte, (x / 256) as byte]
  }

  /** Reading the divisor back out of the command gives the right divisor
      for the effective frequency. */
  lemma ClockCommandDivisor(lockedSpeed: nat, frequency: nat)
    requires lockedSpeed < UINT32 && frequency < UINT32
    ensures var cmd := ClockCommand(lockedSpeed, frequency);
            var f := EffectiveFrequency(lockedSpeed, frequency);
            IsDivisorFor(if f == 0 then 1 else f, cmd[2] as int + 256 * cmd[3] as int + 1)
  {
    var f := EffectiveFrequency(lockedSpeed, frequency);
    var d := DivisorForFrequency(f);
    DivisorCorrect(f);
    var cmd := ClockCommand(lockedSpeed, frequency);
    assert cmd[2..] == Le16(d - 1);
  }

}
