/** Counters truncated to a few bits and expanded again, and the timestamps built on them. */
module Counters {

  /** The low bits of a counter; `period` is two to the number of bits. */
  function Truncate(x: int, period: int): (t: int)
    requires period > 0
    ensures 0 <= t < period
  {
    x % period
  }

  lemma TruncateShift(x: int, q: int, period: int)
    requires period > 0
    ensures Truncate(x + q * period, period) == Truncate(x, period)
  {
    var t := x % period;
    var k := x / period;
    assert x + q * period == (k + q) * period + t by {
      assert x == k * period + t;
      assert (k + q) * period == k * period + q * period;
    }
    DivModUnique(x + q * period, period, k + q, t);
  }

  lemma DivModUnique(x: int, period: int, q: int, r: int)
    requires period > 0 && x == q * period + r && 0 <= r < period
    ensures x / period == q && x % period == r
  {
    var q', r' := x / period, x % period;
    var d := q - q';
    assert x == q' * period + r';
    assert d * period == r' - r by {
      assert d * period == q * period - q' * period;
    }
    Multiple(d, period);
  }

  /** A multiple that is smaller than the unit is zero. */
  lemma Multiple(d: int, period: int)
    requires period > 0
    ensures d >= 1 ==> d * period >= period
    ensures d <= -1 ==> d * period <= -period
    ensures d >= 2 ==> d * period >= 2 * period
    ensures d <= -2 ==> d * period <= -2 * period
  {
    if d >= 2 {
      assert (d - 2) * period >= 0;
    } else if d <= -2 {
      assert (-2 - d) * period >= 0;
    }
  }

  /** ExpandFromTruncatedWithBias: the counter nearest to a recent one that has the given low bits,
      where a positive bias accepts more of the past and less of the future. */
  function ExpandWithBias(recent: int, smaller: int, msb: int, bias: int): int
    requires msb > 0 && 0 <= smaller < 2 * msb
  {
    var low := Truncate(recent, 2 * msb);
    var result := recent - low + smaller;
    if low < smaller then
      if smaller - low >= msb - bias then result - 2 * msb else result
    else
      if low - smaller > msb + bias then result + 2 * msb else result
  }

  /** Expansion recovers exactly the counters from recent - (msb + bias) up to recent + (msb - bias). */
  lemma ExpandRecovers(recent: int, x: int, msb: int, bias: int)
    requires msb > 0 && -msb <= bias < msb
    ensures ExpandWithBias(recent, Truncate(x, 2 * msb), msb, bias) == x <==>
              recent - (msb + bias) <= x < recent + (msb - bias)
  {
    hide Truncate;
    var period := 2 * msb;
    var k := PeriodsApart(recent, x, period);
    Multiple(k, period);
    ExpandChoice(recent, Truncate(recent, period), Truncate(x, period), msb, bias, k, k * period, x);
  }

  /** The choice between one period back, none and one ahead. */
  lemma ExpandChoice(recent: int, low: int, small: int, msb: int, bias: int, k: int, shift: int, x: int)
    requires msb > 0 && -msb <= bias < msb && low == Truncate(recent, 2 * msb) && 0 <= small < 2 * msb
    requires x == recent - low + small + shift
    requires k == 0 ==> shift == 0
    requires k == 1 ==> shift == 2 * msb
    requires k == -1 ==> shift == -2 * msb
    requires k >= 2 ==> shift >= 4 * msb
    requires k <= -2 ==> shift <= -4 * msb
    ensures ExpandWithBias(recent, small, msb, bias) == x <==> recent - (msb + bias) <= x < recent + (msb - bias)
  {
    hide Truncate;
  }

  /** ExpandFromTruncated: the gap between the low bits, as a signed number, added to the recent counter. */
  function Expand(recent: int, smaller: int, msb: int): int
    requires msb > 0 && 0 <= smaller < 2 * msb
  {
    var gap := Truncate(smaller - Truncate(recent, 2 * msb), 2 * msb);
    recent + (if gap >= msb then gap - 2 * msb else gap)
  }

  /** Without bias the recent counter may be off by half a period either way, the future by one less. */
  lemma ExpandIsUnbiased(recent: int, x: int, msb: int)
    requires msb > 0
    ensures Expand(recent, Truncate(x, 2 * msb), msb) == x <==> recent - msb <= x < recent + msb
  {
    hide Truncate;
    var period := 2 * msb;
    var low, small := Truncate(recent, period), Truncate(x, period);
    var k := PeriodsApart(recent, x, period);
    Multiple(k, period);
    GapOf(low, small, msb);
    GapChoice(small - low, msb, k, k * period);
  }

  lemma PeriodsApart(recent: int, x: int, period: int) returns (k: int)
    requires period > 0
    ensures x - recent == Truncate(x, period) - Truncate(recent, period) + k * period
  {
    var q, r := recent / period, x / period;
    k := r - q;
    assert k * period == r * period - q * period;
  }

  lemma GapOf(low: int, small: int, msb: int)
    requires msb > 0 && 0 <= low < 2 * msb && 0 <= small < 2 * msb
    ensures Truncate(small - low, 2 * msb) == if small < low then small - low + 2 * msb else small - low
  {
    var period := 2 * msb;
    if small < low {
      DivModUnique(small - low, period, -1, small - low + period);
    } else {
      DivModUnique(small - low, period, 0, small - low);
    }
  }

  lemma GapChoice(d: int, msb: int, k: int, shift: int)
    requires msb > 0 && -2 * msb < d < 2 * msb
    requires k == 0 ==> shift == 0
    requires k == 1 ==> shift == 2 * msb
    requires k == -1 ==> shift == -2 * msb
    requires k >= 2 ==> shift >= 4 * msb
    requires k <= -2 ==> shift <= -4 * msb
    ensures var gap := if d < 0 then d + 2 * msb else d;
            (if gap >= msb then gap - 2 * msb else gap) == d + shift <==> -msb <= d + shift < msb
  {
  }

  // ----- the bytes of a sequence number

  /** Half the range of a field of 1 to 7 bytes. */
  function ByteMsb(bytes: nat): (msb: int)
    requires 1 <= bytes <= 7
    ensures msb > 0
  {
    match bytes
    case 1 => 0x80
    case 2 => 0x8000
    case 3 => 0x80_0000
    case 4 => 0x8000_0000
    case 5 => 0x80_0000_0000
    case 6 => 0x8000_0000_0000
    case 7 => 0x80_0000_0000_0000
  }

  /** CounterExpand */
  function CounterExpand(largest: nat, partial: nat, bytes: nat): int
    requires 1 <= bytes <= 7
  {
    Expand(largest, Truncate(partial, 2 * ByteMsb(bytes)), ByteMsb(bytes))
  }

  /** A sequence number cut to a few bytes is found again exactly while it is near the largest one seen. */
  lemma CounterExpandRecovers(largest: nat, x: nat, bytes: nat)
    requires 1 <= bytes <= 7
    ensures CounterExpand(largest, Truncate(x, 2 * ByteMsb(bytes)), bytes) == x <==>
              largest - ByteMsb(bytes) <= x < largest + ByteMsb(bytes)
  {
    var msb := ByteMsb(bytes);
    var t := Truncate(x, 2 * msb);
    DivModUnique(t, 2 * msb, 0, t);
    ExpandIsUnbiased(largest, x, msb);
  }

  // ----- timestamps

  /** A format for remote times: how many microseconds one tick lasts, half the range, the bias. */
  datatype TimeFormat = TimeFormat(tick: nat, msb: nat, bias: nat)

  const TIME16 := TimeFormat(512, 0x8000, 0x4000)
  const TIME23 := TimeFormat(8, 0x40_0000, 0x20_0000)

  const DELTA_PERIOD: int := 0x400_0000

  function ErrorBound(f: TimeFormat): int { f.tick * 2 - 1 }

  predicate IsFormat(f: TimeFormat) { f == TIME16 || f == TIME23 }

  /** ToRemoteTime16 and ToRemoteTime23: the field to send, zero before the clocks are synchronized. */
  function ToRemoteTime(f: TimeFormat, synchronized: bool, delta: nat, localUsec: nat): (t: int)
    requires IsFormat(f)
    ensures 0 <= t < 2 * f.msb
  {
    if !synchronized then 0
    else Truncate(Truncate(localUsec / f.tick, 2 * f.msb) + Truncate(delta / f.tick, 2 * f.msb), 2 * f.msb)
  }

  /** FromLocalTime16 and FromLocalTime23 */
  function FromLocalTime(f: TimeFormat, localUsec: nat, timestamp: int): int
    requires IsFormat(f) && 0 <= timestamp < 2 * f.msb
  {
    ExpandWithBias(localUsec / f.tick, timestamp, f.msb, f.bias) * f.tick
  }

  /** The sum of two rounded times is the rounded sum, or one less. */
  lemma RoundedSum(f: TimeFormat, a: nat, delta: nat, remote: nat, q: int) returns (c: int)
    requires IsFormat(f) && remote == a + delta + q * DELTA_PERIOD
    ensures 0 <= c <= 1 && Truncate(a / f.tick + delta / f.tick, 2 * f.msb) == Truncate(remote / f.tick - c, 2 * f.msb)
  {
    var s := a / f.tick + delta / f.tick;
    if f == TIME16 {
      assert remote / 512 == (a + delta) / 512 + q * 0x2_0000;
      c := (a + delta) / 512 - s;
      assert 0 <= c <= 1;
      TruncateShift(s, q * 2, 0x1_0000);
      assert remote / 512 - c == s + (q * 2) * 0x1_0000;
    } else {
      assert remote / 8 == (a + delta) / 8 + q * 0x80_0000;
      c := (a + delta) / 8 - s;
      assert 0 <= c <= 1;
      TruncateShift(s, q, 0x80_0000);
      assert remote / 8 - c == s + q * 0x80_0000;
    }
  }

  /** A time sent in the receiver's clock is read back as at most the true time, and at most the
      error bound below it, when the sender knows the offset between the clocks modulo 2^26 and the
      time lies in the range that the expansion recovers. */
  lemma TimestampTransfer(f: TimeFormat, delta: nat, senderUsec: nat, remote: nat, receiverUsec: nat, q: int)
    requires IsFormat(f) && remote == senderUsec + delta + q * DELTA_PERIOD
    requires receiverUsec / f.tick - (f.msb + f.bias) < remote / f.tick < receiverUsec / f.tick + (f.msb - f.bias)
    ensures var t := FromLocalTime(f, receiverUsec, ToRemoteTime(f, true, delta, senderUsec));
            t <= remote <= t + ErrorBound(f)
  {
    var c := RoundedSum(f, senderUsec, delta, remote, q);
    TruncatedSum(senderUsec / f.tick, delta / f.tick, 2 * f.msb);
    var ticks := remote / f.tick - c;
    ExpandRecovers(receiverUsec / f.tick, ticks, f.msb, f.bias);
    hide ExpandWithBias, Truncate;
    assert FromLocalTime(f, receiverUsec, ToRemoteTime(f, true, delta, senderUsec)) == ticks * f.tick;
  }

  lemma TruncatedSum(a: int, b: int, period: int)
    requires period > 0
    ensures Truncate(Truncate(a, period) + Truncate(b, period), period) == Truncate(a + b, period)
  {
    var q, r := a / period, b / period;
    assert a == q * period + Truncate(a, period) && b == r * period + Truncate(b, period);
    assert a + b == Truncate(a, period) + Truncate(b, period) + (q + r) * period by {
      assert (q + r) * period == q * period + r * period;
    }
    TruncateShift(Truncate(a, period) + Truncate(b, period), q + r, period);
  }
}
