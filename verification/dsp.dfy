/**
 * Saturation and hysteresis helpers shared by every other part of the signal
 * path (dsp_lib.h, dsp_lib.c).
 */
module Dsp {
  import opened Ints

  /** Threshold, in 12-bit counts, below which `GetHyst` ignores a change. */
  const HystThresh := 16

  /** Signed saturation of a 32-bit intermediate to the 16-bit sample range. */
  function Ssat16(x: int): (r: I16)
    ensures -0x8000 <= x <= 0x7FFF ==> r == x
    ensures x > 0x7FFF ==> r == 0x7FFF
    ensures x < -0x8000 ==> r == -0x8000
  {
    if x > 0x7FFF then 0x7FFF else if x < -0x8000 then -0x8000 else x
  }

  /** The saturated value is the 16-bit value nearest to x. */
  lemma Ssat16Nearest(x: int, y: I16)
    ensures Abs(x - Ssat16(x)) <= Abs(x - y)
  {
  }

  lemma Ssat16Monotone(x: int, y: int)
    requires x <= y
    ensures Ssat16(x) <= Ssat16(y)
  {
  }

  lemma Ssat16Idempotent(x: int)
    ensures Ssat16(Ssat16(x)) == Ssat16(x)
  {
  }

  /**
   * The outcome of a hysteresis-gated update: whether the stored value was
   * replaced, and the stored value afterwards.
   */
  datatype Update = Update(changed: bool, value: int)

  /**
   * dsp_gethyst: replace the stored value by `newval` when it moved by more
   * than the threshold or sits at either end of the 12-bit range. The
   * difference and its absolute value are held in an `int16_t`, so they wrap.
   */
  function GetHyst(prev: I16, newval: I16): (r: Update)
    ensures r.changed <==> r.value != prev
    ensures r.changed ==> r.value == newval
    ensures -0x8000 <= r.value <= 0x7FFF
  {
    var diff: int := Wrap16(newval - prev);
    var mag := Wrap16(if diff < 0 then -diff else diff);
    if (mag > HystThresh || newval == 0 || newval == 4095) && prev != newval then
      Update(true, newval)
    else
      Update(false, prev)
  }

  /** A move of at most the threshold, away from the end points, is ignored. */
  lemma GetHystIgnoresSmallMoves(prev: I16, newval: I16)
    requires Abs(newval - prev) <= HystThresh
    requires newval != 0 && newval != 4095
    ensures GetHyst(prev, newval) == Update(false, prev)
  {
  }

  /** A move beyond the threshold is always taken (when it does not wrap an `int16_t`). */
  lemma GetHystTakesLargeMoves(prev: I16, newval: I16)
    requires HystThresh < Abs(newval - prev) <= 0x7FFF
    ensures GetHyst(prev, newval) == Update(true, newval)
  {
  }

  /** At either end of the 12-bit range every difference counts. */
  lemma GetHystEndPoints(prev: I16, newval: I16)
    requires newval == 0 || newval == 4095
    ensures GetHyst(prev, newval).value == newval
    ensures GetHyst(prev, newval).changed <==> prev != newval
  {
  }

  /** A second call with the same new value reports no change. */
  lemma GetHystIdempotent(prev: I16, newval: I16)
    ensures GetHyst(GetHyst(prev, newval).value as I16, newval) == Update(false, GetHyst(prev, newval).value)
  {
  }

  lemma DivBounds(a: int, d: int)
    requires d > 0
    ensures (a / d) * d <= a < (a / d) * d + d
  {
  }

  lemma MulMonotone(b: int, s: int)
    requires b >= 0 && s >= 1
    ensures b <= b * s
  {
  }

  /** Bucket width of `RatioHystArb` for `range` buckets over a 12-bit input. */
  function Scale(range: U8): (s: int)
    requires range >= 1
    ensures 16 <= s <= 4096
    ensures 4096 - range < s * range <= 4096
  {
    DivBounds(4096, range);
    4096 / range
  }

  /** Guard band of `RatioHystArb`: two thirds of a bucket, at least one count. */
  function Guard(range: U8): (g: int)
    requires range >= 1
    ensures 1 <= g && 3 * g <= 2 * Scale(range)
    ensures Scale(range) / 2 <= g
  {
    var g := 2 * Scale(range) / 3;
    if g == 0 then 1 else g
  }

  /** Rounding division by a bucket width s: the quotient q is within half a bucket of n. */
  lemma RoundDiv(cv: int, s: int)
    requires cv >= 0 && s >= 2
    ensures 0 <= (cv + s / 2) / s <= cv + s / 2
    ensures -(s / 2) <= (cv + s / 2) / s * s - cv <= s / 2
  {
    var n := cv + s / 2;
    var q, r := n / s, n % s;
    assert n == q * s + r && 0 <= r < s;
    if q < 0 {
      MulLe(0, -q - 1, s);
      assert false;
    }
    MulMonotone(q, s);
    assert q * s - cv == s / 2 - r;
  }

  /** Bucket that `cv` rounds to. */
  function Bucket(cv: int, range: U8): (b: int)
    requires range >= 1
    requires cv >= 0
    ensures 0 <= b <= cv + Scale(range) / 2
    ensures -(Scale(range) / 2) <= b * Scale(range) - cv <= Scale(range) / 2
  {
    var s := Scale(range);
    RoundDiv(cv, s);
    (cv + s / 2) / s
  }

  /**
   * dsp_ratio_hyst_arb: quantise a 12-bit control value into `range`
   * buckets. At the two end points the bucket is taken without guard band;
   * elsewhere the bucket is recomputed only when the input lies more than the
   * guard band away from the start of the stored bucket. The intermediate
   * values are `int16_t`, so out-of-range operands wrap as in the source.
   */
  function RatioHystArb(prev: U16, cv: U16, range: U8): (r: Update)
    requires range >= 1
    ensures 0 <= r.value < 0x1_0000
    ensures !r.changed ==> r.value == prev
    ensures r.changed ==> r.value == ToU16(Bucket(cv, range))
  {
    var scale := Scale(range);
    var rnd := scale / 2;
    var guard := Guard(range);
    if cv == 0 || cv == 0xFFF then
      var diff := Wrap16((cv + rnd) / scale);
      if diff == prev then Update(false, prev) else Update(true, ToU16(diff))
    else
      var d: int := Wrap16(Wrap16(prev * scale) - Wrap16(cv));
      var mag := Wrap16(if d < 0 then -d else d);
      if mag > guard then Update(true, ToU16((cv + rnd) / scale)) else Update(false, prev)
  }

  /** At an end point the bucket is taken directly and reported iff it differs. */
  lemma RatioHystArbEndPoints(prev: U16, cv: U16, range: U8)
    requires range >= 1
    requires cv == 0 || cv == 0xFFF
    ensures RatioHystArb(prev, cv, range).value == Bucket(cv, range)
    ensures RatioHystArb(prev, cv, range).changed <==> Bucket(cv, range) != prev
  {
  }

  /**
   * Away from the end points, and while no `int16_t` wraps, the bucket moves
   * exactly when the input leaves the guard band around the stored bucket.
   */
  lemma RatioHystArbGuardBand(prev: U16, cv: U16, range: U8)
    requires range >= 1
    requires 0 < cv < 0xFFF
    requires prev * Scale(range) <= 0x7FFF
    ensures RatioHystArb(prev, cv, range).changed <==> Abs(prev * Scale(range) - cv) > Guard(range)
    ensures RatioHystArb(prev, cv, range).changed ==> RatioHystArb(prev, cv, range).value == Bucket(cv, range)
  {
    var p := prev * Scale(range);
    MulLe(0, prev, Scale(range));
    assert Wrap16(p) == p && Wrap16(cv) == cv;
    assert Wrap16(p - cv) == p - cv;
    assert Wrap16(Abs(p - cv)) == Abs(p - cv);
  }

  /** Whenever the bucket is reported as changed, it really is a different bucket. */
  lemma RatioHystArbChangeIsReal(prev: U16, cv: U16, range: U8)
    requires range >= 1
    requires cv <= 0xFFF
    requires prev * Scale(range) <= 0x7FFF
    ensures RatioHystArb(prev, cv, range).changed <==> RatioHystArb(prev, cv, range).value != prev
  {
    var s := Scale(range);
    if cv != 0 && cv != 0xFFF && Abs(prev * s - cv) > Guard(range) {
      assert Bucket(cv, range) != prev;
    }
  }

  /** A second call with the same input never reports a change. */
  lemma RatioHystArbIdempotent(prev: U16, cv: U16, range: U8)
    requires range >= 1
    requires cv <= 0xFFF
    ensures !RatioHystArb(RatioHystArb(prev, cv, range).value as U16, cv, range).changed
  {
    var r := RatioHystArb(prev, cv, range);
    var s := Scale(range);
    if r.changed && cv != 0 && cv != 0xFFF {
      assert r.value == Bucket(cv, range);
      assert r.value * s <= cv + s / 2 <= 0x7FFF;
    }
  }

  /**
   * With `range` 2 every 16-bit input maps to a bucket of at most 32, so a
   * stored bucket within that bound stays within it.
   */
  lemma RatioHystArbRange2Bound(prev: U16, cv: U16)
    requires prev <= 32
    ensures RatioHystArb(prev, cv, 2).value <= 32
  {
    assert Scale(2) == 2048;
  }

  /**
   * With three positions (`range` 2), as the delay-range and algorithm
   * selectors use it, a 12-bit input keeps the stored bucket within 0..2.
   */
  lemma RatioHystArbThreeWay(prev: U16, cv: U16)
    requires prev <= 2 && cv <= 0xFFF
    ensures RatioHystArb(prev, cv, 2).value <= 2
  {
  }
}
