/**
 * The VCA effect (fx_vca.c): both channels are scaled by a gain that slews
 * linearly, once per frame, from its value at the end of the previous block
 * toward the knob value in parameter slot 1.
 */
module FxVca {
  import opened Ints
  import Dsp

  /** fx_vca_blk: the gain reached at the end of the last block. */
  datatype VcaBlk = VcaBlk(gain: I16)

  /** fx_vca_Init: the gain starts from silence. */
  function Init(): (b: VcaBlk)
    ensures b.gain == 0
  {
    VcaBlk(0)
  }

  /** The per-frame gain step: `(target - gain) / sz`, truncated toward zero and stored in an `int16_t`. */
  function Slope(gain: I16, target: I16, sz: int): (s: I16)
    requires sz >= 1
    // the quotient fits an int16_t unless a one-frame block meets a difference that does not
    ensures sz >= 2 || Abs(target - gain) <= 0x7FFF ==> s == TDiv(target - gain, sz)
  {
    QuotientFits(target - gain, sz);
    Wrap16(TDiv(target - gain, sz))
  }

  /** The truncated quotient of an `int16_t` difference by sz fits an `int16_t` when sz >= 2 or the difference does. */
  lemma QuotientFits(d: int, sz: int)
    requires sz >= 1 && Abs(d) <= 0xFFFF
    ensures Abs(TDiv(d, sz)) <= Abs(d)
    ensures sz >= 2 ==> Abs(TDiv(d, sz)) <= 0x7FFF
  {
    var q := Abs(TDiv(d, sz));
    MulLe(1, sz, q);
    assert q * sz <= Abs(d);
    if sz >= 2 {
      MulLe(2, sz, q);
    }
  }

  /** The gain used on frame k of a block: the slope added k times to an `int16_t`. */
  function GainAt(gain: I16, slope: I16, k: nat): (g: I16)
  {
    if k == 0 then gain else Wrap16(GainAt(gain, slope, k - 1) + slope)
  }

  lemma GainAtNext(gain: I16, slope: I16, k: nat, g: I16)
    requires g == GainAt(gain, slope, k)
    ensures Wrap16(g + slope) == GainAt(gain, slope, k + 1)
  {
  }

  /** The running sum wraps like a single sum: frame k's gain is gain + k * slope reduced to an `int16_t`. */
  lemma {:induction false} GainAtClosed(gain: I16, slope: I16, k: nat)
    ensures GainAt(gain, slope, k) == Wrap16(gain + k * slope)
  {
    if k > 0 {
      var before := gain + (k - 1) * slope;
      GainAtClosed(gain, slope, k - 1);
      assert GainAt(gain, slope, k) == Wrap16(Wrap16(before) + slope);
      Wrap16Add(before, slope);
      assert before + slope == gain + k * slope;
    }
  }

  /** One output sample: `ssat16((x * gain) >> 12)`. */
  function Scale(x: I16, gain: I16): (y: I16)
    ensures gain == 4096 ==> y == x
    ensures gain == 0 ==> y == 0
  {
    Dsp.Ssat16((x * gain) / 4096)
  }

  /** Frame k of an interleaved stereo buffer: its left and right samples. */
  function Frame(s: seq<I16>, k: int): (I16, I16)
    requires 0 <= k && 2 * k + 1 < |s|
  {
    (s[2 * k], s[2 * k + 1])
  }

  /** The outputs of the first n frames when frame k is scaled by GainAt(gain, slope, k). */
  function Render(src: seq<I16>, gain: I16, slope: I16, n: nat): (out: seq<I16>)
    requires 2 * n <= |src|
    ensures |out| == 2 * n
    ensures forall k {:trigger Frame(out, k)} :: 0 <= k < n ==>
      Frame(out, k) == (Scale(src[2 * k], GainAt(gain, slope, k)), Scale(src[2 * k + 1], GainAt(gain, slope, k)))
  {
    if n == 0 then []
    else
      var g := GainAt(gain, slope, n - 1);
      var r := Render(src, gain, slope, n - 1);
      var last := [Scale(src[2 * (n - 1)], g), Scale(src[2 * (n - 1) + 1], g)];
      assert forall k :: 0 <= k < n - 1 ==> Frame(r + last, k) == Frame(r, k);
      assert Frame(r + last, n - 1) == (last[0], last[1]);
      r + last
  }

  /**
   * fx_vca_Proc: process `sz` interleaved stereo frames with the knob value
   * `target` (parameter slot 1); frame k is scaled by the gain after k slope
   * steps, so the first frame uses the previous block's final gain.
   */
  method Proc(b: VcaBlk, target: I16, src: seq<I16>, sz: int) returns (dst: seq<I16>, b': VcaBlk)
    requires sz >= 1 && |src| == 2 * sz
    ensures dst == Render(src, b.gain, Slope(b.gain, target, sz), sz)
    ensures b'.gain == GainAt(b.gain, Slope(b.gain, target, sz), sz)
  {
    var slope := Slope(b.gain, target, sz);
    var gain: int := b.gain;
    dst := [];
    var i := 0;
    while i < sz
      invariant 0 <= i <= sz
      invariant gain == GainAt(b.gain, slope, i)
      invariant dst == Render(src, b.gain, slope, i)
    {
      dst := dst + [Scale(src[2 * i], gain), Scale(src[2 * i + 1], gain)];
      GainAtNext(b.gain, slope, i, gain);
      gain := Wrap16(gain + slope);
      i := i + 1;
    }
    b' := VcaBlk(gain);
  }

  /**
   * While the slope does not wrap (a block longer than one frame, or a
   * difference that fits an `int16_t`), every gain of the block lies between
   * the starting gain and the target, and no running sum wraps.
   */
  lemma GainBetween(gain: I16, target: I16, sz: int, k: nat)
    requires sz >= 1 && k <= sz
    requires sz >= 2 || Abs(target - gain) <= 0x7FFF
    ensures GainAt(gain, Slope(gain, target, sz), k) == gain + k * TDiv(target - gain, sz)
    ensures Min(gain, target) <= GainAt(gain, Slope(gain, target, sz), k) <= Max(gain, target)
  {
    var d := target - gain;
    var q := TDiv(d, sz);
    assert Slope(gain, target, sz) == q;
    GainAtClosed(gain, q, k);
    if d >= 0 {
      MulLe(k, sz, q);
      assert 0 <= k * q <= sz * q <= d;
    } else {
      MulGe(k, sz, q);
      assert d <= sz * q <= k * q <= 0;
    }
  }

  /**
   * At the end of a block the gain is less than `sz` away from the target,
   * and reaches it exactly when `sz` divides the distance.
   */
  lemma SlewEnd(gain: I16, target: I16, sz: int)
    requires sz >= 1
    requires sz >= 2 || Abs(target - gain) <= 0x7FFF
    ensures Abs(target - GainAt(gain, Slope(gain, target, sz), sz)) < sz
    ensures GainAt(gain, Slope(gain, target, sz), sz) == target <==> (target - gain) % sz == 0
  {
    var d := target - gain;
    var q := TDiv(d, sz);
    var g := GainAt(gain, Slope(gain, target, sz), sz);
    GainBetween(gain, target, sz, sz);
    assert g == gain + sz * q;
    assert sz * q == q * sz;
    assert target - g == d - q * sz;
    TruncRemainder(d, sz);
  }

}
