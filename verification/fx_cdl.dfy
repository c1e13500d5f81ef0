/**
 * The clean delay effect (fx_cdl.c). A stereo delay line lives in the shared
 * arena right after the instance record. Each frame writes the input plus
 * scaled feedback at the write pointer and reads a tap `roff1` frames back.
 * A change of delay is applied by cross-fading, over 2^11 channel samples,
 * from that tap to a second tap `roff2` frames back. During the first lap of
 * the write pointer every tap that would read a slot not yet written gives
 * silence, so the stale arena never reaches the output. A DC blocker shapes
 * the feedback.
 *
 * The instance record is split in two: `Ctl` holds the scalar fields, whose
 * evolution (write pointer, first-lap flag, cross-fade schedule) does not
 * depend on the audio, and `Blk` adds the delay line and the per-channel
 * feedback state.
 */
module FxCdl {
  import opened Ints
  import Dsp
  import FxDefs

  /** XFADE_BITS: the cross-fade lasts 2^11 channel samples. */
  const XfadeBits := 11
  const XfadeLen := 2048
  /** sizeof(fx_cdl_blk) with the 32-bit target's field alignment. */
  const BlkBytes := 48
  /** Frames of delay line that fit behind the instance record: (FX_MAX_MEM - 48) / (2 * 2). */
  const DelayLen := (FxDefs.MaxMem - BlkBytes) / 4
  /** The DC blocker's accumulator stays within 256 times the 16-bit range. */
  const DcbMin := -256 * 0x8000
  const DcbMax := 256 * 0x7FFF

  /** The scalar fields of fx_cdl_blk. */
  datatype Ctl = Ctl(
    kind: int,      // type: non-zero when the range follows parameter slot 3
    rng: int,       // the delay is the knob value shifted left by rng
    rngRaw: int,    // range bucket from parameter slot 3
    len: int,       // frames in the delay line
    init: bool,     // first lap: slots at or after the write pointer are stale
    wptr: int,
    roff1: int,     // offset of the main tap, in frames
    roff2: int,     // offset of the tap being faded in
    xflen: int,
    xfcnt: int,     // channel samples of cross-fade left
    dly: I16)       // delay knob value after hysteresis

  /** fx_cdl_blk: the scalar fields, the delay line of `len` interleaved stereo frames, and the DC-blocker state. */
  datatype Blk = Blk(ctl: Ctl, buf: seq<I16>, dcb: seq<int>, fb: seq<I16>)

  predicate CtlValid(c: Ctl)
  {
    3 <= c.len < 0x1_0000_0000
    && 0 <= c.wptr < c.len
    && 1 <= c.roff1 <= c.len - 2
    && 0 <= c.roff2 <= c.len - 2
    && (c.xfcnt > 0 ==> 1 <= c.roff2)
    && c.xflen == XfadeLen && 0 <= c.xfcnt <= XfadeLen
    && 0 <= c.kind < 0x100 && 1 <= c.rng < 0x100 && 0 <= c.rngRaw <= 32
  }

  predicate Valid(b: Blk)
  {
    CtlValid(b.ctl) && |b.buf| == 2 * b.ctl.len
    && |b.dcb| == 2 && |b.fb| == 2
    && DcbMin <= b.dcb[0] <= DcbMax && DcbMin <= b.dcb[1] <= DcbMax
  }

  /**
   * fx_cd_common_Init: build an instance of the given type over the arena.
   * The delay line is the arena as it is: it is not cleared.
   */
  function CommonInit(arena: seq<I16>, typ: U8): (b: Blk)
    requires |arena| == 2 * DelayLen
    ensures Valid(b) && b.buf == arena && b.ctl.len == 33012
    ensures b.ctl.kind == typ / 4 && b.ctl.rng == 1 + typ % 4 && b.ctl.rngRaw == 0
    ensures b.ctl.init && b.ctl.wptr == 0 && b.ctl.roff1 == 1 && b.ctl.roff2 == 0
    ensures b.ctl.xfcnt == 0 && b.ctl.xflen == XfadeLen && b.ctl.dly == 0
    ensures b.dcb == [0, 0] && b.fb == [0, 0]
  {
    Blk(Ctl(typ / 4, 1 + typ % 4, 0, DelayLen, true, 0, 1, 0, XfadeLen, 0, 0), arena, [0, 0], [0, 0])
  }

  /** fx_cdr_Init: the range variant, type 4, so the range is live and starts at 1. */
  function CdrInit(arena: seq<I16>): (b: Blk)
    requires |arena| == 2 * DelayLen
    ensures Valid(b) && b.ctl.kind == 1 && b.ctl.rng == 1 && b.ctl.init && b.buf == arena
  {
    CommonInit(arena, 4)
  }

  /**
   * The tap offset for a delay knob value: `(dly << rng) + 1` stored in a
   * `uint32_t`, then clamped to `len - 2`. The unclamped value is odd, so the
   * offset is never 0.
   */
  function DelayTarget(dly: I16, rng: int, len: int): (o: int)
    requires 1 <= rng && 3 <= len < 0x1_0000_0000
    ensures 1 <= o <= len - 2
    ensures 0 <= Shl(dly, rng) + 1 <= len - 2 ==> o == Shl(dly, rng) + 1
    ensures 0 <= dly && len - 2 < Shl(dly, rng) + 1 < 0x1_0000_0000 ==> o == len - 2
  {
    ShiftedIsOdd(dly, rng);
    var o := ToU32(Shl(dly, rng) + 1);
    if o > len - 2 then len - 2 else o
  }

  /** An odd number stays odd, hence non-zero, modulo 2^32. */
  lemma ShiftedIsOdd(dly: int, rng: int)
    requires rng >= 1
    ensures ToU32(Shl(dly, rng) + 1) != 0
  {
    var x := Shl(dly, rng) + 1;
    assert x == 2 * Shl(dly, rng - 1) + 1;
    assert x == 2 * (x / 0x1_0000_0000 * 0x8000_0000) + x % 0x1_0000_0000;
  }

  /**
   * The parameter update at the top of fx_cd_common_Proc. Only when no
   * cross-fade is running: the range variant re-quantises slot 3 into three
   * buckets, the delay knob (slot 1) goes through the hysteresis gate, and
   * if either changed a new tap offset is computed and a cross-fade started.
   */
  function UpdateDelay(b: Blk, param: seq<I16>): (r: Blk)
    requires Valid(b) && |param| == 4
    ensures Valid(r) && r == b.(ctl := r.ctl)
    ensures b.ctl.xfcnt != 0 ==> r == b
    ensures r.ctl.len == b.ctl.len && r.ctl.wptr == b.ctl.wptr && r.ctl.init == b.ctl.init
    ensures r.ctl.roff1 == b.ctl.roff1 && r.ctl.kind == b.ctl.kind && r.ctl.xflen == b.ctl.xflen
    // the range follows slot 3 only in the range variant
    ensures b.ctl.xfcnt == 0 && b.ctl.kind != 0 ==>
      r.ctl.rngRaw == Dsp.RatioHystArb(b.ctl.rngRaw, ToU16(param[3]), 2).value && r.ctl.rng == 1 + r.ctl.rngRaw
    ensures b.ctl.kind == 0 ==> r.ctl.rng == b.ctl.rng && r.ctl.rngRaw == b.ctl.rngRaw
    // a new target offset is only ever computed between cross-fades, and it starts a full cross-fade
    ensures r.ctl.roff2 != b.ctl.roff2 ==> b.ctl.xfcnt == 0 && r.ctl.xfcnt == XfadeLen
    ensures r.ctl.xfcnt != b.ctl.xfcnt ==>
      b.ctl.xfcnt == 0 && r.ctl.xfcnt == XfadeLen && r.ctl.roff2 == DelayTarget(r.ctl.dly, r.ctl.rng, r.ctl.len)
    // a knob move past the hysteresis starts one
    ensures b.ctl.xfcnt == 0 && Dsp.GetHyst(b.ctl.dly, param[1]).changed ==>
      r.ctl.xfcnt == XfadeLen && r.ctl.dly == param[1] && r.ctl.roff2 == DelayTarget(r.ctl.dly, r.ctl.rng, r.ctl.len)
    // so does a new range bucket in the range variant
    ensures b.ctl.xfcnt == 0 && b.ctl.kind != 0 && Dsp.RatioHystArb(b.ctl.rngRaw, ToU16(param[3]), 2).changed ==>
      r.ctl.xfcnt == XfadeLen && r.ctl.roff2 == DelayTarget(r.ctl.dly, r.ctl.rng, r.ctl.len)
    // and nothing else does
    ensures (!Dsp.GetHyst(b.ctl.dly, param[1]).changed
             && (b.ctl.kind == 0 || !Dsp.RatioHystArb(b.ctl.rngRaw, ToU16(param[3]), 2).changed)) ==>
      r.ctl.xfcnt == b.ctl.xfcnt && r.ctl.roff2 == b.ctl.roff2 && r.ctl.dly == b.ctl.dly
  {
    var c := b.ctl;
    if c.xfcnt != 0 then b
    else
      var rr := if c.kind != 0 then Dsp.RatioHystArb(c.rngRaw, ToU16(param[3]), 2) else Dsp.Update(false, c.rngRaw);
      Dsp.RatioHystArbRange2Bound(c.rngRaw, ToU16(param[3]));
      var rng := if c.kind != 0 then ToU8(1 + rr.value) else c.rng;
      var h := Dsp.GetHyst(c.dly, param[1]);
      var c1 := c.(rngRaw := rr.value, rng := rng, dly := h.value as I16);
      if h.changed || rr.changed then
        b.(ctl := c1.(roff2 := DelayTarget(c1.dly, rng, c.len), xfcnt := c.xflen))
      else b.(ctl := c1)
  }

  /** The frame a tap `roff` frames behind the write pointer reads. */
  function ReadIndex(c: Ctl, roff: int): (p: int)
    requires CtlValid(c) && 0 <= roff <= c.len - 2
    ensures 0 <= p < c.len
    ensures roff >= 1 ==> p != c.wptr
  {
    var p := c.wptr - roff;
    var p := if p < 0 then c.len + p else p;
    if p >= c.len then p - c.len else p
  }

  /** The index arithmetic is the write pointer minus the offset, modulo the line length. */
  lemma ReadIndexMod(c: Ctl, roff: int)
    requires CtlValid(c) && 0 <= roff <= c.len - 2
    ensures ReadIndex(c, roff) == (c.wptr - roff) % c.len
  {
    ModUnique(c.wptr - roff, c.len, if c.wptr - roff < 0 then -1 else 0, ReadIndex(c, roff));
  }

  /** The write pointer's successor modulo the line length. */
  lemma NextIndex(w: int, n: int)
    requires 0 <= w < n
    ensures (w + 1) % n == if w + 1 == n then 0 else w + 1
  {
    ModUnique(w + 1, n, if w + 1 == n then 1 else 0, if w + 1 == n then 0 else w + 1);
  }

  /** One channel of a tap; silence when, on the first lap, the frame has not been written yet. */
  function Tap(b: Blk, roff: int, chl: int): (t: I16)
    requires Valid(b) && 0 <= roff <= b.ctl.len - 2 && 0 <= chl < 2
    ensures !b.ctl.init || ReadIndex(b.ctl, roff) < b.ctl.wptr ==> t == b.buf[2 * ReadIndex(b.ctl, roff) + chl]
    ensures b.ctl.init && ReadIndex(b.ctl, roff) >= b.ctl.wptr ==> t == 0
  {
    var p := ReadIndex(b.ctl, roff);
    if !b.ctl.init || p < b.ctl.wptr then b.buf[2 * p + chl] else 0
  }

  /** `ssat16((t1 * cnt + t2 * (2048 - cnt)) >> 11)`: weights summing to 2048 never leave the taps' range. */
  function Xfade(t1: I16, t2: I16, cnt: int): (o: I16)
    requires 0 <= cnt <= XfadeLen
    ensures Min(t1, t2) <= o <= Max(t1, t2)
    ensures cnt == XfadeLen ==> o == t1
    ensures cnt == 0 ==> o == t2
  {
    WeightedBetween(t1, t2, cnt);
    MulIsProduct(t1, cnt);
    MulIsProduct(t2, XfadeLen - cnt);
    Dsp.Ssat16((Mul(t1, cnt) + Mul(t2, XfadeLen - cnt)) / XfadeLen)
  }

  /** Weights summing to 2048 give a sum between 2048 times each tap. */
  lemma WeightedBetween(t1: int, t2: int, cnt: int)
    requires 0 <= cnt <= XfadeLen
    ensures Min(t1, t2) * XfadeLen <= t1 * cnt + t2 * (XfadeLen - cnt) <= Max(t1, t2) * XfadeLen
  {
    assert t1 * cnt + t2 * (XfadeLen - cnt) == t2 * XfadeLen + (t1 - t2) * cnt;
    assert t1 * cnt + t2 * (XfadeLen - cnt) == t1 * XfadeLen + (t2 - t1) * (XfadeLen - cnt);
    if t1 >= t2 {
      MulLe(cnt, XfadeLen, t1 - t2);
      MulGe(XfadeLen - cnt, XfadeLen, t2 - t1);
    } else {
      MulGe(cnt, XfadeLen, t1 - t2);
      MulLe(XfadeLen - cnt, XfadeLen, t2 - t1);
    }
  }

  /** The sample written into the delay line: input plus feedback scaled by the level in 1/4096. */
  function WriteValue(x: I16, fb: I16, fbLvl: I16): (w: I16)
    ensures fbLvl == 0 ==> w == x
    ensures fb == 0 ==> w == x
  {
    MulIsProduct(fb, fbLvl);
    Dsp.Ssat16((x * 4096 + Mul(fb, fbLvl)) / 4096)
  }

  /**
   * The DC blocker: the feedback is the output minus the accumulator scaled
   * down by 256, and the accumulator integrates it. It returns the new
   * accumulator and the feedback sample.
   */
  function DcBlock(dcb: int, out: I16): (r: (int, I16))
    requires DcbMin <= dcb <= DcbMax
    ensures DcbMin <= r.0 <= DcbMax
    ensures r.1 == Dsp.Ssat16(r.0 - dcb)
    // at the fixed point a constant input leaves nothing to feed back
    ensures dcb == 256 * out ==> r == (dcb, 0)
  {
    var mix := out - dcb / 256;
    (dcb + mix, Dsp.Ssat16(mix))
  }

  /**
   * The cross-fade bookkeeping after each channel sample: while a cross-fade
   * runs its counter drops by one, and when it reaches 0 the faded-in tap
   * becomes the main tap.
   */
  function CtlChannel(c: Ctl): (r: Ctl)
    requires CtlValid(c)
    ensures CtlValid(r) && r.(xfcnt := c.xfcnt, roff1 := c.roff1) == c
    ensures r.xfcnt == if c.xfcnt > 0 then c.xfcnt - 1 else 0
    ensures r.roff1 == if c.xfcnt == 1 then c.roff2 else c.roff1
  {
    if c.xfcnt != 0 then
      var cnt := c.xfcnt - 1;
      c.(xfcnt := cnt, roff1 := if cnt == 0 then c.roff2 else c.roff1)
    else c
  }

  /** The write pointer advances modulo the line length; the first-lap flag drops when it wraps. */
  function CtlAdvance(c: Ctl): (r: Ctl)
    requires CtlValid(c)
    ensures CtlValid(r) && r.(wptr := c.wptr, init := c.init) == c
    ensures r.wptr == if c.wptr + 1 == c.len then 0 else c.wptr + 1
    ensures r.init == (c.init && c.wptr + 1 < c.len)
  {
    NextIndex(c.wptr, c.len);
    var w := (c.wptr + 1) % c.len;
    c.(wptr := w, init := c.init && !(c.wptr > w))
  }

  /** The control fields after one stereo frame. */
  function CtlFrame(c: Ctl): (r: Ctl)
    requires CtlValid(c)
    ensures CtlValid(r)
  {
    CtlAdvance(CtlChannel(CtlChannel(c)))
  }

  /** The control fields after n stereo frames: the schedule the audio follows. */
  function CtlFrames(c: Ctl, n: nat): (r: Ctl)
    requires CtlValid(c)
    ensures CtlValid(r)
    decreases n
  {
    if n == 0 then c else CtlFrames(CtlFrame(c), n - 1)
  }

  /**
   * The output of a channel, read after its sample was written: the main tap,
   * or during a cross-fade the mix of the main and the faded-in tap.
   */
  function ChannelOut(b: Blk, chl: int): (o: I16)
    requires Valid(b) && 0 <= chl < 2
    ensures b.ctl.xfcnt == 0 ==> o == Tap(b, b.ctl.roff1, chl)
    ensures b.ctl.xfcnt != 0 ==>
      Min(Tap(b, b.ctl.roff1, chl), Tap(b, b.ctl.roff2, chl)) <= o <= Max(Tap(b, b.ctl.roff1, chl), Tap(b, b.ctl.roff2, chl))
  {
    var main := Tap(b, b.ctl.roff1, chl);
    if b.ctl.xfcnt != 0 then Xfade(main, Tap(b, b.ctl.roff2, chl), b.ctl.xfcnt) else main
  }

  /** The per-channel body of the frame loop; returns the updated block and the output sample. */
  function ChannelStep(b: Blk, fbLvl: I16, x: I16, chl: int): (r: (Blk, I16))
    requires Valid(b) && 0 <= chl < 2
    ensures Valid(r.0) && r.0.ctl == CtlChannel(b.ctl)
    // the input, with feedback, goes to the write pointer and nowhere else
    ensures r.0.buf == b.buf[2 * b.ctl.wptr + chl := WriteValue(x, b.fb[chl], fbLvl)]
    // the feedback of the channel is the DC-blocked output; the other channel's is untouched
    ensures r.0.dcb == b.dcb[chl := DcBlock(b.dcb[chl], r.1).0]
    ensures r.0.fb == b.fb[chl := DcBlock(b.dcb[chl], r.1).1]
    // the output reads the line after the write
    ensures r.1 == ChannelOut(b.(buf := r.0.buf), chl)
  {
    var b1 := b.(buf := b.buf[2 * b.ctl.wptr + chl := WriteValue(x, b.fb[chl], fbLvl)]);
    var out := ChannelOut(b1, chl);
    var d := DcBlock(b.dcb[chl], out);
    (Blk(CtlChannel(b.ctl), b1.buf, b.dcb[chl := d.0], b.fb[chl := d.1]), out)
  }

  /**
   * The channel loop of one frame over the inputs of the channels still to
   * run, `xs` (the channel index is 2 - |xs|); returns the block and their
   * outputs.
   */
  function Channels(b: Blk, fbLvl: I16, xs: seq<I16>): (r: (Blk, seq<I16>))
    requires Valid(b) && |xs| <= 2
    ensures Valid(r.0) && |r.1| == |xs|
    ensures r.0.ctl == if |xs| == 2 then CtlChannel(CtlChannel(b.ctl)) else if |xs| == 1 then CtlChannel(b.ctl) else b.ctl
    decreases |xs|, 1
  {
    if xs == [] then (b, []) else ChannelThenRest(b, fbLvl, xs)
  }

  /** The next channel, then the channels after it. */
  function ChannelThenRest(b: Blk, fbLvl: I16, xs: seq<I16>): (r: (Blk, seq<I16>))
    requires Valid(b) && 1 <= |xs| <= 2
    ensures Valid(r.0) && |r.1| == |xs|
    ensures r.0.ctl == if |xs| == 2 then CtlChannel(CtlChannel(b.ctl)) else CtlChannel(b.ctl)
    decreases |xs|, 0
  {
    var s := ChannelStep(b, fbLvl, xs[0], 2 - |xs|);
    var rest := Channels(s.0, fbLvl, xs[1..]);
    (rest.0, [s.1] + rest.1)
  }

  /** One stereo frame: both channels, then the write pointer advances. */
  function FrameStep(b: Blk, fbLvl: I16, left: I16, right: I16): (r: (Blk, I16, I16))
    requires Valid(b)
    ensures Valid(r.0) && r.0.ctl == CtlFrame(b.ctl)
  {
    var s := Channels(b, fbLvl, [left, right]);
    (s.0.(ctl := CtlAdvance(s.0.ctl)), s.1[0], s.1[1])
  }

  /** The frame loop over `n` interleaved stereo frames; returns the block and the interleaved output. */
  function Frames(b: Blk, fbLvl: I16, src: seq<I16>, n: nat): (r: (Blk, seq<I16>))
    requires Valid(b) && |src| == 2 * n
    ensures Valid(r.0) && |r.1| == |src|
    // the control fields follow their own schedule, whatever the audio
    ensures r.0.ctl == CtlFrames(b.ctl, n)
    decreases n, 1
  {
    if n == 0 then (b, []) else FrameThenRest(b, fbLvl, src, n)
  }

  /**
   * One pass of the frame loop's body, then the remaining passes. (Kept apart
   * from `Frames` so that the solver unfolds a frame only when a proof asks.)
   */
  function FrameThenRest(b: Blk, fbLvl: I16, src: seq<I16>, n: nat): (r: (Blk, seq<I16>))
    requires Valid(b) && |src| == 2 * n && n > 0
    ensures Valid(r.0) && |r.1| == |src|
    ensures r.0.ctl == CtlFrames(b.ctl, n)
    decreases n, 0
  {
    var f := FrameStep(b, fbLvl, src[0], src[1]);
    var rest := Frames(f.0, fbLvl, src[2..], n - 1);
    (rest.0, [f.1, f.2] + rest.1)
  }

  /**
   * fx_cd_common_Proc: the parameter update, then `sz` frames with the
   * feedback level from parameter slot 2. `param` is the ADC parameter table.
   */
  function Proc(b: Blk, param: seq<I16>, src: seq<I16>, sz: U16): (r: (Blk, seq<I16>))
    requires Valid(b) && |param| == 4 && |src| == 2 * sz
    ensures Valid(r.0) && |r.1| == 2 * sz
    ensures r.0.ctl == CtlFrames(UpdateDelay(b, param).ctl, sz)
  {
    Frames(UpdateDelay(b, param), param[2], src, sz)
  }

  /** The delay shown for parameter 1 by fx_cdl_Render_Parm, in milliseconds. */
  function DelayMs(c: Ctl): (ms: int)
    requires CtlValid(c)
    ensures 0 <= ms <= (c.len - 2) / (FxDefs.SampleRate / 1000)
  {
    DelayTarget(c.dly, c.rng, c.len) / (FxDefs.SampleRate / 1000)
  }

  /** What fx_cdl_Render_Parm shows for a parameter slot. */
  datatype Shown = Nothing | Millis(ms: int) | RangeAndMillis(range: int, ms: int) | Percent(pct: int)

  /**
   * fx_cdl_Render_Parm: nothing for slot 0, the delay in milliseconds for
   * slot 1, the range name (by index) and the delay for slot 3, and the
   * parameter in percent (C division by 41) for the rest.
   */
  function RenderParm(c: Ctl, param: seq<I16>, idx: U8): (s: Shown)
    requires CtlValid(c) && |param| == 4 && idx < 4
    ensures idx == 0 <==> s == Nothing
    ensures idx == 1 || idx == 3 ==> s.Millis? || s.RangeAndMillis?
    ensures s.Millis? || s.RangeAndMillis? ==> s.ms == DelayMs(c)
    ensures s.RangeAndMillis? ==> s.range == c.rngRaw
    ensures s.Percent? ==> idx == 2 && -800 <= s.pct <= 799
  {
    if idx == 0 then Nothing
    else if idx == 1 then Millis(DelayMs(c))
    else if idx == 3 then RangeAndMillis(c.rngRaw, DelayMs(c))
    else Percent(TDiv(param[idx], 41))
  }

  /** Once a delay change has been taken up, the displayed delay is the new tap offset in milliseconds. */
  lemma DelayMsMatchesTap(b: Blk, param: seq<I16>)
    requires Valid(b) && |param| == 4
    requires UpdateDelay(b, param).ctl.xfcnt != b.ctl.xfcnt
    ensures DelayMs(UpdateDelay(b, param).ctl) == UpdateDelay(b, param).ctl.roff2 / 48
  {
  }

  /** The write pointer advances one frame per frame, modulo the line length. */
  lemma {:induction false} CtlFramesWptr(c: Ctl, n: nat)
    requires CtlValid(c)
    ensures CtlFrames(c, n).wptr == (c.wptr + n) % c.len
    ensures CtlFrames(c, n).len == c.len
    decreases n
  {
    if n == 0 {
      ModUnique(c.wptr, c.len, 0, c.wptr);
    } else {
      var f := CtlFrame(c);
      CtlFramesWptr(f, n - 1);
      NextIndex(c.wptr, c.len);
      ModAdd(c.wptr + 1, n - 1, c.len);
    }
  }

  /** Reducing before adding a further amount agrees with reducing afterwards. */
  lemma ModAdd(a: int, k: int, n: int)
    requires n >= 1
    ensures (a % n + k) % n == (a + k) % n
  {
    var q := a / n;
    assert a + k == (a % n + k) + q * n;
    var q2 := (a % n + k) / n;
    var r2 := (a % n + k) % n;
    assert a + k == (q2 + q) * n + r2;
    ModUnique(a + k, n, q2 + q, r2);
  }

  /** The first-lap flag is never set again, and drops exactly when the write pointer reaches the end of the line. */
  lemma {:induction false} CtlFramesInit(c: Ctl, n: nat)
    requires CtlValid(c)
    ensures CtlFrames(c, n).init == (c.init && c.wptr + n < c.len)
    decreases n
  {
    if n > 0 {
      CtlFramesInit(CtlFrame(c), n - 1);
    }
  }

  /**
   * While a cross-fade runs the counter drops by two per frame, and the main
   * tap takes the new offset exactly when the counter reaches 0; the target
   * offset never moves.
   */
  lemma {:induction false} CtlFramesXfade(c: Ctl, n: nat)
    requires CtlValid(c) && 2 * n <= c.xfcnt
    ensures CtlFrames(c, n).xfcnt == c.xfcnt - 2 * n
    ensures CtlFrames(c, n).roff1 == if 2 * n == c.xfcnt && n > 0 then c.roff2 else c.roff1
    ensures CtlFrames(c, n).roff2 == c.roff2
    decreases n
  {
    if n > 0 {
      CtlFramesXfade(CtlFrame(c), n - 1);
    }
  }

  /** With no cross-fade running, the frame loop leaves the taps alone. */
  lemma {:induction false} CtlFramesSteady(c: Ctl, n: nat)
    requires CtlValid(c) && c.xfcnt == 0
    ensures CtlFrames(c, n).xfcnt == 0
    ensures CtlFrames(c, n).roff1 == c.roff1 && CtlFrames(c, n).roff2 == c.roff2
    decreases n
  {
    if n > 0 {
      CtlFramesSteady(CtlFrame(c), n - 1);
    }
  }

  /**
   * A cross-fade started by the parameter update lasts 2048 channel samples:
   * the main tap is still the old one after fewer than 1024 frames and is the
   * new one after 1024.
   */
  lemma CrossfadeLength(c: Ctl, n: nat)
    requires CtlValid(c) && c.xfcnt == XfadeLen && n <= XfadeLen / 2
    ensures n < XfadeLen / 2 ==> CtlFrames(c, n).roff1 == c.roff1 && CtlFrames(c, n).xfcnt > 0
    ensures n == XfadeLen / 2 ==> CtlFrames(c, n).roff1 == c.roff2 && CtlFrames(c, n).xfcnt == 0
  {
    CtlFramesXfade(c, n);
  }

  /**
   * One channel with no feedback, no cross-fade running and the first lap
   * over: the input lands at the write pointer, the output is the main tap's
   * slot, and the control fields stay as they are.
   */
  lemma SteadyChannel(b: Blk, x: I16, chl: int)
    requires Valid(b) && b.ctl.xfcnt == 0 && !b.ctl.init && 0 <= chl < 2
    ensures ChannelStep(b, 0, x, chl).0.ctl == b.ctl
    ensures ChannelStep(b, 0, x, chl).0.buf == b.buf[2 * b.ctl.wptr + chl := x]
    ensures ChannelStep(b, 0, x, chl).1 == b.buf[2 * ReadIndex(b.ctl, b.ctl.roff1) + chl]
  {
    var c := b.ctl;
    assert CtlChannel(c) == c;
    var s := ChannelStep(b, 0, x, chl);
    assert s.1 == Tap(b.(buf := s.0.buf), c.roff1, chl);
  }

  /** The channel loop of a frame is the left channel's step followed by the right one's. */
  lemma ChannelsTwo(b: Blk, fbLvl: I16, left: I16, right: I16)
    requires Valid(b)
    ensures Channels(b, fbLvl, [left, right]) ==
      var s0 := ChannelStep(b, fbLvl, left, 0);
      var s1 := ChannelStep(s0.0, fbLvl, right, 1);
      (s1.0, [s0.1, s1.1])
  {
    var s0 := ChannelStep(b, fbLvl, left, 0);
    var s1 := ChannelStep(s0.0, fbLvl, right, 1);
    var one: seq<I16> := [right];
    var two: seq<I16> := [left, right];
    assert Channels(s0.0, fbLvl, one) == (s1.0, [s1.1]) by {
      assert one[0] == right && |one| == 1 && one[1..] == [];
      assert ChannelThenRest(s0.0, fbLvl, one) == (Channels(s1.0, fbLvl, []).0, [s1.1] + Channels(s1.0, fbLvl, []).1);
      assert Channels(s1.0, fbLvl, []) == (s1.0, []);
      assert [s1.1] + [] == [s1.1];
      assert Channels(s0.0, fbLvl, one) == ChannelThenRest(s0.0, fbLvl, one);
    }
    assert two[0] == left && |two| == 2 && two[1..] == one;
    assert ChannelThenRest(b, fbLvl, two) == (Channels(s0.0, fbLvl, one).0, [s0.1] + Channels(s0.0, fbLvl, one).1);
    assert [s0.1] + [s1.1] == [s0.1, s1.1];
    assert Channels(b, fbLvl, two) == ChannelThenRest(b, fbLvl, two);
  }

  /** Both channels of a frame under the conditions of SteadyChannel. */
  lemma SteadyChannels(b: Blk, left: I16, right: I16)
    requires Valid(b) && b.ctl.xfcnt == 0 && !b.ctl.init
    ensures Channels(b, 0, [left, right]).0.ctl == b.ctl
    ensures Channels(b, 0, [left, right]).0.buf == b.buf[2 * b.ctl.wptr := left][2 * b.ctl.wptr + 1 := right]
    ensures Channels(b, 0, [left, right]).1 == [b.buf[2 * ReadIndex(b.ctl, b.ctl.roff1)], b.buf[2 * ReadIndex(b.ctl, b.ctl.roff1) + 1]]
  {
    var p := ReadIndex(b.ctl, b.ctl.roff1);
    var s0 := ChannelStep(b, 0, left, 0);
    SteadyChannel(b, left, 0);
    var s1 := ChannelStep(s0.0, 0, right, 1);
    SteadyChannel(s0.0, right, 1);
    assert s0.0.buf[2 * p + 1] == b.buf[2 * p + 1];
    ChannelsTwo(b, 0, left, right);
  }

  /**
   * One frame with no feedback, no cross-fade running and the first lap over:
   * the two input samples land at the write pointer, both outputs are read
   * from the main tap's frame as the line held it before, and of the control
   * fields only the write pointer moves.
   */
  lemma SteadyFrame(b: Blk, left: I16, right: I16)
    requires Valid(b) && b.ctl.xfcnt == 0 && !b.ctl.init
    ensures FrameStep(b, 0, left, right).0.ctl == b.ctl.(wptr := if b.ctl.wptr + 1 == b.ctl.len then 0 else b.ctl.wptr + 1)
    ensures FrameStep(b, 0, left, right).0.buf == b.buf[2 * b.ctl.wptr := left][2 * b.ctl.wptr + 1 := right]
    ensures FrameStep(b, 0, left, right).1 == b.buf[2 * ReadIndex(b.ctl, b.ctl.roff1)]
    ensures FrameStep(b, 0, left, right).2 == b.buf[2 * ReadIndex(b.ctl, b.ctl.roff1) + 1]
  {
    SteadyChannels(b, left, right);
  }

  /** Output frame t of the frame loop is the first frame's output for t = 0, and frame t - 1 of the rest otherwise. */
  lemma FramesAt(b: Blk, fbLvl: I16, src: seq<I16>, n: nat, t: nat, chl: int)
    requires Valid(b) && |src| == 2 * n && t < n && 0 <= chl < 2
    ensures Frames(b, fbLvl, src, n).1[2 * t + chl] ==
      var f := FrameStep(b, fbLvl, src[0], src[1]);
      if t == 0 then (if chl == 0 then f.1 else f.2)
      else Frames(f.0, fbLvl, src[2..], n - 1).1[2 * (t - 1) + chl]
  {
    var f := FrameStep(b, fbLvl, src[0], src[1]);
    var rest := Frames(f.0, fbLvl, src[2..], n - 1);
    assert Frames(b, fbLvl, src, n) == FrameThenRest(b, fbLvl, src, n);
    assert FrameThenRest(b, fbLvl, src, n) == (rest.0, [f.1, f.2] + rest.1);
  }

  /**
   * The frame of the line `d` frames behind the write pointer `w`, wrapping
   * around the line once: (w - d) mod len for 0 <= d < len.
   */
  function Behind(w: int, d: int, len: int): (p: int)
    requires 0 <= w < len && 0 <= d < len
    ensures 0 <= p < len
    ensures p == (w - d) % len
  {
    if w - d < 0 then
      ModUnique(w - d, len, -1, w - d + len);
      w - d + len
    else
      ModUnique(w - d, len, 0, w - d);
      w - d
  }

  /**
   * The reference delay line: channel `chl` of output frame t of a block is
   * input frame t - roff1 of the same block when that exists, and otherwise
   * the frame the line held roff1 - t frames behind the write pointer before
   * the block.
   */
  function Delayed(b: Blk, src: seq<I16>, t: nat, chl: int): I16
    requires Valid(b) && 2 * t + 2 <= |src| && 0 <= chl < 2
  {
    if t >= b.ctl.roff1 then src[2 * (t - b.ctl.roff1) + chl]
    else b.buf[2 * Behind(b.ctl.wptr, b.ctl.roff1 - t, b.ctl.len) + chl]
  }

  /** The reference delay line seen one steady frame later is the same line. */
  lemma DelayedShift(b: Blk, b': Blk, src: seq<I16>, t: nat, chl: int)
    requires Valid(b) && Valid(b') && 1 <= t && 2 * t + 2 <= |src| && 0 <= chl < 2
    requires b'.ctl == b.ctl.(wptr := if b.ctl.wptr + 1 == b.ctl.len then 0 else b.ctl.wptr + 1)
    requires b'.buf == b.buf[2 * b.ctl.wptr := src[0]][2 * b.ctl.wptr + 1 := src[1]]
    ensures Delayed(b', src[2..], t - 1, chl) == Delayed(b, src, t, chl)
  {
  }

  /** The first output frame of a steady block reads the main tap's frame of the line as it was. */
  lemma FirstOutput(b: Blk, src: seq<I16>, n: nat, chl: int)
    requires Valid(b) && |src| == 2 * n && b.ctl.xfcnt == 0 && !b.ctl.init
    requires 0 < n && 0 <= chl < 2
    ensures Frames(b, 0, src, n).1[chl] == Delayed(b, src, 0, chl)
  {
    FramesAt(b, 0, src, n, 0, chl);
    SteadyFrame(b, src[0], src[1]);
  }

  /** A steady frame leaves a steady block that carries the same reference delay line. */
  lemma NextSteady(b: Blk, src: seq<I16>, t: nat, chl: int)
    requires Valid(b) && b.ctl.xfcnt == 0 && !b.ctl.init
    requires 1 <= t && 2 * t + 2 <= |src| && 0 <= chl < 2
    ensures Valid(FrameStep(b, 0, src[0], src[1]).0)
    ensures FrameStep(b, 0, src[0], src[1]).0.ctl.xfcnt == 0 && !FrameStep(b, 0, src[0], src[1]).0.ctl.init
    ensures Delayed(FrameStep(b, 0, src[0], src[1]).0, src[2..], t - 1, chl) == Delayed(b, src, t, chl)
  {
    SteadyFrame(b, src[0], src[1]);
    DelayedShift(b, FrameStep(b, 0, src[0], src[1]).0, src, t, chl);
  }

  /**
   * The delay line: with no feedback, no cross-fade running and the first
   * lap over, the frame loop's output is the reference delay line.
   */
  lemma {:induction false} FramesDelay(b: Blk, src: seq<I16>, n: nat, t: nat, chl: int)
    requires Valid(b) && |src| == 2 * n && b.ctl.xfcnt == 0 && !b.ctl.init
    requires t < n && 0 <= chl < 2
    ensures Frames(b, 0, src, n).1[2 * t + chl] == Delayed(b, src, t, chl)
    decreases n
  {
    if t == 0 {
      FirstOutput(b, src, n, chl);
    } else {
      var b' := FrameStep(b, 0, src[0], src[1]).0;
      var v := Frames(b', 0, src[2..], n - 1).1[2 * (t - 1) + chl];
      assert Frames(b, 0, src, n).1[2 * t + chl] == v by {
        FramesAt(b, 0, src, n, t, chl);
      }
      assert Valid(b') && b'.ctl.xfcnt == 0 && !b'.ctl.init && Delayed(b', src[2..], t - 1, chl) == Delayed(b, src, t, chl) by {
        NextSteady(b, src, t, chl);
      }
      assert v == Delayed(b', src[2..], t - 1, chl) by {
        FramesDelay(b', src[2..], n - 1, t - 1, chl);
      }
    }
  }

  /**
   * The same for one call of the process routine: when the feedback level is
   * 0, no cross-fade is running and the knobs start none, the call delays its
   * input by roff1 frames.
   */
  lemma ProcDelay(b: Blk, param: seq<I16>, src: seq<I16>, sz: U16, t: nat, chl: int)
    requires Valid(b) && |param| == 4 && |src| == 2 * sz && param[2] == 0
    requires b.ctl.xfcnt == 0 && UpdateDelay(b, param).ctl.xfcnt == 0 && !b.ctl.init
    requires t < sz && 0 <= chl < 2
    ensures Proc(b, param, src, sz).1[2 * t + chl] == Delayed(b, src, t, chl)
  {
    var u := UpdateDelay(b, param);
    assert Proc(b, param, src, sz).1 == Frames(u, 0, src, sz).1;
    assert Valid(u) && u.ctl.xfcnt == 0 && !u.ctl.init;
    FramesDelay(u, src, sz, t, chl);
    assert Delayed(u, src, t, chl) == Delayed(b, src, t, chl) by {
      assert u.buf == b.buf && u.ctl.roff1 == b.ctl.roff1 && u.ctl.wptr == b.ctl.wptr && u.ctl.len == b.ctl.len;
    }
  }

  /** Two slot sequences agree below n. */
  predicate AgreeBelow(s1: seq<I16>, s2: seq<I16>, n: int)
  {
    0 <= n <= |s1| == |s2| && forall i :: 0 <= i < n ==> s1[i] == s2[i]
  }

  /** The slots of the delay line that hold written samples: all of them after the first lap. */
  function Filled(c: Ctl): int
  {
    if c.init then 2 * c.wptr else 2 * c.len
  }

  /** Two blocks that differ at most in slots not yet written. */
  predicate Agree(b1: Blk, b2: Blk)
  {
    b1.ctl == b2.ctl && b1.dcb == b2.dcb && b1.fb == b2.fb && AgreeBelow(b1.buf, b2.buf, Filled(b1.ctl))
  }

  /** Writing the same sample at the write pointer extends the agreeing prefix past it. */
  lemma WriteAgree(b1: Blk, b2: Blk, w: I16, chl: int)
    requires Valid(b1) && Valid(b2) && b1.ctl == b2.ctl && 0 <= chl < 2
    requires AgreeBelow(b1.buf, b2.buf, if b1.ctl.init then 2 * b1.ctl.wptr + chl else 2 * b1.ctl.len)
    ensures AgreeBelow(b1.buf[2 * b1.ctl.wptr + chl := w], b2.buf[2 * b2.ctl.wptr + chl := w],
                       if b1.ctl.init then 2 * b1.ctl.wptr + chl + 1 else 2 * b1.ctl.len)
  {
  }

  /** Taps read only written slots, so blocks that agree there read the same. */
  lemma TapAgree(b1: Blk, b2: Blk, roff: int, chl: int)
    requires Valid(b1) && Valid(b2) && b1.ctl == b2.ctl && 1 <= roff <= b1.ctl.len - 2 && 0 <= chl < 2
    requires AgreeBelow(b1.buf, b2.buf, if b1.ctl.init then 2 * b1.ctl.wptr + chl + 1 else 2 * b1.ctl.len)
    ensures Tap(b1, roff, chl) == Tap(b2, roff, chl)
  {
    var p := ReadIndex(b1.ctl, roff);
    if !b1.ctl.init || p < b1.ctl.wptr {
      assert b1.buf[2 * p + chl] == b2.buf[2 * p + chl];
    }
  }

  /** The output of a channel reads only written slots (the current one included). */
  lemma ChannelOutAgree(b1: Blk, b2: Blk, chl: int)
    requires Valid(b1) && Valid(b2) && b1.ctl == b2.ctl && 0 <= chl < 2
    requires AgreeBelow(b1.buf, b2.buf, if b1.ctl.init then 2 * b1.ctl.wptr + chl + 1 else 2 * b1.ctl.len)
    ensures ChannelOut(b1, chl) == ChannelOut(b2, chl)
  {
    TapAgree(b1, b2, b1.ctl.roff1, chl);
    if b1.ctl.xfcnt != 0 {
      TapAgree(b1, b2, b1.ctl.roff2, chl);
    }
  }

  lemma ChannelStepAgree(b1: Blk, b2: Blk, fbLvl: I16, x: I16, chl: int)
    requires Valid(b1) && Valid(b2) && 0 <= chl < 2
    requires b1.ctl == b2.ctl && b1.dcb == b2.dcb && b1.fb == b2.fb
    requires AgreeBelow(b1.buf, b2.buf, if b1.ctl.init then 2 * b1.ctl.wptr + chl else 2 * b1.ctl.len)
    ensures ChannelStep(b1, fbLvl, x, chl).1 == ChannelStep(b2, fbLvl, x, chl).1
    ensures ChannelStep(b1, fbLvl, x, chl).0.dcb == ChannelStep(b2, fbLvl, x, chl).0.dcb
    ensures ChannelStep(b1, fbLvl, x, chl).0.fb == ChannelStep(b2, fbLvl, x, chl).0.fb
    ensures AgreeBelow(ChannelStep(b1, fbLvl, x, chl).0.buf, ChannelStep(b2, fbLvl, x, chl).0.buf,
                       if b1.ctl.init then 2 * b1.ctl.wptr + chl + 1 else 2 * b1.ctl.len)
  {
    var w := WriteValue(x, b1.fb[chl], fbLvl);
    var s1, s2 := ChannelStep(b1, fbLvl, x, chl), ChannelStep(b2, fbLvl, x, chl);
    WriteAgree(b1, b2, w, chl);
    ChannelOutAgree(b1.(buf := s1.0.buf), b2.(buf := s2.0.buf), chl);
  }

  /** Blocks that agree on everything but the slots not yet written before channel `chl` of the current frame. */
  predicate AgreeAt(b1: Blk, b2: Blk, chl: int)
  {
    b1.ctl == b2.ctl && b1.dcb == b2.dcb && b1.fb == b2.fb
    && AgreeBelow(b1.buf, b2.buf, if b1.ctl.init then 2 * b1.ctl.wptr + chl else 2 * b1.ctl.len)
  }

  lemma {:induction false} ChannelsAgree(b1: Blk, b2: Blk, fbLvl: I16, xs: seq<I16>)
    requires Valid(b1) && Valid(b2) && |xs| <= 2 && AgreeAt(b1, b2, 2 - |xs|)
    ensures Channels(b1, fbLvl, xs).1 == Channels(b2, fbLvl, xs).1
    ensures AgreeAt(Channels(b1, fbLvl, xs).0, Channels(b2, fbLvl, xs).0, 2)
    decreases |xs|
  {
    if xs != [] {
      var chl := 2 - |xs|;
      ChannelStepAgree(b1, b2, fbLvl, xs[0], chl);
      var s1 := ChannelStep(b1, fbLvl, xs[0], chl);
      var s2 := ChannelStep(b2, fbLvl, xs[0], chl);
      assert AgreeAt(s1.0, s2.0, chl + 1);
      ChannelsAgree(s1.0, s2.0, fbLvl, xs[1..]);
      assert Channels(b1, fbLvl, xs) == ChannelThenRest(b1, fbLvl, xs);
      assert Channels(b2, fbLvl, xs) == ChannelThenRest(b2, fbLvl, xs);
    }
  }

  lemma FrameStepAgree(b1: Blk, b2: Blk, fbLvl: I16, left: I16, right: I16)
    requires Valid(b1) && Valid(b2) && Agree(b1, b2)
    ensures FrameStep(b1, fbLvl, left, right).1 == FrameStep(b2, fbLvl, left, right).1
    ensures FrameStep(b1, fbLvl, left, right).2 == FrameStep(b2, fbLvl, left, right).2
    ensures Agree(FrameStep(b1, fbLvl, left, right).0, FrameStep(b2, fbLvl, left, right).0)
  {
    ChannelsAgree(b1, b2, fbLvl, [left, right]);
  }

  /** Two agreeing blocks run through the frame loop give the same output and stay in agreement. */
  lemma {:induction false} FramesAgree(b1: Blk, b2: Blk, fbLvl: I16, src: seq<I16>, n: nat)
    requires Valid(b1) && Valid(b2) && Agree(b1, b2) && |src| == 2 * n
    ensures Frames(b1, fbLvl, src, n).1 == Frames(b2, fbLvl, src, n).1
    ensures Agree(Frames(b1, fbLvl, src, n).0, Frames(b2, fbLvl, src, n).0)
    decreases n, 1
  {
    if n == 0 {
      assert Frames(b1, fbLvl, src, n) == (b1, []);
      assert Frames(b2, fbLvl, src, n) == (b2, []);
    } else {
      FrameThenRestAgree(b1, b2, fbLvl, src, n);
      assert Frames(b1, fbLvl, src, n) == FrameThenRest(b1, fbLvl, src, n);
      assert Frames(b2, fbLvl, src, n) == FrameThenRest(b2, fbLvl, src, n);
    }
  }

  lemma {:induction false} FrameThenRestAgree(b1: Blk, b2: Blk, fbLvl: I16, src: seq<I16>, n: nat)
    requires Valid(b1) && Valid(b2) && Agree(b1, b2) && |src| == 2 * n && n > 0
    ensures FrameThenRest(b1, fbLvl, src, n).1 == FrameThenRest(b2, fbLvl, src, n).1
    ensures Agree(FrameThenRest(b1, fbLvl, src, n).0, FrameThenRest(b2, fbLvl, src, n).0)
    decreases n, 0
  {
    var f1 := FrameStep(b1, fbLvl, src[0], src[1]);
    var f2 := FrameStep(b2, fbLvl, src[0], src[1]);
    FrameStepAgree(b1, b2, fbLvl, src[0], src[1]);
    var r1 := Frames(f1.0, fbLvl, src[2..], n - 1);
    var r2 := Frames(f2.0, fbLvl, src[2..], n - 1);
    FramesAgree(f1.0, f2.0, fbLvl, src[2..], n - 1);
    assert FrameThenRest(b1, fbLvl, src, n) == (r1.0, [f1.1, f1.2] + r1.1);
    assert FrameThenRest(b2, fbLvl, src, n) == (r2.0, [f2.1, f2.2] + r2.1);
  }

  lemma UpdateDelayAgree(b1: Blk, b2: Blk, param: seq<I16>)
    requires Valid(b1) && Valid(b2) && Agree(b1, b2) && |param| == 4
    ensures Agree(UpdateDelay(b1, param), UpdateDelay(b2, param))
  {
  }

  lemma ProcAgree(b1: Blk, b2: Blk, param: seq<I16>, src: seq<I16>, sz: U16)
    requires Valid(b1) && Valid(b2) && Agree(b1, b2) && |param| == 4 && |src| == 2 * sz
    ensures Proc(b1, param, src, sz).1 == Proc(b2, param, src, sz).1
    ensures Agree(Proc(b1, param, src, sz).0, Proc(b2, param, src, sz).0)
  {
    UpdateDelayAgree(b1, b2, param);
    FramesAgree(UpdateDelay(b1, param), UpdateDelay(b2, param), param[2], src, sz);
  }

  /** One call of the process routine: the parameter table, the frame count and the interleaved input. */
  datatype Call = Call(param: seq<I16>, src: seq<I16>, sz: U16)

  predicate WellFormed(calls: seq<Call>)
  {
    forall i :: 0 <= i < |calls| ==> |calls[i].param| == 4 && |calls[i].src| == 2 * calls[i].sz
  }

  /** The outputs of a series of calls, in order. */
  function RunCalls(b: Blk, calls: seq<Call>): (out: seq<seq<I16>>)
    requires Valid(b) && WellFormed(calls)
    ensures |out| == |calls|
    ensures forall i :: 0 <= i < |calls| ==> |out[i]| == |calls[i].src|
    decreases |calls|
  {
    if calls == [] then []
    else
      var c := calls[0];
      var r := Proc(b, c.param, c.src, c.sz);
      [r.1] + RunCalls(r.0, calls[1..])
  }

  lemma {:induction false} RunCallsAgree(b1: Blk, b2: Blk, calls: seq<Call>)
    requires Valid(b1) && Valid(b2) && Agree(b1, b2) && WellFormed(calls)
    ensures RunCalls(b1, calls) == RunCalls(b2, calls)
    decreases |calls|
  {
    if calls != [] {
      var c := calls[0];
      ProcAgree(b1, b2, c.param, c.src, c.sz);
      RunCallsAgree(Proc(b1, c.param, c.src, c.sz).0, Proc(b2, c.param, c.src, c.sz).0, calls[1..]);
    }
  }

  /**
   * The stale arena never reaches the output: from a fresh instance, every
   * series of calls produces the same output whatever the arena held.
   */
  lemma StaleArenaIsSilent(arena1: seq<I16>, arena2: seq<I16>, typ: U8, calls: seq<Call>)
    requires |arena1| == 2 * DelayLen && |arena2| == 2 * DelayLen && WellFormed(calls)
    ensures RunCalls(CommonInit(arena1, typ), calls) == RunCalls(CommonInit(arena2, typ), calls)
  {
    RunCallsAgree(CommonInit(arena1, typ), CommonInit(arena2, typ), calls);
  }
}
