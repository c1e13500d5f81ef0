/**
 * The audio block handler and its foreground task (audio.c, audio.h).
 *
 * Each block of interleaved stereo samples is metered, run through the
 * active effect, mixed wet/dry by the second control voltage, passed through
 * the mute ramp and metered again. The mute ramp is a four-state machine:
 * 0 open, 1 closing over 512 frames, 2 muted, 3 opening over 512 frames.
 * The foreground task serves two request tokens (0 free, 1 requested, 2
 * acknowledged) through which the user-interface side changes the active
 * algorithm and the mute state; the callers' side of that handshake is in
 * audio_sync.dfy.
 */
module Audio {
  import opened Ints
  import Dsp
  import Fx
  import FxDefs
  import FxCdl
  import FxVca

  /** SMPS, CHLS and BUFSZ: a block holds 32 stereo frames, 64 samples. */
  const Smps := 32
  const Chls := 2
  const BufSz := Smps * Chls
  /** The `prc` buffer holds 2 * BUFSZ samples, so a block has at most 64 frames. */
  const MaxFrames := BufSz
  /** Frames of a mute ramp. */
  const RampLen := 512
  /** The wet/dry gains sum to this full-scale 12-bit value. */
  const FullScale := 0xFFF

  /** audio_mute_state and audio_mute_cnt, both `int16_t`. */
  datatype Mute = Mute(state: I16, cnt: I16)

  /** The reachable mute states: the counter is the ramp position while ramping and 0 otherwise. */
  predicate MuteInv(m: Mute)
  {
    && 0 <= m.state <= 3
    && (m.state == 1 ==> 1 <= m.cnt <= RampLen)
    && (m.state == 3 ==> 0 <= m.cnt < RampLen)
    && (m.state == 0 || m.state == 2 ==> m.cnt == 0)
  }

  /** A sample scaled by a ramp position: `ssat16((x * cnt) >> 9)`. */
  function RampScale(x: I16, cnt: I16): (y: I16)
    ensures 0 <= cnt <= RampLen ==> y == Mul(x, cnt) / RampLen && Abs(y) <= Abs(x)
    ensures cnt == RampLen ==> y == x
    ensures cnt == 0 ==> y == 0
  {
    MulIsProduct(x, cnt);
    RampShrinks(x, cnt);
    Dsp.Ssat16(Mul(x, cnt) / RampLen)
  }

  /** Scaling by at most 512/512 never amplifies, in either direction of the floor. */
  lemma RampShrinks(x: int, cnt: int)
    ensures 0 <= cnt <= RampLen ==> Abs(x * cnt / RampLen) <= Abs(x)
    ensures cnt == RampLen ==> x * cnt / RampLen == x
  {
    if !(0 <= cnt <= RampLen) {
      return;
    }
    var a := Abs(x);
    MulLe(cnt, RampLen, a);
    if x >= 0 {
      assert 0 <= x * cnt <= x * RampLen;
    } else {
      MulNeg(a, cnt);
      MulNeg(a, RampLen);
      assert -(a * RampLen) <= x * cnt <= 0;
    }
  }

  /**
   * The mute state after one frame, whatever the samples. A ramping counter
   * is an `int16_t` and wraps; from the reachable states it never gets there.
   */
  function MuteNext(m: Mute): (r: Mute)
    ensures MuteInv(m) ==> MuteInv(r)
    // open and muted are resting states
    ensures m.state == 0 || m.state == 2 ==> r == m
    // a closing ramp counts down and ends muted
    ensures m.state == 1 && 2 <= m.cnt <= RampLen ==> r == Mute(1, m.cnt - 1)
    ensures m.state == 1 && m.cnt == 1 ==> r == Mute(2, 0)
    // an opening ramp counts up and ends open with the counter reset
    ensures m.state == 3 && 0 <= m.cnt < RampLen - 1 ==> r == Mute(3, m.cnt + 1)
    ensures m.state == 3 && m.cnt == RampLen - 1 ==> r == Mute(0, 0)
    // any other value is repaired to the open state
    ensures !(0 <= m.state <= 3) ==> r == m.(state := 0)
  {
    if m.state == 0 || m.state == 2 then m
    else if m.state == 1 then
      var c := Dec16(m.cnt);
      if c == 0 then Mute(2, c) else Mute(1, c)
    else if m.state == 3 then
      var c := Inc16(m.cnt);
      if c == RampLen then Mute(0, 0) else Mute(3, c)
    else m.(state := 0)
  }

  /**
   * The mute switch of Audio_Proc applied to one mixed sample: passed while
   * open (or in an illegal state), silenced while muted, scaled by the ramp
   * position while ramping.
   */
  function MuteOut(m: Mute, x: I16): (y: I16)
    ensures MuteInv(m) ==> Abs(y) <= Abs(x)
    ensures m.state == 0 ==> y == x
    ensures m.state == 2 ==> y == 0
  {
    if m.state == 2 then 0
    else if m.state == 1 || m.state == 3 then RampScale(x, m.cnt)
    else x
  }

  /** The mute state after n frames. */
  function MuteRun(m: Mute, n: nat): (r: Mute)
    decreases n, 1
  {
    if n == 0 then m else MuteRunThen(m, n)
  }

  /** The state after n - 1 frames, then one frame more. (Kept apart so the solver takes a frame only when a proof asks.) */
  function MuteRunThen(m: Mute, n: nat): (r: Mute)
    requires n > 0
    decreases n, 0
  {
    MuteNext(MuteRun(m, n - 1))
  }

  lemma {:induction false} MuteRunInv(m: Mute, n: nat)
    requires MuteInv(m)
    ensures MuteInv(MuteRun(m, n))
    decreases n
  {
    if n > 0 {
      MuteRunInv(m, n - 1);
    }
  }

  lemma {:induction false} MuteRunAdd(m: Mute, j: nat, k: nat)
    ensures MuteRun(MuteRun(m, j), k) == MuteRun(m, j + k)
    decreases k
  {
    if k > 0 {
      MuteRunAdd(m, j, k - 1);
    }
  }

  /** Open and muted are resting states: only the foreground task leaves them. */
  lemma {:induction false} MuteRunRests(m: Mute, n: nat)
    requires m.state == 0 || m.state == 2
    ensures MuteRun(m, n) == m
    decreases n
  {
    if n > 0 {
      MuteRunRests(m, n - 1);
    }
  }

  /**
   * A closing ramp started at position c: after k < c frames the position is
   * c - k (so the scale only falls), and after exactly c frames the output is
   * muted.
   */
  lemma {:induction false} ClosingRamp(c: int, k: nat)
    requires 1 <= c <= RampLen && k <= c
    ensures k < c ==> MuteRun(Mute(1, c), k) == Mute(1, c - k)
    ensures k == c ==> MuteRun(Mute(1, c), k) == Mute(2, 0)
    decreases k
  {
    if k > 0 {
      ClosingRamp(c, k - 1);
    }
  }

  /**
   * An opening ramp started at position c: after k frames, while c + k < 512,
   * the position is c + k (so the scale only rises), and after 512 - c frames
   * the output is open with the counter reset.
   */
  lemma {:induction false} OpeningRamp(c: int, k: nat)
    requires 0 <= c < RampLen && c + k <= RampLen
    ensures c + k < RampLen ==> MuteRun(Mute(3, c), k) == Mute(3, c + k)
    ensures c + k == RampLen ==> MuteRun(Mute(3, c), k) == Mute(0, 0)
    decreases k
  {
    if k > 0 {
      OpeningRamp(c, k - 1);
    }
  }

  /** The two ramps the foreground task starts take exactly 512 frames each. */
  lemma RampsTake512Frames(k: nat)
    requires k <= RampLen
    ensures k < RampLen ==> MuteRun(Mute(1, RampLen), k).state == 1 && MuteRun(Mute(3, 0), k).state == 3
    ensures MuteRun(Mute(1, RampLen), RampLen) == Mute(2, 0)
    ensures MuteRun(Mute(3, 0), RampLen) == Mute(0, 0)
  {
    ClosingRamp(RampLen, k);
    OpeningRamp(0, k);
    ClosingRamp(RampLen, RampLen);
    OpeningRamp(0, RampLen);
  }

  /** level_calc: peak hold of the rectified sample; `-sig` of -32768 is 32768 in the `uint16_t`. */
  function LevelCalc(level: U16, sig: I16): (r: U16)
    ensures r >= level && r >= Abs(sig)
    ensures r == level || r == Abs(sig)
  {
    var s: int := sig;
    var rect := if s < 0 then -s else s;
    if level < rect then rect else level
  }

  /** r is the peak of `level` and the rectified samples xs[k], xs[k + step], ...: their maximum. */
  predicate IsPeak(r: int, level: int, xs: seq<I16>)
  {
    && r >= level
    && (forall i :: 0 <= i < |xs| ==> r >= Abs(xs[i]))
    && (r == level || exists i :: 0 <= i < |xs| && r == Abs(xs[i]))
  }

  /** One sample more extends the peak. */
  lemma PeakStep(r: int, level: int, xs: seq<I16>, x: I16)
    requires IsPeak(r, level, xs) && 0 <= r < 0x1_0000
    ensures IsPeak(LevelCalc(r, x), level, xs + [x])
  {
    var r' := LevelCalc(r, x);
    var ys := xs + [x];
    assert ys[|xs|] == x;
    forall i | 0 <= i < |ys|
      ensures r' >= Abs(ys[i])
    {
      if i < |xs| {
        assert ys[i] == xs[i];
      }
    }
    if r' != level {
      if r' == r {
        var i :| 0 <= i < |xs| && r == Abs(xs[i]);
        assert ys[i] == xs[i];
      }
    }
  }

  /** The samples of one channel of an interleaved buffer: frames 0..n, channel chl. */
  function Channel(s: seq<I16>, chl: int, n: nat): (c: seq<I16>)
    requires 0 <= chl < 2 && 2 * n <= |s|
    ensures |c| == n && forall k :: 0 <= k < n ==> c[k] == s[2 * k + chl]
  {
    if n == 0 then [] else Channel(s, chl, n - 1) + [s[2 * (n - 1) + chl]]
  }

  /**
   * The wet/dry mix: `ssat16(mix >> 12)` with mix = prc * wet + src * dry in
   * `int32_t` and dry = 0xfff - wet. For a 12-bit wet both gains are
   * non-negative and sum to 4095 < 4096: the sum fits, the saturation never
   * acts and the mix lies between the two signals (or 0, which the floor can
   * reach). Any other wet, such as a reading lifted by an error-flagged
   * conversion, gives one gain the wrong sign: the mix can then leave that
   * hull and saturate, and the 32-bit sum can wrap.
   */
  function MixSample(prc: I16, src: I16, wet: I16): (y: I16)
    ensures y == Dsp.Ssat16(Wrap32(Mul(prc, wet) + Mul(src, FullScale - wet)) / 4096)
    ensures 0 <= wet <= FullScale ==> y == (Mul(prc, wet) + Mul(src, FullScale - wet)) / 4096
    ensures 0 <= wet <= FullScale ==> Min(Min(prc, src), 0) <= y <= Max(Max(prc, src), 0)
  {
    MulIsProduct(prc, wet);
    MulIsProduct(src, FullScale - wet);
    MixHull(prc, src, wet);
    Dsp.Ssat16(Wrap32(Mul(prc, wet) + Mul(src, FullScale - wet)) / 4096)
  }

  /** With gains w and 4095 - w, both non-negative, the sum and its floor stay within the signals' hull. */
  lemma MixHull(p: int, s: int, w: int)
    ensures 0 <= w <= FullScale ==>
      Min(Min(p, s), 0) * FullScale <= p * w + s * (FullScale - w) <= Max(Max(p, s), 0) * FullScale
    ensures 0 <= w <= FullScale ==>
      Min(Min(p, s), 0) <= (p * w + s * (FullScale - w)) / 4096 <= Max(Max(p, s), 0)
  {
    if 0 <= w <= FullScale {
      var lo, hi := Min(Min(p, s), 0), Max(Max(p, s), 0);
      var v := FullScale - w;
      var m := p * w + s * v;
      MulLe(0, hi - p, w);
      MulLe(0, hi - s, v);
      MulLe(0, p - lo, w);
      MulLe(0, s - lo, v);
      assert (hi - p) * w + (hi - s) * v == hi * FullScale - m;
      assert (p - lo) * w + (s - lo) * v == m - lo * FullScale;
      assert lo * FullScale >= lo * 4096;
      assert hi * FullScale <= hi * 4096;
      var q := m / 4096;
      assert q * 4096 <= m < q * 4096 + 4096;
      if q > hi {
        MulLe(hi + 1, q, 4096);
      }
      if q < lo {
        MulLe(q + 1, lo, 4096);
      }
    }
  }

  /**
   * A wet above 0xfff makes the dry gain negative: the mix of 20000 and
   * -32768 at wet 0x1200 is 26604, louder than either signal.
   */
  lemma MixLeavesHull()
    ensures MixSample(20000, -0x8000, 0x1200) == 26604
    ensures MixSample(20000, -0x8000, 0x1200) > Max(Max(20000, -0x8000), 0)
  {
    MulIsProduct(20000, 0x1200);
    MulIsProduct(-0x8000, FullScale - 0x1200);
    assert 20000 * 0x1200 + -0x8000 * (FullScale - 0x1200) == 26604 * 4096;
  }

  /**
   * A negative wet makes the wet gain negative and the dry gain above
   * 0x8000: the sum for prc = -32768, src = 32767, wet = -32768 exceeds
   * `int32_t`, wraps negative, and the loud positive mix comes out as the
   * most negative sample.
   */
  lemma MixWraps()
    ensures -0x8000 * -0x8000 + 0x7FFF * (FullScale + 0x8000) >= 0x8000_0000
    ensures Dsp.Ssat16((-0x8000 * -0x8000 + 0x7FFF * (FullScale + 0x8000)) / 4096) == 0x7FFF
    ensures MixSample(-0x8000, 0x7FFF, -0x8000) == -0x8000
  {
    MulIsProduct(-0x8000, -0x8000);
    MulIsProduct(0x7FFF, FullScale + 0x8000);
    var m := -0x8000 * -0x8000 + 0x7FFF * (FullScale + 0x8000);
    assert m == 2281631745;
    assert Wrap32(m) == m - 0x1_0000_0000;
  }

  /**
   * The output loop of Audio_Proc over the first n frames: the mix, then the
   * mute switch. Returns the output samples and the mute state after them.
   */
  function Output(prc: seq<I16>, src: seq<I16>, wet: I16, m: Mute, n: nat): (o: (seq<I16>, Mute))
    requires 2 * n <= |prc| && 2 * n <= |src|
    ensures |o.0| == 2 * n
    ensures o.1 == MuteRun(m, n)
    decreases n, 1
  {
    if n == 0 then ([], m) else OutputThen(prc, src, wet, m, n)
  }

  /** The output of n - 1 frames, then frame n - 1. (Kept apart so the solver takes a frame only when a proof asks.) */
  function OutputThen(prc: seq<I16>, src: seq<I16>, wet: I16, m: Mute, n: nat): (o: (seq<I16>, Mute))
    requires 2 * n <= |prc| && 2 * n <= |src| && n > 0
    ensures |o.0| == 2 * n
    ensures o.1 == MuteRun(m, n)
    decreases n, 0
  {
      var p := Output(prc, src, wet, m, n - 1);
      var k := n - 1;
      (p.0 + [MuteOut(p.1, MixSample(prc[2 * k], src[2 * k], wet)), MuteOut(p.1, MixSample(prc[2 * k + 1], src[2 * k + 1], wet))],
       MuteNext(p.1))
  }

  /** Frame k of the output is the mute switch applied to the mix, in the state reached after k frames. */
  lemma {:induction false} OutputFrame(prc: seq<I16>, src: seq<I16>, wet: I16, m: Mute, n: nat, k: nat)
    requires 2 * n <= |prc| && 2 * n <= |src| && k < n
    ensures Output(prc, src, wet, m, n).0[2 * k] == MuteOut(MuteRun(m, k), MixSample(prc[2 * k], src[2 * k], wet))
    ensures Output(prc, src, wet, m, n).0[2 * k + 1] == MuteOut(MuteRun(m, k), MixSample(prc[2 * k + 1], src[2 * k + 1], wet))
    decreases n
  {
    if k < n - 1 {
      var o, o' := Output(prc, src, wet, m, n).0, Output(prc, src, wet, m, n - 1).0;
      assert o[2 * k] == o'[2 * k] && o[2 * k + 1] == o'[2 * k + 1] by {
        OutputKeeps(prc, src, wet, m, n, 2 * k);
        OutputKeeps(prc, src, wet, m, n, 2 * k + 1);
      }
      OutputFrame(prc, src, wet, m, n - 1, k);
    } else {
      OutputLast(prc, src, wet, m, n);
    }
  }

  /** One more frame leaves the samples already written alone. */
  lemma OutputKeeps(prc: seq<I16>, src: seq<I16>, wet: I16, m: Mute, n: nat, i: nat)
    requires 2 * n <= |prc| && 2 * n <= |src| && n > 0 && i < 2 * (n - 1)
    ensures Output(prc, src, wet, m, n).0[i] == Output(prc, src, wet, m, n - 1).0[i]
  {
    assert Output(prc, src, wet, m, n) == OutputThen(prc, src, wet, m, n);
  }

  /** The last frame of the output is the mute switch applied to the mix, in the state reached before it. */
  lemma OutputLast(prc: seq<I16>, src: seq<I16>, wet: I16, m: Mute, n: nat)
    requires 2 * n <= |prc| && 2 * n <= |src| && n > 0
    ensures Output(prc, src, wet, m, n).0[2 * n - 2] == MuteOut(MuteRun(m, n - 1), MixSample(prc[2 * n - 2], src[2 * n - 2], wet))
    ensures Output(prc, src, wet, m, n).0[2 * n - 1] == MuteOut(MuteRun(m, n - 1), MixSample(prc[2 * n - 1], src[2 * n - 1], wet))
  {
    assert Output(prc, src, wet, m, n) == OutputThen(prc, src, wet, m, n);
  }

  /** While open, the block is the plain wet/dry mix. */
  lemma OutputOpen(prc: seq<I16>, src: seq<I16>, wet: I16, n: nat, i: nat)
    requires 2 * n <= |prc| && 2 * n <= |src| && i < 2 * n
    ensures Output(prc, src, wet, Mute(0, 0), n).0[i] == MixSample(prc[i], src[i], wet)
  {
    var k := i / 2;
    OutputFrame(prc, src, wet, Mute(0, 0), n, k);
    MuteRunRests(Mute(0, 0), k);
  }

  /** While muted, the block is silent. */
  lemma OutputMuted(prc: seq<I16>, src: seq<I16>, wet: I16, n: nat, i: nat)
    requires 2 * n <= |prc| && 2 * n <= |src| && i < 2 * n
    ensures Output(prc, src, wet, Mute(2, 0), n).0[i] == 0
  {
    var k := i / 2;
    OutputFrame(prc, src, wet, Mute(2, 0), n, k);
    MuteRunRests(Mute(2, 0), k);
  }

  /** audio_sl: the peak meters of the two inputs and the two outputs. */
  datatype Levels = Levels(inL: U16, inR: U16, outL: U16, outR: U16)

  /**
   * The handler's state: the meters, the mute machine, the two request
   * tokens with their arguments, and `audio_len`.
   */
  datatype Audio = Audio(
    sl: Levels,
    mute: Mute,
    algoReq: U8,
    algoNext: U8,
    muteReq: U8,
    muteNext: U8,
    len: int)

  /** Audio_Init: meters cleared, muted with the counter at 0, both tokens free. */
  function Init(arena: seq<I16>): (r: (Audio, Fx.State))
    requires |arena| == 2 * FxCdl.DelayLen
    ensures MuteInv(r.0.mute)
    ensures r.0.mute == Mute(2, 0) && r.0.algoReq == 0 && r.0.muteReq == 0
    ensures r.0.sl == Levels(0, 0, 0, 0)
    ensures r.1 == Fx.Init(arena)
  {
    (Audio(Levels(0, 0, 0, 0), Mute(2, 0), 0, 0, 0, 0, 0), Fx.Init(arena))
  }

  /** The input-metering loop of Audio_Proc over n frames. */
  method MeterInputs(l0: U16, l1: U16, src: seq<I16>, n: nat) returns (r0: U16, r1: U16)
    requires 2 * n <= |src|
    ensures IsPeak(r0, l0, Channel(src, 0, n)) && IsPeak(r1, l1, Channel(src, 1, n))
  {
    r0, r1 := l0, l1;
    var i := 0;
    while i < n
      invariant 0 <= i <= n
      invariant IsPeak(r0, l0, Channel(src, 0, i)) && IsPeak(r1, l1, Channel(src, 1, i))
    {
      PeakStep(r0, l0, Channel(src, 0, i), src[2 * i]);
      PeakStep(r1, l1, Channel(src, 1, i), src[2 * i + 1]);
      r0, r1 := LevelCalc(r0, src[2 * i]), LevelCalc(r1, src[2 * i + 1]);
      i := i + 1;
    }
  }

  /** The output loop of Audio_Proc over n frames: mix, mute switch, output metering. */
  method MixOutputs(l2: U16, l3: U16, prc: seq<I16>, src: seq<I16>, wet: I16, m0: Mute, n: nat)
    returns (dst: seq<I16>, m: Mute, r2: U16, r3: U16)
    requires 2 * n <= |prc| && 2 * n <= |src|
    ensures (dst, m) == Output(prc, src, wet, m0, n)
    ensures IsPeak(r2, l2, Channel(dst, 0, n)) && IsPeak(r3, l3, Channel(dst, 1, n))
  {
    r2, r3 := l2, l3;
    dst := [];
    m := m0;
    var i := 0;
    while i < n
      invariant 0 <= i <= n
      invariant (dst, m) == Output(prc, src, wet, m0, i)
      invariant IsPeak(r2, l2, Channel(dst, 0, i)) && IsPeak(r3, l3, Channel(dst, 1, i))
    {
      var left := MuteOut(m, MixSample(prc[2 * i], src[2 * i], wet));
      var right := MuteOut(m, MixSample(prc[2 * i + 1], src[2 * i + 1], wet));
      OutputNext(prc, src, wet, m0, i);
      ChannelAppend(dst, left, right, i);
      PeakStep(r2, l2, Channel(dst, 0, i), left);
      PeakStep(r3, l3, Channel(dst, 1, i), right);
      r2, r3 := LevelCalc(r2, left), LevelCalc(r3, right);
      dst, m := dst + [left, right], MuteNext(m);
      i := i + 1;
    }
  }

  /** One frame more of the output loop. */
  lemma OutputNext(prc: seq<I16>, src: seq<I16>, wet: I16, m: Mute, i: nat)
    requires 2 * i + 2 <= |prc| && 2 * i + 2 <= |src|
    ensures var p := Output(prc, src, wet, m, i);
      Output(prc, src, wet, m, i + 1) ==
        (p.0 + [MuteOut(p.1, MixSample(prc[2 * i], src[2 * i], wet)), MuteOut(p.1, MixSample(prc[2 * i + 1], src[2 * i + 1], wet))],
         MuteNext(p.1))
  {
  }

  /** Appending a frame appends one sample to each channel. */
  lemma ChannelAppend(s: seq<I16>, l: I16, r: I16, n: nat)
    requires 2 * n == |s|
    ensures Channel(s + [l, r], 0, n + 1) == Channel(s, 0, n) + [l]
    ensures Channel(s + [l, r], 1, n + 1) == Channel(s, 1, n) + [r]
  {
    var t := s + [l, r];
    assert Channel(t, 0, n) == Channel(s, 0, n);
    assert Channel(t, 1, n) == Channel(s, 1, n);
  }

  /**
   * Audio_Proc: `len` samples in, halved to frames. `prc` is the global
   * effect-output buffer, `wet` is ADC_val[1] (a 12-bit reading, or beyond after an
   * error-flagged conversion) and `param` the ADC parameter table. The block must fit the 128-sample `prc`
   * buffer, and the VCA divides by the frame count.
   */
  method Proc(a: Audio, fx: Fx.State, wet: I16, param: seq<I16>, src: seq<I16>, len: int)
    returns (dst: seq<I16>, prc: seq<I16>, a': Audio, fx': Fx.State)
    requires Fx.Valid(fx) && |param| == 4
    requires 0 <= len && len / 2 <= MaxFrames && |src| == 2 * (len / 2)
    requires fx.algo == 1 ==> len / 2 >= 1
    ensures |dst| == |src| && |prc| == |src|
    ensures fx'.algo == fx.algo && fx'.line == fx.line && Fx.Valid(fx')
    // the effect output is what the active effect renders from the block
    ensures fx.algo == 0 ==> fx' == fx && forall i :: 0 <= i < |prc| ==> prc[i] == 0
    ensures fx.algo == 1 ==> (
      prc == FxVca.Render(src, fx.inst.vca.gain, FxVca.Slope(fx.inst.vca.gain, param[1], len / 2), len / 2)
      && fx'.inst == Fx.VcaInst(FxVca.VcaBlk(FxVca.GainAt(fx.inst.vca.gain, FxVca.Slope(fx.inst.vca.gain, param[1], len / 2), len / 2))))
    ensures fx.algo == 2 ==> (
      prc == FxCdl.Proc(fx.inst.cdl, param, src, len / 2).1
      && fx'.inst == Fx.CdlInst(FxCdl.Proc(fx.inst.cdl, param, src, len / 2).0))
    // the outputs are the mixed, mute-switched effect outputs
    ensures (dst, a'.mute) == Output(prc, src, wet, a.mute, len / 2)
    ensures a' == a.(sl := a'.sl, mute := a'.mute, len := len / 2)
    // the meters hold the peaks of the block's inputs and outputs
    ensures IsPeak(a'.sl.inL, a.sl.inL, Channel(src, 0, len / 2)) && IsPeak(a'.sl.inR, a.sl.inR, Channel(src, 1, len / 2))
    ensures IsPeak(a'.sl.outL, a.sl.outL, Channel(dst, 0, len / 2)) && IsPeak(a'.sl.outR, a.sl.outR, Channel(dst, 1, len / 2))
  {
    var n := len / 2;
    var inL, inR := MeterInputs(a.sl.inL, a.sl.inR, src, n);
    prc, fx' := Fx.Proc(fx, param, src, n);
    var m, outL, outR;
    dst, m, outL, outR := MixOutputs(a.sl.outL, a.sl.outR, prc, src, wet, a.mute, n);
    a' := a.(sl := Levels(inL, inR, outL, outR), mute := m, len := n);
  }

  /** The meters never fall during a block. */
  lemma MetersHold(r: int, level: int, xs: seq<I16>)
    requires IsPeak(r, level, xs)
    ensures r >= level
  {
  }

  /**
   * Audio_Fore: serve a requested algorithm change by writing the new index
   * through the request's pointer (here always `fx_algo`, passed as `algo`)
   * and acknowledging; serve a requested mute change by starting a closing
   * ramp from open, or an opening ramp from muted, and acknowledging either
   * way. A token that is not 1 is left alone.
   */
  function Fore(a: Audio, algo: int): (r: (Audio, int))
    ensures a.algoReq == 1 ==> r.1 == a.algoNext && r.0.algoReq == 2
    ensures a.algoReq != 1 ==> r.1 == algo && r.0.algoReq == a.algoReq
    ensures a.muteReq == 1 ==> r.0.muteReq == 2
    ensures a.muteReq == 1 && a.mute.state == 0 && a.muteNext == 1 ==> r.0.mute == Mute(1, RampLen)
    ensures a.muteReq == 1 && a.mute.state == 2 && a.muteNext == 0 ==> r.0.mute == Mute(3, 0)
    // no other request moves the mute machine
    ensures r.0.mute != a.mute ==>
      a.muteReq == 1 && ((a.mute.state == 0 && a.muteNext == 1) || (a.mute.state == 2 && a.muteNext == 0))
    ensures a.muteReq != 1 ==> r.0.muteReq == a.muteReq
    ensures r.0 == a.(algoReq := r.0.algoReq, muteReq := r.0.muteReq, mute := r.0.mute)
  {
    var (a1, algo1) := if a.algoReq == 1 then (a.(algoReq := 2), a.algoNext as int) else (a, algo);
    if a1.muteReq == 1 then
      var m :=
        if a.mute.state == 0 && a.muteNext == 1 then Mute(1, RampLen)
        else if a.mute.state == 2 && a.muteNext == 0 then Mute(3, 0)
        else a.mute;
      (a1.(mute := m, muteReq := 2), algo1)
    else (a1, algo1)
  }

  /** Each request is served once: a second pass of the foreground task does nothing. */
  lemma ForeOnce(a: Audio, algo: int)
    ensures Fore(Fore(a, algo).0, Fore(a, algo).1) == Fore(a, algo)
  {
  }

  lemma ForeInv(a: Audio, algo: int)
    requires MuteInv(a.mute)
    ensures MuteInv(Fore(a, algo).0.mute)
  {
  }
}
