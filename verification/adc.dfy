/**
 * Control-voltage conditioning (adc.c, adc.h): the conversion-complete
 * handler filters each raw 12-bit reading with a one-pole IIR, alternates
 * between the two value slots (`ADC_idx`), and, after each conversion stored
 * in value slot 0, runs a three-state hysteresis machine that decides when
 * the knob may overwrite the active parameter slot.
 * The handler is a pure step `Step(state, raw)`; the next conversion start
 * and the hardware set-up are left to the caller.
 */
module Adc {
  import opened Ints

  const NumVals := 2
  const NumParams := 4
  /** 1 << ADC_IIR_COEF: the filter moves 1/64 of the way to the target per sample. */
  const IirScale := 64
  /** A locked parameter unlocks once value slot 0 moves further than this from the captured value. */
  const UnlockThresh := 200
  /** The largest 12-bit reading, also the polarity-inversion mask. */
  const FullScale := 0xFFF

  /** ADC_hyst_state: 0 reset, 1 locked and waiting for unlock, 2 tracking. */
  datatype Hyst = Reset | Locked | Tracking

  /** The handler's static and global state. */
  datatype Adc = Adc(
    iir: seq<int>,     // ADC_iir, the filter accumulators
    val: seq<I16>,     // ADC_val, the filtered readings
    param: seq<I16>,   // ADC_param, the parameter table fed by value slot 0
    chan: int,         // ADC_idx, the slot the completed conversion is stored in
    hyst: Hyst,        // ADC_hyst_state
    hystVal: I16,      // ADC_hyst_val, the reading captured on reset
    paramIdx: int)     // ADC_param_idx, the parameter slot value slot 0 feeds when tracking

  predicate Valid(a: Adc)
  {
    |a.iir| == NumVals && |a.val| == NumVals && |a.param| == NumParams
    && 0 <= a.chan < NumVals && 0 <= a.paramIdx < NumParams
  }

  /**
   * `0xfff ^ raw`: the inverted reading. The FIFO word is 16 bits wide (bit 15
   * flags a conversion error); the exclusive or complements the low twelve
   * bits and keeps the upper four.
   */
  function Invert(raw: U16): (x: U16)
    ensures x / 0x1000 == raw / 0x1000 && x % 0x1000 == FullScale - raw % 0x1000
    ensures raw <= FullScale ==> x == FullScale - raw
  {
    (raw / 0x1000) * 0x1000 + (FullScale - raw % 0x1000)
  }

  /** The filter target: the inverted reading shifted up by the coefficient. */
  function Target(raw: U16): int
  {
    Invert(raw) * IirScale
  }

  /**
   * One filter update: the accumulator moves by the arithmetic right shift of
   * the distance to the target.
   */
  function Filter(acc: int, raw: U16): (r: int)
    // the accumulator moves toward the target without overshooting it
    ensures acc <= Target(raw) ==> acc <= r <= Target(raw)
    ensures Target(raw) <= acc ==> Target(raw) <= r <= acc
    ensures r == acc <==> 0 <= Target(raw) - acc < IirScale
  {
    acc + (Target(raw) - acc) / IirScale
  }

  /** The three-state machine the handler runs after each conversion stored in value slot 0. */
  function Hysteresis(a: Adc): (r: Adc)
    requires Valid(a)
    ensures Valid(r) && r.iir == a.iir && r.val == a.val && r.chan == a.chan && r.paramIdx == a.paramIdx
    ensures a.hyst == Reset ==> r.hyst == Locked && r.hystVal == a.val[0] && r.param == a.param
    ensures a.hyst == Locked ==> r.param == a.param && r.hystVal == a.hystVal
    ensures a.hyst == Locked ==> (r.hyst == Tracking <==> Abs(a.val[0] - a.hystVal) > UnlockThresh)
    ensures a.hyst == Locked ==> r.hyst != Reset
    ensures a.hyst == Tracking ==> r.hyst == Tracking && r.hystVal == a.hystVal
    ensures a.hyst == Tracking ==> r.param[a.paramIdx] == a.val[0]
    ensures forall i :: 0 <= i < NumParams && i != a.paramIdx ==> r.param[i] == a.param[i]
  {
    match a.hyst
    case Reset => a.(hystVal := a.val[0], hyst := Locked)
    case Locked => if Abs(a.val[0] - a.hystVal) > UnlockThresh then a.(hyst := Tracking) else a
    case Tracking => a.(param := a.param[a.paramIdx := a.val[0]])
  }

  /** ADC_irq_handler (non-autoscan): filter the completed conversion into its slot, run the hysteresis when it lands in value slot 0, advance the slot. */
  function Step(a: Adc, raw: U16): (r: Adc)
    requires Valid(a)
    ensures Valid(r)
    ensures r.chan == 1 - a.chan
    ensures r.iir[a.chan] == Filter(a.iir[a.chan], raw) && r.iir[1 - a.chan] == a.iir[1 - a.chan]
    ensures r.val[a.chan] == Wrap16(r.iir[a.chan] / IirScale) && r.val[1 - a.chan] == a.val[1 - a.chan]
    ensures r.paramIdx == a.paramIdx
    // the hysteresis runs only when the conversion lands in value slot 0
    ensures a.chan == 1 ==> r.hyst == a.hyst && r.hystVal == a.hystVal && r.param == a.param
    // only the active slot is ever written, and only while tracking
    ensures forall i :: 0 <= i < NumParams && i != a.paramIdx ==> r.param[i] == a.param[i]
    ensures r.param != a.param ==> a.chan == 0 && a.hyst == Tracking
  {
    var c := a.chan;
    var acc := Filter(a.iir[c], raw);
    var a1 := a.(iir := a.iir[c := acc], val := a.val[c := Wrap16(acc / IirScale)]);
    var a2 := if c == 0 then Hysteresis(a1) else a1;
    a2.(chan := (c + 1) % NumVals)
  }

  /** The handler over a sequence of readings, oldest first. */
  function Run(a: Adc, raws: seq<U16>): (r: Adc)
    requires Valid(a)
    ensures Valid(r) && r.paramIdx == a.paramIdx
    // the slots strictly alternate: after n samples the index has moved n places modulo 2
    ensures r.chan == if |raws| % 2 == 0 then a.chan else 1 - a.chan
    decreases |raws|
  {
    if raws == [] then a
    else
      assert |raws[1..]| % 2 == 0 <==> |raws| % 2 != 0;
      Run(Step(a, raws[0]), raws[1..])
  }

  /** The readings stay 12-bit: accumulators within [0, 4095 << 6] and values within [0, 4095]. */
  predicate InRange(a: Adc)
    requires Valid(a)
  {
    forall i :: 0 <= i < NumVals ==> 0 <= a.iir[i] <= FullScale * IirScale && 0 <= a.val[i] <= FullScale
  }

  /** A 12-bit reading keeps an in-range accumulator in range, and its value is the accumulator shifted down. */
  lemma FilterInRange(acc: int, raw: U16)
    requires 0 <= acc <= FullScale * IirScale && raw <= FullScale
    ensures 0 <= Filter(acc, raw) <= FullScale * IirScale
    ensures 0 <= Filter(acc, raw) / IirScale <= FullScale
  {
  }

  lemma StepInRange(a: Adc, raw: U16)
    requires Valid(a) && InRange(a) && raw <= FullScale
    ensures InRange(Step(a, raw))
  {
    FilterInRange(a.iir[a.chan], raw);
  }

  /** Every run over 12-bit readings stays in range. */
  lemma {:induction false} RunInRange(a: Adc, raws: seq<U16>)
    requires Valid(a) && InRange(a)
    requires forall i :: 0 <= i < |raws| ==> raws[i] <= FullScale
    ensures InRange(Run(a, raws))
    decreases |raws|
  {
    if raws != [] {
      StepInRange(a, raws[0]);
      RunInRange(Step(a, raws[0]), raws[1..]);
    }
  }

  /** Outside tracking the handler never writes the parameter table, whatever the readings. */
  lemma {:induction false} RunLockedKeepsParams(a: Adc, raws: seq<U16>)
    requires Valid(a) && a.hyst != Tracking
    requires forall k :: 0 <= k <= |raws| ==> Run(a, raws[..k]).hyst != Tracking
    ensures Run(a, raws).param == a.param
    decreases |raws|
  {
    if raws != [] {
      var b := Step(a, raws[0]);
      assert raws[..1] == [raws[0]];
      assert Run(a, raws[..1]) == Run(b, []) == b;
      forall k | 0 <= k <= |raws[1..]|
        ensures Run(b, raws[1..][..k]).hyst != Tracking
      {
        assert raws[..k + 1] == [raws[0]] + raws[1..][..k];
        assert Run(a, raws[..k + 1]) == Run(b, raws[1..][..k]);
      }
      RunLockedKeepsParams(b, raws[1..]);
    }
    assert raws == raws[..|raws|];
  }

  /** ADC_init: zero both accumulators and values, reset the machine, set `ADC_idx` to value slot 0. */
  function Init(a: Adc): (r: Adc)
    requires Valid(a)
    ensures Valid(r) && InRange(r)
    ensures r.chan == 0 && r.paramIdx == 0 && r.hyst == Reset
    // the parameter table and the captured value are not touched
    ensures r.param == a.param && r.hystVal == a.hystVal
  {
    a.(iir := [0, 0], val := [0, 0], hyst := Reset, paramIdx := 0, chan := 0)
  }

  /** ADC_setactparam: select another slot and restart the hysteresis; out-of-range or same slot is a no-op. */
  function SetActParam(a: Adc, idx: U8): (r: Adc)
    requires Valid(a)
    ensures Valid(r)
    ensures idx >= NumParams || idx == a.paramIdx ==> r == a
    ensures idx < NumParams && idx != a.paramIdx ==> r.paramIdx == idx && r.hyst == Reset
    ensures r.iir == a.iir && r.val == a.val && r.param == a.param && r.chan == a.chan && r.hystVal == a.hystVal
  {
    if idx >= NumParams then a
    else if idx != a.paramIdx then a.(paramIdx := idx, hyst := Reset)
    else a
  }

  /** ADC_setparamval: store a value into a slot; out-of-range is a no-op. */
  function SetParamVal(a: Adc, idx: U8, v: I16): (r: Adc)
    requires Valid(a)
    ensures Valid(r)
    ensures idx >= NumParams ==> r == a
    ensures idx < NumParams ==> r.param[idx] == v
    ensures forall i :: 0 <= i < NumParams && i != idx ==> r.param[i] == a.param[i]
    ensures r.iir == a.iir && r.val == a.val && r.chan == a.chan && r.hyst == a.hyst && r.paramIdx == a.paramIdx
  {
    if idx >= NumParams then a else a.(param := a.param[idx := v])
  }

  /** ADC_forceactparam: make the active parameter slot track value slot 0 immediately. */
  function ForceActParam(a: Adc): (r: Adc)
    requires Valid(a)
    ensures Valid(r) && r.hyst == Tracking
    ensures r.iir == a.iir && r.val == a.val && r.param == a.param && r.chan == a.chan && r.paramIdx == a.paramIdx
  {
    a.(hyst := Tracking)
  }

  /** After a forced track, the next conversion stored in value slot 0 writes its filtered value into the active slot. */
  lemma ForceThenStep(a: Adc, raw: U16)
    requires Valid(a) && a.chan == 0
    ensures Step(ForceActParam(a), raw).param[a.paramIdx] == Step(ForceActParam(a), raw).val[0]
  {
  }

  /**
   * After selecting a new slot, the next conversion stored in value slot 0 only captures the
   * reading; the slot keeps the value it had.
   */
  lemma SelectThenStep(a: Adc, idx: U8, raw: U16)
    requires Valid(a) && a.chan == 0 && idx < NumParams && idx != a.paramIdx
    ensures Step(SetActParam(a, idx), raw).param == a.param
    ensures Step(SetActParam(a, idx), raw).hyst == Locked
    ensures Step(SetActParam(a, idx), raw).hystVal == Step(SetActParam(a, idx), raw).val[0]
  {
  }
}
