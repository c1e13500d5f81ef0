/**
 * The WM8731 codec's control port (wm8731.c): each register write is a
 * two-byte I2C message carrying a 7-bit register address and a 9-bit value,
 * and the driver keeps a shadow copy of the ten configuration registers so
 * that the read-modify-write helpers never read the device.
 *
 * The I2C transfer itself is an oracle: each write takes the status the
 * transfer would report and appends the attempted message to a bus trace.
 * The registers are C's `uint8_t` and `uint16_t`, so they are bit-vectors here.
 */
module Wm8731 {

  /** W8731_ADDR_0, the codec's 7-bit bus address. */
  const Dev: bv8 := 0x1A
  /** W8731_NUM_REGS: registers 0..9 are shadowed. */
  const NumRegs: bv8 := 10

  const RegLLin: bv8 := 0
  const RegLHp: bv8 := 2
  const RegAPath: bv8 := 4
  const RegDPath: bv8 := 5
  const RegRst: bv8 := 0x0F

  /** w8731_init_data, the values Reset loads into registers 0..9. */
  const InitData: seq<bv16> := [0x017, 0x017, 0x079, 0x079, 0x012, 0x000, 0x060, 0x002, 0x000, 0x001]

  /** One attempted I2C write: the device address and the bytes sent. */
  datatype Transfer = Transfer(dev: bv8, data: seq<bv8>)

  /** w8731_shadow together with the trace of every transfer attempted so far. */
  datatype Codec = Codec(shadow: seq<bv16>, bus: seq<Transfer>)

  /** The driver before any write: the shadow is zero-initialised static storage. */
  function Boot(): (c: Codec)
    ensures Valid(c) && Mirror(c)
  {
    Codec(seq(10, i => 0), [])
  }

  /** The shadow has one slot per register and holds only 9-bit values. */
  ghost predicate Valid(c: Codec)
  {
    |c.shadow| == 10 && forall i: bv8 :: i < NumRegs ==> c.shadow[i] < 0x200
  }

  /**
   * The two message bytes: the address shifted above the value's bit 8, then
   * the value's low byte. Bits the format has no room for (address bit 7,
   * value bits 9..15) are dropped.
   */
  function Encode(addr: bv8, value: bv16): (m: seq<bv8>)
    ensures |m| == 2
    ensures m[0] >> 1 == addr & 0x7F && m[0] & 1 == ((value >> 8) & 1) as bv8
    ensures m[1] as bv16 == value & 0xFF
  {
    [((((addr as bv16) << 1) & 0xFE) | ((value >> 8) & 1)) as bv8, (value & 0xFF) as bv8]
  }

  /** How the codec reads a message: register address and 9-bit value. */
  function Decode(m: seq<bv8>): (r: (bv8, bv16))
    requires |m| == 2
    ensures r.0 < 0x80 && r.1 < 0x200
  {
    (m[0] >> 1, (((m[0] & 1) as bv16) << 8) | (m[1] as bv16))
  }

  /** A 7-bit address and a 9-bit value survive the encoding. */
  lemma EncodeDecode(addr: bv8, value: bv16)
    requires addr < 0x80 && value < 0x200
    ensures Decode(Encode(addr, value)) == (addr, value)
  {
  }

  /** Every two-byte message is the encoding of what it decodes to. */
  lemma DecodeEncode(m: seq<bv8>)
    requires |m| == 2
    ensures Encode(Decode(m).0, Decode(m).1) == m
  {
  }

  /** So the encoding is one-to-one on 7-bit addresses and 9-bit values. */
  lemma EncodeInjective(a1: bv8, v1: bv16, a2: bv8, v2: bv16)
    requires a1 < 0x80 && v1 < 0x200 && a2 < 0x80 && v2 < 0x200
    requires Encode(a1, v1) == Encode(a2, v2)
    ensures a1 == a2 && v1 == v2
  {
    EncodeDecode(a1, v1);
    EncodeDecode(a2, v2);
  }

  /**
   * WM8731_WriteRegister: update the shadow for a configuration register,
   * whatever becomes of the transfer, then send the message; the result is
   * 0 when the transfer reports both bytes written and 1 otherwise.
   */
  function WriteRegister(c: Codec, addr: bv8, value: bv16, status: int): (r: (Codec, int))
    requires |c.shadow| == 10
    ensures |r.0.shadow| == 10
    ensures r.1 == 0 <==> status == 2
    ensures r.1 == 0 || r.1 == 1
    ensures addr < NumRegs ==> r.0.shadow[addr] == value
    ensures forall i: bv8 :: i < NumRegs && i != addr ==> r.0.shadow[i] == c.shadow[i]
    ensures r.0.bus == c.bus + [Transfer(Dev, Encode(addr, value))]
  {
    var shadow := if addr < NumRegs then c.shadow[addr := value] else c.shadow;
    var sent := c.bus + [Transfer(Dev, Encode(addr, value))];
    (Codec(shadow, sent), if status != 2 then 1 else 0)
  }

  /** The transfer status decides only the result, never the shadow or the trace. */
  lemma StatusOnlyResult(c: Codec, addr: bv8, value: bv16, s1: int, s2: int)
    requires |c.shadow| == 10
    ensures WriteRegister(c, addr, value, s1).0 == WriteRegister(c, addr, value, s2).0
  {
  }

  /** The number of failed transfers among the first n statuses. */
  function Failures(status: seq<int>, n: nat): (k: nat)
    requires n <= |status|
    ensures k <= n
  {
    if n == 0 then 0
    else Failures(status, n - 1) + (if status[n - 1] != 2 then 1 else 0)
  }

  /** The message Reset sends for register i. */
  function Load(i: bv8): Transfer
    requires i < NumRegs
  {
    Transfer(Dev, Encode(i, InitData[i]))
  }

  /** The trace `pre` followed by the messages loading registers 0..n-1 in order. */
  function Loaded(pre: seq<Transfer>, n: bv8): (ts: seq<Transfer>)
    requires n <= NumRegs
    ensures |ts| == |pre| + n as int
    decreases n
  {
    if n == 0 then pre else Loaded(pre, n - 1) + [Load(n - 1)]
  }

  /**
   * The loop of WM8731_Reset after its first n passes: registers 0..n-1
   * written with their initial values, the failures among the first n
   * transfer outcomes summed. LoadRegsShadow, LoadRegsBus and
   * LoadRegsFailures say what it computes.
   */
  function LoadRegs(c: Codec, status: seq<int>, n: bv8): (r: (Codec, int))
    requires |c.shadow| == 10 && n <= NumRegs && |status| == 10
    ensures |r.0.shadow| == 10
    decreases n
  {
    if n == 0 then (c, 0)
    else
      var p := LoadRegs(c, status, n - 1);
      var w := WriteRegister(p.0, n - 1, InitData[n - 1], status[n - 1]);
      (w.0, p.1 + w.1)
  }

  /** The first n registers hold their initial values, the others are untouched. */
  lemma {:induction false} LoadRegsShadow(c: Codec, status: seq<int>, n: bv8)
    requires |c.shadow| == 10 && n <= NumRegs && |status| == 10
    ensures forall k: bv8 :: k < n ==> LoadRegs(c, status, n).0.shadow[k] == InitData[k]
    ensures forall k: bv8 :: n <= k < NumRegs ==> LoadRegs(c, status, n).0.shadow[k] == c.shadow[k]
    decreases n
  {
    if n > 0 {
      LoadRegsShadow(c, status, n - 1);
    }
  }

  /** The loop sends one message per register, in register order. */
  lemma {:induction false} LoadRegsBus(c: Codec, status: seq<int>, n: bv8)
    requires |c.shadow| == 10 && n <= NumRegs && |status| == 10
    ensures LoadRegs(c, status, n).0.bus == Loaded(c.bus, n)
    decreases n
  {
    if n > 0 {
      LoadRegsBus(c, status, n - 1);
    }
  }

  /** The loop's count is the number of failed transfers among the first n. */
  lemma {:induction false} LoadRegsFailures(c: Codec, status: seq<int>, n: bv8)
    requires |c.shadow| == 10 && n <= NumRegs && |status| == 10
    ensures LoadRegs(c, status, n).1 == Failures(status, n as int)
    decreases n
  {
    if n > 0 {
      LoadRegsFailures(c, status, n - 1);
    }
  }

  /**
   * WM8731_Reset: write 0 to the reset register, then the ten initial values
   * in register order. `status` holds the eleven transfer outcomes; the
   * result counts the failures, and the shadow ends up as the initial data
   * whatever they were.
   */
  function Reset(c: Codec, status: seq<int>): (r: (Codec, int))
    requires |c.shadow| == 10 && |status| == 11
    ensures |r.0.shadow| == 10 && forall i: bv8 :: i < NumRegs ==> r.0.shadow[i] == InitData[i]
    ensures r.1 == Failures(status, 11)
    ensures r.0.bus == Loaded(c.bus + [Transfer(Dev, Encode(RegRst, 0))], NumRegs)
  {
    var w := WriteRegister(c, RegRst, 0, status[0]);
    var p := LoadRegs(w.0, status[1..], NumRegs);
    LoadRegsShadow(w.0, status[1..], NumRegs);
    LoadRegsBus(w.0, status[1..], NumRegs);
    LoadRegsFailures(w.0, status[1..], NumRegs);
    FailuresSplit(status, 10);
    (p.0, w.1 + p.1)
  }

  /** Counting the failures of the first outcome and of the rest separately. */
  lemma {:induction false} FailuresSplit(status: seq<int>, n: nat)
    requires n < |status|
    ensures Failures(status, n + 1) == (if status[0] != 2 then 1 else 0) + Failures(status[1..], n)
    decreases n
  {
    if n > 0 {
      FailuresSplit(status, n - 1);
    }
  }

  /** WM8731_Mute: write 0x08 (soft mute) or 0 to the digital path register. */
  function Mute(c: Codec, enable: bv8, status: int): (r: (Codec, int))
    requires Valid(c)
    ensures Valid(r.0)
    ensures r.0.shadow[RegDPath] == (if enable != 0 then 0x08 else 0)
    ensures forall i: bv8 :: i < NumRegs && i != RegDPath ==> r.0.shadow[i] == c.shadow[i]
  {
    WriteRegister(c, RegDPath, if enable != 0 then 0x08 else 0x00, status)
  }

  /** WM8731_HPVol: headphone volume, both channels at once, on register 2. */
  function HpVol(c: Codec, vol: bv8, status: int): (r: (Codec, int))
    requires Valid(c)
    ensures Valid(r.0) && |r.0.bus| == |c.bus| + 1 && r.0.bus[..|c.bus|] == c.bus
    ensures |r.0.bus[|c.bus|].data| == 2
    ensures Decode(r.0.bus[|c.bus|].data) == (RegLHp, 0x180 + (vol % 0x80) as bv16)
    ensures forall i: bv8 :: i < NumRegs && i != RegLHp ==> r.0.shadow[i] == c.shadow[i]
  {
    var value := 0x180 | ((vol as bv16) & 0x7F);
    EncodeDecode(RegLHp, value);
    WriteRegister(c, RegLHp, value, status)
  }

  /** WM8731_InVol: line-input volume, both channels at once, on register 0. */
  function InVol(c: Codec, vol: bv8, status: int): (r: (Codec, int))
    requires Valid(c)
    ensures Valid(r.0) && |r.0.bus| == |c.bus| + 1 && r.0.bus[..|c.bus|] == c.bus
    ensures |r.0.bus[|c.bus|].data| == 2
    ensures Decode(r.0.bus[|c.bus|].data) == (RegLLin, 0x100 + (vol % 0x40) as bv16)
    ensures forall i: bv8 :: i < NumRegs && i != RegLLin ==> r.0.shadow[i] == c.shadow[i]
  {
    var value := 0x100 | ((vol as bv16) & 0x3F);
    EncodeDecode(RegLLin, value);
    WriteRegister(c, RegLLin, value, status)
  }

  /**
   * WM8731_InSrc: select the line input (bit 1) or the microphone (bit 2) in
   * the analog path register, keeping its other bits.
   */
  function InSrc(c: Codec, src: bv8, status: int): (r: (Codec, int))
    requires Valid(c)
    ensures Valid(r.0)
    ensures r.0.shadow[RegAPath] & 0x6 == (if src != 0 then 0x4 else 0x2)
    ensures r.0.shadow[RegAPath] & !0x6 == c.shadow[RegAPath] & !0x6
    ensures forall i: bv8 :: i < NumRegs && i != RegAPath ==> r.0.shadow[i] == c.shadow[i]
  {
    var value := (c.shadow[RegAPath] & 0x1F9) | (if src != 0 then 0x04 else 0x02);
    WriteRegister(c, RegAPath, value, status)
  }

  /** WM8731_MicBoost: set or clear bit 0 of the analog path register, keeping the rest. */
  function MicBoost(c: Codec, boost: bv8, status: int): (r: (Codec, int))
    requires Valid(c)
    ensures Valid(r.0)
    ensures r.0.shadow[RegAPath] & 1 == (if boost != 0 then 1 else 0)
    ensures r.0.shadow[RegAPath] & !1 == c.shadow[RegAPath] & !1
    ensures forall i: bv8 :: i < NumRegs && i != RegAPath ==> r.0.shadow[i] == c.shadow[i]
  {
    var value := (c.shadow[RegAPath] & 0x1FE) | (if boost != 0 then 1 else 0);
    WriteRegister(c, RegAPath, value, status)
  }

  /**
   * The value last sent to register `reg` according to the trace, whatever
   * the transfer's status, or 0 when nothing was sent to it: an independent
   * account of what the shadow should hold. After a failed transfer the
   * codec did not receive that value.
   */
  function LastSent(bus: seq<Transfer>, reg: bv8): bv16
    requires forall k :: 0 <= k < |bus| ==> |bus[k].data| == 2
  {
    if bus == [] then 0
    else if Decode(bus[|bus| - 1].data).0 == reg then Decode(bus[|bus| - 1].data).1
    else LastSent(bus[..|bus| - 1], reg)
  }

  /** The shadow agrees with what the codec was last sent, register by register. */
  ghost predicate Mirror(c: Codec)
  {
    Valid(c) && (forall k :: 0 <= k < |c.bus| ==> |c.bus[k].data| == 2)
    && forall i: bv8 :: i < NumRegs ==> c.shadow[i] == LastSent(c.bus, i)
  }

  /**
   * A write of a 9-bit value to a 7-bit address keeps the shadow equal to
   * the last value sent to each register, failed transfers included. (An address of 128 or more would be sent as its
   * low seven bits without updating the shadow; no caller does that.)
   */
  lemma WriteMirrors(c: Codec, addr: bv8, value: bv16, status: int)
    requires Mirror(c) && addr < 0x80 && value < 0x200
    ensures Mirror(WriteRegister(c, addr, value, status).0)
  {
    var r := WriteRegister(c, addr, value, status).0;
    EncodeDecode(addr, value);
    assert r.bus[..|r.bus| - 1] == c.bus;
  }

  /** Reset keeps the shadow equal to the last value sent to each register. */
  lemma ResetMirrors(c: Codec, status: seq<int>)
    requires Mirror(c) && |status| == 11
    ensures Mirror(Reset(c, status).0)
  {
    var r := Reset(c, status).0;
    var pre := c.bus + [Transfer(Dev, Encode(RegRst, 0))];
    assert forall k :: 0 <= k < |pre| ==> |pre[k].data| == 2 by {
      forall k | 0 <= k < |pre|
        ensures |pre[k].data| == 2
      {
        if k < |c.bus| {
          assert pre[k] == c.bus[k];
        }
      }
    }
    LoadedWellFormed(pre, NumRegs);
    InitNineBit();
    forall i: bv8 | i < NumRegs
      ensures r.shadow[i] == LastSent(r.bus, i)
    {
      LoadLast(pre, i, NumRegs);
    }
  }

  /** The initial values fit the 9-bit register format. */
  lemma InitNineBit()
    ensures forall i: bv8 :: i < NumRegs ==> InitData[i] < 0x200
  {
    assert forall i :: 0 <= i < |InitData| ==> InitData[i] < 0x200;
  }

  /**
   * After the loads of registers 0..n-1, register i < n was last sent
   * InitData[i].
   */
  lemma {:induction false} LoadLast(pre: seq<Transfer>, i: bv8, n: bv8)
    requires forall k :: 0 <= k < |pre| ==> |pre[k].data| == 2
    requires i < n <= NumRegs
    ensures forall k :: 0 <= k < |Loaded(pre, n)| ==> |Loaded(pre, n)[k].data| == 2
    ensures LastSent(Loaded(pre, n), i) == InitData[i]
    decreases n
  {
    var b := Loaded(pre, n);
    InitNineBit();
    EncodeDecode(n - 1, InitData[n - 1]);
    assert b[|b| - 1] == Load(n - 1);
    assert b[..|b| - 1] == Loaded(pre, n - 1);
    if i < n - 1 {
      LoadLast(pre, i, n - 1);
    } else {
      LoadedWellFormed(pre, n - 1);
    }
  }

  lemma {:induction false} LoadedWellFormed(pre: seq<Transfer>, n: bv8)
    requires forall k :: 0 <= k < |pre| ==> |pre[k].data| == 2
    requires n <= NumRegs
    ensures forall k :: 0 <= k < |Loaded(pre, n)| ==> |Loaded(pre, n)[k].data| == 2
    decreases n
  {
    if n > 0 {
      LoadedWellFormed(pre, n - 1);
    }
  }
}
