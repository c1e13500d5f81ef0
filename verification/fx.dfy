/**
 * The effects library (fx.c): a registry of three algorithms, the instance
 * of the active one built in a shared arena, and the switch between them.
 *
 * The registry's function pointers become a closed datatype `Algo`; the
 * untyped instance pointer becomes `Instance`, one case per algorithm. The
 * arena is shared: the VCA record overlaps only the delay effect's record,
 * so the delay-line region keeps whatever the last delay instance left in
 * it, and `line` holds that region while no delay instance owns it.
 */
module Fx {
  import opened Ints
  import FxDefs
  import FxVca
  import FxCdl

  /** The entries of `effects`, in registry order. */
  datatype Algo = Bypass | Vca | ClnDly

  /** effects[i]. */
  function AlgoAt(i: int): (a: Algo)
    requires 0 <= i < FxDefs.NumAlgos
    ensures Index(a) == i
  {
    if i == 0 then Bypass else if i == 1 then Vca else ClnDly
  }

  /** The registry position of an algorithm. */
  function Index(a: Algo): (i: int)
    ensures 0 <= i < FxDefs.NumAlgos
  {
    match a
    case Bypass => 0
    case Vca => 1
    case ClnDly => 2
  }

  lemma IndexAlgoAt(a: Algo)
    ensures AlgoAt(Index(a)) == a
  {
  }

  /** The data part of an fx_struct: the name, the number of parameters shown, and the parameter names. */
  datatype Entry = Entry(name: string, parms: nat, parmNames: seq<string>)

  /** The registry: fx_bypass_struct, fx_vca_struct and fx_cdr_struct. */
  function Registry(a: Algo): (e: Entry)
    ensures 1 <= e.parms <= FxDefs.MaxParams && |e.parmNames| == FxDefs.MaxParams
  {
    match a
    case Bypass => Entry("Bypass", 3, ["p1    ", "p2    ", "p3    "])
    case Vca => Entry("VCA", 1, ["Gain  ", "", ""])
    case ClnDly => Entry("ClnDly", 3, ["DlyAmt", "Feedbk", "Range "])
  }

  /** The shown parameter names are non-empty and the algorithms have different names. */
  lemma RegistryShape(a: Algo, b: Algo)
    ensures forall i :: 0 <= i < Registry(a).parms ==> Registry(a).parmNames[i] != ""
    ensures a != b ==> Registry(a).name != Registry(b).name
    ensures Registry(a).parms == if a == Vca then 1 else 3
  {
  }

  /** The instance the untyped `fx` pointer refers to. */
  datatype Instance = BypassInst | VcaInst(vca: FxVca.VcaBlk) | CdlInst(cdl: FxCdl.Blk)

  /** Whether an instance is of the given algorithm's type. */
  predicate InstanceOf(inst: Instance, a: Algo)
  {
    match a
    case Bypass => inst.BypassInst?
    case Vca => inst.VcaInst?
    case ClnDly => inst.CdlInst?
  }

  /** fx_algo, fx and the delay-line region of fx_mem. */
  datatype State = State(algo: int, inst: Instance, line: seq<I16>)

  /**
   * The active index is legal; the instance is of the active algorithm's
   * type except while bypass is active (bypass ignores the instance, which is
   * how a switch can rebuild it); a delay instance owns the full region.
   */
  predicate Valid(st: State)
  {
    0 <= st.algo < FxDefs.NumAlgos
    && |st.line| == 2 * FxCdl.DelayLen
    && (st.algo != 0 ==> InstanceOf(st.inst, AlgoAt(st.algo)))
    && (st.inst.CdlInst? ==> FxCdl.Valid(st.inst.cdl) && st.inst.cdl.ctl.len == FxCdl.DelayLen)
  }

  /** The delay-line region as it is now: the delay instance's line while one exists. */
  function Line(st: State): (l: seq<I16>)
    requires Valid(st)
    ensures |l| == 2 * FxCdl.DelayLen
  {
    if st.inst.CdlInst? then st.inst.cdl.buf else st.line
  }

  /** effects[a]->init(fx_mem): build an instance over the region. */
  function InitInstance(a: Algo, line: seq<I16>): (inst: Instance)
    requires |line| == 2 * FxCdl.DelayLen
    ensures InstanceOf(inst, a)
    ensures inst.VcaInst? ==> inst.vca.gain == 0
    ensures inst.CdlInst? ==> FxCdl.Valid(inst.cdl) && inst.cdl.ctl.len == FxCdl.DelayLen && inst.cdl.buf == line
  {
    match a
    case Bypass => BypassInst
    case Vca => VcaInst(FxVca.Init())
    case ClnDly => CdlInst(FxCdl.CdrInit(line))
  }

  /** fx_init: bypass is active, over an arena whose contents are whatever memory held. */
  function Init(arena: seq<I16>): (st: State)
    requires |arena| == 2 * FxCdl.DelayLen
    ensures Valid(st) && st.algo == 0 && st.inst == BypassInst && st.line == arena
  {
    State(0, InitInstance(Bypass, arena), arena)
  }

  /** The steps of fx_select_algo, in order. */
  datatype Phase = ToBypass | Cleanup | Rebuild | Activate

  /** The state after one step of a switch to `algo`. */
  function SelectStep(st: State, algo: int, p: Phase): (r: State)
    requires Valid(st) && 0 <= algo < FxDefs.NumAlgos
    requires p != ToBypass ==> st.algo == 0
    requires p == Activate ==> InstanceOf(st.inst, AlgoAt(algo))
    ensures Valid(r)
    ensures Line(r) == Line(st)
  {
    match p
    // Audio_Set_Algo(&fx_algo, 0): bypass takes over the audio
    case ToBypass => st.(algo := 0)
    // every cleanup routine is fx_bypass_Cleanup, which does nothing
    case Cleanup => st
    // effects[algo]->init(fx_mem): the region is handed to the new instance
    case Rebuild => State(0, InitInstance(AlgoAt(algo), Line(st)), Line(st))
    // Audio_Set_Algo(&fx_algo, algo)
    case Activate => st.(algo := algo)
  }

  /**
   * fx_select_algo as the list of states it passes through: the state
   * before the call and after each step. An illegal index changes nothing.
   */
  function SelectTrace(st: State, algo: U8): (t: seq<State>)
    requires Valid(st)
    ensures |t| == if algo >= FxDefs.NumAlgos then 1 else 5
    ensures t[0] == st
  {
    if algo >= FxDefs.NumAlgos then [st]
    else
      var s1 := SelectStep(st, algo, ToBypass);
      var s2 := SelectStep(s1, algo, Cleanup);
      var s3 := SelectStep(s2, algo, Rebuild);
      var s4 := SelectStep(s3, algo, Activate);
      [st, s1, s2, s3, s4]
  }

  /** The state fx_select_algo leaves. */
  function SelectAlgo(st: State, algo: U8): (r: State)
    requires Valid(st)
    ensures Valid(r) && Line(r) == Line(st)
    ensures algo >= FxDefs.NumAlgos ==> r == st
    ensures algo < FxDefs.NumAlgos ==> r.algo == algo && r.inst == InitInstance(AlgoAt(algo), Line(st))
  {
    var t := SelectTrace(st, algo);
    t[|t| - 1]
  }

  /**
   * The switch order: an illegal index is a no-op; otherwise bypass is active
   * while the old instance is cleaned up and the new one is built, every state
   * on the way is valid (so an audio block may run between any two steps),
   * and the new algorithm is active at the end, over a fresh instance built in
   * the same region.
   */
  lemma SelectAlgoOrder(st: State, algo: U8)
    requires Valid(st)
    ensures algo >= FxDefs.NumAlgos ==> SelectAlgo(st, algo) == st
    ensures forall i :: 0 <= i < |SelectTrace(st, algo)| ==> Valid(SelectTrace(st, algo)[i])
    ensures algo < FxDefs.NumAlgos ==>
      (forall i :: 1 <= i < 4 ==> SelectTrace(st, algo)[i].algo == 0)
      && SelectTrace(st, algo)[2] == SelectTrace(st, algo)[1]
      && SelectAlgo(st, algo).algo == algo
      && SelectAlgo(st, algo).inst == InitInstance(AlgoAt(algo), Line(st))
  {
  }

  /** The region survives a switch: a delay instance built later sees what the last one left. */
  lemma SelectKeepsLine(st: State, algo: U8)
    requires Valid(st)
    ensures Line(SelectAlgo(st, algo)) == Line(st)
  {
  }

  /**
   * fx_bypass_Proc: two zeros per frame, whatever the input; the instance is
   * not used.
   */
  method BypassProc(sz: U16) returns (dst: seq<I16>)
    ensures |dst| == 2 * sz
    ensures forall i :: 0 <= i < |dst| ==> dst[i] == 0
  {
    dst := [];
    var n := sz;
    while n > 0
      invariant 0 <= n <= sz
      invariant |dst| == 2 * (sz - n)
      invariant forall i :: 0 <= i < |dst| ==> dst[i] == 0
    {
      dst := dst + [0, 0];
      n := n - 1;
    }
  }

  /**
   * fx_proc: run `effects[fx_algo]->proc` on the instance. `param` is the
   * ADC parameter table the effects read their knobs from. The VCA divides by
   * the frame count, so it needs at least one frame.
   */
  method Proc(st: State, param: seq<I16>, src: seq<I16>, sz: U16) returns (dst: seq<I16>, r: State)
    requires Valid(st) && |param| == 4 && |src| == 2 * sz
    requires st.algo == 1 ==> sz >= 1
    ensures Valid(r) && r.algo == st.algo && r.line == st.line && |dst| == 2 * sz
    ensures st.algo == 0 ==> r == st && forall i :: 0 <= i < |dst| ==> dst[i] == 0
    ensures st.algo == 1 ==>
      dst == FxVca.Render(src, st.inst.vca.gain, FxVca.Slope(st.inst.vca.gain, param[1], sz), sz)
      && r.inst == VcaInst(FxVca.VcaBlk(FxVca.GainAt(st.inst.vca.gain, FxVca.Slope(st.inst.vca.gain, param[1], sz), sz)))
    ensures st.algo == 2 ==> r.inst == CdlInst(FxCdl.Proc(st.inst.cdl, param, src, sz).0) && dst == FxCdl.Proc(st.inst.cdl, param, src, sz).1
  {
    match AlgoAt(st.algo)
    case Bypass =>
      dst := BypassProc(sz);
      r := st;
    case Vca =>
      var v;
      dst, v := FxVca.Proc(st.inst.vca, param[1], src, sz);
      r := st.(inst := VcaInst(v));
    case ClnDly =>
      var b := st.inst.cdl;
      var p := FxCdl.Proc(b, param, src, sz);
      FxCdl.CtlFramesWptr(FxCdl.UpdateDelay(b, param).ctl, sz);
      dst := p.1;
      r := st.(inst := CdlInst(p.0));
  }

  /** fx_get_algo. */
  function GetAlgo(st: State): (a: int)
    requires Valid(st)
    ensures 0 <= a < FxDefs.NumAlgos && a == st.algo
  {
    st.algo
  }

  /** fx_get_num_parms: the active entry's parameter count. */
  function GetNumParms(st: State): (n: nat)
    requires Valid(st)
    ensures 1 <= n <= FxDefs.MaxParams
    ensures n == Registry(AlgoAt(st.algo)).parms
  {
    Registry(AlgoAt(st.algo)).parms
  }

  /** fx_get_algo_name. */
  function GetAlgoName(st: State): (s: string)
    requires Valid(st)
    ensures s == Registry(AlgoAt(st.algo)).name
  {
    Registry(AlgoAt(st.algo)).name
  }

  /** fx_get_parm_name: the table has three entries, so the index must be below 3. */
  function GetParmName(st: State, idx: U8): (s: string)
    requires Valid(st) && idx < FxDefs.MaxParams
    ensures s == Registry(AlgoAt(st.algo)).parmNames[idx]
  {
    Registry(AlgoAt(st.algo)).parmNames[idx]
  }

  /** The getters after a switch describe the selected algorithm. */
  lemma SelectThenGet(st: State, algo: U8)
    requires Valid(st) && algo < FxDefs.NumAlgos
    ensures GetAlgo(SelectAlgo(st, algo)) == algo
    ensures GetNumParms(SelectAlgo(st, algo)) == Registry(AlgoAt(algo)).parms
    ensures GetAlgoName(SelectAlgo(st, algo)) == Registry(AlgoAt(algo)).name
  {
    SelectAlgoOrder(st, algo);
  }

  /**
   * fx_bypass_Render_Parm, used by bypass and the VCA: nothing for slot 0,
   * otherwise the parameter as a percentage (C division by 41).
   */
  function BypassRender(param: seq<I16>, idx: U8): (s: FxCdl.Shown)
    requires |param| == 4 && idx < 4
    ensures idx == 0 <==> s == FxCdl.Nothing
    ensures idx != 0 ==> s.Percent? && -800 <= s.pct <= 799
    ensures idx != 0 && 0 <= param[idx] <= 0xFFF ==> 0 <= s.pct <= 99
  {
    if idx == 0 then FxCdl.Nothing else FxCdl.Percent(TDiv(param[idx], 41))
  }

  /** fx_render_parm: the active entry's renderer. */
  function RenderParm(st: State, param: seq<I16>, idx: U8): (s: FxCdl.Shown)
    requires Valid(st) && |param| == 4 && idx < 4
    ensures st.algo != 2 ==> s == BypassRender(param, idx)
    ensures st.algo == 2 ==> s == FxCdl.RenderParm(st.inst.cdl.ctl, param, idx)
  {
    match AlgoAt(st.algo)
    case Bypass => BypassRender(param, idx)
    case Vca => BypassRender(param, idx)
    case ClnDly => FxCdl.RenderParm(st.inst.cdl.ctl, param, idx)
  }

  /**
   * Selecting the delay never lets the previous contents of the region reach
   * the output: from two states whose regions differ, the selected delay
   * produces the same output for every series of calls.
   */
  lemma SelectDelayIgnoresArena(st1: State, st2: State, calls: seq<FxCdl.Call>)
    requires Valid(st1) && Valid(st2) && FxCdl.WellFormed(calls)
    ensures SelectAlgo(st1, 2).inst.CdlInst? && SelectAlgo(st2, 2).inst.CdlInst?
    ensures FxCdl.RunCalls(SelectAlgo(st1, 2).inst.cdl, calls) == FxCdl.RunCalls(SelectAlgo(st2, 2).inst.cdl, calls)
  {
    SelectAlgoOrder(st1, 2);
    SelectAlgoOrder(st2, 2);
    FxCdl.StaleArenaIsSilent(Line(st1), Line(st2), 4, calls);
  }
}
