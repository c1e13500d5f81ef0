/**
 * The two request/acknowledge handshakes of audio.c as a transition system.
 *
 * A caller on the user-interface core runs Audio_Set_Algo or Audio_Set_Mute;
 * the audio core runs Audio_Fore between blocks and Audio_Proc once per
 * block. Each token moves 0 -> 1 (the caller posts a request), 1 -> 2 (the
 * foreground task serves it) and 2 -> 0 (the caller takes the
 * acknowledgement). The busy-wait loops of the callers become program
 * counters; a step of a waiting caller whose condition does not hold changes
 * nothing. Any interleaving of the events below is a possible run.
 */
module AudioSync {
  import opened Ints
  import Audio
  import FxCdl

  /** Where Audio_Set_Algo is: not running, spinning until the token is free, or spinning until it is acknowledged. */
  datatype AlgoPc = AIdle | AWaitFree(next: U8) | AWaitAck(next: U8)

  /**
   * Where Audio_Set_Mute is: not running, about to compare with the current
   * state, spinning until the token is free, until it is acknowledged, or
   * until the ramp has finished.
   */
  datatype MutePc =
    | MIdle
    | MCheck(enable: U8)
    | MWaitFree(enable: U8)
    | MWaitAck(enable: U8)
    | MWaitRamp(enable: U8)

  /** The shared audio state, `fx_algo` (the only variable the algorithm request ever points at), and both callers. */
  datatype Sys = Sys(a: Audio.Audio, algo: int, apc: AlgoPc, mpc: MutePc)

  datatype Event =
    | CallAlgo(next: U8)  // Audio_Set_Algo(&fx_algo, next) is entered
    | AlgoCaller          // one step of Audio_Set_Algo
    | CallMute(enable: U8) // Audio_Set_Mute(enable) is entered
    | MuteCaller          // one step of Audio_Set_Mute
    | ForeRun             // one pass of Audio_Fore
    | Block(frames: nat)  // one Audio_Proc call over this many frames

  /** The system after Audio_Init, with neither caller running. */
  function Start(arena: seq<I16>): (s: Sys)
    requires |arena| == 2 * FxCdl.DelayLen
  {
    Sys(Audio.Init(arena).0, Audio.Init(arena).1.algo, AIdle, MIdle)
  }

  /** One step of Audio_Set_Algo. It touches only the algorithm token, its argument and its own position. */
  function AlgoStep(s: Sys): (r: Sys)
    ensures r == s.(a := s.a.(algoReq := r.a.algoReq, algoNext := r.a.algoNext), apc := r.apc)
    // the caller only posts on a free token and only clears an acknowledged one
    ensures r.a.algoReq != s.a.algoReq ==>
      (s.a.algoReq == 0 && r.a.algoReq == 1) || (s.a.algoReq == 2 && r.a.algoReq == 0)
  {
    match s.apc
    case AIdle => s
    case AWaitFree(v) =>
      if s.a.algoReq != 0 then s
      else s.(a := s.a.(algoNext := v, algoReq := 1), apc := AWaitAck(v))
    case AWaitAck(v) =>
      if s.a.algoReq != 2 then s
      else s.(a := s.a.(algoReq := 0), apc := AIdle)
  }

  /** One step of Audio_Set_Mute. It touches only the mute token, its argument and its own position. */
  function MuteStep(s: Sys): (r: Sys)
    ensures r == s.(a := s.a.(muteReq := r.a.muteReq, muteNext := r.a.muteNext), mpc := r.mpc)
    ensures r.a.muteReq != s.a.muteReq ==>
      (s.a.muteReq == 0 && r.a.muteReq == 1) || (s.a.muteReq == 2 && r.a.muteReq == 0)
    // the call returns at once when the argument equals the raw state
    ensures s.mpc.MCheck? ==> (r.mpc == MIdle <==> s.mpc.enable == s.a.mute.state)
    // and otherwise only once no ramp is running
    ensures s.mpc.MWaitRamp? && r.mpc == MIdle ==> s.a.mute.state != 1 && s.a.mute.state != 3
  {
    match s.mpc
    case MIdle => s
    case MCheck(e) =>
      if e == s.a.mute.state then s.(mpc := MIdle) else s.(mpc := MWaitFree(e))
    case MWaitFree(e) =>
      if s.a.muteReq != 0 then s
      else s.(a := s.a.(muteNext := e, muteReq := 1), mpc := MWaitAck(e))
    case MWaitAck(e) =>
      if s.a.muteReq != 2 then s
      else s.(a := s.a.(muteReq := 0), mpc := MWaitRamp(e))
    case MWaitRamp(e) =>
      if s.a.mute.state == 1 || s.a.mute.state == 3 then s else s.(mpc := MIdle)
  }

  function Step(s: Sys, ev: Event): (r: Sys)
    // only Audio_Proc moves the ramp, and only Audio_Fore starts one
    ensures !ev.Block? && !ev.ForeRun? ==> r.a.mute == s.a.mute
    // only Audio_Fore writes `fx_algo`
    ensures !ev.ForeRun? ==> r.algo == s.algo
  {
    match ev
    case CallAlgo(v) => if s.apc == AIdle then s.(apc := AWaitFree(v)) else s
    case AlgoCaller => AlgoStep(s)
    case CallMute(e) => if s.mpc == MIdle then s.(mpc := MCheck(e)) else s
    case MuteCaller => MuteStep(s)
    case ForeRun => var f := Audio.Fore(s.a, s.algo); s.(a := f.0, algo := f.1)
    case Block(n) => s.(a := s.a.(mute := Audio.MuteRun(s.a.mute, n)))
  }

  /** A token only ever moves 0 -> 1 -> 2 -> 0, one step at a time. */
  predicate Cycles(before: int, after: int)
  {
    before == after || (before == 0 && after == 1) || (before == 1 && after == 2) || (before == 2 && after == 0)
  }

  lemma TokensCycle(s: Sys, ev: Event)
    ensures Cycles(s.a.algoReq, Step(s, ev).a.algoReq)
    ensures Cycles(s.a.muteReq, Step(s, ev).a.muteReq)
  {
  }

  /** The events applied in order. */
  function Run(s: Sys, evs: seq<Event>): (r: Sys)
    decreases |evs|
  {
    if evs == [] then s else Run(Step(s, evs[0]), evs[1..])
  }

  /** The ramp states a mute call with this argument can leave behind: closing or muted for 1, opening or open for 0. */
  predicate Toward(enable: int, state: int)
  {
    if enable == 1 then state == 1 || state == 2
    else if enable == 0 then state == 3 || state == 0
    else state == 0 || state == 2
  }

  /**
   * The invariant of the protocol: each token is 0 while its caller is not
   * waiting on it; a posted algorithm request names the caller's argument
   * and, once acknowledged, has been carried out; a ramp runs only while a
   * mute caller waits, and toward the state the caller asked for.
   */
  predicate Inv(s: Sys)
  {
    && Audio.MuteInv(s.a.mute)
    && (!s.apc.AWaitAck? ==> s.a.algoReq == 0)
    && (s.apc.AWaitAck? ==>
          && s.a.algoNext == s.apc.next
          && (s.a.algoReq == 1 || (s.a.algoReq == 2 && s.algo == s.apc.next)))
    && (!s.mpc.MWaitAck? ==> s.a.muteReq == 0)
    && (s.mpc.MIdle? || s.mpc.MCheck? || s.mpc.MWaitFree? ==> s.a.mute.state == 0 || s.a.mute.state == 2)
    && (s.mpc.MWaitAck? ==>
          && s.a.muteNext == s.mpc.enable
          && ((s.a.muteReq == 1 && (s.a.mute.state == 0 || s.a.mute.state == 2))
              || (s.a.muteReq == 2 && Toward(s.mpc.enable, s.a.mute.state))))
    && (s.mpc.MWaitRamp? ==> Toward(s.mpc.enable, s.a.mute.state))
  }

  lemma StartInv(arena: seq<I16>)
    requires |arena| == 2 * FxCdl.DelayLen
    ensures Inv(Start(arena))
    ensures Start(arena).algo == 0 && Start(arena).a.mute.state == 2
  {
  }

  /** Frames of audio keep a ramp heading where it was heading. */
  lemma {:induction false} RunToward(m: Audio.Mute, e: int, n: nat)
    requires Audio.MuteInv(m) && Toward(e, m.state)
    ensures Toward(e, Audio.MuteRun(m, n).state)
    decreases n
  {
    if n > 0 {
      RunToward(m, e, n - 1);
      Audio.MuteRunInv(m, n - 1);
    }
  }

  /** Every event, in any interleaving, keeps the invariant. */
  lemma StepInv(s: Sys, ev: Event)
    requires Inv(s)
    ensures Inv(Step(s, ev))
  {
    match ev
    case Block(n) =>
      Audio.MuteRunInv(s.a.mute, n);
      if s.mpc.MWaitAck? || s.mpc.MWaitRamp? {
        if s.a.mute.state == 0 || s.a.mute.state == 2 {
          Audio.MuteRunRests(s.a.mute, n);
        } else {
          RunToward(s.a.mute, s.mpc.enable, n);
        }
      } else {
        Audio.MuteRunRests(s.a.mute, n);
      }
    case ForeRun =>
      Audio.ForeInv(s.a, s.algo);
    case _ =>
  }

  lemma {:induction false} RunInv(s: Sys, evs: seq<Event>)
    requires Inv(s)
    ensures Inv(Run(s, evs))
    decreases |evs|
  {
    if evs != [] {
      StepInv(s, evs[0]);
      RunInv(Step(s, evs[0]), evs[1..]);
    }
  }

  /**
   * Safety of Audio_Set_Algo: when the caller returns, `fx_algo` holds its
   * argument.
   */
  lemma AlgoReturns(s: Sys)
    requires Inv(s) && s.apc.AWaitAck? && AlgoStep(s).apc == AIdle
    ensures AlgoStep(s).algo == s.apc.next
  {
  }

  /**
   * Safety of Audio_Set_Mute: a call with argument 0 or 1 returns with the
   * mute machine at rest in the state asked for, open (0) or muted (2).
   */
  lemma MuteReturns(s: Sys)
    requires Inv(s) && (s.mpc.MCheck? || s.mpc.MWaitRamp?) && s.mpc.enable <= 1
    requires MuteStep(s).mpc == MIdle
    ensures MuteStep(s).a.mute.state == 2 * s.mpc.enable
  {
  }

  /** `k` Audio_Proc calls of `f` frames each. */
  function Blocks(k: nat, f: nat): (evs: seq<Event>)
    ensures |evs| == k
    ensures forall i :: 0 <= i < k ==> evs[i] == Block(f)
  {
    if k == 0 then [] else [Block(f)] + Blocks(k - 1, f)
  }

  lemma {:induction false} RunAppend(s: Sys, x: seq<Event>, y: seq<Event>)
    ensures Run(s, x + y) == Run(Run(s, x), y)
    decreases |x|
  {
    if x != [] {
      assert (x + y)[0] == x[0] && (x + y)[1..] == x[1..] + y;
      RunAppend(Step(s, x[0]), x[1..], y);
    } else {
      assert x + y == y;
    }
  }

  /** k blocks of f frames advance the mute machine by k * f frames and change nothing else. */
  lemma {:induction false} RunBlocks(s: Sys, k: nat, f: nat)
    ensures Run(s, Blocks(k, f)) == s.(a := s.a.(mute := Audio.MuteRun(s.a.mute, k * f)))
    decreases k
  {
    if k > 0 {
      var t := Step(s, Block(f));
      assert Blocks(k, f)[1..] == Blocks(k - 1, f);
      RunBlocks(t, k - 1, f);
      Audio.MuteRunAdd(s.a.mute, f, (k - 1) * f);
      assert f + (k - 1) * f == k * f;
    }
  }

  /**
   * Progress of Audio_Set_Algo: once the token is free, the caller, one
   * foreground pass and the caller again complete the change.
   */
  lemma AlgoCompletes(s: Sys)
    requires Inv(s) && s.apc.AWaitFree?
    ensures Run(s, [AlgoCaller, ForeRun, AlgoCaller]).apc == AIdle
    ensures Run(s, [AlgoCaller, ForeRun, AlgoCaller]).algo == s.apc.next
  {
    var s1 := Step(s, AlgoCaller);
    var s2 := Step(s1, ForeRun);
    var s3 := Step(s2, AlgoCaller);
    assert Run(s, [AlgoCaller, ForeRun, AlgoCaller]) == Run(s3, []);
  }

  /** The mute caller's schedule: post, one foreground pass, take the acknowledgement, k blocks of f frames, return. */
  function MuteSchedule(k: nat, f: nat): (evs: seq<Event>)
    ensures |evs| == k + 5
  {
    [MuteCaller, MuteCaller, ForeRun, MuteCaller] + Blocks(k, f) + [MuteCaller]
  }

  /** A ramp of length r that the foreground task starts toward `2 * e` has settled there after n >= r frames. */
  lemma Settles(m: Audio.Mute, e: int, r: nat, n: nat)
    requires r == Audio.RampLen <= n && 0 <= e <= 1
    requires m == Audio.Mute(2 * e, 0) || (e == 1 && m == Audio.Mute(1, r)) || (e == 0 && m == Audio.Mute(3, 0))
    ensures Audio.MuteRun(m, n) == Audio.Mute(2 * e, 0)
  {
    Audio.MuteRunAdd(m, r, n - r);
    if m == Audio.Mute(1, r) {
      Audio.ClosingRamp(r, r);
    } else if m == Audio.Mute(3, 0) {
      Audio.OpeningRamp(0, r);
    } else {
      Audio.MuteRunRests(m, r);
    }
    Audio.MuteRunRests(Audio.Mute(2 * e, 0), n - r);
  }

  /** The caller's first four steps around one foreground pass: either it has returned, or a ramp that settles as asked within n >= 512 frames is running. */
  lemma MuteHead(s: Sys, r: nat, n: nat)
    requires Inv(s) && s.mpc.MCheck? && s.mpc.enable <= 1 && r == Audio.RampLen <= n
    ensures var t := Run(s, [MuteCaller, MuteCaller, ForeRun, MuteCaller]);
      && (t.mpc == MIdle || t.mpc == MWaitRamp(s.mpc.enable))
      && Audio.MuteRun(t.a.mute, n) == Audio.Mute(2 * s.mpc.enable, 0)
  {
    var e := s.mpc.enable;
    var t := Step(Step(Step(Step(s, MuteCaller), MuteCaller), ForeRun), MuteCaller);
    assert Run(s, [MuteCaller, MuteCaller, ForeRun, MuteCaller]) == Run(t, []);
    if e == s.a.mute.state {
      assert t.mpc == MIdle && t.a.mute == s.a.mute;
    } else if s.a.mute.state == 0 {
      assert t.a.mute == Audio.Mute(1, r);
    } else if e == 0 {
      assert t.a.mute == Audio.Mute(3, 0);
    } else {
      assert t.a.mute == s.a.mute;
    }
    Settles(t.a.mute, e, r, n);
  }

  /**
   * Progress of Audio_Set_Mute with argument 0 or 1: from the comparison,
   * any k blocks of f frames that add up to at least the 512 frames of a
   * ramp (16 blocks of 32 frames, say) bring the caller back with the
   * machine at rest where asked.
   */
  lemma MuteCompletes(s: Sys, k: nat, f: nat)
    requires Inv(s) && s.mpc.MCheck? && s.mpc.enable <= 1 && k * f >= Audio.RampLen
    ensures Run(s, MuteSchedule(k, f)).mpc == MIdle
    ensures Run(s, MuteSchedule(k, f)).a.mute.state == 2 * s.mpc.enable
  {
    var head := [MuteCaller, MuteCaller, ForeRun, MuteCaller];
    var blocks := Blocks(k, f);
    RunAppend(s, head + blocks, [MuteCaller]);
    RunAppend(s, head, blocks);
    MuteHead(s, Audio.RampLen, k * f);
    var t := Run(s, head);
    RunBlocks(t, k, f);
    var u := Run(t, blocks);
    assert Run(u, [MuteCaller]) == MuteStep(u);
  }
}
