# RP2040_Audio core, modelled in Dafny

A model of the signal path, the control logic and the peripheral
arithmetic of the RP2040_Audio effects unit firmware. The firmware runs a
stereo audio stream through one of three effects: bypass, a VCA and a clean
delay. A knob reading sets the wet/dry mix, and a 512-frame ramp mutes and
unmutes the output. The user-interface core changes the algorithm and the
mute state through two request/acknowledge tokens. Settings are kept in a
tag store in flash. The model also covers the WM8731 codec's control port
and the arithmetic of the ST7735 display and its graphics library.

One Dafny module stands for each C source file:

| module | file | what it holds |
|---|---|---|
| `Ints` | (C conventions) | `int16_t`/`uint8_t`/`uint16_t`/`uint32_t` ranges, wrap-around on assignment, truncating `/`, shifts |
| `Dsp` | `dsp_lib.h`, `dsp_lib.c` | `dsp_ssat16`, `dsp_gethyst`, `dsp_ratio_hyst_arb` |
| `CircBuf` | `circbuf.c` | the int16 ring buffer |
| `Adc` | `adc.c` | the conversion handler as `Step(state, raw)`, the IIR filter, the hysteresis machine, the setters |
| `FxDefs`, `FxVca`, `FxCdl`, `Fx` | `fx.h`, `fx_vca.c`, `fx_cdl.c`, `fx.c` | the effects, the registry as a closed datatype, the switch sequence in the shared arena |
| `Audio` | `audio.c`, `audio.h` | `Audio_Proc` (meters, mix, mute ramp), `Audio_Init`, `Audio_Fore` |
| `AudioSync` | `audio.c` | `Audio_Set_Algo` / `Audio_Set_Mute` against `Audio_Fore` and `Audio_Proc`, as a transition system over interleaved events |
| `Nvs` | `nvs.c` | the tag buffer, the backward lookup, the end-of-log scan, the non-full commit and the programming of its write page |
| `Wm8731` | `wm8731.c` | the two-byte register format, the shadow registers and the helpers |
| `St7735` | `st7735.c` | colour packing, rotation, window, pixel and rectangle clipping, the init-list walk |
| `Gfx` | `gfx.c` | HSV to RGB, the Bresenham line, rectangle normalisation, string placement, start-up |

Conventions:

- Integers are unbounded. Every C conversion that can lose bits is written
  out: `Wrap16` for an `int16_t` store, `ToU8`/`ToU16`/`ToU32` for the
  unsigned stores, `TDiv` for C's truncating division, and floor division by
  2^k for `>>` on a signed value. The codec driver works on `bv8`/`bv16`
  directly.
- Hardware is replaced by parameters or traces:
  - the transfer status of each I2C write is an input, and the attempted
    messages are appended to a bus trace;
  - the display's SPI traffic is a list of operations (command byte, data
    byte, pause, block of pixels);
  - flash is a sequence of 32-bit words;
  - the ADC reading is the argument of the handler's step.
- Concurrency is modelled as events. Each event is one step of a caller's
  busy-wait loop, one pass of `Audio_Fore`, or one `Audio_Proc` block, and
  any interleaving of events is a possible run.

## Model

| member | source | states |
|---|---|---|
| Dsp.Ssat16 | Firmware/dsp_lib.h:19-24 | a value already in the int16_t range passes unchanged; above 32767 gives 32767; below -32768 gives -32768 |
| Dsp.Ssat16Nearest | Firmware/dsp_lib.h:19-24 | the saturated value is the int16_t value nearest to the input |
| Dsp.Ssat16Monotone | Firmware/dsp_lib.h:19-24 | saturation is monotone non-decreasing |
| Dsp.Ssat16Idempotent | Firmware/dsp_lib.h:19-24 | saturating twice is saturating once |
| Dsp.GetHyst | Firmware/dsp_lib.c:14-33 | the flag is set exactly when the stored value changes, and a changed value is the new one |
| Dsp.GetHystIgnoresSmallMoves | Firmware/dsp_lib.c:17-22 | a move of at most 16 counts, away from 0 and 4095, returns 0 and keeps the stored value |
| Dsp.GetHystTakesLargeMoves | Firmware/dsp_lib.c:17-29 | a move of more than 16 counts (that does not wrap the int16_t difference) is always taken and flagged |
| Dsp.GetHystEndPoints | Firmware/dsp_lib.c:22-29 | at 0 or 4095 any difference is taken, and it is flagged iff the stored value differed |
| Dsp.GetHystIdempotent | Firmware/dsp_lib.c:25-29 | a second call with the same new value reports no change |
| Dsp.Scale | Firmware/dsp_lib.c:44 | the bucket width 4096 / range is between 16 and 4096 and range buckets cover at most 4096 counts |
| Dsp.Guard | Firmware/dsp_lib.c:48-49 | the guard band is at least 1, at most two thirds of a bucket and at least half a bucket |
| Dsp.Bucket | Firmware/dsp_lib.c:45-73 | the rounded bucket (in + rnd) / scale lies within half a bucket width of the input |
| Dsp.RatioHystArb | Firmware/dsp_lib.c:38-78 | an unchanged result keeps the stored bucket; a changed one is the input's rounded bucket |
| Dsp.RatioHystArbEndPoints | Firmware/dsp_lib.c:51-62 | at in 0 or 0xFFF the bucket (in + rnd) / scale is stored, and 1 is returned iff it differs from the old one |
| Dsp.RatioHystArbGuardBand | Firmware/dsp_lib.c:64-75 | elsewhere (and while old * scale fits an int16_t) the bucket changes iff abs(old * scale - in) exceeds the guard, and then becomes the rounded bucket |
| Dsp.RatioHystArbChangeIsReal | Firmware/dsp_lib.c:51-75 | for 12-bit inputs a reported change always stores a different bucket, and no change keeps it |
| Dsp.RatioHystArbIdempotent | Firmware/dsp_lib.c:55-75 | a second call with the same input returns 0 |
| Dsp.RatioHystArbRange2Bound | Firmware/dsp_lib.c:44-75 | with range 2 every 16-bit input keeps a stored bucket of at most 32 within 32 |
| Dsp.RatioHystArbThreeWay | Firmware/fx_cdl.c:100 | with range 2, as the delay-range selector calls it, a 12-bit input keeps the stored bucket within 0..2 |
| CircBuf.Clear | Firmware/circbuf.c:22-28 | every slot becomes 0, the length stays and the pointer returns to 0 |
| CircBuf.Init | Firmware/circbuf.c:14-19 | the adopted array, of the given length, is all zeros with the pointer at 0 |
| CircBuf.Put | Firmware/circbuf.c:31-39 | the pointer advances by one modulo len (so stays in [0, len)), the new sample sits under it, and no other slot changes |
| CircBuf.Slot | Firmware/circbuf.c:44-46 | the index ptr - offset, with len added once when negative, is (ptr - offset) mod len and always in bounds |
| CircBuf.Get | Firmware/circbuf.c:42-49 | get returns the slot (ptr - offset) mod len |
| CircBuf.Set | Firmware/circbuf.c:52-58 | set writes the slot (ptr - offset) mod len, changes no other slot and never the pointer |
| CircBuf.ValidAddressable | Firmware/circbuf.c:44-48 | every offset in [0, len) of a valid buffer stays inside the array |
| CircBuf.PutGet | Firmware/circbuf.c:31-49 | get(0) right after put(x) returns x |
| CircBuf.PutShift | Firmware/circbuf.c:31-49 | a put moves every older sample one offset further back |
| CircBuf.SetGet | Firmware/circbuf.c:42-58 | set(x, off) followed by get(off) returns x, and the pointer is unchanged |
| CircBuf.SetOther | Firmware/circbuf.c:42-58 | set at one offset leaves every other offset's sample as it was |
| CircBuf.PutAll | Firmware/circbuf.c:31-39 | after n puts the pointer has advanced by n modulo len |
| CircBuf.PutAllHistory | Firmware/circbuf.c:31-49 | after at most len puts, get(k) returns the value put k calls before the last one |
| Adc.Invert | Firmware/adc.c:61 | `0xfff ^ raw` complements the low twelve bits and keeps the upper four; a 12-bit reading becomes 4095 - raw |
| Adc.Filter | Firmware/adc.c:61 | the accumulator moves toward the target (inverted reading << 6) without overshooting, and stays put exactly when the remaining distance is below one step |
| Adc.Hysteresis | Firmware/adc.c:64-83 | reset captures ADC_val[0] and locks; locked unlocks to tracking iff abs(val - captured) > 200 and never returns to reset; tracking writes ADC_val[0] into the active slot only |
| Adc.Step | Firmware/adc.c:27-93 | the handler filters only the slot `ADC_idx` names, sets its value to acc >> 6, runs the hysteresis only for value slot 0, flips the slot index, and writes no slot but the active one and only while tracking |
| Adc.Run | Firmware/adc.c:27-93 | a run of handler calls keeps the state well formed, never changes the active slot index, and strictly alternates the inputs: after n samples the input index has moved n places modulo 2 |
| Adc.FilterInRange | Firmware/adc.c:61-62 | with a 12-bit reading and an accumulator in [0, 4095 << 6] the accumulator stays in range and its value acc >> 6 lies in [0, 4095] |
| Adc.StepInRange | Firmware/adc.c:61-62 | one handler call over a 12-bit reading keeps accumulators and values in range |
| Adc.RunInRange | Firmware/adc.c:61-62 | every run over 12-bit readings keeps accumulators and values in range |
| Adc.RunLockedKeepsParams | Firmware/adc.c:79-81 | as long as the machine never reaches tracking, no run writes the parameter table |
| Adc.Init | Firmware/adc.c:98-107 | both accumulators and values become 0 and the state, the active slot and the input index are reset; the parameter table is not touched |
| Adc.SetActParam | Firmware/adc.c:163-176 | an index >= 4 or equal to the active one is a complete no-op; otherwise the slot is selected and the machine reset |
| Adc.SetParamVal | Firmware/adc.c:181-187 | a slot below 4 receives the value and no other slot changes; an index >= 4 is a no-op |
| Adc.ForceActParam | Firmware/adc.c:192-195 | the machine goes to tracking and nothing else changes |
| Adc.ForceThenStep | Firmware/adc.c:79-195 | after a forced track the next conversion stored in value slot 0 writes its filtered value into the active slot |
| Adc.SelectThenStep | Firmware/adc.c:69-176 | after selecting another parameter slot the next conversion stored in value slot 0 only captures the reading and leaves the table alone |
| FxVca.Init | Firmware/fx_vca.c:23-33 | the slewed gain starts at 0 |
| FxVca.Slope | Firmware/fx_vca.c:45-46 | the per-frame step is (target - gain) / sz truncated toward zero, which fits the int16_t whenever sz >= 2 or the difference fits |
| FxVca.QuotientFits | Firmware/fx_vca.c:46 | the truncated quotient is no larger than the difference, and fits an int16_t once sz >= 2 |
| FxVca.GainAtClosed | Firmware/fx_vca.c:55 | the gain after k int16_t additions of the slope is gain + k * slope reduced to an int16_t |
| FxVca.Scale | Firmware/fx_vca.c:51-54 | a sample times gain 4096 (unity) passes unchanged, and gain 0 silences it |
| FxVca.Render | Firmware/fx_vca.c:49-56 | frame k of the output scales both input samples of frame k by the same gain, the gain after k slope steps |
| FxVca.Proc | Firmware/fx_vca.c:38-57 | exactly 2 * sz outputs, frame k scaled by gain_old + k steps (so the first frame uses the previous block's gain), and the block ends with the gain after sz steps |
| FxVca.GainBetween | Firmware/fx_vca.c:46-56 | while the slope does not wrap, every gain of the block equals gain_old + k * slope and lies between gain_old and the target |
| FxVca.SlewEnd | Firmware/fx_vca.c:46-55 | the block ends less than sz away from the target, and exactly on it iff sz divides the difference |
| FxVca.GainAtNext | Firmware/fx_vca.c:55 | one more int16_t addition of the slope is one more step of the closed form |
| FxCdl.CommonInit | Firmware/fx_cdl.c:43-69 | type = type >> 2, rng = 1 + (type & 3), rng_raw 0, len (FX_MAX_MEM - 48) / 4 = 33012 frames, first-lap flag set, wptr 0, roff1 1, roff2 0, no cross-fade, xflen 2048, dly 0, DC and feedback state 0; the arena is adopted uncleared |
| FxCdl.CdrInit | Firmware/fx_cdl.c:74-77 | the range variant is type 1 with rng 1 and the first-lap flag set |
| FxCdl.DelayTarget | Firmware/fx_cdl.c:108-109 | the tap offset (dly << rng) + 1, as a uint32_t, clamped to len - 2, is never 0 and never beyond len - 2, and is the unclamped value when that fits |
| FxCdl.UpdateDelay | Firmware/fx_cdl.c:92-112 | nothing happens while a cross-fade runs; otherwise the range variant re-quantises slot 3 (rng = 1 + rng_raw) and the delay knob goes through the hysteresis. A knob move past the hysteresis, or a new range bucket in the range variant, sets roff2 to the clamped delay target and starts a full 2048-step cross-fade; without either, roff2, the counter and the delay stay as they were |
| FxCdl.ReadIndex | Firmware/fx_cdl.c:127-141 | a tap index is always inside the line, and a tap with offset >= 1 never reads the slot being written |
| FxCdl.ReadIndexMod | Firmware/fx_cdl.c:127-129 | the tap index is (wptr - roff) modulo len |
| FxCdl.Tap | Firmware/fx_cdl.c:130-144 | on the first lap a tap at or after the write pointer gives 0; otherwise it reads its slot |
| FxCdl.Xfade | Firmware/fx_cdl.c:142-145 | the cross-fade of two taps with weights summing to 2048 lies between the taps, and is the main tap at the start and the new tap at the end |
| FxCdl.WriteValue | Firmware/fx_cdl.c:123-124 | the delay-line sample ssat16(((x << 12) + fb * fb_lvl) >> 12) is the input itself when the feedback or its level is 0 |
| FxCdl.DcBlock | Firmware/fx_cdl.c:157-159 | the accumulator stays within 256 times the 16-bit range, the feedback is the saturated difference mix = out - (dcb >> 8), and a settled accumulator feeds back nothing |
| FxCdl.CtlChannel | Firmware/fx_cdl.c:136-154 | during a cross-fade the counter drops by one per channel sample and the main tap takes roff2 exactly when it reaches 0; nothing else changes |
| FxCdl.CtlAdvance | Firmware/fx_cdl.c:166-171 | the write pointer advances modulo len, and the first-lap flag drops exactly when it wraps |
| FxCdl.ChannelOut | Firmware/fx_cdl.c:126-154 | without a cross-fade the output is the main tap; during one it lies between the main and the new tap |
| FxCdl.ChannelStep | Firmware/fx_cdl.c:120-163 | the input plus feedback goes to slot 2 * wptr + chl and nowhere else, the output reads the line after that write, and only this channel's DC and feedback state change |
| FxCdl.Channels | Firmware/fx_cdl.c:120-163 | the channel loop produces one output per channel and applies the cross-fade bookkeeping once per channel |
| FxCdl.FrameStep | Firmware/fx_cdl.c:118-172 | one frame applies the bookkeeping of two channel samples and then advances the write pointer |
| FxCdl.Frames | Firmware/fx_cdl.c:118-172 | the frame loop writes one output per input, and its scalar fields follow their own schedule whatever the audio |
| FxCdl.Proc | Firmware/fx_cdl.c:82-173 | the process call writes exactly 2 * sz outputs, and its scalar fields are the parameter update followed by sz frames of the schedule |
| FxCdl.DelayMs | Firmware/fx_cdl.c:196-199 | the displayed delay is the same clamped offset as the tap, divided by 48 samples per ms |
| FxCdl.RenderParm | Firmware/fx_cdl.c:178-214 | slot 0 shows nothing, slot 1 the delay in ms, slot 3 the range index and the delay, slot 2 the parameter divided by 41 |
| FxCdl.DelayMsMatchesTap | Firmware/fx_cdl.c:108-199 | once a delay change is taken up, the displayed delay is the new tap offset in ms |
| FxCdl.CtlFramesWptr | Firmware/fx_cdl.c:166-167 | after n frames the write pointer has advanced by n modulo len |
| FxCdl.CtlFramesInit | Firmware/fx_cdl.c:169-171 | the first-lap flag is never set again and drops exactly when the write pointer first wraps |
| FxCdl.CtlFramesXfade | Firmware/fx_cdl.c:136-154 | while a cross-fade runs the counter drops by two per frame, roff2 never moves, and the main tap changes only when the counter reaches 0 |
| FxCdl.CtlFramesSteady | Firmware/fx_cdl.c:136 | without a cross-fade the frame loop leaves both taps alone |
| FxCdl.CrossfadeLength | Firmware/fx_cdl.c:136-154 | a cross-fade lasts 2048 channel samples: the main tap is still the old one before 1024 frames and the new one after exactly 1024 |
| FxCdl.ChannelStepAgree | Firmware/fx_cdl.c:120-163 | two blocks that differ only in unwritten slots produce the same channel output and keep agreeing |
| FxCdl.ChannelsAgree | Firmware/fx_cdl.c:120-163 | the channel loop preserves agreement on written slots and gives equal outputs |
| FxCdl.FrameStepAgree | Firmware/fx_cdl.c:118-172 | a frame preserves agreement on written slots and gives equal outputs |
| FxCdl.FramesAgree | Firmware/fx_cdl.c:118-172 | the frame loop preserves agreement on written slots and gives equal outputs |
| FxCdl.ProcAgree | Firmware/fx_cdl.c:82-173 | a process call preserves agreement on written slots and gives equal outputs |
| FxCdl.RunCalls | Firmware/fx_cdl.c:82-173 | a series of process calls gives one output block per call, each as long as its input |
| FxCdl.RunCallsAgree | Firmware/fx_cdl.c:82-173 | blocks that agree on written slots give the same outputs for every series of calls |
| FxCdl.StaleArenaIsSilent | Firmware/fx_cdl.c:55-144 | from a fresh instance the output of every series of calls is the same whatever the uncleared arena held |
| FxCdl.ShiftedIsOdd | Firmware/fx_cdl.c:108 | the tap offset (dly << rng) + 1 is odd, so it is never 0 even after the uint32_t wrap |
| FxCdl.WeightedBetween | Firmware/fx_cdl.c:142-145 | weights summing to 2048 keep the weighted sum between 2048 times the smaller and the larger tap |
| FxCdl.CtlFrame | Firmware/fx_cdl.c:136-171 | one frame's bookkeeping keeps the delay-line control fields well formed |
| FxCdl.CtlFrames | Firmware/fx_cdl.c:118-172 | any number of frames keeps the control fields well formed |
| FxCdl.SteadyChannel | Firmware/fx_cdl.c:120-163 | with no feedback, no cross-fade and the first lap over, a channel sample lands at the write pointer, the output is the main tap's slot, and the control fields stay put |
| FxCdl.ChannelsTwo | Firmware/fx_cdl.c:120-163 | the channel loop of a stereo frame is the left channel's step followed by the right one's |
| FxCdl.SteadyChannels | Firmware/fx_cdl.c:120-163 | under the same conditions both samples of a frame land at the write pointer and both outputs come from the main tap's frame as it was before the frame |
| FxCdl.SteadyFrame | Firmware/fx_cdl.c:118-172 | a steady frame writes the input frame at the write pointer, reads the main tap's old frame, and moves only the write pointer, by one modulo len |
| FxCdl.FramesAt | Firmware/fx_cdl.c:118-172 | output frame t of the frame loop is the first frame's output for t = 0 and frame t - 1 of the remaining frames otherwise |
| FxCdl.Behind | Firmware/fx_cdl.c:127-129 | the frame d behind the write pointer w, wrapping once around the line, is (w - d) mod len |
| FxCdl.DelayedShift | Firmware/fx_cdl.c:118-172 | the reference delay line seen one steady frame later, with that frame written and the write pointer moved, gives the same output frames |
| FxCdl.FirstOutput | Firmware/fx_cdl.c:118-172 | the first output frame of a steady block is the frame roff1 behind the write pointer, as the reference delay line says |
| FxCdl.NextSteady | Firmware/fx_cdl.c:118-172 | a steady frame leaves a steady block that carries the same reference delay line |
| FxCdl.FramesDelay | Firmware/fx_cdl.c:118-172 | with no feedback, no cross-fade and the first lap over, output frame t of the frame loop is input frame t - roff1 when t >= roff1, and otherwise the frame the line held roff1 - t frames behind the write pointer |
| FxCdl.ProcDelay | Firmware/fx_cdl.c:82-173 | a process call with the feedback knob at 0 and no cross-fade before or after the parameter update is a pure delay of roff1 frames in the same sense |
| Fx.AlgoAt | Firmware/fx.c:100-104 | effects[i] for i < 3, the inverse of the registry position |
| Fx.Index | Firmware/fx.c:100-104 | every algorithm has a registry position below FX_NUM_ALGOS |
| Fx.IndexAlgoAt | Firmware/fx.c:100-104 | registry position and entry are inverse to each other |
| Fx.Registry | Firmware/fx.c:85-94 | every entry shows between 1 and 3 parameters and has 3 parameter names |
| Fx.RegistryShape | Firmware/fx.c:85-104 | bypass and the delay show 3 parameters and the VCA 1, every shown parameter has a non-empty name, and the names of the algorithms differ |
| Fx.Line | Firmware/fx.c:12 | the delay-line region of the shared arena always has the delay's length |
| Fx.InitInstance | Firmware/fx.c:35-39 | init builds an instance of the requested type; the VCA starts at gain 0 and the delay adopts the region as it is |
| Fx.Init | Firmware/fx.c:109-125 | fx_init leaves fx_algo 0 with a bypass instance |
| Fx.SelectStep | Firmware/fx.c:139-149 | every step of a switch keeps the state valid and the arena region unchanged |
| Fx.SelectTrace | Firmware/fx.c:130-150 | an illegal index passes through no state but the initial one; a legal one through four steps |
| Fx.SelectAlgo | Firmware/fx.c:130-150 | fx_select_algo leaves a valid state over the same arena; an index of 3 or more changes nothing, and any other leaves fx_algo == algo over a fresh instance of that effect (the order of the steps: Fx.SelectAlgoOrder) |
| Fx.SelectAlgoOrder | Firmware/fx.c:130-150 | algo >= 3 changes nothing; otherwise fx_algo is 0 while the old instance is cleaned up and the new one built in the same arena, every intermediate state is valid, and fx_algo == algo at the end |
| Fx.SelectKeepsLine | Firmware/fx.c:146 | a switch never changes the arena region, so a later delay instance sees what the last one left |
| Fx.BypassProc | Firmware/fx.c:52-59 | bypass writes 2 * sz zeros whatever the input |
| Fx.Proc | Firmware/fx.c:155-159 | fx_proc runs effects[fx_algo]: bypass gives zeros, the VCA and the delay give their own process results, and the active index never changes |
| Fx.GetAlgo | Firmware/fx.c:164-167 | fx_get_algo returns the active index, always below 3 |
| Fx.GetNumParms | Firmware/fx.c:172-175 | fx_get_num_parms returns the active entry's count, between 1 and 3 |
| Fx.GetAlgoName | Firmware/fx.c:180-183 | fx_get_algo_name returns the active entry's name |
| Fx.GetParmName | Firmware/fx.c:188-191 | fx_get_parm_name returns the active entry's name for the index |
| Fx.SelectThenGet | Firmware/fx.c:130-183 | after a legal switch the getters describe the selected algorithm |
| Fx.BypassRender | Firmware/fx.c:64-80 | slot 0 shows nothing; other slots show the parameter / 41, which is 0..99 for a 12-bit value |
| Fx.RenderParm | Firmware/fx.c:196-199 | bypass and the VCA render as percentages, the delay with its own renderer |
| Fx.SelectDelayIgnoresArena | Firmware/fx_cdl.c:55-57 | after selecting the delay, the outputs of every series of calls do not depend on what the arena held before |
| Audio.RampScale | Firmware/audio.c:223-243 | a sample scaled by a ramp position 0..512 is the floor of x * cnt / 512, never louder than x, x itself at 512 and silence at 0 |
| Audio.RampShrinks | Firmware/audio.c:223-226 | scaling by at most 512/512 and flooring never increases the magnitude, and 512/512 is the identity |
| Audio.MuteNext | Firmware/audio.c:215-256 | per frame: open and muted rest, a closing ramp counts down and ends muted, an opening ramp counts up and ends open with the counter reset, an illegal state is repaired to open; the reachable states are preserved |
| Audio.MuteOut | Firmware/audio.c:215-243 | the mute switch passes the sample while open, silences it while muted and never amplifies it in a reachable state |
| Audio.MuteRunInv | Firmware/audio.c:215-256 | any number of frames keeps the mute machine in its reachable states |
| Audio.MuteRunAdd | Firmware/audio.c:206-256 | running j frames then k frames is running j + k frames |
| Audio.MuteRunRests | Firmware/audio.c:217-236 | only the foreground task leaves the open and muted states: blocks alone never move them |
| Audio.ClosingRamp | Firmware/audio.c:221-230 | a closing ramp at position c is at c - k after k < c frames and muted after exactly c frames |
| Audio.OpeningRamp | Firmware/audio.c:238-250 | an opening ramp at position c is at c + k while below 512 and open with the counter reset after 512 - c frames |
| Audio.RampsTake512Frames | Firmware/audio.c:125-250 | the ramps the foreground task starts stay ramping for 511 frames and finish on exactly the 512th |
| Audio.LevelCalc | Firmware/audio.c:164-174 | the peak meter never falls, covers the rectified sample (32768 for -32768) and is either the old level or the rectified sample |
| Audio.PeakStep | Firmware/audio.c:164-196 | metering one more sample turns the maximum of the samples so far into the maximum including it |
| Audio.Channel | Firmware/audio.c:192-212 | one channel of an interleaved block: sample k of channel c is element 2k + c |
| Audio.MixSample | Firmware/audio.c:202-212 | for any `int16_t` wet the sample is the saturated floor of the 32-bit wrapped sum prc * wet + src * (4095 - wet), divided by 4096; for 12-bit wet the sum fits, and the mix is that floor exactly and lies between the two signals (and 0), so the saturation never acts |
| Audio.MixLeavesHull | Firmware/audio.c:202-212 | a wet above 0xfff, which an error-flagged conversion can produce, makes the dry gain negative: 20000 and -32768 at wet 0x1200 mix to 26604, louder than either |
| Audio.MixWraps | Firmware/audio.c:202-212 | a negative wet can overflow the `int32_t` sum: prc = -32768, src = 32767, wet = -32768 should saturate to 32767 but the wrapped sum gives -32768 |
| Audio.MixHull | Firmware/audio.c:209-212 | with both gains non-negative and summing to 4095, the sum lies within 4095 times the hull of the two inputs and 0, and its floor divided by 4096 within the hull itself |
| Audio.Output | Firmware/audio.c:206-256 | for any wet, the output loop writes two samples per frame and leaves the mute machine where that many frames take it |
| Audio.OutputFrame | Firmware/audio.c:206-256 | output sample 2k + c is the mute switch, in the state reached after k frames, applied to the mix of input 2k + c |
| Audio.OutputKeeps | Firmware/audio.c:206-261 | a later frame never changes an earlier output sample |
| Audio.OutputLast | Firmware/audio.c:206-256 | the last frame's two samples are the mute switch in the state reached before it, applied to their mix |
| Audio.OutputOpen | Firmware/audio.c:217-219 | while open, every output sample is the plain wet/dry mix |
| Audio.OutputMuted | Firmware/audio.c:232-236 | while muted, every output sample is 0 |
| Audio.OutputNext | Firmware/audio.c:206-256 | one more frame appends its two switched mixes and advances the mute machine by one frame |
| Audio.ChannelAppend | Firmware/audio.c:206-260 | appending a frame appends its left sample to channel 0 and its right sample to channel 1 |
| Audio.Init | Firmware/audio.c:24-36 | after Audio_Init the meters are clear, the handler is muted with the counter at 0 (a reachable state), both tokens are free and the effects are initialised |
| Audio.MeterInputs | Firmware/audio.c:191-196 | the input meters hold the maximum of their old value and the rectified samples of their channel |
| Audio.MixOutputs | Firmware/audio.c:205-261 | for any `int16_t` wet, the output loop produces exactly Output's samples and mute state, and the output meters hold the maximum of their old value and the rectified output samples of their channel |
| Audio.Proc | Firmware/audio.c:179-266 | for any `int16_t` reading as wet, Audio_Proc halves the length to frames, keeps the algorithm, runs the active effect on the block (zeros for bypass, the VCA's gain ramp, the delay's process call) and outputs its mixed and mute-switched output, keeps the effect's arena region, records the frame count, changes nothing but the meters, the mute machine and the length, and leaves each meter at the peak of its channel |
| Audio.MetersHold | Firmware/audio.c:171-173 | a meter after a block is at least its value before it |
| Audio.Fore | Firmware/audio.c:108-147 | a requested algorithm is written and acknowledged; a requested mute change starts a 512-frame closing ramp from open or an opening ramp from muted and is acknowledged either way; nothing else moves the mute machine and tokens that are not 1 stay |
| Audio.ForeOnce | Firmware/audio.c:113-123 | a request is served once: a second pass of the foreground task changes nothing |
| Audio.ForeInv | Firmware/audio.c:123-146 | the foreground task keeps the mute machine in its reachable states |
| AudioSync.AlgoStep | Firmware/audio.c:41-58 | a step of Audio_Set_Algo changes only its token, argument and position, posts only on a free token and clears only an acknowledged one |
| AudioSync.MuteStep | Firmware/audio.c:64-88 | a step of Audio_Set_Mute changes only its token, argument and position; the call returns at once exactly when the argument equals the raw mute state, and otherwise only once no ramp is running |
| AudioSync.Step | Firmware/audio.c:41-256 | only Audio_Proc and Audio_Fore move the mute machine, and only Audio_Fore writes the algorithm |
| AudioSync.TokensCycle | Firmware/audio.c:45-145 | each request token only ever moves 0 to 1 to 2 to 0 |
| AudioSync.StartInv | Firmware/audio.c:24-36 | after Audio_Init the protocol invariant holds, with algorithm 0 and the output muted |
| AudioSync.RunToward | Firmware/audio.c:221-250 | blocks of audio keep a ramp heading toward the state the mute caller asked for |
| AudioSync.StepInv | Firmware/audio.c:41-256 | every event of any interleaving keeps the protocol invariant: free tokens while nobody waits, an acknowledged algorithm request already carried out, ramps only toward the requested state |
| AudioSync.RunInv | Firmware/audio.c:41-256 | every sequence of events keeps the protocol invariant |
| AudioSync.AlgoReturns | Firmware/audio.c:54-116 | when Audio_Set_Algo returns, the algorithm variable holds its argument |
| AudioSync.MuteReturns | Firmware/audio.c:67-87 | when Audio_Set_Mute(0 or 1) returns, the mute machine rests open (0) or muted (2) as asked |
| AudioSync.Blocks | Firmware/audio.c:179 | k Audio_Proc calls of f frames each |
| AudioSync.RunAppend | Firmware/audio.c:41-147 | running two event sequences one after the other is running their concatenation |
| AudioSync.RunBlocks | Firmware/audio.c:206-256 | k blocks of f frames advance the mute machine by k * f frames and change nothing else |
| AudioSync.AlgoCompletes | Firmware/audio.c:45-120 | from a free token, the caller, one foreground pass and the caller again complete the algorithm change |
| AudioSync.MuteSchedule | Firmware/audio.c:64-88 | the mute caller's schedule has the four handshake steps, the blocks and the final step |
| AudioSync.Settles | Firmware/audio.c:125-250 | a ramp the foreground task starts toward muted or open rests there after any 512 or more frames |
| AudioSync.MuteHead | Firmware/audio.c:64-146 | after the handshake the caller has returned or waits on a ramp, and 512 frames bring the machine to the requested state |
| AudioSync.MuteCompletes | Firmware/audio.c:64-250 | from the comparison, blocks totalling at least 512 frames bring Audio_Set_Mute(0 or 1) back with the machine at rest as asked |
| Nvs.OrShift | Firmware/nvs.c:123-129 | OR works bit by bit: shifting both operands left and filling the low bits of one shifts the OR and fills the same bits |
| Nvs.OrOnes | Firmware/nvs.c:123 | ORing a k-bit number with k one-bits gives the k one-bits |
| Nvs.Pack | Firmware/nvs.c:129 | a fresh log word `tag << 24 \| (value & 0xffff)` reads back the tag and the value and has bit 16 clear |
| Nvs.LowWrap | Firmware/nvs.c:101-129 | the low half of an int16_t, read back into an int16_t, is the value |
| Nvs.Update | Firmware/nvs.c:123 | the in-place update as evidently intended gives the fresh word of the old tag and the new value |
| Nvs.UpdateAsWritten | Firmware/nvs.c:123 | the update as written agrees with the intended one for non-negative values and leaves the sign-extended value alone for negative ones |
| Nvs.OrUnmasked | Firmware/nvs.c:123 | ORing the tag byte with an unmasked int16_t packs a non-negative value and is swallowed by a negative one's sign extension |
| Nvs.NegativeUpdateCorrupts | Firmware/nvs.c:123 | after the as-written update with a negative value the word reads tag 255 and has bit 16 set, though the value still reads back |
| Nvs.Find | Firmware/nvs.c:118-126 | the search finds the first buffered word carrying the tag, and finds none exactly when no word carries it |
| Nvs.FindFrom | Firmware/nvs.c:118-126 | the search from position i finds the first word at or after i carrying the tag, and none exactly when there is none |
| Nvs.PutTag | Firmware/nvs.c:113-130 | the corrected put rewrites the word of a buffered tag in place, appends a fresh word for a new tag, and leaves the words of other tags alone |
| Nvs.PutTagAsWritten | Firmware/nvs.c:113-130 | the put as written agrees with the corrected one for non-negative values and replaces a buffered tag's word by the sign-extended value for negative ones |
| Nvs.PutFinds | Firmware/nvs.c:113-130 | after a put the tag is buffered and reads back the value put |
| Nvs.PutOther | Firmware/nvs.c:113-130 | a put leaves where every other tag is found unchanged |
| Nvs.PutKeeps | Firmware/nvs.c:113-130 | puts keep the buffered tags distinct and every buffered word's bit 16 clear |
| Nvs.Tags | Firmware/nvs.c:118-126 | the tags of a buffer are exactly the tags its words carry |
| Nvs.TagsCount | Firmware/nvs.c:118-129 | a buffer of distinct tags has as many tags as words |
| Nvs.Below | Firmware/nvs.c:184 | the numbers below n, n of them |
| Nvs.DistinctFits | Firmware/nvs.c:112-130 | a buffer of distinct tags has at most 256 words, the 1024 bytes allocated: the corrected put cannot overrun it |
| Nvs.SubsetCount | Firmware/nvs.c:112-130 | a subset is no larger than its superset |
| Nvs.NegativePutLosesTag | Firmware/nvs.c:118-124 | a negative put on a buffered tag (other than 255) loses the tag from the buffer and leaves a word with bit 16 set |
| Nvs.SignExtensionLosesTag | Firmware/nvs.c:118-129 | from an empty buffer, putting v >= 0 then w < 0 on a tag below 255 leaves only the word `(uint32_t)w`, which carries neither the tag nor a clear bit 16 |
| Nvs.SignExtensionDuplicates | Firmware/nvs.c:118-129 | repeating those two puts leaves two words with tag 255, so the buffer's tags are no longer distinct and it grows without bound |
| Nvs.ScanEnd | Firmware/nvs.c:55-64 | nvs_init's scan stops at the first word with bit 16 set, or at the end of the region if none has it |
| Nvs.EndUnique | Firmware/nvs.c:58-63 | a log has only one end |
| Nvs.Latest | Firmware/nvs.c:93-105 | the latest word below the end carrying the tag, none exactly when no word below the end carries it |
| Nvs.GetTag | Firmware/nvs.c:90-108 | nvs_get_tag returns 0 with the low half of the latest word carrying the tag, or 1 with the caller's value unchanged when there is none |
| Nvs.LatestAgree | Firmware/nvs.c:93-105 | two logs that agree below the end give the same lookup |
| Nvs.LatestSkip | Firmware/nvs.c:96-105 | words without the tag at the top of the log do not change a lookup |
| Nvs.Init | Firmware/nvs.c:29-85 | nvs_init leaves the region as it is, its end found by the scan and the buffer empty |
| Nvs.Push | Firmware/nvs.c:166-169 | moving the last buffered word to the log end keeps the store well formed |
| Nvs.Pushed | Firmware/nvs.c:163-171 | k moves advance the log end by k and drop the last k buffered words |
| Nvs.PushedLog | Firmware/nvs.c:163-171 | k moves write the last k buffered words, newest first, from the log end on, and change no other word of the region |
| Nvs.PushedAdd | Firmware/nvs.c:163-171 | one more move after k moves is k + 1 moves |
| Nvs.FillPage | Firmware/nvs.c:152-171 | a round of the commit moves words until the buffer is empty or the write page is full, whichever comes first |
| Nvs.PushedShift | Firmware/nvs.c:163-171 | one move and k - 1 more are k moves |
| Nvs.PageFits | Firmware/nvs.c:152-155 | the rest of the current 64-word write page lies inside the region |
| Nvs.Commit | Firmware/nvs.c:144-177 | the commit loop only moves words from the buffer to the log, the newest first, so the words left are the oldest; it stops with the buffer empty (Done) or on a full region (Full); where the words land: Nvs.CommitDrains |
| Nvs.CommitDrains | Firmware/nvs.c:144-177 | a commit the region has room for drains the buffer: the log gains the buffered words, newest first, at its end, and nothing else changes (with the page buffer loaded from the write page, see Nvs.RoundIntended) |
| Nvs.DrainStep | Firmware/nvs.c:146-177 | a commit drains the buffer when it does so after its first page round |
| Nvs.CommitStep | Firmware/nvs.c:146-177 | one round of the commit fills at least one word of the current write page |
| Nvs.PushedChain | Firmware/nvs.c:163-171 | k moves then j moves are k + j moves |
| Nvs.Lookup | Firmware/nvs.c:90-108 | what nvs_get_tag reports is none exactly when no word below the end carries the tag |
| Nvs.Committed | Firmware/nvs.c:135-224 | a commit that fits ends with the buffer empty and the log end advanced by the number of buffered words |
| Nvs.CommitThenGet | Firmware/nvs.c:90-177 | after a commit that fits, nvs_get_tag returns the first buffered value of a buffered tag and the old log value of any other |
| Nvs.CommitFound | Firmware/nvs.c:96-171 | a buffered tag reads back as its first buffered word, the last the commit writes |
| Nvs.PushedFound | Firmware/nvs.c:96-171 | draining the whole buffer into the log leaves a buffered tag reading back as its first buffered word |
| Nvs.CommitMissing | Firmware/nvs.c:96-171 | a tag that is not buffered reads back as it did before the commit |
| Nvs.Geometry | Firmware/nvs.c:12-19 | the store is 8192 words of 64-word write pages with a 256-word buffer, and it starts 32 KiB below the end of a 2 MiB flash mapped at 0x10000000 |
| Nvs.PageStart | Firmware/nvs.c:153-155 | the write page holding a log word starts on a multiple of 64 words and lies inside the region |
| Nvs.Program | Firmware/nvs.c:175 | programming a write page ANDs each of its words with the buffer and changes no word outside the page |
| Nvs.PageImage | Firmware/nvs.c:162-171 | the page buffer keeps its loaded words except from the log end's offset on, where the buffered words go in newest first until the buffer or the page runs out |
| Nvs.CopyAddress | Firmware/nvs.c:153-159 | pg_addr is the byte offset from the start of flash of the log end's write page; the page lies at FLASH_START + pg_addr, while the copy reads NVS_START + pg_addr, beyond the end of the 2 MiB flash |
| Nvs.RoundFrom | Firmware/nvs.c:159-175 | a round programs only the write page and leaves every other word of the region as it was (each word of the page: Nvs.RoundAt) |
| Nvs.Round | Firmware/nvs.c:152-175 | with the page buffer loaded from the write page, a round keeps every word before the log end and programs nothing outside the page; on an erased tail it programs exactly one page fill (Nvs.RoundIntended) |
| Nvs.RoundAsWritten | Firmware/nvs.c:152-175 | with the page buffer loaded from the stray words at NVS_START + pg_addr, the words before the log end are ANDed with the stray words, so a zero page corrupts them (Nvs.StrayCorrupts) |
| Nvs.RoundAt | Firmware/nvs.c:159-175 | after a round whose buffer was loaded with some page, each word of the write page is its old value ANDed with the loaded or flushed word, and the rest of the region is unchanged |
| Nvs.FillAt | Firmware/nvs.c:162-171 | one round of the page fill puts the flushed words, newest first, at the log end and leaves every other word |
| Nvs.RoundValue | Firmware/nvs.c:159-175 | on an erased tail, a round that loads the write page itself leaves the old words, places the flushed words, and leaves the rest erased |
| Nvs.RoundWord | Firmware/nvs.c:159-175 | each word after that round equals the word one page fill leaves |
| Nvs.RoundIntended | Firmware/nvs.c:159-175 | on an erased tail, a round that loads the write page itself programs exactly what one page fill of the commit puts in the log |
| Nvs.StrayWord | Firmware/nvs.c:159 | each word after a round from an erased stray page equals the intended round's |
| Nvs.StrayErasedHarmless | Firmware/nvs.c:159 | when the words the copy reads happen to be erased, the round as written is the intended round |
| Nvs.StrayCorrupts | Firmware/nvs.c:159-175 | with the log end inside a page and room left after the flush, a stray page of zeros turns the page's first word into a tag-0 entry of value 0 and clears bit 16 of the word after the flushed ones; the intended round keeps the first word and leaves that word erased |
| Nvs.PutCommitGet | Firmware/nvs.c:90-177 | put, commit, get returns the value just put |
| Nvs.PutKeepsView | Firmware/nvs.c:113-130 | a put changes the stored value of no other tag |
| Nvs.PutCommitOther | Firmware/nvs.c:90-177 | put, commit, get of any other tag returns what it would have without the put |
| Wm8731.Boot | Firmware/wm8731.c:49 | the zero-initialised shadow is well formed and mirrors a codec that has been sent nothing |
| Wm8731.Encode | Firmware/wm8731.c:83-85 | the first byte carries the address's low seven bits above value bit 8, the second the value's low byte |
| Wm8731.Decode | Firmware/wm8731.c:83-85 | the codec reads a 7-bit address and a 9-bit value from a message |
| Wm8731.EncodeDecode | Firmware/wm8731.c:70-85 | a 7-bit address and a 9-bit value survive the two-byte format |
| Wm8731.DecodeEncode | Firmware/wm8731.c:83-85 | every two-byte message is the encoding of what it decodes to |
| Wm8731.EncodeInjective | Firmware/wm8731.c:83-85 | two writes of 7-bit addresses and 9-bit values that send the same bytes are the same write |
| Wm8731.WriteRegister | Firmware/wm8731.c:73-106 | the shadow of a register below 10 takes the value whatever the transfer does, no other slot changes, the message is sent, and the result is 0 exactly when both bytes went out and 1 otherwise |
| Wm8731.StatusOnlyResult | Firmware/wm8731.c:79-100 | the transfer status decides only the result, never the shadow or what was sent |
| Wm8731.Failures | Firmware/wm8731.c:121-128 | the failure count among n transfers is at most n |
| Wm8731.Loaded | Firmware/wm8731.c:125-129 | the trace after loading n registers is n messages longer |
| Wm8731.LoadRegs | Firmware/wm8731.c:125-129 | the load loop keeps the shadow's ten slots |
| Wm8731.LoadRegsShadow | Firmware/wm8731.c:125-129 | after n passes registers 0..n-1 hold their initial values and the others are untouched |
| Wm8731.LoadRegsBus | Firmware/wm8731.c:125-129 | the load loop sends one message per register, in register order |
| Wm8731.LoadRegsFailures | Firmware/wm8731.c:125-129 | the load loop's count is the number of failed transfers |
| Wm8731.Reset | Firmware/wm8731.c:115-132 | after WM8731_Reset the shadow holds the initial data whatever the transfers did, the result counts the failed transfers among all eleven, and the trace is the reset message followed by the ten loads in order |
| Wm8731.FailuresSplit | Firmware/wm8731.c:117-128 | counting the reset write's failure and the loads' failures separately gives the total |
| Wm8731.Mute | Firmware/wm8731.c:137-146 | the digital path register becomes 0x08 (soft mute) when enabled and 0 otherwise, and no other register changes |
| Wm8731.HpVol | Firmware/wm8731.c:151-155 | one message is sent, setting register 2 to 0x180 plus the volume's low seven bits, and no other register changes |
| Wm8731.InVol | Firmware/wm8731.c:176-180 | one message is sent, setting register 0 to 0x100 plus the volume's low six bits, and no other register changes |
| Wm8731.InSrc | Firmware/wm8731.c:160-171 | bits 1-2 of the analog path register select the line input (0x2) or the microphone (0x4), its other bits are kept, and no other register changes |
| Wm8731.MicBoost | Firmware/wm8731.c:185-192 | bit 0 of the analog path register is set exactly when boost is requested, its other bits are kept, and no other register changes |
| Wm8731.WriteMirrors | Firmware/wm8731.c:79-87 | a write of a 9-bit value to a 7-bit address keeps the shadow equal to the last value sent to each register, whatever the transfer status; after a failed transfer the codec did not receive it |
| Wm8731.ResetMirrors | Firmware/wm8731.c:115-132 | WM8731_Reset keeps the shadow equal to the last value sent to each register, whatever the transfer status |
| Wm8731.InitNineBit | Firmware/wm8731.c:20-32 | every initial value fits the 9-bit register format |
| Wm8731.LoadLast | Firmware/wm8731.c:125-129 | after loading registers 0..n-1, register i < n was last sent its initial value |
| Wm8731.LoadedWellFormed | Firmware/wm8731.c:83-129 | every message of the load trace has two bytes |
| St7735.Swap | Firmware/st7735.c:423-431 | the byte swap puts the low byte high and the high byte low |
| St7735.SwapSwap | Firmware/st7735.c:423-431 | swapping twice is the identity |
| St7735.Color565 | Firmware/st7735.c:416-424 | once unswapped, the top five bits of red, six of green and five of blue sit in the 5/6/5 fields, red highest |
| St7735.ColorRgb | Firmware/st7735.c:427-437 | the unpacked colour has an empty top byte and the bits dropped by packing are 0 |
| St7735.RgbRoundTrip | Firmware/st7735.c:416-437 | unpacking a packed colour gives the colour with its dropped low bits cleared |
| St7735.PackedRoundTrip | Firmware/st7735.c:416-437 | packing an unpacked 16-bit colour gives it back, so every 16-bit value is a colour |
| St7735.MadCtlArg | Firmware/st7735.c:458-491 | the MADCTL argument sets the row/column exchange bit exactly for the odd rotations and always sets bit 0x08 |
| St7735.SetRotation | Firmware/st7735.c:454-492 | the rotation is m mod 4; even rotations are 80 x 160 portrait 24 columns in, odd ones 160 x 80 landscape 24 rows in; MADCTL and its argument are sent |
| St7735.RotationShape | Firmware/st7735.c:454-492 | every rotation shows the same 80 x 160 panel, rows and columns are exchanged exactly when width and height swap, and only m mod 4 matters |
| St7735.AddrWindow | Firmware/st7735.c:344-374 | an address window is eleven operations |
| St7735.WindowPrefix | Firmware/st7735.c:344-374 | only the eleven window operations decide the window the controller opens |
| St7735.CoordWord | Firmware/st7735.c:350-355 | a coordinate sent high byte first is read back whole |
| St7735.WindowRoundTrip | Firmware/st7735.c:344-374 | the controller reads back each corner of a window offset by the panel's start |
| St7735.DrawPixel | Firmware/st7735.c:377-389 | nothing is sent exactly when the pixel is off the logical screen, otherwise a window and one pixel |
| St7735.PixelLands | Firmware/st7735.c:377-389 | a pixel on the screen opens the inclusive window x..x+1 by y..y+1 at its offset coordinates (two by two) and sends one pixel of its colour |
| St7735.FillRect | Firmware/st7735.c:392-413 | nothing is sent exactly when the corner is right of or below the screen, otherwise a window and one block of pixels |
| St7735.ClipSpan | Firmware/st7735.c:397-398 | clipping a span that starts on the screen keeps min(w, size - x) of it, which ends on the screen |
| St7735.AreaFits | Firmware/st7735.c:402 | a clipped area fits the int16_t pixel count unchanged |
| St7735.FillOpens | Firmware/st7735.c:396-400 | fillRect opens the window of its clipped rectangle |
| St7735.ScreenWindow | Firmware/st7735.c:344-400 | a window whose corners lie on the screen survives the uint8_t corners and reaches the controller offset |
| St7735.FillClips | Firmware/st7735.c:392-413 | a rectangle with its corner on the screen opens a window of min(w, width - x) columns and min(h, height - y) rows from its corner |
| St7735.FillClipped | Firmware/st7735.c:396-400 | the window fillRect opens is the clipped rectangle, offset by the panel's start |
| St7735.FillInside | Firmware/st7735.c:392-413 | a rectangle that lies on the screen opens exactly its own window |
| St7735.FillCount | Firmware/st7735.c:397-410 | a rectangle with its corner on the screen sends exactly the pixels of the clipped rectangle, in its colour |
| St7735.NegativeFillWraps | Firmware/st7735.c:402-410 | a rectangle whose clipped area `w * h` is -1 makes `while (w--)` count down through the `int16_t` wrap and send 65535 pixels |
| St7735.WriteByte | Firmware/st7735.c:277-292 | an entry with bit 8 set is sent as a command, otherwise as data, and its low byte is what is sent |
| St7735.Entry | Firmware/st7735.c:328-336 | an entry with bit 9 set is a pause of its low nine bits, otherwise a byte |
| St7735.EndAt | Firmware/st7735.c:328 | the position of the first end marker in the list |
| St7735.Interpret | Firmware/st7735.c:326-337 | the walk produces one operation per entry before the first end marker, each the entry's meaning |
| St7735.InterpretStops | Firmware/st7735.c:328 | nothing after the first end marker is read |
| St7735.EndsOnce | Firmware/st7735.c:328 | a list closed by its only end marker is walked to the marker |
| St7735.InitListEnds | Firmware/st7735.c:171-234 | the firmware's command list holds the end marker only at its end, so the walk reads all of it |
| St7735.Init | Firmware/st7735.c:296-341 | ST7735_init ends in the portrait rotation 0 geometry, sends the list's operations up to the marker, then MADCTL for rotation 0 |
| Gfx.Chroma | Firmware/gfx.c:528-529 | the chroma is at most v, and below v whenever v is positive, so the offset m = v - C is positive |
| Gfx.Sector | Firmware/gfx.c:531-544 | the hue sector is one of six |
| Gfx.Ramp | Firmware/gfx.c:534-537 | the middle component's weight lies between 0 and 256 |
| Gfx.ScaleLe | Firmware/gfx.c:538 | scaling by a weight of at most 256 and shifting right by 8 never grows a value |
| Gfx.Mid | Firmware/gfx.c:534-538 | the middle component's share X is at most the chroma |
| Gfx.Pack | Firmware/gfx.c:592-593 | a packed colour fits 24 bits |
| Gfx.UnpackPack | Firmware/gfx.c:592-593 | the three bytes of a packed colour are its components |
| Gfx.Hsv2Rgb | Firmware/gfx.c:517-594 | the result fits 24 bits and is black when v is 0 |
| Gfx.HsvExtremes | Firmware/gfx.c:528-593 | for v > 0 the brightest component is v and the darkest v - ((s * v) >> 8); red is brightest in sectors 0 and 5, green in 1 and 2, blue in 3 and 4 |
| Gfx.HsvGrey | Firmware/gfx.c:528-593 | without saturation every component is v: a grey |
| Gfx.HsvRedOffset | Firmware/gfx.c:528-593 | full saturation and value at hue 0 give 0xFF0101, not pure red, because C = (255 * 255) >> 8 is 254 |
| Gfx.RowUnique | Firmware/gfx.c:225-251 | only one minor offset keeps the line's error term in [0, dx) |
| Gfx.RowNear | Firmware/gfx.c:225-251 | the error term stays in [0, dx), so each pixel's minor offset is within half a pixel of i * dy / dx |
| Gfx.RowStep | Firmware/gfx.c:243-251 | the loop's error update subtracts dy and steps the minor axis exactly when the error goes negative, matching the closed form |
| Gfx.RowStart | Firmware/gfx.c:225-226 | the first pixel is on the start row with the error term at dx / 2 |
| Gfx.RowEnds | Firmware/gfx.c:225-251 | the first pixel is on the start row and the pixel dx steps on is on the end row |
| Gfx.Orient | Firmware/gfx.c:206-224 | after the swaps the major coordinate runs upward, the minor extent is at most the major one, and the major extent is the larger of the two coordinate differences |
| Gfx.DrawLine | Firmware/gfx.c:201-253 | gfx_drawline plots one pixel per step of the major axis, max(abs(dx), abs(dy)) + 1 pixels, each the closed-form pixel of the oriented line |
| Gfx.LineEnds | Firmware/gfx.c:201-253 | the line starts at one end point and stops at the other |
| Gfx.LineSteps | Firmware/gfx.c:233-251 | consecutive pixels touch: the major coordinate grows by one and the minor one moves by at most one |
| Gfx.FlipDeviation | Firmware/gfx.c:227-249 | a line drawn toward decreasing minor coordinates deviates from the ideal line as much as its mirror image |
| Gfx.WalkNear | Firmware/gfx.c:222-251 | the j-th pixel's minor coordinate is within half a pixel of the straight line, on either minor direction |
| Gfx.LineNear | Firmware/gfx.c:201-253 | every pixel of the line lies within half a pixel of the straight line through the end points |
| Gfx.Normalise | Firmware/gfx.c:139-143 | after the inversion check each pair of corners is ordered least first |
| Gfx.NormaliseKeeps | Firmware/gfx.c:139-143 | the inversion check keeps the corners and a second check changes nothing |
| Gfx.ColorRect | Firmware/gfx.c:137-147 | the caller's rectangle is left normalised |
| Gfx.ColorRectFills | Firmware/gfx.c:137-147 | a rectangle with its corners on the screen, in either order, opens the window spanning exactly the columns and rows between its corners |
| Gfx.NormalFill | Firmware/gfx.c:145-146 | the fill of an ordered on-screen rectangle opens the window between its corners |
| Gfx.Starts | Firmware/gfx.c:445-455 | a string has one glyph position per character, the first at x |
| Gfx.StartsSpaced | Firmware/gfx.c:450-454 | without wrap-around the i-th glyph starts i * 8 * txtsz to the right of x |
| Gfx.OneLess | Firmware/gfx.c:453 | one glyph fewer is one advance less |
| Gfx.StrCtr | Firmware/gfx.c:460-467 | when the width fits an int16_t the start is x minus half the width, modulo 2^16 (exact centring when nothing wraps: Gfx.StrCentred) |
| Gfx.StrCentred | Firmware/gfx.c:460-467 | when the width fits an int16_t the string starts half its width left of x and ends as far right of it |
| Gfx.Halve | Firmware/gfx.c:464-465 | an even int16_t width halves exactly under C's division |
| Gfx.BlackIsZero | Firmware/gfx.c:63 | the background colour, Color565 of black, is 0 |
| Gfx.Start | Firmware/gfx.c:56-68 | gfx_init leaves the driver in rotation 3, landscape 160 by 80 at the panel's offset (the clear: Gfx.StartClears) |
| Gfx.StartClears | Firmware/gfx.c:56-68 | gfx_init leaves the landscape rotation 3 geometry and clears the whole 160 x 80 screen with one window and one block of the background colour |
| Gfx.LandscapeClear | Firmware/gfx.c:113-116 | the clear of the landscape screen opens the whole screen |
| Gfx.StartCount | Firmware/gfx.c:115 | the clear sends 160 * 80 pixels, the product fitting the int16_t count |

## Notes on the code

- Algorithm switch. `Audio_Fore` does not run an effect's init or cleanup.
  It only copies the requested index (`Firmware/audio.c:108-121`).
  `fx_select_algo` (`Firmware/fx.c:129-150`) does the rest around two
  `Audio_Set_Algo` calls: it switches to bypass, cleans up the old effect,
  initialises the new one, then switches to it. `Fx.SelectAlgoOrder` states
  this order. `AudioSync` models the handshake it relies on.
- Mute request shortcut. `Audio_Set_Mute` compares its argument with the
  raw four-valued mute state (`Firmware/audio.c:67`). So `Audio_Set_Mute(0)`
  while open returns at once. `Audio_Set_Mute(1)` while muted (state 2)
  still performs a handshake, which `Audio_Fore` acknowledges without
  moving. `AudioSync.MuteStep` keeps this comparison.
- VCA ramp. The gain moves by `TDiv(target - gain, sz)` per frame, and the
  quotient is truncated. A jump from 0 to 4095 over a block of 32 frames
  uses 127 per frame. The last frame's gain is 31 * 127 = 3937, not
  4095 * 31 / 32. The block ends at 4064, and the target is reached only
  when `sz` divides the distance (`FxVca.GainBetween`, `FxVca.SlewEnd`).
- Mute ramp. The ramp counts frames, not samples: 512 frames of two
  channels each. Both ramps scale a frame with counter c by `(x * c) >> 9`,
  a floor shift, and then saturate the result.
- Mix gain. The wet gain is `ADC_val[1]` as read. The FIFO keeps the error
  flag in bit 15 (`Firmware/adc.c:143`), so one flagged conversion lifts the
  filtered reading above 0xfff and makes the dry gain `0xfff - wet`
  negative. The mix can then leave the hull of its inputs and saturate
  (`Audio.MixLeavesHull`). A reading whose filter value reaches bit 15 turns
  negative in the `int16_t`, and the `int32_t` sum of the two products can
  then overflow (`Audio.MixWraps`). The model takes the two's-complement
  wrap the processor delivers.
- Level meters. `audio_sl` is declared `int16_t[4]` but `level_calc`
  writes it through a `uint16_t *`. The model keeps the unsigned view (`U16`).
- HSV colours. `gfx_hsv2rgb` loses one step to its `>> 8`: hue 0 at full
  saturation and value gives 0xFF0101 (`Gfx.HsvRedOffset`).
- Negative rectangles. `ST7735_fillRect` clips only the right and bottom
  edges. It stores `w * h` back into the `int16_t` parameter `w` and counts
  it down with `while (w--)`, so a negative area wraps through -32768 and
  keeps sending: an area of -1 sends 65535 pixels
  (`St7735.NegativeFillWraps`).
- Codec addresses. `WM8731_WriteRegister` shifts the address left by one
  into an 8-bit field, so bit 7 of an address is lost on the wire. It updates
  the shadow copy only for the 10 registers it keeps
  (`Firmware/wm8731.c:79-85`).

## Left out

- Register-level I/O is not modelled: I2C, SPI, GPIO and DMA transfers, the
  I2C bus reset, the PIO I2S driver (`i2s_fulldup.c` is not part of this
  model), and the display backlight PWM. Their outcomes enter as
  parameters, and their requests are kept as traces.
- Timing is not modelled: `sleep_ms` delays become pause operations in the
  SPI trace, and the load measurement with `time_us_64` in the audio
  interrupt is dropped.
- Busy-waits, interrupt masking and the multicore flash lockout are not
  modelled as code. Their effect is the interleaving in `AudioSync`.
- `malloc` failures are not modelled: the firmware halts in an endless loop
  there, and the model assumes every allocation succeeds.
- The menu, widgets, buttons, debounce and `main` are not part of this
  model. They are user-interface glue around the core.
- The ADC's free-running start-up and its round-robin register setup are
  not modelled. The handler is modelled from the sample it receives.
- Flash erase is not modelled as an operation. Programming is modelled for
  one write page (`Nvs.Program`): each word keeps the AND of old and new.
- The full-flash branch of `nvs_commit` (`Firmware/nvs.c:178-217`) is not
  modelled. It merges every tag in flash that is not already buffered into
  the RAM buffer, erases flash from an offset computed from the RAM
  buffer's own address (`(uint32_t)nvs_buff - FLASH_START`, so not the
  log region), points the log end at the RAM buffer, and programs nothing
  (`Firmware/nvs.c:184-216`).
  `Nvs.Commit` reports the `Full` outcome and does not continue it.
- Nvs.CommitDrains: models the commit with the page buffer loaded from
  the write page itself (`Nvs.RoundIntended`), not from the address the
  code copies it from. The discrepancy is listed under "## Findings".
- `nvs_init` falls off its end without a return value. The model returns
  nothing for it.
- Not modelled in the display and graphics code: `ST7735_bitblt`, glyph
  rendering, circles, horizontal and vertical line helpers, outline
  rectangles, `gfx_drawstrrect`, the set/clear pixel wrappers, the colour
  table, and the `sprintf` formatting in the parameter render functions.
  These are drawing helpers with no property beyond the clipping the model
  already states.
- Floating point is not modelled: the core does not use it.
- Gfx.DrawLine: requires every coordinate within ±0x4000 so that the
  `int16_t` differences and error terms of `gfx_drawline` cannot wrap.
- Fx.GetParmName: requires an index below 3, the size of the name array.
  The C code reads past the array for larger indices.
- FxCdl.RenderParm: requires an index below 4, the size of `ADC_param`.
- Fx.RenderParm: requires an index below 4, as for FxCdl.RenderParm.
- FxVca.Proc: requires `sz >= 1`, because the C code divides by the block size.
- Fx.Proc: requires `sz >= 1` when the VCA is active, as for FxVca.Proc.
- Audio.Proc: requires `sz >= 1` while the VCA is active, and a buffer of
  at most 128 samples, the size of the processing buffer.
- Dsp.RatioHystArbGuardBand: holds only while `old * scale` fits an `int16_t`.
- FxVca.GainBetween: holds for a one-frame block only when the difference
  fits an `int16_t`.
- Gfx.StrCentred: assumes the centred start does not wrap the `int16_t`
  coordinate.
- Gfx.StartsSpaced: assumes the same.
- Wm8731.WriteMirrors: is stated for addresses below 128 and 9-bit
  values, the codec's register format. A wider address or value is truncated
  on the wire, and the shadow no longer matches what was sent.
- Nvs.Commit: stops at the `Full` outcome, as above.

## Findings

| source | as written | input that shows it | evidently intended | confidence | as-written member | corrected member |
|---|---|---|---|---|---|---|
| Firmware/nvs.c:123 | To update a buffered tag, `nvs_put_tag` ORs the `int16_t` value into the word's tag byte without masking it. A negative value is sign-extended to 32 bits and fills the tag byte and bits 16-23 with ones. | `put(5, 1)` then `put(5, -1)` from an empty buffer leaves the single word 0xFFFFFFFF. Tag 5 is gone, the word reads as tag 255 with bit 16 set, and repeating the two puts adds a second word with tag 255. | mask the value with 0xffff, as the append at line 129 does | not executed | Nvs.UpdateAsWritten, Nvs.PutTagAsWritten (Nvs.NegativeUpdateCorrupts, Nvs.NegativePutLosesTag, Nvs.SignExtensionLosesTag, Nvs.SignExtensionDuplicates) | Nvs.Update, Nvs.PutTag (Nvs.PutKeeps, Nvs.DistinctFits, Nvs.PutCommitGet) |
| Firmware/nvs.c:159 | `nvs_commit` loads the page buffer with `memcpy` from `NVS_START + pg_addr`. But `pg_addr` is the page's offset from `FLASH_START` (line 153), and line 175 programs the buffer back at that offset. The copy reads 64 words from beyond the end of the 2 MiB flash, and every word of the write page is reprogrammed with them, not with its own contents. | A log ending one word into a page, with a one-word buffer and a copy that reads zeros. After the round, the page's first word reads as tag 0 with value 0, and the word after the flushed one has bit 16 clear, so the next end scan runs past the log end. | copy from `FLASH_START + pg_addr`, the page being programmed | not executed | Nvs.RoundAsWritten (Nvs.CopyAddress, Nvs.StrayCorrupts; Nvs.StrayErasedHarmless: harmless when the stray words are erased) | Nvs.Round (Nvs.RoundIntended: programs exactly what Nvs.FillPage, and so Nvs.Commit, describes) |
