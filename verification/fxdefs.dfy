/**
 * Constants shared by the effects library (fx.h).
 */
module FxDefs {
  const SampleRate := 48000
  /** Stereo frames per audio block. */
  const FrameSize := 32
  const NumAlgos := 3
  const MaxParams := 3
  /** Bytes of the shared arena every effect instance is built in. */
  const MaxMem := 129 * 1024
}
