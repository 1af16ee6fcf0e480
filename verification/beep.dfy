/** The few values of the audio library that the program touches, kept
    opaque: a decoded clip is a format plus a sequence of stereo frames. */
module Beep {

  /** One stereo sample frame: left and right amplitude. */
  type Frame = (real, real)

  /** Sample rate, channel count and sample precision of an audio stream. */
  datatype Format = Format(sampleRate: int, numChannels: int, precision: int)

  /** What decoding one WAV file yields: its own format and its frames. */
  datatype Decoded = Decoded(format: Format, frames: seq<Frame>)

  /** An in-memory buffer: the format it was created with and the frames
      appended to it. */
  datatype Buffer = Buffer(format: Format, frames: seq<Frame>) {
    function Len(): (n: nat) { |frames| }
  }

  /** A read cursor over the frames [from, to) of a buffer. */
  datatype StreamSeeker = StreamSeeker(buffer: Buffer, from: nat, to: nat) {

    /** The cursor plays its buffer from the first frame to the last. */
    predicate PlaysWhole(b: Buffer) {
      buffer == b && from == 0 && to == b.Len()
    }
  }

  /** A fresh cursor over frames [from, to) of `b`; the library rejects a
      range outside the buffer. */
  function Streamer(b: Buffer, from: nat, to: nat): (s: StreamSeeker)
    requires from <= to <= b.Len()
  {
    StreamSeeker(b, from, to)
  }
}
