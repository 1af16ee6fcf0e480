/** The block-gain wrapper around a stereo stream (volume.go).

    Each pull first lets the wrapped stream fill the block, then computes a
    single gain for the whole block (zero when silent, otherwise
    `Base ^ VolumeFunc()`) and scales both channels of the frames the
    wrapped stream produced. */
module Volume {
  import opened Results
  import opened Beep

  /** The wrapper's settings; the wrapped stream appears only through its
      current error and through what it did during a pull (`ChildPull`). */
  datatype Volume = Volume(streamerErr: Option<string>, base: real, silent: bool)

  /** What the wrapped stream's own pull did: the block as it left it, the
      number `n` of frames it produced, and whether it can produce more. */
  datatype ChildPull = ChildPull(samples: seq<Frame>, n: int, ok: bool)

  /** Both channels of a frame multiplied by `gain`. */
  function Scale(f: Frame, gain: real): (scaled: Frame) {
    (f.0 * gain, f.1 * gain)
  }

  /** One pull through the wrapper. `volumeFunc(k)` is the value the volume
      function returns on its `k`-th evaluation and `calls` how many
      evaluations have happened so far; `pow` is the power function. The
      result is the scaled block, the wrapped stream's `(n, ok)` and the new
      evaluation count. */
  method Stream(v: Volume, child: ChildPull, volumeFunc: nat -> real, pow: (real, real) -> real, calls: nat)
    returns (samples: seq<Frame>, n: int, ok: bool, callsAfter: nat)
    requires 0 <= child.n <= |child.samples|
    ensures n == child.n && ok == child.ok
    ensures |samples| == |child.samples|
    ensures forall i :: n <= i < |samples| ==> samples[i] == child.samples[i]
    ensures v.silent ==> callsAfter == calls
    ensures v.silent ==> forall i :: 0 <= i < n ==> samples[i] == (0.0, 0.0)
    ensures !v.silent ==> callsAfter == calls + 1
    ensures !v.silent ==> forall i :: 0 <= i < n ==>
              samples[i] == Scale(child.samples[i], pow(v.base, volumeFunc(calls)))
    ensures !v.silent && pow(v.base, volumeFunc(calls)) == 1.0 ==> samples == child.samples
  {
    samples, n, ok := child.samples, child.n, child.ok;
    callsAfter := calls;
    var gain := 0.0;
    if !v.silent {
      gain := pow(v.base, volumeFunc(calls));
      callsAfter := calls + 1;
    }
    var i := 0;
    while i < n
      invariant 0 <= i <= n
      invariant |samples| == |child.samples|
      invariant forall k :: 0 <= k < i ==> samples[k] == Scale(child.samples[k], gain)
      invariant forall k :: i <= k < |samples| ==> samples[k] == child.samples[k]
    {
      samples := samples[i := Scale(samples[i], gain)];
      i := i + 1;
    }
  }

  /** The wrapper's error is the wrapped stream's, unchanged. */
  function Err(v: Volume): (e: Option<string>)
    ensures e == v.streamerErr
  {
    v.streamerErr
  }
}
