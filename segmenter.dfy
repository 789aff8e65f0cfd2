/** The Segmenter: slides a 2.3 s window with a 0.4 s stride over the 16 kHz
    mono waveform and keeps the windows that are not silent, in order. The
    RMS silence test is a floating-point computation and is a parameter here. */
module Segmenter {

  /** Samples per second once the audio has been resampled. */
  const SampleRate: nat := 16000
  /** `int(2.3 * 16000)`: samples in one window. */
  const SegmentSamples: nat := 36800
  /** `int(0.4 * 16000)`: samples between two candidate window starts. */
  const StrideSamples: nat := 6400

  /** Number of starts in `range(0, length - SegmentSamples + 1, StrideSamples)`. */
  function CandidateCount(length: nat): (n: nat)
    ensures forall c: nat :: c < n <==> c * StrideSamples + SegmentSamples <= length
  {
    if length < SegmentSamples then 0 else (length - SegmentSamples) / StrideSamples + 1
  }

  /** The window of audio that starts at sample `start`. */
  function Window(samples: seq<real>, start: nat): seq<real>
    requires start + SegmentSamples <= |samples|
  {
    samples[start..start + SegmentSamples]
  }

  /** The starts kept among the first `c` candidates. */
  function KeptPrefix(samples: seq<real>, silent: seq<real> -> bool, c: nat): (ks: seq<nat>)
    requires c <= CandidateCount(|samples|)
    ensures forall k :: 0 <= k < |ks| ==>
              ks[k] % StrideSamples == 0 && ks[k] + SegmentSamples <= |samples| && ks[k] < c * StrideSamples
    ensures forall a, b :: 0 <= a < b < |ks| ==> ks[a] < ks[b]
  {
    if c == 0 then []
    else
      var prev := KeptPrefix(samples, silent, c - 1);
      var i := (c - 1) * StrideSamples;
      if silent(Window(samples, i)) then prev else prev + [i]
  }

  /** The start sample of every window the Segmenter keeps, in order. */
  function KeptStarts(samples: seq<real>, silent: seq<real> -> bool): seq<nat>
  {
    KeptPrefix(samples, silent, CandidateCount(|samples|))
  }

  /** A start is kept exactly when it is a candidate whose window is not silent. */
  lemma {:induction false} KeptPrefixMembership(samples: seq<real>, silent: seq<real> -> bool, c: nat, x: nat)
    requires c <= CandidateCount(|samples|)
    ensures x in KeptPrefix(samples, silent, c) <==>
              x % StrideSamples == 0 && x < c * StrideSamples && x + SegmentSamples <= |samples|
              && !silent(Window(samples, x))
  {
    if c > 0 {
      KeptPrefixMembership(samples, silent, c - 1, x);
    }
  }

  /** Every kept start is a multiple of the stride whose window fits in the
      audio; the kept starts are strictly increasing; and a start is kept
      exactly when it is a candidate of the sliding loop whose window is not
      silent, so the kept starts are the non-silent candidates in order. */
  lemma KeptStartsSpec(samples: seq<real>, silent: seq<real> -> bool)
    ensures forall k :: 0 <= k < |KeptStarts(samples, silent)| ==>
              KeptStarts(samples, silent)[k] % StrideSamples == 0
              && KeptStarts(samples, silent)[k] + SegmentSamples <= |samples|
    ensures forall a, b :: 0 <= a < b < |KeptStarts(samples, silent)| ==>
              KeptStarts(samples, silent)[a] < KeptStarts(samples, silent)[b]
    ensures forall x: nat :: x in KeptStarts(samples, silent) <==>
              x % StrideSamples == 0 && x + SegmentSamples <= |samples| && !silent(Window(samples, x))
  {
    var n := CandidateCount(|samples|);
    forall x: nat
      ensures x in KeptStarts(samples, silent) <==>
                x % StrideSamples == 0 && x + SegmentSamples <= |samples| && !silent(Window(samples, x))
    {
      KeptPrefixMembership(samples, silent, n, x);
      if x % StrideSamples == 0 && x + SegmentSamples <= |samples| {
        var c := x / StrideSamples;
        assert c * StrideSamples == x;
        assert c < n;
      }
    }
  }

  /** The windowing loop: the non-silent windows and their start times in
      seconds, both in order. */
  method Segment(samples: seq<real>, silent: seq<real> -> bool)
    returns (segments: seq<seq<real>>, frameTimes: seq<real>)
    ensures |segments| == |frameTimes| == |KeptStarts(samples, silent)|
    ensures forall k :: 0 <= k < |segments| ==>
              segments[k] == Window(samples, KeptStarts(samples, silent)[k])
              && frameTimes[k] == KeptStarts(samples, silent)[k] as real / SampleRate as real
    ensures forall a, b :: 0 <= a < b < |frameTimes| ==> frameTimes[a] < frameTimes[b]
  {
    segments, frameTimes := [], [];
    ghost var c: nat := 0;
    var i: nat := 0;
    while i + SegmentSamples <= |samples|
      invariant c <= CandidateCount(|samples|)
      invariant i == c * StrideSamples
      invariant |segments| == |frameTimes| == |KeptPrefix(samples, silent, c)|
      invariant forall k :: 0 <= k < |segments| ==>
                  segments[k] == Window(samples, KeptPrefix(samples, silent, c)[k])
                  && frameTimes[k] == KeptPrefix(samples, silent, c)[k] as real / SampleRate as real
      decreases |samples| - i
    {
      var seg := samples[i..i + SegmentSamples];
      if !silent(seg) {
        segments := segments + [seg];
        frameTimes := frameTimes + [i as real / SampleRate as real];
      }
      i := i + StrideSamples;
      c := c + 1;
    }
    assert c == CandidateCount(|samples|);
    ghost var ks := KeptStarts(samples, silent);
    forall a, b | 0 <= a < b < |frameTimes| ensures frameTimes[a] < frameTimes[b] {
      assert ks[a] < ks[b];
    }
  }
}
