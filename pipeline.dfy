/** `run_full_pipeline`: the stages composed. The audio arrives as 16 kHz
    mono samples; the silence test, the per-window embedding validity, the
    Laplacian eigenvalues, spectral clustering, both recognisers and the
    similarity ratio are parameters standing for the libraries that compute
    them. */
module Pipeline {
  import opened Wrappers
  import opened Text
  import Segmenter
  import opened SpeakerCount
  import opened TurnMerger
  import opened TranscriptAligner
  import opened BlockMerger
  import opened Resegmenter
  import opened OutputFormatter

  /** The number of windows whose embedding has no NaN. */
  function ValidCount(valid: seq<bool>): nat
  {
    if valid == [] then 0 else ValidCount(valid[..|valid| - 1]) + (if valid[|valid| - 1] then 1 else 0)
  }

  /** `[frame_times[i] for i, v in enumerate(valid_indices) if v]`. */
  function KeepValid(times: seq<real>, valid: seq<bool>): (kept: seq<real>)
    requires |times| == |valid|
    ensures |kept| == ValidCount(valid)
  {
    if times == [] then []
    else
      var prefix := KeepValid(times[..|times| - 1], valid[..|valid| - 1]);
      if valid[|valid| - 1] then prefix + [times[|times| - 1]] else prefix
  }

  /** Keeping only the valid windows keeps the times in increasing order,
      and a window's time is kept exactly when the window is valid. */
  lemma {:induction false} KeepValidIncreasing(times: seq<real>, valid: seq<bool>)
    requires |times| == |valid|
    requires forall a, b :: 0 <= a < b < |times| ==> times[a] < times[b]
    ensures forall a, b :: 0 <= a < b < |KeepValid(times, valid)| ==>
              KeepValid(times, valid)[a] < KeepValid(times, valid)[b]
    ensures forall k :: 0 <= k < |KeepValid(times, valid)| ==> KeepValid(times, valid)[k] in times
    ensures forall i :: 0 <= i < |times| ==> (times[i] in KeepValid(times, valid) <==> valid[i])
  {
    if times != [] {
      var last := |times| - 1;
      var init := times[..last];
      KeepValidIncreasing(init, valid[..last]);
      var prefix := KeepValid(init, valid[..last]);
      assert forall k :: 0 <= k < |prefix| ==> prefix[k] in init;
      assert forall k :: 0 <= k < |prefix| ==> prefix[k] < times[last] by {
        forall k | 0 <= k < |prefix| ensures prefix[k] < times[last] {
          var m :| 0 <= m < |init| && init[m] == prefix[k];
        }
      }
      var kept := KeepValid(times, valid);
      assert kept == if valid[last] then prefix + [times[last]] else prefix;
      forall i | 0 <= i < |times| ensures times[i] in kept <==> valid[i] {
        if i < last {
          assert init[i] == times[i];
          assert times[i] < times[last];
        } else {
          assert times[last] !in prefix;
        }
      }
    }
  }

  /** The start time in seconds of every window the Segmenter keeps. */
  function KeptTimes(samples: seq<real>, silent: seq<real> -> bool): (times: seq<real>)
    ensures |times| == |Segmenter.KeptStarts(samples, silent)|
  {
    var ks := Segmenter.KeptStarts(samples, silent);
    seq(|ks|, k requires 0 <= k < |ks| => ks[k] as real / Segmenter.SampleRate as real)
  }

  /** The speaker turns of a run with at least two valid windows. */
  function PipelineTurns(samples: seq<real>, silent: seq<real> -> bool, valid: seq<bool>,
                         eigenvals: seq<real>, cluster: nat -> seq<nat>): seq<Turn>
    requires |valid| == |Segmenter.KeptStarts(samples, silent)| && ValidCount(valid) >= 2
    requires |eigenvals| == MaxIndex(ValidCount(valid)) + 1
    requires forall k :: |cluster(k)| == ValidCount(valid)
  {
    var k := EstimateSpeakerCount(ValidCount(valid), eigenvals).value;
    TurnsOf(cluster(k), KeepValid(KeptTimes(samples, silent), valid))
  }

  /** The outputs: the full transcript and the speaker list. */
  datatype Output = Output(transcript: string, speakers: seq<SpeakerEntry>)

  /** The blocks with their texts replaced by the fine-tuned sentences. */
  function Resegmented(blocks: seq<Block>, ftText: string, score: Score): seq<Block>
  {
    seq(|blocks|, k requires 0 <= k < |blocks| =>
      Block(blocks[k].speaker, BestComboText(blocks[k].text, SplitSentences(Strip(ftText)), score)))
  }

  /** The outputs for the aligned blocks and the fine-tuned text. */
  function Outputs(blocks: seq<Block>, ftText: string, score: Score): Output
  {
    var updated := Resegmented(blocks, ftText, score);
    Output(FullTranscript(updated), SpeakerJson(updated))
  }

  /** The speaker list has one entry per block, in block order: each carries
      its block's speaker letter and the fine-tuned sentences chosen for the
      block's text. */
  lemma OutputsEntries(blocks: seq<Block>, ftText: string, score: Score)
    ensures var out := Outputs(blocks, ftText, score);
            |out.speakers| == |blocks|
    ensures var out := Outputs(blocks, ftText, score);
            forall k :: 0 <= k < |blocks| ==>
              out.speakers[k]
              == SpeakerEntry(SpeakerLetter(blocks[k].speaker),
                              BestComboText(blocks[k].text, SplitSentences(Strip(ftText)), score))
  {
    var updated := Resegmented(blocks, ftText, score);
    var entries := SpeakerJson(updated);
    assert Outputs(blocks, ftText, score).speakers == entries;
    assert |updated| == |blocks| && |entries| == |blocks|;
    forall k | 0 <= k < |blocks|
      ensures entries[k] == SpeakerEntry(SpeakerLetter(blocks[k].speaker),
                                         BestComboText(blocks[k].text, SplitSentences(Strip(ftText)), score))
    {
      assert updated[k].speaker == blocks[k].speaker;
    }
  }

  /** The outputs of any blocks carrying the speakers of `blocks` agree
      with each other and with those speakers. */
  lemma FormattedAgree(updated: seq<Block>, blocks: seq<Block>)
    requires |updated| == |blocks|
    requires forall k :: 0 <= k < |blocks| ==> updated[k].speaker == blocks[k].speaker
    ensures var out := Output(FullTranscript(updated), SpeakerJson(updated));
            out.transcript
            == JoinSpace(seq(|out.speakers|, k requires 0 <= k < |out.speakers| => out.speakers[k].text))
    ensures var out := Output(FullTranscript(updated), SpeakerJson(updated));
            forall a, b :: 0 <= a < |out.speakers| && 0 <= b < |out.speakers| ==>
              (out.speakers[a].speaker == out.speakers[b].speaker <==> blocks[a].speaker == blocks[b].speaker)
  {
    var entries := SpeakerJson(updated);
    var out := Output(FullTranscript(updated), entries);
    TranscriptMatchesJson(updated);
    assert seq(|entries|, k requires 0 <= k < |entries| => entries[k].text)
           == seq(|out.speakers|, k requires 0 <= k < |out.speakers| => out.speakers[k].text);
    forall a, b | 0 <= a < |entries| && 0 <= b < |entries|
      ensures entries[a].speaker == entries[b].speaker <==> blocks[a].speaker == blocks[b].speaker
    {
      JsonKeepsSpeakers(updated, a, b);
    }
  }

  /** The two outputs agree: the transcript is the speaker list's texts
      joined by spaces, and two entries share a letter exactly when their
      blocks share a speaker. */
  lemma OutputsAgree(blocks: seq<Block>, ftText: string, score: Score)
    ensures var out := Outputs(blocks, ftText, score);
            out.transcript
            == JoinSpace(seq(|out.speakers|, k requires 0 <= k < |out.speakers| => out.speakers[k].text))
    ensures var out := Outputs(blocks, ftText, score);
            forall a, b :: 0 <= a < |out.speakers| && 0 <= b < |out.speakers| ==>
              (out.speakers[a].speaker == out.speakers[b].speaker <==> blocks[a].speaker == blocks[b].speaker)
  {
    var updated := Resegmented(blocks, ftText, score);
    FormattedAgree(updated, blocks);
  }

  /** The audio half: windows, valid embeddings, the number of speakers and
      the speaker turns, or the error that stops the pipeline. */
  method SpeakerTurns(samples: seq<real>, silent: seq<real> -> bool, valid: seq<bool>,
                      eigenvals: seq<real>, cluster: nat -> seq<nat>)
    returns (r: Result<seq<Turn>, PipelineError>)
    requires |valid| == |Segmenter.KeptStarts(samples, silent)|
    requires ValidCount(valid) >= 1 ==> |eigenvals| == MaxIndex(ValidCount(valid)) + 1
    requires forall k :: |cluster(k)| == ValidCount(valid)
    ensures ValidCount(valid) == 0 ==> r == Err(NoEmbeddings)
    ensures ValidCount(valid) == 1 ==> r == Err(TooFewEmbeddings)
    ensures ValidCount(valid) >= 2 ==> r == Ok(PipelineTurns(samples, silent, valid, eigenvals, cluster))
  {
    var segments, frameTimes := Segmenter.Segment(samples, silent);
    assert frameTimes == KeptTimes(samples, silent);
    var times := KeepValid(frameTimes, valid);
    var n := |times|;
    if n == 0 {
      return Err(NoEmbeddings);
    }
    var count := EstimateSpeakerCount(n, eigenvals);
    if count.Err? {
      return Err(count.error);
    }
    var labels := cluster(count.value);
    var turns := MergeTurns(labels, times);
    r := Ok(turns);
  }

  /** The text half: re-segment every block against the fine-tuned sentences
      and format the outputs. */
  method FormatOutputs(blocks: seq<Block>, ftText: string, score: Score) returns (out: Output)
    ensures out == Outputs(blocks, ftText, score)
  {
    var sentences := SplitSentences(Strip(ftText));
    var updated := Resegment(blocks, sentences, score);
    assert updated == Resegmented(blocks, ftText, score);
    out := Output(FullTranscript(updated), SpeakerJson(updated));
  }

  /** The whole pipeline. It stops with `NoEmbeddings` when no window is
      valid, with `TooFewEmbeddings` when only one is, and with
      `NoFineTunedText` when the fine-tuned recogniser gives no text;
      otherwise every unit is given the speaker of the turn it overlaps most,
      and the outputs are those of the blocks of the aligned units. */
  method RunFullPipeline(samples: seq<real>, silent: seq<real> -> bool, valid: seq<bool>,
                         eigenvals: seq<real>, cluster: nat -> seq<nat>,
                         units: seq<Unit>, ftText: Option<string>, score: Score)
    returns (r: Result<Output, PipelineError>)
    requires |valid| == |Segmenter.KeptStarts(samples, silent)|
    requires ValidCount(valid) >= 1 ==> |eigenvals| == MaxIndex(ValidCount(valid)) + 1
    requires forall k :: |cluster(k)| == ValidCount(valid)
    modifies set u | u in units
    ensures ValidCount(valid) == 0 ==> r == Err(NoEmbeddings)
    ensures ValidCount(valid) == 1 ==> r == Err(TooFewEmbeddings)
    ensures ValidCount(valid) < 2 ==> forall u :: u in units ==> u.speaker == old(u.speaker)
    ensures ValidCount(valid) >= 2 ==>
              forall k :: 0 <= k < |units| ==>
                units[k].speaker
                == AssignedSpeaker(units[k].start, units[k].end, PipelineTurns(samples, silent, valid, eigenvals, cluster))
    ensures ValidCount(valid) >= 2 && ftText.None? ==> r == Err(NoFineTunedText)
    ensures ValidCount(valid) >= 2 && ftText.Some? ==>
              r == Ok(Outputs(BlocksOf(Tags(units)), ftText.value, score))
  {
    var turns := SpeakerTurns(samples, silent, valid, eigenvals, cluster);
    if turns.Err? {
      return Err(turns.error);
    }
    AssignSpeakers(units, turns.value);
    var blocks := MergeBlocks(units);
    if ftText.None? {
      return Err(NoFineTunedText);
    }
    var out := FormatOutputs(blocks, ftText.value, score);
    r := Ok(out);
  }
}
