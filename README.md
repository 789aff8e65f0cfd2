# Speaker diarization pipeline: a verified model

This project models the core of `run_full_pipeline` in
`ktf_speaker_diarization.py`. The function takes a recording and returns two
things: a full transcript, and a list of speaker-labelled text blocks. It
works in these stages:

- **Segmenter.** It slides a 2.3 s window with a 0.4 s stride over the 16 kHz
  mono waveform and keeps the windows that are not silent.
- **Embeddings.** Windows whose embedding contains a NaN are dropped.
- **Speaker count.** The number of speakers is the position of the largest
  gap among the smallest normalised-Laplacian eigenvalues.
- **Turn merger.** It merges the per-window cluster labels into speaker
  turns.
- **Transcript aligner.** Each unit of the coarse transcript gets the speaker
  of the turn it overlaps most, or the sentinel `"?"` when it overlaps none.
- **Block merger.** It joins consecutive units with the same speaker into
  blocks.
- **Resegmenter.** It replaces each block's text with the run of one to
  three fine-tuned sentences that is most similar to it.
- **Output formatter.** It writes speaker ids as letters and builds the
  transcript and the speaker list.

The code has three kinds of step, and the model follows each kind:

- **Loops become methods.** Each loop in the source is a `method` with loop
  invariants, proved equal to a specification function: `Segment`,
  `MergeTurns`, `PickSpeaker`, `AssignSpeakers`, `MergeBlocks`,
  `FindBestComboMatch` and `Resegment`. The properties the code promises are
  lemmas about those functions.
- **Units are objects.** A transcribed unit is a `class` whose `speaker`
  field is set in place, as the source sets `seg.speaker`.
- **Computations become functions.** The stages that only compute a value
  are functions: the regular-expression sentence split, `strip`, `join`,
  the speaker-count estimate and the letter conversion.

The libraries the pipeline calls are parameters:

- the RMS silence test, as a predicate on windows;
- the NaN test on embeddings, as one flag per window;
- the eigenvalues;
- spectral clustering, as a function from the number of clusters to labels;
- both speech recognisers, as the units and an optional text;
- `SequenceMatcher.ratio`, as a scoring function.

Times are exact reals.

Facts about the code that the model keeps:

- The eigenvalues are taken up to index `min(9, N - 1)`, so at most nine
  speakers can be found.
- Each turn ends 2.3 s after the start of the next turn's first window, so
  neighbouring turns overlap (`TurnMerger.TurnTiming`).
- The `used_range` set in `find_best_combo_match` is modelled. It is a fresh
  empty set on every call, so its skip test never fires, and
  `FindBestComboMatch` is proved to return the best combination over every
  candidate.

Modules:

- `Wrappers`: `Option` and `Result`.
- `Text`: Python `strip` and `" ".join`.
- `ArgMax`: the first strictly best element, shared by `np.argmax` and the
  strict-improvement loops.
- `Segmenter`, `SpeakerCount`, `TurnMerger`, `TranscriptAligner`,
  `BlockMerger`, `Resegmenter` and `OutputFormatter`: one module per stage.
- `Pipeline`: the stages composed, with the pipeline's error exits.

## Model

| member | source | states |
|---|---|---|
| Segmenter.CandidateCount | ktf_speaker_diarization.py:59-64 | a candidate index c is in the loop's range exactly when the window starting at c*6400 fits in the audio |
| Segmenter.KeptStartsSpec | ktf_speaker_diarization.py:63-68 | every kept start is a multiple of the stride whose 36800-sample window fits; kept starts strictly increase; a start is kept exactly when it is such a candidate and its window is not silent |
| Segmenter.Segment | ktf_speaker_diarization.py:59-68 | the loop returns, in order, exactly the non-silent windows and their start times `i / 16000`, and the times strictly increase |
| Pipeline.KeepValid | ktf_speaker_diarization.py:82-84 | filtering the frame times by the validity flags leaves as many times as there are valid windows |
| Pipeline.KeepValidIncreasing | ktf_speaker_diarization.py:82-84 | the filtered frame times are all original times and still strictly increase, and a window's time is kept exactly when the window is valid |
| ArgMax.FirstArgMax | ktf_speaker_diarization.py:96 | `np.argmax`: an index whose value is at least every other and strictly greater than every earlier one |
| SpeakerCount.EstimateSpeakerCount | ktf_speaker_diarization.py:93-96 | fails exactly when there is a single embedding (no gap to take the argmax of); otherwise the speaker count is between 1 and min(9, N-1), its gap is the largest and strictly larger than every earlier gap |
| TurnMerger.MergeTurns | ktf_speaker_diarization.py:101-110 | the merging loop returns exactly the turns of the label sequence |
| TurnMerger.TurnCount | ktf_speaker_diarization.py:101-110 | there is one turn more than there are label changes between neighbouring windows |
| TurnMerger.TurnsAlternate | ktf_speaker_diarization.py:106-109 | neighbouring turns have different speakers |
| TurnMerger.WindowsOfTurn | ktf_speaker_diarization.py:101-110 | every window from a turn's first window up to the next turn's first window carries that turn's speaker |
| TurnMerger.LabelsConstantInTurn | ktf_speaker_diarization.py:104-109 | the labels do not change between one turn start and the next |
| TurnMerger.TurnTiming | ktf_speaker_diarization.py:102-110 | the first turn starts at the first frame time, the last ends 2.3 s after the last frame time, and every other turn ends 2.3 s after the next turn starts |
| TurnMerger.TurnsOrdered | ktf_speaker_diarization.py:101-110 | for increasing frame times, turn starts strictly increase and every turn starts before it ends |
| TurnMerger.SingleWindow | ktf_speaker_diarization.py:110 | one window gives one turn lasting 2.3 s |
| TurnMerger.TwoSpeakerScenario | ktf_speaker_diarization.py:101-110 | labels 0,0,1,1 at 0.0,0.4,0.8,1.2 s give the turns (0, 0.0, 3.1) and (1, 0.8, 3.5) |
| TranscriptAligner.Unit.constructor | ktf_speaker_diarization.py:120-128 | a unit keeps its times and text and starts without a speaker |
| TranscriptAligner.OverlapTime | ktf_speaker_diarization.py:117-118 | the overlap is never negative, is positive exactly when both intervals are non-empty and intersect, and is no longer than either interval |
| TranscriptAligner.OverlapSymmetric | ktf_speaker_diarization.py:117-118 | the overlap does not depend on the order of the two intervals |
| TranscriptAligner.BestTurn | ktf_speaker_diarization.py:120-127 | no turn is chosen exactly when every overlap is 0; otherwise the chosen turn's overlap is positive, at least every other and strictly greater than every earlier one |
| TranscriptAligner.PickSpeaker | ktf_speaker_diarization.py:121-127 | the inner loop returns the speaker of the first turn of largest positive overlap, or the sentinel |
| TranscriptAligner.AssignSpeakers | ktf_speaker_diarization.py:120-128 | after the loop every unit's speaker is the one the alignment gives its interval |
| TranscriptAligner.NoOverlapGivesSentinel | ktf_speaker_diarization.py:121-128 | a unit disjoint from every turn gets the sentinel `"?"` |
| BlockMerger.RunsOf | ktf_speaker_diarization.py:133-142 | there is no run exactly when there is no unit, and the last run has the last unit's speaker |
| BlockMerger.RunsPartition | ktf_speaker_diarization.py:133-142 | the runs, expanded back, give exactly the units' speakers and stripped texts in order |
| BlockMerger.RunsMaximal | ktf_speaker_diarization.py:136-142 | every run is non-empty, holds one speaker, and neighbouring runs differ in speaker |
| BlockMerger.MergeBlocks | ktf_speaker_diarization.py:130-144 | the merging loop returns exactly the blocks of the aligned units |
| BlockMerger.BlocksAlternate | ktf_speaker_diarization.py:136-144 | no unit gives no block, and neighbouring blocks have different speakers |
| BlockMerger.DroppedLastBlock | ktf_speaker_diarization.py:143-144 | there is one block per run, except that the last run is dropped when it is a single unit with blank text |
| Text.StripSpec | ktf_speaker_diarization.py:135 | `strip` gives the middle of the string with only whitespace removed on both sides, begins and ends with a non-space, and is empty exactly for all-whitespace input |
| Text.StripKeepsEnd | ktf_speaker_diarization.py:160 | stripping a string that ends in a non-space keeps its end |
| Text.JoinSpaceEmpty | ktf_speaker_diarization.py:137-144 | a space-join is empty exactly for no parts or one empty part |
| Text.JoinSpaceSnoc | ktf_speaker_diarization.py:137 | appending a part appends a space and the part |
| Resegmenter.MatchesAreMatches | ktf_speaker_diarization.py:160 | every match of `[^.?!]+[.?!]` is a non-empty terminator-free run followed by one terminator |
| Resegmenter.MatchFound | ktf_speaker_diarization.py:160 | a terminator-free run and its terminator, after empty text or a terminator, is yielded whole and the search resumes after it |
| Resegmenter.MatchesAppend | ktf_speaker_diarization.py:160 | text that is empty or ends in a terminator is matched independently of the text after it |
| Resegmenter.SentencesEndOnce | ktf_speaker_diarization.py:160 | every split sentence ends in its only terminator and neither starts nor ends with whitespace |
| Resegmenter.NoTerminatorNoMatch | ktf_speaker_diarization.py:160 | text without `.`, `?` or `!` yields no sentence |
| Resegmenter.TrailingTextDropped | ktf_speaker_diarization.py:160 | unterminated text after the last terminator yields no sentence |
| Resegmenter.CombosBeforeSpec | ktf_speaker_diarization.py:166-167 | the combinations tried before row i are exactly the valid runs (i, j) of 1 to 3 sentences with i below the row, in lexicographic order |
| Resegmenter.CombosValid | ktf_speaker_diarization.py:166-167 | every combination the loops try is a valid run of 1 to 3 sentences |
| Resegmenter.BestCombo | ktf_speaker_diarization.py:166-175 | the chosen combination, when there is one, is a valid run of sentences |
| Resegmenter.BestComboSpec | ktf_speaker_diarization.py:163-178 | nothing is chosen exactly when no combination scores above 0; otherwise the chosen one scores above 0, at least every other, and strictly above every combination tried earlier |
| Resegmenter.SearchStateIsFirstBest | ktf_speaker_diarization.py:163-175 | the running best score and text after any prefix of tries are the best positive score and the text of the first combination reaching it |
| Resegmenter.FindBestComboMatch | ktf_speaker_diarization.py:162-178 | the two loops return the text of the best combination, or the block text when none scores above 0 (the `used_range` skip never fires) |
| Resegmenter.Resegment | ktf_speaker_diarization.py:180-183 | one block out per block in, same speaker, text replaced by its best combination |
| Resegmenter.UniqueBestChosen | ktf_speaker_diarization.py:166-178 | a combination scoring above 0 and strictly above all others is the one chosen |
| Resegmenter.ExactSentenceChosen | ktf_speaker_diarization.py:162-178 | with a ratio in [0, 1], a block equal to one sentence gets a text of ratio 1, and that sentence itself when nothing else reaches 1 |
| OutputFormatter.NatToString | ktf_speaker_diarization.py:189 | `str(n)` is a non-empty run of decimal digits, at least two for n of 10 or more |
| OutputFormatter.NatToStringValue | ktf_speaker_diarization.py:189 | the digits of `str(n)` denote `n`, with no leading zero |
| OutputFormatter.NatToStringInjective | ktf_speaker_diarization.py:189 | different numbers give different decimal strings |
| OutputFormatter.SmallLabelLetter | ktf_speaker_diarization.py:185-187 | labels 0 to 25 become the letters A to Z |
| OutputFormatter.SpeakerLetterInjective | ktf_speaker_diarization.py:185-189 | different speakers, the sentinel included, get different letters |
| OutputFormatter.TranscriptMatchesJson | ktf_speaker_diarization.py:191-197 | the full transcript is the speaker list's texts joined by spaces |
| OutputFormatter.JsonKeepsSpeakers | ktf_speaker_diarization.py:185-197 | two entries share a letter exactly when their blocks share a speaker |
| Pipeline.OutputsEntries | ktf_speaker_diarization.py:180-197 | the speaker list has one entry per block, in block order, each with its block speaker's letter and the text of the block's best sentence combination |
| Pipeline.OutputsAgree | ktf_speaker_diarization.py:191-197 | the full transcript is the speaker list's texts joined by spaces, and two entries share a letter exactly when their blocks share a speaker |
| Pipeline.SpeakerTurns | ktf_speaker_diarization.py:59-110 | no valid window fails with no embeddings, one fails with too few, otherwise the turns of the clustered labels at the valid frame times |
| Pipeline.FormatOutputs | ktf_speaker_diarization.py:159-197 | the outputs are those of the blocks re-segmented against the stripped fine-tuned text |
| Pipeline.RunFullPipeline | ktf_speaker_diarization.py:59-199 | the three error exits each happen under exactly their condition; the two embedding errors leave every unit unchanged; otherwise every unit has its aligned speaker and the result is the outputs of the blocks of the aligned units |

## Left out

- Loading, resampling and down-mixing the audio file is left out. The model
  starts from 16 kHz mono samples.
- The RMS silence test `is_silent` is a floating-point computation. It is a
  parameter predicate on windows.
- The speaker-embedding model is a neural network and is left out. Only its
  effect is modelled: one NaN flag per kept window.
- A window whose embedding raises an exception is skipped by the source, which
  then misaligns embeddings and frame times. The model assumes every kept
  window is encoded.
- Cosine distances, the normalised Laplacian, `eigh` and spectral clustering
  are numerical library calls. The eigenvalues and the clustering are
  parameters.
- Both speech recognisers are left out. The coarse transcript is the given
  units, and the fine-tuned result is an optional text; its absence is the
  `"text" not in ft_result` error.
- `SequenceMatcher(...).ratio()` is left out. The score is a parameter
  function.
- The web service, file upload and tunnel around the pipeline are not part of
  this model.
- Floating-point rounding is left out. Times and scores are exact reals;
  `int(2.3 * 16000)` is 36800 and `int(0.4 * 16000)` is 6400.
- Before alignment the source's units have no `speaker` attribute; the model
  starts them at the sentinel, and every unit is assigned before it is read.
- OutputFormatter.SpeakerLetter: for labels from 0xD800 - 65 to 0xDFFF - 65,
  Python's `chr` returns a lone surrogate; the model returns the decimal string
  instead, because a Dafny `char` cannot hold a surrogate.
