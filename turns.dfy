/** The TurnMerger: collapses the per-window cluster labels into speaker
    turns. A turn that is closed because the label changes at window `i` ends
    at `frameTimes[i] + 2.3`; the last turn ends at the last window's start
    plus 2.3. */
module TurnMerger {

  /** Length of one window in seconds. */
  const SegmentDuration: real := 2.3

  datatype Turn = Turn(speaker: nat, start: real, end: real)

  /** The windows `i` in `1 .. c - 1` whose label differs from the previous one. */
  function ChangesBefore(labels: seq<nat>, c: nat): (cs: seq<nat>)
    requires c <= |labels|
    ensures forall k :: 0 <= k < |cs| ==> 1 <= cs[k] < c
    ensures forall a, b :: 0 <= a < b < |cs| ==> cs[a] < cs[b]
    ensures forall i :: i in cs <==> i < c && IsChange(labels, i)
  {
    if c <= 1 then []
    else ChangesBefore(labels, c - 1) + (if labels[c - 1] != labels[c - 2] then [c - 1] else [])
  }

  /** The first window of every turn among the first `c` windows. */
  function TurnStarts(labels: seq<nat>, c: nat): (s: seq<nat>)
    requires 1 <= c <= |labels|
    ensures |s| >= 1 && s[0] == 0
    ensures forall k :: 0 <= k < |s| ==> s[k] < c
    ensures forall a, b :: 0 <= a < b < |s| ==> s[a] < s[b]
  {
    [0] + ChangesBefore(labels, c)
  }

  /** The label at window `i` differs from the label of the window before. */
  predicate IsChange(labels: seq<nat>, i: int)
  {
    1 <= i < |labels| && labels[i] != labels[i - 1]
  }

  /** The number of label changes in the label sequence. */
  function NumChanges(labels: seq<nat>): nat
  {
    |set i | 0 <= i < |labels| && IsChange(labels, i)|
  }

  /** The turns the merge loop produces, described by where they start. */
  function TurnsOf(labels: seq<nat>, frameTimes: seq<real>): seq<Turn>
    requires |labels| == |frameTimes| > 0
  {
    var s := TurnStarts(labels, |labels|);
    seq(|s|, j requires 0 <= j < |s| =>
      Turn(labels[s[j]], frameTimes[s[j]],
           if j + 1 < |s| then frameTimes[s[j + 1]] + SegmentDuration
           else frameTimes[|frameTimes| - 1] + SegmentDuration))
  }

  /** `merged` holds the closed turns: one per listed turn start but the last,
      each ending 2.3 s after the next turn starts. */
  ghost predicate ClosedTurns(merged: seq<Turn>, labels: seq<nat>, frameTimes: seq<real>, starts: seq<nat>)
    requires |labels| == |frameTimes|
    requires forall k :: 0 <= k < |starts| ==> starts[k] < |labels|
  {
    && |merged| + 1 == |starts|
    && forall j :: 0 <= j < |merged| ==>
         merged[j] == Turn(labels[starts[j]], frameTimes[starts[j]], frameTimes[starts[j + 1]] + SegmentDuration)
  }

  /** Looking at one more window adds a turn start exactly at a label change. */
  lemma TurnStartsStep(labels: seq<nat>, i: nat)
    requires 1 <= i < |labels|
    ensures TurnStarts(labels, i + 1) ==
              TurnStarts(labels, i) + (if labels[i] != labels[i - 1] then [i] else [])
  {
  }

  /** Closing the open turn at window `i` keeps the closed turns in step with the starts. */
  lemma CloseTurn(merged: seq<Turn>, labels: seq<nat>, frameTimes: seq<real>, starts: seq<nat>, i: nat)
    requires |labels| == |frameTimes| && i < |labels| && |starts| > 0
    requires forall k :: 0 <= k < |starts| ==> starts[k] < |labels|
    requires ClosedTurns(merged, labels, frameTimes, starts)
    ensures ClosedTurns(merged + [Turn(labels[starts[|starts| - 1]], frameTimes[starts[|starts| - 1]],
                                       frameTimes[i] + SegmentDuration)],
                        labels, frameTimes, starts + [i])
  {
  }

  /** The merge loop's state before window `i`: the closed turns, and the
      open turn's speaker (the label of window `i - 1`) and start time. */
  ghost predicate ScanState(merged: seq<Turn>, currentSpeaker: nat, startTime: real,
                            labels: seq<nat>, frameTimes: seq<real>, i: nat)
    requires |labels| == |frameTimes| && 1 <= i <= |labels|
  {
    var starts := TurnStarts(labels, i);
    && currentSpeaker == labels[i - 1] == labels[starts[|starts| - 1]]
    && startTime == frameTimes[starts[|starts| - 1]]
    && ClosedTurns(merged, labels, frameTimes, starts)
  }

  /** One pass of the merge loop: a new label closes the open turn at window
      `i` and opens one there; the same label changes nothing. */
  lemma ScanStep(merged: seq<Turn>, currentSpeaker: nat, startTime: real,
                 labels: seq<nat>, frameTimes: seq<real>, i: nat)
    requires |labels| == |frameTimes| && 1 <= i < |labels|
    requires ScanState(merged, currentSpeaker, startTime, labels, frameTimes, i)
    ensures labels[i] != currentSpeaker ==>
              ScanState(merged + [Turn(currentSpeaker, startTime, frameTimes[i] + SegmentDuration)],
                        labels[i], frameTimes[i], labels, frameTimes, i + 1)
    ensures labels[i] == currentSpeaker ==>
              ScanState(merged, currentSpeaker, startTime, labels, frameTimes, i + 1)
  {
    TurnStartsStep(labels, i);
    if labels[i] != currentSpeaker {
      CloseTurn(merged, labels, frameTimes, TurnStarts(labels, i), i);
    }
  }

  /** Closing the last turn at the end of the scan gives exactly the turns. */
  lemma CloseLastTurn(merged: seq<Turn>, currentSpeaker: nat, startTime: real,
                      labels: seq<nat>, frameTimes: seq<real>)
    requires |labels| == |frameTimes| > 0
    requires ScanState(merged, currentSpeaker, startTime, labels, frameTimes, |labels|)
    ensures merged + [Turn(currentSpeaker, startTime, frameTimes[|frameTimes| - 1] + SegmentDuration)]
            == TurnsOf(labels, frameTimes)
  {
  }

  /** The merge loop over the labels of the valid windows. */
  method MergeTurns(labels: seq<nat>, frameTimes: seq<real>) returns (merged: seq<Turn>)
    requires |labels| == |frameTimes| > 0
    ensures merged == TurnsOf(labels, frameTimes)
  {
    merged := [];
    var currentSpeaker := labels[0];
    var startTime := frameTimes[0];
    for i := 1 to |labels|
      invariant ScanState(merged, currentSpeaker, startTime, labels, frameTimes, i)
    {
      ScanStep(merged, currentSpeaker, startTime, labels, frameTimes, i);
      var endTime := frameTimes[i] + SegmentDuration;
      if labels[i] != currentSpeaker {
        merged := merged + [Turn(currentSpeaker, startTime, endTime)];
        currentSpeaker := labels[i];
        startTime := frameTimes[i];
      }
    }
    CloseLastTurn(merged, currentSpeaker, startTime, labels, frameTimes);
    merged := merged + [Turn(currentSpeaker, startTime, frameTimes[|frameTimes| - 1] + SegmentDuration)];
  }

  /** The windows before `c` at which the label changes. */
  ghost function ChangeSet(labels: seq<nat>, c: nat): set<int>
  {
    set i | 0 <= i < c && IsChange(labels, i)
  }

  /** One more window adds one change exactly when its label differs from the one before. */
  lemma ChangeSetStep(labels: seq<nat>, c: nat)
    requires 1 < c <= |labels|
    ensures |ChangeSet(labels, c)| == |ChangeSet(labels, c - 1)| + (if IsChange(labels, c - 1) then 1 else 0)
  {
    var before := ChangeSet(labels, c - 1);
    if IsChange(labels, c - 1) {
      assert ChangeSet(labels, c) == before + {c - 1};
    } else {
      assert ChangeSet(labels, c) == before;
    }
  }

  /** The changes among the first `c` windows, counted as a set. */
  lemma {:induction false} ChangesCount(labels: seq<nat>, c: nat)
    requires c <= |labels|
    ensures |ChangesBefore(labels, c)| == |ChangeSet(labels, c)|
  {
    if c > 1 {
      ChangesCount(labels, c - 1);
      ChangeSetStep(labels, c);
    }
  }

  /** There is one more turn than there are label changes. */
  lemma TurnCount(labels: seq<nat>, frameTimes: seq<real>)
    requires |labels| == |frameTimes| > 0
    ensures |TurnsOf(labels, frameTimes)| == NumChanges(labels) + 1
  {
    ChangesCount(labels, |labels|);
  }

  /** All windows from one turn start up to the next have the turn's label. */
  lemma {:induction false} LabelsConstantInTurn(labels: seq<nat>, j: nat, k: nat)
    requires |labels| > 0
    requires j < |TurnStarts(labels, |labels|)|
    requires TurnStarts(labels, |labels|)[j] <= k < |labels|
    requires j + 1 < |TurnStarts(labels, |labels|)| ==> k < TurnStarts(labels, |labels|)[j + 1]
    ensures labels[k] == labels[TurnStarts(labels, |labels|)[j]]
  {
    var s := TurnStarts(labels, |labels|);
    if k > s[j] {
      LabelsConstantInTurn(labels, j, k - 1);
      var cs := ChangesBefore(labels, |labels|);
      assert k !in cs;
      assert !IsChange(labels, k);
    }
  }

  /** The first windows of two consecutive turns carry different labels. */
  lemma AdjacentStartsDiffer(labels: seq<nat>, j: nat)
    requires |labels| > 0
    requires j + 1 < |TurnStarts(labels, |labels|)|
    ensures labels[TurnStarts(labels, |labels|)[j]] != labels[TurnStarts(labels, |labels|)[j + 1]]
  {
    var s := TurnStarts(labels, |labels|);
    var cs := ChangesBefore(labels, |labels|);
    assert s[j + 1] == cs[j];
    assert s[j + 1] in cs;
    assert IsChange(labels, s[j + 1]);
    LabelsConstantInTurn(labels, j, s[j + 1] - 1);
  }

  /** Two consecutive turns never have the same speaker. */
  lemma TurnsAlternate(labels: seq<nat>, frameTimes: seq<real>)
    requires |labels| == |frameTimes| > 0
    ensures forall j :: 0 <= j < |TurnsOf(labels, frameTimes)| - 1 ==>
              TurnsOf(labels, frameTimes)[j].speaker != TurnsOf(labels, frameTimes)[j + 1].speaker
  {
    var t := TurnsOf(labels, frameTimes);
    forall j | 0 <= j < |t| - 1 ensures t[j].speaker != t[j + 1].speaker {
      AdjacentStartsDiffer(labels, j);
    }
  }

  /** Every window from a turn's first window up to the next turn's first
      window carries that turn's speaker. */
  lemma WindowsOfTurn(labels: seq<nat>, frameTimes: seq<real>)
    requires |labels| == |frameTimes| > 0
    ensures forall j, k :: 0 <= j < |TurnsOf(labels, frameTimes)| && TurnStarts(labels, |labels|)[j] <= k < |labels|
              && (j + 1 < |TurnsOf(labels, frameTimes)| ==> k < TurnStarts(labels, |labels|)[j + 1])
              ==> labels[k] == TurnsOf(labels, frameTimes)[j].speaker
  {
    var s := TurnStarts(labels, |labels|);
    var t := TurnsOf(labels, frameTimes);
    assert |t| == |s|;
    assert forall j :: 0 <= j < |t| ==> t[j].speaker == labels[s[j]];
    forall j, k | 0 <= j < |s| && s[j] <= k < |labels| && (j + 1 < |s| ==> k < s[j + 1])
      ensures labels[k] == labels[s[j]]
    {
      LabelsConstantInTurn(labels, j, k);
    }
  }

  /** A single window yields exactly one turn, from its start to 2.3 s later. */
  lemma SingleWindow(speaker: nat, t0: real)
    ensures TurnsOf([speaker], [t0]) == [Turn(speaker, t0, t0 + 2.3)]
  {
    assert TurnStarts([speaker], 1) == [0];
  }

  /** Turn timing: the first turn starts at the first window, the last ends
      2.3 s after the last window starts, and every other turn ends 2.3 s
      after the next one starts (so consecutive turns overlap by 2.3 s). */
  lemma TurnTiming(labels: seq<nat>, frameTimes: seq<real>)
    requires |labels| == |frameTimes| > 0
    ensures TurnsOf(labels, frameTimes)[0].start == frameTimes[0]
    ensures TurnsOf(labels, frameTimes)[|TurnsOf(labels, frameTimes)| - 1].end
              == frameTimes[|frameTimes| - 1] + SegmentDuration
    ensures forall j :: 0 <= j < |TurnsOf(labels, frameTimes)| - 1 ==>
              TurnsOf(labels, frameTimes)[j].end == TurnsOf(labels, frameTimes)[j + 1].start + SegmentDuration
  {
  }

  /** With strictly increasing window times, turn starts are strictly
      increasing and every turn ends after it starts. */
  lemma TurnsOrdered(labels: seq<nat>, frameTimes: seq<real>)
    requires |labels| == |frameTimes| > 0
    requires forall a, b :: 0 <= a < b < |frameTimes| ==> frameTimes[a] < frameTimes[b]
    ensures forall j :: 0 <= j < |TurnsOf(labels, frameTimes)| - 1 ==>
              TurnsOf(labels, frameTimes)[j].start < TurnsOf(labels, frameTimes)[j + 1].start
    ensures forall j :: 0 <= j < |TurnsOf(labels, frameTimes)| ==>
              TurnsOf(labels, frameTimes)[j].start < TurnsOf(labels, frameTimes)[j].end
  {
    var s := TurnStarts(labels, |labels|);
    var t := TurnsOf(labels, frameTimes);
    forall j | 0 <= j < |t| ensures t[j].start < t[j].end {
      if j + 1 < |t| {
        assert frameTimes[s[j]] < frameTimes[s[j + 1]];
      } else {
        assert s[j] <= |frameTimes| - 1;
        assert frameTimes[s[j]] <= frameTimes[|frameTimes| - 1];
      }
    }
  }

  /** Two windows labelled 0 followed by two labelled 1, 0.4 s apart. */
  lemma TwoSpeakerScenario()
    ensures TurnsOf([0, 0, 1, 1], [0.0, 0.4, 0.8, 1.2]) == [Turn(0, 0.0, 3.1), Turn(1, 0.8, 3.5)]
  {
    var labels: seq<nat> := [0, 0, 1, 1];
    assert ChangesBefore(labels, 2) == [];
    assert ChangesBefore(labels, 3) == [2];
    assert ChangesBefore(labels, 4) == [2];
    var times := [0.0, 0.4, 0.8, 1.2];
    var s := TurnStarts(labels, 4);
    assert s == [0, 2];
    var t := TurnsOf(labels, times);
    assert |t| == 2;
    assert t[0] == Turn(labels[0], times[0], times[2] + SegmentDuration);
    assert t[1] == Turn(labels[2], times[2], times[3] + SegmentDuration);
  }
}
