/** The second half of the TranscriptAligner: consecutive units with the same
    speaker are merged into one block whose text is the space-joined, stripped
    texts of the units. */
module BlockMerger {
  import opened Wrappers
  import opened Text
  import opened TranscriptAligner

  /** A unit's speaker and raw text, as the merge loop reads them. */
  datatype Tagged = Tagged(speaker: Speaker, text: string)

  /** A maximal run of consecutive units with one speaker: their stripped texts. */
  datatype Run = Run(speaker: Speaker, texts: seq<string>)

  /** An aligned block: a speaker and the text attributed to it. */
  datatype Block = Block(speaker: Speaker, text: string)

  /** The speakers and texts of the units, in order. */
  function Tags(units: seq<Unit>): (items: seq<Tagged>)
    reads set u | u in units
    ensures |items| == |units|
    ensures forall k :: 0 <= k < |units| ==> items[k] == Tagged(units[k].speaker, units[k].text)
  {
    if units == [] then []
    else Tags(units[..|units| - 1]) + [Tagged(units[|units| - 1].speaker, units[|units| - 1].text)]
  }

  /** The units with their texts stripped. */
  function StripTexts(items: seq<Tagged>): seq<Tagged>
  {
    seq(|items|, k requires 0 <= k < |items| => Tagged(items[k].speaker, Strip(items[k].text)))
  }

  /** The units of a run, one per text. */
  function RunUnits(run: Run): seq<Tagged>
  {
    seq(|run.texts|, k requires 0 <= k < |run.texts| => Tagged(run.speaker, run.texts[k]))
  }

  /** The units of a sequence of runs, run after run. */
  function Expand(runs: seq<Run>): seq<Tagged>
  {
    if runs == [] then [] else Expand(runs[..|runs| - 1]) + RunUnits(runs[|runs| - 1])
  }

  /** The runs after reading one more unit: it joins the last run when it
      has that run's speaker, and starts a new run otherwise. */
  function AddUnit(runs: seq<Run>, x: Tagged): (grown: seq<Run>)
    ensures grown != [] && grown[|grown| - 1].speaker == x.speaker
  {
    if runs != [] && runs[|runs| - 1].speaker == x.speaker
    then runs[..|runs| - 1] + [Run(x.speaker, runs[|runs| - 1].texts + [Strip(x.text)])]
    else runs + [Run(x.speaker, [Strip(x.text)])]
  }

  /** The same-speaker runs of the units, in order: none exactly for no
      units, and the last run has the last unit's speaker. */
  function RunsOf(items: seq<Tagged>): (runs: seq<Run>)
    ensures runs == [] <==> items == []
    ensures runs != [] ==> runs[|runs| - 1].speaker == items[|items| - 1].speaker
  {
    if items == [] then [] else AddUnit(RunsOf(items[..|items| - 1]), items[|items| - 1])
  }

  lemma {:induction false} StripTextsSnoc(items: seq<Tagged>, x: Tagged)
    ensures StripTexts(items + [x]) == StripTexts(items) + [Tagged(x.speaker, Strip(x.text))]
  {
    var a := StripTexts(items + [x]);
    var b := StripTexts(items) + [Tagged(x.speaker, Strip(x.text))];
    forall k | 0 <= k < |a| ensures a[k] == b[k] {
      if k < |items| { assert (items + [x])[k] == items[k]; }
    }
  }

  lemma {:induction false} RunUnitsSnoc(speaker: Speaker, texts: seq<string>, t: string)
    ensures RunUnits(Run(speaker, texts + [t])) == RunUnits(Run(speaker, texts)) + [Tagged(speaker, t)]
  {
    var a := RunUnits(Run(speaker, texts + [t]));
    var b := RunUnits(Run(speaker, texts)) + [Tagged(speaker, t)];
    forall k | 0 <= k < |a| ensures a[k] == b[k] {
    }
  }

  lemma {:induction false} ExpandSnoc(runs: seq<Run>, r: Run)
    ensures Expand(runs + [r]) == Expand(runs) + RunUnits(r)
  {
    assert (runs + [r])[..|runs|] == runs;
  }

  /** Extending the last run by one unit extends its units by that unit. */
  lemma {:induction false} ExpandGrow(runs: seq<Run>, t: string)
    requires runs != []
    ensures var last := runs[|runs| - 1];
            Expand(runs[..|runs| - 1] + [Run(last.speaker, last.texts + [t])])
            == Expand(runs) + [Tagged(last.speaker, t)]
  {
    var last := runs[|runs| - 1];
    var init := runs[..|runs| - 1];
    RunUnitsSnoc(last.speaker, last.texts, t);
    ExpandSnoc(init, Run(last.speaker, last.texts + [t]));
    assert runs == init + [last];
    ExpandSnoc(init, last);
  }

  /** Starting a run with one unit appends that unit. */
  lemma {:induction false} ExpandStart(runs: seq<Run>, speaker: Speaker, t: string)
    ensures Expand(runs + [Run(speaker, [t])]) == Expand(runs) + [Tagged(speaker, t)]
  {
    assert RunUnits(Run(speaker, [t])) == [Tagged(speaker, t)];
    ExpandSnoc(runs, Run(speaker, [t]));
  }

  /** One more unit either extends the last run or starts a new one. */
  lemma RunsOfSnoc(items: seq<Tagged>, x: Tagged)
    ensures RunsOf(items + [x]) == AddUnit(RunsOf(items), x)
  {
    assert (items + [x])[..|items|] == items;
  }

  /** Runs none of which is empty and no two consecutive of which share a speaker. */
  predicate Maximal(runs: seq<Run>)
  {
    && (forall j :: 0 <= j < |runs| ==> runs[j].texts != [])
    && (forall j :: 0 <= j < |runs| - 1 ==> runs[j].speaker != runs[j + 1].speaker)
  }

  /** Reading one more unit keeps the runs maximal. */
  lemma AddUnitMaximal(runs: seq<Run>, x: Tagged)
    requires Maximal(runs)
    ensures Maximal(AddUnit(runs, x))
  {
    var r := AddUnit(runs, x);
    if runs != [] && runs[|runs| - 1].speaker == x.speaker {
      assert forall j :: 0 <= j < |runs| - 1 ==> r[j] == runs[j];
    } else {
      assert forall j :: 0 <= j < |runs| ==> r[j] == runs[j];
    }
  }

  /** The runs are maximal: none is empty, and two consecutive runs never
      share a speaker. */
  lemma {:induction false} RunsMaximal(items: seq<Tagged>)
    ensures Maximal(RunsOf(items))
  {
    if items != [] {
      var prefix := items[..|items| - 1];
      RunsMaximal(prefix);
      AddUnitMaximal(RunsOf(prefix), items[|items| - 1]);
    }
  }

  /** The partition is kept when one more unit is read. */
  lemma {:induction false} PartitionSnoc(prefix: seq<Tagged>, x: Tagged)
    requires Expand(RunsOf(prefix)) == StripTexts(prefix)
    ensures Expand(RunsOf(prefix + [x])) == StripTexts(prefix + [x])
  {
    var runs := RunsOf(prefix);
    StripTextsSnoc(prefix, x);
    RunsOfSnoc(prefix, x);
    if runs != [] && runs[|runs| - 1].speaker == x.speaker {
      ExpandGrow(runs, Strip(x.text));
    } else {
      ExpandStart(runs, x.speaker, Strip(x.text));
    }
  }

  /** Read run after run, the runs give back every unit, in order, with its
      text stripped: the runs partition the units. */
  lemma {:induction false} RunsPartition(items: seq<Tagged>)
    ensures Expand(RunsOf(items)) == StripTexts(items)
  {
    if items != [] {
      var prefix := items[..|items| - 1];
      var x := items[|items| - 1];
      assert items == prefix + [x];
      RunsPartition(prefix);
      PartitionSnoc(prefix, x);
    }
  }

  /** One block per run: its speaker and its stripped, space-joined texts. */
  function BlocksOfRuns(runs: seq<Run>): seq<Block>
  {
    seq(|runs|, j requires 0 <= j < |runs| => Block(runs[j].speaker, Strip(JoinSpace(runs[j].texts))))
  }

  /** The blocks the merge produces: one per run, except that the last run is
      dropped when its joined text is the empty string. */
  function BlocksOf(items: seq<Tagged>): seq<Block>
  {
    var runs := RunsOf(items);
    if runs != [] && JoinSpace(runs[|runs| - 1].texts) == ""
    then BlocksOfRuns(runs[..|runs| - 1])
    else BlocksOfRuns(runs)
  }

  /** The merge loop's state after some units: the blocks of all runs but
      the open one, whose speaker is `prev` and whose joined text is `buffer`. */
  ghost predicate OpenRun(blocks: seq<Block>, prev: Option<Speaker>, buffer: string, runs: seq<Run>)
  {
    && runs != []
    && prev == Some(runs[|runs| - 1].speaker)
    && buffer == JoinSpace(runs[|runs| - 1].texts)
    && blocks == BlocksOfRuns(runs[..|runs| - 1])
  }

  /** A unit with the open run's speaker extends the run. */
  lemma {:induction false} ExtendRun(blocks: seq<Block>, prev: Option<Speaker>, buffer: string, items: seq<Tagged>, x: Tagged)
    requires items != [] && OpenRun(blocks, prev, buffer, RunsOf(items))
    requires prev == Some(x.speaker)
    ensures OpenRun(blocks, prev, buffer + " " + Strip(x.text), RunsOf(items + [x]))
  {
    var runs := RunsOf(items);
    assert (items + [x])[..|items|] == items;
    JoinSpaceSnoc(runs[|runs| - 1].texts, Strip(x.text));
    var grown := RunsOf(items + [x]);
    assert grown[..|grown| - 1] == runs[..|runs| - 1];
  }

  /** A unit with another speaker closes the open run and starts a new one. */
  lemma {:induction false} StartRun(blocks: seq<Block>, prev: Option<Speaker>, buffer: string, items: seq<Tagged>, x: Tagged)
    requires items == [] ==> prev == None && blocks == []
    requires items != [] ==> OpenRun(blocks, prev, buffer, RunsOf(items))
    requires prev != Some(x.speaker)
    ensures OpenRun(if prev.Some? then blocks + [Block(prev.value, Strip(buffer))] else blocks,
                    Some(x.speaker), Strip(x.text), RunsOf(items + [x]))
  {
    var runs := RunsOf(items);
    RunsOfSnoc(items, x);
    var grown := RunsOf(items + [x]);
    assert grown == runs + [Run(x.speaker, [Strip(x.text)])];
    assert grown[..|grown| - 1] == runs;
    if items != [] {
      var init := runs[..|runs| - 1];
      assert runs == init + [runs[|runs| - 1]];
      BlocksOfRunsSnoc(init, runs[|runs| - 1]);
    }
  }

  /** One more run adds its block at the end. */
  lemma BlocksOfRunsSnoc(runs: seq<Run>, r: Run)
    ensures BlocksOfRuns(runs + [r]) == BlocksOfRuns(runs) + [Block(r.speaker, Strip(JoinSpace(r.texts)))]
  {
    var rs := runs + [r];
    var a := BlocksOfRuns(rs);
    var b := BlocksOfRuns(runs);
    assert |a| == |b| + 1;
    assert a[..|runs|] == b by {
      forall j | 0 <= j < |runs| ensures a[j] == b[j] {
        assert rs[j] == runs[j];
      }
    }
    assert a == a[..|runs|] + [a[|runs|]];
  }

  /** After the last unit, the open run becomes the last block unless its
      joined text is empty. */
  lemma {:induction false} FinishBlocks(blocks: seq<Block>, prev: Option<Speaker>, buffer: string, items: seq<Tagged>)
    requires items != [] && OpenRun(blocks, prev, buffer, RunsOf(items))
    ensures (if buffer != "" then blocks + [Block(prev.value, Strip(buffer))] else blocks) == BlocksOf(items)
  {
    var runs := RunsOf(items);
    var init := runs[..|runs| - 1];
    assert runs == init + [runs[|runs| - 1]];
    BlocksOfRunsSnoc(init, runs[|runs| - 1]);
  }

  /** The merge loop's variables (blocks, previous speaker, buffer) after
      reading `items`, one unit at a time. */
  ghost function MergeState(items: seq<Tagged>): (seq<Block>, Option<Speaker>, string)
  {
    if items == [] then ([], None, "")
    else
      var state := MergeState(items[..|items| - 1]);
      var x := items[|items| - 1];
      if Some(x.speaker) == state.1 then (state.0, state.1, state.2 + " " + Strip(x.text))
      else ((if state.1.Some? then state.0 + [Block(state.1.value, Strip(state.2))] else state.0),
            Some(x.speaker), Strip(x.text))
  }

  /** Reading one more unit is one step of the loop. */
  lemma MergeStateSnoc(items: seq<Tagged>, x: Tagged)
    ensures var state := MergeState(items);
            MergeState(items + [x])
            == if Some(x.speaker) == state.1 then (state.0, state.1, state.2 + " " + Strip(x.text))
               else ((if state.1.Some? then state.0 + [Block(state.1.value, Strip(state.2))] else state.0),
                     Some(x.speaker), Strip(x.text))
  {
    assert (items + [x])[..|items|] == items;
  }

  /** After some units, the loop holds the blocks of every closed run and the
      open run's speaker and joined text. */
  lemma {:induction false} MergeStateOpen(items: seq<Tagged>)
    requires items != []
    ensures OpenRun(MergeState(items).0, MergeState(items).1, MergeState(items).2, RunsOf(items))
  {
    var prefix := items[..|items| - 1];
    var x := items[|items| - 1];
    assert items == prefix + [x];
    var state := MergeState(prefix);
    if prefix != [] {
      MergeStateOpen(prefix);
    }
    MergeStateSnoc(prefix, x);
    if Some(x.speaker) == state.1 {
      ExtendRun(state.0, state.1, state.2, prefix, x);
    } else {
      StartRun(state.0, state.1, state.2, prefix, x);
    }
  }

  /** After the last unit, flushing a non-empty buffer gives the blocks of
      the units. */
  lemma MergeStateDone(items: seq<Tagged>)
    ensures var state := MergeState(items);
            && (state.2 != "" ==> state.1.Some?)
            && (if state.2 != "" then state.0 + [Block(state.1.value, Strip(state.2))] else state.0) == BlocksOf(items)
  {
    if items != [] {
      var state := MergeState(items);
      MergeStateOpen(items);
      FinishBlocks(state.0, state.1, state.2, items);
    }
  }

  /** The first `i + 1` units are the first `i` and unit `i`. */
  lemma TakeOneMore(items: seq<Tagged>, i: nat)
    requires i < |items|
    ensures items[..i + 1] == items[..i] + [items[i]]
  {
  }

  /** The merge loop over the aligned units. */
  method MergeBlocks(units: seq<Unit>) returns (blocks: seq<Block>)
    ensures blocks == BlocksOf(Tags(units))
  {
    ghost var items := Tags(units);
    blocks := [];
    var prev: Option<Speaker> := None;
    var buffer := "";
    for i := 0 to |units|
      invariant (blocks, prev, buffer) == MergeState(items[..i])
    {
      var speaker := units[i].speaker;
      var text := Strip(units[i].text);
      TakeOneMore(items, i);
      MergeStateSnoc(items[..i], items[i]);
      if Some(speaker) == prev {
        buffer := buffer + " " + text;
      } else {
        if prev.Some? {
          blocks := blocks + [Block(prev.value, Strip(buffer))];
        }
        buffer := text;
        prev := Some(speaker);
      }
    }
    assert items[..|units|] == items;
    MergeStateDone(items);
    if buffer != "" {
      blocks := blocks + [Block(prev.value, Strip(buffer))];
    }
  }

  /** Two consecutive blocks never have the same speaker, and no units give no blocks. */
  lemma {:induction false} BlocksAlternate(items: seq<Tagged>)
    ensures items == [] ==> BlocksOf(items) == []
    ensures forall j :: 0 <= j < |BlocksOf(items)| - 1 ==>
              BlocksOf(items)[j].speaker != BlocksOf(items)[j + 1].speaker
  {
    RunsMaximal(items);
  }

  /** Only the last run can be dropped, and only when it is a single unit
      whose text is blank; every other block keeps its run's text, even an
      empty one. */
  lemma {:induction false} DroppedLastBlock(items: seq<Tagged>)
    requires items != []
    ensures var runs := RunsOf(items);
            |BlocksOf(items)| == |runs| - (if |runs[|runs| - 1].texts| == 1 && runs[|runs| - 1].texts[0] == "" then 1 else 0)
    ensures forall j :: 0 <= j < |BlocksOf(items)| ==>
              BlocksOf(items)[j] == Block(RunsOf(items)[j].speaker, Strip(JoinSpace(RunsOf(items)[j].texts)))
  {
    var runs := RunsOf(items);
    RunsMaximal(items);
    JoinSpaceEmpty(runs[|runs| - 1].texts);
  }
}
