/** The first half of the TranscriptAligner: every transcribed unit gets the
    speaker of the turn it overlaps most, or the sentinel "?" when it overlaps
    no turn. The units are objects whose `speaker` attribute is set in place. */
module TranscriptAligner {
  import opened Wrappers
  import ArgMax
  import opened TurnMerger

  /** A speaker attribute: a cluster label, or the sentinel `"?"`. */
  datatype Speaker = Label(id: nat) | Unknown

  /** A timed piece of text from the coarse transcriber. Its times and text
      are never changed here; its speaker is filled in by the alignment. */
  class Unit {
    const start: real
    const end: real
    const text: string
    var speaker: Speaker

    /** A unit as the transcriber delivers it, before alignment. */
    constructor (start: real, end: real, text: string)
      ensures this.start == start && this.end == end && this.text == text
      ensures speaker == Unknown
    {
      this.start := start;
      this.end := end;
      this.text := text;
      speaker := Unknown;
    }
  }

  /** `overlap_time`: the length of the common part of two intervals, or 0. */
  function OverlapTime(aStart: real, aEnd: real, bStart: real, bEnd: real): (r: real)
    ensures r >= 0.0
    ensures r > 0.0 <==> aStart < aEnd && bStart < bEnd && aStart < bEnd && bStart < aEnd
    ensures r > 0.0 ==> r <= aEnd - aStart && r <= bEnd - bStart
  {
    var lo := if aStart >= bStart then aStart else bStart;
    var hi := if aEnd <= bEnd then aEnd else bEnd;
    if 0.0 >= hi - lo then 0.0 else hi - lo
  }

  /** The overlap does not depend on which interval comes first. */
  lemma OverlapSymmetric(aStart: real, aEnd: real, bStart: real, bEnd: real)
    ensures OverlapTime(aStart, aEnd, bStart, bEnd) == OverlapTime(bStart, bEnd, aStart, aEnd)
  {
  }

  /** The overlap of a unit's interval with each turn, in turn order. */
  function Overlaps(uStart: real, uEnd: real, turns: seq<Turn>): seq<real>
  {
    seq(|turns|, k requires 0 <= k < |turns| => OverlapTime(uStart, uEnd, turns[k].start, turns[k].end))
  }

  /** The turn a unit is aligned with: none when no turn overlaps it;
      otherwise a turn whose overlap is positive and at least every other
      turn's, and strictly greater than every earlier turn's. */
  function BestTurn(uStart: real, uEnd: real, turns: seq<Turn>): (r: Option<nat>)
    ensures r.None? <==> forall k :: 0 <= k < |turns| ==>
              OverlapTime(uStart, uEnd, turns[k].start, turns[k].end) == 0.0
    ensures r.Some? ==> r.value < |turns|
    ensures r.Some? ==> OverlapTime(uStart, uEnd, turns[r.value].start, turns[r.value].end) > 0.0
    ensures r.Some? ==> forall k :: 0 <= k < |turns| ==>
              OverlapTime(uStart, uEnd, turns[k].start, turns[k].end)
              <= OverlapTime(uStart, uEnd, turns[r.value].start, turns[r.value].end)
    ensures r.Some? ==> forall k :: 0 <= k < r.value ==>
              OverlapTime(uStart, uEnd, turns[k].start, turns[k].end)
              < OverlapTime(uStart, uEnd, turns[r.value].start, turns[r.value].end)
  {
    var xs := Overlaps(uStart, uEnd, turns);
    assert forall k :: 0 <= k < |turns| ==> xs[k] == OverlapTime(uStart, uEnd, turns[k].start, turns[k].end);
    var r := ArgMax.FirstBest(xs);
    assert r.None? ==> forall k :: 0 <= k < |turns| ==> xs[k] == 0.0;
    r
  }

  /** The speaker of the best turn, or the sentinel when there is none. */
  function SpeakerOf(turns: seq<Turn>, best: Option<nat>): Speaker
    requires best.Some? ==> best.value < |turns|
  {
    match best
    case None => Unknown
    case Some(j) => Label(turns[j].speaker)
  }

  /** The speaker the alignment gives a unit spanning `uStart .. uEnd`. */
  function AssignedSpeaker(uStart: real, uEnd: real, turns: seq<Turn>): Speaker
  {
    SpeakerOf(turns, BestTurn(uStart, uEnd, turns))
  }

  /** The overlaps with the first `k + 1` turns are those with the first `k`
      and the overlap with turn `k`. */
  lemma OverlapsPrefix(uStart: real, uEnd: real, turns: seq<Turn>, k: nat)
    requires k < |turns|
    ensures Overlaps(uStart, uEnd, turns)[..k + 1]
            == Overlaps(uStart, uEnd, turns)[..k] + [OverlapTime(uStart, uEnd, turns[k].start, turns[k].end)]
  {
  }

  /** The inner loop: scan the turns, keeping the best overlap so far and
      replacing it only on a strictly greater one. */
  method PickSpeaker(uStart: real, uEnd: real, turns: seq<Turn>) returns (speaker: Speaker)
    ensures speaker == AssignedSpeaker(uStart, uEnd, turns)
  {
    ghost var xs := Overlaps(uStart, uEnd, turns);
    var bestOverlap := 0.0;
    var bestSpeaker := Unknown;
    for k := 0 to |turns|
      invariant bestOverlap == ArgMax.BestValue(xs[..k])
      invariant bestSpeaker == SpeakerOf(turns, ArgMax.FirstBest(xs[..k]))
    {
      var overlap := OverlapTime(uStart, uEnd, turns[k].start, turns[k].end);
      OverlapsPrefix(uStart, uEnd, turns, k);
      ArgMax.FirstBestSnoc(xs[..k], overlap);
      if overlap > bestOverlap {
        bestOverlap := overlap;
        bestSpeaker := Label(turns[k].speaker);
      }
    }
    assert xs[..|turns|] == xs;
    speaker := bestSpeaker;
  }

  /** The outer loop: set every unit's speaker from the turns. */
  method AssignSpeakers(units: seq<Unit>, turns: seq<Turn>)
    modifies set u | u in units
    ensures forall k :: 0 <= k < |units| ==>
              units[k].speaker == AssignedSpeaker(units[k].start, units[k].end, turns)
  {
    for i := 0 to |units|
      invariant forall k :: 0 <= k < i ==>
                  units[k].speaker == AssignedSpeaker(units[k].start, units[k].end, turns)
    {
      var speaker := PickSpeaker(units[i].start, units[i].end, turns);
      units[i].speaker := speaker;
    }
  }

  /** A unit that no turn overlaps, such as one spanning 5.0 .. 6.0 s when
      every turn ends by 5.0 s, gets the sentinel. */
  lemma NoOverlapGivesSentinel(uStart: real, uEnd: real, turns: seq<Turn>)
    requires forall k :: 0 <= k < |turns| ==> turns[k].end <= uStart || uEnd <= turns[k].start
    ensures AssignedSpeaker(uStart, uEnd, turns) == Unknown
  {
  }
}
