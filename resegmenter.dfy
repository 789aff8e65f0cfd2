/** The Resegmenter: the high-accuracy transcript is split into sentences,
    and each block's text is replaced by the run of one to three consecutive
    sentences that scores best against it, if any scores above zero. The
    similarity ratio (`SequenceMatcher.ratio`) is a parameter. */
module Resegmenter {
  import opened Wrappers
  import opened Text
  import ArgMax
  import opened BlockMerger

  /** A similarity score between a block's text and a candidate text. */
  type Score = (string, string) -> real

  /** The longest run of sentences tried (`max_combo=3`). */
  const MaxCombo: nat := 3

  /** The sentence-ending characters of the pattern `[^.?!]+[.?!]`. */
  predicate IsTerminator(c: char)
  {
    c == '.' || c == '?' || c == '!'
  }

  /** Length of the leading run of characters that are not terminators. */
  function NonTerminatorRun(s: string): (n: nat)
    ensures n <= |s|
    ensures forall k :: 0 <= k < n ==> !IsTerminator(s[k])
    ensures n < |s| ==> IsTerminator(s[n])
  {
    if s == [] || IsTerminator(s[0]) then 0 else 1 + NonTerminatorRun(s[1..])
  }

  /** A substring matched by `[^.?!]+[.?!]`: at least one non-terminator
      followed by exactly one terminator. */
  predicate IsMatch(m: string)
  {
    |m| >= 2 && IsTerminator(m[|m| - 1]) && forall k :: 0 <= k < |m| - 1 ==> !IsTerminator(m[k])
  }

  /** The substrings `re.finditer(r"[^.?!]+[.?!]", s)` yields, left to right. */
  function Matches(s: string): seq<string>
    decreases |s|
  {
    if s == [] then []
    else if IsTerminator(s[0]) then Matches(s[1..])
    else
      var n := NonTerminatorRun(s);
      if n == |s| then [] else [s[..n + 1]] + Matches(s[n + 1..])
  }

  /** Every match is a non-empty run of non-terminators followed by one
      terminator. */
  lemma {:induction false} MatchesAreMatches(s: string)
    ensures forall k :: 0 <= k < |Matches(s)| ==> IsMatch(Matches(s)[k])
    decreases |s|
  {
    if s != [] {
      if IsTerminator(s[0]) {
        MatchesAreMatches(s[1..]);
      } else {
        var n := NonTerminatorRun(s);
        if n < |s| {
          MatchesAreMatches(s[n + 1..]);
          assert IsMatch(s[..n + 1]);
        }
      }
    }
  }

  /** The sentences of the high-accuracy transcript: the stripped matches. */
  function SplitSentences(s: string): (sentences: seq<string>)
  {
    var ms := Matches(s);
    seq(|ms|, k requires 0 <= k < |ms| => Strip(ms[k]))
  }

  /** A sentence ends in exactly one terminator, its last character. */
  predicate EndsOnce(r: string)
  {
    |r| >= 1 && IsTerminator(r[|r| - 1]) && forall i :: 0 <= i < |r| - 1 ==> !IsTerminator(r[i])
  }

  /** Stripping a match keeps its terminator and removes only blanks, so
      the sentence still ends in exactly one terminator, and neither starts
      nor ends with whitespace. */
  lemma StrippedMatchEndsOnce(m: string)
    requires IsMatch(m)
    ensures EndsOnce(Strip(m))
    ensures !IsSpace(Strip(m)[0]) && !IsSpace(Strip(m)[|Strip(m)| - 1])
  {
    StripKeepsEnd(m);
    StripSpec(m);
    var r := Strip(m);
    forall i | 0 <= i < |r| - 1 ensures !IsTerminator(r[i]) {
      assert r[i] == m[|m| - |r| + i];
    }
  }

  /** Every sentence ends in one of `. ? !`, has no other terminator, and is
      stripped: it neither starts nor ends with whitespace. */
  lemma SentencesEndOnce(s: string)
    ensures forall k :: 0 <= k < |SplitSentences(s)| ==>
              var x := SplitSentences(s)[k];
              EndsOnce(x) && !IsSpace(x[0]) && !IsSpace(x[|x| - 1])
  {
    var ms := Matches(s);
    MatchesAreMatches(s);
    forall k | 0 <= k < |ms|
      ensures var x := Strip(ms[k]); EndsOnce(x) && !IsSpace(x[0]) && !IsSpace(x[|x| - 1])
    {
      StrippedMatchEndsOnce(ms[k]);
    }
  }

  /** Text without any terminator yields no match. */
  lemma {:induction false} NoTerminatorNoMatch(t: string)
    requires forall k :: 0 <= k < |t| ==> !IsTerminator(t[k])
    ensures Matches(t) == []
  {
    if t != [] {
      assert NonTerminatorRun(t) == |t|;
    }
  }

  /** Text after the last terminator never becomes part of a sentence. */
  lemma TrailingTextDropped(p: string, t: string)
    requires p == [] || IsTerminator(p[|p| - 1])
    requires forall k :: 0 <= k < |t| ==> !IsTerminator(t[k])
    ensures Matches(p + t) == Matches(p)
  {
    MatchesAppend(p, t);
    NoTerminatorNoMatch(t);
    assert Matches(p) + [] == Matches(p);
  }

  /** A match's leading run of non-terminators is all of it but its terminator. */
  lemma MatchRun(m: string)
    requires IsMatch(m)
    ensures NonTerminatorRun(m) == |m| - 1
  {
  }

  /** At a sentence boundary, a match is yielded whole and the search
      resumes right after it. */
  lemma MatchFirst(m: string, b: string)
    requires IsMatch(m)
    ensures Matches(m + b) == [m] + Matches(b)
  {
    var s := m + b;
    MatchRun(m);
    NonTerminatorRunPrefix(m, b);
    assert s[0] == m[0];
    assert s[..|m|] == m;
    assert s[|m|..] == b;
  }

  /** Concatenation of match lists is associative. */
  lemma AppendAssoc(x: seq<string>, y: seq<string>, z: seq<string>)
    ensures x + (y + z) == (x + y) + z
  {
  }

  /** A leading terminator is skipped. */
  lemma MatchesUnfoldTerminator(s: string)
    requires s != [] && IsTerminator(s[0])
    ensures Matches(s) == Matches(s[1..])
  {
    assert s != [] && IsTerminator(s[0]);
  }

  /** Skipping a leading terminator commutes with appending text. */
  lemma AppendAfterTerminator(p: string, t: string)
    requires p != [] && IsTerminator(p[0])
    requires Matches(p[1..] + t) == Matches(p[1..]) + Matches(t)
    ensures Matches(p + t) == Matches(p) + Matches(t)
  {
    assert (p + t)[0] == p[0];
    assert (p + t)[1..] == p[1..] + t;
    MatchesUnfoldTerminator(p + t);
    MatchesUnfoldTerminator(p);
  }

  /** Text opening with a terminated run yields that run first. */
  lemma MatchesUnfoldRun(s: string)
    requires s != [] && !IsTerminator(s[0]) && NonTerminatorRun(s) < |s|
    ensures Matches(s) == [s[..NonTerminatorRun(s) + 1]] + Matches(s[NonTerminatorRun(s) + 1..])
  {
    assert s != [] && !IsTerminator(s[0]) && NonTerminatorRun(s) != |s|;
  }

  /** Appending text leaves a terminated leading run, and what follows it, in place. */
  lemma RunSplitsAppend(p: string, t: string)
    requires p != [] && !IsTerminator(p[0]) && NonTerminatorRun(p) < |p|
    ensures var n := NonTerminatorRun(p);
            p + t != [] && !IsTerminator((p + t)[0]) && NonTerminatorRun(p + t) == n &&
            (p + t)[..n + 1] == p[..n + 1] && (p + t)[n + 1..] == p[n + 1..] + t
  {
    NonTerminatorRunPrefix(p, t);
    var n := NonTerminatorRun(p);
    assert (p + t)[0] == p[0];
    assert (p + t)[..n + 1] == p[..n + 1];
    assert (p + t)[n + 1..] == p[n + 1..] + t;
  }

  /** Yielding a leading match commutes with appending text. */
  lemma AppendAfterRun(p: string, t: string)
    requires p != [] && !IsTerminator(p[0]) && NonTerminatorRun(p) < |p|
    requires var n := NonTerminatorRun(p);
             Matches(p[n + 1..] + t) == Matches(p[n + 1..]) + Matches(t)
    ensures Matches(p + t) == Matches(p) + Matches(t)
  {
    var n := NonTerminatorRun(p);
    var x := p[..n + 1];
    RunSplitsAppend(p, t);
    calc {
      Matches(p + t);
      { MatchesUnfoldRun(p + t); }
      [x] + Matches(p[n + 1..] + t);
      [x] + (Matches(p[n + 1..]) + Matches(t));
      { AppendAssoc([x], Matches(p[n + 1..]), Matches(t)); }
      ([x] + Matches(p[n + 1..])) + Matches(t);
      { MatchesUnfoldRun(p); }
      Matches(p) + Matches(t);
    }
  }

  /** At a sentence boundary the matches split: text that is empty or ends
      in a terminator is matched independently of what follows it. */
  lemma {:induction false} MatchesAppend(p: string, t: string)
    requires p == [] || IsTerminator(p[|p| - 1])
    ensures Matches(p + t) == Matches(p) + Matches(t)
    decreases |p|
  {
    if p == [] {
      assert p + t == t;
    } else if IsTerminator(p[0]) {
      assert Matches(p + t) == Matches(p) + Matches(t) by {
        MatchesAppend(p[1..], t);
        AppendAfterTerminator(p, t);
      }
    } else {
      var n := NonTerminatorRun(p);
      assert n < |p|;
      assert Matches(p + t) == Matches(p) + Matches(t) by {
        MatchesAppend(p[n + 1..], t);
        AppendAfterRun(p, t);
      }
    }
  }

  /** A sentence present in the text is found: after text that is empty or
      ends in a terminator, a match `m` is yielded whole, and the search
      resumes right after it. */
  lemma MatchFound(a: string, m: string, b: string)
    requires a == [] || IsTerminator(a[|a| - 1])
    requires IsMatch(m)
    ensures Matches(a + m + b) == Matches(a) + [m] + Matches(b)
  {
    calc {
      Matches(a + m + b);
      { assert a + m + b == a + (m + b); }
      Matches(a + (m + b));
      { MatchesAppend(a, m + b); }
      Matches(a) + Matches(m + b);
      { MatchFirst(m, b); }
      Matches(a) + ([m] + Matches(b));
      Matches(a) + [m] + Matches(b);
    }
  }

  /** A terminator inside `p` bounds the leading run of `p + t` as it bounds that of `p`. */
  lemma NonTerminatorRunPrefix(p: string, t: string)
    requires NonTerminatorRun(p) < |p|
    ensures NonTerminatorRun(p + t) == NonTerminatorRun(p)
  {
    var n := NonTerminatorRun(p);
    var m := NonTerminatorRun(p + t);
    assert (p + t)[n] == p[n];
    assert forall k :: 0 <= k < n ==> (p + t)[k] == p[k];
  }

  /** A run of sentences `sentences[c.0 .. c.1]` the search may try among `n`. */
  predicate ValidCombo(n: nat, c: (nat, nat))
  {
    c.0 < c.1 <= n && c.1 - c.0 <= MaxCombo
  }

  /** The order in which the search tries runs: by first sentence, then by end. */
  predicate ComboBefore(a: (nat, nat), b: (nat, nat))
  {
    a.0 < b.0 || (a.0 == b.0 && a.1 < b.1)
  }

  /** `min(n, i + max_combo)`. */
  function RowEnd(n: nat, i: nat): nat
  {
    if n <= i + MaxCombo then n else i + MaxCombo
  }

  /** The runs the inner loop tries for first sentence `i`: `j` from `i + 1`
      to `min(n, i + 3)`. They are exactly the valid runs that start at `i`,
      one to three of them, each tried once in the search's order. */
  function Row(n: nat, i: nat): (row: seq<(nat, nat)>)
    requires i < n
    ensures 1 <= |row| <= MaxCombo && |row| == RowEnd(n, i) - i
    ensures forall c: (nat, nat) :: c in row <==> ValidCombo(n, c) && c.0 == i
    ensures forall a, b :: 0 <= a < b < |row| ==> ComboBefore(row[a], row[b])
  {
    var row := seq(RowEnd(n, i) - i, d requires 0 <= d < RowEnd(n, i) - i => (i, i + 1 + d));
    assert forall c: (nat, nat) :: ValidCombo(n, c) && c.0 == i ==> row[c.1 - i - 1] == c;
    row
  }

  /** The runs the search tries before first sentence `i`, in the order tried. */
  function CombosBefore(n: nat, i: nat): seq<(nat, nat)>
    requires i <= n
  {
    if i == 0 then [] else CombosBefore(n, i - 1) + Row(n, i - 1)
  }

  /** The runs the search has tried when the inner loop is about to try `(i, j)`. */
  function Tried(n: nat, i: nat, j: nat): seq<(nat, nat)>
    requires i < n && i < j <= RowEnd(n, i) + 1
  {
    CombosBefore(n, i) + Row(n, i)[..j - i - 1]
  }

  /** Each pass of the inner loop tries the next run of the row. */
  lemma TriedStep(n: nat, i: nat, j: nat)
    requires i < n && i < j <= RowEnd(n, i)
    ensures Tried(n, i, j + 1) == Tried(n, i, j) + [(i, j)]
  {
    assert Row(n, i)[..j - i] == Row(n, i)[..j - i - 1] + [(i, j)];
  }

  /** Once the inner loop has tried the whole row, the runs of the next first sentence follow. */
  lemma TriedRow(n: nat, i: nat)
    requires i < n
    ensures Tried(n, i, i + 1) == CombosBefore(n, i)
    ensures Tried(n, i, RowEnd(n, i) + 1) == CombosBefore(n, i + 1)
  {
    assert Row(n, i)[..0] == [];
    assert Row(n, i)[..RowEnd(n, i) - i] == Row(n, i);
  }

  /** The runs tried before first sentence `i` are exactly the valid runs
      starting before `i`, each tried after the one before. */
  lemma {:induction false} CombosBeforeSpec(n: nat, i: nat)
    requires i <= n
    ensures forall c: (nat, nat) :: c in CombosBefore(n, i) <==> ValidCombo(n, c) && c.0 < i
    ensures forall a, b :: 0 <= a < b < |CombosBefore(n, i)| ==> ComboBefore(CombosBefore(n, i)[a], CombosBefore(n, i)[b])
  {
    if i > 0 {
      CombosBeforeSpec(n, i - 1);
      var prev := CombosBefore(n, i - 1);
      var row := Row(n, i - 1);
      assert CombosBefore(n, i) == prev + row;
      assert forall c: (nat, nat) :: c in row <==> ValidCombo(n, c) && c.0 == i - 1 by {
        forall c: (nat, nat) | ValidCombo(n, c) && c.0 == i - 1 ensures c in row {
          assert row[c.1 - i] == c;
        }
      }
    }
  }

  /** Every run the search tries, in the order tried. */
  function Combos(n: nat): seq<(nat, nat)>
  {
    CombosBefore(n, n)
  }

  /** The candidate text of a run: `" ".join(ft_sentences[i:j])`. */
  function ComboText(sentences: seq<string>, c: (nat, nat)): string
    requires ValidCombo(|sentences|, c)
  {
    JoinSpace(sentences[c.0..c.1])
  }

  /** The scores of some valid runs against a block's text. */
  function Scores(text: string, sentences: seq<string>, score: Score, cs: seq<(nat, nat)>): seq<real>
    requires forall k :: 0 <= k < |cs| ==> ValidCombo(|sentences|, cs[k])
  {
    seq(|cs|, k requires 0 <= k < |cs| => score(text, ComboText(sentences, cs[k])))
  }

  /** Every run in `Combos(n)` is valid. */
  lemma CombosValid(n: nat)
    ensures forall k :: 0 <= k < |Combos(n)| ==> ValidCombo(n, Combos(n)[k])
  {
    var cs := Combos(n);
    CombosBeforeSpec(n, n);
    forall k | 0 <= k < |cs| ensures ValidCombo(n, cs[k]) {
      assert cs[k] in cs;
    }
  }

  /** The position at which the search tries a valid run. */
  lemma ComboIndex(n: nat, c: (nat, nat)) returns (m: nat)
    requires ValidCombo(n, c)
    ensures m < |Combos(n)| && Combos(n)[m] == c
  {
    var cs := Combos(n);
    CombosBeforeSpec(n, n);
    assert c in cs;
    m :| 0 <= m < |cs| && cs[m] == c;
  }

  /** The scores of every run, in the order tried. */
  function AllScores(text: string, sentences: seq<string>, score: Score): (xs: seq<real>)
    ensures |xs| == |Combos(|sentences|)|
    ensures forall k :: 0 <= k < |xs| ==>
              ValidCombo(|sentences|, Combos(|sentences|)[k])
              && xs[k] == score(text, ComboText(sentences, Combos(|sentences|)[k]))
  {
    CombosValid(|sentences|);
    Scores(text, sentences, score, Combos(|sentences|))
  }

  /** The run the search settles on, if any. */
  function BestCombo(text: string, sentences: seq<string>, score: Score): (r: Option<(nat, nat)>)
    ensures r.Some? ==> ValidCombo(|sentences|, r.value)
  {
    match ArgMax.FirstBest(AllScores(text, sentences, score))
    case None => None
    case Some(k) => Some(Combos(|sentences|)[k])
  }

  /** No run is settled on exactly when no run scores above zero; otherwise
      the run settled on scores above zero, at least as high as every run,
      and strictly higher than every run tried before it. */
  lemma BestComboSpec(text: string, sentences: seq<string>, score: Score)
    ensures var r := BestCombo(text, sentences, score);
            r.None? <==> forall c :: ValidCombo(|sentences|, c) ==> score(text, ComboText(sentences, c)) <= 0.0
    ensures var r := BestCombo(text, sentences, score);
            r.Some? ==> score(text, ComboText(sentences, r.value)) > 0.0
    ensures var r := BestCombo(text, sentences, score);
            r.Some? ==> forall c :: ValidCombo(|sentences|, c) ==>
              score(text, ComboText(sentences, c)) <= score(text, ComboText(sentences, r.value))
    ensures var r := BestCombo(text, sentences, score);
            r.Some? ==> forall c :: ValidCombo(|sentences|, c) && ComboBefore(c, r.value) ==>
              score(text, ComboText(sentences, c)) < score(text, ComboText(sentences, r.value))
  {
    var n := |sentences|;
    var cs := Combos(n);
    var xs := AllScores(text, sentences, score);
    var best := ArgMax.FirstBest(xs);
    forall c | ValidCombo(n, c)
      ensures best.None? ==> score(text, ComboText(sentences, c)) <= 0.0
      ensures best.Some? ==> score(text, ComboText(sentences, c)) <= xs[best.value]
      ensures best.Some? && ComboBefore(c, cs[best.value]) ==> score(text, ComboText(sentences, c)) < xs[best.value]
    {
      var m := ComboIndex(n, c);
      assert xs[m] == score(text, ComboText(sentences, c));
      if best.Some? && ComboBefore(c, cs[best.value]) {
        CombosBeforeSpec(n, n);
        assert m < best.value;
      }
    }
    if best.None? {
      if 0 < |xs| {
        assert xs[0] <= 0.0;
      }
    } else {
      assert xs[best.value] > 0.0;
    }
  }

  /** What `find_best_combo_match` returns for a block's text. */
  function BestComboText(text: string, sentences: seq<string>, score: Score): string
  {
    match BestCombo(text, sentences, score)
    case None => text
    case Some(c) => ComboText(sentences, c)
  }

  /** The text the search holds after trying the runs `cs`. */
  function HeldText(text: string, sentences: seq<string>, cs: seq<(nat, nat)>, best: Option<nat>): string
    requires forall k :: 0 <= k < |cs| ==> ValidCombo(|sentences|, cs[k])
    requires best.Some? ==> best.value < |cs|
  {
    match best
    case None => text
    case Some(k) => ComboText(sentences, cs[k])
  }

  /** Every run in `cs` is a valid run among the sentences. */
  predicate AllValid(sentences: seq<string>, cs: seq<(nat, nat)>)
  {
    forall k :: 0 <= k < |cs| ==> ValidCombo(|sentences|, cs[k])
  }

  /** The score and text the search holds after trying the runs `tried` in
      order, starting from 0.0 and the block's own text: a valid run replaces
      them when it scores strictly higher. */
  function SearchState(text: string, sentences: seq<string>, score: Score, tried: seq<(nat, nat)>): (real, string)
  {
    if tried == [] then (0.0, text)
    else
      var held := SearchState(text, sentences, score, tried[..|tried| - 1]);
      var c := tried[|tried| - 1];
      if ValidCombo(|sentences|, c) && score(text, ComboText(sentences, c)) > held.0
      then (score(text, ComboText(sentences, c)), ComboText(sentences, c))
      else held
  }

  /** Trying one more run replaces the held state exactly when the run
      scores strictly higher. */
  lemma SearchStep(text: string, sentences: seq<string>, score: Score, tried: seq<(nat, nat)>, c: (nat, nat))
    requires ValidCombo(|sentences|, c)
    ensures var held := SearchState(text, sentences, score, tried);
            var s := score(text, ComboText(sentences, c));
            SearchState(text, sentences, score, tried + [c]) == if s > held.0 then (s, ComboText(sentences, c)) else held
  {
    assert (tried + [c])[..|tried|] == tried;
  }

  /** The held state is the first strictly best score above zero among the
      runs tried: its value (0.0 if none is above zero) and its run's text
      (the block's own text if none). */
  lemma {:induction false} SearchStateIsFirstBest(text: string, sentences: seq<string>, score: Score, tried: seq<(nat, nat)>)
    requires AllValid(sentences, tried)
    ensures SearchState(text, sentences, score, tried).0 == ArgMax.BestValue(Scores(text, sentences, score, tried))
    ensures SearchState(text, sentences, score, tried).1
            == HeldText(text, sentences, tried, ArgMax.FirstBest(Scores(text, sentences, score, tried)))
  {
    if tried != [] {
      var prefix := tried[..|tried| - 1];
      var c := tried[|tried| - 1];
      assert tried == prefix + [c];
      SearchStateIsFirstBest(text, sentences, score, prefix);
      var xs := Scores(text, sentences, score, prefix);
      var s := score(text, ComboText(sentences, c));
      assert Scores(text, sentences, score, tried) == xs + [s];
      ArgMax.FirstBestSnoc(xs, s);
    }
  }

  /** The set `set(range(i, j))`. */
  function Span(i: nat, j: nat): (r: set<nat>)
    ensures forall k :: k in r <==> i <= k < j
    decreases j - i
  {
    if j <= i then {} else {i} + Span(i + 1, j)
  }

  /** `find_best_combo_match`: try every run of one to three sentences,
      keeping the first strictly best score above 0.0. The set of used
      sentences is empty whenever it is consulted, so it never skips a run. */
  method FindBestComboMatch(text: string, sentences: seq<string>, score: Score) returns (best: string)
    ensures best == BestComboText(text, sentences, score)
  {
    var n := |sentences|;
    var bestScore := 0.0;
    var bestText := text;
    var usedRange: set<nat> := {};
    var bestRange: set<nat> := {};
    for i := 0 to n
      invariant (bestScore, bestText) == SearchState(text, sentences, score, CombosBefore(n, i))
    {
      TriedRow(n, i);
      for j := i + 1 to RowEnd(n, i) + 1
        invariant (bestScore, bestText) == SearchState(text, sentences, score, Tried(n, i, j))
      {
        var skip := exists k :: i <= k < j && k in usedRange;
        if !skip {
          var combo := ComboText(sentences, (i, j));
          var s := score(text, combo);
          if s > bestScore {
            bestScore := s;
            bestText := combo;
            bestRange := Span(i, j);
          }
        }
        SearchStep(text, sentences, score, Tried(n, i, j), (i, j));
        TriedStep(n, i, j);
      }
    }
    if bestScore > 0.0 {
      usedRange := usedRange + bestRange;
    }
    best := bestText;
    SearchDone(text, sentences, score);
  }

  /** Having tried every run, the search holds `BestComboText`. */
  lemma SearchDone(text: string, sentences: seq<string>, score: Score)
    ensures AllValid(sentences, Combos(|sentences|))
    ensures SearchState(text, sentences, score, Combos(|sentences|)).1 == BestComboText(text, sentences, score)
  {
    CombosValid(|sentences|);
    SearchStateIsFirstBest(text, sentences, score, Combos(|sentences|));
  }

  /** The loop over the aligned blocks: each block keeps its speaker and gets
      the text the search returns for it. */
  method Resegment(blocks: seq<Block>, sentences: seq<string>, score: Score) returns (updated: seq<Block>)
    ensures |updated| == |blocks|
    ensures forall k :: 0 <= k < |blocks| ==>
              updated[k] == Block(blocks[k].speaker, BestComboText(blocks[k].text, sentences, score))
  {
    updated := [];
    for k := 0 to |blocks|
      invariant |updated| == k
      invariant forall m :: 0 <= m < k ==>
                  updated[m] == Block(blocks[m].speaker, BestComboText(blocks[m].text, sentences, score))
    {
      var newText := FindBestComboMatch(blocks[k].text, sentences, score);
      updated := updated + [Block(blocks[k].speaker, newText)];
    }
  }

  /** A run that scores above zero and strictly above every other run is the
      one chosen: the search replaces the text with it. */
  lemma UniqueBestChosen(text: string, sentences: seq<string>, score: Score, c: (nat, nat))
    requires ValidCombo(|sentences|, c)
    requires score(text, ComboText(sentences, c)) > 0.0
    requires forall d :: ValidCombo(|sentences|, d) && d != c ==>
               score(text, ComboText(sentences, d)) < score(text, ComboText(sentences, c))
    ensures BestComboText(text, sentences, score) == ComboText(sentences, c)
  {
    BestComboSpec(text, sentences, score);
    var r := BestCombo(text, sentences, score);
    assert r.Some?;
    assert r.value == c;
  }

  /** A score bounded by 0 and 1, as the similarity ratio is. */
  ghost predicate InUnitRange(score: Score)
  {
    forall a, b :: 0.0 <= score(a, b) <= 1.0
  }

  /** A block whose text is exactly one of the sentences gets a run scoring
      1.0, the highest possible; if no other run scores 1.0, it keeps that
      very sentence. */
  lemma ExactSentenceChosen(text: string, sentences: seq<string>, score: Score, i: nat)
    requires InUnitRange(score)
    requires i < |sentences| && sentences[i] == text
    requires score(text, text) == 1.0
    ensures score(text, BestComboText(text, sentences, score)) == 1.0
    ensures (forall d :: ValidCombo(|sentences|, d) && d != (i, i + 1) ==>
               score(text, ComboText(sentences, d)) < 1.0)
            ==> BestComboText(text, sentences, score) == text
  {
    var c := (i, i + 1);
    assert sentences[i..i + 1] == [text];
    assert ComboText(sentences, c) == text;
    BestComboSpec(text, sentences, score);
    var r := BestCombo(text, sentences, score);
    assert r.Some?;
    assert score(text, ComboText(sentences, c)) <= score(text, ComboText(sentences, r.value));
  }
}
