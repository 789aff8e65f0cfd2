/** The OutputFormatter: cluster labels become letters, and the updated
    blocks become the full transcript and the per-block speaker list. */
module OutputFormatter {
  import opened Text
  import opened TranscriptAligner
  import opened BlockMerger

  /** One entry of the speaker list: `{"speaker": ..., "text": ...}`. */
  datatype SpeakerEntry = SpeakerEntry(speaker: string, text: string)

  /** The decimal digit for `d`. */
  function Digit(d: nat): char
    requires d < 10
  {
    (48 + d) as char
  }

  /** `str(n)` for a non-negative integer: its decimal digits, most
      significant first, without leading zeros. */
  function NatToString(n: nat): (s: string)
    ensures |s| >= 1
    ensures forall k :: 0 <= k < |s| ==> '0' <= s[k] <= '9'
    ensures n >= 10 ==> |s| >= 2
  {
    if n < 10 then [Digit(n)] else NatToString(n / 10) + [Digit(n % 10)]
  }

  /** The number a string of decimal digits denotes, most significant first. */
  function DecimalValue(s: string): int
  {
    if s == [] then 0 else DecimalValue(s[..|s| - 1]) * 10 + (s[|s| - 1] as int - '0' as int)
  }

  /** `str(n)` spells `n`: its digits denote `n`, with no leading zero. */
  lemma {:induction false} NatToStringValue(n: nat)
    ensures DecimalValue(NatToString(n)) == n
    ensures n >= 10 ==> NatToString(n)[0] != '0'
  {
    if n >= 10 {
      NatToStringValue(n / 10);
      var s := NatToString(n);
      assert s[..|s| - 1] == NatToString(n / 10);
    }
  }

  /** Distinct numbers have distinct decimal strings. */
  lemma {:induction false} NatToStringInjective(a: nat, b: nat)
    ensures NatToString(a) == NatToString(b) ==> a == b
  {
    if a >= 10 && b >= 10 {
      NatToStringInjective(a / 10, b / 10);
      var sa, sb := NatToString(a), NatToString(b);
      assert sa[..|sa| - 1] == NatToString(a / 10) && sa[|sa| - 1] == Digit(a % 10);
      assert sb[..|sb| - 1] == NatToString(b / 10) && sb[|sb| - 1] == Digit(b % 10);
    }
  }

  /** `chr` is defined for code points up to 0x10FFFF; Dafny's `char` also
      leaves out the surrogate code points. */
  predicate IsLetterCode(code: nat)
  {
    code < 0xD800 || (0xDFFF < code <= 0x10FFFF)
  }

  /** `speaker_id_to_letter`: `chr(ord("A") + int(id))`, and `str(id)` when
      that fails; `int("?")` fails, so the sentinel is kept as `"?"`. */
  function SpeakerLetter(speaker: Speaker): (r: string)
  {
    match speaker
    case Unknown => "?"
    case Label(n) => if IsLetterCode(65 + n) then [(65 + n) as char] else NatToString(n)
  }

  /** The labels 0 to 25 are the letters A to Z. */
  lemma SmallLabelLetter(n: nat)
    requires n < 26
    ensures SpeakerLetter(Label(n)) == ["ABCDEFGHIJKLMNOPQRSTUVWXYZ"[n]]
  {
  }

  /** Different speakers get different letters, so the speaker list loses
      no distinction the alignment made; the sentinel stays apart. */
  lemma SpeakerLetterInjective(a: Speaker, b: Speaker)
    ensures SpeakerLetter(a) == SpeakerLetter(b) ==> a == b
  {
    if a.Label? && b.Label? {
      NatToStringInjective(a.id, b.id);
    }
    if a.Label? {
      assert SpeakerLetter(a)[0] != '?';
    }
    if b.Label? {
      assert SpeakerLetter(b)[0] != '?';
    }
  }

  /** The texts of the updated blocks, in order. */
  function BlockTexts(updated: seq<Block>): seq<string>
  {
    seq(|updated|, k requires 0 <= k < |updated| => updated[k].text)
  }

  /** `full_transcript`: the block texts joined by single spaces. */
  function FullTranscript(updated: seq<Block>): string
  {
    JoinSpace(BlockTexts(updated))
  }

  /** `speaker_json`: one entry per block, in block order, carrying the
      block's text and its speaker's letter. */
  function SpeakerJson(updated: seq<Block>): seq<SpeakerEntry>
  {
    seq(|updated|, k requires 0 <= k < |updated| =>
      SpeakerEntry(SpeakerLetter(updated[k].speaker), updated[k].text))
  }

  /** The full transcript is the speaker list's texts joined by spaces: the
      two outputs say the same words in the same order. */
  lemma TranscriptMatchesJson(updated: seq<Block>)
    ensures var entries := SpeakerJson(updated);
            FullTranscript(updated)
            == JoinSpace(seq(|entries|, k requires 0 <= k < |entries| => entries[k].text))
  {
    var entries := SpeakerJson(updated);
    assert BlockTexts(updated) == seq(|entries|, k requires 0 <= k < |entries| => entries[k].text);
  }

  /** Two entries of the speaker list carry the same letter exactly when
      their blocks have the same speaker. */
  lemma JsonKeepsSpeakers(updated: seq<Block>, a: nat, b: nat)
    requires a < |updated| && b < |updated|
    ensures SpeakerJson(updated)[a].speaker == SpeakerJson(updated)[b].speaker
            <==> updated[a].speaker == updated[b].speaker
  {
    SpeakerLetterInjective(updated[a].speaker, updated[b].speaker);
  }
}
