/** String helpers used by the pipeline: Python's `str.strip()` with no
    argument and `" ".join(parts)`. */
module Text {

  /** The characters for which Python's `str.isspace()` holds. */
  predicate IsSpace(c: char)
  {
    ('\U{9}' <= c <= '\U{D}') || ('\U{1C}' <= c <= '\U{20}') || c == '\U{85}' || c == '\U{A0}'
    || c == '\U{1680}' || ('\U{2000}' <= c <= '\U{200A}') || c == '\U{2028}' || c == '\U{2029}'
    || c == '\U{202F}' || c == '\U{205F}' || c == '\U{3000}'
  }

  predicate AllSpace(s: string)
  {
    forall k :: 0 <= k < |s| ==> IsSpace(s[k])
  }

  /** Number of leading whitespace characters of `s`. */
  function LeadCount(s: string): (n: nat)
    ensures n <= |s|
    ensures AllSpace(s[..n])
    ensures n < |s| ==> !IsSpace(s[n])
  {
    if s == [] || !IsSpace(s[0]) then 0 else 1 + LeadCount(s[1..])
  }

  /** Number of trailing whitespace characters of `s`. */
  function TrailCount(s: string): (n: nat)
    ensures n <= |s|
    ensures AllSpace(s[|s| - n..])
    ensures n < |s| ==> !IsSpace(s[|s| - n - 1])
  {
    if s == [] || !IsSpace(s[|s| - 1]) then 0 else 1 + TrailCount(s[..|s| - 1])
  }

  /** `s.strip()`: `s` without its leading and trailing whitespace. */
  function Strip(s: string): string
  {
    var t := s[LeadCount(s)..];
    t[..|t| - TrailCount(t)]
  }

  /** Stripping removes only whitespace, from both ends, and leaves no
      whitespace at either end; it yields the empty string exactly for an
      all-whitespace string. */
  lemma StripSpec(s: string)
    ensures LeadCount(s) + |Strip(s)| <= |s|
    ensures Strip(s) == s[LeadCount(s)..LeadCount(s) + |Strip(s)|]
    ensures AllSpace(s[..LeadCount(s)]) && AllSpace(s[LeadCount(s) + |Strip(s)|..])
    ensures Strip(s) == [] || (!IsSpace(Strip(s)[0]) && !IsSpace(Strip(s)[|Strip(s)| - 1]))
    ensures Strip(s) == [] <==> AllSpace(s)
  {
    StripTail(s);
    StripEmpty(s);
  }

  lemma StripTail(s: string)
    ensures AllSpace(s[LeadCount(s) + |Strip(s)|..])
  {
    var a := LeadCount(s);
    var t := s[a..];
    var b := TrailCount(t);
    assert s[a + (|t| - b)..] == t[|t| - b..];
  }

  lemma StripEmpty(s: string)
    ensures LeadCount(s) == |s| <==> AllSpace(s)
  {
    var a := LeadCount(s);
    if a < |s| { assert !IsSpace(s[a]); }
    else { assert s[..a] == s; }
  }

  /** Stripping a string that ends in a non-space character keeps a suffix of it. */
  lemma StripKeepsEnd(s: string)
    requires s != [] && !IsSpace(s[|s| - 1])
    ensures Strip(s) != [] && Strip(s) == s[|s| - |Strip(s)|..]
  {
    var a := LeadCount(s);
    var t := s[a..];
    assert t != [] && t[|t| - 1] == s[|s| - 1];
    assert TrailCount(t) == 0;
    assert Strip(s) == t[..|t|];
    assert t[..|t|] == t;
  }

  /** `" ".join(parts)`. */
  function JoinSpace(parts: seq<string>): string
  {
    if |parts| == 0 then ""
    else if |parts| == 1 then parts[0]
    else JoinSpace(parts[..|parts| - 1]) + " " + parts[|parts| - 1]
  }

  /** Joining is empty exactly for no parts or a single empty part. */
  lemma {:induction false} JoinSpaceEmpty(parts: seq<string>)
    ensures JoinSpace(parts) == "" <==> (|parts| == 0 || (|parts| == 1 && parts[0] == ""))
  {
    if |parts| >= 2 {
      var j := JoinSpace(parts[..|parts| - 1]) + " " + parts[|parts| - 1];
      assert |j| >= 1;
    }
  }

  /** Appending one part to a non-empty list extends the join by a space and the part. */
  lemma JoinSpaceSnoc(parts: seq<string>, p: string)
    requires parts != []
    ensures JoinSpace(parts + [p]) == JoinSpace(parts) + " " + p
  {
    assert (parts + [p])[..|parts|] == parts;
  }
}
