/** Two Python string operations the editor relies on: `sep.join(parts)` and
    `s.replace(old, new)`. */
module Strings {

  /** Python's `sep.join(parts)`. */
  function JoinWith(sep: string, parts: seq<string>): string
  {
    if |parts| == 0 then ""
    else if |parts| == 1 then parts[0]
    else parts[0] + sep + JoinWith(sep, parts[1..])
  }

  /** Python's `s.replace(pat, rep)` for a non-empty pattern: occurrences are
      found left to right and do not overlap. */
  function Replace(s: string, pat: string, rep: string): string
    requires |pat| > 0
    decreases |s|
  {
    if |s| < |pat| then s
    else if s[..|pat|] == pat then rep + Replace(s[|pat|..], pat, rep)
    else [s[0]] + Replace(s[1..], pat, rep)
  }

  /** A replacement whose pattern holds a character the text lacks never fires. */
  lemma {:induction false} ReplaceAbsent(s: string, pat: string, rep: string, c: char)
    requires |pat| > 0 && c in pat && c !in s
    ensures Replace(s, pat, rep) == s
    decreases |s|
  {
    if |s| >= |pat| {
      assert c !in s[1..];
      ReplaceAbsent(s[1..], pat, rep, c);
    }
  }

  /** A character absent from the separator and from every part is absent from
      the joined text. */
  lemma {:induction false} JoinWithAbsent(sep: string, parts: seq<string>, c: char)
    requires c !in sep
    requires forall k :: 0 <= k < |parts| ==> c !in parts[k]
    ensures c !in JoinWith(sep, parts)
    decreases |parts|
  {
    if |parts| > 1 {
      JoinWithAbsent(sep, parts[1..], c);
    }
  }

  /** When every part is non-empty, the joined text is empty exactly when there
      are no parts. */
  lemma {:induction false} JoinWithEmpty(sep: string, parts: seq<string>)
    requires forall k :: 0 <= k < |parts| ==> parts[k] != ""
    ensures JoinWith(sep, parts) == "" <==> parts == []
  {
    if |parts| > 1 {
      assert JoinWith(sep, parts)[..|parts[0]|] == parts[0];
    }
  }
}
