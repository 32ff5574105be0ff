/** The word tokenizer of the colored diff: `split_into_words` and
    `join_words`, the two helpers inside `create_colored_diff`. */
module Tokenizer {
  import opened Strings

  /** The characters Python's `str.split()` and `str.strip()` treat as
      whitespace when called without an argument. */
  predicate IsSpace(c: char)
  {
    ('\t' <= c <= '\r') || ('\U{1C}' <= c <= ' ')
    || c == '\U{85}' || c == '\U{A0}' || c == '\U{1680}'
    || ('\U{2000}' <= c <= '\U{200A}')
    || c == '\U{2028}' || c == '\U{2029}' || c == '\U{202F}' || c == '\U{205F}' || c == '\U{3000}'
  }

  /** A token `str.split()` can produce: non-empty and free of whitespace. */
  predicate IsWord(w: string)
  {
    |w| > 0 && forall k :: 0 <= k < |w| ==> !IsSpace(w[k])
  }

  predicate AllWords(ws: seq<string>)
  {
    forall k :: 0 <= k < |ws| ==> IsWord(ws[k])
  }

  /** `s` without its leading whitespace. */
  function DropSpace(s: string): (r: string)
    ensures |r| <= |s|
    ensures r == [] || !IsSpace(r[0])
  {
    if s != [] && IsSpace(s[0]) then DropSpace(s[1..]) else s
  }

  /** `s` without its trailing whitespace. */
  function DropSpaceEnd(s: string): (r: string)
    ensures r == [] || !IsSpace(r[|r| - 1])
  {
    if s != [] && IsSpace(s[|s| - 1]) then DropSpaceEnd(s[..|s| - 1]) else s
  }

  /** Python's `s.strip()`. */
  function Strip(s: string): string
  {
    DropSpaceEnd(DropSpace(s))
  }

  /** Python's `s.split()` with no argument: the maximal runs of
      non-whitespace characters of `s`, in order. The runs are assembled from
      the right: a non-whitespace character either extends the run that starts
      right after it or starts a run of its own. */
  function Split(s: string): (r: seq<string>)
    ensures s != [] && !IsSpace(s[0]) ==> r != []
    decreases |s|
  {
    if s == [] then []
    else
      var rest := Split(s[1..]);
      if IsSpace(s[0]) then rest
      else if |s| > 1 && !IsSpace(s[1]) then [[s[0]] + rest[0]] + rest[1..]
      else [[s[0]]] + rest
  }

  /** split_into_words: every newline is padded with spaces, then the text is
      split on whitespace. */
  function SplitIntoWords(text: string): seq<string>
  {
    Split(Replace(text, "\n", " \n "))
  }

  /** join_words: the tokens joined with single spaces, then every `" \n "`
      turned back into a newline. */
  function JoinWords(words: seq<string>): string
  {
    Replace(JoinWith(" ", words), " \n ", "\n")
  }

  /** Reference definition of whitespace normalisation: each run of
      whitespace becomes one space when text follows it and disappears when
      nothing does. `Normalize` also drops the leading run. */
  function Collapse(s: string): string
    decreases |s|
  {
    if s == [] then []
    else if IsSpace(s[0]) then
      (if DropSpace(s[1..]) == [] then [] else [' '] + Collapse(DropSpace(s[1..])))
    else [s[0]] + Collapse(s[1..])
  }

  function Normalize(s: string): string
  {
    Collapse(DropSpace(s))
  }

  // ---- How Split treats its first character ----

  lemma SplitSpaceCons(c: char, r: string)
    requires IsSpace(c)
    ensures Split([c] + r) == Split(r)
  {
    assert ([c] + r)[1..] == r;
  }

  lemma SplitWordCons(c: char, r: string)
    requires !IsSpace(c)
    ensures r == [] || IsSpace(r[0]) ==> Split([c] + r) == [[c]] + Split(r)
    ensures r != [] && !IsSpace(r[0]) ==>
      Split(r) != [] && Split([c] + r) == [[c] + Split(r)[0]] + Split(r)[1..]
  {
    assert ([c] + r)[1..] == r;
  }

  /** Every token is a word. */
  lemma {:induction false} SplitYieldsWords(s: string)
    ensures AllWords(Split(s))
    decreases |s|
  {
    if s != [] {
      SplitYieldsWords(s[1..]);
      var rest := Split(s[1..]);
      if !IsSpace(s[0]) && |s| > 1 && !IsSpace(s[1]) {
        var w := [s[0]] + rest[0];
        assert IsWord(rest[0]);
        assert forall k :: 1 <= k < |w| ==> w[k] == rest[0][k - 1];
        assert IsWord(w);
      }
    }
  }

  /** Splitting gives no token exactly when the text is blank. */
  lemma {:induction false} SplitEmptyIff(s: string)
    ensures Split(s) == [] <==> DropSpace(s) == []
    decreases |s|
  {
    if s != [] && IsSpace(s[0]) {
      SplitEmptyIff(s[1..]);
    }
  }

  /** Splitting a word followed by nothing or by whitespace yields that word
      first. */
  lemma {:induction false} SplitWordThen(w: string, x: string)
    requires IsWord(w)
    requires x == [] || IsSpace(x[0])
    ensures Split(w + x) == [w] + Split(x)
    decreases |w|
  {
    var r := w[1..] + x;
    assert w + x == [w[0]] + r;
    SplitWordCons(w[0], r);
    if |w| == 1 {
      assert r == x;
    } else {
      assert IsWord(w[1..]);
      SplitWordThen(w[1..], x);
      assert [w[0]] + w[1..] == w;
    }
  }

  /** A word splits into itself. */
  lemma SplitOfWord(w: string)
    requires IsWord(w)
    ensures Split(w) == [w]
  {
    SplitWordThen(w, []);
    assert w + [] == w;
  }

  // ---- Properties of the tokenizer ----

  /** No token is empty, holds whitespace or is a newline: the newlines that
      split_into_words pads with spaces are dropped, not kept. */
  lemma TokensAreWords(text: string)
    ensures AllWords(SplitIntoWords(text))
    ensures forall k :: 0 <= k < |SplitIntoWords(text)| ==> SplitIntoWords(text)[k] != "\n"
  {
    SplitYieldsWords(Replace(text, "\n", " \n "));
    var ws := SplitIntoWords(text);
    forall k | 0 <= k < |ws| ensures ws[k] != "\n" {
      assert IsWord(ws[k]);
      assert IsSpace('\n');
    }
  }

  /** The newline padding of split_into_words has no effect on the tokens. */
  lemma {:induction false} PaddingIsInert(t: string)
    ensures SplitIntoWords(t) == Split(t)
    decreases |t|
  {
    if t != [] {
      var r := t[1..];
      var pr := Replace(r, "\n", " \n ");
      assert t == [t[0]] + r;
      PaddingIsInert(r);
      if t[0] == '\n' {
        assert t[..1] == "\n";
        assert Replace(t, "\n", " \n ") == [' '] + (['\n'] + ([' '] + pr));
        SplitSpaceCons(' ', ['\n'] + ([' '] + pr));
        SplitSpaceCons('\n', [' '] + pr);
        SplitSpaceCons(' ', pr);
        SplitSpaceCons('\n', r);
      } else {
        assert t[..1] != "\n";
        assert Replace(t, "\n", " \n ") == [t[0]] + pr;
        if IsSpace(t[0]) {
          SplitSpaceCons(t[0], pr);
          SplitSpaceCons(t[0], r);
        } else {
          if r != [] {
            if r[0] == '\n' {
              assert r[..1] == "\n";
              assert pr[0] == ' ';
            } else {
              assert r[..1] != "\n";
              assert pr[0] == r[0];
            }
          } else {
            assert pr == [];
          }
          SplitWordCons(t[0], pr);
          SplitWordCons(t[0], r);
        }
      }
    }
  }

  /** Joining a word to a following group of words. */
  lemma JoinConsChar(c: char, w: string, rest: seq<string>)
    ensures JoinWith(" ", [[c] + w] + rest) == [c] + JoinWith(" ", [w] + rest)
  {
    var a := [[c] + w] + rest;
    var b := [w] + rest;
    assert a[1..] == rest && b[1..] == rest;
  }

  /** Splitting on whitespace and rejoining with single spaces is the
      reference normalisation. */
  lemma {:induction false} JoinSplitNormalizes(s: string)
    ensures JoinWith(" ", Split(s)) == Normalize(s)
    decreases |s|
  {
    if s != [] {
      var c, r := s[0], s[1..];
      assert s == [c] + r;
      if IsSpace(c) {
        SplitSpaceCons(c, r);
        JoinSplitNormalizes(r);
      } else {
        assert DropSpace(s) == s;
        assert Normalize(s) == [c] + Collapse(r);
        SplitWordCons(c, r);
        if r == [] {
          assert Split(s) == [[c]];
        } else if IsSpace(r[0]) {
          JoinSplitNormalizes(r);
          assert DropSpace(r) == DropSpace(r[1..]);
          SplitEmptyIff(r);
          if Split(r) != [] {
            assert ([[c]] + Split(r))[1..] == Split(r);
          }
        } else {
          JoinSplitNormalizes(r);
          assert DropSpace(r) == r;
          var sr := Split(r);
          assert sr == [sr[0]] + sr[1..];
          JoinConsChar(c, sr[0], sr[1..]);
        }
      }
    }
  }

  /** Splitting text joined from words gives the words back. */
  lemma {:induction false} SplitJoinRoundTrip(ws: seq<string>)
    requires AllWords(ws)
    ensures Split(JoinWith(" ", ws)) == ws
    decreases |ws|
  {
    if |ws| == 1 {
      SplitWordThen(ws[0], []);
      assert ws[0] + [] == ws[0];
    } else if |ws| > 1 {
      var rest := JoinWith(" ", ws[1..]);
      SplitJoinRoundTrip(ws[1..]);
      assert JoinWith(" ", ws) == ws[0] + ([' '] + rest);
      SplitWordThen(ws[0], [' '] + rest);
      SplitSpaceCons(' ', rest);
      assert [ws[0]] + ws[1..] == ws;
    }
  }

  /** join_words on tokens is a plain `' '.join`: the `" \n "` replacement
      never fires, because no token holds a newline. */
  lemma JoinWordsOfWords(ws: seq<string>)
    requires AllWords(ws)
    ensures JoinWords(ws) == JoinWith(" ", ws)
  {
    forall k | 0 <= k < |ws| ensures '\n' !in ws[k] {
      assert IsWord(ws[k]);
    }
    JoinWithAbsent(" ", ws, '\n');
    ReplaceAbsent(JoinWith(" ", ws), " \n ", "\n", '\n');
  }

  /** Tokenising and reassembling a text collapses every whitespace run to a
      single space and removes leading and trailing whitespace. */
  lemma TokenizeDetokenize(text: string)
    ensures JoinWords(SplitIntoWords(text)) == Normalize(text)
  {
    PaddingIsInert(text);
    SplitYieldsWords(text);
    JoinWordsOfWords(Split(text));
    JoinSplitNormalizes(text);
  }

  /** Reassembling is undone by tokenising: tokens survive a round trip, so
      tokenising is idempotent on its own output. */
  lemma DetokenizeTokenize(ws: seq<string>)
    requires AllWords(ws)
    ensures SplitIntoWords(JoinWords(ws)) == ws
  {
    JoinWordsOfWords(ws);
    PaddingIsInert(JoinWords(ws));
    SplitJoinRoundTrip(ws);
  }

  /** Trailing whitespace removal keeps a text that starts with a
      non-whitespace character non-empty. */
  lemma {:induction false} DropSpaceEndKeepsFirst(t: string)
    requires t != [] && !IsSpace(t[0])
    ensures DropSpaceEnd(t) != []
    decreases |t|
  {
    if |t| > 1 && IsSpace(t[|t| - 1]) {
      DropSpaceEndKeepsFirst(t[..|t| - 1]);
    }
  }

  /** The input guard `text.strip()` is truthy exactly when the text has at
      least one token. */
  lemma StripNonEmptyIffTokens(text: string)
    ensures Strip(text) != "" <==> SplitIntoWords(text) != []
  {
    PaddingIsInert(text);
    SplitEmptyIff(text);
    if DropSpace(text) != [] {
      DropSpaceEndKeepsFirst(DropSpace(text));
    }
  }
}
