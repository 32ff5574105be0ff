/** The word-level colored diff (`create_colored_diff`): both texts are
    tokenised, a matcher describes how the old tokens become the new ones as
    a list of opcodes, and each opcode is rendered as plain tokens or as a
    "removed" or "added" span. */
module Diff {
  import opened Strings
  import opened Tokenizer

  /** The four opcode kinds of `difflib.SequenceMatcher.get_opcodes`. */
  datatype Tag = Equal | Delete | Insert | Replace

  /** `(tag, i1, i2, j1, j2)`: the run `a[i1..i2]` of the old tokens
      corresponds to the run `b[j1..j2]` of the new ones. */
  datatype Opcode = Opcode(tag: Tag, i1: nat, i2: nat, j1: nat, j2: nat)

  /** One entry of the rendered diff: an unchanged token, or a span of
      joined tokens shown as removed or as added. */
  datatype Span = Plain(text: string) | Removed(text: string) | Added(text: string)

  predicate InBounds(op: Opcode, a: seq<string>, b: seq<string>)
  {
    op.i1 <= op.i2 <= |a| && op.j1 <= op.j2 <= |b|
  }

  /** What an opcode of each kind promises about the runs it names. */
  predicate Fits(op: Opcode, a: seq<string>, b: seq<string>)
  {
    InBounds(op, a, b) &&
    match op.tag
    case Equal => a[op.i1..op.i2] == b[op.j1..op.j2]
    case Delete => op.j1 == op.j2
    case Insert => op.i1 == op.i2
    case Replace => true
  }

  /** The contract of `get_opcodes`: the first opcode starts at 0 in both
      sequences, each starts where the previous one ended, the last ends at
      the ends of both, and each fits its kind. */
  predicate IsOpcodesFor(ops: seq<Opcode>, a: seq<string>, b: seq<string>)
  {
    (|ops| == 0 ==> |a| == 0 && |b| == 0)
    && (|ops| > 0 ==>
          ops[0].i1 == 0 && ops[0].j1 == 0
          && ops[|ops| - 1].i2 == |a| && ops[|ops| - 1].j2 == |b|)
    && (forall k :: 0 <= k < |ops| ==> Fits(ops[k], a, b))
    && (forall k :: 0 <= k < |ops| - 1 ==> ops[k].i2 == ops[k + 1].i1 && ops[k].j2 == ops[k + 1].j1)
  }

  predicate AllInBounds(ops: seq<Opcode>, a: seq<string>, b: seq<string>)
  {
    forall k :: 0 <= k < |ops| ==> InBounds(ops[k], a, b)
  }

  /** The old runs of the equal, delete and replace opcodes, concatenated. */
  function OldSide(ops: seq<Opcode>, a: seq<string>, b: seq<string>): seq<string>
    requires AllInBounds(ops, a, b)
  {
    if ops == [] then []
    else
      var op := ops[|ops| - 1];
      OldSide(ops[..|ops| - 1], a, b) + (if op.tag == Insert then [] else a[op.i1..op.i2])
  }

  /** The new runs of the equal, insert and replace opcodes, concatenated. */
  function NewSide(ops: seq<Opcode>, a: seq<string>, b: seq<string>): seq<string>
    requires AllInBounds(ops, a, b)
  {
    if ops == [] then []
    else
      var op := ops[|ops| - 1];
      NewSide(ops[..|ops| - 1], a, b) + (if op.tag == Delete then [] else b[op.j1..op.j2])
  }

  /** Each token of `ws` as an unchanged entry (`html_diff.extend`). */
  function PlainAll(ws: seq<string>): seq<Span>
  {
    seq(|ws|, k requires 0 <= k < |ws| => Plain(ws[k]))
  }

  /** The spans one opcode contributes. */
  function RenderOp(op: Opcode, a: seq<string>, b: seq<string>): (r: seq<Span>)
    requires InBounds(op, a, b)
    ensures op.tag == Equal ==> |r| == op.i2 - op.i1 && forall k :: 0 <= k < |r| ==> r[k] == Plain(a[op.i1 + k])
    ensures op.tag == Delete ==> |r| == 1 && r[0].Removed?
    ensures op.tag == Insert ==> |r| == 1 && r[0].Added?
    ensures op.tag == Replace ==> |r| == 2 && r[0].Removed? && r[1].Added?
  {
    match op.tag
    case Equal => PlainAll(a[op.i1..op.i2])
    case Delete => [Removed(JoinWith(" ", a[op.i1..op.i2]))]
    case Insert => [Added(JoinWith(" ", b[op.j1..op.j2]))]
    case Replace => [Removed(JoinWith(" ", a[op.i1..op.i2])), Added(JoinWith(" ", b[op.j1..op.j2]))]
  }

  /** The spans of all opcodes, in order. */
  function Render(ops: seq<Opcode>, a: seq<string>, b: seq<string>): seq<Span>
    requires AllInBounds(ops, a, b)
  {
    if ops == [] then []
    else Render(ops[..|ops| - 1], a, b) + RenderOp(ops[|ops| - 1], a, b)
  }

  /** The old tokens shown by a rendered diff: the unchanged and removed
      entries, read back through the tokenizer. */
  function OldTokens(spans: seq<Span>): seq<string>
  {
    if spans == [] then []
    else
      var s := spans[|spans| - 1];
      OldTokens(spans[..|spans| - 1]) + (if s.Added? then [] else Split(s.text))
  }

  /** The new tokens shown by a rendered diff: the unchanged and added
      entries, read back through the tokenizer. */
  function NewTokens(spans: seq<Span>): seq<string>
  {
    if spans == [] then []
    else
      var s := spans[|spans| - 1];
      NewTokens(spans[..|spans| - 1]) + (if s.Removed? then [] else Split(s.text))
  }

  /** The texts of the entries, in order. */
  function Texts(spans: seq<Span>): seq<string>
  {
    seq(|spans|, k requires 0 <= k < |spans| => spans[k].text)
  }

  predicate HasTaggedSpan(spans: seq<Span>)
  {
    exists k :: 0 <= k < |spans| && !spans[k].Plain?
  }

  // ---- Reassembly of both sides from the opcodes ----

  lemma {:induction false} OldTokensAppend(x: seq<Span>, y: seq<Span>)
    ensures OldTokens(x + y) == OldTokens(x) + OldTokens(y)
    decreases |y|
  {
    if y != [] {
      var y' := y[..|y| - 1];
      assert (x + y)[..|x + y| - 1] == x + y';
      OldTokensAppend(x, y');
    } else {
      assert x + y == x;
    }
  }

  lemma {:induction false} NewTokensAppend(x: seq<Span>, y: seq<Span>)
    ensures NewTokens(x + y) == NewTokens(x) + NewTokens(y)
    decreases |y|
  {
    if y != [] {
      var y' := y[..|y| - 1];
      assert (x + y)[..|x + y| - 1] == x + y';
      NewTokensAppend(x, y');
    } else {
      assert x + y == x;
    }
  }

  /** Unchanged entries show their tokens on both sides. */
  lemma {:induction false} PlainAllTokens(ws: seq<string>)
    requires AllWords(ws)
    ensures OldTokens(PlainAll(ws)) == ws && NewTokens(PlainAll(ws)) == ws
    decreases |ws|
  {
    if ws != [] {
      var ws', last := ws[..|ws| - 1], ws[|ws| - 1];
      var p := PlainAll(ws);
      assert p[..|p| - 1] == PlainAll(ws');
      assert p[|p| - 1] == Plain(last);
      PlainAllTokens(ws');
      SplitOfWord(last);
      assert OldTokens(p) == ws' + [last];
      assert NewTokens(p) == ws' + [last];
      assert ws' + [last] == ws;
    }
  }

  /** Each opcode's spans show its old run on the old side and its new run on
      the new side. */
  lemma RenderOpTokens(op: Opcode, a: seq<string>, b: seq<string>)
    requires Fits(op, a, b) && AllWords(a) && AllWords(b)
    ensures OldTokens(RenderOp(op, a, b)) == (if op.tag == Insert then [] else a[op.i1..op.i2])
    ensures NewTokens(RenderOp(op, a, b)) == (if op.tag == Delete then [] else b[op.j1..op.j2])
  {
    var oldRun, newRun := a[op.i1..op.i2], b[op.j1..op.j2];
    assert AllWords(oldRun) && AllWords(newRun);
    match op.tag
    case Equal =>
      PlainAllTokens(oldRun);
    case Delete =>
      SpanTokens(oldRun);
    case Insert =>
      SpanTokens(newRun);
    case Replace =>
      SpanTokens(oldRun);
      SpanTokens(newRun);
      OldTokensAppend([Removed(JoinWith(" ", oldRun))], [Added(JoinWith(" ", newRun))]);
      NewTokensAppend([Removed(JoinWith(" ", oldRun))], [Added(JoinWith(" ", newRun))]);
  }

  /** A removed span of joined words shows those words on the old side only;
      an added span on the new side only. */
  lemma SpanTokens(ws: seq<string>)
    requires AllWords(ws)
    ensures OldTokens([Removed(JoinWith(" ", ws))]) == ws && NewTokens([Removed(JoinWith(" ", ws))]) == []
    ensures OldTokens([Added(JoinWith(" ", ws))]) == [] && NewTokens([Added(JoinWith(" ", ws))]) == ws
  {
    SplitJoinRoundTrip(ws);
    assert [Removed(JoinWith(" ", ws))][..0] == [] && [Added(JoinWith(" ", ws))][..0] == [];
  }

  /** The rendered diff shows exactly the opcodes' old and new runs. */
  lemma {:induction false} RenderTokens(ops: seq<Opcode>, a: seq<string>, b: seq<string>)
    requires AllInBounds(ops, a, b)
    requires forall k :: 0 <= k < |ops| ==> Fits(ops[k], a, b)
    requires AllWords(a) && AllWords(b)
    ensures OldTokens(Render(ops, a, b)) == OldSide(ops, a, b)
    ensures NewTokens(Render(ops, a, b)) == NewSide(ops, a, b)
    decreases |ops|
  {
    if ops != [] {
      var init, op := ops[..|ops| - 1], ops[|ops| - 1];
      RenderTokens(init, a, b);
      OldTokensAppend(Render(init, a, b), RenderOp(op, a, b));
      NewTokensAppend(Render(init, a, b), RenderOp(op, a, b));
      RenderOpTokens(op, a, b);
    }
  }

  /** Tiling: the first `n` opcodes cover exactly the old tokens before
      `ops[n-1].i2` and the new tokens before `ops[n-1].j2`. */
  lemma {:induction false} SidesOfPrefix(ops: seq<Opcode>, a: seq<string>, b: seq<string>, n: nat)
    requires IsOpcodesFor(ops, a, b)
    requires 0 < n <= |ops|
    ensures OldSide(ops[..n], a, b) == a[..ops[n - 1].i2]
    ensures NewSide(ops[..n], a, b) == b[..ops[n - 1].j2]
  {
    var op := ops[n - 1];
    assert ops[..n][..n - 1] == ops[..n - 1];
    if n == 1 {
      assert OldSide(ops[..0], a, b) == [];
    } else {
      SidesOfPrefix(ops, a, b, n - 1);
      assert ops[n - 2].i2 == op.i1 && ops[n - 2].j2 == op.j1;
    }
    assert op.tag == Insert ==> a[..op.i2] == a[..op.i1];
    assert op.tag != Insert ==> a[..op.i2] == a[..op.i1] + a[op.i1..op.i2];
    assert op.tag == Delete ==> b[..op.j2] == b[..op.j1];
    assert op.tag != Delete ==> b[..op.j2] == b[..op.j1] + b[op.j1..op.j2];
  }

  /** Concatenating the old runs of the equal, delete and replace opcodes
      gives the old tokens; the new runs of the equal, insert and replace
      opcodes give the new tokens. */
  lemma Reassembly(ops: seq<Opcode>, a: seq<string>, b: seq<string>)
    requires IsOpcodesFor(ops, a, b)
    ensures OldSide(ops, a, b) == a && NewSide(ops, a, b) == b
  {
    if ops != [] {
      SidesOfPrefix(ops, a, b, |ops|);
      assert ops[..|ops|] == ops;
    }
  }

  /** When every opcode is `equal`, every old token is rendered on its own
      and untagged. */
  lemma {:induction false} AllEqualRendersPlain(ops: seq<Opcode>, a: seq<string>, b: seq<string>, n: nat)
    requires AllInBounds(ops, a, b)
    requires ops != [] ==> ops[0].i1 == 0
    requires forall k :: 0 <= k < |ops| - 1 ==> ops[k].i2 == ops[k + 1].i1
    requires forall k :: 0 <= k < |ops| ==> ops[k].tag == Equal
    requires 0 < n <= |ops|
    ensures Render(ops[..n], a, b) == PlainAll(a[..ops[n - 1].i2])
  {
    var op := ops[n - 1];
    assert op.tag == Equal && InBounds(op, a, b);
    assert Render(ops[..n], a, b) == Render(ops[..n - 1], a, b) + PlainAll(a[op.i1..op.i2]) by {
      assert ops[..n][..n - 1] == ops[..n - 1];
    }
    if n == 1 {
      assert op.i1 == 0 && Render(ops[..0], a, b) == [] && a[..0] == [];
    } else {
      AllEqualRendersPlain(ops, a, b, n - 1);
      assert ops[n - 2].i2 == op.i1;
    }
    assert a[..op.i2] == a[..op.i1] + a[op.i1..op.i2];
    PlainAllAppend(a[..op.i1], a[op.i1..op.i2]);
  }

  lemma PlainAllAppend(x: seq<string>, y: seq<string>)
    ensures PlainAll(x + y) == PlainAll(x) + PlainAll(y)
  {
  }

  /** If all opcodes are `equal`, the diff is the old tokens, untagged. */
  lemma AllEqualIsPlain(ops: seq<Opcode>, a: seq<string>, b: seq<string>)
    requires IsOpcodesFor(ops, a, b)
    requires forall k :: 0 <= k < |ops| ==> ops[k].tag == Equal
    ensures Render(ops, a, b) == PlainAll(a) && !HasTaggedSpan(Render(ops, a, b))
  {
    if ops != [] {
      assert AllInBounds(ops, a, b);
      AllEqualRendersPlain(ops, a, b, |ops|);
      assert ops[..|ops|] == ops;
      assert a[..|a|] == a;
    }
  }

  /** What `get_opcodes` returns for two identical token sequences: one
      `equal` run over all of them, or nothing when both are empty. */
  function IdenticalOpcodes(a: seq<string>): (ops: seq<Opcode>)
    ensures IsOpcodesFor(ops, a, a)
    ensures forall k :: 0 <= k < |ops| ==> ops[k].tag == Equal
  {
    if a == [] then [] else [Opcode(Equal, 0, |a|, 0, |a|)]
  }

  /** create_colored_diff: tokenise both texts and render each opcode of
      the matcher, which is taken as an input satisfying the `get_opcodes`
      contract. */
  method CreateColoredDiff(oldText: string, newText: string, ops: seq<Opcode>) returns (spans: seq<Span>)
    requires IsOpcodesFor(ops, SplitIntoWords(oldText), SplitIntoWords(newText))
    ensures spans == Render(ops, SplitIntoWords(oldText), SplitIntoWords(newText))
    ensures OldTokens(spans) == SplitIntoWords(oldText)
    ensures NewTokens(spans) == SplitIntoWords(newText)
    ensures (forall k :: 0 <= k < |ops| ==> ops[k].tag == Equal) ==>
      spans == PlainAll(SplitIntoWords(oldText)) && !HasTaggedSpan(spans)
      && JoinWords(Texts(spans)) == JoinWith(" ", SplitIntoWords(oldText)) == Normalize(oldText)
  {
    var oldWords := SplitIntoWords(oldText);
    var newWords := SplitIntoWords(newText);
    spans := [];
    for n := 0 to |ops|
      invariant spans == Render(ops[..n], oldWords, newWords)
    {
      var op := ops[n];
      assert ops[..n + 1][..n] == ops[..n];
      match op.tag {
        case Equal =>
          spans := spans + PlainAll(oldWords[op.i1..op.i2]);
        case Delete =>
          spans := spans + [Removed(JoinWith(" ", oldWords[op.i1..op.i2]))];
        case Insert =>
          spans := spans + [Added(JoinWith(" ", newWords[op.j1..op.j2]))];
        case Replace =>
          spans := spans + [Removed(JoinWith(" ", oldWords[op.i1..op.i2]))];
          spans := spans + [Added(JoinWith(" ", newWords[op.j1..op.j2]))];
      }
    }
    assert ops[..|ops|] == ops;
    RenderMeetsContract(oldText, newText, ops);
  }

  /** What the rendering of `create_colored_diff` promises: the old tokens
      are read back from the unchanged and removed spans, the new tokens from
      the unchanged and added spans, and with only `equal` opcodes the output
      is the old tokens untagged, joining to the normalised old text. */
  lemma RenderMeetsContract(oldText: string, newText: string, ops: seq<Opcode>)
    requires IsOpcodesFor(ops, SplitIntoWords(oldText), SplitIntoWords(newText))
    ensures var spans := Render(ops, SplitIntoWords(oldText), SplitIntoWords(newText));
      && OldTokens(spans) == SplitIntoWords(oldText)
      && NewTokens(spans) == SplitIntoWords(newText)
      && ((forall k :: 0 <= k < |ops| ==> ops[k].tag == Equal) ==>
            spans == PlainAll(SplitIntoWords(oldText)) && !HasTaggedSpan(spans)
            && JoinWords(Texts(spans)) == JoinWith(" ", SplitIntoWords(oldText)) == Normalize(oldText))
  {
    var oldWords := SplitIntoWords(oldText);
    var newWords := SplitIntoWords(newText);
    TokensAreWords(oldText);
    TokensAreWords(newText);
    RenderTokens(ops, oldWords, newWords);
    Reassembly(ops, oldWords, newWords);
    if forall k :: 0 <= k < |ops| ==> ops[k].tag == Equal {
      AllEqualIsPlain(ops, oldWords, newWords);
      JoinWordsOfWords(oldWords);
      TokenizeDetokenize(oldText);
    }
  }

  /** An unchanged text renders as its own tokens, untagged, and the joined
      output is the text with its whitespace normalised. */
  lemma UnchangedTextOutput(text: string)
    ensures Render(IdenticalOpcodes(SplitIntoWords(text)), SplitIntoWords(text), SplitIntoWords(text))
        == PlainAll(SplitIntoWords(text))
    ensures JoinWords(Texts(PlainAll(SplitIntoWords(text)))) == Normalize(text)
  {
    var ws := SplitIntoWords(text);
    AllEqualIsPlain(IdenticalOpcodes(ws), ws, ws);
    assert Texts(PlainAll(ws)) == ws;
    TokenizeDetokenize(text);
  }

  lemma WordsOfABC()
    ensures SplitIntoWords("a b c") == ["a", "b", "c"]
    ensures SplitIntoWords("a x c") == ["a", "x", "c"]
  {
    SplitJoinRoundTrip(["a", "b", "c"]);
    SplitJoinRoundTrip(["a", "x", "c"]);
    assert JoinWith(" ", ["a", "b", "c"]) == "a b c";
    assert JoinWith(" ", ["a", "x", "c"]) == "a x c";
    PaddingIsInert("a b c");
    PaddingIsInert("a x c");
  }

  /** "a b c" against "a x c", with the opcodes `get_opcodes` gives for
      their tokens: "a" and "c" stay, "b" is removed and "x" added in its
      place. */
  lemma ReplaceInTheMiddle()
    ensures var a, b := SplitIntoWords("a b c"), SplitIntoWords("a x c");
      var ops := [Opcode(Equal, 0, 1, 0, 1), Opcode(Replace, 1, 2, 1, 2), Opcode(Equal, 2, 3, 2, 3)];
      IsOpcodesFor(ops, a, b) && Render(ops, a, b) == [Plain("a"), Removed("b"), Added("x"), Plain("c")]
  {
    WordsOfABC();
    RenderABC(SplitIntoWords("a b c"), SplitIntoWords("a x c"));
  }

  /** The rendering of the replace-in-the-middle opcodes over the tokens of
      "a b c" and "a x c". */
  lemma RenderABC(a: seq<string>, b: seq<string>)
    requires a == ["a", "b", "c"] && b == ["a", "x", "c"]
    ensures var ops := [Opcode(Equal, 0, 1, 0, 1), Opcode(Replace, 1, 2, 1, 2), Opcode(Equal, 2, 3, 2, 3)];
      IsOpcodesFor(ops, a, b) && Render(ops, a, b) == [Plain("a"), Removed("b"), Added("x"), Plain("c")]
  {
    var ops := [Opcode(Equal, 0, 1, 0, 1), Opcode(Replace, 1, 2, 1, 2), Opcode(Equal, 2, 3, 2, 3)];
    assert ops[..2][..1] == ops[..1];
    assert ops[..3][..2] == ops[..2];
    assert ops[..3] == ops;
    assert ops[..1][..0] == [];
    assert a[1..2] == ["b"] && b[1..2] == ["x"];
    assert JoinWith(" ", a[1..2]) == "b" && JoinWith(" ", b[1..2]) == "x";
    assert Render(ops[..1], a, b) == [Plain("a")];
    assert Render(ops[..2], a, b) == [Plain("a"), Removed("b"), Added("x")];
    assert a[2..3] == ["c"];
    assert RenderOp(ops[2], a, b) == [Plain("c")];
    assert Render(ops, a, b) == Render(ops[..2], a, b) + RenderOp(ops[2], a, b);
  }
}
