/** The sequential edit pipeline (`process_text`): the selected passes run in
    the fixed order grammar, clarity, tone; each pass hands the text it gets
    to the editing agent and passes the agent's edited text on to the next
    one, and the agent's non-empty comments are collected under a heading
    per pass. */
module Pipeline {
  import opened Strings

  datatype Option<T> = None | Some(value: T)

  /** The three choices of the options control, as the pipeline tests them. */
  const GrammarOption := "Fix grammar"
  const ClarityOption := "Improve clarity"
  const ToneOption := "Adjust tone"
  const Options := [GrammarOption, ClarityOption, ToneOption]

  /** An editing pass: the agent it runs. The tone pass carries the tone it
      is asked to adjust to. */
  datatype Pass = Grammar | Clarity | ToneTo(tone: string)

  /** The agent's answer (`EditResponse`): the edited text and, possibly,
      comments on the edits. */
  datatype StepResult = StepResult(editedText: string, comments: Option<string>)

  /** One call of the agent: which pass asked it, and with what text. */
  datatype Call = Call(pass: Pass, input: string)

  /** A message shown in the progress placeholder: "Step k/n" for a pass
      about to run, then the final "All done!". */
  datatype Progress = Step(step: nat, total: nat, pass: Pass) | AllDone

  /** Python truthiness of `result.comments`: neither `None` nor `""`. */
  predicate Truthy(c: Option<string>)
  {
    c.Some? && c.value != ""
  }

  /** The heading a pass's comments are filed under. */
  function Heading(p: Pass): (h: string)
    ensures |h| > 5 && h[..5] == "#### " && h[|h| - 1] == '\n'
  {
    match p
    case Grammar => "#### Grammar\n"
    case Clarity => "#### Clarity\n"
    case ToneTo(_) => "#### Tone\n"
  }

  /** The position of a pass in the fixed execution order. */
  function Rank(p: Pass): nat
  {
    match p
    case Grammar => 0
    case Clarity => 1
    case ToneTo(_) => 2
  }

  /** The passes `process_text` runs for the given selections, in the order
      it runs them. */
  function Plan(selections: seq<string>, tone: string): seq<Pass>
  {
    (if GrammarOption in selections then [Grammar] else [])
    + (if ClarityOption in selections then [Clarity] else [])
    + (if ToneOption in selections then [ToneTo(tone)] else [])
  }

  /** The input rewritten by the passes, one after the other. */
  function Rewrite(text: string, passes: seq<Pass>, agent: (Pass, string) -> StepResult): string
  {
    if passes == [] then text
    else agent(passes[|passes| - 1], Rewrite(text, passes[..|passes| - 1], agent)).editedText
  }

  /** The agent calls the passes make: each pass is called with the text the
      passes before it produced. */
  function Calls(text: string, passes: seq<Pass>, agent: (Pass, string) -> StepResult): seq<Call>
  {
    if passes == [] then []
    else
      var init := passes[..|passes| - 1];
      Calls(text, init, agent) + [Call(passes[|passes| - 1], Rewrite(text, init, agent))]
  }

  /** The labelled truthy comments of the calls, in call order. */
  function Collected(calls: seq<Call>, agent: (Pass, string) -> StepResult): seq<string>
  {
    if calls == [] then []
    else
      var c := calls[|calls| - 1];
      var r := agent(c.pass, c.input);
      Collected(calls[..|calls| - 1], agent)
        + (if Truthy(r.comments) then [Heading(c.pass) + r.comments.value] else [])
  }

  /** The "Step k/n" messages of the passes, numbered from 1. */
  function Announcements(passes: seq<Pass>, total: nat): seq<Progress>
  {
    seq(|passes|, k requires 0 <= k < |passes| => Step(k + 1, total, passes[k]))
  }

  /** The locals of process_text between two passes: the text so far, the
      step counter and the labelled comments, together with what the run has
      done outside them so far (the agent calls made and the progress
      messages shown). */
  datatype Locals = Locals(currentText: string, currentStep: nat, comments: seq<string>,
                           calls: seq<Call>, progress: seq<Progress>)

  /** The locals before the first pass. */
  function Start(text: string): Locals
  {
    Locals(text, 0, [], [], [])
  }

  /** What one selected pass does to the locals: it advances the counter,
      announces the step, calls the agent on the current text, keeps the
      edited text and files a truthy comment under the pass's heading. */
  function Advance(s: Locals, pass: Pass, agent: (Pass, string) -> StepResult, total: nat): Locals
  {
    var r := agent(pass, s.currentText);
    Locals(r.editedText, s.currentStep + 1,
           s.comments + (if Truthy(r.comments) then [Heading(pass) + r.comments.value] else []),
           s.calls + [Call(pass, s.currentText)],
           s.progress + [Step(s.currentStep + 1, total, pass)])
  }

  /** The locals after the passes have run one after the other. */
  function RunPasses(s: Locals, passes: seq<Pass>, agent: (Pass, string) -> StepResult, total: nat): Locals
  {
    if passes == [] then s
    else Advance(RunPasses(s, passes[..|passes| - 1], agent, total), passes[|passes| - 1], agent, total)
  }

  /** process_text. The agent call (`run_agent`) is the parameter `agent`;
      the calls made and the progress messages shown are returned beside the
      final text and the joined comments. */
  method ProcessText(text: string, selections: seq<string>, tone: string, agent: (Pass, string) -> StepResult)
    returns (finalText: string, comments: string, calls: seq<Call>, progress: seq<Progress>)
    ensures calls == Calls(text, Plan(selections, tone), agent)
    ensures finalText == Rewrite(text, Plan(selections, tone), agent)
    ensures comments == JoinWith("\n", Collected(calls, agent))
    ensures progress == Announcements(Plan(selections, tone), |selections|) + [AllDone]
  {
    var currentText := text;
    var commentList: seq<string> := [];
    var totalSteps := |selections|;
    var currentStep := 0;
    calls, progress := [], [];
    ghost var done: seq<Pass> := [];
    ghost var grammar := if GrammarOption in selections then [Grammar] else [];
    ghost var clarity := if ClarityOption in selections then [Clarity] else [];
    ghost var toneAdjust := if ToneOption in selections then [ToneTo(tone)] else [];

    currentText, currentStep, commentList, calls, progress :=
      Stage(GrammarOption, Grammar, selections, agent, text, done, totalSteps, currentText, currentStep, commentList, calls, progress);
    done := done + grammar;
    assert done == grammar;

    currentText, currentStep, commentList, calls, progress :=
      Stage(ClarityOption, Clarity, selections, agent, text, done, totalSteps, currentText, currentStep, commentList, calls, progress);
    done := done + clarity;

    currentText, currentStep, commentList, calls, progress :=
      Stage(ToneOption, ToneTo(tone), selections, agent, text, done, totalSteps, currentText, currentStep, commentList, calls, progress);
    done := done + toneAdjust;
    assert done == Plan(selections, tone);

    RunPassesMeaning(text, done, agent, totalSteps);
    progress := progress + [AllDone];
    finalText := currentText;
    comments := JoinWith("\n", commentList);
  }

  /** One `if <option> in selections:` block of process_text. When the
      option is selected, the locals advance by one pass; otherwise they stay
      as they are. Either way they are the locals after the passes run so
      far. */
  method Stage(option: string, pass: Pass, selections: seq<string>, agent: (Pass, string) -> StepResult,
               ghost text: string, ghost done: seq<Pass>,
               totalSteps: nat, currentText: string, currentStep: nat, commentList: seq<string>,
               calls: seq<Call>, progress: seq<Progress>)
    returns (nextText: string, nextStep: nat, nextComments: seq<string>,
             nextCalls: seq<Call>, nextProgress: seq<Progress>)
    requires Locals(currentText, currentStep, commentList, calls, progress)
             == RunPasses(Start(text), done, agent, totalSteps)
    ensures Locals(nextText, nextStep, nextComments, nextCalls, nextProgress)
            == if option in selections
               then Advance(Locals(currentText, currentStep, commentList, calls, progress), pass, agent, totalSteps)
               else Locals(currentText, currentStep, commentList, calls, progress)
    ensures Locals(nextText, nextStep, nextComments, nextCalls, nextProgress)
            == RunPasses(Start(text), done + (if option in selections then [pass] else []), agent, totalSteps)
  {
    nextText, nextStep, nextComments, nextCalls, nextProgress := currentText, currentStep, commentList, calls, progress;
    if option in selections {
      nextStep := nextStep + 1;
      nextProgress := nextProgress + [Step(nextStep, totalSteps, pass)];
      nextCalls := nextCalls + [Call(pass, nextText)];
      var result := agent(pass, nextText);
      nextText := result.editedText;
      if result.comments.Some? && result.comments.value != "" {
        nextComments := nextComments + [Heading(pass) + result.comments.value];
      }
      assert (done + [pass])[..|done|] == done;
    } else {
      assert done + [] == done;
    }
  }

  /** The locals after a run of passes, read against the reference
      definitions: the text is the passes' rewrite, the calls are the
      threaded calls, the comments are their collected comments, the counter
      is the number of passes and the progress messages number them from 1. */
  lemma {:induction false} RunPassesMeaning(text: string, passes: seq<Pass>, agent: (Pass, string) -> StepResult, total: nat)
    ensures var s := RunPasses(Start(text), passes, agent, total);
      && s.currentText == Rewrite(text, passes, agent)
      && s.calls == Calls(text, passes, agent)
      && s.comments == Collected(s.calls, agent)
      && s.currentStep == |passes|
      && s.progress == Announcements(passes, total)
  {
    if passes != [] {
      var init, pass := passes[..|passes| - 1], passes[|passes| - 1];
      RunPassesMeaning(text, init, agent, total);
      var calls := RunPasses(Start(text), passes, agent, total).calls;
      assert calls[..|calls| - 1] == Calls(text, init, agent);
      assert passes == init + [pass];
      AnnouncementsSnoc(init, pass, total);
    }
  }

  /** Announcing one more pass adds its "Step k/n" message at the end. */
  lemma AnnouncementsSnoc(passes: seq<Pass>, pass: Pass, total: nat)
    ensures Announcements(passes + [pass], total) == Announcements(passes, total) + [Step(|passes| + 1, total, pass)]
  {
    var x, y := Announcements(passes + [pass], total), Announcements(passes, total) + [Step(|passes| + 1, total, pass)];
    assert forall k :: 0 <= k < |x| ==> x[k] == y[k];
  }

  /** The text is threaded through the calls: the first pass receives the
      input, every later pass receives the edited text of the pass before it,
      and the result is the edited text of the last pass, or the input
      unchanged when no pass runs. */
  lemma {:induction false} CallsThreadText(text: string, passes: seq<Pass>, agent: (Pass, string) -> StepResult)
    ensures var cs := Calls(text, passes, agent);
      && |cs| == |passes|
      && (forall k :: 0 <= k < |cs| ==> cs[k].pass == passes[k])
      && (cs != [] ==> cs[0].input == text)
      && (forall k :: 0 < k < |cs| ==> cs[k].input == agent(cs[k - 1].pass, cs[k - 1].input).editedText)
      && Rewrite(text, passes, agent)
         == if cs == [] then text else agent(cs[|cs| - 1].pass, cs[|cs| - 1].input).editedText
  {
    if passes != [] {
      var init := passes[..|passes| - 1];
      CallsThreadText(text, init, agent);
      var cs, ci := Calls(text, passes, agent), Calls(text, init, agent);
      assert cs[..|ci|] == ci;
      if ci != [] {
        assert cs[|ci|].input == agent(ci[|ci| - 1].pass, ci[|ci| - 1].input).editedText;
      }
    }
  }

  // ---- Order of the passes ----

  /** The passes run in the order grammar, clarity, tone, and a pass runs
      exactly when its option is selected. */
  lemma PlanIsCanonical(selections: seq<string>, tone: string)
    ensures forall i, j :: 0 <= i < j < |Plan(selections, tone)| ==>
      Rank(Plan(selections, tone)[i]) < Rank(Plan(selections, tone)[j])
    ensures Grammar in Plan(selections, tone) <==> GrammarOption in selections
    ensures Clarity in Plan(selections, tone) <==> ClarityOption in selections
    ensures ToneTo(tone) in Plan(selections, tone) <==> ToneOption in selections
    ensures forall p :: p in Plan(selections, tone) ==> p.ToneTo? ==> p == ToneTo(tone)
  {
  }

  /** The order in which the options were selected does not matter. */
  lemma PlanIgnoresSelectionOrder(s1: seq<string>, s2: seq<string>, tone: string)
    requires forall o :: o in s1 <==> o in s2
    ensures Plan(s1, tone) == Plan(s2, tone)
  {
  }

  /** Selected as tone, grammar, clarity, the passes still run grammar first. */
  lemma AllThreeInFixedOrder(tone: string)
    ensures Plan([ToneOption, GrammarOption, ClarityOption], tone) == [Grammar, Clarity, ToneTo(tone)]
  {
    var s := [ToneOption, GrammarOption, ClarityOption];
    assert s[1] == GrammarOption && s[2] == ClarityOption && s[0] == ToneOption;
  }

  predicate Distinct(s: seq<string>)
  {
    forall i, j :: 0 <= i < j < |s| ==> s[i] != s[j]
  }

  function SetOf(s: seq<string>): set<string>
  {
    set x | x in s
  }

  /** A list has as many distinct members as entries exactly when no entry
      repeats. */
  lemma {:induction false} SetOfSize(s: seq<string>)
    ensures |SetOf(s)| <= |s|
    ensures Distinct(s) <==> |SetOf(s)| == |s|
  {
    if s != [] {
      var init, last := s[..|s| - 1], s[|s| - 1];
      SetOfSize(init);
      assert forall k :: 0 <= k < |init| ==> init[k] == s[k];
      if last in SetOf(init) {
        assert SetOf(s) == SetOf(init);
        var k :| 0 <= k < |init| && init[k] == last;
        assert s[k] == s[|s| - 1];
      } else {
        assert SetOf(s) == SetOf(init) + {last};
        if |SetOf(s)| == |s| {
          assert Distinct(init);
          forall i, j | 0 <= i < j < |s| ensures s[i] != s[j] {
            if j == |s| - 1 {
              assert s[i] in SetOf(init);
            }
          }
        }
      }
    }
  }

  lemma {:induction false} SubsetSize(a: set<string>, b: set<string>)
    requires a <= b
    ensures |a| <= |b|
    decreases b
  {
    if a != {} {
      var x :| x in a;
      SubsetSize(a - {x}, b - {x});
    }
  }

  /** A list of distinct strings, each found in `ys`, is no longer than `ys`;
      when it is as long, `ys` has no repeats and holds nothing else. */
  lemma DistinctMembersBound(xs: seq<string>, ys: seq<string>)
    requires Distinct(xs)
    requires forall i :: 0 <= i < |xs| ==> xs[i] in ys
    ensures |xs| <= |ys|
    ensures |xs| == |ys| ==> Distinct(ys) && forall i :: 0 <= i < |ys| ==> ys[i] in xs
  {
    SetOfSize(xs);
    SetOfSize(ys);
    SubsetSize(SetOf(xs), SetOf(ys));
    if |xs| == |ys| {
      forall i | 0 <= i < |ys| ensures ys[i] in xs {
        if ys[i] !in xs {
          SubsetSize(SetOf(xs), SetOf(ys) - {ys[i]});
        }
      }
    }
  }

  /** The option that selects a pass. */
  function OptionOf(p: Pass): string
  {
    match p
    case Grammar => GrammarOption
    case Clarity => ClarityOption
    case ToneTo(_) => ToneOption
  }

  /** The options behind the planned passes, in the order the passes run. */
  function PlannedOptions(selections: seq<string>, tone: string): (r: seq<string>)
    ensures |r| == |Plan(selections, tone)|
    ensures Distinct(r)
    ensures forall k :: 0 <= k < |r| ==> r[k] in selections && r[k] in Options
    ensures forall o :: o in selections && o in Options ==> o in r
  {
    var plan := Plan(selections, tone);
    var r := seq(|plan|, k requires 0 <= k < |plan| => OptionOf(plan[k]));
    OptionsOfPlan(selections, tone, r);
    PlanCoversOptions(selections, tone, r);
    r
  }

  /** Passes of different ranks are selected by different options. */
  lemma OptionOfByRank(p: Pass, q: Pass)
    ensures OptionOf(p) == OptionOf(q) <==> Rank(p) == Rank(q)
  {
    assert GrammarOption[0] == 'F' && ClarityOption[0] == 'I' && ToneOption[0] == 'A';
  }

  /** The options behind the plan are distinct and selected. */
  lemma OptionsOfPlan(selections: seq<string>, tone: string, r: seq<string>)
    requires |r| == |Plan(selections, tone)|
    requires forall k :: 0 <= k < |r| ==> r[k] == OptionOf(Plan(selections, tone)[k])
    ensures Distinct(r)
    ensures forall k :: 0 <= k < |r| ==> r[k] in selections && r[k] in Options
  {
    var plan := Plan(selections, tone);
    PlanIsCanonical(selections, tone);
    forall i, j | 0 <= i < j < |r| ensures r[i] != r[j] {
      OptionOfByRank(plan[i], plan[j]);
    }
    forall k | 0 <= k < |r| ensures r[k] in selections && r[k] in Options {
      assert plan[k] in plan;
    }
  }

  /** Every selected option has its pass in the plan. */
  lemma PlanCoversOptions(selections: seq<string>, tone: string, r: seq<string>)
    requires |r| == |Plan(selections, tone)|
    requires forall k :: 0 <= k < |r| ==> r[k] == OptionOf(Plan(selections, tone)[k])
    ensures forall o :: o in selections && o in Options ==> o in r
  {
    var plan := Plan(selections, tone);
    forall o | o in selections && o in Options ensures o in r {
      var p := if o == GrammarOption then Grammar else if o == ClarityOption then Clarity else ToneTo(tone);
      assert OptionOf(p) == o;
      assert p in plan;
      var k :| 0 <= k < |plan| && plan[k] == p;
      assert r[k] == o;
    }
  }

  /** The step counter never exceeds `total_steps = len(selections)`, and
      it ends equal to it exactly when the selections are distinct choices of
      the options control. */
  lemma StepCountMatchesTotal(selections: seq<string>, tone: string)
    ensures |Plan(selections, tone)| <= |selections|
    ensures |Plan(selections, tone)| == |selections| <==>
            Distinct(selections) && forall i :: 0 <= i < |selections| ==> selections[i] in Options
  {
    var opts := PlannedOptions(selections, tone);
    DistinctMembersBound(opts, selections);
    if Distinct(selections) && forall i :: 0 <= i < |selections| ==> selections[i] in Options {
      DistinctMembersBound(selections, opts);
    }
  }

  // ---- Comments ----

  /** Every collected comment starts with its pass's heading, so none is empty. */
  lemma {:induction false} CollectedNonEmpty(calls: seq<Call>, agent: (Pass, string) -> StepResult)
    ensures forall k :: 0 <= k < |Collected(calls, agent)| ==> Collected(calls, agent)[k] != ""
    decreases |calls|
  {
    if calls != [] {
      CollectedNonEmpty(calls[..|calls| - 1], agent);
    }
  }

  /** A comment is collected exactly when some call's agent answered with a
      truthy comment. */
  lemma {:induction false} CollectedEmptyIff(calls: seq<Call>, agent: (Pass, string) -> StepResult)
    ensures Collected(calls, agent) == [] <==>
      forall k :: 0 <= k < |calls| ==> !Truthy(agent(calls[k].pass, calls[k].input).comments)
    decreases |calls|
  {
    if calls != [] {
      var init := calls[..|calls| - 1];
      CollectedEmptyIff(init, agent);
      assert forall k :: 0 <= k < |init| ==> init[k] == calls[k];
    }
  }

  /** The returned comments are `""` exactly when no pass produced a truthy
      comment (in particular when no pass ran). */
  lemma CommentsEmptyIff(calls: seq<Call>, agent: (Pass, string) -> StepResult)
    ensures JoinWith("\n", Collected(calls, agent)) == "" <==>
      forall k :: 0 <= k < |calls| ==> !Truthy(agent(calls[k].pass, calls[k].input).comments)
  {
    CollectedNonEmpty(calls, agent);
    JoinWithEmpty("\n", Collected(calls, agent));
    CollectedEmptyIff(calls, agent);
  }

}
