# Writing assistant: edit pipeline and word-level diff

This project models the two pieces of the Streamlit writing assistant
(`app.py`) that contain logic.

- **The colored word diff** (`create_colored_diff`). Both texts are split
  into word tokens (`split_into_words`). A matcher describes how the old
  tokens become the new ones as a list of opcodes. Each opcode is rendered
  as unchanged tokens, a "removed" span or an "added" span, and the pieces
  are joined with spaces (`join_words`).
- **The edit pipeline** (`process_text`). The selected passes run in the
  fixed order grammar, clarity, tone. Each pass sends the current text to
  its editing agent and keeps the agent's edited text. Non-empty agent
  comments are collected under a `#### <Pass>` heading. A step counter and a
  progress message announce each pass.

Modules:

- `Strings` (`strings.dfy`): Python's `sep.join` and `str.replace`, and the
  facts about them that the other modules use.
- `Tokenizer` (`tokenizer.dfy`): Python's whitespace set, `str.split()`,
  `str.strip()`, `split_into_words` and `join_words`. `Normalize` is an
  independent reference definition of whitespace collapsing.
- `Diff` (`diff.dfy`): opcodes, the `get_opcodes` contract (`IsOpcodesFor`),
  tagged spans, the rendering function `Render`, and the method
  `CreateColoredDiff` proved against it.
- `Pipeline` (`pipeline.dfy`): passes, the agent's answer, the pass plan,
  the reference definitions of the threaded text (`Rewrite`), the agent
  calls (`Calls`), the collected comments (`Collected`) and the progress
  messages (`Announcements`). The method `ProcessText` is proved against
  these definitions.

Behaviour of the code worth knowing:

- Newlines are not kept as tokens. `split_into_words` pads each newline
  with spaces, but Python's `str.split()` then discards the newline along
  with all other whitespace. Paragraph structure is lost in the diff, and the
  `' \n '` replacement in `join_words` never fires on tokens (`TokensAreWords`,
  `JoinWordsOfWords`).
- The matcher is not required to be minimal. The opcodes are an input that
  satisfies the documented `get_opcodes` contract: the runs tile both token
  sequences contiguously from 0, and `equal` runs cover identical slices.
- There are no Failed, Cancelled or EmptyInput states. An agent error just
  propagates out of `process_text`. Blank input only makes the page show a
  warning, before `process_text` is called (`StripNonEmptyIffTokens` relates
  that guard to the tokenizer).
- `total_steps` is `len(selections)`. It equals the number of passes run
  exactly when the selections are distinct options from the three offered
  (`StepCountMatchesTotal`); a repeated option makes the "Step k/n" messages
  stop short of n.

## Model

| member | source | states |
|---|---|---|
| Tokenizer.TokensAreWords | app.py:141-142 | every token of `split_into_words` is non-empty and free of Python whitespace, so no token is a newline: line breaks are dropped |
| Tokenizer.PaddingIsInert | app.py:142 | padding newlines with spaces before `str.split()` changes nothing: the tokens are those of a plain `str.split()` |
| Tokenizer.SplitYieldsWords | app.py:142 | `str.split()` yields only non-empty, whitespace-free tokens |
| Tokenizer.SplitEmptyIff | app.py:142 | `str.split()` yields no token exactly when the text is all whitespace |
| Tokenizer.JoinWordsOfWords | app.py:144-145 | on whitespace-free tokens `join_words` is a plain `' '.join`: the `' \n '` replacement never fires |
| Tokenizer.JoinSplitNormalizes | app.py:142-145 | `' '.join(s.split())` equals the reference whitespace normalisation of `s` |
| Tokenizer.TokenizeDetokenize | app.py:141-145 | `join_words(split_into_words(t))` is `t` with each whitespace run collapsed to one space and leading and trailing whitespace removed |
| Tokenizer.SplitJoinRoundTrip | app.py:142-145 | splitting text joined from whitespace-free tokens gives the same tokens back |
| Tokenizer.DetokenizeTokenize | app.py:141-145 | `split_into_words(join_words(ws))` is `ws` for any token list the tokenizer can produce, so tokenising is idempotent on its own output |
| Tokenizer.StripNonEmptyIffTokens | app.py:331 | the input guard `text.strip()` is truthy exactly when the text has at least one token |
| Diff.RenderOp | app.py:154-162 | an `equal` opcode gives each old token on its own, untagged; `delete` gives one removed span; `insert` gives one added span; `replace` gives a removed span followed by an added span |
| Diff.RenderOpTokens | app.py:154-162 | one opcode's spans show its old run on the old side and its new run on the new side, read back through the tokenizer |
| Diff.RenderTokens | app.py:153-162 | the spans of all opcodes show exactly the opcodes' old runs on the old side and their new runs on the new side |
| Diff.SidesOfPrefix | app.py:153 | under the opcode contract, the first n opcodes cover exactly the old and new tokens before the n-th opcode's end indices |
| Diff.Reassembly | app.py:150-153 | the old runs of the equal, delete and replace opcodes concatenate to the old tokens; the new runs of the equal, insert and replace opcodes concatenate to the new tokens |
| Diff.AllEqualRendersPlain | app.py:154-155 | when every opcode is `equal`, the spans of the first n opcodes are the old tokens up to the n-th opcode's end, each untagged |
| Diff.AllEqualIsPlain | app.py:147-155 | when every opcode is `equal`, the rendering is the old tokens, untagged, with no removed or added span |
| Diff.IdenticalOpcodes | app.py:150-153 | the opcodes of two identical token lists (one `equal` run, or none for empty lists) meet the opcode contract and are all `equal` |
| Diff.CreateColoredDiff | app.py:139-164 | the loop builds the rendering of the opcodes; removed and unchanged spans give back the old tokens, added and unchanged spans the new ones; with only `equal` opcodes the output has no tagged span and joins to `' '.join(old_words)`, the normalised old text |
| Diff.UnchangedTextOutput | app.py:147-164 | an unchanged text renders as its own tokens, untagged, and the joined output is the text with its whitespace normalised |
| Diff.WordsOfABC | app.py:141-142 | "a b c" and "a x c" tokenise to three words each |
| Diff.SpanTokens | app.py:156-162 | a removed span of joined tokens reads back as exactly those tokens on the old side and nothing on the new side; an added span the reverse |
| Diff.RenderMeetsContract | app.py:147-164 | for opcodes meeting the contract, the rendering reads back as the old tokens on the old side and the new tokens on the new side; with only `equal` opcodes it is the old tokens untagged and joins to the normalised old text |
| Diff.ReplaceInTheMiddle | app.py:141-162 | the texts "a b c" and "a x c" with the opcodes equal, replace, equal: the opcodes meet the contract, "a" and "c" are unchanged and "b" is removed immediately before "x" is added |
| Pipeline.Heading | app.py:306-323 | each heading starts with `#### ` and ends with a newline, so a filed comment is never empty |
| Pipeline.ProcessText | app.py:293-326 | the agent is called on the planned passes in order, each with the text the previous pass produced; the result is the last edited text (the input when no pass runs); the comments are the labelled truthy comments in call order joined with `"\n"`; the progress messages are "Step 1/n" .. "Step k/n" then "All done" |
| Pipeline.Stage | app.py:300-306 | one `if <option> in selections:` block: when the option is selected the locals advance by exactly one pass, otherwise they are unchanged; either way they are the locals after the passes run so far |
| Pipeline.RunPassesMeaning | app.py:294-323 | after any run of passes the text is their threaded rewrite, the calls are the threaded calls, the comments are those calls' collected comments, the counter is the number of passes and the messages number them from 1 |
| Pipeline.CallsThreadText | app.py:294-326 | the first pass gets the input, each later pass gets the previous pass's edited text, and the final text is the last pass's edited text or the input when no pass runs |
| Pipeline.PlanIsCanonical | app.py:300-323 | the passes run in the order grammar, clarity, tone, and each runs exactly when its option is selected |
| Pipeline.PlanIgnoresSelectionOrder | app.py:300-323 | two selection lists with the same options run the same passes in the same order |
| Pipeline.AllThreeInFixedOrder | app.py:300-323 | options selected as tone, grammar, clarity still run grammar, then clarity, then tone |
| Pipeline.StepCountMatchesTotal | app.py:297-317 | the number of passes, which is the final step counter, never exceeds `total_steps = len(selections)`, and equals it exactly when the selections are distinct options from the three offered |
| Pipeline.PlannedOptions | app.py:300-323 | the options of the passes run are distinct, each is selected and one of the three offered, and every offered option that is selected has its pass run |
| Pipeline.OptionOfByRank | app.py:300-323 | two passes come from the same option exactly when they take the same place in the fixed order |
| Pipeline.CollectedNonEmpty | app.py:305-323 | every collected comment is non-empty |
| Pipeline.CollectedEmptyIff | app.py:305-323 | no comment is collected exactly when no agent call returned a truthy comment |
| Pipeline.CommentsEmptyIff | app.py:326 | the returned comments are `""` exactly when no pass produced a truthy comment, in particular when no pass ran |

## Left out

- The Streamlit page: layout, CSS, the input widgets and the display of the results. These are presentation only.
- The exact HTML of the spans. A span is modelled as `Plain`, `Removed` or `Added` with its text. `CreateColoredDiff` returns the spans, not the joined HTML string.
- The internals of `difflib.SequenceMatcher`. This covers the matching algorithm, junk heuristics and any minimality of the edit script. The opcodes are an input constrained by the `get_opcodes` contract.
- The editing agents, `Runner.run`, `asyncio` and `load_dotenv`. These are network and runtime calls. `run_agent` becomes the function parameter `agent`, from a pass to an `EditResponse`. The model treats the agent as deterministic. Each pass calls it once, so this changes nothing in a single run.
- Exceptions raised by the agent. They propagate out of `process_text`, and the model has no error path for them.
- The progress placeholder. It is modelled as the returned list of progress messages; the wording of the messages, including `tone.title()`, is not modelled.
- `EditResponse` validation: the response becomes an edited text and an optional comment; `None` and `""` are both falsy.
- The agent instruction texts and `get_tone_agent`. The tone pass carries the selected tone, and the agent parameter decides what that tone does.
