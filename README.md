# Math quiz engine — a Dafny model

The quiz presents grade-7 maths items one at a time. Each item is rendered by
one of five interaction templates: a balance-equation stepper, a number line,
a worked example with blanks, a sorting board, and an error audit. A template
reports a response. When the learner presses "Check Answer", the scoring
engine grades that response under the item's scoring model (exact,
equivalence, set membership, process or rubric-lite). The runner then picks
feedback by attempt number and moves from a main item to its transfer item or
to the next item.

The model covers these parts:

- **JavaScript values** (`JsNumber`, `JsValue`).
  - JavaScript numbers: finite reals, ±Infinity and NaN.
  - `===` on numbers and on values, where NaN is unequal to itself and objects never equal a key value.
  - `String.prototype.trim` with JavaScript's full white-space set.
  - `Number(string)` with its grammar of decimal, exponent and `0x`/`0o`/`0b` literals.
- **Normaliser** (`Normalize`). `normalizeFraction`, with the mixed-number and fraction regular expressions written out as matchers. Lemmas show that each matcher recognises exactly its shape.
- **Scoring engine** (`Scoring`, `Counting`). `scoreItem` as a pure function, with a lemma per scoring model stating its score, its correctness flag and its tags.
- **Balance stepper** (`BalanceOps`). The equation state, the operation step, the response object and the left-side label. Lemmas show that exact steps keep every solution, and that the 0.0001 tolerance and a DIVIDE pressed first do not.
- **Quiz runner** (`QuizRunner`). The flow state: index, attempt, stage, pending response, last result and solution flag. It covers commit, next, reset and reveal, and runs of events with bounds on the index and on the attempt counter.
- **Fraction input** (`FractionInput`). `parseValue`, the string built by `handlePartChange`, and a round-trip lemma with its exact side conditions.
- **Sorting board** (`ClassifySort`). Selection and placement; placed cards never move, bin badges count correctly, and the reported mapping is the board's own.
- **Sample items** (`MockItems`). The five shipped items and what the engine makes of typical responses to them.

Each stateful component is a `class` whose fields are the component's state
variables. Each class method is proved to leave the state equal to a pure step
function applied to the old state (`Step`, `Commit`, `Next`, `Place`,
`WithField`). The lemmas are stated over those functions and over runs of
them.

Responses are a tagged union with one variant per template; `Get` reads a
property of any of them the way `response[key]` would. Answer keys are a
tagged union with one variant per scoring model.

Where the code and the design description differ, the model follows the code:

- `normalizeFraction` does not unwrap LaTeX; it only deletes backslashes. So `\frac{9}{8}` normalises to `null`, not 1.125.
- A zero denominator is divided through: `3/0` gives Infinity and `0/0` gives NaN, not `null`.
- A blank missing from the response is not always a non-match. It normalises to `null`, and so does every LaTeX accepted answer, so the missing blank matches one (`Scoring.MissingBlankMatchesLatex`). The sample worked-example item therefore grades an empty response as correct (`MockItems.WorkedExampleEmptyResponse`).

## Model

| member | source | states |
|---|---|---|
| JsNumber.NumEq | src/utils/scoring.ts:29 | two numbers are `===` exactly when they are equal and not NaN |
| JsNumber.Add | src/utils/normalize.ts:13 | finite numbers add as reals; the sum is finite exactly when both are; it is NaN exactly when one is NaN or the two are opposite infinities |
| JsNumber.Div | src/utils/normalize.ts:20 | finite numbers over a non-zero divisor divide as reals; the quotient is finite exactly when the dividend is finite and the divisor is neither NaN nor 0; it is NaN exactly for a NaN operand, `0 / 0` or two infinities |
| JsNumber.Trim | src/utils/normalize.ts:7 | the result is the input with a run of white space removed from each end, and neither starts nor ends with white space; already-trimmed text is left alone and blank text becomes `""` |
| JsNumber.DigitsToNumber | src/utils/normalize.ts:13 | `Number` of a non-empty digit string is its decimal value |
| JsNumber.StringToNumber | src/utils/normalize.ts:24 | blank text converts to 0; over exact reals, with no overflow, the result is Infinity exactly for trimmed text `Infinity` or `+Infinity`, and -Infinity exactly for `-Infinity` |
| JsNumber.SignedInfinity | src/utils/normalize.ts:24 | the signed decimal literal is Infinity exactly for `Infinity`/`+Infinity` and -Infinity exactly for `-Infinity`, and none of them is a `0x`/`0o`/`0b` literal |
| JsValue.StrictEq | src/utils/scoring.ts:15 | `===` holds exactly for equal values that are neither objects nor NaN |
| JsValue.ToNumber | src/utils/scoring.ts:61 | `Number(v)`: a number is itself, text goes through `Number(string)`, `undefined` is NaN, `null` and `false` are 0, `true` is 1 |
| ItemTypes.Get | src/utils/scoring.ts:45-61 | a number-line response has no properties; blank and placement records give text exactly for their own keys and `undefined` otherwise; the audit's corrections win over `wrong_line`; a balance report gives no text, and a number for `currentX` exactly when isolated |
| Normalize.RemoveBackslashes | src/utils/normalize.ts:7 | the result holds no backslash, holds every other character as often as the input does, and text without one is unchanged |
| Normalize.RemoveBackslashesConcat | src/utils/normalize.ts:7 | deleting backslashes works piece by piece over a concatenation, so the kept characters stay in order |
| Normalize.MatchFractionIff | src/utils/normalize.ts:17 | the fraction pattern matches with groups `n`, `d` exactly when the text is `n/d` for non-empty digit strings |
| Normalize.MatchFraction | src/utils/normalize.ts:17 | every match is `n/d` for its two non-empty digit groups |
| Normalize.MatchMixed | src/utils/normalize.ts:10 | a match begins with its non-empty digit whole part, ends with `n/d` for its other two groups with something in between, and is never also a fraction match |
| Normalize.MatchMixedComplete | src/utils/normalize.ts:10 | every `w`, white space, `n/d` of digit strings is matched as a mixed number with groups `w`, `n`, `d` |
| Normalize.MatchMixedSound | src/utils/normalize.ts:10 | whatever the mixed pattern matches has that shape |
| Normalize.Classify | src/utils/normalize.ts:9-25 | the outcome of the three attempts is always `null` or a number |
| Normalize.NormalizeFraction | src/utils/normalize.ts:5-6 | `undefined`, `null` and `''` give `null`, and every result is `null` or a number |
| Normalize.CleanText | src/utils/normalize.ts:7 | trimmed text with no backslash is classified as it stands |
| Normalize.NormalizeSimpleFraction | src/utils/normalize.ts:17-21 | `n/d` of digit strings normalises to `Number(n) / Number(d)`, including Infinity and NaN for a zero denominator |
| Normalize.NormalizeMixedNumber | src/utils/normalize.ts:10-14 | a mixed number of digit strings normalises to whole plus `num / den` |
| Normalize.DigitsNormalise | src/utils/normalize.ts:23-25 | a non-empty digit string is neither mixed nor a fraction, and normalises to its decimal value |
| Normalize.DocumentedExamples | src/utils/normalize.ts:2-3 | `"1 1/2"`, `"3/2"` and `"1.5"` all give 1.5 |
| Normalize.ZeroDenominators | src/utils/normalize.ts:17-21 | `"3/0"` gives Infinity and `"0/0"` gives NaN |
| Normalize.LatexFractionIsNull | src/utils/normalize.ts:7 | `\frac{n}{d}` normalises to `null`, because only the backslash is removed |
| Normalize.LatexMixedIsNull | src/utils/normalize.ts:7 | `w\frac{n}{d}` normalises to `null` too |
| Normalize.NonNumbersAreNull | src/utils/normalize.ts:24-25 | `"abc"`, `"-3/2"` and `"frac{3}{2}"` give `null` |
| Normalize.WhitespaceIsZero | src/utils/normalize.ts:6-25 | non-empty blank text passes the guard, trims to `''` and becomes 0 |
| Counting.CountIsCardinality | src/utils/scoring.ts:23-27 | the accumulated count equals the number of positions satisfying the predicate |
| Counting.CountAll | src/utils/scoring.ts:37 | the count reaches the length exactly when every entry satisfies the predicate |
| Counting.CountNone | src/utils/scoring.ts:37 | the count is zero exactly when no entry satisfies the predicate |
| Counting.CountCongruent | src/utils/scoring.ts:23-27 | predicates that agree on every entry give the same count |
| Counting.CountWhere | src/utils/scoring.ts:23-27 | the count never exceeds the length; `CountIsCardinality` relates it to the index set |
| Scoring.Binary | src/utils/scoring.ts:16 | the binary score is `=== 1` exactly when the check passed |
| Scoring.Ratio | src/utils/scoring.ts:28 | with a non-empty key the score is count / total; with an empty key it is `0 / 0`, NaN |
| Scoring.FirstOpId | src/utils/scoring.ts:50 | only a balance report with a non-empty history has a first `op_id` |
| Scoring.BlankMatches | src/utils/scoring.ts:24-25 | a blank matches exactly when its normalised response is not NaN and equals the normalisation of some accepted answer |
| Scoring.BinMatches | src/utils/scoring.ts:37 | a card matches exactly when the response maps it to the expected bin id |
| Scoring.CorrectionsHold | src/utils/scoring.ts:60-62 | the check holds exactly when every correction field converts to exactly the expected number |
| Scoring.ProcessTags | src/utils/scoring.ts:50-52 | at most the one tag, present exactly when the first op id is DIVIDE and the item id contains "BAL", and then the response is a balance report whose first op is DIVIDE |
| Scoring.RubricScore | src/utils/scoring.ts:64-66 | both checks give 1 and neither gives 0; with partial weights below 1, the score is 1 exactly when both checks pass; with weights in [0, 1] the score lies in [0, 1] |
| Scoring.FeedbackText | src/utils/scoring.ts:74-78 | one of the three feedback texts: on-correct when correct, attempt-1 on a wrong attempt 1, attempt-2 on a wrong answer at any other attempt number |
| Scoring.Evaluate | src/utils/scoring.ts:13-71 | the item is correct exactly when the score is 1, and the only possible tag is DIVIDE_BEFORE_SUBTRACT |
| Scoring.ScoreItem | src/utils/scoring.ts:7-81 | correct iff score 1; the response is returned unchanged; feedback is on-correct, attempt-1 or attempt-2 by correctness and attempt; a tag only comes from a process item of the balance template |
| Scoring.ExactScoring | src/utils/scoring.ts:14-17 | exact: correct iff the response equals the key value with no normalisation (never for objects or NaN); binary score; no tags |
| Scoring.EquivalenceScoring | src/utils/scoring.ts:19-30 | equivalence: the score is matched blanks / key blanks, lies in [0, 1], and is correct iff every key blank matches |
| Scoring.BothBlanksMatch | src/utils/scoring.ts:19-30 | a response matching both blanks of a two-blank key is correct |
| Scoring.FractionAtMostOne | src/utils/scoring.ts:28-29 | a count over a positive total lies in [0, 1] and equals 1 exactly when the count is the total |
| Scoring.EquivalenceEmptyKey | src/utils/scoring.ts:28-29 | an empty blank key scores NaN and is never correct |
| Scoring.EquivalenceReadsOnlyKeyBlanks | src/utils/scoring.ts:23-25 | responses that agree on the key blanks score the same |
| Scoring.MissingBlankMatchesLatex | src/utils/scoring.ts:24-25 | a blank missing from the response matches any accepted LaTeX fraction |
| Scoring.AcceptedAnswerMatches | src/utils/scoring.ts:24-25 | typing an accepted answer matches its blank unless that answer normalises to NaN |
| Scoring.ZeroOverZeroNeverMatches | src/utils/scoring.ts:25 | typing `0/0` never matches a blank whose only accepted answer is `0/0` |
| Scoring.SetMembershipScoring | src/utils/scoring.ts:32-40 | set membership: the score is cards in their bin / key cards, in [0, 1]; correct iff each key card reads its expected bin |
| Scoring.SetMembershipReadsOnlyKeyCards | src/utils/scoring.ts:37 | responses that agree on the key cards score the same |
| Scoring.SetMembershipNothingPlaced | src/utils/scoring.ts:37-38 | an empty placement scores 0 against a non-empty key |
| Scoring.ProcessScoring | src/utils/scoring.ts:42-54 | process on a balance item: correct iff `currentX` is the key's `x_value` (so `null` scores 0); binary score; tagged iff the first recorded op is DIVIDE and the id contains "BAL" |
| Scoring.ProcessScoreIgnoresHistory | src/utils/scoring.ts:45-52 | two balance reports with the same `currentX` score the same, whatever their history |
| Scoring.RubricScoring | src/utils/scoring.ts:56-70 | rubric-lite on an error-analysis item: 1, `line_only`, `numbers_only` or 0 according to the line check and the corrections check |
| Scoring.UngradedFallThrough | src/utils/scoring.ts:8-78 | tolerance, and process or rubric-lite on another template, fall through: score 0, not correct, no tags, incorrect-attempt feedback |
| BalanceOps.Initial | src/components/templates/BalanceOps.tsx:14-20 | the state starts from the configured `a`, `b` and right value, with an empty history and both flags clear |
| BalanceOps.Step | src/components/templates/BalanceOps.tsx:50-79 | every op is appended to the history; isolation is never cleared; an unknown op changes nothing else |
| BalanceOps.Run | src/components/templates/BalanceOps.tsx:50-52 | a run adds one history entry per press and keeps the old history as a prefix |
| BalanceOps.Report | src/components/templates/BalanceOps.tsx:82-90 | the reported object carries the history, the flags and the left side, and `currentX` is the right side exactly when isolated, else `null` |
| BalanceOps.LeftLabel | src/components/templates/BalanceOps.tsx:36-48 | the variable alone once divided; otherwise the coefficient part followed by nothing for a constant within 0.0001 of zero, else ` + ` or ` - ` by its sign and then its absolute value |
| BalanceOps.VarPart | src/components/templates/BalanceOps.tsx:39-41 | a coefficient of 1 is not written |
| BalanceOps.RunHistory | src/components/templates/BalanceOps.tsx:51-52 | after any run the history is the old history followed by the pressed ops |
| BalanceOps.RunKeepsIsolated | src/components/templates/BalanceOps.tsx:64-72 | no operation clears `isolated` |
| BalanceOps.RunKeepsConsistent | src/components/templates/BalanceOps.tsx:67-69 | `isolated` and `isDivided` stay equal |
| BalanceOps.ShiftKeepsDifference | src/components/templates/BalanceOps.tsx:54-62 | ADD adds the op's value to the constant and the right side, SUBTRACT subtracts it; the history gains the op; the coefficient, `isolated` and `isDivided` stay, so the right side minus the constant stays too |
| BalanceOps.MultiplyScales | src/components/templates/BalanceOps.tsx:74-78 | MULTIPLY scales the coefficient, constant and right side by the same factor; the history gains the op; `isolated` and `isDivided` stay |
| BalanceOps.DivideSpec | src/components/templates/BalanceOps.tsx:64-72 | DIVIDE always divides the right side; the left becomes the bare variable exactly when the isolation check passes |
| BalanceOps.StepKeepsSolution | src/components/templates/BalanceOps.tsx:50-79 | an exact step keeps every solution of the displayed equation |
| BalanceOps.RunKeepsSolution | src/components/templates/BalanceOps.tsx:50-79 | a run of exact steps keeps every solution |
| BalanceOps.ExactIsolationSolves | src/components/templates/BalanceOps.tsx:64-89 | an exact run that ends isolated with `x + 0` reports the solution of the original equation as `currentX` |
| BalanceOps.ToleranceIsolatesInexactly | src/components/templates/BalanceOps.tsx:66 | `2x + 0.00005 = 4` divided by 2 reports x = 2, which does not solve it |
| BalanceOps.DivideFirstUnbalances | src/components/templates/BalanceOps.tsx:64-72 | DIVIDE 3 on `3x + 5 = 20` divides only the right side: 5 stops being a solution and nothing is reported |
| BalanceOps.IsolatedDrifts | src/components/templates/BalanceOps.tsx:59-62 | after isolation, ADD 5 still changes the reported `currentX` (5 becomes 10) |
| BalanceOps.Equation.constructor | src/components/templates/BalanceOps.tsx:14-20 | the state is the configured initial equation |
| BalanceOps.Equation.ApplyOp | src/components/templates/BalanceOps.tsx:50-79 | pressing an op button of the item leaves the state `Step(old state, op)` |
| BalanceOps.Equation.Reset | src/components/templates/BalanceOps.tsx:135-142 | the state is back to the configured initial equation |
| BalanceOps.Equation.Response | src/components/templates/BalanceOps.tsx:83-89 | the object handed to the runner is `Report` of the state |
| BalanceOps.Equation.Label | src/components/templates/BalanceOps.tsx:97 | the displayed left side is `LeftLabel` of the state |
| QuizRunner.CurrentItem | src/components/QuizRunner.tsx:40 | the main item in MAIN, its transfer item in TRANSFER |
| QuizRunner.Truthy | src/components/QuizRunner.tsx:84 | `null` is falsy, every response object is truthy, and a number-line position is truthy exactly when it is not 0 |
| QuizRunner.Commit | src/components/QuizRunner.tsx:83-91 | a commit keeps the flow valid, keeps the index, stage, pending response and solution flag, raises the attempt by at most 1, does nothing without a truthy response, and otherwise records a result whose correctness decides whether the attempt rises |
| QuizRunner.Next | src/components/QuizRunner.tsx:98-114 | Next keeps the flow valid; it either changes nothing or resets the flow state; it keeps the index or moves one item on in MAIN; it enters TRANSFER only after a correct result, on the same item |
| QuizRunner.Reveal | src/components/QuizRunner.tsx:175-177 | the solution shows exactly when already shown or offered (`RevealOffered`: attempt above 2 and no correct result), and nothing else changes |
| QuizRunner.Handle | src/components/QuizRunner.tsx:83-177 | every event keeps the flow valid and never lowers the index; only Next moves the item or stage, only Commit or Next changes the result, only Reveal shows the solution, only a report or Next changes the pending response |
| QuizRunner.Run | src/components/QuizRunner.tsx:83-177 | a run keeps the flow valid, and a run without Next stays on the same item and stage |
| QuizRunner.ResetFlow | src/components/QuizRunner.tsx:120-125 | attempt back to 1, response, result and solution cleared, position and stage kept |
| QuizRunner.HandleKeepsValid | src/components/QuizRunner.tsx:98-114 | every event keeps the index on an item (and TRANSFER only on items with a transfer item) and never lowers the index |
| QuizRunner.CommitFalsyIsNoop | src/components/QuizRunner.tsx:84 | committing with no response, or the number 0, changes nothing |
| QuizRunner.CommitStoresResult | src/components/QuizRunner.tsx:83-91 | a commit stores `scoreItem(currentItem, response, attempt)`, adds 1 to the attempt exactly when it is incorrect, and changes nothing else |
| QuizRunner.CheckButtonGuard | src/components/QuizRunner.tsx:184-191 | an enabled Check Answer always records a result; without a truthy response it would change nothing |
| QuizRunner.RevealGuard | src/components/QuizRunner.tsx:174-182 | the solution shows exactly when already shown or offered (attempt > 2, no correct result), and every move to another item hides it |
| QuizRunner.NextToTransfer | src/components/QuizRunner.tsx:99-102 | after a correct main item with a transfer item, Next shows that transfer item with fresh flow state |
| QuizRunner.NextAdvances | src/components/QuizRunner.tsx:104-112 | otherwise Next moves to the next main item with fresh flow state, and on the last item changes nothing |
| QuizRunner.RunKeepsIndex | src/components/QuizRunner.tsx:98-114 | over any run of events the index stays on an item and never decreases |
| QuizRunner.AttemptBound | src/components/QuizRunner.tsx:88-90 | over any run the attempt stays at least 1 and at most its start value plus the number of commits |
| QuizRunner.RevealNeedsTwoCommits | src/components/QuizRunner.tsx:175 | from the start state, the reveal button can only be offered after at least two commits |
| QuizRunner.Runner.constructor | src/components/QuizRunner.tsx:31-37 | the runner starts on item 0, attempt 1, MAIN, with nothing pending |
| QuizRunner.Runner.Current | src/components/QuizRunner.tsx:40 | the current item of the runner's state |
| QuizRunner.Runner.SetLocalResponse | src/components/QuizRunner.tsx:168 | the template's reported response is stored and nothing else changes |
| QuizRunner.Runner.HandleCommit | src/components/QuizRunner.tsx:83-91 | the new state is `Commit(old state)` |
| QuizRunner.Runner.ResetFlowState | src/components/QuizRunner.tsx:120-125 | the new state is `ResetFlow(old state)` |
| QuizRunner.Runner.HandleNext | src/components/QuizRunner.tsx:98-114 | the new state is `Next(old state)` and stays valid |
| QuizRunner.Runner.RevealSolution | src/components/QuizRunner.tsx:175-177 | the new state is `Reveal(old state)` |
| FractionInput.IndexOf | src/components/FractionInput.tsx:25 | the first position of the separator |
| FractionInput.Split | src/components/FractionInput.tsx:25-28 | at least one piece; two or more exactly when the separator occurs; no piece holds it |
| FractionInput.JoinSplit | src/components/FractionInput.tsx:25 | joining the pieces with the separator gives back the string |
| FractionInput.SplitKeepsOut | src/components/FractionInput.tsx:28 | a character missing from the string is missing from every piece |
| FractionInput.SplitOnce | src/components/FractionInput.tsx:34 | a string with exactly one separator splits into its two sides |
| FractionInput.ParseValue | src/components/FractionInput.tsx:20-42 | `''` gives three empty fields; a value with neither space nor slash is a numerator alone; no field holds a space, and numerator and denominator hold no slash |
| FractionInput.Emit | src/components/FractionInput.tsx:54-63 | the emitted string has no white space at either end |
| FractionInput.Combine | src/components/FractionInput.tsx:54-61 | unless a whole part is used in the mixed form, the numerator leads the string, stands alone when a fraction field is empty, and outside the mixed form at most a slash and the denominator follow it; a whole part in the mixed form, or both fraction fields, put a slash in it |
| FractionInput.WithField | src/components/FractionInput.tsx:51 | the edited field holds the new text and the other two fields are unchanged |
| FractionInput.PlainHasNoSeparator | src/components/FractionInput.tsx:24-33 | a field without white space or slash holds neither separator and is unchanged by trimming |
| FractionInput.ParseFraction | src/components/FractionInput.tsx:33-37 | `n/d` parses back to numerator `n` and denominator `d` |
| FractionInput.ParseMixed | src/components/FractionInput.tsx:24-31 | `w n/d` parses back to its three fields |
| FractionInput.RoundTrip | src/components/FractionInput.tsx:20-63 | parsing the emitted string gives the fields back, for fields without spaces or slashes, a whole part only in the mixed form, and no lone denominator |
| FractionInput.LoneDenominatorIsLost | src/components/FractionInput.tsx:57-60 | a denominator typed without a numerator is emitted as `''` and parses back to empty fields |
| FractionInput.WholeBeforeFraction | src/components/FractionInput.tsx:55-56 | a whole part typed first is emitted as `w /` and parses back to the whole part alone |
| FractionInput.EmittedFractionValue | src/components/FractionInput.tsx:57-58 | digit fields emit `n/d`, which the normaliser reads as `Number(n) / Number(d)` |
| FractionInput.EmittedMixedValue | src/components/FractionInput.tsx:55-56 | digit fields in mixed mode emit `w n/d`, which the normaliser reads as whole plus quotient |
| FractionInput.Input.constructor | src/components/FractionInput.tsx:44 | the fields start as the parsed value |
| FractionInput.Input.SyncValue | src/components/FractionInput.tsx:46-48 | a new value re-parses the fields |
| FractionInput.Input.HandlePartChange | src/components/FractionInput.tsx:50-64 | the edited field is replaced, and the string passed on is `Emit` of the new fields |
| ClassifySort.Emitted | src/components/templates/ClassifySort.tsx:9-11 | the reported response reads each card's bin, and `undefined` for cards with no entry |
| ClassifySort.PlacedCount | src/components/templates/ClassifySort.tsx:44 | a bin's badge is at most the number of entries, and 0 exactly when no entry names the bin |
| ClassifySort.Select | src/components/templates/ClassifySort.tsx:28-29 | selecting never changes the mapping, and only ever selects the clicked card when it is not placed |
| ClassifySort.Place | src/components/templates/ClassifySort.tsx:13-17 | a click on a bin changes nothing or clears the selection; every other card keeps its entry; only the selected card can be added; any change records that card in the bin |
| ClassifySort.HandleKeepsGood | src/components/templates/ClassifySort.tsx:13-29 | clicks on the board's own cards and bins keep the mapping within them and the selection on an unplaced card |
| ClassifySort.HandleKeepsPlacements | src/components/templates/ClassifySort.tsx:24-29 | no click removes an entry or moves a placed card |
| ClassifySort.RunKeepsPlacements | src/components/templates/ClassifySort.tsx:13-29 | the same over any sequence of clicks |
| ClassifySort.SelectThenPlace | src/components/templates/ClassifySort.tsx:13-17 | selecting an unplaced card then a bin records exactly that card in that bin and clears the selection |
| ClassifySort.PlaceWithoutSelection | src/components/templates/ClassifySort.tsx:14 | clicking a bin with nothing selected changes nothing |
| ClassifySort.BinCardsUpdate | src/components/templates/ClassifySort.tsx:58 | writing a card's entry moves it into that bin's list and out of every other |
| ClassifySort.PlaceCounts | src/components/templates/ClassifySort.tsx:44 | placing raises the chosen bin's badge by one and leaves every other badge alone |
| ClassifySort.RunConcat | src/components/templates/ClassifySort.tsx:13-17 | running two batches of clicks is running one after the other |
| ClassifySort.PutInAfter | src/components/templates/ClassifySort.tsx:13-17 | after any clicks, selecting an unplaced card and clicking a bin records it there and clears the selection |
| ClassifySort.SortBoard.constructor | src/components/templates/ClassifySort.tsx:6-7 | the board starts with no placements and no selection |
| ClassifySort.SortBoard.SelectCard | src/components/templates/ClassifySort.tsx:28-29 | the new state is `Select(old state, card)`: a placed card's disabled button does nothing |
| ClassifySort.SortBoard.HandlePlace | src/components/templates/ClassifySort.tsx:13-17 | the new state is `Place(old state, bin)` |
| ClassifySort.SortBoard.Response | src/components/templates/ClassifySort.tsx:10 | the mapping reported is `Emitted` of the state |
| MockItems.BalanceSolutionRun | src/mock/items.ts:20-38 | SUBTRACT 5 then DIVIDE 3 takes `3x + 5 = 20` to `x = 5`, isolated |
| MockItems.BalanceSolutionScores | src/mock/items.ts:36-55 | that solution is correct with score 1, no tag and the on-correct feedback |
| MockItems.BalanceIdContainsBal | src/mock/items.ts:11 | the sample item's id contains "BAL" |
| MockItems.DivideFirstIsTagged | src/mock/items.ts:25-55 | pressing DIVIDE 3 first reports nothing, scores 0, is tagged DIVIDE_BEFORE_SUBTRACT and gets the attempt-1 feedback |
| MockItems.TransferSolutionScores | src/mock/items.ts:56-82 | ADD 7 then DIVIDE 4 solves the transfer item with x = 7 |
| MockItems.NumberLineScores | src/mock/items.ts:85-114 | the marker at 2 is correct; at 8 it is wrong, with the attempt-2 feedback on attempt 2 |
| MockItems.SixQuarters | src/mock/items.ts:139 | `6/4` normalises to 1.5 |
| MockItems.NineEighths | src/mock/items.ts:140 | `9/8` normalises to 1.125 |
| MockItems.ReciprocalMatches | src/mock/items.ts:139 | `6/4` matches the reciprocal blank |
| MockItems.ResultMatches | src/mock/items.ts:140 | `9/8` matches the result blank |
| MockItems.WorkedExampleEquivalentAnswers | src/mock/items.ts:115-158 | `6/4` and `9/8` are graded correct |
| MockItems.WorkedExampleEmptyResponse | src/mock/items.ts:137-142 | the empty blank record is graded correct, through the LaTeX accepted answers |
| MockItems.EmptyMatchesReciprocal | src/mock/items.ts:139 | a missing reciprocal blank matches `\frac{3}{2}` |
| MockItems.EmptyMatchesResult | src/mock/items.ts:140 | a missing result blank matches `\frac{9}{8}` |
| MockItems.SortAllRight | src/mock/items.ts:186-187 | every card in its bin is correct |
| MockItems.SortOneWrong | src/mock/items.ts:186-187 | card E in the scalene bin scores 0.8, not correct |
| MockItems.SortOnlyFirstRight | src/mock/items.ts:186-187 | card A alone in its bin scores 0.2 |
| MockItems.BoardBuildsRightSort | src/mock/items.ts:159-205 | selecting each card and clicking its bin builds exactly the key's mapping |
| MockItems.CorrectionValues | src/mock/items.ts:234 | the typed corrections `30` and `630` convert to 30 and 630 |
| MockItems.RightNumbersHold | src/mock/items.ts:232-235 | typing both corrections satisfies the corrections check, whatever line is chosen |
| MockItems.ErrorAnalysisFull | src/mock/items.ts:232-236 | line 3 and both corrections score 1 |
| MockItems.ErrorAnalysisLineOnly | src/mock/items.ts:236 | line 3 without corrections scores `line_only` 0.4 |
| MockItems.ErrorAnalysisNumbersOnly | src/mock/items.ts:236 | the corrections with line 2 score `numbers_only` 0.6 |
| MockItems.SolvedBalanceLeadsToTransfer | src/components/QuizRunner.tsx:83-114 | reporting the sample solution, checking it and pressing Next shows the transfer item with attempt 1 and nothing pending |

## Left out

- Rendering is not modelled: React scheduling, the ordering of effects, KaTeX rendering, the timers and the `isReady` fade. Each handler is modelled as one atomic step on the state.
- The completion `alert` is not modelled, because it changes no state.
- Floating point is not modelled. Numbers are exact reals, so rounding and `-0` are not captured. Neither is overflow to Infinity: `Number("1e400")` or a 400-digit numerator is Infinity in JavaScript but a finite real here, so JsNumber.StringToNumber gives Infinity only for the `Infinity` literals. Neither is the two-decimal display rounding of the right side.
- For a number argument, `normalizeFraction` is modelled as `Number(String(x)) === x`; the number-to-string conversion is not written out.
- BalanceOps.LeftLabel: `String(number)` is a parameter `show`, because the number-to-text conversion is not modelled.
- BalanceOps.Equation.ApplyOp: requires an op button of the item, and item ops never divide by zero (`WellFormed`). A DIVIDE by 0 would give Infinity in the source.
- Scoring.RubricScoring: a rubric-lite item without `partial_credit` would throw a TypeError in the source. The model always carries both weights.
- Inherited object properties (`response["toString"]`, etc.) are not modelled. Responses have only the fields their template gives them.
- Item fields the engine never reads are not modelled: `interaction.config` beyond equations, operations, cards and bins; `worked_solution`; `valid_sequences`; `max_steps`; and the other `params`.
- The `tolerance` model is only the silent fall-through, because the source has no branch for it.
- JavaScript objects are keyed maps or ordered key lists in the model. Key order only matters for the key lists, which follow `Object.keys`.
- QuizRunner.Truthy: a string pending response is not representable, because no template emits one. The empty-string falsy case is therefore not modelled.
- FractionInput is modelled on its own. No template in the repository renders it; the worked-example template uses a plain text input.
- The number line, worked example and error audit templates are reduced to the response shapes they emit (`Position`, `Blanks`, `Audit`). Their display logic is not modelled, and the error audit's 1-based line number is taken as the response gives it.
- ProgressHeader, FeedbackPanel, TemplateRenderer and App are not part of this model. They only display or route.
