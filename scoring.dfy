/**
 * `scoreItem`: grades one response to one item under the item's scoring
 * model and returns the score, the correctness flag, diagnostic tags, the
 * feedback text to show and the response itself. It has no side effects.
 */
module Scoring {
  import opened Wrappers
  import opened JsNumber
  import opened JsValue
  import opened ItemTypes
  import opened Normalize
  import opened Counting

  const One: Number := Finite(1.0)

  /** The only diagnostic tag the engine emits. */
  const DivideBeforeSubtract: string := "DIVIDE_BEFORE_SUBTRACT"

  /** The outcome of the scoring switch, before feedback is attached. */
  datatype Grade = Grade(isCorrect: bool, score: Number, tags: seq<string>)

  /** What every branch that does not grade leaves behind: `false`, `0`, no tags. */
  const Ungraded: Grade := Grade(false, Finite(0.0), [])

  /** `isCorrect ? 1 : 0`. */
  function Binary(ok: bool): (s: Number)
    ensures NumEq(s, One) <==> ok
  {
    Finite(if ok then 1.0 else 0.0)
  }

  /** `count / total` in JavaScript arithmetic: an empty key gives `0 / 0`, NaN. */
  function Ratio(count: nat, total: nat): (s: Number)
    ensures total > 0 ==> s == Finite(count as real / total as real)
    ensures total == 0 && count == 0 ==> s == NaN
  {
    assert total > 0 ==> total as real > 0.0;
    Div(Finite(count as real), Finite(total as real))
  }

  /** `s.includes(sub)`. */
  predicate Contains(s: string, sub: string) {
    exists i | 0 <= i <= |s| - |sub| :: OccursAt(s, sub, i)
  }

  predicate OccursAt(s: string, sub: string, i: int) {
    0 <= i && i + |sub| <= |s| && s[i..i + |sub|] == sub
  }

  /** `blanks[key].some(ans => normalizeFraction(ans) === normalizeFraction(response[key]))`. */
  predicate BlankMatches(resp: Response, b: BlankKey)
    ensures BlankMatches(resp, b) <==> (NormalizeFraction(Get(resp, b.id)) != Num(NaN)
      && exists j | 0 <= j < |b.accepted| :: NormalizeFraction(Str(b.accepted[j])) == NormalizeFraction(Get(resp, b.id)))
  {
    var given := NormalizeFraction(Get(resp, b.id));
    exists j | 0 <= j < |b.accepted| :: StrictEq(NormalizeFraction(Str(b.accepted[j])), given)
  }

  /** `mapping[k] === respMapping[k]`. */
  predicate BinMatches(resp: Response, k: BinKey)
    ensures BinMatches(resp, k) <==> Get(resp, k.itemId) == Str(k.binId)
  {
    StrictEq(Str(k.binId), Get(resp, k.itemId))
  }

  /** `Number(response[k]) === corrections[k]` for every correction key. */
  predicate CorrectionsHold(resp: Response, corrections: seq<Correction>)
    ensures CorrectionsHold(resp, corrections) <==>
      forall i | 0 <= i < |corrections| :: ToNumber(Get(resp, corrections[i].field)) == Finite(corrections[i].expected)
  {
    forall i | 0 <= i < |corrections| :: NumEq(ToNumber(Get(resp, corrections[i].field)), Finite(corrections[i].expected))
  }

  /** `response.history?.[0]?.op_id`: only a balance report with a non-empty history has one. */
  function FirstOpId(resp: Response): (v: Value)
    ensures v != Undefined ==> resp.BalanceReport? && |resp.history| > 0
  {
    if resp.BalanceReport? && |resp.history| > 0 then Str(resp.history[0].opId) else Undefined
  }

  function EquivalenceScore(resp: Response, blanks: seq<BlankKey>): Number {
    Ratio(CountWhere(blanks, b => BlankMatches(resp, b)), |blanks|)
  }

  function SetMembershipScore(resp: Response, mapping: seq<BinKey>): Number {
    Ratio(CountWhere(mapping, k => BinMatches(resp, k)), |mapping|)
  }

  /** The tags of the `process` branch. */
  function ProcessTags(item: Item, resp: Response): (tags: seq<string>)
    ensures tags == [] || tags == [DivideBeforeSubtract]
    ensures tags != [] <==> FirstOpId(resp) == Str("DIVIDE") && Contains(item.itemId, "BAL")
    ensures tags != [] ==> resp.BalanceReport? && |resp.history| > 0 && resp.history[0].opId == "DIVIDE"
  {
    if StrictEq(FirstOpId(resp), Str("DIVIDE")) && Contains(item.itemId, "BAL") then [DivideBeforeSubtract] else []
  }

  /** The score of the `rubric_lite` branch from its two checks. */
  function RubricScore(lineOk: bool, numbersOk: bool, lineOnly: real, numbersOnly: real): (s: real)
    ensures lineOk && numbersOk ==> s == 1.0
    ensures !lineOk && !numbersOk ==> s == 0.0
    ensures lineOnly < 1.0 && numbersOnly < 1.0 ==> (s == 1.0 <==> lineOk && numbersOk)
    ensures 0.0 <= lineOnly <= 1.0 && 0.0 <= numbersOnly <= 1.0 ==> 0.0 <= s <= 1.0
  {
    if lineOk && numbersOk then 1.0
    else if lineOk then lineOnly
    else if numbersOk then numbersOnly
    else 0.0
  }

  /** The `switch (model)` of `scoreItem`. */
  function Evaluate(item: Item, resp: Response): (g: Grade)
    ensures g.isCorrect <==> g.score == One
    ensures g.tags == [] || g.tags == [DivideBeforeSubtract]
  {
    match item.scoring
    case Exact(v) =>
      var ok := StrictEq(AsValue(resp), v);
      Grade(ok, Binary(ok), [])
    case Equivalence(blanks) =>
      var s := EquivalenceScore(resp, blanks);
      Grade(NumEq(s, One), s, [])
    case SetMembership(mapping) =>
      var s := SetMembershipScore(resp, mapping);
      Grade(NumEq(s, One), s, [])
    case Process(x) =>
      if item.template == BalanceOpsTemplate then
        var ok := StrictEq(Get(resp, "currentX"), Num(Finite(x)));
        Grade(ok, Binary(ok), ProcessTags(item, resp))
      else Ungraded
    case RubricLite(line, corrections, lineOnly, numbersOnly) =>
      if item.template == ErrorAnalysisTemplate then
        var lineOk := StrictEq(Get(resp, "wrong_line"), Num(Finite(line)));
        var s := RubricScore(lineOk, CorrectionsHold(resp, corrections), lineOnly, numbersOnly);
        Grade(s == 1.0, Finite(s), [])
      else Ungraded
    case Tolerance => Ungraded
  }

  /** `on_correct` when correct, `on_incorrect_attempt_1` on attempt 1, else `on_incorrect_attempt_2`. */
  function FeedbackText(fm: FeedbackMap, isCorrect: bool, attempt: int): (text: string)
    ensures text == fm.onCorrect || text == fm.onIncorrectAttempt1 || text == fm.onIncorrectAttempt2
    ensures isCorrect ==> text == fm.onCorrect
    ensures !isCorrect && attempt == 1 ==> text == fm.onIncorrectAttempt1
    ensures !isCorrect && attempt != 1 ==> text == fm.onIncorrectAttempt2
  {
    if isCorrect then fm.onCorrect
    else if attempt == 1 then fm.onIncorrectAttempt1
    else fm.onIncorrectAttempt2
  }

  /** `scoreItem(item, response, attempt)`. */
  function ScoreItem(item: Item, resp: Response, attempt: int): (r: CommitResult)
    ensures r.isCorrect <==> r.score == One
    ensures r.response == resp
    ensures r.isCorrect ==> r.feedbackText == item.feedback.onCorrect
    ensures !r.isCorrect && attempt == 1 ==> r.feedbackText == item.feedback.onIncorrectAttempt1
    ensures !r.isCorrect && attempt != 1 ==> r.feedbackText == item.feedback.onIncorrectAttempt2
    ensures r.diagnosticTags == [] || (r.diagnosticTags == [DivideBeforeSubtract] && item.scoring.Process? && item.template == BalanceOpsTemplate)
  {
    var g := Evaluate(item, resp);
    CommitResult(g.isCorrect, g.score, resp, g.tags, FeedbackText(item.feedback, g.isCorrect, attempt))
  }

  // ----- exact -----

  /** `exact`: correct exactly when the response is `===` the key value, with no normalisation; binary score. */
  lemma ExactScoring(item: Item, resp: Response, attempt: int)
    requires item.scoring.Exact?
    ensures var r := ScoreItem(item, resp, attempt);
      && (r.isCorrect <==> AsValue(resp) == item.scoring.value && !item.scoring.value.Obj? && item.scoring.value != Num(NaN))
      && r.score == (if r.isCorrect then One else Finite(0.0))
      && r.diagnosticTags == []
  {
  }

  // ----- equivalence -----

  /** The key blanks the response answers with a value equal to one of the accepted answers. */
  function MatchedBlanks(resp: Response, blanks: seq<BlankKey>): set<int> {
    IndicesWhere(blanks, b => BlankMatches(resp, b))
  }

  /**
   * `equivalence` with a non-empty key: the score is the fraction of key blanks
   * matched, it lies in [0, 1], and the item is correct exactly when every
   * blank matches.
   */
  lemma EquivalenceScoring(item: Item, resp: Response, attempt: int)
    requires item.scoring.Equivalence? && |item.scoring.blanks| > 0
    ensures var r := ScoreItem(item, resp, attempt); var blanks := item.scoring.blanks;
      && r.score == Finite(|MatchedBlanks(resp, blanks)| as real / |blanks| as real)
      && r.score.Finite? && 0.0 <= r.score.r <= 1.0
      && (r.isCorrect <==> forall i :: 0 <= i < |blanks| ==> BlankMatches(resp, blanks[i]))
      && r.diagnosticTags == []
  {
    var blanks := item.scoring.blanks;
    var p := b => BlankMatches(resp, b);
    CountIsCardinality(blanks, p);
    CountAll(blanks, p);
    var c := CountWhere(blanks, p);
    FractionAtMostOne(c, |blanks|);
  }

  lemma FractionAtMostOne(c: nat, n: nat)
    requires 0 < n && c <= n
    ensures 0.0 <= c as real / n as real <= 1.0
    ensures c as real / n as real == 1.0 <==> c == n
  {
    var q := c as real / n as real;
    assert q * n as real == c as real;
    if q == 1.0 {
      assert c as real == n as real;
    }
  }

  /** A response matching both blanks of a two-blank key is graded correct. */
  lemma BothBlanksMatch(item: Item, resp: Response, b1: BlankKey, b2: BlankKey)
    requires item.scoring == Equivalence([b1, b2])
    requires BlankMatches(resp, b1) && BlankMatches(resp, b2)
    ensures ScoreItem(item, resp, 1).isCorrect
  {
    var blanks := item.scoring.blanks;
    assert forall i :: 0 <= i < |blanks| ==> BlankMatches(resp, blanks[i]) by {
      assert blanks[0] == b1 && blanks[1] == b2;
    }
    EquivalenceScoring(item, resp, 1);
  }

  /** `equivalence` with an empty key divides 0 by 0: the score is NaN and the item is never correct. */
  lemma EquivalenceEmptyKey(item: Item, resp: Response, attempt: int)
    requires item.scoring == Equivalence([])
    ensures ScoreItem(item, resp, attempt).score == NaN && !ScoreItem(item, resp, attempt).isCorrect
  {
  }

  /** Response entries for ids that are not key blanks do not change the `equivalence` score. */
  lemma {:induction false} EquivalenceReadsOnlyKeyBlanks(item: Item, r1: Response, r2: Response, attempt: int)
    requires item.scoring.Equivalence?
    requires forall i :: 0 <= i < |item.scoring.blanks| ==> Get(r1, item.scoring.blanks[i].id) == Get(r2, item.scoring.blanks[i].id)
    ensures ScoreItem(item, r1, attempt).score == ScoreItem(item, r2, attempt).score
  {
    var blanks := item.scoring.blanks;
    CountCongruent(blanks, b => BlankMatches(r1, b), b => BlankMatches(r2, b));
  }

  /**
   * A missing blank normalises to `null`, and so does an accepted answer in
   * LaTeX: the missing blank then counts as matched.
   */
  lemma MissingBlankMatchesLatex(resp: Response, b: BlankKey, j: int, n: string, d: string)
    requires Get(resp, b.id) == Undefined
    requires 0 <= j < |b.accepted| && AllDigits(n) && AllDigits(d)
    requires b.accepted[j] == "\\frac{" + n + "}{" + d + "}"
    ensures BlankMatches(resp, b)
  {
    LatexFractionIsNull(n, d);
  }

  /** Typing one of a blank's accepted answers matches it, unless that answer normalises to NaN. */
  lemma AcceptedAnswerMatches(resp: Response, b: BlankKey, j: int)
    requires 0 <= j < |b.accepted| && Get(resp, b.id) == Str(b.accepted[j])
    requires NormalizeFraction(Str(b.accepted[j])) != Num(NaN)
    ensures BlankMatches(resp, b)
  {
    var v := NormalizeFraction(Str(b.accepted[j]));
    assert !v.Obj?;
    assert StrictEq(v, v);
    assert v == NormalizeFraction(Get(resp, b.id));
  }

  /** `0/0` normalises to NaN, which is not `===` to itself: typing the only accepted answer `0/0` does not match. */
  lemma ZeroOverZeroNeverMatches(resp: Response, b: BlankKey)
    requires b.accepted == ["0/0"] && Get(resp, b.id) == Str("0/0")
    ensures !BlankMatches(resp, b)
  {
    ZeroDenominators();
  }

  // ----- set_membership -----

  /** The key cards the response puts in their expected bin. */
  function MatchedCards(resp: Response, mapping: seq<BinKey>): set<int> {
    IndicesWhere(mapping, k => BinMatches(resp, k))
  }

  /**
   * `set_membership` with a non-empty key: the score is the fraction of key
   * cards placed in their bin, in [0, 1]; correct exactly when all are.
   * A card missing from the response reads `undefined` and never matches.
   */
  lemma SetMembershipScoring(item: Item, resp: Response, attempt: int)
    requires item.scoring.SetMembership? && |item.scoring.mapping| > 0
    ensures var r := ScoreItem(item, resp, attempt); var mapping := item.scoring.mapping;
      && r.score == Finite(|MatchedCards(resp, mapping)| as real / |mapping| as real)
      && r.score.Finite? && 0.0 <= r.score.r <= 1.0
      && (r.isCorrect <==> forall i :: 0 <= i < |mapping| ==> Get(resp, mapping[i].itemId) == Str(mapping[i].binId))
      && r.diagnosticTags == []
  {
    var mapping := item.scoring.mapping;
    var p := k => BinMatches(resp, k);
    CountIsCardinality(mapping, p);
    CountAll(mapping, p);
    FractionAtMostOne(CountWhere(mapping, p), |mapping|);
  }

  /** Response entries for cards that are not in the key do not change the `set_membership` score. */
  lemma {:induction false} SetMembershipReadsOnlyKeyCards(item: Item, r1: Response, r2: Response, attempt: int)
    requires item.scoring.SetMembership?
    requires forall i :: 0 <= i < |item.scoring.mapping| ==> Get(r1, item.scoring.mapping[i].itemId) == Get(r2, item.scoring.mapping[i].itemId)
    ensures ScoreItem(item, r1, attempt).score == ScoreItem(item, r2, attempt).score
  {
    var mapping := item.scoring.mapping;
    CountCongruent(mapping, k => BinMatches(r1, k), k => BinMatches(r2, k));
  }

  /** A placement that misses every key card scores 0. */
  lemma {:induction false} SetMembershipNothingPlaced(item: Item, attempt: int)
    requires item.scoring.SetMembership? && |item.scoring.mapping| > 0
    ensures ScoreItem(item, Placement(map[]), attempt).score == Finite(0.0)
  {
    var mapping := item.scoring.mapping;
    CountNone(mapping, k => BinMatches(Placement(map[]), k));
  }

  // ----- process -----

  /**
   * `process` on a BALANCE_OPS item: binary, correct exactly when the reported
   * `currentX` is the key's `x_value` (so a `null` `currentX` scores 0), and
   * tagged DIVIDE_BEFORE_SUBTRACT exactly when the first recorded operation is
   * DIVIDE and the item id contains "BAL".
   */
  lemma ProcessScoring(item: Item, resp: Response, attempt: int)
    requires item.scoring.Process? && item.template == BalanceOpsTemplate
    ensures var r := ScoreItem(item, resp, attempt);
      && (r.isCorrect <==> Get(resp, "currentX") == Num(Finite(item.scoring.xValue)))
      && r.score == (if r.isCorrect then One else Finite(0.0))
      && (r.diagnosticTags == [DivideBeforeSubtract] <==>
            resp.BalanceReport? && |resp.history| > 0 && resp.history[0].opId == "DIVIDE" && Contains(item.itemId, "BAL"))
  {
  }

  /** The tag never affects the `process` score: two reports with the same `currentX` score the same. */
  lemma ProcessScoreIgnoresHistory(item: Item, h1: seq<Op>, h2: seq<Op>, x: Option<real>, iso1: bool, iso2: bool, c1: real, c2: real, a1: real, a2: real, attempt: int)
    requires item.scoring.Process?
    ensures ScoreItem(item, BalanceReport(h1, x, iso1, c1, a1), attempt).score
         == ScoreItem(item, BalanceReport(h2, x, iso2, c2, a2), attempt).score
  {
  }

  // ----- rubric_lite -----

  /**
   * `rubric_lite` on an ERROR_ANALYSIS item: 1 when the line and every
   * correction are right, `line_only` when only the line is, `numbers_only`
   * when only the corrections are, else 0; correct exactly when that score is 1.
   */
  lemma RubricScoring(item: Item, resp: Response, attempt: int)
    requires item.scoring.RubricLite? && item.template == ErrorAnalysisTemplate
    ensures var r := ScoreItem(item, resp, attempt); var k := item.scoring;
      var lineOk := Get(resp, "wrong_line") == Num(Finite(k.firstWrongLine));
      var numbersOk := forall i :: 0 <= i < |k.corrections| ==>
        ToNumber(Get(resp, k.corrections[i].field)) == Finite(k.corrections[i].expected);
      && (lineOk && numbersOk ==> r.score == One)
      && (lineOk && !numbersOk ==> r.score == Finite(k.lineOnly))
      && (!lineOk && numbersOk ==> r.score == Finite(k.numbersOnly))
      && (!lineOk && !numbersOk ==> r.score == Finite(0.0))
      && r.diagnosticTags == []
  {
  }

  // ----- the silent default -----

  /**
   * `tolerance`, and `process` or `rubric_lite` on an item of another
   * template, fall through the switch: score 0, not correct, no tags.
   */
  lemma UngradedFallThrough(item: Item, resp: Response, attempt: int)
    requires || item.scoring.Tolerance?
             || (item.scoring.Process? && item.template != BalanceOpsTemplate)
             || (item.scoring.RubricLite? && item.template != ErrorAnalysisTemplate)
    ensures var r := ScoreItem(item, resp, attempt);
      && r.score == Finite(0.0) && !r.isCorrect && r.diagnosticTags == []
      && r.feedbackText == (if attempt == 1 then item.feedback.onIncorrectAttempt1 else item.feedback.onIncorrectAttempt2)
  {
  }
}
