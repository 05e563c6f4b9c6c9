/**
 * The five sample items the quiz ships with, one per template, and what the
 * scoring engine makes of typical responses to them.
 */
module MockItems {
  import opened Wrappers
  import opened JsNumber
  import opened JsValue
  import opened ItemTypes
  import opened Normalize
  import opened Counting
  import opened Scoring
  import BalanceOps
  import ClassifySort
  import QuizRunner

  // ----- BALANCE_OPS: 3x + 5 = 20, and its transfer item 4x - 7 = 21 -----

  const Add5 := Op("ADD", "+5", 5.0)
  const Subtract5 := Op("SUBTRACT", "-5", 5.0)
  const Multiply3 := Op("MULTIPLY", "\U{D7}3", 3.0)
  const Divide3 := Op("DIVIDE", "\U{F7}3", 3.0)

  const BalanceConfig := BalanceOps.EquationConfig(3.0, 5.0, 20.0, "x", [Add5, Subtract5, Multiply3, Divide3])

  const Add7 := Op("ADD", "+7", 7.0)
  const Subtract7 := Op("SUBTRACT", "-7", 7.0)
  const Divide4 := Op("DIVIDE", "\U{F7}4", 4.0)

  const TransferConfig := BalanceOps.EquationConfig(4.0, -7.0, 21.0, "x", [Add7, Subtract7, Divide4])

  const TransferItem := Item(
    "MQ.CBSE7.CH04.EQ.04.BAL.0001_T", BalanceOpsTemplate, Process(7.0),
    FeedbackMap("Perfect transfer!", "Apply the same logic as before.", "Add 7 then divide by 4."),
    None)

  const BalanceItem := Item(
    "MQ.CBSE7.CH04.EQ.04.BAL.0001", BalanceOpsTemplate, Process(5.0),
    FeedbackMap(
      "Nice. You undid +5 first, then undid \U{D7}3. That reverse order is the key strategy.",
      "Try undoing the +5 first (reverse order). Make the equation simpler before dividing.",
      "Step scaffold: (1) subtract 5 from both sides, (2) divide both sides by 3, (3) check."),
    Some(TransferItem))

  /** SUBTRACT 5 then DIVIDE 3 takes `3x + 5 = 20` to `x = 15/3 = 5`, isolated. */
  lemma BalanceSolutionRun()
    ensures BalanceOps.WellFormed(BalanceConfig)
    ensures BalanceOps.Run(BalanceOps.Initial(BalanceConfig), [Subtract5, Divide3])
         == BalanceOps.EqState(1.0, 0.0, 5.0, [Subtract5, Divide3], true, true)
  {
    var s0 := BalanceOps.Initial(BalanceConfig);
    var s1 := BalanceOps.Step(s0, Subtract5);
    assert s1 == BalanceOps.EqState(3.0, 0.0, 15.0, [Subtract5], false, false);
    var s2 := BalanceOps.Step(s1, Divide3);
    assert BalanceOps.Isolates(s1, Divide3);
    assert s2 == BalanceOps.EqState(1.0, 0.0, 5.0, [Subtract5, Divide3], true, true);
    assert [Subtract5, Divide3][1..] == [Divide3];
    assert BalanceOps.Run(s1, [Divide3]) == BalanceOps.Run(s2, []);
  }

  /** The reverse-order solution is accepted: correct, full score, no tag, the on-correct feedback. */
  lemma BalanceSolutionScores()
    ensures var r := BalanceOps.Report(BalanceOps.Run(BalanceOps.Initial(BalanceConfig), [Subtract5, Divide3]));
      var result := ScoreItem(BalanceItem, r, 1);
      && r.currentX == Some(5.0)
      && result.isCorrect && result.score == One && result.diagnosticTags == []
      && result.feedbackText == BalanceItem.feedback.onCorrect
  {
    BalanceSolutionRun();
    var r := BalanceOps.Report(BalanceOps.EqState(1.0, 0.0, 5.0, [Subtract5, Divide3], true, true));
    ProcessScoring(BalanceItem, r, 1);
  }

  /** The sample item's id contains "BAL". */
  lemma BalanceIdContainsBal()
    ensures Contains(BalanceItem.itemId, "BAL")
  {
    assert OccursAt(BalanceItem.itemId, "BAL", 20);
  }

  /**
   * Dividing first does not isolate x, so nothing is reported and the item
   * is wrong, and the attempt is tagged DIVIDE_BEFORE_SUBTRACT.
   */
  lemma DivideFirstIsTagged()
    ensures var r := BalanceOps.Report(BalanceOps.Step(BalanceOps.Initial(BalanceConfig), Divide3));
      var result := ScoreItem(BalanceItem, r, 1);
      && r.currentX == None
      && !result.isCorrect && result.score == Finite(0.0) && result.diagnosticTags == [DivideBeforeSubtract]
      && result.feedbackText == BalanceItem.feedback.onIncorrectAttempt1
  {
    var s0 := BalanceOps.Initial(BalanceConfig);
    assert !BalanceOps.Isolates(s0, Divide3);
    var r := BalanceOps.Report(BalanceOps.Step(s0, Divide3));
    assert r.history == [Divide3];
    BalanceIdContainsBal();
    ProcessScoring(BalanceItem, r, 1);
  }

  /** ADD 7 then DIVIDE 4 solves the transfer item `4x - 7 = 21` with x = 7. */
  lemma TransferSolutionScores()
    ensures BalanceOps.WellFormed(TransferConfig)
    ensures var r := BalanceOps.Report(BalanceOps.Run(BalanceOps.Initial(TransferConfig), [Add7, Divide4]));
      && r.currentX == Some(7.0) && ScoreItem(TransferItem, r, 1).isCorrect
  {
    var s0 := BalanceOps.Initial(TransferConfig);
    var s1 := BalanceOps.Step(s0, Add7);
    assert s1 == BalanceOps.EqState(4.0, 0.0, 28.0, [Add7], false, false);
    assert BalanceOps.Isolates(s1, Divide4);
    var s2 := BalanceOps.Step(s1, Divide4);
    assert s2 == BalanceOps.EqState(1.0, 0.0, 7.0, [Add7, Divide4], true, true);
    assert [Add7, Divide4][1..] == [Divide4];
    assert BalanceOps.Run(s1, [Divide4]) == BalanceOps.Run(s2, []);
    ProcessScoring(TransferItem, BalanceOps.Report(s2), 1);
  }

  // ----- NUMBER_LINE_PLACE: start at -3, move 5 right -----

  const NumberLineItem := Item(
    "MQ.CBSE7.CH01.INT.02.NL.0001", NumberLinePlaceTemplate, Exact(Num(Finite(2.0))),
    FeedbackMap(
      "Yes. You added 5 by hopping right 5 ticks from \U{2212}3.",
      "Try counting hops: from \U{2212}3 go to \U{2212}2 (1), \U{2212}1 (2), 0 (3), 1 (4), 2 (5).",
      "Rule reminder: moving right is +, moving left is \U{2212}. Then redo the 5 hops slowly."),
    None)

  /** The marker at 2 is right; the marker at 8 (moving 5 to the right of 3) is wrong. */
  lemma NumberLineScores()
    ensures ScoreItem(NumberLineItem, Position(2.0), 1).isCorrect
    ensures !ScoreItem(NumberLineItem, Position(8.0), 1).isCorrect
    ensures ScoreItem(NumberLineItem, Position(8.0), 2).feedbackText == NumberLineItem.feedback.onIncorrectAttempt2
  {
    ExactScoring(NumberLineItem, Position(2.0), 1);
    ExactScoring(NumberLineItem, Position(8.0), 1);
  }

  // ----- WORKED_EXAMPLE_COMPLETE: (3/4) / (2/3) -----

  const ReciprocalBlank := BlankKey("B1", ["3/2", "\\frac{3}{2}"])
  const ResultBlank := BlankKey("B2", ["9/8", "1 1/8", "1 1/8", "\\frac{9}{8}", "1\\frac{1}{8}"])

  const WorkedExampleItem := Item(
    "MQ.CBSE7.CH02.FRD.05.WEC.0001", WorkedExampleCompleteTemplate, Equivalence([ReciprocalBlank, ResultBlank]),
    FeedbackMap(
      "Perfect. You used the reciprocal correctly and simplified.",
      "Check which fraction should be flipped: flip the divisor 2/3, not 3/4.",
      "Scaffold: write (3/4) \U{D7} (3/2), then multiply tops and bottoms."),
    None)

  lemma QuarterValues()
    ensures AllDigits("6") && AllDigits("4") && FractionValue("6", "4") == Finite(1.5)
  {
    OneDigit('6');
    OneDigit('4');
  }

  lemma EighthValues()
    ensures AllDigits("9") && AllDigits("8") && FractionValue("9", "8") == Finite(1.125)
  {
    OneDigit('9');
    OneDigit('8');
  }

  /** `6/4` normalises to 1.5, like `3/2`. */
  lemma SixQuarters()
    ensures NormalizeFraction(Str("6/4")) == Num(Finite(1.5))
  {
    QuarterValues();
    assert "6/4" == "6" + "/" + "4";
    NormalizeSimpleFraction("6", "4");
  }

  /** `9/8` normalises to 1.125. */
  lemma NineEighths()
    ensures NormalizeFraction(Str("9/8")) == Num(Finite(1.125))
  {
    EighthValues();
    assert "9/8" == "9" + "/" + "8";
    NormalizeSimpleFraction("9", "8");
  }

  /** A reciprocal blank holding `6/4` matches the accepted `3/2`. */
  lemma ReciprocalMatches(resp: Response)
    requires Get(resp, "B1") == Str("6/4")
    ensures BlankMatches(resp, ReciprocalBlank)
  {
    SixQuarters();
    FractionExample();
    assert StrictEq(NormalizeFraction(Str(ReciprocalBlank.accepted[0])), NormalizeFraction(Get(resp, "B1")));
  }

  /** A result blank holding `9/8` matches the accepted `9/8`. */
  lemma ResultMatches(resp: Response)
    requires Get(resp, "B2") == Str("9/8")
    ensures BlankMatches(resp, ResultBlank)
  {
    NineEighths();
    assert StrictEq(NormalizeFraction(Str(ResultBlank.accepted[0])), NormalizeFraction(Get(resp, "B2")));
  }

  /** An equivalent but different fraction is accepted: `6/4` for the reciprocal, `9/8` for the result. */
  lemma WorkedExampleEquivalentAnswers()
    ensures ScoreItem(WorkedExampleItem, Blanks(map["B1" := "6/4", "B2" := "9/8"]), 1).isCorrect
  {
    var resp := Blanks(map["B1" := "6/4", "B2" := "9/8"]);
    ReciprocalMatches(resp);
    ResultMatches(resp);
    BothBlanksMatch(WorkedExampleItem, resp, ReciprocalBlank, ResultBlank);
  }

  /**
   * The blank record starts out empty, and both blanks have an accepted
   * LaTeX answer, which normalises to `null` like a missing blank does: the
   * empty response is graded correct.
   */
  lemma WorkedExampleEmptyResponse()
    ensures ScoreItem(WorkedExampleItem, Blanks(map[]), 1).isCorrect
  {
    EmptyMatchesReciprocal();
    EmptyMatchesResult();
    BothBlanksMatch(WorkedExampleItem, Blanks(map[]), ReciprocalBlank, ResultBlank);
  }

  lemma EmptyMatchesReciprocal()
    ensures BlankMatches(Blanks(map[]), ReciprocalBlank)
  {
    HalfValues();
    MissingBlankMatchesLatex(Blanks(map[]), ReciprocalBlank, 1, "3", "2");
  }

  lemma EmptyMatchesResult()
    ensures BlankMatches(Blanks(map[]), ResultBlank)
  {
    EighthValues();
    assert ResultBlank.accepted[3] == "\\frac{" + "9" + "}{" + "8" + "}";
    MissingBlankMatchesLatex(Blanks(map[]), ResultBlank, 3, "9", "8");
  }

  // ----- CLASSIFY_SORT: triangles by their sides -----

  const SortKey := [BinKey("A", "EQUI"), BinKey("B", "ISO"), BinKey("C", "SCA"), BinKey("D", "NOTRI"), BinKey("E", "ISO")]

  const SortItem := Item(
    "MQ.CBSE7.CH06.TRI.01.SORT.0001", ClassifySortTemplate, SetMembership(SortKey),
    FeedbackMap(
      "Nice sorting. Bonus: you used triangle inequality to catch the 'not a triangle' case.",
      "Recheck D: compare the largest side with the sum of the other two.",
      "Reminder: for a triangle, (smallest + middle) must be strictly greater than largest."),
    None)

  const RightSort := map["A" := "EQUI", "B" := "ISO", "C" := "SCA", "D" := "NOTRI", "E" := "ISO"]

  /** Every card in its bin scores 1. */
  lemma SortAllRight()
    ensures ScoreItem(SortItem, Placement(RightSort), 1).isCorrect
  {
    SetMembershipScoring(SortItem, Placement(RightSort), 1);
  }

  /** Calling the isosceles card E scalene gets four of five: 0.8, not correct. */
  lemma SortOneWrong()
    ensures var r := ScoreItem(SortItem, Placement(RightSort["E" := "SCA"]), 1);
      r.score == Finite(0.8) && !r.isCorrect
  {
    var resp := Placement(RightSort["E" := "SCA"]);
    var p := k => BinMatches(resp, k);
    assert SortKey[..4] == SortKey[..|SortKey| - 1];
    CountAll(SortKey[..4], p);
    assert CountWhere(SortKey, p) == 4;
  }

  /** Only card A in its bin, the others left out: one of five, 0.2. */
  lemma SortOnlyFirstRight()
    ensures ScoreItem(SortItem, Placement(map["A" := "EQUI"]), 1).score == Finite(0.2)
  {
    var resp := Placement(map["A" := "EQUI"]);
    var p := k => BinMatches(resp, k);
    CountIsCardinality(SortKey, p);
    assert IndicesWhere(SortKey, p) == {0} by {
      forall i | 1 <= i < |SortKey| ensures !p(SortKey[i]) {
        assert SortKey[i].itemId != "A";
      }
    }
  }

  /** The two clicks that put one card in one bin. */
  function PutIn(card: string, bin: string): seq<ClassifySort.Event> {
    [ClassifySort.SelectCard(card), ClassifySort.ClickBin(bin)]
  }

  /** Selecting each card and clicking its bin on the board builds exactly the right mapping. */
  lemma BoardBuildsRightSort()
    ensures ClassifySort.Emitted(ClassifySort.Run(ClassifySort.Initial,
      PutIn("A", "EQUI") + PutIn("B", "ISO") + PutIn("C", "SCA") + PutIn("D", "NOTRI") + PutIn("E", "ISO")))
      == Placement(RightSort)
  {
    var b0 := ClassifySort.Initial;
    var e1 := PutIn("A", "EQUI");
    var e2 := e1 + PutIn("B", "ISO");
    var e3 := e2 + PutIn("C", "SCA");
    var e4 := e3 + PutIn("D", "NOTRI");
    var e5 := e4 + PutIn("E", "ISO");
    ClassifySort.PutInAfter(b0, [], "A", "EQUI");
    assert [] + PutIn("A", "EQUI") == e1;
    ClassifySort.PutInAfter(b0, e1, "B", "ISO");
    ClassifySort.PutInAfter(b0, e2, "C", "SCA");
    ClassifySort.PutInAfter(b0, e3, "D", "NOTRI");
    ClassifySort.PutInAfter(b0, e4, "E", "ISO");
  }

  // ----- ERROR_ANALYSIS: GST on the discounted price -----

  const ErrorCorrections := [Correction("correct_gst", 30.0), Correction("final_price", 630.0)]

  const ErrorItem := Item(
    "MQ.CBSE7.CH08.PCT.03.ERR.0001", ErrorAnalysisTemplate,
    RubricLite(3.0, ErrorCorrections, 0.4, 0.6),
    FeedbackMap(
      "Exactly. GST must be on the discounted \U{20B9}600.",
      "Check line 3: GST should be calculated on the discounted price, not the original.",
      "Scaffold: Find discounted price first. Then compute GST on that new base."),
    None)

  const RightNumbers := map["correct_gst" := "30", "final_price" := "630"]

  lemma ThirtyDigits()
    ensures AllDigits("30") && DigitsValue("30") == 30
  {
    OneDigit('3');
    assert IsDigit('0');
    assert "30"[..1] == "3";
    assert ValueIn("30", 10) == 10 * ValueIn("3", 10) + HexDigitValue('0');
  }

  lemma SixThirtyDigits()
    ensures AllDigits("630") && DigitsValue("630") == 630
  {
    OneDigit('6');
    assert IsDigit('3') && IsDigit('0');
    assert "63"[..1] == "6";
    assert ValueIn("63", 10) == 10 * ValueIn("6", 10) + HexDigitValue('3');
    assert "630"[..2] == "63";
    assert ValueIn("630", 10) == 10 * ValueIn("63", 10) + HexDigitValue('0');
  }

  /** The typed corrections read as the numbers 30 and 630. */
  lemma CorrectionValues()
    ensures StringToNumber("30") == Finite(30.0) && StringToNumber("630") == Finite(630.0)
  {
    ThirtyDigits();
    SixThirtyDigits();
    DigitsToNumber("30");
    DigitsToNumber("630");
  }

  /** Typing both corrections satisfies the key's corrections, whatever line is picked. */
  lemma RightNumbersHold(line: Option<int>)
    ensures forall i :: 0 <= i < |ErrorCorrections| ==>
      ToNumber(Get(Audit(line, RightNumbers), ErrorCorrections[i].field)) == Finite(ErrorCorrections[i].expected)
  {
    var resp := Audit(line, RightNumbers);
    CorrectionValues();
    TypedCorrections(line);
    TwoCorrectionsHold(resp, ErrorCorrections[0], ErrorCorrections[1]);
    assert ErrorCorrections == [ErrorCorrections[0], ErrorCorrections[1]];
  }

  /** Two corrections that each read right make a list of two that holds. */
  lemma TwoCorrectionsHold(resp: Response, c0: Correction, c1: Correction)
    requires ToNumber(Get(resp, c0.field)) == Finite(c0.expected)
    requires ToNumber(Get(resp, c1.field)) == Finite(c1.expected)
    ensures forall i :: 0 <= i < |[c0, c1]| ==> ToNumber(Get(resp, [c0, c1][i].field)) == Finite([c0, c1][i].expected)
  {
  }

  lemma TypedCorrections(line: Option<int>)
    ensures Get(Audit(line, RightNumbers), "correct_gst") == Str("30")
    ensures Get(Audit(line, RightNumbers), "final_price") == Str("630")
  {
    assert "correct_gst" in RightNumbers && RightNumbers["correct_gst"] == "30";
    assert "final_price" in RightNumbers && RightNumbers["final_price"] == "630";
  }

  /** Line 3 and both corrections: full marks. */
  lemma ErrorAnalysisFull()
    ensures ScoreItem(ErrorItem, Audit(Some(3), RightNumbers), 1).score == One
  {
    var resp := Audit(Some(3), RightNumbers);
    RightNumbersHold(Some(3));
    assert Get(resp, "wrong_line") == Num(Finite(3.0));
    RubricScoring(ErrorItem, resp, 1);
  }

  /** Line 3 without the corrections: the `line_only` credit 0.4. */
  lemma ErrorAnalysisLineOnly()
    ensures ScoreItem(ErrorItem, Audit(Some(3), map[]), 1).score == Finite(0.4)
  {
    var resp := Audit(Some(3), map[]);
    assert Get(resp, "wrong_line") == Num(Finite(3.0));
    assert ToNumber(Get(resp, ErrorItem.scoring.corrections[0].field)) == NaN;
    RubricScoring(ErrorItem, resp, 1);
  }

  /** The corrections with line 2 picked: the `numbers_only` credit 0.6. */
  lemma ErrorAnalysisNumbersOnly()
    ensures ScoreItem(ErrorItem, Audit(Some(2), RightNumbers), 1).score == Finite(0.6)
  {
    var resp := Audit(Some(2), RightNumbers);
    RightNumbersHold(Some(2));
    assert Get(resp, "wrong_line") == Num(Finite(2.0));
    RubricScoring(ErrorItem, resp, 1);
  }

  /** The whole quiz, in order. */
  const Quiz := [BalanceItem, NumberLineItem, WorkedExampleItem, SortItem, ErrorItem]

  /**
   * Reporting the reverse-order solution, checking it and pressing Next
   * leaves the first item for its transfer item, with fresh flow state.
   */
  lemma SolvedBalanceLeadsToTransfer()
    ensures QuizRunner.FlowValid(Quiz, QuizRunner.Start())
    ensures var r := BalanceOps.Report(BalanceOps.Run(BalanceOps.Initial(BalanceConfig), [Subtract5, Divide3]));
      var f := QuizRunner.Run(Quiz, QuizRunner.Start(), [QuizRunner.Respond(Some(r)), QuizRunner.CommitPressed, QuizRunner.NextPressed]);
      && QuizRunner.FlowValid(Quiz, f)
      && f == QuizRunner.Flow(0, 1, QuizRunner.Transfer, None, None, false)
      && QuizRunner.CurrentItem(Quiz, f) == TransferItem
  {
    var r := BalanceOps.Report(BalanceOps.Run(BalanceOps.Initial(BalanceConfig), [Subtract5, Divide3]));
    BalanceSolutionScores();
    var events := [QuizRunner.Respond(Some(r)), QuizRunner.CommitPressed, QuizRunner.NextPressed];
    var f0 := QuizRunner.Start();
    var f1 := f0.(localResponse := Some(r));
    assert QuizRunner.Truthy(f1.localResponse);
    var f2 := QuizRunner.Commit(Quiz, f1);
    assert QuizRunner.LastCorrect(f2);
    var f3 := QuizRunner.Next(Quiz, f2);
    assert f3 == QuizRunner.Flow(0, 1, QuizRunner.Transfer, None, None, false);
    assert events[1..] == [QuizRunner.CommitPressed, QuizRunner.NextPressed];
    assert events[1..][1..] == [QuizRunner.NextPressed];
    assert QuizRunner.Run(Quiz, f2, [QuizRunner.NextPressed]) == f3;
  }
}
