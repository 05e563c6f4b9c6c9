/**
 * Question items, the responses the five interaction templates emit and the
 * graded result, as tagged unions: one answer-key variant per scoring model
 * and one response variant per template.
 */
module ItemTypes {
  import opened Wrappers
  import opened JsNumber
  import opened JsValue

  /** `template_id`: the interaction that renders the item and produces its response. */
  datatype Template =
    | BalanceOpsTemplate
    | NumberLinePlaceTemplate
    | WorkedExampleCompleteTemplate
    | ClassifySortTemplate
    | ErrorAnalysisTemplate

  /** A balance operation offered by a BALANCE_OPS item and recorded in its history (`caption` is its `label`). */
  datatype Op = Op(opId: string, caption: string, value: real)

  /** One blank of an `equivalence` key with its accepted literal answers. */
  datatype BlankKey = BlankKey(id: string, accepted: seq<string>)

  /** One card of a `set_membership` key with the bin it belongs in. */
  datatype BinKey = BinKey(itemId: string, binId: string)

  /** One correction field of a `rubric_lite` key with its expected value. */
  datatype Correction = Correction(field: string, expected: real)

  /**
   * `scoring.model` together with the answer key and parameters it reads.
   * Key entries are listed in the order `Object.keys` gives them.
   */
  datatype Scoring =
    | Exact(value: Value)
    | Tolerance
    | Equivalence(blanks: seq<BlankKey>)
    | SetMembership(mapping: seq<BinKey>)
    | Process(xValue: real)
    | RubricLite(firstWrongLine: real, corrections: seq<Correction>, lineOnly: real, numbersOnly: real)

  datatype FeedbackMap = FeedbackMap(onCorrect: string, onIncorrectAttempt1: string, onIncorrectAttempt2: string)

  datatype Item = Item(
    itemId: string,
    template: Template,
    scoring: Scoring,
    feedback: FeedbackMap,
    transfer: Option<Item>)

  /** The response each template hands to the quiz runner. */
  datatype Response =
      /** NUMBER_LINE_PLACE: the marker position, a bare number. */
    | Position(x: real)
      /** WORKED_EXAMPLE_COMPLETE: blank id to typed text. */
    | Blanks(entries: map<string, string>)
      /** CLASSIFY_SORT: card id to bin id. */
    | Placement(mapping: map<string, string>)
      /** BALANCE_OPS: `{history, currentX, isolated, leftConstant, leftCoefficient}`. */
    | BalanceReport(history: seq<Op>, currentX: Option<real>, isolated: bool, leftConstant: real, leftCoefficient: real)
      /** ERROR_ANALYSIS: `{wrong_line, ...corrections}`, the 1-based line and the typed corrections. */
    | Audit(wrongLine: Option<int>, corrections: map<string, string>)

  /** `String(history)` for an array of operation objects. */
  function HistoryText(h: seq<Op>): string {
    if |h| == 0 then ""
    else if |h| == 1 then "[object Object]"
    else "[object Object]," + HistoryText(h[1..])
  }

  /** `response[key]`: what reading a property of the response gives, for every template's shape. */
  function Get(resp: Response, key: string): (v: Value)
    ensures resp.Position? ==> v == Undefined
    ensures (resp.Blanks? || resp.Placement?) ==> v.Str? || v == Undefined
    ensures resp.Blanks? ==> (v.Str? <==> key in resp.entries)
    ensures resp.Placement? ==> (v.Str? <==> key in resp.mapping)
    ensures resp.Audit? && key in resp.corrections ==> v == Str(resp.corrections[key])
    ensures resp.BalanceReport? ==> !v.Str?
    ensures resp.BalanceReport? && key == "currentX" ==> (v.Num? <==> resp.currentX.Some?)
  {
    match resp
    case Position(_) => Undefined
    case Blanks(m) => if key in m then Str(m[key]) else Undefined
    case Placement(m) => if key in m then Str(m[key]) else Undefined
    case BalanceReport(h, x, iso, c, a) =>
      if key == "history" then Obj(HistoryText(h))
      else if key == "currentX" then (if x.Some? then Num(Finite(x.value)) else Null)
      else if key == "isolated" then Bool(iso)
      else if key == "leftConstant" then Num(Finite(c))
      else if key == "leftCoefficient" then Num(Finite(a))
      else Undefined
    case Audit(line, corr) =>
      // the spread of the corrections comes after `wrong_line` and wins over it
      if key in corr then Str(corr[key])
      else if key == "wrong_line" then (if line.Some? then Num(Finite(line.value as real)) else Null)
      else Undefined
  }

  /** The response itself as a value: a number for the number line, an object otherwise. */
  function AsValue(resp: Response): Value {
    match resp
    case Position(x) => Num(Finite(x))
    case _ => Obj("[object Object]")
  }

  /** `CommitResult`. */
  datatype CommitResult = CommitResult(
    isCorrect: bool,
    score: Number,
    response: Response,
    diagnosticTags: seq<string>,
    feedbackText: string)
}
