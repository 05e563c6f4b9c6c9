/**
 * The balance-equation stepper of the BALANCE_OPS template: the left side
 * `leftCoefficient * x + leftConstant` and the right side `currentRight`,
 * changed one operation at a time by the buttons the item offers, and the
 * response it reports to the quiz runner.
 */
module BalanceOps {
  import opened Wrappers
  import opened ItemTypes

  /** `config.equation` (`a x + b = value`, with the variable name) and `config.operations`. */
  datatype EquationConfig = EquationConfig(a: real, b: real, right: real, variable: string, operations: seq<Op>)

  /** An authored operation list: every DIVIDE button divides by a non-zero value. */
  predicate WellFormed(cfg: EquationConfig) {
    forall i :: 0 <= i < |cfg.operations| ==> (cfg.operations[i].opId == "DIVIDE" ==> cfg.operations[i].value != 0.0)
  }

  /** The six state fields of the component. */
  datatype EqState = EqState(
    leftCoefficient: real,
    leftConstant: real,
    currentRight: real,
    history: seq<Op>,
    isolated: bool,
    isDivided: bool)

  /** The state on mount, on item change and after Reset Equation. */
  function Initial(cfg: EquationConfig): (s: EqState)
    ensures s.history == [] && !s.isolated && !s.isDivided
    ensures s.leftCoefficient == cfg.a && s.leftConstant == cfg.b && s.currentRight == cfg.right
  {
    EqState(cfg.a, cfg.b, cfg.right, [], false, false)
  }

  /** The float tolerance of the zero and equality checks. */
  const Tolerance: real := 0.0001

  function Abs(x: real): real {
    if x < 0.0 then -x else x
  }

  /** An operation the step can apply: a DIVIDE must not divide by zero. */
  predicate Applicable(op: Op) {
    op.opId == "DIVIDE" ==> op.value != 0.0
  }

  /** The DIVIDE isolation check: the constant is (about) zero and the divisor is (about) the coefficient. */
  predicate Isolates(s: EqState, op: Op) {
    Abs(s.leftConstant) < Tolerance && Abs(op.value - s.leftCoefficient) < Tolerance
  }

  /** `applyOp(op)`: record the operation, then apply it by its `op_id`. */
  function Step(s: EqState, op: Op): (t: EqState)
    requires Applicable(op)
    ensures t.history == s.history + [op]
    ensures s.isolated ==> t.isolated
    ensures op.opId !in {"ADD", "SUBTRACT", "MULTIPLY", "DIVIDE"} ==> t == s.(history := s.history + [op])
  {
    var recorded := s.(history := s.history + [op]);
    if op.opId == "SUBTRACT" then
      recorded.(leftConstant := s.leftConstant - op.value, currentRight := s.currentRight - op.value)
    else if op.opId == "ADD" then
      recorded.(leftConstant := s.leftConstant + op.value, currentRight := s.currentRight + op.value)
    else if op.opId == "DIVIDE" then
      var left := if Isolates(s, op) then recorded.(leftCoefficient := 1.0, isDivided := true, isolated := true) else recorded;
      left.(currentRight := s.currentRight / op.value)
    else if op.opId == "MULTIPLY" then
      recorded.(leftCoefficient := s.leftCoefficient * op.value,
                leftConstant := s.leftConstant * op.value,
                currentRight := s.currentRight * op.value)
    else recorded
  }

  /** A sequence of button presses. */
  function Run(s: EqState, ops: seq<Op>): (t: EqState)
    requires forall i :: 0 <= i < |ops| ==> Applicable(ops[i])
    ensures |t.history| == |s.history| + |ops| && s.history <= t.history
    decreases |ops|
  {
    if ops == [] then s else Run(Step(s, ops[0]), ops[1..])
  }

  /** The object handed to `onChangeLocal`: `currentX` is the right side once isolated, else `null`. */
  function Report(s: EqState): (r: Response)
    ensures r.BalanceReport? && r.history == s.history && r.isolated == s.isolated
    ensures r.currentX == (if s.isolated then Some(s.currentRight) else None)
    ensures r.leftConstant == s.leftConstant && r.leftCoefficient == s.leftCoefficient
  {
    BalanceReport(s.history, if s.isolated then Some(s.currentRight) else None, s.isolated, s.leftConstant, s.leftCoefficient)
  }

  /**
   * `formatLeftLabel()`. `show` stands for JavaScript's `String(number)`.
   * Once divided the label is the variable alone; a coefficient of 1 is not
   * written; a near-zero constant is left out; otherwise the sign is written
   * apart from the absolute value of the constant, so "- 7" and never "+ -7".
   */
  function LeftLabel(s: EqState, variable: string, show: real -> string): (text: string)
    ensures s.isDivided ==> text == variable
    ensures !s.isDivided && Abs(s.leftConstant) < Tolerance ==> text == VarPart(s, variable, show)
    ensures !s.isDivided && s.leftConstant <= -Tolerance ==>
      text == VarPart(s, variable, show) + " - " + show(-s.leftConstant) && -s.leftConstant > 0.0
    ensures !s.isDivided && s.leftConstant >= Tolerance ==>
      text == VarPart(s, variable, show) + " + " + show(s.leftConstant)
  {
    if s.isDivided then variable
    else
      var varPart := VarPart(s, variable, show);
      if Abs(s.leftConstant) < Tolerance then varPart
      else varPart + " " + (if s.leftConstant > 0.0 then "+" else "-") + " " + show(Abs(s.leftConstant))
  }

  /** The variable with its coefficient, which is not written when it is 1. */
  function VarPart(s: EqState, variable: string, show: real -> string): (text: string)
    ensures s.leftCoefficient == 1.0 ==> text == variable
    ensures s.leftCoefficient != 1.0 ==> text == show(s.leftCoefficient) + variable
  {
    if s.leftCoefficient == 1.0 then variable else show(s.leftCoefficient) + variable
  }

  // ----- properties of the step -----

  /** Every operation, known or not, is appended to the history, and only it. */
  lemma {:induction false} RunHistory(s: EqState, ops: seq<Op>)
    requires forall i :: 0 <= i < |ops| ==> Applicable(ops[i])
    ensures Run(s, ops).history == s.history + ops
    decreases |ops|
  {
    if ops != [] {
      RunHistory(Step(s, ops[0]), ops[1..]);
      assert s.history + [ops[0]] + ops[1..] == s.history + ops;
    }
  }

  /** `isolated` is never cleared by an operation: only reset and item change clear it. */
  lemma {:induction false} RunKeepsIsolated(s: EqState, ops: seq<Op>)
    requires forall i :: 0 <= i < |ops| ==> Applicable(ops[i])
    requires s.isolated
    ensures Run(s, ops).isolated
    decreases |ops|
  {
    if ops != [] {
      RunKeepsIsolated(Step(s, ops[0]), ops[1..]);
    }
  }

  /** `isolated` and `isDivided` are set together and cleared together. */
  predicate Consistent(s: EqState) {
    s.isolated == s.isDivided
  }

  lemma {:induction false} RunKeepsConsistent(s: EqState, ops: seq<Op>)
    requires forall i :: 0 <= i < |ops| ==> Applicable(ops[i])
    requires Consistent(s)
    ensures Consistent(Run(s, ops))
    decreases |ops|
  {
    if ops != [] {
      RunKeepsConsistent(Step(s, ops[0]), ops[1..]);
    }
  }

  /**
   * ADD and SUBTRACT move the constant and the right side by the op's value,
   * so `currentRight - leftConstant` stays; the coefficient and both flags stay.
   */
  lemma ShiftKeepsDifference(s: EqState, op: Op)
    requires op.opId == "ADD" || op.opId == "SUBTRACT"
    ensures var t := Step(s, op); var delta := if op.opId == "ADD" then op.value else -op.value;
      && t.leftConstant == s.leftConstant + delta
      && t.currentRight == s.currentRight + delta
      && t.history == s.history + [op]
    ensures Step(s, op).currentRight - Step(s, op).leftConstant == s.currentRight - s.leftConstant
    ensures Step(s, op).leftCoefficient == s.leftCoefficient
    ensures Step(s, op).isolated == s.isolated && Step(s, op).isDivided == s.isDivided
  {
  }

  /** MULTIPLY scales the coefficient, the constant and the right side by the same factor, and leaves both flags. */
  lemma MultiplyScales(s: EqState, op: Op)
    requires op.opId == "MULTIPLY"
    ensures var t := Step(s, op);
      && t.leftCoefficient == s.leftCoefficient * op.value
      && t.leftConstant == s.leftConstant * op.value
      && t.currentRight == s.currentRight * op.value
      && t.isolated == s.isolated && t.isDivided == s.isDivided
      && t.history == s.history + [op]
  {
  }

  /**
   * DIVIDE always divides the right side; the left side becomes the bare
   * variable exactly when the isolation check passes, and is otherwise left
   * as it was.
   */
  lemma DivideSpec(s: EqState, op: Op)
    requires op.opId == "DIVIDE" && op.value != 0.0
    ensures var t := Step(s, op);
      && t.currentRight == s.currentRight / op.value
      && t.leftConstant == s.leftConstant
      && (Isolates(s, op) ==> t.leftCoefficient == 1.0 && t.isDivided && t.isolated)
      && (!Isolates(s, op) ==> t.leftCoefficient == s.leftCoefficient && t.isDivided == s.isDivided && t.isolated == s.isolated)
  {
  }

  // ----- solutions -----

  /** `x` solves the displayed equation. */
  predicate Balanced(s: EqState, x: real) {
    s.leftCoefficient * x + s.leftConstant == s.currentRight
  }

  /** Applying `op` to both sides keeps every solution: anything but a DIVIDE that isolates inexactly or not at all. */
  predicate Exact(s: EqState, op: Op) {
    op.opId == "DIVIDE" ==> s.leftConstant == 0.0 && op.value == s.leftCoefficient && op.value != 0.0
  }

  /** Every step of the sequence is exact in the state it is applied to. */
  predicate ExactRun(s: EqState, ops: seq<Op>)
    decreases |ops|
  {
    ops == [] || (Applicable(ops[0]) && Exact(s, ops[0]) && ExactRun(Step(s, ops[0]), ops[1..]))
  }

  /** Scaling both sides of `a x + b = r` by `v` keeps `x` a solution. */
  lemma ScaledBalance(a: real, b: real, r: real, v: real, x: real)
    requires a * x + b == r
    ensures (a * v) * x + b * v == r * v
  {
    assert (a * v) * x == (a * x) * v;
    assert (a * x) * v + b * v == (a * x + b) * v;
  }

  /** Dividing `a x = r` by `a` leaves `x = r / a`. */
  lemma DividedBalance(a: real, r: real, x: real)
    requires a != 0.0 && a * x == r
    ensures r / a == x
  {
    assert (r / a) * a == r;
  }

  lemma StepKeepsSolution(s: EqState, op: Op, x: real)
    requires Applicable(op) && Exact(s, op) && Balanced(s, x)
    ensures Balanced(Step(s, op), x)
  {
    var t := Step(s, op);
    if op.opId == "MULTIPLY" {
      MultiplyScales(s, op);
      ScaledBalance(s.leftCoefficient, s.leftConstant, s.currentRight, op.value, x);
      assert t.leftCoefficient * x + t.leftConstant == t.currentRight;
    } else if op.opId == "DIVIDE" {
      DivideSpec(s, op);
      assert Isolates(s, op);
      DividedBalance(s.leftCoefficient, s.currentRight, x);
      assert t.leftCoefficient == 1.0 && t.leftConstant == 0.0 && t.currentRight == x;
    } else if op.opId == "ADD" || op.opId == "SUBTRACT" {
      ShiftKeepsDifference(s, op);
      assert t.leftCoefficient == s.leftCoefficient;
      assert t.currentRight - t.leftConstant == s.currentRight - s.leftConstant;
    } else {
      assert t.leftCoefficient == s.leftCoefficient && t.leftConstant == s.leftConstant && t.currentRight == s.currentRight;
    }
  }

  lemma {:induction false} RunKeepsSolution(s: EqState, ops: seq<Op>, x: real)
    requires ExactRun(s, ops) && Balanced(s, x)
    ensures forall i :: 0 <= i < |ops| ==> Applicable(ops[i])
    ensures Balanced(Run(s, ops), x)
    decreases |ops|
  {
    if ops != [] {
      StepKeepsSolution(s, ops[0], x);
      RunKeepsSolution(Step(s, ops[0]), ops[1..], x);
      assert forall i :: 1 <= i < |ops| ==> ops[i] == ops[1..][i - 1];
    }
  }

  /**
   * When a run of exact steps ends with the variable alone (coefficient 1,
   * constant 0), the reported `currentX` is the solution of the original
   * equation.
   */
  lemma ExactIsolationSolves(cfg: EquationConfig, ops: seq<Op>, x: real)
    requires ExactRun(Initial(cfg), ops) && Balanced(Initial(cfg), x)
    requires forall i :: 0 <= i < |ops| ==> Applicable(ops[i])
    requires Run(Initial(cfg), ops).isolated
    requires Run(Initial(cfg), ops).leftCoefficient == 1.0 && Run(Initial(cfg), ops).leftConstant == 0.0
    ensures Report(Run(Initial(cfg), ops)).currentX == Some(x)
  {
    var t := Run(Initial(cfg), ops);
    RunKeepsSolution(Initial(cfg), ops, x);
    assert Balanced(t, x);
    assert t.currentRight == 1.0 * x + 0.0;
  }

  /**
   * The isolation check tolerates a constant below 0.0001: `2x + 0.00005 = 4`
   * divided by 2 reports x = 2, which does not solve it.
   */
  lemma ToleranceIsolatesInexactly()
    ensures var s := EqState(2.0, 0.00005, 4.0, [], false, false);
      var t := Step(s, Op("DIVIDE", "÷2", 2.0));
      && Report(t).currentX == Some(2.0) && !Balanced(s, 2.0)
  {
    var s := EqState(2.0, 0.00005, 4.0, [], false, false);
    assert Isolates(s, Op("DIVIDE", "÷2", 2.0));
  }

  /** A DIVIDE that does not isolate divides the right side only: `3x + 5 = 20` becomes `3x + 5 = 20/3`. */
  lemma DivideFirstUnbalances()
    ensures var s := EqState(3.0, 5.0, 20.0, [], false, false);
      var t := Step(s, Op("DIVIDE", "÷3", 3.0));
      && Balanced(s, 5.0) && !Balanced(t, 5.0) && Report(t).currentX == None
  {
    var s := EqState(3.0, 5.0, 20.0, [], false, false);
    assert !Isolates(s, Op("DIVIDE", "÷3", 3.0));
  }

  /** After isolation further operations still report `currentX`: ADD 5 after `x = 5` reports 10. */
  lemma IsolatedDrifts()
    ensures var s := EqState(1.0, 0.0, 5.0, [], true, true);
      Report(Step(s, Op("ADD", "+5", 5.0))).currentX == Some(10.0)
  {
  }

  // ----- the class -----

  /** The component's state, updated in place by the buttons. */
  class Equation {
    const config: EquationConfig
    var leftCoefficient: real
    var leftConstant: real
    var currentRight: real
    var history: seq<Op>
    var isolated: bool
    var isDivided: bool

    function State(): EqState
      reads this
    {
      EqState(leftCoefficient, leftConstant, currentRight, history, isolated, isDivided)
    }

    ghost predicate Valid()
      reads this
    {
      WellFormed(config) && Consistent(State())
    }

    constructor (cfg: EquationConfig)
      requires WellFormed(cfg)
      ensures config == cfg && Valid() && State() == Initial(cfg)
    {
      config := cfg;
      leftCoefficient, leftConstant, currentRight := cfg.a, cfg.b, cfg.right;
      history, isolated, isDivided := [], false, false;
    }

    /** `applyOp(op)` for an operation button of this item. */
    method ApplyOp(op: Op)
      requires Valid() && op in config.operations
      modifies this
      ensures Valid() && State() == Step(old(State()), op)
    {
      assert Applicable(op);
      var isolates := Isolates(State(), op);
      history := history + [op];
      if op.opId == "SUBTRACT" {
        leftConstant := leftConstant - op.value;
        currentRight := currentRight - op.value;
      }
      if op.opId == "ADD" {
        leftConstant := leftConstant + op.value;
        currentRight := currentRight + op.value;
      }
      if op.opId == "DIVIDE" {
        if isolates {
          leftCoefficient := 1.0;
          isDivided := true;
          isolated := true;
        }
        currentRight := currentRight / op.value;
      }
      if op.opId == "MULTIPLY" {
        leftCoefficient := leftCoefficient * op.value;
        leftConstant := leftConstant * op.value;
        currentRight := currentRight * op.value;
      }
    }

    /** Reset Equation, and the reset on item change. */
    method Reset()
      requires Valid()
      modifies this
      ensures Valid() && State() == Initial(config)
    {
      leftCoefficient, leftConstant, currentRight := config.a, config.b, config.right;
      history, isolated, isDivided := [], false, false;
    }

    /** The response the component reports. */
    function Response(): (r: ItemTypes.Response)
      reads this
      ensures r == Report(State())
    {
      BalanceReport(history, if isolated then Some(currentRight) else None, isolated, leftConstant, leftCoefficient)
    }

    /** The left side as displayed. */
    function Label(show: real -> string): (text: string)
      reads this
      ensures text == LeftLabel(State(), config.variable, show)
    {
      LeftLabel(State(), config.variable, show)
    }
  }
}
