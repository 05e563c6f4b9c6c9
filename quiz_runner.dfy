/**
 * The quiz flow controller: which item is on screen (a main item or its
 * transfer item), the attempt counter, the pending response, the last
 * graded result and whether the worked solution is shown.
 */
module QuizRunner {
  import opened Wrappers
  import opened JsNumber
  import opened ItemTypes
  import opened Scoring

  datatype Stage = Main | Transfer

  /** The runner's state fields (`isReady` is a rendering flag and is left out). */
  datatype Flow = Flow(
    currentIndex: nat,
    attempt: int,
    stage: Stage,
    localResponse: Option<Response>,
    lastResult: Option<CommitResult>,
    showSolution: bool)

  /** The index names an item, and the TRANSFER stage is only entered for an item with a transfer item. */
  predicate FlowValid(items: seq<Item>, f: Flow) {
    f.currentIndex < |items| && (f.stage == Transfer ==> items[f.currentIndex].transfer.Some?)
  }

  /** The state on mount. */
  function Start(): Flow {
    Flow(0, 1, Main, None, None, false)
  }

  /** `currentItem`: the main item in MAIN, its transfer item in TRANSFER. */
  function CurrentItem(items: seq<Item>, f: Flow): (item: Item)
    requires FlowValid(items, f)
    ensures f.stage == Main ==> item == items[f.currentIndex]
    ensures f.stage == Transfer ==> Some(item) == items[f.currentIndex].transfer
  {
    if f.stage == Main then items[f.currentIndex] else items[f.currentIndex].transfer.value
  }

  /**
   * `!!localResponse`: `null` is falsy, and so is the number 0 of the number
   * line; every response object is truthy.
   */
  predicate Truthy(r: Option<Response>)
    ensures Truthy(r) ==> r.Some?
    ensures r.Some? && !r.value.Position? ==> Truthy(r)
    ensures r.Some? && r.value.Position? ==> (Truthy(r) <==> r.value.x != 0.0)
  {
    r.Some? && r.value != Position(0.0)
  }

  /** `lastResult?.isCorrect`. */
  predicate LastCorrect(f: Flow) {
    f.lastResult.Some? && f.lastResult.value.isCorrect
  }

  /** `resetFlowState()`. */
  function ResetFlow(f: Flow): (g: Flow)
    ensures g.attempt == 1 && g.localResponse == None && g.lastResult == None && !g.showSolution
    ensures g.currentIndex == f.currentIndex && g.stage == f.stage
  {
    f.(attempt := 1, localResponse := None, lastResult := None, showSolution := false)
  }

  /** `handleCommit()`: grade the pending response; an incorrect result costs an attempt. */
  function Commit(items: seq<Item>, f: Flow): (g: Flow)
    requires FlowValid(items, f)
    ensures FlowValid(items, g)
    ensures g.currentIndex == f.currentIndex && g.stage == f.stage
    ensures g.localResponse == f.localResponse && g.showSolution == f.showSolution
    ensures f.attempt <= g.attempt <= f.attempt + 1
    ensures !Truthy(f.localResponse) ==> g == f
    ensures Truthy(f.localResponse) ==> g.lastResult.Some? && (g.attempt == f.attempt <==> g.lastResult.value.isCorrect)
  {
    if !Truthy(f.localResponse) then f
    else
      var result := ScoreItem(CurrentItem(items, f), f.localResponse.value, f.attempt);
      f.(lastResult := Some(result), attempt := if result.isCorrect then f.attempt else f.attempt + 1)
  }

  /** `handleNext()`: to the transfer item after a correct main item that has one, else to the next item. */
  function Next(items: seq<Item>, f: Flow): (g: Flow)
    requires FlowValid(items, f)
    ensures FlowValid(items, g)
    ensures g == f || (g.attempt == 1 && g.localResponse == None && g.lastResult == None && !g.showSolution)
    ensures g.currentIndex == f.currentIndex || (g.currentIndex == f.currentIndex + 1 && g.stage == Main)
    ensures f.stage == Main && g.stage == Transfer ==> LastCorrect(f) && g.currentIndex == f.currentIndex
  {
    if f.stage == Main && LastCorrect(f) && CurrentItem(items, f).transfer.Some? then
      ResetFlow(f.(stage := Transfer))
    else if f.currentIndex < |items| - 1 then
      ResetFlow(f.(stage := Main, currentIndex := f.currentIndex + 1))
    else f  // the completion alert changes nothing
  }

  /** The "Reveal Solution" button is offered after two failed attempts while no correct result stands. */
  predicate RevealOffered(f: Flow) {
    f.attempt > 2 && !LastCorrect(f)
  }

  function Reveal(f: Flow): (g: Flow)
    ensures g.showSolution <==> f.showSolution || RevealOffered(f)
    ensures g.(showSolution := f.showSolution) == f
  {
    if RevealOffered(f) then f.(showSolution := true) else f
  }

  /** What can happen to the runner: the template reports a response, or a button is pressed. */
  datatype Event = Respond(r: Option<Response>) | CommitPressed | NextPressed | RevealPressed

  function Handle(items: seq<Item>, f: Flow, e: Event): (g: Flow)
    requires FlowValid(items, f)
    ensures FlowValid(items, g) && g.currentIndex >= f.currentIndex
    ensures g.currentIndex != f.currentIndex || g.stage != f.stage ==> e == NextPressed
    ensures g.lastResult != f.lastResult ==> e == CommitPressed || e == NextPressed
    ensures g.showSolution && !f.showSolution ==> e == RevealPressed
    ensures g.localResponse != f.localResponse ==> e.Respond? || e == NextPressed
  {
    match e
    case Respond(r) => f.(localResponse := r)
    case CommitPressed => Commit(items, f)
    case NextPressed => Next(items, f)
    case RevealPressed => Reveal(f)
  }

  /** Every event keeps the flow valid. */
  lemma HandleKeepsValid(items: seq<Item>, f: Flow, e: Event)
    requires FlowValid(items, f)
    ensures FlowValid(items, Handle(items, f, e))
    ensures Handle(items, f, e).currentIndex >= f.currentIndex
  {
  }

  function Run(items: seq<Item>, f: Flow, events: seq<Event>): (g: Flow)
    requires FlowValid(items, f)
    ensures FlowValid(items, g)
    ensures NextPressed !in events ==> g.currentIndex == f.currentIndex && g.stage == f.stage
    decreases |events|
  {
    if events == [] then f
    else
      HandleKeepsValid(items, f, events[0]);
      Run(items, Handle(items, f, events[0]), events[1..])
  }

  // ----- one step at a time -----

  /** A commit without a truthy response (`null`, or the number 0) does nothing. */
  lemma CommitFalsyIsNoop(items: seq<Item>, f: Flow)
    requires FlowValid(items, f) && !Truthy(f.localResponse)
    ensures Commit(items, f) == f
  {
  }

  /**
   * A commit stores `scoreItem(currentItem, localResponse, attempt)` as the
   * last result, raises the attempt by exactly one when that result is
   * incorrect, and changes nothing else.
   */
  lemma CommitStoresResult(items: seq<Item>, f: Flow)
    requires FlowValid(items, f) && Truthy(f.localResponse)
    ensures var g := Commit(items, f); var r := ScoreItem(CurrentItem(items, f), f.localResponse.value, f.attempt);
      && g.lastResult == Some(r)
      && g.attempt == (if r.isCorrect then f.attempt else f.attempt + 1)
      && g.currentIndex == f.currentIndex && g.stage == f.stage
      && g.localResponse == f.localResponse && g.showSolution == f.showSolution
  {
  }

  /**
   * The "Check Answer" button is shown while no correct result stands and is
   * disabled without a truthy response; the "Next" button replaces it once
   * the result is correct.
   */
  predicate CheckEnabled(f: Flow) {
    !LastCorrect(f) && Truthy(f.localResponse)
  }

  /** Pressing an enabled "Check Answer" always records a result; the disabled button would have done nothing. */
  lemma CheckButtonGuard(items: seq<Item>, f: Flow)
    requires FlowValid(items, f)
    ensures CheckEnabled(f) ==> Commit(items, f).lastResult.Some?
    ensures !Truthy(f.localResponse) ==> Commit(items, f) == f
  {
  }

  /** The solution is only shown once it has been offered, and moving on hides it again. */
  lemma RevealGuard(items: seq<Item>, f: Flow)
    requires FlowValid(items, f)
    ensures Reveal(f).showSolution <==> f.showSolution || RevealOffered(f)
    ensures Next(items, f) != f ==> !Next(items, f).showSolution
  {
  }

  /** After a correct main item that has a transfer item, Next shows the transfer item with fresh flow state. */
  lemma NextToTransfer(items: seq<Item>, f: Flow)
    requires FlowValid(items, f) && f.stage == Main && LastCorrect(f) && items[f.currentIndex].transfer.Some?
    ensures Next(items, f) == ResetFlow(f.(stage := Transfer))
    ensures CurrentItem(items, Next(items, f)) == items[f.currentIndex].transfer.value
  {
  }

  /** Otherwise Next moves to the next main item with fresh flow state, unless the item is the last one. */
  lemma NextAdvances(items: seq<Item>, f: Flow)
    requires FlowValid(items, f)
    requires !(f.stage == Main && LastCorrect(f) && items[f.currentIndex].transfer.Some?)
    ensures f.currentIndex < |items| - 1 ==> Next(items, f) == ResetFlow(f.(stage := Main, currentIndex := f.currentIndex + 1))
    ensures f.currentIndex == |items| - 1 ==> Next(items, f) == f
  {
  }

  // ----- whole runs -----

  /** From the start state, with at least one item, the index stays in range and never decreases. */
  lemma {:induction false} RunKeepsIndex(items: seq<Item>, f: Flow, events: seq<Event>)
    requires FlowValid(items, f)
    ensures FlowValid(items, Run(items, f, events))
    ensures f.currentIndex <= Run(items, f, events).currentIndex < |items|
    decreases |events|
  {
    if events != [] {
      HandleKeepsValid(items, f, events[0]);
      RunKeepsIndex(items, Handle(items, f, events[0]), events[1..]);
    }
  }

  /** The number of commit presses in a sequence of events. */
  function Commits(events: seq<Event>): nat {
    if events == [] then 0 else (if events[0] == CommitPressed then 1 else 0) + Commits(events[1..])
  }

  /**
   * The attempt counter never exceeds its start value plus the number of
   * commits: only a commit raises it, by one, and a reset puts it back to 1.
   */
  lemma {:induction false} AttemptBound(items: seq<Item>, f: Flow, events: seq<Event>)
    requires FlowValid(items, f) && f.attempt >= 1
    ensures 1 <= Run(items, f, events).attempt <= f.attempt + Commits(events)
    decreases |events|
  {
    if events != [] {
      var g := Handle(items, f, events[0]);
      HandleKeepsValid(items, f, events[0]);
      assert g.attempt <= f.attempt + (if events[0] == CommitPressed then 1 else 0);
      AttemptBound(items, g, events[1..]);
    }
  }

  /** The solution can only be revealed after at least two commits from the start. */
  lemma RevealNeedsTwoCommits(items: seq<Item>, events: seq<Event>)
    requires |items| > 0
    ensures FlowValid(items, Start())
    ensures RevealOffered(Run(items, Start(), events)) ==> Commits(events) >= 2
  {
    AttemptBound(items, Start(), events);
  }

  // ----- the class -----

  /** The component's state, updated in place by its handlers. */
  class Runner {
    const items: seq<Item>
    var currentIndex: nat
    var attempt: int
    var stage: Stage
    var localResponse: Option<Response>
    var lastResult: Option<CommitResult>
    var showSolution: bool

    function State(): Flow
      reads this
    {
      Flow(currentIndex, attempt, stage, localResponse, lastResult, showSolution)
    }

    ghost predicate Valid()
      reads this
    {
      FlowValid(items, State())
    }

    /** The runner is only mounted with a non-empty item list. */
    constructor (quiz: seq<Item>)
      requires |quiz| > 0
      ensures items == quiz && Valid() && State() == Start()
    {
      items := quiz;
      currentIndex, attempt, stage := 0, 1, Main;
      localResponse, lastResult, showSolution := None, None, false;
    }

    /** `currentItem`. */
    function Current(): (item: Item)
      reads this
      requires Valid()
      ensures item == CurrentItem(items, State())
    {
      if stage == Main then items[currentIndex] else items[currentIndex].transfer.value
    }

    /** `onChangeLocal`: the template reports its current response. */
    method SetLocalResponse(r: Option<Response>)
      requires Valid()
      modifies this
      ensures Valid() && State() == Handle(items, old(State()), Respond(r))
    {
      localResponse := r;
    }

    method HandleCommit()
      requires Valid()
      modifies this
      ensures Valid() && State() == Commit(items, old(State()))
    {
      if !Truthy(localResponse) {
        return;
      }
      var result := ScoreItem(Current(), localResponse.value, attempt);
      lastResult := Some(result);
      if !result.isCorrect {
        attempt := attempt + 1;
      }
    }

    method ResetFlowState()
      modifies this
      ensures State() == ResetFlow(old(State()))
    {
      attempt := 1;
      localResponse := None;
      lastResult := None;
      showSolution := false;
    }

    method HandleNext()
      requires Valid()
      modifies this
      ensures Valid() && State() == Next(items, old(State()))
    {
      if stage == Main && LastCorrect(State()) && Current().transfer.Some? {
        stage := Transfer;
        ResetFlowState();
      } else if currentIndex < |items| - 1 {
        stage := Main;
        currentIndex := currentIndex + 1;
        ResetFlowState();
      }
    }

    /** The "Reveal Solution" button, present only when it is offered. */
    method RevealSolution()
      requires Valid()
      modifies this
      ensures Valid() && State() == Reveal(old(State()))
    {
      if RevealOffered(State()) {
        showSolution := true;
      }
    }
  }
}
