/**
 * The CLASSIFY_SORT board: the learner selects a card, then a bin, and the
 * card is recorded in the mapping card id -> bin id that the board reports
 * as its response. A card that is already placed cannot be selected again.
 */
module ClassifySort {
  import opened Wrappers
  import opened JsValue
  import opened ItemTypes

  /** The board's state: the placements so far and the selected card (`null` when none). */
  datatype Board = Board(mapping: map<string, string>, selected: Option<string>)

  const Initial := Board(map[], None)

  /** `!!mapping[card]`: a card with no entry, or an empty bin id, is not placed. */
  predicate IsPlaced(m: map<string, string>, card: string) {
    card in m && m[card] != ""
  }

  /** The cards a bin shows: the keys mapped to it. */
  function BinCards(m: map<string, string>, bin: string): set<string> {
    set k | k in m.Keys && m[k] == bin
  }

  /** The bin's badge: how many mapping values equal the bin id. */
  function PlacedCount(m: map<string, string>, bin: string): (n: nat)
    ensures n <= |m|
    ensures n == 0 <==> bin !in m.Values
  {
    BinCardsBound(m, bin);
    |BinCards(m, bin)|
  }

  lemma BinCardsBound(m: map<string, string>, bin: string)
    ensures |BinCards(m, bin)| <= |m|
    ensures BinCards(m, bin) == {} <==> bin !in m.Values
  {
    var cards := BinCards(m, bin);
    SubsetCardinality(cards, m.Keys);
    if bin in m.Values {
      var k :| k in m && m[k] == bin;
      assert k in cards;
    }
  }

  lemma {:induction false} SubsetCardinality<T>(a: set<T>, b: set<T>)
    requires a <= b
    ensures |a| <= |b|
    decreases b
  {
    if a != {} {
      var x :| x in a;
      SubsetCardinality(a - {x}, b - {x});
    }
  }

  /** Clicking a card's button; the button is disabled once the card is placed. */
  function Select(b: Board, card: string): (r: Board)
    ensures r.mapping == b.mapping
    ensures r.selected == b.selected || (r.selected == Some(card) && !IsPlaced(b.mapping, card))
  {
    if IsPlaced(b.mapping, card) then b else b.(selected := Some(card))
  }

  /** `handlePlace`: with a card selected (an empty id counts as none), record it in the bin and clear the selection. */
  function Place(b: Board, bin: string): (r: Board)
    ensures r == b || r.selected == None
    ensures forall c :: c in b.mapping && Some(c) != b.selected ==> c in r.mapping && r.mapping[c] == b.mapping[c]
    ensures r.mapping.Keys <= b.mapping.Keys + (if b.selected.Some? then {b.selected.value} else {})
    ensures r != b ==> b.selected.Some? && b.selected.value in r.mapping && r.mapping[b.selected.value] == bin
  {
    if b.selected == None || b.selected == Some("") then b
    else Board(b.mapping[b.selected.value := bin], None)
  }

  /** The board's response, emitted to the runner whenever the mapping changes. */
  function Emitted(b: Board): (r: Response)
    ensures r.Placement? && forall card :: Get(r, card) == (if card in b.mapping then Str(b.mapping[card]) else Undefined)
  {
    Placement(b.mapping)
  }

  /**
   * The board only ever holds the cards and bins of the item, and a
   * selected card is one that is not placed yet.
   */
  predicate Good(b: Board, cards: set<string>, bins: set<string>) {
    && b.mapping.Keys <= cards
    && b.mapping.Values <= bins
    && (b.selected.Some? ==> b.selected.value in cards && !IsPlaced(b.mapping, b.selected.value))
  }

  datatype Event = SelectCard(card: string) | ClickBin(bin: string)

  /** The events the rendered board can produce: clicks on its own cards and bins. */
  predicate OnBoard(e: Event, cards: set<string>, bins: set<string>) {
    match e
    case SelectCard(c) => c in cards
    case ClickBin(bin) => bin in bins
  }

  function Handle(b: Board, e: Event): Board {
    match e
    case SelectCard(c) => Select(b, c)
    case ClickBin(bin) => Place(b, bin)
  }

  function Run(b: Board, events: seq<Event>): Board
    decreases |events|
  {
    if events == [] then b else Run(Handle(b, events[0]), events[1..])
  }

  /** Every click on the board keeps it good. */
  lemma HandleKeepsGood(b: Board, e: Event, cards: set<string>, bins: set<string>)
    requires Good(b, cards, bins) && OnBoard(e, cards, bins)
    ensures Good(Handle(b, e), cards, bins)
  {
  }

  /**
   * A placed card keeps its bin and every card with an entry keeps it:
   * placing only writes the selected card, which is never a placed one.
   */
  lemma HandleKeepsPlacements(b: Board, e: Event, cards: set<string>, bins: set<string>)
    requires Good(b, cards, bins) && OnBoard(e, cards, bins)
    ensures b.mapping.Keys <= Handle(b, e).mapping.Keys
    ensures forall k :: IsPlaced(b.mapping, k) ==> k in Handle(b, e).mapping && Handle(b, e).mapping[k] == b.mapping[k]
  {
  }

  /** The same over any sequence of clicks. */
  lemma {:induction false} RunKeepsPlacements(b: Board, events: seq<Event>, cards: set<string>, bins: set<string>)
    requires Good(b, cards, bins)
    requires forall i :: 0 <= i < |events| ==> OnBoard(events[i], cards, bins)
    ensures Good(Run(b, events), cards, bins)
    ensures b.mapping.Keys <= Run(b, events).mapping.Keys
    ensures forall k :: IsPlaced(b.mapping, k) ==> k in Run(b, events).mapping && Run(b, events).mapping[k] == b.mapping[k]
    decreases |events|
  {
    if events != [] {
      var c := Handle(b, events[0]);
      HandleKeepsGood(b, events[0], cards, bins);
      HandleKeepsPlacements(b, events[0], cards, bins);
      RunKeepsPlacements(c, events[1..], cards, bins);
    }
  }

  /** Selecting an unplaced card and clicking a bin records exactly that card in that bin. */
  lemma SelectThenPlace(b: Board, card: string, bin: string)
    requires card != "" && !IsPlaced(b.mapping, card)
    ensures Run(b, [SelectCard(card), ClickBin(bin)]) == Board(b.mapping[card := bin], None)
    ensures Get(Emitted(Run(b, [SelectCard(card), ClickBin(bin)])), card) == Str(bin)
  {
    var events := [SelectCard(card), ClickBin(bin)];
    assert events[1..] == [ClickBin(bin)];
    assert [ClickBin(bin)][1..] == [];
    assert Run(b, events) == Run(Select(b, card), [ClickBin(bin)]);
    assert Run(Select(b, card), [ClickBin(bin)]) == Place(Select(b, card), bin);
  }

  /** Running two batches of clicks is running the first and then the second. */
  lemma {:induction false} RunConcat(b: Board, e1: seq<Event>, e2: seq<Event>)
    ensures Run(b, e1 + e2) == Run(Run(b, e1), e2)
    decreases |e1|
  {
    if e1 != [] {
      assert (e1 + e2)[0] == e1[0];
      assert (e1 + e2)[1..] == e1[1..] + e2;
      RunConcat(Handle(b, e1[0]), e1[1..], e2);
    } else {
      assert e1 + e2 == e2;
    }
  }

  /** After any clicks, selecting a card that is not placed yet and clicking a bin records it there. */
  lemma PutInAfter(b: Board, e: seq<Event>, card: string, bin: string)
    requires card != "" && !IsPlaced(Run(b, e).mapping, card)
    ensures Run(b, e + [SelectCard(card), ClickBin(bin)]) == Board(Run(b, e).mapping[card := bin], None)
  {
    RunConcat(b, e, [SelectCard(card), ClickBin(bin)]);
    SelectThenPlace(Run(b, e), card, bin);
  }

  /** Clicking a bin with nothing selected changes nothing. */
  lemma PlaceWithoutSelection(b: Board, bin: string)
    requires b.selected == None
    ensures Place(b, bin) == b
  {
  }

  /** Updating one card's entry moves it into one bin's card set and out of every other. */
  lemma BinCardsUpdate(m: map<string, string>, c: string, bin: string, other: string)
    requires other != bin
    ensures BinCards(m[c := bin], bin) == BinCards(m, bin) + {c}
    ensures BinCards(m[c := bin], other) == BinCards(m, other) - {c}
  {
  }

  /**
   * Placing the selected card raises the chosen bin's badge by one and
   * leaves every other bin's badge as it was.
   */
  lemma PlaceCounts(b: Board, bin: string, other: string, cards: set<string>, bins: set<string>)
    requires Good(b, cards, bins) && b.selected.Some? && b.selected.value != ""
    requires bin != "" && other != "" && other != bin
    ensures PlacedCount(Place(b, bin).mapping, bin) == PlacedCount(b.mapping, bin) + 1
    ensures PlacedCount(Place(b, bin).mapping, other) == PlacedCount(b.mapping, other)
  {
    var c := b.selected.value;
    BinCardsUpdate(b.mapping, c, bin, other);
    assert c !in BinCards(b.mapping, bin);
    assert c !in BinCards(b.mapping, other);
  }

  /** The component's state, updated in place by its handlers. */
  class SortBoard {
    const cards: set<string>
    const bins: set<string>
    var mapping: map<string, string>
    var selectedItem: Option<string>

    function State(): Board
      reads this
    {
      Board(mapping, selectedItem)
    }

    ghost predicate Valid()
      reads this
    {
      Good(State(), cards, bins)
    }

    constructor (cardIds: set<string>, binIds: set<string>)
      ensures cards == cardIds && bins == binIds && State() == Initial && Valid()
    {
      cards, bins := cardIds, binIds;
      mapping, selectedItem := map[], None;
    }

    /** A card button's click; nothing happens when the button is disabled. */
    method SelectCard(card: string)
      requires Valid() && card in cards
      modifies this
      ensures Valid() && State() == Select(old(State()), card)
    {
      if !IsPlaced(mapping, card) {
        selectedItem := Some(card);
      }
    }

    method HandlePlace(binId: string)
      requires Valid() && binId in bins
      modifies this
      ensures Valid() && State() == Place(old(State()), binId)
    {
      if selectedItem == None || selectedItem == Some("") {
        return;
      }
      mapping := mapping[selectedItem.value := binId];
      selectedItem := None;
    }

    /** The mapping reported to the runner. */
    method Response() returns (r: Response)
      ensures r == Emitted(State())
    {
      r := Placement(mapping);
    }
  }
}
