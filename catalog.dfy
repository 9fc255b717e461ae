/**
 * The product grid on the home page (index.js) and the products page
 * (product.js): the category filter buttons and the search box. Each product
 * card has a name, a description and a `data-category`; a card is shown or
 * hidden, which the model keeps as one flag per card.
 */
module Catalog {
  import opened Wrappers
  import opened JsText

  datatype Card = Card(name: string, description: string, category: string)

  /** The filter rule, the same on both pages: `'all'` shows every card, any other value its own category. */
  predicate InCategory(card: Card, category: string)
  {
    category == "all" || card.category == category
  }

  /** The number of cards a filter shows. */
  function CountInCategory(cards: seq<Card>, category: string): (n: nat)
    ensures n <= |cards|
    ensures category == "all" ==> n == |cards|
  {
    if cards == [] then 0
    else CountInCategory(cards[..|cards| - 1], category) + (if InCategory(cards[|cards| - 1], category) then 1 else 0)
  }

  /**
   * The search rule for a normalised query: the lower-cased name or description
   * contains it, or the category as written does (the category is not lower-cased).
   */
  predicate SearchMatches(card: Card, query: string)
  {
    Includes(ToLower(card.name), query) || Includes(ToLower(card.description), query) || Includes(card.category, query)
  }

  /** The number of cards a search shows. */
  function CountMatches(cards: seq<Card>, query: string): (n: nat)
    ensures n <= |cards|
  {
    if cards == [] then 0
    else CountMatches(cards[..|cards| - 1], query) + (if SearchMatches(cards[|cards| - 1], query) then 1 else 0)
  }

  /** An empty query would match every card. */
  lemma {:induction false} EmptyQueryMatchesAll(cards: seq<Card>)
    ensures CountMatches(cards, []) == |cards|
  {
    if cards != [] {
      EmptyQueryMatchesAll(cards[..|cards| - 1]);
      IncludesEmpty(ToLower(cards[|cards| - 1].name));
    }
  }

  /**
   * `filterProducts`: every card's flag is set by the filter rule and the cards
   * shown are counted.
   */
  method FilterProducts(cards: seq<Card>, category: string, visible: array<bool>) returns (visibleCount: nat)
    requires visible.Length == |cards|
    modifies visible
    ensures forall k :: 0 <= k < |cards| ==> visible[k] == InCategory(cards[k], category)
    ensures visibleCount == CountInCategory(cards, category)
  {
    visibleCount := 0;
    var k := 0;
    while k < |cards|
      invariant 0 <= k <= |cards|
      invariant forall m :: 0 <= m < k ==> visible[m] == InCategory(cards[m], category)
      invariant visibleCount == CountInCategory(cards[..k], category)
    {
      assert cards[..k + 1][..k] == cards[..k];
      if InCategory(cards[k], category) {
        visible[k] := true;
        visibleCount := visibleCount + 1;
      } else {
        visible[k] := false;
      }
      k := k + 1;
    }
    assert cards[..k] == cards;
  }

  /** One pass of the search over the cards with an already normalised query. */
  method ShowMatches(cards: seq<Card>, query: string, visible: array<bool>) returns (foundCount: nat)
    requires visible.Length == |cards|
    modifies visible
    ensures forall k :: 0 <= k < |cards| ==> visible[k] == SearchMatches(cards[k], query)
    ensures foundCount == CountMatches(cards, query)
  {
    foundCount := 0;
    var k := 0;
    while k < |cards|
      invariant 0 <= k <= |cards|
      invariant forall m :: 0 <= m < k ==> visible[m] == SearchMatches(cards[m], query)
      invariant foundCount == CountMatches(cards[..k], query)
    {
      assert cards[..k + 1][..k] == cards[..k];
      if SearchMatches(cards[k], query) {
        visible[k] := true;
        foundCount := foundCount + 1;
      } else {
        visible[k] := false;
      }
      k := k + 1;
    }
    assert cards[..k] == cards;
  }

  /**
   * The home page's search: the query is trimmed then lower-cased; an empty one
   * is refused (no count) and no card changes.
   */
  method SearchOnHome(cards: seq<Card>, input: string, visible: array<bool>) returns (found: Option<nat>)
    requires visible.Length == |cards|
    modifies visible
    ensures var query := ToLower(Trim(input));
      if query == [] then found == None && visible[..] == old(visible[..])
      else
        found == Some(CountMatches(cards, query)) &&
        forall k :: 0 <= k < |cards| ==> visible[k] == SearchMatches(cards[k], query)
  {
    var query := ToLower(Trim(input));
    if query == [] {
      return None;
    }
    var n := ShowMatches(cards, query, visible);
    found := Some(n);
  }

  /**
   * The products page's search: the query is lower-cased then trimmed; an empty
   * one shows every card (no count), any other shows exactly the matches.
   */
  method SearchOnProducts(cards: seq<Card>, input: string, visible: array<bool>) returns (found: Option<nat>)
    requires visible.Length == |cards|
    modifies visible
    ensures var query := Trim(ToLower(input));
      if query == [] then found == None && forall k :: 0 <= k < |cards| ==> visible[k]
      else
        found == Some(CountMatches(cards, query)) &&
        forall k :: 0 <= k < |cards| ==> visible[k] == SearchMatches(cards[k], query)
  {
    var query := Trim(ToLower(input));
    if query == [] {
      var k := 0;
      while k < |cards|
        invariant 0 <= k <= |cards|
        invariant forall m :: 0 <= m < k ==> visible[m]
      {
        visible[k] := true;
        k := k + 1;
      }
      return None;
    }
    var n := ShowMatches(cards, query, visible);
    found := Some(n);
  }

  // ----- deferred hiding -----

  /**
   * A card's `display` and whether a hide timer is pending on it. A pass over
   * the cards shows a card at once but hides it only when a
   * `setTimeout(..., 300)` fires; no timer is ever cancelled.
   */
  datatype CardDisplay = CardDisplay(shown: bool, hidePending: bool)

  /** No card has a hide timer pending. */
  predicate Settled(d: seq<CardDisplay>)
  {
    forall k :: 0 <= k < |d| ==> !d[k].hidePending
  }

  /**
   * One filter or search pass as written, given its verdict per card: a card
   * the pass keeps is shown at once and any pending hide stays pending; any
   * other card gets a hide timer.
   */
  function PassAsWritten(keep: seq<bool>, d: seq<CardDisplay>): (r: seq<CardDisplay>)
    requires |keep| == |d|
    ensures |r| == |d|
  {
    seq(|d|, k requires 0 <= k < |d| => if keep[k] then d[k].(shown := true) else d[k].(hidePending := true))
  }

  /** The pass as intended: showing a card also cancels its pending hide. */
  function PassCancelling(keep: seq<bool>, d: seq<CardDisplay>): (r: seq<CardDisplay>)
    requires |keep| == |d|
    ensures |r| == |d|
  {
    seq(|d|, k requires 0 <= k < |d| => if keep[k] then CardDisplay(true, false) else d[k].(hidePending := true))
  }

  /** 300 ms later the pending timers have fired: every card with one is hidden. */
  function FireTimers(d: seq<CardDisplay>): (r: seq<CardDisplay>)
    ensures |r| == |d| && Settled(r)
  {
    seq(|d|, k requires 0 <= k < |d| => if d[k].hidePending then CardDisplay(false, false) else d[k])
  }

  /** The filter rule's verdict on every card. */
  function CategoryVerdicts(cards: seq<Card>, category: string): (r: seq<bool>)
    ensures |r| == |cards|
    ensures forall k :: 0 <= k < |cards| ==> r[k] == InCategory(cards[k], category)
  {
    seq(|cards|, k requires 0 <= k < |cards| => InCategory(cards[k], category))
  }

  /**
   * As written, two passes less than 300 ms apart from a settled grid leave,
   * once the timers have fired, exactly the cards both passes keep: the first
   * pass's hides undo the second pass's shows.
   */
  lemma AsWrittenKeepsOnlyBoth(first: seq<bool>, second: seq<bool>, d: seq<CardDisplay>)
    requires |first| == |second| == |d| && Settled(d)
    ensures var r := FireTimers(PassAsWritten(second, PassAsWritten(first, d)));
      forall k :: 0 <= k < |d| ==> r[k].shown == (first[k] && second[k])
  {
  }

  /**
   * The concrete case: a running and a casual card, click Running, then All
   * within 300 ms. All keeps the casual card, yet once the timers fire it is
   * hidden.
   */
  lemma RunningThenAllHidesCasual()
    ensures var cards := [Card("Runner", "", "running"), Card("Loafer", "", "casual")];
      var d := FireTimers(PassAsWritten(CategoryVerdicts(cards, "all"),
                 PassAsWritten(CategoryVerdicts(cards, "running"), [CardDisplay(true, false), CardDisplay(true, false)])));
      InCategory(cards[1], "all") && d == [CardDisplay(true, false), CardDisplay(false, false)]
  {
    var cards := [Card("Runner", "", "running"), Card("Loafer", "", "casual")];
    var running := CategoryVerdicts(cards, "running");
    var all := CategoryVerdicts(cards, "all");
    assert running == [true, false];
    assert all == [true, true];
  }

  /**
   * With a show that cancels the pending hide, whatever timers earlier passes
   * left pending, the grid settles to exactly the last pass's verdicts: the
   * state `FilterProducts` and `ShowMatches` give.
   */
  lemma CancellingSettlesToLast(keep: seq<bool>, d: seq<CardDisplay>)
    requires |keep| == |d|
    ensures var r := FireTimers(PassCancelling(keep, d));
      forall k :: 0 <= k < |d| ==> r[k].shown == keep[k]
  {
  }
}
