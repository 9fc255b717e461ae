/**
 * The FAQ section of the contact page (contact.js): an accordion whose items
 * open and close on a click, at most one at a time, and a search box that
 * shows the entries whose question or answer contains the typed term and
 * records the terms typed at least a second apart.
 */
module Faq {
  import opened JsText

  // ----- accordion -----

  /** `accordionItem.classList.remove('active')` on every item. */
  method CloseAll(active: array<bool>)
    modifies active
    ensures forall j :: 0 <= j < active.Length ==> !active[j]
  {
    var i := 0;
    while i < active.Length
      invariant 0 <= i <= active.Length
      invariant forall j :: 0 <= j < i ==> !active[j]
    {
      active[i] := false;
      i := i + 1;
    }
  }

  /** The accordion: one `active` flag per item and the shared click counter. */
  class Accordion {
    const active: array<bool>
    var interactions: int

    /** No two items are open at once. */
    predicate AtMostOneOpen()
      reads active
    {
      forall i, j :: 0 <= i < j < active.Length ==> !(active[i] && active[j])
    }

    /**
     * The page as loaded: one item per header, each open or closed as the
     * page's markup has it, and no clicks counted yet.
     */
    constructor (initiallyOpen: seq<bool>)
      ensures fresh(active) && active.Length == |initiallyOpen| && interactions == 0
      ensures forall j :: 0 <= j < |initiallyOpen| ==> active[j] == initiallyOpen[j]
      ensures AtMostOneOpen() <==> forall i, j :: 0 <= i < j < |initiallyOpen| ==> !(initiallyOpen[i] && initiallyOpen[j])
    {
      active := new bool[|initiallyOpen|](j requires 0 <= j < |initiallyOpen| => initiallyOpen[j]);
      interactions := 0;
    }

    /**
     * A click on header `k`: every item is closed, then item `k` is opened if it
     * was closed before; so a click on the open item closes it, and a click on
     * any other item leaves exactly that one open. `isOpen` says which
     * happened (the source then reports the question as viewed).
     */
    method Click(k: int) returns (isOpen: bool)
      requires 0 <= k < active.Length
      modifies this, active
      ensures isOpen == !old(active[k])
      ensures active[k] == isOpen
      ensures forall j :: 0 <= j < active.Length && j != k ==> !active[j]
      ensures interactions == old(interactions) + 1
      ensures AtMostOneOpen()
    {
      isOpen := !active[k];
      CloseAll(active);
      if isOpen {
        active[k] := true;
      }
      interactions := interactions + 1;
    }
  }

  // ----- search -----

  /** One FAQ entry: its question and its answer, as displayed. */
  datatype Entry = Entry(question: string, answer: string)

  /** The search rule: the lower-cased question or answer contains the term. */
  predicate EntryMatches(e: Entry, term: string)
  {
    Includes(ToLower(e.question), term) || Includes(ToLower(e.answer), term)
  }

  /** The number of entries a search shows. */
  function CountEntryMatches(entries: seq<Entry>, term: string): (n: nat)
    ensures n <= |entries|
  {
    if entries == [] then 0
    else CountEntryMatches(entries[..|entries| - 1], term) + (if EntryMatches(entries[|entries| - 1], term) then 1 else 0)
  }

  /** The count is zero exactly when no entry matches. */
  lemma {:induction false} NoResultsIffNoMatch(entries: seq<Entry>, term: string)
    ensures CountEntryMatches(entries, term) == 0 <==> forall k :: 0 <= k < |entries| ==> !EntryMatches(entries[k], term)
  {
    if entries != [] {
      var init := entries[..|entries| - 1];
      NoResultsIffNoMatch(init, term);
      if CountEntryMatches(entries, term) == 0 {
        forall k | 0 <= k < |entries|
          ensures !EntryMatches(entries[k], term)
        {
          if k < |init| {
            assert entries[k] == init[k];
          }
        }
      }
    }
  }

  /** An empty term is contained in every text, so it shows every entry. */
  lemma {:induction false} EmptyTermShowsAll(entries: seq<Entry>)
    ensures CountEntryMatches(entries, []) == |entries|
  {
    if entries != [] {
      EmptyTermShowsAll(entries[..|entries| - 1]);
      IncludesEmpty(ToLower(entries[|entries| - 1].question));
    }
  }

  /** The index of the first entry the term matches, or the number of entries when none does. */
  function FirstMatch(entries: seq<Entry>, term: string): (i: nat)
    ensures i <= |entries|
    ensures i < |entries| ==> EntryMatches(entries[i], term)
    ensures forall k :: 0 <= k < i ==> !EntryMatches(entries[k], term)
  {
    if entries == [] then 0
    else if EntryMatches(entries[0], term) then 0
    else 1 + FirstMatch(entries[1..], term)
  }

  /**
   * Whether the pass over the entries throws: a matching entry with a
   * non-empty term is highlighted with `new RegExp('(' + term + ')', 'gi')`,
   * which throws when that is not a valid pattern (`compiles` is false), as for
   * the terms `?`, `(`, `)`, `[`, `*`, `+` and `\`. It throws at the first
   * matching entry.
   */
  predicate Throws(entries: seq<Entry>, term: string, compiles: bool)
  {
    term != [] && !compiles && FirstMatch(entries, term) < |entries|
  }

  /**
   * Each entry's display after the pass: whether it matches, except that when
   * the pass throws, the entries after the first match keep their display
   * `before`.
   */
  function Displayed(entries: seq<Entry>, term: string, compiles: bool, before: seq<bool>): (r: seq<bool>)
    requires |before| == |entries|
    ensures |r| == |entries|
  {
    seq(|entries|, k requires 0 <= k < |entries| =>
      if Throws(entries, term, compiles) && k > FirstMatch(entries, term) then before[k]
      else EntryMatches(entries[k], term))
  }

  /** An entry that matches, after entries that do not, is the first match. */
  lemma FirstMatchIs(entries: seq<Entry>, term: string, k: int)
    requires 0 <= k <= |entries|
    requires forall m :: 0 <= m < k ==> !EntryMatches(entries[m], term)
    requires k < |entries| ==> EntryMatches(entries[k], term)
    ensures FirstMatch(entries, term) == k
  {
  }

  /** The displays a pass leaves, given the entries it visited and the ones it did not. */
  lemma DisplayedFrom(entries: seq<Entry>, term: string, compiles: bool, before: seq<bool>, after: seq<bool>, visited: int)
    requires |before| == |entries| == |after| && 0 <= visited <= |entries|
    requires forall m :: 0 <= m < visited ==> after[m] == EntryMatches(entries[m], term)
    requires forall m :: visited <= m < |entries| ==> after[m] == before[m]
    requires if Throws(entries, term, compiles) then visited == FirstMatch(entries, term) + 1 else visited == |entries|
    ensures after == Displayed(entries, term, compiles, before)
  {
  }

  /**
   * The `forEach` over the entries: each is shown iff it matches and the shown
   * ones are counted, until the highlight of a matching entry throws; the
   * entries after that one are not visited.
   */
  method ShowEntries(entries: seq<Entry>, term: string, compiles: bool, visible: array<bool>) returns (resultCount: nat, threw: bool)
    requires visible.Length == |entries|
    modifies visible
    ensures threw <==> Throws(entries, term, compiles)
    ensures visible[..] == Displayed(entries, term, compiles, old(visible[..]))
    ensures !threw ==> resultCount == CountEntryMatches(entries, term)
  {
    ghost var before := visible[..];
    resultCount := 0;
    threw := false;
    var k := 0;
    while k < |entries|
      invariant 0 <= k <= |entries|
      invariant forall m :: 0 <= m < k ==> visible[m] == EntryMatches(entries[m], term)
      invariant forall m :: k <= m < |entries| ==> visible[m] == before[m]
      invariant resultCount == CountEntryMatches(entries[..k], term)
      invariant term == [] || compiles || forall m :: 0 <= m < k ==> !EntryMatches(entries[m], term)
    {
      CountStep(entries, term, k);
      var matches := EntryMatches(entries[k], term);
      if matches {
        visible[k] := true;
        resultCount := resultCount + 1;
        if term != [] && !compiles {
          // `new RegExp` throws in `highlightText`, which ends the `forEach` here
          FirstMatchIs(entries, term, k);
          DisplayedFrom(entries, term, compiles, before, visible[..], k + 1);
          threw := true;
          return;
        }
      } else {
        visible[k] := false;
      }
      k := k + 1;
    }
    if term != [] && !compiles {
      FirstMatchIs(entries, term, k);
    }
    DisplayedFrom(entries, term, compiles, before, visible[..], k);
    assert entries[..k] == entries;
  }

  /** Counting one more entry adds one exactly when it matches. */
  lemma CountStep(entries: seq<Entry>, term: string, k: int)
    requires 0 <= k < |entries|
    ensures CountEntryMatches(entries[..k + 1], term) ==
      CountEntryMatches(entries[..k], term) + (if EntryMatches(entries[k], term) then 1 else 0)
  {
    assert entries[..k + 1][..k] == entries[..k];
  }

  /** How the `input` handler ends: it throws in the highlight, or it completes with a count and the no-results display. */
  datatype SearchOutcome = Threw | Completed(resultCount: nat, noResults: bool)

  /**
   * As written, typing `?` over a question ending in `?` and an entry that
   * does not contain it: the pass throws at the first entry, so the second
   * stays shown although it does not match.
   */
  lemma QuestionMarkLeavesStaleEntry()
    ensures var entries := [Entry("why?", ""), Entry("how", "")];
      Throws(entries, "?", false) && !EntryMatches(entries[1], "?") &&
      Displayed(entries, "?", false, [false, true]) == [true, true]
  {
    var entries := [Entry("why?", ""), Entry("how", "")];
    assert ToLower("why?") == "why?";
    assert ToLower("how") == "how";
    assert ToLower("") == "";
    assert Includes("?", "?");
    assert Includes("y?", "?");
    assert Includes("hy?", "?");
    assert !Includes("w", "?");
    assert !Includes("ow", "?");
    assert !Includes("how", "?");
    assert !Includes("", "?");
    assert FirstMatch(entries, "?") == 0;
  }

  /** When the pattern compiles, every entry's display is whether it matches. */
  lemma CompilingShowsExactlyMatches(entries: seq<Entry>, term: string, before: seq<bool>, shown: seq<bool>)
    requires |before| == |entries| && shown == Displayed(entries, term, true, before)
    ensures |shown| == |entries|
    ensures forall k :: 0 <= k < |entries| ==> shown[k] == EntryMatches(entries[k], term)
  {
  }

  /** The least time in milliseconds between two recorded search terms. */
  const DebounceMs: int := 1000

  /** A term as the search box records it: non-empty, trimmed and lower-cased. */
  predicate Normalised(term: string)
  {
    term != [] && Trim(term) == term && ToLower(term) == term
  }

  /** Lower-casing then trimming leaves a string that neither changes again. */
  lemma NormaliseIsStable(raw: string)
    ensures var term := Trim(ToLower(raw));
      Trim(term) == term && ToLower(term) == term
  {
    TrimIdempotent(ToLower(raw));
    TrimLowerCommute(raw);
    ToLowerIdempotent(Trim(raw));
  }

  /** Recording a normalised term keeps every recorded term normalised. */
  lemma RecordKeepsNormalised(queries: seq<string>, term: string)
    requires forall i :: 0 <= i < |queries| ==> Normalised(queries[i])
    requires Normalised(term)
    ensures forall i :: 0 <= i < |queries + [term]| ==> Normalised((queries + [term])[i])
  {
    forall i | 0 <= i < |queries + [term]|
      ensures Normalised((queries + [term])[i])
    {
      if i < |queries| {
        assert (queries + [term])[i] == queries[i];
      }
    }
  }

  /** The search box's own state: the recorded terms and when the last one was recorded. */
  class FaqSearch {
    var searchQueries: seq<string>
    var lastSearchTime: int

    /** Every recorded term is normalised. */
    predicate Valid()
      reads this
    {
      forall i :: 0 <= i < |searchQueries| ==> Normalised(searchQueries[i])
    }

    constructor ()
      ensures searchQueries == [] && lastSearchTime == 0 && Valid()
    {
      searchQueries := [];
      lastSearchTime := 0;
    }

    /**
     * The `input` handler at time `now`: the term is the lower-cased, trimmed
     * box value; a non-empty term more than a second after the last recorded
     * one is recorded. Then the entries are shown by whether they match (an
     * empty term shows all). When the highlight throws, the handler ends there
     * and the no-results message is not touched; otherwise that message is
     * shown iff no entry is. `compiles` says whether the browser accepts
     * `(term)` as a regular expression.
     */
    method OnInput(entries: seq<Entry>, raw: string, now: int, visible: array<bool>, compiles: bool) returns (outcome: SearchOutcome)
      requires Valid() && visible.Length == |entries|
      modifies this, visible
      ensures Valid()
      ensures var term := Trim(ToLower(raw));
        var recorded := term != [] && now - old(lastSearchTime) > DebounceMs;
        searchQueries == old(searchQueries) + (if recorded then [term] else []) &&
        lastSearchTime == (if recorded then now else old(lastSearchTime))
      ensures var term := Trim(ToLower(raw));
        visible[..] == Displayed(entries, term, compiles, old(visible[..])) &&
        (outcome.Threw? <==> Throws(entries, term, compiles)) &&
        (outcome.Completed? ==> outcome.resultCount == CountEntryMatches(entries, term))
      ensures outcome.Completed? ==> (outcome.noResults <==> outcome.resultCount == 0)
    {
      var term := Trim(ToLower(raw));
      if term != [] && now - lastSearchTime > DebounceMs {
        NormaliseIsStable(raw);
        RecordKeepsNormalised(searchQueries, term);
        lastSearchTime := now;
        searchQueries := searchQueries + [term];
      }
      var resultCount, threw := ShowEntries(entries, term, compiles, visible);
      if threw {
        outcome := Threw;
      } else {
        outcome := Completed(resultCount, resultCount == 0);
      }
    }

    /**
     * The handler with the term escaped before it is put in the pattern, so the
     * pattern always compiles: every entry is shown iff it matches, the shown
     * ones are counted, and the no-results message is shown iff none is.
     */
    method OnInputEscaped(entries: seq<Entry>, raw: string, now: int, visible: array<bool>) returns (resultCount: nat, noResults: bool)
      requires Valid() && visible.Length == |entries|
      modifies this, visible
      ensures Valid()
      ensures var term := Trim(ToLower(raw));
        var recorded := term != [] && now - old(lastSearchTime) > DebounceMs;
        searchQueries == old(searchQueries) + (if recorded then [term] else []) &&
        lastSearchTime == (if recorded then now else old(lastSearchTime))
      ensures var term := Trim(ToLower(raw));
        (forall k :: 0 <= k < |entries| ==> visible[k] == EntryMatches(entries[k], term)) &&
        resultCount == CountEntryMatches(entries, term)
      ensures noResults <==> resultCount == 0
    {
      ghost var before := visible[..];
      ghost var term := Trim(ToLower(raw));
      var outcome := OnInput(entries, raw, now, visible, true);
      CompilingShowsExactlyMatches(entries, term, before, visible[..]);
      assert forall k :: 0 <= k < |entries| ==> visible[k] == visible[..][k];
      resultCount, noResults := outcome.resultCount, outcome.noResults;
    }
  }
}
