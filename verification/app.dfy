/** The page controller: the module-level state of the periodic table page
    (the selected element, the active category filter, the theme flag), the
    per-card 'hidden' and 'active' classes, and the event handlers that
    change them. */
module App {
  import opened Wrappers
  import opened JsString
  import opened Elements
  import opened Theme

  /** A card is shown after a search when its record matches the
      lower-cased term and passes the category filter: a search never shows
      a card the filter hides. */
  predicate SearchVisible(term: string, filter: string, e: ElementRecord)
    ensures SearchVisible(term, filter, e) ==> MatchesFilter(filter, e.category)
    ensures SearchVisible(term, filter, e) ==> MatchesSearch(term, e)
  {
    MatchesSearch(term, e) && MatchesFilter(filter, e.category)
  }

  /** The 'hidden' class of a card after the search handler has passed
      over it: unchanged when the card has no catalog record. */
  function HiddenAfterSearch(elements: seq<ElementRecord>, card: Card, term: string, filter: string,
                             wasHidden: bool): bool
  {
    match CardRecord(elements, card)
    case None => wasHidden
    case Some(e) => !SearchVisible(term, filter, e)
  }

  /** On a table rendered from a catalog with distinct atomic numbers,
      the search handler's result reads: a card is visible exactly when the
      record it was rendered from matches the term and passes the filter. */
  lemma SearchOnRenderedTable(elements: seq<ElementRecord>, positions: set<nat>, term: string,
                              filter: string, hidden: seq<bool>)
    requires DistinctNumbers(elements)
    requires |hidden| == |Cards(elements, positions)|
    requires forall i :: 0 <= i < |hidden| && CardRecord(elements, Cards(elements, positions)[i]).Some? ==>
               (hidden[i] <==> !SearchVisible(term, filter, CardRecord(elements, Cards(elements, positions)[i]).value))
    ensures forall i :: 0 <= i < |hidden| ==>
              (!hidden[i] <==> SearchVisible(term, filter, RenderedRecords(elements, positions)[i]))
  {
    forall i | 0 <= i < |hidden|
      ensures !hidden[i] <==> SearchVisible(term, filter, RenderedRecords(elements, positions)[i])
    {
      RenderedCardRecord(elements, positions, i);
    }
  }

  /** An empty search matches every element, so only the filter decides. */
  lemma EmptySearchIsFilterOnly(filter: string, e: ElementRecord)
    ensures SearchVisible(ToLower(""), filter, e) <==> MatchesFilter(filter, e.category)
  {
    IncludesEmpty(ToLower(e.name));
  }

  class PeriodicTable {
    /** The catalog and the atomic numbers that have a grid position. */
    const elements: seq<ElementRecord>
    const positions: set<nat>
    /** The cards in document order; hidden[i] and highlighted[i] are the
        'hidden' and 'active' classes of cards[i]. */
    const cards: seq<Card>
    const hidden: array<bool>
    const highlighted: array<bool>

    /** The detail panel carries the 'active' class. */
    var panelOpen: bool
    var activeElement: Option<ElementRecord>
    var activeFilter: string
    /** The body carries the 'dark-mode' class. */
    var darkMode: bool
    /** localStorage. */
    var store: map<string, string>

    /** The card the selector for the selected element finds. */
    function ActiveCard(): Option<nat>
      reads this
    {
      match activeElement
      case None => None
      case Some(e) => CardIndex(cards, NumberKey(e))
    }

    function ThemeNow(): ThemeState
      reads this
    {
      ThemeState(darkMode, store)
    }

    /** The cards are the rendered records, in catalog order. It involves
        constant fields only, so it holds for the object's whole life. */
    predicate Rendered()
    {
      cards == Cards(elements, positions)
    }

    ghost predicate Valid()
      reads this, highlighted
    {
      && hidden.Length == |cards| && highlighted.Length == |cards| && hidden != highlighted
      && (panelOpen <==> activeElement.Some?)
      && (activeElement.Some? ==> ActiveCard().Some?)
      && forall i :: 0 <= i < highlighted.Length ==> (highlighted[i] <==> ActiveCard() == Some(i))
    }

    /** init: render one visible card per positioned record, nothing
        selected, filter 'all', then restore the theme. */
    constructor (elements: seq<ElementRecord>, positions: set<nat>, store: map<string, string>,
                 systemPrefersDark: bool)
      ensures Valid() && Rendered() && fresh(hidden) && fresh(highlighted)
      ensures this.elements == elements && this.positions == positions
      ensures forall i :: 0 <= i < |cards| ==> !hidden[i]
      ensures activeElement == None && !panelOpen && activeFilter == "all"
      ensures this.store == store && darkMode == ResolveTheme(SavedTheme(store), systemPrefersDark)
    {
      this.elements := elements;
      this.positions := positions;
      var cs := Cards(elements, positions);
      cards := cs;
      hidden := new bool[|cs|](_ => false);
      highlighted := new bool[|cs|](_ => false);
      panelOpen := false;
      activeElement := None;
      activeFilter := "all";
      darkMode := false;
      this.store := store;
      new;
      CheckUserThemePreference(systemPrefersDark);
    }

    /** The search input handler. */
    method HandleSearch(input: string)
      requires Valid()
      modifies hidden
      ensures Valid()
      ensures forall i :: 0 <= i < |cards| && CardRecord(elements, cards[i]).None? ==>
                hidden[i] == old(hidden[i])
      ensures forall i :: 0 <= i < |cards| && CardRecord(elements, cards[i]).Some? ==>
                (hidden[i] <==> !SearchVisible(ToLower(input), activeFilter, CardRecord(elements, cards[i]).value))
    {
      var term := ToLower(input);
      var i := 0;
      while i < |cards|
        modifies hidden
        invariant 0 <= i <= |cards|
        invariant forall j :: i <= j < |cards| ==> hidden[j] == old(hidden[j])
        invariant forall j :: 0 <= j < i ==>
                    hidden[j] == HiddenAfterSearch(elements, cards[j], term, activeFilter, old(hidden[j]))
      {
        var found := CardRecord(elements, cards[i]);
        if found.Some? {
          var e := found.value;
          var matchesSearch := MatchesSearch(term, e);
          var matchesFilter := activeFilter == "all" || e.category == activeFilter;
          hidden[i] := !(matchesSearch && matchesFilter);
        }
        i := i + 1;
      }
    }

    /** A filter button's handler: store the filter and show the cards of
        that category (all of them for 'all'), whatever the search field
        holds. */
    method FilterElements(category: string)
      requires Valid()
      modifies this`activeFilter, hidden
      ensures Valid() && activeFilter == category
      ensures forall i :: 0 <= i < |cards| ==> (hidden[i] <==> !MatchesFilter(category, cards[i].category))
      ensures Rendered() ==> forall i :: 0 <= i < |cards| ==>
                (!hidden[i] <==> MatchesFilter(category, RenderedRecords(elements, positions)[i].category))
    {
      activeFilter := category;
      var i := 0;
      while i < |cards|
        modifies hidden
        invariant 0 <= i <= |cards|
        invariant forall j :: 0 <= j < i ==> (hidden[j] <==> !MatchesFilter(category, cards[j].category))
      {
        var isVisible := category == "all" || cards[i].category == category;
        hidden[i] := !isVisible;
        i := i + 1;
      }
    }

    /** A card's click handler: select the element, open the panel and
        move the highlight to its card. Only rendered cards call it. */
    method ShowElementDetails(e: ElementRecord)
      requires Valid()
      requires CardIndex(cards, NumberKey(e)).Some?
      modifies this`activeElement, this`panelOpen, highlighted
      ensures Valid()
      ensures activeElement == Some(e) && panelOpen
      ensures forall i :: 0 <= i < |cards| ==> (highlighted[i] <==> CardIndex(cards, NumberKey(e)) == Some(i))
    {
      activeElement := Some(e);
      panelOpen := true;
      var i := 0;
      while i < highlighted.Length
        modifies highlighted
        invariant 0 <= i <= highlighted.Length
        invariant forall j :: 0 <= j < i ==> !highlighted[j]
      {
        if highlighted[i] {
          highlighted[i] := false;
        }
        i := i + 1;
      }
      var k := CardIndex(cards, NumberKey(e)).value;
      highlighted[k] := true;
    }

    /** What the three close paths do: close the panel and, when an
        element is selected, remove its card's highlight and clear it. */
    method CloseDetails()
      requires Valid()
      modifies this`activeElement, this`panelOpen, highlighted
      ensures Valid() && !panelOpen && activeElement == None
      ensures forall i :: 0 <= i < |cards| ==> !highlighted[i]
    {
      panelOpen := false;
      if activeElement.Some? {
        var k := CardIndex(cards, NumberKey(activeElement.value)).value;
        highlighted[k] := false;
        activeElement := None;
      }
    }

    /** The close button. */
    method OnCloseButtonClick()
      requires Valid()
      modifies this`activeElement, this`panelOpen, highlighted
      ensures Valid() && !panelOpen && activeElement == None
      ensures forall i :: 0 <= i < |cards| ==> !highlighted[i]
    {
      CloseDetails();
    }

    /** A click on the panel: it closes only when the click landed on the
        panel's backdrop itself, not on its content. */
    method OnPanelClick(targetIsPanel: bool)
      requires Valid()
      modifies this`activeElement, this`panelOpen, highlighted
      ensures Valid()
      ensures targetIsPanel ==> !panelOpen && activeElement == None
      ensures targetIsPanel ==> forall i :: 0 <= i < |cards| ==> !highlighted[i]
      ensures !targetIsPanel ==>
                panelOpen == old(panelOpen) && activeElement == old(activeElement) && highlighted[..] == old(highlighted[..])
    {
      if targetIsPanel {
        CloseDetails();
      }
    }

    /** A key press: Escape closes an open panel; any other key, or Escape
        while the panel is closed, changes nothing. */
    method OnKeyDown(key: string)
      requires Valid()
      modifies this`activeElement, this`panelOpen, highlighted
      ensures Valid()
      ensures key == "Escape" && old(panelOpen) ==> !panelOpen && activeElement == None
      ensures key == "Escape" && old(panelOpen) ==> forall i :: 0 <= i < |cards| ==> !highlighted[i]
      ensures !(key == "Escape" && old(panelOpen)) ==>
                panelOpen == old(panelOpen) && activeElement == old(activeElement) && highlighted[..] == old(highlighted[..])
    {
      if key == "Escape" && panelOpen {
        CloseDetails();
      }
    }

    /** The theme button: flip the flag and persist it. */
    method ToggleTheme()
      modifies this`darkMode, this`store
      ensures ThemeNow() == Toggle(old(ThemeNow()))
    {
      darkMode := !darkMode;
      store := store[ThemeKey := if darkMode then "true" else "false"];
    }

    /** Start-up: a stored 'true' or 'false' decides the theme, otherwise
        the system's colour-scheme preference does. */
    method CheckUserThemePreference(systemPrefersDark: bool)
      modifies this`darkMode
      ensures darkMode == ResolveTheme(SavedTheme(store), systemPrefersDark)
    {
      var savedTheme := SavedTheme(store);
      if savedTheme == Some("true") {
        darkMode := true;
      } else if savedTheme == Some("false") {
        darkMode := false;
      } else {
        darkMode := systemPrefersDark;
      }
    }
  }
}

/** A page with hydrogen and helium: the filter shows one category, a
    search for "He" keeps only helium, a later click on 'all' shows
    hydrogen again although the search field still says "He", a card
    click opens the panel that the close paths shut again, and the theme
    follows the system until a toggle saves it. */
module Scenario {
  import opened Wrappers
  import opened JsString
  import opened Theme
  import opened Elements
  import opened App

  function Hydrogen(): ElementRecord { ElementRecord(1, "H", "Hydrogen", "nonmetal") }

  function Helium(): ElementRecord { ElementRecord(2, "He", "Helium", "noble-gas") }

  lemma BothRendered()
    ensures RenderedRecords([Hydrogen(), Helium()], {1, 2}) == [Hydrogen(), Helium()]
    ensures DistinctNumbers([Hydrogen(), Helium()])
  {
  }

  /** A two-character term is not included in a string where its two
      characters never stand side by side. */
  lemma {:induction false} NotIncludesPair(s: string, a: char, b: char)
    requires forall i :: 0 <= i < |s| - 1 ==> s[i] != a || s[i + 1] != b
    ensures !Includes(s, [a, b])
    decreases |s|
  {
    if |s| >= 2 {
      assert s[..2][0] == s[0] && s[..2][1] == s[1];
    }
    if |s| > 0 {
      NotIncludesPair(s[1..], a, b);
    }
  }

  lemma HeMatchesOnlyHelium()
    ensures ToLower("He") == "he"
    ensures MatchesSearch("he", Helium()) && !MatchesSearch("he", Hydrogen())
  {
    assert ToLower("He") == "he";
    assert ToLower("Helium")[..2] == "he";
    assert ToLower("Hydrogen") == "hydrogen";
    NotIncludesPair("hydrogen", 'h', 'e');
    assert ToLower("H") == "h";
    NotIncludesPair("h", 'h', 'e');
    assert NatToString(1) == "1";
    NotIncludesPair("1", 'h', 'e');
  }

  /** The noble-gas filter shows helium only. */
  method FilterNobleGases()
  {
    var catalog := [Hydrogen(), Helium()];
    BothRendered();
    var page := new PeriodicTable(catalog, {1, 2}, map[], false);
    page.FilterElements("noble-gas");
    assert page.hidden[0] && !page.hidden[1];
  }

  /** Searching "He" hides hydrogen; the 'all' button shows it again while
      the search field still holds "He". */
  method SearchThenFilter()
  {
    var catalog := [Hydrogen(), Helium()];
    BothRendered();
    HeMatchesOnlyHelium();
    var page := new PeriodicTable(catalog, {1, 2}, map[], false);
    page.HandleSearch("He");
    SearchOnRenderedTable(catalog, {1, 2}, "he", "all", page.hidden[..]);
    assert page.hidden[0] && !page.hidden[1];
    page.FilterElements("all");
    assert !page.hidden[0] && !page.hidden[1];
  }

  /** Clicking helium's card selects it and highlights that card alone;
      Escape closes the panel and a second Escape changes nothing. */
  method SelectThenEscape()
  {
    var catalog := [Hydrogen(), Helium()];
    BothRendered();
    RenderedHasCard(catalog, {1, 2}, 1);
    var page := new PeriodicTable(catalog, {1, 2}, map[], false);
    page.ShowElementDetails(Helium());
    assert NatToString(1) == "1" && NatToString(2) == "2";
    assert page.panelOpen && !page.highlighted[0] && page.highlighted[1];
    page.OnKeyDown("Escape");
    assert !page.panelOpen && page.activeElement.None? && !page.highlighted[1];
    page.OnKeyDown("Escape");
    assert !page.panelOpen;
  }

  /** A click inside the open panel keeps hydrogen selected; the close
      button then closes the panel and removes the highlight. */
  method SelectThenCloseButton()
  {
    var catalog := [Hydrogen(), Helium()];
    BothRendered();
    RenderedHasCard(catalog, {1, 2}, 0);
    var page := new PeriodicTable(catalog, {1, 2}, map[], false);
    page.ShowElementDetails(Hydrogen());
    page.OnPanelClick(false);
    assert page.panelOpen && page.activeElement == Some(Hydrogen()) && page.highlighted[0];
    page.OnCloseButtonClick();
    assert !page.panelOpen && page.activeElement.None? && !page.highlighted[0];
  }

  /** With nothing saved and a dark system preference the page starts
      dark; two clicks on the theme button bring it back to dark, now
      saved as 'true', and the panel still opens afterwards. */
  method ThemeFromSystemThenToggle()
  {
    var catalog := [Hydrogen(), Helium()];
    BothRendered();
    RenderedHasCard(catalog, {1, 2}, 1);
    var page := new PeriodicTable(catalog, {1, 2}, map[], true);
    assert page.darkMode;
    page.ToggleTheme();
    assert !page.darkMode && page.store[ThemeKey] == "false";
    page.ToggleTheme();
    assert page.darkMode && page.store[ThemeKey] == "true";
    page.ShowElementDetails(Helium());
    assert page.panelOpen && page.darkMode;
  }
}
