# Interactive periodic table: the page controller

`app.js` drives a periodic-table web page. It renders one card per chemical element that has a grid position. A search box hides the cards that do not match. Filter buttons show one category. A click on a card opens a detail panel and highlights the card. A theme button switches between dark and light and remembers the choice.

This project models the logic inside that DOM wiring:

- `PeriodicTable` (module `App`) is a class holding the page's module-level state: `activeElement`, `activeFilter`, whether the detail panel is open, the theme flag and the persisted store. Each card's `hidden` and `active` classes are two `bool` arrays aligned with the card list. Each event handler is a method with a loop or an assignment, as in the source.
- The string built-ins the handlers use are functions in `JsString`: `toLowerCase`, `includes`, `toString`, `parseInt`, `split` and `join`.
- `Elements` holds the catalog records, the rendering filter, the lookups (`elements.find` and `querySelector` by atomic number) and the search and filter predicates.
- `CategoryName` holds `formatCategoryName`.
- `Theme` holds the pure rules behind `toggleTheme` and `checkUserThemePreference`.
- `Scenario` holds clients that build a hydrogen/helium page and drive the handlers:
  - `FilterNobleGases` applies a category filter.
  - `SearchThenFilter` searches for "He" and then applies the 'all' filter.
  - `SelectThenEscape` and `SelectThenCloseButton` click a card and then close the panel with Escape, or with the close button after a click inside the panel.
  - `ThemeFromSystemThenToggle` starts a page with nothing saved on a dark system, then toggles the theme twice.

A filter click does not re-apply the search. `filterElements` (app.js:164-173) looks only at the category, so a card hidden by the search text comes back. `FilterElements` makes a card visible exactly when it passes the category filter. `Scenario.SearchThenFilter` shows hydrogen reappearing under 'all' while the search text "He" would hide it.

## Model

| member | source | states |
|---|---|---|
| `JsString.ToLower` | app.js:143 | `toLowerCase` (also app.js:151-152) keeps the length, leaves no upper-case letter, turns each upper-case letter into its own lower-case letter (the one `toUpperCase` maps back to it) and keeps every other character |
| `JsString.IncludesIffOccurs` | app.js:156 | `includes(s, t)` holds exactly when `t` occurs at some index of `s` |
| `JsString.Includes` | app.js:156 | a string includes every prefix of itself, and it includes nothing longer than itself |
| `JsString.IncludesEmpty` | app.js:156 | every string includes the empty string, so an empty search term matches everything |
| `JsString.NatToString` | app.js:153 | an atomic number's text is a non-empty run of decimal digits with no leading zero |
| `JsString.ParseInt` | app.js:147 | on the plain decimal texts a card stores, `parseInt` reads the leading digits and gives NaN (None) exactly when the text does not start with a digit |
| `JsString.ParseIntOfNatToString` | app.js:147 | `parseInt` of the number text a card stores (app.js:36) gives the atomic number back |
| `JsString.NatToStringInjective` | app.js:138 | two atomic numbers have the same text only if they are equal, so a number selector names one element |
| `JsString.Split` | app.js:178 | `split('-')` gives at least one piece, and no piece contains the separator |
| `JsString.Join` | app.js:180 | `join` of no pieces is empty; with a one-character separator, the result is as long as the pieces together plus one separator between each two |
| `JsString.JoinSplit` | app.js:178-180 | joining the pieces of a split with the same separator rebuilds the string |
| `JsString.SplitJoin` | app.js:178-180 | splitting a join of separator-free pieces gives the pieces back |
| `Elements.RenderedRecords` | app.js:28-29 | a record gets a card exactly when it is in the catalog and its atomic number has a position |
| `Elements.PositionedIndices` | app.js:28-29 | the catalog indices whose records have a position, each once, in increasing order |
| `Elements.RenderedRecordsInOrder` | app.js:28-55 | the k-th card's record is the record at the k-th positioned catalog index, so cards follow catalog order (`forEach` then `appendChild`) |
| `Elements.RenderedRecordsCount` | app.js:28-55 | a record gets as many cards as it occurs in the catalog when its number has a position, and none otherwise |
| `Elements.Cards` | app.js:34-37 | one card per rendered record, in the same order; each card's data attributes hold its record's number text and category |
| `Elements.FindByNumber` | app.js:147 | `elements.find` succeeds exactly when some record has the number, and it returns a catalog record with that number |
| `Elements.FindByNumberFirst` | app.js:147 | the record found is the first in catalog order with the number, as `find` returns |
| `Elements.FindByNumberDistinct` | app.js:147 | with distinct atomic numbers, looking up a record's number returns that record |
| `Elements.CardRecord` | app.js:146-149 | a card has a record only if its number text parses to a catalog record's number; it has none when the text does not parse or no record has the number |
| `Elements.RenderedCardRecord` | app.js:146-149 | on a table rendered from a catalog with distinct numbers, every card leads back to the record it was rendered from |
| `Elements.CardIndex` | app.js:138 | `querySelector` on a number finds the first card in document order with that number, or none when no card has it |
| `Elements.RenderedHasCard` | app.js:138 | every rendered record (each card's click handler passes its own record, app.js:52) has a card that the selector on its number finds, so a card click can always highlight its card |
| `Elements.MatchesSearch` | app.js:151-156 | the empty term matches every record, and a match needs a field at least as long as the term |
| `Elements.MatchesFilter` | app.js:157 | (also app.js:169) 'all' lets every category through; any other filter lets exactly its own category through |
| `CategoryName.Capitalize` | app.js:179 | a capitalised word keeps its length, has its first character upper-cased and the rest unchanged |
| `CategoryName.FormatCategoryName` | app.js:176-181 | the label is exactly as long as the category; `FormatCategoryNameIsPointwise` gives it character by character |
| `CategoryName.FormatUnfold` | app.js:176-181 | the label is the first hyphen-free piece capitalised, then a space, then the label of the rest |
| `CategoryName.FormatCategoryNameIsPointwise` | app.js:176-181 | the label has the category's length; each hyphen becomes a space, each piece's first character is upper-cased, and the rest is kept |
| `CategoryName.FormatCategoryNameProperties` | app.js:176-181 | for a category without spaces: same length, a space exactly where a hyphen was, piece starts upper-cased, other characters unchanged |
| `CategoryName.NobleGasLabel` | app.js:176-181 | "noble-gas" is labelled "Noble Gas" |
| `Theme.SavedTheme` | app.js:191 | the saved value is present exactly when the store has the key `darkMode`, and it is that key's string |
| `Theme.ResolveTheme` | app.js:193-201 | a saved 'true' gives dark, a saved 'false' gives light, and anything else (or nothing) gives the system preference |
| `Theme.Toggle` | app.js:184-187 | toggling negates the flag, stores the new flag's string, and leaves every other key alone |
| `Theme.ToggleTwice` | app.js:185-186 | two toggles restore the flag and leave it persisted; from a persisted state they restore flag and store exactly |
| `Theme.ToggleSurvivesReload` | app.js:186 | what a toggle stores is what the next start-up resolves, whatever the system preference |
| `App.SearchVisible` | app.js:156-159 | a search never shows a card that the filter or the term rejects |
| `App.EmptySearchIsFilterOnly` | app.js:156-159 | with an empty search, a card is visible exactly when it passes the category filter |
| `App.PeriodicTable.constructor` | app.js:12-20 | start-up renders (`Rendered()`) every positioned record as a visible card, with no selection, the panel closed and the filter 'all', and resolves the theme from the store and the system preference |
| `App.PeriodicTable.HandleSearch` | app.js:142-161 | a card whose number finds no catalog record keeps its hidden flag; any other card is visible exactly when the record found matches the lower-cased input and passes the active filter |
| `App.SearchOnRenderedTable` | app.js:145-159 | on a table rendered from a catalog with distinct numbers, the search result means: a card is visible exactly when its own record matches the term and passes the filter |
| `App.PeriodicTable.FilterElements` | app.js:164-173 | stores the filter; afterwards a card is visible exactly when the filter is 'all' or equals its category (its record's category, on a rendered table), whatever the earlier search |
| `App.PeriodicTable.ShowElementDetails` | app.js:111-138 | selects the element and opens the panel; exactly the element's card is highlighted, replacing any earlier highlight |
| `App.PeriodicTable.CloseDetails` | app.js:63-67 | closes the panel, clears the selection and leaves no card highlighted |
| `App.PeriodicTable.OnCloseButtonClick` | app.js:62-68 | the close button closes the panel, clears the selection and removes the highlight |
| `App.PeriodicTable.OnPanelClick` | app.js:71-79 | a click on the panel backdrop closes as above; a click inside the panel changes nothing |
| `App.PeriodicTable.OnKeyDown` | app.js:99-107 | Escape with the panel open closes as above; Escape with the panel closed, or any other key, changes nothing |
| `App.PeriodicTable.ToggleTheme` | app.js:184-187 | the flag and the store after the click are `Theme.Toggle` of those before |
| `App.PeriodicTable.CheckUserThemePreference` | app.js:189-202 | the flag becomes `Theme.ResolveTheme` of the stored value and the system preference |
| `Scenario.BothRendered` | app.js:28-29 | hydrogen and helium, both positioned, are both rendered, in catalog order |
| `Scenario.NotIncludesPair` | app.js:156 | a two-character term is not included in a string where those characters are never adjacent |
| `Scenario.HeMatchesOnlyHelium` | app.js:156 | the search "He" matches helium and not hydrogen |

`Rendered()` says that the cards are the rendered records, in catalog order. It reads constant fields only, so it holds for the object's whole life once the constructor establishes it. Every `PeriodicTable` method keeps the object invariant `Valid()`:

- the panel is open exactly when an element is selected;
- the highlighted cards are exactly the selected element's card, or none.

## Left out

- DOM construction and styling are not modelled: `innerHTML`, grid row and column, class names, the detail panel's text fields and the `.element-card` colour class (app.js:23-57, 115-131). A card is modelled as its two data attributes plus the `hidden` and `active` flags.
- The filter buttons' own `active` class (app.js:89-91) is presentation only and is not modelled.
- Listener registration and `DOMContentLoaded` (app.js:60-108, 205) are not modelled. Each handler is a method. The outside click takes a boolean saying whether the click target was the panel itself, and the key handler takes the key name.
- `localStorage` is the `store` field. `window.matchMedia` is the `systemPrefersDark` argument of the constructor and of `CheckUserThemePreference`.
- `elements.js` is not part of this model. The catalog is an arbitrary sequence of records. The position map is the set of atomic numbers that have a position; the coordinates are layout only.
- Records keep only atomic number, symbol, name and category. Weight, density, temperatures, electronegativity, electron configuration, discovery year and description are display text.
- NatToString: atomic numbers are taken as unbounded naturals, and `NatToString` always gives plain decimal digits. JavaScript numbers are exact only below 2^53, and `toString` switches to exponent notation from 10^21 on (`"1e+21"`, which `parseInt` reads as 1). So `NatToString` and `ParseIntOfNatToString` describe JavaScript only for numbers below 2^53, a range the catalog's atomic numbers stay far inside.
- Case mapping covers ASCII letters only; Unicode case mapping is not modelled.
- `ParseInt` reads the leading decimal digits only. JavaScript's `parseInt` without a radix also skips leading white space, accepts a sign, and reads a "0x"/"0X" prefix as hexadecimal (`parseInt("0x1")` is 1 and `parseInt("0x")` is NaN, where the model gives `Some(0)` for both). Card attributes are always written by `toString` of a non-negative number, in plain decimal, so none of these cases arise.
- `ShowElementDetails` requires the element to have a card. Only a card's click handler calls it (app.js:52), and `Elements.RenderedHasCard` shows every rendered record meets the requirement. For an element without a card, the source's `querySelector` would return null and the call would throw.
- The search box's text is not state here. `HandleSearch` receives the input's value, as the event does.
