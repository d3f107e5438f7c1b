/** The dark/light theme: the flag the page keeps as the 'dark-mode' class
    on the body, and the string it persists under the key 'darkMode'. */
module Theme {
  import opened Wrappers

  const ThemeKey: string := "darkMode"

  /** The string toggleTheme writes for a flag. */
  function StoredFlag(dark: bool): string
  {
    if dark then "true" else "false"
  }

  /** localStorage.getItem('darkMode'): None stands for null. */
  function SavedTheme(store: map<string, string>): (r: Option<string>)
    ensures r.Some? <==> ThemeKey in store
    ensures r.Some? ==> r.value == store[ThemeKey]
  {
    if ThemeKey in store then Some(store[ThemeKey]) else None
  }

  /** checkUserThemePreference: a saved 'true' or 'false' decides; any other
      saved text, or none, leaves the decision to the system preference. */
  function ResolveTheme(saved: Option<string>, systemPrefersDark: bool): (dark: bool)
    ensures saved == Some("true") ==> dark
    ensures saved == Some("false") ==> !dark
    ensures saved != Some("true") && saved != Some("false") ==> dark == systemPrefersDark
  {
    match saved
    case Some(s) => if s == "true" then true else if s == "false" then false else systemPrefersDark
    case None => systemPrefersDark
  }

  /** The persisted part of the page's state next to the flag. */
  datatype ThemeState = ThemeState(dark: bool, store: map<string, string>)

  /** The stored value agrees with the flag. */
  predicate Persisted(t: ThemeState)
  {
    ThemeKey in t.store && t.store[ThemeKey] == StoredFlag(t.dark)
  }

  /** toggleTheme: flip the flag and store the new one. */
  function Toggle(t: ThemeState): (r: ThemeState)
    ensures r.dark == !t.dark && Persisted(r)
    ensures forall k :: k != ThemeKey ==> (k in r.store <==> k in t.store)
    ensures forall k :: k != ThemeKey && k in t.store ==> r.store[k] == t.store[k]
  {
    var dark := !t.dark;
    ThemeState(dark, t.store[ThemeKey := StoredFlag(dark)])
  }

  /** Toggling twice restores the flag and leaves it persisted; from a
      persisted state it restores the whole state. */
  lemma ToggleTwice(t: ThemeState)
    ensures Toggle(Toggle(t)).dark == t.dark && Persisted(Toggle(Toggle(t)))
    ensures Persisted(t) ==> Toggle(Toggle(t)) == t
  {
    if Persisted(t) {
      assert Toggle(Toggle(t)).store == t.store;
    }
  }

  /** What toggleTheme stores is what the next start-up reads back, whatever
      the system preference then is. */
  lemma ToggleSurvivesReload(t: ThemeState, systemPrefersDark: bool)
    ensures ResolveTheme(SavedTheme(Toggle(t).store), systemPrefersDark) == Toggle(t).dark
  {
  }
}
