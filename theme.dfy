/**
 * The light/dark theme (script.js): the mode in force, the preference saved
 * in `localStorage` under `attendance-theme`, and the three events that move
 * them: page start, the toggle button and a change of the system preference.
 * `localStorage` is a map from keys to strings; the system preference
 * (`prefers-color-scheme: dark`) is an input.
 */
module Theme {

  const ThemeKey := "attendance-theme"

  /** The value `toggleDarkMode` saves for a mode. */
  function StoredValue(dark: bool): string {
    if dark then "dark" else "light"
  }

  /** `localStorage.getItem('attendance-theme')` is truthy: a preference is saved. */
  predicate HasSavedPreference(storage: map<string, string>) {
    ThemeKey in storage && storage[ThemeKey] != ""
  }

  /**
   * The mode `initializeDarkMode` picks: dark when "dark" is saved, or when no
   * preference is saved and the system prefers dark.
   */
  function InitialDarkMode(storage: map<string, string>, prefersDark: bool): (dark: bool)
    ensures HasSavedPreference(storage) ==> (dark <==> storage[ThemeKey] == "dark")
    ensures !HasSavedPreference(storage) ==> dark == prefersDark
  {
    (ThemeKey in storage && storage[ThemeKey] == "dark") || (!HasSavedPreference(storage) && prefersDark)
  }

  /** After the toggle has saved a mode, the next page start comes back in that mode, whatever the system prefers. */
  lemma ToggleSurvivesReload(storage: map<string, string>, dark: bool, prefersDark: bool)
    ensures InitialDarkMode(storage[ThemeKey := StoredValue(dark)], prefersDark) == dark
  {
  }

  /** A saved value other than "dark" (such as "light") starts the page light even when the system prefers dark. */
  lemma SavedLightWins(storage: map<string, string>)
    requires HasSavedPreference(storage) && storage[ThemeKey] != "dark"
    ensures !InitialDarkMode(storage, true)
  {
  }

  /** The theme state of one page. */
  class ThemeState {
    var isDarkMode: bool
    var storage: map<string, string>

    /** A page before `initializeDarkMode` has run: light, over the given storage. */
    constructor(storage0: map<string, string>)
      ensures !isDarkMode && storage == storage0
    {
      isDarkMode := false;
      storage := storage0;
    }

    /** The state half of `applyTheme(dark)`: the mode becomes `dark`. */
    method ApplyTheme(dark: bool)
      modifies this
      ensures isDarkMode == dark && storage == old(storage)
    {
      isDarkMode := dark;
    }

    /** `initializeDarkMode`, with the system preference at page start. */
    method InitializeDarkMode(prefersDark: bool)
      modifies this
      ensures isDarkMode == InitialDarkMode(old(storage), prefersDark)
      ensures storage == old(storage)
    {
      var dark := InitialDarkMode(storage, prefersDark);
      ApplyTheme(dark);
    }

    /** `toggleDarkMode`: flip the mode and save it. */
    method ToggleDarkMode()
      modifies this
      ensures isDarkMode == !old(isDarkMode)
      ensures storage == old(storage)[ThemeKey := StoredValue(isDarkMode)]
      ensures HasSavedPreference(storage)
    {
      var dark := !isDarkMode;
      storage := storage[ThemeKey := StoredValue(dark)];
      ApplyTheme(dark);
    }

    /** The `change` listener on `prefers-color-scheme: dark`: followed only while nothing is saved. */
    method SystemThemeChanged(matches: bool)
      modifies this
      ensures storage == old(storage)
      ensures !HasSavedPreference(old(storage)) ==> isDarkMode == matches
      ensures HasSavedPreference(old(storage)) ==> isDarkMode == old(isDarkMode)
    {
      if !HasSavedPreference(storage) {
        ApplyTheme(matches);
      }
    }
  }

  /** Toggling twice restores the mode, and leaves the second mode saved. */
  method ToggleTwice(t: ThemeState)
    modifies t
    ensures t.isDarkMode == old(t.isDarkMode)
    ensures t.storage == old(t.storage)[ThemeKey := StoredValue(old(t.isDarkMode))]
  {
    t.ToggleDarkMode();
    t.ToggleDarkMode();
  }

  /** Once the toggle has been used, system changes no longer move the mode. */
  method ToggleThenSystemChange(t: ThemeState, matches: bool)
    modifies t
    ensures t.isDarkMode == !old(t.isDarkMode)
  {
    t.ToggleDarkMode();
    t.SystemThemeChanged(matches);
  }
}
