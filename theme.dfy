/** The light/dark theme: how the initial value is chosen and what a click on
    the theme toggle turns it into. */
module Theme {
  import opened Wrappers

  /** The local-storage key the theme is persisted under. */
  const ThemeKey := "theme"
  const Light := "light"
  const Dark := "dark"

  /** `localStorage.getItem(key)`: null when the key was never stored. */
  function GetItem(storage: map<string, string>, key: string): Option<string> {
    if key in storage then Some(storage[key]) else None
  }

  /** JavaScript truthiness of a `getItem` result: null and "" are falsy. */
  predicate Truthy(saved: Option<string>) {
    saved.Some? && saved.value != ""
  }

  /** `saved || (prefersDark ? 'dark' : 'light')`: a non-empty stored value
      wins; otherwise the operating system's dark-mode preference decides. */
  function ResolveTheme(saved: Option<string>, prefersDark: bool): (theme: string)
    ensures theme != ""
    ensures Truthy(saved) ==> theme == saved.value
    ensures !Truthy(saved) ==> (theme == Dark <==> prefersDark)
    ensures !Truthy(saved) ==> (theme == Light <==> !prefersDark)
  {
    if Truthy(saved) then saved.value else if prefersDark then Dark else Light
  }

  /** `theme === 'light' ? 'dark' : 'light'`: light becomes dark and every
      other value, including one read from storage, becomes light. */
  function Toggled(theme: string): (next: string)
    ensures next == Light || next == Dark
    ensures next == Dark <==> theme == Light
  {
    if theme == Light then Dark else Light
  }

  /** Toggling twice restores the theme exactly when it was light or dark. */
  lemma ToggleTwice(theme: string)
    ensures Toggled(Toggled(theme)) == theme <==> theme == Light || theme == Dark
  {
  }

  /** From the first toggle on the theme alternates between two values. */
  lemma ToggleAlternates(theme: string)
    ensures Toggled(Toggled(Toggled(theme))) == Toggled(theme)
    ensures Toggled(Toggled(theme)) != Toggled(theme)
  {
  }
}
