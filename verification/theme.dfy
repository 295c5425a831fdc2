/** The light/dark theme: the `data-theme` marker on the document root and the "theme"
    entry of local storage. */
module Theme {
  import opened Wrappers

  /** The one value the page writes to storage and to the root marker. */
  const Dark: string := "dark"

  /** `dark`: the root element carries `data-theme="dark"`.
      `stored`: the value under the "theme" key of local storage, if any. */
  datatype Appearance = Appearance(dark: bool, stored: Option<string>)

  /** The marker and the stored entry agree: "dark" is stored exactly when dark is applied,
      and nothing is stored otherwise. */
  predicate InStep(a: Appearance)
  {
    a.stored == if a.dark then Some(Dark) else None
  }

  /** The page start: dark is applied when the saved entry is "dark"; storage is only read. */
  function Startup(saved: Option<string>): (a: Appearance)
    ensures a.dark <==> saved == Some(Dark)
    ensures a.stored == saved
    ensures saved == None || saved == Some(Dark) <==> InStep(a)
  {
    if saved == Some(Dark) then Appearance(true, saved) else Appearance(false, saved)
  }

  /** The theme button: removes the marker and the entry when dark, sets both otherwise. */
  function Toggle(a: Appearance): (b: Appearance)
    ensures b.dark == !a.dark
    ensures InStep(b)
    ensures b.stored == Some(Dark) <==> b.dark
  {
    if a.dark then Appearance(false, None) else Appearance(true, Some(Dark))
  }

  /** Two toggles always restore the applied theme, and restore storage too exactly when the
      two were in step: a stale entry left from startup (say "light") is erased. */
  lemma ToggleTwice(a: Appearance)
    ensures Toggle(Toggle(a)).dark == a.dark
    ensures Toggle(Toggle(a)) == a <==> InStep(a)
  {
  }
}
