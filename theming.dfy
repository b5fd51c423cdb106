/** The light/dark theme: one flag, the `light` class on `body`, persisted in
    one `localStorage` slot. Storage is a map; the light-scheme media query is a
    boolean handed in (false when `matchMedia` is unavailable). */
module Theming {

  const ThemeKey: string := "portfolio:theme"

  /** The mode the toggle stores for a flag value. */
  function ModeName(light: bool): (m: string)
    ensures (m == "light") == light
    ensures m != ""
  {
    if light then "light" else "dark"
  }

  /** The mode `initTheme` applies: the stored string when it is non-empty
      (`getItem` gives null for a missing key, and "" is falsy), otherwise the
      one the light-scheme preference picks. */
  function InitialMode(storage: map<string, string>, prefersLight: bool): (m: string)
    ensures m != ""
    ensures ThemeKey in storage && storage[ThemeKey] != "" ==> m == storage[ThemeKey]
    ensures (ThemeKey !in storage || storage[ThemeKey] == "") ==> m == ModeName(prefersLight)
  {
    if ThemeKey in storage && storage[ThemeKey] != "" then storage[ThemeKey]
    else ModeName(prefersLight)
  }

  /** After `applyTheme(m)`, the next page load starts from `m`, unless `m` is
      the empty string, which the next load ignores. */
  lemma ReloadAfterApply(storage: map<string, string>, m: string, prefersLight: bool)
    ensures InitialMode(storage[ThemeKey := m], prefersLight) == if m != "" then m else ModeName(prefersLight)
  {
  }

  /** The mode `initTheme` stores is the one the next load picks up again. */
  lemma InitIsStable(storage: map<string, string>, prefersLight: bool, prefersLightLater: bool)
    ensures var m := InitialMode(storage, prefersLight);
            InitialMode(storage[ThemeKey := m], prefersLightLater) == m
  {
  }

  /** After a toggle, the next page load restores the flag the toggle set,
      whatever the preference is then. */
  lemma ReloadAfterToggle(storage: map<string, string>, light: bool, prefersLight: bool)
    ensures (InitialMode(storage[ThemeKey := ModeName(light)], prefersLight) == "light") == light
  {
  }

  /** The page's theme state: whether `body` has class `light`, and the
      contents of `localStorage`. */
  class ThemeStore {
    var light: bool
    var storage: map<string, string>

    constructor (light: bool, storage: map<string, string>)
      ensures this.light == light && this.storage == storage
    {
      this.light := light;
      this.storage := storage;
    }

    /** `applyTheme(mode)`: class `light` is set exactly for "light", and the
        mode is stored as given. */
    method ApplyTheme(mode: string)
      modifies this
      ensures light == (mode == "light")
      ensures storage == old(storage)[ThemeKey := mode]
    {
      if mode == "light" {
        light := true;
      } else {
        light := false;
      }
      storage := storage[ThemeKey := mode];
    }

    /** `initTheme()`: apply the stored mode if there is a non-empty one,
        otherwise the preferred mode. */
    method InitTheme(prefersLight: bool)
      modifies this
      ensures light == (InitialMode(old(storage), prefersLight) == "light")
      ensures storage == old(storage)[ThemeKey := InitialMode(old(storage), prefersLight)]
      ensures storage[ThemeKey] != ""
    {
      var stored := if ThemeKey in storage then storage[ThemeKey] else "";
      if stored != "" {
        ApplyTheme(stored);
        return;
      }
      ApplyTheme(if prefersLight then "light" else "dark");
    }

    /** The toggle button: flip class `light` and store the mode it now shows. */
    method Toggle() returns (isLight: bool)
      modifies this
      ensures light == !old(light) && isLight == light
      ensures storage == old(storage)[ThemeKey := ModeName(light)]
    {
      light := !light;
      isLight := light;
      storage := storage[ThemeKey := if isLight then "light" else "dark"];
    }
  }

  /** Two clicks on the toggle restore the flag, and leave stored the mode that
      flag shows. */
  method ToggleTwice(t: ThemeStore)
    modifies t
    ensures t.light == old(t.light)
    ensures t.storage == old(t.storage)[ThemeKey := ModeName(t.light)]
  {
    var _ := t.Toggle();
    var _ := t.Toggle();
  }

  /** A page load after `applyTheme(mode)` with non-empty `mode`: the new page
      shows the same flag whatever its preference. */
  method ReloadAfterApplyTheme(t: ThemeStore, mode: string, prefersLight: bool) returns (reloaded: ThemeStore)
    requires mode != ""
    modifies t
    ensures fresh(reloaded)
    ensures reloaded.light == (mode == "light") && reloaded.light == t.light
  {
    t.ApplyTheme(mode);
    reloaded := new ThemeStore(false, t.storage);
    reloaded.InitTheme(prefersLight);
  }
}
