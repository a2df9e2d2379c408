/** The persisted light/dark theme: the `data-theme` marker on the document
    root, the preference kept in `localStorage`, the rule applied at load and
    the toggle handler. */
module Theme {
  import opened Dom

  datatype Theme = Light | Dark

  /** `THEME_KEY`, the storage key of the preference. */
  const ThemeKey: string := "teacher-portfolio-theme"

  /** The theme's name, as stored and as the marker spells it. */
  function Name(t: Theme): (s: string)
    ensures s == "light" <==> t == Light
    ensures s == "light" || s == "dark"
  {
    match t
    case Light => "light"
    case Dark => "dark"
  }

  function Opposite(t: Theme): (u: Theme)
    ensures u != t
  {
    if t == Light then Dark else Light
  }

  /** `applyTheme(theme)`: the root's `data-theme` attribute afterwards. Only
      the exact string "light" sets the marker; anything else, or nothing,
      removes it. */
  function ApplyTheme(theme: Option<string>): Option<string> {
    if theme == Some("light") then Some("light") else None
  }

  /** The theme the toggle handler reads off the root attribute: light only
      when the attribute is exactly "light". */
  function Applied(dataTheme: Option<string>): Theme {
    if dataTheme == Some("light") then Light else Dark
  }

  /** The root attribute after the load rule `applyTheme(getSavedTheme())`. */
  function LoadedAttribute(storage: map<string, string>): Option<string> {
    ApplyTheme(GetItem(storage, ThemeKey))
  }

  /** The root attribute after the toggle handler's `applyTheme(next)`. */
  function ToggledAttribute(dataTheme: Option<string>): Option<string> {
    ApplyTheme(Some(Name(Opposite(Applied(dataTheme)))))
  }

  /** After `applyTheme`, the attribute is either absent or "light". */
  predicate Normalized(dataTheme: Option<string>) {
    dataTheme == None || dataTheme == Some("light")
  }

  /** At load the marker is present exactly when the stored preference is
      exactly "light"; any other value, or none, leaves it absent. */
  lemma LoadRule(storage: map<string, string>)
    ensures LoadedAttribute(storage) == Some("light") <==>
      (ThemeKey in storage && storage[ThemeKey] == "light")
    ensures LoadedAttribute(storage) != Some("light") ==> LoadedAttribute(storage) == None
    ensures Applied(LoadedAttribute(storage)) ==
      (if ThemeKey in storage && storage[ThemeKey] == "light" then Light else Dark)
  {
  }

  /** Applying a theme's own name gives the attribute of that theme, which
      reads back as that theme. */
  lemma ApplyName(t: Theme)
    ensures Applied(ApplyTheme(Some(Name(t)))) == t
    ensures Normalized(ApplyTheme(Some(Name(t))))
  {
  }

  /** The toggle maps light to dark and dark to light. */
  lemma ToggleFlips(dataTheme: Option<string>)
    ensures Applied(ToggledAttribute(dataTheme)) == Opposite(Applied(dataTheme))
    ensures Normalized(ToggledAttribute(dataTheme))
  {
    ApplyName(Opposite(Applied(dataTheme)));
  }

  /** Two toggles restore the attribute exactly when it was already in the
      form `applyTheme` leaves it (absent or "light"); markup that says
      anything else is replaced by the marker's absence. */
  lemma ToggleTwice(dataTheme: Option<string>)
    ensures ToggledAttribute(ToggledAttribute(dataTheme)) == dataTheme <==> Normalized(dataTheme)
  {
    ToggleFlips(dataTheme);
    ToggleFlips(ToggledAttribute(dataTheme));
  }

  /** What the toggle stores is what the next load applies: a reload shows
      the theme the user toggled to. */
  lemma TogglePersists(dataTheme: Option<string>, storage: map<string, string>)
    ensures LoadedAttribute(storage[ThemeKey := Name(Applied(ToggledAttribute(dataTheme)))])
            == ToggledAttribute(dataTheme)
  {
    ToggleFlips(dataTheme);
  }

  /** The document root, the origin's storage and the theme button's click
      listener as the theme code uses them. Reading and writing storage fail
      independently: a storage disabled by policy throws on both, a full
      quota only on `setItem`. */
  class ThemeController {
    /** The root's `data-theme` attribute. */
    var dataTheme: Option<string>
    /** The origin's `localStorage` entries. */
    var storage: map<string, string>
    /** Whether the click listener on the theme button is installed. */
    var listening: bool
    /** Whether `localStorage.getItem` returns rather than throws. */
    const canRead: bool
    /** Whether `localStorage.setItem` returns rather than throws. */
    const canWrite: bool

    constructor (dataTheme: Option<string>, storage: map<string, string>, canRead: bool, canWrite: bool)
      ensures this.dataTheme == dataTheme && this.storage == storage
      ensures !listening
      ensures this.canRead == canRead && this.canWrite == canWrite
    {
      this.dataTheme := dataTheme;
      this.storage := storage;
      this.listening := false;
      this.canRead := canRead;
      this.canWrite := canWrite;
    }

    /** `applyTheme(getSavedTheme())` at page load, then the installation of
        the click listener. When `getItem` throws, the attribute is not
        touched and the exception ends the page's initialisation, so the
        listener is never installed. */
    method Load() returns (threw: bool)
      modifies this
      ensures threw == !canRead
      ensures storage == old(storage)
      ensures dataTheme == if threw then old(dataTheme) else LoadedAttribute(old(storage))
      ensures listening == !threw
      ensures !threw ==> Normalized(dataTheme)
    {
      if !canRead {
        listening := false;
        return true;
      }
      var saved := GetItem(storage, ThemeKey);
      dataTheme := ApplyTheme(saved);
      LoadRule(storage);
      listening := true;
      return false;
    }

    /** A click on the theme button. Without the listener nothing happens.
        With it: read the applied theme, apply the opposite, then store it;
        the attribute changes even when storing throws. */
    method Toggle() returns (threw: bool)
      modifies this
      ensures listening == old(listening)
      ensures threw == (listening && !canWrite)
      ensures dataTheme == if listening then ToggledAttribute(old(dataTheme)) else old(dataTheme)
      ensures storage == if listening && !threw
                         then old(storage)[ThemeKey := Name(Applied(dataTheme))]
                         else old(storage)
      ensures listening ==> Normalized(dataTheme)
      ensures listening && Normalized(old(dataTheme)) ==> ToggledAttribute(dataTheme) == old(dataTheme)
    {
      if !listening {
        return false;
      }
      var current := Applied(dataTheme);
      var next := Opposite(current);
      dataTheme := ApplyTheme(Some(Name(next)));
      ApplyName(next);
      ToggleTwice(old(dataTheme));
      if !canWrite {
        return true;
      }
      storage := storage[ThemeKey := Name(next)];
      return false;
    }
  }
}
