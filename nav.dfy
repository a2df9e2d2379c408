/** The mobile navigation: the `open` class on the site navigation and the
    `aria-expanded` attribute on its toggle button. */
module Nav {
  import opened Dom

  /** The class that shows the menu. */
  const OpenClass: string := "open"

  /** The state the two handlers touch: the navigation's class list (its
      order is not modelled) and the toggle button's `aria-expanded`. */
  datatype NavState = NavState(navClasses: set<string>, ariaExpanded: Option<string>)

  predicate IsOpen(s: NavState) {
    OpenClass in s.navClasses
  }

  /** The attribute tells assistive technology the truth about the menu. */
  predicate Consistent(s: NavState) {
    s.ariaExpanded == Some(BoolString(IsOpen(s)))
  }

  /** `classList.toggle(token)`: removes the token if present, adds it if not. */
  function ClassToggle(classes: set<string>, token: string): (r: set<string>)
    ensures token in r <==> token !in classes
    ensures r - {token} == classes - {token}
  {
    if token in classes then classes - {token} else classes + {token}
  }

  /** The nav-toggle click handler. */
  function ToggleClick(s: NavState): NavState {
    var classes := ClassToggle(s.navClasses, OpenClass);
    NavState(classes, Some(BoolString(OpenClass in classes)))
  }

  /** The click handler on every link inside the navigation. */
  function LinkClick(s: NavState): NavState {
    NavState(s.navClasses - {OpenClass}, Some("false"))
  }

  /** A toggle click negates `open`, leaves every other class alone, and
      mirrors the new state into `aria-expanded`. */
  lemma ToggleNegates(s: NavState)
    ensures IsOpen(ToggleClick(s)) == !IsOpen(s)
    ensures ToggleClick(s).navClasses - {OpenClass} == s.navClasses - {OpenClass}
    ensures Consistent(ToggleClick(s))
    ensures ToggleClick(s).ariaExpanded == Some(if IsOpen(s) then "false" else "true")
  {
  }

  /** Two toggle clicks restore the state exactly when the attribute already
      matched the menu; otherwise the second click leaves it corrected. */
  lemma ToggleTwice(s: NavState)
    ensures ToggleClick(ToggleClick(s)) == s <==> Consistent(s)
    ensures ToggleClick(ToggleClick(s)).navClasses == s.navClasses
  {
    ToggleNegates(s);
    ToggleNegates(ToggleClick(s));
    var t := ToggleClick(ToggleClick(s));
    assert t.navClasses == s.navClasses by {
      assert t.navClasses - {OpenClass} == s.navClasses - {OpenClass};
      assert (OpenClass in t.navClasses) == (OpenClass in s.navClasses);
    }
  }

  /** A link click closes the menu whatever the state before, keeps every
      other class, and a second link click changes nothing. */
  lemma LinkClickCloses(s: NavState)
    ensures !IsOpen(LinkClick(s)) && LinkClick(s).ariaExpanded == Some("false")
    ensures Consistent(LinkClick(s))
    ensures LinkClick(s).navClasses - {OpenClass} == s.navClasses - {OpenClass}
    ensures LinkClick(LinkClick(s)) == LinkClick(s)
  {
  }

  /** The toggle button and the navigation it controls, both present on the
      page (the handlers are only installed then). */
  class MobileNav {
    /** The navigation's `classList`. */
    var navClasses: set<string>
    /** The toggle button's `aria-expanded` attribute. */
    var ariaExpanded: Option<string>

    function State(): NavState
      reads this
    {
      NavState(navClasses, ariaExpanded)
    }

    constructor (navClasses: set<string>, ariaExpanded: Option<string>)
      ensures State() == NavState(navClasses, ariaExpanded)
    {
      this.navClasses := navClasses;
      this.ariaExpanded := ariaExpanded;
    }

    /** A click on the toggle button. */
    method ClickToggle()
      modifies this
      ensures State() == ToggleClick(old(State()))
      ensures IsOpen(State()) == !IsOpen(old(State())) && Consistent(State())
    {
      var isOpen: bool;
      if OpenClass in navClasses {
        navClasses := navClasses - {OpenClass};
        isOpen := false;
      } else {
        navClasses := navClasses + {OpenClass};
        isOpen := true;
      }
      ariaExpanded := Some(BoolString(isOpen));
    }

    /** A click on a link inside the navigation. */
    method ClickLink()
      modifies this
      ensures State() == LinkClick(old(State()))
      ensures !IsOpen(State()) && ariaExpanded == Some("false")
    {
      navClasses := navClasses - {OpenClass};
      ariaExpanded := Some("false");
    }
  }
}
