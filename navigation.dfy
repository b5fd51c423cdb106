/** The mobile navigation toggle and the guard of the in-page anchor links. */
module Navigation {
  import opened Wrappers
  import opened Text

  /** `#siteNav`'s `open` class and `#navToggle`'s `aria-expanded` attribute. */
  class NavMenu {
    var open: bool
    var ariaExpanded: string

    /** The attribute tells what the class shows. The markup may start without
        it; either click handler establishes it. */
    ghost predicate Consistent()
      reads this
    {
      ariaExpanded == if open then "true" else "false"
    }

    /** The markup may start with any attribute value. */
    constructor (open: bool, ariaExpanded: string)
      ensures this.open == open && this.ariaExpanded == ariaExpanded
    {
      this.open := open;
      this.ariaExpanded := ariaExpanded;
    }

    /** A click on the toggle: flip `open`, and write `String(open)`. */
    method ToggleClick() returns (isOpen: bool)
      modifies this
      ensures open == !old(open) && isOpen == open
      ensures Consistent()
    {
      open := !open;
      isOpen := open;
      ariaExpanded := if isOpen then "true" else "false";
    }

    /** A click on a link inside the menu closes it. */
    method LinkClick()
      modifies this
      ensures !open && ariaExpanded == "false"
      ensures Consistent()
    {
      open := false;
      ariaExpanded := "false";
    }
  }

  /** The guard of the smooth-scroll handler: the target id it goes on with, or
      None when it returns early. Only the length test, in UTF-16 code units,
      matters: "" and "#" are both shorter than two. */
  function ScrollTarget(href: Option<string>): (target: Option<string>)
    ensures target.Some? <==> href.Some? && Utf16Length(href.value) >= 2
    ensures target.Some? ==> target == href
  {
    if href.None? || href.value == "" || href.value == "#" || Utf16Length(href.value) < 2 then None
    else href
  }

  /** The handler is attached only to links whose href starts with "#"; for
      those it goes on exactly when the href has a character after the "#". */
  lemma HashTarget(href: string)
    requires href != [] && href[0] == '#'
    ensures ScrollTarget(Some(href)).Some? <==> |href| >= 2
  {
  }
}
