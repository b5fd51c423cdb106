/** The header shadow: on once the page is scrolled past 8 pixels. */
module HeaderShadow {

  /** `Math.min(Math.max(value, min), max)` on integers. */
  function Clamp(value: int, min: int, max: int): (r: int)
    ensures r <= max
    ensures min <= max ==> min <= r
    ensures min <= value <= max ==> r == value
    ensures r == value || r == min || r == max
  {
    var atLeastMin := if value >= min then value else min;
    if atLeastMin <= max then atLeastMin else max
  }

  /** `window.scrollY || document.documentElement.scrollTop`: a zero `scrollY`
      falls back to `scrollTop`. */
  function ScrollOffset(scrollY: int, scrollTop: int): int {
    if scrollY != 0 then scrollY else scrollTop
  }

  /** The shadow rule `clamp(y, 0, 60) > 8`; clamping does not change its
      outcome. */
  function ShadowOn(y: int): (on: bool)
    ensures on <==> y > 8
  {
    Clamp(y, 0, 60) > 8
  }

  /** `.site-header`: whether its `box-shadow` is the shadow rather than "none". */
  class SiteHeader {
    var shadow: bool

    constructor ()
      ensures !shadow
    {
      shadow := false;
    }

    /** The scroll handler (also run once at start-up). */
    method OnScroll(scrollY: int, scrollTop: int)
      modifies this
      ensures shadow <==> ScrollOffset(scrollY, scrollTop) > 8
    {
      var y := Clamp(ScrollOffset(scrollY, scrollTop), 0, 60);
      shadow := y > 8;
    }
  }
}
