/** The navigation bar's scroll effect: on every scroll event the bar's
    background is set to the more opaque of two colours once the page has
    been scrolled past 50 pixels, and to the lighter one otherwise. */
module NavScroll {

  /** The background once the page is scrolled past the threshold. */
  const Opaque: string := "rgba(7, 7, 16, 0.95)"

  /** The background at the top of the page. */
  const Translucent: string := "rgba(7, 7, 16, 0.8)"

  /** The scroll offset, in pixels, past which the bar turns opaque. */
  const Threshold: real := 50.0

  /** The background the scroll handler sets for vertical offset `scrollY`
      (a JavaScript number, so a real here). */
  function NavBackground(scrollY: real): (css: string)
    ensures css == Opaque <==> scrollY > Threshold
    ensures css == Translucent <==> scrollY <= Threshold
  {
    if scrollY > Threshold then Opaque else Translucent
  }

  /** Scrolling further down never turns the bar back to the lighter colour,
      and scrolling up never turns it opaque. */
  lemma BackgroundMonotone(y1: real, y2: real)
    requires y1 <= y2
    ensures NavBackground(y1) == Opaque ==> NavBackground(y2) == Opaque
    ensures NavBackground(y2) == Translucent ==> NavBackground(y1) == Translucent
  {
  }

  /** Offsets 49 and exactly 50 keep the lighter colour; 51 is opaque. */
  lemma BackgroundBoundary()
    ensures NavBackground(49.0) == Translucent
    ensures NavBackground(50.0) == Translucent
    ensures NavBackground(51.0) == Opaque
  {
  }
}
