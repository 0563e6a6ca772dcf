/**
 * The floating "scroll to top" button (`initScrollToTop`): hidden until the
 * page is scrolled strictly past 300 units, recomputed on every scroll with
 * no hysteresis; a click asks the window to scroll to the top.
 */
module ScrollTop {
  import opened Optional

  /** The offset the page must be scrolled strictly beyond. */
  const Threshold: real := 300.0

  /** `style.display` of the button. */
  datatype Display = Hidden | Flex

  /** `window.pageYOffset > 300`. */
  predicate Shown(offset: real) {
    offset > Threshold
  }

  /** The boundary: 300 hides the button, anything past it shows it. */
  lemma ThresholdBoundary()
    ensures !Shown(300.0) && Shown(301.0)
  {
  }

  class ScrollTopButton {
    var display: Display
    /** The `top` of the last `window.scrollTo` request the button made, if any. */
    var requestedTop: Option<int>

    /** The button is created with `display: none`. */
    constructor ()
      ensures display == Hidden && requestedTop == None
    {
      display := Hidden;
      requestedTop := None;
    }

    /** The scroll handler: the new display depends on the offset alone. */
    method OnScroll(offset: real)
      modifies this
      ensures display == Flex <==> Shown(offset)
      ensures display == Hidden <==> !Shown(offset)
      ensures requestedTop == old(requestedTop)
    {
      if Shown(offset) {
        display := Flex;
      } else {
        display := Hidden;
      }
    }

    /** The click handler: `window.scrollTo({ top: 0 })`. */
    method Click()
      modifies this
      ensures requestedTop == Some(0) && display == old(display)
    {
      requestedTop := Some(0);
    }
  }
}
