/**
 * In-page anchor clicks (`initSmoothScroll`). The click handler is bound to
 * every `a[href^="#"]`; the element `document.querySelector(href)` finds is
 * supplied as `target`.
 */
module Anchors {
  import opened Optional

  /** What a click does: whether the browser's own navigation is suppressed,
      and which element, if any, is scrolled to the viewport top. */
  datatype ClickEffect<E> = ClickEffect(defaultPrevented: bool, scrollTo: Option<E>)

  /** A bare `#` link falls through to the browser untouched; any other
      link suppresses the default, and scrolls only when its target exists. */
  function OnAnchorClick<E>(href: string, target: Option<E>): (r: ClickEffect<E>)
    ensures r.defaultPrevented <==> href != "#"
    ensures r.scrollTo.Some? <==> href != "#" && target.Some?
    ensures r.scrollTo.Some? ==> r.scrollTo == target
  {
    if href != "#" then ClickEffect(true, target)
    else ClickEffect(false, None)
  }
}
