/**
  The fade gradients at either end of the horizontally scrolling navigation
  bar: `show-left` and `show-right` on the container.
 */
module NavGradient {
  import opened Optional

  /** The scroller's measurements, in CSS pixels. */
  datatype Scroller = Scroller(scrollLeft: real, clientWidth: real, scrollWidth: real)

  datatype Flags = Flags(showLeft: bool, showRight: bool)

  predicate AtStart(s: Scroller) { s.scrollLeft <= 1.0 }
  predicate AtEnd(s: Scroller) { s.scrollLeft + s.clientWidth >= s.scrollWidth - 1.0 }
  predicate CanScroll(s: Scroller) { s.scrollWidth > s.clientWidth + 2.0 }

  /**
    `updateNavGradients`: with no container or scroller mounted the classes stay
    as they were; otherwise each gradient shows when the bar can scroll and is
    not already at that end.
   */
  function UpdateGradients(current: Flags, scroller: Option<Scroller>): (next: Flags)
    ensures scroller.None? ==> next == current
    ensures scroller.Some? ==> (next.showLeft <==> CanScroll(scroller.value) && !AtStart(scroller.value))
    ensures scroller.Some? ==> (next.showRight <==> CanScroll(scroller.value) && !AtEnd(scroller.value))
  {
    match scroller
    case None => current
    case Some(s) => Flags(CanScroll(s) && !AtStart(s), CanScroll(s) && !AtEnd(s))
  }

  /** A bar that can scroll always shows at least one gradient, and one that cannot shows none. */
  lemma SomeGradientIffScrollable(current: Flags, s: Scroller)
    ensures var f := UpdateGradients(current, Some(s));
      (f.showLeft || f.showRight) <==> CanScroll(s)
  {
  }

  /** Both gradients show exactly when the bar is scrolled strictly inside its range. */
  lemma BothGradientsInMiddle(current: Flags, s: Scroller)
    ensures var f := UpdateGradients(current, Some(s));
      (f.showLeft && f.showRight) <==> CanScroll(s) && s.scrollLeft > 1.0 && s.scrollLeft + s.clientWidth < s.scrollWidth - 1.0
  {
  }
}
