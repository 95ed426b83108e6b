/** Where the mousemove handler puts the magnifier: 20 px below and right of
    the pointer, flipped to the other side of the pointer on an axis where it
    would run past the viewport's right or bottom edge.  Page coordinates are
    reals, as MouseEvent.pageX and pageY may be fractional. */
module Magnifier {

  const Offset: real := 20.0
  const Width: real := 150.0
  const Height: real := 150.0

  /** The (left, top) the handler writes into the magnifier's style, for a
      pointer at (pageX, pageY) and a viewport scrolled to (scrollX, scrollY)
      of size viewWidth by viewHeight (window.pageXOffset, pageYOffset,
      innerWidth, innerHeight). */
  method Place(pageX: real, pageY: real, scrollX: real, scrollY: real, viewWidth: real, viewHeight: real)
    returns (left: real, top: real)
    ensures left == (if pageX + Offset + Width <= scrollX + viewWidth then pageX + Offset else pageX - Width - Offset)
    ensures top == (if pageY + Offset + Height <= scrollY + viewHeight then pageY + Offset else pageY - Height - Offset)
    // the box keeps a gap of Offset from the pointer on both axes, so it never covers it
    ensures left >= pageX + Offset || left + Width <= pageX - Offset
    ensures top >= pageY + Offset || top + Height <= pageY - Offset
    // placed on the right, it ends inside the viewport
    ensures left > pageX ==> left + Width <= scrollX + viewWidth
    ensures top > pageY ==> top + Height <= scrollY + viewHeight
    // with the pointer in a viewport wide (tall) enough for the box on both sides of it, the box lies inside
    ensures viewWidth >= 2.0 * (Offset + Width) && scrollX <= pageX <= scrollX + viewWidth
      ==> scrollX <= left && left + Width <= scrollX + viewWidth
    ensures viewHeight >= 2.0 * (Offset + Height) && scrollY <= pageY <= scrollY + viewHeight
      ==> scrollY <= top && top + Height <= scrollY + viewHeight
  {
    left := pageX + Offset;
    top := pageY + Offset;
    if left + Width > scrollX + viewWidth {
      left := pageX - Width - Offset;
    }
    if top + Height > scrollY + viewHeight {
      top := pageY - Height - Offset;
    }
  }
}
