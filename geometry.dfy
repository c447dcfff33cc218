/**
 * Ripple geometry: the arithmetic of `createEl` in the plain-JavaScript module and the
 * same arithmetic inside the Angular `muiRipple` press handler. Pixel values are exact
 * reals; the `'px'` suffix of the CSS strings is left out.
 */
module Geometry {

  /** What `jqLite.offset(buttonEl)` returns: the button's page position and height. */
  datatype Offset = Offset(top: real, left: real, height: real)

  /** The four style properties written on a new ripple element. */
  datatype RippleStyle = RippleStyle(height: real, width: real, top: real, left: real)

  /** The CSS properties a ripple's style sets. */
  datatype CssProperty = Height | Width | Top | Left

  /** The CSS properties in the order the Angular handler's `for ... in` visits them. */
  const StyleProperties: seq<CssProperty> := [Height, Width, Top, Left]

  /**
   * Size and position of the ripple for a press at (pageX, pageY) on a button whose
   * offset is `offset`; `fab` says whether the button carries `mui-btn--fab`.
   * The ripple is a square of side `diameter` centred on the contact point.
   */
  function CreateStyle(pageX: real, pageY: real, offset: Offset, fab: bool): (s: RippleStyle)
    ensures s.width == s.height
    ensures fab ==> 2.0 * s.height == offset.height
    ensures !fab ==> s.height == offset.height
    ensures s.left + s.width / 2.0 == pageX - offset.left
    ensures s.top + s.height / 2.0 == pageY - offset.top
  {
    var xPos := pageX - offset.left;
    var yPos := pageY - offset.top;
    var diameter := if fab then offset.height / 2.0 else offset.height;
    var radius := diameter / 2.0;
    RippleStyle(diameter, diameter, yPos - radius, xPos - radius)
  }

  /** The style as the CSS property map that is applied to the element. */
  function Css(s: RippleStyle): map<CssProperty, real> {
    map[Height := s.height, Width := s.width, Top := s.top, Left := s.left]
  }

  /** A 40px-high regular button pressed 10px right of and below its corner. */
  lemma RegularButtonExample(top: real, left: real)
    ensures CreateStyle(left + 10.0, top + 10.0, Offset(top, left, 40.0), false)
         == RippleStyle(40.0, 40.0, -10.0, -10.0)
  {
  }

  /** The same press on a floating action button: the diameter is halved. */
  lemma FabButtonExample(top: real, left: real)
    ensures CreateStyle(left + 10.0, top + 10.0, Offset(top, left, 40.0), true)
         == RippleStyle(20.0, 20.0, 0.0, 0.0)
  {
  }
}
