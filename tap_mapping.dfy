/** The tap handler's conversion of a touch point to normalised device
    coordinates (src/components/Bookshelf.tsx), with the inverse conversion
    that places labels on the screen. */
module TapMapping {

  lemma DivMul(a: real, w: real)
    requires w > 0.0
    ensures (a / w) * w == a
  {
  }

  /** Multiplying by a positive size keeps order. */
  lemma MulMono(x: real, y: real, w: real)
    requires w > 0.0
    ensures x < y <==> x * w < y * w
  {
  }

  /** What division by a positive size tells about a coordinate. */
  lemma Fraction(a: real, w: real)
    requires w > 0.0
    ensures (a / w) * w == a
    ensures 2.0 * a < w <==> a / w < 0.5
    ensures 0.0 <= a ==> 0.0 <= a / w
    ensures a <= w ==> a / w <= 1.0
  {
    var u := a / w;
    DivMul(a, w);
    assert u * w == a;
    MulMono(u, 0.5, w);
    assert u < 0.5 <==> a < 0.5 * w;
    MulMono(u, 0.0, w);
    assert u < 0.0 <==> a < 0.0;
    MulMono(1.0, u, w);
    assert 1.0 < u <==> w < a;
  }

  /** What multiplication by a positive size tells about a fraction. */
  lemma Scale(u: real, w: real)
    requires w > 0.0
    ensures (u * w) / w == u
    ensures 0.0 <= u <= 1.0 ==> 0.0 <= u * w <= w
  {
    var a := u * w;
    DivMul(a, w);
    MulMono(a / w, u, w);
    MulMono(u, a / w, w);
    MulMono(u, 0.0, w);
    MulMono(1.0, u, w);
  }

  /** Normalised device coordinates: x from -1 (left) to 1 (right), y from
      -1 (bottom) to 1 (top). */
  datatype Ndc = Ndc(x: real, y: real)

  /** A point in the view, in points from its top-left corner. */
  datatype ScreenPoint = ScreenPoint(x: real, y: real)

  /** The tap handler's mapping of `locationX`, `locationY` in a window of
      the given size to device coordinates. */
  function TapToNdc(p: ScreenPoint, width: real, height: real): (r: Ndc)
    requires width > 0.0 && height > 0.0
    ensures 0.0 <= p.x <= width && 0.0 <= p.y <= height ==>
      -1.0 <= r.x <= 1.0 && -1.0 <= r.y <= 1.0
    ensures 2.0 * p.x < width <==> r.x < 0.0
    ensures 2.0 * p.y < height <==> r.y > 0.0
  {
    Fraction(p.x, width);
    Fraction(p.y, height);
    Ndc((p.x / width) * 2.0 - 1.0, -(p.y / height) * 2.0 + 1.0)
  }

  /** The inverse mapping used for label placement: device coordinates back
      to a point in a window of the given size. */
  function NdcToScreen(n: Ndc, width: real, height: real): (r: ScreenPoint)
    requires width > 0.0 && height > 0.0
    ensures -1.0 <= n.x <= 1.0 && -1.0 <= n.y <= 1.0 ==>
      0.0 <= r.x <= width && 0.0 <= r.y <= height
  {
    var u, v := (n.x + 1.0) / 2.0, -(n.y - 1.0) / 2.0;
    Scale(u, width);
    Scale(v, height);
    ScreenPoint(u * width, v * height)
  }

  /** Mapping a tap to device coordinates and back gives the tap. */
  lemma TapRoundTrip(p: ScreenPoint, width: real, height: real)
    requires width > 0.0 && height > 0.0
    ensures NdcToScreen(TapToNdc(p, width, height), width, height) == p
  {
    Fraction(p.x, width);
    Fraction(p.y, height);
  }

  /** Mapping device coordinates to the screen and back gives them again. */
  lemma NdcRoundTrip(n: Ndc, width: real, height: real)
    requires width > 0.0 && height > 0.0
    ensures TapToNdc(NdcToScreen(n, width, height), width, height) == n
  {
    var u, v := (n.x + 1.0) / 2.0, -(n.y - 1.0) / 2.0;
    Scale(u, width);
    Scale(v, height);
    var s := NdcToScreen(n, width, height);
    assert s == ScreenPoint(u * width, v * height);
    assert s.x / width == u && s.y / height == v;
  }
}
