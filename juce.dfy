/** C++ integer arithmetic and the small JUCE helpers the list box uses, together with
    the behaviour of JUCE internals whose code is not part of this model (the viewport's
    clamping of its view position and Rectangle::constrainedWithin). Those two are stated
    here once, as explicit assumptions, and every other module goes through them. */
module Juce {

  /** std::numeric_limits<int>::max() */
  const IntMax: int := 0x7fff_ffff

  datatype Option<T> = None | Some(value: T)

  /** jmax */
  function Max(a: int, b: int): (r: int)
    ensures a <= r && b <= r && (r == a || r == b)
  {
    if a < b then b else a
  }

  /** jmin */
  function Min(a: int, b: int): (r: int)
    ensures r <= a && r <= b && (r == a || r == b)
  {
    if a < b then a else b
  }

  /** jlimit (lower, upper, v): v pushed into [lower, upper]; when upper < lower the
      lower bound wins only for values below it, as in JUCE's release build. */
  function Limit(lower: int, upper: int, v: int): (r: int)
    ensures lower <= upper ==> lower <= r <= upper
    ensures lower <= v <= upper ==> r == v
    ensures v < lower ==> r == lower
    ensures lower <= v && upper < v ==> r == upper
  {
    if v < lower then lower else if upper < v then upper else v
  }

  /** isPositiveAndBelow (v, upper): 0 <= v < upper */
  predicate IsPositiveAndBelow(v: int, upper: int)
  {
    0 <= v && v < upper
  }

  /** C++ `a / b` for a positive divisor: the quotient is truncated toward zero, so for a
      negative dividend it differs from Dafny's Euclidean division. */
  function CDiv(a: int, b: int): (q: int)
    requires b > 0
    ensures a >= 0 ==> 0 <= q && q * b <= a < q * b + b
    ensures a < 0 ==> q <= 0 && q * b - b < a <= q * b
  {
    if a >= 0 then DivFloor(a, b); a / b
    else DivFloor(-a, b); -((-a) / b)
  }

  /** Dafny's division on a non-negative dividend is the floor. */
  lemma DivFloor(a: int, b: int)
    requires a >= 0 && b > 0
    ensures 0 <= a / b && (a / b) * b <= a < (a / b) * b + b
  {
    var q, r := a / b, a % b;
    assert a == q * b + r && 0 <= r < b;
    if q < 0 {
      MulCancel(-1, q, b);
    }
  }

  /** C++ `a % b` for a positive divisor: the remainder takes the sign of the dividend. */
  function CRem(a: int, b: int): (r: int)
    requires b > 0
    ensures a >= 0 ==> 0 <= r < b && r == a % b
    ensures a < 0 ==> -b < r <= 0
    ensures a == CDiv(a, b) * b + r
  {
    a - CDiv(a, b) * b
  }

  lemma CDivMonotone(a: int, a': int, b: int)
    requires b > 0 && a <= a'
    ensures CDiv(a, b) <= CDiv(a', b)
  {
    var q, q' := CDiv(a, b), CDiv(a', b);
    // whatever the signs, q * b < a + b and a' < q' * b + b
    assert q * b < (q' + 1) * b;
    MulCancel(q, q' + 1, b);
  }

  lemma MulCancel(m: int, n: int, b: int)
    requires b > 0 && m * b < n * b
    ensures m < n
  {
    assert (n - m) * b == n * b - m * b;
  }

  /** Adding a multiple of n does not change the remainder. */
  lemma ModOfShift(a: int, q: int, n: int)
    requires n > 0
    ensures (a + q * n) % n == a % n
  {
    var r := a % n;
    assert a + q * n == (a / n + q) * n + r;
    DivModUnique(a + q * n, n, a / n + q, r);
  }

  /** The remainder is the r of any a == q * n + r with 0 <= r < n. */
  lemma DivModUnique(a: int, n: int, q: int, r: int)
    requires n > 0 && 0 <= r < n && a == q * n + r
    ensures a % n == r
  {
    var d := q - a / n;
    assert d * n == a % n - r;
    MulCancel(d, 1, n);
    MulCancel(-1, d, n);
  }

  lemma MulMono(m: int, n: int, b: int)
    requires m <= n && b >= 0
    ensures m * b <= n * b
  {
    assert n * b - m * b == (n - m) * b;
  }

  /** The view position JUCE's Viewport::setViewPosition ends up with (assumed): the
      requested x pushed into [0, max(0, contentWidth - viewWidth)]. The same rule holds
      vertically with the heights. */
  function ViewClamp(x: int, contentWidth: int, viewWidth: int): (r: int)
    ensures 0 <= r <= Max(0, contentWidth - viewWidth)
    ensures 0 <= x <= contentWidth - viewWidth ==> r == x
    ensures x <= 0 ==> r == 0
  {
    Min(Max(0, contentWidth - viewWidth), Max(0, x))
  }

  lemma ViewClampIdempotent(x: int, contentWidth: int, viewWidth: int)
    ensures ViewClamp(ViewClamp(x, contentWidth, viewWidth), contentWidth, viewWidth)
            == ViewClamp(x, contentWidth, viewWidth)
  {
  }

  datatype Point = Point(x: int, y: int)

  datatype Rect = Rect(x: int, y: int, w: int, h: int)
  {
    /** Rectangle::expanded (dx, dy): grown by dx on the left and right and dy on the
        top and bottom; a size never goes below zero. */
    function Expanded(dx: int, dy: int): (r: Rect)
      ensures r.x == x - dx && r.y == y - dy
    {
      Rect(x - dx, y - dy, Max(0, w + 2 * dx), Max(0, h + 2 * dy))
    }

    predicate ContainsRect(inner: Rect)
    {
      x <= inner.x && inner.x + inner.w <= x + w &&
      y <= inner.y && inner.y + inner.h <= y + h
    }

    /** Rectangle::constrainedWithin (area), as JUCE writes it (assumed): the position is
        limited to area.withSize (area.w - w, area.h - h), the size to the area's. */
    function ConstrainedWithin(area: Rect): (r: Rect)
      ensures area.ContainsRect(this) ==> r == this
      ensures w <= area.w && h <= area.h ==> area.ContainsRect(r)
    {
      Rect(Limit(area.x, area.x + area.w - w, x), Limit(area.y, area.y + area.h - h, y),
           Min(w, area.w), Min(h, area.h))
    }
  }
}
