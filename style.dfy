/**
 * The image style of a device's preview: a fixed display width, a height that
 * keeps the device's reference aspect ratio, and a corner radius scaled by the
 * same factor as the width. The reference tables are parameters here; the
 * script's own tables give GetImageStyle.
 */
module Style {
  import Config

  /**
   * The displayed corner radius: the exact ratio `num / den` pixels (before
   * it is printed with two decimals), or a fixed number of pixels.
   */
  datatype Radius = Scaled(num: int, den: int) | FixedPx(px: int)

  /** The inline style of a preview image: width and height in pixels, and the corner radius. */
  datatype ImageStyle = ImageStyle(width: int, height: int, radius: Radius)

  function Abs(x: int): nat {
    if x < 0 then -x else x
  }

  /** The quotient of natural numbers, by repeated subtraction. */
  function Quotient(a: nat, b: nat): nat
    requires b > 0
    decreases a
  {
    if a < b then 0 else 1 + Quotient(a - b, b)
  }

  /** Quotient is floor division. */
  lemma {:induction false} QuotientIsDiv(a: nat, b: nat)
    requires b > 0
    ensures Quotient(a, b) == a / b
  {
    if a < b {
      DivUnique(a, b, 0, a);
    } else {
      QuotientIsDiv(a - b, b);
      var q, m := (a - b) / b, (a - b) % b;
      assert a - b == b * q + m && 0 <= m < b;
      assert a == b * (q + 1) + m;
      DivUnique(a, b, q + 1, m);
    }
  }

  /** Python's `int(a / b)`: the true quotient truncated toward zero. */
  function TruncDiv(a: int, b: int): int
    requires b != 0
  {
    var m: int := Quotient(Abs(a), Abs(b));
    if (a < 0) == (b < 0) then m else -m
  }

  /**
   * TruncDiv rounds toward zero: on a non-negative dividend and a positive
   * divisor it is floor division, and negating either operand negates the
   * quotient. Together these fix it on every input.
   */
  lemma TruncDivRoundsTowardZero(a: int, b: int)
    requires b != 0
    ensures a >= 0 && b > 0 ==> TruncDiv(a, b) == a / b
    ensures TruncDiv(-a, b) == -TruncDiv(a, b)
    ensures TruncDiv(a, -b) == -TruncDiv(a, b)
  {
    if a >= 0 && b > 0 {
      QuotientIsDiv(a, b);
    }
    assert TruncDiv(-a, b) == -TruncDiv(a, b) by {
      if a == 0 { assert Quotient(Abs(a), Abs(b)) == 0; }
    }
    assert TruncDiv(a, -b) == -TruncDiv(a, b) by {
      if a == 0 { assert Quotient(Abs(a), Abs(b)) == 0; }
    }
  }

  lemma FloorDivBounds(x: nat, y: nat)
    requires y > 0
    ensures (x / y) * y <= x < (x / y + 1) * y
    ensures x / y > 0 ==> x > 0
  {
    var m, n := x / y, x % y;
    assert x == y * m + n && 0 <= n < y;
    assert (m + 1) * y == m * y + y;
  }

  /**
   * The style computed from a reference width `w`, height `h` and corner radius `r`.
   * A zero width is excluded: the height is computed by dividing by `w` before the
   * width is tested, so the script raises ZeroDivisionError there.
   */
  function StyleFromReference(w: int, h: int, r: int): (st: ImageStyle)
    requires w != 0
    ensures st.width == Config.DisplayWidth
    ensures st.radius.Scaled? <==> w > 0
    ensures w < 0 ==> st.radius == FixedPx(Config.FallbackRadiusPx)
  {
    var height := TruncDiv(Config.DisplayWidth * h, w);
    var radius := if w > 0 then Scaled(r * Config.DisplayWidth, w) else FixedPx(Config.FallbackRadiusPx);
    ImageStyle(Config.DisplayWidth, height, radius)
  }

  predicate WidthsNonZero(dims: map<string, (int, int)>) {
    forall c :: c in dims ==> dims[c].0 != 0
  }

  /** `DEVICE_DIMENSIONS.get(code, (1, 1))`. */
  function ReferenceSize(dims: map<string, (int, int)>, code: string): (int, int) {
    if code in dims then dims[code] else Config.FallbackDimensions
  }

  /** `DEVICE_CORNERS_RAW.get(code, 4)`. */
  function ReferenceCorner(corners: map<string, int>, code: string): int {
    if code in corners then corners[code] else Config.FallbackCornerRaw
  }

  /** The style of a device's previews, looked up in the given reference tables. */
  function StyleFor(dims: map<string, (int, int)>, corners: map<string, int>, code: string): (st: ImageStyle)
    requires WidthsNonZero(dims)
    ensures st.width == Config.DisplayWidth
    ensures st.radius.Scaled? <==> ReferenceSize(dims, code).0 > 0
  {
    var (w, h) := ReferenceSize(dims, code);
    StyleFromReference(w, h, ReferenceCorner(corners, code))
  }

  /** The style of a device's previews under the script's own tables. */
  function GetImageStyle(code: string): (st: ImageStyle)
    ensures st.width == Config.DisplayWidth && st.radius.Scaled?
  {
    StyleFor(Config.DeviceDimensions, Config.DeviceCornersRaw, code)
  }

  /**
   * For a positive reference width and a non-negative height, the displayed
   * height is the floor of 80·H/W: the largest whole number of pixels that
   * does not exceed the proportional height.
   */
  lemma HeightIsFloor(w: int, h: int, r: int)
    requires w > 0 && h >= 0
    ensures var st := StyleFromReference(w, h, r);
      0 <= st.height && st.height * w <= Config.DisplayWidth * h < (st.height + 1) * w
  {
    TruncDivRoundsTowardZero(Config.DisplayWidth * h, w);
    FloorDivBounds(Config.DisplayWidth * h, w);
  }

  /**
   * The corner radius is the reference radius scaled by the same factor as the
   * width: radius / 80 == R / W, so the radius keeps its proportion to the image.
   */
  lemma RadiusIsProportional(w: int, h: int, r: int)
    requires w > 0
    ensures var st := StyleFromReference(w, h, r);
      st.radius.Scaled? && st.radius.den > 0 &&
      st.radius.num * w == r * st.width * st.radius.den
  {
  }

  /** Two radii that show the same length. */
  predicate SameRadius(a: Radius, b: Radius) {
    match (a, b)
    case (Scaled(n1, d1), Scaled(n2, d2)) => n1 * d2 == n2 * d1
    case (FixedPx(p1), FixedPx(p2)) => p1 == p2
    case _ => false
  }

  /**
   * Only proportions matter: a reference whose width, height and radius are all
   * multiplied by the same positive factor yields the same height and the same radius.
   */
  lemma {:induction false} StyleIsScaleInvariant(w: int, h: int, r: int, k: int)
    requires w != 0 && k > 0
    ensures var a, b := StyleFromReference(w, h, r), StyleFromReference(k * w, k * h, k * r);
      a.width == b.width && a.height == b.height && SameRadius(a.radius, b.radius)
  {
    assert Config.DisplayWidth * (k * h) == k * (Config.DisplayWidth * h);
    TruncDivCancel(Config.DisplayWidth * h, w, k);
    assert k * w > 0 <==> w > 0 by {
      SignOfProduct(k, w);
    }
    if w > 0 {
      MulRearrange(r * Config.DisplayWidth, k, w);
    }
  }

  lemma MulRearrange(x: int, k: int, w: int)
    ensures x * (k * w) == (k * x) * w
  {
    calc {
      x * (k * w);
      (x * k) * w;
      (k * x) * w;
    }
  }

  lemma SignOfProduct(k: int, w: int)
    requires k > 0
    ensures k * w > 0 <==> w > 0
  {
    if w > 0 {
      assert k * w >= w;
    } else {
      assert k * w == -(k * -w);
      assert k * -w >= 0;
    }
  }

  lemma {:induction false} TruncDivCancel(a: int, b: int, k: int)
    requires b != 0 && k > 0
    ensures k * b != 0 && TruncDiv(k * a, k * b) == TruncDiv(a, b)
  {
    assert Abs(k * a) == k * Abs(a) by { AbsOfProduct(k, a); }
    assert Abs(k * b) == k * Abs(b) by { AbsOfProduct(k, b); }
    DivCancel(Abs(a), Abs(b), k);
    QuotientIsDiv(Abs(a), Abs(b));
    QuotientIsDiv(k * Abs(a), k * Abs(b));
    SignOfProduct(k, a);
    SignOfProduct(k, b);
    assert (k * a < 0) == (a < 0) by {
      if a < 0 { assert k * a == -(k * -a); SignOfProduct(k, -a); }
    }
    assert (k * b < 0) == (b < 0) by {
      if b < 0 { assert k * b == -(k * -b); SignOfProduct(k, -b); }
    }
  }

  lemma AbsOfProduct(k: int, a: int)
    requires k > 0
    ensures Abs(k * a) == k * Abs(a)
  {
    if a < 0 {
      assert k * a == -(k * -a);
      SignOfProduct(k, -a);
    } else {
      SignOfProduct(k, a);
      assert a == 0 ==> k * a == 0;
    }
  }

  /** Scaling both operands of a floor division by the same positive factor leaves the quotient alone. */
  lemma DivCancel(x: nat, y: nat, k: int)
    requires y > 0 && k > 0
    ensures (k * x) / (k * y) == x / y
  {
    var q, m := x / y, x % y;
    assert x == y * q + m && 0 <= m < y;
    assert k * x == (k * y) * q + k * m;
    assert 0 <= k * m < k * y;
    DivUnique(k * x, k * y, q, k * m);
  }

  lemma DivUnique(a: int, d: int, q: int, m: int)
    requires d > 0 && 0 <= m < d && a == d * q + m
    ensures a / d == q
  {
    var q', m' := a / d, a % d;
    assert a == d * q' + m' && 0 <= m' < d;
    assert d * (q - q') == m' - m;
    if q > q' {
      MulAtLeast(d, q - q');
    } else if q < q' {
      assert d * (q' - q) == m - m';
      MulAtLeast(d, q' - q);
    }
  }

  lemma MulAtLeast(d: int, x: int)
    requires d > 0 && x >= 1
    ensures d * x >= d
  {
    assert d * x == d + d * (x - 1);
  }

  /**
   * The script's three devices: p65 (432×514, R 102), o66 (212×520, R 223) and
   * n67 (336×480, R 48) are shown 80 pixels wide and 95, 196 and 114 pixels high,
   * with corner radii 8160/432, 17840/212 and 3840/336 pixels.
   */
  lemma KnownDeviceStyles()
    ensures GetImageStyle("p65") == ImageStyle(80, 95, Scaled(8160, 432))
    ensures GetImageStyle("o66") == ImageStyle(80, 196, Scaled(17840, 212))
    ensures GetImageStyle("n67") == ImageStyle(80, 114, Scaled(3840, 336))
  {
    assert GetImageStyle("p65") == ImageStyle(80, 95, Scaled(8160, 432)) by {
      QuotientIsDiv(80 * 514, 432);
    }
    assert GetImageStyle("o66") == ImageStyle(80, 196, Scaled(17840, 212)) by {
      QuotientIsDiv(80 * 520, 212);
    }
    QuotientIsDiv(80 * 480, 336);
  }

  /**
   * A code missing from the tables falls back to a 1×1 reference and a radius of 4:
   * the preview is an 80×80 square and the radius is 4·80/1 = 320 pixels, not 4.
   */
  lemma UnknownDeviceStyle(code: string)
    requires code !in Config.DeviceDimensions && code !in Config.DeviceCornersRaw
    ensures GetImageStyle(code) == ImageStyle(80, 80, Scaled(320, 1))
  {
    QuotientIsDiv(80, 1);
  }

  /** A negative reference width takes the fallback branch: a fixed 4-pixel radius. */
  lemma NegativeWidthFallsBack(w: int, h: int, r: int)
    requires w < 0
    ensures StyleFromReference(w, h, r).radius == FixedPx(4)
  {
  }
}
