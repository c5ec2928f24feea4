/** Overlap of axis-parallel rectangles, as the detectors and the sensor fusion measure it. */
module Overlap {
  /** When two rectangles count as overlapping. */
  type Test = (Rect, Rect) -> bool

  /** A rectangle by its centre and its extent along each axis. */
  datatype Rect = Rect(x: real, y: real, lx: real, ly: real)

  function Min(a: real, b: real): real { if a < b then a else b }
  function Max(a: real, b: real): real { if a < b then b else a }

  /** The extent of the intersection of two intervals, given by centres and lengths. */
  function Shared(x: real, lx: real, y: real, ly: real): real {
    Max(0.0, Min(x + lx / 2.0, y + ly / 2.0) - Max(x - lx / 2.0, y - ly / 2.0))
  }

  /** The area of a rectangle with the given sides. */
  function Product(w: real, h: real): real { w * h }

  function Ratio(areaA: real, areaB: real, inter: real): real {
    var union := areaA + areaB - inter;
    if union <= 0.0 then 0.0 else inter / union
  }

  /** The share of the union of two rectangles that their p by q intersection takes. */
  function Covered(a: Rect, b: Rect, p: real, q: real): real {
    Ratio(Product(a.lx, a.ly), Product(b.lx, b.ly), Product(p, q))
  }

  /** Intersection over union; 0 when the union is empty. */
  function IoU(a: Rect, b: Rect): real {
    Covered(a, b, Shared(a.x, a.lx, b.x, b.lx), Shared(a.y, a.ly, b.y, b.ly))
  }

  lemma SharedIsSymmetric(x: real, lx: real, y: real, ly: real)
    ensures Shared(x, lx, y, ly) == Shared(y, ly, x, lx)
  {
  }

  lemma CoveredIsSymmetric(a: Rect, b: Rect, p: real, q: real)
    ensures Covered(a, b, p, q) == Covered(b, a, p, q)
  {
  }

  lemma IoUIsSymmetric(a: Rect, b: Rect)
    ensures IoU(a, b) == IoU(b, a)
  {
    SharedIsSymmetric(a.x, a.lx, b.x, b.lx);
    SharedIsSymmetric(a.y, a.ly, b.y, b.ly);
    CoveredIsSymmetric(a, b, Shared(a.x, a.lx, b.x, b.lx), Shared(a.y, a.ly, b.y, b.ly));
  }

  lemma ProductMonotone(a: real, b: real, c: real, d: real)
    requires 0.0 <= a <= c && 0.0 <= b <= d
    ensures 0.0 <= a * b <= c * d
  {
    assert a * b <= c * b <= c * d;
  }

  lemma SharedBounds(x: real, lx: real, y: real, ly: real)
    requires 0.0 <= lx && 0.0 <= ly
    ensures 0.0 <= Shared(x, lx, y, ly) <= lx
    ensures Shared(x, lx, y, ly) <= ly
  {
  }

  lemma Quotient(x: real, y: real)
    requires 0.0 <= x <= y && 0.0 < y
    ensures 0.0 <= x / y <= 1.0
  {
  }

  lemma RatioBounds(areaA: real, areaB: real, inter: real)
    requires 0.0 <= inter <= areaA && inter <= areaB
    ensures 0.0 <= Ratio(areaA, areaB, inter) <= 1.0
  {
    if areaA + areaB - inter > 0.0 {
      Quotient(inter, areaA + areaB - inter);
    }
  }

  /** A rectangle of sides p and q inside two others has at most their union. */
  lemma CoveredBounds(a: Rect, b: Rect, p: real, q: real)
    requires 0.0 <= p <= a.lx && 0.0 <= q <= a.ly && p <= b.lx && q <= b.ly
    ensures 0.0 <= Covered(a, b, p, q) <= 1.0
  {
    ProductMonotone(p, q, a.lx, a.ly);
    ProductMonotone(p, q, b.lx, b.ly);
    RatioBounds(a.lx * a.ly, b.lx * b.ly, p * q);
  }

  /** For sizes that are not negative the overlap lies between 0 and 1. */
  lemma IoUIsRatio(a: Rect, b: Rect)
    requires 0.0 <= a.lx && 0.0 <= a.ly && 0.0 <= b.lx && 0.0 <= b.ly
    ensures 0.0 <= IoU(a, b) <= 1.0
  {
    SharedBounds(a.x, a.lx, b.x, b.lx);
    SharedBounds(a.y, a.ly, b.y, b.ly);
    CoveredBounds(a, b, Shared(a.x, a.lx, b.x, b.lx), Shared(a.y, a.ly, b.y, b.ly));
  }

  /** A rectangle that is not degenerate overlaps itself completely. */
  lemma IoUOfSelf(a: Rect)
    requires 0.0 < a.lx && 0.0 < a.ly
    ensures IoU(a, a) == 1.0
  {
    assert Shared(a.x, a.lx, a.x, a.lx) == a.lx && Shared(a.y, a.ly, a.y, a.ly) == a.ly;
    var area := a.lx * a.ly;
    assert area > 0.0;
    assert IoU(a, a) == area / area;
  }

  // ---------- the overlap as a share of areas ----------

  /** The point (px, py) lies in the rectangle. */
  predicate Contains(r: Rect, px: real, py: real) {
    r.x - r.lx / 2.0 <= px <= r.x + r.lx / 2.0 && r.y - r.ly / 2.0 <= py <= r.y + r.ly / 2.0
  }

  datatype Bounds = Bounds(left: real, right: real, bottom: real, top: real)

  /** The bounds of what two rectangles have in common. */
  function Common(a: Rect, b: Rect): Bounds {
    Bounds(Max(a.x - a.lx / 2.0, b.x - b.lx / 2.0), Min(a.x + a.lx / 2.0, b.x + b.lx / 2.0),
           Max(a.y - a.ly / 2.0, b.y - b.ly / 2.0), Min(a.y + a.ly / 2.0, b.y + b.ly / 2.0))
  }

  /** A point lies in both rectangles exactly when it lies within the common bounds. */
  lemma CommonPoints(a: Rect, b: Rect, px: real, py: real)
    ensures Contains(a, px, py) && Contains(b, px, py) <==>
            var c := Common(a, b); c.left <= px <= c.right && c.bottom <= py <= c.top
  {
  }

  /** The length of an interval; one whose ends cross is empty. */
  function Extent(lo: real, hi: real): real {
    if lo < hi then hi - lo else 0.0
  }

  /** The area within bounds. */
  function Area(c: Bounds): real {
    Product(Extent(c.left, c.right), Extent(c.bottom, c.top))
  }

  /** The area that two rectangles cover together, the common part counted once. */
  function UnionArea(a: Rect, b: Rect): real {
    Product(a.lx, a.ly) + Product(b.lx, b.ly) - Area(Common(a, b))
  }

  lemma ExtentIsShared(x: real, lx: real, y: real, ly: real)
    ensures Extent(Max(x - lx / 2.0, y - ly / 2.0), Min(x + lx / 2.0, y + ly / 2.0)) == Shared(x, lx, y, ly) >= 0.0
  {
  }

  lemma AreaIsShared(a: Rect, b: Rect)
    ensures Area(Common(a, b)) == Product(Shared(a.x, a.lx, b.x, b.lx), Shared(a.y, a.ly, b.y, b.ly)) >= 0.0
  {
    ExtentIsShared(a.x, a.lx, b.x, b.lx);
    ExtentIsShared(a.y, a.ly, b.y, b.ly);
    ProductMonotone(0.0, 0.0, Shared(a.x, a.lx, b.x, b.lx), Shared(a.y, a.ly, b.y, b.ly));
  }

  lemma SignOfProduct(x: real, u: real)
    requires u > 0.0
    ensures x * u > 0.0 <==> x > 0.0
    ensures x * u == 0.0 <==> x == 0.0
  {
  }

  /** A quotient is at least, or above, t exactly when the dividend is that share of the divisor. */
  lemma QuotientIsShare(i: real, u: real, t: real, q: real)
    requires u > 0.0 && q == i / u
    ensures q >= t <==> i >= t * u
    ensures q > t <==> i > t * u
  {
    assert q * u == i;
    assert (q - t) * u == i - t * u;
    SignOfProduct(q - t, u);
  }

  lemma RatioIsQuotient(areaA: real, areaB: real, inter: real, u: real)
    requires u == areaA + areaB - inter
    ensures Ratio(areaA, areaB, inter) == if u > 0.0 then inter / u else 0.0
  {
  }

  /** The overlap is the common area over the union. */
  lemma IoUIsQuotient(a: Rect, b: Rect) returns (i: real, u: real)
    ensures i == Area(Common(a, b)) && u == UnionArea(a, b) && i >= 0.0
    ensures IoU(a, b) == if u > 0.0 then i / u else 0.0
  {
    AreaIsShared(a, b);
    i, u := Area(Common(a, b)), UnionArea(a, b);
    RatioIsQuotient(Product(a.lx, a.ly), Product(b.lx, b.ly), i, u);
  }

  lemma ShareAtLeast(i: real, u: real, t: real, q: real)
    requires t > 0.0 && q == if u > 0.0 then i / u else 0.0
    ensures q >= t <==> u > 0.0 && i >= t * u
  {
    if u > 0.0 {
      QuotientIsShare(i, u, t, q);
    }
  }

  /** The overlap is at least t exactly when the common area is at least that share of the union, which is not empty. */
  lemma IoUAtLeast(a: Rect, b: Rect, t: real)
    requires t > 0.0
    ensures IoU(a, b) >= t <==> UnionArea(a, b) > 0.0 && Area(Common(a, b)) >= t * UnionArea(a, b)
  {
    var i, u := IoUIsQuotient(a, b);
    ShareAtLeast(i, u, t, IoU(a, b));
  }

  /** The common area is more than the share t of the union. */
  predicate Exceeds(a: Rect, b: Rect, t: real) {
    t < 0.0 || (UnionArea(a, b) > 0.0 && Area(Common(a, b)) > t * UnionArea(a, b))
  }

  lemma ShareAbove(i: real, u: real, t: real, q: real)
    requires i >= 0.0 && q == if u > 0.0 then i / u else 0.0
    ensures q > t <==> t < 0.0 || (u > 0.0 && i > t * u)
  {
    if u > 0.0 {
      QuotientIsShare(i, u, t, q);
      QuotientIsShare(i, u, 0.0, q);
    }
  }

  /** The overlap is more than t exactly when the common area is more than that share of the union. */
  lemma IoUAbove(a: Rect, b: Rect, t: real)
    ensures IoU(a, b) > t <==> Exceeds(a, b, t)
  {
    var i, u := IoUIsQuotient(a, b);
    ShareAbove(i, u, t, IoU(a, b));
  }

  /** Rectangles without a common point do not overlap. */
  lemma IoUOfDisjoint(a: Rect, b: Rect)
    requires 0.0 < a.lx && 0.0 < a.ly && 0.0 < b.lx && 0.0 < b.ly
    requires forall px, py :: !(Contains(a, px, py) && Contains(b, px, py))
    ensures IoU(a, b) == 0.0
  {
    var c := Common(a, b);
    AreaIsShared(a, b);
    CommonPoints(a, b, c.left, c.bottom);
    assert !(Contains(a, c.left, c.bottom) && Contains(b, c.left, c.bottom));
  }

  lemma CommonOfNested(a: Rect, b: Rect)
    requires 0.0 < a.lx && 0.0 < a.ly && Inside(a, b)
    ensures Area(Common(a, b)) == a.lx * a.ly && 0.0 < a.lx * a.ly <= b.lx * b.ly
  {
    var c := Common(a, b);
    assert c.right - c.left == a.lx && c.top - c.bottom == a.ly;
    SignOfProduct(a.lx, a.ly);
    ProductMonotone(a.lx, a.ly, b.lx, b.ly);
  }

  predicate Inside(a: Rect, b: Rect) {
    && b.x - b.lx / 2.0 <= a.x - a.lx / 2.0 && a.x + a.lx / 2.0 <= b.x + b.lx / 2.0
    && b.y - b.ly / 2.0 <= a.y - a.ly / 2.0 && a.y + a.ly / 2.0 <= b.y + b.ly / 2.0
  }

  /** The overlap of a rectangle with one that contains it is the quotient of their areas. */
  lemma IoUOfNested(a: Rect, b: Rect)
    requires 0.0 < a.lx && 0.0 < a.ly && Inside(a, b)
    ensures b.lx * b.ly > 0.0 && IoU(a, b) == (a.lx * a.ly) / (b.lx * b.ly)
  {
    CommonOfNested(a, b);
    var i, u := IoUIsQuotient(a, b);
    assert i == a.lx * a.ly && u == b.lx * b.ly;
  }

  lemma FullProduct(w: real, h: real, p: real, q: real)
    requires 0.0 <= w <= p && 0.0 <= h <= q && 0.0 < p && 0.0 < q && w * h == p * q
    ensures w == p && h == q
  {
    assert p * q - w * h == (p - w) * q + (q - h) * w;
    ProductMonotone(0.0, 0.0, p - w, q);
    ProductMonotone(0.0, 0.0, q - h, w);
    SignOfProduct(p - w, q);
    SignOfProduct(q - h, p);
  }

  /** Intervals of one length that share all of it are equal. */
  lemma SharedAll(x: real, lx: real, y: real, ly: real)
    requires 0.0 < lx && Shared(x, lx, y, ly) == lx == ly
    ensures x == y
  {
  }

  lemma FullIsEqual(a: Rect, b: Rect, w: real, h: real)
    requires 0.0 < a.lx && 0.0 < a.ly && 0.0 < b.lx && 0.0 < b.ly
    requires w == Shared(a.x, a.lx, b.x, b.lx) && h == Shared(a.y, a.ly, b.y, b.ly)
    requires w * h == a.lx * a.ly == b.lx * b.ly
    ensures a == b
  {
    SharedBounds(a.x, a.lx, b.x, b.lx);
    SharedBounds(a.y, a.ly, b.y, b.ly);
    FullProduct(w, h, a.lx, a.ly);
    FullProduct(w, h, b.lx, b.ly);
    SharedAll(a.x, a.lx, b.x, b.lx);
    SharedAll(a.y, a.ly, b.y, b.ly);
  }

  lemma CommonIsWhole(a: Rect, b: Rect, w: real, h: real)
    requires 0.0 < a.lx && 0.0 < a.ly && 0.0 < b.lx && 0.0 < b.ly
    requires w == Shared(a.x, a.lx, b.x, b.lx) && h == Shared(a.y, a.ly, b.y, b.ly)
    requires w * h >= a.lx * a.ly + b.lx * b.ly - w * h
    ensures w * h == a.lx * a.ly == b.lx * b.ly
  {
    SharedBounds(a.x, a.lx, b.x, b.lx);
    SharedBounds(a.y, a.ly, b.y, b.ly);
    ProductMonotone(w, h, a.lx, a.ly);
    ProductMonotone(w, h, b.lx, b.ly);
  }

  /** Only equal rectangles overlap completely. */
  lemma IoUIsOneOnlyForEqual(a: Rect, b: Rect)
    requires 0.0 < a.lx && 0.0 < a.ly && 0.0 < b.lx && 0.0 < b.ly
    ensures IoU(a, b) == 1.0 <==> a == b
  {
    if a == b {
      IoUOfSelf(a);
    } else if IoU(a, b) == 1.0 {
      var w, h := Shared(a.x, a.lx, b.x, b.lx), Shared(a.y, a.ly, b.y, b.ly);
      AreaIsShared(a, b);
      IoUAtLeast(a, b, 1.0);
      CommonIsWhole(a, b, w, h);
      FullIsEqual(a, b, w, h);
    }
  }
}
