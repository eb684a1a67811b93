/**
 * The glass border of popup cards.  Coverage is sampled at four points a pixel; coordinates are scaled by
 * four here, so that pixel `x` has its samples at `4x + 1` and `4x + 3`.
 */
module RoundedRect {
  import opened Arithmetic
  import opened Pixels

  /** Along one axis: the stretch between the two corner centres. */
  predicate InBand(s: int, size: int, r: int) {
    r <= s < size - r
  }

  /** Along one axis: the way from the nearer corner centre. */
  function Away(s: int, size: int, r: int): int {
    s - if s < r then r else size - r
  }

  function Square(d: int): int { d * d }

  /** The sample (sx / 4, sy / 4) lies in a `w` by `h` rectangle with corners of the given radius. */
  predicate SampleInside(sx: int, sy: int, w: int, h: int, radius: int) {
    var r := 4 * radius;
    if sx < 0 || sy < 0 || sx >= 4 * w || sy >= 4 * h then false
    else if InBand(sx, 4 * w, r) then true
    else if InBand(sy, 4 * h, r) then true
    else Square(Away(sx, 4 * w, r)) + Square(Away(sy, 4 * h, r)) <= Square(r)
  }

  /** The largest radius up to the given one that leaves room for the corners. */
  function ClampedRadius(w: int, h: int, radius: int): (r: int)
    requires w > 0 && h > 0
    ensures 0 <= r <= Max(radius, 0) && 2 * r <= w && 2 * r <= h
    ensures r == Max(radius, 0) || 2 * (r + 1) > w || 2 * (r + 1) > h
  {
    Min(Min(Max(radius, 0), w / 2), h / 2)
  }

  function Hit(sx: int, sy: int, w: int, h: int, radius: int): nat {
    if SampleInside(sx, sy, w, h, radius) then 1 else 0
  }

  /** How many of the four samples of a pixel lie inside. */
  function Hits(x: int, y: int, w: int, h: int, radius: int): (n: nat)
    ensures n <= 4
  {
    Hit(4 * x + 1, 4 * y + 1, w, h, radius) + Hit(4 * x + 3, 4 * y + 1, w, h, radius)
    + Hit(4 * x + 1, 4 * y + 3, w, h, radius) + Hit(4 * x + 3, 4 * y + 3, w, h, radius)
  }

  function Coverage(x: int, y: int, w: int, h: int, radius: int): (c: Byte)
  {
    if w <= 0 || h <= 0 || x < 0 || y < 0 || x >= w || y >= h then 0
    else
      var r := ClampedRadius(w, h, radius);
      if r == 0 then 255 else Hits(x, y, w, h, r) * 255 / 4
  }

  method RoundedRectCoverage(x: int, y: int, w: int, h: int, radius: int) returns (c: Byte)
    ensures c == Coverage(x, y, w, h, radius)
  {
    if w <= 0 || h <= 0 || x < 0 || y < 0 || x >= w || y >= h {
      return 0;
    }
    hide SampleInside, ClampedRadius, Hits, HitsBefore;
    var r := ClampedRadius(w, h, radius);
    if r == 0 {
      return 255;
    }
    var inside: nat := 0;
    HitsInOrder(x, y, w, h, r);
    for row := 0 to 2
      invariant inside == HitsBefore(x, y, w, h, r, row, 0)
    {
      for col := 0 to 2
        invariant inside == HitsBefore(x, y, w, h, r, row, col)
      {
        if SampleInside(4 * x + 2 * col + 1, 4 * y + 2 * row + 1, w, h, r) {
          inside := inside + 1;
        }
      }
    }
    assert inside == Hits(x, y, w, h, r);
    ScaledCount(inside);
    c := if inside == 0 then 0 else if inside == 4 then 255 else Truncate(inside * 255 / 4);
  }

  lemma ScaledCount(n: nat)
    requires n <= 4
    ensures n * 255 / 4 == if n == 0 then 0 else if n == 4 then 255 else Truncate(n * 255 / 4)
  {
  }

  /** Hits among the samples before row `row`, column `col` of the two by two grid. */
  function HitsBefore(x: int, y: int, w: int, h: int, r: int, row: nat, col: nat): nat
    requires row <= 2 && col <= 2
  {
    (if 2 * row + col > 0 then Hit(4 * x + 1, 4 * y + 1, w, h, r) else 0)
    + (if 2 * row + col > 1 then Hit(4 * x + 3, 4 * y + 1, w, h, r) else 0)
    + (if 2 * row + col > 2 then Hit(4 * x + 1, 4 * y + 3, w, h, r) else 0)
    + (if 2 * row + col > 3 then Hit(4 * x + 3, 4 * y + 3, w, h, r) else 0)
  }

  lemma {:induction false} HitsInOrder(x: int, y: int, w: int, h: int, r: int)
    ensures HitsBefore(x, y, w, h, r, 0, 0) == 0
    ensures HitsBefore(x, y, w, h, r, 2, 0) == Hits(x, y, w, h, r)
    ensures forall row :: 0 <= row < 2 ==> HitsBefore(x, y, w, h, r, row, 2) == HitsBefore(x, y, w, h, r, row + 1, 0)
    ensures forall row, col :: 0 <= row < 2 && 0 <= col < 2 ==>
      HitsBefore(x, y, w, h, r, row, col + 1)
      == HitsBefore(x, y, w, h, r, row, col) + Hit(4 * x + 2 * col + 1, 4 * y + 2 * row + 1, w, h, r)
  {
    hide Hit;
  }

  // ----- The shape -----

  /** A corner centre, or any point of the rectangle between the four of them. */
  predicate InCore(cx: int, cy: int, w: int, h: int, radius: int) {
    4 * radius <= cx <= 4 * w - 4 * radius && 4 * radius <= cy <= 4 * h - 4 * radius
  }

  predicate WithinRadius(sx: int, sy: int, cx: int, cy: int, radius: int) {
    Square(sx - cx) + Square(sy - cy) <= Square(4 * radius)
  }

  lemma SquareMonotone(a: int, b: int)
    requires -b <= a <= b
    ensures 0 <= Square(a) <= Square(b)
  {
    if a >= 0 {
      assert a * a <= a * b && a * b <= b * b;
    } else {
      assert a * a == (-a) * (-a);
      assert (-a) * (-a) <= (-a) * b && (-a) * b <= b * b;
    }
  }

  /**
   * The sample test decides the rounded rectangle: the points of the rectangle within the radius of its
   * core, the rectangle between the corner centres.
   */
  lemma {:induction false} SampleInsideIff(sx: int, sy: int, w: int, h: int, radius: int)
    requires 0 <= 2 * radius <= w && 2 * radius <= h
    ensures SampleInside(sx, sy, w, h, radius)
       <==> && 0 <= sx < 4 * w && 0 <= sy < 4 * h
            && exists cx, cy :: InCore(cx, cy, w, h, radius) && WithinRadius(sx, sy, cx, cy, radius)
  {
    if 0 <= sx < 4 * w && 0 <= sy < 4 * h {
      if SampleInside(sx, sy, w, h, radius) {
        NearestCentre(sx, sy, w, h, radius);
      }
      forall cx, cy | InCore(cx, cy, w, h, radius) && WithinRadius(sx, sy, cx, cy, radius)
        ensures SampleInside(sx, sy, w, h, radius)
      {
        OtherCentre(sx, sy, w, h, radius, cx, cy);
      }
    }
  }

  /** The sample lies in the rectangle, within the radius of its core. */
  ghost predicate InShape(sx: int, sy: int, w: int, h: int, radius: int) {
    && 0 <= sx < 4 * w && 0 <= sy < 4 * h
    && exists cx, cy :: InCore(cx, cy, w, h, radius) && WithinRadius(sx, sy, cx, cy, radius)
  }

  ghost function InShapeCount(sx: int, sy: int, w: int, h: int, radius: int): nat {
    if InShape(sx, sy, w, h, radius) then 1 else 0
  }

  lemma {:induction false} HitIsInShape(sx: int, sy: int, w: int, h: int, radius: int)
    requires 0 <= 2 * radius <= w && 2 * radius <= h
    ensures Hit(sx, sy, w, h, radius) == InShapeCount(sx, sy, w, h, radius)
  {
    SampleInsideIff(sx, sy, w, h, radius);
    hide SampleInside, InCore, WithinRadius;
  }

  /** Coverage is the share of a pixel's samples that lie in the shape, corners sharp or round; outside it is zero. */
  lemma {:induction false} CoverageIsTheShare(x: int, y: int, w: int, h: int, radius: int)
    ensures !(0 <= x < w && 0 <= y < h) ==> Coverage(x, y, w, h, radius) == 0
    ensures 0 <= x < w && 0 <= y < h ==>
      var r := ClampedRadius(w, h, radius);
      var samples := InShapeCount(4 * x + 1, 4 * y + 1, w, h, r) + InShapeCount(4 * x + 3, 4 * y + 1, w, h, r)
                     + InShapeCount(4 * x + 1, 4 * y + 3, w, h, r) + InShapeCount(4 * x + 3, 4 * y + 3, w, h, r);
      4 * Coverage(x, y, w, h, radius) <= 255 * samples < 4 * Coverage(x, y, w, h, radius) + 4
  {
    if 0 <= x < w && 0 <= y < h {
      var r := ClampedRadius(w, h, radius);
      CoverageOfHits(x, y, w, h, radius);
      HitsInShape(x, y, w, h, r);
      Quarters(Hits(x, y, w, h, r));
      hide *;
    }
  }

  lemma {:induction false} CoverageOfHits(x: int, y: int, w: int, h: int, radius: int)
    requires 0 <= x < w && 0 <= y < h
    ensures Coverage(x, y, w, h, radius) == Hits(x, y, w, h, ClampedRadius(w, h, radius)) * 255 / 4
  {
    hide Hits, ClampedRadius;
    SharpPixel(x, y, w, h);
  }

  lemma Quarters(n: nat)
    ensures 4 * (n * 255 / 4) <= 255 * n < 4 * (n * 255 / 4) + 4
  {
  }

  lemma {:induction false} HitsInShape(x: int, y: int, w: int, h: int, r: int)
    requires 0 <= 2 * r <= w && 2 * r <= h
    ensures Hits(x, y, w, h, r)
         == InShapeCount(4 * x + 1, 4 * y + 1, w, h, r) + InShapeCount(4 * x + 3, 4 * y + 1, w, h, r)
            + InShapeCount(4 * x + 1, 4 * y + 3, w, h, r) + InShapeCount(4 * x + 3, 4 * y + 3, w, h, r)
  {
    hide Hit, InShapeCount;
    HitIsInShape(4 * x + 1, 4 * y + 1, w, h, r);
    HitIsInShape(4 * x + 3, 4 * y + 1, w, h, r);
    HitIsInShape(4 * x + 1, 4 * y + 3, w, h, r);
    HitIsInShape(4 * x + 3, 4 * y + 3, w, h, r);
  }

  lemma {:induction false} SharpPixel(x: int, y: int, w: int, h: int)
    requires 0 <= x < w && 0 <= y < h
    ensures Hits(x, y, w, h, 0) == 4
  {
    hide SampleInside;
    SharpSamples(4 * x + 1, 4 * y + 1, w, h);
    SharpSamples(4 * x + 3, 4 * y + 1, w, h);
    SharpSamples(4 * x + 1, 4 * y + 3, w, h);
    SharpSamples(4 * x + 3, 4 * y + 3, w, h);
  }

  lemma {:induction false} SharpSamples(sx: int, sy: int, w: int, h: int)
    requires 0 <= sx < 4 * w && 0 <= sy < 4 * h
    ensures SampleInside(sx, sy, w, h, 0)
  {
  }

  lemma {:induction false} NearestCentre(sx: int, sy: int, w: int, h: int, radius: int)
    requires 0 <= 2 * radius <= w && 2 * radius <= h && 0 <= sx < 4 * w && 0 <= sy < 4 * h
    requires SampleInside(sx, sy, w, h, radius)
    ensures exists cx, cy :: InCore(cx, cy, w, h, radius) && WithinRadius(sx, sy, cx, cy, radius)
  {
    var r := 4 * radius;
    var cx := if InBand(sx, 4 * w, r) then sx else sx - Away(sx, 4 * w, r);
    var cy := if InBand(sy, 4 * h, r) then sy else sy - Away(sy, 4 * h, r);
    assert Square(0) == 0;
    if InBand(sx, 4 * w, r) { SquareMonotone(sy - cy, r); }
    if InBand(sy, 4 * h, r) { SquareMonotone(sx - cx, r); }
    hide Square;
    assert InCore(cx, cy, w, h, radius) && WithinRadius(sx, sy, cx, cy, radius);
  }

  lemma {:induction false} OtherCentre(sx: int, sy: int, w: int, h: int, radius: int, cx: int, cy: int)
    requires 0 <= 2 * radius <= w && 2 * radius <= h && 0 <= sx < 4 * w && 0 <= sy < 4 * h
    requires InCore(cx, cy, w, h, radius) && WithinRadius(sx, sy, cx, cy, radius)
    ensures SampleInside(sx, sy, w, h, radius)
  {
    var r := 4 * radius;
    if !InBand(sx, 4 * w, r) && !InBand(sy, 4 * h, r) {
      FartherThan(Away(sx, 4 * w, r), sx - cx);
      FartherThan(Away(sy, 4 * h, r), sy - cy);
      hide Square;
    }
  }

  lemma FartherThan(near: int, far: int)
    requires far <= near <= 0 || 0 <= near <= far
    ensures Square(near) <= Square(far)
  {
    if 0 <= near <= far {
      SquareMonotone(near, far);
    } else {
      SquareMonotone(near, -far);
      assert Square(-far) == Square(far);
    }
  }

  // ----- Symmetry -----

  /** Mirroring one axis keeps the band, and turns the way from the nearer centre round. */
  lemma {:induction false} AxisMirrored(s: int, size: int, r: int)
    requires s % 4 != 0 && r % 4 == 0 && size % 4 == 0 && 0 <= 2 * r <= size
    ensures 0 <= size - s < size <==> 0 <= s < size
    ensures InBand(size - s, size, r) <==> InBand(s, size, r)
    ensures !InBand(s, size, r) ==> Square(Away(size - s, size, r)) == Square(Away(s, size, r))
  {
    hide Square;
    OffCentre(s, size, r);
    if !InBand(s, size, r) {
      SquareNegated(Away(s, size, r));
    }
  }

  /** Samples lie on no grid line, so the two sides of a centre do not meet. */
  lemma {:induction false} OffCentre(s: int, size: int, r: int)
    requires s % 4 != 0 && r % 4 == 0 && size % 4 == 0
    ensures s != 0 && s != size && s != r && s != size - r
  {
  }

  lemma {:induction false} SquareNegated(d: int)
    ensures Square(-d) == Square(d)
  {
  }

  lemma {:induction false} HitMirrored(sx: int, sy: int, w: int, h: int, radius: int)
    requires sx % 4 != 0 && sy % 4 != 0 && 0 <= 2 * radius <= w && 2 * radius <= h
    ensures Hit(4 * w - sx, sy, w, h, radius) == Hit(sx, sy, w, h, radius)
    ensures Hit(sx, 4 * h - sy, w, h, radius) == Hit(sx, sy, w, h, radius)
  {
    hide InBand, Away, Square;
    SampleMirrored(sx, w, radius);
    SampleMirrored(sy, h, radius);
  }

  lemma {:induction false} SampleMirrored(s: int, size: int, radius: int)
    requires s % 4 != 0 && 0 <= 2 * radius <= size
    ensures 0 <= 4 * size - s < 4 * size <==> 0 <= s < 4 * size
    ensures InBand(4 * size - s, 4 * size, 4 * radius) <==> InBand(s, 4 * size, 4 * radius)
    ensures !InBand(s, 4 * size, 4 * radius) ==>
      Square(Away(4 * size - s, 4 * size, 4 * radius)) == Square(Away(s, 4 * size, 4 * radius))
  {
    hide InBand, Away, Square;
    AxisMirrored(s, 4 * size, 4 * radius);
  }

  /** Coverage is unchanged by mirroring the card left to right and top to bottom. */
  lemma {:induction false} CoverageSymmetric(x: int, y: int, w: int, h: int, radius: int)
    ensures Coverage(w - 1 - x, y, w, h, radius) == Coverage(x, y, w, h, radius)
    ensures Coverage(x, h - 1 - y, w, h, radius) == Coverage(x, y, w, h, radius)
  {
    if w > 0 && h > 0 {
      HitsMirrored(x, y, w, h, ClampedRadius(w, h, radius));
      hide Hits;
    }
  }

  lemma {:induction false} HitsMirrored(x: int, y: int, w: int, h: int, r: int)
    requires 0 <= 2 * r <= w && 2 * r <= h
    ensures Hits(w - 1 - x, y, w, h, r) == Hits(x, y, w, h, r)
    ensures Hits(x, h - 1 - y, w, h, r) == Hits(x, y, w, h, r)
  {
    hide Hit;
    HitMirrored(4 * x + 1, 4 * y + 1, w, h, r);
    HitMirrored(4 * x + 3, 4 * y + 1, w, h, r);
    HitMirrored(4 * x + 1, 4 * y + 3, w, h, r);
    HitMirrored(4 * x + 3, 4 * y + 3, w, h, r);
    assert 4 * (w - 1 - x) + 1 == 4 * w - (4 * x + 3) && 4 * (w - 1 - x) + 3 == 4 * w - (4 * x + 1);
    assert 4 * (h - 1 - y) + 1 == 4 * h - (4 * y + 3) && 4 * (h - 1 - y) + 3 == 4 * h - (4 * y + 1);
  }

  // ----- The inset shape -----

  /** A sample inside the shape inset by one pixel, with one less radius, is inside the outer shape. */
  lemma {:induction false} SampleInset(sx: int, sy: int, w: int, h: int, radius: int)
    requires 1 <= radius && 2 * radius <= w && 2 * radius <= h
    requires SampleInside(sx - 4, sy - 4, w - 2, h - 2, radius - 1)
    ensures SampleInside(sx, sy, w, h, radius)
  {
    var r := 4 * radius;
    assert InBand(sx - 4, 4 * (w - 2), r - 4) == InBand(sx, 4 * w, r);
    assert InBand(sy - 4, 4 * (h - 2), r - 4) == InBand(sy, 4 * h, r);
    assert Away(sx - 4, 4 * (w - 2), r - 4) == Away(sx, 4 * w, r);
    assert Away(sy - 4, 4 * (h - 2), r - 4) == Away(sy, 4 * h, r);
    SquareGrows(r - 4, r);
    hide InBand, Away, Square;
  }

  lemma SquareGrows(a: int, b: int)
    requires 0 <= a <= b
    ensures Square(a) <= Square(b)
  {
    assert a * a <= a * b && a * b <= b * b;
  }

  /** Every sample of an inner pixel is inside a shape of radius at most one. */
  lemma {:induction false} InnerPixelInside(sx: int, sy: int, w: int, h: int, radius: int)
    requires radius <= 1 && 4 <= sx < 4 * w - 4 && 4 <= sy < 4 * h - 4 && radius >= 0
    ensures SampleInside(sx, sy, w, h, radius)
  {
  }

  /** Whatever the size and radius, the inset shape covers no pixel more than the outer one. */
  lemma {:induction false} InsetCoversNoMore(x: int, y: int, w: int, h: int, radius: int)
    ensures Coverage(x - 1, y - 1, w - 2, h - 2, radius - 1) <= Coverage(x, y, w, h, radius)
  {
    if 1 <= x < w - 1 && 1 <= y < h - 1 {
      RadiusInset(w, h, radius);
      var r := ClampedRadius(w, h, radius);
      hide ClampedRadius, SampleInside, Hits;
      if r == 1 {
        InnerPixelHits(x, y, w, h);
      } else if r > 1 {
        HitsInset(x, y, w, h, r);
      }
    }
  }

  lemma {:induction false} RadiusInset(w: int, h: int, radius: int)
    requires w > 2 && h > 2
    ensures ClampedRadius(w - 2, h - 2, radius - 1) == Max(ClampedRadius(w, h, radius) - 1, 0)
    ensures 0 <= ClampedRadius(w, h, radius) && 2 * ClampedRadius(w, h, radius) <= w
        && 2 * ClampedRadius(w, h, radius) <= h
  {
    assert (w - 2) / 2 == w / 2 - 1 && (h - 2) / 2 == h / 2 - 1;
  }

  lemma {:induction false} InnerPixelHits(x: int, y: int, w: int, h: int)
    requires 1 <= x < w - 1 && 1 <= y < h - 1
    ensures Hits(x, y, w, h, 1) == 4
  {
    InnerPixelInside(4 * x + 1, 4 * y + 1, w, h, 1);
    InnerPixelInside(4 * x + 3, 4 * y + 1, w, h, 1);
    InnerPixelInside(4 * x + 1, 4 * y + 3, w, h, 1);
    InnerPixelInside(4 * x + 3, 4 * y + 3, w, h, 1);
  }

  lemma {:induction false} HitsInset(x: int, y: int, w: int, h: int, r: int)
    requires 1 <= r && 2 * r <= w && 2 * r <= h
    ensures Hits(x - 1, y - 1, w - 2, h - 2, r - 1) <= Hits(x, y, w, h, r)
  {
    hide Hit;
    HitInset(4 * x + 1, 4 * y + 1, w, h, r);
    HitInset(4 * x + 3, 4 * y + 1, w, h, r);
    HitInset(4 * x + 1, 4 * y + 3, w, h, r);
    HitInset(4 * x + 3, 4 * y + 3, w, h, r);
    assert 4 * (x - 1) + 1 == 4 * x + 1 - 4 && 4 * (x - 1) + 3 == 4 * x + 3 - 4;
    assert 4 * (y - 1) + 1 == 4 * y + 1 - 4 && 4 * (y - 1) + 3 == 4 * y + 3 - 4;
  }

  lemma {:induction false} HitInset(sx: int, sy: int, w: int, h: int, radius: int)
    requires 1 <= radius && 2 * radius <= w && 2 * radius <= h
    ensures Hit(sx - 4, sy - 4, w - 2, h - 2, radius - 1) <= Hit(sx, sy, w, h, radius)
  {
    if SampleInside(sx - 4, sy - 4, w - 2, h - 2, radius - 1) {
      SampleInset(sx, sy, w, h, radius);
    }
  }

  // ----- The border -----

  /** `outer.saturating_sub(inner)`. */
  function BorderCoverage(x: int, y: int, w: int, h: int, radius: int): (c: Byte)
    ensures Coverage(x - 1, y - 1, w - 2, h - 2, radius - 1) <= Coverage(x, y, w, h, radius) ==>
      c == Coverage(x, y, w, h, radius) - Coverage(x - 1, y - 1, w - 2, h - 2, radius - 1)
  {
    Max(Coverage(x, y, w, h, radius) - Coverage(x - 1, y - 1, w - 2, h - 2, radius - 1), 0)
  }

  /** The subtraction never saturates: inside and border coverage add up to the outer shape. */
  lemma {:induction false} BorderIsExact(x: int, y: int, w: int, h: int, radius: int)
    ensures BorderCoverage(x, y, w, h, radius) + Coverage(x - 1, y - 1, w - 2, h - 2, radius - 1)
         == Coverage(x, y, w, h, radius)
  {
    InsetCoversNoMore(x, y, w, h, radius);
  }

  /** The border is as symmetric as the shape. */
  lemma {:induction false} BorderSymmetric(x: int, y: int, w: int, h: int, radius: int)
    ensures BorderCoverage(w - 1 - x, y, w, h, radius) == BorderCoverage(x, y, w, h, radius)
    ensures BorderCoverage(x, h - 1 - y, w, h, radius) == BorderCoverage(x, y, w, h, radius)
  {
    hide Coverage;
    CoverageSymmetric(x, y, w, h, radius);
    CoverageSymmetric(x - 1, y - 1, w - 2, h - 2, radius - 1);
  }

  /** Products of two bytes fit sixteen bits, so nothing wraps. */
  function BorderPixel(color: Color, coverage: Byte): Pixel {
    var alpha := Truncate(color.a * coverage / 255);
    Pixel(Truncate(color.b * alpha / 255), Truncate(color.g * alpha / 255), Truncate(color.r * alpha / 255), alpha)
  }

  lemma {:induction false} ScaledByte(v: Byte, alpha: Byte)
    ensures 0 <= v * alpha <= 255 * alpha && v * alpha / 255 <= alpha && Truncate(v * alpha / 255) == v * alpha / 255
  {
    ProductOfBytes(v, alpha);
    Quotient(v * alpha, alpha);
  }

  lemma ProductOfBytes(v: int, alpha: int)
    requires 0 <= v <= 255 && 0 <= alpha
    ensures 0 <= v * alpha <= 255 * alpha
  {
  }

  lemma Quotient(n: int, alpha: Byte)
    requires 0 <= n <= 255 * alpha
    ensures 0 <= n / 255 <= alpha && Truncate(n / 255) == n / 255
  {
  }

  /** A border pixel is validly premultiplied, and no more opaque than the colour and the coverage allow. */
  lemma {:induction false} BorderPixelPremultiplied(color: Color, coverage: Byte)
    ensures Premultiplied(BorderPixel(color, coverage))
    ensures BorderPixel(color, coverage).a <= color.a && BorderPixel(color, coverage).a <= coverage
  {
    ScaledByte(color.a, coverage);
    ScaledByte(coverage, color.a);
    assert color.a * coverage == coverage * color.a;
    var alpha := Truncate(color.a * coverage / 255);
    ScaledByte(color.b, alpha);
    ScaledByte(color.g, alpha);
    ScaledByte(color.r, alpha);
  }

  /** Its alpha is the colour's share of the coverage, and each channel the colour's own share of that alpha. */
  lemma {:induction false} BorderPixelIsTheColour(color: Color, coverage: Byte)
    ensures
      var p := BorderPixel(color, coverage);
      && IsShare(p.a, color.a * coverage)
      && IsShare(p.b, color.b * p.a) && IsShare(p.g, color.g * p.a) && IsShare(p.r, color.r * p.a)
  {
    ScaledByte(color.a, coverage);
    ScaledByte(coverage, color.a);
    assert color.a * coverage == coverage * color.a;
    var alpha := Truncate(color.a * coverage / 255);
    DividedIsShare(color.a * coverage);
    ScaledByte(color.b, alpha);
    ScaledByte(color.g, alpha);
    ScaledByte(color.r, alpha);
    DividedIsShare(color.b * alpha);
    DividedIsShare(color.g * alpha);
    DividedIsShare(color.r * alpha);
    hide IsShare, Truncate;
  }

  lemma DividedIsShare(n: int)
    ensures IsShare(n / 255, n)
  {
  }

  /** Byte `i` of the buffer after the border of `rect` was drawn. */
  function BorderByte(was: seq<Byte>, i: nat, bufW: nat, bufH: nat, rect: Rect, color: Color, radius: int): Byte
    requires i < |was| && bufW > 0
  {
    var x, y := PixelX(i, bufW) - rect.x, PixelY(i, bufW) - rect.y;
    if && PixelY(i, bufW) < bufH && 0 <= x < rect.w && 0 <= y < rect.h
       && Offset(PixelX(i, bufW), PixelY(i, bufW), bufW) + 4 <= |was|
       && BorderCoverage(x, y, rect.w, rect.h, radius) > 0
    then Channel(BorderPixel(color, BorderCoverage(x, y, rect.w, rect.h, radius)), i % 4)
    else was[i]
  }

  /** The pixel of byte `i` comes before (x, y) of `rect` in drawing order. */
  predicate Before(i: nat, bufW: nat, rect: Rect, x: int, y: int)
    requires bufW > 0
  {
    PixelY(i, bufW) - rect.y < y || (PixelY(i, bufW) - rect.y == y && PixelX(i, bufW) - rect.x < x)
  }

  ghost predicate DrawnBefore(buf: array<Byte>, was: seq<Byte>, bufW: nat, bufH: nat, rect: Rect, color: Color,
                              radius: int, x: int, y: int)
    requires bufW > 0 && buf.Length == |was|
    reads buf
  {
    forall i :: 0 <= i < buf.Length ==>
      buf[i] == if Before(i, bufW, rect, x, y) then BorderByte(was, i, bufW, bufH, rect, color, radius) else was[i]
  }

  method DrawCardBorderInRect(buf: array<Byte>, bufW: int, bufH: int, rect: Rect, color: Color, radius: int)
    modifies buf
    ensures bufW <= 0 || bufH <= 0 || rect.w <= 0 || rect.h <= 0 ==> buf[..] == old(buf[..])
    ensures bufW > 0 && bufH > 0 && rect.w > 0 && rect.h > 0 ==>
      forall i :: 0 <= i < buf.Length ==>
        buf[i] == BorderByte(old(buf[..]), i, bufW, bufH, rect, color, radius)
  {
    if bufW <= 0 || bufH <= 0 || rect.w <= 0 || rect.h <= 0 {
      return;
    }
    hide BorderByte, PixelX, PixelY, Offset, Coverage;
    ghost var was := buf[..];
    NothingBefore(was, bufW, bufH, rect, color, radius);
    for y := 0 to rect.h
      invariant DrawnBefore(buf, was, bufW, bufH, rect, color, radius, 0, y)
    {
      StartOfRow(was, bufW, bufH, rect, color, radius, y);
      for x := 0 to rect.w
        invariant DrawnBefore(buf, was, bufW, bufH, rect, color, radius, x, y)
      {
        DrawBorderPixel(buf, was, bufW, bufH, rect, color, radius, x, y);
      }
      EndOfRow(was, bufW, bufH, rect, color, radius, y);
    }
    AllDrawn(was, bufW, bufH, rect, color, radius);
  }

  /** One turn of the inner loop. */
  method DrawBorderPixel(buf: array<Byte>, ghost was: seq<Byte>, bufW: nat, bufH: nat, rect: Rect, color: Color,
                         radius: int, x: int, y: int)
    requires bufW > 0 && |was| == buf.Length && 0 <= x < rect.w && 0 <= y < rect.h
    requires DrawnBefore(buf, was, bufW, bufH, rect, color, radius, x, y)
    modifies buf
    ensures DrawnBefore(buf, was, bufW, bufH, rect, color, radius, x + 1, y)
  {
    hide BorderByte, Before, PixelX, PixelY, Offset, Coverage, BorderPixel, Channel;
    var py, px := rect.y + y, rect.x + x;
    ghost var before := buf[..];
    ghost var at := -4;
    ghost var pixel := BorderPixel(color, BorderCoverage(x, y, rect.w, rect.h, radius));
    if 0 <= py < bufH && 0 <= px < bufW {
      var outer := RoundedRectCoverage(x, y, rect.w, rect.h, radius);
      if outer != 0 {
        var inner := RoundedRectCoverage(x - 1, y - 1, rect.w - 2, rect.h - 2, radius - 1);
        var difference: int := outer as int - inner as int;
        var coverage: Byte := Max(difference, 0);
        if coverage != 0 && Offset(px, py, bufW) + 4 <= buf.Length {
          at := Offset(px, py, bufW);
          WritePixel(buf, Offset(px, py, bufW), BorderPixel(color, coverage));
        }
      }
    }
    forall i | 0 <= i < buf.Length
      ensures buf[i] == if Before(i, bufW, rect, x + 1, y)
          then BorderByte(was, i, bufW, bufH, rect, color, radius) else was[i]
    {
      assert before[i] == if Before(i, bufW, rect, x, y)
          then BorderByte(was, i, bufW, bufH, rect, color, radius) else was[i];
      assert buf[i] == if at <= i < at + 4 then Channel(pixel, i - at) else before[i];
      PixelIsNext(was, i, bufW, bufH, rect, color, radius, x, y);
    }
  }

  /** What turning to pixel (x, y) means for byte `i` of the buffer. */
  lemma {:induction false} PixelIsNext(was: seq<Byte>, i: nat, bufW: nat, bufH: nat, rect: Rect, color: Color,
                                       radius: int, x: int, y: int)
    requires bufW > 0 && 0 <= x < rect.w && 0 <= y < rect.h && i < |was|
    ensures
      var py, px := rect.y + y, rect.x + x;
      && (Before(i, bufW, rect, x + 1, y) <==>
            Before(i, bufW, rect, x, y) || (PixelX(i, bufW) == px && PixelY(i, bufW) == py))
      && (0 <= py && 0 <= px < bufW ==>
            (PixelX(i, bufW) == px && PixelY(i, bufW) == py <==> Offset(px, py, bufW) <= i < Offset(px, py, bufW) + 4))
      && (PixelX(i, bufW) == px && PixelY(i, bufW) == py ==>
            && 0 <= py && 0 <= px < bufW && !Before(i, bufW, rect, x, y)
            && BorderByte(was, i, bufW, bufH, rect, color, radius)
               == (if py < bufH && Offset(px, py, bufW) + 4 <= |was| && BorderCoverage(x, y, rect.w, rect.h, radius) > 0
                   then Channel(BorderPixel(color, BorderCoverage(x, y, rect.w, rect.h, radius)),
                                i - Offset(px, py, bufW))
                   else was[i]))
  {
    hide PixelX, PixelY, Offset, BorderCoverage, BorderPixel, BorderByte, Channel;
    var py, px := rect.y + y, rect.x + x;
    PixelXInRow(i, bufW);
    if 0 <= py && 0 <= px < bufW {
      BytesOfPixel(i, px, py, bufW);
    }
    if PixelX(i, bufW) == px && PixelY(i, bufW) == py {
      BorderByteHere(was, i, bufW, bufH, rect, color, radius);
    }
  }

  lemma {:induction false} BorderByteHere(was: seq<Byte>, i: nat, bufW: nat, bufH: nat, rect: Rect, color: Color,
      radius: int)
    requires bufW > 0 && i < |was|
    requires 0 <= PixelX(i, bufW) - rect.x < rect.w && 0 <= PixelY(i, bufW) - rect.y < rect.h
    ensures
      var px, py := PixelX(i, bufW), PixelY(i, bufW);
      var coverage := BorderCoverage(px - rect.x, py - rect.y, rect.w, rect.h, radius);
      BorderByte(was, i, bufW, bufH, rect, color, radius)
      == if py < bufH && Offset(px, py, bufW) + 4 <= |was| && coverage > 0
         then Channel(BorderPixel(color, coverage), i % 4) else was[i]
  {
    hide PixelX, PixelY, Offset, BorderCoverage, BorderPixel, Channel;
  }

  lemma {:induction false} NothingBefore(was: seq<Byte>, bufW: nat, bufH: nat, rect: Rect, color: Color, radius: int)
    requires bufW > 0
    ensures forall i :: 0 <= i < |was| && Before(i, bufW, rect, 0, 0) ==>
      BorderByte(was, i, bufW, bufH, rect, color, radius) == was[i]
  {
  }

  lemma {:induction false} StartOfRow(was: seq<Byte>, bufW: nat, bufH: nat, rect: Rect, color: Color, radius: int,
      y: int)
    requires bufW > 0
    ensures forall i :: 0 <= i < |was| && Before(i, bufW, rect, 0, y) && !Before(i, bufW, rect, rect.w, y - 1) ==>
      BorderByte(was, i, bufW, bufH, rect, color, radius) == was[i]
  {
  }

  lemma {:induction false} EndOfRow(was: seq<Byte>, bufW: nat, bufH: nat, rect: Rect, color: Color, radius: int, y: int)
    requires bufW > 0 && rect.w > 0
    ensures forall i :: 0 <= i < |was| && Before(i, bufW, rect, 0, y + 1) && !Before(i, bufW, rect, rect.w, y) ==>
      BorderByte(was, i, bufW, bufH, rect, color, radius) == was[i]
    ensures forall i :: 0 <= i < |was| && Before(i, bufW, rect, rect.w, y) ==> Before(i, bufW, rect, 0, y + 1)
  {
  }

  lemma {:induction false} AllDrawn(was: seq<Byte>, bufW: nat, bufH: nat, rect: Rect, color: Color, radius: int)
    requires bufW > 0 && rect.h > 0
    ensures forall i :: 0 <= i < |was| && !Before(i, bufW, rect, 0, rect.h) ==>
      BorderByte(was, i, bufW, bufH, rect, color, radius) == was[i]
  {
  }

  /** Every pixel of the rectangle that is in the buffer gets the border pixel of its coverage, if it has any. */
  lemma {:induction false} RectIsBordered(was: seq<Byte>, now: seq<Byte>, bufW: nat, bufH: nat, rect: Rect,
                                          color: Color, radius: int, x: nat, y: nat)
    requires |now| == |was| && x < rect.w && y < rect.h
    requires 0 <= rect.x + x < bufW && 0 <= rect.y + y < bufH && Offset(rect.x + x, rect.y + y, bufW) + 4 <= |was|
    requires forall i :: 0 <= i < |was| ==> now[i] == BorderByte(was, i, bufW, bufH, rect, color, radius)
    ensures
      var at := Offset(rect.x + x, rect.y + y, bufW);
      var coverage := BorderCoverage(x, y, rect.w, rect.h, radius);
      PixelAt(now, at) == if coverage > 0 then BorderPixel(color, coverage) else PixelAt(was, at)
  {
    hide PixelX, PixelY, Offset, Coverage, BorderCoverage, BorderPixel, BorderByte;
    var at := Offset(rect.x + x, rect.y + y, bufW);
    var coverage := BorderCoverage(x, y, rect.w, rect.h, radius);
    var pixel := BorderPixel(color, coverage);
    forall c: nat | c < 4 ensures now[at + c] == if coverage > 0 then Channel(pixel, c) else was[at + c] {
      BytesOfPixel(at + c, rect.x + x, rect.y + y, bufW);
      BorderByteHere(was, at + c, bufW, bufH, rect, color, radius);
    }
    assert Channel(pixel, 0) == pixel.b && Channel(pixel, 1) == pixel.g && Channel(pixel, 2) == pixel.r
        && Channel(pixel, 3) == pixel.a;
    assert now[at + 0] == now[at] && was[at + 0] == was[at];
  }

  /** Drawing the border leaves a premultiplied buffer premultiplied, and touches only pixels the border covers. */
  lemma {:induction false} BorderKeepsPremultiplied(was: seq<Byte>, now: seq<Byte>, bufW: nat, bufH: nat, rect: Rect,
                                                    color: Color, radius: int)
    requires bufW > 0 && PremultipliedBuffer(was) && |now| == |was|
    requires forall i :: 0 <= i < |was| ==> now[i] == BorderByte(was, i, bufW, bufH, rect, color, radius)
    ensures PremultipliedBuffer(now)
    ensures forall i :: 0 <= i < |was| && now[i] != was[i] ==>
      BorderCoverage(PixelX(i, bufW) - rect.x, PixelY(i, bufW) - rect.y, rect.w, rect.h, radius) > 0
  {
    forall i | 0 <= i < |was| && now[i] != was[i]
      ensures BorderCoverage(PixelX(i, bufW) - rect.x, PixelY(i, bufW) - rect.y, rect.w, rect.h, radius) > 0
    {
      hide PixelX, PixelY, Offset, BorderCoverage, BorderPixel;
    }
    hide BorderByte;
    forall at: nat | at % 4 == 0 && at + 4 <= |now| ensures Premultiplied(PixelAt(now, at)) {
      PixelBordered(was, at, bufW, bufH, rect, color, radius);
    }
  }

  lemma {:induction false} PixelBordered(was: seq<Byte>, at: nat, bufW: nat, bufH: nat, rect: Rect, color: Color,
      radius: int)
    requires bufW > 0 && PremultipliedBuffer(was) && at % 4 == 0 && at + 4 <= |was|
    ensures Premultiplied(Pixel(BorderByte(was, at, bufW, bufH, rect, color, radius),
                                BorderByte(was, at + 1, bufW, bufH, rect, color, radius),
                                BorderByte(was, at + 2, bufW, bufH, rect, color, radius),
                                BorderByte(was, at + 3, bufW, bufH, rect, color, radius)))
  {
    hide *;
    var coverage := BorderCoverage(PixelX(at, bufW) - rect.x, PixelY(at, bufW) - rect.y, rect.w, rect.h, radius);
    BorderPixelPremultiplied(color, coverage);
    PixelWas(was, at);
    BytesBordered(was, at, bufW, bufH, rect, color, radius);
  }

  lemma PixelWas(was: seq<Byte>, at: nat)
    requires PremultipliedBuffer(was) && at % 4 == 0 && at + 4 <= |was|
    ensures Premultiplied(Pixel(was[at], was[at + 1], was[at + 2], was[at + 3]))
  {
    assert Premultiplied(PixelAt(was, at));
  }

  /** The four bytes of a pixel are bordered together or not at all. */
  lemma {:induction false} BytesBordered(was: seq<Byte>, at: nat, bufW: nat, bufH: nat, rect: Rect, color: Color,
                                         radius: int)
    requires bufW > 0 && at % 4 == 0 && at + 4 <= |was|
    ensures
      var coverage := BorderCoverage(PixelX(at, bufW) - rect.x, PixelY(at, bufW) - rect.y, rect.w, rect.h, radius);
      var bordered := Pixel(BorderByte(was, at, bufW, bufH, rect, color, radius),
                            BorderByte(was, at + 1, bufW, bufH, rect, color, radius),
                            BorderByte(was, at + 2, bufW, bufH, rect, color, radius),
                            BorderByte(was, at + 3, bufW, bufH, rect, color, radius));
      bordered == BorderPixel(color, coverage) || bordered == Pixel(was[at], was[at + 1], was[at + 2], was[at + 3])
  {
    hide *;
    WholePixel(at, bufW);
    FirstOfFour(at);
    ByteBordered(was, at, 0, bufW, bufH, rect, color, radius);
    ByteBordered(was, at, 1, bufW, bufH, rect, color, radius);
    ByteBordered(was, at, 2, bufW, bufH, rect, color, radius);
    ByteBordered(was, at, 3, bufW, bufH, rect, color, radius);
    var coverage := BorderCoverage(PixelX(at, bufW) - rect.x, PixelY(at, bufW) - rect.y, rect.w, rect.h, radius);
    ChannelsOf(BorderPixel(color, coverage));
  }

  lemma FirstOfFour(at: nat)
    requires at % 4 == 0
    ensures (at + 0) % 4 == 0
  {
  }

  lemma ChannelsOf(p: Pixel)
    ensures p == Pixel(Channel(p, 0), Channel(p, 1), Channel(p, 2), Channel(p, 3))
  {
  }

  /** The pixel that starts at byte `at` is drawn. */
  predicate IsInked(length: nat, at: nat, bufW: nat, bufH: nat, rect: Rect, radius: int)
    requires bufW > 0
  {
    var px, py := PixelX(at, bufW), PixelY(at, bufW);
    && py < bufH && 0 <= px - rect.x < rect.w && 0 <= py - rect.y < rect.h && Offset(px, py, bufW) + 4 <= length
    && BorderCoverage(px - rect.x, py - rect.y, rect.w, rect.h, radius) > 0
  }

  lemma {:induction false} ByteBordered(was: seq<Byte>, at: nat, c: nat, bufW: nat, bufH: nat, rect: Rect,
                                        color: Color, radius: int)
    requires bufW > 0 && at + c < |was| && c < 4 && (at + c) % 4 == c
    requires PixelX(at + c, bufW) == PixelX(at, bufW) && PixelY(at + c, bufW) == PixelY(at, bufW)
    ensures
      var coverage := BorderCoverage(PixelX(at, bufW) - rect.x, PixelY(at, bufW) - rect.y, rect.w, rect.h, radius);
      BorderByte(was, at + c, bufW, bufH, rect, color, radius)
      == if IsInked(|was|, at, bufW, bufH, rect, radius) then Channel(BorderPixel(color, coverage), c) else was[at + c]
  {
    hide PixelX, PixelY, Offset, BorderCoverage, BorderPixel, Channel;
  }

  /** The border around the whole canvas of a popup; unlike the border in a rectangle it checks no bounds. */
  method DrawCardBorder(data: array<Byte>, width: int, height: int, color: Color, radius: int)
    requires width > 0 && height > 0 ==> width * height * 4 <= data.Length
    modifies data
    ensures width <= 0 || height <= 0 ==> data[..] == old(data[..])
    ensures width > 0 && height > 0 ==>
      forall i :: 0 <= i < data.Length ==>
        data[i] == BorderByte(old(data[..]), i, width, height, Rect(0, 0, width, height), color, radius)
  {
    var w, h := Max(width, 0), Max(height, 0);
    if w == 0 || h == 0 {
      return;
    }
    hide BorderByte, PixelX, PixelY, Offset, Coverage;
    ghost var was, rect := data[..], Rect(0, 0, w, h);
    NothingBefore(was, w, h, rect, color, radius);
    for y := 0 to h
      invariant DrawnBefore(data, was, w, h, rect, color, radius, 0, y)
    {
      StartOfRow(was, w, h, rect, color, radius, y);
      for x := 0 to w
        invariant DrawnBefore(data, was, w, h, rect, color, radius, x, y)
      {
        DrawCanvasPixel(data, was, w, h, color, radius, x, y);
      }
      EndOfRow(was, w, h, rect, color, radius, y);
    }
    AllDrawn(was, w, h, rect, color, radius);
  }

  /** One turn of the inner loop. */
  method DrawCanvasPixel(data: array<Byte>, ghost was: seq<Byte>, w: nat, h: nat, color: Color, radius: int,
                         x: nat, y: nat)
    requires x < w && y < h && w * h * 4 <= data.Length == |was|
    requires DrawnBefore(data, was, w, h, Rect(0, 0, w, h), color, radius, x, y)
    modifies data
    ensures DrawnBefore(data, was, w, h, Rect(0, 0, w, h), color, radius, x + 1, y)
  {
    hide BorderByte, Before, PixelX, PixelY, Offset, Coverage, BorderPixel, Channel;
    OffsetFits(x, y, w, h);
    ghost var before, rect := data[..], Rect(0, 0, w, h);
    ghost var at := -4;
    var outer := RoundedRectCoverage(x, y, w, h, radius);
    if outer != 0 {
      var inner := RoundedRectCoverage(x - 1, y - 1, w - 2, h - 2, radius - 1);
      var difference: int := outer as int - inner as int;
      var coverage: Byte := Max(difference, 0);
      if coverage != 0 {
        at := Offset(x, y, w);
        WritePixel(data, Offset(x, y, w), BorderPixel(color, coverage));
      }
    }
    forall i | 0 <= i < data.Length
      ensures data[i] == if Before(i, w, rect, x + 1, y)
          then BorderByte(was, i, w, h, rect, color, radius) else was[i]
    {
      assert before[i] == if Before(i, w, rect, x, y)
          then BorderByte(was, i, w, h, rect, color, radius) else was[i];
      assert data[i] == if at <= i < at + 4
          then Channel(BorderPixel(color, BorderCoverage(x, y, w, h, radius)), i - at) else before[i];
      PixelIsNext(was, i, w, h, rect, color, radius, x, y);
    }
  }

  /** The card body: a cleared canvas and its border. Bytes beyond the last whole pixel are not cleared. */
  method DrawCardBody(data: array<Byte>, width: int, height: int, color: Color, radius: int)
    requires width > 0 && height > 0 ==> width * height * 4 <= data.Length
    modifies data
    ensures width > 0 && height > 0 ==>
      forall x, y :: 0 <= x < width && 0 <= y < height ==>
        HasPixel(data[..], x, y, width, BorderPixel(color, BorderCoverage(x, y, width, height, radius)))
    ensures PremultipliedBuffer(data[..])
  {
    Clear(data);
    ghost var was := data[..];
    DrawCardBorder(data, width, height, color, radius);
    ClearedIsPremultiplied(was);
    if width > 0 && height > 0 {
      assert forall i :: 0 <= i < |was| ==>
        data[..][i] == BorderByte(was, i, width, height, Rect(0, 0, width, height), color, radius);
      BorderKeepsPremultiplied(was, data[..], width, height, Rect(0, 0, width, height), color, radius);
      forall x, y | 0 <= x < width && 0 <= y < height
        ensures HasPixel(data[..], x, y, width, BorderPixel(color, BorderCoverage(x, y, width, height, radius)))
      {
        ClearedIsBordered(was, data[..], width, height, color, radius, x, y);
      }
    }
  }

  method Clear(data: array<Byte>)
    modifies data
    ensures forall i :: 0 <= i < data.Length ==> data[i] == if i < data.Length / 4 * 4 then 0 else old(data[i])
  {
    var at := 0;
    while at + 4 <= data.Length
      invariant at % 4 == 0 && at <= data.Length
      invariant forall i :: 0 <= i < data.Length ==> data[i] == if i < at then 0 else old(data[i])
    {
      WritePixel(data, at, Pixel(0, 0, 0, 0));
      at := at + 4;
    }
  }

  predicate HasPixel(s: seq<Byte>, x: int, y: int, w: int, p: Pixel) {
    0 <= x < w && 0 <= y && Offset(x, y, w) + 4 <= |s| && PixelAt(s, Offset(x, y, w)) == p
  }

  lemma ClearedIsPremultiplied(s: seq<Byte>)
    requires forall i :: 0 <= i < |s| / 4 * 4 ==> s[i] == 0
    ensures PremultipliedBuffer(s)
  {
  }

  /** On a cleared canvas skipping uncovered pixels is the same as painting every pixel by its coverage. */
  lemma {:induction false} ClearedIsBordered(was: seq<Byte>, now: seq<Byte>, w: nat, h: nat, color: Color, radius: int,
                                             x: nat, y: nat)
    requires x < w && y < h && w * h * 4 <= |was| == |now|
    requires forall i :: 0 <= i < |was| / 4 * 4 ==> was[i] == 0
    requires forall i :: 0 <= i < |was| ==> now[i] == BorderByte(was, i, w, h, Rect(0, 0, w, h), color, radius)
    ensures HasPixel(now, x, y, w, BorderPixel(color, BorderCoverage(x, y, w, h, radius)))
  {
    hide PixelX, PixelY, Offset, Coverage, BorderCoverage, BorderPixel, BorderByte;
    var at := Offset(x, y, w);
    var pixel := BorderPixel(color, BorderCoverage(x, y, w, h, radius));
    OffsetFits(x, y, w, h);
    OffsetIsAligned(x, y, w);
    NoCoverageNoInk(color);
    forall c: nat | c < 4 ensures now[at + c] == Channel(pixel, c) {
      BytesOfPixel(at + c, x, y, w);
      BorderByteHere(was, at + c, w, h, Rect(0, 0, w, h), color, radius);
    }
    assert Channel(pixel, 0) == pixel.b && Channel(pixel, 1) == pixel.g && Channel(pixel, 2) == pixel.r
        && Channel(pixel, 3) == pixel.a;
  }

  lemma NoCoverageNoInk(color: Color)
    ensures BorderPixel(color, 0) == Pixel(0, 0, 0, 0)
  {
  }
}
