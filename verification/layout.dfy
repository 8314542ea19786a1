/** The rectangle layout algebra of the immediate-mode GUI: points, vectors,
    half-open containment, and the `pop*` / `shrink` operations that carve a
    parent rectangle into widget regions. Coordinates are reals (the original
    uses `float`; rounding is not modelled). The mutating `pop*` members of the
    original become pure functions returning the popped strip together with
    the remainder the receiver is left as. */
module Layout {

  datatype Point = Point(x: real, y: real)
  datatype Vector = Vector(x: real, y: real)

  /** An axis-aligned box; `min` is the top-left and `max` the bottom-right
      corner. Nothing forces `min <= max`: that is `WellFormed`. */
  datatype Rect = Rect(min: Point, max: Point)

  /** What a `pop*` call produces: the returned strip and the receiver's new value. */
  datatype Split = Split(popped: Rect, rest: Rect)

  /** `oui::min` and `oui::max`: on a tie `Min` yields `b` and `Max` yields `a`,
      which are then equal. */
  function Min(a: real, b: real): (m: real)
    ensures m <= a && m <= b
    ensures m == a || m == b
  {
    if a < b then a else b
  }

  function Max(a: real, b: real): (m: real)
    ensures m >= a && m >= b
    ensures m == a || m == b
  {
    if a < b then b else a
  }

  /** `Vector + Vector`. */
  function Plus(a: Vector, b: Vector): Vector { Vector(a.x + b.x, a.y + b.y) }

  /** `Point - Point`: the displacement from `b` to `a`. */
  function Diff(a: Point, b: Point): (v: Vector)
    ensures Point(b.x + v.x, b.y + v.y) == a
  {
    Vector(a.x - b.x, a.y - b.y)
  }

  const Zero: Vector := Vector(0.0, 0.0)

  /** Adding displacements: `Zero` changes nothing, the sum does not depend on
      the order, and the displacement from `a` to `b` followed by the one from
      `b` to `c` is the one from `a` to `c`. */
  lemma DisplacementsAdd(a: Point, b: Point, c: Point, v: Vector, w: Vector)
    ensures Plus(Zero, v) == v
    ensures Plus(v, w) == Plus(w, v)
    ensures Plus(Diff(b, a), Diff(c, b)) == Diff(c, a)
  {
  }

  function Width(r: Rect): real { r.max.x - r.min.x }
  function Height(r: Rect): real { r.max.y - r.min.y }

  function Center(r: Rect): Point
  {
    Point(r.min.x + (r.max.x - r.min.x) / 2.0, r.min.y + (r.max.y - r.min.y) / 2.0)
  }

  ghost predicate WellFormed(r: Rect)
  {
    r.min.x <= r.max.x && r.min.y <= r.max.y
  }

  /** `Point::in`: containment is half-open, the min edges are inside and the
      max edges are outside. */
  predicate In(p: Point, area: Rect)
  {
    area.min.x <= p.x && p.x < area.max.x &&
    area.min.y <= p.y && p.y < area.max.y
  }

  /** Containment is half-open: a rectangle holds its minimum corner whenever
      it is non-empty, never a point on its maximum edges, and so two
      rectangles that meet along an edge never both hold a point. */
  lemma InIsHalfOpen(r: Rect, s: Rect, p: Point)
    ensures In(r.min, r) <==> r.min.x < r.max.x && r.min.y < r.max.y
    ensures p.x == r.max.x || p.y == r.max.y ==> !In(p, r)
    ensures s.min.x == r.max.x || s.min.y == r.max.y ==> !(In(p, r) && In(p, s))
  {
  }

  /** `popLeft(float)`: the amount is clamped to the width, the left edge moves
      right by it, and the vacated strip is returned. */
  function PopLeft(r: Rect, dx: real): (s: Split)
    ensures Width(s.popped) == Min(dx, Width(r))
    ensures s.popped.min.x == r.min.x && s.popped.max.x == s.rest.min.x
    ensures s.rest.max == r.max
    ensures Width(s.popped) + Width(s.rest) == Width(r)
    ensures Width(s.rest) >= 0.0
    ensures s.popped.min.y == s.rest.min.y == r.min.y
    ensures s.popped.max.y == s.rest.max.y == r.max.y
  {
    var d := Min(dx, Width(r));
    Split(Rect(r.min, Point(r.min.x + d, r.max.y)),
          Rect(Point(r.min.x + d, r.min.y), r.max))
  }

  /** `popRight(float)`: the right edge moves left by the clamped amount. */
  function PopRight(r: Rect, dx: real): (s: Split)
    ensures Width(s.popped) == Min(dx, Width(r))
    ensures s.popped.max.x == r.max.x && s.popped.min.x == s.rest.max.x
    ensures s.rest.min == r.min
    ensures Width(s.popped) + Width(s.rest) == Width(r)
    ensures Width(s.rest) >= 0.0
    ensures s.popped.min.y == s.rest.min.y == r.min.y
    ensures s.popped.max.y == s.rest.max.y == r.max.y
  {
    var d := Min(dx, Width(r));
    Split(Rect(Point(r.max.x - d, r.min.y), r.max),
          Rect(r.min, Point(r.max.x - d, r.max.y)))
  }

  /** `popTop(float)`: the top edge moves down by the clamped amount. */
  function PopTop(r: Rect, dy: real): (s: Split)
    ensures Height(s.popped) == Min(dy, Height(r))
    ensures s.popped.min.y == r.min.y && s.popped.max.y == s.rest.min.y
    ensures s.rest.max == r.max
    ensures Height(s.popped) + Height(s.rest) == Height(r)
    ensures Height(s.rest) >= 0.0
    ensures s.popped.min.x == s.rest.min.x == r.min.x
    ensures s.popped.max.x == s.rest.max.x == r.max.x
  {
    var d := Min(dy, Height(r));
    Split(Rect(r.min, Point(r.max.x, r.min.y + d)),
          Rect(Point(r.min.x, r.min.y + d), r.max))
  }

  /** `popBottom(float)`: the bottom edge moves up by the clamped amount. */
  function PopBottom(r: Rect, dy: real): (s: Split)
    ensures Height(s.popped) == Min(dy, Height(r))
    ensures s.popped.max.y == r.max.y && s.popped.min.y == s.rest.max.y
    ensures s.rest.min == r.min
    ensures Height(s.popped) + Height(s.rest) == Height(r)
    ensures Height(s.rest) >= 0.0
    ensures s.popped.min.x == s.rest.min.x == r.min.x
    ensures s.popped.max.x == s.rest.max.x == r.max.x
  {
    var d := Min(dy, Height(r));
    Split(Rect(Point(r.min.x, r.max.y - d), r.max),
          Rect(r.min, Point(r.max.x, r.max.y - d)))
  }

  /** The `Ratio` overloads pop `extent * f` through the `float` ones; the
      ratio itself is not clamped. */
  function PopLeftRatio(r: Rect, f: real): Split { PopLeft(r, Width(r) * f) }
  function PopRightRatio(r: Rect, f: real): Split { PopRight(r, Width(r) * f) }
  function PopTopRatio(r: Rect, f: real): Split { PopTop(r, Height(r) * f) }
  function PopBottomRatio(r: Rect, f: real): Split { PopBottom(r, Height(r) * f) }

  /** For a well-formed rectangle and a ratio in [0, 1] no clamping happens:
      the strip is exactly that fraction of the extent, and the remainder the
      complementary fraction. Half of a rectangle is half its width. */
  lemma PopRatioTakesFraction(r: Rect, f: real)
    requires WellFormed(r) && 0.0 <= f <= 1.0
    ensures Width(PopLeftRatio(r, f).popped) == Width(r) * f
    ensures Width(PopLeftRatio(r, f).rest) == Width(r) * (1.0 - f)
    ensures Width(PopRightRatio(r, f).popped) == Width(r) * f
    ensures Height(PopTopRatio(r, f).popped) == Height(r) * f
    ensures Height(PopBottomRatio(r, f).popped) == Height(r) * f
    ensures f == 0.5 ==> Width(PopLeftRatio(r, f).popped) == Width(r) / 2.0
  {
    var w, h := Width(r), Height(r);
    FractionWithin(w, f);
    FractionWithin(h, f);
    assert Min(w * f, w) == w * f;
    assert Min(h * f, h) == h * f;
    assert w * (1.0 - f) == w - w * f;
  }

  /** A fraction in [0, 1] of a non-negative extent lies between 0 and the extent. */
  lemma FractionWithin(x: real, f: real)
    requires x >= 0.0 && 0.0 <= f <= 1.0
    ensures 0.0 <= x * f <= x
  {
  }

  /** Popping the whole width leaves a zero-width remainder and returns the
      original rectangle. */
  lemma PopWholeWidth(r: Rect)
    requires WellFormed(r)
    ensures PopLeft(r, Width(r)).popped == r
    ensures Width(PopLeft(r, Width(r)).rest) == 0.0
  {
  }

  /** Popping a non-negative amount tiles the rectangle: every point of the
      original lies in exactly one of the strip and the remainder, and nothing
      outside it lies in either. */
  lemma PopTiles(r: Rect, d: real, p: Point)
    requires d >= 0.0
    ensures In(p, r) <==> In(p, PopLeft(r, d).popped) || In(p, PopLeft(r, d).rest)
    ensures !(In(p, PopLeft(r, d).popped) && In(p, PopLeft(r, d).rest))
    ensures In(p, r) <==> In(p, PopRight(r, d).popped) || In(p, PopRight(r, d).rest)
    ensures !(In(p, PopRight(r, d).popped) && In(p, PopRight(r, d).rest))
    ensures In(p, r) <==> In(p, PopTop(r, d).popped) || In(p, PopTop(r, d).rest)
    ensures !(In(p, PopTop(r, d).popped) && In(p, PopTop(r, d).rest))
    ensures In(p, r) <==> In(p, PopBottom(r, d).popped) || In(p, PopBottom(r, d).rest)
    ensures !(In(p, PopBottom(r, d).popped) && In(p, PopBottom(r, d).rest))
  {
  }

  /** A negative amount is not clamped from below: the "strip" is inverted and
      the remainder grows past the original edge. */
  lemma PopNegativeGrows(r: Rect, d: real)
    requires WellFormed(r) && d < 0.0
    ensures Width(PopLeft(r, d).popped) == d
    ensures Width(PopLeft(r, d).rest) == Width(r) - d
  {
  }

  /** `shrink(float)` as the original writes it: the trimmed copy is built and
      then discarded, because the member returns `*this`. */
  function ShrinkTrimAsWritten(r: Rect, trim: real): (s: Rect)
    ensures s == r
  {
    var trimmed := ShrinkTrim(r, trim);
    r
  }

  /** The evidently intended `shrink(float)`: every edge moves inward by
      `trim`; on an axis where the insets cross, both edges meet at the
      midpoint instead of inverting. */
  function ShrinkTrim(r: Rect, trim: real): (s: Rect)
    ensures WellFormed(s)
    ensures Center(s) == Center(r)
    ensures Width(r) >= 2.0 * trim ==> Width(s) == Width(r) - 2.0 * trim
    ensures Width(r) < 2.0 * trim ==> Width(s) == 0.0
    ensures Height(r) >= 2.0 * trim ==> Height(s) == Height(r) - 2.0 * trim
    ensures Height(r) < 2.0 * trim ==> Height(s) == 0.0
  {
    var lx := r.min.x + trim;
    var hx := r.max.x - trim;
    var ly := r.min.y + trim;
    var hy := r.max.y - trim;
    var (x0, x1) := if lx > hx then ((lx + hx) / 2.0, (lx + hx) / 2.0) else (lx, hx);
    var (y0, y1) := if ly > hy then ((ly + hy) / 2.0, (ly + hy) / 2.0) else (ly, hy);
    Rect(Point(x0, y0), Point(x1, y1))
  }

  /** The discrepancy: as written, a positive trim of a 10 by 10 square leaves it
      10 wide, where the intended result is 8 wide. */
  lemma ShrinkTrimAsWrittenIgnoresTrim(r: Rect, trim: real)
    ensures ShrinkTrimAsWritten(r, trim) == r
    ensures var sq := Rect(Point(0.0, 0.0), Point(10.0, 10.0));
            Width(ShrinkTrimAsWritten(sq, 1.0)) == 10.0 && Width(ShrinkTrim(sq, 1.0)) == 8.0
  {
  }

  /** `oui::max(0, oui::min(f, 1))`. */
  function ClampUnit(f: real): (g: real)
    ensures 0.0 <= g <= 1.0
    ensures 0.0 <= f <= 1.0 ==> g == f
    ensures f < 0.0 ==> g == 0.0
    ensures f > 1.0 ==> g == 1.0
  {
    Max(0.0, Min(f, 1.0))
  }

  /** `shrink(Ratio)`: the ratio is clamped to [0, 1] and each axis is inset on
      both sides by `extent * f`, keeping the center. The resulting extent is
      `extent * (1 - 2f)`, so ratios above one half invert the rectangle. */
  function ShrinkRatio(r: Rect, f: real): (s: Rect)
    ensures Center(s) == Center(r)
    ensures Width(s) == Width(r) * (1.0 - 2.0 * ClampUnit(f))
    ensures Height(s) == Height(r) * (1.0 - 2.0 * ClampUnit(f))
  {
    var g := ClampUnit(f);
    var dx := Width(r) * g;
    var dy := Height(r) * g;
    Rect(Point(r.min.x + dx, r.min.y + dy), Point(r.max.x - dx, r.max.y - dy))
  }

  /** A ratio of one half collapses the rectangle to its center; a ratio of one
      (or more) swaps its corners instead of collapsing it; any ratio above one
      half inverts a rectangle of positive width. */
  lemma ShrinkRatioPastHalfInverts(r: Rect, f: real)
    ensures ShrinkRatio(r, 0.5).min == ShrinkRatio(r, 0.5).max == Center(r)
    ensures f >= 1.0 ==> ShrinkRatio(r, f).min == r.max && ShrinkRatio(r, f).max == r.min
    ensures f > 0.5 && Width(r) > 0.0 ==> Width(ShrinkRatio(r, f)) < 0.0
  {
    var g := ClampUnit(f);
    if f > 0.5 && Width(r) > 0.0 {
      var s := ShrinkRatio(r, f);
      var w, c := Width(r), 1.0 - 2.0 * g;
      assert c < 0.0;
      NegativeProduct(w, c);
      assert Width(s) == w * c;
    }
  }

  lemma NegativeProduct(a: real, b: real)
    requires a > 0.0 && b < 0.0
    ensures a * b < 0.0
  {
  }
}
