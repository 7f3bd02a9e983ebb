/**
 Line drawing on an off-screen surface: Bresenham's integer error-term loop, and
 the two slice-fill fast paths that must paint the same pixels.

 `Walk` is the loop's cursor after n iterations, counted in steps along each axis.
 */
module LineDrawing {
  import opened Machine

  const ISIZE_MAX: int := 0x7FFF_FFFF_FFFF_FFFF
  const COORD_LIMIT: int := 0x1000_0000_0000_0000   // 2^60: beyond it the error term may saturate

  function Abs(v: int): nat { if v < 0 then -v else v }

  function MinInt(a: int, b: int): int { if a <= b then a else b }

  function MaxInt(a: int, b: int): int { if a <= b then b else a }

  /** `saturating_mul(2)` on the machine's signed word. */
  function SatDouble(v: int): int { MaxInt(-ISIZE_MAX - 1, MinInt(ISIZE_MAX, 2 * v)) }

  /** Steps made along each axis, and the error term. */
  datatype Cursor = Cursor(i: nat, j: nat, err: int)

  function Longest(dx: nat, dy: nat): nat { if dx <= dy then dy else dx }

  /** One iteration of the loop for a line spanning dx by dy. */
  function Advance(dx: nat, dy: nat, c: Cursor): Cursor {
    var e2 := 2 * c.err;
    var stepX := e2 >= 0 - dy;
    var stepY := e2 <= dx;
    Cursor(if stepX then c.i + 1 else c.i,
           if stepY then c.j + 1 else c.j,
           c.err + (if stepX then 0 - dy else 0) + (if stepY then dx else 0))
  }

  function Walk(dx: nat, dy: nat, n: nat): Cursor {
    if n == 0 then Cursor(0, 0, dx - dy) else Advance(dx, dy, Walk(dx, dy, n - 1))
  }

  // ---------------------------------------------------------------- the error term

  /** The error term measures the distance from the ideal line. */
  lemma {:induction false} ErrorMeansDistance(dx: nat, dy: nat, n: nat)
    ensures var c := Walk(dx, dy, n); c.err - dx + dy == dx * c.j - dy * c.i
  {
    if n > 0 {
      ErrorMeansDistance(dx, dy, n - 1);
      var b, c := Walk(dx, dy, n - 1), Walk(dx, dy, n);
      StepProduct(dx, b.j, c.j);
      StepProduct(dy, b.i, c.i);
      var xPart, yPart, xBefore, yBefore := dx * c.j, dy * c.i, dx * b.j, dy * b.i;
      assert xPart == xBefore + (if c.j == b.j then 0 else dx);
      assert yPart == yBefore + (if c.i == b.i then 0 else dy);
    }
  }

  lemma StepProduct(k: nat, x: nat, y: nat)
    requires y == x || y == x + 1
    ensures k * y == k * x + (if y == x then 0 else k)
  {
  }

  /** The cursor steps along the longer axis every time and stays within half a pixel of the line. */
  lemma {:induction false} StaysNear(dx: nat, dy: nat, n: nat)
    ensures var c := Walk(dx, dy, n);
            && 2 * Abs(c.err - dx + dy) <= Longest(dx, dy)
            && (dx >= dy ==> dx == 0 || c.i == n)
            && (dy >= dx ==> dy == 0 || c.j == n)
  {
    if n > 0 { StaysNear(dx, dy, n - 1); }
  }

  /** Every visited point: 2 * |dx * j - dy * i| is at most the longer span. */
  lemma DeviationBound(dx: nat, dy: nat, n: nat)
    ensures var c := Walk(dx, dy, n); 2 * Abs(dx * c.j - dy * c.i) <= Longest(dx, dy)
  {
    StaysNear(dx, dy, n);
    ErrorMeansDistance(dx, dy, n);
  }

  /** A deviation of at most half a step does not reach the next row. */
  lemma HalfStep(a: nat, b: nat, u: nat, v: nat)
    requires a > 0 && v <= a && 2 * (a * u - b * v) <= a
    ensures u <= b
  {
    assert a * (b + 1) == b * a + a;
    Monotone(b, v, a);
    if u >= b + 1 { Monotone(a, b + 1, u); }
  }

  lemma Monotone(k: nat, x: nat, y: nat)
    requires x <= y
    ensures k * x <= k * y
  {
  }

  /** Within the first max(dx, dy) iterations the cursor never passes the end, and then it is at the end. */
  lemma ReachesEnd(dx: nat, dy: nat, n: nat)
    requires n <= Longest(dx, dy)
    ensures var c := Walk(dx, dy, n);
            && c.i <= dx && c.j <= dy
            && (c.i == dx && c.j == dy <==> n == Longest(dx, dy))
  {
    StaysNear(dx, dy, n);
    DeviationBound(dx, dy, n);
    var c := Walk(dx, dy, n);
    if dx >= dy && dx > 0 {
      HalfStep(dx, dy, c.j, c.i);
      if n == dx { EndExact(dx, dy, c.j); }
    } else if dy > 0 {
      HalfStep(dy, dx, c.i, c.j);
      if n == dy { EndExact(dy, dx, c.i); }
    }
  }

  lemma EndExact(a: nat, b: nat, u: nat)
    requires a > 0 && u <= b && 2 * (b * a - a * u) <= a
    ensures u == b
  {
    if b > 0 {
      assert a * (b - 1) == b * a - a;
      if u <= b - 1 { Monotone(a, u, b - 1); }
    }
  }

  /** With coordinates up to 2^60 the doubled error term fits the signed word: nothing saturates. */
  lemma NothingSaturates(dx: nat, dy: nat, n: nat)
    requires dx <= 2 * COORD_LIMIT && dy <= 2 * COORD_LIMIT
    ensures SatDouble(Walk(dx, dy, n).err) == 2 * Walk(dx, dy, n).err
  {
    StaysNear(dx, dy, n);
  }

  // ---------------------------------------------------------------- points of a line

  datatype Segment = Segment(x0: int, y0: int, x1: int, y1: int) {
    function Dx(): nat { Abs(x1 - x0) }
    function Dy(): nat { Abs(y1 - y0) }
    function Sx(): int { if x0 < x1 then 1 else -1 }
    function Sy(): int { if y0 < y1 then 1 else -1 }
    function Last(): nat { Longest(Dx(), Dy()) }
    predicate InLimits() {
      && -COORD_LIMIT <= x0 <= COORD_LIMIT && -COORD_LIMIT <= y0 <= COORD_LIMIT
      && -COORD_LIMIT <= x1 <= COORD_LIMIT && -COORD_LIMIT <= y1 <= COORD_LIMIT
    }
  }

  function PointX(s: Segment, n: nat): int { s.x0 + s.Sx() * Walk(s.Dx(), s.Dy(), n).i }

  function PointY(s: Segment, n: nat): int { s.y0 + s.Sy() * Walk(s.Dx(), s.Dy(), n).j }

  ghost predicate VisitedAt(s: Segment, x: int, y: int, n: nat) { PointX(s, n) == x && PointY(s, n) == y }

  /** The loop visits (x, y) in its first `n` iterations. */
  ghost predicate VisitedBefore(s: Segment, x: int, y: int, n: nat) {
    exists k: nat :: k < n && VisitedAt(s, x, y, k)
  }

  /** The points of the line: everything visited from one end to the other. */
  ghost predicate OnLine(s: Segment, x: int, y: int) { VisitedBefore(s, x, y, s.Last() + 1) }

  /** The loop's exit test succeeds at iteration max(dx, dy) and not before. */
  lemma EndTest(s: Segment, n: nat)
    requires n <= s.Last()
    ensures VisitedAt(s, s.x1, s.y1, n) <==> n == s.Last()
  {
    ReachesEnd(s.Dx(), s.Dy(), n);
  }

  /** A horizontal line is the interval between its ends. */
  lemma HorizontalPoints(s: Segment, x: int, y: int)
    requires s.y0 == s.y1
    ensures OnLine(s, x, y) <==> y == s.y0 && MinInt(s.x0, s.x1) <= x <= MaxInt(s.x0, s.x1)
  {
    forall n: nat | n <= s.Last() ensures PointX(s, n) == s.x0 + s.Sx() * n && PointY(s, n) == s.y0 {
      StaysNear(s.Dx(), 0, n);
      ReachesEnd(s.Dx(), 0, n);
    }
    if y == s.y0 && MinInt(s.x0, s.x1) <= x <= MaxInt(s.x0, s.x1) {
      assert VisitedAt(s, x, y, Abs(x - s.x0));
    }
  }

  /** A vertical line is the interval between its ends. */
  lemma VerticalPoints(s: Segment, x: int, y: int)
    requires s.x0 == s.x1
    ensures OnLine(s, x, y) <==> x == s.x0 && MinInt(s.y0, s.y1) <= y <= MaxInt(s.y0, s.y1)
  {
    forall n: nat | n <= s.Last() ensures PointX(s, n) == s.x0 && PointY(s, n) == s.y0 + s.Sy() * n {
      StaysNear(0, s.Dy(), n);
      ReachesEnd(0, s.Dy(), n);
    }
    if x == s.x0 && MinInt(s.y0, s.y1) <= y <= MaxInt(s.y0, s.y1) {
      assert VisitedAt(s, x, y, Abs(y - s.y0));
    }
  }

  // ---------------------------------------------------------------- the surface

  /** A slice whose bounds are crossed makes the kernel panic. */
  datatype DrawResult = Drawn | Panicked

  function At(width: nat, x: nat, y: nat): nat { y * width + x }

  lemma AtBound(width: nat, height: nat, x: nat, y: nat)
    requires x < width && y < height
    ensures At(width, x, y) < width * height
  {
    Monotone(width, y, height - 1);
    assert width * (height - 1) == width * height - width;
  }

  lemma AtInjective(width: nat, x: nat, y: nat, u: nat, v: nat)
    requires x < width && u < width && At(width, x, y) == At(width, u, v)
    ensures x == u && y == v
  {
    StepProduct(width, y, y + 1);
    StepProduct(width, v, v + 1);
    if y < v { Monotone(width, y + 1, v); }
    if v < y { Monotone(width, v + 1, y); }
  }

  predicate OnSurface(width: nat, height: nat, x: int, y: int) { 0 <= x < width && 0 <= y < height }

  /** Exactly the points of the surface that `painted` holds for have the color; every other pixel is as before. */
  ghost predicate Repainted(before: seq<nat>, after: seq<nat>, width: nat, height: nat,
                            painted: (int, int) -> bool, color: nat) {
    && width * height <= |before| == |after|
    && (forall x: nat, y: nat | OnSurface(width, height, x, y) :: PixelIs(before, after, width, x, y, painted(x, y), color))
    && (forall k | width * height <= k < |before| :: after[k] == before[k])
  }

  ghost predicate PixelIs(before: seq<nat>, after: seq<nat>, width: nat, x: nat, y: nat, painted: bool, color: nat) {
    && At(width, x, y) < |before| && At(width, x, y) < |after|
    && after[At(width, x, y)] == if painted then color else before[At(width, x, y)]
  }

  lemma NothingPainted(px: seq<nat>, width: nat, height: nat, painted: (int, int) -> bool, color: nat)
    requires width * height <= |px|
    requires forall x, y :: OnSurface(width, height, x, y) ==> !painted(x, y)
    ensures Repainted(px, px, width, height, painted, color)
  {
    forall x: nat, y: nat | OnSurface(width, height, x, y) ensures PixelIs(px, px, width, x, y, painted(x, y), color) {
      AtBound(width, height, x, y);
    }
  }

  /** Painting one more point extends the painted set by that point. */
  lemma PaintMore(before: seq<nat>, mid: seq<nat>, width: nat, height: nat, p: (int, int) -> bool, q: (int, int) -> bool,
                  x: int, y: int, color: nat)
    requires Repainted(before, mid, width, height, p, color)
    requires forall u, v :: q(u, v) <==> p(u, v) || (u == x && v == y)
    ensures OnSurface(width, height, x, y) ==>
              At(width, x, y) < |mid| && Repainted(before, mid[At(width, x, y) := color], width, height, q, color)
    ensures !OnSurface(width, height, x, y) ==> Repainted(before, mid, width, height, q, color)
  {
    if OnSurface(width, height, x, y) {
      AtBound(width, height, x, y);
      var after := mid[At(width, x, y) := color];
      forall u: nat, v: nat | OnSurface(width, height, u, v)
        ensures PixelIs(before, after, width, u, v, q(u, v), color)
      {
        assert PixelIs(before, mid, width, u, v, p(u, v), color);
        if At(width, u, v) == At(width, x, y) { AtInjective(width, u, v, x, y); }
      }
    } else {
      forall u: nat, v: nat | OnSurface(width, height, u, v)
        ensures PixelIs(before, mid, width, u, v, q(u, v), color)
      {
        assert PixelIs(before, mid, width, u, v, p(u, v), color);
      }
    }
  }

  lemma SamePoints(before: seq<nat>, after: seq<nat>, width: nat, height: nat, p: (int, int) -> bool, q: (int, int) -> bool, color: nat)
    requires Repainted(before, after, width, height, p, color)
    requires forall x, y :: OnSurface(width, height, x, y) ==> (p(x, y) <==> q(x, y))
    ensures Repainted(before, after, width, height, q, color)
  {
    forall x: nat, y: nat | OnSurface(width, height, x, y)
      ensures PixelIs(before, after, width, x, y, q(x, y), color)
    {
      assert PixelIs(before, after, width, x, y, p(x, y), color);
    }
  }

  /** Exactly the clipped points of the first `n` iterations have the color. */
  ghost predicate Traced(before: seq<nat>, after: seq<nat>, width: nat, height: nat, s: Segment, n: nat, color: nat) {
    Repainted(before, after, width, height, (x, y) => VisitedBefore(s, x, y, n), color)
  }

  lemma NothingTraced(px: seq<nat>, width: nat, height: nat, s: Segment, color: nat)
    requires width * height <= |px|
    ensures Traced(px, px, width, height, s, 0, color)
  {
    NothingPainted(px, width, height, (x, y) => VisitedBefore(s, x, y, 0), color);
  }

  lemma VisitedNext(s: Segment, n: nat, x: int, y: int)
    ensures VisitedBefore(s, x, y, n + 1) <==> VisitedBefore(s, x, y, n) || (x == PointX(s, n) && y == PointY(s, n))
  {
    if x == PointX(s, n) && y == PointY(s, n) { assert VisitedAt(s, x, y, n); }
  }

  lemma TraceMore(before: seq<nat>, mid: seq<nat>, width: nat, height: nat, s: Segment, n: nat, color: nat)
    requires Traced(before, mid, width, height, s, n, color)
    ensures var (x, y) := (PointX(s, n), PointY(s, n));
            if OnSurface(width, height, x, y) then
              At(width, x, y) < |mid| && Traced(before, mid[At(width, x, y) := color], width, height, s, n + 1, color)
            else
              Traced(before, mid, width, height, s, n + 1, color)
  {
    var p, q := (x, y) => VisitedBefore(s, x, y, n), (x, y) => VisitedBefore(s, x, y, n + 1);
    forall x, y ensures q(x, y) <==> p(x, y) || (x == PointX(s, n) && y == PointY(s, n)) {
      VisitedNext(s, n, x, y);
    }
    hide Repainted, VisitedBefore, PointX, PointY, At;
    PaintMore(before, mid, width, height, p, q, PointX(s, n), PointY(s, n), color);
  }

  lemma TracedAll(before: seq<nat>, after: seq<nat>, width: nat, height: nat, s: Segment, color: nat)
    requires Traced(before, after, width, height, s, s.Last() + 1, color)
    ensures Repainted(before, after, width, height, (x, y) => OnLine(s, x, y), color)
  {
    hide Repainted, VisitedBefore;
    SamePoints(before, after, width, height, (x, y) => VisitedBefore(s, x, y, s.Last() + 1), (x, y) => OnLine(s, x, y), color);
  }

  class Surface {
    const width: nat
    const height: nat
    const pixels: array<nat>

    constructor (width: nat, height: nat, pixels: array<nat>)
      requires width * height <= pixels.Length
      ensures this.width == width && this.height == height && this.pixels == pixels
    {
      this.width, this.height, this.pixels := width, height, pixels;
    }

    ghost predicate Valid() { width * height <= pixels.Length }

    /** `draw_line`: paints exactly the clipped points of the line, unless its horizontal fast path panics. */
    method DrawLine(s: Segment, color: nat) returns (r: DrawResult)
      requires Valid() && s.InLimits()
      modifies pixels
      ensures r == Panicked <==> s.y0 == s.y1 && 0 <= s.y0 < height && MinInt(s.x0, s.x1) > width
      ensures r == Drawn ==> Repainted(old(pixels[..]), pixels[..], width, height, (x, y) => OnLine(s, x, y), color)
      ensures r == Panicked ==> pixels[..] == old(pixels[..])
    {
      if s.y0 == s.y1 && s.y0 >= 0 && s.y0 < height {
        var start := MaxInt(if s.x0 <= s.x1 then s.x0 else s.x1, 0);
        var end := MaxInt(MinInt((if s.x0 <= s.x1 then s.x1 else s.x0) + 1, width), 0);
        if start > end { return Panicked; }
        FillRow(s, start, end, color);
        return Drawn;
      }
      if s.x0 == s.x1 && s.x0 >= 0 && s.x0 < width {
        FillColumn(s, color);
        return Drawn;
      }
      Plot(s, color);
      return Drawn;
    }

    /** The horizontal fast path: one slice fill. */
    method FillRow(s: Segment, start: nat, end: nat, color: nat)
      requires Valid() && s.y0 == s.y1 && 0 <= s.y0 < height
      requires start == MaxInt(MinInt(s.x0, s.x1), 0) && end == MaxInt(MinInt(MaxInt(s.x0, s.x1) + 1, width), 0)
      requires start <= end
      modifies pixels
      ensures Repainted(old(pixels[..]), pixels[..], width, height, (x, y) => OnLine(s, x, y), color)
    {
      NothingPainted(pixels[..], width, height, (x, y) => y == s.y0 && start <= x < start, color);
      for px := start to end
        invariant Repainted(old(pixels[..]), pixels[..], width, height, (x, y) => y == s.y0 && start <= x < px, color)
      {
        PaintMore(old(pixels[..]), pixels[..], width, height, (x, y) => y == s.y0 && start <= x < px,
                  (x, y) => y == s.y0 && start <= x < px + 1, px, s.y0, color);
        ghost var mid := pixels[..];
        pixels[At(width, px, s.y0)] := color;
        assert pixels[..] == mid[At(width, px, s.y0) := color];
      }
      forall x, y | OnSurface(width, height, x, y) ensures (y == s.y0 && start <= x < end) <==> OnLine(s, x, y) {
        HorizontalPoints(s, x, y);
      }
      SamePoints(old(pixels[..]), pixels[..], width, height, (x, y) => y == s.y0 && start <= x < end,
                 (x, y) => OnLine(s, x, y), color);
    }

    /** The vertical fast path: one pixel per row. */
    method FillColumn(s: Segment, color: nat)
      requires Valid() && s.x0 == s.x1 && 0 <= s.x0 < width
      modifies pixels
      ensures Repainted(old(pixels[..]), pixels[..], width, height, (x, y) => OnLine(s, x, y), color)
    {
      var start: nat := MaxInt(MinInt(s.y0, s.y1), 0);
      var end: nat := MaxInt(MinInt(MaxInt(s.y0, s.y1) + 1, height), 0);
      NothingPainted(pixels[..], width, height, (x, y) => x == s.x0 && start <= y < start, color);
      var py := start;
      while py < end
        invariant start <= py && (start <= end ==> py <= end)
        invariant Repainted(old(pixels[..]), pixels[..], width, height, (x, y) => x == s.x0 && start <= y < py, color)
      {
        PaintMore(old(pixels[..]), pixels[..], width, height, (x, y) => x == s.x0 && start <= y < py,
                  (x, y) => x == s.x0 && start <= y < py + 1, s.x0, py, color);
        ghost var mid := pixels[..];
        pixels[At(width, s.x0, py)] := color;
        assert pixels[..] == mid[At(width, s.x0, py) := color];
        py := py + 1;
      }
      forall x, y | OnSurface(width, height, x, y) ensures (x == s.x0 && start <= y < py) <==> OnLine(s, x, y) {
        VerticalPoints(s, x, y);
      }
      SamePoints(old(pixels[..]), pixels[..], width, height, (x, y) => x == s.x0 && start <= y < py,
                 (x, y) => OnLine(s, x, y), color);
    }

    /** The general loop. */
    method Plot(s: Segment, color: nat)
      requires Valid() && s.InLimits()
      modifies pixels
      ensures Repainted(old(pixels[..]), pixels[..], width, height, (x, y) => OnLine(s, x, y), color)
    {
      var x, y := s.x0, s.y0;
      var dx, dy := s.Dx(), -(s.Dy() as int);
      var err := dx + dy;
      ghost var n := 0;
      assert x == PointX(s, n) && y == PointY(s, n) && err == Walk(s.Dx(), s.Dy(), n).err;
      hide Walk, PointX, PointY, Repainted, SatDouble, At;
      NothingTraced(pixels[..], width, height, s, color);
      hide Traced;
      while true
        invariant 0 <= n <= s.Last()
        invariant x == PointX(s, n) && y == PointY(s, n) && err == Walk(s.Dx(), s.Dy(), n).err
        invariant Traced(old(pixels[..]), pixels[..], width, height, s, n, color)
        decreases s.Last() - n
      {
        TraceMore(old(pixels[..]), pixels[..], width, height, s, n, color);
        ghost var mid := pixels[..];
        if 0 <= x < width && 0 <= y < height {
          pixels[At(width, x, y)] := color;
          assert pixels[..] == mid[At(width, x, y) := color];
        }
        EndTest(s, n);
        if x == s.x1 && y == s.y1 {
          TracedAll(old(pixels[..]), pixels[..], width, height, s, color);
          break;
        }
        NextPoint(s, n);
        var e2 := SatDouble(err);
        if e2 >= dy {
          err := err + dy;
          x := x + s.Sx();
        }
        if e2 <= dx {
          err := err + dx;
          y := y + s.Sy();
        }
        n := n + 1;
      }
    }
  }

  /** What one iteration does to the point and the error term: the doubled error term decides both steps. */
  lemma NextPoint(s: Segment, n: nat)
    requires s.InLimits()
    ensures var b, c := Walk(s.Dx(), s.Dy(), n), Walk(s.Dx(), s.Dy(), n + 1);
            var e2 := SatDouble(b.err);
            var right, down := e2 >= 0 - s.Dy(), e2 <= s.Dx();
            && PointX(s, n + 1) == PointX(s, n) + (if right then s.Sx() else 0)
            && PointY(s, n + 1) == PointY(s, n) + (if down then s.Sy() else 0)
            && c.err == b.err - (if right then s.Dy() else 0) + (if down then s.Dx() else 0)
  {
    NothingSaturates(s.Dx(), s.Dy(), n);
    hide SatDouble;
    assert Walk(s.Dx(), s.Dy(), n + 1) == Advance(s.Dx(), s.Dy(), Walk(s.Dx(), s.Dy(), n));
    hide Walk;
  }

  /** A two-pixel line just beyond the right edge of a one-pixel surface makes `draw_line` panic. */
  method LineBeyondRightEdge() returns (r: DrawResult)
    ensures r == Panicked
  {
    var pixels := new nat[1](_ => 0);
    var surface := new Surface(1, 1, pixels);
    r := surface.DrawLine(Segment(2, 0, 3, 0), 7);
  }
}
