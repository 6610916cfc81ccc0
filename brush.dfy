/**
 * The whiteboard's circular brush: every point of a stroke paints the pixels
 * within the brush radius of it, clipped to the image, into a row-major pixel
 * buffer.
 */
module Brush {

  import opened Ints

  datatype Point = Point(x: int, y: int)

  datatype Color32 = Color32(r: u8, g: u8, b: u8, a: u8)

  /** Pixel `(x, y)` is within brush radius `r` of `p`: both offsets in `[-r, r]` and inside the circle. */
  predicate InBrush(p: Point, r: int, x: int, y: int) {
    -r <= x - p.x <= r && -r <= y - p.y <= r &&
    (x - p.x) * (x - p.x) + (y - p.y) * (y - p.y) <= r * r
  }

  /** Some point of the stroke covers pixel `(x, y)`. */
  predicate Covered(points: seq<Point>, r: int, x: int, y: int) {
    exists k :: 0 <= k < |points| && InBrush(points[k], r, x, y)
  }

  /**
   * What the loops have painted when they are at point `pi`, row offset `dy`
   * and column offset `dx`: everything the earlier points cover, and the part
   * of point `pi`'s disc in earlier rows or earlier in the current row.
   */
  predicate PaintedBefore(points: seq<Point>, r: int, pi: nat, dy: int, dx: int, x: int, y: int)
    requires pi < |points|
  {
    Covered(points[..pi], r, x, y) ||
    (InBrush(points[pi], r, x, y) &&
     (y - points[pi].y < dy || (y - points[pi].y == dy && x - points[pi].x < dx)))
  }

  /** Euclidean division is determined by quotient and remainder. */
  lemma DivModUnique(i: int, w: int, q: int, m: int)
    requires w > 0 && i == q * w + m && 0 <= m < w
    ensures i / w == q && i % w == m
  {
    var q', m' := i / w, i % w;
    assert i == q' * w + m' && 0 <= m' < w;
    assert (q' - q) * w == q' * w - q * w;
    if q' > q {
      MulAtLeast(q' - q, w);
    } else if q' < q {
      MulAtLeast(q - q', w);
    }
  }

  lemma {:induction false} MulAtLeast(d: int, w: nat)
    requires d >= 1
    ensures d * w >= w
    decreases d
  {
    if d > 1 {
      MulAtLeast(d - 1, w);
      assert d * w == (d - 1) * w + w;
    }
  }

  /** Row-major layout: pixel `(x, y)` of a `width`-wide image is at `y * width + x`. */
  lemma PixelIndex(x: int, y: int, width: nat, height: nat)
    requires 0 <= x < width && 0 <= y < height
    ensures 0 <= y * width + x < width * height
    ensures (y * width + x) % width == x && (y * width + x) / width == y
  {
    assert y * width <= (height - 1) * width;
    assert (height - 1) * width == height * width - width;
    DivModUnique(y * width + x, width, y, x);
  }

  /** Painting offset `(dx, dy)` of point `pi` extends the painted region by that one pixel. */
  lemma PaintStep(points: seq<Point>, r: int, pi: nat, dy: int, dx: int, x: int, y: int)
    requires pi < |points| && -r <= dx <= r && -r <= dy <= r
    ensures PaintedBefore(points, r, pi, dy, dx + 1, x, y) <==>
              PaintedBefore(points, r, pi, dy, dx, x, y) ||
              (x == points[pi].x + dx && y == points[pi].y + dy && dx * dx + dy * dy <= r * r)
  {
  }

  /** A finished row is the same as the start of the next one. */
  lemma RowDone(points: seq<Point>, r: int, pi: nat, dy: int, dx: int, x: int, y: int)
    requires pi < |points| && dx > r
    ensures PaintedBefore(points, r, pi, dy, dx, x, y) <==> PaintedBefore(points, r, pi, dy + 1, -r, x, y)
  {
  }

  /** Before the first row of point `pi` only the earlier points have painted. */
  lemma PointStart(points: seq<Point>, r: int, pi: nat, x: int, y: int)
    requires pi < |points|
    ensures PaintedBefore(points, r, pi, -r, -r, x, y) <==> Covered(points[..pi], r, x, y)
  {
  }

  /** After the last row point `pi` has painted its whole disc. */
  lemma PointDone(points: seq<Point>, r: int, pi: nat, dy: int, x: int, y: int)
    requires pi < |points| && dy > r
    ensures PaintedBefore(points, r, pi, dy, -r, x, y) <==> Covered(points[..pi + 1], r, x, y)
  {
    if Covered(points[..pi + 1], r, x, y) {
      var k :| 0 <= k < pi + 1 && InBrush(points[..pi + 1][k], r, x, y);
      if k < pi {
        assert points[..pi][k] == points[..pi + 1][k];
      }
    }
    if Covered(points[..pi], r, x, y) {
      var k :| 0 <= k < pi && InBrush(points[..pi][k], r, x, y);
      assert points[..pi + 1][k] == points[..pi][k];
    }
    if InBrush(points[pi], r, x, y) {
      assert points[..pi + 1][pi] == points[pi];
    }
  }

  /** `cur` holds `color` exactly where the stroke's first `n` points cover, and `base` elsewhere. */
  ghost predicate ShowsPoints(cur: seq<Color32>, base: seq<Color32>, width: nat, points: seq<Point>,
                              r: int, n: nat, color: Color32)
    requires |cur| == |base| && (|cur| == 0 || width > 0) && n <= |points|
  {
    forall i :: 0 <= i < |cur| ==>
      cur[i] == if Covered(points[..n], r, i % width, i / width) then color else base[i]
  }

  /** `cur` holds `color` exactly where the loops have painted at `(pi, dy, dx)`, and `base` elsewhere. */
  ghost predicate ShowsPartial(cur: seq<Color32>, base: seq<Color32>, width: nat, points: seq<Point>,
                               r: int, pi: nat, dy: int, dx: int, color: Color32)
    requires |cur| == |base| && (|cur| == 0 || width > 0) && pi < |points|
  {
    forall i :: 0 <= i < |cur| ==>
      cur[i] == if PaintedBefore(points, r, pi, dy, dx, i % width, i / width) then color else base[i]
  }

  lemma ShowsPointStart(cur: seq<Color32>, base: seq<Color32>, width: nat, points: seq<Point>,
                        r: int, pi: nat, color: Color32)
    requires |cur| == |base| && (|cur| == 0 || width > 0) && pi < |points|
    requires ShowsPoints(cur, base, width, points, r, pi, color)
    ensures ShowsPartial(cur, base, width, points, r, pi, -r, -r, color)
  {
    forall i | 0 <= i < |cur| {
      PointStart(points, r, pi, i % width, i / width);
    }
  }

  lemma ShowsPointDone(cur: seq<Color32>, base: seq<Color32>, width: nat, points: seq<Point>,
                       r: int, pi: nat, dy: int, color: Color32)
    requires |cur| == |base| && (|cur| == 0 || width > 0) && pi < |points| && dy > r
    requires ShowsPartial(cur, base, width, points, r, pi, dy, -r, color)
    ensures ShowsPoints(cur, base, width, points, r, pi + 1, color)
  {
    forall i | 0 <= i < |cur| {
      PointDone(points, r, pi, dy, i % width, i / width);
    }
  }

  lemma ShowsRowDone(cur: seq<Color32>, base: seq<Color32>, width: nat, points: seq<Point>,
                     r: int, pi: nat, dy: int, dx: int, color: Color32)
    requires |cur| == |base| && (|cur| == 0 || width > 0) && pi < |points| && dx > r
    requires ShowsPartial(cur, base, width, points, r, pi, dy, dx, color)
    ensures ShowsPartial(cur, base, width, points, r, pi, dy + 1, -r, color)
  {
    forall i | 0 <= i < |cur| {
      RowDone(points, r, pi, dy, dx, i % width, i / width);
    }
  }

  /** Visiting an offset that lands outside the image or outside the circle paints nothing. */
  lemma ShowsSkip(cur: seq<Color32>, base: seq<Color32>, width: nat, height: nat, points: seq<Point>,
                  r: int, pi: nat, dy: int, dx: int, color: Color32)
    requires |cur| == |base| == width * height && pi < |points| && -r <= dx <= r && -r <= dy <= r
    requires var nx, ny := points[pi].x + dx, points[pi].y + dy;
             !(0 <= nx < width && 0 <= ny < height && dx * dx + dy * dy <= r * r)
    requires ShowsPartial(cur, base, width, points, r, pi, dy, dx, color)
    ensures ShowsPartial(cur, base, width, points, r, pi, dy, dx + 1, color)
  {
    forall i | 0 <= i < |cur|
      ensures cur[i] == if PaintedBefore(points, r, pi, dy, dx + 1, i % width, i / width) then color else base[i]
    {
      PaintStep(points, r, pi, dy, dx, i % width, i / width);
      PixelInImage(i, width, height);
    }
  }

  /** Painting an offset inside the image and the circle sets exactly that pixel. */
  lemma ShowsPaint(cur: seq<Color32>, base: seq<Color32>, width: nat, height: nat, points: seq<Point>,
                   r: int, pi: nat, dy: int, dx: int, color: Color32, idx: nat)
    requires |cur| == |base| == width * height && pi < |points| && -r <= dx <= r && -r <= dy <= r
    requires var nx, ny := points[pi].x + dx, points[pi].y + dy;
             0 <= nx < width && 0 <= ny < height && dx * dx + dy * dy <= r * r && idx == ny * width + nx
    requires idx < |cur|
    requires ShowsPartial(cur, base, width, points, r, pi, dy, dx, color)
    ensures ShowsPartial(cur[idx := color], base, width, points, r, pi, dy, dx + 1, color)
  {
    var nx, ny := points[pi].x + dx, points[pi].y + dy;
    PixelIndex(nx, ny, width, height);
    var cur' := cur[idx := color];
    forall i | 0 <= i < |cur'|
      ensures cur'[i] == if PaintedBefore(points, r, pi, dy, dx + 1, i % width, i / width) then color else base[i]
    {
      PaintStep(points, r, pi, dy, dx, i % width, i / width);
      if i != idx {
        PixelInImage(i, width, height);
        assert i == (i / width) * width + i % width;
      }
    }
  }

  /** Every index of a `width * height` buffer is the row-major index of its own coordinates. */
  lemma PixelInImage(i: int, width: nat, height: nat)
    requires 0 <= i < width * height
    ensures width > 0 && i == (i / width) * width + i % width && 0 <= i % width < width
    ensures 0 <= i / width < height
  {
    var q := i / width;
    if q >= height {
      MulAtLeast(q - height + 1, width);
    }
  }

  /** One row of point `pi`'s brush square. */
  method PaintRow(pixels: array<Color32>, width: nat, height: nat, points: seq<Point>,
                  r: int, pi: nat, dy: int, color: Color32, ghost base: seq<Color32>)
    requires pixels.Length == |base| == width * height && pi < |points| && -r <= dy <= r
    requires pixels.Length == 0 || width > 0
    requires ShowsPartial(pixels[..], base, width, points, r, pi, dy, -r, color)
    modifies pixels
    ensures ShowsPartial(pixels[..], base, width, points, r, pi, dy + 1, -r, color)
  {
    var p := points[pi];
    var dx := -r;
    while dx <= r
      invariant dx >= -r
      invariant ShowsPartial(pixels[..], base, width, points, r, pi, dy, dx, color)
    {
      var nx := p.x + dx;
      var ny := p.y + dy;
      if nx >= 0 && nx < width && ny >= 0 && ny < height && dx * dx + dy * dy <= r * r {
        PixelIndex(nx, ny, width, height);
        ShowsPaint(pixels[..], base, width, height, points, r, pi, dy, dx, color, ny * width + nx);
        pixels[ny * width + nx] := color;
      } else {
        ShowsSkip(pixels[..], base, width, height, points, r, pi, dy, dx, color);
      }
      dx := dx + 1;
    }
    ShowsRowDone(pixels[..], base, width, points, r, pi, dy, dx, color);
  }

  /**
   * `draw_stroke_on_image`: for every stroke point and every offset `(dx, dy)`
   * in `[-r, r]` with `dx² + dy² <= r²`, the pixel at `(x + dx, y + dy)` is set
   * to `color` when it lies inside the image. Every other pixel keeps its value.
   */
  method DrawStroke(pixels: array<Color32>, width: nat, height: nat, points: seq<Point>,
                    brushSize: int, color: Color32)
    requires pixels.Length == width * height
    modifies pixels
    ensures forall i :: 0 <= i < pixels.Length ==>
              pixels[i] == if Covered(points, brushSize, i % width, i / width) then color else old(pixels[i])
  {
    ghost var base := pixels[..];
    if pixels.Length > 0 {
      PixelInImage(0, width, height);
    }
    var r := brushSize;
    var pi := 0;
    while pi < |points|
      invariant 0 <= pi <= |points|
      invariant ShowsPoints(pixels[..], base, width, points, r, pi, color)
    {
      ShowsPointStart(pixels[..], base, width, points, r, pi, color);
      var dy := -r;
      while dy <= r
        invariant dy >= -r
        invariant ShowsPartial(pixels[..], base, width, points, r, pi, dy, -r, color)
      {
        PaintRow(pixels, width, height, points, r, pi, dy, color, base);
        dy := dy + 1;
      }
      ShowsPointDone(pixels[..], base, width, points, r, pi, dy, color);
      pi := pi + 1;
    }
    assert points[..pi] == points;
  }
}
