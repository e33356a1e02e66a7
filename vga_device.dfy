/**
 * `VGADevice` of drivers/vga/src/vga_device.rs: drawing points, lines,
 * rectangles, images and text positions on a `PixelBuffer`.
 */
module VgaDevice {
  import opened Digits
  import opened PixelBuffer
  import opened Bresenham

  /** `CHAR_HEIGHT as u16`: the raster height `Size16`. */
  const CHAR_HEIGHT: nat := 16
  const U16_LIMIT: nat := 0x1_0000

  /** A text position `(pos_x, pos_y)`. */
  datatype Cursor = Cursor(x: nat, y: nat)

  /** One character of `measure_string`: a newline starts a new line; anything else advances, wrapping once past `limit`. */
  function MeasureStep(cur: Cursor, c: char, resetX: nat, limit: nat, charWidth: nat): Cursor {
    if c == '\n' then Cursor(resetX, cur.y + CHAR_HEIGHT)
    else if cur.x + charWidth > limit then Cursor(resetX, cur.y + CHAR_HEIGHT)
    else Cursor(cur.x + charWidth, cur.y)
  }

  /** Where `measure_string` ends. */
  function Measure(cur: Cursor, text: string, resetX: nat, limit: nat, charWidth: nat): Cursor
    decreases |text|
  {
    if |text| == 0 then cur
    else Measure(MeasureStep(cur, text[0], resetX, limit, charWidth), text[1..], resetX, limit, charWidth)
  }

  /** Where `draw_string` puts the next glyph: on a new line first if it would not fit. */
  function GlyphOrigin(cur: Cursor, resetX: nat, limit: nat, charWidth: nat): Cursor {
    if cur.x + charWidth > limit then Cursor(resetX, cur.y + CHAR_HEIGHT) else cur
  }

  /** Where `draw_string` ends, and the origin of every glyph it draws, in order. */
  function DrawText(cur: Cursor, text: string, resetX: nat, limit: nat, charWidth: nat): (Cursor, seq<Cursor>)
    decreases |text|
  {
    if |text| == 0 then (cur, [])
    else if text[0] == '\n' then DrawText(Cursor(resetX, cur.y + CHAR_HEIGHT), text[1..], resetX, limit, charWidth)
    else
      var o := GlyphOrigin(cur, resetX, limit, charWidth);
      var rest := DrawText(Cursor(o.x + charWidth, o.y), text[1..], resetX, limit, charWidth);
      (rest.0, [o] + rest.1)
  }

  /** Measuring never ends past the limit when it starts within it and the reset column is within it. */
  lemma {:induction false} MeasureWithinLimit(cur: Cursor, text: string, resetX: nat, limit: nat, charWidth: nat)
    requires cur.x <= limit && resetX <= limit
    ensures Measure(cur, text, resetX, limit, charWidth).x <= limit
    decreases |text|
  {
    if |text| > 0 {
      MeasureWithinLimit(MeasureStep(cur, text[0], resetX, limit, charWidth), text[1..], resetX, limit, charWidth);
    }
  }

  /** With room for one glyph after the reset column, no glyph `draw_string` draws crosses the limit. */
  lemma {:induction false} GlyphsWithinLimit(cur: Cursor, text: string, resetX: nat, limit: nat, charWidth: nat)
    requires resetX + charWidth <= limit
    ensures forall o :: o in DrawText(cur, text, resetX, limit, charWidth).1 ==> o.x + charWidth <= limit
    decreases |text|
  {
    if |text| > 0 {
      if text[0] == '\n' {
        GlyphsWithinLimit(Cursor(resetX, cur.y + CHAR_HEIGHT), text[1..], resetX, limit, charWidth);
      } else {
        var o := GlyphOrigin(cur, resetX, limit, charWidth);
        GlyphsWithinLimit(Cursor(o.x + charWidth, o.y), text[1..], resetX, limit, charWidth);
      }
    }
  }

  /** Both only ever move down, by whole lines of `CHAR_HEIGHT`. */
  lemma {:induction false} WholeLines(cur: Cursor, text: string, resetX: nat, limit: nat, charWidth: nat)
    ensures var m := Measure(cur, text, resetX, limit, charWidth);
      m.y >= cur.y && (m.y - cur.y) % CHAR_HEIGHT == 0
    ensures var d := DrawText(cur, text, resetX, limit, charWidth).0;
      d.y >= cur.y && (d.y - cur.y) % CHAR_HEIGHT == 0
    decreases |text|
  {
    if |text| > 0 {
      var step := MeasureStep(cur, text[0], resetX, limit, charWidth);
      WholeLines(step, text[1..], resetX, limit, charWidth);
      LinesAdd(cur.y, step.y, Measure(step, text[1..], resetX, limit, charWidth).y);
      var o := GlyphOrigin(cur, resetX, limit, charWidth);
      var next := if text[0] == '\n' then Cursor(resetX, cur.y + CHAR_HEIGHT) else Cursor(o.x + charWidth, o.y);
      WholeLines(next, text[1..], resetX, limit, charWidth);
      LinesAdd(cur.y, next.y, DrawText(next, text[1..], resetX, limit, charWidth).0.y);
    }
  }

  /** Two moves down by whole lines make one. */
  lemma LinesAdd(a: int, b: int, c: int)
    requires a <= b && (b - a) % CHAR_HEIGHT == 0 && b <= c && (c - b) % CHAR_HEIGHT == 0
    ensures a <= c && (c - a) % CHAR_HEIGHT == 0
  {
    var i, j := (b - a) / CHAR_HEIGHT, (c - b) / CHAR_HEIGHT;
    assert c - a == CHAR_HEIGHT * (i + j);
  }

  /** `measure_string` wraps after advancing, `draw_string` before drawing, so they can end in different places. */
  lemma MeasureDiffersFromDraw()
    ensures Measure(Cursor(0, 0), "ab", 0, 10, 8) == Cursor(0, 16)
    ensures DrawText(Cursor(0, 0), "ab", 0, 10, 8).0 == Cursor(8, 16)
  {
    assert "ab"[1..] == "b";
    assert "b"[1..] == "";
  }

  /** A pixel of a decoded image: its position and its `0xRRGGBB` colour. */
  datatype ImagePixel = ImagePixel(x: nat, y: nat, color: nat)

  /** The colour `draw_image` builds: red from bits 16..23, green from 8..15, blue from 0..7, opaque. */
  function Unpack(c: nat): Color {
    Color((c / 0x1_0000) % 256, (c / 0x100) % 256, c % 256, 255)
  }

  /** Unpacking loses only the bits above 23, and is always opaque. */
  lemma UnpackRoundTrip(c: nat)
    ensures var k := Unpack(c);
      k.red * 0x1_0000 + k.green * 0x100 + k.blue == c % 0x100_0000 && k.alpha == 255
  {
    var k := Unpack(c);
    var q := c / 0x100;
    DivModUnique(c, 0x100, q, c % 0x100);
    var qq := q / 0x100;
    DivModUnique(q, 0x100, qq, q % 0x100);
    assert c == qq * 0x1_0000 + (q % 0x100) * 0x100 + c % 0x100;
    DivDivBy256(c);
    assert k.red == qq % 256;
    DivModUnique(c, 0x100_0000, qq / 256, k.red * 0x1_0000 + k.green * 0x100 + k.blue);
  }

  lemma DivDivBy256(c: nat)
    ensures c / 0x100 / 0x100 == c / 0x1_0000
  {
    var q := c / 0x1_0000;
    var r := c % 0x1_0000;
    DivModUnique(c, 0x100, q * 0x100 + r / 0x100, r % 0x100);
    DivModUnique(q * 0x100 + r / 0x100, 0x100, q, r / 0x100);
  }

  class VgaDevice {
    const width: nat
    const height: nat
    const stride: nat
    /** `CHAR_WIDTH`, the raster width of the font, which is not part of this model. */
    const charWidth: nat
    const buffer: PixelBuffer

    constructor (width: nat, height: nat, stride: nat, charWidth: nat, buffer: PixelBuffer)
      ensures this.width == width && this.height == height && this.stride == stride
      ensures this.charWidth == charWidth && this.buffer == buffer
    {
      this.width := width;
      this.height := height;
      this.stride := stride;
      this.charWidth := charWidth;
      this.buffer := buffer;
    }

    /** The pixel index `draw_point` writes: `y * stride + x`. */
    function PointIndex(x: nat, y: nat): nat {
      y * stride + x
    }

    /** A point `draw_point` can draw without the pixel buffer panicking. */
    predicate PointFits(pt: Point) {
      buffer.Fits(buffer.frame.Length, PointIndex(pt.x, pt.y))
    }

    /** The `put_pixel` calls that drawing `pts` in `color` makes. */
    function PointDots(pts: seq<Point>, color: Color): (r: seq<Dot>)
      ensures |r| == |pts|
    {
      seq(|pts|, i requires 0 <= i < |pts| => Dot(PointIndex(pts[i].x, pts[i].y), color))
    }

    /** `draw_line(p, q)` runs without panicking: `u16` end points that the `i16` casts keep, a decision variable that stays an `i16`, and every point inside the buffer. */
    predicate LineDrawable(p: Point, q: Point) {
      && 0 <= p.x < 0x8000 && 0 <= p.y < 0x8000 && 0 <= q.x < 0x8000 && 0 <= q.y < 0x8000
      && Max(Dist(p.x, q.x), Dist(p.y, q.y)) < 0x4000
      && forall i :: 0 <= i < |LinePoints(p, q)| ==> PointFits(LinePoints(p, q)[i])
    }

    /** `draw_point`. */
    method DrawPoint(x: nat, y: nat, color: Color)
      requires buffer.Fits(buffer.frame.Length, PointIndex(x, y))
      modifies buffer.frame
      ensures buffer.frame[..] == buffer.Put(old(buffer.frame[..]), PointIndex(x, y), color)
    {
      var index := (y * stride) + x;
      buffer.PutPixel(index, color);
    }

    /** `draw_line`: the points of `LinePoints`, in order. */
    method DrawLine(x1: nat, y1: nat, x2: nat, y2: nat, color: Color)
      requires LineDrawable(Point(x1, y1), Point(x2, y2))
      modifies buffer.frame
      ensures buffer.AllFit(buffer.frame.Length, PointDots(LinePoints(Point(x1, y1), Point(x2, y2)), color))
      ensures buffer.frame[..] == buffer.PaintAll(old(buffer.frame[..]), PointDots(LinePoints(Point(x1, y1), Point(x2, y2)), color))
    {
      ghost var start := buffer.frame[..];
      var xi: int, dx: nat;
      if x1 < x2 {
        xi := 1;
        dx := x2 - x1;
      } else {
        xi := -1;
        dx := x1 - x2;
      }
      var yi: int, dy: nat;
      if y1 < y2 {
        yi := 1;
        dy := y2 - y1;
      } else {
        yi := -1;
        dy := y1 - y2;
      }
      assert LinePoints(Point(x1, y1), Point(x2, y2))[0] == Point(x1, y1);
      DrawNextPoint(start, [], x1, y1, color);
      assert [] + [Point(x1, y1)] == LinePoints(Point(x1, y1), Point(x2, y2))[..1];
      if dx > dy {
        DrawAlongX(x1, y1, x2, y2, xi, yi, dx, dy, color, start);
      } else {
        DrawAlongY(x1, y1, x2, y2, xi, yi, dx, dy, color, start);
      }
    }

    /** The X-major branch of `draw_line`, after its first point: one point per step of `x1` until it reaches `x2`. */
    method DrawAlongX(x1: nat, y1: nat, x2: nat, y2: nat, xi: int, yi: int, dx: nat, dy: nat, color: Color, ghost start: seq<Byte>)
      requires LineDrawable(Point(x1, y1), Point(x2, y2)) && |start| == buffer.frame.Length
      requires xi == Dir(x1, x2) && yi == Dir(y1, y2) && dx == Dist(x1, x2) && dy == Dist(y1, y2) && dx > dy
      requires buffer.AllFit(|start|, PointDots(LinePoints(Point(x1, y1), Point(x2, y2))[..1], color))
      requires buffer.frame[..] == buffer.PaintAll(start, PointDots(LinePoints(Point(x1, y1), Point(x2, y2))[..1], color))
      modifies buffer.frame
      ensures buffer.AllFit(|start|, PointDots(LinePoints(Point(x1, y1), Point(x2, y2)), color))
      ensures buffer.frame[..] == buffer.PaintAll(start, PointDots(LinePoints(Point(x1, y1), Point(x2, y2)), color))
    {
      ghost var p, q := Point(x1, y1), Point(x2, y2);
      ghost var pts := LinePoints(p, q);
      ghost var offs := Offsets(p, q);
      ghost var k: nat, m: nat := 0, 0;
      var cx: int, cy: int, tx: int := x1, y1, x2;
      var ai: int := (dy - dx) * 2;
      var bi: int := dy * 2;
      var d: int := bi - dx;
      while cx != tx
        invariant k <= dx && cx == Move(x1, xi, k) && cy == Move(y1, yi, m)
        invariant offs[k..] == MinorOffsets(k, m, d, dx, dy)
        invariant buffer.AllFit(|start|, PointDots(pts[..k + 1], color))
        invariant buffer.frame[..] == buffer.PaintAll(start, PointDots(pts[..k + 1], color))
        decreases dx - k
      {
        cx, cy, d := StepAlongX(p, q, k, m, cx, cy, d, xi, yi, ai, bi, dx, dy, color, start);
        m := offs[k];
        k := k + 1;
      }
      assert pts[..k + 1] == pts;
    }

    /** The Y-major branch of `draw_line`, after its first point: one point per step of `y1` until it reaches `y2`. */
    method DrawAlongY(x1: nat, y1: nat, x2: nat, y2: nat, xi: int, yi: int, dx: nat, dy: nat, color: Color, ghost start: seq<Byte>)
      requires LineDrawable(Point(x1, y1), Point(x2, y2)) && |start| == buffer.frame.Length
      requires xi == Dir(x1, x2) && yi == Dir(y1, y2) && dx == Dist(x1, x2) && dy == Dist(y1, y2) && dx <= dy
      requires buffer.AllFit(|start|, PointDots(LinePoints(Point(x1, y1), Point(x2, y2))[..1], color))
      requires buffer.frame[..] == buffer.PaintAll(start, PointDots(LinePoints(Point(x1, y1), Point(x2, y2))[..1], color))
      modifies buffer.frame
      ensures buffer.AllFit(|start|, PointDots(LinePoints(Point(x1, y1), Point(x2, y2)), color))
      ensures buffer.frame[..] == buffer.PaintAll(start, PointDots(LinePoints(Point(x1, y1), Point(x2, y2)), color))
    {
      ghost var p, q := Point(x1, y1), Point(x2, y2);
      ghost var pts := LinePoints(p, q);
      ghost var offs := Offsets(p, q);
      ghost var k: nat, m: nat := 0, 0;
      var cx: int, cy: int, ty: int := x1, y1, y2;
      var ai: int := (dx - dy) * 2;
      var bi: int := dx * 2;
      var d: int := bi - dy;
      while cy != ty
        invariant k <= dy && cy == Move(y1, yi, k) && cx == Move(x1, xi, m)
        invariant offs[k..] == MinorOffsets(k, m, d, dy, dx)
        invariant buffer.AllFit(|start|, PointDots(pts[..k + 1], color))
        invariant buffer.frame[..] == buffer.PaintAll(start, PointDots(pts[..k + 1], color))
        decreases dy - k
      {
        cx, cy, d := StepAlongY(p, q, k, m, cx, cy, d, xi, yi, ai, bi, dx, dy, color, start);
        m := offs[k];
        k := k + 1;
      }
      assert pts[..k + 1] == pts;
    }

    /** One pass of the X-major loop of `draw_line`: the decision value picks the next point, which is drawn. */
    method StepAlongX(ghost p: Point, ghost q: Point, ghost k: nat, ghost m: nat, cx: int, cy: int, d: int,
                      xi: int, yi: int, ai: int, bi: int, dx: nat, dy: nat, color: Color, ghost start: seq<Byte>)
      returns (cx': int, cy': int, d': int)
      requires LineDrawable(p, q) && |start| == buffer.frame.Length
      requires xi == Dir(p.x, q.x) && yi == Dir(p.y, q.y) && dx == Dist(p.x, q.x) && dy == Dist(p.y, q.y)
      requires dx > dy && k < dx && ai == (dy - dx) * 2 && bi == dy * 2
      requires cx == Move(p.x, xi, k) && cy == Move(p.y, yi, m) && Offsets(p, q)[k..] == MinorOffsets(k, m, d, dx, dy)
      requires buffer.AllFit(|start|, PointDots(LinePoints(p, q)[..k + 1], color))
      requires buffer.frame[..] == buffer.PaintAll(start, PointDots(LinePoints(p, q)[..k + 1], color))
      modifies buffer.frame
      ensures cx' == Move(p.x, xi, k + 1) && cy' == Move(p.y, yi, Offsets(p, q)[k])
      ensures Offsets(p, q)[k + 1..] == MinorOffsets(k + 1, Offsets(p, q)[k], d', dx, dy)
      ensures buffer.AllFit(|start|, PointDots(LinePoints(p, q)[..k + 2], color))
      ensures buffer.frame[..] == buffer.PaintAll(start, PointDots(LinePoints(p, q)[..k + 2], color))
    {
      XMajorStep(p, q, k, m, d, dx, dy);
      ghost var pts := LinePoints(p, q);
      ghost var next := if d >= 0 then d + 2 * (dy - dx) else d + 2 * dy;
      if d >= 0 {
        cx', cy', d' := cx + xi, cy + yi, d + ai;
      } else {
        cx', cy', d' := cx + xi, cy, d + bi;
      }
      assert d' == next;
      assert pts[k + 1] == Point(cx', cy');
      DrawNextPoint(start, pts[..k + 1], cx', cy', color);
    }

    /** One pass of the Y-major loop of `draw_line`, with the axes swapped. */
    method StepAlongY(ghost p: Point, ghost q: Point, ghost k: nat, ghost m: nat, cx: int, cy: int, d: int,
                      xi: int, yi: int, ai: int, bi: int, dx: nat, dy: nat, color: Color, ghost start: seq<Byte>)
      returns (cx': int, cy': int, d': int)
      requires LineDrawable(p, q) && |start| == buffer.frame.Length
      requires xi == Dir(p.x, q.x) && yi == Dir(p.y, q.y) && dx == Dist(p.x, q.x) && dy == Dist(p.y, q.y)
      requires dx <= dy && k < dy && ai == (dx - dy) * 2 && bi == dx * 2
      requires cy == Move(p.y, yi, k) && cx == Move(p.x, xi, m) && Offsets(p, q)[k..] == MinorOffsets(k, m, d, dy, dx)
      requires buffer.AllFit(|start|, PointDots(LinePoints(p, q)[..k + 1], color))
      requires buffer.frame[..] == buffer.PaintAll(start, PointDots(LinePoints(p, q)[..k + 1], color))
      modifies buffer.frame
      ensures cy' == Move(p.y, yi, k + 1) && cx' == Move(p.x, xi, Offsets(p, q)[k])
      ensures Offsets(p, q)[k + 1..] == MinorOffsets(k + 1, Offsets(p, q)[k], d', dy, dx)
      ensures buffer.AllFit(|start|, PointDots(LinePoints(p, q)[..k + 2], color))
      ensures buffer.frame[..] == buffer.PaintAll(start, PointDots(LinePoints(p, q)[..k + 2], color))
    {
      YMajorStep(p, q, k, m, d, dx, dy);
      ghost var pts := LinePoints(p, q);
      ghost var next := if d >= 0 then d + 2 * (dx - dy) else d + 2 * dx;
      if d >= 0 {
        cx', cy', d' := cx + xi, cy + yi, d + ai;
      } else {
        cx', cy', d' := cx, cy + yi, d + bi;
      }
      assert d' == next;
      assert pts[k + 1] == Point(cx', cy');
      DrawNextPoint(start, pts[..k + 1], cx', cy', color);
    }

    /** `draw_point` as the next point of a run drawn since the buffer held `start`. */
    method DrawNextPoint(ghost start: seq<Byte>, ghost done: seq<Point>, x: nat, y: nat, color: Color)
      requires |start| == buffer.frame.Length && PointFits(Point(x, y))
      requires buffer.AllFit(|start|, PointDots(done, color))
      requires buffer.frame[..] == buffer.PaintAll(start, PointDots(done, color))
      modifies buffer.frame
      ensures buffer.AllFit(|start|, PointDots(done + [Point(x, y)], color))
      ensures buffer.frame[..] == buffer.PaintAll(start, PointDots(done + [Point(x, y)], color))
    {
      DrawPoint(x, y, color);
      PaintStep(start, done, Point(x, y), color);
    }

    /** Drawing one more point of a line. */
    lemma PaintStep(start: seq<Byte>, done: seq<Point>, pt: Point, color: Color)
      requires buffer.AllFit(|start|, PointDots(done, color)) && PointFits(pt) && |start| == buffer.frame.Length
      ensures buffer.AllFit(|start|, PointDots(done + [pt], color))
      ensures buffer.PaintAll(start, PointDots(done + [pt], color))
        == buffer.Put(buffer.PaintAll(start, PointDots(done, color)), PointIndex(pt.x, pt.y), color)
    {
      var dot := Dot(PointIndex(pt.x, pt.y), color);
      assert PointDots(done + [pt], color) == PointDots(done, color) + [dot];
      buffer.PaintAllSnoc(start, PointDots(done, color), dot);
    }

    /** The four lines of `draw_rectangle`: top, bottom, left, right. */
    function RectangleLines(x: nat, y: nat, w: nat, h: nat): seq<(Point, Point)> {
      [ (Point(x, y), Point(x + w, y)),
        (Point(x, y + h), Point(x + w, y + h)),
        (Point(x, y), Point(x, y + h)),
        (Point(x + w, y), Point(x + w, y + h)) ]
    }

    /** The `put_pixel` calls of the four lines, in order. */
    function RectangleDots(x: nat, y: nat, w: nat, h: nat, color: Color): seq<Dot>
      requires forall i :: 0 <= i < 4 ==> LineDrawable(RectangleLines(x, y, w, h)[i].0, RectangleLines(x, y, w, h)[i].1)
    {
      var ls := RectangleLines(x, y, w, h);
      PointDots(LinePoints(ls[0].0, ls[0].1), color) + PointDots(LinePoints(ls[1].0, ls[1].1), color)
        + PointDots(LinePoints(ls[2].0, ls[2].1), color) + PointDots(LinePoints(ls[3].0, ls[3].1), color)
    }

    /** `draw_rectangle`: exactly the four lines between the corners `(x, y)` and `(x + w, y + h)`. */
    method DrawRectangle(x: nat, y: nat, w: nat, h: nat, color: Color)
      requires forall i :: 0 <= i < 4 ==> LineDrawable(RectangleLines(x, y, w, h)[i].0, RectangleLines(x, y, w, h)[i].1)
      modifies buffer.frame
      ensures buffer.AllFit(buffer.frame.Length, RectangleDots(x, y, w, h, color))
      ensures buffer.frame[..] == buffer.PaintAll(old(buffer.frame[..]), RectangleDots(x, y, w, h, color))
    {
      ghost var ls := RectangleLines(x, y, w, h);
      ghost var b := buffer.frame[..];
      ghost var d0 := PointDots(LinePoints(ls[0].0, ls[0].1), color);
      ghost var d1 := PointDots(LinePoints(ls[1].0, ls[1].1), color);
      ghost var d2 := PointDots(LinePoints(ls[2].0, ls[2].1), color);
      ghost var d3 := PointDots(LinePoints(ls[3].0, ls[3].1), color);
      assert LineDrawable(ls[0].0, ls[0].1) && LineDrawable(ls[1].0, ls[1].1);
      assert LineDrawable(ls[2].0, ls[2].1) && LineDrawable(ls[3].0, ls[3].1);
      DrawLine(x, y, x + w, y, color);
      DrawLine(x, y + h, x + w, y + h, color);
      buffer.PaintAllAppend(b, d0, d1);
      DrawLine(x, y, x, y + h, color);
      buffer.PaintAllAppend(b, d0 + d1, d2);
      DrawLine(x + w, y, x + w, y + h, color);
      buffer.PaintAllAppend(b, d0 + d1 + d2, d3);
    }

    /** The `put_pixel` calls of `fill_rectangle`: indices `0 .. w h - 1`, in order. */
    function RunDots(n: nat, color: Color): (r: seq<Dot>)
      ensures |r| == n
    {
      seq(n, i requires 0 <= i => Dot(i, color))
    }

    /**
     * `fill_rectangle`: `w * h` consecutive pixels from index 0, whatever `x`,
     * `y` and the stride; the `u16` ranges `y..y + h` and `x..x + w` must not
     * overflow.
     */
    method FillRectangle(x: nat, y: nat, w: nat, h: nat, color: Color)
      requires x + w < U16_LIMIT && y + h < U16_LIMIT
      requires forall i :: 0 <= i < w * h ==> buffer.Fits(buffer.frame.Length, i)
      modifies buffer.frame
      ensures buffer.AllFit(buffer.frame.Length, RunDots(w * h, color))
      ensures buffer.frame[..] == buffer.PaintAll(old(buffer.frame[..]), RunDots(w * h, color))
    {
      ghost var start := buffer.frame[..];
      ghost var rows: nat := 0;
      var index: nat := 0;
      for row := y to y + h
        invariant rows == row - y && index == rows * w
        invariant buffer.AllFit(|start|, RunDots(index, color))
        invariant buffer.frame[..] == buffer.PaintAll(start, RunDots(index, color))
      {
        RowEnd(rows, w, h);
        index := FillRow(start, x, w, index, w * h, color);
        rows := rows + 1;
      }
      if h > 0 {
        RowEnd(h - 1, w, h);
      }
    }

    /** The inner loop of `fill_rectangle`: one row of `w` pixels from index `index` on. */
    method FillRow(ghost start: seq<Byte>, x: nat, w: nat, index: nat, ghost n: nat, color: Color) returns (next: nat)
      requires |start| == buffer.frame.Length && x + w < U16_LIMIT
      requires index + w <= n && forall i :: 0 <= i < n ==> buffer.Fits(|start|, i)
      requires buffer.AllFit(|start|, RunDots(index, color))
      requires buffer.frame[..] == buffer.PaintAll(start, RunDots(index, color))
      modifies buffer.frame
      ensures next == index + w
      ensures buffer.AllFit(|start|, RunDots(next, color))
      ensures buffer.frame[..] == buffer.PaintAll(start, RunDots(next, color))
    {
      next := index;
      for col := x to x + w
        invariant next == index + (col - x)
        invariant buffer.AllFit(|start|, RunDots(next, color))
        invariant buffer.frame[..] == buffer.PaintAll(start, RunDots(next, color))
      {
        PutNextPixel(start, next, color);
        next := next + 1;
      }
    }

    /** Row `r` of `h` rows of `w` pixels ends where row `r + 1` starts, within the `w h` pixels. */
    lemma RowEnd(r: nat, w: nat, h: nat)
      requires r < h
      ensures r * w + w == (r + 1) * w <= w * h == h * w
    {
      MulMonotone(r + 1, h, w);
    }

    /** `put_pixel` of the next index of a run from index 0. */
    method PutNextPixel(ghost start: seq<Byte>, index: nat, color: Color)
      requires |start| == buffer.frame.Length && buffer.Fits(|start|, index)
      requires buffer.AllFit(|start|, RunDots(index, color))
      requires buffer.frame[..] == buffer.PaintAll(start, RunDots(index, color))
      modifies buffer.frame
      ensures buffer.AllFit(|start|, RunDots(index + 1, color))
      ensures buffer.frame[..] == buffer.PaintAll(start, RunDots(index + 1, color))
    {
      buffer.PutPixel(index, color);
      assert RunDots(index + 1, color) == RunDots(index, color) + [Dot(index, color)];
      buffer.PaintAllSnoc(start, RunDots(index, color), Dot(index, color));
    }

    /** `clear`: `fill_rectangle` over the whole screen, width and height truncated to `u16`. */
    method Clear(color: Color)
      requires forall i :: 0 <= i < (width % U16_LIMIT) * (height % U16_LIMIT) ==> buffer.Fits(buffer.frame.Length, i)
      modifies buffer.frame
      ensures buffer.AllFit(buffer.frame.Length, RunDots((width % U16_LIMIT) * (height % U16_LIMIT), color))
      ensures buffer.frame[..] == buffer.PaintAll(old(buffer.frame[..]), RunDots((width % U16_LIMIT) * (height % U16_LIMIT), color))
    {
      FillRectangle(0, 0, width % U16_LIMIT, height % U16_LIMIT, color);
    }

    /** The `draw_point` calls of `draw_image`: each pixel moved by `(x0, y0)` in its unpacked colour. */
    function ImageDots(x0: nat, y0: nat, pixels: seq<ImagePixel>): (r: seq<Dot>)
      ensures |r| == |pixels|
    {
      seq(|pixels|, i requires 0 <= i < |pixels| =>
        Dot(PointIndex(pixels[i].x + x0, pixels[i].y + y0), Unpack(pixels[i].color)))
    }

    /** `draw_image` over the decoded pixels; the `u16` additions must not overflow. */
    method DrawImage(x0: nat, y0: nat, pixels: seq<ImagePixel>)
      requires forall i :: 0 <= i < |pixels| ==> pixels[i].x + x0 < U16_LIMIT && pixels[i].y + y0 < U16_LIMIT
      requires forall i :: 0 <= i < |pixels| ==> buffer.Fits(buffer.frame.Length, PointIndex(pixels[i].x + x0, pixels[i].y + y0))
      modifies buffer.frame
      ensures buffer.AllFit(buffer.frame.Length, ImageDots(x0, y0, pixels))
      ensures buffer.frame[..] == buffer.PaintAll(old(buffer.frame[..]), ImageDots(x0, y0, pixels))
    {
      ghost var start := buffer.frame[..];
      for i := 0 to |pixels|
        invariant buffer.AllFit(|start|, ImageDots(x0, y0, pixels[..i]))
        invariant buffer.frame[..] == buffer.PaintAll(start, ImageDots(x0, y0, pixels[..i]))
      {
        var pixel := pixels[i];
        var color := Color((pixel.color / 0x1_0000) % 256, (pixel.color / 0x100) % 256, pixel.color % 256, 255);
        DrawPoint(pixel.x + x0, pixel.y + y0, color);
        var dot := Dot(PointIndex(pixel.x + x0, pixel.y + y0), Unpack(pixel.color));
        assert pixels[..i + 1] == pixels[..i] + [pixel];
        assert ImageDots(x0, y0, pixels[..i + 1]) == ImageDots(x0, y0, pixels[..i]) + [dot];
        buffer.PaintAllSnoc(start, ImageDots(x0, y0, pixels[..i]), dot);
      }
      assert pixels[..|pixels|] == pixels;
    }

    /** `measure_string`, against `self.width as u16`. */
    method MeasureString(x: nat, y: nat, text: string, resetX: nat) returns (pos: Cursor)
      ensures pos == Measure(Cursor(x, y), text, resetX, width % U16_LIMIT, charWidth)
    {
      var posX: nat, posY: nat := x, y;
      for i := 0 to |text|
        invariant Measure(Cursor(posX, posY), text[i..], resetX, width % U16_LIMIT, charWidth)
          == Measure(Cursor(x, y), text, resetX, width % U16_LIMIT, charWidth)
      {
        assert text[i..][1..] == text[i + 1..];
        var c := text[i];
        if c == '\n' {
          posX := resetX;
          posY := posY + CHAR_HEIGHT;
        } else {
          posX := posX + charWidth;
          if posX > width % U16_LIMIT {
            posX := resetX;
            posY := posY + CHAR_HEIGHT;
          }
        }
      }
      pos := Cursor(posX, posY);
    }

    /** `draw_string`: its end position and the origin of each glyph it draws (the glyphs themselves are not modelled). */
    method DrawString(x: nat, y: nat, text: string, resetX: nat) returns (pos: Cursor, origins: seq<Cursor>)
      ensures (pos, origins) == DrawText(Cursor(x, y), text, resetX, width % U16_LIMIT, charWidth)
    {
      var posX: nat, posY: nat := x, y;
      origins := [];
      ghost var limit := width % U16_LIMIT;
      ghost var whole := DrawText(Cursor(x, y), text, resetX, limit, charWidth);
      assert text[0..] == text;
      for i := 0 to |text|
        invariant DrawText(Cursor(posX, posY), text[i..], resetX, limit, charWidth).0 == whole.0
        invariant origins + DrawText(Cursor(posX, posY), text[i..], resetX, limit, charWidth).1 == whole.1
      {
        assert text[i..][1..] == text[i + 1..];
        ghost var here := DrawText(Cursor(posX, posY), text[i..], resetX, limit, charWidth);
        var c := text[i];
        if c == '\n' {
          posX := resetX;
          posY := posY + CHAR_HEIGHT;
        } else {
          if posX + charWidth > width % U16_LIMIT {
            posX := resetX;
            posY := posY + CHAR_HEIGHT;
          }
          ghost var rest := DrawText(Cursor(posX + charWidth, posY), text[i + 1..], resetX, limit, charWidth);
          assert here.1 == [Cursor(posX, posY)] + rest.1;
          assert origins + here.1 == (origins + [Cursor(posX, posY)]) + rest.1;
          origins := origins + [Cursor(posX, posY)];
          posX := posX + charWidth;
        }
      }
      assert text[|text|..] == [];
      assert origins + [] == origins;
      pos := Cursor(posX, posY);
    }
  }
}
