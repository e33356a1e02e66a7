/**
 * The points `draw_line` of drivers/vga/src/vga_device.rs plots, as a value:
 * the start point, then one point per step along the major axis, the minor
 * coordinate advancing when the decision variable is non-negative.
 */
module Bresenham {
  import opened Digits

  datatype Point = Point(x: nat, y: nat)

  /** `xi` / `yi`: +1 towards a larger target, -1 otherwise, also when already there. */
  function Dir(a: int, b: int): int {
    if a < b then 1 else -1
  }

  /** `dx` / `dy`. */
  function Dist(a: int, b: int): nat {
    if a < b then b - a else a - b
  }

  /** `a` moved `k` steps in direction `dir`. */
  function Move(a: int, dir: int, k: int): int {
    if dir == 1 then a + k else a - k
  }


  /**
   * The minor-axis offsets after each remaining step of the decision loop, on a
   * major axis of `D` steps and a minor axis of `E`: at step `k` with minor
   * offset `m` and decision `d`, a non-negative `d` advances the minor axis and
   * adds `2 (E - D)`, a negative one adds `2 E`.
   */
  function MinorOffsets(k: nat, m: nat, d: int, D: nat, E: nat): (r: seq<nat>)
    requires k <= D
    ensures |r| == D - k
    decreases D - k
  {
    if k == D then []
    else if d >= 0 then [m + 1] + MinorOffsets(k + 1, m + 1, d + 2 * (E - D), D, E)
    else [m] + MinorOffsets(k + 1, m, d + 2 * E, D, E)
  }

  /** Whether the X axis is the major one (`dx > dy`); ties go to Y. */
  predicate XMajor(p: Point, q: Point) {
    Dist(p.x, q.x) > Dist(p.y, q.y)
  }

  /** The offsets of the line's minor axis. */
  function Offsets(p: Point, q: Point): (r: seq<nat>)
    ensures |r| == Max(Dist(p.x, q.x), Dist(p.y, q.y))
  {
    var dx, dy := Dist(p.x, q.x), Dist(p.y, q.y);
    if XMajor(p, q) then MinorOffsets(0, 0, 2 * dy - dx, dx, dy)
    else MinorOffsets(0, 0, 2 * dx - dy, dy, dx)
  }

  /** Point `i` of the line, `i >= 1`: `i` steps along the major axis, the `i`-th offset along the minor one. */
  function StepPoint(p: Point, q: Point, i: nat): Point
    requires 1 <= i <= |Offsets(p, q)|
  {
    var xi, yi := Dir(p.x, q.x), Dir(p.y, q.y);
    var m := Offsets(p, q)[i - 1];
    LineOffsets(p, q);
    if XMajor(p, q) then Point(Move(p.x, xi, i), Move(p.y, yi, m))
    else Point(Move(p.x, xi, m), Move(p.y, yi, i))
  }

  /** Every point `draw_line(p, q)` plots, in order. */
  function LinePoints(p: Point, q: Point): (r: seq<Point>)
    ensures |r| == Max(Dist(p.x, q.x), Dist(p.y, q.y)) + 1
    ensures r[0] == p
  {
    [p] + seq(|Offsets(p, q)|, i requires 0 <= i < |Offsets(p, q)| => StepPoint(p, q, i + 1))
  }

  // ---------------------------------------------------------------- the decision variable

  /** The decision variable after `k` of `D` steps with minor offset `m`, and its range `[2 (E - D), 2 E)`. */
  ghost predicate Decision(k: nat, m: nat, d: int, D: nat, E: nat) {
    && d + D == 2 * E * (k + 1) - 2 * D * m
    && 2 * (E - D) <= d < 2 * E
  }

  /** One step of the loop keeps the decision variable's meaning and range. */
  lemma DecisionStep(k: nat, m: nat, d: int, D: nat, E: nat)
    requires k < D && E <= D && Decision(k, m, d, D, E)
    ensures d >= 0 ==> Decision(k + 1, m + 1, d + 2 * (E - D), D, E)
    ensures d < 0 ==> Decision(k + 1, m, d + 2 * E, D, E)
  {
    assert 2 * E * (k + 2) == 2 * E * (k + 1) + 2 * E;
    assert 2 * D * (m + 1) == 2 * D * m + 2 * D;
  }

  /** `-D <= 2 D u < D` with `D > 0` leaves only `u == 0`. */
  lemma OnlyZero(D: int, u: int)
    requires D > 0 && -D <= 2 * D * u < D
    ensures u == 0
  {
  }

  /** After all `D` steps the minor offset is exactly `E`. */
  lemma DecisionAtEnd(m: nat, d: int, D: nat, E: nat)
    requires D > 0 && Decision(D, m, d, D, E)
    ensures m == E
  {
    assert 2 * E * (D + 1) == 2 * D * E + 2 * E;
    assert 2 * D * (E - m) == 2 * D * E - 2 * D * m;
    OnlyZero(D, E - m);
  }

  /** The last offset is `E`: the loop reaches the minor target as well. */
  lemma {:induction false} LastOffset(k: nat, m: nat, d: int, D: nat, E: nat)
    requires k < D && E <= D && Decision(k, m, d, D, E)
    ensures MinorOffsets(k, m, d, D, E)[D - k - 1] == E
    decreases D - k
  {
    DecisionStep(k, m, d, D, E);
    var m', d' := if d >= 0 then m + 1 else m, if d >= 0 then d + 2 * (E - D) else d + 2 * E;
    assert MinorOffsets(k, m, d, D, E) == [m'] + MinorOffsets(k + 1, m', d', D, E);
    if k + 1 == D {
      DecisionAtEnd(m', d', D, E);
    } else {
      LastOffset(k + 1, m', d', D, E);
    }
  }

  /** Each offset is the previous one (or `m` for the first) plus 0 or 1. */
  lemma {:induction false} OffsetSteps(k: nat, m: nat, d: int, D: nat, E: nat)
    requires k <= D
    ensures var r := MinorOffsets(k, m, d, D, E);
      && (|r| > 0 ==> r[0] == m || r[0] == m + 1)
      && forall i :: 0 <= i < |r| - 1 ==> r[i + 1] == r[i] || r[i + 1] == r[i] + 1
    decreases D - k
  {
    if k < D {
      var m', d' := if d >= 0 then m + 1 else m, if d >= 0 then d + 2 * (E - D) else d + 2 * E;
      OffsetSteps(k + 1, m', d', D, E);
      var r := MinorOffsets(k, m, d, D, E);
      assert r == [m'] + MinorOffsets(k + 1, m', d', D, E);
    }
  }

  /** Taking one step of the decision loop off the front of the remaining offsets. */
  lemma OffsetsStep(offs: seq<nat>, k: nat, m: nat, d: int, D: nat, E: nat)
    requires k < D && k <= |offs| && offs[k..] == MinorOffsets(k, m, d, D, E)
    ensures k < |offs| && offs[k] == if d >= 0 then m + 1 else m
    ensures offs[k + 1..] == MinorOffsets(k + 1, offs[k], if d >= 0 then d + 2 * (E - D) else d + 2 * E, D, E)
  {
    assert offs[k..] == [offs[k]] + offs[k + 1..];
  }

  /** Offsets never decrease, so they stay below the last one. */
  lemma OffsetsBelowLast(r: seq<nat>, i: nat)
    requires |r| > 0 && i < |r|
    requires forall j :: 0 <= j < |r| - 1 ==> r[j + 1] == r[j] || r[j + 1] == r[j] + 1
    ensures r[i] <= r[|r| - 1]
    decreases |r| - i
  {
    if i < |r| - 1 {
      OffsetsBelowLast(r, i + 1);
    }
  }

  // ---------------------------------------------------------------- the line

  /** The facts about the line's offsets: they move by 0 or 1 and end at the minor distance. */
  lemma LineOffsets(p: Point, q: Point)
    ensures var r := Offsets(p, q);
      var E := if XMajor(p, q) then Dist(p.y, q.y) else Dist(p.x, q.x);
      && (|r| > 0 ==> r[0] <= 1 && r[|r| - 1] == E)
      && (forall i :: 0 <= i < |r| - 1 ==> r[i + 1] == r[i] || r[i + 1] == r[i] + 1)
      && (forall i :: 0 <= i < |r| ==> r[i] <= E)
  {
    if XMajor(p, q) {
      AxisOffsets(Dist(p.x, q.x), Dist(p.y, q.y));
    } else {
      AxisOffsets(Dist(p.y, q.y), Dist(p.x, q.x));
    }
  }

  /** The offsets of a major axis of `D` steps and a minor axis of `E <= D`. */
  lemma AxisOffsets(D: nat, E: nat)
    requires E <= D
    ensures var r := MinorOffsets(0, 0, 2 * E - D, D, E);
      && (|r| > 0 ==> r[0] <= 1 && r[|r| - 1] == E)
      && (forall i :: 0 <= i < |r| - 1 ==> r[i + 1] == r[i] || r[i + 1] == r[i] + 1)
      && (forall i :: 0 <= i < |r| ==> r[i] <= E)
  {
    var d0: int := 2 * E - D;
    var r := MinorOffsets(0, 0, d0, D, E);
    OffsetSteps(0, 0, d0, D, E);
    if D > 0 {
      LastOffset(0, 0, d0, D, E);
    }
    forall i | 0 <= i < |r|
      ensures r[i] <= E
    {
      OffsetsBelowLast(r, i);
    }
  }

  /** The line ends exactly at its second end point. */
  lemma LineEnds(p: Point, q: Point)
    ensures var r := LinePoints(p, q); r[|r| - 1] == q
  {
    LineOffsets(p, q);
  }

  /** Every step moves the major coordinate by exactly one towards its target, and the minor one by 0 or one towards its target. */
  lemma LineSteps(p: Point, q: Point, i: nat)
    requires i + 1 < |LinePoints(p, q)|
    ensures var r := LinePoints(p, q);
      var xi, yi := Dir(p.x, q.x), Dir(p.y, q.y);
      var sx, sy := r[i + 1].x - r[i].x, r[i + 1].y - r[i].y;
      && (sx == 0 || sx == xi) && (sy == 0 || sy == yi)
      && (if XMajor(p, q) then sx == xi else sy == yi)
  {
    LineOffsets(p, q);
  }

  /**
   * One step of the X-major decision loop: `x` moves one step, `y` moves with a
   * non-negative decision value, and the decision value moves on.
   */
  lemma XMajorStep(p: Point, q: Point, k: nat, m: nat, d: int, dx: nat, dy: nat)
    requires dx == Dist(p.x, q.x) && dy == Dist(p.y, q.y) && dx > dy && k < dx
    requires Offsets(p, q)[k..] == MinorOffsets(k, m, d, dx, dy)
    ensures var next, m' := LinePoints(p, q)[k + 1], if d >= 0 then m + 1 else m;
      && next.x == Move(p.x, Dir(p.x, q.x), k + 1) && next.y == Move(p.y, Dir(p.y, q.y), m')
      && Offsets(p, q)[k] == m'
      && Offsets(p, q)[k + 1..] == MinorOffsets(k + 1, m', if d >= 0 then d + 2 * (dy - dx) else d + 2 * dy, dx, dy)
      && LinePoints(p, q)[..k + 1] + [next] == LinePoints(p, q)[..k + 2]
  {
    OffsetsStep(Offsets(p, q), k, m, d, dx, dy);
    assert LinePoints(p, q)[k + 1] == StepPoint(p, q, k + 1);
  }

  /** One step of the Y-major decision loop, with the axes swapped. */
  lemma YMajorStep(p: Point, q: Point, k: nat, m: nat, d: int, dx: nat, dy: nat)
    requires dx == Dist(p.x, q.x) && dy == Dist(p.y, q.y) && dx <= dy && k < dy
    requires Offsets(p, q)[k..] == MinorOffsets(k, m, d, dy, dx)
    ensures var next, m' := LinePoints(p, q)[k + 1], if d >= 0 then m + 1 else m;
      && next.y == Move(p.y, Dir(p.y, q.y), k + 1) && next.x == Move(p.x, Dir(p.x, q.x), m')
      && Offsets(p, q)[k] == m'
      && Offsets(p, q)[k + 1..] == MinorOffsets(k + 1, m', if d >= 0 then d + 2 * (dx - dy) else d + 2 * dx, dy, dx)
      && LinePoints(p, q)[..k + 1] + [next] == LinePoints(p, q)[..k + 2]
  {
    OffsetsStep(Offsets(p, q), k, m, d, dy, dx);
    assert LinePoints(p, q)[k + 1] == StepPoint(p, q, k + 1);
  }

  /** No point leaves the box spanned by the two end points. */
  lemma LineInBox(p: Point, q: Point, i: nat)
    requires i < |LinePoints(p, q)|
    ensures var pt := LinePoints(p, q)[i];
      && Min(p.x, q.x) <= pt.x <= Max(p.x, q.x)
      && Min(p.y, q.y) <= pt.y <= Max(p.y, q.y)
  {
    LineOffsets(p, q);
  }

  /** Swapping nothing: a line from a point to itself is that point alone. */
  lemma LineOfOnePoint(p: Point)
    ensures LinePoints(p, p) == [p]
  {
  }
}
