/** `vga_draw_line`: the integer-only loop paints the closed-form, rounded line. */
module LineDrawing {
  import opened Bytes

  const WIDTH := 320
  const HEIGHT := 200

  datatype Point = Point(x: int, y: int)

  // ---------------------------------------------------------------- the line as a set of points

  /** `n` pixels from `from` in the direction of `to`. */
  function Toward(from: int, to: int, n: nat): int {
    if from < to then from + n else from - n
  }

  /** `k * minor / major` rounded to the nearest integer, halves rounded down. */
  function Rounded(k: nat, minor: nat, major: nat): nat
    requires major > 0
  {
    (2 * k * minor + major - 1) / (2 * major)
  }

  /** The steps in x and y that lead to the `k`-th point. */
  function Steps(dx: nat, dy: nat, k: nat): (nat, nat)
    requires k <= Max(dx, dy)
  {
    if k == 0 then (0, 0)
    else if dx >= dy then (k, Rounded(k, dy, dx))
    else (Rounded(k, dx, dy), k)
  }

  function LinePoint(p: Point, q: Point, k: nat): Point
    requires k <= Length(p, q)
  {
    var (i, j) := Steps(Abs(q.x - p.x), Abs(q.y - p.y), k);
    Point(Toward(p.x, q.x, i), Toward(p.y, q.y, j))
  }

  function Length(p: Point, q: Point): nat {
    Max(Abs(q.x - p.x), Abs(q.y - p.y))
  }

  /** The points of the line from `p` to `q`, in order. */
  function Line(p: Point, q: Point): seq<Point> {
    seq(Length(p, q) + 1, k requires 0 <= k <= Length(p, q) => LinePoint(p, q, k))
  }

  /** `Rounded` is the one integer whose distance from the exact value is at most a half,
      and less than a half above it. */
  lemma {:induction false} RoundedIs(k: nat, minor: nat, major: nat, j: nat)
    requires major > 0
    ensures Rounded(k, minor, major) == j <==> 0 <= 2 * (j * major - k * minor) + major < 2 * major
  {
    DivisionIs(2 * k * minor + major - 1, 2 * major, j);
    assert 2 * k * minor == 2 * (k * minor) && j * (2 * major) == 2 * (j * major);
  }

  lemma {:induction false} DivisionIs(n: nat, m: nat, q: nat)
    requires m > 0
    ensures n / m == q <==> q * m <= n < q * m + m
  {
    var r := n / m;
    assert r * m <= n < r * m + m;
    assert (q + 1) * m == q * m + m && (r + 1) * m == r * m + m;
    if q < r {
      MulMonotone(q + 1, r, m);
    } else if q > r {
      MulMonotone(r + 1, q, m);
    }
  }

  lemma {:induction false} RoundedEnds(minor: nat, major: nat)
    requires major > 0
    ensures Rounded(0, minor, major) == 0 && Rounded(major, minor, major) == minor
  {
    RoundedIs(0, minor, major, 0);
    RoundedIs(major, minor, major, minor);
    assert minor * major == major * minor;
  }

  lemma {:induction false} RoundedBound(k: nat, minor: nat, major: nat)
    requires major > 0 && k <= major && minor <= major
    ensures Rounded(k, minor, major) <= minor
  {
    var j := Rounded(k, minor, major);
    RoundedIs(k, minor, major, j);
    MulMonotone(k, major, minor);
    assert (minor + 1) * major == minor * major + major && minor * major == major * minor;
    if j > minor {
      MulMonotone(minor + 1, j, major);
    }
  }

  // ---------------------------------------------------------------- what the points are

  /** Every point is within half a pixel of the ideal line along the minor axis, and between the
      endpoints in both coordinates. */
  lemma {:induction false} WithinHalfPixel(dx: nat, dy: nat, k: nat)
    requires k <= Max(dx, dy)
    ensures var (i, j) := Steps(dx, dy, k);
            && i <= dx && j <= dy
            && 2 * Abs(j * dx - i * dy) <= Max(dx, dy)
  {
    if k > 0 {
      if dx >= dy {
        RoundedIs(k, dy, dx, Rounded(k, dy, dx));
        RoundedBound(k, dy, dx);
      } else {
        RoundedIs(k, dx, dy, Rounded(k, dx, dy));
        RoundedBound(k, dx, dy);
      }
    }
  }

  /** The line starts and ends at the endpoints and has max(|dx|, |dy|) + 1 points. */
  lemma {:induction false} LineEnds(p: Point, q: Point)
    ensures var line := Line(p, q);
            |line| == Length(p, q) + 1 && line[0] == p && line[|line| - 1] == q
  {
    var dx, dy := Abs(q.x - p.x), Abs(q.y - p.y);
    if dx >= dy && dx > 0 {
      RoundedEnds(dy, dx);
    } else if dy > 0 {
      RoundedEnds(dx, dy);
    }
  }

  /** One step along the major axis moves the minor coordinate by nothing or one. */
  lemma {:induction false} RoundedNext(k: nat, minor: nat, major: nat)
    requires major > 0 && minor <= major
    ensures Rounded(k, minor, major) <= Rounded(k + 1, minor, major) <= Rounded(k, minor, major) + 1
  {
    var j, j' := Rounded(k, minor, major), Rounded(k + 1, minor, major);
    RoundedIs(k, minor, major, j);
    RoundedIs(k + 1, minor, major, j');
    assert (k + 1) * minor == k * minor + minor;
    assert (j + 2) * major == j * major + 2 * major && (j' + 1) * major == j' * major + major;
    if j' > j + 1 {
      MulMonotone(j + 2, j', major);
    } else if j' < j {
      MulMonotone(j' + 1, j, major);
    }
  }

  /** Neighbouring points touch: both coordinates move by at most one, one of them by one. */
  lemma {:induction false} LineConnected(p: Point, q: Point, k: nat)
    requires k < Length(p, q)
    ensures var a, b := Line(p, q)[k], Line(p, q)[k + 1];
            Max(Abs(b.x - a.x), Abs(b.y - a.y)) == 1
  {
    var dx, dy := Abs(q.x - p.x), Abs(q.y - p.y);
    if dx >= dy {
      RoundedEnds(dy, dx);
      RoundedNext(k, dy, dx);
    } else {
      RoundedEnds(dx, dy);
      RoundedNext(k, dx, dy);
    }
  }

  // ---------------------------------------------------------------- painting

  function Paint(buffer: seq<byte>, p: Point, color: byte): (r: seq<byte>)
    requires |buffer| == WIDTH * HEIGHT
    ensures |r| == |buffer|
  {
    if 0 <= p.x < WIDTH && 0 <= p.y < HEIGHT then buffer[p.y * WIDTH + p.x := color] else buffer
  }

  function PaintAll(buffer: seq<byte>, points: seq<Point>, color: byte): (r: seq<byte>)
    requires |buffer| == WIDTH * HEIGHT
    ensures |r| == |buffer|
  {
    if points == [] then buffer
    else Paint(PaintAll(buffer, points[..|points| - 1], color), points[|points| - 1], color)
  }

  /** Exactly the pixels of the points take the colour. */
  lemma {:induction false} PaintedPixels(buffer: seq<byte>, points: seq<Point>, color: byte, x: nat, y: nat)
    requires |buffer| == 320 * 200 && x < 320 && y < 200
    ensures PaintAll(buffer, points, color)[y * 320 + x]
            == if Point(x, y) in points then color else buffer[y * 320 + x]
    decreases |points|
  {
    if points != [] {
      var n := |points| - 1;
      PaintedPixels(buffer, points[..n], color, x, y);
      assert points == points[..n] + [points[n]];
    }
  }

  /** `vga_set_pixel`. */
  method SetPixel(buffer: array<byte>, x: int, y: int, color: byte)
    requires buffer.Length == WIDTH * HEIGHT
    modifies buffer
    ensures buffer[..] == Paint(old(buffer[..]), Point(x, y), color)
  {
    if x >= 0 && x < WIDTH && y >= 0 && y < HEIGHT {
      buffer[y * WIDTH + x] := color;
    }
  }

  /** `i` steps in x and `j` in y have led to the `k`-th point. */
  ghost predicate OnTrack(dx: nat, dy: nat, i: nat, j: nat, k: nat) {
    k <= Max(dx, dy) && (i, j) == Steps(dx, dy, k)
  }

  /** The minor axis steps exactly when the error term says so. */
  lemma {:induction false} MinorStep(k: nat, minor: nat, major: nat, j: nat)
    requires 0 < major && minor <= major && Rounded(k, minor, major) == j
    ensures var d := j * major - k * minor;
            && 0 <= 2 * d + major < 2 * major
            && (minor == major || minor == 0 ==> d == 0)
            && Rounded(k + 1, minor, major) == if 2 * d + major < 2 * minor then j + 1 else j
  {
    hide Rounded;
    RoundedIs(k, minor, major, j);
    var d := j * major - k * minor;
    var j' := if 2 * d + major < 2 * minor then j + 1 else j;
    assert (j + 1) * major == j * major + major && (k + 1) * minor == k * minor + minor;
    RoundedIs(k + 1, minor, major, j');
    if minor == major {
      RoundedIs(k, major, major, k);
    } else if minor == 0 {
      RoundedIs(k, 0, major, 0);
    }
  }

  /** The error term of the loop after `i` steps in x and `j` in y. */
  ghost function ErrorTerm(dx: nat, dy: nat, i: nat, j: nat): int {
    (j + 1) * dx - (i + 1) * dy
  }

  lemma {:induction false} ErrorTermSteps(dx: nat, dy: nat, i: nat, j: nat)
    ensures ErrorTerm(dx, dy, i + 1, j) == ErrorTerm(dx, dy, i, j) - dy
    ensures ErrorTerm(dx, dy, i, j + 1) == ErrorTerm(dx, dy, i, j) + dx
    ensures ErrorTerm(dx, dy, i, j) == (j * dx - i * dy) + dx - dy
  {
    assert (j + 1) * dx == j * dx + dx && (i + 1) * dy == i * dy + dy;
    assert (j + 2) * dx == (j + 1) * dx + dx && (i + 2) * dy == (i + 1) * dy + dy;
  }

  /** One round of the loop leads from the `k`-th point to the next. */
  lemma {:induction false} NextStep(dx: nat, dy: nat, k: nat, i: nat, j: nat)
    requires k < Max(dx, dy) && OnTrack(dx, dy, i, j, k)
    ensures var err := ErrorTerm(dx, dy, i, j);
            var i' := if 2 * err + dy > 0 then i + 1 else i;
            var j' := if 2 * err < dx then j + 1 else j;
            && OnTrack(dx, dy, i', j', k + 1)
            && ErrorTerm(dx, dy, i', j') == err - (if i' > i then dy else 0) + (if j' > j then dx else 0)
            && 2 * Abs(err - dx + dy) <= Max(dx, dy)
            && (dx == dy || dx == 0 || dy == 0 ==> err == dx - dy)
  {
    hide Rounded, ErrorTerm;
    ErrorTermSteps(dx, dy, i, j);
    ErrorTermSteps(dx, dy, i + 1, j);
    if dx >= dy {
      RoundedEnds(dy, dx);
      MinorStep(k, dy, dx, j);
    } else {
      RoundedEnds(dx, dy);
      MinorStep(k, dx, dy, i);
    }
  }

  predicate InInt(x: int) {
    -0x8000_0000 <= x < 0x8000_0000
  }

  /** The values computed in the round that starts at the `k`-th point fit an int. */
  ghost predicate RoundFits(dx: nat, dy: nat, k: nat)
    requires k <= Max(dx, dy)
  {
    var (i, j) := Steps(dx, dy, k);
    var err := ErrorTerm(dx, dy, i, j);
    var err' := if 2 * err + dy > 0 then err - dy else err;
    InInt(2 * err) && InInt(err') && (2 * err < dx ==> InInt(err' + dx))
  }

  /** No value computed for the line overflows an int. */
  ghost predicate NoOverflow(p: Point, q: Point) {
    Length(p, q) < 0x8000_0000 && AllRoundsFit(Abs(q.x - p.x), Abs(q.y - p.y))
  }

  ghost predicate AllRoundsFit(dx: nat, dy: nat) {
    forall k :: 0 <= k < Max(dx, dy) ==> RoundFits(dx, dy, k)
  }

  /** Short enough lines do not overflow: a third of the int range is enough for any direction,
      and diagonal lines of any extent are fine. */
  lemma {:induction false} ShortLineFits(p: Point, q: Point)
    requires Length(p, q) < 0x8000_0000
    requires 3 * Length(p, q) < 0x8000_0000 || Abs(q.x - p.x) == Abs(q.y - p.y)
    ensures NoOverflow(p, q)
  {
    hide Steps, ErrorTerm, OnTrack;
    var dx, dy := Abs(q.x - p.x), Abs(q.y - p.y);
    forall k | 0 <= k < Length(p, q)
      ensures RoundFits(dx, dy, k)
    {
      var (i, j) := Steps(dx, dy, k);
      TrackHere(dx, dy, k);
      NextStep(dx, dy, k, i, j);
    }
  }

  /** For a horizontal line the limit is half the int range, exactly. */
  lemma {:induction false} HorizontalLineFits(p: Point, q: Point)
    requires p.y == q.y
    ensures NoOverflow(p, q) <==> Abs(q.x - p.x) <= 0x3FFF_FFFF
  {
    hide Steps, ErrorTerm, OnTrack;
    var dx := Abs(q.x - p.x);
    forall k | 0 <= k < dx
      ensures RoundFits(dx, 0, k) <==> dx <= 0x3FFF_FFFF
    {
      var (i, j) := Steps(dx, 0, k);
      TrackHere(dx, 0, k);
      NextStep(dx, 0, k, i, j);
    }
    assert dx > 0 ==> (RoundFits(dx, 0, 0) <==> dx <= 0x3FFF_FFFF);
  }

  lemma {:induction false} TrackHere(dx: nat, dy: nat, k: nat)
    requires k <= Max(dx, dy)
    ensures OnTrack(dx, dy, Steps(dx, dy, k).0, Steps(dx, dy, k).1, k)
  {
  }

  /** The loop stops at the last point and not before. */
  lemma {:induction false} AtEnd(p: Point, q: Point, i: nat, j: nat, k: nat)
    requires OnTrack(Abs(q.x - p.x), Abs(q.y - p.y), i, j, k)
    ensures k < |Line(p, q)| == Length(p, q) + 1
    ensures Line(p, q)[k] == Point(Toward(p.x, q.x, i), Toward(p.y, q.y, j))
    ensures Line(p, q)[k] == q <==> k == Length(p, q)
  {
    LineEnds(p, q);
  }

  lemma {:induction false} PaintNext(buffer: seq<byte>, points: seq<Point>, k: nat, color: byte)
    requires |buffer| == WIDTH * HEIGHT && k < |points|
    ensures PaintAll(buffer, points[..k + 1], color) == Paint(PaintAll(buffer, points[..k], color), points[k], color)
    ensures k + 1 == |points| ==> points[..k + 1] == points
  {
    assert points[..k + 1][..k] == points[..k];
  }

  lemma {:induction false} StartOfLine(p: Point, q: Point, buffer: seq<byte>, color: byte)
    requires |buffer| == WIDTH * HEIGHT
    ensures OnTrack(Abs(q.x - p.x), Abs(q.y - p.y), 0, 0, 0)
    ensures |Line(p, q)| == Length(p, q) + 1 && PaintAll(buffer, Line(p, q)[..0], color) == buffer
  {
  }

  /** What the round at hand may rely on. */
  lemma {:induction false} RoundIsSafe(p: Point, q: Point, i: nat, j: nat, k: nat)
    requires NoOverflow(p, q) && k < Length(p, q) && OnTrack(Abs(q.x - p.x), Abs(q.y - p.y), i, j, k)
    ensures var dx, dy := Abs(q.x - p.x), Abs(q.y - p.y);
            var err := ErrorTerm(dx, dy, i, j);
            var err' := if 2 * err + dy > 0 then err - dy else err;
            InInt(2 * err) && InInt(err') && (2 * err < dx ==> InInt(err' + dx))
  {
    assert RoundFits(Abs(q.x - p.x), Abs(q.y - p.y), k);
  }

  lemma {:induction false} IntExtent(p: Point, q: Point)
    requires NoOverflow(p, q)
    ensures InInt(q.x - p.x) && InInt(q.y - p.y) && Abs(q.x - p.x) < 0x8000_0000 && Abs(q.y - p.y) < 0x8000_0000
  {
  }

  /** The loop variables at the `k`-th point, `i` steps in x and `j` in y from the start. */
  ghost predicate AtPoint(p: Point, q: Point, err: int, x: int, y: int, i: nat, j: nat, k: nat) {
    && OnTrack(Abs(q.x - p.x), Abs(q.y - p.y), i, j, k)
    && x == Toward(p.x, q.x, i) && y == Toward(p.y, q.y, j)
    && err == ErrorTerm(Abs(q.x - p.x), Abs(q.y - p.y), i, j)
  }

  /** The second half of the loop body of `vga_draw_line`: from one point to the next. */
  method Advance(ghost p: Point, ghost q: Point, dx: int32, dy: int32, sx: int32, sy: int32,
                 err: int32, x: int, y: int, ghost i: nat, ghost j: nat, ghost k: nat)
    returns (err': int32, x': int, y': int, ghost i': nat, ghost j': nat)
    requires NoOverflow(p, q) && k < Length(p, q) && AtPoint(p, q, err, x, y, i, j, k)
    requires dx == Abs(q.x - p.x) && dy == Abs(q.y - p.y)
    requires sx == (if p.x < q.x then 1 else -1) && sy == if p.y < q.y then 1 else -1
    ensures AtPoint(p, q, err', x', y', i', j', k + 1)
    ensures Line(p, q)[k + 1] == Point(x', y')
  {
    hide ErrorTerm, OnTrack, NoOverflow, Steps, Rounded, Line;
    NextStep(dx, dy, k, i, j);
    RoundIsSafe(p, q, i, j, k);
    err', x', y', i', j' := err, x, y, i, j;
    var e2: int32 := 2 * err;
    if e2 > -dy {
      err' := err' - dy;
      x' := x' + sx;
      i' := i' + 1;
    }
    if e2 < dx {
      err' := err' + dx;
      y' := y' + sy;
      j' := j' + 1;
    }
    PointReached(p, q, err', x', y', i', j', k + 1);
  }

  lemma {:induction false} StartsAtPoint(p: Point, q: Point)
    ensures AtPoint(p, q, Abs(q.x - p.x) - Abs(q.y - p.y), p.x, p.y, 0, 0, 0)
  {
  }

  /** Where the loop stands, and whether it stops there. */
  lemma {:induction false} PointReached(p: Point, q: Point, err: int, x: int, y: int, i: nat, j: nat, k: nat)
    requires AtPoint(p, q, err, x, y, i, j, k)
    ensures k <= Length(p, q) && |Line(p, q)| == Length(p, q) + 1
    ensures Line(p, q)[k] == Point(x, y) && (x == q.x && y == q.y <==> k == Length(p, q))
  {
    AtEnd(p, q, i, j, k);
  }

  /** `vga_draw_line`, for every line whose drawing does not overflow an int. */
  method DrawLine(buffer: array<byte>, x0: int32, y0: int32, x1: int32, y1: int32, color: byte)
    requires buffer.Length == WIDTH * HEIGHT
    requires NoOverflow(Point(x0, y0), Point(x1, y1))
    modifies buffer
    ensures buffer[..] == PaintAll(old(buffer[..]), Line(Point(x0, y0), Point(x1, y1)), color)
  {
    hide Line, Paint, PaintAll, AtPoint, NoOverflow, Length;
    ghost var p, q, before := Point(x0, y0), Point(x1, y1), buffer[..];
    ghost var line := Line(p, q);
    IntExtent(p, q);
    var dx: int32 := if x1 - x0 < 0 then -(x1 - x0) else x1 - x0;
    var dy: int32 := if y1 - y0 < 0 then -(y1 - y0) else y1 - y0;
    var sx: int32 := if x0 < x1 then 1 else -1;
    var sy: int32 := if y0 < y1 then 1 else -1;
    var err: int32 := dx - dy;
    var x: int, y: int := x0, y0;
    ghost var i, j, k := 0, 0, 0;
    StartOfLine(p, q, before, color);
    StartsAtPoint(p, q);
    while true
      invariant AtPoint(p, q, err, x, y, i, j, k)
      invariant k <= |line| && buffer[..] == PaintAll(before, line[..k], color)
      decreases |line| - k
    {
      PointReached(p, q, err, x, y, i, j, k);
      PaintNext(before, line, k, color);
      SetPixel(buffer, x, y, color);
      if x == x1 && y == y1 {
        break;
      }
      err, x, y, i, j := Advance(p, q, dx, dy, sx, sy, err, x, y, i, j, k);
      k := k + 1;
    }
  }
}
