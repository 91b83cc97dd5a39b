/** The line rasteriser of the battery monitor: an all-octant Bresenham loop. */
module BatteryMonitorUI {

  datatype Pixel = Pixel(x: int, y: int, color: bv32)

  function Abs(a: int): nat {
    if a < 0 then -a else a
  }

  function Max(a: int, b: int): int {
    if a < b then b else a
  }

  function Min(a: int, b: int): int {
    if a < b then a else b
  }

  /** The direction of a step, with the loop's convention that equal ends step backwards. */
  function Sign(a: int, b: int): int {
    if a < b then 1 else -1
  }

  /** The integer nearest to a/b; an exact half goes down. A zero denominator gives zero. */
  function Nearest(a: nat, b: nat): nat {
    if b == 0 then 0 else (2 * a + b - 1) / (2 * b)
  }

  /** Columns and rows covered after k rounds, in closed form: k along the longer axis. */
  function Cols(dx: nat, dy: nat, k: nat): nat {
    if dx >= dy then k else Nearest(k * dx, dy)
  }

  function Rows(dx: nat, dy: nat, k: nat): nat {
    if dx >= dy then Nearest(k * dy, dx) else k
  }

  /** i steps from a towards b. */
  function Walk(a: int, b: int, i: nat): int {
    if a < b then a + i else a - i
  }

  /** The k-th pixel of the line in closed form. */
  function PixelAt(x1: int, y1: int, x2: int, y2: int, color: bv32, k: nat): Pixel {
    var dx, dy := Abs(x2 - x1), Abs(y2 - y1);
    Pixel(Walk(x1, x2, Cols(dx, dy, k)), Walk(y1, y2, Rows(dx, dy, k)), color)
  }

  function Length(x1: int, y1: int, x2: int, y2: int): nat {
    Max(Abs(x2 - x1), Abs(y2 - y1))
  }

  function Line(x1: int, y1: int, x2: int, y2: int, color: bv32): seq<Pixel> {
    seq(Length(x1, y1, x2, y2) + 1, k requires k >= 0 => PixelAt(x1, y1, x2, y2, color, k))
  }

  /** m is within half a unit of a/b, and at an exact half it is the lower candidate. */
  ghost predicate IsNearest(a: nat, b: nat, m: int) {
    2 * (a - m * b) <= b && 2 * (m * b - a) < b
  }

  lemma NearestIsNearest(a: nat, b: nat)
    requires b > 0
    ensures IsNearest(a, b, Nearest(a, b))
  {
    var n, d := 2 * a + b - 1, 2 * b;
    var q := n / d;
    assert n == d * q + n % d;
    assert d * q == 2 * (q * b);
  }

  /** `Nearest` is the only integer with that property. */
  lemma NearestUnique(a: nat, b: nat, m: int)
    requires b > 0
    ensures IsNearest(a, b, m) <==> m == Nearest(a, b)
  {
    NearestIsNearest(a, b);
    hide Nearest;
    var n := Nearest(a, b);
    if m < n {
      MulApart(m, n, b);
    } else if n < m {
      MulApart(n, m, b);
    }
  }

  lemma MulApart(x: int, y: int, b: nat)
    requires x < y
    ensures x * b + b <= y * b
  {
    var d: nat := y - x - 1;
    assert d * b >= 0;
    assert (x + d + 1) * b == x * b + d * b + b;
  }

  lemma NearestWhole(k: nat, b: nat)
    ensures Nearest(k * b, b) == if b > 0 then k else 0
  {
    if b > 0 { NearestUnique(k * b, b, k); }
  }

  class Screen {
    /** Every pixel painted so far, oldest first. */
    var plotted: seq<Pixel>

    method FillPixel(x: int, y: int, color: bv32)
      modifies this
      ensures plotted == old(plotted) + [Pixel(x, y, color)]
    {
      plotted := plotted + [Pixel(x, y, color)];
    }

    /** Paints exactly the closed-form line, in order, and terminates for every pair of ends. */
    method DrawLine(x1: int, y1: int, x2: int, y2: int, color: bv32)
      modifies this
      ensures plotted == old(plotted) + Line(x1, y1, x2, y2, color)
    {
      hide *;
      var x, y := x1, y1;
      var dx: int, dy: int := Abs(x2 - x1), Abs(y2 - y1);
      var sx, sy := Sign(x1, x2), Sign(y1, y2);
      var err := dx - dy;
      ghost var k := 0;
      ghost var line := Line(x1, y1, x2, y2, color);
      FirstPixel(x1, y1, x2, y2, color);
      while true
        invariant 0 <= k <= Length(x1, y1, x2, y2)
        invariant Pixel(x, y, color) == PixelAt(x1, y1, x2, y2, color, k)
        invariant err == ErrorAt(dx, dy, k)
        invariant plotted == old(plotted) + line[..k]
        decreases Length(x1, y1, x2, y2) - k
      {
        FillPixel(x, y, color);
        NextPixel(x1, y1, x2, y2, color, k);
        if x == x2 && y == y2 {
          break;
        }
        var e2 := 2 * err;
        if e2 > -dy {
          err := err - dy;
          x := x + sx;
        }
        if e2 < dx {
          err := err + dx;
          y := y + sy;
        }
        k := k + 1;
      }
    }
  }

  lemma FirstPixel(x1: int, y1: int, x2: int, y2: int, color: bv32)
    ensures PixelAt(x1, y1, x2, y2, color, 0) == Pixel(x1, y1, color)
    ensures ErrorAt(Abs(x2 - x1), Abs(y2 - y1), 0) == Abs(x2 - x1) - Abs(y2 - y1)
    ensures |Line(x1, y1, x2, y2, color)| == Length(x1, y1, x2, y2) + 1 && Line(x1, y1, x2, y2, color)[..0] == []
  {
    hide Cols, Rows, ErrorAt, Nearest;
    LineStart(Abs(x2 - x1), Abs(y2 - y1));
  }

  /** What one round adds, whether it is the last, and where the next one starts. */
  lemma NextPixel(x1: int, y1: int, x2: int, y2: int, color: bv32, k: nat)
    requires k <= Length(x1, y1, x2, y2)
    ensures var line, p := Line(x1, y1, x2, y2, color), PixelAt(x1, y1, x2, y2, color, k);
            && k < |line| && line[..k] + [p] == line[..k + 1]
            && (p == Pixel(x2, y2, color) <==> k == Length(x1, y1, x2, y2))
            && (k == Length(x1, y1, x2, y2) ==> line[..k + 1] == line)
    ensures k < Length(x1, y1, x2, y2) ==>
              && var dx: int, dy: int := Abs(x2 - x1), Abs(y2 - y1);
              && var p, err := PixelAt(x1, y1, x2, y2, color, k), ErrorAt(dx, dy, k);
              && var right, down := 2 * err > -dy, 2 * err < dx;
              && PixelAt(x1, y1, x2, y2, color, k + 1) ==
                 Pixel(p.x + if right then Sign(x1, x2) else 0, p.y + if down then Sign(y1, y2) else 0, color)
              && ErrorAt(dx, dy, k + 1) == err - (if right then dy else 0) + (if down then dx else 0)
  {
    hide Cols, Rows, ErrorAt, Nearest;
    var dx: int, dy: int := Abs(x2 - x1), Abs(y2 - y1);
    LineEnd(dx, dy, k);
    if k < Length(x1, y1, x2, y2) {
      LineStep(dx, dy, k);
    }
  }

  /** The loop's error term: dx * (rows + 1) - dy * (columns + 1). */
  ghost function ErrorAt(dx: nat, dy: nat, k: nat): int {
    dx * (Rows(dx, dy, k) + 1) - dy * (Cols(dx, dy, k) + 1)
  }

  lemma LineStart(dx: nat, dy: nat)
    ensures Cols(dx, dy, 0) == 0 && Rows(dx, dy, 0) == 0 && ErrorAt(dx, dy, 0) == dx - dy
  {
    NearestWhole(0, dx);
    NearestWhole(0, dy);
  }

  lemma LineEnd(dx: nat, dy: nat, k: nat)
    ensures k == Max(dx, dy) <==> Cols(dx, dy, k) == dx && Rows(dx, dy, k) == dy
  {
    hide Nearest;
    NearestWhole(dx, dy);
    NearestWhole(dy, dx);
    assert dx * dy == dy * dx;
  }

  /** The error is the signed distance from the ideal line, shifted by the next step's cost. */
  lemma ErrorIsDistance(dx: nat, dy: nat, k: nat)
    ensures ErrorAt(dx, dy, k) == Rows(dx, dy, k) * dx - Cols(dx, dy, k) * dy + dx - dy
  {
    hide Nearest, Rows, Cols;
  }

  lemma ErrorShift(dx: nat, dy: nat, k: nat, right: bool, down: bool)
    requires Cols(dx, dy, k + 1) == Cols(dx, dy, k) + (if right then 1 else 0)
    requires Rows(dx, dy, k + 1) == Rows(dx, dy, k) + (if down then 1 else 0)
    ensures ErrorAt(dx, dy, k + 1) == ErrorAt(dx, dy, k) - (if right then dy else 0) + (if down then dx else 0)
  {
    hide Nearest, Rows, Cols;
  }

  /** One round of the loop: the two error tests move exactly to the next closed-form pixel. */
  lemma LineStep(dx: int, dy: int, k: nat)
    requires 0 <= dx && 0 <= dy && k < Max(dx, dy)
    ensures var err := ErrorAt(dx, dy, k);
            var right, down := 2 * err > -dy, 2 * err < dx;
            && Cols(dx, dy, k + 1) == Cols(dx, dy, k) + (if right then 1 else 0)
            && Rows(dx, dy, k + 1) == Rows(dx, dy, k) + (if down then 1 else 0)
            && ErrorAt(dx, dy, k + 1) == err - (if right then dy else 0) + (if down then dx else 0)
  {
    StepTests(dx, dy, k);
    hide Nearest, ErrorAt, Cols, Rows;
    var err := ErrorAt(dx, dy, k);
    ErrorShift(dx, dy, k, 2 * err > -dy, 2 * err < dx);
  }

  lemma StepTests(dx: int, dy: int, k: nat)
    requires 0 <= dx && 0 <= dy && k < Max(dx, dy)
    ensures var err := ErrorAt(dx, dy, k);
            && Cols(dx, dy, k + 1) == Cols(dx, dy, k) + (if 2 * err > -dy then 1 else 0)
            && Rows(dx, dy, k + 1) == Rows(dx, dy, k) + (if 2 * err < dx then 1 else 0)
  {
    ErrorIsDistance(dx, dy, k);
    hide Nearest, ErrorAt;
    if dx >= dy {
      AxisStep(dx, dy, Rows(dx, dy, k), k, ErrorAt(dx, dy, k));
    } else {
      AxisStep(dy, dx, Cols(dx, dy, k), k, -ErrorAt(dx, dy, k));
    }
  }

  /** The tests of a round read on the longer axis: it always advances, the other one when it lags. */
  lemma AxisStep(major: int, minor: int, j: nat, k: nat, err: int)
    requires major >= minor >= 0 && major > 0 && j == Nearest(k * minor, major)
    requires err == j * major - k * minor + major - minor
    ensures 2 * err > -minor
    ensures Nearest((k + 1) * minor, major) == j + (if 2 * err < major then 1 else 0)
  {
    hide Nearest;
    MinorStep(major, minor, j, k);
    assert (k + 1) * minor == k * minor + minor;
  }

  lemma MinorStep(major: nat, minor: nat, j: nat, k: nat)
    requires major >= minor && major > 0 && j == Nearest(k * minor, major)
    ensures 2 * (k * minor - j * major) <= major && 2 * (j * major - k * minor) < major
    ensures major == minor ==> j * major == k * minor
    ensures Nearest((k + 1) * minor, major) ==
            if 2 * ((k + 1) * minor - j * major) > major then j + 1 else j
  {
    hide Nearest;
    NearestUnique(k * minor, major, j);
    NearestUnique((k + 1) * minor, major, j);
    NearestUnique((k + 1) * minor, major, j + 1);
    if major == minor { NearestWhole(k, major); }
    assert (k + 1) * minor == k * minor + minor;
    assert (j + 1) * major == j * major + major;
  }

  /** The line has max(|dx|, |dy|) + 1 pixels, starts at the first end and stops on the second. */
  lemma LineEnds(x1: int, y1: int, x2: int, y2: int, color: bv32)
    ensures var line := Line(x1, y1, x2, y2, color);
            && |line| == Max(Abs(x2 - x1), Abs(y2 - y1)) + 1
            && line[0] == Pixel(x1, y1, color)
            && line[|line| - 1] == Pixel(x2, y2, color)
  {
    hide Nearest, Cols, Rows;
    LineStart(Abs(x2 - x1), Abs(y2 - y1));
    LineEnd(Abs(x2 - x1), Abs(y2 - y1), Length(x1, y1, x2, y2));
  }

  /** Every painted pixel is within half a pixel of the ideal line, measured along the minor axis. */
  lemma LineWithinHalfPixel(x1: int, y1: int, x2: int, y2: int, color: bv32, k: nat)
    requires k <= Length(x1, y1, x2, y2)
    ensures var p := Line(x1, y1, x2, y2, color)[k];
            2 * Abs((p.y - y1) * (x2 - x1) - (p.x - x1) * (y2 - y1)) <= Length(x1, y1, x2, y2)
  {
    hide Nearest, Cols, Rows;
    var dx, dy := Abs(x2 - x1), Abs(y2 - y1);
    var i, j := Cols(dx, dy, k), Rows(dx, dy, k);
    WithinHalf(dx, dy, k);
    hide Abs;
    CrossProduct(Sign(x1, x2), Sign(y1, y2), i, j, dx, dy);
    WalkSigned(x1, x2, i);
    WalkSigned(y1, y2, j);
  }

  lemma WithinHalf(dx: nat, dy: nat, k: nat)
    ensures 2 * Abs(Rows(dx, dy, k) * dx - Cols(dx, dy, k) * dy) <= Max(dx, dy)
  {
    if dx >= dy {
      if dx > 0 { NearestIsNearest(k * dy, dx); }
    } else {
      NearestIsNearest(k * dx, dy);
    }
  }

  lemma WalkSigned(a: int, b: int, i: nat)
    ensures b - a == Sign(a, b) * Abs(b - a)
    ensures Walk(a, b, i) - a == Sign(a, b) * i
  {
  }

  lemma CrossProduct(sx: int, sy: int, i: int, j: int, dx: int, dy: int)
    requires (sx == 1 || sx == -1) && (sy == 1 || sy == -1)
    ensures Abs((sy * j) * (sx * dx) - (sx * i) * (sy * dy)) == Abs(j * dx - i * dy)
  {
    var s := sx * sy;
    assert (sy * j) * (sx * dx) == s * (j * dx);
    assert (sx * i) * (sy * dy) == s * (i * dy);
  }

  /** Neighbouring pixels advance one step along the longer axis and at most one along the other. */
  lemma LineIsConnected(x1: int, y1: int, x2: int, y2: int, color: bv32, k: nat)
    requires k < Length(x1, y1, x2, y2)
    ensures var p, q := Line(x1, y1, x2, y2, color)[k], Line(x1, y1, x2, y2, color)[k + 1];
            && Max(Abs(q.x - p.x), Abs(q.y - p.y)) == 1
            && (if x1 < x2 then p.x <= q.x else q.x <= p.x)
            && (if y1 < y2 then p.y <= q.y else q.y <= p.y)
  {
    hide Nearest, ErrorAt;
    LineStep(Abs(x2 - x1), Abs(y2 - y1), k);
  }

  /** The pixel k steps along a line of the given extent lies exactly between two candidates. */
  predicate Tie(major: nat, minor: nat, k: nat) {
    major > 0 && 2 * ((k * minor) % major) == major
  }

  /** Painting from the other end gives the same pixels backwards exactly where there is no tie. */
  lemma LineReversal(x1: int, y1: int, x2: int, y2: int, color: bv32, k: nat)
    requires k <= Length(x1, y1, x2, y2)
    ensures Length(x2, y2, x1, y1) == Length(x1, y1, x2, y2)
    ensures var n, minor := Length(x1, y1, x2, y2), Min(Abs(x2 - x1), Abs(y2 - y1));
            Line(x2, y2, x1, y1, color)[n - k] == Line(x1, y1, x2, y2, color)[k] <==> !Tie(n, minor, k)
  {
    hide Nearest, Tie, Abs;
    var dx, dy := Abs(x2 - x1), Abs(y2 - y1);
    var n, minor := Max(dx, dy), Min(dx, dy);
    AbsMirror(x1, x2);
    AbsMirror(y1, y2);
    NearestMirror(k, n, minor);
    if dx >= dy {
      WalkMirror(x1, x2, k, n - k);
      WalkMirror(y1, y2, Rows(dx, dy, k), Rows(dx, dy, n - k));
    } else {
      WalkMirror(x1, x2, Cols(dx, dy, k), Cols(dx, dy, n - k));
      WalkMirror(y1, y2, k, n - k);
    }
  }

  lemma AbsMirror(a: int, b: int)
    ensures Abs(b - a) == Abs(a - b)
  {
  }

  lemma WalkMirror(a: int, b: int, i: nat, j: nat)
    ensures a != b ==> (Walk(a, b, i) == Walk(b, a, j) <==> i + j == Abs(b - a))
    ensures i + j == 0 ==> Walk(a, b, i) == a && Walk(b, a, j) == b
    ensures Abs(b - a) == 0 <==> a == b
  {
  }

  lemma NearestMirror(k: nat, major: nat, minor: nat)
    requires k <= major && minor <= major
    ensures Nearest((major - k) * minor, major) + Nearest(k * minor, major) == minor <==> !Tie(major, minor, k)
    ensures minor == 0 ==> !Tie(major, minor, k)
  {
    hide *;
    if major == 0 {
      NoTieAtPoint();
    } else {
      TieIs(major, minor, k, k * minor);
      MirrorProduct(k, major, minor);
      MirrorAt(k * minor, (major - k) * minor, major, minor);
    }
  }

  lemma NoTieAtPoint()
    ensures !Tie(0, 0, 0) && Nearest((0 - 0) * 0, 0) == 0 && Nearest(0 * 0, 0) == 0
  {
  }

  lemma MirrorAt(a: nat, b: nat, major: nat, minor: nat)
    requires major > 0 && b == minor * major - a
    ensures Nearest(b, major) + Nearest(a, major) == minor <==> 2 * (a % major) != major
  {
    hide *;
    Quotient(a, major);
    MirrorParts(a, b, major, minor, a / major, a % major);
  }

  lemma TieIs(major: nat, minor: nat, k: nat, a: nat)
    requires major > 0 && a == k * minor
    ensures Tie(major, minor, k) <==> 2 * (a % major) == major
    ensures minor == 0 ==> a == 0 && !Tie(major, minor, k)
  {
  }

  lemma Quotient(a: nat, b: nat)
    requires b > 0
    ensures a == a / b * b + a % b && 0 <= a / b && 0 <= a % b < b
  {
  }

  lemma MirrorProduct(k: nat, major: nat, minor: nat)
    ensures (major - k) * minor == minor * major - k * minor
  {
  }

  lemma MirrorParts(a: nat, b: nat, major: nat, minor: nat, q: nat, r: nat)
    requires major > 0 && a == q * major + r && r < major && b == minor * major - a
    ensures Nearest(b, major) + Nearest(a, major) == minor <==> 2 * r != major
  {
    hide Nearest;
    var m := if 2 * r <= major then q else q + 1;
    var m' := if 2 * r < major then minor - q else minor - q - 1;
    assert (q + 1) * major == q * major + major;
    assert (minor - q) * major == minor * major - q * major;
    assert (minor - q - 1) * major == minor * major - q * major - major;
    NearestUnique(a, major, m);
    NearestUnique(b, major, m');
  }
}
