/**
 The zoomers and the rotozoomer: pixels are written through pointers that advance by fixed-point
 increments. Positions are 16.16 fixed-point numbers; a pixel index counts pixels, a pitch too.
 */
module Rotozoom {
  import opened Bytes
  import opened Rows

  datatype Color = Color(r: Byte, g: Byte, b: Byte, a: Byte)

  class Surface<Pixel> {
    const width: nat
    const height: nat
    /** Pixels from one row to the next. */
    const pitch: nat
    const pixels: array<Pixel>

    constructor (width: nat, height: nat, pitch: nat, pixels: array<Pixel>)
      requires width <= pitch && pixels.Length == Start(pitch, height)
      ensures Valid() && this.width == width && this.height == height && this.pitch == pitch && this.pixels == pixels
    {
      this.width, this.height, this.pitch, this.pixels := width, height, pitch, pixels;
    }

    predicate Valid() {
      width <= pitch && pixels.Length == Start(pitch, height)
    }

    function Shown(): Image<Pixel>
      reads pixels
    {
      Image(pixels[..], width, height, pitch)
    }
  }

  /** The contents of a surface at one moment. */
  datatype Image<Pixel> = Image(pixels: seq<Pixel>, width: nat, height: nat, pitch: nat) {
    predicate Valid() {
      width <= pitch && |pixels| == Start(pitch, height)
    }

    function At(x: nat, y: nat): Pixel
      requires Valid() && x < width && y < height
    {
      StartGrows(pitch, y, height);
      pixels[Start(pitch, y) + x]
    }
  }

  // ----- Fixed-point scaling -----

  /** The step per destination pixel, in 1/65536 of a source pixel, rounded down. */
  function Step(size: nat, target: nat): nat
    requires target > 0
  {
    65536 * size / target
  }

  /** The source pixel under destination pixel x. */
  function Position(step: nat, x: nat): nat {
    step * x / 65536
  }

  function Fraction(step: nat, x: nat): nat {
    step * x % 65536
  }

  /** The step is the largest one with which the steps up to the last pixel stay within the source. */
  lemma StepMeans(size: nat, target: nat)
    requires target > 0
    ensures Step(size, target) * target <= 65536 * size < (Step(size, target) + 1) * target
  {
  }

  /** Whole pixels and the rest make up the distance walked. */
  lemma PositionMeans(step: nat, x: nat)
    ensures step * x == 65536 * Position(step, x) + Fraction(step, x) && Fraction(step, x) < 65536
  {
  }

  /** Rows follow one another at the distance of the pitch. */
  lemma AtMeans<Pixel>(image: Image<Pixel>, x: nat, y: nat)
    requires image.Valid() && x < image.width && y < image.height
    ensures image.pitch * y + x < |image.pixels| && image.At(x, y) == image.pixels[image.pitch * y + x]
  {
    StartGrows(image.pitch, y, image.height);
    assert Start(image.pitch, y) == image.pitch * y;
  }

  lemma DivisionFloor(n: nat, d: nat)
    requires d > 0
    ensures n / d * d <= n
  {
  }

  lemma ProductBelow(step: nat, x: nat, target: nat)
    requires x < target
    ensures step * x + step <= step * target
  {
    assert step * (x + 1) <= step * target;
  }

  /** Every destination pixel falls on a source pixel. */
  lemma PositionInside(size: nat, target: nat, x: nat)
    requires x < target && size > 0
    ensures Position(Step(size, target), x) < size
  {
    var step := Step(size, target);
    DivisionFloor(65536 * size, target);
    ProductBelow(step, x, target);
  }

  /** The neighbour to the right of every position exists exactly when the source is at least two pixels wide. */
  lemma NeighbourInside(size: nat, target: nat)
    requires size > 0 && target > 0
    ensures var step := Step(size - 1, target);
            (forall x | 0 <= x < target :: Position(step, x) + 1 < size) <==> size >= 2
  {
    var step := Step(size - 1, target);
    if size >= 2 {
      forall x | 0 <= x < target
        ensures Position(step, x) + 1 < size
      {
        PositionInside(size - 1, target, x);
      }
    } else {
      assert Position(step, 0) + 1 >= size;
    }
  }

  /** What the increment table holds at k. */
  function Entry(step: nat, k: nat): nat {
    if k == 0 then 0 else Fraction(step, k - 1) + step
  }

  /** Adding the whole parts of the increments gives the position, and the rest is its fraction. */
  lemma EntryAdvances(step: nat, k: nat)
    ensures Position(step, k + 1) == Position(step, k) + Entry(step, k + 1) / 65536
    ensures Entry(step, k) % 65536 == Fraction(step, k)
  {
    hide Position, Fraction;
    PositionStep(step, k);
    if k > 0 {
      PositionStep(step, k - 1);
    } else {
      PositionZero(step);
    }
  }

  lemma PositionStep(step: nat, k: nat)
    ensures Position(step, k + 1) == Position(step, k) + (Fraction(step, k) + step) / 65536
    ensures Fraction(step, k + 1) == (Fraction(step, k) + step) % 65536
  {
    ProductStep(step, k);
    CarryStep(step * k, step);
  }

  lemma ProductStep(step: nat, k: nat)
    ensures step * (k + 1) == step * k + step
  {
  }

  lemma CarryStep(p: nat, step: nat)
    ensures (p + step) / 65536 == p / 65536 + (p % 65536 + step) / 65536
    ensures (p + step) % 65536 == (p % 65536 + step) % 65536
  {
  }

  ghost predicate Tabled(table: array<nat>, step: nat, count: nat)
    reads table
  {
    table.Length == count + 1 && forall k | 0 <= k <= count :: table[k] == Entry(step, k)
  }

  /** Fills a table of increments; one more entry than there are pixels. */
  method Increments(step: nat, count: nat) returns (table: array<nat>)
    ensures fresh(table) && Tabled(table, step, count)
  {
    table := new nat[count + 1];
    var c := 0;
    var x := 0;
    while x <= count
      invariant 0 <= x <= count + 1
      invariant c == Entry(step, x)
      invariant forall k | 0 <= k < x :: table[k] == Entry(step, k)
    {
      table[x] := c;
      EntryAdvances(step, x);
      c := c % 65536;
      c := c + step;
      x := x + 1;
    }
  }

  ghost predicate Whole(table: array<nat>, step: nat, count: nat)
    reads table
  {
    table.Length == count && forall k | 0 <= k < count :: Position(step, k + 1) == Position(step, k) + table[k]
  }

  /** The table of the 8 bit zoomer holds whole pixels only. */
  method WholeIncrements(step: nat, count: nat) returns (table: array<nat>)
    ensures fresh(table) && Whole(table, step, count)
  {
    table := new nat[count];
    var c := 0;
    var x := 0;
    while x < count
      invariant 0 <= x <= count
      invariant c == Fraction(step, x)
      invariant forall k | 0 <= k < x :: Position(step, k + 1) == Position(step, k) + table[k]
    {
      EntryAdvances(step, x);
      EntryAdvances(step, x + 1);
      c := c + step;
      table[x] := c / 65536;
      c := c % 65536;
      x := x + 1;
    }
  }

  // ----- Painting row by row -----

  /** The first rows are painted; the gaps at their ends and everything below are as before. */
  ghost predicate Painted<Pixel>(pixels: seq<Pixel>, before: seq<Pixel>, pitch: nat, rows: seq<seq<Pixel>>) {
    && |pixels| == |before| && Start(pitch, |rows|) <= |pixels|
    && (forall y | 0 <= y < |rows| :: RowPainted(pixels, before, pitch, y, rows[y]))
    && pixels[Start(pitch, |rows|)..] == before[Start(pitch, |rows|)..]
  }

  ghost predicate RowPainted<Pixel>(pixels: seq<Pixel>, before: seq<Pixel>, pitch: nat, y: nat, row: seq<Pixel>) {
    var start := Start(pitch, y);
    && |row| <= pitch && start + pitch <= |pixels| == |before|
    && pixels[start..start + |row|] == row
    && pixels[start + |row|..start + pitch] == before[start + |row|..start + pitch]
  }

  /** One row written over what was there. */
  ghost predicate RowWritten<Pixel>(pixels: seq<Pixel>, was: seq<Pixel>, start: nat, row: seq<Pixel>) {
    && start + |row| <= |pixels| == |was|
    && pixels[..start] == was[..start]
    && pixels[start..start + |row|] == row
    && pixels[start + |row|..] == was[start + |row|..]
  }

  lemma NextRowPainted<Pixel>(pixels: seq<Pixel>, was: seq<Pixel>, before: seq<Pixel>, pitch: nat,
                              rows: seq<seq<Pixel>>, next: nat)
    requires next < |rows| && Painted(was, before, pitch, rows[..next])
    requires RowWritten(pixels, was, Start(pitch, next), rows[next])
    requires |rows[next]| <= pitch && Start(pitch, next) + pitch <= |pixels|
    ensures Painted(pixels, before, pitch, rows[..next + 1])
  {
    var start := Start(pitch, next);
    StartStep(pitch, next);
    hide Start;
    forall y | 0 <= y < next
      ensures RowPainted(pixels, before, pitch, y, rows[y])
    {
      StartGrows(pitch, y, next);
      assert rows[..next][y] == rows[y];
      RowKept(pixels, was, before, pitch, y, rows[y], start);
    }
    TailSlices(pixels, was, before, start, |rows[next]|, pitch);
  }

  lemma RowKept<Pixel>(pixels: seq<Pixel>, was: seq<Pixel>, before: seq<Pixel>, pitch: nat, y: nat, row: seq<Pixel>,
                       start: nat)
    requires RowPainted(was, before, pitch, y, row) && Start(pitch, y) + pitch <= start <= |pixels| == |was|
    requires pixels[..start] == was[..start]
    ensures RowPainted(pixels, before, pitch, y, row)
  {
    var s := Start(pitch, y);
    SameSlice(pixels, was, s, s + |row|, start);
    SameSlice(pixels, was, s + |row|, s + pitch, start);
  }

  lemma SameSlice<Pixel>(pixels: seq<Pixel>, was: seq<Pixel>, from: nat, to: nat, end: nat)
    requires from <= to <= end <= |pixels| == |was| && pixels[..end] == was[..end]
    ensures pixels[from..to] == was[from..to]
  {
    assert pixels[from..to] == pixels[..end][from..to];
    assert was[from..to] == was[..end][from..to];
  }

  lemma TailSlices<Pixel>(pixels: seq<Pixel>, was: seq<Pixel>, before: seq<Pixel>, start: nat, width: nat, pitch: nat)
    requires |pixels| == |was| == |before| && width <= pitch && start + pitch <= |pixels|
    requires pixels[start + width..] == was[start + width..] && was[start..] == before[start..]
    ensures pixels[start + width..start + pitch] == before[start + width..start + pitch]
    ensures pixels[start + pitch..] == before[start + pitch..]
  {
    assert was[start + width..] == was[start..][width..];
    assert before[start + width..] == before[start..][width..];
    assert pixels[start + width..start + pitch] == pixels[start + width..][..pitch - width];
    assert before[start + width..start + pitch] == before[start + width..][..pitch - width];
    assert pixels[start + pitch..] == pixels[start + width..][pitch - width..];
    assert before[start + pitch..] == before[start + width..][pitch - width..];
  }

  // ----- Zooming without smoothing -----

  predicate Zoomable<Pixel>(src: Image<Pixel>, width: nat, height: nat) {
    src.Valid() && src.width > 0 && src.height > 0 && width > 0 && height > 0
  }

  /** All that is asked for: neither the source nor the destination is empty. */
  lemma ZoomableMeans<Pixel>(src: Surface<Pixel>, width: nat, height: nat)
    requires src.Valid() && src.width >= 1 && src.height >= 1 && width >= 1 && height >= 1
    ensures Zoomable(src.Shown(), width, height)
  {
  }

  /** Destination row y: every column shows the source pixel under it. */
  function NearestRow<Pixel>(src: Image<Pixel>, width: nat, height: nat, y: nat): (row: seq<Pixel>)
    requires Zoomable(src, width, height) && y < height
  {
    PositionInside(src.height, height, y);
    seq(width, x requires 0 <= x < width =>
          PositionInside(src.width, width, x);
          src.At(Position(Step(src.width, width), x), Position(Step(src.height, height), y)))
  }

  function NearestRows<Pixel>(src: Image<Pixel>, width: nat, height: nat): (rows: seq<seq<Pixel>>)
    requires Zoomable(src, width, height)
    ensures |rows| == height && forall y | 0 <= y < height :: rows[y] == NearestRow(src, width, height, y)
  {
    seq(height, y requires 0 <= y < height => NearestRow(src, width, height, y))
  }

  /** Scans the destination, copying the source pixel under each destination pixel. */
  method PaintNearest<Pixel>(src: Surface<Pixel>, dst: Surface<Pixel>, sax: array<nat>, say: array<nat>)
    requires dst.Valid() && Zoomable(src.Shown(), dst.width, dst.height) && src.pixels != dst.pixels
    requires sax as object != dst.pixels && say as object != dst.pixels
    requires Tabled(sax, Step(src.width, dst.width), dst.width) && Tabled(say, Step(src.height, dst.height), dst.height)
    modifies dst.pixels
    ensures Painted(dst.pixels[..], old(dst.pixels[..]), dst.pitch,
                    NearestRows(old(src.Shown()), dst.width, dst.height))
  {
    ghost var image, before := src.Shown(), dst.pixels[..];
    ghost var rows := NearestRows(image, dst.width, dst.height);
    ghost var sy := Step(src.height, dst.height);
    FirstRow(before, dst.pitch, src.pitch, sy, rows);
    hide Start, Position, Entry, Painted, Step, Fraction, NearestRow, RowWritten, Tabled;
    var csp, dp, csay := 0, 0, 0;
    var y := 0;
    while y < dst.height
      invariant 0 <= y <= dst.height && csay == y
      invariant csp == Start(src.pitch, Position(sy, y)) && dp == Start(dst.pitch, y)
      invariant Painted(dst.pixels[..], before, dst.pitch, rows[..y])
    {
      ghost var was := dst.pixels[..];
      RowFits(dst, y);
      dp := ZoomRow(src, dst, sax, csp, dp, y);
      NextRowPainted(dst.pixels[..], was, before, dst.pitch, rows, y);
      RowAdvances(say, sy, dst.height, y, src.pitch);
      csay := csay + 1;
      csp := csp + Start(src.pitch, say[csay] / 65536);
      dp := dp + (dst.pitch - dst.width);
      y := y + 1;
    }
    assert rows[..y] == rows;
  }

  method ZoomRow<Pixel>(src: Surface<Pixel>, dst: Surface<Pixel>, sax: array<nat>, csp: nat, start: nat, ghost y: nat)
    returns (dp: nat)
    requires dst.Valid() && Zoomable(src.Shown(), dst.width, dst.height) && y < dst.height
    requires src.pixels != dst.pixels && sax as object != dst.pixels
    requires Tabled(sax, Step(src.width, dst.width), dst.width)
    requires csp == Start(src.pitch, Position(Step(src.height, dst.height), y))
    requires start + dst.width <= dst.pixels.Length
    modifies dst.pixels
    ensures dp == start + dst.width
    ensures RowWritten(dst.pixels[..], old(dst.pixels[..]), start, NearestRow(src.Shown(), dst.width, dst.height, y))
  {
    ghost var step := Step(src.width, dst.width);
    ghost var row := NearestRow(src.Shown(), dst.width, dst.height, y);
    ghost var before := dst.pixels[..];
    PositionZero(step);
    RowStarted(before, start, row);
    RowSource(src.Shown(), dst.width, dst.height, y);
    hide Start, Position, Entry, NearestRow, Step, Fraction, RowWritten, RowSoFar;
    var sp, csax := csp, 0;
    dp := start;
    var x := 0;
    while x < dst.width
      invariant 0 <= x <= dst.width && csax == x && dp == start + x && sp == csp + Position(step, x)
      invariant RowSoFar(dst.pixels[..], before, start, row, x)
    {
      PixelWritten(dst.pixels[..], before, start, row, x);
      ghost var next := dst.pixels[..][start + x := row[x]];
      dst.pixels[dp] := src.pixels[sp];
      assert dst.pixels[..] == next;
      EntryAdvances(step, x);
      csax := csax + 1;
      sp := sp + sax[csax] / 65536;
      dp := dp + 1;
      x := x + 1;
    }
    NowWritten(dst.pixels[..], before, start, row);
  }

  lemma RowSource<Pixel>(src: Image<Pixel>, width: nat, height: nat, y: nat)
    requires Zoomable(src, width, height) && y < height
    ensures var row := NearestRow(src, width, height, y);
            var base, step := Start(src.pitch, Position(Step(src.height, height), y)), Step(src.width, width);
            |row| == width && forall x | 0 <= x < width ::
              base + Position(step, x) < |src.pixels| && row[x] == src.pixels[base + Position(step, x)]
  {
    var step := Step(src.width, width);
    PositionInside(src.height, height, y);
    StartGrows(src.pitch, Position(Step(src.height, height), y), src.height);
    forall x | 0 <= x < width
      ensures Position(step, x) < src.width
    {
      PositionInside(src.width, width, x);
    }
  }

  /** The first x pixels of a row are written, nothing else. */
  ghost predicate RowSoFar<Pixel>(pixels: seq<Pixel>, was: seq<Pixel>, start: nat, row: seq<Pixel>, x: nat) {
    && x <= |row| && start + |row| <= |pixels| == |was|
    && pixels[..start] == was[..start] && pixels[start + x..] == was[start + x..]
    && forall k | 0 <= k < x :: pixels[start + k] == row[k]
  }

  lemma RowStarted<Pixel>(was: seq<Pixel>, start: nat, row: seq<Pixel>)
    requires start + |row| <= |was|
    ensures RowSoFar(was, was, start, row, 0)
  {
  }

  lemma PixelWritten<Pixel>(pixels: seq<Pixel>, was: seq<Pixel>, start: nat, row: seq<Pixel>, x: nat)
    requires RowSoFar(pixels, was, start, row, x) && x < |row|
    ensures RowSoFar(pixels[start + x := row[x]], was, start, row, x + 1)
  {
    var now := pixels[start + x := row[x]];
    assert now[start + x + 1..] == pixels[start + x..][1..] == was[start + x..][1..];
  }

  lemma PixelUnder<Pixel>(pixels: seq<Pixel>, was: seq<Pixel>, start: nat, row: seq<Pixel>, x: nat)
    requires RowSoFar(pixels, was, start, row, x) && x < |row|
    ensures pixels[start + x] == was[start + x]
  {
    assert pixels[start + x] == pixels[start + x..][0];
    assert was[start + x] == was[start + x..][0];
  }

  lemma NowWritten<Pixel>(pixels: seq<Pixel>, was: seq<Pixel>, start: nat, row: seq<Pixel>)
    requires RowSoFar(pixels, was, start, row, |row|)
    ensures RowWritten(pixels, was, start, row)
  {
  }

  lemma RowFits<Pixel>(dst: Surface<Pixel>, y: nat)
    requires dst.Valid() && y < dst.height
    ensures Start(dst.pitch, y) + dst.pitch <= dst.pixels.Length && dst.width <= dst.pitch
    ensures Start(dst.pitch, y + 1) == Start(dst.pitch, y) + dst.pitch
  {
    StartStep(dst.pitch, y);
    StartGrows(dst.pitch, y, dst.height);
  }

  lemma TabledAdvances(table: array<nat>, step: nat, count: nat, k: nat)
    requires Tabled(table, step, count) && k < count
    ensures table.Length == count + 1 && table[k] % 65536 == Fraction(step, k)
    ensures Position(step, k + 1) == Position(step, k) + table[k + 1] / 65536
  {
    EntryAdvances(step, k);
  }

  lemma RowAdvances(say: array<nat>, step: nat, height: nat, y: nat, pitch: nat)
    requires Tabled(say, step, height) && y < height
    ensures say.Length == height + 1 && say[y] % 65536 == Fraction(step, y)
    ensures Start(pitch, Position(step, y + 1)) == Start(pitch, Position(step, y)) + Start(pitch, say[y + 1] / 65536)
  {
    hide Position, Entry;
    EntryAdvances(step, y);
    StartAdd(pitch, Position(step, y), Entry(step, y + 1) / 65536);
  }

  lemma FirstRow<Pixel>(before: seq<Pixel>, pitch: nat, sourcePitch: nat, step: nat, rows: seq<seq<Pixel>>)
    ensures Painted(before, before, pitch, rows[..0])
    ensures Start(pitch, 0) == 0 && Start(sourcePitch, Position(step, 0)) == 0
  {
    PositionZero(step);
  }

  lemma PositionZero(step: nat)
    ensures Position(step, 0) == 0 && Fraction(step, 0) == 0
  {
  }

  /** What the zoomers without smoothing leave in destination pixel (x, y). */
  lemma ZoomedPixel<Pixel>(dst: Image<Pixel>, before: seq<Pixel>, src: Image<Pixel>, x: nat, y: nat)
    requires dst.Valid() && Zoomable(src, dst.width, dst.height) && x < dst.width && y < dst.height
    requires Painted(dst.pixels, before, dst.pitch, NearestRows(src, dst.width, dst.height))
    ensures var px, py := Position(Step(src.width, dst.width), x), Position(Step(src.height, dst.height), y);
            px < src.width && py < src.height && dst.At(x, y) == src.At(px, py)
  {
    PositionInside(src.width, dst.width, x);
    PositionInside(src.height, dst.height, y);
    StartGrows(dst.pitch, y, dst.height);
    var row := NearestRow(src, dst.width, dst.height, y);
    assert |row| == dst.width && RowPainted(dst.pixels, before, dst.pitch, y, row);
    hide Start, Position, Step;
    var start := Start(dst.pitch, y);
    assert dst.pixels[start + x] == dst.pixels[start..start + |row|][x];
  }

  // ----- The 8 bit zoomer -----

  /** The 8 bit zoomer paints what the 32 bit one does without smoothing. */
  method ZoomSurfaceY(src: Surface<Byte>, dst: Surface<Byte>) returns (ok: bool)
    requires dst.Valid() && Zoomable(src.Shown(), dst.width, dst.height) && src.pixels != dst.pixels
    modifies dst.pixels
    ensures !ok ==> dst.pixels[..] == old(dst.pixels[..])
    ensures ok ==> Painted(dst.pixels[..], old(dst.pixels[..]), dst.pitch,
                           NearestRows(old(src.Shown()), dst.width, dst.height))
  {
    ok := *;
    if !ok {
      return;
    }
    ghost var image, before := src.Shown(), dst.pixels[..];
    ghost var rows := NearestRows(image, dst.width, dst.height);
    var sx, sy := Step(src.width, dst.width), Step(src.height, dst.height);
    var sax := WholeIncrements(sx, dst.width);
    var say := WholeIncrements(sy, dst.height);
    FirstRow(before, dst.pitch, src.pitch, sy, rows);
    hide Start, Position, Entry, Painted, Step, Fraction, NearestRow, RowWritten, Whole;
    var csp, dp, csay := 0, 0, 0;
    var y := 0;
    while y < dst.height
      invariant 0 <= y <= dst.height && csay == y
      invariant csp == Start(src.pitch, Position(sy, y)) && dp == Start(dst.pitch, y)
      invariant src.Shown() == image && Whole(sax, sx, dst.width) && Whole(say, sy, dst.height)
      invariant Painted(dst.pixels[..], before, dst.pitch, rows[..y])
    {
      ghost var was := dst.pixels[..];
      RowFits(dst, y);
      dp := ZoomRowY(src, dst, sax, csp, dp, y);
      NextRowPainted(dst.pixels[..], was, before, dst.pitch, rows, y);
      WholeRowAdvances(say, sy, dst.height, y, src.pitch);
      csp := csp + Start(src.pitch, say[csay]);
      csay := csay + 1;
      dp := dp + (dst.pitch - dst.width);
      y := y + 1;
    }
    assert rows[..y] == rows;
  }

  method ZoomRowY(src: Surface<Byte>, dst: Surface<Byte>, sax: array<nat>, csp: nat, start: nat, ghost y: nat)
    returns (dp: nat)
    requires dst.Valid() && Zoomable(src.Shown(), dst.width, dst.height) && y < dst.height
    requires src.pixels != dst.pixels && sax as object != dst.pixels
    requires Whole(sax, Step(src.width, dst.width), dst.width)
    requires csp == Start(src.pitch, Position(Step(src.height, dst.height), y))
    requires start + dst.width <= dst.pixels.Length
    modifies dst.pixels
    ensures dp == start + dst.width
    ensures RowWritten(dst.pixels[..], old(dst.pixels[..]), start, NearestRow(src.Shown(), dst.width, dst.height, y))
  {
    ghost var step := Step(src.width, dst.width);
    ghost var row := NearestRow(src.Shown(), dst.width, dst.height, y);
    ghost var before := dst.pixels[..];
    PositionZero(step);
    RowStarted(before, start, row);
    RowSource(src.Shown(), dst.width, dst.height, y);
    hide Start, Position, NearestRow, Step, RowWritten, RowSoFar;
    var sp, csax := csp, 0;
    dp := start;
    var x := 0;
    while x < dst.width
      invariant 0 <= x <= dst.width && csax == x && dp == start + x && sp == csp + Position(step, x)
      invariant RowSoFar(dst.pixels[..], before, start, row, x)
    {
      PixelWritten(dst.pixels[..], before, start, row, x);
      ghost var next := dst.pixels[..][start + x := row[x]];
      dst.pixels[dp] := src.pixels[sp];
      assert dst.pixels[..] == next;
      sp := sp + sax[csax];
      csax := csax + 1;
      dp := dp + 1;
      x := x + 1;
    }
    NowWritten(dst.pixels[..], before, start, row);
  }

  lemma WholeRowAdvances(say: array<nat>, step: nat, height: nat, y: nat, pitch: nat)
    requires Whole(say, step, height) && y < height
    ensures say.Length == height
    ensures Start(pitch, Position(step, y + 1)) == Start(pitch, Position(step, y)) + Start(pitch, say[y])
  {
    hide Position;
    StartAdd(pitch, Position(step, y), say[y]);
  }

  // ----- Blending -----

  /** The point e/65536 of the way from a to b, rounded down. */
  function Lerp(a: int, b: int, e: nat): int {
    (b - a) * e / 65536 + a
  }

  /** The exact point lies less than one above the result. */
  lemma LerpMeans(a: int, b: int, e: nat)
    ensures 65536 * (Lerp(a, b, e) - a) <= (b - a) * e < 65536 * (Lerp(a, b, e) - a + 1)
  {
  }

  lemma ProductBounds(d: int, e: nat)
    requires e < 65536
    ensures 0 <= d ==> 0 <= d * e <= d * 65536
    ensures d < 0 ==> d * 65536 <= d * e <= 0
  {
    if 0 <= d {
      assert 0 <= d * (65536 - e);
    } else {
      assert (0 - d) * (65536 - e) >= 0;
      assert (0 - d) * e >= 0;
    }
  }

  lemma LerpBetween(a: int, b: int, e: nat)
    requires e < 65536
    ensures a <= b ==> a <= Lerp(a, b, e) <= b
    ensures b <= a ==> b <= Lerp(a, b, e) <= a
    ensures e == 0 ==> Lerp(a, b, e) == a
  {
    ProductBounds(b - a, e);
    FloorBounds((b - a) * e, b - a);
  }

  lemma FloorBounds(p: int, d: int)
    ensures 0 <= p <= d * 65536 ==> 0 <= p / 65536 <= d
    ensures d * 65536 <= p <= 0 ==> d <= p / 65536 <= 0
  {
  }

  function Min(a: int, b: int): int {
    if a < b then a else b
  }

  function Max(a: int, b: int): int {
    if a < b then b else a
  }

  /** One channel blended from the four corners stays between the smallest and the largest of them. */
  function Blend(c00: Byte, c01: Byte, c10: Byte, c11: Byte, ex: nat, ey: nat): (c: Byte)
    requires ex < 65536 && ey < 65536
    ensures Min(Min(c00 as int, c01 as int), Min(c10 as int, c11 as int)) <= c as int
    ensures c as int <= Max(Max(c00 as int, c01 as int), Max(c10 as int, c11 as int))
    ensures ex == 0 && ey == 0 ==> c == c00
  {
    var t1, t2 := Lerp(c00 as int, c01 as int, ex), Lerp(c10 as int, c11 as int, ex);
    LerpBetween(c00 as int, c01 as int, ex);
    LerpBetween(c10 as int, c11 as int, ex);
    LerpBetween(t1, t2, ey);
    Lerp(t1, t2, ey) as Byte
  }

  /** Blending goes along the upper and the lower row first, then between the two, rounding down each time. */
  lemma BlendMeans(c00: Byte, c01: Byte, c10: Byte, c11: Byte, ex: nat, ey: nat, upper: int, lower: int)
    requires ex < 65536 && ey < 65536
    requires 65536 * (upper - c00 as int) <= (c01 as int - c00 as int) * ex < 65536 * (upper - c00 as int + 1)
    requires 65536 * (lower - c10 as int) <= (c11 as int - c10 as int) * ex < 65536 * (lower - c10 as int + 1)
    ensures var c := Blend(c00, c01, c10, c11, ex, ey) as int;
            65536 * (c - upper) <= (lower - upper) * ey < 65536 * (c - upper + 1)
  {
    LerpMeans(c00 as int, c01 as int, ex);
    LerpMeans(c10 as int, c11 as int, ex);
    LerpMeans(upper, lower, ey);
    var t1, t2 := Lerp(c00 as int, c01 as int, ex), Lerp(c10 as int, c11 as int, ex);
    OnePoint((c01 as int - c00 as int) * ex, t1 - c00 as int, upper - c00 as int);
    OnePoint((c11 as int - c10 as int) * ex, t2 - c10 as int, lower - c10 as int);
    hide Lerp;
  }

  lemma OnePoint(p: int, q: int, r: int)
    requires 65536 * q <= p < 65536 * (q + 1) && 65536 * r <= p < 65536 * (r + 1)
    ensures q == r
  {
  }

  /** The channel as the code computes it: the masks never cut anything off. */
  method BlendChannel(c00: Byte, c01: Byte, c10: Byte, c11: Byte, ex: nat, ey: nat) returns (c: Byte)
    requires ex < 65536 && ey < 65536
    ensures c == Blend(c00, c01, c10, c11, ex, ey)
  {
    hide Lerp;
    MaskKeeps(c00 as int, c01 as int, ex);
    MaskKeeps(c10 as int, c11 as int, ex);
    var t1 := ((c01 as int - c00 as int) * ex / 65536 + c00 as int) % 256;
    var t2 := ((c11 as int - c10 as int) * ex / 65536 + c10 as int) % 256;
    MaskKeeps(t1, t2, ey);
    c := (((t2 - t1) * ey / 65536 + t1) % 256) as Byte;
  }

  lemma MaskKeeps(a: int, b: int, e: nat)
    requires 0 <= a < 256 && 0 <= b < 256 && e < 65536
    ensures ((b - a) * e / 65536 + a) % 256 == Lerp(a, b, e) && 0 <= Lerp(a, b, e) < 256
  {
    LerpBetween(a, b, e);
  }

  function BlendColor(c00: Color, c01: Color, c10: Color, c11: Color, ex: nat, ey: nat): Color
    requires ex < 65536 && ey < 65536
  {
    Color(Blend(c00.r, c01.r, c10.r, c11.r, ex, ey), Blend(c00.g, c01.g, c10.g, c11.g, ex, ey),
          Blend(c00.b, c01.b, c10.b, c11.b, ex, ey), Blend(c00.a, c01.a, c10.a, c11.a, ex, ey))
  }

  /** The channels are blended each by itself. */
  lemma ColorMeans(c00: Color, c01: Color, c10: Color, c11: Color, ex: nat, ey: nat)
    requires ex < 65536 && ey < 65536
    ensures var c := BlendColor(c00, c01, c10, c11, ex, ey);
            && c.r == Blend(c00.r, c01.r, c10.r, c11.r, ex, ey) && c.g == Blend(c00.g, c01.g, c10.g, c11.g, ex, ey)
            && c.b == Blend(c00.b, c01.b, c10.b, c11.b, ex, ey) && c.a == Blend(c00.a, c01.a, c10.a, c11.a, ex, ey)
  {
    hide Blend;
  }

  method BlendPixel(c00: Color, c01: Color, c10: Color, c11: Color, ex: nat, ey: nat) returns (c: Color)
    requires ex < 65536 && ey < 65536
    ensures c == BlendColor(c00, c01, c10, c11, ex, ey)
  {
    hide Blend;
    var r := BlendChannel(c00.r, c01.r, c10.r, c11.r, ex, ey);
    var g := BlendChannel(c00.g, c01.g, c10.g, c11.g, ex, ey);
    var b := BlendChannel(c00.b, c01.b, c10.b, c11.b, ex, ey);
    var a := BlendChannel(c00.a, c01.a, c10.a, c11.a, ex, ey);
    c := Color(r, g, b, a);
  }

  // ----- Zooming with smoothing -----

  /** The next pixel in a row or column, or the same one where the source has no other. */
  function Neighbour(at: nat, size: nat): nat {
    if at + 1 < size then at + 1 else at
  }

  /** Destination row y: every column blends the source pixel under it with its right and lower neighbours. */
  function SmoothRow(src: Image<Color>, width: nat, height: nat, y: nat): (row: seq<Color>)
    requires Zoomable(src, width, height) && y < height
  {
    var sx, sy := Step(src.width - 1, width), Step(src.height - 1, height);
    SmoothInside(src.height, height, y);
    seq(width, x requires 0 <= x < width =>
          SmoothInside(src.width, width, x);
          var px, py := Position(sx, x), Position(sy, y);
          var right, below := Neighbour(px, src.width), Neighbour(py, src.height);
          BlendColor(src.At(px, py), src.At(right, py), src.At(px, below), src.At(right, below), Fraction(sx, x),
                     Fraction(sy, y)))
  }

  function SmoothRows(src: Image<Color>, width: nat, height: nat): (rows: seq<seq<Color>>)
    requires Zoomable(src, width, height)
    ensures |rows| == height && forall y | 0 <= y < height :: rows[y] == SmoothRow(src, width, height, y)
  {
    seq(height, y requires 0 <= y < height => SmoothRow(src, width, height, y))
  }

  /**
   The step leaves the last pixel out, so positions have a neighbour; a single pixel has none and no
   fraction either.
   */
  lemma SmoothInside(size: nat, target: nat, x: nat)
    requires x < target && size > 0
    ensures Position(Step(size - 1, target), x) < size
    ensures size >= 2 ==> Position(Step(size - 1, target), x) + 1 < size
    ensures size == 1 ==> Position(Step(size - 1, target), x) == 0 && Fraction(Step(size - 1, target), x) == 0
  {
    if size >= 2 {
      PositionInside(size - 1, target, x);
    } else {
      assert Step(0, target) == 0;
      PositionZero(0);
      assert 0 * x == 0;
    }
  }

  /**
   What smooth zooming leaves in destination pixel (x, y): the source pixels around its position, a neighbour that
   the source does not have being the pixel itself.
   */
  lemma SmoothedPixel(dst: Image<Color>, before: seq<Color>, src: Image<Color>, x: nat, y: nat)
    requires dst.Valid() && Zoomable(src, dst.width, dst.height) && x < dst.width && y < dst.height
    requires Painted(dst.pixels, before, dst.pitch, SmoothRows(src, dst.width, dst.height))
    ensures var sx, sy := Step(src.width - 1, dst.width), Step(src.height - 1, dst.height);
            var px, py := Position(sx, x), Position(sy, y);
            && px < src.width && py < src.height
            && var rx, ry := if px + 1 == src.width then px else px + 1, if py + 1 == src.height then py else py + 1;
            && dst.At(x, y) == BlendColor(src.At(px, py), src.At(rx, py), src.At(px, ry), src.At(rx, ry),
                                          Fraction(sx, x), Fraction(sy, y))
  {
    hide Start, Position, Fraction, Step, BlendColor, SmoothRow;
    SmoothRowAt(src, dst.width, dst.height, x, y);
    StartGrows(dst.pitch, y, dst.height);
    var row := SmoothRow(src, dst.width, dst.height, y);
    assert |row| == dst.width && RowPainted(dst.pixels, before, dst.pitch, y, row);
    var start := Start(dst.pitch, y);
    assert dst.pixels[start + x] == dst.pixels[start..start + |row|][x];
  }

  lemma SmoothRowAt(src: Image<Color>, width: nat, height: nat, x: nat, y: nat)
    requires Zoomable(src, width, height) && x < width && y < height
    ensures var row := SmoothRow(src, width, height, y);
            var sx, sy := Step(src.width - 1, width), Step(src.height - 1, height);
            var px, py := Position(sx, x), Position(sy, y);
            && |row| == width && px < src.width && py < src.height && Fraction(sx, x) < 65536 && Fraction(sy, y) < 65536
            && var rx, ry := if px + 1 == src.width then px else px + 1, if py + 1 == src.height then py else py + 1;
            && row[x] == BlendColor(src.At(px, py), src.At(rx, py), src.At(px, ry), src.At(rx, ry),
                                    Fraction(sx, x), Fraction(sy, y))
  {
    SmoothInside(src.width, width, x);
    SmoothInside(src.height, height, y);
    assert Fraction(Step(src.width - 1, width), x) < 65536 && Fraction(Step(src.height - 1, height), y) < 65536;
    hide Position, Fraction, Step, BlendColor, Image<Color>.At;
  }

  /** A corner without weight does not matter. */
  lemma BlendUnweighted(c00: Color, c01: Color, c10: Color, c11: Color, d01: Color, d10: Color, d11: Color, ex: nat,
                        ey: nat)
    requires ex < 65536 && ey < 65536
    requires (ex > 0 ==> c01 == d01) && (ey > 0 ==> c10 == d10) && (ex > 0 && ey > 0 ==> c11 == d11)
    ensures BlendColor(c00, c01, c10, c11, ex, ey) == BlendColor(c00, d01, d10, d11, ex, ey)
  {
    ChannelUnweighted(c00.r, c01.r, c10.r, c11.r, d01.r, d10.r, d11.r, ex, ey);
    ChannelUnweighted(c00.g, c01.g, c10.g, c11.g, d01.g, d10.g, d11.g, ex, ey);
    ChannelUnweighted(c00.b, c01.b, c10.b, c11.b, d01.b, d10.b, d11.b, ex, ey);
    ChannelUnweighted(c00.a, c01.a, c10.a, c11.a, d01.a, d10.a, d11.a, ex, ey);
    hide Blend;
  }

  lemma ChannelUnweighted(c00: Byte, c01: Byte, c10: Byte, c11: Byte, d01: Byte, d10: Byte, d11: Byte, ex: nat, ey: nat)
    requires ex < 65536 && ey < 65536
    requires (ex > 0 ==> c01 == d01) && (ey > 0 ==> c10 == d10) && (ex > 0 && ey > 0 ==> c11 == d11)
    ensures Blend(c00, c01, c10, c11, ex, ey) == Blend(c00, d01, d10, d11, ex, ey)
  {
    LerpBetween(c00 as int, c01 as int, ex);
    LerpBetween(c00 as int, d01 as int, ex);
    LerpBetween(c10 as int, c11 as int, ex);
    LerpBetween(d10 as int, d11 as int, ex);
    var t1 := Lerp(c00 as int, c01 as int, ex);
    LerpBetween(t1, Lerp(c10 as int, c11 as int, ex), ey);
    LerpBetween(t1, Lerp(d10 as int, d11 as int, ex), ey);
    hide Lerp;
  }

  /** What a pointer shows that may have run over the end of the pixels: anything. */
  method Peek(src: Surface<Color>, at: nat) returns (c: Color)
    ensures at < src.pixels.Length ==> c == src.pixels[at]
  {
    c := *;
    if at < src.pixels.Length {
      c := src.pixels[at];
    }
  }

  method PaintSmooth(src: Surface<Color>, dst: Surface<Color>, sax: array<nat>, say: array<nat>)
    requires dst.Valid() && Zoomable(src.Shown(), dst.width, dst.height) && src.pixels != dst.pixels
    requires Tabled(sax, Step(src.width - 1, dst.width), dst.width)
    requires Tabled(say, Step(src.height - 1, dst.height), dst.height)
    modifies dst.pixels
    ensures Painted(dst.pixels[..], old(dst.pixels[..]), dst.pitch, SmoothRows(old(src.Shown()), dst.width, dst.height))
  {
    ghost var image, before := src.Shown(), dst.pixels[..];
    ghost var rows := SmoothRows(image, dst.width, dst.height);
    ghost var sy := Step(src.height - 1, dst.height);
    FirstRow(before, dst.pitch, src.pitch, sy, rows);
    hide Start, Position, Entry, Painted, Step, Fraction, SmoothRow, RowWritten, Tabled;
    var csp, dp, csay := 0, 0, 0;
    var y := 0;
    while y < dst.height
      invariant 0 <= y <= dst.height && csay == y
      invariant csp == Start(src.pitch, Position(sy, y)) && dp == Start(dst.pitch, y)
      invariant Painted(dst.pixels[..], before, dst.pitch, rows[..y])
    {
      ghost var was := dst.pixels[..];
      RowFits(dst, y);
      RowAdvances(say, sy, dst.height, y, src.pitch);
      dp := SmoothZoomRow(src, dst, sax, say[csay], csp, dp, y);
      NextRowPainted(dst.pixels[..], was, before, dst.pitch, rows, y);
      csay := csay + 1;
      csp := csp + Start(src.pitch, say[csay] / 65536);
      dp := dp + (dst.pitch - dst.width);
      y := y + 1;
    }
    assert rows[..y] == rows;
  }

  method SmoothZoomRow(src: Surface<Color>, dst: Surface<Color>, sax: array<nat>, entry: nat, csp: nat, start: nat,
                       ghost y: nat)
    returns (dp: nat)
    requires dst.Valid() && Zoomable(src.Shown(), dst.width, dst.height) && y < dst.height
    requires src.pixels != dst.pixels
    requires Tabled(sax, Step(src.width - 1, dst.width), dst.width)
    requires csp == Start(src.pitch, Position(Step(src.height - 1, dst.height), y))
    requires entry % 65536 == Fraction(Step(src.height - 1, dst.height), y)
    requires start + dst.width <= dst.pixels.Length
    modifies dst.pixels
    ensures dp == start + dst.width
    ensures RowWritten(dst.pixels[..], old(dst.pixels[..]), start, SmoothRow(src.Shown(), dst.width, dst.height, y))
  {
    hide Start, Position, Entry, SmoothRow, Step, Fraction, RowWritten, BlendColor, Tabled, RowSoFar, PointsAt;
    ghost var step, image := Step(src.width - 1, dst.width), src.Shown();
    ghost var row := SmoothRow(image, dst.width, dst.height, y);
    ghost var before := dst.pixels[..];
    var k := Pointers(csp, csp + 1, csp + src.pitch, csp + src.pitch + 1);
    SmoothStart(image, dst.width, dst.height, y, k);
    RowStarted(before, start, row);
    var csax := 0;
    dp := start;
    var x := 0;
    while x < dst.width
      invariant 0 <= x <= dst.width && csax == x && dp == start + x && PointsAt(k, image, dst.width, dst.height, x, y)
      invariant src.Shown() == image && Tabled(sax, step, dst.width)
      invariant RowSoFar(dst.pixels[..], before, start, row, x)
    {
      TabledAdvances(sax, step, dst.width, x);
      var ex, ey := sax[csax] % 65536, entry % 65536;
      var c := BlendCorners(src, dst.width, dst.height, x, y, k, ex, ey);
      PixelWritten(dst.pixels[..], before, start, row, x);
      ghost var next := dst.pixels[..][start + x := row[x]];
      dst.pixels[dp] := c;
      assert dst.pixels[..] == next;
      csax := csax + 1;
      var sstep := sax[csax] / 65536;
      PointersAdvance(k, image, dst.width, dst.height, x, y, sstep);
      k := k.Advanced(sstep);
      dp := dp + 1;
      x := x + 1;
    }
    NowWritten(dst.pixels[..], before, start, row);
  }

  /** The four pointers into the source. */
  datatype Pointers = Pointers(c00: nat, c01: nat, c10: nat, c11: nat) {
    function Advanced(step: nat): Pointers {
      Pointers(c00 + step, c01 + step, c10 + step, c11 + step)
    }
  }

  /** The pointers for destination pixel (x, y): a pixel of the source, the next one, and those a row further down. */
  ghost predicate PointsAt(k: Pointers, src: Image<Color>, width: nat, height: nat, x: nat, y: nat)
    requires width > 0 && height > 0 && src.width > 0 && src.height > 0
  {
    var sx, sy := Step(src.width - 1, width), Step(src.height - 1, height);
    && k.c00 == Start(src.pitch, Position(sy, y)) + Position(sx, x) && k.c01 == k.c00 + 1
    && k.c10 == k.c00 + src.pitch && k.c11 == k.c10 + 1
  }

  lemma SmoothStart(src: Image<Color>, width: nat, height: nat, y: nat, k: Pointers)
    requires Zoomable(src, width, height) && y < height
    requires k.c00 == Start(src.pitch, Position(Step(src.height - 1, height), y))
    requires k.c01 == k.c00 + 1 && k.c10 == k.c00 + src.pitch && k.c11 == k.c10 + 1
    ensures |SmoothRow(src, width, height, y)| == width && PointsAt(k, src, width, height, 0, y)
  {
    PositionZero(Step(src.width - 1, width));
    hide Start, Position, Step, Fraction, BlendColor;
  }

  lemma PointersAdvance(k: Pointers, src: Image<Color>, width: nat, height: nat, x: nat, y: nat, step: nat)
    requires width > 0 && height > 0 && src.width > 0 && src.height > 0 && PointsAt(k, src, width, height, x, y)
    requires Position(Step(src.width - 1, width), x + 1) == Position(Step(src.width - 1, width), x) + step
    ensures PointsAt(k.Advanced(step), src, width, height, x + 1, y)
  {
    hide Position, Step, Start, Fraction;
  }

  /** The corners blended. Those that lie beyond the source have no weight. */
  method BlendCorners(src: Surface<Color>, width: nat, height: nat, ghost x: nat, ghost y: nat, k: Pointers, ex: nat,
                      ey: nat)
    returns (c: Color)
    requires Zoomable(src.Shown(), width, height) && x < width && y < height
    requires PointsAt(k, src.Shown(), width, height, x, y)
    requires ex == Fraction(Step(src.width - 1, width), x) && ey == Fraction(Step(src.height - 1, height), y)
    ensures c == SmoothRow(src.Shown(), width, height, y)[x]
  {
    hide *;
    ghost var at := src.pixels[..];
    ghost var right, below := if src.width > 1 then 1 else 0, if src.height > 1 then src.pitch else 0;
    ShownIs(src);
    SmoothSource(src.Shown(), width, height, x, y, k, ex, ey);
    var p01 := Peek(src, k.c01);
    var p10 := Peek(src, k.c10);
    var p11 := Peek(src, k.c11);
    c := BlendPixel(src.pixels[k.c00], p01, p10, p11, ex, ey);
    BlendUnweighted(at[k.c00], p01, p10, p11, at[k.c00 + right], at[k.c00 + below], at[k.c00 + below + right], ex, ey);
  }

  lemma ShownIs<Pixel>(src: Surface<Pixel>)
    ensures src.Shown() == Image(src.pixels[..], src.width, src.height, src.pitch)
  {
  }

  lemma SmoothSource(src: Image<Color>, width: nat, height: nat, x: nat, y: nat, k: Pointers, ex: nat, ey: nat)
    requires Zoomable(src, width, height) && x < width && y < height
    requires PointsAt(k, src, width, height, x, y)
    requires ex == Fraction(Step(src.width - 1, width), x) && ey == Fraction(Step(src.height - 1, height), y)
    ensures var row := SmoothRow(src, width, height, y);
            var right, below := if src.width > 1 then 1 else 0, if src.height > 1 then src.pitch else 0;
            && |row| == width && k.c00 + below + right < |src.pixels|
            && k.c01 == k.c00 + 1 && k.c10 == k.c00 + src.pitch && k.c11 == k.c10 + 1
            && (ex > 0 ==> right == 1) && (ey > 0 ==> below == src.pitch) && ex < 65536 && ey < 65536
            && row[x] == BlendColor(src.pixels[k.c00], src.pixels[k.c00 + right], src.pixels[k.c00 + below],
                                    src.pixels[k.c00 + below + right], ex, ey)
  {
    var sx, sy := Step(src.width - 1, width), Step(src.height - 1, height);
    SmoothInside(src.height, height, y);
    SmoothInside(src.width, width, x);
    assert Fraction(sx, x) < 65536 && Fraction(sy, y) < 65536;
    hide BlendColor, Step, Start, Position, Fraction;
    CornersInside(src, Position(sx, x), Position(sy, y));
  }

  lemma CornersInside(src: Image<Color>, px: nat, py: nat)
    requires src.Valid() && px < src.width && py < src.height
    requires (src.width > 1 ==> px + 1 < src.width) && (src.height > 1 ==> py + 1 < src.height)
    requires (src.width == 1 ==> px == 0) && (src.height == 1 ==> py == 0)
    ensures var right, below := if src.width > 1 then 1 else 0, if src.height > 1 then src.pitch else 0;
            var at, rx, ry := Start(src.pitch, py) + px, Neighbour(px, src.width), Neighbour(py, src.height);
            && at + below + right < |src.pixels|
            && src.At(px, py) == src.pixels[at] && src.At(rx, py) == src.pixels[at + right]
            && src.At(px, ry) == src.pixels[at + below] && src.At(rx, ry) == src.pixels[at + below + right]
  {
    StartStep(src.pitch, py);
    StartGrows(src.pitch, py, src.height);
    StartGrows(src.pitch, Neighbour(py, src.height), src.height);
    hide Start;
  }

  /** The 32 bit zoomer. */
  method ZoomSurfaceRGBA(src: Surface<Color>, dst: Surface<Color>, smooth: bool) returns (ok: bool)
    requires dst.Valid() && Zoomable(src.Shown(), dst.width, dst.height) && src.pixels != dst.pixels
    modifies dst.pixels
    ensures !ok ==> dst.pixels[..] == old(dst.pixels[..])
    ensures ok ==> Painted(dst.pixels[..], old(dst.pixels[..]), dst.pitch,
                           if smooth then SmoothRows(old(src.Shown()), dst.width, dst.height)
                           else NearestRows(old(src.Shown()), dst.width, dst.height))
  {
    ok := *;
    if !ok {
      return;
    }
    hide Step, Painted, SmoothRows, NearestRows;
    var sx, sy;
    if smooth {
      sx, sy := Step(src.width - 1, dst.width), Step(src.height - 1, dst.height);
    } else {
      sx, sy := Step(src.width, dst.width), Step(src.height, dst.height);
    }
    var sax := Increments(sx, dst.width);
    var say := Increments(sy, dst.height);
    if smooth {
      PaintSmooth(src, dst, sax, say);
    } else {
      PaintNearest(src, dst, sax, say);
    }
  }

  // ----- Rotating -----

  /** Centre of the rotation and the matrix entries, in 1/65536. */
  datatype Turn = Turn(cx: int, cy: int, isin: int, icos: int)

  /** Where destination pixel (x, y) falls in the source, in 1/65536 of a pixel. */
  function SourceX(t: Turn, width: nat, target: nat, x: nat, y: nat): int {
    t.cx * 65536 - t.icos * t.cx + t.isin * (t.cy - y) + (width - target) * 32768 + t.icos * x
  }

  function SourceY(t: Turn, height: nat, target: nat, x: nat, y: nat): int {
    t.cy * 65536 - t.isin * t.cx - t.icos * (t.cy - y) + (height - target) * 32768 + t.isin * x
  }

  /** A rotation about (cx, cy), with the middles of both surfaces on top of each other. */
  lemma SourceMeans(t: Turn, size: nat, target: nat, x: nat, y: nat)
    ensures SourceX(t, size, target, x, y) ==
            65536 * t.cx + 32768 * (size - target) + (t.icos * (x - t.cx) - t.isin * (y - t.cy))
    ensures SourceY(t, size, target, x, y) ==
            65536 * t.cy + 32768 * (size - target) + (t.isin * (x - t.cx) + t.icos * (y - t.cy))
  {
    assert t.icos * (x - t.cx) == t.icos * x - t.icos * t.cx && t.isin * (x - t.cx) == t.isin * x - t.isin * t.cx;
    assert t.icos * (y - t.cy) == 0 - t.icos * (t.cy - y) && t.isin * (y - t.cy) == 0 - t.isin * (t.cy - y);
  }

  lemma SourceStep(t: Turn, size: nat, target: nat, x: nat, y: nat)
    ensures SourceX(t, size, target, x + 1, y) == SourceX(t, size, target, x, y) + t.icos
    ensures SourceY(t, size, target, x + 1, y) == SourceY(t, size, target, x, y) + t.isin
  {
  }

  /** The cast to a 16 bit short. */
  function ToShort(v: int): int {
    (v + 32768) % 65536 - 32768
  }

  /** The cast changes nothing as long as the fixed-point position fits a 32 bit int. */
  lemma ShortKeepsIntPositions(s: int)
    ensures ToShort(s / 65536) == s / 65536 <==> -2147483648 <= s < 2147483648
  {
  }

  /** The cast keeps the lowest 16 bits as a two's complement number. */
  lemma ShortMeans(v: int)
    ensures -32768 <= ToShort(v) < 32768 && (v - ToShort(v)) % 65536 == 0
  {
  }

  /** The source pixel at (x, y), or what is under it where the source has none. */
  function Sample(src: Image<Color>, x: int, y: int, under: Color): Color
    requires src.Valid()
  {
    if 0 <= x < src.width && 0 <= y < src.height then src.At(x, y) else under
  }

  function TurnedPixel(src: Image<Color>, sdx: int, sdy: int, under: Color, smooth: bool): Color
    requires src.Valid()
  {
    var dx, dy := sdx / 65536, sdy / 65536;
    if smooth then
      BlendColor(Sample(src, dx, dy, under), Sample(src, dx + 1, dy, under), Sample(src, dx, dy + 1, under),
                 Sample(src, dx + 1, dy + 1, under), sdx % 65536, sdy % 65536)
    else Sample(src, ToShort(dx), ToShort(dy), under)
  }

  /**
   A position is so many whole pixels and a rest. It shows the pixel there as long as that fits a short, and when
   smoothed the pixels around it.
   */
  lemma TurnedPixelMeans(src: Image<Color>, dx: int, dy: int, ex: nat, ey: nat, under: Color)
    requires src.Valid() && ex < 65536 && ey < 65536
    ensures TurnedPixel(src, 65536 * dx + ex, 65536 * dy + ey, under, true) ==
            BlendColor(Sample(src, dx, dy, under), Sample(src, dx + 1, dy, under), Sample(src, dx, dy + 1, under),
                       Sample(src, dx + 1, dy + 1, under), ex, ey)
    ensures -32768 <= dx < 32768 && -32768 <= dy < 32768 ==>
              TurnedPixel(src, 65536 * dx + ex, 65536 * dy + ey, under, false) == Sample(src, dx, dy, under)
  {
    hide BlendColor, Sample;
  }

  /** Blending four equal corners changes nothing, so a pixel away from the source keeps its color. */
  lemma EqualCornersBlend(c: Color, ex: nat, ey: nat)
    requires ex < 65536 && ey < 65536
    ensures BlendColor(c, c, c, c, ex, ey) == c
  {
  }

  /** The nine-way choice of the corners: each is the source pixel if there is one, else the destination pixel. */
  method Corners(src: Surface<Color>, dx: int, dy: int, pc: Color)
    returns (c00: Color, c01: Color, c10: Color, c11: Color)
    requires src.Valid() && -1 <= dx < src.width && -1 <= dy < src.height && src.width > 0 && src.height > 0
    ensures c00 == Sample(src.Shown(), dx, dy, pc) && c01 == Sample(src.Shown(), dx + 1, dy, pc)
    ensures c10 == Sample(src.Shown(), dx, dy + 1, pc) && c11 == Sample(src.Shown(), dx + 1, dy + 1, pc)
  {
    var sw, sh := src.width - 1, src.height - 1;
    var sp;
    CornerIndex(src, dx, dy);
    hide Start;
    if dx >= 0 && dy >= 0 && dx < sw && dy < sh {
      sp := Start(src.pitch, dy) + dx;
      c00 := src.pixels[sp];
      sp := sp + 1;
      c01 := src.pixels[sp];
      sp := sp + src.pitch - 1;
      c10 := src.pixels[sp];
      sp := sp + 1;
      c11 := src.pixels[sp];
    } else if dx == sw && dy == sh {
      sp := Start(src.pitch, dy) + dx;
      c00, c01, c10, c11 := src.pixels[sp], pc, pc, pc;
    } else if dx == -1 && dy == -1 {
      c00, c01, c10, c11 := pc, pc, pc, src.pixels[0];
    } else if dx == -1 && dy == sh {
      sp := Start(src.pitch, dy);
      c00, c01, c10, c11 := pc, src.pixels[sp], pc, pc;
    } else if dx == sw && dy == -1 {
      c00, c01, c10, c11 := pc, pc, src.pixels[dx], pc;
    } else if dx == -1 {
      sp := Start(src.pitch, dy);
      c00, c01, c10 := pc, src.pixels[sp], pc;
      sp := sp + src.pitch;
      c11 := src.pixels[sp];
    } else if dy == -1 {
      sp := dx;
      c00, c01, c10 := pc, pc, src.pixels[sp];
      sp := sp + 1;
      c11 := src.pixels[sp];
    } else if dx == sw {
      sp := Start(src.pitch, dy) + dx;
      c00, c01 := src.pixels[sp], pc;
      sp := sp + src.pitch;
      c10, c11 := src.pixels[sp], pc;
    } else {
      sp := Start(src.pitch, dy) + dx;
      c00 := src.pixels[sp];
      sp := sp + 1;
      c01, c10, c11 := src.pixels[sp], pc, pc;
    }
  }

  /** The rows a corner can lie in start where the code points. */
  lemma CornerIndex(src: Surface<Color>, dx: int, dy: int)
    requires src.Valid() && -1 <= dx < src.width && -1 <= dy < src.height && src.width > 0 && src.height > 0
    ensures Start(src.pitch, 0) == 0 && src.pitch <= src.pixels.Length
    ensures dy >= 0 ==> Start(src.pitch, dy) + src.pitch <= src.pixels.Length
    ensures dy >= 0 ==> Start(src.pitch, dy + 1) == Start(src.pitch, dy) + src.pitch
    ensures 0 <= dy < src.height - 1 ==> Start(src.pitch, dy) + 2 * src.pitch <= src.pixels.Length
  {
    StartGrows(src.pitch, 0, src.height);
    if dy >= 0 {
      StartStep(src.pitch, dy);
      StartGrows(src.pitch, dy, src.height);
      if dy < src.height - 1 {
        StartGrows(src.pitch, dy + 1, src.height);
      }
    }
  }

  /** Destination row y after the rotation, `under` being the destination before it. */
  function TurnedRow(src: Image<Color>, under: Image<Color>, t: Turn, smooth: bool, y: nat): (row: seq<Color>)
    requires src.Valid() && under.Valid() && y < under.height
    ensures |row| == under.width
    ensures forall x | 0 <= x < under.width ::
              row[x] == TurnedPixel(src, SourceX(t, src.width, under.width, x, y),
                                    SourceY(t, src.height, under.height, x, y),
                                    under.At(x, y), smooth)
  {
    seq(under.width, x requires 0 <= x < under.width =>
          TurnedPixel(src, SourceX(t, src.width, under.width, x, y), SourceY(t, src.height, under.height, x, y),
                      under.At(x, y), smooth))
  }

  function TurnedRows(src: Image<Color>, under: Image<Color>, t: Turn, smooth: bool): (rows: seq<seq<Color>>)
    requires src.Valid() && under.Valid()
    ensures |rows| == under.height
    ensures forall y | 0 <= y < under.height :: rows[y] == TurnedRow(src, under, t, smooth, y)
  {
    seq(under.height, y requires 0 <= y < under.height => TurnedRow(src, under, t, smooth, y))
  }

  /** One destination pixel: what the loop bodies do at (sdx, sdy). */
  method TurnPixel(src: Surface<Color>, sdx: int, sdy: int, pc: Color, smooth: bool) returns (c: Color)
    requires src.Valid() && src.width > 0 && src.height > 0
    ensures c == TurnedPixel(src.Shown(), sdx, sdy, pc, smooth)
  {
    hide BlendColor, Start, ToShort;
    c := pc;
    if smooth {
      var dx, dy := sdx / 65536, sdy / 65536;
      var ex, ey := sdx % 65536, sdy % 65536;
      if dx >= -1 && dy >= -1 && dx < src.width && dy < src.height {
        var c00, c01, c10, c11 := Corners(src, dx, dy, pc);
        c := BlendPixel(c00, c01, c10, c11, ex, ey);
      } else {
        EqualCornersBlend(pc, ex, ey);
      }
    } else {
      var dx, dy := ToShort(sdx / 65536), ToShort(sdy / 65536);
      if dx >= 0 && dy >= 0 && dx < src.width && dy < src.height {
        CornerIndex(src, dx, dy);
        var sp := Start(src.pitch, dy);
        sp := sp + dx;
        c := src.pixels[sp];
      }
    }
  }

  /** The rotozoomer. */
  method TransformSurfaceRGBA(src: Surface<Color>, dst: Surface<Color>, cx: int, cy: int, isin: int, icos: int,
                              smooth: bool)
    requires src.Valid() && src.width > 0 && src.height > 0 && dst.Valid() && src.pixels != dst.pixels
    modifies dst.pixels
    ensures Painted(dst.pixels[..], old(dst.pixels[..]), dst.pitch,
                    TurnedRows(old(src.Shown()), old(dst.Shown()), Turn(cx, cy, isin, icos), smooth))
  {
    var t := Turn(cx, cy, isin, icos);
    ghost var image, under := src.Shown(), dst.Shown();
    ghost var rows := TurnedRows(image, under, t, smooth);
    FirstRow(under.pixels, dst.pitch, 0, 0, rows);
    var xd, yd := (src.width - dst.width) * 32768, (src.height - dst.height) * 32768;
    var ax, ay := cx * 65536 - icos * cx, cy * 65536 - isin * cx;
    var pc := 0;
    var y := 0;
    while y < dst.height
      invariant 0 <= y <= dst.height && pc == Start(dst.pitch, y)
      invariant Painted(dst.pixels[..], under.pixels, dst.pitch, rows[..y])
    {
      ghost var was := dst.Shown();
      var dy := cy - y;
      var sdx, sdy := ax + isin * dy + xd, ay - icos * dy + yd;
      RowStart(t, src.width, dst.width, src.height, dst.height, y, sdx, sdy);
      hide Start, SourceX, SourceY, TurnedPixel, TurnedRow, RowWritten, Painted;
      RowFits(dst, y);
      RowUnder(image, under, was, t, smooth, y, rows);
      pc := TurnRow(src, dst, sdx, sdy, t, pc, smooth, y);
      NextRowPainted(dst.pixels[..], was.pixels, under.pixels, dst.pitch, rows, y);
      pc := pc + (dst.pitch - dst.width);
      y := y + 1;
    }
    assert rows[..y] == rows;
  }

  /** What the rotozoomer leaves in destination pixel (x, y). */
  lemma RotatedPixel(dst: Image<Color>, under: Image<Color>, src: Image<Color>, t: Turn, smooth: bool, x: nat, y: nat)
    requires src.Valid() && dst.Valid() && under.Valid() && x < dst.width && y < dst.height
    requires dst.width == under.width && dst.height == under.height && dst.pitch == under.pitch
    requires Painted(dst.pixels, under.pixels, dst.pitch, TurnedRows(src, under, t, smooth))
    ensures dst.At(x, y) == TurnedPixel(src, SourceX(t, src.width, dst.width, x, y),
                                        SourceY(t, src.height, dst.height, x, y), under.At(x, y), smooth)
  {
    hide TurnedPixel, SourceX, SourceY;
    StartGrows(dst.pitch, y, dst.height);
    var row := TurnedRow(src, under, t, smooth, y);
    assert |row| == dst.width && RowPainted(dst.pixels, under.pixels, dst.pitch, y, row);
    hide Start;
    var start := Start(dst.pitch, y);
    assert dst.pixels[start + x] == dst.pixels[start..start + |row|][x];
  }

  lemma RowStart(t: Turn, width: nat, dstWidth: nat, height: nat, dstHeight: nat, y: nat, sdx: int, sdy: int)
    requires sdx == t.cx * 65536 - t.icos * t.cx + t.isin * (t.cy - y) + (width - dstWidth) * 32768
    requires sdy == t.cy * 65536 - t.isin * t.cx - t.icos * (t.cy - y) + (height - dstHeight) * 32768
    ensures sdx == SourceX(t, width, dstWidth, 0, y) && sdy == SourceY(t, height, dstHeight, 0, y)
  {
  }

  /** A row not yet painted still shows what was under it at first. */
  lemma RowUnder(src: Image<Color>, under: Image<Color>, was: Image<Color>, t: Turn, smooth: bool, y: nat,
                 rows: seq<seq<Color>>)
    requires src.Valid() && under.Valid() && was.Valid() && y < under.height
    requires was.width == under.width && was.height == under.height && was.pitch == under.pitch
    requires y <= |rows| && Painted(was.pixels, under.pixels, under.pitch, rows[..y])
    ensures TurnedRow(src, was, t, smooth, y) == TurnedRow(src, under, t, smooth, y)
  {
    var start := Start(under.pitch, y);
    StartGrows(under.pitch, y, under.height);
    hide Start, SourceX, SourceY, TurnedPixel;
    forall x | 0 <= x < under.width
      ensures was.At(x, y) == under.At(x, y)
    {
      assert was.pixels[start..][x] == under.pixels[start..][x];
    }
  }

  lemma UnderAt(under: Image<Color>, x: nat, y: nat)
    requires under.Valid() && x < under.width && y < under.height
    ensures Start(under.pitch, y) + x < |under.pixels| && under.At(x, y) == under.pixels[Start(under.pitch, y) + x]
  {
    StartGrows(under.pitch, y, under.height);
  }

  method TurnRow(src: Surface<Color>, dst: Surface<Color>, startX: int, startY: int, t: Turn, start: nat, smooth: bool,
                 ghost y: nat)
    returns (pc: nat)
    requires src.Valid() && src.width > 0 && src.height > 0 && dst.Valid() && src.pixels != dst.pixels && y < dst.height
    requires start == Start(dst.pitch, y) && start + dst.width <= dst.pixels.Length
    requires startX == SourceX(t, src.width, dst.width, 0, y) && startY == SourceY(t, src.height, dst.height, 0, y)
    modifies dst.pixels
    ensures pc == start + dst.width
    ensures RowWritten(dst.pixels[..], old(dst.pixels[..]), start,
                       TurnedRow(src.Shown(), old(dst.Shown()), t, smooth, y))
  {
    hide Start, SourceX, SourceY, TurnedPixel, TurnedRow, RowWritten, RowSoFar;
    ghost var image, was := src.Shown(), dst.Shown();
    ghost var row := TurnedRow(image, was, t, smooth, y);
    RowStarted(was.pixels, start, row);
    pc := start;
    var sdx, sdy := startX, startY;
    var x := 0;
    while x < dst.width
      invariant 0 <= x <= dst.width && pc == start + x
      invariant sdx == SourceX(t, src.width, dst.width, x, y) && sdy == SourceY(t, src.height, dst.height, x, y)
      invariant RowSoFar(dst.pixels[..], was.pixels, start, row, x)
    {
      PixelUnder(dst.pixels[..], was.pixels, start, row, x);
      UnderAt(was, x, y);
      PixelWritten(dst.pixels[..], was.pixels, start, row, x);
      ghost var next := dst.pixels[..][start + x := row[x]];
      dst.pixels[pc] := TurnPixel(src, sdx, sdy, dst.pixels[pc], smooth);
      assert dst.pixels[..] == next;
      SourceStep(t, src.width, dst.width, x, y);
      SourceStep(t, src.height, dst.height, x, y);
      sdx := sdx + t.icos;
      sdy := sdy + t.isin;
      pc := pc + 1;
      x := x + 1;
    }
    NowWritten(dst.pixels[..], was.pixels, start, row);
  }
}
