/** The drawing primitives as the sequences of `write_pixel` calls they
    issue, with what those sequences do to the frame. The driver's methods
    are proved to apply exactly these sequences. */
module Drawing {
  import opened Bits
  import opened Framebuffer

  // ---------------------------------------------------------------------
  // Checkerboard (`write_checkerboard`)
  // ---------------------------------------------------------------------

  /** Row `i` of the checkerboard in loop order: for `j` in 0..63 the black
      write at column `2 * j + i % 2`. */
  function CheckerboardRow(i: U8): (ws: seq<PixelWrite>)
    requires i < Rows
    ensures |ws| == 64
  {
    seq(64, j requires 0 <= j < 64 => PixelWrite(2 * j + i % 2, i, true))
  }

  /** The writes of the first `n` rows, row 0 first. */
  function CheckerboardRows(n: nat): (ws: seq<PixelWrite>)
    requires n <= Rows
    ensures |ws| == 64 * n
  {
    if n == 0 then [] else CheckerboardRows(n - 1) + CheckerboardRow(n - 1)
  }

  /** Every write of `write_checkerboard`: all 128 rows. */
  function CheckerboardWrites(): (ws: seq<PixelWrite>) {
    CheckerboardRows(Rows)
  }

  /** Row `i` writes only black, at the pixels of row `i` whose column has
      the parity of `i`. */
  lemma CheckerboardRowHits(i: U8, a: U8, b: U8)
    requires i < Rows && a < Columns
    ensures AllOfColour(CheckerboardRow(i), true)
    ensures Hits(CheckerboardRow(i), a, b) <==> b == i && a % 2 == i % 2
  {
    if b == i && a % 2 == i % 2 {
      assert CheckerboardRow(i)[a / 2].x == a;
    }
  }

  /** The first `n` rows write only black, and address exactly the pixels
      above row `n` whose column and row have the same parity. */
  lemma {:induction false} CheckerboardRowsHits(n: nat, a: U8, b: U8)
    requires n <= Rows && a < Columns
    ensures AllOfColour(CheckerboardRows(n), true)
    ensures Hits(CheckerboardRows(n), a, b) <==> b < n && a % 2 == b % 2
  {
    if n > 0 {
      CheckerboardRowsHits(n - 1, a, b);
      CheckerboardRowHits(n - 1, a, b);
      HitsConcat(CheckerboardRows(n - 1), CheckerboardRow(n - 1), a, b);
    }
  }

  /** After the checkerboard every pixel whose column and row have the same
      parity is black, and every pixel of the other parity is untouched. */
  lemma CheckerboardPixels(f: Frame, pos: Layout, a: U8, b: U8)
    requires IsFrame(f) && ValidLayout(pos) && a < Columns && b < Rows
    ensures IsBlack(Plot(f, pos, CheckerboardWrites()), pos, a, b)
            == (a % 2 == b % 2 || IsBlack(f, pos, a, b))
  {
    CheckerboardRowsHits(Rows, a, b);
    PlotUniform(f, pos, CheckerboardWrites(), true, a, b);
  }

  // ---------------------------------------------------------------------
  // Rectangle (`draw_rect`)
  // ---------------------------------------------------------------------

  /** The inputs for which `draw_rect` does not panic: once the `> 128`
      guard lets the call through, `x + width` and `y + height` must fit a
      `u8`, and `y_end - 1` / `x_end - 1` must not go below zero when the
      loop that computes them runs. */
  predicate RectNoPanic(x: U8, y: U8, width: U8, height: U8) {
    x <= 128 && y <= 128 ==>
      x + width < 256 && y + height < 256
      && (width > 0 ==> y + height > 0)
      && (height > 0 ==> x + width > 0)
  }

  /** One pass of the first loop, at column `i`: the top edge at row `y` and,
      when `y_end < 128`, the bottom edge at row `y_end - 1`. */
  function HorizontalPair(i: U8, y: U8, yEnd: nat): (ws: seq<PixelWrite>)
    requires 0 < yEnd < 256
  {
    [PixelWrite(i, y, true)] + if yEnd < Rows then [PixelWrite(i, yEnd - 1, true)] else []
  }

  /** One pass of the second loop, at row `i`: the edge at column `x` and,
      when `x_end < 128`, the edge at column `x_end - 1`. */
  function VerticalPair(i: U8, x: U8, xEnd: nat): (ws: seq<PixelWrite>)
    requires 0 < xEnd < 256
  {
    [PixelWrite(x, i, true)] + if xEnd < Columns then [PixelWrite(xEnd - 1, i, true)] else []
  }

  /** The passes of the first loop for columns `lo` up to (not including) `hi`. */
  function HorizontalEdges(lo: nat, hi: nat, y: U8, yEnd: nat): (ws: seq<PixelWrite>)
    requires hi <= 256 && yEnd < 256 && (lo < hi ==> yEnd > 0)
    decreases hi
  {
    if hi <= lo then [] else HorizontalEdges(lo, hi - 1, y, yEnd) + HorizontalPair(hi - 1, y, yEnd)
  }

  /** The passes of the second loop for rows `lo` up to (not including) `hi`. */
  function VerticalEdges(lo: nat, hi: nat, x: U8, xEnd: nat): (ws: seq<PixelWrite>)
    requires hi <= 256 && xEnd < 256 && (lo < hi ==> xEnd > 0)
    decreases hi
  {
    if hi <= lo then [] else VerticalEdges(lo, hi - 1, x, xEnd) + VerticalPair(hi - 1, x, xEnd)
  }

  function Min(a: nat, b: nat): (m: nat) { if a <= b then a else b }

  /** One or two writes, applied one after the other. */
  lemma PlotPair(f: Frame, pos: Layout, first: PixelWrite, second: PixelWrite, both: bool)
    requires IsFrame(f) && ValidLayout(pos)
    ensures var g := WritePixel(f, pos, first.x, first.y, first.black);
            Plot(f, pos, [first] + if both then [second] else [])
            == if both then WritePixel(g, pos, second.x, second.y, second.black) else g
  {
    PlotAppend(f, pos, [], first);
    assert [] + [first] == [first];
    if both {
      PlotAppend(f, pos, [first], second);
    } else {
      assert [first] + [] == [first];
    }
  }

  /** The first loop's passes up to column `i + 1` are those up to `i`
      followed by the pass at `i`. */
  lemma HorizontalEdgesStep(f: Frame, pos: Layout, lo: nat, i: U8, y: U8, yEnd: nat)
    requires IsFrame(f) && ValidLayout(pos)
    requires lo <= i && 0 < yEnd < 256
    ensures Plot(f, pos, HorizontalEdges(lo, i + 1, y, yEnd))
            == Plot(Plot(f, pos, HorizontalEdges(lo, i, y, yEnd)), pos, HorizontalPair(i, y, yEnd))
  {
    PlotConcat(f, pos, HorizontalEdges(lo, i, y, yEnd), HorizontalPair(i, y, yEnd));
  }

  /** The second loop's passes up to row `i + 1` are those up to `i`
      followed by the pass at `i`. */
  lemma VerticalEdgesStep(f: Frame, pos: Layout, lo: nat, i: U8, x: U8, xEnd: nat)
    requires IsFrame(f) && ValidLayout(pos)
    requires lo <= i && 0 < xEnd < 256
    ensures Plot(f, pos, VerticalEdges(lo, i + 1, x, xEnd))
            == Plot(Plot(f, pos, VerticalEdges(lo, i, x, xEnd)), pos, VerticalPair(i, x, xEnd))
  {
    PlotConcat(f, pos, VerticalEdges(lo, i, x, xEnd), VerticalPair(i, x, xEnd));
  }

  /** All writes of `draw_rect(x, y, width, height)`: none when the guard
      returns early; otherwise the first loop over columns `x..x_end`,
      stopped by its `break` after column 128, then the second loop over
      rows `y..y_end`, stopped after row 128. */
  function RectWrites(x: U8, y: U8, width: U8, height: U8): (ws: seq<PixelWrite>)
    requires RectNoPanic(x, y, width, height)
  {
    if x > 128 || y > 128 then []
    else
      HorizontalEdges(x, Min(x + width, 129), y, y + height)
      + VerticalEdges(y, Min(y + height, 129), x, x + width)
  }

  lemma RectWritesSplit(x: U8, y: U8, width: U8, height: U8)
    requires RectNoPanic(x, y, width, height) && x <= 128 && y <= 128
    ensures RectWrites(x, y, width, height)
            == HorizontalEdges(x, Min(x + width, 129), y, y + height)
               + VerticalEdges(y, Min(y + height, 129), x, x + width)
  {
  }

  /** The in-range pixels `draw_rect` addresses, stated without loops: the
      columns `x..x+width-1` of row `y` and, when `y + height < 128`, of row
      `y + height - 1`; the rows `y..y+height-1` of column `x` and, when
      `x + width < 128`, of column `x + width - 1`. */
  ghost predicate RectHits(x: U8, y: U8, width: U8, height: U8, a: U8, b: U8) {
    x <= 128 && y <= 128
    && ((x <= a < x + width && (b == y || (y + height < Rows && b == y + height - 1)))
        || (y <= b < y + height && (a == x || (x + width < Columns && a == x + width - 1))))
  }

  lemma {:induction false} HorizontalEdgesHits(lo: nat, hi: nat, y: U8, yEnd: nat, a: U8, b: U8)
    requires hi <= 256 && yEnd < 256 && (lo < hi ==> yEnd > 0)
    ensures AllOfColour(HorizontalEdges(lo, hi, y, yEnd), true)
    ensures Hits(HorizontalEdges(lo, hi, y, yEnd), a, b)
            <==> lo <= a < hi && (b == y || (yEnd < Rows && b == yEnd - 1))
    decreases hi
  {
    if lo < hi {
      HorizontalEdgesHits(lo, hi - 1, y, yEnd, a, b);
      PairHits(HorizontalPair(hi - 1, y, yEnd), PixelWrite(hi - 1, y, true), PixelWrite(hi - 1, yEnd - 1, true), yEnd < Rows, a, b);
      HitsConcat(HorizontalEdges(lo, hi - 1, y, yEnd), HorizontalPair(hi - 1, y, yEnd), a, b);
    }
  }

  lemma {:induction false} VerticalEdgesHits(lo: nat, hi: nat, x: U8, xEnd: nat, a: U8, b: U8)
    requires hi <= 256 && xEnd < 256 && (lo < hi ==> xEnd > 0)
    ensures AllOfColour(VerticalEdges(lo, hi, x, xEnd), true)
    ensures Hits(VerticalEdges(lo, hi, x, xEnd), a, b)
            <==> lo <= b < hi && (a == x || (xEnd < Columns && a == xEnd - 1))
    decreases hi
  {
    if lo < hi {
      VerticalEdgesHits(lo, hi - 1, x, xEnd, a, b);
      PairHits(VerticalPair(hi - 1, x, xEnd), PixelWrite(x, hi - 1, true), PixelWrite(xEnd - 1, hi - 1, true), xEnd < Columns, a, b);
      HitsConcat(VerticalEdges(lo, hi - 1, x, xEnd), VerticalPair(hi - 1, x, xEnd), a, b);
    }
  }

  lemma PairHits(ws: seq<PixelWrite>, first: PixelWrite, second: PixelWrite, both: bool, a: U8, b: U8)
    requires ws == [first] + if both then [second] else []
    ensures AllOfColour(ws, true) <==> first.black && (both ==> second.black)
    ensures Hits(ws, a, b) <==> (first.x == a && first.y == b) || (both && second.x == a && second.y == b)
  {
    assert ws[0] == first;
    if both {
      assert ws[1] == second;
    }
  }

  lemma HitsConcat(ws: seq<PixelWrite>, vs: seq<PixelWrite>, a: U8, b: U8)
    ensures Hits(ws + vs, a, b) <==> Hits(ws, a, b) || Hits(vs, a, b)
    ensures AllOfColour(ws, true) && AllOfColour(vs, true) ==> AllOfColour(ws + vs, true)
  {
    if Hits(ws + vs, a, b) {
      var k :| 0 <= k < |ws + vs| && (ws + vs)[k].x == a && (ws + vs)[k].y == b;
      if k >= |ws| {
        assert vs[k - |ws|] == (ws + vs)[k];
      }
    }
    if Hits(ws, a, b) {
      var k :| 0 <= k < |ws| && ws[k].x == a && ws[k].y == b;
      assert (ws + vs)[k] == ws[k];
    }
    if Hits(vs, a, b) {
      var k :| 0 <= k < |vs| && vs[k].x == a && vs[k].y == b;
      assert (ws + vs)[|ws| + k] == vs[k];
    }
  }

  /** The first loop's writes of a drawn rectangle: black, on the top edge
      and, when it is inside the grid, the bottom edge, for the in-range
      columns `x..x_end`. */
  lemma RectColumnsHits(x: U8, y: U8, width: U8, height: U8, a: U8, b: U8)
    requires RectNoPanic(x, y, width, height) && x <= 128 && y <= 128
    requires a < Columns && b < Rows
    ensures AllOfColour(HorizontalEdges(x, Min(x + width, 129), y, y + height), true)
    ensures Hits(HorizontalEdges(x, Min(x + width, 129), y, y + height), a, b)
            == (x <= a < x + width && (b == y || (y + height < Rows && b == y + height - 1)))
  {
    HorizontalEdgesHits(x, Min(x + width, 129), y, y + height, a, b);
  }

  /** The second loop's writes: black, on the left edge and, when it is
      inside the grid, the right edge, for the in-range rows `y..y_end`. */
  lemma RectRowsHits(x: U8, y: U8, width: U8, height: U8, a: U8, b: U8)
    requires RectNoPanic(x, y, width, height) && x <= 128 && y <= 128
    requires a < Columns && b < Rows
    ensures AllOfColour(VerticalEdges(y, Min(y + height, 129), x, x + width), true)
    ensures Hits(VerticalEdges(y, Min(y + height, 129), x, x + width), a, b)
            == (y <= b < y + height && (a == x || (x + width < Columns && a == x + width - 1)))
  {
    VerticalEdgesHits(y, Min(y + height, 129), x, x + width, a, b);
  }

  /** `draw_rect` writes only black, and the in-range pixels it addresses
      are exactly those of `RectHits`. */
  lemma RectWritesHits(x: U8, y: U8, width: U8, height: U8, a: U8, b: U8)
    requires RectNoPanic(x, y, width, height)
    requires a < Columns && b < Rows
    ensures AllOfColour(RectWrites(x, y, width, height), true)
    ensures Hits(RectWrites(x, y, width, height), a, b) <==> RectHits(x, y, width, height, a, b)
  {
    if x <= 128 && y <= 128 {
      var hs := HorizontalEdges(x, Min(x + width, 129), y, y + height);
      var vs := VerticalEdges(y, Min(y + height, 129), x, x + width);
      RectColumnsHits(x, y, width, height, a, b);
      RectRowsHits(x, y, width, height, a, b);
      HitsConcat(hs, vs, a, b);
    }
  }

  /** A rectangle whose far edges both lie inside the grid (`x + width` and
      `y + height` below 128) is drawn as exactly its perimeter. */
  lemma RectPerimeter(x: U8, y: U8, width: U8, height: U8, a: U8, b: U8)
    requires 1 <= width && 1 <= height && x + width < Columns && y + height < Rows
    requires a < Columns && b < Rows
    ensures RectHits(x, y, width, height, a, b)
            <==> x <= a < x + width && y <= b < y + height
                 && (a == x || a == x + width - 1 || b == y || b == y + height - 1)
  {
  }

  /** The guard tests `> 128`, so `x == 128` or `y == 128` gets past it, yet
      no in-range pixel is then addressed: on pixels the guard acts as `>= 128`. */
  lemma RectAtBoundaryDrawsNothing(x: U8, y: U8, width: U8, height: U8, a: U8, b: U8)
    requires x == 128 || y == 128
    requires a < Columns && b < Rows
    ensures !RectHits(x, y, width, height, a, b)
  {
  }

  /** The far-edge tests are `y_end < 128` and `x_end < 128`: a rectangle
      reaching the last row or column (`y_end == 128`) gets no bottom or right
      edge, so a full-screen rectangle draws only row 0 and column 0. */
  lemma RectFullScreen(a: U8, b: U8)
    requires a < Columns && b < Rows
    ensures RectHits(0, 0, 128, 128, a, b) <==> a == 0 || b == 0
  {
  }

  // ---------------------------------------------------------------------
  // Circle (`draw_circle`)
  // ---------------------------------------------------------------------

  /** The `i32` locals of the midpoint loop. */
  datatype Midpoint = Midpoint(x: int, y: int, dx: int, dy: int, err: int)

  /** `x = r - 1, y = 0, dx = 1, dy = 1, err = dx - (r << 1)`. */
  function Start(r: U8): (s: Midpoint) {
    Midpoint(r - 1, 0, 1, 1, 1 - 2 * r)
  }

  /** The first update of a pass: `y += 1; err += dy; dy += 2`. */
  function AdvanceY(s: Midpoint): (t: Midpoint) {
    s.(y := s.y + 1, err := s.err + s.dy, dy := s.dy + 2)
  }

  /** The two independent updates at the end of one pass: if `err <= 0`,
      `y` advances; then, if `err > 0`, `x` retreats. At least one of them
      fires, so `x - y` strictly decreases, which is why the loop ends. */
  function Step(r: U8, s: Midpoint): (t: Midpoint)
    ensures t.x - t.y < s.x - s.y
    ensures t.y == s.y || t.y == s.y + 1
    ensures t.x == s.x || t.x == s.x - 1
  {
    var s1 := if s.err <= 0 then AdvanceY(s) else s;
    if s1.err > 0 then s1.(x := s1.x - 1, dx := s1.dx + 2, err := s1.err + (s1.dx + 2 - 2 * r)) else s1
  }

  /** The end of a pass of `draw_circle`, on its five `i32` locals: it
      computes `Step`. */
  method MidpointUpdate(r: U8, x: int, y: int, dx: int, dy: int, err: int)
    returns (x1: int, y1: int, dx1: int, dy1: int, err1: int)
    ensures Midpoint(x1, y1, dx1, dy1, err1) == Step(r, Midpoint(x, y, dx, dy, err))
  {
    x1, y1, dx1, dy1, err1 := x, y, dx, dy, err;
    if err1 <= 0 {
      y1 := y1 + 1;
      err1 := err1 + dy1;
      dy1 := dy1 + 2;
    }
    if err1 > 0 {
      x1 := x1 - 1;
      dx1 := dx1 + 2;
      err1 := err1 + (dx1 - 2 * r);
    }
  }

  /** The `(x, y)` offsets of the passes run from state `s` on. */
  function Visited(r: U8, s: Midpoint): (vs: seq<(int, int)>)
    decreases s.x - s.y
  {
    if s.x < s.y then [] else [(s.x, s.y)] + Visited(r, Step(r, s))
  }

  /** The write at offset (`dx`, `dy`) from the centre, with both sums
      truncated to `u8` as the source's `as u8` does. */
  function At(x0: U8, y0: U8, dx: int, dy: int, black: bool): (w: PixelWrite) {
    PixelWrite(TruncU8(x0 + dx), TruncU8(y0 + dy), black)
  }

  /** The offsets of the eight writes of one pass, in the source's order. */
  function OctantOffsets(x: int, y: int): (p: seq<(int, int)>)
    ensures |p| == 8
  {
    [(x, y), (y, x), (-y, x), (-x, y), (-x, -y), (-y, -x), (y, -x), (x, -y)]
  }

  /** The eight writes of one pass, in the source's order. */
  function Octants(x0: U8, y0: U8, x: int, y: int, black: bool): (o: seq<PixelWrite>)
    ensures |o| == 8
  {
    [ PixelWrite(TruncU8(x0 + x), TruncU8(y0 + y), black), PixelWrite(TruncU8(x0 + y), TruncU8(y0 + x), black),
      PixelWrite(TruncU8(x0 - y), TruncU8(y0 + x), black), PixelWrite(TruncU8(x0 - x), TruncU8(y0 + y), black),
      PixelWrite(TruncU8(x0 - x), TruncU8(y0 - y), black), PixelWrite(TruncU8(x0 - y), TruncU8(y0 - x), black),
      PixelWrite(TruncU8(x0 + y), TruncU8(y0 - x), black), PixelWrite(TruncU8(x0 + x), TruncU8(y0 - y), black) ]
  }

  /** The frame after one pass is the eight writes applied in order. */
  lemma PlotOctants(f: Frame, pos: Layout, x0: U8, y0: U8, x: int, y: int, black: bool)
    requires IsFrame(f) && ValidLayout(pos)
    ensures var f1 := WritePixel(f, pos, TruncU8(x0 + x), TruncU8(y0 + y), black);
            var f2 := WritePixel(f1, pos, TruncU8(x0 + y), TruncU8(y0 + x), black);
            var f3 := WritePixel(f2, pos, TruncU8(x0 - y), TruncU8(y0 + x), black);
            var f4 := WritePixel(f3, pos, TruncU8(x0 - x), TruncU8(y0 + y), black);
            var f5 := WritePixel(f4, pos, TruncU8(x0 - x), TruncU8(y0 - y), black);
            var f6 := WritePixel(f5, pos, TruncU8(x0 - y), TruncU8(y0 - x), black);
            var f7 := WritePixel(f6, pos, TruncU8(x0 + y), TruncU8(y0 - x), black);
            var f8 := WritePixel(f7, pos, TruncU8(x0 + x), TruncU8(y0 - y), black);
            Plot(f, pos, Octants(x0, y0, x, y, black)) == f8
  {
    var o := Octants(x0, y0, x, y, black);
    var q0, q1, q2, q3 := o[0..2], o[2..4], o[4..6], o[6..8];
    assert o == q0 + q1 + q2 + q3;
    PlotConcat(f, pos, q0 + q1 + q2, q3);
    PlotConcat(f, pos, q0 + q1, q2);
    PlotConcat(f, pos, q0, q1);
    PlotTwo(f, pos, q0);
    PlotTwo(Plot(f, pos, q0), pos, q1);
    PlotTwo(Plot(f, pos, q0 + q1), pos, q2);
    PlotTwo(Plot(f, pos, q0 + q1 + q2), pos, q3);
  }

  /** Write `k` of a pass is the write at offset `k` of `OctantOffsets`. */
  lemma OctantsAt(x0: U8, y0: U8, x: int, y: int, black: bool)
    ensures forall k :: 0 <= k < 8 ==>
              Octants(x0, y0, x, y, black)[k]
              == At(x0, y0, OctantOffsets(x, y)[k].0, OctantOffsets(x, y)[k].1, black)
  {
    assert x0 - x == x0 + -x && x0 - y == x0 + -y && y0 - x == y0 + -x && y0 - y == y0 + -y;
  }

  function OctantWrites(x0: U8, y0: U8, offsets: seq<(int, int)>, black: bool): (ws: seq<PixelWrite>) {
    if offsets == [] then [] else Octants(x0, y0, offsets[0].0, offsets[0].1, black) + OctantWrites(x0, y0, offsets[1..], black)
  }

  /** All writes of `draw_circle(x0, y0, r, black)`. */
  function CircleWrites(x0: U8, y0: U8, r: U8, black: bool): (ws: seq<PixelWrite>) {
    OctantWrites(x0, y0, Visited(r, Start(r)), black)
  }

  /** A state with `x >= y` runs one pass and continues from `Step`. */
  lemma OctantWritesStep(x0: U8, y0: U8, r: U8, s: Midpoint, black: bool)
    requires s.x >= s.y
    ensures OctantWrites(x0, y0, Visited(r, s), black)
            == Octants(x0, y0, s.x, s.y, black) + OctantWrites(x0, y0, Visited(r, Step(r, s)), black)
  {
    var v := Visited(r, s);
    assert v[0] == (s.x, s.y) && v[1..] == Visited(r, Step(r, s));
  }

  /** A state with `x < y` runs no pass. */
  lemma VisitedDone(r: U8, s: Midpoint)
    requires s.x < s.y
    ensures Visited(r, s) == []
  {
  }

  /** Every offset visited has `0 <= y <= x <= r - 1`, and there are at most
      `x - y + 1` passes from a state. */
  lemma {:induction false} VisitedFromBounds(r: U8, s: Midpoint)
    requires 0 <= s.y && s.x <= r - 1
    ensures |Visited(r, s)| <= if s.x < s.y then 0 else s.x - s.y + 1
    ensures forall k :: 0 <= k < |Visited(r, s)| ==>
              0 <= Visited(r, s)[k].1 <= Visited(r, s)[k].0 <= r - 1
    decreases s.x - s.y
  {
    if s.x >= s.y {
      VisitedFromBounds(r, Step(r, s));
    }
  }

  /** From the start: every offset lies in the first octant of the radius
      `r - 1` square, and the loop runs at most `r` times. */
  lemma VisitedBounds(r: U8)
    ensures |Visited(r, Start(r))| <= r
    ensures forall k :: 0 <= k < |Visited(r, Start(r))| ==>
              0 <= Visited(r, Start(r))[k].1 <= Visited(r, Start(r))[k].0 <= r - 1
  {
    VisitedFromBounds(r, Start(r));
  }

  /** Radius 0 gives no pass at all, hence no write. */
  lemma CircleZeroRadius(x0: U8, y0: U8, black: bool)
    ensures CircleWrites(x0, y0, 0, black) == []
  {
  }

  /** Every write of the circle uses the given colour. */
  lemma {:induction false} OctantWritesColour(x0: U8, y0: U8, offsets: seq<(int, int)>, black: bool)
    ensures AllOfColour(OctantWrites(x0, y0, offsets, black), black)
    decreases |offsets|
  {
    if offsets != [] {
      var head := Octants(x0, y0, offsets[0].0, offsets[0].1, black);
      var tail := OctantWrites(x0, y0, offsets[1..], black);
      OctantWritesColour(x0, y0, offsets[1..], black);
      assert forall k :: |head| <= k < |head + tail| ==> (head + tail)[k] == tail[k - |head|];
    }
  }

  /** What a circle does to the frame: every pixel the circle's writes
      address takes the colour, every other pixel keeps its colour, and a
      circle of radius 0 changes nothing. */
  lemma CirclePixels(f: Frame, pos: Layout, x0: U8, y0: U8, r: U8, black: bool, a: U8, b: U8)
    requires IsFrame(f) && ValidLayout(pos) && a < Columns && b < Rows
    ensures IsBlack(Plot(f, pos, CircleWrites(x0, y0, r, black)), pos, a, b)
            == if Hits(CircleWrites(x0, y0, r, black), a, b) then black else IsBlack(f, pos, a, b)
    ensures r == 0 ==> Plot(f, pos, CircleWrites(x0, y0, r, black)) == f
  {
    OctantWritesColour(x0, y0, Visited(r, Start(r)), black);
    PlotUniform(f, pos, CircleWrites(x0, y0, r, black), black, a, b);
    if r == 0 {
      CircleZeroRadius(x0, y0, black);
      assert Plot(f, pos, []) == f;
    }
  }

  // Reflections about the centre, computed on the truncated coordinates.

  function MirrorX(x0: U8, w: PixelWrite): (m: PixelWrite) { w.(x := TruncU8(2 * x0 - w.x)) }
  function MirrorY(y0: U8, w: PixelWrite): (m: PixelWrite) { w.(y := TruncU8(2 * y0 - w.y)) }
  function Transpose(x0: U8, y0: U8, w: PixelWrite): (m: PixelWrite) {
    w.(x := TruncU8(x0 + w.y - y0), y := TruncU8(y0 + w.x - x0))
  }

  lemma ModShift(a: int, q: int)
    ensures (a + 256 * q) % 256 == a % 256
  {
  }

  lemma ModAbsorb(u: int, v: int)
    ensures (u - v % 256) % 256 == (u - v) % 256
    ensures (u + v % 256) % 256 == (u + v) % 256
  {
    var q := v / 256;
    assert v % 256 == v - 256 * q;
    ModShift(u - v, q);
    ModShift(u + v, -q);
  }

  /** Reflecting a write at offset (`dx`, `dy`) gives the write at the
      reflected offset, even after `u8` wrap-around. */
  lemma MirrorXAt(x0: U8, y0: U8, dx: int, dy: int, black: bool)
    ensures MirrorX(x0, At(x0, y0, dx, dy, black)) == At(x0, y0, -dx, dy, black)
  {
    ModAbsorb(2 * x0, x0 + dx);
    assert 2 * x0 - (x0 + dx) == x0 - dx;
  }

  lemma MirrorYAt(x0: U8, y0: U8, dx: int, dy: int, black: bool)
    ensures MirrorY(y0, At(x0, y0, dx, dy, black)) == At(x0, y0, dx, -dy, black)
  {
    ModAbsorb(2 * y0, y0 + dy);
    assert 2 * y0 - (y0 + dy) == y0 - dy;
  }

  lemma TransposeAt(x0: U8, y0: U8, dx: int, dy: int, black: bool)
    ensures Transpose(x0, y0, At(x0, y0, dx, dy, black)) == At(x0, y0, dy, dx, black)
  {
    ModAbsorb(x0 - y0, y0 + dy);
    ModAbsorb(y0 - x0, x0 + dx);
  }

  /** Where each reflection takes offset `k` of a pass. */
  function MirrorXIndex(k: nat): (j: nat) requires k < 8 { if k < 4 then 3 - k else 11 - k }
  function MirrorYIndex(k: nat): (j: nat) requires k < 8 { 7 - k }
  function TransposeIndex(k: nat): (j: nat) requires k < 8 { if k < 2 then 1 - k else 9 - k }

  /** The offsets of a pass are closed under negating either coordinate and
      under exchanging the two. */
  lemma OctantOffsetsClosed(x: int, y: int, k: nat)
    requires k < 8
    ensures var p := OctantOffsets(x, y);
            MirrorXIndex(k) < 8 && p[MirrorXIndex(k)] == (-p[k].0, p[k].1)
            && MirrorYIndex(k) < 8 && p[MirrorYIndex(k)] == (p[k].0, -p[k].1)
            && TransposeIndex(k) < 8 && p[TransposeIndex(k)] == (p[k].1, p[k].0)
  {
  }

  lemma OctantMirrorX(x0: U8, y0: U8, x: int, y: int, black: bool, k: nat)
    requires k < 8
    ensures MirrorXIndex(k) < 8
    ensures MirrorX(x0, Octants(x0, y0, x, y, black)[k]) == Octants(x0, y0, x, y, black)[MirrorXIndex(k)]
  {
    var p := OctantOffsets(x, y);
    OctantsAt(x0, y0, x, y, black);
    OctantOffsetsClosed(x, y, k);
    MirrorXAt(x0, y0, p[k].0, p[k].1, black);
  }

  lemma OctantMirrorY(x0: U8, y0: U8, x: int, y: int, black: bool, k: nat)
    requires k < 8
    ensures MirrorYIndex(k) < 8
    ensures MirrorY(y0, Octants(x0, y0, x, y, black)[k]) == Octants(x0, y0, x, y, black)[MirrorYIndex(k)]
  {
    var p := OctantOffsets(x, y);
    OctantsAt(x0, y0, x, y, black);
    OctantOffsetsClosed(x, y, k);
    MirrorYAt(x0, y0, p[k].0, p[k].1, black);
  }

  lemma OctantTranspose(x0: U8, y0: U8, x: int, y: int, black: bool, k: nat)
    requires k < 8
    ensures TransposeIndex(k) < 8
    ensures Transpose(x0, y0, Octants(x0, y0, x, y, black)[k]) == Octants(x0, y0, x, y, black)[TransposeIndex(k)]
  {
    var p := OctantOffsets(x, y);
    OctantsAt(x0, y0, x, y, black);
    OctantOffsetsClosed(x, y, k);
    TransposeAt(x0, y0, p[k].0, p[k].1, black);
  }

  /** The eight writes of a pass are closed under the three reflections. */
  lemma OctantsSymmetric(x0: U8, y0: U8, x: int, y: int, black: bool)
    ensures forall w :: w in Octants(x0, y0, x, y, black) ==>
              MirrorX(x0, w) in Octants(x0, y0, x, y, black)
              && MirrorY(y0, w) in Octants(x0, y0, x, y, black)
              && Transpose(x0, y0, w) in Octants(x0, y0, x, y, black)
  {
    var o := Octants(x0, y0, x, y, black);
    forall w | w in o
      ensures MirrorX(x0, w) in o && MirrorY(y0, w) in o && Transpose(x0, y0, w) in o
    {
      var k :| 0 <= k < 8 && o[k] == w;
      OctantMirrorX(x0, y0, x, y, black, k);
      OctantMirrorY(x0, y0, x, y, black, k);
      OctantTranspose(x0, y0, x, y, black, k);
    }
  }

  lemma {:induction false} OctantWritesSymmetric(x0: U8, y0: U8, offsets: seq<(int, int)>, black: bool)
    ensures forall w :: w in OctantWrites(x0, y0, offsets, black) ==>
              MirrorX(x0, w) in OctantWrites(x0, y0, offsets, black)
              && MirrorY(y0, w) in OctantWrites(x0, y0, offsets, black)
              && Transpose(x0, y0, w) in OctantWrites(x0, y0, offsets, black)
    decreases |offsets|
  {
    if offsets != [] {
      OctantsSymmetric(x0, y0, offsets[0].0, offsets[0].1, black);
      OctantWritesSymmetric(x0, y0, offsets[1..], black);
    }
  }

  /** The set of pixels the circle writes is closed under the reflections
      through the centre's vertical line, its horizontal line and its
      diagonal, which generate all eight octant symmetries. */
  lemma CircleSymmetric(x0: U8, y0: U8, r: U8, black: bool)
    ensures forall w :: w in CircleWrites(x0, y0, r, black) ==>
              MirrorX(x0, w) in CircleWrites(x0, y0, r, black)
              && MirrorY(y0, w) in CircleWrites(x0, y0, r, black)
              && Transpose(x0, y0, w) in CircleWrites(x0, y0, r, black)
  {
    OctantWritesSymmetric(x0, y0, Visited(r, Start(r)), black);
  }

  // The loop's `i32` arithmetic never overflows.

  predicate InI32(v: int) { -0x8000_0000 <= v < 0x8000_0000 }

  /** The relations the loop keeps between its locals: `dy` and `dx` count
      the steps taken, `err` is `x*x + y*y - r*r`, and `x`, `y` stay between
      -1 and `r`. */
  ghost predicate Reachable(r: U8, s: Midpoint) {
    s.dy == 2 * s.y + 1
    && s.dx == 2 * (r - 1 - s.x) + 1
    && s.err == s.x * s.x + s.y * s.y - r * r
    && 0 <= s.y <= r && -1 <= s.x <= r - 1
  }

  ghost predicate FitsI32(x0: U8, y0: U8, r: U8, s: Midpoint) {
    InI32(s.x) && InI32(s.y) && InI32(s.dx) && InI32(s.dy) && InI32(s.err)
    && InI32(x0 + s.x) && InI32(x0 - s.x) && InI32(x0 + s.y) && InI32(x0 - s.y)
    && InI32(y0 + s.x) && InI32(y0 - s.x) && InI32(y0 + s.y) && InI32(y0 - s.y)
    && InI32(2 * r) && InI32(s.dx + 2 - 2 * r)
  }

  lemma StartReachable(r: U8)
    ensures Reachable(r, Start(r))
  {
    assert (r - 1) * (r - 1) == r * r - 2 * r + 1;
  }

  lemma SquareBound(v: int)
    requires -1 <= v <= 255
    ensures 0 <= v * v <= 65025
  {
    if v >= 0 {
      assert v * v <= 255 * v;
    }
  }

  /** Every reachable state, and every value the source computes from it,
      fits an `i32`. */
  lemma ReachableFitsI32(x0: U8, y0: U8, r: U8, s: Midpoint)
    requires Reachable(r, s)
    ensures FitsI32(x0, y0, r, s)
  {
    SquareBound(s.x);
    SquareBound(s.y);
    SquareBound(r);
  }

  /** A pass keeps the loop's relations, and the state between its two
      updates keeps them too. */
  lemma StepReachable(r: U8, s: Midpoint)
    requires Reachable(r, s) && s.x >= s.y
    ensures s.err <= 0 ==> Reachable(r, AdvanceY(s))
    ensures Reachable(r, Step(r, s))
  {
    var s1 := if s.err <= 0 then AdvanceY(s) else s;
    assert (s.y + 1) * (s.y + 1) == s.y * s.y + 2 * s.y + 1;
    assert Reachable(r, s1);
    assert (s1.x - 1) * (s1.x - 1) == s1.x * s1.x - 2 * s1.x + 1;
  }

  /** The state after `n` passes. */
  function Iterate(r: U8, n: nat): (s: Midpoint) {
    if n == 0 then Start(r) else Step(r, Iterate(r, n - 1))
  }

  /** The loop ran `n` passes: `x >= y` held before each of them. */
  ghost predicate Running(r: U8, n: nat) {
    n == 0 || (Running(r, n - 1) && Iterate(r, n - 1).x >= Iterate(r, n - 1).y)
  }

  lemma {:induction false} RunningReachable(r: U8, n: nat)
    requires Running(r, n)
    ensures Reachable(r, Iterate(r, n))
  {
    if n == 0 {
      StartReachable(r);
    } else {
      RunningReachable(r, n - 1);
      StepReachable(r, Iterate(r, n - 1));
    }
  }

  /** No `i32` computed by the loop overflows: neither the locals after any
      number of passes, nor the sums and differences the pass forms from
      them, nor the locals between a pass's two updates. */
  lemma RunningFitsI32(x0: U8, y0: U8, r: U8, n: nat)
    requires Running(r, n)
    ensures FitsI32(x0, y0, r, Iterate(r, n))
    ensures var s := Iterate(r, n);
            s.x >= s.y && s.err <= 0 ==> FitsI32(x0, y0, r, AdvanceY(s))
  {
    var s := Iterate(r, n);
    RunningReachable(r, n);
    ReachableFitsI32(x0, y0, r, s);
    if s.x >= s.y && s.err <= 0 {
      StepReachable(r, s);
      ReachableFitsI32(x0, y0, r, AdvanceY(s));
    }
  }

  /** One pass of the loop, on the ghost side: the pass's eight writes are
      the next ones the circle issues, and the rest follow from the next
      state. */
  lemma CirclePass(x0: U8, y0: U8, r: U8, s: Midpoint, done: seq<PixelWrite>, black: bool)
    requires s.x >= s.y
    requires done + OctantWrites(x0, y0, Visited(r, s), black) == CircleWrites(x0, y0, r, black)
    ensures done + Octants(x0, y0, s.x, s.y, black)
              + OctantWrites(x0, y0, Visited(r, Step(r, s)), black) == CircleWrites(x0, y0, r, black)
  {
    OctantWritesStep(x0, y0, r, s, black);
    Regroup(done, Octants(x0, y0, s.x, s.y, black), OctantWrites(x0, y0, Visited(r, Step(r, s)), black));
  }

  /** The writes of the first `n` passes of the loop. */
  function CirclePrefix(x0: U8, y0: U8, r: U8, n: nat, black: bool): (ws: seq<PixelWrite>) {
    if n == 0 then []
    else
      var s := Iterate(r, n - 1);
      CirclePrefix(x0, y0, r, n - 1, black) + Octants(x0, y0, s.x, s.y, black)
  }

  /** Every pass before the `n`-th started with `x >= y`. */
  lemma {:induction false} RunningBefore(r: U8, n: nat, k: nat)
    requires Running(r, n) && k < n
    ensures Iterate(r, k).x >= Iterate(r, k).y
  {
    if k < n - 1 {
      RunningBefore(r, n - 1, k);
    }
  }

  /** After `k` of `n` passes, the writes so far followed by those of the
      passes still to come from `Iterate(r, k)` are the whole circle. */
  lemma {:induction false} CirclePrefixRest(x0: U8, y0: U8, r: U8, n: nat, k: nat, black: bool)
    requires Running(r, n) && k <= n
    ensures CirclePrefix(x0, y0, r, k, black) + OctantWrites(x0, y0, Visited(r, Iterate(r, k)), black)
            == CircleWrites(x0, y0, r, black)
    decreases k
  {
    if k == 0 {
      assert CirclePrefix(x0, y0, r, 0, black) == [];
    } else {
      CirclePrefixRest(x0, y0, r, n, k - 1, black);
      RunningBefore(r, n, k - 1);
      CirclePass(x0, y0, r, Iterate(r, k - 1), CirclePrefix(x0, y0, r, k - 1, black), black);
    }
  }

  /** When the loop stops after `n` passes, it has issued exactly the
      circle's writes. */
  lemma CirclePrefixComplete(x0: U8, y0: U8, r: U8, n: nat, black: bool)
    requires Running(r, n) && Iterate(r, n).x < Iterate(r, n).y
    ensures CirclePrefix(x0, y0, r, n, black) == CircleWrites(x0, y0, r, black)
  {
    CirclePrefixRest(x0, y0, r, n, n, black);
    VisitedDone(r, Iterate(r, n));
    assert OctantWrites(x0, y0, [], black) == [];
  }

  /** Before the first pass the loop has run no passes, its locals are
      `Start(r)` and it has written nothing. */
  lemma CircleLoopEntry(f: Frame, pos: Layout, x0: U8, y0: U8, r: U8, black: bool)
    requires IsFrame(f) && ValidLayout(pos)
    ensures Running(r, 0) && Iterate(r, 0) == Midpoint(r - 1, 0, 1, 1, 1 - 2 * r)
    ensures Plot(f, pos, CirclePrefix(x0, y0, r, 0, black)) == f
  {
  }

  /** One pass of the loop from `Iterate(r, n)` with `x >= y`: the loop has
      now run `n + 1` passes, its locals are `Step` of the old ones, and the
      frame has received the pass's eight writes after the earlier ones. */
  lemma CircleLoopStep(f: Frame, pos: Layout, x0: U8, y0: U8, r: U8, n: nat, black: bool)
    requires IsFrame(f) && ValidLayout(pos)
    requires Running(r, n) && Iterate(r, n).x >= Iterate(r, n).y
    ensures Running(r, n + 1)
    ensures Iterate(r, n + 1) == Step(r, Iterate(r, n))
    ensures Plot(f, pos, CirclePrefix(x0, y0, r, n + 1, black))
            == Plot(Plot(f, pos, CirclePrefix(x0, y0, r, n, black)), pos,
                    Octants(x0, y0, Iterate(r, n).x, Iterate(r, n).y, black))
  {
    var s := Iterate(r, n);
    PlotConcat(f, pos, CirclePrefix(x0, y0, r, n, black), Octants(x0, y0, s.x, s.y, black));
  }
}
