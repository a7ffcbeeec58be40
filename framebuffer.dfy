/** The pixel buffer of the 128x128 one-bit panel as a value.

    The driver's `buffer: [[u8; 16]; 128]` is 128 rows of 16 bytes; Rust
    lays such a nested array out row by row, so it is modelled here as one
    sequence of 2048 bytes in which byte `b` of row `y` sits at `16 * y + b`.
    A clear bit is a black pixel and a set bit a white one. */
module Framebuffer {
  import opened Bits

  const Rows: nat := 128
  const Columns: nat := 128
  const BytesPerRow: nat := 16
  const FrameSize: nat := 2048

  type Frame = seq<Byte>

  predicate IsFrame(f: Frame) { |f| == FrameSize }

  /** Where `buffer_position::get_position` puts column `x`: bit `bit` of
      byte `bucket` of the row. */
  datatype Position = Position(bit: Byte, bucket: nat)

  /** The type of `get_position`, whose body is not part of this model. */
  type Layout = U8 -> Position

  /** What the driver relies on of `get_position`: every column 0..127 lands
      on a bit 0..7 of a byte 0..15 (otherwise the shift and the index of
      `write_pixel` would panic), and no two columns share a bit. */
  ghost predicate ValidLayout(pos: Layout) {
    (forall x: U8 :: x < Columns ==> pos(x).bit < 8 && pos(x).bucket < BytesPerRow)
    && (forall x1: U8, x2: U8 :: x1 < Columns && x2 < Columns && x1 != x2 ==> pos(x1) != pos(x2))
  }

  /** Index of byte `bucket` of row `row` in the flat frame. */
  function Offset(row: nat, bucket: nat): (i: nat) {
    row * BytesPerRow + bucket
  }

  /** The byte `b` with bit `k` cleared (black) or set (white). */
  function Paint(b: Byte, k: Byte, black: bool): (p: Byte)
    requires k < 8
  {
    if black then b & !Mask(k) else b | Mask(k)
  }

  /** `write_pixel(x, y, black)`: nothing happens outside the 128x128 grid;
      inside it, black clears the pixel's bit and white sets it. */
  function WritePixel(f: Frame, pos: Layout, x: U8, y: U8, black: bool): (r: Frame)
    requires IsFrame(f) && ValidLayout(pos)
    ensures IsFrame(r)
  {
    if x >= Columns || y >= Rows then f
    else
      var p := pos(x);
      var i := Offset(y, p.bucket);
      f[i := Paint(f[i], p.bit, black)]
  }

  /** The pixel at column `x`, row `y` is black (its bit is clear). */
  ghost predicate IsBlack(f: Frame, pos: Layout, x: U8, y: U8)
    requires IsFrame(f) && ValidLayout(pos) && x < Columns && y < Rows
  {
    !BitSet(f[Offset(y, pos(x).bucket)], pos(x).bit)
  }

  /** Out-of-range coordinates leave every byte unchanged. */
  lemma WritePixelOutOfRange(f: Frame, pos: Layout, x: U8, y: U8, black: bool)
    requires IsFrame(f) && ValidLayout(pos)
    requires x >= Columns || y >= Rows
    ensures WritePixel(f, pos, x, y, black) == f
  {
  }

  /** In range, the write clears (black) or sets (white) exactly bit
      `pos(x).bit` of byte `pos(x).bucket` of row `y`; the other seven bits of
      that byte and every other byte keep their values. */
  lemma WritePixelByte(f: Frame, pos: Layout, x: U8, y: U8, black: bool)
    requires IsFrame(f) && ValidLayout(pos)
    requires x < Columns && y < Rows
    ensures var r := WritePixel(f, pos, x, y, black);
            var p := pos(x);
            var i := Offset(y, p.bucket);
            i < FrameSize
            && (BitSet(r[i], p.bit) <==> !black)
            && (forall k: Byte :: k < 8 && k != p.bit ==> (BitSet(r[i], k) <==> BitSet(f[i], k)))
            && (forall j :: 0 <= j < FrameSize && j != i ==> r[j] == f[j])
  {
    var p := pos(x);
    var i := Offset(y, p.bucket);
    var r := WritePixel(f, pos, x, y, black);
    var m := Mask(p.bit);
    MaskBits(p.bit);
    forall k: Byte | k < 8
      ensures BitSet(r[i], k) <==> (if k == p.bit then !black else BitSet(f[i], k))
    {
      if black {
        BitOfAndNot(f[i], m, k);
      } else {
        BitOfOr(f[i], m, k);
      }
    }
  }

  lemma BitOfAndNot(b: Byte, m: Byte, k: Byte)
    requires k < 8
    ensures BitSet(b & !m, k) <==> BitSet(b, k) && !BitSet(m, k)
  {
  }

  lemma BitOfOr(b: Byte, m: Byte, k: Byte)
    requires k < 8
    ensures BitSet(b | m, k) <==> BitSet(b, k) || BitSet(m, k)
  {
  }

  /** Pixel view of a write: the written pixel reads back as the written
      colour and every other pixel keeps its colour. */
  lemma WritePixelPixels(f: Frame, pos: Layout, x: U8, y: U8, black: bool, a: U8, b: U8)
    requires IsFrame(f) && ValidLayout(pos)
    requires a < Columns && b < Rows
    ensures IsBlack(WritePixel(f, pos, x, y, black), pos, a, b)
            == if a == x && b == y then black else IsBlack(f, pos, a, b)
  {
    if x < Columns && y < Rows {
      WritePixelByte(f, pos, x, y, black);
      var i := Offset(y, pos(x).bucket);
      var j := Offset(b, pos(a).bucket);
      if j == i && pos(a).bit == pos(x).bit {
        assert b == y;
        assert pos(a) == pos(x);
      }
    }
  }

  /** One call of `write_pixel`, as the drawing loops issue it. */
  datatype PixelWrite = PixelWrite(x: U8, y: U8, black: bool)

  /** The frame after the writes `ws`, applied in order. */
  function Plot(f: Frame, pos: Layout, ws: seq<PixelWrite>): (r: Frame)
    requires IsFrame(f) && ValidLayout(pos)
    ensures IsFrame(r)
    decreases |ws|
  {
    if ws == [] then f
    else
      var w := ws[|ws| - 1];
      WritePixel(Plot(f, pos, ws[..|ws| - 1]), pos, w.x, w.y, w.black)
  }

  /** Some write in `ws` addresses pixel (`a`, `b`). */
  ghost predicate Hits(ws: seq<PixelWrite>, a: U8, b: U8) {
    exists k :: 0 <= k < |ws| && ws[k].x == a && ws[k].y == b
  }

  /** Every write in `ws` uses the colour `black`. */
  ghost predicate AllOfColour(ws: seq<PixelWrite>, black: bool) {
    forall k :: 0 <= k < |ws| ==> ws[k].black == black
  }

  lemma PlotAppend(f: Frame, pos: Layout, ws: seq<PixelWrite>, w: PixelWrite)
    requires IsFrame(f) && ValidLayout(pos)
    ensures Plot(f, pos, ws + [w]) == WritePixel(Plot(f, pos, ws), pos, w.x, w.y, w.black)
  {
    assert (ws + [w])[..|ws|] == ws;
  }

  /** Applying the first `k + 1` writes of `ws` is applying the first `k`
      and then write `k`. */
  lemma PlotStep(f: Frame, pos: Layout, ws: seq<PixelWrite>, k: nat)
    requires IsFrame(f) && ValidLayout(pos) && k < |ws|
    ensures Plot(f, pos, ws[..k + 1]) == WritePixel(Plot(f, pos, ws[..k]), pos, ws[k].x, ws[k].y, ws[k].black)
  {
    assert ws[..k + 1][..k] == ws[..k];
  }

  lemma PlotTwo(f: Frame, pos: Layout, ws: seq<PixelWrite>)
    requires IsFrame(f) && ValidLayout(pos) && |ws| == 2
    ensures Plot(f, pos, ws)
            == WritePixel(WritePixel(f, pos, ws[0].x, ws[0].y, ws[0].black), pos, ws[1].x, ws[1].y, ws[1].black)
  {
    var first := ws[..1];
    assert first[..0] == [] && first[0] == ws[0];
    assert Plot(f, pos, first) == WritePixel(f, pos, ws[0].x, ws[0].y, ws[0].black);
  }

  /** Concatenation of sequences is associative. */
  lemma Regroup<T>(a: seq<T>, b: seq<T>, c: seq<T>)
    ensures a + (b + c) == a + b + c
  {
  }

  /** Applying `a` then `b` is applying `a + b`. */
  lemma {:induction false} PlotConcat(f: Frame, pos: Layout, a: seq<PixelWrite>, b: seq<PixelWrite>)
    requires IsFrame(f) && ValidLayout(pos)
    ensures Plot(f, pos, a + b) == Plot(Plot(f, pos, a), pos, b)
    decreases |b|
  {
    if b == [] {
      assert a + b == a;
    } else {
      var init := b[..|b| - 1];
      var w := b[|b| - 1];
      assert b == init + [w];
      assert a + b == (a + init) + [w];
      PlotConcat(f, pos, a, init);
      PlotAppend(f, pos, a + init, w);
      PlotAppend(Plot(f, pos, a), pos, init, w);
    }
  }

  /** Writes that all use one colour: a pixel some write addresses ends in that
      colour, and a pixel none addresses keeps its colour. */
  lemma {:induction false} PlotUniform(f: Frame, pos: Layout, ws: seq<PixelWrite>, black: bool, a: U8, b: U8)
    requires IsFrame(f) && ValidLayout(pos)
    requires AllOfColour(ws, black)
    requires a < Columns && b < Rows
    ensures IsBlack(Plot(f, pos, ws), pos, a, b) == if Hits(ws, a, b) then black else IsBlack(f, pos, a, b)
    decreases |ws|
  {
    if ws != [] {
      var init := ws[..|ws| - 1];
      var w := ws[|ws| - 1];
      PlotUniform(f, pos, init, black, a, b);
      WritePixelPixels(Plot(f, pos, init), pos, w.x, w.y, w.black, a, b);
      if Hits(init, a, b) {
        var k :| 0 <= k < |init| && init[k].x == a && init[k].y == b;
        assert ws[k] == init[k];
      }
      if Hits(ws, a, b) && !(w.x == a && w.y == b) {
        var k :| 0 <= k < |ws| && ws[k].x == a && ws[k].y == b;
        assert init[k] == ws[k];
      }
    }
  }

  /** The frame with every byte equal to `b`. */
  function Filled(b: Byte): (f: Frame)
    ensures IsFrame(f)
  {
    seq(FrameSize, _ => b)
  }

  /** An all-zero frame is all black and an all-0xFF frame is all white. */
  lemma FilledColours(pos: Layout, a: U8, b: U8)
    requires ValidLayout(pos) && a < Columns && b < Rows
    ensures IsBlack(Filled(0x00), pos, a, b)
    ensures !IsBlack(Filled(0xFF), pos, a, b)
  {
  }
}
