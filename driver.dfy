/** The `Ls010b7dh01` driver object: its framebuffer, updated in place, and
    the trace of what it does on its two output pins and its SPI bus. */
module Driver {
  import opened Bits
  import opened Framebuffer
  import opened Drawing
  import opened Transport

  class Ls010b7dh01 {
    /** `buffer_position::get_position`, whose body is not part of this
        model; the constructor's caller vouches for `ValidLayout`. */
    const position: Layout

    /** `buffer: [[u8; 16]; 128]`, row after row. */
    const buffer: array<Byte>

    /** Every level set on chip-select or display-enable and every SPI
        write, in the order the driver issued them. */
    ghost var trace: seq<Event>

    ghost predicate Valid() {
      buffer.Length == FrameSize && ValidLayout(position)
    }

    /** The framebuffer as a value. */
    ghost function Contents(): (f: Frame)
      reads buffer
      requires Valid()
      ensures IsFrame(f)
    {
      buffer[..]
    }

    /** `new`: display-enable low, then chip-select low, and an all-zero
        (all black) buffer. */
    constructor (position: Layout)
      requires ValidLayout(position)
      ensures Valid() && fresh(buffer)
      ensures Contents() == Filled(0x00)
      ensures trace == [DispLow, CsLow]
    {
      this.position := position;
      buffer := new Byte[FrameSize](_ => 0x00);
      trace := [DispLow];
      trace := trace + [CsLow];
    }

    /** `enable`: display-enable high. */
    method Enable()
      modifies this`trace
      ensures trace == old(trace) + [DispHigh]
    {
      trace := trace + [DispHigh];
    }

    /** `disable`: display-enable low. */
    method Disable()
      modifies this`trace
      ensures trace == old(trace) + [DispLow]
    {
      trace := trace + [DispLow];
    }

    /** `write_pixel`: a silent no-op outside the grid; otherwise black
        clears and white sets the pixel's bit, in place. */
    method WritePixel(x: U8, y: U8, black: bool)
      requires Valid()
      modifies buffer
      ensures Contents() == Framebuffer.WritePixel(old(Contents()), position, x, y, black)
    {
      if x >= Columns || y >= Rows {
        return;
      }
      var p := position(x);
      var i := Offset(y, p.bucket);
      buffer[i] := Paint(buffer[i], p.bit, black);
    }

    /** `write_checkerboard`: black at every pixel whose column and row have
        the same parity, the others untouched. */
    method WriteCheckerboard()
      requires Valid()
      modifies buffer
      ensures Contents() == Plot(old(Contents()), position, CheckerboardWrites())
    {
      ghost var start := Contents();
      for i := 0 to Rows
        invariant Contents() == Plot(start, position, CheckerboardRows(i))
      {
        WriteCheckerboardRow(i);
        PlotConcat(start, position, CheckerboardRows(i), CheckerboardRow(i));
      }
    }

    /** One pass of the outer loop of `write_checkerboard`: the 64 black
        pixels of row `i`. */
    method WriteCheckerboardRow(i: U8)
      requires Valid() && i < Rows
      modifies buffer
      ensures Contents() == Plot(old(Contents()), position, CheckerboardRow(i))
    {
      ghost var start := Contents();
      ghost var row := CheckerboardRow(i);
      for j := 0 to 64
        invariant Contents() == Plot(start, position, row[..j])
      {
        PlotStep(start, position, row, j);
        WritePixel(j * 2 + i % 2, i, true);
      }
      assert row[..64] == row;
    }

    /** `draw_rect`: black along the edges `RectHits` describes, nothing
        else changed; a no-op when `x > 128` or `y > 128`. */
    method DrawRect(x: U8, y: U8, width: U8, height: U8)
      requires Valid()
      requires RectNoPanic(x, y, width, height)
      modifies buffer
      ensures Contents() == Plot(old(Contents()), position, RectWrites(x, y, width, height))
      ensures x > 128 || y > 128 ==> Contents() == old(Contents())
      ensures forall a: U8, b: U8 :: a < Columns && b < Rows ==>
                IsBlack(Contents(), position, a, b)
                == (RectHits(x, y, width, height, a, b) || IsBlack(old(Contents()), position, a, b))
    {
      ghost var start := Contents();
      if x > 128 || y > 128 {
        return;
      }
      var xEnd := x + width;
      var yEnd := y + height;
      DrawRectColumns(x, xEnd, y, yEnd);
      ghost var middle := Contents();
      DrawRectRows(y, yEnd, x, xEnd);

      ghost var horizontal := HorizontalEdges(x, Min(xEnd, 129), y, yEnd);
      ghost var vertical := VerticalEdges(y, Min(yEnd, 129), x, xEnd);
      ghost var done := RectWrites(x, y, width, height);
      RectWritesSplit(x, y, width, height);
      PlotConcat(start, position, horizontal, vertical);

      forall a: U8, b: U8 | a < Columns && b < Rows
        ensures IsBlack(Contents(), position, a, b)
                == (RectHits(x, y, width, height, a, b) || IsBlack(start, position, a, b))
      {
        RectWritesHits(x, y, width, height, a, b);
        PlotUniform(start, position, done, true, a, b);
      }
    }

    /** The first loop of `draw_rect`: for each column `i` from `x` while
        `i < x_end`, stopping after column 128, the pixel in row `y` and,
        when `y_end < 128`, the pixel in row `y_end - 1`. */
    method DrawRectColumns(x: U8, xEnd: U8, y: U8, yEnd: U8)
      requires Valid()
      requires x <= 128 && x <= xEnd && (x < xEnd ==> yEnd > 0)
      modifies buffer
      ensures Contents() == Plot(old(Contents()), position, HorizontalEdges(x, Min(xEnd, 129), y, yEnd))
    {
      ghost var start := Contents();
      var i: U8 := x;
      while i < xEnd
        invariant x <= i <= xEnd && i <= 129
        invariant Contents() == Plot(start, position, HorizontalEdges(x, i, y, yEnd))
      {
        if i > 128 {
          break;
        }
        HorizontalEdgesStep(start, position, x, i, y, yEnd);
        DrawRectColumn(i, y, yEnd);
        i := i + 1;
      }
    }

    /** One pass of the first loop of `draw_rect`, at column `i`. */
    method DrawRectColumn(i: U8, y: U8, yEnd: U8)
      requires Valid() && yEnd > 0
      modifies buffer
      ensures Contents() == Plot(old(Contents()), position, HorizontalPair(i, y, yEnd))
    {
      PlotPair(Contents(), position, PixelWrite(i, y, true), PixelWrite(i, yEnd - 1, true), yEnd < Rows);
      WritePixel(i, y, true);
      if yEnd < Rows {
        WritePixel(i, yEnd - 1, true);
      }
    }

    /** The second loop of `draw_rect`: for each row `i` from `y` while
        `i < y_end`, stopping after row 128, the pixel in column `x` and,
        when `x_end < 128`, the pixel in column `x_end - 1`. */
    method DrawRectRows(y: U8, yEnd: U8, x: U8, xEnd: U8)
      requires Valid()
      requires y <= 128 && y <= yEnd && (y < yEnd ==> xEnd > 0)
      modifies buffer
      ensures Contents() == Plot(old(Contents()), position, VerticalEdges(y, Min(yEnd, 129), x, xEnd))
    {
      ghost var start := Contents();
      var i: U8 := y;
      while i < yEnd
        invariant y <= i <= yEnd && i <= 129
        invariant Contents() == Plot(start, position, VerticalEdges(y, i, x, xEnd))
      {
        if i > 128 {
          break;
        }
        VerticalEdgesStep(start, position, y, i, x, xEnd);
        DrawRectRow(i, x, xEnd);
        i := i + 1;
      }
    }

    /** One pass of the second loop of `draw_rect`, at row `i`. */
    method DrawRectRow(i: U8, x: U8, xEnd: U8)
      requires Valid() && xEnd > 0
      modifies buffer
      ensures Contents() == Plot(old(Contents()), position, VerticalPair(i, x, xEnd))
    {
      PlotPair(Contents(), position, PixelWrite(x, i, true), PixelWrite(xEnd - 1, i, true), xEnd < Columns);
      WritePixel(x, i, true);
      if xEnd < Columns {
        WritePixel(xEnd - 1, i, true);
      }
    }

    /** `draw_circle`: the midpoint loop, with its `i32` arithmetic shown
        not to overflow and each coordinate truncated to `u8` before the
        write. Radius 0 changes nothing. */
    method DrawCircle(x0: U8, y0: U8, r: U8, value: bool)
      requires Valid()
      modifies buffer
      ensures Contents() == Plot(old(Contents()), position, CircleWrites(x0, y0, r, value))
    {
      ghost var start := Contents();
      var x: int := r - 1;
      var y: int := 0;
      var dx: int := 1;
      var dy: int := 1;
      var err: int := dx - 2 * r;
      ghost var n: nat := 0;
      CircleLoopEntry(start, position, x0, y0, r, value);

      while x >= y
        invariant Running(r, n) && Midpoint(x, y, dx, dy, err) == Iterate(r, n)
        invariant Contents() == Plot(start, position, CirclePrefix(x0, y0, r, n, value))
        decreases x - y
      {
        x, y, dx, dy, err := DrawCircleStep(x0, y0, r, value, start, n, x, y, dx, dy, err);
        n := n + 1;
      }
      assert Iterate(r, n).x < Iterate(r, n).y;
      CirclePrefixComplete(x0, y0, r, n, value);
    }

    /** One pass of the `draw_circle` loop after `n` passes from frame
        `start`: the eight writes, then the update of the locals. */
    method DrawCircleStep(x0: U8, y0: U8, r: U8, value: bool, ghost start: Frame, ghost n: nat,
                          x: int, y: int, dx: int, dy: int, err: int)
      returns (x1: int, y1: int, dx1: int, dy1: int, err1: int)
      requires Valid() && IsFrame(start)
      requires Running(r, n) && Midpoint(x, y, dx, dy, err) == Iterate(r, n) && x >= y
      requires Contents() == Plot(start, position, CirclePrefix(x0, y0, r, n, value))
      modifies buffer
      ensures Running(r, n + 1) && Midpoint(x1, y1, dx1, dy1, err1) == Iterate(r, n + 1)
      ensures x1 - y1 < x - y
      ensures Contents() == Plot(start, position, CirclePrefix(x0, y0, r, n + 1, value))
    {
      CircleLoopStep(start, position, x0, y0, r, n, value);
      DrawCirclePass(x0, y0, x, y, value);
      x1, y1, dx1, dy1, err1 := MidpointUpdate(r, x, y, dx, dy, err);
    }

    /** The body of the `draw_circle` loop for offsets (`x`, `y`): the eight
        `write_pixel` calls at the reflections of the offset, each
        coordinate computed in `i32` and cast to `u8`. */
    method DrawCirclePass(x0: U8, y0: U8, x: int, y: int, value: bool)
      requires Valid()
      modifies buffer
      ensures Contents() == Plot(old(Contents()), position, Octants(x0, y0, x, y, value))
    {
      PlotOctants(Contents(), position, x0, y0, x, y, value);
      WritePixel(TruncU8(x0 + x), TruncU8(y0 + y), value);
      WritePixel(TruncU8(x0 + y), TruncU8(y0 + x), value);
      WritePixel(TruncU8(x0 - y), TruncU8(y0 + x), value);
      WritePixel(TruncU8(x0 - x), TruncU8(y0 + y), value);
      WritePixel(TruncU8(x0 - x), TruncU8(y0 - y), value);
      WritePixel(TruncU8(x0 - y), TruncU8(y0 - x), value);
      WritePixel(TruncU8(x0 + y), TruncU8(y0 - x), value);
      WritePixel(TruncU8(x0 + x), TruncU8(y0 - y), value);
    }

    /** `flush_buffer`: one chip-select transaction carrying the start byte,
        the 128 row records and the trailer; the buffer is only read. */
    method FlushBuffer()
      requires Valid()
      modifies this`trace
      ensures trace == old(trace) + FlushEvents(Contents())
      ensures Contents() == old(Contents())
    {
      ghost var f := Contents();
      ghost var head := old(trace) + [CsHigh, SpiWrite([FlushStart])];
      trace := trace + [CsHigh];
      trace := trace + [SpiWrite([FlushStart])];

      var record := new Byte[RecordSize](_ => 0x00);
      for i := 0 to Rows
        invariant record[RecordSize - 1] == 0x00
        invariant trace == head + RowWrites(f, i)
      {
        PackRow(record, i);
        Regroup(head, RowWrites(f, i), [SpiWrite(record[..])]);
        trace := trace + [SpiWrite(record[..])];
      }

      trace := trace + [SpiWrite([FlushTrailer])];
      trace := trace + [CsLow];
      assert trace == old(trace) + FlushEvents(f);
    }

    /** One pass of the `flush_buffer` loop before its write: the row
        address `msb2lsb(i + 1)` into byte 0 and row `i` of the buffer into
        bytes 1..16 of the 18-byte `record`, whose last byte stays 0. */
    method PackRow(record: array<Byte>, i: nat)
      requires Valid() && i < Rows
      requires record.Length == RecordSize && record[RecordSize - 1] == 0x00 && record != buffer
      modifies record
      ensures record[..] == RowRecord(Contents(), i)
    {
      record[0] := Msb2Lsb((i + 1) as Byte);
      forall c | 0 <= c < BytesPerRow {
        record[1 + c] := buffer[Offset(i, c)];
      }
      RecordFromFields(record[..], Contents(), i);
    }

    /** `clear`: the hardware-clear command, then every buffer byte 0xFF
        (all white). */
    method Clear()
      requires Valid()
      modifies this`trace, buffer
      ensures trace == old(trace) + Bracketed(ClearCommand)
      ensures Contents() == Filled(0xFF)
    {
      WriteSpi(ClearCommand);
      for line := 0 to Rows
        modifies buffer
        invariant forall k :: 0 <= k < Offset(line, 0) ==> buffer[k] == 0xFF
      {
        for elem := 0 to BytesPerRow
          modifies buffer
          invariant forall k :: 0 <= k < Offset(line, elem) ==> buffer[k] == 0xFF
        {
          buffer[Offset(line, elem)] := 0xFF;
        }
      }
      assert Contents() == Filled(0xFF);
    }

    /** `display_mode`: the no-update command; the buffer is not touched. */
    method DisplayMode()
      modifies this`trace
      ensures trace == old(trace) + Bracketed(DisplayModeCommand)
    {
      WriteSpi(DisplayModeCommand);
    }

    /** `write_spi`: chip-select high, one write whose result is discarded,
        chip-select low. */
    method WriteSpi(data: seq<Byte>)
      modifies this`trace
      ensures trace == old(trace) + Bracketed(data)
    {
      trace := trace + [CsHigh];
      trace := trace + [SpiWrite(data)];
      trace := trace + [CsLow];
    }
  }
}
