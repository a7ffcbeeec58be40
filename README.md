# Ls010b7dh01 memory-LCD driver, modelled in Dafny

The driver in `src/lib.rs` is the framebuffer and command layer for a Sharp
LS010B7DH01, a 128x128 one-bit memory LCD on an SPI bus. It keeps a
`[[u8; 16]; 128]` framebuffer and draws into it with `write_pixel` (a clear
bit is black, a set bit white). It also has three drawing loops: a
checkerboard, a rectangle outline and an integer midpoint circle. It talks
to the panel with three byte-exact commands (flush, clear, display mode),
each inside a chip-select transaction. Construction, `enable` and `disable`
drive the display-enable and chip-select pins.

The model has five modules:

- `Bits` (`bits.dfy`) defines `u8` as a number (`U8`) and as a bit pattern
  (`Byte = bv8`), the `as u8` truncation of an `i32` (`TruncU8`), and the
  row-address bit reversal `msb2lsb` (`Msb2Lsb`).
- `Framebuffer` (`framebuffer.dfy`) treats the buffer as a value: a flat
  sequence of 2048 bytes, row after row, which is how Rust lays out the
  nested array. It defines `WritePixel` on such a frame and `Plot`, a
  sequence of pixel writes applied in order. Pixel colours are read back
  with `IsBlack`.
- `Drawing` (`drawing.dfy`) defines each drawing primitive as the exact
  sequence of `write_pixel` calls it issues (`CheckerboardWrites`,
  `RectWrites`, `CircleWrites`). It then proves what those sequences do to
  the pixels. It also proves the circle loop's termination, its symmetry and
  that its `i32` arithmetic never overflows.
- `Transport` (`transport.dfy`) records the pin levels and SPI writes as a
  trace of `Event`s. It defines the bytes a trace puts on the wire, and the
  trace of a flush.
- `Driver` (`driver.dfy`) is the class `Ls010b7dh01`. The buffer is an
  `array<Byte>` updated in place and the trace is a ghost field. Every method
  of the source is an imperative method with the source's loops. Each is
  proved to leave the buffer as `Plot` of the matching write sequence, or to
  append exactly the matching events to the trace.

`buffer_position::get_position` has no body in this model. It is the
class's `position` function, and the constructor requires `ValidLayout`: every
column 0..127 maps to a bit below 8 of a byte below 16, and no two columns
share a bit. `reverse_bits::msb2lsb` is defined as 8-bit reversal. That is
the behaviour the panel's row addressing needs, and it is an assumption.

Each flushed row is an 18-byte array whose last byte is never assigned
(src/lib.rs:188-192), so it stays 0x00. A flush therefore carries
1 + 128 x 18 + 1 = 2306 bytes, and row `i`'s address byte is at offset
`1 + 18 i`.

## Model

| member | source | states |
|---|---|---|
| Driver.Ls010b7dh01.constructor | src/lib.rs:52-64 | the trace is exactly `[DispLow, CsLow]`, and all 2048 buffer bytes are 0x00 (all black) |
| Driver.Ls010b7dh01.Enable | src/lib.rs:67-69 | appends `DispHigh` to the trace and changes nothing else |
| Driver.Ls010b7dh01.Disable | src/lib.rs:72-74 | appends `DispLow` to the trace and changes nothing else |
| Driver.Ls010b7dh01.WritePixel | src/lib.rs:80-94 | the buffer afterwards is `Framebuffer.WritePixel` of the buffer before, in place |
| Framebuffer.WritePixelOutOfRange | src/lib.rs:80-83 | with `x >= 128` or `y >= 128`, every byte is unchanged |
| Framebuffer.WritePixelByte | src/lib.rs:85-93 | in range, bit `bit` of byte `bucket` of row `y` is cleared for black and set for white; the other 7 bits of that byte and all other bytes are unchanged |
| Framebuffer.WritePixelPixels | src/lib.rs:85-93 | pixel view of one write (this needs an injective `get_position`): the addressed pixel reads back as the written colour, and every other pixel keeps its colour |
| Framebuffer.PlotUniform | src/lib.rs:80-94 | after writes that all use one colour, a pixel some write addresses has that colour, and any other pixel keeps its colour |
| Framebuffer.PlotConcat | src/lib.rs:80-94 | applying writes `a` and then `b` is the same as applying `a + b` |
| Framebuffer.FilledColours | src/lib.rs:56 | an all-0x00 frame is all black, and an all-0xFF frame is all white |
| Driver.Ls010b7dh01.WriteCheckerboard | src/lib.rs:98-104 | the buffer becomes `Plot` of the 128 x 64 writes in loop order |
| Driver.Ls010b7dh01.WriteCheckerboardRow | src/lib.rs:100-102 | one outer pass: the buffer becomes `Plot` of row `i`'s 64 writes at columns `2j + i % 2` |
| Drawing.CheckerboardRowHits | src/lib.rs:100-102 | row `i`'s writes are all black, and they address exactly the pixels of row `i` whose column has `i`'s parity |
| Drawing.CheckerboardRowsHits | src/lib.rs:98-104 | the first `n` rows write only black, and address exactly the pixels with `b < n` and `a % 2 == b % 2` |
| Drawing.CheckerboardPixels | src/lib.rs:98-104 | after the checkerboard, a pixel with `x % 2 == y % 2` is black, and any other pixel keeps its previous colour |
| Driver.Ls010b7dh01.DrawRect | src/lib.rs:109-138 | the buffer becomes `Plot` of `RectWrites`; with `x > 128` or `y > 128` nothing changes; each pixel is black afterwards exactly if `RectHits` holds for it or it was black before |
| Driver.Ls010b7dh01.DrawRectColumns | src/lib.rs:117-126 | the first loop, including its `break` after column 128: the buffer becomes `Plot` of the passes for columns `x .. min(x_end, 129)` |
| Driver.Ls010b7dh01.DrawRectColumn | src/lib.rs:122-125 | one pass: the write at row `y`, then the write at row `y_end - 1` when `y_end < 128` |
| Driver.Ls010b7dh01.DrawRectRows | src/lib.rs:128-137 | the second loop: the buffer becomes `Plot` of the passes for rows `y .. min(y_end, 129)` |
| Driver.Ls010b7dh01.DrawRectRow | src/lib.rs:133-136 | one pass: the write at column `x`, then the write at column `x_end - 1` when `x_end < 128` |
| Drawing.HorizontalEdgesHits | src/lib.rs:117-126 | the first loop's writes are all black, and they address exactly row `y`, and row `y_end - 1` when `y_end < 128`, over the columns it visits |
| Drawing.VerticalEdgesHits | src/lib.rs:128-137 | the second loop's writes are all black, and they address exactly column `x`, and column `x_end - 1` when `x_end < 128`, over the rows it visits |
| Drawing.RectColumnsHits | src/lib.rs:114-126 | for in-range pixels, the first loop's writes hit exactly the top edge and the in-grid bottom edge over columns `x .. x + width - 1` |
| Drawing.RectRowsHits | src/lib.rs:114-137 | for in-range pixels, the second loop's writes hit exactly the left edge and the in-grid right edge over rows `y .. y + height - 1` |
| Drawing.RectWritesHits | src/lib.rs:109-138 | `draw_rect` only writes black, and the in-range pixels it writes are exactly those on row `y`, row `y + height - 1`, column `x` or column `x + width - 1` that `RectHits` describes |
| Drawing.RectPerimeter | src/lib.rs:114-137 | when both far edges are inside the grid, the pixels drawn are exactly the rectangle's perimeter |
| Drawing.RectAtBoundaryDrawsNothing | src/lib.rs:110-112 | the guard is `> 128`, but `x == 128` or `y == 128` still addresses no in-range pixel |
| Drawing.RectFullScreen | src/lib.rs:123-134 | because the far-edge tests are `< 128`, `draw_rect(0, 0, 128, 128)` draws only row 0 and column 0 |
| Drawing.Step | src/lib.rs:166-176 | each pass moves `y` up by 0 or 1 and `x` down by 0 or 1, and at least one of them moves, so `x - y` strictly decreases and the loop ends |
| Drawing.MidpointUpdate | src/lib.rs:166-176 | the two `if` updates of the five `i32` locals compute `Step` |
| Driver.Ls010b7dh01.DrawCircle | src/lib.rs:144-178 | the buffer becomes `Plot` of `CircleWrites`: the passes from `Start(r)` until `x < y`, eight writes each |
| Driver.Ls010b7dh01.DrawCircleStep | src/lib.rs:155-177 | one loop pass: the locals advance from `Iterate(r, n)` to `Iterate(r, n + 1)`, `x - y` decreases, and the pass's eight writes follow the earlier ones |
| Driver.Ls010b7dh01.DrawCirclePass | src/lib.rs:156-164 | the eight writes of a pass, in the source's order, each coordinate an `i32` sum cast with `as u8` |
| Drawing.PlotOctants | src/lib.rs:156-164 | applying a pass's write sequence is the same as the eight `write_pixel` calls one after another |
| Drawing.CirclePrefixComplete | src/lib.rs:155-177 | when the loop stops after `n` passes, the writes issued so far are all of `CircleWrites` |
| Drawing.CircleLoopStep | src/lib.rs:155-177 | a pass from a running state with `x >= y` extends the run, and adds its eight writes after the earlier ones |
| Drawing.CircleLoopEntry | src/lib.rs:149-153 | before the loop, no pass has run, the locals are `x = r - 1, y = 0, dx = 1, dy = 1, err = 1 - 2r`, and nothing is written |
| Drawing.OctantWritesStep | src/lib.rs:155-177 | from a state with `x >= y`, the circle's remaining writes are this pass's eight writes followed by the writes from `Step` |
| Drawing.VisitedBounds | src/lib.rs:149-177 | the loop runs at most `r` passes, and every offset visited has `0 <= y <= x <= r - 1` |
| Drawing.CircleZeroRadius | src/lib.rs:149-155 | with `r = 0` the loop body never runs, so nothing is written |
| Drawing.OctantWritesColour | src/lib.rs:156-164 | every write of the circle uses the given `value` |
| Drawing.CirclePixels | src/lib.rs:144-178 | afterwards, each pixel some circle write addresses has colour `value`, every other pixel keeps its colour, and `r = 0` leaves the frame unchanged |
| Drawing.OctantsAt | src/lib.rs:156-164 | write `k` of a pass is at `((x0 + dx) mod 256, (y0 + dy) mod 256)` for offset `k` of `(x,y), (y,x), (-y,x), (-x,y), (-x,-y), (-y,-x), (y,-x), (x,-y)` |
| Drawing.MirrorXAt | src/lib.rs:156-164 | reflecting a write through the centre's column gives the write at the negated x-offset, even after `u8` wrap-around |
| Drawing.MirrorYAt | src/lib.rs:156-164 | reflecting through the centre's row gives the write at the negated y-offset, even after wrap-around |
| Drawing.TransposeAt | src/lib.rs:156-164 | reflecting through the diagonal gives the write with the two offsets exchanged, even after wrap-around |
| Drawing.OctantsSymmetric | src/lib.rs:156-164 | the eight writes of a pass are closed under the three reflections |
| Drawing.CircleSymmetric | src/lib.rs:144-178 | the circle's set of writes is closed under reflection through the centre's column, row and diagonal |
| Drawing.StartReachable | src/lib.rs:149-153 | the initial locals satisfy the loop relations: `dy = 2y + 1`, `dx = 2(r - 1 - x) + 1`, `err = x^2 + y^2 - r^2` |
| Drawing.StepReachable | src/lib.rs:166-176 | a pass, and the state between its two updates, keep those relations |
| Drawing.ReachableFitsI32 | src/lib.rs:145-176 | in a state with those relations, every local and every sum or difference the source forms fits an `i32` |
| Drawing.RunningFitsI32 | src/lib.rs:145-176 | no `i32` computed in any pass of the loop overflows, including between the two updates |
| Driver.Ls010b7dh01.FlushBuffer | src/lib.rs:181-199 | the buffer is unchanged, and the trace gains exactly `FlushEvents`: `CsHigh`, `[0x80]`, the 128 row records in ascending order, `[0x00]`, `CsLow` |
| Driver.Ls010b7dh01.PackRow | src/lib.rs:189-191 | the 18-byte local array holds `msb2lsb(i + 1)`, row `i`'s 16 bytes in stored order, and a final 0x00 that is never assigned |
| Transport.RowWritesWire | src/lib.rs:189-193 | the row loop issues `n` writes, and record `i` occupies wire bytes `18i .. 18i + 17` of its part |
| Transport.FlushWire | src/lib.rs:181-199 | a flush puts 2306 bytes on the wire: 0x80 first, 0x00 last, and at `1 + 18i` the address `msb2lsb(i + 1)`, row `i`'s bytes and 0x00 |
| Transport.FlushShape | src/lib.rs:181-199 | a flush is one chip-select transaction of 132 events carrying 130 SPI writes |
| Transport.RecordFromFields | src/lib.rs:188-192 | an 18-byte array with row `i`'s address byte, its 16 bytes and a final zero is row `i`'s record |
| Driver.Ls010b7dh01.Clear | src/lib.rs:202-210 | the trace gains `[CsHigh, SpiWrite([0x20, 0x00]), CsLow]`, then every buffer byte is 0xFF (all white) |
| Driver.Ls010b7dh01.DisplayMode | src/lib.rs:213-215 | the trace gains `[CsHigh, SpiWrite([0x00, 0x00]), CsLow]`, and the buffer is not touched |
| Driver.Ls010b7dh01.WriteSpi | src/lib.rs:218-224 | the trace gains chip-select high, exactly one write of `data`, chip-select low |
| Transport.BracketedShape | src/lib.rs:218-224 | `write_spi` is one transaction that puts exactly `data` on the wire in one write |
| Bits.Msb2LsbBits | src/lib.rs:190 | bit `k` of the reversed row address is bit `7 - k` of the row number |
| Bits.Msb2LsbInvolution | src/lib.rs:190 | reversing twice gives the byte back |
| Bits.Msb2LsbInjective | src/lib.rs:189-192 | distinct row numbers get distinct address bytes, so no two records address the same panel line |
| Bits.Msb2LsbSpotValues | src/lib.rs:190 | row 1 is addressed as 0x80 and row 128 as 0x01 |
| Bits.TruncU8 | src/lib.rs:156-164 | `as u8` of an `i32` keeps values in 0..255, and adds 256 to values in -256..-1 |

## Left out

- The `Drawing` trait implementation (src/lib.rs:26-40) is not modelled. It
  only forwards embedded-graphics pixels, whose types are not part of this
  model, to `write_pixel`. `Plot` over a sequence of `PixelWrite`s is the
  same composition.
- The `MODE` SPI configuration constant (src/lib.rs:14-17) is bus set-up and
  has no behaviour to model.
- The hardware behaviour of SPI writes and GPIO pins is recorded only as
  trace events. Bus errors are not modelled: the driver discards each
  write's result with `let _ =`, so every write is taken to succeed.
- `buffer_position::get_position` is not part of this model. It is the
  class's `position` parameter, and `ValidLayout` (bit below 8, byte below
  16, injective on columns 0..127) is assumed of it rather than proved.
- `reverse_bits::msb2lsb` is not part of this model. `Msb2Lsb` assumes it is
  8-bit reversal.
- Driver.Ls010b7dh01.DrawRect: requires `RectNoPanic`. In a debug build,
  `x + width`, `y + height`, `y_end - 1` and `x_end - 1` panic on `u8`
  overflow; those inputs are excluded. The wrap-around of a release build
  is not modelled.
- Driver.Ls010b7dh01.DrawCircle: the loop's locals are `int`, not `i32`.
  `RunningFitsI32` proves that no value the loop computes leaves the `i32`
  range, so the two agree.
- Driver.Ls010b7dh01.DrawCircle: makes no claim about how close the drawn
  points are to a true circle. The source promises only that it follows the
  midpoint algorithm, and the model states the writes it issues.
- Driver.Ls010b7dh01.WriteCheckerboard: its pixel-level promise is stated by
  the lemma `Drawing.CheckerboardPixels` about the `Plot` in its `ensures`,
  not as a second `ensures`. `Driver.Ls010b7dh01.DrawCircle` is handled the
  same way by `Drawing.CirclePixels`.
- The driver's loop passes are separate methods (`WriteCheckerboardRow`,
  `DrawRectColumn`, `DrawRectRow`, `DrawCircleStep`, `DrawCirclePass`,
  `PackRow`). They run the same statements in the same order as the loop
  bodies of the source.
- The generic type parameters `SPI`, `CS` and `DISP` are not modelled. The
  pins and the bus appear only through the events they cause.
