/** What the driver does on its pins and its SPI bus, as a trace of events,
    and the byte-exact framing of its three panel commands. Every SPI write
    is taken to succeed: the driver discards each write's result. */
module Transport {
  import opened Bits
  import opened Framebuffer

  /** One side effect: a level on chip-select or on display-enable, or one
      blocking SPI write of a byte string. */
  datatype Event = CsHigh | CsLow | DispHigh | DispLow | SpiWrite(bytes: seq<Byte>)

  /** The hardware-clear command and the no-update (display mode) command. */
  const ClearCommand: seq<Byte> := [0x20, 0x00]
  const DisplayModeCommand: seq<Byte> := [0x00, 0x00]

  /** The first and last byte of a flush, each sent as a write of its own. */
  const FlushStart: Byte := 0x80
  const FlushTrailer: Byte := 0x00

  /** A row record: address byte, 16 data bytes, one byte left at zero. */
  const RecordSize: nat := 18

  /** `write_spi(data)`: chip-select high, one write, chip-select low. */
  function Bracketed(data: seq<Byte>): (evs: seq<Event>) {
    [CsHigh, SpiWrite(data), CsLow]
  }

  /** A chip-select transaction: it opens with chip-select high, closes with
      chip-select low, and only SPI writes happen in between. */
  ghost predicate IsTransaction(evs: seq<Event>) {
    |evs| >= 2 && evs[0] == CsHigh && evs[|evs| - 1] == CsLow
    && forall k :: 0 < k < |evs| - 1 ==> evs[k].SpiWrite?
  }

  /** The bytes the bus carries for a trace: the payloads of its writes, in order. */
  function Wire(evs: seq<Event>): (bytes: seq<Byte>) {
    if evs == [] then []
    else (if evs[0].SpiWrite? then evs[0].bytes else []) + Wire(evs[1..])
  }

  /** The number of SPI writes in a trace. */
  function WriteCount(evs: seq<Event>): (n: nat) {
    if evs == [] then 0 else (if evs[0].SpiWrite? then 1 else 0) + WriteCount(evs[1..])
  }

  /** The 18-byte local array of `flush_buffer` as written for row `i`:
      `msb2lsb(i + 1)`, the row's 16 bytes in stored order, and a last byte
      that the loop never assigns and so stays 0. */
  function RowRecord(f: Frame, i: nat): (rec: seq<Byte>)
    requires IsFrame(f) && i < Rows
  {
    [Msb2Lsb((i + 1) as Byte)] + f[Offset(i, 0)..Offset(i, BytesPerRow)] + [0x00]
  }

  /** The writes of the first `n` passes of the row loop. */
  function RowWrites(f: Frame, n: nat): (evs: seq<Event>)
    requires IsFrame(f) && n <= Rows
  {
    if n == 0 then [] else RowWrites(f, n - 1) + [SpiWrite(RowRecord(f, n - 1))]
  }

  /** Everything `flush_buffer` emits for frame `f`. */
  function FlushEvents(f: Frame): (evs: seq<Event>)
    requires IsFrame(f)
  {
    [CsHigh, SpiWrite([FlushStart])] + RowWrites(f, Rows) + [SpiWrite([FlushTrailer]), CsLow]
  }

  /** Where record `i` starts on the wire: after the start byte and `i`
      earlier records. */
  function RecordStart(i: nat): (k: nat) { 1 + RecordSize * i }

  lemma WireSingle(e: Event)
    ensures Wire([e]) == if e.SpiWrite? then e.bytes else []
    ensures WriteCount([e]) == if e.SpiWrite? then 1 else 0
  {
    assert [e][1..] == [];
  }

  lemma {:induction false} WireConcat(a: seq<Event>, b: seq<Event>)
    ensures Wire(a + b) == Wire(a) + Wire(b)
    ensures WriteCount(a + b) == WriteCount(a) + WriteCount(b)
    decreases |a|
  {
    if a == [] {
      assert a + b == b;
    } else {
      assert (a + b)[1..] == a[1..] + b;
      WireConcat(a[1..], b);
    }
  }

  /** The row loop puts record `i` at bytes `18 * i .. 18 * i + 17` of its
      part of the wire, in `n` writes. */
  lemma {:induction false} RowWritesWire(f: Frame, n: nat)
    requires IsFrame(f) && n <= Rows
    ensures |RowWrites(f, n)| == n
    ensures |Wire(RowWrites(f, n))| == RecordSize * n
    ensures WriteCount(RowWrites(f, n)) == n
    ensures forall k :: 0 <= k < |RowWrites(f, n)| ==> RowWrites(f, n)[k].SpiWrite?
    ensures forall i, j :: 0 <= i < n && 0 <= j < RecordSize ==>
              Wire(RowWrites(f, n))[RecordSize * i + j] == RowRecord(f, i)[j]
  {
    if n > 0 {
      var prev := RowWrites(f, n - 1);
      var last := [SpiWrite(RowRecord(f, n - 1))];
      RowWritesWire(f, n - 1);
      WireConcat(prev, last);
      assert Wire(last) == RowRecord(f, n - 1);
      assert WriteCount(last) == 1;
      forall i, j | 0 <= i < n && 0 <= j < RecordSize
        ensures Wire(RowWrites(f, n))[RecordSize * i + j] == RowRecord(f, i)[j]
      {
        if i < n - 1 {
          assert RecordSize * i + j < RecordSize * (n - 1);
        } else {
          assert RecordSize * i + j == RecordSize * (n - 1) + j;
        }
      }
    }
  }

  lemma FlushWireParts(f: Frame)
    requires IsFrame(f)
    ensures Wire(FlushEvents(f)) == [FlushStart] + Wire(RowWrites(f, Rows)) + [FlushTrailer]
    ensures WriteCount(FlushEvents(f)) == 2 + WriteCount(RowWrites(f, Rows))
  {
    var head := [CsHigh, SpiWrite([FlushStart])];
    var rows := RowWrites(f, Rows);
    var tail := [SpiWrite([FlushTrailer]), CsLow];
    WireConcat(head, rows);
    WireConcat(head + rows, tail);
    assert FlushEvents(f) == head + rows + tail;
    WireSingle(CsHigh);
    WireSingle(SpiWrite([FlushStart]));
    WireSingle(SpiWrite([FlushTrailer]));
    WireSingle(CsLow);
    WireConcat([CsHigh], [SpiWrite([FlushStart])]);
    WireConcat([SpiWrite([FlushTrailer])], [CsLow]);
  }

  lemma RowRecordFields(f: Frame, i: nat)
    requires IsFrame(f) && i < Rows
    ensures |RowRecord(f, i)| == RecordSize
    ensures RowRecord(f, i)[0] == Msb2Lsb((i + 1) as Byte)
    ensures RowRecord(f, i)[RecordSize - 1] == 0x00
    ensures forall c :: 0 <= c < BytesPerRow ==> RowRecord(f, i)[1 + c] == f[Offset(i, c)]
  {
  }

  /** An 18-byte string with the address byte of row `i`, that row's bytes
      and a final zero is row `i`'s record. */
  lemma RecordFromFields(rec: seq<Byte>, f: Frame, i: nat)
    requires IsFrame(f) && i < Rows
    requires |rec| == RecordSize && rec[0] == Msb2Lsb((i + 1) as Byte) && rec[RecordSize - 1] == 0x00
    requires forall c :: 0 <= c < BytesPerRow ==> rec[1 + c] == f[Offset(i, c)]
    ensures rec == RowRecord(f, i)
  {
    RowRecordFields(f, i);
    forall k | 0 <= k < RecordSize
      ensures rec[k] == RowRecord(f, i)[k]
    {
      if 1 <= k < RecordSize - 1 {
        assert rec[1 + (k - 1)] == f[Offset(i, k - 1)];
      }
    }
  }

  /** Byte `j` of record `i` sits at `RecordStart(i) + j` of a flush. */
  lemma FlushRecordByte(f: Frame, i: nat, j: nat)
    requires IsFrame(f) && i < Rows && j < RecordSize
    ensures RecordStart(i) + j < |Wire(FlushEvents(f))|
    ensures Wire(FlushEvents(f))[RecordStart(i) + j] == RowRecord(f, i)[j]
  {
    RowWritesWire(f, Rows);
    FlushWireParts(f);
    var rows := Wire(RowWrites(f, Rows));
    assert Wire(FlushEvents(f))[1 + (RecordSize * i + j)] == rows[RecordSize * i + j];
  }

  /** The bytes of a flush: 2306 of them, 0x80 first and 0x00 last, and for
      each row `i` in ascending order the record `msb2lsb(i + 1)`, the
      row's 16 bytes, 0x00. */
  lemma FlushWire(f: Frame)
    requires IsFrame(f)
    ensures |Wire(FlushEvents(f))| == 2 + RecordSize * Rows == 2306
    ensures Wire(FlushEvents(f))[0] == FlushStart
    ensures Wire(FlushEvents(f))[2305] == FlushTrailer
    ensures forall i :: 0 <= i < Rows ==>
              Wire(FlushEvents(f))[RecordStart(i)] == Msb2Lsb((i + 1) as Byte)
              && Wire(FlushEvents(f))[RecordStart(i) + RecordSize - 1] == 0x00
    ensures forall i, c :: 0 <= i < Rows && 0 <= c < BytesPerRow ==>
              Wire(FlushEvents(f))[RecordStart(i) + 1 + c] == f[Offset(i, c)]
  {
    RowWritesWire(f, Rows);
    FlushWireParts(f);
    var w := Wire(FlushEvents(f));
    forall i | 0 <= i < Rows
      ensures w[RecordStart(i)] == Msb2Lsb((i + 1) as Byte) && w[RecordStart(i) + RecordSize - 1] == 0x00
    {
      RowRecordFields(f, i);
      FlushRecordByte(f, i, 0);
      FlushRecordByte(f, i, RecordSize - 1);
    }
    forall i, c | 0 <= i < Rows && 0 <= c < BytesPerRow
      ensures w[RecordStart(i) + 1 + c] == f[Offset(i, c)]
    {
      RowRecordFields(f, i);
      FlushRecordByte(f, i, 1 + c);
    }
  }

  /** A flush is one chip-select transaction of 132 events holding 130 SPI
      writes: the start byte, 128 row records, the trailer. */
  lemma FlushShape(f: Frame)
    requires IsFrame(f)
    ensures IsTransaction(FlushEvents(f))
    ensures |FlushEvents(f)| == 132
    ensures WriteCount(FlushEvents(f)) == 130
  {
    RowWritesWire(f, Rows);
    FlushWireParts(f);
    var evs := FlushEvents(f);
    forall k | 0 < k < |evs| - 1
      ensures evs[k].SpiWrite?
    {
      if 2 <= k < 2 + Rows {
        assert evs[k] == RowWrites(f, Rows)[k - 2];
      }
    }
  }

  /** `write_spi` is one transaction that puts exactly `data` on the wire. */
  lemma BracketedShape(data: seq<Byte>)
    ensures IsTransaction(Bracketed(data))
    ensures Wire(Bracketed(data)) == data
    ensures WriteCount(Bracketed(data)) == 1
  {
    WireSingle(CsHigh);
    WireSingle(SpiWrite(data));
    WireSingle(CsLow);
    WireConcat([CsHigh], [SpiWrite(data)]);
    WireConcat([CsHigh, SpiWrite(data)], [CsLow]);
    assert Bracketed(data) == [CsHigh, SpiWrite(data)] + [CsLow];
  }
}
