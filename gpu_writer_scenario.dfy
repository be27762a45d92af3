/**
 The scenario the library's own test runs: three `u32`s through an iterator,
 four `f32`s as a slice and two `f64` zeros through an iterator, appended in
 that order onto the empty table and written into a buffer of exactly the
 table's size. The `f32` values are opaque 4-byte elements.
 */
module GpuWriterScenario {
  import opened Bytes
  import opened Cursor
  import opened GpuWriter

  /** The bytes of a `u32` element. */
  function U32Elem(v: u32): seq<byte>
  {
    WordBytes(v)
  }

  /** `f64::default()`: eight zero bytes. */
  function ZeroF64(): seq<byte>
  {
    [0, 0, 0, 0, 0, 0, 0, 0]
  }

  function XElems(): seq<seq<byte>>
  {
    [U32Elem(1), U32Elem(2), U32Elem(3)]
  }

  function ZElems(): seq<seq<byte>>
  {
    [ZeroF64(), ZeroF64()]
  }

  /**
   `gpu_table![from(x.into_iter()), &y, from((0..2).map(|_| 0.0f64))]`, as the
   macro expands it: three appends onto the empty table.
   */
  function ScenarioTable(y: seq<seq<byte>>): (t: Table)
    ensures Blocks(t) == [FromIter(4, XElems()), Slice(4, y), FromIter(8, ZElems())]
  {
    Append(Append(Append(Empty, FromIter(4, XElems())), Slice(4, y)), FromIter(8, ZElems()))
  }

  /** `DATA_COUNT` is 3, `data_size()` is 4·(3 + 4 + 2·2) and `size()` is 4·(3 + 3 + 4 + 4). */
  lemma ScenarioSizes(y: seq<seq<byte>>)
    requires |y| == 4 && HasStride(y, 4)
    ensures var t := ScenarioTable(y);
      && DataCount(t) == 3
      && DataSize(t) == 4 * (3 + 4 + 2 * 2)
      && TableSize(t) == 4 * (3 + 3 + 4 + 4)
      && WellFormedTable(t)
      && |TableBytes(t)| == TableSize(t)
  {
    var t := ScenarioTable(y);
    assert WellFormed(FromIter(4, XElems())) && WellFormed(FromIter(8, ZElems()));
    TableBytesLength(t);
  }

  /** The header is `[3, 6, 10]`: 3 entries, then 3 words of x, then 4 of y. */
  lemma ScenarioHeader(y: seq<seq<byte>>)
    requires |y| == 4 && HasStride(y, 4)
    ensures TableBytes(ScenarioTable(y))[0..12] == EncodeWords([3, 6, 10])
  {
    var t := ScenarioTable(y);
    var bs := Blocks(t);
    var xb, yb := bs[0], bs[1];
    assert DataCount(t) == 3;
    HeaderIsOffsets(t, 12);
    assert bs[..1] == [xb] && bs[..2] == [xb, yb];
    assert SumSizes([xb]) == 12 by { assert [xb][1..] == []; }
    assert SumSizes([xb, yb]) == 28 by {
      assert [xb, yb][1..] == [yb] && [yb][1..] == [];
    }
    var ws := Offsets(bs, 12);
    assert ws == [3, 6, 10] by {
      OffsetAt(bs, 12, 0);
      OffsetAt(bs, 12, 1);
      OffsetAt(bs, 12, 2);
    }
  }

  /** A header followed by three runs of bytes: where each run lies. */
  lemma FourParts(h: seq<byte>, a: seq<byte>, b: seq<byte>, c: seq<byte>)
    ensures var s := h + (a + b + c);
      && s[|h|..|h| + |a|] == a
      && s[|h| + |a|..|h| + |a| + |b|] == b
      && s[|h| + |a| + |b|..] == c
  {
  }

  /** The data section is x's bytes, then y's, then the zeros, as appended. */
  lemma ScenarioDataOrder(y: seq<seq<byte>>)
    ensures Data(ScenarioTable(y)) == Flatten(XElems()) + Flatten(y) + Flatten(ZElems())
  {
    var xb, yb, zb := FromIter(4, XElems()), Slice(4, y), FromIter(8, ZElems());
    assert BlockBytes(xb) == Flatten(XElems()) && BlockBytes(zb) == Flatten(ZElems());
    var t1 := Cons(xb, Empty);
    var t2 := Cons(yb, t1);
    assert ScenarioTable(y) == Cons(zb, t2);
    assert Data(t1) == [] + BlockBytes(xb) == BlockBytes(xb);
    assert Data(t2) == Flatten(XElems()) + Flatten(y);
  }

  lemma ZerosFlatten()
    ensures Flatten(ZElems()) == seq(16, _ => 0 as byte)
  {
    assert ZElems()[..1] == [ZeroF64()] && |[ZeroF64()][..0]| == 0;
  }

  /** x has 12 bytes, y 16 and the zeros 16. */
  lemma ScenarioLengths(y: seq<seq<byte>>)
    requires |y| == 4 && HasStride(y, 4)
    ensures |Flatten(XElems())| == 12 && |Flatten(y)| == 16 && |Flatten(ZElems())| == 16
  {
    FlattenLength(XElems(), 4);
    FlattenLength(y, 4);
    FlattenLength(ZElems(), 8);
  }

  /** After the header: x's words, then y's bytes, then sixteen zero bytes. */
  lemma ScenarioData(y: seq<seq<byte>>)
    requires |y| == 4 && HasStride(y, 4)
    ensures |TableBytes(ScenarioTable(y))| == 56
    ensures TableBytes(ScenarioTable(y))[12..24] == Flatten(XElems())
    ensures TableBytes(ScenarioTable(y))[24..40] == Flatten(y)
    ensures TableBytes(ScenarioTable(y))[40..] == seq(16, _ => 0 as byte)
  {
    var t := ScenarioTable(y);
    var fx, fy, fz := Flatten(XElems()), Flatten(y), Flatten(ZElems());
    ScenarioLengths(y);
    ScenarioDataOrder(y);
    assert DataCount(t) == 3;
    var h := Header(t, 12);
    assert TableBytes(t) == h + (fx + fy + fz);
    FourParts(h, fx, fy, fz);
    ZerosFlatten();
  }

  /**
   The test itself: a zeroed buffer of `size()` bytes, a cursor over it,
   `write_into(...).unwrap()`, then the buffer read back.
   */
  method TestGpuWriter(y: seq<seq<byte>>) returns (r: Outcome, v: seq<byte>)
    requires |y| == 4 && HasStride(y, 4)
    ensures r.Pass?
    ensures |v| == 56
    ensures v[0..12] == EncodeWords([3, 6, 10])
    ensures v[12..24] == Flatten(XElems())
    ensures v[24..40] == Flatten(y)
    ensures v[40..] == seq(16, _ => 0 as byte)
  {
    var t := ScenarioTable(y);
    ScenarioSizes(y);
    ScenarioHeader(y);
    ScenarioData(y);
    var w := new Writer(TableSize(t));
    r := TableWriteInto(t, w);
    v := w.buf[..];
    assert v == w.Contents();
    assert v == TableBytes(t);
  }

  /** A table of a 3-byte block (three `u8`s) followed by a 4-byte block. */
  function UnalignedTable(): Table
  {
    Append(Append(Empty, Slice(1, [[1], [2], [3]])), Slice(4, [[4, 5, 6, 7]]))
  }

  /** Its bytes: both header entries are 2, then the 7 data bytes. */
  lemma UnalignedBytes()
    ensures TableBytes(UnalignedTable()) == (WordBytes(2) + WordBytes(2)) + ([1, 2, 3] + [4, 5, 6, 7])
  {
    var e1: seq<byte>, e2: seq<byte>, e3: seq<byte>, e4: seq<byte> := [1], [2], [3], [4, 5, 6, 7];
    var l1: seq<seq<byte>>, l2: seq<seq<byte>>, l3: seq<seq<byte>> := [e1], [e1, e2], [e1, e2, e3];
    var a, b := Slice(1, l3), Slice(4, [e4]);
    var t := UnalignedTable();
    assert t == Append(Append(Empty, a), b);
    assert Flatten(l1) == e1 by { assert |l1[..0]| == 0; }
    assert Flatten(l2) == e1 + e2 by { assert l2[..1] == l1; }
    assert Flatten(l3) == [1, 2, 3] by { assert l3[..2] == l2; }
    var l4: seq<seq<byte>> := [e4];
    assert Flatten(l4) == e4 by { assert |l4[..0]| == 0; }
    assert AsU32(8 / 4) == 2 && AsU32((8 + 3) / 4) == 2;
    assert Header(t, 8) == WordBytes(2) + WordBytes(2);
    assert DataCount(t) == 2;
    assert Data(Append(Empty, a)) == [1, 2, 3];
    assert Data(t) == [1, 2, 3] + e4;
  }

  /**
   With a block of 3 bytes before a block of 4, the second block's entry is
   `(8 + 3) / 4 = 2` words, byte 8, while its bytes start at byte 11: the
   division truncates and nothing checks alignment.
   */
  lemma UnalignedOffsetTruncates()
    ensures var bytes := TableBytes(UnalignedTable());
      && |bytes| == 15
      && DecodeWord(bytes[4..8]) == 2
      && bytes[11..15] == [4, 5, 6, 7]
      && bytes[4 * 2..4 * 2 + 4] != [4, 5, 6, 7]
  {
    UnalignedBytes();
    var bytes := TableBytes(UnalignedTable());
    assert bytes[4..8] == WordBytes(2);
    DecodeWordBytes(2);
    assert bytes[8] == 1;
  }
}
