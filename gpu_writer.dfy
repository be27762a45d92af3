/**
 The GPU buffer layout builder. A table is a chain of blocks built by
 appending onto the empty table; writing it produces one buffer: a header of
 one 32-bit word per block, the word offset of that block's data from the
 start of the buffer, followed by the bytes of every block in append order.

 The functions here are the layout: what each operation computes and which
 bytes each write emits. The lemmas relate the layout to the list of blocks in
 append order. The methods at the end are the writes themselves, proved to
 emit exactly those bytes into a bounded writer.

 A header entry is `size_of::<u32>()`, 4 bytes; the model writes the literal 4.
 */
module GpuWriter {
  import opened Bytes
  import opened Cursor

  /**
   A block of data (`GpuData`): a slice of fixed-stride elements, the
   elements an iterator produces (with the size counted when the block was
   made), or a whole table, which is a block too.
   */
  datatype Block =
    | Slice(stride: nat, elems: seq<seq<byte>>)
    | Iter(stride: nat, elems: seq<seq<byte>>, size: nat)
    | Sub(table: Table)

  /** A table (`GpuTable`): `EmptyGpuTable`, or `Cons(block, tail)`. */
  datatype Table = Empty | Cons(head: Block, tail: Table)

  // ----- Building tables -----

  /** `append_gpu_data(table, block)`: the block goes on top of the chain. */
  function Append(t: Table, b: Block): (r: Table)
    ensures Blocks(r) == Blocks(t) + [b]
    ensures DataCount(r) == DataCount(t) + 1
    ensures DataSize(r) == DataSize(t) + BlockSize(b)
  {
    Cons(b, t)
  }

  /** The `gpu_table!` macro: append each block in turn onto `EmptyGpuTable`. */
  function TableOf(bs: seq<Block>): (r: Table)
    ensures Blocks(r) == bs
    ensures DataCount(r) == |bs|
  {
    if bs == [] then Empty else Append(TableOf(bs[..|bs| - 1]), bs[|bs| - 1])
  }

  /** `GpuDataIter::from`: the size is counted once, when the block is made. */
  function FromIter(stride: nat, elems: seq<seq<byte>>): (b: Block)
    ensures b.Iter? && b.stride == stride && b.elems == elems
    ensures BlockSize(b) == stride * |elems|
    ensures HasStride(elems, stride) ==> WellFormed(b) && |BlockBytes(b)| == BlockSize(b)
  {
    var b := Iter(stride, elems, stride * |elems|);
    if HasStride(elems, stride) then FlattenLength(elems, stride); b else b
  }

  /** The blocks of a table in append order (the first appended comes first). */
  function Blocks(t: Table): seq<Block>
  {
    match t
    case Empty => []
    case Cons(h, tl) => Blocks(tl) + [h]
  }

  /**
   A block is well formed when every element has the block's stride and, for
   an iterator block, the stored size is what its elements amount to. These
   hold of every block the library can build.
   */
  predicate WellFormed(b: Block)
  {
    match b
    case Slice(stride, elems) => HasStride(elems, stride)
    case Iter(stride, elems, size) => HasStride(elems, stride) && size == stride * |elems|
    case Sub(t) => WellFormedTable(t)
  }

  predicate WellFormedTable(t: Table)
  {
    match t
    case Empty => true
    case Cons(h, tl) => WellFormed(h) && WellFormedTable(tl)
  }

  // ----- Counts and sizes -----

  /** `GpuData::size`. */
  function BlockSize(b: Block): nat
    decreases b, 2
  {
    match b
    case Slice(stride, elems) => stride * |elems|
    case Iter(_, _, size) => size
    case Sub(t) => TableSize(t)
  }

  /** `GpuTable::DATA_COUNT`. */
  function DataCount(t: Table): nat
  {
    match t
    case Empty => 0
    case Cons(_, tl) => DataCount(tl) + 1
  }

  /** `GpuTable::data_size`: the bytes of the data section. */
  function DataSize(t: Table): nat
    decreases t, 0
  {
    match t
    case Empty => 0
    case Cons(h, tl) => DataSize(tl) + BlockSize(h)
  }

  /** `GpuData::size` of a table: header and data section. */
  function TableSize(t: Table): nat
    decreases t, 1
  {
    match t
    case Empty => 0
    case Cons(_, _) => 4 * DataCount(t) + DataSize(t)
  }

  /** Reference definition: the sizes of a list of blocks, added from the first. */
  function SumSizes(bs: seq<Block>): nat
  {
    if bs == [] then 0 else BlockSize(bs[0]) + SumSizes(bs[1..])
  }

  // ----- The bytes each operation emits -----

  /** What `GpuData::write_into` emits for a block. */
  function BlockBytes(b: Block): seq<byte>
    decreases b, 2
  {
    match b
    case Slice(_, elems) => Flatten(elems)
    case Iter(_, elems, _) => Flatten(elems)
    case Sub(t) => TableBytes(t)
  }

  /** What `write_header_into(off)` emits: one entry per block, the earliest first. */
  function Header(t: Table, off: nat): (h: seq<byte>)
    ensures |h| == 4 * DataCount(t)
  {
    match t
    case Empty => []
    case Cons(_, tl) => Header(tl, off) + WordBytes(AsU32((off + DataSize(tl)) / 4))
  }

  /** What `write_data_into` emits: the blocks' bytes, the earliest first. */
  function Data(t: Table): seq<byte>
    decreases t, 0
  {
    match t
    case Empty => []
    case Cons(h, tl) => Data(tl) + BlockBytes(h)
  }

  /** What `write_into` emits for a table: the header, then the data section. */
  function TableBytes(t: Table): seq<byte>
    decreases t, 1
  {
    match t
    case Empty => []
    case Cons(_, _) => Header(t, 4 * DataCount(t)) + Data(t)
  }

  /** Reference definition: entry i is the word offset of block i's data. */
  function Offsets(bs: seq<Block>, off: nat): (ws: seq<u32>)
    ensures |ws| == |bs|
  {
    seq(|bs|, i requires 0 <= i < |bs| => AsU32((off + SumSizes(bs[..i])) / 4))
  }

  lemma OffsetAt(bs: seq<Block>, off: nat, i: nat)
    requires i < |bs|
    ensures Offsets(bs, off)[i] == AsU32((off + SumSizes(bs[..i])) / 4)
  {
  }

  /** Reference definition: the blocks' bytes, concatenated from the first. */
  function ConcatBlocks(bs: seq<Block>): seq<byte>
  {
    if bs == [] then [] else BlockBytes(bs[0]) + ConcatBlocks(bs[1..])
  }

  /**
   Reference definition of the buffer format for blocks appended in the order
   of `bs`: one word offset per block, the data section starting after the
   header, then the blocks' bytes.
   */
  function Layout(bs: seq<Block>): seq<byte>
  {
    EncodeWords(Offsets(bs, 4 * |bs|)) + ConcatBlocks(bs)
  }

  /** Every block's size is a whole number of words. */
  predicate WordAligned(bs: seq<Block>)
  {
    forall j :: 0 <= j < |bs| ==> BlockSize(bs[j]) % 4 == 0
  }

  // ----- Lemmas: counts and sizes -----

  /** `DATA_COUNT` is the number of appends: 0 for the empty table, one more per append. */
  lemma {:induction false} CountIsLength(t: Table)
    ensures DataCount(t) == |Blocks(t)|
  {
    match t
    case Empty =>
    case Cons(_, tl) => CountIsLength(tl);
  }

  lemma {:induction false} SumSizesAppend(a: seq<Block>, b: seq<Block>)
    ensures SumSizes(a + b) == SumSizes(a) + SumSizes(b)
  {
    if a != [] {
      assert (a + b)[1..] == a[1..] + b;
      SumSizesAppend(a[1..], b);
    } else {
      assert a + b == b;
    }
  }

  /** `data_size` is the sum of the sizes of the blocks; 0 for the empty table. */
  lemma {:induction false} DataSizeIsSum(t: Table)
    ensures DataSize(t) == SumSizes(Blocks(t))
  {
    match t
    case Empty =>
    case Cons(h, tl) =>
      DataSizeIsSum(tl);
      SumSizesAppend(Blocks(tl), [h]);
      assert SumSizes([h]) == BlockSize(h);
  }

  /** The size of a table is its header, one word per block, plus its data. */
  lemma SizeLayout(t: Table)
    ensures TableSize(t) == 4 * |Blocks(t)| + SumSizes(Blocks(t))
  {
    CountIsLength(t);
    DataSizeIsSum(t);
  }

  // ----- Lemmas: the layout of the bytes -----

  lemma {:induction false} ConcatBlocksAppend(a: seq<Block>, b: seq<Block>)
    ensures ConcatBlocks(a + b) == ConcatBlocks(a) + ConcatBlocks(b)
  {
    if a != [] {
      assert (a + b)[1..] == a[1..] + b;
      ConcatBlocksAppend(a[1..], b);
    } else {
      assert a + b == b;
    }
  }

  /** The data section is the blocks' bytes in append order, with nothing between them. */
  lemma {:induction false} DataIsConcat(t: Table)
    ensures Data(t) == ConcatBlocks(Blocks(t))
  {
    match t
    case Empty =>
    case Cons(h, tl) =>
      DataIsConcat(tl);
      ConcatBlocksAppend(Blocks(tl), [h]);
      assert ConcatBlocks([h]) == BlockBytes(h);
  }

  lemma OffsetsSnoc(bs: seq<Block>, b: Block, off: nat)
    ensures Offsets(bs + [b], off) == Offsets(bs, off) + [AsU32((off + SumSizes(bs)) / 4)]
  {
    var l, r := Offsets(bs + [b], off), Offsets(bs, off) + [AsU32((off + SumSizes(bs)) / 4)];
    forall i | 0 <= i < |bs| + 1
      ensures l[i] == r[i]
    {
      assert (bs + [b])[..i] == if i < |bs| then bs[..i] else bs;
    }
  }

  /**
   `write_header_into(off)` emits the word offsets of the blocks in append
   order: entry i is `(off + sizes of the blocks appended before i) / 4`,
   truncated to 32 bits.
   */
  lemma {:induction false} HeaderIsOffsets(t: Table, off: nat)
    ensures Header(t, off) == EncodeWords(Offsets(Blocks(t), off))
  {
    match t
    case Empty =>
    case Cons(h, tl) =>
      HeaderIsOffsets(tl, off);
      DataSizeIsSum(tl);
      OffsetsSnoc(Blocks(tl), h, off);
      var ws := Offsets(Blocks(t), off);
      assert ws[..|ws| - 1] == Offsets(Blocks(tl), off);
  }

  /** Entry i of the header, read back as a word. */
  lemma HeaderEntry(t: Table, off: nat, i: nat)
    requires i < |Blocks(t)|
    ensures |Header(t, off)| == 4 * |Blocks(t)|
    ensures DecodeWord(Header(t, off)[4 * i..4 * i + 4])
         == AsU32((off + SumSizes(Blocks(t)[..i])) / 4)
  {
    HeaderIsOffsets(t, off);
    CountIsLength(t);
    WordAtFront(Offsets(Blocks(t), off), [], i);
    assert Header(t, off) + [] == Header(t, off);
    OffsetAt(Blocks(t), off, i);
  }

  /** Writing a table produces the buffer format for its blocks in append order. */
  lemma TableLayout(t: Table)
    ensures TableBytes(t) == Layout(Blocks(t))
  {
    CountIsLength(t);
    HeaderIsOffsets(t, 4 * |Blocks(t)|);
    DataIsConcat(t);
  }

  lemma {:induction false} ConcatBlocksLength(bs: seq<Block>)
    requires forall j :: 0 <= j < |bs| ==> WellFormed(bs[j])
    ensures |ConcatBlocks(bs)| == SumSizes(bs)
    decreases bs, 0
  {
    if bs != [] {
      BlockBytesLength(bs[0]);
      ConcatBlocksLength(bs[1..]);
    }
  }

  /** A well-formed block emits exactly `size()` bytes. */
  lemma {:induction false} BlockBytesLength(b: Block)
    requires WellFormed(b)
    ensures |BlockBytes(b)| == BlockSize(b)
    decreases b, 2
  {
    match b
    case Slice(stride, elems) => FlattenLength(elems, stride);
    case Iter(stride, elems, _) => FlattenLength(elems, stride);
    case Sub(t) => TableBytesLength(t);
  }

  /** A well-formed table emits exactly `size()` bytes, its data section `data_size()`. */
  lemma {:induction false} TableBytesLength(t: Table)
    requires WellFormedTable(t)
    ensures |Data(t)| == DataSize(t)
    ensures |TableBytes(t)| == TableSize(t)
    decreases t, 1
  {
    match t
    case Empty =>
    case Cons(h, tl) =>
      TableBytesLength(tl);
      BlockBytesLength(h);
  }

  lemma {:induction false} WellFormedBlocks(t: Table)
    requires WellFormedTable(t)
    ensures forall j :: 0 <= j < |Blocks(t)| ==> WellFormed(Blocks(t)[j])
  {
    match t
    case Empty =>
    case Cons(h, tl) => WellFormedBlocks(tl);
  }

  /** Block i's bytes start `sizes of the blocks before it` into the data section. */
  lemma BlockInConcat(bs: seq<Block>, i: nat)
    requires i < |bs|
    requires forall j :: 0 <= j < |bs| ==> WellFormed(bs[j])
    ensures SumSizes(bs[..i]) + BlockSize(bs[i]) <= |ConcatBlocks(bs)|
    ensures ConcatBlocks(bs)[SumSizes(bs[..i])..SumSizes(bs[..i]) + BlockSize(bs[i])]
         == BlockBytes(bs[i])
  {
    assert bs == bs[..i] + ([bs[i]] + bs[i + 1..]);
    ConcatBlocksAppend(bs[..i], [bs[i]] + bs[i + 1..]);
    ConcatBlocksAppend([bs[i]], bs[i + 1..]);
    assert ConcatBlocks([bs[i]]) == BlockBytes(bs[i]);
    ConcatBlocksLength(bs[..i]);
    BlockBytesLength(bs[i]);
  }

  lemma {:induction false} SumSizesAligned(bs: seq<Block>)
    requires WordAligned(bs)
    ensures SumSizes(bs) % 4 == 0
  {
    if bs != [] {
      assert WordAligned(bs[1..]) by {
        forall j | 0 <= j < |bs[1..]| ensures BlockSize(bs[1..][j]) % 4 == 0 {
          assert bs[1..][j] == bs[j + 1];
        }
      }
      SumSizesAligned(bs[1..]);
    }
  }

  /** The blocks before block i add up to a whole number of words, and to no more than all blocks. */
  lemma PrefixSizes(bs: seq<Block>, i: nat)
    requires WordAligned(bs) && i <= |bs|
    ensures SumSizes(bs[..i]) % 4 == 0
    ensures SumSizes(bs[..i]) <= SumSizes(bs)
  {
    assert WordAligned(bs[..i]) by {
      forall j | 0 <= j < i ensures BlockSize(bs[..i][j]) % 4 == 0 {
        assert bs[..i][j] == bs[j];
      }
    }
    SumSizesAligned(bs[..i]);
    SumSizesAppend(bs[..i], bs[i..]);
    assert bs[..i] + bs[i..] == bs;
  }

  /** Entry i of the buffer format, read back as a word. */
  lemma LayoutEntry(bs: seq<Block>, i: nat)
    requires i < |bs|
    ensures 4 * i + 4 <= |Layout(bs)|
    ensures DecodeWord(Layout(bs)[4 * i..4 * i + 4]) == AsU32((4 * |bs| + SumSizes(bs[..i])) / 4)
  {
    WordAtFront(Offsets(bs, 4 * |bs|), ConcatBlocks(bs), i);
    OffsetAt(bs, 4 * |bs|, i);
  }

  /** Block i's bytes in the buffer format: after the header and the blocks before it. */
  lemma LayoutBlock(bs: seq<Block>, i: nat)
    requires i < |bs|
    requires forall j :: 0 <= j < |bs| ==> WellFormed(bs[j])
    ensures 4 * |bs| + SumSizes(bs[..i]) + BlockSize(bs[i]) <= |Layout(bs)|
    ensures var lo := 4 * |bs| + SumSizes(bs[..i]);
            Layout(bs)[lo..lo + BlockSize(bs[i])] == BlockBytes(bs[i])
  {
    var header, data := EncodeWords(Offsets(bs, 4 * |bs|)), ConcatBlocks(bs);
    var lo, size := 4 * |bs| + SumSizes(bs[..i]), BlockSize(bs[i]);
    BlockInConcat(bs, i);
    SliceOfSuffix(header, data, lo, lo + size);
  }

  /**
   Reading block i back through the header of the buffer format: when the
   blocks before it add up to a whole number of words and its offset fits in
   32 bits, header entry i, times 4, is where block i starts.
   */
  lemma LayoutReadBack(bs: seq<Block>, i: nat)
    requires i < |bs|
    requires forall j :: 0 <= j < |bs| ==> WellFormed(bs[j])
    requires SumSizes(bs[..i]) % 4 == 0
    requires 4 * |bs| + SumSizes(bs[..i]) < 4 * 0x1_0000_0000
    ensures 4 * i + 4 <= |Layout(bs)|
    ensures var w := DecodeWord(Layout(bs)[4 * i..4 * i + 4]) as int;
            4 * w + BlockSize(bs[i]) <= |Layout(bs)|
            && Layout(bs)[4 * w..4 * w + BlockSize(bs[i])] == BlockBytes(bs[i])
  {
    LayoutEntry(bs, i);
    ExactWordOffset(|bs|, SumSizes(bs[..i]));
    LayoutBlock(bs, i);
  }

  /**
   Reading block i back through the header: with every block a whole number
   of words and the buffer small enough for its word offsets to fit in 32
   bits, header entry i, times 4, is where block i's bytes are.
   */
  lemma ReadBack(t: Table, i: nat)
    requires WellFormedTable(t) && WordAligned(Blocks(t))
    requires TableSize(t) < 4 * 0x1_0000_0000
    requires i < |Blocks(t)|
    ensures 4 * i + 4 <= |TableBytes(t)|
    ensures var w := DecodeWord(TableBytes(t)[4 * i..4 * i + 4]) as int;
            4 * w + BlockSize(Blocks(t)[i]) <= |TableBytes(t)|
            && TableBytes(t)[4 * w..4 * w + BlockSize(Blocks(t)[i])] == BlockBytes(Blocks(t)[i])
  {
    TableLayout(t);
    SizeLayout(t);
    WellFormedBlocks(t);
    PrefixSizes(Blocks(t), i);
    LayoutReadBack(Blocks(t), i);
  }

  // ----- Writing -----

  /** `GpuData::write_into`: emit the block's bytes into the writer. */
  method WriteInto(b: Block, w: Writer) returns (r: Outcome)
    requires w.Valid()
    modifies w, w.buf
    decreases b, 3
    ensures w.Valid() && w.buf == old(w.buf)
    ensures w.buf[w.pos..] == old(w.buf[..])[w.pos..]
    ensures w.Contents() == old(w.Contents()) + Prefix(BlockBytes(b), old(w.Room()))
    ensures r.Pass? <==> |BlockBytes(b)| <= old(w.Room())
    ensures r.Fail? ==> w.Room() == 0
  {
    match b
    case Slice(_, elems) =>
      // one bulk copy of the whole slice
      r := w.WriteAll(Flatten(elems));
    case Iter(_, elems, _) =>
      r := WriteElements(elems, w);
    case Sub(t) =>
      r := TableWriteInto(t, w);
  }

  /** The loop of `GpuDataIter::write_into`: one `write_all` per element, stopping at the first failure. */
  method WriteElements(elems: seq<seq<byte>>, w: Writer) returns (r: Outcome)
    requires w.Valid()
    modifies w, w.buf
    ensures w.Valid() && w.buf == old(w.buf)
    ensures w.buf[w.pos..] == old(w.buf[..])[w.pos..]
    ensures w.Contents() == old(w.Contents()) + Prefix(Flatten(elems), old(w.Room()))
    ensures r.Pass? <==> |Flatten(elems)| <= old(w.Room())
    ensures r.Fail? ==> w.Room() == 0
  {
    ghost var room, before := w.Room(), w.Contents();
    var i := 0;
    while i < |elems|
      invariant 0 <= i <= |elems|
      invariant w.Valid() && w.buf == old(w.buf)
      invariant |Flatten(elems[..i])| <= room
      invariant w.Contents() == before + Flatten(elems[..i])
      invariant w.buf[w.pos..] == old(w.buf[..])[w.pos..]
    {
      ghost var done, snap, start := Flatten(elems[..i]), w.buf[..], w.pos;
      r := w.WriteAll(elems[i]);
      TailKept(old(w.buf[..]), snap, w.buf[..], start, w.pos);
      assert w.Contents() == before + done + Prefix(elems[i], room - |done|);
      FlattenSnoc(elems, i);
      if r.Fail? {
        FlattenOverflowsAt(elems, i, room);
        return;
      }
      i := i + 1;
    }
    assert elems[..i] == elems;
    r := Pass;
  }

  /**
   `write_into` of a table: of `EmptyGpuTable`, nothing; of `Cons`, header
   then data (`ConsWriteInto`).
   */
  method TableWriteInto(t: Table, w: Writer) returns (r: Outcome)
    requires w.Valid()
    modifies w, w.buf
    decreases t, 2
    ensures w.Valid() && w.buf == old(w.buf)
    ensures w.buf[w.pos..] == old(w.buf[..])[w.pos..]
    ensures w.Contents() == old(w.Contents()) + Prefix(TableBytes(t), old(w.Room()))
    ensures r.Pass? <==> |TableBytes(t)| <= old(w.Room())
    ensures WellFormedTable(t) ==> (r.Pass? <==> TableSize(t) <= old(w.Room()))
    ensures r.Fail? ==> w.Room() == 0
    ensures t.Empty? ==> r.Pass? && w.Contents() == old(w.Contents())
  {
    if WellFormedTable(t) {
      TableBytesLength(t);
    }
    match t
    case Empty =>
      assert Prefix(TableBytes(t), w.Room()) == [];
      r := Pass;
    case Cons(_, _) =>
      r := ConsWriteInto(t, w);
  }

  /**
   `write_into` of a `Cons` table: the header, with the data section starting
   after `4 * DATA_COUNT` bytes, then the data; a failed header write skips
   the data.
   */
  method ConsWriteInto(t: Table, w: Writer) returns (r: Outcome)
    requires t.Cons? && w.Valid()
    modifies w, w.buf
    decreases t, 1
    ensures w.Valid() && w.buf == old(w.buf)
    ensures w.buf[w.pos..] == old(w.buf[..])[w.pos..]
    ensures w.Contents() == old(w.Contents()) + Prefix(TableBytes(t), old(w.Room()))
    ensures r.Pass? <==> |TableBytes(t)| <= old(w.Room())
    ensures r.Fail? ==> w.Room() == 0
  {
    ghost var room, before := w.Room(), w.Contents();
    ghost var header, data := Header(t, 4 * DataCount(t)), Data(t);
    assert TableBytes(t) == header + data;
    r := WriteHeaderInto(t, 4 * DataCount(t), w);
    if r.Fail? {
      PrefixConcatOverflows(header, data, room);
      return;
    }
    assert w.Contents() == before + header;
    ghost var snap, start := w.buf[..], w.pos;
    r := WriteDataInto(t, w);
    TailKept(old(w.buf[..]), snap, w.buf[..], start, w.pos);
    PrefixConcatFits(header, data, room);
    assert w.Contents() == before + (header + Prefix(data, room - |header|));
  }

  /** `write_header_into(off)`: the tail's entries first, then this block's. */
  method WriteHeaderInto(t: Table, off: nat, w: Writer) returns (r: Outcome)
    requires w.Valid()
    modifies w, w.buf
    ensures w.Valid() && w.buf == old(w.buf)
    ensures w.buf[w.pos..] == old(w.buf[..])[w.pos..]
    ensures w.Contents() == old(w.Contents()) + Prefix(Header(t, off), old(w.Room()))
    ensures r.Pass? <==> |Header(t, off)| <= old(w.Room())
    ensures r.Fail? ==> w.Room() == 0
  {
    match t
    case Empty =>
      r := Pass;
    case Cons(_, tl) =>
      ghost var room, before, rest := w.Room(), w.Contents(), Header(tl, off);
      var entry := WordBytes(AsU32((off + DataSize(tl)) / 4));
      assert Header(t, off) == rest + entry;
      r := WriteHeaderInto(tl, off, w);
      if r.Fail? {
        PrefixConcatOverflows(rest, entry, room);
        return;
      }
      assert w.Contents() == before + rest;
      ghost var snap, start := w.buf[..], w.pos;
      r := w.WriteAll(entry);
      TailKept(old(w.buf[..]), snap, w.buf[..], start, w.pos);
      PrefixConcatFits(rest, entry, room);
  }

  /** `write_data_into`: the tail's data first, then this block's bytes. */
  method WriteDataInto(t: Table, w: Writer) returns (r: Outcome)
    requires w.Valid()
    modifies w, w.buf
    decreases t, 0
    ensures w.Valid() && w.buf == old(w.buf)
    ensures w.buf[w.pos..] == old(w.buf[..])[w.pos..]
    ensures w.Contents() == old(w.Contents()) + Prefix(Data(t), old(w.Room()))
    ensures r.Pass? <==> |Data(t)| <= old(w.Room())
    ensures r.Fail? ==> w.Room() == 0
  {
    match t
    case Empty =>
      r := Pass;
    case Cons(h, tl) =>
      ghost var room, before, rest, bytes := w.Room(), w.Contents(), Data(tl), BlockBytes(h);
      assert Data(t) == rest + bytes;
      r := WriteDataInto(tl, w);
      if r.Fail? {
        PrefixConcatOverflows(rest, bytes, room);
        return;
      }
      assert w.Contents() == before + rest;
      ghost var snap, start := w.buf[..], w.pos;
      r := WriteInto(h, w);
      TailKept(old(w.buf[..]), snap, w.buf[..], start, w.pos);
      PrefixConcatFits(rest, bytes, room);
  }
}
