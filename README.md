# gpu-writer, modelled in Dafny

gpu-writer packs a fixed, ordered list of typed data blocks into one byte
buffer for upload to a GPU structured buffer. A table is built by appending
blocks onto `EmptyGpuTable`. Each `append_gpu_data` wraps the table so far in
a `Cons(block, tail)` node. Writing the table emits two things:

- a header of one 32-bit word per block, in append order: the offset of that
  block's data from the start of the buffer, counted in 4-byte words;
- the data section: every block's bytes, in append order, with nothing in
  between.

A block is one of:

- a slice of plain-data elements (`&[T]`);
- the elements an iterator yields, with the size counted once when the
  `GpuDataIter` is made;
- a whole table, because a table is a `GpuData` too.

The model has four modules:

- `Bytes`: bytes, `u32` words and their 4-byte encoding, and `as u32` as
  reduction modulo 2^32. It also holds the flattening of fixed-stride
  elements into bytes, and the part of a byte string that still fits into a
  bounded destination.
- `Cursor`: the destination, a `Writer` class. It holds a fixed-size byte
  array and a position, the way `std::io::Cursor<&mut [u8]>` and `&mut [u8]`
  behave. `write_all` copies what still fits. If not everything fits, the
  buffer is left full and the call fails with `WriteZero`.
- `GpuWriter`, the core:
  - the `Block` and `Table` datatypes;
  - pure functions for each count, size and emitted byte string
    (`DataCount`, `DataSize`, `BlockSize`, `TableSize`, `Header`, `Data`,
    `TableBytes`, `BlockBytes`);
  - reference definitions over the list of blocks in append order
    (`Blocks`, `SumSizes`, `Offsets`, `ConcatBlocks`, `Layout`);
  - lemmas connecting the two;
  - the writing operations as methods on a `Writer`. Each method is proved
    to emit exactly the bytes its function describes, cut off where the
    buffer ends, and to leave the buffer past the bytes it wrote as it was.
- `GpuWriterScenario`: the library's own test. It appends three `u32`s
  through an iterator, four `f32`s as a slice and two `f64` zeros through an
  iterator, then writes the table into a buffer of exactly `size()` bytes.
  The proved result: header `[3, 6, 10]`, then x, then y, then 16 zero bytes.
  It also shows what the code does when a block is not a whole number of
  words.

The header entry is computed as `(offset + data_size of the tail) / 4`,
truncated to 32 bits. The result is exact only when every earlier block is a
whole number of words. The source does not check this. The model keeps the
truncating division (`GpuWriter.Header`). `GpuWriter.ReadBack` proves that
when blocks are word-aligned, reading through the header finds each block.
`GpuWriterScenario.UnalignedOffsetTruncates` shows a case where an unaligned
block makes it miss.

Errors are propagated with `?`: the first failing `write_all` ends the whole
write. Against a bounded buffer this shows up in three ways. The write fails
exactly when the bytes do not fit. The buffer then holds the prefix of the
layout that fits. The buffer is full. The empty table always succeeds and
writes nothing.

## Model

| member | source | states |
|---|---|---|
| GpuWriter.Append | src/gpu_writer.rs:4-6 | the new block comes last in append order; the count grows by one; the data size grows by the block's size |
| GpuWriter.TableOf | src/gpu_writer.rs:8-20 | appending a list of blocks onto the empty table gives a table with exactly those blocks, in that order, and `DATA_COUNT` equal to their number |
| GpuWriter.FromIter | src/gpu_writer.rs:105-110 | the size is stride times the number of elements, fixed at construction; when every element has the stride, the block is well formed and writes exactly that many bytes |
| GpuWriter.CountIsLength | src/gpu_writer.rs:72 | `DATA_COUNT` is the number of blocks appended (0 for the empty table) |
| GpuWriter.DataSizeIsSum | src/gpu_writer.rs:73-75 | `data_size` is the sum of the sizes of the blocks in append order |
| GpuWriter.SizeLayout | src/gpu_writer.rs:61-63 | `size()` of a table is 4 bytes per block plus the sum of the block sizes |
| GpuWriter.HeaderIsOffsets | src/gpu_writer.rs:76-82 | the header is the blocks' word offsets in append order: entry i is `(off + sizes of blocks 0..i) / 4` as `u32`, each encoded as 4 bytes |
| GpuWriter.HeaderEntry | src/gpu_writer.rs:78-80 | the 4 bytes at 4i of the header decode to `(off + sizes of the blocks before i) / 4`, truncated to 32 bits |
| GpuWriter.DataIsConcat | src/gpu_writer.rs:83-87 | the data section is the blocks' bytes concatenated in append order |
| GpuWriter.TableLayout | src/gpu_writer.rs:64-68 | writing a table emits the buffer format for its blocks: the offsets header with the data starting at `4 * DATA_COUNT`, then the data section |
| GpuWriter.BlockBytesLength | src/gpu_writer.rs:90-97 | a well-formed block writes exactly `size()` bytes |
| GpuWriter.TableBytesLength | src/gpu_writer.rs:60-75 | a well-formed table writes exactly `size()` bytes, and its data section `data_size()` bytes |
| GpuWriter.LayoutEntry | src/gpu_writer.rs:76-82 | in the buffer format, word i decodes to the word offset of block i |
| GpuWriter.LayoutBlock | src/gpu_writer.rs:83-87 | in the buffer format, block i's bytes start after the header and the blocks before it |
| GpuWriter.LayoutReadBack | src/gpu_writer.rs:76-87 | when the blocks before i are whole words and the offset fits in 32 bits, 4 times header entry i is where block i's bytes are |
| GpuWriter.ReadBack | src/gpu_writer.rs:64-87 | for a table of word-aligned blocks whose size fits the 32-bit offsets, reading block i through header entry i gives back exactly block i's bytes |
| GpuWriter.WriteInto | src/gpu_writer.rs:94-97 | writing a block appends what fits of its bytes to the writer and leaves the buffer past the new position as it was; it succeeds exactly when they all fit, and leaves the buffer full when it fails |
| GpuWriter.WriteElements | src/gpu_writer.rs:116-121 | one `write_all` per element, stopping at the first failure: appends what fits of the flattened elements, leaves the buffer past the new position as it was, and succeeds exactly when they all fit |
| GpuWriter.TableWriteInto | src/gpu_writer.rs:40-68 | writing a table appends what fits of header then data and leaves the buffer past the new position as it was; it succeeds exactly when `size()` bytes fit (for a well-formed table); a failure leaves the buffer full; the empty table succeeds and writes nothing |
| GpuWriter.ConsWriteInto | src/gpu_writer.rs:64-68 | writing a `Cons` table appends what fits of its header followed by its data section, skipping the data when the header fails; the buffer past the new position stays as it was |
| GpuWriter.WriteHeaderInto | src/gpu_writer.rs:76-82 | the tail's entries are written, then this block's entry; a failure in the tail skips this block's entry; the result is what fits of `Header(t, off)`, with the buffer past it unchanged |
| GpuWriter.WriteDataInto | src/gpu_writer.rs:83-87 | the tail's data is written, then this block's bytes; a failure in the tail skips this block; the result is what fits of the data section, with the buffer past it unchanged |
| Cursor.Writer.constructor | src/gpu_writer.rs:145-146 | `vec![0u8; size]` under `Cursor::new`: a buffer of `capacity` zero bytes, nothing written yet, room for all `capacity` bytes |
| Cursor.Writer.WriteAll | src/gpu_writer.rs:95 | `write_all` on a fixed buffer: the bytes that fit are appended, nothing else in the buffer changes, it succeeds exactly when all of them fit, and on failure the buffer is full |
| Bytes.AsU32 | src/gpu_writer.rs:79 | `as u32` keeps a value below 2^32 unchanged |
| Bytes.DecodeWordBytes | src/gpu_writer.rs:80 | the 4 bytes written for a word decode back to that word |
| Bytes.FlattenLength | src/gpu_writer.rs:92 | elements of `size_of::<T>()` bytes each flatten to `size_of::<T>() * len` bytes |
| GpuWriterScenario.ScenarioTable | src/gpu_writer.rs:136-140 | the test's table holds its three blocks in the order written |
| GpuWriterScenario.ScenarioSizes | src/gpu_writer.rs:141-144 | `DATA_COUNT` is 3, `data_size()` is 4·(3+4+2·2) and `size()` is 4·(3+3+4+4) |
| GpuWriterScenario.ScenarioHeader | src/gpu_writer.rs:150-154 | the first three words of the buffer are 3, 6 and 10 |
| GpuWriterScenario.ScenarioData | src/gpu_writer.rs:155-157 | words 3..6 are x, words 6..10 are y's bytes, and words 10.. are zero |
| GpuWriterScenario.TestGpuWriter | src/gpu_writer.rs:145-157 | writing into a zeroed buffer of `size()` bytes succeeds and fills it with header `[3, 6, 10]`, x, y and 16 zero bytes |
| GpuWriterScenario.UnalignedOffsetTruncates | src/gpu_writer.rs:78-79 | after a 3-byte block, the next entry is `(8 + 3) / 4 = 2` words (byte 8) while the block's bytes start at byte 11, so reading through the header does not find them |

## Left out

- Write sinks other than a fixed-size byte buffer (files, streams, `Vec<u8>`) are not modelled, and neither are I/O faults other than running out of room. The only error is `WriteZero`.
- `u32::to_ne_bytes` is modelled as little-endian. The format uses the host's byte order, and big-endian hosts are not modelled.
- Sizes and offsets are unbounded naturals. A `usize` overflow in `size()`, `data_size()` or the offset sum is not modelled. The `as u32` truncation of header entries is modelled.
- `Pod` and bytemuck (`cast_slice`, `bytes_of`) are not modelled. An element is an opaque byte string of the element type's size (the stride), and a slice's bytes are its elements laid end to end. Float values are opaque bytes.
- The `gpu_table!` macro is modelled as the fold `TableOf`. The scenario writes out the nested `Append`s the macro expands to.
- The compile-time typing of the chain is not modelled. `DATA_COUNT` is an associated constant of each `Cons` type in the source and becomes a function on the `Table` datatype here. The static `T: GpuTable` bounds become the `Block`/`Table` split.
- Move semantics are not modelled. `write_into` consumes its table or block in the source, while here tables are values that stay usable.
- An iterator is modelled by the finite list of elements it yields. `FromIter` counts that same list, so `iter.clone().count()` is assumed to yield what iteration yields. A block whose stored size disagrees with its elements can still be written. It is not `WellFormed`, and the size results are stated only for well-formed blocks.
- GpuWriter.TableWriteInto: "succeeds exactly when `size()` bytes fit" is stated only for well-formed tables. For any other table it is stated against the bytes actually written.
- The benchmarks (benches/bench.rs) are not part of this model. Neither is the test's `data_count` helper, which only reads `DATA_COUNT`.
