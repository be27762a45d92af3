/**
 Bytes, 32-bit words and the few sequence operations the layout is built from:
 the 4-byte encoding of a header word, the flattening of fixed-stride elements
 into one byte string, and the prefix of a byte string that still fits into a
 bounded destination.
 */
module Bytes {

  newtype byte = x: int | 0 <= x < 0x100

  newtype u32 = x: int | 0 <= x < 0x1_0000_0000

  /** Rust's `n as u32` for a `usize` n: the value modulo 2^32. */
  function AsU32(n: nat): (w: u32)
    ensures n < 0x1_0000_0000 ==> w as int == n
  {
    (n % 0x1_0000_0000) as u32
  }

  /**
   The host-order bytes of a word (`u32::to_ne_bytes`). The model fixes the
   host to be little-endian; big-endian hosts are not modelled.
   */
  function WordBytes(w: u32): (bs: seq<byte>)
    ensures |bs| == 4
  {
    var v := w as int;
    [(v % 0x100) as byte,
     (v / 0x100 % 0x100) as byte,
     (v / 0x1_0000 % 0x100) as byte,
     (v / 0x100_0000) as byte]
  }

  /** How a reader of the buffer turns 4 header bytes back into a word. */
  function DecodeWord(bs: seq<byte>): u32
    requires |bs| == 4
  {
    (bs[0] as int + 0x100 * (bs[1] as int + 0x100 * (bs[2] as int + 0x100 * bs[3] as int))) as u32
  }

  /** The little-endian digits of a word, read back, give the word: division and remainder by 0x100. */
  lemma DecodeWordBytes(w: u32)
    ensures DecodeWord(WordBytes(w)) == w
  {
  }

  /**
   The byte offset of data that follows `k` header words and `s` bytes, when
   `s` is a whole number of words, survives `/ 4` and `as u32`.
   */
  lemma ExactWordOffset(k: nat, s: nat)
    requires s % 4 == 0 && 4 * k + s < 4 * 0x1_0000_0000
    ensures 4 * (AsU32((4 * k + s) / 4) as int) == 4 * k + s
  {
  }

  /** The words of a header, each as its 4 bytes, in order. */
  function EncodeWords(ws: seq<u32>): (bs: seq<byte>)
    ensures |bs| == 4 * |ws|
  {
    if ws == [] then [] else EncodeWords(ws[..|ws| - 1]) + WordBytes(ws[|ws| - 1])
  }

  /** Word i of an encoded header sits at bytes 4i .. 4i+4. */
  lemma {:induction false} EncodeWordsAt(ws: seq<u32>, i: nat)
    requires i < |ws|
    ensures EncodeWords(ws)[4 * i..4 * i + 4] == WordBytes(ws[i])
  {
    var init := ws[..|ws| - 1];
    assert EncodeWords(ws) == EncodeWords(init) + WordBytes(ws[|ws| - 1]);
    if i < |ws| - 1 {
      EncodeWordsAt(init, i);
      assert init[i] == ws[i];
    }
  }

  /** Word i read back from a buffer that starts with the encoded words. */
  lemma WordAtFront(ws: seq<u32>, rest: seq<byte>, i: nat)
    requires i < |ws|
    ensures 4 * i + 4 <= |EncodeWords(ws) + rest|
    ensures DecodeWord((EncodeWords(ws) + rest)[4 * i..4 * i + 4]) == ws[i]
  {
    var header := EncodeWords(ws);
    assert (header + rest)[4 * i..4 * i + 4] == header[4 * i..4 * i + 4];
    EncodeWordsAt(ws, i);
    DecodeWordBytes(ws[i]);
  }

  /** The bytes of a sequence of elements, laid out one after another. */
  function Flatten(elems: seq<seq<byte>>): seq<byte>
  {
    if elems == [] then [] else Flatten(elems[..|elems| - 1]) + elems[|elems| - 1]
  }

  /** Every element is exactly `stride` bytes long (the element type's size). */
  predicate HasStride(elems: seq<seq<byte>>, stride: nat)
  {
    forall i :: 0 <= i < |elems| ==> |elems[i]| == stride
  }

  lemma {:induction false} FlattenLength(elems: seq<seq<byte>>, stride: nat)
    requires HasStride(elems, stride)
    ensures |Flatten(elems)| == stride * |elems|
  {
    if elems != [] {
      var init := elems[..|elems| - 1];
      assert HasStride(init, stride) by {
        forall i | 0 <= i < |init| ensures |init[i]| == stride {
          assert init[i] == elems[i];
        }
      }
      FlattenLength(init, stride);
      assert |elems[|elems| - 1]| == stride;
      assert stride * |elems| == stride * |init| + stride;
    }
  }

  lemma FlattenSnoc(elems: seq<seq<byte>>, i: nat)
    requires i < |elems|
    ensures Flatten(elems[..i + 1]) == Flatten(elems[..i]) + elems[i]
  {
    assert elems[..i + 1][..i] == elems[..i];
  }

  /** The bytes of two runs of elements, one after the other. */
  lemma {:induction false} FlattenAppend(a: seq<seq<byte>>, b: seq<seq<byte>>)
    ensures Flatten(a + b) == Flatten(a) + Flatten(b)
    decreases |b|
  {
    if b == [] {
      assert a + b == a;
    } else {
      var init := b[..|b| - 1];
      assert (a + b)[..|a + b| - 1] == a + init;
      assert (a + b)[|a + b| - 1] == b[|b| - 1];
      FlattenAppend(a, init);
    }
  }

  /** A slice that lies inside the second part of a concatenation. */
  lemma SliceOfSuffix<T>(a: seq<T>, b: seq<T>, lo: nat, hi: nat)
    requires |a| <= lo <= hi <= |a| + |b|
    ensures (a + b)[lo..hi] == b[lo - |a|..hi - |a|]
  {
  }

  function Min(a: nat, b: nat): nat
  {
    if a <= b then a else b
  }

  /** What of `s` fits into `room` bytes: all of it, or its first `room` bytes. */
  function Prefix(s: seq<byte>, room: nat): (p: seq<byte>)
    ensures |p| == Min(|s|, room)
    ensures p <= s
  {
    s[..Min(|s|, room)]
  }

  /** Writing `a` then `b`, when `a` fits: all of `a`, then what of `b` still fits. */
  lemma PrefixConcatFits(a: seq<byte>, b: seq<byte>, room: nat)
    requires |a| <= room
    ensures Prefix(a + b, room) == a + Prefix(b, room - |a|)
  {
    assert (a + b)[..|a|] == a;
  }

  /**
   Writing the elements one at a time, when element i is the first that does
   not fit: what fits of all of them is the elements before i and a prefix of i.
   */
  lemma FlattenOverflowsAt(elems: seq<seq<byte>>, i: nat, room: nat)
    requires i < |elems|
    requires |Flatten(elems[..i])| <= room < |Flatten(elems[..i])| + |elems[i]|
    ensures room < |Flatten(elems)|
    ensures Prefix(Flatten(elems), room)
         == Flatten(elems[..i]) + Prefix(elems[i], room - |Flatten(elems[..i])|)
  {
    var done, rest := Flatten(elems[..i]), Flatten(elems[i + 1..]);
    assert elems == elems[..i + 1] + elems[i + 1..];
    FlattenAppend(elems[..i + 1], elems[i + 1..]);
    FlattenSnoc(elems, i);
    assert Flatten(elems) == done + (elems[i] + rest);
    PrefixConcatFits(done, elems[i] + rest, room);
    PrefixConcatOverflows(elems[i], rest, room - |done|);
  }

  /** Writing `a` then `b`, when `a` does not fit: only a prefix of `a`. */
  lemma PrefixConcatOverflows(a: seq<byte>, b: seq<byte>, room: nat)
    requires room < |a|
    ensures Prefix(a + b, room) == Prefix(a, room)
  {
  }
}
