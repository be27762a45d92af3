/**
 The destination the layout is written into: a fixed-size byte buffer with a
 position that advances on every write, as `std::io::Cursor<&mut [u8]>` (and
 `&mut [u8]` itself) behaves. `write_all` copies as much of its argument as
 still fits; if not all of it fits, the buffer is left full and the call fails
 with `WriteZero`.
 */
module Cursor {
  import opened Bytes

  datatype ErrorKind = WriteZero

  /** The result of a write: `Ok(())` or `Err(error)`. */
  datatype Outcome = Pass | Fail(error: ErrorKind)

  /**
   Two writes in a row, each leaving the buffer past its own end position as
   it found it: the buffer past the second end is as it was before the first.
   */
  lemma TailKept(a: seq<byte>, b: seq<byte>, c: seq<byte>, i: nat, j: nat)
    requires i <= j <= |a| && |a| == |b| == |c|
    requires b[i..] == a[i..] && c[j..] == b[j..]
    ensures c[j..] == a[j..]
  {
  }

  class Writer {
    var buf: array<byte>
    var pos: nat

    ghost predicate Valid()
      reads this
    {
      pos <= buf.Length
    }

    /** The bytes written so far. */
    ghost function Contents(): seq<byte>
      reads this, buf
      requires Valid()
    {
      buf[..pos]
    }

    /** How many more bytes the buffer accepts. */
    function Room(): nat
      reads this
      requires Valid()
    {
      buf.Length - pos
    }

    /** `Cursor::new(v.as_mut_slice())` over a buffer of `capacity` zero bytes. */
    constructor (capacity: nat)
      ensures Valid() && fresh(buf)
      ensures buf.Length == capacity && buf[..] == seq(capacity, _ => 0 as byte)
      ensures Contents() == [] && Room() == capacity
    {
      buf := new byte[capacity](_ => 0 as byte);
      pos := 0;
    }

    /** `write_all(bytes)`. */
    method WriteAll(bytes: seq<byte>) returns (r: Outcome)
      requires Valid()
      modifies this, buf
      ensures Valid() && buf == old(buf)
      ensures Contents() == old(Contents()) + Prefix(bytes, old(Room()))
      ensures buf[pos..] == old(buf[..])[pos..]
      ensures r.Pass? <==> |bytes| <= old(Room())
      ensures r.Fail? ==> Room() == 0
    {
      var n := Min(|bytes|, buf.Length - pos);
      var i := 0;
      while i < n
        invariant 0 <= i <= n
        invariant pos == old(pos) && buf == old(buf)
        invariant buf[..pos] == old(buf[..pos])
        invariant buf[pos..pos + i] == bytes[..i]
        invariant buf[pos + n..] == old(buf[pos + n..])
      {
        buf[pos + i] := bytes[i];
        i := i + 1;
      }
      assert buf[..pos + n] == buf[..pos] + buf[pos..pos + n];
      pos := pos + n;
      r := if n == |bytes| then Pass else Fail(WriteZero);
    }
  }
}
