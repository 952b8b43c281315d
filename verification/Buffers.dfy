/** A buffer of fixed size with a sticky overflow flag, as the CBOR and RLP writers use it. */
module Buffers {
  import opened Bytes

  class BoundedBuffer {
    const buf: array<u8>
    var length: nat
    var overflow: bool
    /** Everything that was asked to be written, whether or not it fitted. */
    ghost var intended: seq<u8>

    ghost predicate Valid()
      reads this, buf
    {
      && length <= buf.Length
      && (overflow <==> |intended| > buf.Length)
      && buf[..length] == (if overflow then intended[..buf.Length] else intended)
    }

    constructor (buf: array<u8>)
      ensures Valid() && this.buf == buf && intended == [] && !overflow
    {
      this.buf := buf;
      length, overflow, intended := 0, false, [];
    }

    method Put(b: u8)
      requires Valid()
      modifies this, buf
      ensures Valid() && intended == old(intended) + [b]
    {
      intended := intended + [b];
      if length >= buf.Length {
        overflow := true;
        return;
      }
      buf[length] := b;
      length := length + 1;
      assert buf[..length] == old(buf[..length]) + [b];
    }

    method PutAll(data: seq<u8>)
      requires Valid()
      modifies this, buf
      ensures Valid() && intended == old(intended) + data
    {
      hide Valid;
      var i := 0;
      while i < |data|
        invariant 0 <= i <= |data|
        invariant Valid() && intended == old(intended) + data[..i]
      {
        Put(data[i]);
        assert data[..i + 1] == data[..i] + [data[i]];
        i := i + 1;
      }
      assert data[..i] == data;
    }
  }

  /** What was written without overflow is in the buffer, byte for byte. */
  lemma WrittenInFull(w: BoundedBuffer)
    requires w.Valid()
    ensures !w.overflow <==> |w.intended| <= w.buf.Length
    ensures !w.overflow ==> w.buf[..w.length] == w.intended && w.length == |w.intended|
  {}
}
