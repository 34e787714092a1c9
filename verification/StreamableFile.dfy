/** The input stream under every trace reader. */
module StreamableFiles {
  import opened Bytes

  /** Number of items the byte-vector reader takes when the length prefix stands at offset o. */
  function VectorLength(s: seq<byte>, o: nat): (n: uint64) {
    var size, first := Uint64At(s, o), o + 8;
    if |s| < first then 0
    else if size <= |s| - first then size
    else |s| - first + 1
  }

  /** The n bytes at offset o, with zeros for those past the end. */
  function BytesAt(s: seq<byte>, o: nat, n: nat): (v: seq<byte>)
    ensures |v| == n
    ensures forall i :: 0 <= i < n ==> v[i] == ByteAt(s, o + i)
    decreases n, o
  {
    if n == 0 then [] else [ByteAt(s, o)] + BytesAt(s, o + 1, n - 1)
  }

  function VectorAt(s: seq<byte>, o: nat): (v: seq<byte>)
    ensures |v| == VectorLength(s, o)
  {
    BytesAt(s, o + 8, VectorLength(s, o))
  }

  /**
   * A binary input file. `offset` is the get position; past the end, and after a seek that the
   * library refuses, only zeros are read, so there the exact offset cannot be observed.
   */
  class StreamableFile {
    const bytes: seq<byte>
    var offset: nat
    var eof: bool     // the class's own end-of-file flag
    var fail: bool    // failbit of the underlying stream; tellg() then returns -1
    var isOpen: bool

    ghost predicate Valid()
      reads this
    {
      && (eof || fail ==> |bytes| <= offset)
      && (eof ==> fail)
      && (!isOpen ==> eof)
      && (!fail ==> offset <= |bytes| || offset < TWO_TO_THE_63)
    }

    /** Reads return bytes of the file (or run into its end). */
    ghost predicate Live()
      reads this
    {
      Valid() && !eof && !fail
    }

    /** What reading k bytes, k > 0, does to the stream. */
    twostate predicate Consumed(k: nat)
      reads this
    {
      && Valid()
      && offset == old(offset) + k
      && isOpen == old(isOpen)
      && (old(Live()) ==> eof == fail == (|bytes| < offset))
      && (!old(Live()) ==> eof == old(eof) && fail == old(fail))
    }

    constructor (contents: seq<byte>)
      ensures Live() && isOpen && bytes == contents && offset == 0
    {
      bytes := contents;
      offset, eof, fail, isOpen := 0, false, false, true;
    }

    /** A file that could not be opened, or was closed. */
    constructor Closed()
      ensures Valid() && eof && !isOpen && bytes == []
    {
      bytes := [];
      offset, eof, fail, isOpen := 0, true, true, false;
    }

    method Close()
      requires Valid()
      modifies this
      ensures Valid() && eof && !isOpen
    {
      offset, eof, fail, isOpen := |bytes|, true, true, false;
    }

    method Seek(pos: uint64)
      requires Valid()
      modifies this
      ensures Valid() && isOpen == old(isOpen)
      ensures isOpen && pos < TWO_TO_THE_63 ==> Live() && offset == pos
      ensures isOpen && TWO_TO_THE_63 <= pos ==> fail && !eof
    {
      if !isOpen {
        // check_eof sees that the stream is not open
      } else if pos < TWO_TO_THE_63 {
        offset, eof, fail := pos, false, false;
      } else {
        // the position is negative as a signed stream offset and is refused
        offset, eof, fail := |bytes|, false, true;
      }
    }

    /** Moves by a signed distance; a negative one leads behind the end. */
    method SeekFromEnd(pos: int64)
      requires Valid()
      modifies this
      ensures Valid() && isOpen == old(isOpen)
      ensures isOpen && 0 <= |bytes| - pos < TWO_TO_THE_63 ==> Live() && offset == |bytes| - pos
      ensures isOpen && !(0 <= |bytes| - pos < TWO_TO_THE_63) ==> fail && !eof
    {
      if !isOpen {
        // check_eof sees that the stream is not open
      } else if 0 <= |bytes| - pos < TWO_TO_THE_63 {
        offset, eof, fail := |bytes| - pos, false, false;
      } else {
        offset, eof, fail := |bytes|, false, true;
      }
    }

    function Pos(): (p: int)
      reads this
    {
      if fail then TWO_TO_THE_64 - 1 else offset
    }

    /** Clears the buffer, then fills the part of it that the file still covers. */
    method ReadRaw(destination: array<byte>)
      requires Valid() && 0 < destination.Length
      modifies this, destination
      ensures Consumed(destination.Length)
      ensures forall i :: 0 <= i < destination.Length ==>
                            destination[i] == ByteAt(bytes, old(offset) + i)
    {
      forall i | 0 <= i < destination.Length {
        destination[i] := 0;
      }
      if !eof && !fail {
        var left := if offset < |bytes| then |bytes| - offset else 0;
        forall i | 0 <= i < destination.Length && i < left {
          destination[i] := bytes[offset + i];
        }
        eof := left < destination.Length;
        fail := eof;
      }
      offset := offset + destination.Length;
    }

    method ReadUint8() returns (v: byte)
      requires Valid()
      modifies this
      ensures Consumed(1) && v == ByteAt(bytes, old(offset))
    {
      var buffer := new byte[1];
      ReadRaw(buffer);
      v := buffer[0];
    }

    method ReadUint16() returns (v: uint16)
      requires Valid()
      modifies this
      ensures Consumed(2) && v == Uint16At(bytes, old(offset))
    {
      hide UintAt;
      var buffer := new byte[2];
      ReadRaw(buffer);
      FilledBuffer(buffer[..], 0, bytes, old(offset));
      v := Uint16At(buffer[..], 0);
    }

    method ReadUint32() returns (v: uint32)
      requires Valid()
      modifies this
      ensures Consumed(4) && v == Uint32At(bytes, old(offset))
    {
      hide UintAt;
      var buffer := new byte[4];
      ReadRaw(buffer);
      FilledBuffer(buffer[..], 0, bytes, old(offset));
      v := Uint32At(buffer[..], 0);
    }

    method ReadUint64() returns (v: uint64)
      requires Valid()
      modifies this
      ensures Consumed(8) && v == Uint64At(bytes, old(offset))
    {
      hide UintAt;
      var buffer := new byte[8];
      ReadRaw(buffer);
      FilledBuffer(buffer[..], 0, bytes, old(offset));
      v := Uint64At(buffer[..], 0);
    }

    /** The byte-vector reader: it stops at the declared size or after the read that met the end. */
    method ReadVector() returns (data: seq<byte>)
      requires Valid()
      modifies this
      ensures data == VectorAt(bytes, old(offset))
      ensures Consumed(8 + |data|)
    {
      var size := ReadUint64();
      data := [];
      ghost var first := offset;
      var i := 0;
      while i < size && !eof
        invariant Consumed(8 + i)
        invariant first == old(offset) + 8
        invariant 0 <= i == |data| <= size
        invariant first <= |bytes| ==> i <= |bytes| - first + 1
        invariant |bytes| < first ==> i == 0
        invariant forall k :: 0 <= k < i ==> data[k] == ByteAt(bytes, first + k)
        invariant !old(Live()) ==> i == 0
      {
        var item := ReadUint8();
        data := data + [item];
        i := i + 1;
      }
    }
  }

  /**
   * A declared size never makes the vector reader run past the end by more than one item:
   * with r bytes left after the prefix it takes the smaller of the size and r + 1.
   */
  lemma VectorIsBounded(s: seq<byte>, o: nat)
    requires o + 8 <= |s|
    ensures var size, left := Uint64At(s, o), |s| - (o + 8);
            |VectorAt(s, o)| == if size <= left + 1 then size else left + 1
    ensures |VectorAt(s, o)| <= |s| - (o + 8) ==> VectorAt(s, o) == s[o + 8..o + 8 + Uint64At(s, o)]
  {
  }
}
