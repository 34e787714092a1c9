/** Little-endian integers inside byte sequences, read with zero fill past the end. */
module Bytes {

  const TWO_TO_THE_63: int := 0x8000_0000_0000_0000
  const TWO_TO_THE_64: int := 0x1_0000_0000_0000_0000

  type byte = x: int | 0 <= x < 0x100
  type uint16 = x: int | 0 <= x < 0x1_0000
  type uint32 = x: int | 0 <= x < 0x1_0000_0000
  type uint64 = x: int | 0 <= x < TWO_TO_THE_64
  type int64 = x: int | -TWO_TO_THE_63 <= x < TWO_TO_THE_63

  /** The conversion of an unsigned 64-bit integer to a signed one. */
  function Signed(v: uint64): (n: int64)
    ensures (n - v) % TWO_TO_THE_64 == 0
  {
    if v < TWO_TO_THE_63 then v else v - TWO_TO_THE_64
  }

  /** The byte at index i, or the zero a read past the end leaves in its buffer. */
  function ByteAt(s: seq<byte>, i: nat): byte {
    if i < |s| then s[i] else 0
  }

  /** Number of values of a little-endian integer of the given width in bytes. */
  function Pow256(width: nat): (p: nat)
    ensures 1 <= p
  {
    if width == 0 then 1 else 0x100 * Pow256(width - 1)
  }

  function UintAt(s: seq<byte>, o: nat, width: nat): (v: nat)
    ensures v < Pow256(width)
    ensures |s| <= o ==> v == 0
    decreases width, o
  {
    if width == 0 then 0 else ByteAt(s, o) + 0x100 * UintAt(s, o + 1, width - 1)
  }

  function Uint16At(s: seq<byte>, o: nat): uint16 {
    UintAt(s, o, 2)
  }

  function Uint32At(s: seq<byte>, o: nat): uint32 {
    UintAt(s, o, 4)
  }

  function Uint64At(s: seq<byte>, o: nat): uint64 {
    UintAt(s, o, 8)
  }

  /** The first byte is the least significant one. */
  lemma LittleEndian(s: seq<byte>, o: nat)
    ensures Uint16At(s, o) == ByteAt(s, o) + 0x100 * ByteAt(s, o + 1)
    ensures Uint32At(s, o) == Uint16At(s, o) + 0x1_0000 * Uint16At(s, o + 2)
    ensures Uint64At(s, o) == Uint32At(s, o) + 0x1_0000_0000 * Uint32At(s, o + 4)
  {
    assert forall p: nat :: UintAt(s, p, 2) == ByteAt(s, p) + 0x100 * ByteAt(s, p + 1) by {
      forall p: nat ensures UintAt(s, p, 2) == ByteAt(s, p) + 0x100 * ByteAt(s, p + 1) {
        assert UintAt(s, p + 1, 1) == ByteAt(s, p + 1) + 0x100 * UintAt(s, p + 2, 0);
      }
    }
    SplitUint(s, o, 2, 2);
    SplitUint(s, o, 4, 4);
  }

  lemma {:induction false} SplitUint(s: seq<byte>, o: nat, low: nat, high: nat)
    ensures UintAt(s, o, low + high) == UintAt(s, o, low) + Pow256(low) * UintAt(s, o + low, high)
    decreases low
  {
    if low == 0 {
    } else {
      SplitUint(s, o + 1, low - 1, high);
      Scale(Pow256(low - 1), UintAt(s, o + low, high));
    }
  }

  lemma Scale(p: nat, v: nat)
    ensures 0x100 * (p * v) == (0x100 * p) * v
  {
  }

  /** A buffer filled from s at o holds the integer that stands there. */
  lemma {:induction false} FilledBuffer(buffer: seq<byte>, k: nat, s: seq<byte>, o: nat)
    requires k <= |buffer|
    requires forall i :: 0 <= i < |buffer| ==> buffer[i] == ByteAt(s, o + i)
    ensures UintAt(buffer, k, |buffer| - k) == UintAt(s, o + k, |buffer| - k)
    decreases |buffer| - k
  {
    if k == |buffer| {
    } else {
      assert buffer[k] == ByteAt(s, o + k);
      FilledBuffer(buffer, k + 1, s, o);
    }
  }

  function EncodeUint(v: nat, width: nat): (e: seq<byte>)
    ensures |e| == width
    decreases width, v
  {
    if width == 0 then [] else [v % 0x100] + EncodeUint(v / 0x100, width - 1)
  }

  function EncodeUint32(v: uint32): (e: seq<byte>)
    ensures |e| == 4
  {
    EncodeUint(v, 4)
  }

  function EncodeUint64(v: uint64): (e: seq<byte>)
    ensures |e| == 8
  {
    EncodeUint(v, 8)
  }

  /** The bytes e stand in s at offset o. */
  ghost predicate HoldsAt(s: seq<byte>, o: nat, e: seq<byte>) {
    o + |e| <= |s| && s[o..o + |e|] == e
  }

  lemma HoldsAtSplit(s: seq<byte>, o: nat, e: seq<byte>, f: seq<byte>)
    requires HoldsAt(s, o, e + f)
    ensures HoldsAt(s, o, e) && HoldsAt(s, o + |e|, f)
  {
    var whole := s[o..o + |e + f|];
    assert s[o..o + |e|] == whole[..|e|] == e;
    assert s[o + |e|..o + |e| + |f|] == whole[|e|..] == f;
  }

  /** An integer written by the out-stream is the integer read back, wherever it stands in a file. */
  lemma {:induction false} UintRoundTrip(s: seq<byte>, o: nat, v: nat, width: nat)
    requires v < Pow256(width) && HoldsAt(s, o, EncodeUint(v, width))
    ensures UintAt(s, o, width) == v
    decreases width
  {
    if width == 0 {
    } else {
      HoldsAtSplit(s, o, [v % 0x100], EncodeUint(v / 0x100, width - 1));
      assert s[o] == s[o..o + 1][0];
      UintRoundTrip(s, o + 1, v / 0x100, width - 1);
    }
  }

  lemma Uint32RoundTrip(s: seq<byte>, o: nat, v: uint32)
    requires HoldsAt(s, o, EncodeUint32(v))
    ensures Uint32At(s, o) == v
  {
    UintRoundTrip(s, o, v, 4);
  }

  lemma Uint64RoundTrip(s: seq<byte>, o: nat, v: uint64)
    requires HoldsAt(s, o, EncodeUint64(v))
    ensures Uint64At(s, o) == v
  {
    UintRoundTrip(s, o, v, 8);
  }

  // ---- Pieces that stand one behind the other

  function Flatten(pieces: seq<seq<byte>>): seq<byte> {
    if pieces == [] then [] else pieces[0] + Flatten(pieces[1..])
  }

  /** Every piece stands behind all those before it. */
  lemma {:induction false} PieceStands(s: seq<byte>, o: nat, pieces: seq<seq<byte>>, i: nat)
    requires HoldsAt(s, o, Flatten(pieces)) && i < |pieces|
    ensures HoldsAt(s, o + |Flatten(pieces[..i])|, pieces[i])
    ensures |Flatten(pieces[..i])| <= |Flatten(pieces)|
    decreases i
  {
    HoldsAtSplit(s, o, pieces[0], Flatten(pieces[1..]));
    hide HoldsAt;
    if i == 0 {
      assert pieces[..0] == [];
    } else {
      PieceStands(s, o + |pieces[0]|, pieces[1..], i - 1);
      assert pieces[..i][1..] == pieces[1..][..i - 1];
    }
  }

  lemma {:induction false} EqualPieces(pieces: seq<seq<byte>>, size: nat)
    requires forall p <- pieces :: |p| == size
    ensures |Flatten(pieces)| == size * |pieces|
    decreases |pieces|
  {
    if pieces == [] {
    } else {
      EqualPieces(pieces[1..], size);
      assert size * |pieces| == size + size * (|pieces| - 1);
    }
  }
}
