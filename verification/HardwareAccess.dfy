/** One recorded hardware access and its byte layout in a trace file. */
module HardwareAccesses {
  import opened Bytes
  import opened StreamableFiles

  datatype HardwareAccess = HardwareAccess(
    tsc: uint64,
    physicalAddress: uint64,
    kind: uint64,
    deviceId: uint64,
    deviceInstance: uint32,
    data: seq<byte>)
  {
    predicate IsValid() { tsc != 0 }

    /** The size prefix of the data is a 64-bit number. */
    predicate Encodable() { |data| < TWO_TO_THE_64 }
  }

  /** The record the reader finds at offset o, zero-filled where the file has ended. */
  function AccessAt(s: seq<byte>, o: nat): HardwareAccess {
    HardwareAccess(Uint64At(s, o), Uint64At(s, o + 8), Uint64At(s, o + 16), Uint64At(s, o + 24),
                   Uint32At(s, o + 32), VectorAt(s, o + 36))
  }

  /** Where every field stands, in bytes from the start of the record: the data follows its 8-byte size. */
  lemma AccessOffsets(s: seq<byte>, o: nat)
    ensures var a := AccessAt(s, o);
            && a.tsc == Uint64At(s, o) && a.physicalAddress == Uint64At(s, o + 8) && a.kind == Uint64At(s, o + 16)
            && a.deviceId == Uint64At(s, o + 24) && a.deviceInstance == Uint32At(s, o + 32)
            && (a.IsValid() <==> a.tsc != 0)
            && (o + 44 + Uint64At(s, o + 36) <= |s| ==>
                  a.data == s[o + 44..o + 44 + Uint64At(s, o + 36)] && AccessEnd(s, o) == o + 44 + |a.data|)
  {
    hide UintAt;
    if o + 44 <= |s| {
      VectorIsBounded(s, o + 36);
    }
  }

  /** Offset just past the record at o. */
  function AccessEnd(s: seq<byte>, o: nat): nat {
    o + 44 + |VectorAt(s, o + 36)|
  }

  function Encode(a: HardwareAccess): (e: seq<byte>)
    requires a.Encodable()
    ensures |e| == 44 + |a.data|
  {
    EncodeUint64(a.tsc) + EncodeUint64(a.physicalAddress) + EncodeUint64(a.kind) + EncodeUint64(a.deviceId)
    + EncodeUint32(a.deviceInstance) + EncodeUint64(|a.data|) + a.data
  }

  function EncodeAll(l: seq<HardwareAccess>): seq<byte>
    requires forall a <- l :: a.Encodable()
  {
    if l == [] then [] else Encode(l[0]) + EncodeAll(l[1..])
  }

  lemma EncodeAllSnoc(l: seq<HardwareAccess>, a: HardwareAccess)
    requires a.Encodable() && forall b <- l :: b.Encodable()
    ensures EncodeAll(l + [a]) == EncodeAll(l) + Encode(a)
    decreases |l|
  {
    if l == [] {
      assert EncodeAll([a]) == Encode(a) + EncodeAll([]);
    } else {
      EncodeAllSnoc(l[1..], a);
      assert (l + [a])[1..] == l[1..] + [a];
    }
  }

  /** What successive reads deliver from offset o on, up to the first record whose tsc is zero. */
  function DecodeAll(s: seq<byte>, o: nat): seq<HardwareAccess>
    decreases |s| - o
  {
    var a := AccessAt(s, o);
    if !a.IsValid() then [] else [a] + DecodeAll(s, AccessEnd(s, o))
  }

  lemma {:induction false} DecodedAreEncodable(s: seq<byte>, o: nat)
    ensures forall a <- DecodeAll(s, o) :: a.IsValid() && a.Encodable()
    decreases |s| - o
  {
    if !AccessAt(s, o).IsValid() {
    } else {
      DecodedAreEncodable(s, AccessEnd(s, o));
    }
  }

  /** Reading back one record: every field is restored and the reader stops at the first byte after it. */
  lemma AccessRoundTrip(s: seq<byte>, o: nat, a: HardwareAccess)
    requires a.Encodable() && HoldsAt(s, o, Encode(a))
    ensures AccessAt(s, o) == a
    ensures AccessEnd(s, o) == o + |Encode(a)|
  {
    var f1 := EncodeUint64(a.tsc);
    var f2 := f1 + EncodeUint64(a.physicalAddress);
    var f3 := f2 + EncodeUint64(a.kind);
    var f4 := f3 + EncodeUint64(a.deviceId);
    var f5 := f4 + EncodeUint32(a.deviceInstance);
    var f6 := f5 + EncodeUint64(|a.data|);
    assert Encode(a) == f6 + a.data;
    HoldsAtSplit(s, o, f6, a.data);
    HoldsAtSplit(s, o, f5, EncodeUint64(|a.data|));
    HoldsAtSplit(s, o, f4, EncodeUint32(a.deviceInstance));
    HoldsAtSplit(s, o, f3, EncodeUint64(a.deviceId));
    HoldsAtSplit(s, o, f2, EncodeUint64(a.kind));
    HoldsAtSplit(s, o, f1, EncodeUint64(a.physicalAddress));
    Uint64RoundTrip(s, o, a.tsc);
    Uint64RoundTrip(s, o + 8, a.physicalAddress);
    Uint64RoundTrip(s, o + 16, a.kind);
    Uint64RoundTrip(s, o + 24, a.deviceId);
    Uint32RoundTrip(s, o + 32, a.deviceInstance);
    Uint64RoundTrip(s, o + 36, |a.data|);
    VectorIsBounded(s, o + 36);
  }

  lemma Regroup<T>(l: seq<T>, whole: seq<T>, middle: seq<T>, tail: seq<T>)
    requires l != [] && whole == [l[0]] + middle && middle == l[1..] + tail
    ensures whole == l + tail
  {
  }

  lemma DecodeStep(s: seq<byte>, o: nat, a: HardwareAccess, next: nat)
    requires a.IsValid() && a.Encodable() && HoldsAt(s, o, Encode(a)) && next == o + |Encode(a)|
    ensures DecodeAll(s, o) == [a] + DecodeAll(s, next)
  {
    AccessRoundTrip(s, o, a);
  }

  /**
   * Decoding an encoded list restores it, whatever bytes precede and follow it; the reads that come
   * after it start at the first following byte.
   */
  lemma {:induction false} StreamRoundTrip(s: seq<byte>, o: nat, l: seq<HardwareAccess>, end: nat)
    requires forall a <- l :: a.IsValid() && a.Encodable()
    requires HoldsAt(s, o, EncodeAll(l)) && end == o + |EncodeAll(l)|
    ensures DecodeAll(s, o) == l + DecodeAll(s, end)
    decreases |l|
  {
    if l == [] {
    } else {
      var next := o + |Encode(l[0])|;
      HoldsAtSplit(s, o, Encode(l[0]), EncodeAll(l[1..]));
      DecodeStep(s, o, l[0], next);
      StreamRoundTrip(s, next, l[1..], end);
      Regroup(l, DecodeAll(s, o), DecodeAll(s, next), DecodeAll(s, end));
    }
  }

  /** A record without time stamp ends the list. */
  lemma StopsAtInvalid(s: seq<byte>, o: nat, a: HardwareAccess)
    requires !a.IsValid() && a.Encodable() && HoldsAt(s, o, Encode(a))
    ensures DecodeAll(s, o) == []
  {
    AccessRoundTrip(s, o, a);
  }

  const ZERO_ACCESS := HardwareAccess(0, 0, 0, 0, 0, [])

  lemma ZerosPastTheEnd(s: seq<byte>, o: nat)
    requires |s| <= o
    ensures AccessAt(s, o) == ZERO_ACCESS && AccessEnd(s, o) == o + 44
  {
  }

  /** At the end of the file there is nothing more to decode. */
  lemma NothingPastTheEnd(s: seq<byte>, o: nat)
    requires |s| <= o
    ensures DecodeAll(s, o) == []
  {
  }
}
