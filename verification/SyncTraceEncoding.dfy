/** A reference writer for version 3 traces, and the reader's inverse of it. */
module SyncTraceEncoding {
  import opened Bytes
  import opened StreamableFiles
  import opened SyncPoints
  import opened SyncTraces
  import opened SyncTraceFiles

  /** Fields in file order: value and width in bytes. */
  datatype Field = Field(value: nat, width: nat)

  predicate Fits(f: Field) {
    f.value < Pow256(f.width)
  }

  function EncodeFields(fs: seq<Field>): seq<byte> {
    if fs == [] then [] else EncodeUint(fs[0].value, fs[0].width) + EncodeFields(fs[1..])
  }

  ghost function Width(fs: seq<Field>): nat {
    if fs == [] then 0 else fs[0].width + Width(fs[1..])
  }

  /** The fields stand side by side in s from offset o on. */
  ghost predicate FieldsAt(s: seq<byte>, o: nat, fs: seq<Field>)
    decreases |fs|
  {
    fs == [] || (UintAt(s, o, fs[0].width) == fs[0].value && FieldsAt(s, o + fs[0].width, fs[1..]))
  }

  lemma {:induction false} EncodedFields(s: seq<byte>, o: nat, fs: seq<Field>)
    requires HoldsAt(s, o, EncodeFields(fs)) && forall f <- fs :: Fits(f)
    ensures FieldsAt(s, o, fs) && |EncodeFields(fs)| == Width(fs)
    decreases |fs|
  {
    if fs == [] {
    } else {
      assert Fits(fs[0]);
      HoldsAtSplit(s, o, EncodeUint(fs[0].value, fs[0].width), EncodeFields(fs[1..]));
      UintRoundTrip(s, o, fs[0].value, fs[0].width);
      EncodedFields(s, o + fs[0].width, fs[1..]);
    }
  }

  lemma {:induction false} FieldsSplit(s: seq<byte>, o: nat, fs: seq<Field>, gs: seq<Field>)
    requires FieldsAt(s, o, fs + gs)
    ensures FieldsAt(s, o, fs) && FieldsAt(s, o + Width(fs), gs)
    ensures Width(fs + gs) == Width(fs) + Width(gs)
    decreases |fs|
  {
    if fs == [] {
      assert fs + gs == gs;
    } else {
      assert (fs + gs)[1..] == fs[1..] + gs;
      FieldsSplit(s, o + fs[0].width, fs[1..], gs);
    }
  }

  function Four(a: uint64, b: uint64, c: uint64, d: uint64): seq<Field> {
    [Field(a, 8), Field(b, 8), Field(c, 8), Field(d, 8)]
  }

  lemma FourFit(a: uint64, b: uint64, c: uint64, d: uint64)
    ensures forall f <- Four(a, b, c, d) :: Fits(f)
  {
  }

  lemma FieldHead(s: seq<byte>, o: nat, f: Field, gs: seq<Field>)
    requires FieldsAt(s, o, [f] + gs)
    ensures UintAt(s, o, f.width) == f.value && FieldsAt(s, o + f.width, gs)
    ensures Width([f] + gs) == f.width + Width(gs)
  {
    assert ([f] + gs)[1..] == gs;
  }

  lemma FourAt(s: seq<byte>, o: nat, a: uint64, b: uint64, c: uint64, d: uint64)
    requires FieldsAt(s, o, Four(a, b, c, d))
    ensures Uint64At(s, o) == a && Uint64At(s, o + 8) == b && Uint64At(s, o + 16) == c && Uint64At(s, o + 24) == d
    ensures Width(Four(a, b, c, d)) == 32
  {
    hide UintAt;
    var f1, f2, f3, f4 := Field(a, 8), Field(b, 8), Field(c, 8), Field(d, 8);
    assert [f1, f2, f3, f4] == [f1] + [f2, f3, f4];
    assert [f2, f3, f4] == [f2] + [f3, f4] && [f3, f4] == [f3] + [f4] && [f4] == [f4] + [];
    FieldHead(s, o, f1, [f2, f3, f4]);
    FieldHead(s, o + 8, f2, [f3, f4]);
    FieldHead(s, o + 16, f3, [f4]);
    FieldHead(s, o + 24, f4, []);
  }

  // ---- One record

  function HeadFields(r: Record): seq<Field> {
    [Field(r.tsc, 8), Field(r.rawType, 2), Field(r.cs, 2)]
  }

  function GprFields(g: Gprs): seq<Field> {
    Four(g.rax, g.rbx, g.rcx, g.rdx) + (Four(g.rsi, g.rdi, g.rbp, g.rsp)
    + (Four(g.r8, g.r9, g.r10, g.r11) + Four(g.r12, g.r13, g.r14, g.r15)))
  }

  function FlowFields(r: Record): seq<Field> {
    [Field(r.rip, 8), Field(r.rflags, 8)]
  }

  function CrFields(c: Crs): seq<Field> {
    Four(c.cr0, c.cr2, c.cr3, c.cr4)
  }

  function TailFields(r: Record, dataOffset: nat): seq<Field> {
    [Field(dataOffset, 4), Field(r.fpu.sw, 2), Field(r.fpu.cw, 2), Field(r.fpu.tags, 1), Field(r.faultErrorCode, 4)]
  }

  function RecordFields(r: Record, dataOffset: nat): seq<Field> {
    HeadFields(r) + (GprFields(r.gprs) + (FlowFields(r) + (CrFields(r.crs) + TailFields(r, dataOffset))))
  }

  lemma HeadAt(s: seq<byte>, o: nat, r: Record)
    requires FieldsAt(s, o, HeadFields(r))
    ensures Uint64At(s, o) == r.tsc && Uint16At(s, o + 8) == r.rawType && Uint16At(s, o + 10) == r.cs
    ensures Width(HeadFields(r)) == 12
  {
    hide UintAt;
    var f1, f2, f3 := Field(r.tsc, 8), Field(r.rawType, 2), Field(r.cs, 2);
    assert [f1, f2, f3] == [f1] + [f2, f3] && [f2, f3] == [f2] + [f3] && [f3] == [f3] + [];
    FieldHead(s, o, f1, [f2, f3]);
    FieldHead(s, o + 8, f2, [f3]);
    FieldHead(s, o + 10, f3, []);
  }

  lemma GprsRead(s: seq<byte>, o: nat, g: Gprs)
    requires FieldsAt(s, o, GprFields(g))
    ensures GprsAt(s, o) == g && Width(GprFields(g)) == 128
  {
    hide Uint64At;
    hide FieldsAt;
    var q1, q2 := Four(g.rax, g.rbx, g.rcx, g.rdx), Four(g.rsi, g.rdi, g.rbp, g.rsp);
    var q3, q4 := Four(g.r8, g.r9, g.r10, g.r11), Four(g.r12, g.r13, g.r14, g.r15);
    hide Four;
    FieldsSplit(s, o, q1, q2 + (q3 + q4));
    FourAt(s, o, g.rax, g.rbx, g.rcx, g.rdx);
    FieldsSplit(s, o + 32, q2, q3 + q4);
    FourAt(s, o + 32, g.rsi, g.rdi, g.rbp, g.rsp);
    FieldsSplit(s, o + 64, q3, q4);
    FourAt(s, o + 64, g.r8, g.r9, g.r10, g.r11);
    FourAt(s, o + 96, g.r12, g.r13, g.r14, g.r15);
  }

  lemma FlowAt(s: seq<byte>, o: nat, r: Record)
    requires FieldsAt(s, o, FlowFields(r))
    ensures Uint64At(s, o) == r.rip && Uint64At(s, o + 8) == r.rflags && Width(FlowFields(r)) == 16
  {
    hide UintAt;
    var f1, f2 := Field(r.rip, 8), Field(r.rflags, 8);
    assert [f1, f2] == [f1] + [f2] && [f2] == [f2] + [];
    FieldHead(s, o, f1, [f2]);
    FieldHead(s, o + 8, f2, []);
  }

  lemma TailAt(s: seq<byte>, o: nat, r: Record, dataOffset: uint32)
    requires FieldsAt(s, o, TailFields(r, dataOffset))
    ensures Uint32At(s, o) == dataOffset && FpuAt(s, o + 4) == r.fpu && Uint32At(s, o + 9) == r.faultErrorCode
    ensures Width(TailFields(r, dataOffset)) == 13
  {
    OneByte(s, o + 8);
    hide UintAt;
    var f1, f2, f3 := Field(dataOffset, 4), Field(r.fpu.sw, 2), Field(r.fpu.cw, 2);
    var f4, f5 := Field(r.fpu.tags, 1), Field(r.faultErrorCode, 4);
    assert [f1, f2, f3, f4, f5] == [f1] + [f2, f3, f4, f5] && [f2, f3, f4, f5] == [f2] + [f3, f4, f5];
    assert [f3, f4, f5] == [f3] + [f4, f5] && [f4, f5] == [f4] + [f5] && [f5] == [f5] + [];
    FieldHead(s, o, f1, [f2, f3, f4, f5]);
    FieldHead(s, o + 4, f2, [f3, f4, f5]);
    FieldHead(s, o + 6, f3, [f4, f5]);
    FieldHead(s, o + 8, f4, [f5]);
    FieldHead(s, o + 9, f5, []);
  }

  lemma OneByte(s: seq<byte>, o: nat)
    ensures UintAt(s, o, 1) == ByteAt(s, o)
  {
    assert UintAt(s, o + 1, 0) == 0;
  }

  /** A record's fields are read back from where they stand, and they fill 201 bytes. */
  lemma FieldsRead(s: seq<byte>, o: nat, r: Record, dataOffset: uint32)
    requires FieldsAt(s, o, RecordFields(r, dataOffset))
    ensures RecordAt(s, o, [], false) == r.(data := []) && DataOffsetAt(s, o) == dataOffset
    ensures Width(RecordFields(r, dataOffset)) == RECORD_FIELDS_SIZE
  {
    hide FieldsAt;
    hide UintAt;
    var head, gprs, flow, crs, tail :=
      HeadFields(r), GprFields(r.gprs), FlowFields(r), CrFields(r.crs), TailFields(r, dataOffset);
    hide HeadFields;
    hide GprFields;
    hide FlowFields;
    hide TailFields;
    hide GprsAt;
    hide FpuAt;
    FieldsSplit(s, o, head, gprs + (flow + (crs + tail)));
    HeadAt(s, o, r);
    FieldsSplit(s, o + 12, gprs, flow + (crs + tail));
    GprsRead(s, o + 12, r.gprs);
    FieldsSplit(s, o + 140, flow, crs + tail);
    FlowAt(s, o + 140, r);
    FieldsSplit(s, o + 156, crs, tail);
    FourAt(s, o + 156, r.crs.cr0, r.crs.cr2, r.crs.cr3, r.crs.cr4);
    TailAt(s, o + 188, r, dataOffset);
  }

  lemma FieldsFit(r: Record, dataOffset: uint32)
    ensures forall f <- RecordFields(r, dataOffset) :: Fits(f)
  {
    var g := r.gprs;
    FourFit(g.rax, g.rbx, g.rcx, g.rdx);
    FourFit(g.rsi, g.rdi, g.rbp, g.rsp);
    FourFit(g.r8, g.r9, g.r10, g.r11);
    FourFit(g.r12, g.r13, g.r14, g.r15);
    FourFit(r.crs.cr0, r.crs.cr2, r.crs.cr3, r.crs.cr4);
    hide Four;
  }

  function Zeros(n: nat): (z: seq<byte>)
    ensures |z| == n && forall i :: 0 <= i < n ==> z[i] == 0
  {
    if n == 0 then [] else [0] + Zeros(n - 1)
  }

  /** A record whose data blocks stand at an offset of the data file, padded to the record size. */
  function EncodeRecord(r: Record, recordSize: nat, dataOffset: nat): seq<byte>
    requires RECORD_FIELDS_SIZE <= recordSize
  {
    EncodeFields(RecordFields(r, dataOffset)) + Zeros(recordSize - RECORD_FIELDS_SIZE)
  }

  /** The data blocks of a record stand at its offset, which is zero when it has none. */
  ghost predicate HasBlocks(r: Record, dataOffset: uint32, blocks: seq<byte>) {
    if dataOffset == 0 then r.data == []
    else BlocksAt(blocks, dataOffset) == r.data && BlocksEnd(blocks, dataOffset) <= |blocks|
  }

  lemma RecordRoundTrip(s: seq<byte>, o: nat, r: Record, recordSize: nat, dataOffset: uint32, blocks: seq<byte>)
    requires RECORD_FIELDS_SIZE <= recordSize && HoldsAt(s, o, EncodeRecord(r, recordSize, dataOffset))
    requires HasBlocks(r, dataOffset, blocks)
    ensures RecordAt(s, o, blocks, true) == r && DataOffsetAt(s, o) == dataOffset
    ensures |EncodeRecord(r, recordSize, dataOffset)| == recordSize
  {
    RecordData(s, o, blocks, true);
    hide RecordAt;
    hide DataOffsetAt;
    hide BlocksAt;
    hide BlocksEnd;
    var fields := RecordFields(r, dataOffset);
    HoldsAtSplit(s, o, EncodeFields(fields), Zeros(recordSize - RECORD_FIELDS_SIZE));
    FieldsFit(r, dataOffset);
    hide RecordFields;
    EncodedFields(s, o, fields);
    FieldsRead(s, o, r, dataOffset);
  }

  // ---- Data blocks

  /** A block's type is not the one that ends a list, and the size of its data is a 64-bit number. */
  predicate Writable(b: PointData) {
    b.kind != 0 && |b.data| < TWO_TO_THE_64
  }

  function EncodeBlock(b: PointData): seq<byte> {
    EncodeUint32(b.kind) + (EncodeUint64(b.offset) + (EncodeUint(|b.data|, 8) + b.data))
  }

  function EncodeBlocks(bs: seq<PointData>): seq<byte> {
    if bs == [] then EncodeUint32(0) else EncodeBlock(bs[0]) + EncodeBlocks(bs[1..])
  }

  lemma BlockRoundTrip(s: seq<byte>, o: nat, b: PointData)
    requires Writable(b) && HoldsAt(s, o, EncodeBlock(b))
    ensures PointData(Uint32At(s, o), Uint64At(s, o + 4), VectorAt(s, o + 12)) == b
    ensures NextBlock(s, o) == o + |EncodeBlock(b)|
  {
    var size, offset := EncodeUint(|b.data|, 8), EncodeUint64(b.offset);
    HoldsAtSplit(s, o, EncodeUint32(b.kind), offset + (size + b.data));
    HoldsAtSplit(s, o + 4, offset, size + b.data);
    HoldsAtSplit(s, o + 12, size, b.data);
    Uint32RoundTrip(s, o, b.kind);
    Uint64RoundTrip(s, o + 4, b.offset);
    Uint64RoundTrip(s, o + 12, |b.data|);
    VectorIsBounded(s, o + 12);
  }

  /** A list of data blocks is read back, up to its end, wherever it stands in the data file. */
  lemma {:induction false} BlocksRoundTrip(s: seq<byte>, o: nat, bs: seq<PointData>)
    requires (forall b <- bs :: Writable(b)) && HoldsAt(s, o, EncodeBlocks(bs))
    ensures BlocksAt(s, o) == bs && BlocksEnd(s, o) == o + |EncodeBlocks(bs)|
    decreases |bs|
  {
    hide UintAt;
    hide VectorAt;
    hide NextBlock;
    hide EncodeBlock;
    if bs == [] {
      Uint32RoundTrip(s, o, 0);
    } else {
      HoldsAtSplit(s, o, EncodeBlock(bs[0]), EncodeBlocks(bs[1..]));
      BlockRoundTrip(s, o, bs[0]);
      BlocksRoundTrip(s, NextBlock(s, o), bs[1..]);
    }
  }

  /** A record that can be written: its data blocks are, and its type is not that of a ghost interrupt. */
  predicate WritableRecord(r: Record) {
    (forall b <- r.data :: Writable(b)) && !r.IsGhostInterrupt()
  }

  /** What a record adds to the data file. */
  function DataOf(r: Record): seq<byte> {
    if r.data == [] then [] else EncodeBlocks(r.data)
  }

  function DataPieces(rs: seq<Record>): (pieces: seq<seq<byte>>)
    ensures |pieces| == |rs|
  {
    seq(|rs|, i requires 0 <= i < |rs| => DataOf(rs[i]))
  }

  /** Offset of the first data block, behind the magic number. */
  const DATA_START: nat := 8

  /** Where the data blocks of the i-th record stand in the data file, or zero if it has none. */
  function OffsetOf(rs: seq<Record>, i: nat): nat
    requires i < |rs|
  {
    if rs[i].data == [] then 0 else DATA_START + |Flatten(DataPieces(rs)[..i])|
  }

  function EncodeData(rs: seq<Record>): seq<byte> {
    EncodeUint64(SYNC_POINT_DATA_MAGIC) + Flatten(DataPieces(rs))
  }

  lemma DataLayout(rs: seq<Record>)
    ensures Uint64At(EncodeData(rs), 0) == SYNC_POINT_DATA_MAGIC
    ensures HoldsAt(EncodeData(rs), DATA_START, Flatten(DataPieces(rs)))
    ensures |EncodeData(rs)| == DATA_START + |Flatten(DataPieces(rs))|
  {
    var s, magic, pieces := EncodeData(rs), EncodeUint64(SYNC_POINT_DATA_MAGIC), Flatten(DataPieces(rs));
    assert HoldsAt(s, 0, magic + pieces);
    HoldsAtSplit(s, 0, magic, pieces);
    Uint64RoundTrip(s, 0, SYNC_POINT_DATA_MAGIC);
  }

  lemma BlocksStand(rs: seq<Record>, i: nat)
    requires i < |rs| && WritableRecord(rs[i]) && |EncodeData(rs)| < 0x1_0000_0000
    ensures OffsetOf(rs, i) < 0x1_0000_0000 && HasBlocks(rs[i], OffsetOf(rs, i), EncodeData(rs))
  {
    DataLayout(rs);
    PieceStands(EncodeData(rs), DATA_START, DataPieces(rs), i);
    if rs[i].data != [] {
      hide BlocksAt;
      hide BlocksEnd;
      BlocksRoundTrip(EncodeData(rs), OffsetOf(rs, i), rs[i].data);
    }
  }

  // ---- A whole trace

  function RecordPieces(rs: seq<Record>, recordSize: nat): (pieces: seq<seq<byte>>)
    requires RECORD_FIELDS_SIZE <= recordSize
    ensures |pieces| == |rs|
  {
    seq(|rs|, i requires 0 <= i < |rs| => EncodeRecord(rs[i], recordSize, OffsetOf(rs, i)))
  }

  function HeaderFields(recordSize: uint32): seq<Field> {
    [Field(SYNC_POINT_MAGIC, 8), Field(SYNC_POINT_FILE_VERSION, 4), Field(0, 4), Field(recordSize, 4)]
  }

  /** What the file format can hold: whole records, and data blocks that 32-bit offsets reach. */
  ghost predicate Encodable(rs: seq<Record>, recordSize: nat) {
    && RECORD_FIELDS_SIZE <= recordSize && Offset(recordSize, |rs|) < TWO_TO_THE_63
    && |EncodeData(rs)| < 0x1_0000_0000 && forall r <- rs :: WritableRecord(r)
  }

  function EncodeTrace(rs: seq<Record>, recordSize: uint32): seq<byte>
    requires RECORD_FIELDS_SIZE <= recordSize
  {
    EncodeFields(HeaderFields(recordSize))
    + (Zeros(HEADER_SIZE - HEADER_FIELDS_SIZE) + Flatten(RecordPieces(rs, recordSize)))
  }

  /** The canonical points of a list of records. */
  function PointsOf(rs: seq<Record>): (pts: seq<Point>)
    ensures |pts| == |rs| && forall i :: 0 <= i < |rs| ==> pts[i] == Decode(rs[i], 0)
  {
    if rs == [] then [] else [Decode(rs[0], 0)] + PointsOf(rs[1..])
  }

  lemma HeaderFits(recordSize: uint32)
    ensures forall f <- HeaderFields(recordSize) :: Fits(f)
  {
  }

  lemma HeaderRead(s: seq<byte>, recordSize: uint32)
    requires HoldsAt(s, 0, EncodeFields(HeaderFields(recordSize)))
    ensures Uint64At(s, 0) == SYNC_POINT_MAGIC && Uint32At(s, 8) == SYNC_POINT_FILE_VERSION
    ensures RecordSize(s) == recordSize && |EncodeFields(HeaderFields(recordSize))| == HEADER_FIELDS_SIZE
  {
    var f1, f2 := Field(SYNC_POINT_MAGIC, 8), Field(SYNC_POINT_FILE_VERSION, 4);
    var f3, f4 := Field(0, 4), Field(recordSize, 4);
    HeaderFits(recordSize);
    hide Fits;
    hide UintAt;
    hide EncodeFields;
    hide HoldsAt;
    EncodedFields(s, 0, [f1, f2, f3, f4]);
    assert [f1, f2, f3, f4] == [f1] + [f2, f3, f4];
    assert [f2, f3, f4] == [f2] + [f3, f4] && [f3, f4] == [f3] + [f4] && [f4] == [f4] + [];
    FieldHead(s, 0, f1, [f2, f3, f4]);
    FieldHead(s, 8, f2, [f3, f4]);
    FieldHead(s, 12, f3, [f4]);
    FieldHead(s, 16, f4, []);
  }

  lemma RecordSizeIs(r: Record, recordSize: nat, dataOffset: uint32)
    requires RECORD_FIELDS_SIZE <= recordSize
    ensures |EncodeRecord(r, recordSize, dataOffset)| == recordSize
  {
    var fields := RecordFields(r, dataOffset);
    var s := EncodeFields(fields);
    FieldsFit(r, dataOffset);
    assert HoldsAt(s, 0, s);
    hide RecordFields;
    EncodedFields(s, 0, fields);
    FieldsRead(s, 0, r, dataOffset);
  }

  lemma RecordsSize(rs: seq<Record>, recordSize: nat)
    requires Encodable(rs, recordSize)
    ensures |Flatten(RecordPieces(rs, recordSize))| == recordSize * |rs|
    ensures forall i | 0 <= i < |rs| :: |Flatten(RecordPieces(rs, recordSize)[..i])| == recordSize * i
  {
    var pieces := RecordPieces(rs, recordSize);
    forall i | 0 <= i < |rs| ensures |pieces[i]| == recordSize {
      assert WritableRecord(rs[i]);
      BlocksStand(rs, i);
      RecordSizeIs(rs[i], recordSize, OffsetOf(rs, i));
    }
    EqualPieces(pieces, recordSize);
    forall i | 0 <= i < |rs| ensures |Flatten(pieces[..i])| == recordSize * i {
      EqualPieces(pieces[..i], recordSize);
    }
  }

  lemma TraceLayout(rs: seq<Record>, recordSize: uint32)
    requires Encodable(rs, recordSize)
    ensures var s := EncodeTrace(rs, recordSize);
            && Uint64At(s, 0) == SYNC_POINT_MAGIC && Uint32At(s, 8) == SYNC_POINT_FILE_VERSION
            && RecordSize(s) == recordSize
            && HoldsAt(s, HEADER_FIELDS_SIZE, Zeros(HEADER_SIZE - HEADER_FIELDS_SIZE))
            && HoldsAt(s, HEADER_SIZE, Flatten(RecordPieces(rs, recordSize)))
            && |s| == Offset(recordSize, |rs|)
  {
    hide EncodeFields;
    RecordsSize(rs, recordSize);
    hide Encodable;
    var s := EncodeTrace(rs, recordSize);
    var header, zeros := EncodeFields(HeaderFields(recordSize)), Zeros(HEADER_SIZE - HEADER_FIELDS_SIZE);
    var records := Flatten(RecordPieces(rs, recordSize));
    hide HeaderFields;
    hide Zeros;
    hide RecordPieces;
    hide Flatten;
    assert HoldsAt(s, 0, header + (zeros + records));
    HoldsAtSplit(s, 0, header, zeros + records);
    HeaderRead(s, recordSize);
    HoldsAtSplit(s, HEADER_FIELDS_SIZE, zeros, records);
  }

  /** The header written for a trace is blank when two records would fit behind its fields. */
  lemma EncodedHeaderIsBlank(rs: seq<Record>, recordSize: uint32)
    requires Encodable(rs, recordSize) && 2 * recordSize <= HEADER_SIZE - HEADER_FIELDS_SIZE
    ensures BlankHeader(EncodeTrace(rs, recordSize))
  {
    TraceLayout(rs, recordSize);
    ZerosStand(EncodeTrace(rs, recordSize), HEADER_FIELDS_SIZE, HEADER_SIZE - HEADER_FIELDS_SIZE);
    hide EncodeTrace;
    hide RecordSize;
  }

  lemma ZerosStand(s: seq<byte>, o: nat, n: nat)
    requires HoldsAt(s, o, Zeros(n))
    ensures forall i | o <= i < o + n :: ByteAt(s, i) == 0
  {
    forall i | o <= i < o + n ensures ByteAt(s, i) == 0 {
      assert s[i] == s[o..o + n][i - o] == Zeros(n)[i - o];
    }
  }

  /** The i-th record stands i record sizes behind the first. */
  lemma RecordStands(rs: seq<Record>, recordSize: uint32, i: nat)
    requires Encodable(rs, recordSize) && i < |rs|
    ensures HoldsAt(EncodeTrace(rs, recordSize), Offset(recordSize, i),
                    EncodeRecord(rs[i], recordSize, OffsetOf(rs, i)))
  {
    TraceLayout(rs, recordSize);
    RecordsSize(rs, recordSize);
    hide Encodable;
    hide EncodeTrace;
    hide EncodeRecord;
    hide HoldsAt;
    hide Flatten;
    hide RecordSize;
    hide Uint64At;
    hide Uint32At;
    PieceStands(EncodeTrace(rs, recordSize), HEADER_SIZE, RecordPieces(rs, recordSize), i);
  }

  lemma PointStands(s: seq<byte>, blocks: seq<byte>, recordSize: nat, i: nat, r: Record, dataOffset: uint32)
    requires RecordSize(s) == recordSize && !r.IsGhostInterrupt() && HasBlocks(r, dataOffset, blocks)
    requires RecordAt(s, Offset(recordSize, i), blocks, true) == r
    requires DataOffsetAt(s, Offset(recordSize, i)) == dataOffset
    ensures HoldsPoint(s, blocks, true, i, Decode(r, 0))
  {
    hide RecordAt;
    hide Offset;
    hide RecordSize;
    hide Decode;
    hide DataOffsetAt;
    hide BlocksAt;
    hide BlocksEnd;
  }

  lemma PointRead(rs: seq<Record>, recordSize: uint32, i: nat)
    requires Encodable(rs, recordSize) && i < |rs|
    ensures HoldsPoint(EncodeTrace(rs, recordSize), EncodeData(rs), true, i, PointsOf(rs)[i])
  {
    assert WritableRecord(rs[i]);
    TraceLayout(rs, recordSize);
    RecordStands(rs, recordSize, i);
    BlocksStand(rs, i);
    hide HoldsPoint;
    hide RecordAt;
    hide DataOffsetAt;
    hide HasBlocks;
    hide Decode;
    hide EncodeTrace;
    hide EncodeData;
    hide EncodeRecord;
    hide Flatten;
    hide OffsetOf;
    hide HoldsAt;
    hide RecordSize;
    hide Offset;
    hide Uint64At;
    hide Uint32At;
    var s, blocks, dataOffset := EncodeTrace(rs, recordSize), EncodeData(rs), OffsetOf(rs, i);
    RecordRoundTrip(s, Offset(recordSize, i), rs[i], recordSize, dataOffset, blocks);
    PointStands(s, blocks, recordSize, i, rs[i], dataOffset);
  }

  lemma AllPointsRead(rs: seq<Record>, recordSize: uint32)
    requires Encodable(rs, recordSize)
    ensures forall i {:trigger PointsOf(rs)[i]} | 0 <= i < |PointsOf(rs)| ::
              HoldsPoint(EncodeTrace(rs, recordSize), EncodeData(rs), true, i, PointsOf(rs)[i])
  {
    forall i | 0 <= i < |PointsOf(rs)|
      ensures HoldsPoint(EncodeTrace(rs, recordSize), EncodeData(rs), true, i, PointsOf(rs)[i])
    {
      hide HoldsPoint;
      hide EncodeTrace;
      hide EncodeData;
      PointRead(rs, recordSize, i);
    }
  }

  lemma PointsArePlausible(rs: seq<Record>)
    requires forall r <- rs :: Plausible(Decode(r, 0))
    ensures PlausibleTrace(PointsOf(rs))
  {
    hide Plausible;
    hide Decode;
    var pts := PointsOf(rs);
    forall p | p in pts ensures Plausible(p) {
      var i :| 0 <= i < |pts| && pts[i] == p;
      assert rs[i] in rs;
    }
  }

  /**
   * Every list of plausible records that fits the file format, data blocks included, is what the reader
   * finds in the two files written for it; in particular the assumptions on a trace can be met with any
   * such list of points.
   */
  lemma TraceRoundTrip(rs: seq<Record>, recordSize: uint32)
    requires Encodable(rs, recordSize) && forall r <- rs :: Plausible(Decode(r, 0))
    ensures Openable(EncodeTrace(rs, recordSize), Some(EncodeData(rs)), PointsOf(rs))
  {
    hide Plausible;
    hide Decode;
    hide HoldsPoint;
    hide EncodeTrace;
    hide EncodeData;
    hide PlausibleTrace;
    hide Uint64At;
    hide Uint32At;
    hide HoldsAt;
    hide Flatten;
    TraceLayout(rs, recordSize);
    DataLayout(rs);
    PointsArePlausible(rs);
    AllPointsRead(rs, recordSize);
  }

  // ---- A trace of points

  function AsRecords(pts: seq<Point>): (rs: seq<Record>)
    ensures |rs| == |pts| && forall i :: 0 <= i < |pts| ==> rs[i] == AsRecord(pts[i])
  {
    if pts == [] then [] else [AsRecord(pts[0])] + AsRecords(pts[1..])
  }

  lemma AsRecordsDecode(pts: seq<Point>)
    requires forall p <- pts :: IsCanonical(p)
    ensures PointsOf(AsRecords(pts)) == pts
    ensures PlausibleTrace(pts) ==> forall r <- AsRecords(pts) :: Plausible(Decode(r, 0))
  {
    forall i | 0 <= i < |pts| ensures Decode(AsRecords(pts)[i], 0) == pts[i] {
      assert pts[i] in pts;
      PointRoundTrip(pts[i], 0, 0);
    }
    hide Decode;
    hide Plausible;
    hide AsRecord;
    var rs := AsRecords(pts);
    if PlausibleTrace(pts) {
      forall r | r in rs ensures Plausible(Decode(r, 0)) {
        var i :| 0 <= i < |rs| && rs[i] == r;
        assert pts[i] in pts;
      }
    }
  }

  /** The files written for a list of plausible points are read as that list. */
  lemma PointsRoundTrip(pts: seq<Point>, recordSize: uint32)
    requires Encodable(AsRecords(pts), recordSize) && PlausibleTrace(pts) && forall p <- pts :: IsCanonical(p)
    ensures Openable(EncodeTrace(AsRecords(pts), recordSize), Some(EncodeData(AsRecords(pts))), pts)
  {
    hide Openable;
    hide Encodable;
    hide Plausible;
    hide Decode;
    AsRecordsDecode(pts);
    TraceRoundTrip(AsRecords(pts), recordSize);
  }

  /** The layout of the two files in numbers. */
  lemma FormatByNumber(rs: seq<Record>, recordSize: uint32)
    requires Encodable(rs, recordSize)
    ensures var s := EncodeTrace(rs, recordSize);
            && |s| == 1024 + recordSize * |rs|
            && Uint64At(s, 0) == 0x70636e79734e5652 && Uint32At(s, 8) == 3 && Uint32At(s, 16) == recordSize
    ensures Uint64At(EncodeData(rs), 0) == 0x64636e79734e5652
  {
    hide EncodeTrace;
    hide EncodeData;
    hide EncodeRecord;
    hide RecordPieces;
    hide DataPieces;
    hide Flatten;
    hide HoldsAt;
    hide Uint64At;
    hide Uint32At;
    TraceLayout(rs, recordSize);
    DataLayout(rs);
  }

  /** The i-th record stands behind the 1024 bytes of the header and i records. */
  lemma RecordByNumber(rs: seq<Record>, recordSize: uint32, i: nat)
    requires Encodable(rs, recordSize) && i < |rs|
    ensures HoldsAt(EncodeTrace(rs, recordSize), 1024 + recordSize * i,
                    EncodeRecord(rs[i], recordSize, OffsetOf(rs, i)))
  {
    hide EncodeTrace;
    hide EncodeRecord;
    hide HoldsAt;
    RecordStands(rs, recordSize, i);
  }
}
