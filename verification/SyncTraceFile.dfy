/** What a version 3 trace file contains: the header, whole records, and where they stand. */
module SyncTraceFiles {
  import opened Bytes
  import opened StreamableFiles
  import opened SyncPoints
  import opened SyncTraces

  datatype Option<+T> = None | Some(value: T) {
    function GetOr(default: T): T {
      if Some? then value else default
    }
  }

  const SYNC_POINT_MAGIC: uint64 := 0x70636e79734e5652
  const SYNC_POINT_DATA_MAGIC: uint64 := 0x64636e79734e5652
  const SYNC_POINT_FILE_VERSION: uint32 := 3

  /** Magic number, two versions and the record size. */
  const HEADER_FIELDS_SIZE: nat := 20

  // ---- What a trace file contains

  function RecordSize(bytes: seq<byte>): uint32 {
    Uint32At(bytes, 16)
  }

  /** File offset just past the record at position p. */
  function Offset(recordSize: nat, p: nat): nat {
    HEADER_SIZE + recordSize * p
  }

  /** The file holds exactly the given points, canonically decoded, and nothing behind them. */
  ghost predicate Holds(bytes: seq<byte>, blocks: seq<byte>, readable: bool, pts: seq<Point>) {
    && RECORD_FIELDS_SIZE <= RecordSize(bytes)
    && |bytes| == Offset(RecordSize(bytes), |pts|) < TWO_TO_THE_63
    && forall i {:trigger pts[i]} | 0 <= i < |pts| :: HoldsPoint(bytes, blocks, readable, i, pts[i])
  }

  /** A recognised header, whole plausible records, and a recognised data file if there is one. */
  ghost predicate Openable(bytes: seq<byte>, data: Option<seq<byte>>, pts: seq<Point>) {
    && Uint64At(bytes, 0) == SYNC_POINT_MAGIC && Uint32At(bytes, 8) == SYNC_POINT_FILE_VERSION
    && (data.Some? ==> 8 <= |data.value| && Uint64At(data.value, 0) == SYNC_POINT_DATA_MAGIC)
    && Holds(bytes, data.GetOr([]), data.Some?, pts) && PlausibleTrace(pts)
  }

  ghost predicate HoldsPoint(bytes: seq<byte>, blocks: seq<byte>, readable: bool, i: nat, p: Point) {
    var o := Offset(RecordSize(bytes), i);
    var r := RecordAt(bytes, o, blocks, readable);
    && p == Decode(r, 0)
    && !r.IsGhostInterrupt()
    && (DataOffsetAt(bytes, o) != 0 && readable ==> BlocksEnd(blocks, DataOffsetAt(bytes, o)) <= |blocks|)
  }

  lemma HoldsSize(bytes: seq<byte>, blocks: seq<byte>, readable: bool, pts: seq<Point>)
    requires Holds(bytes, blocks, readable, pts)
    ensures RECORD_FIELDS_SIZE <= RecordSize(bytes)
    ensures HEADER_SIZE <= |bytes| == Offset(RecordSize(bytes), |pts|) < TWO_TO_THE_63
    ensures |pts| <= |bytes|
  {
    OffsetAtLeast(RecordSize(bytes), |pts|);
    hide RecordSize;
  }

  lemma OffsetZero(recordSize: nat)
    ensures Offset(recordSize, 0) == HEADER_SIZE
  {
  }

  lemma OffsetNext(recordSize: nat, p: nat)
    ensures Offset(recordSize, p + 1) == Offset(recordSize, p) + recordSize
  {
  }

  lemma OffsetAtLeast(recordSize: nat, p: nat)
    requires recordSize > 0
    ensures HEADER_SIZE + p <= Offset(recordSize, p)
  {
    MultipleIsFar(p, recordSize);
  }

  /** The offset of a seek to position 2^64 - 1, in 64-bit arithmetic: two records in front of the first. */
  lemma WrapOffset(recordSize: uint32)
    requires 0 < recordSize
    ensures Offset(recordSize, TWO_TO_THE_64 - 2) % TWO_TO_THE_64 ==
            if recordSize <= 512 then HEADER_SIZE - 2 * recordSize else TWO_TO_THE_64 + HEADER_SIZE - 2 * recordSize
  {
    var r := HEADER_SIZE - 2 * recordSize;
    assert Offset(recordSize, TWO_TO_THE_64 - 2) == TWO_TO_THE_64 * recordSize + r;
    if recordSize <= 512 {
      Remainder(recordSize, r);
    } else {
      Remainder(recordSize - 1, TWO_TO_THE_64 + r);
    }
  }

  lemma Remainder(q: nat, r: int)
    requires 0 <= r < TWO_TO_THE_64
    ensures (TWO_TO_THE_64 * q + r) % TWO_TO_THE_64 == r
  {
  }

  lemma OffsetMonotone(recordSize: nat, p: nat, q: nat)
    requires p <= q
    ensures Offset(recordSize, p) <= Offset(recordSize, q)
    ensures p < q ==> Offset(recordSize, p) + recordSize <= Offset(recordSize, q)
  {
    Distribute(recordSize, q, p);
    MultipleIsFar(recordSize, q - p);
  }

  lemma Distribute(d: nat, m: int, n: int)
    ensures d * (m - n) == d * m - d * n
  {
  }

  lemma MultipleIsFar(d: nat, k: int)
    ensures 1 <= k ==> d <= d * k
    ensures k <= -1 ==> d * k + d <= 0
  {
  }

  lemma QuotientIsUnique(d: nat, n: nat, q: int, r: int)
    requires d > 0 && d * n == d * q + r && 0 <= r < d
    ensures q == n
  {
    Distribute(d, n, q);
    MultipleIsFar(d, n - q);
  }

  lemma WholeRecords(recordSize: nat, n: nat)
    requires recordSize > 0
    ensures (Offset(recordSize, n) - HEADER_SIZE) / recordSize == n
  {
    var m := recordSize * n;
    QuotientIsUnique(recordSize, n, m / recordSize, m % recordSize);
  }

  lemma QuotientFits(m: nat, d: nat)
    requires d > 0
    ensures 0 <= m / d <= m
  {
    MultipleIsFar(m / d, d);
  }

  /** Number of whole records in front of a file offset; inside the header the 64-bit difference wraps. */
  function RecordsBefore(o: int, recordSize: uint32): uint64
    requires recordSize > 0
  {
    QuotientFits((o - HEADER_SIZE) % TWO_TO_THE_64, recordSize);
    ((o - HEADER_SIZE) % TWO_TO_THE_64) / recordSize
  }

  /** The distance from the end to the record k + 1 places before it, in 64-bit arithmetic. */
  function DistanceFromEnd(k: uint64, recordSize: uint32): int64 {
    Signed((recordSize * (k + 1)) % TWO_TO_THE_64)
  }

  /** In a trace of n records that distance leads to a record. */
  lemma FromTheEnd(recordSize: uint32, n: nat, k: uint64)
    requires recordSize > 0 && k < n && Offset(recordSize, n) < TWO_TO_THE_63
    ensures var m := n - k - 1;
            && DistanceFromEnd(k, recordSize) == Offset(recordSize, n) - Offset(recordSize, m)
            && Offset(recordSize, m) <= Offset(recordSize, n)
            && RecordsBefore(Offset(recordSize, m), recordSize) == m
  {
    var m := n - k - 1;
    WholeRecords(recordSize, m);
    OffsetMonotone(recordSize, m, n);
    Distribute(recordSize, n, k + 1);
    SmallRemainder(recordSize * (k + 1));
    SmallRemainder(recordSize * m);
  }

  lemma SmallRemainder(x: nat)
    requires x < TWO_TO_THE_64
    ensures x % TWO_TO_THE_64 == x
  {
  }

  /** Reading a record of the trace: its point, and no end of file in either file. */
  lemma RecordInTrace(bytes: seq<byte>, blocks: seq<byte>, readable: bool, pts: seq<Point>, c: nat, v: byte)
    requires Holds(bytes, blocks, readable, pts) && c < |pts|
    ensures var o := Offset(RecordSize(bytes), c);
            var r := RecordAt(bytes, o, blocks, readable);
            && Decode(r, v).Canonical() == pts[c]
            && (Decode(r, v).IsInterrupt() || Decode(r, v).interruptVector == v)
            && o + RecordSize(bytes) == Offset(RecordSize(bytes), c + 1) <= |bytes|
            && (DataOffsetAt(bytes, o) != 0 && readable ==> BlocksEnd(blocks, DataOffsetAt(bytes, o)) <= |blocks|)
  {
    assert HoldsPoint(bytes, blocks, readable, c, pts[c]);
    hide RecordAt;
    hide RecordSize;
    hide DataOffsetAt;
    hide BlocksEnd;
    OffsetNext(RecordSize(bytes), c);
    OffsetMonotone(RecordSize(bytes), c + 1, |pts|);
    hide Offset;
  }

  lemma FirstRecordIsValid(bytes: seq<byte>, blocks: seq<byte>, readable: bool, readable': bool, v: byte,
                           pts: seq<Point>)
    requires Holds(bytes, blocks, readable, pts) && PlausibleTrace(pts) && pts != []
    ensures Decode(RecordAt(bytes, HEADER_SIZE, blocks, readable'), v).IsValid()
  {
    assert HoldsPoint(bytes, blocks, readable, 0, pts[0]);
    assert Plausible(pts[0]);
  }

  /** Reading behind the last record. */
  lemma RecordBehindTrace(bytes: seq<byte>, blocks: seq<byte>, readable: bool, o: nat, v: byte)
    requires |bytes| <= o
    ensures var p := Decode(RecordAt(bytes, o, blocks, readable), v);
            p.Canonical() == END_POINT && p.interruptVector == v
    ensures DataOffsetAt(bytes, o) == 0
  {
  }

  /** Zeros behind the fields of the header, and room for two records there. */
  ghost predicate BlankHeader(bytes: seq<byte>) {
    2 * RecordSize(bytes) <= HEADER_SIZE - HEADER_FIELDS_SIZE
    && forall i | HEADER_FIELDS_SIZE <= i < HEADER_SIZE :: ByteAt(bytes, i) == 0
  }

  lemma BlankHeaderFits(bytes: seq<byte>)
    ensures BlankHeader(bytes) ==> 2 * RecordSize(bytes) <= HEADER_SIZE - HEADER_FIELDS_SIZE
  {
  }

  lemma {:induction false} UintOfZeros(s: seq<byte>, o: nat, width: nat)
    requires forall i | o <= i < o + width :: ByteAt(s, i) == 0
    ensures UintAt(s, o, width) == 0
    decreases width
  {
    if width == 0 {
    } else {
      UintOfZeros(s, o + 1, width - 1);
    }
  }

  /** Reading a record out of a blank header is like reading behind the last record. */
  lemma RecordInHeader(bytes: seq<byte>, blocks: seq<byte>, readable: bool, o: nat, v: byte)
    requires BlankHeader(bytes) && HEADER_FIELDS_SIZE <= o && o + RECORD_FIELDS_SIZE <= HEADER_SIZE
    ensures var p := Decode(RecordAt(bytes, o, blocks, readable), v);
            p.Canonical() == END_POINT && p.interruptVector == v
    ensures DataOffsetAt(bytes, o) == 0
  {
    forall i: nat, w: nat | o <= i && i + w <= o + RECORD_FIELDS_SIZE ensures UintAt(bytes, i, w) == 0 {
      UintOfZeros(bytes, i, w);
    }
    hide UintAt;
  }

  datatype LoadStatus = Recognised | NotLoaded | WrongMagic(magic: uint64) | WrongVersion(version: uint32)

  /** Reads the header of a just opened file; anything that is not a trace of a known version is closed. */
  method ReadHeader(file: StreamableFile) returns (status: LoadStatus, version: uint32, recordSize: uint32)
    requires file.Live() && file.isOpen && file.offset == 0
    modifies file
    ensures file.Valid() && (file.isOpen <==> status == Recognised)
    ensures var magic := Uint64At(file.bytes, 0);
            var found := Uint32At(file.bytes, 8);
            status == if |file.bytes| < 8 then NotLoaded
                      else if magic != SYNC_POINT_MAGIC then WrongMagic(magic)
                      else if |file.bytes| < HEADER_FIELDS_SIZE then NotLoaded
                      else if found > SYNC_POINT_FILE_VERSION then WrongVersion(found)
                      else Recognised
    ensures status == Recognised ==>
              version == Uint32At(file.bytes, 8) && recordSize == RecordSize(file.bytes)
  {
    hide UintAt;
    version, recordSize := 0, 0;
    var magic := file.ReadUint64();
    if file.eof {
      file.Close();
      return NotLoaded, version, recordSize;
    } else if magic != SYNC_POINT_MAGIC {
      file.Close();
      return WrongMagic(magic), version, recordSize;
    }
    version := file.ReadUint32();
    var vboxVersion := file.ReadUint32();
    recordSize := file.ReadUint32();
    if file.eof {
      file.Close();
      return NotLoaded, version, recordSize;
    } else if version > SYNC_POINT_FILE_VERSION {
      file.Close();
      return WrongVersion(version), version, 0;
    }
    status := Recognised;
  }

  /** Checks the data file if there is one; if it is none of a trace, both files are closed. */
  method ReadDataHeader(file: StreamableFile, dataFile: StreamableFile) returns (status: LoadStatus)
    requires file != dataFile && file.Valid() && dataFile.Valid()
    requires dataFile.isOpen ==> dataFile.Live() && dataFile.offset == 0
    modifies file, dataFile
    ensures file.Valid() && dataFile.Valid()
    ensures var magic := Uint64At(dataFile.bytes, 0);
            status == if old(dataFile.isOpen) && magic != SYNC_POINT_DATA_MAGIC then WrongMagic(magic) else Recognised
    ensures status != Recognised ==> !file.isOpen && !dataFile.isOpen
    ensures status == Recognised ==>
              unchanged(file) && dataFile.isOpen == old(dataFile.isOpen) && dataFile.eof == !dataFile.isOpen
  {
    status := Recognised;
    if dataFile.isOpen {
      var magic := dataFile.ReadUint64();
      if magic != SYNC_POINT_DATA_MAGIC {
        file.Close();
        dataFile.Close();
        status := WrongMagic(magic);
      } else if dataFile.eof {
        ShortMagic(dataFile.bytes);
      }
    }
  }

  /** A file shorter than a magic number reads as a number below it. */
  lemma ShortMagic(bytes: seq<byte>)
    requires |bytes| < 8
    ensures Uint64At(bytes, 0) != SYNC_POINT_DATA_MAGIC
  {
    TopByte(bytes, 0, 8);
  }

  lemma {:induction false} TopByte(s: seq<byte>, o: nat, width: nat)
    requires 1 <= width && |s| < o + width
    ensures UintAt(s, o, width) < Pow256(width - 1)
    decreases width
  {
    if width == 1 {
    } else {
      TopByte(s, o + 1, width - 1);
    }
  }

  /** The number of whole records, from the size of the file; shorter than a header, the difference wraps. */
  method CountRecords(file: StreamableFile, recordSize: uint32) returns (count: nat)
    requires file.Valid() && file.isOpen && |file.bytes| < TWO_TO_THE_63 && recordSize > 0
    modifies file
    ensures file.Valid() && file.isOpen
    ensures HEADER_SIZE <= |file.bytes| ==>
              Offset(recordSize, count) <= |file.bytes| < Offset(recordSize, count + 1)
    ensures |file.bytes| < HEADER_SIZE ==>
              Offset(recordSize, count) <= TWO_TO_THE_64 + |file.bytes| < Offset(recordSize, count + 1)
  {
    file.SeekFromEnd(0);
    count := RecordsBefore(file.Pos(), recordSize);
    ghost var size := (file.Pos() - HEADER_SIZE) % TWO_TO_THE_64;
    assert size == recordSize * count + size % recordSize;
    OffsetNext(recordSize, count);
  }

  /** Between the offsets of two successive records there is only one count. */
  lemma CountIsUnique(recordSize: nat, n: nat, count: nat)
    requires Offset(recordSize, count) <= Offset(recordSize, n) < Offset(recordSize, count + 1)
    ensures count == n
  {
    if n < count {
      OffsetMonotone(recordSize, n, count);
    } else if count < n {
      OffsetMonotone(recordSize, count + 1, n);
    }
  }
}
