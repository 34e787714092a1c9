/** The stream reads that make up one version 3 record and its data blocks. */
module SyncRecordReader {
  import opened Bytes
  import opened StreamableFiles
  import opened SyncPoints

  /** Four registers that stand side by side. */
  method ReadFour(file: StreamableFile) returns (a: uint64, b: uint64, c: uint64, d: uint64)
    requires file.Valid()
    modifies file
    ensures a == Uint64At(file.bytes, old(file.offset)) && b == Uint64At(file.bytes, old(file.offset) + 8)
    ensures c == Uint64At(file.bytes, old(file.offset) + 16) && d == Uint64At(file.bytes, old(file.offset) + 24)
    ensures file.Consumed(32)
  {
    hide UintAt;
    hide Uint64At;
    a := file.ReadUint64();
    b := file.ReadUint64();
    c := file.ReadUint64();
    d := file.ReadUint64();
  }

  method ReadGprs(file: StreamableFile) returns (g: Gprs)
    requires file.Valid()
    modifies file
    ensures g == GprsAt(file.bytes, old(file.offset)) && file.Consumed(128)
  {
    hide UintAt;
    hide Uint64At;
    var rax, rbx, rcx, rdx := ReadFour(file);
    var rsi, rdi, rbp, rsp := ReadFour(file);
    var r8, r9, r10, r11 := ReadFour(file);
    var r12, r13, r14, r15 := ReadFour(file);
    g := Gprs(rax, rbx, rcx, rdx, rsi, rdi, rbp, rsp, r8, r9, r10, r11, r12, r13, r14, r15);
  }

  method ReadCrs(file: StreamableFile) returns (c: Crs)
    requires file.Valid()
    modifies file
    ensures c == CrsAt(file.bytes, old(file.offset)) && file.Consumed(32)
  {
    hide UintAt;
    hide Uint64At;
    var cr0, cr2, cr3, cr4 := ReadFour(file);
    c := Crs(cr0, cr2, cr3, cr4);
  }

  method ReadFpu(file: StreamableFile) returns (f: Fpu)
    requires file.Valid()
    modifies file
    ensures f == FpuAt(file.bytes, old(file.offset)) && file.Consumed(5)
  {
    hide UintAt;
    hide Uint64At;
    hide Uint32At;
    hide Uint16At;
    var sw := file.ReadUint16();
    var cw := file.ReadUint16();
    var tags := file.ReadUint8();
    f := Fpu(sw, cw, tags);
  }

  /** The 201 bytes of the fields, in stream order; the data blocks are read elsewhere. */
  method ReadFields(file: StreamableFile) returns (r: Record, dataOffset: uint32)
    requires file.Valid()
    modifies file
    ensures r == RecordAt(file.bytes, old(file.offset), [], false)
    ensures dataOffset == DataOffsetAt(file.bytes, old(file.offset))
    ensures file.Consumed(RECORD_FIELDS_SIZE)
  {
    hide UintAt;
    hide GprsAt;
    hide CrsAt;
    hide FpuAt;
    hide BlocksAt;
    hide ByteAt;
    hide Uint64At;
    hide Uint32At;
    hide Uint16At;
    var tsc := file.ReadUint64();
    var kind := file.ReadUint16();
    var cs := file.ReadUint16();
    var gprs := ReadGprs(file);
    var rip := file.ReadUint64();
    var rflags := file.ReadUint64();
    var crs := ReadCrs(file);
    dataOffset := file.ReadUint32();
    var fpu := ReadFpu(file);
    var faultErrorCode := file.ReadUint32();
    r := Record(tsc, kind, cs, gprs, rip, rflags, crs, fpu, faultErrorCode, []);
  }

  /** The padding loop: every byte up to the size of a record. */
  method SkipPadding(file: StreamableFile, count: nat)
    requires file.Valid()
    modifies file
    ensures count == 0 ==> file.Valid() && unchanged(file)
    ensures count > 0 ==> file.Consumed(count)
  {
    for i := 0 to count
      invariant i == 0 ==> file.Valid() && unchanged(file)
      invariant i > 0 ==> file.Consumed(i)
    {
      var _ := file.ReadUint8();
    }
  }

  lemma NoBlocks(s: seq<byte>, o: nat)
    requires Uint32At(s, o) == 0
    ensures BlocksAt(s, o) == [] && BlocksEnd(s, o) == o + 4
  {
  }

  /** One more block of the list at o is read. */
  lemma BlockRead(s: seq<byte>, o: nat, data: seq<PointData>)
    requires Uint32At(s, o) != 0
    ensures var block := PointData(Uint32At(s, o), Uint64At(s, o + 4), VectorAt(s, o + 12));
            data + BlocksAt(s, o) == data + [block] + BlocksAt(s, NextBlock(s, o))
    ensures BlocksEnd(s, o) == BlocksEnd(s, NextBlock(s, o))
    ensures o < |s| && o + 20 <= NextBlock(s, o)
  {
    hide VectorAt;
  }

  /**
   * Seeks to the data blocks and reads them. It ends for every data file: past the end every type reads
   * as zero, which terminates the list.
   */
  method ReadBlocks(dataFile: StreamableFile, dataOffset: uint32) returns (data: seq<PointData>)
    requires dataFile.Valid() && dataFile.isOpen
    modifies dataFile
    ensures data == BlocksAt(dataFile.bytes, dataOffset)
    ensures dataFile.Valid() && dataFile.isOpen
    ensures dataFile.eof == (|dataFile.bytes| < BlocksEnd(dataFile.bytes, dataOffset))
  {
    hide UintAt;
    hide Uint32At;
    hide VectorAt;
    hide BlocksAt;
    hide BlocksEnd;
    dataFile.Seek(dataOffset);
    data := [];
    ghost var o: nat := dataOffset;
    while true
      invariant dataFile.Valid() && dataFile.isOpen && dataFile.offset == o
      invariant dataFile.eof == dataFile.fail
      invariant o != dataOffset ==> dataFile.eof == (|dataFile.bytes| < o)
      invariant o == dataOffset ==> !dataFile.eof
      invariant data + BlocksAt(dataFile.bytes, o) == BlocksAt(dataFile.bytes, dataOffset)
      invariant BlocksEnd(dataFile.bytes, o) == BlocksEnd(dataFile.bytes, dataOffset)
      decreases |dataFile.bytes| - o
    {
      var kind := dataFile.ReadUint32();
      if kind == 0 {
        NoBlocks(dataFile.bytes, o);
        break;
      }
      var offset := dataFile.ReadUint64();
      var item := dataFile.ReadVector();
      BlockRead(dataFile.bytes, o, data);
      data := data + [PointData(kind, offset, item)];
      o := NextBlock(dataFile.bytes, o);
    }
  }
}
