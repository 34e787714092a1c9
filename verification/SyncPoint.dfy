/** Synchronization points: the raw version 3 record, the decoded point and its two comparisons. */
module SyncPoints {
  import opened Bytes
  import opened StreamableFiles

  datatype Gprs = Gprs(
    rax: uint64, rbx: uint64, rcx: uint64, rdx: uint64, rsi: uint64, rdi: uint64, rbp: uint64, rsp: uint64,
    r8: uint64, r9: uint64, r10: uint64, r11: uint64, r12: uint64, r13: uint64, r14: uint64, r15: uint64)

  datatype Crs = Crs(cr0: uint64, cr2: uint64, cr3: uint64, cr4: uint64)

  datatype Fpu = Fpu(sw: uint16, cw: uint16, tags: byte)

  datatype PointData = PointData(kind: uint32, offset: uint64, data: seq<byte>)

  const ZERO_GPRS := Gprs(0, 0, 0, 0, 0, 0, 0, 0, 0, 0, 0, 0, 0, 0, 0, 0)
  const ZERO_CRS := Crs(0, 0, 0, 0)
  const ZERO_FPU := Fpu(0, 0, 0)

  // Point types. All the other values are the hypervisor's exit reasons.
  const VMENTER: byte := 0xff
  const INTERRUPT: byte := 0xfe
  const VMX_EXIT_XCPT_OR_NMI: byte := 0
  const VMX_EXIT_CPUID: byte := 10
  const VMX_EXIT_HLT: byte := 12
  const VMX_EXIT_RDTSC: byte := 16
  const VMX_EXIT_MOV_CRX: byte := 28
  const VMX_EXIT_IO_INSTR: byte := 30
  const VMX_EXIT_RDMSR: byte := 31
  const VMX_EXIT_EPT_MISCONFIG: byte := 49
  const VMX_EXIT_RDTSCP: byte := 51

  /** One record as it stands in the file, with the data blocks it refers to. */
  datatype Record = Record(
    tsc: uint64, rawType: uint16, cs: uint16, gprs: Gprs, rip: uint64, rflags: uint64, crs: Crs,
    fpu: Fpu, faultErrorCode: uint32, data: seq<PointData>)
  {
    /** The interrupt bit of the type field, mask 0x100. */
    predicate IsIrq() { rawType / 0x100 % 2 == 1 }

    /** The bits under the mask 0xff: an interrupt vector or a point type. */
    function LowType(): byte { rawType % 0x100 }

    /** An INTERRUPT type without the interrupt bit: its vector is whatever the reader held before. */
    predicate IsGhostInterrupt() { !IsIrq() && LowType() == INTERRUPT }
  }

  datatype Point = Point(
    tsc: uint64, kind: byte, cs: uint16, gprs: Gprs, rip: uint64, rflags: uint64, crs: Crs,
    fpu: Fpu, interruptVector: byte, faultErrorCode: uint32, data: seq<PointData>)
  {
    predicate IsInterrupt() { kind == INTERRUPT }
    predicate IsVmEnter() { kind == VMENTER }
    predicate IsVmExit() { !IsInterrupt() && !IsVmEnter() }
    predicate IsValid() { tsc != 0 }

    /** operator==: the FPU words and the data do not take part. */
    predicate Same(other: Point) {
      && gprs == other.gprs && rip == other.rip && rflags == other.rflags && tsc == other.tsc
      && crs == other.crs && cs == other.cs && interruptVector == other.interruptVector
      && faultErrorCode == other.faultErrorCode && kind == other.kind
    }

    /** is_equivalent: the machine state, without time stamp and interrupt. */
    predicate Equivalent(other: Point) {
      && gprs == other.gprs && rip == other.rip && rflags == other.rflags
      && crs == other.crs && cs == other.cs
    }

    /** The point without a vector left over from an earlier record. */
    function Canonical(): Point {
      if IsInterrupt() then this else this.(interruptVector := 0)
    }
  }

  /** The default-constructed point: a VMENTER of zeros. */
  const DEFAULT_POINT := Point(0, VMENTER, 0, ZERO_GPRS, 0, 0, ZERO_CRS, ZERO_FPU, 0, 0, [])

  /** What a read past the end of the file decodes to: all zeros, which is a VMEXIT type. */
  const END_POINT := Point(0, VMX_EXIT_XCPT_OR_NMI, 0, ZERO_GPRS, 0, 0, ZERO_CRS, ZERO_FPU, 0, 0, [])

  /** Decodes a record into a point that held the given vector before. */
  function Decode(r: Record, leftover: byte): Point {
    Point(r.tsc, if r.IsIrq() then INTERRUPT else r.LowType(), r.cs, r.gprs, r.rip, r.rflags, r.crs, r.fpu,
          if r.IsIrq() then r.LowType() else leftover, r.faultErrorCode, r.data)
  }

  /** The record of a point, with the numbers of the format: bit 8 of the type marks an interrupt. */
  function AsRecord(p: Point): Record {
    Record(p.tsc, if p.kind == 0xfe then 0x100 + p.interruptVector else p.kind, p.cs, p.gprs, p.rip, p.rflags, p.crs,
           p.fpu, p.faultErrorCode, p.data)
  }

  /** Only interrupts have a vector of their own. */
  predicate IsCanonical(p: Point) {
    p.kind == 0xfe || p.interruptVector == 0
  }

  /**
   * Decoding inverts that, whatever vector was held before and whatever the bits above bit 8 of the type
   * are: an interrupt comes back with its vector, any other point with its type and the vector held before.
   */
  lemma PointRoundTrip(p: Point, high: nat, v: byte)
    requires high < 0x80
    ensures var r := AsRecord(p);
            && Decode(r.(rawType := r.rawType + 0x200 * high), v) ==
               (if p.kind == 0xfe then p else p.(interruptVector := v))
            && !r.IsGhostInterrupt()
    ensures IsCanonical(p) ==> Decode(AsRecord(p), v).Canonical() == p == Decode(AsRecord(p), 0)
  {
    var t := AsRecord(p).rawType;
    assert (t + 0x200 * high) / 0x100 == t / 0x100 + 2 * high;
    assert (t + 0x200 * high) % 0x100 == t % 0x100;
  }

  /** What a point is, by the numbers of the format. */
  lemma KindsByNumber(p: Point)
    ensures p.IsInterrupt() <==> p.kind == 0xfe
    ensures p.IsVmEnter() <==> p.kind == 0xff
    ensures p.IsVmExit() <==> p.kind < 0xfe
    ensures p.IsValid() <==> p.tsc != 0
  {
  }

  /** Two points are the same exactly when they differ in FPU words and data at most. */
  lemma SameMeans(p: Point, q: Point)
    ensures p.Same(q) <==> p.(fpu := q.fpu, data := q.data) == q
  {
  }

  /** Two points are equivalent exactly when they differ in time stamp, interrupt, FPU words and data at most. */
  lemma EquivalentMeans(p: Point, q: Point)
    ensures p.Equivalent(q) <==>
            p.(tsc := q.tsc, kind := q.kind, interruptVector := q.interruptVector,
               faultErrorCode := q.faultErrorCode, fpu := q.fpu, data := q.data) == q
    ensures p.Same(q) ==> p.Equivalent(q) && p.IsVmExit() == q.IsVmExit()
  {
  }

  // ---- History independence

  /** Would the reader skip record b right after it delivered record a, having held vector v before a? */
  predicate Skips(a: Record, b: Record, v: byte) {
    var first := Decode(a, v);
    first.Same(Decode(b, first.interruptVector))
  }

  /**
   * The vector carried over from earlier records decides whether b counts as a duplicate of a exactly
   * when a is a ghost interrupt, b a true one, and nothing else tells them apart.
   */
  lemma LeftoverVectorMatters(a: Record, b: Record)
    ensures (exists v, w :: Skips(a, b, v) != Skips(a, b, w)) <==>
            a.IsGhostInterrupt() && b.IsIrq()
            && Decode(a, b.LowType()).Same(Decode(b, 0))
  {
    var x := b.LowType();
    var y: byte := if x == 0 then 1 else 0;
    if a.IsGhostInterrupt() && b.IsIrq() && Decode(a, x).Same(Decode(b, 0)) {
      assert Skips(a, b, x) != Skips(a, b, y);
    }
  }

  /**
   * Without ghost interrupts history is invisible: whatever vectors were held before, the duplicate test is
   * the one on canonical points, and the delivered point is canonically that of its record.
   */
  lemma SkipsIsHistoryFree(a: Record, b: Record, v: byte)
    requires !a.IsGhostInterrupt() && !b.IsGhostInterrupt()
    ensures Skips(a, b, v) <==> Decode(a, 0).Same(Decode(b, 0))
    ensures Decode(a, v).Canonical() == Decode(a, 0)
  {
  }

  // ---- Byte layout of version 3 records

  const HEADER_SIZE: nat := 1024
  const RECORD_FIELDS_SIZE: nat := 201

  function GprsAt(s: seq<byte>, o: nat): Gprs {
    Gprs(Uint64At(s, o), Uint64At(s, o + 8), Uint64At(s, o + 16), Uint64At(s, o + 24),
         Uint64At(s, o + 32), Uint64At(s, o + 40), Uint64At(s, o + 48), Uint64At(s, o + 56),
         Uint64At(s, o + 64), Uint64At(s, o + 72), Uint64At(s, o + 80), Uint64At(s, o + 88),
         Uint64At(s, o + 96), Uint64At(s, o + 104), Uint64At(s, o + 112), Uint64At(s, o + 120))
  }

  function CrsAt(s: seq<byte>, o: nat): Crs {
    Crs(Uint64At(s, o), Uint64At(s, o + 8), Uint64At(s, o + 16), Uint64At(s, o + 24))
  }

  function FpuAt(s: seq<byte>, o: nat): Fpu {
    Fpu(Uint16At(s, o), Uint16At(s, o + 2), ByteAt(s, o + 4))
  }

  function DataOffsetAt(s: seq<byte>, o: nat): uint32 {
    Uint32At(s, o + 188)
  }

  /** The record at offset o; its data blocks come from the data file, when that can be read. */
  function RecordAt(s: seq<byte>, o: nat, blocks: seq<byte>, readable: bool): Record {
    Record(Uint64At(s, o), Uint16At(s, o + 8), Uint16At(s, o + 10), GprsAt(s, o + 12),
           Uint64At(s, o + 140), Uint64At(s, o + 148), CrsAt(s, o + 156),
           FpuAt(s, o + 192), Uint32At(s, o + 197),
           if DataOffsetAt(s, o) != 0 && readable then BlocksAt(blocks, DataOffsetAt(s, o)) else [])
  }

  /** Where every field of a record stands, in bytes from its start. */
  lemma FieldOffsets(s: seq<byte>, o: nat, blocks: seq<byte>, readable: bool)
    ensures var r := RecordAt(s, o, blocks, readable);
            && r.tsc == Uint64At(s, o) && r.rawType == Uint16At(s, o + 8) && r.cs == Uint16At(s, o + 10)
            && r.gprs.rax == Uint64At(s, o + 12) && r.gprs.rbx == Uint64At(s, o + 20)
            && r.gprs.rcx == Uint64At(s, o + 28) && r.gprs.rdx == Uint64At(s, o + 36)
            && r.gprs.rsi == Uint64At(s, o + 44) && r.gprs.rdi == Uint64At(s, o + 52)
            && r.gprs.rbp == Uint64At(s, o + 60) && r.gprs.rsp == Uint64At(s, o + 68)
            && r.gprs.r8 == Uint64At(s, o + 76) && r.gprs.r9 == Uint64At(s, o + 84)
            && r.gprs.r10 == Uint64At(s, o + 92) && r.gprs.r11 == Uint64At(s, o + 100)
            && r.gprs.r12 == Uint64At(s, o + 108) && r.gprs.r13 == Uint64At(s, o + 116)
            && r.gprs.r14 == Uint64At(s, o + 124) && r.gprs.r15 == Uint64At(s, o + 132)
            && r.rip == Uint64At(s, o + 140) && r.rflags == Uint64At(s, o + 148)
            && r.crs.cr0 == Uint64At(s, o + 156) && r.crs.cr2 == Uint64At(s, o + 164)
            && r.crs.cr3 == Uint64At(s, o + 172) && r.crs.cr4 == Uint64At(s, o + 180)
            && r.fpu.sw == Uint16At(s, o + 192) && r.fpu.cw == Uint16At(s, o + 194)
            && r.fpu.tags == ByteAt(s, o + 196) && r.faultErrorCode == Uint32At(s, o + 197)
    ensures DataOffsetAt(s, o) == Uint32At(s, o + 188)
  {
    hide BlocksAt;
    hide UintAt;
  }

  /** A record is its fields and its data blocks. */
  lemma RecordData(s: seq<byte>, o: nat, blocks: seq<byte>, readable: bool)
    ensures var data := if DataOffsetAt(s, o) != 0 && readable then BlocksAt(blocks, DataOffsetAt(s, o)) else [];
            RecordAt(s, o, blocks, readable) == RecordAt(s, o, [], false).(data := data)
    ensures RecordAt(s, o, [], false).data == []
  {
    hide BlocksAt;
    hide GprsAt;
    hide CrsAt;
    hide FpuAt;
    hide UintAt;
  }

  /** The data blocks from offset o up to the terminating zero type. Past the end of file it reads as zero. */
  function BlocksAt(s: seq<byte>, o: nat): seq<PointData>
    decreases |s| - o
  {
    if Uint32At(s, o) == 0 then []
    else [PointData(Uint32At(s, o), Uint64At(s, o + 4), VectorAt(s, o + 12))] + BlocksAt(s, NextBlock(s, o))
  }

  function NextBlock(s: seq<byte>, o: nat): nat {
    o + 20 + |VectorAt(s, o + 12)|
  }

  /** Offset just past the terminating type of the blocks at o. */
  function BlocksEnd(s: seq<byte>, o: nat): nat
    decreases |s| - o
  {
    if Uint32At(s, o) == 0 then o + 4 else BlocksEnd(s, NextBlock(s, o))
  }
}
