/** What the reported events of a trace are, in terms of its records. */
module EventMeanings {
  import opened Bytes
  import opened SyncPoints
  import opened SyncEvents
  import opened SyncTraces
  import opened EventParser
  import opened EventCoalescing
  import opened SyncTraceFiles
  import opened SyncTraceEncoding
  import opened SyncFiles
  import opened DumpSyncEvents
  import opened EndlessDumps
  import opened WholeTrace
  import opened RandomAccess

  /** The first and the last raw event of the i-th run, and the event it is reported as. */
  ghost predicate RunReportedAs(pts: seq<Point>, first: Event, last: Event, e: Event) {
    && StartsFrom(pts, first) && StartsFrom(pts, last) && (!e.isLastEvent ==> ClosesOn(pts, e))
    && first.position <= last.position && e == last.(startContext := first.startContext)
    && first.startContext.gprs == last.startContext.gprs && first.startContext.crs == last.startContext.crs
    && (first != last ==> !first.isFirstEventContextUnknown && !last.isFirstEventContextUnknown)
  }

  /** The first event of the run that is reported as the i-th event. */
  ghost function FirstOfRun(pts: seq<Point>, i: nat): Event
    requires i < |Coalesce(RawEvents(Dedup(pts)).events)|
  {
    RawFromRun(pts, i).events[0]
  }

  lemma RunSays(pts: seq<Point>, ps: seq<Located>, j: nat, k: nat)
    requires InTrace(pts, ps) && 1 <= k && j + k <= |RawEvents(ps).events|
    requires IsRun(RawEvents(ps).events[j..][..k])
    ensures var es := RawEvents(ps).events[j..];
            RunReportedAs(pts, es[0], es[k - 1], MergeRun(es[..k]))
  {
    hide RawEvents;
    hide InTrace;
    hide StartsFrom;
    hide ClosesOn;
    var es := RawEvents(ps).events;
    var first, last := es[j], es[j + k - 1];
    assert es[j..][0] == first && es[j..][k - 1] == last;
    RawEventSays(pts, ps, j);
    RawEventSays(pts, ps, j + k - 1);
    RawEventsIncrease(pts, ps);
    MergedRunIsItsLastEvent(es[j..][..k]);
    SameClosing(pts, last, first.startContext);
    if k > 1 {
      assert Linked(es[j..][..k][0], es[j..][..k][1]);
      UnknownIsFirst(pts, first);
      UnknownIsFirst(pts, last);
    }
  }

  lemma UnknownIsFirst(pts: seq<Point>, e: Event)
    requires StartsFrom(pts, e)
    ensures 1 <= e.position && (e.isFirstEventContextUnknown ==> e.position == 1)
  {
  }

  lemma SameClosing(pts: seq<Point>, e: Event, start: Context)
    ensures ClosesOn(pts, e.(startContext := start)) <==> ClosesOn(pts, e)
  {
  }

  /** Every reported event is that of a run of raw events, which say what the points of the trace say. */
  lemma ReportedSays(pts: seq<Point>, i: nat) returns (last: Event)
    requires i < |Reported(RawEvents(Dedup(pts)))|
    ensures i < |Coalesce(RawEvents(Dedup(pts)).events)|
    ensures RunReportedAs(pts, FirstOfRun(pts, i), last, Reported(RawEvents(Dedup(pts)))[i])
  {
    var raw := RawEvents(Dedup(pts));
    DedupInTrace(pts);
    hide RawEvents;
    hide Dedup;
    hide InTrace;
    hide Reported;
    hide Coalesce;
    hide RunReportedAs;
    hide MergeRun;
    ReportedIsPrefix(raw);
    EventOfRun(pts, i);
    var j := FromRunIsSuffix(raw.events, i);
    var tail := RawFromRun(pts, i).events;
    hide FromRun;
    var k := RunLength(tail);
    FirstRunIsRun(tail);
    hide RunLength;
    last := tail[k - 1];
    RunSays(pts, Dedup(pts), j, k);
  }

  lemma FirstRunIsRun(es: seq<Event>)
    requires es != []
    ensures IsRun(es[..RunLength(es)])
  {
    hide Linked;
  }

  // ---- From the records of a file

  /** Every register of a context is that of the record. */
  ghost predicate HasRegistersOf(c: Context, r: Record) {
    && c.gprs.rax == r.gprs.rax && c.gprs.rbx == r.gprs.rbx && c.gprs.rcx == r.gprs.rcx && c.gprs.rdx == r.gprs.rdx
    && c.gprs.rsi == r.gprs.rsi && c.gprs.rdi == r.gprs.rdi && c.gprs.rbp == r.gprs.rbp && c.gprs.rsp == r.gprs.rsp
    && c.gprs.r8 == r.gprs.r8 && c.gprs.r9 == r.gprs.r9 && c.gprs.r10 == r.gprs.r10 && c.gprs.r11 == r.gprs.r11
    && c.gprs.r12 == r.gprs.r12 && c.gprs.r13 == r.gprs.r13 && c.gprs.r14 == r.gprs.r14 && c.gprs.r15 == r.gprs.r15
    && c.crs.cr0 == r.crs.cr0 && c.crs.cr2 == r.crs.cr2 && c.crs.cr3 == r.crs.cr3 && c.crs.cr4 == r.crs.cr4
    && c.fpu.sw == r.fpu.sw && c.fpu.cw == r.fpu.cw && c.fpu.tags == r.fpu.tags && c.tsc == r.tsc
  }

  /** The type of a record without the bits above the interrupt mark. */
  function TypeOf(r: Record): nat {
    r.rawType % 0x200
  }

  /** A complete event in terms of the records that start its run, that start it and that close it. */
  ghost predicate IsOf(e: Event, start: Record, exit: Record, enter: Record) {
    // the registers of the closing VMENTER are the new context
    && TypeOf(enter) == 0xff && HasRegistersOf(e.newContext, enter) && e.rflags == enter.rflags
    && (e.hasInterrupt ==> e.interruptRip == enter.rip)
    // only a first record that is no VMEXIT leaves the start unknown
    && (e.isFirstEventContextUnknown <==> e.position == 1 && 0xff <= TypeOf(exit))
    && (e.isFirstEventContextUnknown ==> e.isInstructionEmulation && e.startContext == ZERO_CONTEXT)
    && (!e.isFirstEventContextUnknown ==>
          // the start context is that of the record the run starts at, equal in value to the event's own
          && HasRegistersOf(e.startContext, start) && start.gprs == exit.gprs && start.crs == exit.crs
          && e.startRip == exit.rip && e.startReason == TypeOf(exit)
          && (e.isInstructionEmulation <==>
                TypeOf(exit) in {10, 16, 28, 30, 31, 49, 51} || (TypeOf(exit) != 12 && enter.rip != exit.rip)))
  }

  /** The event whose run starts at record u closes on record at, the first VMENTER from its own start on. */
  ghost predicate SaysRecords(rs: seq<Record>, e: Event, u: nat, at: nat) {
    && 1 <= u <= e.position <= at <= |rs|
    && IsOf(e, rs[u - 1], rs[e.position - 1], rs[at - 1])
    && forall x | e.position - 1 <= x < at - 1 :: TypeOf(rs[x]) != 0xff
  }

  /** The complete events that are reported of a list of records say what its records say. */
  lemma ReportedFromRecords(rs: seq<Record>, i: nat)
    requires forall r <- rs :: WritableRecord(r)
    requires i < |Reported(RawEvents(Dedup(PointsOf(rs))))|
    requires !Reported(RawEvents(Dedup(PointsOf(rs))))[i].isLastEvent
    ensures var pts := PointsOf(rs);
            var e := Reported(RawEvents(Dedup(pts)))[i];
            && i < |Coalesce(RawEvents(Dedup(pts)).events)|
            && SaysRecords(rs, e, FirstOfRun(pts, i).position, ClosingPosition(pts, e.position))
  {
    hide RawEvents;
    hide Dedup;
    hide Reported;
    hide Coalesce;
    hide RunReportedAs;
    hide SaysRecords;
    hide PointsOf;
    hide ClosingPosition;
    hide FirstOfRun;
    var last := ReportedSays(PointsOf(rs), i);
    PointsSayRecords(rs, FirstOfRun(PointsOf(rs), i), last, Reported(RawEvents(Dedup(PointsOf(rs))))[i]);
  }

  lemma PointsSayRecords(rs: seq<Record>, first: Event, last: Event, e: Event)
    requires forall r <- rs :: WritableRecord(r)
    requires RunReportedAs(PointsOf(rs), first, last, e) && !e.isLastEvent
    ensures SaysRecords(rs, e, first.position, ClosingPosition(PointsOf(rs), e.position))
  {
    hide ClosingPosition;
    hide WritableRecord;
    hide PointsOf;
    hide StartsWith;
    hide ClosesWith;
    hide KindFrom;
    hide IsOf;
    var pts, at, u, v := PointsOf(rs), ClosingPosition(PointsOf(rs), e.position), first.position, e.position;
    AllKinds(rs);
    StartAndClose(first, last, e, pts[u - 1], pts[v - 1], pts[at - 1], rs[u - 1], rs[v - 1], rs[at - 1]);
    forall x | v - 1 <= x < at - 1 ensures TypeOf(rs[x]) != 0xff {
      NoEnterFrom(rs[x], pts[x]);
    }
  }

  lemma NoEnterFrom(r: Record, p: Point)
    requires KindFrom(r, p) && p.kind != 0xff
    ensures TypeOf(r) != 0xff
  {
  }

  lemma StartAndClose(first: Event, last: Event, e: Event, startPoint: Point, exitPoint: Point, enterPoint: Point,
                      start: Record, exit: Record, enter: Record)
    requires StartsWith(first, startPoint) && StartsWith(last, exitPoint) && ClosesWith(e, exitPoint, enterPoint)
    requires KindFrom(start, startPoint) && KindFrom(exit, exitPoint) && KindFrom(enter, enterPoint)
    requires e == last.(startContext := first.startContext)
    requires first.startContext.gprs == last.startContext.gprs && first.startContext.crs == last.startContext.crs
    requires first != last ==> !first.isFirstEventContextUnknown && !last.isFirstEventContextUnknown
    ensures IsOf(e, start, exit, enter)
  {
    SameRegisters(start, startPoint);
    SameRegisters(exit, exitPoint);
    SameRegisters(enter, enterPoint);
    hide HasRegistersOf;
    hide Registers;
    hide TypeOf;
  }

  lemma AllKinds(rs: seq<Record>)
    requires forall r <- rs :: WritableRecord(r)
    ensures forall x | 0 <= x < |rs| :: KindFrom(rs[x], PointsOf(rs)[x])
  {
    hide KindFrom;
    hide Decode;
    forall x | 0 <= x < |rs| ensures KindFrom(rs[x], PointsOf(rs)[x]) {
      assert rs[x] in rs;
      RecordKind(rs[x]);
    }
  }

  lemma SameRegisters(r: Record, p: Point)
    requires KindFrom(r, p)
    ensures HasRegistersOf(Registers(p), r) && Registers(p).gprs == r.gprs && Registers(p).crs == r.crs
  {
  }

  /** The point of a record has its registers, and the type that its raw type says. */
  ghost predicate KindFrom(r: Record, p: Point) {
    && p.gprs == r.gprs && p.crs == r.crs && p.fpu == r.fpu && p.tsc == r.tsc
    && p.rip == r.rip && p.rflags == r.rflags
    && (p.kind == 0xff <==> TypeOf(r) == 0xff) && (p.kind == 0xfe <==> 0x100 <= TypeOf(r))
    && (p.kind < 0xfe ==> p.kind == TypeOf(r))
  }

  lemma RecordKind(r: Record)
    requires WritableRecord(r)
    ensures KindFrom(r, Decode(r, 0))
  {
    var t := r.rawType;
    assert t == 0x200 * (t / 0x200) + t % 0x200;
    assert t / 0x100 == 2 * (t / 0x200) + (t % 0x200) / 0x100;
    assert t % 0x100 == (t % 0x200) % 0x100;
  }

  /**
   * End to end: the events a dump shows of the files written for a list of records are the reported ones,
   * and every complete one says what the records say.
   */
  method DumpWritten(rs: seq<Record>, recordSize: uint32) returns (out: seq<Event>, thrown: Option<Error>)
    requires Encodable(rs, recordSize) && forall r <- rs :: Plausible(Decode(r, 0))
    requires Ends(RawEvents(Dedup(PointsOf(rs))))
    ensures out == Reported(RawEvents(Dedup(PointsOf(rs))))
    ensures forall i | 0 <= i < |out| && !out[i].isLastEvent :: exists u, at :: SaysRecords(rs, out[i], u, at)
  {
    hide EncodeTrace;
    hide EncodeData;
    hide PointsOf;
    hide Decode;
    hide Plausible;
    hide Dedup;
    hide RawEvents;
    hide Reported;
    hide Openable;
    hide SaysRecords;
    hide SyncFile.Valid;
    hide SyncFile.Future;
    TraceRoundTrip(rs, recordSize);
    var file := new SyncFile(EncodeTrace(rs, recordSize), Some(EncodeData(rs)), PointsOf(rs));
    out, thrown := DumpEvents(file);
    forall i | 0 <= i < |out| && !out[i].isLastEvent ensures exists u, at :: SaysRecords(rs, out[i], u, at) {
      ReportedFromRecords(rs, i);
    }
  }
}
