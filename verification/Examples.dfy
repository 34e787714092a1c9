/** Concrete traces on which the code does not do what its readers expect. */
module Examples {
  import opened Bytes
  import opened SyncPoints
  import opened SyncEvents
  import opened SyncTraces
  import opened EventParser
  import opened EventCoalescing
  import opened SyncTraceFiles
  import opened SyncTraceEncoding
  import opened SyncFiles
  import opened DumpSyncEvents
  import opened EndlessDumps
  import opened Moves
  import opened RandomAccess
  import opened RepeatedExits
  import opened Interleavings

  const EXTERNAL_INTERRUPT: byte := 1

  /** A point at a fixed rip, with no data. */
  function PointOf(tsc: uint64, kind: byte, cr0: uint64 := 1): Point {
    Point(tsc, kind, 0, ZERO_GPRS, 0x1000, 0, Crs(cr0, 0, 0, 0), ZERO_FPU, 0, 0, [])
  }

  /** The record of such a point, which is no interrupt. */
  function RecordOf(tsc: uint64, kind: byte, cr0: uint64 := 1): Record {
    Record(tsc, kind, 0, ZERO_GPRS, 0x1000, 0, Crs(cr0, 0, 0, 0), ZERO_FPU, 0, [])
  }

  /** The size the recorder uses. */
  const RECORD_SIZE: uint32 := 256

  lemma FourDistinct(pts: seq<Point>)
    requires |pts| == 4 && forall i, j | 0 <= i < j < 4 :: pts[i].tsc < pts[j].tsc
    ensures Rest(pts, 4) == [] && Rest(pts, 3) == [Located(pts[3], 4)]
    ensures Rest(pts, 2) == [Located(pts[2], 3), Located(pts[3], 4)]
    ensures Dedup(pts) == [Located(pts[0], 1), Located(pts[1], 2), Located(pts[2], 3), Located(pts[3], 4)]
  {
    assert Rest(pts, 3) == [Located(pts[3], 4)] + Rest(pts, 4);
    assert Rest(pts, 2) == [Located(pts[2], 3)] + Rest(pts, 3);
    assert Rest(pts, 1) == [Located(pts[1], 2)] + Rest(pts, 2);
  }

  /** Fetching a VMEXIT at once followed by a VMENTER, which may differ in cr0. */
  lemma FetchPair(ps: seq<Located>, exit: Point, enter: Point, p: nat, q: nat)
    requires |ps| >= 2 && ps[0] == Located(exit, p) && ps[1] == Located(enter, q)
    requires exit == PointOf(exit.tsc, EXTERNAL_INTERRUPT) && enter == PointOf(enter.tsc, VMENTER, enter.crs.cr0)
    ensures var f := Fetch(ps);
            && f.Fetched? && f.rest == ps[2..] && f.at == q
            && f.event.position == p && f.event.isValid && !f.event.isLastEvent
            && (Pending(f.event) <==> p != 1 && enter.crs.cr0 == 1)
            && (Pending(f.event.(position := 2)) <==> enter.crs.cr0 == 1)
            && f.event.startContext == ContextOf(exit) && f.event.newContext == ContextOf(enter)
            && f.event.startRip == exit.rip && !f.event.isInstructionEmulation
  {
    FetchSkips(ps);
    assert ps[0..] == ps;
    assert IsEvent(ps, false, 1);
    ParseAccepts(ps, false, 1);
  }

  /** Two exits, the second of which may change cr0. */
  function TwoExits(cr0: uint64): seq<Record> {
    [RecordOf(1, EXTERNAL_INTERRUPT), RecordOf(2, VMENTER),
     RecordOf(3, EXTERNAL_INTERRUPT), RecordOf(4, VMENTER, cr0)]
  }

  lemma TwoExitsFileHolds(cr0: uint64)
    requires cr0 != 0
    ensures var rs := TwoExits(cr0);
            Openable(EncodeTrace(rs, RECORD_SIZE), Some(EncodeData(rs)), PointsOf(rs))
            && BlankHeader(EncodeTrace(rs, RECORD_SIZE))
  {
    var rs := TwoExits(cr0);
    hide EncodeTrace;
    hide EncodeData;
    hide PointsOf;
    hide Openable;
    hide BlankHeader;
    TwoExitsPlausible(rs, cr0);
    hide TwoExits;
    NoData(rs);
    TraceRoundTrip(rs, RECORD_SIZE);
    EncodedHeaderIsBlank(rs, RECORD_SIZE);
  }

  lemma TwoExitsPlausible(rs: seq<Record>, cr0: uint64)
    requires cr0 != 0 && rs == TwoExits(cr0)
    ensures |rs| == 4 && forall r <- rs :: r.data == [] && WritableRecord(r) && Plausible(Decode(r, 0))
  {
  }

  lemma NoData(rs: seq<Record>)
    requires forall r <- rs :: r.data == []
    ensures |EncodeData(rs)| == DATA_START
  {
    forall i | 0 <= i < |rs| ensures DataPieces(rs)[i] == [] {
      assert rs[i] in rs;
    }
    EqualPieces(DataPieces(rs), 0);
  }

  /** The two raw events; the second waits for a third exactly when it leaves cr0 alone. */
  lemma TwoExitsEvents(cr0: uint64)
    requires cr0 != 0
    ensures var raw := RawEvents(Dedup(PointsOf(TwoExits(cr0))));
            && |raw.events| == 2 && raw.ending == Clean
            && raw.events[0].position == 1 && raw.events[1].position == 3
            && (Pending(raw.events[1]) <==> cr0 == 1) && (WaitsInVain(raw) <==> cr0 == 1)
            && Coalesce(raw.events) == raw.events
  {
    hide Fetch;
    hide Rest;
    hide Dedup;
    hide Pending;
    var pts := PointsOf(TwoExits(cr0));
    TwoExitsPoints(cr0);
    hide PointsOf;
    hide TwoExits;
    FourDistinct(pts);
    var ps := Dedup(pts);
    FetchPair(ps, pts[0], pts[1], 1, 2);
    FetchPair(ps[2..], pts[2], pts[3], 3, 4);
    RawFirst(ps);
    RawFirst(ps[2..]);
    assert ps[2..][2..] == [] && RawEvents([]) == Raw([], Clean);
    hide RawEvents;
    TwoApart(RawEvents(ps).events);
  }

  lemma TwoExitsPoints(cr0: uint64)
    ensures PointsOf(TwoExits(cr0)) ==
            [PointOf(1, EXTERNAL_INTERRUPT), PointOf(2, VMENTER),
             PointOf(3, EXTERNAL_INTERRUPT), PointOf(4, VMENTER, cr0)]
  {
  }

  lemma TwoApart(es: seq<Event>)
    requires |es| == 2 && !Pending(es[0])
    ensures Coalesce(es) == es
  {
    CoalesceStep(es);
    CoalesceStep(es[1..]);
    assert RunLength(es) == 1 && es[..1] == [es[0]];
    assert RunLength(es[1..]) == 1 && es[1..][..1] == [es[1]] && es[1..][1..] == [];
    assert MergeRun([es[0]]) == es[0] && MergeRun([es[1]]) == es[1];
  }

  lemma {:induction false} RepeatedPair(es: seq<Event>, rounds: nat)
    requires |es| == 2
    ensures |Repeated(es, rounds)| == 2 * rounds
    ensures forall i | 0 <= i < 2 * rounds :: Repeated(es, rounds)[i] == es[i % 2]
    decreases rounds
  {
    if rounds == 0 {
    } else {
      RepeatedPair(es, rounds - 1);
    }
  }

  /**
   * Two exits that change nothing. The second event waits for a third one that never comes: the loop shows
   * the events at positions 1 and 3 over and over.
   */
  method NeutralLastEventRepeats(rounds: nat) returns (out: seq<Event>)
    ensures |out| == 2 * rounds
    ensures forall i | 0 <= i < |out| :: out[i].position == if i % 2 == 0 then 1 else 3
  {
    hide EncodeTrace;
    hide EncodeData;
    hide PointsOf;
    hide TwoExits;
    hide Dedup;
    hide RawEvents;
    hide Coalesce;
    hide Openable;
    hide BlankHeader;
    hide SyncFile.OnTrack;
    hide SyncFile.Future;
    hide SyncFile.Valid;
    TwoExitsFileHolds(1);
    TwoExitsEvents(1);
    var rs := TwoExits(1);
    RepeatedPair(RawEvents(Dedup(PointsOf(rs))).events, rounds);
    var file := new SyncFile(EncodeTrace(rs, RECORD_SIZE), Some(EncodeData(rs)), PointsOf(rs));
    out := DumpStartsOver(file, rounds, 2);
  }

  /** Two exits, the second of which changes cr0: after both were shown and a move to 0, the second is shown again. */
  method RewindShowsSecondEvent() returns (out: seq<Event>, r: Result<Event>)
    ensures |out| == 2 && out[0].position == 1 && out[1].position == 3 && r == Success(out[1])
  {
    hide EncodeTrace;
    hide EncodeData;
    hide PointsOf;
    hide TwoExits;
    hide Dedup;
    hide RawEvents;
    hide Coalesce;
    hide WaitsInVain;
    hide Openable;
    hide BlankHeader;
    hide SyncFile.OnTrack;
    hide SyncFile.Future;
    hide SyncFile.Valid;
    TwoExitsFileHolds(3);
    TwoExitsEvents(3);
    var rs := TwoExits(3);
    var file := new SyncFile(EncodeTrace(rs, RECORD_SIZE), Some(EncodeData(rs)), PointsOf(rs));
    out, r := RewindReportsOld(file, 2);
  }

  /** A complete event and then two interrupts: no VMEXIT follows, and asking for their event never returns. */
  lemma TrailingInterruptsAreStrays()
    ensures var pts := [PointOf(1, EXTERNAL_INTERRUPT), PointOf(2, VMENTER),
                        PointOf(3, INTERRUPT), PointOf(4, INTERRUPT)];
            var raw := RawEvents(Dedup(pts));
            && PlausibleTrace(pts)
            && |raw.events| == 1 && raw.ending == Strays && !WaitsInVain(raw) && !Ends(raw)
  {
    var pts := [PointOf(1, EXTERNAL_INTERRUPT), PointOf(2, VMENTER), PointOf(3, INTERRUPT), PointOf(4, INTERRUPT)];
    FourDistinct(pts);
    var ps := Dedup(pts);
    FetchPair(ps, pts[0], pts[1], 1, 2);
    FetchSkips(ps[2..]);
    assert FirstExit(ps[2..]) == 2;
    hide Fetch;
    RawFirst(ps);
    assert RawEvents(ps[2..]) == Raw([], Strays);
  }

  /** A first VMEXIT recorded twice, and events behind it. */
  function RepeatedExitRecords(rest: seq<Record>): seq<Record> {
    [RecordOf(1, EXTERNAL_INTERRUPT), RecordOf(1, EXTERNAL_INTERRUPT), RecordOf(2, VMENTER)] + rest
  }

  lemma ThreePoints(pts: seq<Point>)
    requires 3 <= |pts| && pts[0] == pts[1] == PointOf(1, EXTERNAL_INTERRUPT) && pts[2] == PointOf(2, VMENTER)
    requires Rest(pts, 3) != [] ==> Rest(pts, 3)[0].position == 4
    ensures Dedup(pts) == [Located(pts[0], 1), Located(pts[2], 3)] + Rest(pts, 3)
    ensures AheadOf(pts, 2) == [Located(pts[1], 2), Located(pts[2], 3)] + Rest(pts, 3)
    ensures RepeatedExit(pts, 1) && LastExit(pts, 3) == 2
  {
    assert Rest(pts, 2) == [Located(pts[2], 3)] + Rest(pts, 3);
    assert Rest(pts, 1) == Rest(pts, 2);
    assert LastExit(pts, 2) == 2;
  }

  /** What the first two raw events are, read from the start and from the copy of the VMEXIT. */
  lemma ThreePointsRead(pts: seq<Point>)
    requires 3 <= |pts| && pts[0] == pts[1] == PointOf(1, EXTERNAL_INTERRUPT) && pts[2] == PointOf(2, VMENTER)
    requires Rest(pts, 3) != [] ==> Rest(pts, 3)[0].position == 4
    ensures var raw, again, tail := RawEvents(Dedup(pts)), RawEvents(AheadOf(pts, 2)), RawEvents(Rest(pts, 3));
            && raw.events != [] && raw.events[0].position == 1 && raw.events[1..] == tail.events
            && !Pending(raw.events[0]) && Pending(raw.events[0].(position := 2)) && raw.ending == tail.ending
            && again.events != [] && again.events[0].position == 2 && again.events[1..] == tail.events
            && Pending(again.events[0]) && again.ending == tail.ending
            && again.events[0].newContext == ContextOf(pts[2]) && again.events[0].startRip == pts[1].rip
            && !again.events[0].isInstructionEmulation
  {
    ThreePoints(pts);
    var ps, qs, rest := Dedup(pts), AheadOf(pts, 2), Rest(pts, 3);
    assert ps[2..] == rest == qs[2..];
    FetchPair(ps, pts[0], pts[2], 1, 3);
    FetchPair(qs, pts[1], pts[2], 2, 3);
    hide Fetch;
    hide Dedup;
    hide AheadOf;
    hide Rest;
    RawFirst(ps);
    RawFirst(qs);
  }

  /**
   * A first VMEXIT recorded twice, and no other event. A dump ends as it should, but walking back from the
   * VMENTER stops at the second copy, and the event read from there waits in vain.
   */
  lemma RepeatedExitExample()
    ensures var pts := PointsOf(RepeatedExitRecords([]));
            && PlausibleTrace(pts) && RepeatedExit(pts, 1) && LastExit(pts, 3) == 2
            && Ends(RawEvents(Dedup(pts))) && TrappedAtFirst(pts)
            && |RawEvents(AheadOf(pts, 2)).events| == 1 && ReloadOf(RawEvents(AheadOf(pts, 2))) == Lost
  {
    hide RawEvents;
    hide Dedup;
    hide AheadOf;
    hide Pending;
    hide LastExit;
    hide TrappedAtFirst;
    RepeatedExitAlone(PointsOf(RepeatedExitRecords([])));
  }

  lemma RepeatedExitAlone(pts: seq<Point>)
    requires |pts| == 3 && pts[0] == pts[1] == PointOf(1, EXTERNAL_INTERRUPT) && pts[2] == PointOf(2, VMENTER)
    ensures RepeatedExit(pts, 1) && LastExit(pts, 3) == 2
    ensures Ends(RawEvents(Dedup(pts))) && TrappedAtFirst(pts)
    ensures |RawEvents(AheadOf(pts, 2)).events| == 1 && ReloadOf(RawEvents(AheadOf(pts, 2))) == Lost
  {
    hide Dedup;
    hide AheadOf;
    hide LastExit;
    hide Pending;
    assert Rest(pts, 3) == [] && RawEvents([]) == Raw([], Clean);
    hide Rest;
    hide RawEvents;
    ThreePointsRead(pts);
    ThreePoints(pts);
    hide RepeatedExit;
    OneEvent(RawEvents(Dedup(pts)).events);
    OneEvent(RawEvents(AheadOf(pts, 2)).events);
  }

  lemma OneEvent(es: seq<Event>)
    requires es != [] && es[1..] == []
    ensures |es| == 1
  {
  }

  /** On the reader: advance_to the only VMENTER of that trace loses the cursor. */
  method RepeatedExitLosesTrack() returns (file: SyncFile)
    ensures file.LostTrack()
  {
    hide EncodeTrace;
    hide EncodeData;
    hide PointsOf;
    hide Dedup;
    hide RawEvents;
    hide AheadOf;
    hide LastExit;
    hide Openable;
    hide BlankHeader;
    hide TrappedAtFirst;
    hide SyncFile.OnTrack;
    hide SyncFile.Future;
    hide SyncFile.Valid;
    hide SyncFile.LostTrack;
    hide SyncFile.Reports;
    RepeatedExitFileHolds();
    RepeatedExitExample();
    var rs := RepeatedExitRecords([]);
    file := new SyncFile(EncodeTrace(rs, RECORD_SIZE), Some(EncodeData(rs)), PointsOf(rs));
    ThirdIsEnter(file.points);
    file.TrackIsValid();
    file.CanSeek(3);
    var check := file.AdvanceTo(3);
    LastIsLost(file, RawEvents(AheadOf(file.points, 2)),
               if check.Fail? then Failure(check.error) else Success(file.currentEvent));
  }

  lemma ThirdIsEnter(pts: seq<Point>)
    requires pts == PointsOf(RepeatedExitRecords([]))
    ensures |pts| == 3 && pts[2].IsVmEnter()
  {
  }

  lemma RepeatedExitFileHolds()
    ensures var rs := RepeatedExitRecords([]);
            Openable(EncodeTrace(rs, RECORD_SIZE), Some(EncodeData(rs)), PointsOf(rs))
  {
    hide EncodeTrace;
    hide EncodeData;
    hide PointsOf;
    hide Openable;
    var rs := RepeatedExitRecords([]);
    RepeatedExitPlausible(rs);
    hide RepeatedExitRecords;
    NoData(rs);
    TraceRoundTrip(rs, RECORD_SIZE);
  }

  lemma RepeatedExitPlausible(rs: seq<Record>)
    requires rs == RepeatedExitRecords([])
    ensures |rs| == 3 && forall r <- rs :: r.data == [] && WritableRecord(r) && Plausible(Decode(r, 0))
  {
  }

  /**
   * The same with an event behind it that begins where the first one ended: read from the copy, the first
   * event merges into the next, which it did not when the trace was read from the start.
   */
  lemma RepeatedExitMergesExample()
    ensures var pts := PointsOf(RepeatedExitRecords([RecordOf(3, EXTERNAL_INTERRUPT), RecordOf(4, VMENTER, 3)]));
            var raw, again := RawEvents(Dedup(pts)), RawEvents(AheadOf(pts, 2));
            && LastExit(pts, 3) == 2 && Ends(raw) && |raw.events| == 2
            && raw.events[0].position == 1 && RunLength(raw.events) == 1
            && ReloadOf(again) == Merged && RunLength(again.events) == 2
            && again.events[1].position == 4
  {
    hide RawEvents;
    hide Dedup;
    hide AheadOf;
    hide Pending;
    hide LastExit;
    hide RunLength;
    hide ReloadOf;
    RepeatedExitMerges(PointsOf(RepeatedExitRecords([RecordOf(3, EXTERNAL_INTERRUPT), RecordOf(4, VMENTER, 3)])));
  }

  lemma RepeatedExitMerges(pts: seq<Point>)
    requires |pts| == 5 && pts[0] == pts[1] == PointOf(1, EXTERNAL_INTERRUPT) && pts[2] == PointOf(2, VMENTER)
    requires pts[3] == PointOf(3, EXTERNAL_INTERRUPT) && pts[4] == PointOf(4, VMENTER, 3)
    ensures var raw, again := RawEvents(Dedup(pts)), RawEvents(AheadOf(pts, 2));
            && LastExit(pts, 3) == 2 && Ends(raw) && |raw.events| == 2
            && raw.events[0].position == 1 && RunLength(raw.events) == 1
            && ReloadOf(again) == Merged && RunLength(again.events) == 2
            && again.events[1].position == 4
  {
    hide Rest;
    hide Dedup;
    hide AheadOf;
    hide LastExit;
    hide RawEvents;
    hide Pending;
    hide RunLength;
    LastPairRead(pts);
    ThreePointsRead(pts);
    ThreePoints(pts);
    TwoEvents(RawEvents(Dedup(pts)).events, RawEvents(Rest(pts, 3)).events);
    TwoEvents(RawEvents(AheadOf(pts, 2)).events, RawEvents(Rest(pts, 3)).events);
  }

  lemma LastPairRead(pts: seq<Point>)
    requires |pts| == 5 && pts[2] == PointOf(2, VMENTER)
    requires pts[3] == PointOf(3, EXTERNAL_INTERRUPT) && pts[4] == PointOf(4, VMENTER, 3)
    ensures Rest(pts, 3) != [] && Rest(pts, 3)[0].position == 4
    ensures var raw := RawEvents(Rest(pts, 3));
            && |raw.events| == 1 && raw.ending == Clean && raw.events[0].position == 4 && !Pending(raw.events[0])
            && raw.events[0].startContext == ContextOf(pts[3]) && raw.events[0].startRip == pts[3].rip
  {
    var rest := [Located(pts[3], 4), Located(pts[4], 5)];
    assert Rest(pts, 4) == [Located(pts[4], 5)] + Rest(pts, 5) && Rest(pts, 5) == [];
    assert Rest(pts, 3) == rest;
    hide Rest;
    FetchPair(rest, pts[3], pts[4], 4, 5);
    hide Fetch;
    RawFirst(rest);
    assert rest[2..] == [] && RawEvents([]) == Raw([], Clean);
    hide RawEvents;
    OneEvent(RawEvents(rest).events);
  }

  lemma TwoEvents(es: seq<Event>, tail: seq<Event>)
    requires es != [] && es[1..] == tail && |tail| == 1
    ensures |es| == 2 && es[1] == tail[0]
    ensures RunLength(es) == if Linked(es[0], es[1]) then 2 else 1
  {
    hide Linked;
    assert es[1] == es[1..][0];
  }
}
