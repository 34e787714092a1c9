/** What any interleaving of cursor operations keeps. */
module Interleavings {
  import opened Bytes
  import opened SyncPoints
  import opened SyncEvents
  import opened SyncTraces
  import opened EventParser
  import opened EventCoalescing
  import opened SyncTraceFiles
  import opened SyncFiles
  import opened DumpSyncEvents
  import opened WholeTrace
  import opened RandomAccess
  import opened RepeatedExits

  // ---- The traces on which the cursor can be lost

  /** From some position of the trace on, the last event waits in vain. */
  ghost predicate WaitsSomewhere(pts: seq<Point>) {
    exists q | 1 <= q <= |pts| :: WaitsInVain(RawEvents(AheadOf(pts, q)))
  }

  /**
   * The only event of the trace begins with a VMEXIT that is recorded again, and it waits for another one
   * when it is read from a copy: at position 1 it did not.
   */
  ghost predicate TrappedAtFirst(pts: seq<Point>) {
    && pts != [] && RepeatedExit(pts, 1)
    && var es := RawEvents(Dedup(pts)).events;
       |es| == 1 && Pending(es[0].(position := 2))
  }

  /** The delivered record that a record repeats, which may be itself. */
  lemma {:induction false} RunHead(pts: seq<Point>, u: nat) returns (h: nat)
    requires 1 <= u <= |pts|
    ensures 1 <= h <= u && IsHead(pts, h) && pts[h - 1].Same(pts[u - 1]) && Rest(pts, h) == Rest(pts, u)
    ensures h < u ==> pts[h - 1].Same(pts[h])
    decreases u
  {
    if IsHead(pts, u) {
      h := u;
    } else {
      assert Rest(pts, u - 1) == Rest(pts, u);
      hide Rest;
      h := RunHead(pts, u - 1);
    }
  }

  /** Where a delivered point stands in the stream without duplicates. */
  lemma HeadInDedup(pts: seq<Point>, h: nat) returns (i: nat)
    requires 1 <= h <= |pts| && IsHead(pts, h)
    ensures i < |Dedup(pts)| && Dedup(pts)[i..] == AheadOf(pts, h)
    ensures i == 0 <==> h == 1
    ensures LaterRest(Dedup(pts))
  {
    hide IsHead;
    DedupIsTheHeads(pts);
    DedupInTrace(pts);
    var ps := Dedup(pts);
    FirstDelivered(pts);
    hide Dedup;
    hide Rest;
    i :| 0 <= i < |ps| && ps[i] == Located(pts[h - 1], h);
    SuffixInTrace(pts, ps, i);
  }

  lemma FirstDelivered(pts: seq<Point>)
    requires pts != []
    ensures Dedup(pts) != [] && Dedup(pts)[0].position == 1
  {
    hide Rest;
  }

  /** On a trace without an exception, reading from a delivered VMEXIT finds the raw events from some index on. */
  lemma HeadHasTail(pts: seq<Point>, h: nat) returns (j: nat)
    requires 1 <= h <= |pts| && IsHead(pts, h) && pts[h - 1].IsVmExit()
    requires !RawEvents(Dedup(pts)).ending.Broken?
    ensures var raw := RawEvents(Dedup(pts));
            j <= |raw.events| && RawEvents(AheadOf(pts, h)) == Raw(raw.events[j..], raw.ending)
    ensures h == 1 ==> j == 0
  {
    hide RawEvents;
    hide Rest;
    var i := HeadInDedup(pts, h);
    var ps := Dedup(pts);
    hide Dedup;
    if h == 1 {
      j := 0;
      assert ps[0..] == ps && RawEvents(ps).events[0..] == RawEvents(ps).events;
    } else {
      j := SuffixHasTail(ps, i);
    }
  }

  lemma LastOfSuffix(raw: Raw, j: nat)
    requires j < |raw.events| && WaitsInVain(Raw(raw.events[j..], raw.ending))
    ensures WaitsInVain(raw)
  {
    hide Pending;
  }

  /** Waiting in vain at a VMEXIT comes from the whole trace, or from the copy of its only event. */
  lemma WaitsAtExit(pts: seq<Point>, u: nat)
    requires 1 <= u <= |pts| && pts[u - 1].IsVmExit()
    requires !RawEvents(Dedup(pts)).ending.Broken? && WaitsInVain(RawEvents(AheadOf(pts, u)))
    ensures WaitsInVain(RawEvents(Dedup(pts))) || TrappedAtFirst(pts)
  {
    hide RawEvents;
    hide Rest;
    hide Dedup;
    hide AheadOf;
    var h := RunHead(pts, u);
    var raw, again := RawEvents(Dedup(pts)), RawEvents(AheadOf(pts, u));
    var j := HeadHasTail(pts, h);
    CopyReads(pts, h, u);
    hide IsHead;
    var tail := Raw(raw.events[j..], raw.ending);
    assert tail.events != [];
    if h == u {
      LastOfSuffix(raw, j);
    } else {
      CopyWaitsInVain(tail, again, pts[h - 1], pts[u - 1], u);
      if WaitsInVain(tail) {
        LastOfSuffix(raw, j);
      }
    }
  }

  /** A copy waits in vain if the original does, or if it is the only event and the original was at position 1. */
  lemma CopyWaitsInVain(raw: Raw, again: Raw, first: Point, copy: Point, w: nat)
    requires RawFromCopy(raw, again, first, copy, w) && 2 <= w && raw.events != []
    ensures raw.events[0].position != 1 ==> (WaitsInVain(again) <==> WaitsInVain(raw))
    ensures 1 < |raw.events| ==> (WaitsInVain(again) <==> WaitsInVain(raw))
    ensures |raw.events| == 1 && !raw.ending.Broken? ==>
              (WaitsInVain(again) <==> Pending(raw.events[0].(position := 2)))
  {
    CopyWaits(raw.events[0], again.events[0], first, copy, w);
    hide IsFromCopy;
    assert Pending(raw.events[0].(position := w)) <==> Pending(raw.events[0].(position := 2));
    hide Pending;
    if 1 < |raw.events| {
      var n := |raw.events|;
      assert raw.events[n - 1] == raw.events[1..][n - 2] == again.events[1..][n - 2] == again.events[n - 1];
    }
  }

  /** Ahead of any position but a missing first VMEXIT: the raw events at the first VMEXIT, or none. */
  lemma RawAtFirstExit(pts: seq<Point>, ps: seq<Located>) returns (x: nat)
    requires InTrace(pts, ps) && !FirstExitMissing(ps)
    ensures x <= |ps| && (x == |ps| ==> RawEvents(ps).events == [])
    ensures x < |ps| ==>
              var u := ps[x].position;
              1 <= u <= |pts| && pts[u - 1].IsVmExit() && RawEvents(ps) == RawEvents(AheadOf(pts, u))
  {
    x := FirstExit(ps);
    if x == |ps| {
      FetchSkips(ps);
      hide Fetch;
      RawFirst(ps);
    } else {
      hide RawEvents;
      hide Rest;
      RawFromExit(ps);
      SuffixInTrace(pts, ps, x);
    }
  }

  lemma MissingIsWhole(pts: seq<Point>, q: nat)
    requires 1 <= q <= |pts| && FirstExitMissing(AheadOf(pts, q))
    ensures AheadOf(pts, q) == Dedup(pts)
  {
    hide Rest;
  }

  lemma SomethingWaits(raw: Raw)
    requires WaitsInVain(raw)
    ensures raw.events != []
  {
  }

  lemma WaitsAtPosition(pts: seq<Point>, q: nat)
    requires 1 <= q <= |pts|
    requires !RawEvents(Dedup(pts)).ending.Broken? && WaitsInVain(RawEvents(AheadOf(pts, q)))
    ensures WaitsInVain(RawEvents(Dedup(pts))) || TrappedAtFirst(pts)
  {
    hide RawEvents;
    hide WaitsInVain;
    hide TrappedAtFirst;
    hide AheadOf;
    hide Dedup;
    var ps := AheadOf(pts, q);
    if FirstExitMissing(ps) {
      MissingIsWhole(pts, q);
    } else {
      AheadIsInTrace(pts, q);
      hide FirstExitMissing;
      hide InTrace;
      var x := RawAtFirstExit(pts, ps);
      SomethingWaits(RawEvents(ps));
      WaitsAtExit(pts, ps[x].position);
    }
  }

  /**
   * On a trace without an exception, the last event waits in vain somewhere if and only if it does when the
   * trace is read from the start, or the trace has one event only, without effect, whose VMEXIT is the
   * first record and is repeated.
   */
  lemma WaitsSomewhereExactly(pts: seq<Point>)
    requires !RawEvents(Dedup(pts)).ending.Broken?
    ensures WaitsSomewhere(pts) <==> WaitsInVain(RawEvents(Dedup(pts))) || TrappedAtFirst(pts)
  {
    if WaitsSomewhere(pts) {
      hide TrappedAtFirst;
      hide WaitsInVain;
      var q :| 1 <= q <= |pts| && WaitsInVain(RawEvents(AheadOf(pts, q)));
      WaitsAtPosition(pts, q);
    } else if WaitsInVain(RawEvents(Dedup(pts))) {
      WholeIsAheadOfFirst(pts);
    } else if TrappedAtFirst(pts) {
      TrapWaits(pts);
    }
  }

  lemma WholeIsAheadOfFirst(pts: seq<Point>)
    requires RawEvents(Dedup(pts)).events != []
    ensures pts != [] && AheadOf(pts, 1) == Dedup(pts)
  {
    assert RawEvents([]).events == [];
  }

  lemma TrapWaits(pts: seq<Point>)
    requires TrappedAtFirst(pts) && !RawEvents(Dedup(pts)).ending.Broken?
    ensures 2 <= |pts| && WaitsInVain(RawEvents(AheadOf(pts, 2)))
  {
    WholeIsAheadOfFirst(pts);
    assert Rest(pts, 1) == Rest(pts, 2);
    hide Rest;
    hide Dedup;
    hide RawEvents;
    hide AheadOf;
    CopyReads(pts, 1, 2);
    CopyWaitsInVain(RawEvents(AheadOf(pts, 1)), RawEvents(AheadOf(pts, 2)), pts[0], pts[1], 2);
  }

  // ---- What is ahead of the cursor

  /** A reader that holds no point at position 1 takes its default point for the end of a first event. */
  lemma DefaultAtOne(pts: seq<Point>)
    ensures var ps := [Located(DEFAULT_POINT, 1)] + From(pts, 1);
            var f := Fetch(ps);
            f.Fetched? && f.event.position == 1 && f.rest == From(pts, 1)
  {
    hide Rest;
    var ps := [Located(DEFAULT_POINT, 1)] + From(pts, 1);
    FetchSkips(ps);
    assert ps[0..] == ps && ps[1..] == From(pts, 1);
  }

  lemma OneMoreWaits(e: Event, tail: Raw)
    requires WaitsInVain(Raw([e] + tail.events, tail.ending))
    ensures WaitsInVain(tail) || (tail.events == [] && Pending(e))
  {
    hide Pending;
  }

  lemma DefaultAhead(pts: seq<Point>, p: nat)
    requires !WaitsSomewhere(pts)
    ensures !WaitsInVain(RawEvents([Located(DEFAULT_POINT, p)] + From(pts, p)))
  {
    var ps, rest := [Located(DEFAULT_POINT, p)] + From(pts, p), From(pts, p);
    if p == 1 {
      DefaultAtOne(pts);
      hide Fetch;
      RawFirst(ps);
      var e := Fetch(ps).event;
      var tail := RawEvents(rest);
      assert RawEvents([]).events == [];
      assert 1 < |pts| ==> rest == AheadOf(pts, 2);
      hide RawEvents;
      hide From;
      assert RawEvents(ps).events == [e] + tail.events;
      if WaitsInVain(RawEvents(ps)) {
        OneMoreWaits(e, tail);
      }
    } else {
      FromInTrace(pts, p);
      SkipsDefault(pts, p);
    }
  }

  lemma FromInTrace(pts: seq<Point>, p: nat)
    ensures InTrace(pts, From(pts, p))
  {
    hide Rest;
  }

  /** Elsewhere the default point is skipped. */
  lemma SkipsDefault(pts: seq<Point>, p: nat)
    requires p != 1 && !WaitsSomewhere(pts) && InTrace(pts, From(pts, p))
    ensures !WaitsInVain(RawEvents([Located(DEFAULT_POINT, p)] + From(pts, p)))
  {
    var ps, rest := [Located(DEFAULT_POINT, p)] + From(pts, p), From(pts, p);
    hide From;
    assert ps[1..] == rest;
    var x := FirstExit(rest);
    assert FirstExit(ps) == 1 + x && !FirstExitMissing(ps);
    if x == |rest| {
      FetchSkips(ps);
      hide Fetch;
      RawFirst(ps);
    } else {
      hide RawEvents;
      hide Rest;
      RawFromExit(ps);
      assert ps[1 + x..] == rest[x..];
      SuffixInTrace(pts, rest, x);
      assert !WaitsInVain(RawEvents(AheadOf(pts, rest[x].position)));
    }
  }

  lemma AheadNeverWaits(file: SyncFile)
    requires file.OnTrack() && !file.file.eof && !WaitsSomewhere(file.points)
    ensures !WaitsInVain(RawEvents(file.Ahead()))
  {
    hide RawEvents;
    hide WaitsInVain;
    hide From;
    hide Rest;
    if file.current.IsValid() {
      file.ValidCursor();
      hide SyncFile.OnTrack;
    } else {
      HoldsDefault(file);
      hide SyncFile.OnTrack;
      DefaultAhead(file.points, file.position);
    }
  }

  /** Inside the trace a reader without a valid point holds the default one. */
  lemma HoldsDefault(file: SyncFile)
    requires file.OnTrack() && !file.file.eof && !file.current.IsValid()
    ensures file.Ahead() == [Located(DEFAULT_POINT, file.position)] + From(file.points, file.position)
  {
    hide Holds;
    hide Rest;
    hide From;
    assert 1 <= file.position <= |file.points| ==> file.points[file.position - 1] in file.points;
  }

  lemma TrackKept(file: SyncFile, raw: Raw, r: Result<Event>, revisitable: bool)
    requires file.Reports(raw, r, revisitable) && !WaitsInVain(raw)
    ensures file.OnTrack()
  {
    hide SyncFile.Valid;
    hide SyncFile.OnTrack;
    hide SyncFile.Future;
    hide SyncFile.LostTrack;
    hide RawEvents;
    hide MergeRun;
    hide Pending;
  }

  // ---- Any list of operations

  datatype Operation = Read | Report | Advance(target: uint64) | FromEnd(distance: uint64)

  /** Targets that a seek accepts, and distances inside the trace. */
  ghost predicate CanDo(file: SyncFile, op: Operation)
    reads file`recordSize
  {
    match op
    case Advance(p) => file.InRange(p)
    case FromEnd(k) => k < |file.points|
    case _ => true
  }

  /** Would current_event return? Decided by the state of the reader and the trace. */
  method Answers(file: SyncFile, trace: seq<Point>) returns (yes: bool)
    requires file.OnTrack() && trace == file.points
    ensures yes <==> file.Returns()
  {
    if file.currentEvent.isValid || file.file.eof {
      return true;
    }
    hide SyncFile.Valid;
    hide Rest;
    hide From;
    hide HasExit;
    if file.current.IsValid() {
      file.ValidCursor();
    }
    hide SyncFile.OnTrack;
    var future := if file.current.IsValid() then Rest(trace, file.position) else From(trace, file.position);
    var ahead := [Located(file.current.Canonical(), file.position)] + future;
    yes := HasExit(ahead) || (file.position == 0 && |trace| == 1);
  }

  /**
   * The cursor invariant over any list of operations: the cursor stays on the trace, and while it is not
   * at the end the stream stands behind the record at its position. A call of current_event that would not
   * return is left out.
   */
  method Perform(file: SyncFile, trace: seq<Point>, operations: seq<Operation>)
    requires file.OnTrack() && trace == file.points && !WaitsSomewhere(file.points)
    requires forall op <- operations :: CanDo(file, op)
    modifies file`current, file`currentEvent, file`position, file.file, file.dataFile
    ensures file.OnTrack()
    ensures !file.file.eof ==> file.file.offset == Offset(file.recordSize, file.position)
  {
    for i := 0 to |operations|
      invariant file.OnTrack()
    {
      PerformOne(file, trace, operations[i]);
    }
  }

  method PerformOne(file: SyncFile, trace: seq<Point>, op: Operation)
    requires file.OnTrack() && trace == file.points && !WaitsSomewhere(file.points) && CanDo(file, op)
    modifies file`current, file`currentEvent, file`position, file.file, file.dataFile
    ensures file.OnTrack()
  {
    hide SyncFile.Valid;
    hide SyncFile.OnTrack;
    hide SyncFile.Future;
    hide SyncFile.Reports;
    hide WaitsSomewhere;
    hide RawEvents;
    hide AheadOf;
    hide LastExit;
    hide SyncFile.InRange;
    file.TrackIsValid();
    match op {
      case Read =>
        var _ := file.Next();
      case Report =>
        var yes := Answers(file, trace);
        if yes {
          ReportOne(file);
        }
      case Advance(p) =>
        var check := file.AdvanceTo(p);
        if 1 <= p <= |file.points| && file.points[p - 1].IsVmEnter() {
          NeverWaitsAt(file.points, LastExit(file.points, p));
          TrackKept(file, RawEvents(AheadOf(file.points, LastExit(file.points, p))),
                    if check.Fail? then Failure(check.error) else Success(file.currentEvent), true);
        }
      case FromEnd(k) =>
        file.SeekFromEnd(k);
    }
  }

  lemma NeverWaitsAt(pts: seq<Point>, q: nat)
    requires !WaitsSomewhere(pts) && 1 <= q <= |pts|
    ensures !WaitsInVain(RawEvents(AheadOf(pts, q)))
  {
  }

  method ReportOne(file: SyncFile)
    requires file.OnTrack() && !WaitsSomewhere(file.points) && file.Returns()
    modifies file`current, file`currentEvent, file`position, file.file, file.dataFile
    ensures file.OnTrack()
  {
    hide SyncFile.Valid;
    hide SyncFile.OnTrack;
    hide SyncFile.Future;
    hide SyncFile.Reports;
    hide SyncFile.Returns;
    hide WaitsSomewhere;
    hide WaitsInVain;
    hide RawEvents;
    hide HasExit;
    file.TrackIsValid();
    ghost var asked, revisitable := !file.currentEvent.isValid && !file.file.eof, file.current.IsValid();
    ghost var raw := RawEvents(file.Ahead());
    if asked {
      AheadNeverWaits(file);
    }
    var r := file.CurrentEvent();
    if asked {
      TrackKept(file, raw, r, revisitable);
    }
  }

  /**
   * The condition is needed: where the last event waits in vain from some position on, three operations
   * lose the cursor.
   */
  method LoseTrack(file: SyncFile, u: uint64, ghost q: nat)
    requires file.OnTrack() && 1 <= q <= |file.points| && WaitsInVain(RawEvents(AheadOf(file.points, q)))
    requires var es := RawEvents(AheadOf(file.points, q)).events; u == es[|es| - 1].position
    modifies file`current, file`currentEvent, file`position, file.file, file.dataFile
    ensures file.LostTrack()
  {
    hide SyncFile.Valid;
    hide SyncFile.DataReadable;
    hide SyncFile.OnTrack;
    hide SyncFile.Future;
    hide SyncFile.Reports;
    hide SyncFile.Returns;
    hide SyncFile.LostTrack;
    hide RawEvents;
    hide WaitsInVain;
    hide AheadOf;
    hide Pending;
    LastAlone(file.points, q, u);
    Counted(file);
    var _ := SeekFromEndAndRead(file, file.syncPointCount - u);
    file.ValidHere(u);
    NotStray(file, RawEvents(AheadOf(file.points, u)));
    var r := file.CurrentEvent();
    LastIsLost(file, RawEvents(AheadOf(file.points, u)), r);
  }

  lemma Counted(file: SyncFile)
    requires file.OnTrack()
    ensures file.Valid() && file.DataReadable() && file.syncPointCount == |file.points| < TWO_TO_THE_63
  {
    file.CanSeek(0);
  }

  lemma LastAlone(pts: seq<Point>, q: nat, u: nat)
    requires 1 <= q <= |pts| && WaitsInVain(RawEvents(AheadOf(pts, q)))
    requires var es := RawEvents(AheadOf(pts, q)).events; u == es[|es| - 1].position
    ensures 1 <= u <= |pts|
    ensures var raw := RawEvents(AheadOf(pts, u));
            |raw.events| == 1 && Pending(raw.events[0]) && !raw.ending.Broken?
  {
    AheadIsInTrace(pts, q);
    var raw := RawEvents(AheadOf(pts, q));
    hide RawEvents;
    hide AheadOf;
    hide Pending;
    RawEventsReopen(pts, AheadOf(pts, q), |raw.events| - 1);
  }

  lemma LastIsLost(file: SyncFile, raw: Raw, r: Result<Event>)
    requires |raw.events| == 1 && Pending(raw.events[0]) && !raw.ending.Broken? && file.Reports(raw, r, true)
    ensures file.LostTrack()
  {
    hide SyncFile.Valid;
    hide SyncFile.OnTrack;
    hide SyncFile.LostTrack;
    hide RawEvents;
    hide Pending;
  }
}
