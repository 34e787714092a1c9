/** Moving the cursor around, and the event that is reported then. */
module Moves {
  import opened Bytes
  import opened SyncPoints
  import opened SyncEvents
  import opened SyncTraces
  import opened EventParser
  import opened EventCoalescing
  import opened SyncFiles
  import opened DumpSyncEvents
  import opened EndlessDumps

  datatype Move = To(position: uint64) | FromEnd(distance: uint64) {
    /** Does the move leave the cached event in place? */
    predicate KeepsEvent() {
      FromEnd? || position == 0
    }

    /** Is there a record at the place it leads to, or the start of the trace? */
    predicate InTrace(n: nat) {
      if To? then position <= n else distance < n
    }
  }

  /** What is ahead after a move: it depends on the trace and the move only. */
  ghost function StreamAfter(pts: seq<Point>, move: Move): seq<Located>
    requires move.InTrace(|pts|)
  {
    match move
    case FromEnd(k) => [Located(DEFAULT_POINT, |pts| - k - 1)] + From(pts, |pts| - k - 1)
    case To(p) =>
      if p == 0 then [Located(DEFAULT_POINT, 0)] + Dedup(pts)
      else AheadOf(pts, if pts[p - 1].IsVmEnter() then LastExit(pts, p) else p)
  }

  /** There is an event to report after the move. */
  ghost predicate CanReport(pts: seq<Point>, move: Move)
    requires move.InTrace(|pts|)
  {
    var ps := StreamAfter(pts, move);
    HasExit(ps) || (ps[0].position == 0 && |pts| == 1)
  }

  method ReportFromEnd(file: SyncFile, k: uint64) returns (r: Result<Event>)
    requires file.Valid() && file.DataReadable()
    requires file.currentEvent.isValid || (k < |file.points| && CanReport(file.points, FromEnd(k)))
    modifies file`current, file`currentEvent, file`position, file.file, file.dataFile
    ensures if old(file.currentEvent.isValid) then
              r == Success(old(file.currentEvent)) && file.currentEvent == old(file.currentEvent)
            else file.Reports(RawEvents(StreamAfter(file.points, FromEnd(k))), r, false)
  {
    hide SyncFile.Valid;
    hide SyncFile.OnTrack;
    hide SyncFile.Future;
    hide SyncFile.Reports;
    hide RawEvents;
    hide HasExit;
    hide From;
    file.SeekFromEnd(k);
    r := file.CurrentEvent();
  }

  method ReportAt(file: SyncFile, p: uint64) returns (r: Result<Event>)
    requires file.Valid() && file.DataReadable() && file.InRange(p)
    requires (file.currentEvent.isValid && p == 0) || |file.points| < p || CanReport(file.points, To(p))
    modifies file`current, file`currentEvent, file`position, file.file, file.dataFile
    ensures p == 0 && old(file.currentEvent.isValid) ==>
              r == Success(old(file.currentEvent)) && file.currentEvent == old(file.currentEvent)
    ensures |file.points| < p ==> r == Success(DEFAULT_EVENT) && file.file.eof
    ensures p <= |file.points| && (p != 0 || !old(file.currentEvent.isValid)) ==>
              file.Reports(RawEvents(StreamAfter(file.points, To(p))), r, p != 0)
  {
    hide SyncFile.Valid;
    hide SyncFile.OnTrack;
    hide SyncFile.Future;
    hide SyncFile.Reports;
    hide SyncFile.InRange;
    hide RawEvents;
    hide HasExit;
    hide LastExit;
    hide AheadOf;
    hide From;
    var check := file.AdvanceTo(p);
    if check.Fail? {
      return Failure(check.error);
    }
    if p == 0 || |file.points| < p {
      NothingRead(file);
    } else if file.points[p - 1].IsVmEnter() {
      IsCached(file, RawEvents(AheadOf(file.points, LastExit(file.points, p))));
    } else {
      file.ValidHere(p);
      file.TrackIsValid();
    }
    r := file.CurrentEvent();
  }

  lemma NothingRead(file: SyncFile)
    requires file.OnTrack()
    ensures file.Valid() && (file.currentEvent.isValid || file.currentEvent == DEFAULT_EVENT)
    ensures !file.file.eof && file.current == DEFAULT_POINT ==>
              file.Ahead() == [Located(DEFAULT_POINT, file.position)] + file.Future()
  {
  }

  lemma IsCached(file: SyncFile, raw: Raw)
    requires file.Reports(raw, Success(file.currentEvent), true)
    ensures file.Valid() && file.currentEvent.isValid
  {
    hide SyncFile.Valid;
    hide SyncFile.OnTrack;
  }

  /**
   * What is reported after a move: the event cached before it, when there was one and the move was to 0 or
   * from the end, and then only; otherwise what the move's target determines.
   */
  method MoveAndReport(file: SyncFile, move: Move) returns (r: Result<Event>)
    requires file.Valid() && file.DataReadable()
    requires move.To? ==> file.InRange(move.position)
    requires (file.currentEvent.isValid && move.KeepsEvent())
             || (move.To? && |file.points| < move.position)
             || (move.InTrace(|file.points|) && CanReport(file.points, move))
    modifies file`current, file`currentEvent, file`position, file.file, file.dataFile
    ensures old(file.currentEvent.isValid) && move.KeepsEvent() ==>
              r == Success(old(file.currentEvent)) && file.currentEvent == old(file.currentEvent)
    ensures move.To? && |file.points| < move.position ==> r == Success(DEFAULT_EVENT) && file.file.eof
    ensures move.InTrace(|file.points|) && !(old(file.currentEvent.isValid) && move.KeepsEvent()) ==>
              file.Reports(RawEvents(StreamAfter(file.points, move)), r, !move.KeepsEvent())
  {
    match move
    case FromEnd(k) => r := ReportFromEnd(file, k);
    case To(p) => r := ReportAt(file, p);
  }

  /**
   * For every trace: after the first `count` events were shown and did not lose the cursor, moving to 0 puts
   * it in front of the whole trace, and the event reported there is the last one shown.
   */
  method RewindReportsOld(file: SyncFile, count: nat) returns (out: seq<Event>, r: Result<Event>)
    requires Opened(file) && 0 < count <= |Reported(RawEvents(Dedup(file.points)))|
    requires count < |Reported(RawEvents(Dedup(file.points)))| || !WaitsInVain(RawEvents(Dedup(file.points)))
    modifies file`current, file`currentEvent, file`position, file.file, file.dataFile
    ensures out == Reported(RawEvents(Dedup(file.points)))[..count]
    ensures file.OnTrack() && file.position == 0 && file.Future() == Dedup(file.points)
    ensures r == Success(out[count - 1])
  {
    hide SyncFile.Valid;
    hide SyncFile.OnTrack;
    hide SyncFile.Future;
    hide SyncFile.Reports;
    hide RawEvents;
    hide Reported;
    hide Dedup;
    hide Opened;
    hide Standing;
    hide WaitsInVain;
    ghost var j;
    out, j := DumpRound(file, count);
    StandsOnTrack(file, RawEvents(Dedup(file.points)), j, count);
    file.TrackIsValid();
    var check := file.AdvanceTo(0);
    file.TrackIsValid();
    r := file.CurrentEvent();
  }
}
