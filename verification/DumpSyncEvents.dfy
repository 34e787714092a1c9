/** The event loop over a whole trace. */
module DumpSyncEvents {
  import opened SyncPoints
  import opened SyncEvents
  import opened SyncTraces
  import opened EventParser
  import opened EventCoalescing
  import opened SyncTraceFiles
  import opened SyncFiles

  /** The last event waits for another one to merge with, and nothing comes: no event and no exception. */
  ghost predicate WaitsInVain(raw: Raw) {
    !raw.ending.Broken? && raw.events != [] && Pending(raw.events[|raw.events| - 1])
  }

  /**
   * The guard under which the loop over a trace comes to an end: no points that no VMEXIT follows behind
   * the last event, and no last event that waits in vain.
   */
  ghost predicate Ends(raw: Raw) {
    raw.ending != Strays && !WaitsInVain(raw)
  }

  /** A reader that was just opened. */
  ghost predicate Opened(file: SyncFile)
    reads file, file.file, file.dataFile
  {
    file.OnTrack() && !file.file.eof && file.current == DEFAULT_POINT && file.position == 0
  }

  lemma OpenedHasAll(file: SyncFile)
    requires Opened(file)
    ensures file.Future() == Dedup(file.points) && file.EndPosition() == |file.points|
  {
  }

  ghost function Thrown(raw: Raw): Option<Error> {
    if raw.ending.Broken? then Some(raw.ending.error) else None
  }

  lemma AppendFirst<T>(done: seq<T>, x: T, tail: seq<T>)
    ensures done + ([x] + tail) == (done + [x]) + tail
    ensures tail == [] ==> done + ([x] + tail) == done + [x]
  {
  }

  lemma SliceOfSlice<T>(s: seq<T>, j: nat, k: nat)
    requires j + k <= |s|
    ensures s[j..][k..] == s[j + k..]
  {
  }

  lemma CoalesceStep(es: seq<Event>)
    requires es != []
    ensures var k := RunLength(es); Coalesce(es) == [MergeRun(es[..k])] + Coalesce(es[k..])
    ensures Coalesce([]) == []
  {
  }

  /** One more run is done. */
  lemma CoalesceOneRun(es: seq<Event>, done: seq<Event>, j: nat)
    requires j < |es| && done + Coalesce(es[j..]) == Coalesce(es)
    ensures var k := RunLength(es[j..]);
            var merged := MergeRun(es[j..][..k]);
            && j + k <= |es|
            && (done + [merged]) + Coalesce(es[j + k..]) == Coalesce(es)
            && (j + k == |es| ==> Coalesce(es) == done + [merged])
  {
    CoalesceStep(es[j..]);
    hide Coalesce;
    hide MergeRun;
    hide Linked;
    var k := RunLength(es[j..]);
    SliceOfSlice(es, j, k);
    AppendFirst(done, MergeRun(es[j..][..k]), Coalesce(es[j + k..]));
  }

  lemma NotStray(file: SyncFile, tail: Raw)
    requires file.OnTrack() && RawEvents(file.Ahead()) == tail && (tail.events != [] || tail.ending != Strays)
    ensures file.Valid() && file.Returns()
    ensures tail.events != [] || tail.ending.Broken?
  {
    hide SyncFile.Valid;
    hide SyncFile.Future;
    FetchSkips(file.Ahead());
    hide Fetch;
  }

  /** An exception comes behind all the raw events, and hides the last of them if that is pending. */
  lemma Throws(file: SyncFile, raw: Raw, j: nat, r: Result<Event>)
    requires j <= |raw.events| && file.Reports(Raw(raw.events[j..], raw.ending), r, true) && r.Failure?
    ensures raw.ending == Broken(r.error)
    ensures j < |raw.events| ==>
              j + RunLength(raw.events[j..]) == |raw.events| && Pending(raw.events[|raw.events| - 1])
  {
    hide SyncFile.Valid;
    hide SyncFile.OnTrack;
    hide SyncFile.LostTrack;
    hide SyncFile.Revisitable;
    hide RawEvents;
    hide MergeRun;
    hide Pending;
    hide Linked;
    if j < |raw.events| {
      SliceOfSlice(raw.events, j, RunLength(raw.events[j..]));
    }
  }

  /** An exception hides the pending event of the run it interrupts, and nothing else. */
  lemma HiddenByThrow(raw: Raw, j: nat, out: seq<Event>)
    requires j <= |raw.events| && out + Coalesce(raw.events[j..]) == Coalesce(raw.events) && raw.ending.Broken?
    requires j == |raw.events| && j > 0 ==> !Pending(raw.events[j - 1])
    requires j < |raw.events| ==>
               j + RunLength(raw.events[j..]) == |raw.events| && Pending(raw.events[|raw.events| - 1])
    ensures out == Reported(raw)
  {
    hide MergeRun;
    hide Pending;
    hide RunLength;
    if j == |raw.events| {
      CoalesceDone(raw.events, out);
    } else {
      CoalesceOneRun(raw.events, out, j);
    }
    hide Coalesce;
  }

  lemma CoalesceDone(es: seq<Event>, out: seq<Event>)
    requires out + Coalesce(es[|es|..]) == Coalesce(es)
    ensures out == Coalesce(es)
  {
  }

  /** The next run was reported: the cursor is behind it, or lost if its last event waits in vain. */
  lemma RunReported(file: SyncFile, raw: Raw, j: nat, r: Result<Event>)
    requires j < |raw.events| && (r.Success? || !raw.ending.Broken?)
    requires file.Reports(Raw(raw.events[j..], raw.ending), r, true)
    ensures var k := RunLength(raw.events[j..]);
            && j + k <= |raw.events| && r.Success? && r.value == MergeRun(raw.events[j..][..k])
            && file.currentEvent == r.value && file.currentEvent.isValid
            && if j + k == |raw.events| && WaitsInVain(raw) then file.LostTrack()
               else file.OnTrack() && RawEvents(file.Future()) == Raw(raw.events[j + k..], raw.ending)
                    && (j + k == |raw.events| ==> !Pending(raw.events[j + k - 1]))
  {
    hide SyncFile.Valid;
    hide SyncFile.OnTrack;
    hide SyncFile.LostTrack;
    hide SyncFile.Revisitable;
    hide RawEvents;
    hide MergeRun;
    hide Linked;
    hide Pending;
    SliceOfSlice(raw.events, j, RunLength(raw.events[j..]));
  }

  lemma SuccessReported(file: SyncFile, raw: Raw, j: nat, r: Result<Event>)
    requires j <= |raw.events| && Ends(raw)
    requires file.Reports(Raw(raw.events[j..], raw.ending), r, true) && r.Success?
    ensures j < |raw.events|
    ensures var k := RunLength(raw.events[j..]);
            && j + k <= |raw.events|
            && file.OnTrack() && r.value == MergeRun(raw.events[j..][..k])
            && RawEvents(file.Future()) == Raw(raw.events[j + k..], raw.ending)
            && (j + k == |raw.events| ==> !Pending(raw.events[j + k - 1]))
  {
    SomethingReported(file, raw, j, r);
    hide SyncFile.Reports;
    RunReported(file, raw, j, r);
  }

  lemma SomethingReported(file: SyncFile, raw: Raw, j: nat, r: Result<Event>)
    requires j <= |raw.events| && raw.ending != Strays
    requires file.Reports(Raw(raw.events[j..], raw.ending), r, true) && r.Success?
    ensures j < |raw.events|
  {
    hide SyncFile.Valid;
    hide SyncFile.OnTrack;
    hide SyncFile.Revisitable;
    hide RawEvents;
  }

  /** Where the loop stands: the next point holds the raw events from index j on, or there is none left. */
  ghost predicate Looping(file: SyncFile, point: Point, raw: Raw, j: nat)
    reads file, file.file, file.dataFile
  {
    && file.OnTrack() && point == file.current && j <= |raw.events| && file.EndPosition() == |file.points|
    && (j == |raw.events| && j > 0 ==> !Pending(raw.events[j - 1]))
    && (if point.IsValid()
        then !file.file.eof && !file.currentEvent.isValid && RawEvents(file.Ahead()) == Raw(raw.events[j..], raw.ending)
        else j == |raw.events| && raw.ending == Clean && file.file.eof)
  }

  /** The loop condition: delivers the next point. */
  method NextPoint(file: SyncFile, ghost raw: Raw, ghost j: nat) returns (point: Point)
    requires file.OnTrack() && j <= |raw.events| && file.EndPosition() == |file.points|
    requires RawEvents(file.Future()) == Raw(raw.events[j..], raw.ending)
    requires j == |raw.events| && j > 0 ==> !Pending(raw.events[j - 1])
    modifies file`current, file`currentEvent, file`position, file.file, file.dataFile
    ensures Looping(file, point, raw, j)
  {
    hide SyncFile.Valid;
    hide SyncFile.OnTrack;
    hide SyncFile.Delivered;
    hide Pending;
    hide Fetch;
    assert RawEvents([]) == Raw([], Clean);
    hide RawEvents;
    FutureAtEnd(file);
    hide SyncFile.Future;
    point := file.Next();
  }

  /** At the end every record was counted, and the count is that of the file. */
  lemma AllCounted(file: SyncFile)
    requires file.OnTrack() && file.file.eof && file.EndPosition() == |file.points|
    ensures file.position == |file.points| == file.syncPointCount
  {
    file.AtEnd();
  }

  lemma FutureAtEnd(file: SyncFile)
    requires file.OnTrack()
    ensures file.file.eof ==> file.Future() == []
    ensures file.Ahead()[1..] == file.Future()
  {
    hide SyncFile.OnTrack;
  }

  /** The body of the loop: the event at the point just read. */
  method ReportNext(file: SyncFile, ghost point: Point, ghost raw: Raw, ghost j: nat) returns (r: Result<Event>)
    requires Looping(file, point, raw, j) && point.IsValid() && Ends(raw)
    modifies file`current, file`currentEvent, file`position, file.file, file.dataFile
    ensures r.Failure? ==>
              && raw.ending == Broken(r.error)
              && (j < |raw.events| ==>
                    j + RunLength(raw.events[j..]) == |raw.events| && Pending(raw.events[|raw.events| - 1]))
    ensures r.Success? ==>
              && j < |raw.events|
              && var k := RunLength(raw.events[j..]);
                 && j + k <= |raw.events| && r.value == MergeRun(raw.events[j..][..k])
                 && file.OnTrack() && file.EndPosition() == |file.points|
                 && RawEvents(file.Future()) == Raw(raw.events[j + k..], raw.ending)
                 && (j + k == |raw.events| ==> !Pending(raw.events[j + k - 1]))
  {
    hide SyncFile.Valid;
    hide SyncFile.OnTrack;
    hide SyncFile.Future;
    hide SyncFile.Reports;
    hide MergeRun;
    hide RawEvents;
    hide Pending;
    hide RunLength;
    NotStray(file, Raw(raw.events[j..], raw.ending));
    r := file.CurrentEvent();
    if r.Failure? {
      Throws(file, raw, j, r);
    } else {
      SuccessReported(file, raw, j, r);
    }
  }

  /**
   * The dump of a freshly opened trace shows exactly the maximal runs of the raw events of its points
   * without duplicates, each merged into one event, up to the exception if there is one.
   */
  method DumpEvents(file: SyncFile) returns (out: seq<Event>, thrown: Option<Error>)
    requires Opened(file)
    requires Ends(RawEvents(Dedup(file.points)))
    modifies file`current, file`currentEvent, file`position, file.file, file.dataFile
    ensures out == Reported(RawEvents(Dedup(file.points)))
    ensures thrown == Thrown(RawEvents(Dedup(file.points)))
    // without an exception the whole trace was read, and every record counted once
    ensures thrown == None ==>
              file.OnTrack() && file.file.eof && file.position == |file.points| == file.syncPointCount
  {
    hide SyncFile.Valid;
    hide SyncFile.OnTrack;
    hide SyncFile.Future;
    hide MergeRun;
    hide Coalesce;
    hide RawEvents;
    hide Dedup;
    hide Pending;
    hide RunLength;
    hide Reported;
    hide Looping;
    OpenedHasAll(file);
    hide Opened;
    ghost var raw, j := RawEvents(Dedup(file.points)), 0;
    ghost var es := raw.events;
    assert es[0..] == es;
    assert raw == Raw(es[0..], raw.ending);
    out, thrown := [], None;
    var point := NextPoint(file, raw, j);
    while point.IsValid()
      invariant Looping(file, point, raw, j) && j <= |es|
      invariant j == |es| && j > 0 ==> !Pending(es[j - 1])
      invariant thrown == None
      invariant out + Coalesce(es[j..]) == Coalesce(es)
      decreases |es| - j, point.IsValid()
    {
      var r := ReportNext(file, point, raw, j);
      if r.Failure? {
        HiddenByThrow(raw, j, out);
        return out, Some(r.error);
      }
      CoalesceOneRun(es, out, j);
      out := out + [r.value];
      j := j + RunLength(es[j..]);
      point := NextPoint(file, raw, j);
    }
    LoopDone(file, point, raw, j);
    CoalesceDone(es, out);
  }

  lemma LoopDone(file: SyncFile, point: Point, raw: Raw, j: nat)
    requires Looping(file, point, raw, j) && !point.IsValid() && Ends(raw)
    ensures j == |raw.events| && Reported(raw) == Coalesce(raw.events) && Thrown(raw) == None
    ensures file.OnTrack() && file.file.eof && file.position == |file.points| == file.syncPointCount
  {
    hide SyncFile.Valid;
    hide SyncFile.OnTrack;
    hide RawEvents;
    hide Coalesce;
    AllCounted(file);
  }
}
