/** What the event loop does on the traces on which it does not come to an end. */
module EndlessDumps {
  import opened SyncPoints
  import opened SyncEvents
  import opened SyncTraces
  import opened EventParser
  import opened EventCoalescing
  import opened SyncTraceFiles
  import opened SyncFiles
  import opened DumpSyncEvents

  // ---- current_event with no VMEXIT ahead

  /**
   * current_event returns exactly when an event can start at some point ahead, or else the merging loop,
   * which then begins with no event, has a last iteration: that depends on the last position alone.
   */
  lemma ReturnsExactlyWhen(file: SyncFile)
    requires file.OnTrack() && !file.currentEvent.isValid && !file.file.eof
    ensures file.Returns() <==>
            HasExit(file.Ahead()) || exists k: nat :: !Pending(MergedAtEnd(file.EndPosition(), k))
  {
    hide SyncFile.OnTrack;
    hide SyncFile.Future;
    hide MergedAtEnd;
    var n := file.EndPosition();
    forall k: nat ensures Pending(MergedAtEnd(n, k)) <==> k == 0 || n != 1 {
      MergedAtEndGoesOn(n, k);
    }
    assert Pending(MergedAtEnd(n, 1)) <==> n != 1;
    if !HasExit(file.Ahead()) {
      LastPositionIsOne(file);
    }
  }

  lemma LastPositionIsOne(file: SyncFile)
    requires file.OnTrack() && !file.file.eof && !HasExit(file.Ahead())
    ensures file.EndPosition() == 1 <==> file.position == 0 && |file.points| == 1
  {
    hide SyncFile.OnTrack;
    hide SyncFile.Future;
  }

  /**
   * The merging loop after a first fetch that found no event, for at most `count` iterations. When
   * current_event does not return, the loop makes every one of them and its condition still holds.
   */
  method MergeStrays(file: SyncFile, count: nat) returns (event: Event, iterations: nat)
    requires file.OnTrack() && !file.currentEvent.isValid && !file.file.eof && !HasExit(file.Ahead())
    modifies file`current, file`currentEvent, file`position, file.file, file.dataFile
    ensures file.OnTrack() && file.file.eof && file.position == old(file.EndPosition())
    ensures event == MergedAtEnd(old(file.EndPosition()), iterations)
    ensures old(file.Returns()) ==> iterations <= 1 && (iterations < count ==> !Pending(event))
    ensures !old(file.Returns()) ==> iterations == count && Pending(event)
  {
    hide SyncFile.Valid;
    hide SyncFile.OnTrack;
    hide SyncFile.Future;
    hide SyncFile.Merging;
    hide MergedAtEnd;
    hide HasExit;
    LastPositionIsOne(file);
    FetchSkips(file.Ahead());
    hide Fetch;
    ghost var n := file.EndPosition();
    var fetched := file.FetchNewEvent();
    event, iterations := fetched.value, 0;
    StraysBegin(file, event);
    MergedAtEndGoesOn(n, 0);
    while iterations < count
          && event.position != 1 && !event.hasInterrupt && event.startContext.ValuesEquivalent(event.newContext)
      invariant file.Straying(iterations, event) && file.position == n
      invariant iterations <= count && (n == 1 ==> iterations <= 1)
      invariant Pending(event) <==> iterations == 0 || n != 1
    {
      var r, joined := file.MergeNext(event, Raw([], Strays), iterations, false);
      event := r.value;
      iterations := iterations + 1;
      MergedAtEndGoesOn(n, iterations);
    }
  }

  lemma StraysBegin(file: SyncFile, event: Event)
    requires file.OnTrack() && file.file.eof && !file.currentEvent.isValid && event == DEFAULT_EVENT
    ensures file.Straying(0, event)
  {
    hide SyncFile.OnTrack;
  }

  // ---- A last event that waits in vain

  /** Nothing was read yet, or the cursor ran into the blank header and is in front of the trace again. */
  ghost predicate BeginsRound(file: SyncFile)
    reads file, file.file, file.dataFile
  {
    Opened(file) || file.Restarting(-1)
  }

  /** Before the next point is read: the raw events from index j on are to come, or the cursor is lost. */
  ghost predicate Standing(file: SyncFile, raw: Raw, j: nat)
    reads file, file.file, file.dataFile
  {
    && j <= |raw.events|
    && if j == |raw.events| && WaitsInVain(raw) then file.LostTrack()
       else file.OnTrack() && file.EndPosition() == |file.points|
            && RawEvents(file.Future()) == Raw(raw.events[j..], raw.ending)
  }

  lemma RoundLoops(file: SyncFile)
    requires file.Delivered(Dedup(file.points), 0) && !file.currentEvent.isValid
    ensures Looping(file, file.current, RawEvents(Dedup(file.points)), 0)
  {
    hide SyncFile.Valid;
    hide SyncFile.OnTrack;
    hide SyncFile.Future;
    hide From;
    var ps := Dedup(file.points);
    hide Dedup;
    file.DeliveredKeepsEnd(ps, 0);
    assert RawEvents([]) == Raw([], Clean);
    hide RawEvents;
    var raw := RawEvents(ps);
    assert raw.events[0..] == raw.events;
    if ps == [] {
      EndIsInvalid(file);
    } else {
      assert [ps[0]] + ps[1..] == ps;
    }
  }

  lemma EndIsInvalid(file: SyncFile)
    requires file.OnTrack() && file.file.eof
    ensures !file.current.IsValid()
  {
    hide SyncFile.Valid;
  }

  /** The first point of a round. */
  method FirstPoint(file: SyncFile) returns (point: Point)
    requires BeginsRound(file)
    modifies file`current, file`currentEvent, file`position, file.file, file.dataFile
    ensures Looping(file, point, RawEvents(Dedup(file.points)), 0)
  {
    hide SyncFile.Valid;
    hide SyncFile.OnTrack;
    hide SyncFile.Future;
    hide SyncFile.Delivered;
    hide RawEvents;
    hide From;
    if Opened(file) {
      OpenedHasAll(file);
    } else {
      RestartingIsNotAtEnd(file);
    }
    hide SyncFile.Restarting;
    point := file.Next();
    RoundLoops(file);
  }

  lemma RestartingIsNotAtEnd(file: SyncFile)
    requires file.Restarting(-1)
    ensures !file.file.eof
  {
    hide SyncFile.Valid;
  }

  lemma OpenedStands(file: SyncFile, raw: Raw)
    requires Opened(file) && raw == RawEvents(Dedup(file.points))
    ensures Standing(file, raw, 0)
  {
    hide SyncFile.OnTrack;
    hide RawEvents;
    hide From;
    OpenedHasAll(file);
    assert raw.events[0..] == raw.events;
  }

  /** What was shown, and the merged runs from index j on, are all that the raw events make. */
  ghost predicate ShownUpTo(raw: Raw, out: seq<Event>, j: nat) {
    j <= |raw.events| && out + Coalesce(raw.events[j..]) == Coalesce(raw.events)
  }

  lemma NothingShown(raw: Raw)
    ensures ShownUpTo(raw, [], 0)
  {
    hide Coalesce;
    assert raw.events[0..] == raw.events;
  }

  lemma OneMoreShown(raw: Raw, out: seq<Event>, j: nat)
    requires ShownUpTo(raw, out, j) && j < |raw.events|
    ensures var k := RunLength(raw.events[j..]);
            ShownUpTo(raw, out + [MergeRun(raw.events[j..][..k])], j + k)
  {
    hide Coalesce;
    hide MergeRun;
    hide RunLength;
    CoalesceOneRun(raw.events, out, j);
  }

  lemma ShownIsPrefix(raw: Raw, out: seq<Event>, j: nat)
    requires ShownUpTo(raw, out, j)
    ensures |out| < |Coalesce(raw.events)| <==> j < |raw.events|
    ensures out == Coalesce(raw.events)[..|out|]
  {
    if j < |raw.events| {
      CoalesceStep(raw.events[j..]);
    }
    assert (out + Coalesce(raw.events[j..]))[..|out|] == out;
  }

  method NextInRound(file: SyncFile, first: bool, ghost raw: Raw, ghost j: nat) returns (point: Point)
    requires raw == RawEvents(Dedup(file.points)) && j < |raw.events|
    requires if first then j == 0 && BeginsRound(file) else Standing(file, raw, j)
    modifies file`current, file`currentEvent, file`position, file.file, file.dataFile
    ensures point.IsValid() && Looping(file, point, raw, j)
  {
    hide SyncFile.Valid;
    hide SyncFile.OnTrack;
    hide SyncFile.Future;
    hide RawEvents;
    hide From;
    hide BeginsRound;
    hide Pending;
    if first {
      point := FirstPoint(file);
    } else {
      point := NextPoint(file, raw, j);
    }
  }

  /** One point and one event more. */
  method ShowInRound(file: SyncFile, first: bool, ghost raw: Raw, ghost j: nat) returns (e: Event)
    requires raw == RawEvents(Dedup(file.points)) && j < |raw.events|
    requires j + RunLength(raw.events[j..]) < |raw.events| || !raw.ending.Broken?
             || !Pending(raw.events[|raw.events| - 1])
    requires if first then j == 0 && BeginsRound(file) else Standing(file, raw, j)
    modifies file`current, file`currentEvent, file`position, file.file, file.dataFile
    ensures var k := RunLength(raw.events[j..]);
            && j + k <= |raw.events| && e == MergeRun(raw.events[j..][..k])
            && Standing(file, raw, j + k) && file.currentEvent == e && e.isValid
  {
    hide SyncFile.Valid;
    hide SyncFile.OnTrack;
    hide SyncFile.Future;
    hide SyncFile.Reports;
    hide SyncFile.LostTrack;
    hide MergeRun;
    hide RawEvents;
    hide Dedup;
    hide Pending;
    hide RunLength;
    hide BeginsRound;
    var point := NextInRound(file, first, raw, j);
    NotStray(file, Raw(raw.events[j..], raw.ending));
    var r := file.CurrentEvent();
    if r.Failure? {
      Throws(file, raw, j, r);
    }
    RunReported(file, raw, j, r);
    e := r.value;
  }

  /**
   * One round of the loop, for `count` events at most as many as a dump shows: it shows them in order. An
   * event that waits in vain is shown as well; the cursor is lost behind it. The last event stays cached.
   */
  method DumpRound(file: SyncFile, count: nat) returns (out: seq<Event>, ghost j: nat)
    requires BeginsRound(file) && count <= |Reported(RawEvents(Dedup(file.points)))|
    modifies file`current, file`currentEvent, file`position, file.file, file.dataFile
    ensures out == Reported(RawEvents(Dedup(file.points)))[..count]
    ensures old(Opened(file)) || 0 < count ==> Standing(file, RawEvents(Dedup(file.points)), j)
    ensures var es := RawEvents(Dedup(file.points)).events; j < |es| <==> count < |Coalesce(es)|
    ensures 0 < count ==> file.currentEvent == out[count - 1] && file.currentEvent.isValid
  {
    hide SyncFile.Valid;
    hide MergeRun;
    hide Coalesce;
    hide Reported;
    hide RawEvents;
    hide Dedup;
    hide Pending;
    hide RunLength;
    hide BeginsRound;
    hide Standing;
    hide Opened;
    hide ShownUpTo;
    ghost var raw := RawEvents(Dedup(file.points));
    out, j := [], 0;
    NothingShown(raw);
    ReportedIsPrefix(raw);
    if Opened(file) {
      OpenedStands(file, raw);
    }
    while |out| < count
      invariant |out| <= count && ShownUpTo(raw, out, j)
      invariant out == [] ==> j == 0 && BeginsRound(file)
      invariant old(Opened(file)) || out != [] ==> Standing(file, raw, j)
      invariant out != [] ==> file.currentEvent == out[|out| - 1] && file.currentEvent.isValid
    {
      ShownIsPrefix(raw, out, j);
      NotHidden(raw, out, j);
      OneMoreShown(raw, out, j);
      var e := ShowInRound(file, out == [], raw, j);
      out := out + [e];
      j := j + RunLength(raw.events[j..]);
    }
    ShownIsPrefix(raw, out, j);
    PrefixOfPrefix(Coalesce(raw.events), |Reported(raw)|, count);
  }

  lemma PrefixOfPrefix<T>(s: seq<T>, m: nat, n: nat)
    requires n <= m <= |s|
    ensures s[..m][..n] == s[..n]
  {
  }

  lemma ReportedIsPrefix(raw: Raw)
    ensures |Reported(raw)| <= |Coalesce(raw.events)|
    ensures Reported(raw) == Coalesce(raw.events)[..|Reported(raw)|]
    ensures !raw.ending.Broken? ==> Reported(raw) == Coalesce(raw.events)
  {
    hide Coalesce;
  }

  /** An event that is shown is not the one an exception hides. */
  lemma NotHidden(raw: Raw, out: seq<Event>, j: nat)
    requires j < |raw.events| && ShownUpTo(raw, out, j) && |out| < |Reported(raw)|
    ensures j + RunLength(raw.events[j..]) < |raw.events| || !raw.ending.Broken?
            || !Pending(raw.events[|raw.events| - 1])
  {
    hide Pending;
    hide MergeRun;
    hide Coalesce;
    hide RunLength;
    hide ShownUpTo;
    OneMoreShown(raw, out, j);
    var k := RunLength(raw.events[j..]);
    ShownIsPrefix(raw, out + [MergeRun(raw.events[j..][..k])], j + k);
  }

  /** The same events over and over. */
  ghost function Repeated(es: seq<Event>, rounds: nat): seq<Event> {
    if rounds == 0 then [] else Repeated(es, rounds - 1) + es
  }

  /**
   * A last event that waits in vain, and a blank header: the loop begins again and again at the first
   * record. However many rounds are asked for, it shows the events of the trace that many times.
   */
  method DumpStartsOver(file: SyncFile, rounds: nat, size: nat) returns (out: seq<Event>)
    requires BeginsRound(file) && WaitsInVain(RawEvents(Dedup(file.points))) && BlankHeader(file.file.bytes)
    requires size == |Coalesce(RawEvents(Dedup(file.points)).events)|
    modifies file`current, file`currentEvent, file`position, file.file, file.dataFile
    ensures out == Repeated(Coalesce(RawEvents(Dedup(file.points)).events), rounds)
    ensures BeginsRound(file)
  {
    hide Coalesce;
    hide RawEvents;
    hide From;
    hide BeginsRound;
    hide WaitsInVain;
    ghost var es := RawEvents(Dedup(file.points)).events;
    out := [];
    SomeEvent(RawEvents(Dedup(file.points)));
    ReportedIsPrefix(RawEvents(Dedup(file.points)));
    for i := 0 to rounds
      invariant out == Repeated(Coalesce(es), i) && BeginsRound(file)
    {
      var shown, j := DumpRound(file, size);
      assert Coalesce(es)[..size] == Coalesce(es);
      LostBeginsRound(file);
      out := out + shown;
    }
  }

  lemma SomeEvent(raw: Raw)
    requires WaitsInVain(raw)
    ensures 0 < |Coalesce(raw.events)| && !raw.ending.Broken?
  {
    CoalesceStep(raw.events);
  }

  lemma LostBeginsRound(file: SyncFile)
    requires WaitsInVain(RawEvents(Dedup(file.points))) && BlankHeader(file.file.bytes)
    requires Standing(file, RawEvents(Dedup(file.points)), |RawEvents(Dedup(file.points)).events|)
    ensures BeginsRound(file)
  {
    hide RawEvents;
    hide From;
    hide BlankHeader;
    hide SyncFile.OnTrack;
    hide SyncFile.Future;
    hide SyncFile.Valid;
  }

  /** After a refused seek, however many iterations the loop in next() has made, it goes on. */
  method SkipRefused(file: SyncFile, count: nat) returns (more: bool)
    requires file.Refused()
    modifies file`current, file`position, file.file, file.dataFile
    ensures more && file.Refused()
  {
    hide SyncFile.Valid;
    hide SyncFile.OnTrack;
    hide SyncFile.Skipping;
    hide SyncFile.Wrapping;
    hide SyncFile.Restarting;
    hide SyncFile.Refused;
    var prev := file.current;
    more := true;
    for i := 0 to count
      invariant more && file.Refused() && prev.Same(file.current)
    {
      more := file.ReadAndCompare(prev, [], 0);
    }
  }

  /**
   * A last event that waits in vain, and a header too short for two records: the loop shows the events of
   * the trace, and then next() does not return.
   */
  method DumpSticksBehindTrace(file: SyncFile, size: nat, count: nat) returns (out: seq<Event>, more: bool)
    requires Opened(file) && WaitsInVain(RawEvents(Dedup(file.points))) && 512 < file.recordSize
    requires size == |Coalesce(RawEvents(Dedup(file.points)).events)|
    modifies file`current, file`currentEvent, file`position, file.file, file.dataFile
    ensures out == Coalesce(RawEvents(Dedup(file.points)).events)
    ensures more
  {
    hide Coalesce;
    hide RawEvents;
    hide From;
    hide Opened;
    hide WaitsInVain;
    SomeEvent(RawEvents(Dedup(file.points)));
    ReportedIsPrefix(RawEvents(Dedup(file.points)));
    ghost var j;
    out, j := DumpRound(file, size);
    assert out == Coalesce(RawEvents(Dedup(file.points)).events);
    hide SyncFile.Valid;
    hide SyncFile.Refused;
    hide SyncFile.Restarting;
    hide SyncFile.OnTrack;
    more := SkipRefused(file, count);
  }

  /**
   * Points that no VMEXIT follows, behind an event that waits for nothing: the loop shows the events of
   * the trace, reads one point more, and current_event does not return.
   */
  method DumpSticksInStrays(file: SyncFile, size: nat, count: nat)
    returns (out: seq<Event>, point: Point, iterations: nat)
    requires Opened(file)
    requires RawEvents(Dedup(file.points)).ending == Strays && !WaitsInVain(RawEvents(Dedup(file.points)))
    requires size == |Coalesce(RawEvents(Dedup(file.points)).events)|
    modifies file`current, file`currentEvent, file`position, file.file, file.dataFile
    ensures out == Coalesce(RawEvents(Dedup(file.points)).events) && point.IsValid()
    ensures iterations == count
  {
    hide Coalesce;
    hide RawEvents;
    hide From;
    hide Opened;
    hide SyncFile.Valid;
    hide SyncFile.OnTrack;
    hide SyncFile.Future;
    ghost var raw := RawEvents(Dedup(file.points));
    ReportedIsPrefix(raw);
    ghost var j;
    out, j := DumpRound(file, size);
    assert out == Coalesce(raw.events);
    point := NextPoint(file, raw, |raw.events|);
    StrayDoesNotReturn(file);
    var event: Event;
    event, iterations := MergeStrays(file, count);
  }

  lemma StrayDoesNotReturn(file: SyncFile)
    requires file.OnTrack() && file.current.IsValid() && !file.currentEvent.isValid
    requires RawEvents(file.Ahead()) == Raw([], Strays)
    ensures !file.file.eof && !HasExit(file.Ahead()) && !file.Returns()
  {
    hide SyncFile.OnTrack;
    hide SyncFile.Future;
    file.ValidCursor();
    FetchSkips(file.Ahead());
    hide Fetch;
  }

  /** A round that is not over, or whose last event does not wait in vain, leaves the cursor on the trace. */
  lemma StandsOnTrack(file: SyncFile, raw: Raw, j: nat, count: nat)
    requires Standing(file, raw, j) && (j < |raw.events| <==> count < |Coalesce(raw.events)|)
    requires count < |Reported(raw)| || !WaitsInVain(raw)
    ensures file.OnTrack()
  {
    hide SyncFile.OnTrack;
    hide SyncFile.LostTrack;
    hide RawEvents;
    ReportedIsPrefix(raw);
    hide Coalesce;
  }
}
