/** Random access to an event agrees with sequential reading. */
module RandomAccess {
  import opened Bytes
  import opened SyncPoints
  import opened SyncEvents
  import opened SyncTraces
  import opened EventParser
  import opened EventCoalescing
  import opened SyncTraceFiles
  import opened SyncFiles
  import opened DumpSyncEvents
  import opened WholeTrace

  /** The VMEXIT at v is followed at once by a record equal to it. */
  predicate RepeatedExit(pts: seq<Point>, v: nat)
    requires 1 <= v <= |pts|
  {
    v < |pts| && pts[v - 1].IsVmExit() && pts[v - 1].Same(pts[v])
  }

  /** Behind an event no record is a VMEXIT, delivered or skipped, unless its own VMEXIT is repeated. */
  lemma {:induction false} NoExitBehind(pts: seq<Point>, v: nat, p: nat, x: nat)
    requires RestsBehind(pts, v, p) && v < x <= p
    requires !RepeatedExit(pts, v)
    ensures !pts[x - 1].IsVmExit()
    decreases x
  {
    hide Rest;
    RestIsTheHeads(pts, v);
    if IsHead(pts, x) || x == v + 1 {
      assert IsHead(pts, x) ==> Located(pts[x - 1], x) in Rest(pts, v);
    } else {
      NoExitBehind(pts, v, p, x - 1);
    }
  }

  /**
   * Walking back from where the cursor rests finds the VMEXIT of the event exactly when that VMEXIT is not
   * repeated; otherwise the walk stops at a later copy of it.
   */
  lemma WalkBackFindsEvent(pts: seq<Point>, v: nat, p: nat)
    requires RestsBehind(pts, v, p) && (v == 1 || pts[v - 1].IsVmExit())
    ensures LastExit(pts, p) == v <==> !(v < p && RepeatedExit(pts, v))
  {
    hide Rest;
    var w := LastExit(pts, p);
    if v < p && RepeatedExit(pts, v) {
      assert pts[v].IsVmExit();
    } else if w > v && !RepeatedExit(pts, v) {
      NoExitBehind(pts, v, p, w);
    }
  }

  /** An event is found at the position it reports: a VMEXIT, or the first record. */
  lemma EventStartsAtExit(pts: seq<Point>, v: nat)
    requires 1 <= v <= |pts|
    requires var f := Fetch(AheadOf(pts, v)); f.Fetched? && f.event.position == v
    ensures v == 1 || pts[v - 1].IsVmExit()
  {
    hide ParseEvent;
    hide Rest;
    var ps := AheadOf(pts, v);
    FetchSkips(ps);
    AheadAscends(pts, v);
    var i := if FirstExitMissing(ps) then 0 else FirstExit(ps);
    ParseSpan(ps[i..], FirstExitMissing(ps));
    assert ps[i..][0] == ps[i] && ps[0].position == v;
  }

  /** The first run of a list that continues behind a maximal run is a single event. */
  lemma LastOfRunStandsAlone(es: seq<Event>, k: nat)
    requires es != [] && k == RunLength(es)
    ensures RunLength(es[k - 1..]) == 1
  {
    hide Linked;
    var tail := es[k - 1..];
    if k < |es| {
      assert tail[0] == es[k - 1] && tail[1] == es[k];
    }
  }

  /**
   * For every stretch of a trace and the event its first maximal run merges into: reading again from the
   * last VMEXIT in front of where the cursor rests reports the same event, with the same events to come
   * and the same place to rest, when that VMEXIT is not repeated. The start contexts are equal in value;
   * they may differ in FPU words and time stamp, and only when the run had several events.
   */
  lemma RandomAccessAgrees(pts: seq<Point>, raw: Raw, p: nat)
    requires raw.events != []
    requires var k := RunLength(raw.events);
             var v := raw.events[k - 1].position;
             && Reopens(pts, v, raw, k - 1) && RestsBehind(pts, v, p)
             && p == RestPosition(pts, raw.events, k)
             && !RepeatedExit(pts, v)
    ensures var k := RunLength(raw.events);
            var merged := MergeRun(raw.events[..k]);
            var again := RawEvents(AheadOf(pts, LastExit(pts, p)));
            && LastExit(pts, p) == merged.position
            && again == Raw(raw.events[k - 1..], raw.ending)
            && RunLength(again.events) == 1 && again.events[1..] == raw.events[k..]
            && MergeRun(again.events[..1]) == merged.(startContext := raw.events[k - 1].startContext)
            && raw.events[k - 1].startContext.ValuesEquivalent(merged.startContext)
            && (k == 1 ==> MergeRun(again.events[..1]) == merged)
            && RestPosition(pts, again.events, 1) == p
  {
    var es, k := raw.events, RunLength(raw.events);
    hide Rest;
    hide RawEvents;
    hide LastExit;
    hide RunLength;
    hide MergeRun;
    hide RestPosition;
    hide RestsBehind;
    hide Reopens;
    hide RepeatedExit;
    LastRunFound(pts, raw, k - 1, p);
    LastRunAlone(es, k);
    TailOf(es, k - 1);
    RestPositionInSuffix(pts, es, k - 1, 1);
  }

  lemma LastRunFound(pts: seq<Point>, raw: Raw, j: nat, p: nat)
    requires j < |raw.events|
    requires var v := raw.events[j].position;
             Reopens(pts, v, raw, j) && RestsBehind(pts, v, p) && !RepeatedExit(pts, v)
    ensures 1 <= p <= |pts| && LastExit(pts, p) == raw.events[j].position
    ensures RawEvents(AheadOf(pts, LastExit(pts, p))) == Raw(raw.events[j..], raw.ending)
  {
    hide Rest;
    hide RawEvents;
    hide RepeatedExit;
    EventAt(pts, raw, j);
    WalkBackFindsEvent(pts, raw.events[j].position, p);
  }

  lemma LastRunAlone(es: seq<Event>, k: nat)
    requires es != [] && k == RunLength(es)
    ensures var merged := MergeRun(es[..k]);
            && merged.position == es[k - 1].position
            && RunLength(es[k - 1..]) == 1
            && MergeRun(es[k - 1..][..1]) == es[k - 1] == merged.(startContext := es[k - 1].startContext)
            && es[k - 1].startContext.ValuesEquivalent(merged.startContext)
            && (k == 1 ==> merged == es[0])
  {
    LastOfRunStandsAlone(es, k);
    MergedRunIsItsLastEvent(es[..k]);
    hide Linked;
    hide RunLength;
    TailOf(es, k - 1);
  }

  lemma TailOf(es: seq<Event>, j: nat)
    requires j < |es|
    ensures es[j..] != [] && es[j..][0] == es[j] && es[j..][1..] == es[j + 1..] && es[j..][..1] == [es[j]]
  {
  }

  lemma RestPositionInSuffix(pts: seq<Point>, es: seq<Event>, j: nat, k: nat)
    requires 1 <= k && j + k <= |es|
    ensures RestPosition(pts, es[j..], k) == RestPosition(pts, es, j + k)
  {
    hide ClosingPosition;
    hide Pending;
    assert es[j..][k - 1] == es[j + k - 1];
    if j + k < |es| {
      assert es[j..][k] == es[j + k];
    }
  }

  lemma EventAt(pts: seq<Point>, raw: Raw, j: nat)
    requires j < |raw.events| && Reopens(pts, raw.events[j].position, raw, j)
    ensures var v := raw.events[j].position;
            && RawEvents(AheadOf(pts, v)) == Raw(raw.events[j..], raw.ending)
            && (v == 1 || pts[v - 1].IsVmExit())
  {
    hide Rest;
    hide Fetch;
    var v := raw.events[j].position;
    RawFirst(AheadOf(pts, v));
    hide RawEvents;
    TailOf(raw.events, j);
    EventStartsAtExit(pts, v);
  }

  // ---- On the reader

  /**
   * The cursor of a sequential reader rests at p behind the first maximal run of raw events, which is
   * complete, and p is a VMENTER.
   */
  ghost predicate RestsOn(pts: seq<Point>, raw: Raw, p: nat) {
    && raw.events != []
    && var k := RunLength(raw.events);
       var last := raw.events[k - 1];
       && !last.isLastEvent && (k < |raw.events| || !Pending(last))
       && Reopens(pts, last.position, raw, k - 1) && RestsBehind(pts, last.position, p)
       && p == RestPosition(pts, raw.events, k)
       && pts[p - 1].IsVmEnter()
  }

  /** Its event can be found by walking back. */
  ghost predicate RestsAt(pts: seq<Point>, raw: Raw, p: nat) {
    RestsOn(pts, raw, p) && !RepeatedExit(pts, raw.events[RunLength(raw.events) - 1].position)
  }

  /** That is where the cursor is when CurrentEvent has reported an event and stands on a VMENTER. */
  lemma ReportedRests(file: SyncFile, raw: Raw)
    requires file.Reports(raw, Success(file.currentEvent), true) && raw.events != []
    requires var k := RunLength(raw.events); k < |raw.events| || !Pending(raw.events[k - 1])
    ensures var k := RunLength(raw.events);
            && file.OnTrack() && file.currentEvent == MergeRun(raw.events[..k])
            && RawEvents(file.Future()) == Raw(raw.events[k..], raw.ending)
    ensures !file.currentEvent.isLastEvent ==>
              var k := RunLength(raw.events);
              && 1 <= raw.events[k - 1].position <= file.position <= |file.points|
              && file.position == RestPosition(file.points, raw.events, k)
              && (file.points[file.position - 1].IsVmEnter() ==> RestsOn(file.points, raw, file.position))
  {
    hide SyncFile.Valid;
    hide SyncFile.OnTrack;
    hide SyncFile.Future;
    hide Rest;
    hide Reopens;
    hide RawEvents;
    hide Linked;
    hide RestPosition;
    hide RepeatedExit;
  }

  /**
   * Random access from any prior state of the reader: advance_to a position where sequential reading rests
   * leaves the cursor there, with the same events to come and the same event cached, up to the parts of
   * the start context that value equivalence ignores.
   */
  method Revisit(file: SyncFile, p: uint64, ghost raw: Raw) returns (check: Check)
    requires file.Valid() && file.DataReadable() && RestsAt(file.points, raw, p)
    modifies file`current, file`currentEvent, file`position, file.file, file.dataFile
    ensures check == Pass && file.OnTrack() && file.position == p
    ensures RawEvents(file.Future()) == Raw(raw.events[RunLength(raw.events)..], raw.ending)
    ensures var k := RunLength(raw.events);
            var merged := MergeRun(raw.events[..k]);
            && file.currentEvent == merged.(startContext := raw.events[k - 1].startContext)
            && file.currentEvent.startContext.ValuesEquivalent(merged.startContext)
            && (k == 1 ==> file.currentEvent == merged)
  {
    hide SyncFile.Valid;
    hide SyncFile.OnTrack;
    hide SyncFile.Future;
    hide SyncFile.Reports;
    hide SyncFile.DataReadable;
    hide RawEvents;
    hide RestsBehind;
    hide Reopens;
    hide RestPosition;
    hide MergeRun;
    hide LastExit;
    hide Rest;
    hide RunLength;
    hide AheadOf;
    hide RepeatedExit;
    hide Pending;
    RandomAccessAgrees(file.points, raw, p);
    CanMove(file, raw, p);
    ghost var again := RawEvents(AheadOf(file.points, LastExit(file.points, p)));
    ghost var k := RunLength(raw.events);
    hide RestsAt;
    TailOf(raw.events, k - 1);
    check := file.AdvanceTo(p);
    StillAlone(file, raw, k, again, check);
    ReportedRests(file, again);
  }

  // ---- Every event of a whole trace

  /** The raw events from the i-th maximal run on. */
  ghost function FromRun(es: seq<Event>, i: nat): seq<Event>
    decreases i
  {
    if i == 0 || es == [] then es else FromRun(es[RunLength(es)..], i - 1)
  }

  lemma FromRunStep(es: seq<Event>, i: nat)
    requires 0 < i < |Coalesce(es)|
    ensures es != [] && FromRun(es, i) == FromRun(es[RunLength(es)..], i - 1)
    ensures i - 1 < |Coalesce(es[RunLength(es)..])| && Coalesce(es)[i] == Coalesce(es[RunLength(es)..])[i - 1]
  {
    hide MergeRun;
    hide Linked;
    CoalesceStep(es);
    ConsAt(MergeRun(es[..RunLength(es)]), Coalesce(es[RunLength(es)..]), i);
  }

  lemma FirstRunReported(es: seq<Event>)
    requires Coalesce(es) != []
    ensures es != [] && MergeRun(es[..RunLength(es)]) == Coalesce(es)[0] && FromRun(es, 0) == es
  {
    hide MergeRun;
    hide Linked;
  }

  lemma {:induction false} RunIsReported(es: seq<Event>, i: nat)
    requires i < |Coalesce(es)|
    ensures var tail := FromRun(es, i); tail != [] && MergeRun(tail[..RunLength(tail)]) == Coalesce(es)[i]
    decreases i
  {
    hide Coalesce;
    hide FromRun;
    hide RunLength;
    hide MergeRun;
    hide Linked;
    if i == 0 {
      FirstRunReported(es);
    } else {
      FromRunStep(es, i);
      RunIsReported(es[RunLength(es)..], i - 1);
    }
  }

  lemma ConsAt<T>(x: T, tail: seq<T>, i: nat)
    requires 1 <= i <= |tail|
    ensures ([x] + tail)[i] == tail[i - 1]
  {
  }

  lemma {:induction false} FromRunIsSuffix(es: seq<Event>, i: nat) returns (j: nat)
    ensures j <= |es| && FromRun(es, i) == es[j..]
    decreases i
  {
    hide Linked;
    hide RunLength;
    if i == 0 || es == [] {
      j := 0;
      assert es[0..] == es;
    } else {
      var k := RunLength(es);
      assert FromRun(es, i) == FromRun(es[k..], i - 1);
      hide FromRun;
      var j' := FromRunIsSuffix(es[k..], i - 1);
      SliceOfSlice(es, k, j');
      j := k + j';
    }
  }

  /** The cursor is behind an event on its closing VMENTER. */
  lemma EventRestsBehind(pts: seq<Point>, ps: seq<Located>, m: nat)
    requires InTrace(pts, ps) && m < |RawEvents(ps).events| && !RawEvents(ps).events[m].isLastEvent
    ensures var v := RawEvents(ps).events[m].position;
            && 1 <= v <= ClosingPosition(pts, v) <= |pts| && pts[ClosingPosition(pts, v) - 1].IsVmEnter()
            && RestsBehind(pts, v, ClosingPosition(pts, v))
  {
    hide RawEvents;
    hide InTrace;
    hide Fetch;
    hide Rest;
    RawEventIsFetched(pts, ps, m);
    var v := RawEvents(ps).events[m].position;
    AheadIsInTrace(pts, v);
    hide AheadOf;
    FetchInTrace(pts, AheadOf(pts, v));
  }

  lemma AheadIsInTrace(pts: seq<Point>, v: nat)
    requires 1 <= v <= |pts|
    ensures InTrace(pts, AheadOf(pts, v))
  {
    hide Rest;
  }

  /** It is also behind the event when it is put in front of the next one. */
  lemma EventRestsPutBack(pts: seq<Point>, ps: seq<Located>, m: nat)
    requires InTrace(pts, ps) && m + 1 < |RawEvents(ps).events|
    ensures var es := RawEvents(ps).events;
            1 <= es[m + 1].position && RestsBehind(pts, es[m].position, es[m + 1].position - 1)
  {
    hide RawEvents;
    hide InTrace;
    hide Fetch;
    hide Rest;
    hide RestsBehind;
    hide Reopens;
    RawEventsReopen(pts, ps, m);
    RawEventIsFetched(pts, ps, m);
    RawEventIsFetched(pts, ps, m + 1);
    NextPutsBack(pts, RawEvents(ps), m);
  }

  lemma NextPutsBack(pts: seq<Point>, raw: Raw, m: nat)
    requires m + 1 < |raw.events| && Reopens(pts, raw.events[m].position, raw, m)
    requires var f := Fetch(AheadOf(pts, raw.events[m].position)); f.Fetched? && f.event == raw.events[m]
    requires 1 <= raw.events[m + 1].position
    ensures RestsBehind(pts, raw.events[m].position, raw.events[m + 1].position - 1)
  {
    hide Fetch;
    hide Rest;
    hide RestsBehind;
    var qs := AheadOf(pts, raw.events[m].position);
    RawFirst(qs);
    FetchedIsWhole(qs);
    assert RawEvents(qs).events[1..] == raw.events[m + 1..] && raw.events[m + 1..][0] == raw.events[m + 1];
    assert RawEvents([]).events == [];
    hide RawEvents;
    hide AheadOf;
    FetchInTrace(pts, qs);
    var at := Fetch(qs).at;
    RawFirst(Rest(pts, at));
    PutBack(pts, at, raw.events[m + 1].position - 1);
  }

  /** The raw events of the whole trace from the i-th reported event on. */
  ghost function RawFromRun(pts: seq<Point>, i: nat): (raw: Raw)
    requires i < |Coalesce(RawEvents(Dedup(pts)).events)|
    ensures raw.events != []
  {
    var raw := RawEvents(Dedup(pts));
    RunIsReported(raw.events, i);
    Raw(FromRun(raw.events, i), raw.ending)
  }

  /** Where the sequential reader rests after it reported the i-th event of the trace. */
  ghost function SequentialRest(pts: seq<Point>, i: nat): int
    requires i < |Coalesce(RawEvents(Dedup(pts)).events)|
  {
    var es := RawFromRun(pts, i).events;
    RestPosition(pts, es, RunLength(es))
  }

  /** A reported event that is complete and does not wait in vain, with the reader resting on a VMENTER. */
  ghost predicate CanRevisit(pts: seq<Point>, i: nat) {
    && i < |Coalesce(RawEvents(Dedup(pts)).events)|
    && var es := RawFromRun(pts, i).events;
       var last := es[RunLength(es) - 1];
       && !last.isLastEvent && (RunLength(es) < |es| || !Pending(last))
       && 1 <= SequentialRest(pts, i) <= |pts| && pts[SequentialRest(pts, i) - 1].IsVmEnter()
  }

  /** The VMEXIT of the i-th reported event is repeated; of a merged one, that of its last raw event. */
  ghost predicate ExitRepeats(pts: seq<Point>, i: nat)
    requires i < |Coalesce(RawEvents(Dedup(pts)).events)|
  {
    var es := RawFromRun(pts, i).events;
    var v := es[RunLength(es) - 1].position;
    1 <= v <= |pts| && RepeatedExit(pts, v)
  }

  lemma EveryEventRests(pts: seq<Point>, i: nat)
    requires CanRevisit(pts, i)
    ensures RestsOn(pts, RawFromRun(pts, i), SequentialRest(pts, i))
  {
    var raw := RawEvents(Dedup(pts));
    DedupInTrace(pts);
    hide RawEvents;
    hide Dedup;
    hide InTrace;
    hide RestsBehind;
    hide RunLength;
    hide RestPosition;
    hide Reopens;
    hide Pending;
    hide MergeRun;
    hide Coalesce;
    hide RepeatedExit;
    hide FromRun;
    var j := FromRunIsSuffix(raw.events, i);
    RunRests(pts, Dedup(pts), j);
  }

  lemma RunRests(pts: seq<Point>, ps: seq<Located>, j: nat)
    requires InTrace(pts, ps) && j < |RawEvents(ps).events|
    requires var es := RawEvents(ps).events[j..]; !es[RunLength(es) - 1].isLastEvent
    ensures var raw := Raw(RawEvents(ps).events[j..], RawEvents(ps).ending);
            var k := RunLength(raw.events);
            var v := raw.events[k - 1].position;
            && Reopens(pts, v, raw, k - 1)
            && 0 <= RestPosition(pts, raw.events, k) && RestsBehind(pts, v, RestPosition(pts, raw.events, k))
  {
    hide RawEvents;
    hide InTrace;
    hide Rest;
    hide RestsBehind;
    hide RunLength;
    hide RestPosition;
    var raw := RawEvents(ps);
    var k := RunLength(raw.events[j..]);
    SliceOfSlice(raw.events, j, k);
    RawEventsReopen(pts, ps, j + k - 1);
    ReopensInSuffix(pts, raw.events[j + k - 1].position, raw, j, k - 1);
    hide Reopens;
    RestPositionInSuffix(pts, raw.events, j, k);
    EventRests(pts, ps, j + k - 1);
  }

  lemma ReopensInSuffix(pts: seq<Point>, v: nat, raw: Raw, j: nat, k: nat)
    requires Reopens(pts, v, raw, j + k)
    ensures Reopens(pts, v, Raw(raw.events[j..], raw.ending), k)
  {
    hide RawEvents;
    hide Rest;
    SliceOfSlice(raw.events, j, k);
  }

  lemma EventRests(pts: seq<Point>, ps: seq<Located>, m: nat)
    requires InTrace(pts, ps) && m < |RawEvents(ps).events| && !RawEvents(ps).events[m].isLastEvent
    ensures var es := RawEvents(ps).events;
            var p := RestPosition(pts, es, m + 1);
            0 <= p && RestsBehind(pts, es[m].position, p)
  {
    hide RawEvents;
    hide InTrace;
    hide Rest;
    hide RestsBehind;
    hide ClosingPosition;
    hide Pending;
    EventRestsBehind(pts, ps, m);
    if m + 1 < |RawEvents(ps).events| {
      EventRestsPutBack(pts, ps, m);
    }
  }

  /**
   * Random access to any event of a trace, from any prior state: advance_to the position where sequential
   * reading rests behind the i-th reported event makes it the current event again, with the same to come,
   * if its VMEXIT is not repeated.
   */
  method RevisitEvent(file: SyncFile, p: uint64, ghost i: nat) returns (check: Check)
    requires file.Valid() && file.DataReadable()
    requires CanRevisit(file.points, i) && !ExitRepeats(file.points, i) && p == SequentialRest(file.points, i)
    modifies file`current, file`currentEvent, file`position, file.file, file.dataFile
    ensures check == Pass && file.OnTrack() && file.position == p
    ensures var merged := Coalesce(RawEvents(Dedup(file.points)).events)[i];
            && file.currentEvent == merged.(startContext := file.currentEvent.startContext)
            && file.currentEvent.startContext.ValuesEquivalent(merged.startContext)
    ensures var raw := RawFromRun(file.points, i);
            RawEvents(file.Future()) == Raw(raw.events[RunLength(raw.events)..], raw.ending)
  {
    hide SyncFile.Valid;
    hide SyncFile.OnTrack;
    hide SyncFile.Future;
    hide SyncFile.DataReadable;
    hide SyncFile.InRange;
    hide Coalesce;
    hide MergeRun;
    hide RawEvents;
    hide Dedup;
    hide RunLength;
    hide FromRun;
    hide RestsOn;
    hide RepeatedExit;
    EveryEventRests(file.points, i);
    EventOfRun(file.points, i);
    ghost var raw := RawFromRun(file.points, i);
    RestsInTrace(file.points, raw, p);
    hide RestsAt;
    hide SequentialRest;
    hide RawFromRun;
    check := Revisit(file, p, raw);
  }

  lemma RestsInTrace(pts: seq<Point>, raw: Raw, p: nat)
    requires RestsOn(pts, raw, p)
    ensures 1 <= raw.events[RunLength(raw.events) - 1].position <= p <= |pts|
  {
    hide RunLength;
    hide RawEvents;
    hide Rest;
    hide RestPosition;
  }

  lemma EventOfRun(pts: seq<Point>, i: nat)
    requires i < |Coalesce(RawEvents(Dedup(pts)).events)|
    ensures var es := RawFromRun(pts, i).events;
            MergeRun(es[..RunLength(es)]) == Coalesce(RawEvents(Dedup(pts)).events)[i]
  {
    hide RawEvents;
    hide Dedup;
    hide Coalesce;
    hide MergeRun;
    hide RunLength;
    RunIsReported(RawEvents(Dedup(pts)).events, i);
  }

  lemma CanMove(file: SyncFile, raw: Raw, p: nat)
    requires file.Valid() && RestsOn(file.points, raw, p)
    ensures 1 <= p <= |file.points| && file.InRange(p) && file.points[p - 1].IsVmEnter()
    ensures !raw.events[RunLength(raw.events) - 1].isLastEvent
  {
    hide SyncFile.Valid;
    hide SyncFile.InRange;
    hide Rest;
    hide Reopens;
    hide Linked;
    hide RestPosition;
    hide RepeatedExit;
    file.CanSeek(p);
  }

  /** Reloading the last event of a maximal run reports it: it cannot fail or go on. */
  lemma StillAlone(file: SyncFile, raw: Raw, k: nat, again: Raw, check: Check)
    requires raw.events != [] && k == RunLength(raw.events) && (k < |raw.events| || !Pending(raw.events[k - 1]))
    requires again == Raw(raw.events[k - 1..], raw.ending) && RunLength(again.events) == 1
    requires file.Reports(again, if check.Fail? then Failure(check.error) else Success(file.currentEvent), true)
    ensures check == Pass && file.Reports(again, Success(file.currentEvent), true)
    ensures 1 < |again.events| || !Pending(again.events[0])
    ensures file.currentEvent.isLastEvent == raw.events[k - 1].isLastEvent
  {
    hide SyncFile.Valid;
    hide SyncFile.OnTrack;
    hide SyncFile.Future;
    hide SyncFile.Revisitable;
    hide RawEvents;
    assert again.events[0] == raw.events[k - 1] && |again.events| == |raw.events| - k + 1;
  }

  /** Seeking from the end and reading is a forward seek to the same record, whatever came before. */
  method SeekFromEndAndRead(file: SyncFile, k: uint64) returns (p: Point)
    requires file.Valid() && file.DataReadable() && k < |file.points|
    modifies file`current, file`currentEvent, file`position, file.file, file.dataFile
    ensures p == file.current && file.At(|file.points| - k)
  {
    hide SyncFile.OnTrack;
    hide SyncFile.Future;
    hide SyncFile.Delivered;
    hide SyncFile.At;
    hide From;
    hide DistanceFromEnd;
    file.SeekFromEnd(k);
    hide SyncFile.Valid;
    p := file.Next();
    file.AtRecord(|file.points| - k);
  }
}
