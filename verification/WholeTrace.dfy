/** Properties of every event that a whole trace yields. */
module WholeTrace {
  import opened SyncPoints
  import opened SyncEvents
  import opened SyncTraces
  import opened EventParser
  import opened EventCoalescing
  import opened SyncFiles
  import opened DumpSyncEvents

  /** Every raw event of a stretch of the trace is found again from the position it reports. */
  lemma {:induction false} RawEventsReopen(pts: seq<Point>, ps: seq<Located>, i: nat)
    requires InTrace(pts, ps) && i < |RawEvents(ps).events|
    ensures Reopens(pts, RawEvents(ps).events[i].position, RawEvents(ps), i)
    decreases i
  {
    hide Fetch;
    hide Rest;
    var raw := RawEvents(ps);
    RawFirst(ps);
    hide RawEvents;
    if i == 0 {
      FetchReopens(pts, ps);
    } else {
      var rest := Fetch(ps).rest;
      RestOfFetchInTrace(pts, ps);
      RawEventsReopen(pts, rest, i - 1);
      assert raw.events[1..][i - 1] == raw.events[i] && raw.events[1..][i - 1..] == raw.events[i..];
    }
  }

  lemma RestOfFetchInTrace(pts: seq<Point>, ps: seq<Located>)
    requires InTrace(pts, ps) && Fetch(ps).Fetched?
    ensures InTrace(pts, Fetch(ps).rest)
  {
    hide Fetch;
    hide Rest;
    FetchedIsWhole(ps);
    if !Fetch(ps).event.isLastEvent {
      FetchInTrace(pts, ps);
      RestInTrace(pts, Fetch(ps).at);
    }
  }

  /** A raw event is what fetching at its position yields. */
  lemma RawEventIsFetched(pts: seq<Point>, ps: seq<Located>, i: nat)
    requires InTrace(pts, ps) && i < |RawEvents(ps).events|
    ensures var e := RawEvents(ps).events[i];
            && 1 <= e.position <= |pts|
            && Fetch(AheadOf(pts, e.position)).Fetched? && Fetch(AheadOf(pts, e.position)).event == e
  {
    hide Fetch;
    hide Rest;
    RawEventsReopen(pts, ps, i);
    RawFirst(AheadOf(pts, RawEvents(ps).events[i].position));
    hide RawEvents;
  }

  /** Raw events begin at strictly increasing positions. */
  lemma RawPositionsIncrease(pts: seq<Point>, ps: seq<Located>, i: nat)
    requires InTrace(pts, ps) && i + 1 < |RawEvents(ps).events|
    ensures RawEvents(ps).events[i].position < RawEvents(ps).events[i + 1].position
  {
    var e := RawEvents(ps).events[i];
    RawEventsReopen(pts, ps, i);
    RawEventIsFetched(pts, ps, i);
    hide Fetch;
    hide Rest;
    var qs := AheadOf(pts, e.position);
    RawFirst(qs);
    var rest := Fetch(qs).rest;
    assert RawEvents(qs).events[1..][0] == RawEvents(ps).events[i + 1];
    assert RawEvents(rest).events != [];
    FetchedIsWhole(qs);
    FetchInTrace(pts, qs);
    NextStartsBehind(pts, e.position, Fetch(qs).at);
    hide RawEvents;
  }

  lemma NextStartsBehind(pts: seq<Point>, v: nat, at: nat)
    requires 1 <= v <= at <= |pts| && Fetch(Rest(pts, at)).Fetched?
    ensures v < Fetch(Rest(pts, at)).event.position
  {
    hide ParseEvent;
    hide Rest;
    var ps := Rest(pts, at);
    RestBounds(pts, at);
    FetchSkips(ps);
    var i := if FirstExitMissing(ps) then 0 else FirstExit(ps);
    ParseSpan(ps[i..], FirstExitMissing(ps));
    assert ps[i..][0] == ps[i] && ps[i] in ps;
  }

  ghost predicate PositionsIncrease(es: seq<Event>) {
    forall i, j | 0 <= i < j < |es| :: es[i].position < es[j].position
  }

  lemma {:induction false} NeighboursIncrease(es: seq<Event>)
    requires forall i, j | 0 <= i < j < |es| && j == i + 1 :: es[i].position < es[j].position
    ensures PositionsIncrease(es)
    decreases |es|
  {
    if |es| <= 1 {
    } else {
      var init := es[..|es| - 1];
      NeighboursIncrease(init);
      forall i, j | 0 <= i < j < |es| ensures es[i].position < es[j].position {
        if j == |es| - 1 && i < j - 1 {
          assert init[i].position < init[j - 1].position;
        } else if j < |es| - 1 {
          assert init[i].position < init[j].position;
        }
      }
    }
  }

  /** Every merged event reports the position of some raw event. */
  ghost predicate PositionsFrom(merged: seq<Event>, es: seq<Event>) {
    forall e <- merged :: exists i :: 0 <= i < |es| && e.position == es[i].position
  }

  lemma PositionsFromSuffix(merged: seq<Event>, es: seq<Event>, k: nat)
    requires 1 <= k <= |es| && PositionsIncrease(es) && PositionsFrom(merged, es[k..])
    ensures PositionsFrom(merged, es)
    ensures forall e <- merged :: es[k - 1].position < e.position
  {
    forall e | e in merged
      ensures es[k - 1].position < e.position && exists i :: 0 <= i < |es| && e.position == es[i].position
    {
      var i :| 0 <= i < |es[k..]| && e.position == es[k..][i].position;
      assert es[i + k] == es[k..][i];
    }
  }

  lemma {:induction false} CoalescedIncrease(es: seq<Event>)
    requires PositionsIncrease(es)
    ensures PositionsIncrease(Coalesce(es)) && PositionsFrom(Coalesce(es), es)
    decreases |es|
  {
    if es == [] {
    } else {
      var k := RunLength(es);
      var first, merged := MergeRun(es[..k]), Coalesce(es[k..]);
      CoalesceStep(es);
      hide Coalesce;
      hide RunLength;
      hide Linked;
      SuffixIncreases(es, k);
      hide PositionsIncrease;
      hide PositionsFrom;
      CoalescedIncrease(es[k..]);
      MergedPosition(es, k);
      hide MergeRun;
      PositionsFromSuffix(merged, es, k);
      FirstIncreases(first, merged, es, k);
    }
  }

  lemma MergedPosition(es: seq<Event>, k: nat)
    requires 1 <= k <= |es|
    ensures MergeRun(es[..k]).position == es[k - 1].position
  {
  }

  lemma SuffixIncreases(es: seq<Event>, k: nat)
    requires k <= |es| && PositionsIncrease(es)
    ensures PositionsIncrease(es[k..])
  {
    forall i, j | 0 <= i < j < |es[k..]| ensures es[k..][i].position < es[k..][j].position {
      assert es[k..][i] == es[i + k] && es[k..][j] == es[j + k];
    }
  }

  lemma FirstIncreases(first: Event, merged: seq<Event>, es: seq<Event>, k: nat)
    requires PositionsIncrease(merged) && forall e <- merged :: first.position < e.position
    requires 1 <= k <= |es| && first.position == es[k - 1].position && PositionsFrom(merged, es)
    ensures PositionsIncrease([first] + merged) && PositionsFrom([first] + merged, es)
  {
  }

  /** The raw events of a trace are in order. */
  lemma RawEventsIncrease(pts: seq<Point>, ps: seq<Located>)
    requires InTrace(pts, ps)
    ensures PositionsIncrease(RawEvents(ps).events)
  {
    hide RawEvents;
    hide InTrace;
    hide PositionsIncrease;
    var es := RawEvents(ps).events;
    forall i, j | 0 <= i < j < |es| && j == i + 1 ensures es[i].position < es[j].position {
      RawPositionsIncrease(pts, ps, i);
    }
    NeighboursIncrease(es);
  }

  /** The events a dump of the trace shows have strictly increasing positions. */
  lemma ReportedPositionsIncrease(pts: seq<Point>)
    ensures PositionsIncrease(Reported(RawEvents(Dedup(pts))))
  {
    DedupInTrace(pts);
    hide RawEvents;
    hide Dedup;
    hide InTrace;
    hide PositionsIncrease;
    hide RunLength;
    var es := RawEvents(Dedup(pts)).events;
    RawEventsIncrease(pts, Dedup(pts));
    CoalescedIncrease(es);
    hide Coalesce;
    InitIncreases(Coalesce(es));
  }

  lemma InitIncreases(es: seq<Event>)
    requires PositionsIncrease(es)
    ensures es != [] ==> PositionsIncrease(es[..|es| - 1])
  {
  }

  // ---- Reading on from anywhere

  lemma FirstExitAt(ps: seq<Located>, i: nat, x: nat)
    requires i <= x < |ps| && ps[x].point.IsVmExit()
    requires forall y | i <= y < x :: !ps[y].point.IsVmExit()
    ensures FirstExit(ps[i..]) == x - i && ps[i..][x - i..] == ps[x..]
  {
    var y := FirstExit(ps[i..]);
    assert ps[i..][x - i] == ps[x];
    assert forall z | 0 <= z < x - i :: ps[i..][z] == ps[i + z];
  }

  /** What is read from index i on when the first VMEXIT from there is at index x. */
  lemma RawAtExit(ps: seq<Located>, i: nat, x: nat)
    requires i <= x < |ps| && ps[x].point.IsVmExit() && !FirstExitMissing(ps[i..])
    requires forall y | i <= y < x :: !ps[y].point.IsVmExit()
    ensures RawEvents(ps[i..]) == RawEvents(ps[x..])
  {
    hide RawEvents;
    hide FirstExitMissing;
    FirstExitAt(ps, i, x);
    hide FirstExit;
    RawFromExit(ps[i..]);
  }

  /** Positions behind the first point are behind position 1. */
  ghost predicate LaterRest(ps: seq<Located>) {
    forall i | 0 < i < |ps| :: 2 <= ps[i].position
  }

  /**
   * On a stream without an exception, reading on from any point behind the first finds the raw events of
   * the stream from some index on, if it finds a VMEXIT at all.
   */
  lemma {:induction false} SuffixHasTail(ps: seq<Located>, i: nat) returns (j: nat)
    requires 0 < i < |ps| && LaterRest(ps)
    requires !RawEvents(ps).ending.Broken? && FirstExit(ps[i..]) < |ps[i..]|
    ensures j <= |RawEvents(ps).events|
    ensures RawEvents(ps[i..]) == Raw(RawEvents(ps).events[j..], RawEvents(ps).ending)
    decreases |ps|
  {
    hide Fetch;
    hide ParseEvent;
    hide RawEvents;
    var x := i + FirstExit(ps[i..]);
    ExitBehind(ps, i, x);
    var s := if FirstExitMissing(ps) then 0 else FirstExit(ps);
    if i <= s {
      j := 0;
      assert ps[0..] == ps && RawEvents(ps).events[0..] == RawEvents(ps).events;
      RawAtExit(ps, i, s);
      RawAtExit(ps, 0, s);
    } else {
      var t := BehindFirst(ps, s, x);
      hide FirstExit;
      hide FirstExitMissing;
      if i <= t {
        SameBehind(ps, i, t, x);
        j := 1;
      } else {
        SuffixOfRest(ps, t, i);
        FirstExitStays(ps, t, i);
        var j' := SuffixHasTail(ps[t..], i - t);
        SliceOfSlice(RawEvents(ps).events, 1, j');
        j := 1 + j';
      }
    }
  }

  lemma FirstExitStays(ps: seq<Located>, t: nat, i: nat)
    requires t <= i <= |ps| && FirstExit(ps[i..]) < |ps[i..]| && ps[t..][i - t..] == ps[i..]
    ensures FirstExit(ps[t..][i - t..]) < |ps[t..][i - t..]|
  {
  }

  lemma SameBehind(ps: seq<Located>, i: nat, t: nat, x: nat)
    requires 0 < i <= t <= x < |ps| && LaterRest(ps) && ps[x].point.IsVmExit()
    requires forall y | i <= y < x :: !ps[y].point.IsVmExit()
    ensures RawEvents(ps[i..]) == RawEvents(ps[t..])
  {
    hide RawEvents;
    RawAtExit(ps, i, x);
    RawAtExit(ps, t, x);
  }

  /** Index behind the first event of a stream, when a VMEXIT comes later, and what is ahead there. */
  lemma BehindFirst(ps: seq<Located>, s: nat, x: nat) returns (t: nat)
    requires s < x < |ps| && ps[x].point.IsVmExit() && !RawEvents(ps).ending.Broken?
    requires s == if FirstExitMissing(ps) then 0 else FirstExit(ps)
    ensures s < t <= x && RawEvents(ps).events != []
    ensures RawEvents(ps[t..]) == Raw(RawEvents(ps).events[1..], RawEvents(ps).ending)
    ensures forall y | s < y < t :: !ps[y].point.IsVmExit()
  {
    hide Fetch;
    hide ParseEvent;
    RawFirst(ps);
    FetchSkips(ps);
    hide RawEvents;
    var m := EventLength(ps, s, x);
    t := s + m;
  }

  lemma ExitBehind(ps: seq<Located>, i: nat, x: nat)
    requires i <= |ps| && FirstExit(ps[i..]) < |ps[i..]| && x == i + FirstExit(ps[i..])
    ensures i <= x < |ps| && ps[x].point.IsVmExit() && FirstExit(ps) <= x
    ensures forall y | i <= y < x :: !ps[y].point.IsVmExit()
  {
    assert ps[x] == ps[i..][x - i];
    forall y | i <= y < x ensures !ps[y].point.IsVmExit() {
      assert ps[y] == ps[i..][y - i];
    }
  }

  lemma SuffixOfRest(ps: seq<Located>, t: nat, i: nat)
    requires 0 < t <= i <= |ps| && LaterRest(ps)
    ensures ps[t..][i - t..] == ps[i..] && LaterRest(ps[t..])
  {
  }

  /** Number of points of an event that starts at index s, when a VMEXIT comes later. */
  lemma EventLength(ps: seq<Located>, s: nat, x: nat) returns (m: nat)
    requires s < x < |ps| && ps[x].point.IsVmExit()
    requires s == if FirstExitMissing(ps) then 0 else FirstExit(ps)
    requires Fetch(ps).Fetched?
    ensures 0 < m && s + m <= x && Fetch(ps).rest == ps[s + m..]
    ensures forall y | s < y < s + m :: !ps[y].point.IsVmExit()
  {
    hide ParseEvent;
    var missing, qs := FirstExitMissing(ps), ps[s..];
    FetchSkips(ps);
    ParseSpan(qs, missing);
    ParseTruncates(qs, missing);
    assert qs[x - s] == ps[x];
    m := |qs| - |Fetch(ps).rest|;
    assert qs[m..] == ps[s + m..];
    forall y | s < y < s + m ensures !ps[y].point.IsVmExit() {
      assert ps[y] == qs[y - s];
    }
  }

  // ---- What the points of a trace say about an event

  /** What the first point of an event says: a VMEXIT, or a first record of another type, which tells nothing. */
  ghost predicate StartsWith(e: Event, exit: Point) {
    && (e.isFirstEventContextUnknown <==> e.position == 1 && exit.kind in {0xfe, 0xff})
    && (if e.isFirstEventContextUnknown
        then e.startContext == ZERO_CONTEXT && e.startRip == 0 && e.startReason == 0
        else exit.kind < 0xfe
             && e.startContext == Registers(exit) && e.startRip == exit.rip && e.startReason == exit.kind)
  }

  /** What the closing VMENTER of a complete event says, and what it says together with the VMEXIT. */
  ghost predicate ClosesWith(e: Event, exit: Point, enter: Point) {
    && enter.kind == 0xff && e.newContext == Registers(enter) && e.rflags == enter.rflags
    && (e.hasInterrupt ==> e.interruptRip == enter.rip)
    && (e.isInstructionEmulation <==> e.isFirstEventContextUnknown || EmulatedBetween(exit, enter))
  }

  /** The point at its position starts the event. */
  ghost predicate StartsFrom(pts: seq<Point>, e: Event) {
    1 <= e.position <= |pts| && StartsWith(e, pts[e.position - 1])
  }

  /** The first VMENTER from there on closes it. */
  ghost predicate ClosesOn(pts: seq<Point>, e: Event) {
    && 1 <= e.position <= ClosingPosition(pts, e.position) <= |pts|
    && ClosesWith(e, pts[e.position - 1], pts[ClosingPosition(pts, e.position) - 1])
    && forall x | e.position - 1 <= x < ClosingPosition(pts, e.position) - 1 :: pts[x].kind != 0xff
  }

  /** An event found at the position it reports is parsed from there. */
  lemma ParsedThere(pts: seq<Point>, v: nat)
    requires 1 <= v <= |pts|
    requires Fetch(AheadOf(pts, v)).Fetched? && Fetch(AheadOf(pts, v)).event.position == v
    ensures var ps := AheadOf(pts, v);
            && Fetch(ps) == ParseEvent(ps, FirstExitMissing(ps))
            && (!FirstExitMissing(ps) ==> pts[v - 1].kind !in {0xfe, 0xff})
  {
    hide ParseEvent;
    hide Rest;
    var ps := AheadOf(pts, v);
    FetchSkips(ps);
    AheadAscends(pts, v);
    var i := if FirstExitMissing(ps) then 0 else FirstExit(ps);
    ParseSpan(ps[i..], FirstExitMissing(ps));
    assert ps[i..][0] == ps[i] && ps[0].position == v && ps[0..] == ps;
  }

  lemma FetchedStarts(pts: seq<Point>, v: nat)
    requires 1 <= v <= |pts|
    requires Fetch(AheadOf(pts, v)).Fetched? && Fetch(AheadOf(pts, v)).event.position == v
    ensures StartsFrom(pts, Fetch(AheadOf(pts, v)).event)
  {
    hide Rest;
    var ps := AheadOf(pts, v);
    var missing := FirstExitMissing(ps);
    ParsedThere(pts, v);
    hide Fetch;
    ParseTruncates(ps, missing);
    if Fetch(ps).event.isLastEvent {
      hide ParseEvent;
    } else {
      var m := ParsedIsEvent(ps, missing);
      hide ParseEvent;
    }
  }

  lemma FetchedCloses(pts: seq<Point>, v: nat)
    requires 1 <= v <= |pts|
    requires Fetch(AheadOf(pts, v)).Fetched? && Fetch(AheadOf(pts, v)).event.position == v
    requires !Fetch(AheadOf(pts, v)).event.isLastEvent
    ensures ClosesOn(pts, Fetch(AheadOf(pts, v)).event) && CheckSanity(Fetch(AheadOf(pts, v)).event) == Pass
  {
    hide Rest;
    hide CheckSanity;
    var ps := AheadOf(pts, v);
    var missing := FirstExitMissing(ps);
    ParsedThere(pts, v);
    FetchInTrace(pts, ps);
    hide Fetch;
    var m := ParsedIsEvent(ps, missing);
    hide ParseEvent;
    SuffixInTrace(pts, ps, m);
    NoEarlierEnter(pts, v, m, missing);
  }

  /** The VMENTER of a sentence is the first record of its type from the start on, delivered or skipped. */
  lemma NoEarlierEnter(pts: seq<Point>, v: nat, m: nat, missing: bool)
    requires 1 <= v <= |pts| && IsEvent(AheadOf(pts, v), missing, m)
    requires missing || pts[v - 1].kind !in {0xfe, 0xff}
    ensures AheadOf(pts, v)[m].position <= |pts|
    ensures forall x | v - 1 <= x < AheadOf(pts, v)[m].position - 1 :: pts[x].kind != 0xff
  {
    hide Rest;
    hide Point.Same;
    var ps := AheadOf(pts, v);
    SuffixInTrace(pts, ps, m);
    if m > 0 {
      DeliveredBefore(pts, v, m);
      forall x | v - 1 <= x < ps[m].position - 1 ensures pts[x].kind != 0xff {
        NoEnterBefore(pts, v, ps[m].position, x + 1);
      }
    }
  }

  lemma DeliveredBefore(pts: seq<Point>, v: nat, m: nat)
    requires 1 <= v <= |pts| && 0 < m < |AheadOf(pts, v)|
    requires forall i | 0 < i < m :: AheadOf(pts, v)[i].point.kind != 0xff
    ensures forall l <- Rest(pts, v) :: l.position < AheadOf(pts, v)[m].position ==> l.point.kind != 0xff
  {
    var ps := AheadOf(pts, v);
    AheadAscends(pts, v);
    hide Rest;
    forall l | l in Rest(pts, v) && l.position < ps[m].position ensures l.point.kind != 0xff {
      var j :| 0 <= j < |Rest(pts, v)| && Rest(pts, v)[j] == l;
      assert ps[j + 1] == l;
    }
  }

  lemma {:induction false} NoEnterBefore(pts: seq<Point>, v: nat, at: nat, x: nat)
    requires 1 <= v <= x < at <= |pts| + 1 && pts[v - 1].kind != 0xff
    requires forall l <- Rest(pts, v) :: l.position < at ==> l.point.kind != 0xff
    ensures pts[x - 1].kind != 0xff
    decreases x
  {
    if x == v {
    } else {
      RestIsTheHeads(pts, v);
      hide Rest;
      NoEnterBefore(pts, v, at, x - 1);
      assert IsHead(pts, x) ==> Located(pts[x - 1], x) in Rest(pts, v);
    }
  }

  /** Every raw event of a trace says what its points say. */
  lemma RawEventSays(pts: seq<Point>, ps: seq<Located>, i: nat)
    requires InTrace(pts, ps) && i < |RawEvents(ps).events|
    ensures var e := RawEvents(ps).events[i];
            StartsFrom(pts, e) && (!e.isLastEvent ==> ClosesOn(pts, e))
  {
    hide RawEvents;
    hide Fetch;
    hide InTrace;
    hide AheadOf;
    hide StartsFrom;
    hide ClosesOn;
    hide CheckSanity;
    RawEventIsFetched(pts, ps, i);
    var v := RawEvents(ps).events[i].position;
    FetchedStarts(pts, v);
    if !RawEvents(ps).events[i].isLastEvent {
      FetchedCloses(pts, v);
    }
  }

  // ---- Sanity

  /**
   * What the checks on one event promise, in terms of the points of the trace: with an interrupt and a
   * known first context, the interrupt is taken where the closing VMENTER resumes, a CPU fault is immediate
   * and nothing was emulated, and cr2 changes in page faults only.
   */
  ghost predicate SaneEvent(pts: seq<Point>, e: Event) {
    e.hasInterrupt && !e.isFirstEventContextUnknown && !e.isLastEvent ==>
      && 1 <= e.position <= ClosingPosition(pts, e.position) <= |pts|
      && var exit, enter := pts[e.position - 1], pts[ClosingPosition(pts, e.position) - 1];
         && enter.kind == 0xff && e.interruptRip == enter.rip
         && (e.isInstructionEmulation ==> exit.rip != enter.rip)
         && (e.interruptVector < 0x20 ==> !e.isInstructionEmulation && exit.rip == enter.rip)
         && (enter.crs.cr2 != exit.crs.cr2 ==> e.interruptVector == 0x0e)
  }

  lemma FetchedIsSane(pts: seq<Point>, v: nat)
    requires 1 <= v <= |pts|
    requires Fetch(AheadOf(pts, v)).Fetched? && Fetch(AheadOf(pts, v)).event.position == v
    ensures SaneEvent(pts, Fetch(AheadOf(pts, v)).event)
  {
    hide AheadOf;
    hide Fetch;
    hide CheckSanity;
    hide ClosingPosition;
    var e := Fetch(AheadOf(pts, v)).event;
    FetchedStarts(pts, v);
    if !e.isLastEvent {
      FetchedCloses(pts, v);
      SanityMeans(e);
    }
  }

  /** Merging keeps an event sane although the checks are not made again. */
  lemma MergedIsSane(pts: seq<Point>, run: seq<Event>)
    requires IsRun(run) && SaneEvent(pts, run[|run| - 1])
    ensures SaneEvent(pts, MergeRun(run))
  {
    MergedRunIsItsLastEvent(run);
  }

  /** All the events that a dump of the trace shows are sane. */
  lemma ReportedEventsAreSane(pts: seq<Point>)
    ensures forall e <- Reported(RawEvents(Dedup(pts))) :: SaneEvent(pts, e)
  {
    hide Fetch;
    hide Rest;
    hide SaneEvent;
    DedupInTrace(pts);
    var ps := Dedup(pts);
    var raw := RawEvents(ps);
    forall i | 0 <= i < |raw.events| ensures SaneEvent(pts, raw.events[i]) {
      RawEventIsFetched(pts, ps, i);
      FetchedIsSane(pts, raw.events[i].position);
    }
    hide RawEvents;
    CoalescedAreSane(pts, raw.events);
  }

  lemma {:induction false} CoalescedAreSane(pts: seq<Point>, es: seq<Event>)
    requires forall i | 0 <= i < |es| :: SaneEvent(pts, es[i])
    ensures forall e <- Coalesce(es) :: SaneEvent(pts, e)
    decreases |es|
  {
    hide SaneEvent;
    hide Linked;
    hide MergeRun;
    if es == [] {
    } else {
      var k := RunLength(es);
      MergedIsSane(pts, es[..k]);
      CoalescedAreSane(pts, es[k..]);
      CoalesceStep(es);
      hide Coalesce;
    }
  }

  lemma DedupInTrace(pts: seq<Point>)
    ensures InTrace(pts, Dedup(pts))
  {
    if pts != [] {
      assert Dedup(pts) == AheadOf(pts, 1);
    }
  }

  // ---- Where the code leaves its specification

  /**
   * After a complete event was reported, the cursor is where the next event can be read from, unless the
   * event waits for another one to merge with and there is none. Both directions.
   */
  lemma CursorKept(file: SyncFile, ps: seq<Located>, r: Result<Event>)
    requires InTrace(file.points, ps) && file.Reports(RawEvents(ps), r, true) && r.Success? && !r.value.isLastEvent
    ensures var es := RawEvents(ps).events;
            var k := RunLength(es);
            && es != []
            && (file.position == RestPosition(file.points, es, k) <==> !(k == |es| && Pending(es[k - 1])))
  {
    hide Fetch;
    hide Rest;
    hide RestsBehind;
    hide SyncFile.Valid;
    hide SyncFile.OnTrack;
    hide SyncFile.Future;
    hide Linked;
    var es := RawEvents(ps).events;
    if es != [] {
      var k := RunLength(es);
      if k == |es| && Pending(es[k - 1]) {
        assert es[..k] == es;
        RawEventIsFetched(file.points, ps, k - 1);
        ClosesInTrace(file.points, es[k - 1].position);
        file.CanSeek(0);
      }
    }
    hide RawEvents;
  }

  lemma ClosesInTrace(pts: seq<Point>, v: nat)
    requires 1 <= v <= |pts|
    requires var f := Fetch(AheadOf(pts, v)); f.Fetched? && f.event.position == v && !f.event.isLastEvent
    ensures v <= ClosingPosition(pts, v) <= |pts|
  {
    FetchInTrace(pts, AheadOf(pts, v));
  }
}
