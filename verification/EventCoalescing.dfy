/** Merging runs of raw events without effect, and the event list of a whole trace. */
module EventCoalescing {
  import opened SyncPoints
  import opened SyncEvents
  import opened SyncTraces
  import opened EventParser

  // ---- The merging heuristic as a property of the list of raw events

  /** An event that may still be merged with the next: the merging loop looks one event further. */
  predicate Pending(e: Event) {
    e.position != 1 && !e.hasInterrupt && e.startContext.ValuesEquivalent(e.newContext)
  }

  predicate Joins(e: Event, next: Event) {
    && e.newContext.ValuesEquivalent(next.startContext)
    && e.startRip == next.startRip
    && !e.isInstructionEmulation
  }

  ghost predicate Linked(e: Event, next: Event) {
    Pending(e) && Joins(e, next)
  }

  /** Length of the longest run of linked events at the head of a list. */
  ghost function RunLength(es: seq<Event>): (k: nat)
    requires es != []
    ensures 1 <= k <= |es|
    ensures forall i | 0 <= i < k - 1 :: Linked(es[i], es[i + 1])
    ensures k < |es| ==> !Linked(es[k - 1], es[k])
  {
    if |es| == 1 || !Linked(es[0], es[1]) then 1 else 1 + RunLength(es[1..])
  }

  /** One event for a run: the last one, with the context the run started in. */
  ghost function MergeRun(run: seq<Event>): Event
    requires run != []
  {
    run[|run| - 1].(startContext := run[0].startContext)
  }

  /** The maximal runs of linked events. */
  ghost function Runs(es: seq<Event>): seq<seq<Event>> {
    if es == [] then [] else
      var k := RunLength(es);
      [es[..k]] + Runs(es[k..])
  }

  ghost function Coalesce(es: seq<Event>): seq<Event> {
    if es == [] then [] else
      var k := RunLength(es);
      [MergeRun(es[..k])] + Coalesce(es[k..])
  }

  ghost function Concat(runs: seq<seq<Event>>): seq<Event> {
    if runs == [] then [] else runs[0] + Concat(runs[1..])
  }

  ghost predicate IsRun(run: seq<Event>) {
    run != [] && forall i | 0 <= i < |run| - 1 :: Linked(run[i], run[i + 1])
  }

  /** A run that ends in an event the next run could have gone on with. */
  ghost predicate CouldContinue(run: seq<Event>, next: seq<Event>) {
    run != [] && next != [] && Linked(run[|run| - 1], next[0])
  }

  /** Every run is one, and no two neighbouring runs could be one. */
  ghost predicate MaximalRuns(runs: seq<seq<Event>>) {
    && (forall run <- runs :: IsRun(run))
    && (forall i, j | 0 <= i < j < |runs| && j == i + 1 :: !CouldContinue(runs[i], runs[j]))
  }

  lemma ConcatCons(run: seq<Event>, runs: seq<seq<Event>>)
    ensures Concat([run] + runs) == run + Concat(runs)
  {
    assert ([run] + runs)[1..] == runs;
  }

  lemma TakeDrop(es: seq<Event>, k: nat)
    requires k <= |es|
    ensures es[..k] + es[k..] == es
  {
  }

  /** The runs lose and repeat no event. */
  lemma {:induction false} RunsPartition(es: seq<Event>)
    ensures Concat(Runs(es)) == es
    decreases |es|
  {
    hide Linked;
    if es == [] {
    } else {
      var k := RunLength(es);
      var first, rest, tail := es[..k], es[k..], Runs(es[k..]);
      assert Runs(es) == [first] + tail;
      hide Runs;
      hide RunLength;
      RunsPartition(rest);
      ConcatCons(first, tail);
      hide Concat;
      TakeDrop(es, k);
    }
  }

  lemma MaximalRunsCons(run: seq<Event>, runs: seq<seq<Event>>)
    requires IsRun(run) && MaximalRuns(runs)
    requires runs != [] ==> !CouldContinue(run, runs[0])
    ensures MaximalRuns([run] + runs)
  {
    hide Linked;
    var all := [run] + runs;
    forall i, j | 0 <= i < j < |all| && j == i + 1 ensures !CouldContinue(all[i], all[j]) {
      if i > 0 {
        assert all[i] == runs[i - 1] && all[j] == runs[j - 1];
      }
    }
  }

  /** The runs are as long as they can be. */
  lemma {:induction false} RunsAreMaximal(es: seq<Event>)
    ensures MaximalRuns(Runs(es))
    decreases |es|
  {
    hide Linked;
    if es == [] {
    } else {
      var k := RunLength(es);
      var tail := Runs(es[k..]);
      RunsAreMaximal(es[k..]);
      if tail != [] {
        assert tail[0][0] == es[k];
      }
      MaximalRunsCons(es[..k], tail);
    }
  }

  /** What it takes for two raw events in a row to be reported as one, field by field. */
  ghost predicate ReportedAsOne(a: Event, b: Event) {
    && a.position != 1 && !a.hasInterrupt && !a.isInstructionEmulation && a.startRip == b.startRip
    && a.startContext.gprs == a.newContext.gprs && a.startContext.crs == a.newContext.crs
    && a.newContext.gprs == b.startContext.gprs && a.newContext.crs == b.startContext.crs
  }

  /** The last event of one run and the first of the next do not. */
  ghost predicate ReportedApart(run: seq<Event>, next: seq<Event>) {
    run != [] && next != [] && !ReportedAsOne(run[|run| - 1], next[0])
  }

  /** Exactly the neighbours of which that holds are in one run. */
  lemma RunsByFields(es: seq<Event>)
    ensures forall i, j | 0 <= i < |Runs(es)| && 0 <= j < |Runs(es)[i]| - 1 ::
              ReportedAsOne(Runs(es)[i][j], Runs(es)[i][j + 1])
    ensures forall i, j | 0 <= i < j < |Runs(es)| && j == i + 1 ::
              ReportedApart(Runs(es)[i], Runs(es)[j])
  {
    hide Runs;
    hide IsRun;
    hide CouldContinue;
    hide ReportedAsOne;
    hide ReportedApart;
    RunsAreMaximal(es);
    var runs := Runs(es);
    forall i, j | 0 <= i < |runs| && 0 <= j < |runs[i]| - 1 ensures ReportedAsOne(runs[i][j], runs[i][j + 1]) {
      assert runs[i] in runs;
      InsideByFields(runs[i], j);
    }
    forall i, j | 0 <= i < j < |runs| && j == i + 1
      ensures ReportedApart(runs[i], runs[j])
    {
      assert runs[i] in runs && runs[j] in runs && !CouldContinue(runs[i], runs[j]);
      BetweenByFields(runs[i], runs[j]);
    }
  }

  lemma InsideByFields(run: seq<Event>, j: nat)
    requires IsRun(run) && j < |run| - 1
    ensures ReportedAsOne(run[j], run[j + 1])
  {
    assert Linked(run[j], run[j + 1]);
  }

  lemma BetweenByFields(run: seq<Event>, next: seq<Event>)
    requires IsRun(run) && IsRun(next) && !CouldContinue(run, next)
    ensures ReportedApart(run, next)
  {
  }

  /** Coalescing reports one merged event for each maximal run, in order. */
  lemma {:induction false} CoalesceMergesRuns(es: seq<Event>)
    ensures |Runs(es)| == |Coalesce(es)|
    ensures forall i | 0 <= i < |Runs(es)| :: Runs(es)[i] != [] && Coalesce(es)[i] == MergeRun(Runs(es)[i])
    decreases |es|
  {
    hide Linked;
    hide MergeRun;
    if es == [] {
    } else {
      var k := RunLength(es);
      var runs, merged := Runs(es[k..]), Coalesce(es[k..]);
      CoalesceMergesRuns(es[k..]);
      assert Runs(es) == [es[..k]] + runs && Coalesce(es) == [MergeRun(es[..k])] + merged;
      hide Runs;
      hide Coalesce;
    }
  }

  /**
   * What merging preserves: all events of a run but the last are without interrupt, emulation or context
   * change and start at the rip of the last, so only the unobserved parts of the start context differ.
   */
  lemma {:induction false} MergedRunIsItsLastEvent(run: seq<Event>)
    requires IsRun(run)
    ensures var last := run[|run| - 1];
            && MergeRun(run) == last.(startContext := run[0].startContext)
            && run[0].startContext.ValuesEquivalent(last.startContext)
            && forall i | 0 <= i < |run| - 1 ::
                 && !run[i].hasInterrupt && !run[i].isInstructionEmulation
                 && run[i].startContext.ValuesEquivalent(run[i].newContext)
                 && run[i].startRip == last.startRip
    decreases |run|
  {
    if |run| == 1 {
    } else {
      var tail := run[1..];
      forall i | 0 <= i < |tail| - 1 ensures Linked(tail[i], tail[i + 1]) {
        assert Linked(run[i + 1], run[i + 2]);
      }
      MergedRunIsItsLastEvent(tail);
      assert Linked(run[0], run[1]);
      forall i | 0 <= i < |run| - 1
        ensures && !run[i].hasInterrupt && !run[i].isInstructionEmulation
                && run[i].startContext.ValuesEquivalent(run[i].newContext)
                && run[i].startRip == run[|run| - 1].startRip
      {
        if i > 0 {
          assert run[i] == tail[i - 1];
        }
      }
    }
  }

  // ---- All the raw events of a stream

  /** How a stream ends: behind an event, behind points that no VMEXIT follows, or in an exception. */
  datatype Ending = Clean | Strays | Broken(error: Error)

  datatype Raw = Raw(events: seq<Event>, ending: Ending)

  ghost function RawEvents(ps: seq<Located>): Raw
    decreases |ps|
  {
    if ps == [] then Raw([], Clean)
    else match Fetch(ps)
      case NoEvent => Raw([], Strays)
      case Malformed(error, _) => Raw([], Broken(error))
      case Fetched(e, rest, _) => Raw([e] + RawEvents(rest).events, RawEvents(rest).ending)
  }

  /** The event list a dump of the stream shows; an exception in a lookahead hides the pending event. */
  ghost function Reported(raw: Raw): seq<Event> {
    var merged := Coalesce(raw.events);
    if raw.ending.Broken? && raw.events != [] && Pending(raw.events[|raw.events| - 1]) && merged != []
    then merged[..|merged| - 1]
    else merged
  }

  /** Positions behind the first record, where the repair rule for a missing VMEXIT does not apply. */
  ghost predicate Later(ps: seq<Located>) {
    forall l <- ps :: 2 <= l.position
  }

  /** Points in front of the first VMEXIT do not count. */
  lemma RawFromExit(ps: seq<Located>)
    requires !FirstExitMissing(ps) && FirstExit(ps) < |ps|
    ensures RawEvents(ps) == RawEvents(ps[FirstExit(ps)..])
  {
    hide ParseEvent;
    FetchFromExit(ps);
  }

  /** Recognises the first maximal run. */
  lemma {:induction false} RunLengthIs(es: seq<Event>, k: nat)
    requires 1 <= k <= |es|
    requires forall i | 0 <= i < k - 1 :: Linked(es[i], es[i + 1])
    requires k < |es| ==> !Linked(es[k - 1], es[k])
    ensures RunLength(es) == k
    decreases k
  {
    if k == 1 {
    } else {
      assert Linked(es[0], es[1]);
      forall i | 0 <= i < k - 2 ensures Linked(es[1..][i], es[1..][i + 1]) {
        assert Linked(es[i + 1], es[i + 2]);
      }
      RunLengthIs(es[1..], k - 1);
    }
  }

  // ---- Events of a recorded trace

  /** The cursor at p is behind the start of the event at v and in front of the next delivered VMEXIT. */
  ghost predicate RestsBehind(pts: seq<Point>, v: nat, p: nat) {
    1 <= v <= p <= |pts| && forall l <- Rest(pts, v) :: l.position <= p ==> !l.point.IsVmExit()
  }

  /** Reading again from position v delivers the raw events from index j on. */
  ghost predicate Reopens(pts: seq<Point>, v: nat, raw: Raw, j: nat) {
    1 <= v <= |pts| && j < |raw.events|
    && RawEvents(AheadOf(pts, v)) == Raw(raw.events[j..], raw.ending)
  }

  /** Position of the VMENTER that closes the event at v. */
  ghost function ClosingPosition(pts: seq<Point>, v: nat): nat {
    if 1 <= v <= |pts| && Fetch(AheadOf(pts, v)).Fetched? then Fetch(AheadOf(pts, v)).at else 0
  }

  /** Where the cursor rests after a run of k events: in front of the next event if it looked ahead. */
  ghost function RestPosition(pts: seq<Point>, es: seq<Event>, k: nat): int
    requires 1 <= k <= |es|
  {
    if k < |es| && Pending(es[k - 1]) then es[k].position - 1 else ClosingPosition(pts, es[k - 1].position)
  }

  /** Reading from the start of the first event on finds the same raw events. */
  lemma FetchReopens(pts: seq<Point>, ps: seq<Located>)
    requires InTrace(pts, ps) && Fetch(ps).Fetched?
    ensures Reopens(pts, Fetch(ps).event.position, RawEvents(ps), 0)
    ensures Fetch(AheadOf(pts, Fetch(ps).event.position)) == Fetch(ps)
  {
    hide ParseEvent;
    hide Point.Same;
    FetchSkips(ps);
    var i := if FirstExitMissing(ps) then 0 else FirstExit(ps);
    ParseSpan(ps[i..], FirstExitMissing(ps));
    SuffixInTrace(pts, ps, i);
    assert ps[0..] == ps;
    if !FirstExitMissing(ps) {
      FetchFromExit(ps);
    }
    assert RawEvents(ps).events[0..] == RawEvents(ps).events;
  }

  /** Where the first event of a stream ends in the trace, and what remains behind it. */
  lemma FetchInTrace(pts: seq<Point>, ps: seq<Located>)
    requires InTrace(pts, ps) && Fetch(ps).Fetched? && !Fetch(ps).event.isLastEvent
    ensures var r := Fetch(ps);
            && 1 <= r.at <= |pts| && pts[r.at - 1].IsVmEnter()
            && r.rest == Rest(pts, r.at) && RestsBehind(pts, r.event.position, r.at)
  {
    hide ParseEvent;
    hide Rest;
    hide RestsBehind;
    FetchSkips(ps);
    var i := if FirstExitMissing(ps) then 0 else FirstExit(ps);
    SuffixInTrace(pts, ps, i);
    hide Fetch;
    hide FirstExit;
    ParseInTrace(pts, ps[i].position, FirstExitMissing(ps));
  }

  lemma ParseInTrace(pts: seq<Point>, v: nat, missing: bool)
    requires 1 <= v <= |pts|
    requires var r := ParseEvent(AheadOf(pts, v), missing); r.Fetched? && !r.event.isLastEvent
    ensures var r := ParseEvent(AheadOf(pts, v), missing);
            && r.event.position == v && 1 <= r.at <= |pts| && pts[r.at - 1].IsVmEnter()
            && r.rest == Rest(pts, r.at) && RestsBehind(pts, v, r.at)
  {
    hide Point.Same;
    hide RestsBehind;
    var qs := AheadOf(pts, v);
    ParseSpan(qs, missing);
    hide ParseEvent;
    var m := |qs| - |ParseEvent(qs, missing).rest| - 1;
    SuffixInTrace(pts, qs, m);
    SpanRests(pts, v, m);
  }

  /** A segment without a further VMEXIT, ended before the next one. */
  lemma SpanRests(pts: seq<Point>, v: nat, m: nat)
    requires 1 <= v <= |pts| && m < |AheadOf(pts, v)|
    requires forall j | 0 < j <= m :: !AheadOf(pts, v)[j].point.IsVmExit()
    ensures RestsBehind(pts, v, AheadOf(pts, v)[m].position)
  {
    hide Point.Same;
    var ps := AheadOf(pts, v);
    AheadAscends(pts, v);
    RestBounds(pts, v);
    forall l | l in Rest(pts, v) && l.position <= ps[m].position ensures !l.point.IsVmExit() {
      var j :| 0 <= j < |Rest(pts, v)| && Rest(pts, v)[j] == l;
      assert ps[j + 1] == l;
    }
    if m > 0 {
      assert ps[m] in Rest(pts, v);
    }
  }

  /** Putting the cursor just in front of the next VMEXIT keeps it behind the event. */
  lemma RestsBeforeNextExit(pts: seq<Point>, v: nat, at: nat, q: nat)
    requires RestsBehind(pts, v, at)
    requires var ps := Rest(pts, at); FirstExit(ps) < |ps| && ps[FirstExit(ps)].position == q + 1
    ensures RestsBehind(pts, v, q)
  {
    hide Point.Same;
    hide Point.IsVmExit;
    hide Rest;
    var ps := Rest(pts, at);
    var i := FirstExit(ps);
    RestBounds(pts, at);
    assert ps[i] in ps;
    forall l | l in Rest(pts, v) && l.position <= q ensures !l.point.IsVmExit() {
      if at < l.position {
        LaterHeadIsAhead(pts, v, at, l);
        InFrontOf(ps, i, l);
      }
    }
  }

  lemma InFrontOf(ps: seq<Located>, i: nat, l: Located)
    requires Ascending(ps) && i < |ps| && l in ps && l.position < ps[i].position
    ensures exists j :: 0 <= j < i && ps[j] == l
  {
  }

  lemma LaterHeadIsAhead(pts: seq<Point>, v: nat, at: nat, l: Located)
    requires 1 <= v <= at <= |pts| && l in Rest(pts, v) && at < l.position
    ensures l in Rest(pts, at)
  {
    hide IsHead;
    RestBounds(pts, v);
    RestIsTheHeads(pts, v);
    RestIsTheHeads(pts, at);
    assert l == Located(pts[l.position - 1], l.position);
    assert IsHead(pts, l.position);
  }

  /**
   * Where contexts come from points with some nonzero register, a truncated event never waits for another
   * one, and a waiting event cannot be mistaken for a default one.
   */
  lemma PlausiblePending(ps: seq<Located>)
    requires ps != [] && (ps[0].point.IsVmExit() ==> Plausible(ps[0].point))
    requires forall i | 0 < i < |ps| :: Plausible(ps[i].point)
    requires Fetch(ps).Fetched? && Pending(Fetch(ps).event)
    ensures var e := Fetch(ps).event;
            !e.isLastEvent && !e.newContext.ValuesEquivalent(ZERO_CONTEXT)
  {
    hide ParseEvent;
    FetchSkips(ps);
    var missing := FirstExitMissing(ps);
    var i := if missing then 0 else FirstExit(ps);
    ParseSpan(ps[i..], missing);
    assert ps[i..][0] == ps[i] && Plausible(ps[i].point);
  }

  /** Whatever is fetched is valid, and a truncated event takes all. */
  lemma FetchedIsWhole(ps: seq<Located>)
    ensures Fetch(ps).Fetched? ==> Fetch(ps).event.isValid
    ensures Fetch(ps).Fetched? && Fetch(ps).event.isLastEvent ==> Fetch(ps).rest == []
  {
    hide ParseEvent;
    FetchSkips(ps);
    var i := if FirstExitMissing(ps) then 0 else FirstExit(ps);
    if i < |ps| {
      ParseSpan(ps[i..], FirstExitMissing(ps));
    }
  }

  /** The raw events of a stream, one fetch at a time. */
  lemma RawFirst(ps: seq<Located>)
    ensures var raw := RawEvents(ps);
            match Fetch(ps)
            case NoEvent => raw.events == [] && !raw.ending.Broken?
            case Malformed(error, _) => raw == Raw([], Broken(error))
            case Fetched(e, rest, _) =>
              raw.events != [] && raw.events[0] == e && RawEvents(rest) == Raw(raw.events[1..], raw.ending)
  {
    assert Fetch([]) == NoEvent;
    hide Fetch;
    if Fetch(ps).Fetched? {
      var tail := RawEvents(Fetch(ps).rest).events;
      assert ([Fetch(ps).event] + tail)[1..] == tail;
    }
  }

  /** The event found behind position `at` starts at the first VMEXIT there. */
  lemma FetchedBehind(pts: seq<Point>, at: nat)
    requires 1 <= at <= |pts| && Fetch(Rest(pts, at)).Fetched?
    ensures var ps, i := Rest(pts, at), FirstExit(Rest(pts, at));
            && Later(ps) && i < |ps| && ps[i].position == Fetch(ps).event.position
            && at < ps[i].position <= |pts|
  {
    hide ParseEvent;
    hide Rest;
    var ps := Rest(pts, at);
    RestBounds(pts, at);
    FetchSkips(ps);
    var i := FirstExit(ps);
    ParseSpan(ps[i..], false);
    assert ps[i] in ps;
    hide Fetch;
    hide FirstExit;
  }

  /** A lookahead that is put back: reading from in front of the next event finds the same raw events. */
  lemma PutBack(pts: seq<Point>, at: nat, q: nat)
    requires 1 <= at <= |pts|
    requires Fetch(Rest(pts, at)).Fetched? && Fetch(Rest(pts, at)).event.position == q + 1
    ensures at <= q <= |pts|
    ensures RawEvents(Rest(pts, q)) == RawEvents(Rest(pts, at))
    ensures Later(Rest(pts, q))
    ensures forall v | RestsBehind(pts, v, at) :: RestsBehind(pts, v, q)
  {
    hide RestsBehind;
    hide RawEvents;
    hide Rest;
    hide Fetch;
    hide FirstExit;
    FetchedBehind(pts, at);
    RestAfter(pts, at, FirstExit(Rest(pts, at)));
    RawFromExit(Rest(pts, at));
    RestIsLater(pts, q);
    forall v | RestsBehind(pts, v, at) ensures RestsBehind(pts, v, q) {
      RestsBeforeNextExit(pts, v, at, q);
    }
  }

  lemma RestIsLater(pts: seq<Point>, q: nat)
    requires 1 <= q <= |pts|
    ensures Later(Rest(pts, q))
  {
    hide Rest;
    RestBounds(pts, q);
  }

  /** The last VMEXIT up to position p, or the first record when there is none. */
  ghost function LastExit(pts: seq<Point>, p: nat): (w: nat)
    requires 1 <= p <= |pts|
    ensures 1 <= w <= p && (w == 1 || pts[w - 1].IsVmExit())
    ensures forall x | w <= x < p :: !pts[x].IsVmExit()
  {
    if p == 1 || pts[p - 1].IsVmExit() then p else LastExit(pts, p - 1)
  }

  /** From a VMEXIT, or from the first record, fetching always finds something. */
  lemma ReopenedHasEvent(pts: seq<Point>, w: nat)
    requires 1 <= w <= |pts| && (w == 1 || pts[w - 1].IsVmExit())
    ensures HasExit(AheadOf(pts, w))
    ensures var raw := RawEvents(AheadOf(pts, w)); raw.events != [] || raw.ending.Broken?
  {
    hide ParseEvent;
    hide Rest;
    var ps := AheadOf(pts, w);
    FetchSkips(ps);
    RawFirst(ps);
  }

  lemma RunOfOne(e: Event, es: seq<Event>)
    requires es != [] && es[0] == e
    ensures MergeRun(es[..1]) == e && Pending(e) == Pending(es[0])
  {
  }

  /** Merging one more event into a run that may go on. */
  lemma ExtendRun(es: seq<Event>, k: nat, next: Event)
    requires 1 <= k < |es| && es[k] == next
    requires IsRun(es[..k]) && Linked(MergeRun(es[..k]), next)
    ensures var merged := next.(startContext := MergeRun(es[..k]).startContext);
            && merged == MergeRun(es[..k + 1])
            && IsRun(es[..k + 1])
            && Pending(merged) == Pending(next)
  {
    var run, longer := es[..k], es[..k + 1];
    MergedRunIsItsLastEvent(run);
    assert run[k - 1] == es[k - 1];
    assert Linked(es[k - 1], es[k]);
    assert Pending(next.(startContext := MergeRun(run).startContext)) == Pending(next);
    hide Linked;
    forall i | 0 <= i < k ensures Linked(longer[i], longer[i + 1]) {
      if i < k - 1 {
        assert Linked(run[i], run[i + 1]);
      }
    }
  }

  /** A merged run goes on with the next event exactly when its last event does. */
  lemma MergedLinks(es: seq<Event>, k: nat)
    requires 1 <= k <= |es| && IsRun(es[..k])
    ensures Pending(MergeRun(es[..k])) == Pending(es[k - 1])
    ensures MergeRun(es[..k]).position == es[k - 1].position
    ensures MergeRun(es[..k]).isLastEvent == es[k - 1].isLastEvent
    ensures MergeRun(es[..k]).newContext == es[k - 1].newContext
    ensures k < |es| ==> Joins(MergeRun(es[..k]), es[k]) == Joins(es[k - 1], es[k])
  {
    MergedRunIsItsLastEvent(es[..k]);
  }

  lemma FirstRunIs(es: seq<Event>, k: nat)
    requires 1 <= k <= |es| && IsRun(es[..k]) && (k < |es| ==> !Linked(es[k - 1], es[k]))
    ensures RunLength(es) == k
  {
    hide Linked;
    forall i | 0 <= i < k - 1 ensures Linked(es[i], es[i + 1]) {
      assert Linked(es[..k][i], es[..k][i + 1]);
    }
    RunLengthIs(es, k);
  }

  // ---- A loop that began with no event at all

  /** The event of the merging loop after k iterations at the end of the file, met at position n. */
  function MergedAtEnd(n: nat, k: nat): Event {
    if k == 0 then DEFAULT_EVENT else EventAtEnd(n)
  }

  /** Every one of those iterations joins, and the loop goes on unless the position is 1. */
  lemma MergedAtEndGoesOn(n: nat, k: nat)
    ensures Joins(MergedAtEnd(n, k), EventAtEnd(n))
    ensures EventAtEnd(n).(startContext := MergedAtEnd(n, k).startContext) == MergedAtEnd(n, k + 1)
    ensures Pending(MergedAtEnd(n, k)) <==> k == 0 || n != 1
  {
  }
}
