/** Random access to an event whose VMEXIT was recorded more than once. */
module RepeatedExits {
  import opened Bytes
  import opened SyncPoints
  import opened SyncEvents
  import opened SyncTraces
  import opened EventParser
  import opened EventCoalescing
  import opened SyncFiles
  import opened RandomAccess

  /** Every VMEXIT up to where the cursor rests belongs to the run of equal records at v. */
  lemma {:induction false} ExitsBehindRepeat(pts: seq<Point>, v: nat, p: nat, w: nat)
    requires RestsBehind(pts, v, p) && v <= w <= p && pts[v - 1].IsVmExit() && pts[w - 1].IsVmExit()
    ensures pts[v - 1].Same(pts[w - 1]) && Rest(pts, v) == Rest(pts, w)
    decreases w
  {
    if v == w {
    } else {
      ExitIsNoHead(pts, v, p, w);
      hide Rest;
      ExitsBehindRepeat(pts, v, p, w - 1);
    }
  }

  lemma ExitIsNoHead(pts: seq<Point>, v: nat, p: nat, w: nat)
    requires RestsBehind(pts, v, p) && v < w <= p && pts[w - 1].IsVmExit()
    ensures pts[w - 2].Same(pts[w - 1]) && pts[w - 2].IsVmExit()
    ensures Rest(pts, w - 1) == Rest(pts, w)
  {
    RestIsTheHeads(pts, v);
    assert IsHead(pts, w) <==> Located(pts[w - 1], w) in Rest(pts, v);
  }

  /** The event read from a copy of its VMEXIT at w: position, FPU words and the VMEXIT's data are the copy's. */
  ghost predicate IsFromCopy(e: Event, f: Event, first: Point, copy: Point, w: nat) {
    && f == e.(position := w, startContext := e.startContext.(fpu := copy.fpu), data := f.data)
    && first.data <= e.data && copy.data <= f.data
    && e.data[|first.data|..] == f.data[|copy.data|..]
  }

  ghost predicate FetchedFromCopy(f: Fetched, g: Fetched, first: Point, copy: Point, w: nat) {
    match f
    case NoEvent => false
    case Malformed(_, _) => g == f
    case Fetched(e, rest, at) => g.Fetched? && g.rest == rest && g.at == at && IsFromCopy(e, g.event, first, copy, w)
  }

  lemma AppendedData(e: Event, f: Event, data: seq<PointData>, first: Point, copy: Point, w: nat)
    requires IsFromCopy(e, f, first, copy, w)
    ensures IsFromCopy(e.(data := e.data + data), f.(data := f.data + data), first, copy, w)
  {
    assert (e.data + data)[|first.data|..] == e.data[|first.data|..] + data;
    assert (f.data + data)[|copy.data|..] == f.data[|copy.data|..] + data;
  }

  lemma WithInterruptFromCopy(e: Event, f: Event, irq: Point, first: Point, copy: Point, w: nat)
    requires IsFromCopy(e, f, first, copy, w)
    ensures IsFromCopy(WithInterrupt(e, irq), WithInterrupt(f, irq), first, copy, w)
  {
    AppendedData(e, f, irq.data, first, copy, w);
  }

  lemma CloseFromCopy(e: Event, f: Event, ps: seq<Located>, qs: seq<Located>, m: nat, first: Point, copy: Point, w: nat)
    requires m < |ps| == |qs| && ps[m..] == qs[m..] && IsFromCopy(e, f, first, copy, w)
    ensures FetchedFromCopy(CloseEvent(e.(data := e.data + ps[m].point.data), ps, m),
                            CloseEvent(f.(data := f.data + qs[m].point.data), qs, m), first, copy, w)
  {
    SameTail(ps, qs, m);
    AppendedData(e, f, ps[m].point.data, first, copy, w);
  }

  lemma SameTail(ps: seq<Located>, qs: seq<Located>, m: nat)
    requires m < |ps| == |qs| && ps[m..] == qs[m..]
    ensures ps[m] == qs[m] && ps[m + 1..] == qs[m + 1..]
  {
    assert ps[m] == ps[m..][0] && ps[m + 1..] == ps[m..][1..];
    assert qs[m] == qs[m..][0] && qs[m + 1..] == qs[m..][1..];
  }

  lemma BodyFromCopy(e: Event, f: Event, ps: seq<Located>, qs: seq<Located>, k: nat, first: Point, copy: Point, w: nat)
    requires k < |ps| == |qs| && ps[k..] == qs[k..] && IsFromCopy(e, f, first, copy, w)
    ensures FetchedFromCopy(ParseBody(e, ps, k), ParseBody(f, qs, k), first, copy, w)
  {
    hide CloseEvent;
    var c := ps[k].point;
    SameTail(ps, qs, k);
    CloseFromCopy(e, f, ps, qs, k, first, copy, w);
    WithInterruptFromCopy(e, f, c, first, copy, w);
    var irq, irq' := WithInterrupt(e, c), WithInterrupt(f, c);
    hide WithInterrupt;
    if k + 1 < |ps| {
      SameTail(ps, qs, k + 1);
      CloseFromCopy(irq, irq', ps, qs, k + 1, first, copy, w);
    }
    if k + 2 < |ps| {
      SameTail(ps, qs, k + 2);
      CloseFromCopy(irq, irq', ps, qs, k + 2, first, copy, w);
    }
  }

  /** Two equal first points make the same event, up to what the comparison of points ignores. */
  lemma ParseFromCopy(first: Located, copy: Located, rest: seq<Located>)
    requires first.point.Same(copy.point)
    ensures FetchedFromCopy(ParseEvent([first] + rest, false), ParseEvent([copy] + rest, false),
                            first.point, copy.point, copy.position)
  {
    var ps, qs := [first] + rest, [copy] + rest;
    var e, f := OpenEvent(first, false), OpenEvent(copy, false);
    assert ps[1..] == rest == qs[1..];
    assert IsFromCopy(e, f, first.point, copy.point, copy.position);
    hide ParseBody;
    if rest != [] {
      BodyFromCopy(e, f, ps, qs, 1, first.point, copy.point, copy.position);
    }
  }

  lemma FetchFromCopy(pts: seq<Point>, v: nat, w: nat)
    requires 1 <= v <= |pts| && 1 <= w <= |pts| && pts[v - 1].IsVmExit()
    requires pts[v - 1].Same(pts[w - 1]) && Rest(pts, v) == Rest(pts, w)
    ensures FetchedFromCopy(Fetch(AheadOf(pts, v)), Fetch(AheadOf(pts, w)), pts[v - 1], pts[w - 1], w)
    ensures Fetch(AheadOf(pts, v)).Fetched? ==> Fetch(AheadOf(pts, v)).event.position == v
  {
    hide Rest;
    hide ParseEvent;
    hide FetchedFromCopy;
    FetchSkips(AheadOf(pts, v));
    FetchSkips(AheadOf(pts, w));
    ParseSpan(AheadOf(pts, v), false);
    assert AheadOf(pts, v)[0..] == AheadOf(pts, v) && AheadOf(pts, w)[0..] == AheadOf(pts, w);
    ParseFromCopy(Located(pts[v - 1], v), Located(pts[w - 1], w), Rest(pts, v));
  }

  /** The raw events read from a copy of a VMEXIT: the first is from the copy, the others are the same. */
  ghost predicate RawFromCopy(raw: Raw, again: Raw, first: Point, copy: Point, w: nat) {
    && raw.ending == again.ending && |raw.events| == |again.events|
    && (raw.events != [] ==>
          raw.events[1..] == again.events[1..] && IsFromCopy(raw.events[0], again.events[0], first, copy, w))
  }

  lemma CopyReads(pts: seq<Point>, v: nat, w: nat)
    requires 1 <= v <= |pts| && 1 <= w <= |pts| && pts[v - 1].IsVmExit()
    requires pts[v - 1].Same(pts[w - 1]) && Rest(pts, v) == Rest(pts, w)
    ensures var raw := RawEvents(AheadOf(pts, v));
            && RawFromCopy(raw, RawEvents(AheadOf(pts, w)), pts[v - 1], pts[w - 1], w)
            && (raw.events != [] ==> raw.events[0].position == v)
  {
    hide Rest;
    hide Fetch;
    hide AheadOf;
    hide IsFromCopy;
    FetchFromCopy(pts, v, w);
    RawFirst(AheadOf(pts, v));
    RawFirst(AheadOf(pts, w));
    hide RawEvents;
    var raw, again := RawEvents(AheadOf(pts, v)), RawEvents(AheadOf(pts, w));
    if raw.events != [] {
      assert |raw.events| == 1 + |raw.events[1..]| && |again.events| == 1 + |again.events[1..]|;
    }
  }

  /** Waiting and joining do not depend on FPU words and data; the position counts only where it is 1. */
  lemma CopyWaits(e: Event, f: Event, first: Point, copy: Point, w: nat)
    requires IsFromCopy(e, f, first, copy, w)
    ensures Pending(f) <==> Pending(e.(position := w))
    ensures 2 <= w && e.position != 1 ==> (Pending(f) <==> Pending(e))
    ensures forall next :: Joins(f, next) <==> Joins(e, next)
  {
  }

  /** What becomes of an event that is reloaded: decided by itself and by the raw event behind it. */
  datatype Reload = Alone | PutBack | Merged | Thrown | Lost

  ghost function ReloadOf(raw: Raw): Reload
    requires raw.events != []
  {
    if !Pending(raw.events[0]) then Alone
    else if 1 < |raw.events| then if Joins(raw.events[0], raw.events[1]) then Merged else PutBack
    else if raw.ending.Broken? then Thrown
    else Lost
  }

  /** With a repeated VMEXIT the walk back stops at the last copy, and the event is read from there. */
  lemma RepeatedExitMovesEvent(pts: seq<Point>, v: nat, p: nat)
    requires RestsBehind(pts, v, p) && v < p && RepeatedExit(pts, v)
    ensures var w := LastExit(pts, p);
            && v < w <= p && pts[v - 1].Same(pts[w - 1]) && Rest(pts, v) == Rest(pts, w)
            && RawFromCopy(RawEvents(AheadOf(pts, v)), RawEvents(AheadOf(pts, w)), pts[v - 1], pts[w - 1], w)
            && ClosingPosition(pts, w) == ClosingPosition(pts, v)
  {
    hide Rest;
    hide Fetch;
    hide RawEvents;
    assert pts[v].IsVmExit();
    var w := LastExit(pts, p);
    ExitsBehindRepeat(pts, v, p, w);
    CopyReads(pts, v, w);
    FetchFromCopy(pts, v, w);
  }

  lemma RestsBehindExit(pts: seq<Point>, raw: Raw, p: nat)
    requires RestsOn(pts, raw, p) && RepeatedExit(pts, raw.events[RunLength(raw.events) - 1].position)
    ensures var k := RunLength(raw.events);
            var v := raw.events[k - 1].position;
            && 1 <= v < p <= |pts| && RestsBehind(pts, v, p)
            && RawEvents(AheadOf(pts, v)) == Raw(raw.events[k - 1..], raw.ending)
  {
    hide Rest;
    hide RawEvents;
    hide RunLength;
    hide RestPosition;
  }

  /** The first event is a copy of the k-th, with the same events behind it. */
  ghost predicate IsReread(raw: Raw, k: nat, again: Raw, first: Point, copy: Point, w: nat) {
    && 1 <= k <= |raw.events| && again.events != []
    && again.events[1..] == raw.events[k..] && again.ending == raw.ending
    && (k < |raw.events| <==> 1 < |again.events|) && (k < |raw.events| ==> again.events[1] == raw.events[k])
    && IsFromCopy(raw.events[k - 1], again.events[0], first, copy, w)
  }

  lemma CopyOfRest(raw: Raw, k: nat, again: Raw, first: Point, copy: Point, w: nat)
    requires 1 <= k <= |raw.events|
    requires RawFromCopy(Raw(raw.events[k - 1..], raw.ending), again, first, copy, w)
    ensures IsReread(raw, k, again, first, copy, w)
  {
    hide IsFromCopy;
    TailOf(raw.events, k - 1);
    if k < |raw.events| {
      assert again.events[1] == again.events[1..][0] == raw.events[k..][0];
    }
  }

  /**
   * A copy of the last event of a maximal run stands alone unless it is merged with the next event. Behind
   * position 1 it does as the original did.
   */
  lemma CopyReloads(raw: Raw, k: nat, again: Raw, first: Point, copy: Point, w: nat)
    requires IsReread(raw, k, again, first, copy, w) && 2 <= w && k == RunLength(raw.events)
    requires k < |raw.events| || !Pending(raw.events[k - 1])
    ensures RunLength(again.events) == 1 <==> ReloadOf(again) != Merged
    ensures Pending(again.events[0]) <==> Pending(raw.events[k - 1].(position := w))
    ensures raw.events[k - 1].position != 1 ==>
              ReloadOf(again) == (if Pending(raw.events[k - 1]) then PutBack else Alone)
    ensures again.events[0].position == w && again.events[0].isLastEvent == raw.events[k - 1].isLastEvent
  {
    CopyWaits(raw.events[k - 1], again.events[0], first, copy, w);
    assert k < |raw.events| ==> !Linked(raw.events[k - 1], raw.events[k]);
    assert RunLength(again.events) == 1 <==> (|again.events| == 1 || !Linked(again.events[0], again.events[1]));
    hide RunLength;
  }

  /** Where the reader rests behind the copy's event when it stands alone. */
  lemma CopyRests(pts: seq<Point>, raw: Raw, k: nat, again: Raw, first: Point, copy: Point, w: nat)
    requires IsReread(raw, k, again, first, copy, w) && again.events[0].position == w
    requires ClosingPosition(pts, w) == ClosingPosition(pts, raw.events[k - 1].position)
    ensures ReloadOf(again) == PutBack ==>
              k < |raw.events| && RestPosition(pts, again.events, 1) == raw.events[k].position - 1
    ensures ReloadOf(again) == Alone && !Pending(raw.events[k - 1]) ==>
              RestPosition(pts, again.events, 1) == RestPosition(pts, raw.events, k)
    ensures ReloadOf(again) == PutBack && Pending(raw.events[k - 1]) ==>
              RestPosition(pts, again.events, 1) == RestPosition(pts, raw.events, k)
  {
    hide ClosingPosition;
    hide IsFromCopy;
    hide Pending;
    hide Joins;
  }

  /** The k-th event was read again at w, and p is where the reader rested when it was read first. */
  ghost predicate ReadsCopy(pts: seq<Point>, raw: Raw, k: nat, again: Raw, w: nat, p: nat) {
    && 1 <= k <= |raw.events| && again.events != []
    && var e, f := raw.events[k - 1], again.events[0];
       && 1 <= e.position < w <= p <= |pts|
       && IsReread(raw, k, again, pts[e.position - 1], pts[w - 1], w)
       && !f.isLastEvent && (Pending(f) <==> Pending(e.(position := w)))
       && (RunLength(again.events) == 1 <==> ReloadOf(again) != Merged)
       // behind position 1 it stands alone as it did, with the same resting place
       && (e.position != 1 ==>
             && ReloadOf(again) == (if Pending(e) then PutBack else Alone)
             && RestPosition(pts, again.events, 1) == p)
       && (ReloadOf(again) == Alone ==> RestPosition(pts, again.events, 1) == p)
       && (ReloadOf(again) == PutBack ==>
             k < |raw.events| && RestPosition(pts, again.events, 1) == raw.events[k].position - 1)
  }

  /**
   * The event at a repeated VMEXIT read again from the copy the walk back finds. It differs in its
   * position, in the FPU words of its start context and in the VMEXIT's data, and in nothing else. Behind
   * position 1 it stands alone again, and the cursor rests in the same place. At position 1 it was never
   * merged when read first, as its copy may be: with the next event, which is then reported instead, or
   * in vain.
   */
  lemma RepeatedExitReloads(pts: seq<Point>, raw: Raw, p: nat)
    requires 1 <= p <= |pts| && RestsOn(pts, raw, p)
    requires RepeatedExit(pts, raw.events[RunLength(raw.events) - 1].position)
    ensures ReadsCopy(pts, raw, RunLength(raw.events), RawEvents(AheadOf(pts, LastExit(pts, p))), LastExit(pts, p), p)
  {
    hide Rest;
    hide RawEvents;
    hide LastExit;
    hide RestsBehind;
    hide Reopens;
    hide ClosingPosition;
    hide RawFromCopy;
    hide RepeatedExit;
    hide IsFromCopy;
    hide ReloadOf;
    hide RunLength;
    hide RestPosition;
    RestsBehindExit(pts, raw, p);
    var k, w := RunLength(raw.events), LastExit(pts, p);
    var e, again := raw.events[k - 1], RawEvents(AheadOf(pts, w));
    RepeatedExitMovesEvent(pts, e.position, p);
    CopyOfRest(raw, k, again, pts[e.position - 1], pts[w - 1], w);
    CopyReloads(raw, k, again, pts[e.position - 1], pts[w - 1], w);
    CopyRests(pts, raw, k, again, pts[e.position - 1], pts[w - 1], w);
    FirstIsPending(e);
  }

  lemma FirstIsPending(e: Event)
    ensures e.position == 1 ==> !Pending(e)
  {
  }

  /** What advance_to p reports for an event whose first point is a copy, and where the cursor is then. */
  ghost predicate Reloaded(file: SyncFile, raw: Raw, k: nat, again: Raw, p: nat, check: Check)
    reads file, file.file, file.dataFile
  {
    && 1 <= k <= |raw.events| && again.events != []
    && match ReloadOf(again)
       // the copy's event alone, with the same to come, at the same place
       case Alone =>
         && check == Pass && file.OnTrack() && file.currentEvent == again.events[0]
         && RawEvents(file.Future()) == Raw(raw.events[k..], raw.ending) && file.position == p
       // the same, but the cursor may have moved on to the next event
       case PutBack =>
         && check == Pass && file.OnTrack() && file.currentEvent == again.events[0]
         && RawEvents(file.Future()) == Raw(raw.events[k..], raw.ending)
         && k < |raw.events| && file.position == raw.events[k].position - 1
         && (raw.events[k - 1].position != 1 ==> file.position == p)
       // a later event with the copy's start context, or what its own merging leads to
       case Merged =>
         2 <= RunLength(again.events)
         && file.Reports(again, if check.Fail? then Failure(check.error) else Success(file.currentEvent), true)
       // the lookahead finds an exception, or nothing
       case Thrown =>
         file.OnTrack() && !file.currentEvent.isValid && raw.ending.Broken? && check == Fail(raw.ending.error)
       case Lost =>
         check == Pass && file.LostTrack() && file.currentEvent == again.events[0]
  }

  /** The same on the reader, from any prior state. */
  method ReloadRepeated(file: SyncFile, p: uint64, ghost raw: Raw) returns (check: Check)
    requires file.Valid() && file.DataReadable() && 1 <= p <= |file.points| && RestsOn(file.points, raw, p)
    requires RepeatedExit(file.points, raw.events[RunLength(raw.events) - 1].position)
    modifies file`current, file`currentEvent, file`position, file.file, file.dataFile
    ensures Reloaded(file, raw, RunLength(raw.events), RawEvents(AheadOf(file.points, LastExit(file.points, p))),
                     p, check)
  {
    hide SyncFile.Valid;
    hide SyncFile.OnTrack;
    hide SyncFile.Future;
    hide SyncFile.DataReadable;
    hide RawEvents;
    hide LastExit;
    hide AheadOf;
    hide RunLength;
    hide RestsOn;
    hide RestPosition;
    hide RepeatedExit;
    hide IsFromCopy;
    hide ReloadOf;
    hide Pending;
    hide SyncFile.Reports;
    hide SyncFile.InRange;
    RepeatedExitReloads(file.points, raw, p);
    CanMove(file, raw, p);
    ghost var k := RunLength(raw.events);
    ghost var again := RawEvents(AheadOf(file.points, LastExit(file.points, p)));
    check := file.AdvanceTo(p);
    ReloadReported(file, raw, k, again, check);
  }

  /** What reporting the reloaded event means in each case. */
  lemma ReloadReported(file: SyncFile, raw: Raw, k: nat, again: Raw, check: Check)
    requires 1 <= k <= |raw.events| && again.events != []
    requires again.events[1..] == raw.events[k..] && again.ending == raw.ending
    requires RunLength(again.events) == 1 <==> ReloadOf(again) != Merged
    requires file.Reports(again, if check.Fail? then Failure(check.error) else Success(file.currentEvent), true)
    requires !again.events[0].isLastEvent
    ensures ReloadOf(again) in {Alone, PutBack} ==>
              && check == Pass && file.OnTrack() && file.currentEvent == again.events[0]
              && RawEvents(file.Future()) == Raw(raw.events[k..], raw.ending)
              && file.position == RestPosition(file.points, again.events, 1)
    ensures ReloadOf(again) == Thrown ==>
              file.OnTrack() && !file.currentEvent.isValid && raw.ending.Broken? && check == Fail(raw.ending.error)
    ensures ReloadOf(again) == Lost ==>
              check == Pass && file.LostTrack() && file.currentEvent == again.events[0]
  {
    hide SyncFile.Valid;
    hide SyncFile.OnTrack;
    hide SyncFile.Future;
    hide SyncFile.LostTrack;
    hide RawEvents;
    hide RestsBehind;
    hide Reopens;
    hide RestPosition;
    hide Pending;
    hide Joins;
  }
}
