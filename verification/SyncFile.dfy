/** The cursor over a version 3 synchronization trace and the aggregation of its points into events. */
module SyncFiles {
  import opened Bytes
  import opened StreamableFiles
  import opened SyncPoints
  import opened SyncRecordReader
  import opened SyncEvents
  import opened SyncTraces
  import opened SyncTraceFiles
  import opened EventParser
  import opened EventCoalescing

  /** The duplicate test on points with leftover vectors is the test on canonical points. */
  lemma SameCanonical(prev: Point, p: Point)
    requires p.IsInterrupt() || p.interruptVector == prev.interruptVector
    ensures prev.Same(p) <==> prev.Canonical().Same(p.Canonical())
  {
  }

  lemma EquivalentCanonical(p: Point, q: Point)
    ensures p.Equivalent(q) <==> p.Canonical().Equivalent(q.Canonical())
  {
  }

  // ---- Skipping to the first VMEXIT, step by step

  function FetchAtExit(ps: seq<Located>): Fetched {
    if FirstExit(ps) < |ps| then ParseEvent(ps[FirstExit(ps)..], false) else NoEvent
  }

  lemma FetchSkipping(ps: seq<Located>)
    ensures Fetch(ps) == if FirstExitMissing(ps) then ParseEvent(ps, true) else FetchAtExit(ps)
  {
    hide ParseEvent;
  }

  lemma FetchAtExitStep(ps: seq<Located>)
    requires ps != [] && !ps[0].point.IsVmExit()
    ensures FetchAtExit(ps) == FetchAtExit(ps[1..])
  {
    hide ParseEvent;
    assert ps[1..][FirstExit(ps[1..])..] == ps[1 + FirstExit(ps[1..])..];
  }

  lemma NoExitLeft(ps: seq<Located>)
    requires |ps| == 1 && !ps[0].point.IsVmExit()
    ensures FetchAtExit(ps) == NoEvent
  {
    assert ps[1..] == [];
  }

  lemma FetchedHere(all: seq<Located>, ps: seq<Located>)
    requires ps != []
    requires FirstExitMissing(all) ==> ps == all
    requires !FirstExitMissing(all) ==> ps[0].point.IsVmExit() && Fetch(all) == FetchAtExit(ps)
    ensures Fetch(all) == ParseEvent(ps, FirstExitMissing(all))
  {
    hide ParseEvent;
    assert ps[0..] == ps;
  }

  /** The last part of fetching: the new context, what the exit reason says about it, and the checks. */
  method FinishEvent(started: Event, current: Point, position: nat, ghost ps: seq<Located>, ghost m: nat)
    returns (r: Result<Event>)
    requires m < |ps| && ps[m] == Located(current.Canonical(), position) && !started.isLastEvent
    ensures match CloseEvent(started, ps, m)
            case Malformed(error, at) => r == Failure(error) && at == position
            case Fetched(e, rest, at) =>
              && r == Success(e) && rest == ps[m + 1..] && at == position && current.IsVmEnter()
              && e.position == started.position && !e.isLastEvent
            case NoEvent => false
  {
    var event := started.(newContext := ContextOf(current), rflags := current.rflags);
    if event.startReason == VMX_EXIT_IO_INSTR || event.startReason == VMX_EXIT_CPUID
       || event.startReason == VMX_EXIT_RDTSC || event.startReason == VMX_EXIT_RDTSCP
       || event.startReason == VMX_EXIT_RDMSR || event.startReason == VMX_EXIT_MOV_CRX
       || event.startReason == VMX_EXIT_EPT_MISCONFIG {
      event := event.(isInstructionEmulation := true);
    } else if event.startReason == VMX_EXIT_HLT {
      // a halt is never taken for an emulation
    } else if !event.isFirstEventContextUnknown && current.rip != event.startRip {
      event := event.(isInstructionEmulation := true);
    }
    if !current.IsVmEnter() {
      return Failure(ExitWithoutEnter(position));
    }
    var check := CheckSanity(event);
    if check.Fail? {
      return Failure(check.error);
    }
    r := Success(event.(isValid := true));
  }

  class SyncFile {
    const file: StreamableFile
    const dataFile: StreamableFile
    ghost const points: seq<Point>

    var current: Point
    var currentEvent: Event
    var position: uint64
    var recordSize: uint32
    var version: uint32
    var syncPointCount: nat

    ghost predicate Valid()
      reads this, file, dataFile
    {
      && file != dataFile
      && file.Valid() && dataFile.Valid() && file.isOpen
      && RECORD_FIELDS_SIZE <= recordSize == RecordSize(file.bytes) && version == SYNC_POINT_FILE_VERSION
      && Holds(file.bytes, dataFile.bytes, dataFile.isOpen, points)
      && PlausibleTrace(points)
      && syncPointCount == |points|
      && (currentEvent.isValid || currentEvent == DEFAULT_EVENT)
    }

    /** The data file has never been read past its end. */
    ghost predicate DataReadable()
      reads this, dataFile
    {
      dataFile.eof == !dataFile.isOpen
    }

    /** The stream stands behind the record at `position`. */
    ghost predicate Aligned()
      reads this, file, dataFile
    {
      Valid() && DataReadable() && file.Live() && file.offset == Offset(recordSize, position)
    }

    /** The cursor's position once the end of the file is met. */
    ghost function EndPosition(): nat
      reads this`position
    {
      if position <= |points| then |points| else position
    }

    /**
     * The cursor invariant: at the end with every record counted, or aligned with the records and holding
     * either the record at `position` or, after a seek, no point yet.
     */
    ghost predicate OnTrack()
      reads this, file, dataFile
    {
      && Valid() && DataReadable()
      && (file.eof ==> current.Canonical() == END_POINT && |points| <= position)
      && (!file.eof ==>
            && Aligned()
            && (current == DEFAULT_POINT
                || (1 <= position <= |points| && current.Canonical() == points[position - 1])))
    }

    /** The points that further calls of Next deliver. */
    ghost function Future(): seq<Located>
      reads this, file, dataFile
      requires OnTrack()
    {
      if file.eof then []
      else if current.IsValid() then Rest(points, position)
      else From(points, position)
    }

    /** The current point and those after it. */
    ghost function Ahead(): seq<Located>
      reads this, file, dataFile
      requires OnTrack()
    {
      [Located(current.Canonical(), position)] + Future()
    }

    /** Opens a trace whose header was recognised; the data file may be missing. */
    constructor (contents: seq<byte>, data: Option<seq<byte>>, ghost pts: seq<Point>)
      requires Openable(contents, data, pts)
      ensures fresh(file) && fresh(dataFile) && points == pts && file.bytes == contents
      ensures OnTrack() && !file.eof && position == 0 && current == DEFAULT_POINT
      ensures Future() == Dedup(points)
      ensures !currentEvent.isValid
    {
      file := new StreamableFile(contents);
      if data.Some? {
        dataFile := new StreamableFile(data.value);
      } else {
        dataFile := new StreamableFile.Closed();
      }
      points := pts;
      current, currentEvent := DEFAULT_POINT, DEFAULT_EVENT;
      position := 0;
      recordSize, version, syncPointCount := 0, 0, 0;
      new;
      hide Openable;
      Load(data);
    }

    /** Reads both headers and counts the records. */
    method Load(ghost data: Option<seq<byte>>)
      requires file != dataFile && file.Live() && file.isOpen && file.offset == 0
      requires dataFile.bytes == data.GetOr([]) && dataFile.isOpen == data.Some?
      requires dataFile.Valid() && (dataFile.isOpen ==> dataFile.Live() && dataFile.offset == 0)
      requires Openable(file.bytes, data, points)
      requires current == DEFAULT_POINT && position == 0 && currentEvent == DEFAULT_EVENT
      modifies this`version, this`recordSize, this`syncPointCount, file, dataFile
      ensures OnTrack() && !file.eof
      ensures recordSize == RecordSize(file.bytes) && syncPointCount == |points|
    {
      hide Holds;
      hide Offset;
      hide PlausibleTrace;
      hide RecordSize;
      hide OnTrack;
      HoldsSize(file.bytes, dataFile.bytes, dataFile.isOpen, points);
      var status;
      status, version, recordSize := ReadHeader(file);
      assert status == Recognised;
      syncPointCount := CountRecords(file, recordSize);
      CountIsUnique(recordSize, |points|, syncPointCount);
      file.Seek(HEADER_SIZE);
      status := ReadDataHeader(file, dataFile);
      assert status == Recognised;
      OffsetZero(recordSize);
      Landed();
    }

    /** One iteration of the reading loop: exactly one record's worth of bytes, padding included. */
    method ReadPoint()
      requires Valid()
      modifies this`current, file, dataFile
      ensures Valid()
      ensures var r := RecordAt(file.bytes, old(file.offset), dataFile.bytes, !old(dataFile.eof));
              current == Decode(r, old(current.interruptVector))
      ensures file.Consumed(recordSize)
      ensures var dataOffset := DataOffsetAt(file.bytes, old(file.offset));
              if dataOffset != 0 && !old(dataFile.eof)
              then dataFile.eof == (|dataFile.bytes| < BlocksEnd(dataFile.bytes, dataOffset))
              else dataFile.eof == old(dataFile.eof)
      ensures dataFile.isOpen == old(dataFile.isOpen)
    {
      hide Holds;
      hide PlausibleTrace;
      hide RecordSize;
      hide DataOffsetAt;
      hide RecordAt;
      hide Decode;
      hide BlocksAt;
      hide BlocksEnd;
      RecordData(file.bytes, file.offset, dataFile.bytes, !dataFile.eof);
      var r, dataOffset := ReadFields(file);
      SkipPadding(file, recordSize - RECORD_FIELDS_SIZE);
      if dataOffset != 0 && !dataFile.eof {
        var data := ReadBlocks(dataFile, dataOffset);
        r := r.(data := data);
      }
      current := Decode(r, current.interruptVector);
    }

    /**
     * The cursor after the position argument of a seek wrapped around: s records in front of the first
     * one, inside the header, or refused by the stream when the header is too short for that.
     */
    ghost predicate Wrapped(s: int)
      reads this, file, dataFile
    {
      && Valid() && points != [] && !file.eof
      && -2 <= s <= 0 && position == (s + TWO_TO_THE_64) % TWO_TO_THE_64
      && if recordSize <= 512
         then file.Live() && file.offset == HEADER_SIZE + recordSize * s
         else file.fail && s == -2
    }

    /** The cursor on its way through the header, skipping points equal to the default one. */
    ghost predicate Wrapping(prev: Point, s: int)
      reads this, file, dataFile
    {
      && Wrapped(s) && prev == DEFAULT_POINT && prev.Same(current)
      && (if s == -2 then DataReadable() else !BlankHeader(file.bytes))
    }

    /** The stream refused a seek: every read gives zeros and the end of the file is never met. */
    ghost predicate Refused()
      reads this, file, dataFile
    {
      Valid() && !file.eof && file.fail && current.Canonical() == END_POINT
    }

    /** In a blank header, s records in front of the first one, on a point of zeros. */
    ghost predicate Restarting(s: int)
      reads this, file, dataFile
    {
      && -1 <= s <= 0 && Wrapped(s) && DataReadable() && BlankHeader(file.bytes)
      && current.Canonical() == END_POINT
    }

    /**
     * Away from every position of the trace an event could leave the cursor at: stuck on a refused seek
     * if the header is too short for two records, in front of the whole trace if the header is blank.
     */
    ghost predicate LostTrack()
      reads this, file, dataFile
    {
      && Valid() && points != [] && !file.eof
      && (position <= 1 || (position == TWO_TO_THE_64 - 1 && (Refused() || Wrapped(-1))))
      && (512 < recordSize ==> Refused())
      && (BlankHeader(file.bytes) ==> Restarting(-1))
    }

    /** What one iteration of the loop that skips duplicates does, in bytes. */
    twostate predicate Iterated()
      reads this, file, dataFile
    {
      && Valid()
      && current == Decode(RecordAt(file.bytes, old(file.offset), dataFile.bytes, !old(dataFile.eof)),
                           old(current.interruptVector))
      && file.Consumed(recordSize)
      && position == (if file.eof then old(position) else (old(position) + 1) % TWO_TO_THE_64)
      && recordSize == old(recordSize)
      && dataFile.isOpen == old(dataFile.isOpen)
      && var dataOffset := DataOffsetAt(file.bytes, old(file.offset));
         if dataOffset != 0 && !old(dataFile.eof)
         then dataFile.eof == (|dataFile.bytes| < BlocksEnd(dataFile.bytes, dataOffset))
         else dataFile.eof == old(dataFile.eof)
    }

    twostate lemma IteratedInTrace()
      requires old(Aligned()) && Iterated() && old(position) < |points|
      ensures OnTrack() && !file.eof && position == old(position) + 1
      ensures current.Canonical() == points[old(position)]
      ensures current.IsInterrupt() || current.interruptVector == old(current.interruptVector)
    {
      hide Holds;
      hide PlausibleTrace;
      hide RecordAt;
      hide Decode;
      hide Offset;
      HoldsSize(file.bytes, dataFile.bytes, dataFile.isOpen, points);
      RecordInTrace(file.bytes, dataFile.bytes, dataFile.isOpen, points, old(position), old(current.interruptVector));
    }

    twostate lemma IteratedBehindTrace()
      requires old(OnTrack()) && !old(file.eof) && Iterated() && |points| <= old(position)
      ensures OnTrack() && file.eof && position == old(position)
    {
      hide Holds;
      hide PlausibleTrace;
      hide RecordAt;
      hide Decode;
      hide Offset;
      HoldsSize(file.bytes, dataFile.bytes, dataFile.isOpen, points);
      OffsetMonotone(recordSize, |points|, old(position));
      RecordBehindTrace(file.bytes, dataFile.bytes, dataFile.isOpen, old(file.offset), old(current.interruptVector));
    }

    /** A reader on its way to the next different point: `future` is still to come. */
    ghost predicate Skipping(prev: Point, future: seq<Located>)
      reads this, file, dataFile
    {
      OnTrack() && !file.eof && prev.Same(current) && Future() == future
    }

    /** The head of `future` was delivered; or, if there is none, the end was met with all records counted. */
    ghost predicate Delivered(future: seq<Located>, start: nat)
      reads this, file, dataFile
    {
      && OnTrack()
      && if future == []
         then file.eof && position == (if start <= |points| then |points| else start)
         else !file.eof && current.IsValid() && start < position
              && Located(current.Canonical(), position) == future[0] && Future() == future[1..]
    }

    /** The current point has been passed; at the end there is an invalid point instead of a next one. */
    ghost predicate Advanced(ahead: seq<Located>)
      reads this, file, dataFile
    {
      && OnTrack() && ahead != []
      && (current.IsValid() <==> |ahead| > 1)
      && (current.IsValid() ==> !file.eof && Ahead() == ahead[1..])
      && (!current.IsValid() ==> file.eof && Future() == [])
    }

    lemma DeliveredAdvances(ahead: seq<Located>, start: nat)
      requires ahead != [] && Delivered(ahead[1..], start)
      ensures Advanced(ahead)
    {
      hide Valid;
      hide Rest;
      hide From;
      if |ahead| > 1 {
        assert Ahead() == [ahead[1..][0]] + ahead[1..][1..] == ahead[1..];
      }
    }

    lemma DeliveredKeepsEnd(future: seq<Located>, start: nat)
      requires Delivered(future, start)
      ensures EndPosition() == if start <= |points| then |points| else start
    {
      hide Holds;
      hide PlausibleTrace;
    }

    /** An iteration on the way: an equal record is dropped from the future, a different one is its head. */
    twostate lemma SkipOnTrack(prev: Point)
      requires old(OnTrack()) && !old(file.eof) && prev.Same(old(current)) && Iterated()
      ensures !file.eof && prev.Same(current) ==>
                Skipping(prev, old(Future())) && position == old(position) + 1 <= |points|
      ensures file.eof || !prev.Same(current) ==> Delivered(old(Future()), old(position))
    {
      hide Holds;
      hide Offset;
      hide RecordAt;
      hide Decode;
      if old(position) < |points| {
        IteratedInTrace();
        SameCanonical(prev, old(current));
        SameCanonical(prev, current);
        assert Plausible(points[old(position)]);
      } else {
        IteratedBehindTrace();
      }
    }

    /** In front of the first record: the header's bytes are read as records. */
    twostate lemma IteratedInHeader(s: int)
      requires old(Wrapped(s)) && s < 0 && recordSize <= 512 && Iterated()
      ensures Wrapped(s + 1)
    {
      hide Holds;
      hide RecordAt;
      hide Decode;
      hide Offset;
      hide BlankHeader;
      HoldsSize(file.bytes, dataFile.bytes, dataFile.isOpen, points);
      assert s == -2 || s == -1;
    }

    twostate lemma IteratedIntoTrace()
      requires old(Wrapped(0)) && recordSize <= 512 && Iterated()
      ensures !file.eof && position == 1 && current.IsValid()
    {
      hide Holds;
      hide RecordAt;
      hide Decode;
      hide BlankHeader;
      HoldsSize(file.bytes, dataFile.bytes, dataFile.isOpen, points);
      OffsetMonotone(recordSize, 1, |points|);
      FirstRecordIsValid(file.bytes, dataFile.bytes, dataFile.isOpen, !old(dataFile.eof),
                         old(current.interruptVector), points);
    }

    /** A blank header reads as points of zeros. */
    twostate lemma IteratedInBlank(s: int)
      requires old(Wrapped(s)) && s < 0 && old(DataReadable()) && BlankHeader(file.bytes) && Iterated()
      ensures Wrapped(s + 1) && DataReadable()
      ensures current.Canonical() == END_POINT && current.interruptVector == old(current.interruptVector)
    {
      hide Holds;
      hide RecordAt;
      hide Decode;
      hide Offset;
      IteratedInHeader(s);
      RecordInHeader(file.bytes, dataFile.bytes, !old(dataFile.eof), old(file.offset), old(current.interruptVector));
    }

    /** The stream refused the seek: reads give zeros and never meet the end. */
    twostate lemma IteratedRefused()
      requires old(Valid()) && old(file.fail) && !old(file.eof) && Iterated()
      ensures Refused() && current.interruptVector == old(current.interruptVector)
    {
      hide Holds;
      hide Offset;
      hide BlankHeader;
      RecordBehindTrace(file.bytes, dataFile.bytes, !old(dataFile.eof), old(file.offset), old(current.interruptVector));
    }

    /** A wrapped cursor stays outside, and an iteration from -2 on can only go on towards the first record. */
    twostate lemma IteratedWrapped(s: int)
      requires old(Wrapping(DEFAULT_POINT, s)) && Iterated()
      ensures DEFAULT_POINT.Same(current) && !file.eof ==> s < 0 && Wrapping(DEFAULT_POINT, s + 1)
      ensures file.eof || !DEFAULT_POINT.Same(current) ==> LostTrack()
    {
      hide Valid;
      hide BlankHeader;
      hide RecordSize;
      hide RecordAt;
      hide Decode;
      WrappedSize(s);
      if 512 < recordSize {
        BlankHeaderFits(file.bytes);
        IteratedRefused();
      } else if s < 0 {
        IteratedThroughHeader(s);
      } else {
        IteratedIntoTrace();
      }
    }

    twostate lemma IteratedThroughHeader(s: int)
      requires old(Wrapping(DEFAULT_POINT, s)) && s < 0 && recordSize <= 512 && Iterated()
      ensures !file.eof
      ensures DEFAULT_POINT.Same(current) ==> Wrapping(DEFAULT_POINT, s + 1)
      ensures !DEFAULT_POINT.Same(current) ==> LostTrack()
    {
      hide Iterated;
      hide Valid;
      hide DataReadable;
      hide BlankHeader;
      hide Refused;
      IteratedInHeader(s);
      if s == -2 && BlankHeader(file.bytes) {
        IteratedInBlank(s);
      }
    }

    twostate lemma WrappedSize(s: int)
      requires old(Wrapped(s)) && Iterated()
      ensures old(Valid()) && Valid() && !old(file.eof) && recordSize == RecordSize(file.bytes)
    {
      hide Holds;
      hide PlausibleTrace;
      hide RecordSize;
    }

    /** Through the rest of a blank header to the first record. */
    twostate lemma IteratedRestart(s: int)
      requires old(Restarting(s)) && Iterated()
      ensures s < 0 ==> Restarting(s + 1) && current.interruptVector == old(current.interruptVector)
      ensures s == 0 ==> Delivered(Dedup(points), 0)
    {
      hide RecordAt;
      hide Decode;
      BlankHeaderFits(file.bytes);
      hide BlankHeader;
      WrappedSize(s);
      if s < 0 {
        hide Valid;
        IteratedInBlank(s);
      } else {
        OffsetZero(recordSize);
        hide Offset;
        hide RecordSize;
        hide Holds;
        IteratedInTrace();
        hide Iterated;
        RestartDelivers();
      }
    }

    lemma RestartDelivers()
      requires OnTrack() && !file.eof && position == 1 && points != [] && current.Canonical() == points[0]
      ensures Delivered(Dedup(points), 0)
    {
      hide Rest;
      hide Holds;
      FirstIsPlausible(points);
    }

    /** Reads a record and counts it. */
    method Iterate()
      requires Valid()
      modifies this`current, this`position, file, dataFile
      ensures Iterated()
    {
      hide Holds;
      hide PlausibleTrace;
      hide RecordAt;
      hide Decode;
      ReadPoint();
      if !file.eof {
        position := (position + 1) % TWO_TO_THE_64;
      }
    }

    /** One iteration of the loop in Next. */
    method ReadAndCompare(prev: Point, ghost future: seq<Located>, ghost s: int) returns (more: bool)
      requires Skipping(prev, future) || Wrapping(prev, s) || ((Restarting(s) || Refused()) && prev.Same(current))
      modifies this`current, this`position, file, dataFile
      ensures Valid()
      ensures old(Skipping(prev, future)) ==>
                if more then Skipping(prev, future) && old(position) < position <= |points|
                else Delivered(future, old(position))
      ensures old(Wrapping(prev, s)) ==> if more then s < 0 && Wrapping(prev, s + 1) else LostTrack()
      ensures old(Restarting(s)) && prev.Same(old(current)) ==>
                if more then s < 0 && Restarting(s + 1) && prev.Same(current) else Delivered(Dedup(points), 0)
      // after a refused seek the loop goes on
      ensures old(Refused()) && prev.Same(old(current)) ==> more && Refused() && prev.Same(current)
    {
      hide Holds;
      hide RecordAt;
      hide Decode;
      hide From;
      hide BlankHeader;
      hide PlausibleTrace;
      ghost var skipping, wrapping := Skipping(prev, future), Wrapping(prev, s);
      ghost var restarting, refused := Restarting(s) && prev.Same(current), Refused() && prev.Same(current);
      Iterate();
      more := prev.Same(current) && !file.eof;
      IteratedIsValid();
      hide Iterated;
      hide Valid;
      hide Future;
      hide LostTrack;
      hide Delivered;
      if skipping {
        SkipOnTrack(prev);
      }
      if wrapping {
        IteratedWrapped(s);
      }
      if restarting {
        IteratedRestart(s);
      }
      if refused {
        IteratedRefused();
      }
    }

    twostate lemma IteratedIsValid()
      requires Iterated()
      ensures Valid()
    {
      hide Valid;
    }

    /**
     * The next point that differs from the current one. After a refused seek there is none, and the loop
     * does not end.
     */
    method Next() returns (p: Point)
      requires OnTrack() || (Wrapping(DEFAULT_POINT, -2) && current == DEFAULT_POINT) || Restarting(-1)
      modifies this`current, this`currentEvent, this`position, file, dataFile
      ensures Valid() && p == current
      // at the end of the file nothing happens
      ensures old(file.eof) ==>
                OnTrack() && file.eof
                && current == old(current) && position == old(position) && currentEvent == old(currentEvent)
      ensures !old(file.eof) ==> !currentEvent.isValid
      ensures old(OnTrack() && !file.eof) ==> Delivered(old(Future()), old(position))
      ensures old(OnTrack()) ==> Advanced(old(Ahead())) && EndPosition() == old(EndPosition())
      // outside of the trace
      ensures old(Wrapping(DEFAULT_POINT, -2) && current == DEFAULT_POINT) ==> LostTrack()
      ensures old(Restarting(-1)) ==> Delivered(Dedup(points), 0)
    {
      hide Valid;
      hide OnTrack;
      hide Future;
      hide LostTrack;
      hide Restarting;
      hide Wrapping;
      NotAtEndOffTrack();
      if file.eof {
        EndAdvances();
        return current;
      }
      var prev := current;
      ghost var tracked, start := OnTrack(), position;
      ghost var future, ahead := if tracked then Future() else [], if tracked then Ahead() else [];
      ghost var wrapping := Wrapping(DEFAULT_POINT, -2) && current == DEFAULT_POINT;
      ghost var restarting, s := Restarting(-1), if wrapping then -2 else -1;
      var more := true;
      while more
        invariant Valid()
        invariant tracked && more ==> Skipping(prev, future) && (position == start || start < position <= |points|)
        invariant tracked && !more ==> Delivered(future, start)
        invariant wrapping && more ==> Wrapping(prev, s) && s <= 0
        invariant wrapping && !more ==> LostTrack()
        invariant restarting && more ==> Restarting(s) && prev.Same(current) && s <= 0
        invariant restarting && !more ==> Delivered(Dedup(points), 0)
        decreases if !more then 0
                  else if !tracked then 1 - s
                  else if position <= |points| then 1 + |points| - position else 1
      {
        more := ReadAndCompare(prev, future, s);
        s := s + 1;
      }
      if currentEvent.isValid {
        ForgetEvent();
      }
      if tracked {
        DeliveredAdvances(ahead, start);
        DeliveredKeepsEnd(future, start);
      }
      p := current;
    }

    lemma EndAdvances()
      requires OnTrack() && file.eof
      ensures Advanced(Ahead())
    {
      hide Valid;
    }

    lemma NotAtEndOffTrack()
      ensures OnTrack() || Wrapping(DEFAULT_POINT, -2) || Restarting(-1) ==> Valid()
      ensures Wrapping(DEFAULT_POINT, -2) || Restarting(-1) ==> !file.eof
      ensures Wrapping(DEFAULT_POINT, -2) ==> !Restarting(-1)
    {
      hide Valid;
    }

    method ForgetEvent()
      requires Valid()
      modifies this`currentEvent
      ensures Valid() && !currentEvent.isValid
      ensures (OnTrack() <==> old(OnTrack())) && (LostTrack() <==> old(LostTrack()))
      ensures OnTrack() ==> Future() == old(Future())
    {
      currentEvent := DEFAULT_EVENT;
      OtherEvent();
      hide Valid;
      hide OnTrack;
      hide Future;
      hide LostTrack;
    }

    /** Changing the cache moves nothing. */
    twostate lemma OtherEvent()
      requires old(Valid()) && (currentEvent.isValid || currentEvent == DEFAULT_EVENT)
      requires current == old(current) && position == old(position) && recordSize == old(recordSize)
      requires version == old(version) && syncPointCount == old(syncPointCount) && unchanged(file, dataFile)
      ensures Valid() && (OnTrack() <==> old(OnTrack())) && (LostTrack() <==> old(LostTrack()))
      ensures OnTrack() ==> Future() == old(Future())
    {
      hide Holds;
      hide PlausibleTrace;
      hide Rest;
      hide From;
      hide Offset;
      hide BlankHeader;
    }

    /** Positions whose record lies at a file offset that a seek accepts, in the trace or behind it. */
    ghost predicate InRange(p: nat)
      reads this`recordSize
    {
      p == 0 || Offset(recordSize, p - 1) < TWO_TO_THE_63
    }

    /** A stream put behind the record at a position, with no point held yet. */
    lemma Landed()
      requires Valid() && DataReadable() && current == DEFAULT_POINT && file.Live()
      requires file.offset == Offset(recordSize, position)
      ensures OnTrack() && !file.eof && Future() == From(points, position)
    {
      hide Valid;
      hide From;
      hide Rest;
    }

    /** The stream after the seek to the last position of all. */
    lemma LandedOffTrack()
      requires Valid() && DataReadable() && current == DEFAULT_POINT && !file.eof && points != []
      requires position == TWO_TO_THE_64 - 2
      requires if recordSize <= 512 then file.Live() && file.offset == HEADER_SIZE - 2 * recordSize else file.fail
      ensures Wrapping(DEFAULT_POINT, -2)
    {
      hide Valid;
    }

    /** Moves the cursor and reads the record there, whatever came before. */
    method Seek(p: uint64)
      requires Valid() && DataReadable()
      requires InRange(p) || (p == TWO_TO_THE_64 - 1 && points != [])
      modifies this`current, this`currentEvent, this`position, file, dataFile
      ensures Valid()
      ensures p == 0 ==>
                && OnTrack() && !file.eof && current == DEFAULT_POINT && position == 0 && Future() == Dedup(points)
                && currentEvent == old(currentEvent)
      ensures 1 <= p <= |points| ==> At(p)
      ensures InRange(p) && |points| < p ==> OnTrack() && file.eof && position == p - 1 && !currentEvent.isValid
      ensures p == TWO_TO_THE_64 - 1 ==> LostTrack() && !currentEvent.isValid
    {
      hide Holds;
      hide Offset;
      hide PlausibleTrace;
      hide Rest;
      HoldsSize(file.bytes, dataFile.bytes, dataFile.isOpen, points);
      OffsetZero(recordSize);
      if p == 0 {
        current := DEFAULT_POINT;
        file.Seek(HEADER_SIZE);
        position := 0;
        Landed();
        return;
      }
      hide OnTrack;
      hide Wrapping;
      hide LostTrack;
      hide Restarting;
      position := p - 1;
      file.Seek(Offset(recordSize, position) % TWO_TO_THE_64);
      current := DEFAULT_POINT;
      if p == TWO_TO_THE_64 - 1 {
        WrapOffset(recordSize);
        OffsetAtLeast(recordSize, p - 1);
        LandedOffTrack();
      } else {
        SmallRemainder(Offset(recordSize, position));
        Landed();
      }
      hide Valid;
      hide Future;
      var _ := Next();
      if 1 <= p <= |points| {
        AtRecord(p);
      }
    }

    /** The cursor has just been moved to a record of the trace. */
    ghost predicate At(p: nat)
      reads this, file, dataFile
    {
      && 1 <= p <= |points|
      && OnTrack() && !file.eof && position == p && current.Canonical() == points[p - 1]
      && Future() == Rest(points, p) && Ahead() == AheadOf(points, p)
      && !currentEvent.isValid
    }

    /** What Next delivers right after landing in front of the record at p is that record. */
    lemma AtRecord(p: nat)
      requires 1 <= p <= |points| && Delivered(From(points, p - 1), p - 1) && !currentEvent.isValid
      ensures At(p)
    {
      ValidCursor();
      hide Valid;
      hide OnTrack;
      hide Future;
      hide Rest;
    }

    /** How fetching the next raw event ends: the result, and where the cursor is then. */
    ghost predicate FetchedAs(f: Fetched, r: Result<Event>)
      reads this, file, dataFile
    {
      && OnTrack()
      && match f
         case NoEvent => r == Success(DEFAULT_EVENT) && file.eof
         case Malformed(error, at) => r == Failure(error) && !file.eof && position == at
         case Fetched(e, rest, at) =>
           && r == Success(e) && Future() == rest
           && (e.isLastEvent <==> file.eof)
           && (!e.isLastEvent ==> position == at && current.IsVmEnter())
           && (!e.isLastEvent ==> 1 <= position && (e.position == 1 || (2 <= position && current.IsValid())))
    }

    lemma FetchedOnTrack(f: Fetched, r: Result<Event>)
      requires FetchedAs(f, r)
      ensures OnTrack()
    {
      hide OnTrack;
    }

    lemma AsTruncated(e: Event)
      requires OnTrack() && file.eof && Future() == []
      ensures FetchedAs(Truncate(e), Success(e.(isLastEvent := true, isValid := true)))
    {
    }

    lemma AsMalformed(error: Error)
      requires OnTrack() && current.IsValid()
      ensures FetchedAs(Malformed(error, position), Failure(error))
    {
    }

    /** At the end of the file the cursor is at its last position. */
    lemma AtEnd()
      requires OnTrack() && file.eof
      ensures position == EndPosition()
    {
      hide Valid;
    }

    /** The cursor is on the point at index m of the event being fetched. */
    ghost predicate Fetching(e: Event, ps: seq<Located>, m: nat)
      reads this, file, dataFile
    {
      && OnTrack() && !file.eof && m < |ps| && Ahead() == ps[m..] && !e.isLastEvent
      && 1 <= position && (e.position == 1 || (2 <= position && current.IsValid()))
    }

    method FinishFetching(event: Event, ghost ps: seq<Located>, ghost m: nat) returns (r: Result<Event>)
      requires Fetching(event, ps, m)
      ensures FetchedAs(CloseEvent(event, ps, m), r)
    {
      CursorAt(ps, m);
      hide Valid;
      hide OnTrack;
      hide Future;
      r := FinishEvent(event, current, position, ps, m);
      hide CloseEvent;
    }

    /** The part of fetching behind the VMEXIT: interrupts and the closing VMENTER. */
    method FetchBody(started: Event, ghost ps: seq<Located>, ghost k: nat) returns (r: Result<Event>)
      requires Fetching(started, ps, k)
      modifies this`current, this`currentEvent, this`position, file, dataFile
      ensures FetchedAs(ParseBody(started, ps, k), r)
      ensures EndPosition() == old(EndPosition())
      ensures !old(currentEvent.isValid) ==> !currentEvent.isValid
    {
      hide Valid;
      hide OnTrack;
      hide Future;
      hide CloseEvent;
      hide FetchedAs;
      hide Point.Equivalent;
      ghost var m := k;
      CursorAt(ps, m);
      var event := started.(data := started.data + current.data);

      // an interrupt was injected on the way back to the guest
      if current.IsInterrupt() {
        event := event.(hasInterrupt := true,
                        interruptVector := current.interruptVector,
                        interruptRip := current.rip,
                        faultErrorCode := current.faultErrorCode);
        var interruptPoint := current;
        var _ := Next();
        m := m + 1;
        if !current.IsValid() {
          AsTruncated(event);
          return Success(event.(isLastEvent := true, isValid := true));
        }
        CursorAt(ps, m);
        EquivalentCanonical(current, interruptPoint);
        // the recorder may write one interrupt as two points; the second has to agree with the first
        if current.IsInterrupt() {
          if !current.Equivalent(interruptPoint) {
            AsMalformed(DuplicateInterruptDiffers(position));
            return Failure(DuplicateInterruptDiffers(position));
          }
          var _ := Next();
          m := m + 1;
          if !current.IsValid() {
            AsTruncated(event);
            return Success(event.(isLastEvent := true, isValid := true));
          }
          CursorAt(ps, m);
          EquivalentCanonical(current, interruptPoint);
        }
        event := event.(data := event.data + current.data);
        if !current.Equivalent(interruptPoint) {
          AsMalformed(ContextDiffers(position));
          return Failure(ContextDiffers(position));
        }
      }
      r := FinishFetching(event, ps, m);
    }

    /** A VMEXIT is either a point of the trace or the zeros read at the end of the file. */
    lemma ExitIsEndOrValid()
      requires OnTrack()
      ensures file.eof ==> current.IsVmExit() && !current.IsValid()
      ensures !file.eof && current.IsVmExit() ==> current.IsValid() && 1 <= position
    {
      hide Holds;
      hide RecordSize;
      assert 1 <= position <= |points| ==> points[position - 1] in points;
    }

    lemma ValidCursor()
      requires OnTrack() && current.IsValid()
      ensures !file.eof && 1 <= position <= |points|
      ensures Future() == Rest(points, position) && Ahead() == AheadOf(points, position)
      ensures Plausible(current.Canonical()) && current.Canonical() == points[position - 1]
    {
      hide Holds;
      hide Rest;
      hide RecordSize;
    }

    lemma CursorAt(ps: seq<Located>, m: nat)
      requires OnTrack() && m < |ps|
      requires Ahead() == ps[m..] || (m > 0 && Ahead() == ps[m - 1..][1..])
      ensures Ahead() == ps[m..]
      ensures ps[m] == Located(current.Canonical(), position)
      ensures Future() == ps[m + 1..]
    {
      hide Valid;
      hide OnTrack;
      hide Future;
      if m > 0 {
        assert ps[m - 1..][1..] == ps[m..];
      }
      assert ps[m] == ps[m..][0];
      assert Future() == Ahead()[1..] == ps[m..][1..] == ps[m + 1..];
    }

    method FetchNewEvent() returns (r: Result<Event>)
      requires OnTrack()
      modifies this`current, this`currentEvent, this`position, file, dataFile
      ensures FetchedAs(Fetch(old(Ahead())), r)
      ensures EndPosition() == old(EndPosition()) && (file.eof ==> position == old(EndPosition()))
      ensures !old(currentEvent.isValid) ==> !currentEvent.isValid
    {
      hide Valid;
      hide OnTrack;
      hide Future;
      hide ParseBody;
      hide Fetch;
      hide FetchAtExit;
      FetchSkipping(Ahead());
      var event := DEFAULT_EVENT;
      ghost var all := Ahead();
      ghost var ps := all;

      // a trace that begins behind its first VMEXIT gets a made-up one
      var firstVmexitMissing := !current.IsVmExit() && position == 1;
      while !(current.IsVmExit() || firstVmexitMissing)
        invariant OnTrack() && Ahead() == ps
        invariant firstVmexitMissing ==> ps == all
        invariant firstVmexitMissing == FirstExitMissing(all)
        invariant !firstVmexitMissing ==> Fetch(all) == FetchAtExit(ps)
        invariant EndPosition() == old(EndPosition())
        invariant !old(currentEvent.isValid) ==> !currentEvent.isValid
        decreases |ps|
      {
        var _ := Next();
        if !current.IsValid() {
          NoExitLeft(ps);
          AtEnd();
          return Success(event);
        }
        FetchAtExitStep(ps);
        ps := ps[1..];
      }
      FetchedHere(all, ps);
      CursorAt(ps, 0);
      ExitIsEndOrValid();
      event := event.(position := position);
      if firstVmexitMissing {
        event := event.(isFirstEventContextUnknown := true,
                        startReason := VMX_EXIT_XCPT_OR_NMI,
                        isInstructionEmulation := true);
      } else {
        event := event.(startContext := ContextOf(current),
                        startRip := current.rip,
                        startReason := current.kind,
                        data := event.data + current.data);
        assert event.data == current.data;
      }
      if !firstVmexitMissing {
        var _ := Next();
        if !current.IsValid() {
          AtEnd();
          return Success(event.(isLastEvent := true, isValid := true));
        }
      }
      r := FetchBody(event, ps, Second(firstVmexitMissing));
      if file.eof {
        FetchedOnTrack(ParseBody(event, ps, Second(firstVmexitMissing)), r);
        AtEnd();
      }
    }

    /** Facts about what is in front of the cursor that come from the trace being plausible. */
    lemma FutureFacts()
      requires OnTrack()
      ensures InTrace(points, Future())
      ensures forall l <- Future() :: Plausible(l.point)
      ensures position != 0 ==> Later(Future())
    {
      hide Holds;
      hide Point.Same;
      hide RecordSize;
      if !file.eof {
        if current.IsValid() {
          RestInTrace(points, position);
          RestBounds(points, position);
        } else if position < |points| {
          RestBounds(points, position + 1);
          assert From(points, position) == AheadOf(points, position + 1);
        }
      }
    }

    /** What reporting the next event from a stream of raw events does. */
    ghost predicate Reports(raw: Raw, r: Result<Event>, revisitable: bool)
      reads this, file, dataFile
    {
      && Valid() && (r.Success? ==> currentEvent == r.value && currentEvent.isValid)
      && if raw.events == [] then
           && OnTrack()
           && match raw.ending
              case Clean => false
              // an exception before any event was complete
              case Broken(error) => !currentEvent.isValid && r == Failure(error)
              // no event: at the end of a trace of one point an event of zeros is made up
              case Strays => file.eof && position == 1 && r == Success(EventAtEnd(1))
         else
           var k := RunLength(raw.events);
           var merged := MergeRun(raw.events[..k]);
           if k < |raw.events| || !Pending(raw.events[k - 1]) then
             // the first maximal run, merged; the other raw events are still to come
             && OnTrack() && r == Success(merged)
             && RawEvents(Future()) == Raw(raw.events[k..], raw.ending) && Later(Future())
             && (merged.isLastEvent <==> file.eof)
             && (revisitable && !merged.isLastEvent ==> Revisitable(raw, merged))
           else if raw.ending.Broken? then
             // an exception while looking for an event to merge with
             OnTrack() && !currentEvent.isValid && r == Failure(raw.ending.error)
           else
             // no event to merge with: the event is reported but the cursor is lost
             LostTrack() && r == Success(merged)
    }

    /** The cursor rests right behind the reported event, which can be read again from its position on. */
    ghost predicate Revisitable(raw: Raw, e: Event)
      reads this, file, dataFile
    {
      && raw.events != [] && Reopens(points, e.position, raw, RunLength(raw.events) - 1)
      && RestsBehind(points, e.position, position)
      && position == RestPosition(points, raw.events, RunLength(raw.events))
    }

    /** The cursor is on the closing VMENTER of a complete event that may be merged with the next. */
    ghost predicate Behind(e: Event)
      reads this, file, dataFile
    {
      && !file.eof && current.IsVmEnter() && current.IsValid() && position != 1
      && !e.newContext.ValuesEquivalent(ZERO_CONTEXT)
    }

    /**
     * State of the merging loop after k raw events were merged into e. When reading started on a point
     * of the trace, the last of them can be found again from its position.
     */
    ghost predicate Merging(raw: Raw, k: nat, e: Event, revisitable: bool)
      reads this, file, dataFile
    {
      && OnTrack() && !currentEvent.isValid && e.isValid
      && 1 <= k <= |raw.events| && IsRun(raw.events[..k]) && e == MergeRun(raw.events[..k])
      && RawEvents(Future()) == Raw(raw.events[k..], raw.ending) && Later(Future())
      && (e.isLastEvent <==> file.eof)
      && (Pending(e) ==> Behind(e))
      && (revisitable ==> Reopens(points, e.position, raw, k - 1))
      && (revisitable && !e.isLastEvent ==>
            RestsBehind(points, e.position, position) && position == ClosingPosition(points, e.position))
    }

    /** A fetched event starts a run of its own. */
    lemma StartsMerging(ahead: seq<Located>, r: Result<Event>, revisitable: bool)
      requires FetchedAs(Fetch(ahead), r) && Fetch(ahead).Fetched? && !currentEvent.isValid
      requires ahead != [] && (ahead[0].point.IsVmExit() ==> Plausible(ahead[0].point))
      requires forall i | 0 < i < |ahead| :: Plausible(ahead[i].point)
      requires revisitable ==> InTrace(points, ahead)
      ensures Merging(RawEvents(ahead), 1, r.value, revisitable)
    {
      hide Valid;
      hide OnTrack;
      hide Future;
      hide Linked;
      hide Fetch;
      hide RestsBehind;
      RawFirst(ahead);
      FutureFacts();
      FetchedIsWhole(ahead);
      if Pending(r.value) {
        PlausiblePending(ahead);
      }
      RunOfOne(r.value, RawEvents(ahead).events);
      hide RawEvents;
      if revisitable {
        FetchReopens(points, ahead);
        if !r.value.isLastEvent {
          FetchInTrace(points, ahead);
        }
      }
    }

    lemma WhileMerging(raw: Raw, k: nat, e: Event, revisitable: bool)
      requires Merging(raw, k, e, revisitable)
      ensures OnTrack() && !currentEvent.isValid && e.isValid && Later(Future())
      ensures 1 <= k <= |raw.events| && IsRun(raw.events[..k]) && e == MergeRun(raw.events[..k])
      ensures RawEvents(Future()) == Raw(raw.events[k..], raw.ending)
      ensures Pending(e) ==> Behind(e) && !e.isLastEvent && Pending(raw.events[k - 1])
      ensures revisitable ==> Reopens(points, e.position, raw, k - 1)
      ensures revisitable && !e.isLastEvent ==> RestsBehind(points, e.position, position)
    {
      hide ClosingPosition;
      hide Valid;
      hide OnTrack;
      hide Future;
      hide RawEvents;
      hide RestsBehind;
      hide Reopens;
      hide IsRun;
      MergedLinks(raw.events, k);
      hide MergeRun;
    }

    /** Looking ahead skips the closing VMENTER and finds the next raw event. */
    lemma LooksAhead(e: Event)
      requires OnTrack() && Behind(e) && Later(Future())
      ensures Fetch(Ahead()) == Fetch(Future())
      ensures 1 <= position <= |points| && Future() == Rest(points, position)
      ensures InTrace(points, Future()) && forall l <- Future() :: Plausible(l.point)
      ensures Fetch(Future()).Fetched? ==> 1 <= Fetch(Future()).event.position
    {
      hide Valid;
      hide OnTrack;
      hide Future;
      hide RawEvents;
      ValidCursor();
      FutureFacts();
      FetchPastPoint(Located(current.Canonical(), position), Future());
      if Fetch(Future()).Fetched? {
        FetchReopens(points, Future());
      }
      hide Fetch;
    }

    /** The next raw event joins: one more is merged. */
    lemma Joined(raw: Raw, k: nat, e: Event, revisitable: bool, rest: seq<Located>, next: Event)
      requires FetchedAs(Fetch(rest), Success(next)) && !currentEvent.isValid
      requires 1 <= k <= |raw.events| && IsRun(raw.events[..k]) && e == MergeRun(raw.events[..k])
      requires Pending(e) && Joins(e, next) && !e.newContext.ValuesEquivalent(ZERO_CONTEXT)
      requires RawEvents(rest) == Raw(raw.events[k..], raw.ending)
      requires InTrace(points, rest) && forall l <- rest :: Plausible(l.point)
      ensures k < |raw.events|
      ensures Merging(raw, k + 1, next.(startContext := e.startContext), revisitable)
    {
      hide ClosingPosition;
      hide Valid;
      hide OnTrack;
      hide Future;
      hide Fetch;
      hide RestsBehind;
      RawFirst(rest);
      hide RawEvents;
      assert Fetch(rest).Fetched?;
      StartsMerging(rest, Success(next), true);
      var es := raw.events;
      assert es[k..][0] == es[k] && es[k..][1..] == es[k + 1..] && es[k..][0..] == es[k..];
      ExtendRun(es, k, next);
    }

    /** The event is final and the cursor where it will rest; only the cache is still to be filled. */
    ghost predicate Settled(raw: Raw, e: Event, revisitable: bool)
      reads this, file, dataFile
    {
      && e.isValid
      && if raw.events == [] then
           raw.ending == Strays && OnTrack() && file.eof && position == 1 && e == EventAtEnd(1)
         else
         var k := RunLength(raw.events);
         && e == MergeRun(raw.events[..k])
         && if k < |raw.events| || !Pending(raw.events[k - 1]) then
              && OnTrack() && RawEvents(Future()) == Raw(raw.events[k..], raw.ending) && Later(Future())
              && (e.isLastEvent <==> file.eof)
              && (revisitable && !e.isLastEvent ==> Revisitable(raw, e))
            else !raw.ending.Broken? && LostTrack()
    }

    /** The loop ends because the event cannot be merged with anything. */
    lemma SettlesBehindEvent(raw: Raw, k: nat, e: Event, revisitable: bool)
      requires Merging(raw, k, e, revisitable) && !Pending(e)
      ensures Settled(raw, e, revisitable)
    {
      hide ClosingPosition;
      hide Valid;
      hide OnTrack;
      hide Future;
      hide RawEvents;
      hide RestsBehind;
      MergedLinks(raw.events, k);
      hide Reopens;
      hide Later;
      FirstRunIs(raw.events, k);
    }

    /** Fills the cache. */
    method Publish(event: Event, ghost raw: Raw, ghost revisitable: bool) returns (r: Result<Event>)
      requires Settled(raw, event, revisitable)
      modifies this`currentEvent
      ensures Reports(raw, r, revisitable)
      ensures OnTrack() ==> old(OnTrack())
    {
      hide RawEvents;
      hide RestsBehind;
      hide RestPosition;
      hide Reopens;
      hide RunLength;
      hide MergeRun;
      hide Pending;
      currentEvent := event;
      r := Success(currentEvent);
      OtherEvent();
      hide OnTrack;
      hide Future;
      hide LostTrack;
      hide Valid;
    }

    /** The next raw event did not join and was put back: the cursor is in front of it. */
    lemma SettlesPutBack(raw: Raw, k: nat, e: Event, revisitable: bool, q: nat)
      requires At(q)
      requires 1 <= k < |raw.events| && IsRun(raw.events[..k]) && e == MergeRun(raw.events[..k])
      requires !Linked(raw.events[k - 1], raw.events[k]) && !e.isLastEvent && e.isValid
      requires Pending(raw.events[k - 1]) && raw.events[k].position == q + 1
      requires RawEvents(Rest(points, q)) == Raw(raw.events[k..], raw.ending) && Later(Rest(points, q))
      requires revisitable ==> Reopens(points, e.position, raw, k - 1) && RestsBehind(points, e.position, q)
      ensures Settled(raw, e, revisitable)
    {
      hide Valid;
      hide OnTrack;
      hide Future;
      hide RawEvents;
      hide RestsBehind;
      hide Linked;
      hide Reopens;
      hide Pending;
      hide Later;
      hide Ahead;
      hide AheadOf;
      FirstRunIs(raw.events, k);
      hide IsRun;
      hide RunLength;
      hide MergeRun;
    }

    /** There was no event to look at: the seek wrapped around. */
    lemma SettlesLost(raw: Raw, e: Event, revisitable: bool)
      requires LostTrack() && e.isValid
      requires raw.events != [] && IsRun(raw.events) && e == MergeRun(raw.events)
      requires Pending(raw.events[|raw.events| - 1]) && !raw.ending.Broken?
      ensures Settled(raw, e, revisitable)
    {
      hide Valid;
      hide Linked;
      assert raw.events[..|raw.events|] == raw.events;
      hide Reopens;
      hide Later;
      FirstRunIs(raw.events, |raw.events|);
    }

    lemma ThrowsFirst(ahead: seq<Located>, r: Result<Event>, revisitable: bool)
      requires FetchedAs(Fetch(ahead), r) && r.Failure? && !currentEvent.isValid
      ensures Reports(RawEvents(ahead), r, revisitable)
    {
      hide Valid;
      hide Fetch;
      RawFirst(ahead);
    }

    lemma ThrowsInLookahead(raw: Raw, r: Result<Event>, revisitable: bool)
      requires OnTrack() && !currentEvent.isValid
      requires raw.events != [] && IsRun(raw.events) && Pending(raw.events[|raw.events| - 1])
      requires raw.ending.Broken? && r == Failure(raw.ending.error)
      ensures Reports(raw, r, revisitable)
    {
      hide Linked;
      assert raw.events[..|raw.events|] == raw.events;
      FirstRunIs(raw.events, |raw.events|);
    }

    /** Facts about the stream an event is fetched from. */
    lemma AheadFacts()
      requires OnTrack() && !file.eof
      ensures Ahead()[0].point.IsVmExit() ==> Plausible(Ahead()[0].point)
      ensures forall i | 0 < i < |Ahead()| :: Plausible(Ahead()[i].point)
      ensures current.IsValid() ==> InTrace(points, Ahead())
    {
      hide Valid;
      hide OnTrack;
      hide Future;
      FutureFacts();
      ExitIsEndOrValid();
      if current.IsValid() {
        ValidCursor();
      }
      var ahead := Ahead();
      forall i | 0 < i < |ahead| ensures Plausible(ahead[i].point) {
        assert ahead[i] == Future()[i - 1];
      }
    }

    lemma TrackIsValid()
      requires OnTrack()
      ensures Valid() && DataReadable()
    {
    }

    lemma CanSeek(p: nat)
      requires Valid() && (p <= |points| || (p == TWO_TO_THE_64 - 1 && points != []))
      ensures InRange(p) || (p == TWO_TO_THE_64 - 1 && points != [])
      ensures |points| < TWO_TO_THE_63
    {
      hide Holds;
      hide Offset;
      hide PlausibleTrace;
      HoldsSize(file.bytes, dataFile.bytes, dataFile.isOpen, points);
      if 0 < p <= |points| {
        OffsetMonotone(recordSize, p - 1, |points|);
      }
    }

    /** Off the trace, the cursor can only be aligned with a record again on the way into the first. */
    lemma LostIsOffTrack()
      requires LostTrack() && OnTrack()
      ensures position <= |points|
    {
      hide Holds;
      hide PlausibleTrace;
      hide BlankHeader;
      OffsetAtLeast(recordSize, position);
      hide Offset;
    }

    /** Undoes the lookahead by a seek in front of the event it found, or off the file if it found none. */
    method SeekBack(next: Event, ghost raw: Raw, ghost k: nat, ghost e: Event, ghost revisitable: bool,
                    ghost rest: seq<Located>, ghost at: nat)
      requires OnTrack() && !currentEvent.isValid && FetchedAs(Fetch(rest), Success(next))
      requires 1 <= at <= |points| && rest == Rest(points, at)
      requires Fetch(rest).Fetched? ==> 1 <= next.position
      requires 1 <= k <= |raw.events| && IsRun(raw.events[..k]) && e == MergeRun(raw.events[..k])
      requires !e.isLastEvent && e.isValid && Pending(e) && !Joins(e, next)
      requires RawEvents(rest) == Raw(raw.events[k..], raw.ending)
      requires revisitable ==> Reopens(points, e.position, raw, k - 1) && RestsBehind(points, e.position, at)
      modifies this`current, this`currentEvent, this`position, file, dataFile
      ensures Settled(raw, e, revisitable) && (OnTrack() ==> position <= |points|)
    {
      hide Valid;
      hide OnTrack;
      hide Future;
      hide RawEvents;
      hide Fetch;
      hide RestsBehind;
      hide Reopens;
      hide Settled;
      hide Later;
      hide Rest;
      hide InRange;
      RawFirst(rest);
      MergedLinks(raw.events, k);
      TrackIsValid();
      hide MergeRun;
      ghost var lost := Fetch(rest) == NoEvent;
      if lost {
        assert raw.events[..k] == raw.events;
        CanSeek(TWO_TO_THE_64 - 1);
      } else {
        PutBack(points, at, next.position - 1);
        CanSeek(next.position - 1);
        assert raw.events[k..][0] == raw.events[k] == next;
      }
      Seek((next.position + TWO_TO_THE_64 - 1) % TWO_TO_THE_64);
      if lost {
        SettlesLost(raw, e, revisitable);
        if OnTrack() {
          LostIsOffTrack();
        }
      } else {
        SettlesPutBack(raw, k, e, revisitable, next.position - 1);
      }
    }

    /** At the end of the file, k iterations after the first fetch found no event. */
    ghost predicate Straying(k: nat, e: Event)
      reads this, file, dataFile
    {
      OnTrack() && file.eof && !currentEvent.isValid && e == MergedAtEnd(position, k)
    }

    lemma EndIsAhead()
      requires OnTrack() && file.eof
      ensures Ahead() == [Located(END_POINT, position)]
    {
      hide Valid;
    }

    lemma NotAtEnd(e: Event)
      requires OnTrack() && Behind(e)
      ensures !file.eof && position <= |points|
    {
      hide Valid;
    }

    /**
     * One iteration of the merging loop: the next event joins, or it is put back and the loop ends. At the
     * end of the file the event found there always joins.
     */
    method MergeNext(event: Event, ghost raw: Raw, ghost k: nat, ghost revisitable: bool)
      returns (r: Result<Event>, joined: bool)
      requires (Merging(raw, k, event, revisitable) && Pending(event)) || Straying(k, event)
      modifies this`current, this`currentEvent, this`position, file, dataFile
      ensures old(Merging(raw, k, event, revisitable)) && Pending(event) ==>
                && (OnTrack() ==> EndPosition() == old(EndPosition()))
                && (joined ==> r.Success? && k < |raw.events| && OnTrack() && Merging(raw, k + 1, r.value, revisitable))
                && (!joined && r.Success? ==> r.value == event && Settled(raw, event, revisitable))
                && (!joined && r.Failure? ==> Reports(raw, r, revisitable))
      ensures old(Straying(k, event)) ==>
                joined && r.Success? && Straying(k + 1, r.value) && position == old(position)
    {
      hide Valid;
      hide OnTrack;
      hide Future;
      hide RawEvents;
      hide Fetch;
      hide Linked;
      hide RestsBehind;
      hide Reports;
      hide Settled;
      hide Merging;
      hide MergeRun;
      hide IsRun;
      hide Reopens;
      hide EventAtEnd;
      hide MergedAtEnd;
      hide Ahead;
      ghost var merging, straying := Merging(raw, k, event, revisitable) && Pending(event), Straying(k, event);
      ghost var rest, at := [], position;
      if merging {
        WhileMerging(raw, k, event, revisitable);
        rest := Future();
        LooksAhead(event);
        RawFirst(rest);
        NotAtEnd(event);
      }
      if straying {
        EndIsAhead();
        FetchAtEnd(position);
        MergedAtEndGoesOn(position, k);
        AtEnd();
      }
      var fetched := FetchNewEvent();
      if fetched.Failure? {
        if merging {
          assert raw.events[..k] == raw.events;
          ThrowsInLookahead(raw, fetched, revisitable);
        }
        return fetched, false;
      }
      var next := fetched.value;
      joined := event.newContext.ValuesEquivalent(next.startContext) && event.startRip == next.startRip
                && !event.isInstructionEmulation;
      if joined {
        if merging {
          Joined(raw, k, event, revisitable, rest, next);
          FetchedOnTrack(Fetch(rest), fetched);
        }
        r := Success(next.(startContext := event.startContext));
      } else {
        SeekBack(next, raw, k, event, revisitable, rest, at);
        r := Success(event);
      }
    }

    /**
     * current_event comes back: there is something cached, or the end was met before, or an event can start
     * at some point ahead; or the last position, where an event of zeros is made up, is 1.
     */
    ghost predicate Returns()
      reads this, file, dataFile
      requires OnTrack()
    {
      currentEvent.isValid || file.eof || HasExit(Ahead()) || (position == 0 && |points| == 1)
    }

    /** The fetch that begins the merging loop, and the state it leaves. */
    lemma BeginsMerging(ahead: seq<Located>, r: Result<Event>, revisitable: bool)
      requires FetchedAs(Fetch(ahead), r) && r.Success? && !currentEvent.isValid
      requires ahead != [] && (ahead[0].point.IsVmExit() ==> Plausible(ahead[0].point))
      requires forall i | 0 < i < |ahead| :: Plausible(ahead[i].point)
      requires revisitable ==> InTrace(points, ahead)
      ensures if HasExit(ahead) then Merging(RawEvents(ahead), 1, r.value, revisitable)
              else Straying(0, r.value) && RawEvents(ahead) == Raw([], Strays)
    {
      hide Valid;
      hide OnTrack;
      hide Future;
      hide Merging;
      FetchSkips(ahead);
      if HasExit(ahead) {
        StartsMerging(ahead, r, revisitable);
      }
    }

    lemma SettlesAtEnd(raw: Raw, k: nat, e: Event, revisitable: bool)
      requires Straying(k, e) && position == 1 && raw == Raw([], Strays) && !Pending(e)
      ensures Settled(raw, e, revisitable)
    {
      hide Valid;
      hide OnTrack;
      MergedAtEndGoesOn(position, k);
    }

    /**
     * The aggregated event at the cursor. A cached event is reported again; otherwise raw events are
     * fetched and merged, and a lookahead that does not join is put back by a seek.
     */
    method CurrentEvent() returns (r: Result<Event>)
      requires Valid() && (currentEvent.isValid || (OnTrack() && Returns()))
      modifies this`current, this`currentEvent, this`position, file, dataFile
      ensures old(currentEvent.isValid || file.eof) ==>
                r == Success(old(currentEvent)) && unchanged(this, file, dataFile)
      ensures old(!currentEvent.isValid && !file.eof) ==>
                Reports(old(RawEvents(Ahead())), r, old(current.IsValid()))
      ensures OnTrack() ==> EndPosition() == old(EndPosition())
    {
      hide Valid;
      hide OnTrack;
      hide Future;
      hide RawEvents;
      hide Fetch;
      hide HasExit;
      hide Reports;
      hide Settled;
      hide Merging;
      hide MergedAtEnd;
      if currentEvent.isValid || file.eof {
        return Success(currentEvent);
      }
      ghost var ahead, revisitable := Ahead(), current.IsValid();
      ghost var raw, stray := RawEvents(ahead), !HasExit(ahead);
      AheadFacts();
      var fetched := FetchNewEvent();
      if fetched.Failure? {
        ThrowsFirst(ahead, fetched, revisitable);
        return fetched;
      }
      BeginsMerging(ahead, fetched, revisitable);
      var event := fetched.value;
      ghost var k := if stray then 0 else 1;
      while event.position != 1 && !event.hasInterrupt && event.startContext.ValuesEquivalent(event.newContext)
        invariant if stray then k <= 1 && Straying(k, event) && position == 1 else Merging(raw, k, event, revisitable)
        invariant OnTrack() && EndPosition() == old(EndPosition())
        decreases if stray then 1 - k else |raw.events| - k
      {
        MergedAtEndGoesOn(1, k);
        var merged, joined := MergeNext(event, raw, k, revisitable);
        if merged.Failure? {
          return merged;
        }
        event := merged.value;
        if !joined {
          break;
        }
        k := k + 1;
      }
      if !Pending(event) {
        if stray {
          SettlesAtEnd(raw, k, event, revisitable);
        } else {
          SettlesBehindEvent(raw, k, event, revisitable);
        }
      }
      r := Publish(event, raw, revisitable);
    }

    /**
     * Random access. On a VMENTER the event it closes is reloaded: the cursor walks back to its VMEXIT,
     * or to the first record, and reads the event from there.
     */
    method AdvanceTo(target: uint64) returns (check: Check)
      requires Valid() && DataReadable() && InRange(target)
      modifies this`current, this`currentEvent, this`position, file, dataFile
      ensures target == 0 ==>
                && check == Pass && OnTrack() && !file.eof && current == DEFAULT_POINT && position == 0
                && Future() == Dedup(points) && currentEvent == old(currentEvent)
      ensures |points| < target ==>
                check == Pass && OnTrack() && file.eof && position == target - 1 && !currentEvent.isValid
      ensures 1 <= target <= |points| && !points[target - 1].IsVmEnter() ==> check == Pass && At(target)
      ensures 1 <= target <= |points| && points[target - 1].IsVmEnter() ==>
                Reports(RawEvents(AheadOf(points, LastExit(points, target))),
                        if check.Fail? then Failure(check.error) else Success(currentEvent), true)
    {
      hide Holds;
      hide PlausibleTrace;
      hide Rest;
      hide From;
      hide RawEvents;
      hide Reports;
      hide InRange;
      Seek(target);
      if target == 0 {
        return Pass;
      }
      if |points| < target {
        EndIsNoVmEnter();
      }
      if current.IsVmEnter() {
        var p := target;
        while !current.IsVmExit() && position > 1
          invariant At(p) && LastExit(points, p) == LastExit(points, target)
          decreases p
        {
          p := p - 1;
          CanSeek(p);
          Seek(p);
        }
        ReopenedHasEvent(points, p);
        ValidHere(p);
        var r := CurrentEvent();
        if r.Failure? {
          return Fail(r.error);
        }
        ReportsCached(RawEvents(AheadOf(points, p)), r);
      }
      check := Pass;
    }

    lemma EndIsNoVmEnter()
      requires OnTrack() && file.eof
      ensures !current.IsVmEnter()
    {
      ExitIsEndOrValid();
    }

    lemma ValidHere(p: nat)
      requires At(p)
      ensures current.IsValid()
    {
      assert points[p - 1] in points;
    }

    lemma ReportsCached(raw: Raw, r: Result<Event>)
      requires Reports(raw, r, true) && r.Success?
      ensures r == Success(currentEvent)
    {
      hide Valid;
      hide OnTrack;
    }

    /**
     * Positions from the end; the next call of Next delivers the record k + 1 places before the end. Any
     * other distance leaves the stream where the 64-bit arithmetic puts it, if it accepts that.
     */
    method SeekFromEnd(k: uint64)
      requires Valid() && DataReadable()
      modifies this`current, this`position, file
      ensures Valid() && DataReadable() && !file.eof && current == DEFAULT_POINT
      ensures var target := |file.bytes| - DistanceFromEnd(k, recordSize);
              if 0 <= target < TWO_TO_THE_63 then file.Live() && file.offset == target else file.fail
      ensures position == RecordsBefore(file.Pos(), recordSize)
      ensures k < |points| ==>
                && OnTrack() && position == |points| - k - 1
                && Future() == From(points, |points| - k - 1)
    {
      hide Holds;
      hide PlausibleTrace;
      hide DistanceFromEnd;
      hide RecordsBefore;
      hide OnTrack;
      hide Future;
      HoldsSize(file.bytes, dataFile.bytes, dataFile.isOpen, points);
      hide Offset;
      current := DEFAULT_POINT;
      file.SeekFromEnd(DistanceFromEnd(k, recordSize));
      position := RecordsBefore(file.Pos(), recordSize);
      if k < |points| {
        FromTheEnd(recordSize, |points|, k);
        Landed();
      }
    }
  }
}
