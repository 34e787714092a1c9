/** One raw event out of a stream of points: VMEXIT, at most two INTERRUPTs, VMENTER. */
module EventParser {
  import opened SyncPoints
  import opened SyncEvents
  import opened SyncTraces

  /**
   * What fetching an event yields. `rest` are the points after the closing VMENTER, whose position is
   * `at`; a truncated event has consumed everything. An exception arises on the point at `at`.
   */
  datatype Fetched =
    | NoEvent
    | Malformed(error: Error, at: nat)
    | Fetched(event: Event, rest: seq<Located>, at: nat)

  /** Index of the first VMEXIT, or the length of the list. */
  function FirstExit(ps: seq<Located>): (i: nat)
    ensures i <= |ps|
    ensures forall j :: 0 <= j < i ==> !ps[j].point.IsVmExit()
    ensures i < |ps| ==> ps[i].point.IsVmExit()
  {
    if ps == [] || ps[0].point.IsVmExit() then 0 else 1 + FirstExit(ps[1..])
  }

  /** The VMEXIT of the first event may be missing. */
  predicate FirstExitMissing(ps: seq<Located>) {
    ps != [] && ps[0].position == 1 && !ps[0].point.IsVmExit()
  }

  /** There is a point an event can start at. */
  predicate HasExit(ps: seq<Located>) {
    FirstExitMissing(ps) || FirstExit(ps) < |ps|
  }

  /** The event as known from its first point alone. */
  function OpenEvent(p: Located, missing: bool): Event {
    if missing then
      DEFAULT_EVENT.(position := p.position, isFirstEventContextUnknown := true,
                     startReason := VMX_EXIT_XCPT_OR_NMI, isInstructionEmulation := true)
    else
      DEFAULT_EVENT.(position := p.position, startContext := ContextOf(p.point), startRip := p.point.rip,
                     startReason := p.point.kind, data := p.point.data)
  }

  function WithInterrupt(e: Event, p: Point): Event {
    e.(hasInterrupt := true, interruptVector := p.interruptVector, interruptRip := p.rip,
       faultErrorCode := p.faultErrorCode, data := e.data + p.data)
  }

  function Truncate(e: Event): Fetched {
    Fetched(e.(isLastEvent := true, isValid := true), [], 0)
  }

  /** Closes an event, whose data is complete, on the point at index m. */
  function CloseEvent(e: Event, ps: seq<Located>, m: nat): Fetched
    requires m < |ps|
  {
    var p := ps[m].point;
    var closed := e.(newContext := ContextOf(p), rflags := p.rflags,
                     isInstructionEmulation := Emulates(e, p.rip));
    if !p.IsVmEnter() then Malformed(ExitWithoutEnter(ps[m].position), ps[m].position)
    else match CheckSanity(closed)
      case Fail(error) => Malformed(error, ps[m].position)
      case Pass => Fetched(closed.(isValid := true), ps[m + 1..], ps[m].position)
  }

  function AfterInterrupt(e: Event, irq: Point, ps: seq<Located>, m: nat): Fetched
    requires m < |ps|
  {
    if !ps[m].point.Equivalent(irq) then Malformed(ContextDiffers(ps[m].position), ps[m].position)
    else CloseEvent(e.(data := e.data + ps[m].point.data), ps, m)
  }

  /** Index of the point after the VMEXIT. */
  function Second(missing: bool): nat {
    if missing then 0 else 1
  }

  /** The points from index k on, behind the VMEXIT. */
  function ParseBody(e: Event, ps: seq<Located>, k: nat): (r: Fetched)
    requires k < |ps|
    ensures r != NoEvent
  {
    var c := ps[k].point;
    if !c.IsInterrupt() then CloseEvent(e.(data := e.data + c.data), ps, k)
    else
      var irq := WithInterrupt(e, c);
      if |ps| == k + 1 then Truncate(irq)
      else if !ps[k + 1].point.IsInterrupt() then AfterInterrupt(irq, c, ps, k + 1)
      else if !ps[k + 1].point.Equivalent(c) then
        Malformed(DuplicateInterruptDiffers(ps[k + 1].position), ps[k + 1].position)
      else if |ps| == k + 2 then Truncate(irq)
      else AfterInterrupt(irq, c, ps, k + 2)
  }

  function ParseEvent(ps: seq<Located>, missing: bool): (r: Fetched)
    requires ps != []
    ensures r != NoEvent
    ensures r.Fetched? ==> |r.rest| < |ps|
  {
    var e, k := OpenEvent(ps[0], missing), Second(missing);
    if |ps| == k then Truncate(e) else ParseBody(e, ps, k)
  }

  /** What fetch_new_event finds in the current point and those after it. */
  function Fetch(ps: seq<Located>): (r: Fetched)
    ensures r.Fetched? ==> |r.rest| < |ps|
  {
    if FirstExitMissing(ps) then ParseEvent(ps, true)
    else
      var i := FirstExit(ps);
      if i == |ps| then NoEvent else ParseEvent(ps[i..], false)
  }

  /** The event fetched again and again once the end of the file has been met at position n. */
  function EventAtEnd(n: nat): Event {
    DEFAULT_EVENT.(position := n, isLastEvent := true, isValid := true)
  }

  lemma FetchAtEnd(n: nat)
    ensures Fetch([Located(END_POINT, n)]) == Fetched(EventAtEnd(n), [], 0) && EventAtEnd(n).isLastEvent
  {
    var ps := [Located(END_POINT, n)];
    assert ps[0..] == ps;
  }

  // ---- The grammar

  // Written with the type numbers of the format and the fields of the points: 0xff is a VMENTER, 0xfe an
  // INTERRUPT, anything else a VMEXIT.

  /** The points up to index m are one complete event of the grammar. */
  ghost predicate IsEvent(ps: seq<Located>, missing: bool, m: nat) {
    var k := Second(missing);
    && k <= m < |ps|
    && m - k <= 2
    && (forall i | k <= i < m :: ps[i].point.kind == 0xfe)
    && ps[m].point.kind == 0xff
    && (forall i | k < i <= m && k < m :: ps[i].point.Equivalent(ps[k].point))
  }

  /** The points, from index k on, are interrupts that a longer trace could complete. */
  ghost predicate IsPrefixOfEvent(ps: seq<Located>, missing: bool) {
    var k := Second(missing);
    && k <= |ps| <= k + 2
    && (forall i | k <= i < |ps| :: ps[i].point.kind == 0xfe && ps[i].point.Equivalent(ps[k].point))
  }

  /** The registers of a point, one by one. */
  ghost function Registers(p: Point): Context {
    Context(Gprs(p.gprs.rax, p.gprs.rbx, p.gprs.rcx, p.gprs.rdx, p.gprs.rsi, p.gprs.rdi, p.gprs.rbp, p.gprs.rsp,
                 p.gprs.r8, p.gprs.r9, p.gprs.r10, p.gprs.r11, p.gprs.r12, p.gprs.r13, p.gprs.r14, p.gprs.r15),
            Crs(p.crs.cr0, p.crs.cr2, p.crs.cr3, p.crs.cr4), Fpu(p.fpu.sw, p.fpu.cw, p.fpu.tags), p.tsc)
  }

  /**
   * What the exit reason says about emulation: accesses to devices, cpuid, rdtsc, rdtscp, rdmsr, control
   * registers and misconfigured pages are emulated, a halt never is, and otherwise a change of rip tells.
   */
  ghost predicate EmulatedBetween(exit: Point, enter: Point) {
    exit.kind in {10, 16, 28, 30, 31, 49, 51} || (exit.kind != 12 && enter.rip != exit.rip)
  }

  /** The event that the grammar assigns to points up to the VMENTER at index m, field by field. */
  ghost function EventOf(ps: seq<Located>, missing: bool, m: nat): Event
    requires IsEvent(ps, missing, m)
  {
    var k, exit, enter := Second(missing), ps[0].point, ps[m].point;
    Event(position := ps[0].position,
          isValid := true,
          isFirstEventContextUnknown := missing,
          startRip := if missing then 0 else exit.rip,
          startContext := if missing then ZERO_CONTEXT else Registers(exit),
          startReason := if missing then 0 else exit.kind,
          rflags := enter.rflags,
          isLastEvent := false,
          hasInterrupt := k < m,
          interruptVector := if k < m then ps[k].point.interruptVector else 0,
          interruptRip := if k < m then ps[k].point.rip else 0,
          faultErrorCode := if k < m then ps[k].point.faultErrorCode else 0,
          isInstructionEmulation := missing || EmulatedBetween(exit, enter),
          newContext := Registers(enter),
          data := (if missing then [] else exit.data) + (if k < m then ps[k].point.data else []) + enter.data)
  }

  /** The event of points that end inside a sentence: what its VMEXIT and its first interrupt say. */
  ghost function TruncatedEventOf(ps: seq<Located>, missing: bool): Event
    requires ps != [] && IsPrefixOfEvent(ps, missing)
  {
    var k, exit := Second(missing), ps[0].point;
    var interrupted := k < |ps|;
    Event(position := ps[0].position,
          isValid := true,
          isFirstEventContextUnknown := missing,
          startRip := if missing then 0 else exit.rip,
          startContext := if missing then ZERO_CONTEXT else Registers(exit),
          startReason := if missing then 0 else exit.kind,
          rflags := 0,
          isLastEvent := true,
          hasInterrupt := interrupted,
          interruptVector := if interrupted then ps[k].point.interruptVector else 0,
          interruptRip := if interrupted then ps[k].point.rip else 0,
          faultErrorCode := if interrupted then ps[k].point.faultErrorCode else 0,
          isInstructionEmulation := missing,
          newContext := ZERO_CONTEXT,
          data := (if missing then [] else exit.data) + (if interrupted then ps[k].point.data else []))
  }

  /**
   * Acceptance: points that start with a sentence of the grammar give the event of that sentence, or the
   * sanity check it fails. The data is that of the VMEXIT, of the first interrupt and of the VMENTER, each
   * once; a repeated interrupt's data is dropped.
   */
  lemma ParseAccepts(ps: seq<Located>, missing: bool, m: nat)
    requires IsEvent(ps, missing, m)
    ensures ParseEvent(ps, missing) ==
            match CheckSanity(EventOf(ps, missing, m))
            case Pass => Fetched(EventOf(ps, missing, m), ps[m + 1..], ps[m].position)
            case Fail(error) => Malformed(error, ps[m].position)
  {
  }

  /** What is taken by a complete event is a sentence of the grammar. */
  lemma ParseTakesSentence(ps: seq<Located>, missing: bool)
    requires ps != []
    requires var r := ParseEvent(ps, missing); r.Fetched? && !r.event.isLastEvent
    ensures var m := |ps| - |ParseEvent(ps, missing).rest| - 1;
            0 <= m && IsEvent(ps, missing, m)
  {
    hide CheckSanity;
    hide Point.Equivalent;
    hide Emulates;
  }

  /** A complete event always comes from some sentence of the grammar. */
  lemma ParsedIsEvent(ps: seq<Located>, missing: bool) returns (m: nat)
    requires ps != []
    requires var r := ParseEvent(ps, missing); r.Fetched? && !r.event.isLastEvent
    ensures IsEvent(ps, missing, m)
    ensures ParseEvent(ps, missing) == Fetched(EventOf(ps, missing, m), ps[m + 1..], ps[m].position)
    ensures CheckSanity(EventOf(ps, missing, m)) == Pass
  {
    m := |ps| - |ParseEvent(ps, missing).rest| - 1;
    ParseTakesSentence(ps, missing);
    ParseAccepts(ps, missing, m);
  }

  /**
   * The truncated-tail rule applies exactly when the trace ends inside a sentence, and keeps what was read of
   * it; a repeated interrupt's data is dropped.
   */
  lemma ParseTruncates(ps: seq<Located>, missing: bool)
    requires ps != []
    ensures var r := ParseEvent(ps, missing);
            r.Fetched? && r.event.isLastEvent <==> IsPrefixOfEvent(ps, missing)
    ensures IsPrefixOfEvent(ps, missing) ==> ParseEvent(ps, missing) == Fetched(TruncatedEventOf(ps, missing), [], 0)
  {
    hide CheckSanity;
    hide Emulates;
  }

  // ---- What is refused

  /** The point at index m comes behind the VMEXIT and at most two interrupts, of which a second one agrees. */
  ghost predicate Closes(ps: seq<Located>, missing: bool, m: nat) {
    var k := Second(missing);
    && k <= m < |ps|
    && m - k <= 2
    && (forall i | k <= i < m :: ps[i].point.kind == 0xfe)
    && (m - k < 2 ==> ps[m].point.kind != 0xfe)
    && (m - k == 2 ==> ps[k + 1].point.Equivalent(ps[k].point))
  }

  /** Two interrupts in a row that differ in the machine state. */
  lemma RefusesDuplicate(ps: seq<Located>, missing: bool, at: nat)
    requires ps != []
    ensures ParseEvent(ps, missing) == Malformed(DuplicateInterruptDiffers(at), at) <==>
            var k := Second(missing);
            && k + 1 < |ps| && ps[k + 1].position == at
            && ps[k].point.kind == 0xfe && ps[k + 1].point.kind == 0xfe
            && !ps[k + 1].point.Equivalent(ps[k].point)
  {
    hide Point.Equivalent;
    hide Emulates;
  }

  /** The point behind one or two interrupts differs from the first in the machine state. */
  lemma RefusesOtherContext(ps: seq<Located>, missing: bool, at: nat)
    requires ps != []
    ensures ParseEvent(ps, missing) == Malformed(ContextDiffers(at), at) <==>
            exists m: nat ::
              && Closes(ps, missing, m) && Second(missing) < m && ps[m].position == at
              && !ps[m].point.Equivalent(ps[Second(missing)].point)
  {
    hide Point.Equivalent;
    hide Emulates;
    var k := Second(missing);
    assert forall m: nat | Closes(ps, missing, m) :: m in {k, k + 1, k + 2};
    var one, two := Closes(ps, missing, k + 1), Closes(ps, missing, k + 2);
  }

  /** The closing point is no VMENTER. */
  lemma RefusesMissingEnter(ps: seq<Located>, missing: bool, at: nat)
    requires ps != []
    ensures ParseEvent(ps, missing) == Malformed(ExitWithoutEnter(at), at) <==>
            exists m: nat ::
              && Closes(ps, missing, m) && ps[m].position == at && ps[m].point.kind != 0xff
              && (Second(missing) < m ==> ps[m].point.Equivalent(ps[Second(missing)].point))
  {
    hide Point.Equivalent;
    hide Emulates;
    var k := Second(missing);
    assert forall m: nat | Closes(ps, missing, m) :: m in {k, k + 1, k + 2};
    var none, one, two := Closes(ps, missing, k), Closes(ps, missing, k + 1), Closes(ps, missing, k + 2);
  }

  /** The rule on interrupts that a sentence breaks first, in terms of its points. */
  ghost predicate BreaksRule(exit: Point, irq: Point, enter: Point, error: Error) {
    var emulated, immediate := EmulatedBetween(exit, enter), exit.rip == irq.rip;
    var otherCr2 := enter.crs.cr2 != exit.crs.cr2 && irq.interruptVector != 0x0e;
    match error
    case EmulationWithImmediateInterrupt => emulated && immediate
    case Cr2ChangeWithoutPageFault => !(emulated && immediate) && otherCr2
    case FaultThatWaits => !immediate && !otherCr2 && irq.interruptVector < 0x20
    case _ => false
  }

  /** A complete sentence is refused exactly for the first rule it breaks, at its VMENTER. */
  lemma RefusesInsane(ps: seq<Located>, missing: bool, m: nat, error: Error)
    requires IsEvent(ps, missing, m)
    ensures ParseEvent(ps, missing) == Malformed(error, ps[m].position) <==>
            !missing && m > 1 && BreaksRule(ps[0].point, ps[1].point, ps[m].point, error)
  {
    ParseAccepts(ps, missing, m);
    hide ParseEvent;
  }

  // ---- What an event takes out of the stream

  /** A parse takes a segment: no VMEXIT in it but the first point, and the rest is what follows it. */
  lemma ParseSpan(ps: seq<Located>, missing: bool)
    requires ps != []
    ensures var r := ParseEvent(ps, missing);
            r.Fetched? ==> |r.rest| < |ps| && r.rest == ps[|ps| - |r.rest|..] && r.event.isValid
                           && r.event.position == ps[0].position
    ensures var r := ParseEvent(ps, missing);
            r.Fetched? && !r.event.isLastEvent ==>
              var m := |ps| - |r.rest| - 1;
              && r.at == ps[m].position && ps[m].point.IsVmEnter()
              && (forall j | 0 < j <= m :: !ps[j].point.IsVmExit())
              && r.event.newContext == ContextOf(ps[m].point)
    ensures var r := ParseEvent(ps, missing);
            r.Fetched? && r.event.isLastEvent ==> r.rest == [] && r.event.newContext == ZERO_CONTEXT
    ensures var r := ParseEvent(ps, missing);
            r.Fetched? ==> r.event.startContext == if missing then ZERO_CONTEXT else ContextOf(ps[0].point)
  {
    hide CheckSanity;
    hide Point.Equivalent;
    hide Emulates;
  }

  /** Fetching skips to the first VMEXIT, unless the repair rule applies, and parses there. */
  lemma FetchSkips(ps: seq<Located>)
    ensures var i := if FirstExitMissing(ps) then 0 else FirstExit(ps);
            && (i == |ps| <==> Fetch(ps) == NoEvent)
            && (i < |ps| <==> HasExit(ps))
            && (i < |ps| ==> Fetch(ps) == ParseEvent(ps[i..], FirstExitMissing(ps)))
  {
    assert ps[0..] == ps;
  }

  /** Where fetching starts: at position 1 whatever stands there, or else at the first VMEXIT. */
  ghost predicate StartsAt(ps: seq<Located>, missing: bool, i: nat) {
    && i < |ps|
    && (missing <==> ps[0].position == 1 && ps[0].point.kind in {0xfe, 0xff})
    && (missing ==> i == 0)
    && (!missing ==> ps[i].point.kind !in {0xfe, 0xff} && forall j | 0 <= j < i :: ps[j].point.kind in {0xfe, 0xff})
  }

  /** An event is parsed from there, and without such a place there is none. */
  lemma FetchStarts(ps: seq<Located>)
    ensures forall missing, i: nat | StartsAt(ps, missing, i) :: Fetch(ps) == ParseEvent(ps[i..], missing)
    ensures Fetch(ps) == NoEvent <==> !exists missing, i: nat :: StartsAt(ps, missing, i)
  {
    hide ParseEvent;
    FetchSkips(ps);
    var missing := FirstExitMissing(ps);
    var i := if missing then 0 else FirstExit(ps);
    if i < |ps| {
      assert StartsAt(ps, missing, i);
      forall b, j: nat | StartsAt(ps, b, j) ensures b == missing && j == i {
      }
    }
  }

  /** Some sentence of the grammar that passes the sanity check stands at the head of the list. */
  ghost predicate Accepted(ps: seq<Located>, missing: bool) {
    exists m: nat :: IsEvent(ps, missing, m) && CheckSanity(EventOf(ps, missing, m)) == Pass
  }

  /**
   * A complete event is fetched exactly when the points from the first VMEXIT on, or all of them when the
   * first VMEXIT is missing, start with an accepted sentence.
   */
  lemma FetchAccepts(ps: seq<Located>)
    ensures var i := if FirstExitMissing(ps) then 0 else FirstExit(ps);
            var r := Fetch(ps);
            (r.Fetched? && !r.event.isLastEvent) <==> (i < |ps| && Accepted(ps[i..], FirstExitMissing(ps)))
  {
    FetchSkips(ps);
    var missing := FirstExitMissing(ps);
    var i := if missing then 0 else FirstExit(ps);
    if i < |ps| {
      var qs, r := ps[i..], Fetch(ps);
      hide ParseEvent;
      hide EventOf;
      hide IsEvent;
      if r.Fetched? && !r.event.isLastEvent {
        var m := ParsedIsEvent(qs, missing);
      }
      if Accepted(qs, missing) {
        var m: nat :| IsEvent(qs, missing, m) && CheckSanity(EventOf(qs, missing, m)) == Pass;
        ParseAccepts(qs, missing, m);
        EventIsComplete(qs, missing, m);
      }
    }
  }

  lemma EventIsComplete(ps: seq<Located>, missing: bool, m: nat)
    requires IsEvent(ps, missing, m)
    ensures !EventOf(ps, missing, m).isLastEvent
  {
  }

  /** Skipping is invisible: fetching from the first VMEXIT on finds the same event. */
  lemma FetchFromExit(ps: seq<Located>)
    requires !FirstExitMissing(ps)
    ensures Fetch(ps) == Fetch(ps[FirstExit(ps)..])
  {
    hide ParseEvent;
    var i := FirstExit(ps);
    if i < |ps| {
      assert ps[i..][0] == ps[i] && ps[i..][0..] == ps[i..];
    }
  }

  /** A point that is no VMEXIT is skipped at the head of a list, behind position 1. */
  lemma FetchPastPoint(l: Located, ps: seq<Located>)
    requires !l.point.IsVmExit() && l.position != 1 && !FirstExitMissing(ps)
    ensures Fetch([l] + ps) == Fetch(ps)
  {
    hide ParseEvent;
    var qs := [l] + ps;
    assert qs[1..] == ps && FirstExit(qs) == 1 + FirstExit(ps);
    assert qs[1 + FirstExit(ps)..] == ps[FirstExit(ps)..];
  }
}
