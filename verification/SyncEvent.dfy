/** Aggregated synchronization events and the checks on one event. */
module SyncEvents {
  import opened Bytes
  import opened SyncPoints

  datatype Context = Context(gprs: Gprs, crs: Crs, fpu: Fpu, tsc: uint64) {
    /** are_values_equivalent: FPU words and time stamp are ignored. */
    predicate ValuesEquivalent(other: Context) {
      gprs == other.gprs && crs == other.crs
    }
  }

  const ZERO_CONTEXT := Context(ZERO_GPRS, ZERO_CRS, ZERO_FPU, 0)

  /** point_context_to_event */
  function ContextOf(p: Point): Context {
    Context(p.gprs, p.crs, p.fpu, p.tsc)
  }

  datatype Event = Event(
    position: nat,
    isValid: bool,
    isFirstEventContextUnknown: bool,
    startRip: uint64,
    startContext: Context,
    startReason: byte,
    rflags: uint64,
    isLastEvent: bool,
    hasInterrupt: bool,
    interruptVector: byte,
    interruptRip: uint64,
    faultErrorCode: uint32,
    isInstructionEmulation: bool,
    newContext: Context,
    data: seq<PointData>)

  const DEFAULT_EVENT := Event(0, false, false, 0, ZERO_CONTEXT, VMX_EXIT_XCPT_OR_NMI, 0, false, false, 0, 0, 0,
                               false, ZERO_CONTEXT, [])

  /** The exceptions a malformed scenario raises; the position is the one in the message. */
  datatype Error =
    | DuplicateInterruptDiffers(position: nat)
    | ContextDiffers(position: nat)
    | ExitWithoutEnter(position: nat)
    | EmulationWithImmediateInterrupt
    | Cr2ChangeWithoutPageFault
    | FaultThatWaits

  datatype Result<+T> = Success(value: T) | Failure(error: Error)

  datatype Check = Pass | Fail(error: Error)

  /** check_sanity: the first broken rule, in the order they are looked at. */
  function CheckSanity(e: Event): Check {
    if !e.isFirstEventContextUnknown && e.hasInterrupt then
      if e.isInstructionEmulation && e.startRip == e.interruptRip then Fail(EmulationWithImmediateInterrupt)
      else if e.newContext.crs.cr2 != e.startContext.crs.cr2 && e.interruptVector != 0x0e then
        Fail(Cr2ChangeWithoutPageFault)
      else if e.interruptVector < 0x20 && e.startRip != e.interruptRip then Fail(FaultThatWaits)
      else Pass
    else Pass
  }

  /** Does this event override the machine state with what the hypervisor computed? */
  function Emulates(e: Event, rip: uint64): bool {
    if e.startReason in {VMX_EXIT_IO_INSTR, VMX_EXIT_CPUID, VMX_EXIT_RDTSC, VMX_EXIT_RDTSCP, VMX_EXIT_RDMSR,
                         VMX_EXIT_MOV_CRX, VMX_EXIT_EPT_MISCONFIG}
    then true
    else if e.startReason == VMX_EXIT_HLT then e.isInstructionEmulation
    else e.isInstructionEmulation || (!e.isFirstEventContextUnknown && rip != e.startRip)
  }

  /** Equivalent contexts differ in FPU words and time stamp at most. */
  lemma ValuesEquivalentMeans(c: Context, d: Context)
    ensures c.ValuesEquivalent(d) <==> c.(fpu := d.fpu, tsc := d.tsc) == d
  {
  }

  /** The checks reject exactly the events that break one of the three rules. */
  lemma SanityMeans(e: Event)
    ensures CheckSanity(e) == Pass <==>
            (e.hasInterrupt && !e.isFirstEventContextUnknown ==>
               && (e.isInstructionEmulation ==> e.startRip != e.interruptRip)
               && (e.interruptVector < 0x20 ==> e.startRip == e.interruptRip)
               && (e.newContext.crs.cr2 != e.startContext.crs.cr2 ==> e.interruptVector == 0x0e))
  {
  }
}
