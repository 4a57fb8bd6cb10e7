/** Trap entry and return, interrupt arbitration, and what they keep over whole runs of the hart. */
module TrapModel {
  import opened Basics
  import opened CsrModel

  /** The part of the hart that traps act on. */
  datatype Hart = Hart(mode: Priv, pc: bv64, csrs: Csrs)

  type Cause = bv64

  predicate BitSet(v: bv64, cause: Cause) { cause < 64 && (v >> cause) & 1 == 1 }

  function InterruptFlag(xlen: Xlen): bv64 { if xlen.Rv32? then 0x8000_0000 else 0x8000_0000_0000_0000 }

  /** Whether a cause goes to the supervisor's handler. */
  predicate ToSupervisor(h: Hart, cause: Cause, interrupt: bool) {
    !h.mode.Machine? && BitSet(Read(h.csrs, if interrupt then MIDELEG else MEDELEG), cause)
  }

  predicate Vectored(tvec: bv64) { tvec & 3 == 1 }

  /** The vector register less its mode bits. */
  function Base(tvec: bv64): bv64 { tvec & !3 }

  /** One four-byte slot for each cause. */
  function Slot(base: bv64, cause: Cause): bv64 { base + 4 * cause }

  /** The handler address: interrupts fan out by cause in vectored mode. */
  function Vector(tvec: bv64, cause: Cause, interrupt: bool): bv64 {
    if Vectored(tvec) && interrupt then Slot(Base(tvec), cause) else Base(tvec)
  }

  function SupervisorEntry(status: bv64, from: Priv): bv64 {
    var s := Off(status, STATUS_SPIE | STATUS_SIE | STATUS_SPP);
    var t := if Has(status, STATUS_SIE) then On(s, STATUS_SPIE) else s;
    if from.Supervisor? then On(t, STATUS_SPP) else t
  }

  function MachineEntry(status: bv64, from: Priv): bv64 {
    var s := Off(status, STATUS_MPIE | STATUS_MIE | STATUS_MPP);
    On(if Has(status, STATUS_MIE) then On(s, STATUS_MPIE) else s, PrivBits(from) << 11)
  }

  /** The cause register's value: the top bit marks an interrupt. */
  function Code(xlen: Xlen, cause: Cause, interrupt: bool): bv64 {
    if interrupt then cause | InterruptFlag(xlen) else cause
  }

  /** Trap entry: four registers are written, and control passes to the vector's address. */
  function TakeTrap(h: Hart, cause: Cause, tval: bv64, epc: bv64, interrupt: bool): Hart {
    var status := Read(h.csrs, MSTATUS);
    var code := Code(h.csrs.xlen, cause, interrupt);
    if ToSupervisor(h, cause, interrupt) then
      var c := Force(Force(Force(Force(h.csrs, SEPC, epc), SCAUSE, code), STVAL, tval), MSTATUS,
                     SupervisorEntry(status, h.mode));
      Hart(Supervisor, Vector(Read(c, STVEC), cause, interrupt), c)
    else
      var c := Force(Force(Force(Force(h.csrs, MEPC, epc), MCAUSE, code), MTVAL, tval), MSTATUS,
                     MachineEntry(status, h.mode));
      Hart(Machine, Vector(Read(c, MTVEC), cause, interrupt), c)
  }

  /** The privilege a return goes to. */
  function ReturnMode(status: bv64, machine: bool): Priv {
    if machine then MppOf(status)
    else if Has(status, STATUS_SPP) then Supervisor else User
  }

  function ReturnStatus(status: bv64, machine: bool): bv64 {
    var (pie, ie, pp) :=
      if machine then (STATUS_MPIE, STATUS_MIE, STATUS_MPP) else (STATUS_SPIE, STATUS_SIE, STATUS_SPP);
    var s := Off(status, ie | pp);
    var t := On(if Has(status, pie) then On(s, ie) else s, pie);
    if ReturnMode(status, machine).Machine? then t else Off(t, STATUS_MPRV)
  }

  /** Returns from a trap: pops xPIE and xPP, and drops xPP to user. */
  function TrapReturn(h: Hart, machine: bool): Hart {
    var status := Read(h.csrs, MSTATUS);
    var c := Force(h.csrs, MSTATUS, ReturnStatus(status, machine));
    Hart(ReturnMode(status, machine), Read(c, if machine then MEPC else SEPC), c)
  }

  // ---------------------------------------------------------------------------------------
  // Interrupt arbitration

  datatype Line = Line(bit: bv64, cause: Cause)

  /** The fixed priority order. */
  const ORDER: seq<Line> :=
    [Line(MEI, 11), Line(MSI, 3), Line(MTI, 7), Line(SEI, 9), Line(SSI, 1), Line(STI, 5)]

  /** Whether an interrupt with this bit may be taken now. */
  predicate Enabled(h: Hart, bit: bv64) {
    if Has(Read(h.csrs, MIDELEG), bit) then
      match h.mode
      case Machine => false
      case Supervisor => Has(Read(h.csrs, MSTATUS), STATUS_SIE)
      case User => true
    else !h.mode.Machine? || Has(Read(h.csrs, MSTATUS), STATUS_MIE)
  }

  function Waiting(h: Hart): bv64 { Mask(Read(h.csrs, MIE), Read(h.csrs, MIP)) }

  predicate Takes(h: Hart, bit: bv64) { Has(Waiting(h), bit) && Enabled(h, bit) }

  function FirstFrom(h: Hart, k: nat): Option<Cause>
    requires k <= 6
    decreases 6 - k
  {
    if k == 6 then None else if Takes(h, ORDER[k].bit) then Some(ORDER[k].cause) else FirstFrom(h, k + 1)
  }

  function PendingInterrupt(h: Hart): Option<Cause> {
    if Waiting(h) == 0 then None else FirstFrom(h, 0)
  }

  /** Line i may be taken and none before it, from line k on, may. */
  predicate IsFirst(h: Hart, k: nat, i: nat)
    requires i < 6
  {
    k <= i && Takes(h, ORDER[i].bit) && forall j: nat :: k <= j < i ==> !Takes(h, ORDER[j].bit)
  }

  lemma {:induction false} FirstIsFirst(h: Hart, k: nat)
    requires k <= 6
    ensures FirstFrom(h, k).None? ==> forall i: nat :: k <= i < 6 ==> !Takes(h, ORDER[i].bit)
    ensures FirstFrom(h, k).Some? ==>
            exists i: nat :: i < 6 && IsFirst(h, k, i) && ORDER[i].cause == FirstFrom(h, k).value
    decreases 6 - k
  {
    hide Takes;
    if k < 6 {
      if Takes(h, ORDER[k].bit) {
        assert IsFirst(h, k, k);
      } else {
        FirstIsFirst(h, k + 1);
        if FirstFrom(h, k + 1).Some? {
          var i: nat :| i < 6 && IsFirst(h, k + 1, i) && ORDER[i].cause == FirstFrom(h, k + 1).value;
          assert IsFirst(h, k, i);
        }
      }
    }
  }

  /** The interrupt taken is the first in the fixed order that is pending, enabled and allowed at
      the current privilege; there is none exactly when no interrupt is all three. */
  lemma PendingIsFirst(h: Hart)
    ensures PendingInterrupt(h).None? <==> forall i: nat :: i < 6 ==> !Takes(h, ORDER[i].bit)
    ensures PendingInterrupt(h).Some? ==>
            exists i: nat :: i < 6 && IsFirst(h, 0, i) && ORDER[i].cause == PendingInterrupt(h).value
  {
    FirstIsFirst(h, 0);
    hide FirstFrom;
  }

  lemma LineBits(i: nat, v: bv64)
    requires i < 6
    ensures BitSet(v, ORDER[i].cause) == Has(v, ORDER[i].bit)
  {
  }

  /** An interrupt goes where the check that admitted it assumed: to the supervisor exactly when
      delegated, never to a mode below the current one, and to the current mode only when that
      mode's interrupts are enabled. */
  lemma InterruptIsRouted(h: Hart, epc: bv64)
    requires PendingInterrupt(h).Some?
    ensures var t := TakeTrap(h, PendingInterrupt(h).value, 0, epc, true);
            t.mode.Rank() >= h.mode.Rank() &&
            (t.mode.Supervisor? <==> BitSet(Read(h.csrs, MIDELEG), PendingInterrupt(h).value)) &&
            (t.mode == h.mode ==> Has(Read(h.csrs, MSTATUS), if t.mode.Machine? then STATUS_MIE else STATUS_SIE))
  {
    PendingIsFirst(h);
    hide FirstFrom, PendingInterrupt;
    var i: nat :| i < 6 && IsFirst(h, 0, i) && ORDER[i].cause == PendingInterrupt(h).value;
    LineBits(i, Read(h.csrs, MIDELEG));
    hide Read, BitSet, Has;
  }

  /** Taking an interrupt masks it and every other that its handler's mode could take: nothing is
      pending after a machine interrupt, and nothing delegated after a supervisor one. */
  lemma InterruptMasksItself(h: Hart, cause: Cause, epc: bv64)
    ensures var t := TakeTrap(h, cause, 0, epc, true);
            (t.mode.Machine? ==> PendingInterrupt(t) == None) &&
            (t.mode.Supervisor? ==> forall i: nat :: i < 6 && Takes(t, ORDER[i].bit) ==>
               !Has(Read(t.csrs, MIDELEG), ORDER[i].bit))
  {
    var t := TakeTrap(h, cause, 0, epc, true);
    PendingIsFirst(t);
    EntryMasks(h.csrs.xlen, Read(h.csrs, MSTATUS), h.mode);
    hide SupervisorEntry, MachineEntry, PendingInterrupt, ToSupervisor, Vector;
  }

  lemma EntryMasks(xlen: Xlen, status: bv64, from: Priv)
    ensures !Has(Narrow(xlen, Status(SupervisorEntry(status, from))), STATUS_SIE)
    ensures !Has(Narrow(xlen, Status(MachineEntry(status, from))), STATUS_MIE)
  {
  }

  // ---------------------------------------------------------------------------------------
  // A trap and its return

  /** mstatus after a trap and its return: the popped xPIE is left set and xPP is user. */
  function Restored(status: bv64, from: Priv, machine: bool): bv64 {
    var s := if machine then On(Off(status, STATUS_MPP), STATUS_MPIE) else On(Off(status, STATUS_SPP), STATUS_SPIE);
    if from.Machine? then s else Off(s, STATUS_MPRV)
  }

  /** A value of mstatus as software reads it. */
  predicate Shown(xlen: Xlen, s: bv64) { Narrow(xlen, Status(s)) == s }

  /** SD and what it summarises. */
  const SUMMARY: bv64 := 0x8000_0000_0001_E000

  predicate Summarised(s: bv64) { Has(s, STATUS_SD) == (Full(s, STATUS_FS) || Full(s, STATUS_XS)) }

  lemma LowSummary(v: bv64)
    ensures Low(On(v, STATUS_SD)) == Low(v) == Low(Off(v, STATUS_SD))
  {
  }

  lemma LowTwice(v: bv64)
    ensures Low(Low(v)) == Low(v)
  {
  }

  lemma OnStays(v: bv64)
    requires Has(v, STATUS_SD)
    ensures On(v, STATUS_SD) == v
  {
  }

  lemma OffStays(v: bv64)
    requires !Has(v, STATUS_SD)
    ensures Off(v, STATUS_SD) == v
  {
  }

  lemma SummarySet(v: bv64)
    ensures Has(On(v, STATUS_SD), STATUS_SD) && !Has(Off(v, STATUS_SD), STATUS_SD)
  {
  }

  lemma DirtyBit(v: bv64)
    ensures Full(On(v, STATUS_SD), STATUS_FS) == Full(v, STATUS_FS) == Full(Off(v, STATUS_SD), STATUS_FS)
  {
  }

  lemma ExtensionBit(v: bv64)
    ensures Full(On(v, STATUS_SD), STATUS_XS) == Full(v, STATUS_XS) == Full(Off(v, STATUS_SD), STATUS_XS)
  {
  }

  /** A shown value is a narrow one on RV32, and one with a right SD bit on RV64. */
  lemma ShownMeans(xlen: Xlen, s: bv64)
    ensures Shown(xlen, s) <==> if xlen.Rv32? then Low(s) == s else Summarised(s)
  {
    hide Full, On, Off, Low, Has;
    LowSummary(s);
    SummarySet(s);
    if Has(s, STATUS_SD) { OnStays(s); } else { OffStays(s); }
  }

  lemma ReadShown(xlen: Xlen, raw: bv64)
    ensures Shown(xlen, Narrow(xlen, Status(raw)))
  {
    hide Full, On, Off, Low, Has, Shown;
    ShownMeans(xlen, Narrow(xlen, Status(raw)));
    LowTwice(Status(raw));
    SummarySet(raw);
    DirtyBit(raw);
    ExtensionBit(raw);
  }

  /** The fields that traps and returns change. */
  const STACKS: bv64 := 0x2_19AA

  lemma ApartFromSummary(s: bv64, m: bv64)
    requires m & !STACKS == 0
    ensures Mask(On(s, m), SUMMARY) == Mask(s, SUMMARY) == Mask(Off(s, m), SUMMARY)
  {
  }

  lemma OnStaysLow(s: bv64, m: bv64)
    requires m & !STACKS == 0 && s & LOW32 == s
    ensures On(s, m) & LOW32 == On(s, m)
  {
  }

  lemma OffStaysLow(s: bv64, m: bv64)
    requires s & LOW32 == s
    ensures Off(s, m) & LOW32 == Off(s, m)
  {
  }

  lemma LowMeans(s: bv64)
    ensures Low(s) == s & LOW32
  {
  }

  lemma StaysLow(s: bv64, m: bv64)
    requires m & !STACKS == 0 && Low(s) == s
    ensures Low(On(s, m)) == On(s, m) && Low(Off(s, m)) == Off(s, m)
  {
    hide On, Off, Low;
    LowMeans(s);
    LowMeans(On(s, m));
    LowMeans(Off(s, m));
    OnStaysLow(s, m);
    OffStaysLow(s, m);
  }

  lemma SummaryAlike(s: bv64, t: bv64)
    requires Mask(s, SUMMARY) == Mask(t, SUMMARY)
    ensures Summarised(s) == Summarised(t)
  {
  }

  /** Changing only those fields keeps a shown value shown. */
  lemma ShownApart(xlen: Xlen, s: bv64, m: bv64)
    requires m & !STACKS == 0 && Shown(xlen, s)
    ensures Shown(xlen, On(s, m)) && Shown(xlen, Off(s, m))
  {
    hide Full, On, Off, Low, Mask, Has, Shown, Summarised;
    ShownMeans(xlen, s);
    ShownMeans(xlen, On(s, m));
    ShownMeans(xlen, Off(s, m));
    ApartFromSummary(s, m);
    SummaryAlike(s, On(s, m));
    SummaryAlike(s, Off(s, m));
    if xlen.Rv32? { StaysLow(s, m); }
  }

  lemma MachineEntryShown(xlen: Xlen, s: bv64, from: Priv)
    requires Shown(xlen, s)
    ensures Shown(xlen, MachineEntry(s, from))
  {
    hide Shown, On, Off, Has;
    var t := Off(s, STATUS_MPIE | STATUS_MIE | STATUS_MPP);
    ShownApart(xlen, s, STATUS_MPIE | STATUS_MIE | STATUS_MPP);
    ShownApart(xlen, t, STATUS_MPIE);
    ShownApart(xlen, if Has(s, STATUS_MIE) then On(t, STATUS_MPIE) else t, PrivBits(from) << 11);
  }

  lemma SupervisorEntryShown(xlen: Xlen, s: bv64, from: Priv)
    requires Shown(xlen, s)
    ensures Shown(xlen, SupervisorEntry(s, from))
  {
    hide Shown, On, Off, Has;
    var t := Off(s, STATUS_SPIE | STATUS_SIE | STATUS_SPP);
    ShownApart(xlen, s, STATUS_SPIE | STATUS_SIE | STATUS_SPP);
    ShownApart(xlen, t, STATUS_SPIE);
    ShownApart(xlen, if Has(s, STATUS_SIE) then On(t, STATUS_SPIE) else t, STATUS_SPP);
  }

  lemma RestoredShown(xlen: Xlen, s: bv64, from: Priv, machine: bool)
    requires Shown(xlen, s)
    ensures Shown(xlen, Restored(s, from, machine))
  {
    hide Shown, On, Off;
    var (pie, pp) := if machine then (STATUS_MPIE, STATUS_MPP) else (STATUS_SPIE, STATUS_SPP);
    ShownApart(xlen, s, pp);
    ShownApart(xlen, Off(s, pp), pie);
    ShownApart(xlen, On(Off(s, pp), pie), STATUS_MPRV);
  }

  lemma MachineStack(s: bv64, p: bv64)
    requires p & !STATUS_MPP == 0
    ensures var t := Off(s, STATUS_MPIE | STATUS_MIE | STATUS_MPP);
            var e := On(if Has(s, STATUS_MIE) then On(t, STATUS_MPIE) else t, p);
            Has(e, STATUS_MPIE) == Has(s, STATUS_MIE) && e & STATUS_MPP == p
  {
  }

  lemma MachineRestores(s: bv64, p: bv64)
    requires p & !STATUS_MPP == 0
    ensures var t := Off(s, STATUS_MPIE | STATUS_MIE | STATUS_MPP);
            (Has(s, STATUS_MIE) ==>
             On(On(Off(On(On(t, STATUS_MPIE), p), STATUS_MIE | STATUS_MPP), STATUS_MIE), STATUS_MPIE) ==
               On(Off(s, STATUS_MPP), STATUS_MPIE)) &&
            (!Has(s, STATUS_MIE) ==>
             On(Off(On(t, p), STATUS_MIE | STATUS_MPP), STATUS_MPIE) == On(Off(s, STATUS_MPP), STATUS_MPIE))
  {
  }

  lemma SupervisorStack(s: bv64)
    ensures var t := Off(s, STATUS_SPIE | STATUS_SIE | STATUS_SPP);
            var e := if Has(s, STATUS_SIE) then On(t, STATUS_SPIE) else t;
            Has(e, STATUS_SPIE) == Has(s, STATUS_SIE) == Has(On(e, STATUS_SPP), STATUS_SPIE) &&
            !Has(e, STATUS_SPP) && Has(On(e, STATUS_SPP), STATUS_SPP)
  {
  }

  lemma SupervisorRestores(s: bv64, p: bv64)
    requires p & !STATUS_SPP == 0
    ensures var t := Off(s, STATUS_SPIE | STATUS_SIE | STATUS_SPP);
            (Has(s, STATUS_SIE) ==>
             On(On(Off(On(On(t, STATUS_SPIE), p), STATUS_SIE | STATUS_SPP), STATUS_SIE), STATUS_SPIE) ==
               On(Off(s, STATUS_SPP), STATUS_SPIE)) &&
            (!Has(s, STATUS_SIE) ==>
             On(Off(On(t, p), STATUS_SIE | STATUS_SPP), STATUS_SPIE) == On(Off(s, STATUS_SPP), STATUS_SPIE))
  {
  }

  lemma OnNothing(v: bv64)
    ensures On(v, 0) == v
  {
  }

  lemma ModeFromBits(e: bv64, from: Priv)
    requires e & STATUS_MPP == PrivBits(from) << 11
    ensures ReturnMode(e, true) == from
  {
  }

  /** What a level's entry pushes, its return pops. */
  lemma PushPop(s: bv64, from: Priv, machine: bool)
    requires from.Machine? ==> machine
    ensures var e := if machine then MachineEntry(s, from) else SupervisorEntry(s, from);
            ReturnMode(e, machine) == from && ReturnStatus(e, machine) == Restored(s, from, machine)
  {
    var p := if machine then PrivBits(from) << 11 else if from.Supervisor? then STATUS_SPP else 0;
    hide On, Off, Has;
    if machine {
      MachineStack(s, p);
      MachineRestores(s, p);
      ModeFromBits(MachineEntry(s, from), from);
    } else {
      SupervisorStack(s);
      SupervisorRestores(s, p);
      OnNothing(Off(s, STATUS_SPIE | STATUS_SIE | STATUS_SPP));
      OnNothing(On(Off(s, STATUS_SPIE | STATUS_SIE | STATUS_SPP), STATUS_SPIE));
    }
  }

  /** Pushing and popping within one level, for mstatus as the hart reads and forces it. */
  lemma RoundTrip(xlen: Xlen, raw: bv64, from: Priv, machine: bool)
    requires from.Machine? ==> machine
    ensures var s := Narrow(xlen, Status(raw));
            var inside := Narrow(xlen, Status(if machine then MachineEntry(s, from) else SupervisorEntry(s, from)));
            ReturnMode(inside, machine) == from &&
            Narrow(xlen, Status(ReturnStatus(inside, machine))) == Restored(s, from, machine)
  {
    var s := Narrow(xlen, Status(raw));
    hide ReturnMode, ReturnStatus, Restored, MachineEntry, SupervisorEntry, Status, Narrow, Has;
    ReadShown(xlen, raw);
    if machine { MachineEntryShown(xlen, s, from); } else { SupervisorEntryShown(xlen, s, from); }
    RestoredShown(xlen, s, from, machine);
    PushPop(s, from, machine);
  }

  /** Which registers a trap and its return may leave changed. */
  predicate HandlerOwned(a: Addr, machine: bool) {
    a == MSTATUS || (if machine then a == MEPC || a == MCAUSE || a == MTVAL else a == SEPC || a == SCAUSE || a == STVAL)
  }

  lemma TakenState(h: Hart, cause: Cause, tval: bv64, epc: bv64, interrupt: bool)
    ensures var t := TakeTrap(h, cause, tval, epc, interrupt);
            var machine := !ToSupervisor(h, cause, interrupt);
            t.mode == (if machine then Machine else Supervisor) && t.csrs.xlen == h.csrs.xlen &&
            t.csrs.regs[if machine then MEPC else SEPC] == epc &&
            t.csrs.regs[MSTATUS] ==
              (if machine then MachineEntry(Read(h.csrs, MSTATUS), h.mode)
               else SupervisorEntry(Read(h.csrs, MSTATUS), h.mode)) &&
            forall a: Addr :: t.csrs.regs[a] != h.csrs.regs[a] ==> HandlerOwned(a, machine)
  {
    hide Vector, BitSet, MachineEntry, SupervisorEntry, Status, Narrow;
  }

  lemma ReturnedState(t: Hart, machine: bool)
    ensures var r := TrapReturn(t, machine);
            r.mode == ReturnMode(Read(t.csrs, MSTATUS), machine) && r.csrs.xlen == t.csrs.xlen &&
            r.pc == Narrow(t.csrs.xlen, t.csrs.regs[if machine then MEPC else SEPC]) &&
            Read(r.csrs, MSTATUS) == Narrow(t.csrs.xlen, Status(ReturnStatus(Read(t.csrs, MSTATUS), machine))) &&
            forall a: Addr :: r.csrs.regs[a] != t.csrs.regs[a] ==> a == MSTATUS
  {
    hide ReturnMode, ReturnStatus, Status, Narrow;
  }

  lemma CodeReads(xlen: Xlen, cause: Cause, interrupt: bool)
    requires cause < 64
    ensures var code := Narrow(xlen, Code(xlen, cause, interrupt));
            Has(code, InterruptFlag(xlen)) == interrupt && Off(code, InterruptFlag(xlen)) == cause
  {
  }

  /** The trap registers read as stored, narrowed to the width. */
  lemma PlainRead(c: Csrs, addr: Addr)
    requires addr in {MEPC, SEPC, MCAUSE, SCAUSE, MTVAL, STVAL, MTVEC, STVEC}
    ensures Read(c, addr) == Narrow(c.xlen, c.regs[addr])
  {
    hide Narrow, Status, Mask, Upper, RoundingMode;
  }

  predicate Aligned(address: bv64) { address & 3 == 0 }

  /** base is tvec with its two mode bits cleared. */
  predicate ClearsMode(base: bv64, tvec: bv64) { Aligned(base) && base | (tvec & 3) == tvec }

  /** Slots of neighbouring causes lie four bytes apart, from the base up. */
  predicate FourApart(base: bv64, cause: Cause) {
    Slot(base, 0) == base && Slot(base, cause + 1) == Slot(base, cause) + 4
  }

  lemma BaseAligned(v: bv64)
    ensures ClearsMode(Base(v), v)
  {
  }

  lemma SlotAligned(b: bv64, c: bv64)
    requires Aligned(b)
    ensures Aligned(Slot(b, c))
  {
  }

  lemma SlotZero(b: bv64)
    ensures Slot(b, 0) == b
  {
  }

  lemma SlotNext(b: bv64, c: bv64)
    ensures Slot(b, c + 1) == Slot(b, c) + 4
  {
  }

  lemma SlotsApart(b: bv64, c: bv64)
    ensures FourApart(b, c)
  {
    hide Slot;
    SlotZero(b);
    SlotNext(b, c);
  }

  /** Where handlers lie: every one at a multiple of four, exceptions and direct mode at the base, the
      vector register less its two mode bits, and the interrupts of vectored mode four bytes apart
      in the order of their causes, from the base up. */
  lemma VectorFans(tvec: bv64, cause: Cause, interrupt: bool)
    ensures var base := Vector(tvec, cause, false);
            ClearsMode(base, tvec) && FourApart(base, cause) && Aligned(Vector(tvec, cause, interrupt)) &&
            Vector(tvec, cause, interrupt) == if Vectored(tvec) && interrupt then Slot(base, cause) else base
  {
    BaseAligned(tvec);
    hide Vectored, Base, Slot, Aligned, FourApart;
    SlotAligned(Base(tvec), cause);
    SlotsApart(Base(tvec), cause);
  }

  lemma TrapWrites(h: Hart, cause: Cause, tval: bv64, epc: bv64, interrupt: bool)
    ensures var t := TakeTrap(h, cause, tval, epc, interrupt);
            var machine, r := t.mode.Machine?, t.csrs.regs;
            t.csrs.xlen == h.csrs.xlen &&
            r[if machine then MCAUSE else SCAUSE] == Code(h.csrs.xlen, cause, interrupt) &&
            r[if machine then MTVAL else STVAL] == tval && r[if machine then MEPC else SEPC] == epc &&
            r[if machine then MTVEC else STVEC] == h.csrs.regs[if machine then MTVEC else STVEC] &&
            t.pc == Vector(Read(t.csrs, if machine then MTVEC else STVEC), cause, interrupt)
  {
    hide Vector, BitSet, Code, MachineEntry, SupervisorEntry, Read;
  }

  /** What a handler finds: the cause register separates interrupts from exceptions by its top bit
      at either width, the value and the return address are the ones given, and the hart is at the
      address the mode's vector register named. */
  lemma HandlerSees(h: Hart, cause: Cause, tval: bv64, epc: bv64, interrupt: bool)
    requires cause < 64
    ensures var t := TakeTrap(h, cause, tval, epc, interrupt);
            var machine, xlen := t.mode.Machine?, h.csrs.xlen;
            var code := Read(t.csrs, if machine then MCAUSE else SCAUSE);
            Has(code, InterruptFlag(xlen)) == interrupt && Off(code, InterruptFlag(xlen)) == cause &&
            Read(t.csrs, if machine then MTVAL else STVAL) == Narrow(xlen, tval) &&
            Read(t.csrs, if machine then MEPC else SEPC) == Narrow(xlen, epc) &&
            t.pc == Vector(Read(h.csrs, if machine then MTVEC else STVEC), cause, interrupt)
  {
    hide TakeTrap, Read, Vector, Code, Narrow, Has, Off, InterruptFlag;
    var t := TakeTrap(h, cause, tval, epc, interrupt);
    var machine := t.mode.Machine?;
    TrapWrites(h, cause, tval, epc, interrupt);
    CodeReads(h.csrs.xlen, cause, interrupt);
    PlainRead(t.csrs, if machine then MCAUSE else SCAUSE);
    PlainRead(t.csrs, if machine then MTVAL else STVAL);
    PlainRead(t.csrs, if machine then MEPC else SEPC);
    PlainRead(t.csrs, if machine then MTVEC else STVEC);
    PlainRead(h.csrs, if machine then MTVEC else STVEC);
  }

  lemma ReadStatus(c: Csrs)
    ensures Read(c, MSTATUS) == Narrow(c.xlen, Status(c.regs[MSTATUS]))
  {
  }

  /** A trap followed by its matching return restores the privilege, the interrupt enables and the
      pc; of the registers only the handler's own xEPC, xCAUSE and xTVAL differ, and in mstatus only
      its xPIE and xPP, with MPRV clear below machine mode. */
  lemma TrapThenReturn(h: Hart, cause: Cause, tval: bv64, interrupt: bool)
    ensures var t := TakeTrap(h, cause, tval, h.pc, interrupt);
            var r := TrapReturn(t, t.mode.Machine?);
            r.mode == h.mode && r.pc == Narrow(h.csrs.xlen, h.pc) &&
            Read(r.csrs, MSTATUS) == Restored(Read(h.csrs, MSTATUS), h.mode, t.mode.Machine?) &&
            forall a: Addr :: r.csrs.regs[a] != h.csrs.regs[a] ==> HandlerOwned(a, t.mode.Machine?)
  {
    TakenState(h, cause, tval, h.pc, interrupt);
    var t := TakeTrap(h, cause, tval, h.pc, interrupt);
    ReturnedState(t, t.mode.Machine?);
    RoundTrip(h.csrs.xlen, h.csrs.regs[MSTATUS], h.mode, t.mode.Machine?);
    ReadStatus(h.csrs);
    ReadStatus(t.csrs);
    hide TakeTrap, TrapReturn, Read, BitSet, ReturnMode, ReturnStatus, Restored, MachineEntry, SupervisorEntry, Status,
         Narrow;
  }

  // ---------------------------------------------------------------------------------------
  // Nested traps

  /** What code does between a trap and its return, as far as the trap state can tell. */
  datatype Act = Move(pc: bv64) | SetCsr(addr: Addr, value: bv64)

  function Do(h: Hart, act: Act): Hart {
    match act
    case Move(pc) => h.(pc := pc)
    case SetCsr(addr, value) => h.(csrs := Write(h.csrs, addr, Narrow(h.csrs.xlen, value)))
  }

  function DoAll(h: Hart, acts: seq<Act>): Hart
    decreases |acts|
  {
    if acts == [] then h else DoAll(Do(h, acts[0]), acts[1..])
  }

  /** Code that may run at this privilege. */
  predicate Allowed(act: Act, mode: Priv) { act.SetCsr? ==> Accessible(act.addr, mode, true) }

  /** A step of a supervisor handler: its own code, or a machine trap with its handler and return. */
  datatype HandlerAct = Own(act: Act) | Excursion(cause: Cause, tval: bv64, interrupt: bool, body: seq<Act>)

  function Inside(h: Hart, act: HandlerAct): Hart {
    match act
    case Own(a) => Do(h, a)
    case Excursion(cause, tval, interrupt, body) =>
      TrapReturn(DoAll(TakeTrap(h, cause, tval, h.pc, interrupt), body), true)
  }

  function InsideAll(h: Hart, acts: seq<HandlerAct>): Hart
    decreases |acts|
  {
    if acts == [] then h else InsideAll(Inside(h, acts[0]), acts[1..])
  }

  /** The fields of mstatus that a machine handler must leave as it found them: its own pushed
      privilege and enable, and the supervisor level's three. */
  const SAVED: bv64 := STATUS_MPIE | STATUS_MPP | STATUS_SIE | STATUS_SPIE | STATUS_SPP

  /** The saved fields and both return addresses are back. */
  predicate Back(t: Hart, u: Hart) {
    Mask(Read(u.csrs, MSTATUS), SAVED) == Mask(Read(t.csrs, MSTATUS), SAVED) &&
    u.csrs.regs[SEPC] == t.csrs.regs[SEPC] && u.csrs.regs[MEPC] == t.csrs.regs[MEPC]
  }

  /** A machine trap's handler may do whatever machine code may, so long as what was saved is back
      when it returns. */
  predicate Proper(h: Hart, act: HandlerAct) {
    match act
    case Own(a) => Allowed(a, Supervisor)
    case Excursion(cause, tval, interrupt, body) =>
      !ToSupervisor(h, cause, interrupt) && (forall a :: a in body ==> Allowed(a, Machine)) &&
      var t := TakeTrap(h, cause, tval, h.pc, interrupt); Back(t, DoAll(t, body))
  }

  predicate ProperAll(h: Hart, acts: seq<HandlerAct>)
    decreases |acts|
  {
    acts == [] || (Proper(h, acts[0]) && ProperAll(Inside(h, acts[0]), acts[1..]))
  }

  /** The handler's own code alone, as if no machine trap came in between. */
  function OwnOnly(h: Hart, acts: seq<HandlerAct>): Hart
    decreases |acts|
  {
    if acts == [] then h else OwnOnly(if acts[0].Own? then Do(h, acts[0].act) else h, acts[1..])
  }

  const ENABLES: bv64 := STATUS_SIE | STATUS_MIE

  const STACK: bv64 := STATUS_SIE | STATUS_MIE | STATUS_SPIE | STATUS_SPP

  /** Alike in what the supervisor level's traps and returns depend on. */
  predicate SameStack(h: Hart, t: Hart) {
    t.mode == h.mode && t.csrs.xlen == h.csrs.xlen && t.csrs.regs[SEPC] == h.csrs.regs[SEPC] &&
    Mask(Read(t.csrs, MSTATUS), STACK) == Mask(Read(h.csrs, MSTATUS), STACK)
  }

  lemma {:induction false} DoAllMode(h: Hart, acts: seq<Act>)
    ensures DoAll(h, acts).mode == h.mode && DoAll(h, acts).csrs.xlen == h.csrs.xlen
    decreases |acts|
  {
    hide Stored, Narrow, Target;
    if acts != [] { DoAllMode(Do(h, acts[0]), acts[1..]); }
  }

  lemma StackShown(xlen: Xlen, raw: bv64)
    ensures Mask(Narrow(xlen, Status(raw)), STACK) == Mask(raw, STACK)
  {
  }

  lemma StackMerged(p: bv64, q: bv64, value: bv64)
    requires Mask(p, STACK) == Mask(q, STACK)
    ensures Mask(Merge(p, value, STATUS_SHARED), STACK) == Mask(Merge(q, value, STATUS_SHARED), STACK)
  {
  }

  /** Supervisor code acts alike on harts alike in the stack. */
  lemma OwnAlike(h: Hart, t: Hart, act: Act)
    requires SameStack(h, t) && Allowed(act, Supervisor)
    ensures SameStack(Do(h, act), Do(t, act))
  {
    hide Narrow, Status, Merge, Read, Wide, Mask;
    var h2, t2 := Do(h, act), Do(t, act);
    StackRead(h);
    StackRead(t);
    StackRead(h2);
    StackRead(t2);
    if act.SetCsr? {
      var value := Narrow(h.csrs.xlen, act.value);
      SupervisorWrites(h.csrs, act.addr, value);
      SupervisorWrites(t.csrs, act.addr, value);
      StackMerged(h.csrs.regs[MSTATUS], t.csrs.regs[MSTATUS], value);
    }
  }

  lemma EnableMerged(p: bv64, value: bv64)
    ensures Mask(Merge(p, value, STATUS_SHARED), STATUS_MIE) == Mask(p, STATUS_MIE)
  {
  }

  lemma EnableShown(xlen: Xlen, raw: bv64)
    ensures Mask(Narrow(xlen, Status(raw)), STATUS_MIE) == Mask(raw, STATUS_MIE)
  {
  }

  /** Supervisor code cannot touch the machine level's enable. */
  lemma OwnKeepsEnable(h: Hart, act: Act)
    requires Allowed(act, Supervisor)
    ensures Mask(Read(Do(h, act).csrs, MSTATUS), STATUS_MIE) == Mask(Read(h.csrs, MSTATUS), STATUS_MIE)
  {
    hide Narrow, Status, Merge, Read, Wide, Mask;
    var t := Do(h, act);
    ReadStatus(h.csrs);
    ReadStatus(t.csrs);
    EnableShown(h.csrs.xlen, h.csrs.regs[MSTATUS]);
    EnableShown(t.csrs.xlen, t.csrs.regs[MSTATUS]);
    if act.SetCsr? {
      var value := Narrow(h.csrs.xlen, act.value);
      SupervisorWrites(h.csrs, act.addr, value);
      EnableMerged(h.csrs.regs[MSTATUS], value);
    }
  }

  lemma StackRead(h: Hart)
    ensures Mask(Read(h.csrs, MSTATUS), STACK) == Mask(h.csrs.regs[MSTATUS], STACK)
  {
    hide Narrow, Status, Mask;
    ReadStatus(h.csrs);
    StackShown(h.csrs.xlen, h.csrs.regs[MSTATUS]);
  }

  /** What supervisor code can do to mstatus and sepc. */
  lemma SupervisorWrites(c: Csrs, addr: Addr, value: bv64)
    requires Accessible(addr, Supervisor, true)
    ensures var d := Write(c, addr, value);
            d.xlen == c.xlen &&
            d.regs[MSTATUS] ==
              (if addr == SSTATUS then Merge(c.regs[MSTATUS], value, STATUS_SHARED) else c.regs[MSTATUS]) &&
            d.regs[SEPC] == (if addr == SEPC then Off(value, 1) else c.regs[SEPC])
  {
    hide Merge, Off, Mask, Narrow, Status;
  }

  lemma RestoredKeepsStack(s: bv64, from: Priv)
    ensures Mask(Restored(s, from, true), STACK) == Mask(s, STACK)
  {
  }

  /** A machine return pops the same from any mstatus with the same saved fields. */
  lemma SavedSameMode(e: bv64, inside: bv64)
    requires Mask(inside, SAVED) == Mask(e, SAVED)
    ensures ReturnMode(inside, true) == ReturnMode(e, true)
  {
  }

  lemma SavedSamePop(e: bv64, inside: bv64)
    requires Mask(inside, SAVED) == Mask(e, SAVED)
    ensures Mask(ReturnStatus(inside, true), STACK) == Mask(ReturnStatus(e, true), STACK)
  {
    SavedSameMode(e, inside);
    hide ReturnMode;
  }

  /** What a machine trap pushed on mstatus pops off any value with the same saved fields. */
  lemma SavedPops(xlen: Xlen, raw: bv64, from: Priv, inside: bv64)
    requires Mask(inside, SAVED) == Mask(Narrow(xlen, Status(MachineEntry(Narrow(xlen, Status(raw)), from))), SAVED)
    ensures ReturnMode(inside, true) == from
    ensures Mask(Narrow(xlen, Status(ReturnStatus(inside, true))), STACK) == Mask(Narrow(xlen, Status(raw)), STACK)
  {
    hide ReturnMode, ReturnStatus, Restored, MachineEntry, Status, Narrow, Mask;
    var s := Narrow(xlen, Status(raw));
    var e := Narrow(xlen, Status(MachineEntry(s, from)));
    RoundTrip(xlen, raw, from, true);
    RestoredKeepsStack(s, from);
    SavedSameMode(e, inside);
    SavedSamePop(e, inside);
    StackShown(xlen, ReturnStatus(e, true));
    StackShown(xlen, ReturnStatus(inside, true));
  }

  /** What the supervisor level sees of a machine trap's entry and of its return. */
  lemma MachineTaken(h: Hart, cause: Cause, tval: bv64, interrupt: bool)
    requires !ToSupervisor(h, cause, interrupt)
    ensures var t := TakeTrap(h, cause, tval, h.pc, interrupt);
            t.csrs.xlen == h.csrs.xlen && t.csrs.regs[MEPC] == h.pc && t.csrs.regs[SEPC] == h.csrs.regs[SEPC] &&
            Read(t.csrs, MSTATUS) ==
              Narrow(h.csrs.xlen, Status(MachineEntry(Narrow(h.csrs.xlen, Status(h.csrs.regs[MSTATUS])), h.mode)))
  {
    hide TakeTrap, Read, BitSet, MachineEntry, SupervisorEntry, Status, Narrow;
    TakenState(h, cause, tval, h.pc, interrupt);
    ReadStatus(h.csrs);
    ReadStatus(TakeTrap(h, cause, tval, h.pc, interrupt).csrs);
  }

  lemma MachineReturned(u: Hart)
    ensures var r := TrapReturn(u, true);
            r.mode == ReturnMode(Read(u.csrs, MSTATUS), true) && r.csrs.xlen == u.csrs.xlen &&
            r.pc == Narrow(u.csrs.xlen, u.csrs.regs[MEPC]) && r.csrs.regs[SEPC] == u.csrs.regs[SEPC] &&
            Read(r.csrs, MSTATUS) == Narrow(u.csrs.xlen, Status(ReturnStatus(Read(u.csrs, MSTATUS), true)))
  {
    hide TrapReturn, Read, ReturnMode, ReturnStatus, Status, Narrow;
    ReturnedState(u, true);
  }

  /** A machine trap taken inside a supervisor handler, with its return, leaves the supervisor
      level's saved fields alone and comes back to the interrupted instruction. */
  lemma ExcursionKeepsStack(h: Hart, act: HandlerAct)
    requires act.Excursion? && Proper(h, act)
    ensures SameStack(h, Inside(h, act)) && Inside(h, act).pc == Narrow(h.csrs.xlen, h.pc)
  {
    hide TakeTrap, TrapReturn, Read, DoAll, Allowed, ToSupervisor, ReturnMode, ReturnStatus, MachineEntry, Status,
         Narrow, Mask;
    var t := TakeTrap(h, act.cause, act.tval, h.pc, act.interrupt);
    var u := DoAll(t, act.body);
    MachineTaken(h, act.cause, act.tval, act.interrupt);
    DoAllMode(t, act.body);
    MachineReturned(u);
    ReadStatus(h.csrs);
    SavedPops(h.csrs.xlen, h.csrs.regs[MSTATUS], h.mode, Read(u.csrs, MSTATUS));
  }

  /** Whatever machine traps come in between, a supervisor handler's own code leaves the stack as it
      would alone. */
  lemma {:induction false} HandlerKeepsStack(h: Hart, g: Hart, acts: seq<HandlerAct>)
    requires SameStack(g, h) && ProperAll(h, acts)
    ensures SameStack(OwnOnly(g, acts), InsideAll(h, acts))
    ensures Mask(Read(OwnOnly(g, acts).csrs, MSTATUS), STATUS_MIE) == Mask(Read(g.csrs, MSTATUS), STATUS_MIE)
    decreases |acts|
  {
    hide Do, Proper, SameStack, TrapReturn, TakeTrap, DoAll, Read, Mask;
    if acts != [] {
      if acts[0].Own? {
        OwnIsAllowed(h, acts[0]);
        OwnAlike(g, h, acts[0].act);
        OwnKeepsEnable(g, acts[0].act);
        HandlerKeepsStack(Inside(h, acts[0]), Do(g, acts[0].act), acts[1..]);
      } else {
        ExcursionKeepsStack(h, acts[0]);
        SameStackTransitive(g, h, Inside(h, acts[0]));
        HandlerKeepsStack(Inside(h, acts[0]), g, acts[1..]);
      }
    }
  }

  lemma OwnIsAllowed(h: Hart, act: HandlerAct)
    requires act.Own? && Proper(h, act)
    ensures Allowed(act.act, Supervisor)
  {
  }

  lemma SameStackTransitive(g: Hart, h: Hart, t: Hart)
    requires SameStack(g, h) && SameStack(h, t)
    ensures SameStack(g, t)
  {
    hide Read, Mask;
  }

  const PUSHED: bv64 := STATUS_SPIE | STATUS_SPP

  /** What a supervisor return pops, and the machine enable it leaves alone. */
  const POPPED: bv64 := STATUS_MIE | STATUS_SPIE | STATUS_SPP

  /** A supervisor return pops the same from any mstatus with the same fields. */
  lemma SamePoppedMode(e: bv64, inside: bv64)
    requires Mask(inside, POPPED) == Mask(e, POPPED)
    ensures ReturnMode(inside, false) == ReturnMode(e, false)
  {
  }

  lemma SamePopped(e: bv64, inside: bv64)
    requires Mask(inside, POPPED) == Mask(e, POPPED)
    ensures Mask(ReturnStatus(inside, false), ENABLES) == Mask(ReturnStatus(e, false), ENABLES)
  {
    SamePoppedMode(e, inside);
    hide ReturnMode;
  }

  lemma StackPopped(s: bv64, t: bv64)
    requires Mask(s, STACK) == Mask(t, STACK)
    ensures Mask(s, POPPED) == Mask(t, POPPED)
  {
  }

  lemma EnablesShown(xlen: Xlen, raw: bv64)
    ensures Mask(Narrow(xlen, Status(raw)), ENABLES) == Mask(raw, ENABLES)
  {
  }

  lemma EnablesRestored(s: bv64, from: Priv)
    ensures Mask(Restored(s, from, false), ENABLES) == Mask(s, ENABLES)
  {
  }

  lemma StackPops(xlen: Xlen, raw: bv64, from: Priv, inside: bv64)
    requires !from.Machine? &&
             Mask(inside, POPPED) ==
               Mask(Narrow(xlen, Status(SupervisorEntry(Narrow(xlen, Status(raw)), from))), POPPED)
    ensures ReturnMode(inside, false) == from
    ensures Mask(Narrow(xlen, Status(ReturnStatus(inside, false))), ENABLES) ==
            Mask(Narrow(xlen, Status(raw)), ENABLES)
  {
    hide ReturnMode, ReturnStatus, Restored, SupervisorEntry, Status, Narrow, Mask;
    var s := Narrow(xlen, Status(raw));
    var e := Narrow(xlen, Status(SupervisorEntry(s, from)));
    RoundTrip(xlen, raw, from, false);
    SamePoppedMode(e, inside);
    SamePopped(e, inside);
    EnablesShown(xlen, ReturnStatus(inside, false));
    EnablesShown(xlen, ReturnStatus(e, false));
    EnablesRestored(s, from);
  }

  /** The handler's own code puts SPIE, SPP and sepc back by the time it returns. */
  predicate PutsBack(t: Hart, acts: seq<HandlerAct>) {
    var own := OwnOnly(t, acts);
    own.csrs.regs[SEPC] == t.csrs.regs[SEPC] &&
    Mask(Read(own.csrs, MSTATUS), PUSHED) == Mask(Read(t.csrs, MSTATUS), PUSHED)
  }

  lemma PoppedParts(s: bv64, t: bv64)
    requires Mask(s, PUSHED) == Mask(t, PUSHED) && Mask(s, STATUS_MIE) == Mask(t, STATUS_MIE)
    ensures Mask(s, POPPED) == Mask(t, POPPED)
  {
  }

  /** Traps nest: however many machine traps are taken and returned from inside a supervisor handler
      whose own code puts SPIE, SPP and sepc back, the handler's return restores the privilege, both
      interrupt enables and the pc of the code it interrupted. */
  lemma NestedTrapsReturn(h: Hart, cause: Cause, tval: bv64, interrupt: bool, acts: seq<HandlerAct>)
    requires ToSupervisor(h, cause, interrupt)
    requires var t := TakeTrap(h, cause, tval, h.pc, interrupt); ProperAll(t, acts) && PutsBack(t, acts)
    ensures var r := TrapReturn(InsideAll(TakeTrap(h, cause, tval, h.pc, interrupt), acts), false);
            r.mode == h.mode && r.pc == Narrow(h.csrs.xlen, h.pc) &&
            Mask(Read(r.csrs, MSTATUS), ENABLES) == Mask(Read(h.csrs, MSTATUS), ENABLES)
  {
    hide TakeTrap, TrapReturn, Read, InsideAll, OwnOnly, ProperAll, BitSet, ReturnMode, ReturnStatus, SupervisorEntry,
         MachineEntry, Status, Narrow, Mask;
    TakenState(h, cause, tval, h.pc, interrupt);
    var t := TakeTrap(h, cause, tval, h.pc, interrupt);
    HandlerKeepsStack(t, t, acts);
    var own, u := OwnOnly(t, acts), InsideAll(t, acts);
    OwnWidth(t, acts);
    PoppedParts(Read(own.csrs, MSTATUS), Read(t.csrs, MSTATUS));
    StackPopped(Read(own.csrs, MSTATUS), Read(u.csrs, MSTATUS));
    ReturnedState(u, false);
    ReadStatus(h.csrs);
    ReadStatus(t.csrs);
    StackPops(h.csrs.xlen, h.csrs.regs[MSTATUS], h.mode, Read(u.csrs, MSTATUS));
  }

  lemma {:induction false} OwnWidth(h: Hart, acts: seq<HandlerAct>)
    ensures OwnOnly(h, acts).csrs.xlen == h.csrs.xlen
    decreases |acts|
  {
    hide Stored, Narrow, Target;
    if acts != [] { OwnWidth(if acts[0].Own? then Do(h, acts[0].act) else h, acts[1..]); }
  }

  // ---------------------------------------------------------------------------------------
  // Whole runs

  const ILLEGAL: Cause := 2

  /** The start of DRAM, as a program counter. */
  const START: bv64 := 0x8000_0000

  function ResetHart(xlen: Xlen): Hart { Hart(Machine, START, Reset(xlen)) }

  /** The state in which firmware hands the hart to a kernel. */
  function BootSupervisor(h: Hart, entry: bv64): Hart {
    var c := Force(Force(Force(Force(h.csrs, MEDELEG, 0xB1FF), MIDELEG, INT_VISIBLE), MCOUNTEREN, !0), SCOUNTEREN, !0);
    Hart(Supervisor, entry, c)
  }

  /** What one step of the hart can do to this state: retire an instruction, raise an exception,
      take the pending interrupt, return from a trap, execute a CSR write, mark the floating-point
      state dirty, or have the devices drive mip. */
  datatype Event =
    | Retire(pc: bv64)
    | Raise(cause: Cause, tval: bv64)
    | Interrupt
    | Mret
    | Sret
    | CsrWrite(addr: Addr, value: bv64)
    | DirtyFloat
    | Drive(mip: bv64)

  function TakePending(h: Hart): Hart {
    match PendingInterrupt(h)
    case Some(cause) => TakeTrap(h, cause, 0, h.pc, true)
    case None => h
  }

  function Illegal(h: Hart): Hart { TakeTrap(h, ILLEGAL, 0, h.pc, false) }

  /** Whether the hart may execute a return here. */
  predicate MayReturn(h: Hart, machine: bool) {
    h.mode.Machine? || (!machine && h.mode.Supervisor? && !Has(Read(h.csrs, MSTATUS), STATUS_TSR))
  }

  function DirtyStatus(status: bv64): bv64 { On(Off(status, STATUS_FS), STATUS_FS) }

  function Step(h: Hart, ev: Event): Hart {
    match ev
    case Retire(pc) => h.(pc := pc)
    case Raise(cause, tval) => TakeTrap(h, cause, tval, h.pc, false)
    case Interrupt => TakePending(h)
    case Mret => if MayReturn(h, true) then TrapReturn(h, true) else Illegal(h)
    case Sret => if MayReturn(h, false) then TrapReturn(h, false) else Illegal(h)
    case CsrWrite(addr, value) =>
      if Accessible(addr, h.mode, true) then h.(csrs := Write(h.csrs, addr, Narrow(h.csrs.xlen, value))) else Illegal(h)
    case DirtyFloat => h.(csrs := Force(h.csrs, MSTATUS, DirtyStatus(Read(h.csrs, MSTATUS))))
    case Drive(mip) => h.(csrs := Force(h.csrs, MIP, mip))
  }

  function Run(h: Hart, evs: seq<Event>): Hart
    decreases |evs|
  {
    if evs == [] then h else Run(Step(h, evs[0]), evs[1..])
  }

  /** MPRV redirects accesses only in machine mode, and satp never names a scheme the walker does
      not implement. */
  predicate Sound(h: Hart) {
    (Has(h.csrs.regs[MSTATUS], STATUS_MPRV) ==> h.mode.Machine?) && SatpSupported(h.csrs.xlen, h.csrs.regs[SATP])
  }

  lemma ShownMprv(xlen: Xlen, raw: bv64)
    ensures Has(Narrow(xlen, Status(raw)), STATUS_MPRV) == Has(raw, STATUS_MPRV)
  {
  }

  lemma OnMprv(s: bv64, m: bv64)
    requires m & STATUS_MPRV == 0
    ensures Has(On(s, m), STATUS_MPRV) == Has(s, STATUS_MPRV)
  {
  }

  lemma OffMprv(s: bv64, m: bv64)
    requires m & STATUS_MPRV == 0
    ensures Has(Off(s, m), STATUS_MPRV) == Has(s, STATUS_MPRV)
  {
  }

  lemma MachineEntryMprv(s: bv64, from: Priv)
    ensures Has(MachineEntry(s, from), STATUS_MPRV) == Has(s, STATUS_MPRV)
  {
    hide On, Off, Has;
    var t := Off(s, STATUS_MPIE | STATUS_MIE | STATUS_MPP);
    OffMprv(s, STATUS_MPIE | STATUS_MIE | STATUS_MPP);
    OnMprv(t, STATUS_MPIE);
    OnMprv(if Has(s, STATUS_MIE) then On(t, STATUS_MPIE) else t, PrivBits(from) << 11);
  }

  lemma SupervisorEntryMprv(s: bv64, from: Priv)
    ensures Has(SupervisorEntry(s, from), STATUS_MPRV) == Has(s, STATUS_MPRV)
  {
    hide On, Off, Has;
    var t := Off(s, STATUS_SPIE | STATUS_SIE | STATUS_SPP);
    OffMprv(s, STATUS_SPIE | STATUS_SIE | STATUS_SPP);
    OnMprv(t, STATUS_SPIE);
    OnMprv(if Has(s, STATUS_SIE) then On(t, STATUS_SPIE) else t, STATUS_SPP);
  }

  lemma ReturnMprv(s: bv64, machine: bool)
    ensures Has(ReturnStatus(s, machine), STATUS_MPRV) ==> ReturnMode(s, machine).Machine?
  {
    hide ReturnMode;
  }

  lemma DirtyMprv(s: bv64)
    ensures Has(DirtyStatus(s), STATUS_MPRV) == Has(s, STATUS_MPRV)
  {
  }

  /** A trap keeps the run invariant and never lowers the privilege. */
  lemma TrapSound(h: Hart, cause: Cause, tval: bv64, epc: bv64, interrupt: bool)
    requires Sound(h)
    ensures var t := TakeTrap(h, cause, tval, epc, interrupt); Sound(t) && t.mode.Rank() >= h.mode.Rank()
  {
    hide TakeTrap, Read, BitSet, MachineEntry, SupervisorEntry, Status, Narrow, Has, SatpSupported;
    TakenState(h, cause, tval, epc, interrupt);
    ReadStatus(h.csrs);
    ShownMprv(h.csrs.xlen, h.csrs.regs[MSTATUS]);
    MachineEntryMprv(Read(h.csrs, MSTATUS), h.mode);
    SupervisorEntryMprv(Read(h.csrs, MSTATUS), h.mode);
  }

  lemma ReturnSound(h: Hart, machine: bool)
    requires Sound(h)
    ensures Sound(TrapReturn(h, machine))
  {
    hide Read, ReturnMode, ReturnStatus, Has, SatpSupported;
    ReturnMprv(Read(h.csrs, MSTATUS), machine);
  }

  lemma WriteMprv(c: Csrs, addr: Addr, mode: Priv, value: bv64)
    requires Accessible(addr, mode, true) && !mode.Machine?
    ensures Has(Write(c, addr, value).regs[MSTATUS], STATUS_MPRV) == Has(c.regs[MSTATUS], STATUS_MPRV)
  {
    hide Accessible, Has, Merge, Stored;
    WritesAreConfined(c, mode, addr, value, MSTATUS);
    MprvBeyondWindow(c.regs[MSTATUS], Write(c, addr, value).regs[MSTATUS]);
  }

  lemma MprvBeyondWindow(s: bv64, t: bv64)
    requires s & !SupervisorMask(MSTATUS) == t & !SupervisorMask(MSTATUS)
    ensures Has(s, STATUS_MPRV) == Has(t, STATUS_MPRV)
  {
  }

  lemma WriteSatp(c: Csrs, addr: Addr, value: bv64)
    requires SatpSupported(c.xlen, c.regs[SATP])
    ensures Write(c, addr, value).xlen == c.xlen && SatpSupported(c.xlen, Write(c, addr, value).regs[SATP])
  {
    hide SatpSupported, Merge;
  }

  lemma WriteSound(h: Hart, addr: Addr, value: bv64)
    requires Sound(h) && Accessible(addr, h.mode, true)
    ensures Sound(h.(csrs := Write(h.csrs, addr, value)))
  {
    hide Accessible, SatpSupported, Has, Write;
    WriteSatp(h.csrs, addr, value);
    if !h.mode.Machine? { WriteMprv(h.csrs, addr, h.mode, value); }
  }

  lemma StepSound(h: Hart, ev: Event)
    requires Sound(h)
    ensures Sound(Step(h, ev))
  {
    hide TakeTrap, TrapReturn, Read, Write, Accessible, PendingInterrupt, DirtyStatus, Narrow, Has, SatpSupported;
    match ev
    case Retire(_) =>
    case Raise(cause, tval) => TrapSound(h, cause, tval, h.pc, false);
    case Interrupt => if PendingInterrupt(h).Some? { TrapSound(h, PendingInterrupt(h).value, 0, h.pc, true); }
    case Mret => if MayReturn(h, true) { ReturnSound(h, true); } else { TrapSound(h, ILLEGAL, 0, h.pc, false); }
    case Sret => if MayReturn(h, false) { ReturnSound(h, false); } else { TrapSound(h, ILLEGAL, 0, h.pc, false); }
    case CsrWrite(addr, value) =>
      if Accessible(addr, h.mode, true) {
        WriteSound(h, addr, Narrow(h.csrs.xlen, value));
      } else {
        TrapSound(h, ILLEGAL, 0, h.pc, false);
      }
    case DirtyFloat =>
      ReadStatus(h.csrs);
      ShownMprv(h.csrs.xlen, h.csrs.regs[MSTATUS]);
      DirtyMprv(Read(h.csrs, MSTATUS));
    case Drive(_) =>
  }

  lemma {:induction false} RunSound(h: Hart, evs: seq<Event>)
    requires Sound(h)
    ensures Sound(Run(h, evs))
    decreases |evs|
  {
    hide Step, Sound;
    if evs != [] {
      StepSound(h, evs[0]);
      RunSound(Step(h, evs[0]), evs[1..]);
    }
  }

  /** In every run from reset, bare or handed to a kernel, MPRV is set only in machine mode and satp
      holds a scheme the hart implements. */
  lemma RunsFromReset(xlen: Xlen, entry: bv64, evs: seq<Event>)
    ensures Sound(Run(ResetHart(xlen), evs)) && Sound(Run(BootSupervisor(ResetHart(xlen), entry), evs))
  {
    assert Sound(ResetHart(xlen));
    assert Sound(BootSupervisor(ResetHart(xlen), entry));
    RunSound(ResetHart(xlen), evs);
    RunSound(BootSupervisor(ResetHart(xlen), entry), evs);
  }

  /** Privilege rises only by entering a trap handler, and falls only by a return. */
  lemma PrivilegeMoves(h: Hart, ev: Event)
    requires Sound(h)
    ensures var t := Step(h, ev);
            (t.mode.Rank() > h.mode.Rank() ==>
             exists cause: Cause, tval, interrupt :: t == TakeTrap(h, cause, tval, h.pc, interrupt)) &&
            (t.mode.Rank() < h.mode.Rank() ==> (ev.Mret? && h.mode.Machine?) || (ev.Sret? && !h.mode.User?))
  {
    hide TakeTrap, Read, Write, Accessible, PendingInterrupt, DirtyStatus, Narrow, Has, SatpSupported;
    match ev
    case Raise(cause, tval) => TrapSound(h, cause, tval, h.pc, false);
    case Interrupt => if PendingInterrupt(h).Some? { TrapSound(h, PendingInterrupt(h).value, 0, h.pc, true); }
    case Mret => if !MayReturn(h, true) { TrapSound(h, ILLEGAL, 0, h.pc, false); }
    case Sret => if !MayReturn(h, false) { TrapSound(h, ILLEGAL, 0, h.pc, false); }
    case CsrWrite(addr, _) => if !Accessible(addr, h.mode, true) { TrapSound(h, ILLEGAL, 0, h.pc, false); }
    case _ =>
  }
}
