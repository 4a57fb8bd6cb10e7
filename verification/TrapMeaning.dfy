/** Traps and interrupts in terms of the bits a handler sees: what is delegated, what interrupts
    whom, and what entry and return do to each field of mstatus. */
module TrapMeaning {
  import opened Basics
  import opened CsrModel
  import opened TrapModel
  import C = CsrMeaning

  predicate Bit(v: bv64, k: bv64) { k < 64 && (v >> k) & 1 == 1 }

  lemma SameBit(v: bv64, k: bv64)
    ensures Bit(v, k) == BitSet(v, k)
  {
  }

  // ---------------------------------------------------------------------------------------
  // Delegation

  /** Where a trap belongs: to the supervisor when it is taken below machine mode and its cause's bit is
      set, in medeleg for an exception and in mideleg for an interrupt, and else to machine mode. */
  function Destination(h: Hart, cause: Cause, interrupt: bool): Priv {
    if !h.mode.Machine? && Bit(Narrow(h.csrs.xlen, h.csrs.regs[if interrupt then 0x303 else 0x302]), cause)
    then Supervisor else Machine
  }

  /** That is where it goes. */
  lemma TrapIsRouted(h: Hart, cause: Cause, tval: bv64, epc: bv64, interrupt: bool)
    requires cause < 64
    ensures TakeTrap(h, cause, tval, epc, interrupt).mode == Destination(h, cause, interrupt)
  {
    SameBit(Narrow(h.csrs.xlen, h.csrs.regs[if interrupt then 0x303 else 0x302]), cause);
    hide TakeTrap, Bit, BitSet, Narrow, Status, Mask, Upper, RoundingMode;
    TakenState(h, cause, tval, epc, interrupt);
  }

  /** The causes that the firmware delegates. */
  lemma DelegatedCauses(cause: Cause)
    ensures Bit(0xB1FF, cause) <==>
            cause == 0 || cause == 1 || cause == 2 || cause == 3 || cause == 4 || cause == 5 || cause == 6 ||
            cause == 7 || cause == 8 || cause == 12 || cause == 13 || cause == 15
    ensures Bit(0x222, cause) <==> cause == 1 || cause == 5 || cause == 9
  {
  }

  /** At reset the hart is in machine mode at the start of DRAM, with every register zero but misa and,
      on RV64, the two width fields of mstatus. */
  lemma ResetState(xlen: Xlen)
    ensures var h := ResetHart(xlen);
            h.mode == Machine && h.pc == 0x8000_0000 && h.csrs.xlen == xlen &&
            h.csrs.regs[0x300] == (if xlen.Rv64? then 0xA_0000_0000 else 0) &&
            forall a: Addr :: a != 0x300 && a != 0x301 ==> h.csrs.regs[a] == 0
  {
    WidthFields();
    hide Misa;
  }

  lemma WidthFields()
    ensures STATUS_XLENS == 0xA_0000_0000
  {
  }

  /** The firmware hands a kernel the hart in supervisor mode at its entry, with its exceptions and
      interrupts delegated and the counters open to it and its programs. */
  lemma BootState(h: Hart, entry: bv64)
    ensures var k := BootSupervisor(h, entry);
            k.mode == Supervisor && k.pc == entry && k.csrs.xlen == h.csrs.xlen &&
            k.csrs.regs[0x302] == 0xB1FF && k.csrs.regs[0x303] == 0x222 &&
            k.csrs.regs[0x306] == 0xFFFF_FFFF_FFFF_FFFF && k.csrs.regs[0x106] == 0xFFFF_FFFF_FFFF_FFFF &&
            forall a: Addr :: a != 0x302 && a != 0x303 && a != 0x306 && a != 0x106 ==> k.csrs.regs[a] == h.csrs.regs[a]
  {
  }

  lemma NarrowDelegates(xlen: Xlen)
    ensures Narrow(xlen, 0xB1FF) == 0xB1FF && Narrow(xlen, 0x222) == 0x222
  {
  }

  /** Under the firmware a kernel and its programs trap to the kernel for every exception but the
      kernel's own environment call, and for the three supervisor interrupts. */
  lemma KernelHandles(xlen: Xlen, entry: bv64, mode: Priv, cause: Cause, tval: bv64, epc: bv64)
    requires !mode.Machine? && cause < 64
    ensures var h := BootSupervisor(ResetHart(xlen), entry).(mode := mode);
            (TakeTrap(h, cause, tval, epc, false).mode.Supervisor? <==>
             cause <= 8 || cause == 12 || cause == 13 || cause == 15) &&
            (TakeTrap(h, cause, tval, epc, true).mode.Supervisor? <==> cause == 1 || cause == 5 || cause == 9)
  {
    hide BootSupervisor, ResetHart, TakeTrap, Bit, Narrow;
    var h := BootSupervisor(ResetHart(xlen), entry).(mode := mode);
    ResetState(xlen);
    BootState(ResetHart(xlen), entry);
    NarrowDelegates(xlen);
    DelegatedCauses(cause);
    TrapIsRouted(h, cause, tval, epc, false);
    TrapIsRouted(h, cause, tval, epc, true);
    UpToEight(cause);
  }

  lemma UpToEight(cause: Cause)
    ensures cause <= 8 <==>
            cause == 0 || cause == 1 || cause == 2 || cause == 3 || cause == 4 || cause == 5 || cause == 6 ||
            cause == 7 || cause == 8
  {
  }

  /** Where the handler starts: at the vector register of the mode entered, less its two low bits, and
      for an interrupt when those are 1 four bytes further for each cause below its own. */
  lemma HandlerAddress(h: Hart, cause: Cause, tval: bv64, epc: bv64, interrupt: bool)
    requires cause < 64
    ensures var t := TakeTrap(h, cause, tval, epc, interrupt);
            var tvec := Narrow(h.csrs.xlen, h.csrs.regs[if t.mode.Machine? then 0x305 else 0x105]);
            t.pc == Fanned(Off(tvec, 3), if interrupt && Mask(tvec, 3) == 1 then cause else 0)
  {
    var t := TakeTrap(h, cause, tval, epc, interrupt);
    var tvec := Narrow(h.csrs.xlen, h.csrs.regs[if t.mode.Machine? then 0x305 else 0x105]);
    HandlerSees(h, cause, tval, epc, interrupt);
    PlainRead(h.csrs, if t.mode.Machine? then MTVEC else STVEC);
    VectorMeans(tvec, cause, interrupt);
    hide TakeTrap, Read, Vector, Narrow, Mask, Off, Fanned;
  }

  /** A cause with the top bit of the width set for an interrupt. */
  function Flagged(xlen: Xlen, cause: Cause, interrupt: bool): bv64 {
    if !interrupt then cause else if xlen.Rv32? then cause | 0x8000_0000 else cause | 0x8000_0000_0000_0000
  }

  /** What the handler reads, by address: the cause, the value and the return address. */
  lemma HandlerFinds(h: Hart, cause: Cause, tval: bv64, epc: bv64, interrupt: bool)
    requires cause < 64
    ensures var t := TakeTrap(h, cause, tval, epc, interrupt);
            var m, xlen := t.mode.Machine?, h.csrs.xlen;
            Read(t.csrs, if m then 0x342 else 0x142) == Flagged(xlen, cause, interrupt) &&
            Read(t.csrs, if m then 0x343 else 0x143) == Narrow(xlen, tval) &&
            Read(t.csrs, if m then 0x341 else 0x141) == Narrow(xlen, epc)
  {
    hide TakeTrap, Read, Vector, Code, Narrow, Flagged;
    var t := TakeTrap(h, cause, tval, epc, interrupt);
    var machine := t.mode.Machine?;
    TrapWrites(h, cause, tval, epc, interrupt);
    CodeIsFlagged(h.csrs.xlen, cause, interrupt);
    PlainRead(t.csrs, if machine then MCAUSE else SCAUSE);
    PlainRead(t.csrs, if machine then MTVAL else STVAL);
    PlainRead(t.csrs, if machine then MEPC else SEPC);
  }

  lemma CodeIsFlagged(xlen: Xlen, cause: Cause, interrupt: bool)
    requires cause < 64
    ensures Narrow(xlen, Code(xlen, cause, interrupt)) == Flagged(xlen, cause, interrupt)
  {
  }

  function Fanned(base: bv64, cause: Cause): bv64 { base + 4 * cause }

  lemma VectorMeans(tvec: bv64, cause: Cause, interrupt: bool)
    ensures Vector(tvec, cause, interrupt) == Fanned(Off(tvec, 3), if interrupt && Mask(tvec, 3) == 1 then cause else 0)
  {
    VectoredMeans(tvec);
    BaseMeans(tvec);
    SlotMeans(Base(tvec), cause);
    AtBase(Base(tvec));
    hide Vectored, Base, Slot, Mask, Off, Fanned;
  }

  lemma VectoredMeans(tvec: bv64)
    ensures Vectored(tvec) <==> Mask(tvec, 3) == 1
  {
  }

  lemma BaseMeans(tvec: bv64)
    ensures Base(tvec) == Off(tvec, 3)
  {
  }

  lemma SlotMeans(base: bv64, cause: Cause)
    ensures Slot(base, cause) == Fanned(base, cause)
  {
  }

  lemma AtBase(base: bv64)
    ensures Fanned(base, 0) == base
  {
  }

  // ---------------------------------------------------------------------------------------
  // Arbitration

  /** The interrupts: software, timer and external, for the supervisor and for the machine. */
  predicate IsInterrupt(c: Cause) { c == 1 || c == 3 || c == 5 || c == 7 || c == 9 || c == 11 }

  /** Pending and enabled, by its own bit of mip and mie. */
  predicate Ready(h: Hart, c: Cause) { Bit(h.csrs.regs[0x304], c) && Bit(h.csrs.regs[0x344], c) }

  /** Whether the hart's privilege lets it in. One that is delegated always interrupts a user, and a
      supervisor that has SIE set; one that is not always interrupts anything below machine mode, and
      machine mode when MIE is set. */
  predicate LetIn(h: Hart, c: Cause) {
    if Bit(h.csrs.regs[0x303], c) then h.mode.User? || (h.mode.Supervisor? && h.csrs.regs[0x300] & 0x2 != 0)
    else !h.mode.Machine? || h.csrs.regs[0x300] & 0x8 != 0
  }

  predicate ForMachine(c: Cause) { c == 3 || c == 7 || c == 11 }

  function Kind(c: Cause): nat { if c >= 8 then 2 else if c < 4 then 1 else 0 }

  /** The machine's interrupts come before the supervisor's; for each, external ones first, then
      software, then timer. */
  predicate Outranks(c: Cause, d: Cause) {
    (ForMachine(c) && !ForMachine(d)) || (ForMachine(c) == ForMachine(d) && Kind(c) > Kind(d))
  }

  /** The lines' masks, as software numbers them. */
  predicate LineBit(bit: bv64) {
    bit == 0x2 || bit == 0x8 || bit == 0x20 || bit == 0x80 || bit == 0x200 || bit == 0x800
  }

  lemma LinesOf(i: nat)
    requires i < 6
    ensures LineBit(ORDER[i].bit) && IsInterrupt(ORDER[i].cause)
  {
  }

  lemma SupervisorBits(a: bv64, b: bv64)
    ensures (a & b) & 0x2 != 0 <==> a & 0x2 != 0 && b & 0x2 != 0
    ensures (a & b) & 0x20 != 0 <==> a & 0x20 != 0 && b & 0x20 != 0
    ensures (a & b) & 0x200 != 0 <==> a & 0x200 != 0 && b & 0x200 != 0
  {
  }

  lemma MachineBits(a: bv64, b: bv64)
    ensures (a & b) & 0x8 != 0 <==> a & 0x8 != 0 && b & 0x8 != 0
    ensures (a & b) & 0x80 != 0 <==> a & 0x80 != 0 && b & 0x80 != 0
    ensures (a & b) & 0x800 != 0 <==> a & 0x800 != 0 && b & 0x800 != 0
  {
  }

  lemma HasMeans(v: bv64, bit: bv64)
    ensures Has(v, bit) <==> v & bit != 0
  {
  }

  lemma MaskedBit(a: bv64, b: bv64, bit: bv64)
    requires LineBit(bit)
    ensures Has(Mask(a, b), bit) <==> Has(a, bit) && Has(b, bit)
  {
    SupervisorBits(a, b);
    MachineBits(a, b);
    HasMeans(a & b, bit);
    HasMeans(a, bit);
    HasMeans(b, bit);
    hide Has;
  }

  lemma NarrowedBit(xlen: Xlen, v: bv64, bit: bv64)
    requires LineBit(bit)
    ensures Has(Narrow(xlen, v), bit) == Has(v, bit)
  {
  }

  lemma LineMeans(xlen: Xlen, i: nat, mie: bv64, mip: bv64, mideleg: bv64)
    requires i < 6
    ensures var l := ORDER[i];
            IsInterrupt(l.cause) &&
            (Has(Mask(Narrow(xlen, mie), Narrow(xlen, mip)), l.bit) <==> Bit(mie, l.cause) && Bit(mip, l.cause)) &&
            (Has(Narrow(xlen, mideleg), l.bit) <==> Bit(mideleg, l.cause))
  {
    LinesOf(i);
    LineBits(i, mie);
    LineBits(i, mip);
    LineBits(i, mideleg);
    SameBit(mie, ORDER[i].cause);
    SameBit(mip, ORDER[i].cause);
    SameBit(mideleg, ORDER[i].cause);
    hide BitSet, Bit, IsInterrupt;
    var bit := ORDER[i].bit;
    hide Has, Narrow, Mask, LineBit;
    MaskedBit(Narrow(xlen, mie), Narrow(xlen, mip), bit);
    NarrowedBit(xlen, mie, bit);
    NarrowedBit(xlen, mip, bit);
    NarrowedBit(xlen, mideleg, bit);
  }

  lemma EnablesMean(xlen: Xlen, raw: bv64)
    ensures Has(Narrow(xlen, Status(raw)), STATUS_SIE) == (raw & 0x2 != 0)
    ensures Has(Narrow(xlen, Status(raw)), STATUS_MIE) == (raw & 0x8 != 0)
  {
  }

  lemma PlainReads(c: Csrs)
    ensures Read(c, MIE) == Narrow(c.xlen, c.regs[0x304]) && Read(c, MIP) == Narrow(c.xlen, c.regs[0x344]) &&
            Read(c, MIDELEG) == Narrow(c.xlen, c.regs[0x303])
  {
    hide Narrow, Status, Mask, Upper, RoundingMode;
  }

  lemma TakesMeans(h: Hart, i: nat)
    requires i < 6
    ensures Takes(h, ORDER[i].bit) <==> Ready(h, ORDER[i].cause) && LetIn(h, ORDER[i].cause)
  {
    hide Read, Narrow, Status, Mask, Has, Bit, IsInterrupt;
    PlainReads(h.csrs);
    ReadStatus(h.csrs);
    LineMeans(h.csrs.xlen, i, h.csrs.regs[0x304], h.csrs.regs[0x344], h.csrs.regs[0x303]);
    EnablesMean(h.csrs.xlen, h.csrs.regs[0x300]);
  }

  lemma LineOf(c: Cause) returns (i: nat)
    requires IsInterrupt(c)
    ensures i < 6 && ORDER[i].cause == c
  {
    i := if c == 11 then 0 else if c == 3 then 1 else if c == 7 then 2
         else if c == 9 then 3 else if c == 1 then 4 else 5;
  }

  lemma EarlierOutranks(i: nat, j: nat)
    requires i < 6 && j < 6
    ensures IsInterrupt(ORDER[i].cause)
    ensures i < j <==> Outranks(ORDER[i].cause, ORDER[j].cause)
    ensures ORDER[i].cause == ORDER[j].cause ==> i == j
  {
  }

  /** c is the most urgent interrupt that is pending, enabled and let in. */
  ghost predicate MostUrgent(h: Hart, c: Cause) {
    IsInterrupt(c) && Ready(h, c) && LetIn(h, c) &&
    forall d: Cause :: d != c && IsInterrupt(d) && Ready(h, d) && LetIn(h, d) ==> Outranks(c, d)
  }

  /** The interrupt taken is the most urgent one that is pending, enabled and let in. */
  lemma PendingExactly(h: Hart, c: Cause)
    ensures PendingInterrupt(h) == Some(c) <==> MostUrgent(h, c)
  {
    hide PendingInterrupt, Ready, LetIn, Outranks, IsInterrupt, Takes;
    PendingIsFirst(h);
    forall i: nat | i < 6
      ensures Takes(h, ORDER[i].bit) <==> Ready(h, ORDER[i].cause) && LetIn(h, ORDER[i].cause)
    {
      TakesMeans(h, i);
    }
    if PendingInterrupt(h).Some? {
      var i: nat :| i < 6 && IsFirst(h, 0, i) && ORDER[i].cause == PendingInterrupt(h).value;
      FirstIsUrgent(h, i);
      if MostUrgent(h, c) { UrgentUnique(h, c, ORDER[i].cause); }
    } else if MostUrgent(h, c) {
      var i := LineOf(c);
    }
  }

  /** Taking the pending interrupt: the hart goes where the most urgent one belongs, with its flagged
      cause, no value and the interrupted address, and if there is none nothing happens. */
  lemma InterruptArrives(h: Hart, c: Cause)
    ensures MostUrgent(h, c) ==>
              var t := Step(h, Interrupt);
              var m, xlen := t.mode.Machine?, h.csrs.xlen;
              t.mode == Destination(h, c, true) && Read(t.csrs, if m then 0x342 else 0x142) == Flagged(xlen, c, true) &&
              Read(t.csrs, if m then 0x343 else 0x143) == 0 &&
              Read(t.csrs, if m then 0x341 else 0x141) == Narrow(xlen, h.pc)
    ensures (forall d: Cause :: !MostUrgent(h, d)) ==> Step(h, Interrupt) == h
  {
    hide TakeTrap, Read, Narrow, Flagged, Destination, PendingInterrupt, Ready, LetIn, Outranks;
    PendingExactly(h, c);
    if MostUrgent(h, c) {
      TrapIsRouted(h, c, 0, h.pc, true);
      HandlerFinds(h, c, 0, h.pc, true);
      NarrowZero(h.csrs.xlen);
    }
    if PendingInterrupt(h).Some? { PendingExactly(h, PendingInterrupt(h).value); }
  }

  lemma NarrowZero(xlen: Xlen)
    ensures Narrow(xlen, 0) == 0
  {
  }

  lemma FirstIsUrgent(h: Hart, i: nat)
    requires i < 6 && IsFirst(h, 0, i)
    ensures MostUrgent(h, ORDER[i].cause)
  {
    hide Ready, LetIn, Outranks, IsInterrupt, Takes;
    EarlierOutranks(i, i);
    TakesMeans(h, i);
    forall d: Cause | d != ORDER[i].cause && IsInterrupt(d) && Ready(h, d) && LetIn(h, d)
      ensures Outranks(ORDER[i].cause, d)
    {
      var j := LineOf(d);
      TakesMeans(h, j);
      EarlierOutranks(i, j);
    }
  }

  lemma UrgentUnique(h: Hart, c: Cause, d: Cause)
    requires MostUrgent(h, c) && MostUrgent(h, d)
    ensures c == d
  {
    hide Ready, LetIn, IsInterrupt;
  }

  // ---------------------------------------------------------------------------------------
  // The fields of mstatus

  /** What trap entry does to mstatus: the enable of the mode entered is pushed and cleared, the mode
      left is recorded, and nothing else changes. */
  predicate Pushed(s: bv64, t: bv64, from: Priv, machine: bool) {
    if machine then
      Mask(t, 0x8) == 0 && (Mask(t, 0x80) != 0) == (Mask(s, 0x8) != 0) &&
      Mask(t, 0x1800) == (if from.User? then 0 else if from.Supervisor? then 0x800 else 0x1800) &&
      Mask(t, !0x1888) == Mask(s, !0x1888)
    else
      Mask(t, 0x2) == 0 && (Mask(t, 0x20) != 0) == (Mask(s, 0x2) != 0) &&
      (Mask(t, 0x100) != 0) == from.Supervisor? && Mask(t, !0x122) == Mask(s, !0x122)
  }

  lemma PrivilegeField(from: Priv)
    ensures PrivBits(from) << 11 == if from.User? then 0 else if from.Supervisor? then 0x800 else 0x1800
    ensures (PrivBits(from) << 11) & 0x1800 == PrivBits(from) << 11
    ensures (PrivBits(from) << 11) & 0x8 == 0 && (PrivBits(from) << 11) & 0x80 == 0
    ensures (PrivBits(from) << 11) & !0x1888 == 0
  {
  }

  lemma MachineFields(s: bv64, p: bv64)
    requires p & 0x1800 == p && p & 0x8 == 0 && p & 0x80 == 0 && p & !0x1888 == 0
    ensures var t := Off(s, 0x1888);
            var e := On(if Has(s, 0x8) then On(t, 0x80) else t, p);
            Mask(e, 0x8) == 0 && (Mask(e, 0x80) != 0) == (Mask(s, 0x8) != 0) && Mask(e, 0x1800) == p &&
            Mask(e, !0x1888) == Mask(s, !0x1888)
  {
    hide On, Off, Mask;
    var t := Off(s, 0x1888);
    FieldCleared(s, 0x1888, 0x8);
    FieldCleared(s, 0x1888, 0x80);
    FieldCleared(s, 0x1888, 0x1800);
    BesideCleared(s, 0x1888, !0x1888);
    BesideSet(t, 0x80, 0x8);
    FieldSet(t, 0x80);
    BesideSet(t, 0x80, 0x1800);
    BesideSet(t, 0x80, !0x1888);
    var u := if Has(s, 0x8) then On(t, 0x80) else t;
    BesideSet(u, p, 0x8);
    BesideSet(u, p, 0x80);
    FieldPlaced(u, p, 0x1800);
    BesideSet(u, p, !0x1888);
  }

  lemma MachinePushes(s: bv64, from: Priv)
    ensures Pushed(s, MachineEntry(s, from), from, true)
  {
    PrivilegeField(from);
    hide On, Off, Mask, Has, PrivBits;
    MachineFields(s, PrivBits(from) << 11);
  }

  lemma SupervisorPushes(s: bv64, from: Priv)
    ensures Pushed(s, SupervisorEntry(s, from), from, false)
  {
    hide On, Off, Mask;
    var t := Off(s, 0x122);
    FieldCleared(s, 0x122, 0x2);
    FieldCleared(s, 0x122, 0x20);
    FieldCleared(s, 0x122, 0x100);
    BesideCleared(s, 0x122, !0x122);
    BesideSet(t, 0x20, 0x2);
    FieldSet(t, 0x20);
    BesideSet(t, 0x20, 0x100);
    BesideSet(t, 0x20, !0x122);
    var u := if Has(s, 0x2) then On(t, 0x20) else t;
    BesideSet(u, 0x100, 0x2);
    BesideSet(u, 0x100, 0x20);
    FieldSet(u, 0x100);
    BesideSet(u, 0x100, !0x122);
    assert SupervisorEntry(s, from) == if from.Supervisor? then On(u, 0x100) else u;
  }

  lemma EntryPushes(h: Hart, cause: Cause, tval: bv64, epc: bv64, interrupt: bool)
    ensures var t := TakeTrap(h, cause, tval, epc, interrupt);
            Pushed(Read(h.csrs, MSTATUS), Read(t.csrs, MSTATUS), h.mode, t.mode.Machine?)
  {
    hide TakeTrap, Read, BitSet, MachineEntry, SupervisorEntry, Status, Narrow, Pushed, Shown;
    var t := TakeTrap(h, cause, tval, epc, interrupt);
    var s := Read(h.csrs, MSTATUS);
    TakenState(h, cause, tval, epc, interrupt);
    ReadStatus(h.csrs);
    ReadStatus(t.csrs);
    ReadShown(h.csrs.xlen, h.csrs.regs[MSTATUS]);
    MachineEntryShown(h.csrs.xlen, s, h.mode);
    SupervisorEntryShown(h.csrs.xlen, s, h.mode);
    ShownStays(h.csrs.xlen, MachineEntry(s, h.mode));
    ShownStays(h.csrs.xlen, SupervisorEntry(s, h.mode));
    MachinePushes(s, h.mode);
    SupervisorPushes(s, h.mode);
  }

  lemma ShownStays(xlen: Xlen, s: bv64)
    ensures Shown(xlen, s) ==> Narrow(xlen, Status(s)) == s
  {
    hide Narrow, Status;
  }

  /** What a return does to mstatus: the pushed enable comes back, its place is left set, the recorded
      mode is dropped to user, MPRV survives only into machine mode, and nothing else changes. */
  predicate Popped(s: bv64, t: bv64, to: Priv, machine: bool) {
    (to.Machine? ==> Mask(t, 0x2_0000) == Mask(s, 0x2_0000)) && (!to.Machine? ==> Mask(t, 0x2_0000) == 0) &&
    if machine then
      (Mask(t, 0x8) != 0) == (Mask(s, 0x80) != 0) && Mask(t, 0x80) != 0 && Mask(t, 0x1800) == 0 &&
      Mask(t, !0x2_1888) == Mask(s, !0x2_1888)
    else
      (Mask(t, 0x2) != 0) == (Mask(s, 0x20) != 0) && Mask(t, 0x20) != 0 && Mask(t, 0x100) == 0 &&
      Mask(t, !0x2_0122) == Mask(s, !0x2_0122)
  }

  /** The mode that mstatus records for a return. */
  function Recorded(s: bv64, machine: bool): Priv {
    if machine then
      if Mask(s, 0x1800) == 0 then User else if Mask(s, 0x1800) == 0x800 then Supervisor else Machine
    else if Mask(s, 0x100) != 0 then Supervisor else User
  }

  lemma RecordedMode(s: bv64, machine: bool)
    ensures ReturnMode(s, machine) == Recorded(s, machine)
  {
  }

  lemma MachinePops(s: bv64)
    ensures var t := Off(s, 0x1808);
            var u := On(if Has(s, 0x80) then On(t, 0x8) else t, 0x80);
            (Mask(u, 0x8) != 0) == (Mask(s, 0x80) != 0) && Mask(u, 0x80) != 0 && Mask(u, 0x1800) == 0 &&
            Mask(u, !0x2_1888) == Mask(s, !0x2_1888) && Mask(u, 0x2_0000) == Mask(s, 0x2_0000)
  {
    hide On, Off, Mask;
    var t := Off(s, 0x1808);
    FieldCleared(s, 0x1808, 0x8);
    FieldCleared(s, 0x1808, 0x1800);
    BesideCleared(s, 0x1808, !0x2_1888);
    BesideCleared(s, 0x1808, 0x2_0000);
    FieldSet(t, 0x8);
    BesideSet(t, 0x8, 0x1800);
    BesideSet(t, 0x8, !0x2_1888);
    BesideSet(t, 0x8, 0x2_0000);
    var v := if Has(s, 0x80) then On(t, 0x8) else t;
    BesideSet(v, 0x80, 0x8);
    FieldSet(v, 0x80);
    BesideSet(v, 0x80, 0x1800);
    BesideSet(v, 0x80, !0x2_1888);
    BesideSet(v, 0x80, 0x2_0000);
  }

  lemma SupervisorPops(s: bv64)
    ensures var t := Off(s, 0x102);
            var u := On(if Has(s, 0x20) then On(t, 0x2) else t, 0x20);
            (Mask(u, 0x2) != 0) == (Mask(s, 0x20) != 0) && Mask(u, 0x20) != 0 && Mask(u, 0x100) == 0 &&
            Mask(u, !0x2_0122) == Mask(s, !0x2_0122) && Mask(u, 0x2_0000) == Mask(s, 0x2_0000)
  {
    hide On, Off, Mask;
    var t := Off(s, 0x102);
    FieldCleared(s, 0x102, 0x2);
    FieldCleared(s, 0x102, 0x100);
    BesideCleared(s, 0x102, !0x2_0122);
    BesideCleared(s, 0x102, 0x2_0000);
    FieldSet(t, 0x2);
    BesideSet(t, 0x2, 0x100);
    BesideSet(t, 0x2, !0x2_0122);
    BesideSet(t, 0x2, 0x2_0000);
    var v := if Has(s, 0x20) then On(t, 0x2) else t;
    BesideSet(v, 0x20, 0x2);
    FieldSet(v, 0x20);
    BesideSet(v, 0x20, 0x100);
    BesideSet(v, 0x20, !0x2_0122);
    BesideSet(v, 0x20, 0x2_0000);
  }

  /** Dropping MPRV leaves every other field. */
  lemma PrivilegeDropped(u: bv64, k: bv64)
    requires 0x2_0000 & k == 0
    ensures Mask(Off(u, 0x2_0000), k) == Mask(u, k)
  {
  }

  lemma StatusPops(s: bv64, machine: bool)
    ensures Popped(s, ReturnStatus(s, machine), ReturnMode(s, machine), machine)
  {
    hide On, Off, Mask, Has, ReturnMode;
    var (pie, ie, pp) := if machine then (0x80, 0x8, 0x1800) else (0x20, 0x2, 0x100);
    var rest: bv64 := if machine then !0x2_1888 else !0x2_0122;
    MachinePops(s);
    SupervisorPops(s);
    var t := Off(s, ie | pp);
    var u := On(if Has(s, pie) then On(t, ie) else t, pie);
    PrivilegeDropped(u, ie);
    PrivilegeDropped(u, pie);
    PrivilegeDropped(u, pp);
    PrivilegeDropped(u, rest);
    FieldSet(u, 0x2_0000);
  }

  lemma ReturnShown(xlen: Xlen, s: bv64, machine: bool)
    requires Shown(xlen, s)
    ensures Shown(xlen, ReturnStatus(s, machine))
  {
    hide Shown, On, Off, Has, ReturnMode;
    var (pie, ie, pp) :=
      if machine then (STATUS_MPIE, STATUS_MIE, STATUS_MPP) else (STATUS_SPIE, STATUS_SIE, STATUS_SPP);
    var t := Off(s, ie | pp);
    ShownApart(xlen, s, ie | pp);
    ShownApart(xlen, t, ie);
    var u := if Has(s, pie) then On(t, ie) else t;
    ShownApart(xlen, u, pie);
    ShownApart(xlen, On(u, pie), STATUS_MPRV);
  }

  /** A return goes to the recorded mode and the saved address, and pops the level's fields. */
  lemma ReturnPops(h: Hart, machine: bool)
    ensures var r, s := TrapReturn(h, machine), Read(h.csrs, MSTATUS);
            r.mode == Recorded(s, machine) && Popped(s, Read(r.csrs, MSTATUS), r.mode, machine) &&
            r.pc == Narrow(h.csrs.xlen, h.csrs.regs[if machine then 0x341 else 0x141])
  {
    hide TrapReturn, Read, ReturnMode, ReturnStatus, Recorded, Status, Narrow, Popped, Shown;
    var s := Read(h.csrs, MSTATUS);
    ReturnedState(h, machine);
    ReadStatus(h.csrs);
    ReadShown(h.csrs.xlen, h.csrs.regs[MSTATUS]);
    ReturnShown(h.csrs.xlen, s, machine);
    ShownStays(h.csrs.xlen, ReturnStatus(s, machine));
    RecordedMode(s, machine);
    StatusPops(s, machine);
  }

  /** Who may return: machine mode from either level, a supervisor from its own unless TSR is set, a
      user from neither. Anything else is an illegal instruction. */
  lemma ReturnsAllowed(h: Hart)
    ensures Step(h, Mret) == if h.mode.Machine? then TrapReturn(h, true) else TakeTrap(h, 2, 0, h.pc, false)
    ensures Step(h, Sret) ==
            if h.mode.Machine? || (h.mode.Supervisor? && h.csrs.regs[0x300] & 0x40_0000 == 0)
            then TrapReturn(h, false) else TakeTrap(h, 2, 0, h.pc, false)
  {
    hide TrapReturn, TakeTrap, Status, Narrow;
    ReadStatus(h.csrs);
    ShownTsr(h.csrs.xlen, h.csrs.regs[MSTATUS]);
    hide Read, Has;
  }

  lemma ShownTsr(xlen: Xlen, raw: bv64)
    ensures Has(Narrow(xlen, Status(raw)), STATUS_TSR) <==> raw & 0x40_0000 != 0
  {
  }

  /** An instruction that changes the floating-point state leaves its field of mstatus all ones, and
      every other but the summary bit as it was. */
  lemma FloatMarksDirty(h: Hart)
    ensures var s, t := Read(h.csrs, MSTATUS), Read(Step(h, DirtyFloat).csrs, MSTATUS);
            Mask(t, 0x6000) == 0x6000 && Mask(t, 0x7FFF_FFFF_FFFF_9FFF) == Mask(s, 0x7FFF_FFFF_FFFF_9FFF)
  {
    var xlen, s := h.csrs.xlen, Read(h.csrs, MSTATUS);
    ReadStatus(h.csrs);
    ReadStatus(Step(h, DirtyFloat).csrs);
    hide Read, Mask, Narrow, Status;
    DirtyBits(s);
    SummaryBeside(DirtyStatus(s));
    C.NarrowFields(xlen, Status(DirtyStatus(s)), 0x6000);
    C.NarrowFields(xlen, Status(DirtyStatus(s)), 0x7FFF_FFFF_FFFF_9FFF);
    NarrowAgain(xlen, h.csrs.regs[MSTATUS]);
    C.NarrowFields(xlen, s, 0x7FFF_FFFF_FFFF_9FFF);
    NarrowField(xlen);
  }

  lemma DirtyBits(s: bv64)
    ensures Mask(DirtyStatus(s), 0x6000) == 0x6000
    ensures Mask(DirtyStatus(s), 0x7FFF_FFFF_FFFF_9FFF) == Mask(s, 0x7FFF_FFFF_FFFF_9FFF)
  {
    hide On, Off, Mask;
    FieldSet(Off(s, 0x6000), 0x6000);
    BesideSet(Off(s, 0x6000), 0x6000, 0x7FFF_FFFF_FFFF_9FFF);
    BesideCleared(s, 0x6000, 0x7FFF_FFFF_FFFF_9FFF);
  }

  lemma SummaryBeside(v: bv64)
    ensures Mask(Status(v), 0x6000) == Mask(v, 0x6000)
    ensures Mask(Status(v), 0x7FFF_FFFF_FFFF_9FFF) == Mask(v, 0x7FFF_FFFF_FFFF_9FFF)
  {
    hide On, Off, Mask, Full;
    BesideSet(v, STATUS_SD, 0x6000);
    BesideCleared(v, STATUS_SD, 0x6000);
    BesideSet(v, STATUS_SD, 0x7FFF_FFFF_FFFF_9FFF);
    BesideCleared(v, STATUS_SD, 0x7FFF_FFFF_FFFF_9FFF);
  }

  lemma NarrowAgain(xlen: Xlen, raw: bv64)
    ensures Narrow(xlen, Narrow(xlen, Status(raw))) == Narrow(xlen, Status(raw))
  {
    hide Status;
  }

  lemma NarrowField(xlen: Xlen)
    ensures Narrow(xlen, 0x6000) == 0x6000
  {
  }
}
