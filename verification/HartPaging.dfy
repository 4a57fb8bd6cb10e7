/** Registers, page tables and traps together: what the bits of mstatus do to an access, and how a
    page fault reaches the kernel's handler and the faulting program comes back. */
module HartPaging {
  import opened Basics
  import opened CsrModel
  import Mmu
  import HartMemory
  import C = Tlb
  import A = PagedAccess
  import O = AccessOutcome
  import P = PageTables
  import T = TrapModel
  import M = TrapMeaning

  /** The privilege in bits 12:11. */
  function Previous(status: bv64): Priv {
    if Mask(status, 0x1800) == 0 then User else if Mask(status, 0x1800) == 0x800 then Supervisor else Machine
  }

  lemma RawBits(xlen: Xlen, raw: bv64)
    ensures var s := Narrow(xlen, Status(raw));
            Has(s, STATUS_SUM) == Has(raw, 0x4_0000) && Has(s, STATUS_MXR) == Has(raw, 0x8_0000) &&
            Has(s, STATUS_MPRV) == Has(raw, 0x2_0000)
  {
  }

  lemma RawMode(xlen: Xlen, raw: bv64)
    ensures MppOf(Narrow(xlen, Status(raw))) == Previous(raw)
  {
  }

  /** What the bits of mstatus are to a translation: bit 17 is MPRV, bit 18 SUM, bit 19 MXR, and bits
      12:11 the privilege that MPRV lends. */
  lemma StatusBits(c: Csrs, mode: Priv)
    ensures var r, s := HartMemory.RegsOf(c, mode), c.regs[0x300];
            r.mprv == Has(s, 0x2_0000) && r.sum == Has(s, 0x4_0000) && r.mxr == Has(s, 0x8_0000) &&
            r.mpp == Previous(s) && r.mode == mode && r.satp == Number(Narrow(c.xlen, c.regs[0x180]))
  {
    hide Has, Mask, MppOf, Previous, Status, Narrow, Number, Upper, RoundingMode;
    T.ReadStatus(c);
    RawBits(c.xlen, c.regs[0x300]);
    RawMode(c.xlen, c.regs[0x300]);
  }

  /** An access of a hart, translated by its registers. */
  function Translated(dram: seq<byte>, c: Csrs, mode: Priv, va: nat, access: Access): Mmu.Res {
    Mmu.Translate(dram, c.xlen, HartMemory.RegsOf(c, mode), va, access).0
  }

  /** A page whose last entry is aligned and has the given flags in its low bits. */
  predicate PageWith(
    dram: seq<byte>, c: Csrs, mode: Priv, va: nat, path: seq<nat>, r: bool, w: bool, x: bool, u: bool
  ) {
    var satp := HartMemory.RegsOf(c, mode).satp;
    va < 0x1_0000_0000_0000_0000 && P.Paging(c.xlen, satp) && P.SignExtended(c.xlen, va) &&
    P.Mapping(dram, c.xlen, satp, va, path) &&
    var pte := path[|path| - 1];
    P.FrameOf(c.xlen, pte) * 0x1000 % P.Extent(c.xlen, |path| - 1) == 0 &&
    P.Flag(pte, 2) == r && P.Flag(pte, 4) == w && P.Flag(pte, 8) == x && P.Flag(pte, 16) == u
  }

  /** A supervisor reaches a user's page, readable and writable, exactly while bit 18 of mstatus is set,
      and never executes it. */
  lemma SumOpensUserPages(dram: seq<byte>, c: Csrs, va: nat, x: bool, path: seq<nat>)
    requires !Has(c.regs[0x300], 0x2_0000) && PageWith(dram, c, Supervisor, va, path, true, true, x, true)
    ensures Translated(dram, c, Supervisor, va, Load).Ok? <==> Has(c.regs[0x300], 0x4_0000)
    ensures Translated(dram, c, Supervisor, va, Store).Ok? <==> Has(c.regs[0x300], 0x4_0000)
    ensures !Translated(dram, c, Supervisor, va, Fetch).Ok?
  {
    hide Has, HartMemory.RegsOf, Mmu.Translate, P.Mapping, P.Flag, P.Paging, P.SignExtended, P.FrameOf, P.Extent,
         P.Landing;
    StatusBits(c, Supervisor);
    var r := HartMemory.RegsOf(c, Supervisor);
    P.PathAnswers(dram, c.xlen, r, va, Load, path);
    P.PathAnswers(dram, c.xlen, r, va, Store, path);
    P.PathAnswers(dram, c.xlen, r, va, Fetch, path);
  }

  /** A page that is executable and not readable can be loaded from exactly while bit 19 of mstatus is
      set: by a user one of the user's, by a supervisor one of its own. */
  lemma MxrReadsCode(dram: seq<byte>, c: Csrs, mode: Priv, va: nat, path: seq<nat>)
    requires !mode.Machine? && !Has(c.regs[0x300], 0x2_0000)
    requires PageWith(dram, c, mode, va, path, false, false, true, mode.User?)
    ensures Translated(dram, c, mode, va, Load).Ok? <==> Has(c.regs[0x300], 0x8_0000)
    ensures Translated(dram, c, mode, va, Fetch).Ok?
  {
    hide Has, HartMemory.RegsOf, Mmu.Translate, P.Mapping, P.Flag, P.Paging, P.SignExtended, P.FrameOf, P.Extent,
         P.Landing;
    StatusBits(c, mode);
    var r := HartMemory.RegsOf(c, mode);
    P.PathAnswers(dram, c.xlen, r, va, Load, path);
    P.PathAnswers(dram, c.xlen, r, va, Fetch, path);
  }

  /** Machine mode translates nothing, except that with bit 17 of mstatus set its loads and stores are
      those of the privilege in bits 12:11. */
  lemma MprvLends(dram: seq<byte>, c: Csrs, va: nat, access: Access)
    ensures access.Fetch? || !Has(c.regs[0x300], 0x2_0000) ==> Translated(dram, c, Machine, va, access) == Mmu.Ok(va)
    ensures !access.Fetch? && Has(c.regs[0x300], 0x2_0000) ==>
              var p := Previous(c.regs[0x300]);
              Translated(dram, c, Machine, va, access) ==
              Mmu.Translate(dram, c.xlen, HartMemory.RegsOf(c, p).(mprv := false), va, access).0
  {
    hide Has, Previous, HartMemory.RegsOf, Mmu.WalkFrom, Mmu.Permitted, Mmu.SchemeOf, Mmu.Canonical, Mmu.Splice,
         Mmu.HasBits, Mmu.Ppn, Mmu.Mark;
    StatusBits(c, Machine);
    StatusBits(c, Previous(c.regs[0x300]));
  }

  // ---------------------------------------------------------------------------------------
  // Page faults reach the kernel

  function Word(v: nat): bv64 { (v % 0x1_0000_0000_0000_0000) as bv64 }

  /** The exception a load or store that ends in a fault raises. */
  function Raised(done: A.Done, va: nat, access: Access): Option<T.Event> {
    match done
    case PageFaultAt(w) =>
      Some(T.Raise(match access case Fetch => 12 case Load => 13 case Store => 15, Word(w)))
    case AccessFault => Some(T.Raise(match access case Fetch => 1 case Load => 5 case Store => 7, Word(va)))
    case _ => None
  }

  /** What the kernel's handler finds after an exception that it was delegated. */
  ghost predicate Delivered(h: T.Hart, t: T.Hart, cause: bv64, value: bv64) {
    t.mode.Supervisor? && t.pc == T.Vector(Read(h.csrs, STVEC), cause, false) &&
    Read(t.csrs, SCAUSE) == cause && Read(t.csrs, STVAL) == Narrow(h.csrs.xlen, value) &&
    Read(t.csrs, SEPC) == Narrow(h.csrs.xlen, h.pc) &&
    T.TrapReturn(t, false).mode == h.mode && T.TrapReturn(t, false).pc == Narrow(h.csrs.xlen, h.pc)
  }

  /** A load whose address does not translate takes the hart, below machine mode and with that fault
      delegated, to the kernel: the cause is 13, the value the address, and the kernel's return runs
      the load again in the mode it came from. One that crosses into a page that does not translate
      arrives the same way, with the address of that page. */
  lemma LoadFaultReachesKernel(h: T.Hart, dram: seq<byte>, t: C.Cache, va: nat, size: nat)
    requires 1 <= size <= 8 && !h.mode.Machine? && M.Bit(Narrow(h.csrs.xlen, h.csrs.regs[0x302]), 13)
    ensures var r := HartMemory.HartRegs(h);
            var (res, after, t2) := C.Cached(dram, t, h.csrs.xlen, r, va, Load);
            var ev := Raised(A.Load(dram, t, h.csrs.xlen, r, va, size).done, va, Load);
            (res.PageFault? ==> ev.Some? && Delivered(h, T.Step(h, ev.value), 13, Word(va))) &&
            (res.Ok? && O.Crosses(va, size) && O.Lands(after, res.pa, O.Room(va)) &&
             C.Cached(after, t2, h.csrs.xlen, r, O.NextPage(va), Load).0.PageFault? ==>
               ev.Some? && Delivered(h, T.Step(h, ev.value), 13, Word(O.NextPage(va))))
  {
    hide C.Cached, A.Load, O.Crosses, O.Lands, O.Room, HartMemory.RegsOf, T.TakeTrap, Word, Delivered, M.Bit;
    O.PageFaultsExactly(dram, t, h.csrs.xlen, HartMemory.HartRegs(h), va, size, 0, va);
    O.PageFaultsExactly(dram, t, h.csrs.xlen, HartMemory.HartRegs(h), va, size, 0, O.NextPage(va));
    FaultDelivered(h, 13, Word(va));
    FaultDelivered(h, 13, Word(O.NextPage(va)));
  }

  /** A store likewise, with cause 15. */
  lemma StoreFaultReachesKernel(h: T.Hart, dram: seq<byte>, t: C.Cache, va: nat, size: nat, v: nat)
    requires 1 <= size <= 8 && !h.mode.Machine? && M.Bit(Narrow(h.csrs.xlen, h.csrs.regs[0x302]), 15)
    ensures var r := HartMemory.HartRegs(h);
            var (res, after, t2) := C.Cached(dram, t, h.csrs.xlen, r, va, Store);
            var ev := Raised(A.Store(dram, t, h.csrs.xlen, r, va, size, v).done, va, Store);
            (res.PageFault? ==> ev.Some? && Delivered(h, T.Step(h, ev.value), 15, Word(va))) &&
            (res.Ok? && O.Crosses(va, size) &&
             C.Cached(after, t2, h.csrs.xlen, r, O.NextPage(va), Store).0.PageFault? ==>
               ev.Some? && Delivered(h, T.Step(h, ev.value), 15, Word(O.NextPage(va))))
  {
    hide C.Cached, A.Store, O.Crosses, O.Lands, O.Room, HartMemory.RegsOf, T.TakeTrap, Word, Delivered, M.Bit;
    O.PageFaultsExactly(dram, t, h.csrs.xlen, HartMemory.HartRegs(h), va, size, v, va);
    O.PageFaultsExactly(dram, t, h.csrs.xlen, HartMemory.HartRegs(h), va, size, v, O.NextPage(va));
    FaultDelivered(h, 15, Word(va));
    FaultDelivered(h, 15, Word(O.NextPage(va)));
  }

  lemma FaultDelivered(h: T.Hart, cause: bv64, value: bv64)
    requires !h.mode.Machine? && cause < 32 && M.Bit(Narrow(h.csrs.xlen, h.csrs.regs[0x302]), cause)
    ensures Delivered(h, T.TakeTrap(h, cause, value, h.pc, false), cause, value)
  {
    hide T.TakeTrap, T.TrapReturn, Read, Narrow, M.Bit, T.Vector, Has, Off, T.InterruptFlag, T.Restored;
    M.TrapIsRouted(h, cause, value, h.pc, false);
    T.HandlerSees(h, cause, value, h.pc, false);
    T.TrapThenReturn(h, cause, value, false);
    var code := Read(T.TakeTrap(h, cause, value, h.pc, false).csrs, SCAUSE);
    NoFlag(h.csrs.xlen, code);
  }

  lemma NoFlag(xlen: Xlen, code: bv64)
    ensures !Has(code, T.InterruptFlag(xlen)) ==> Off(code, T.InterruptFlag(xlen)) == code
  {
  }
}
