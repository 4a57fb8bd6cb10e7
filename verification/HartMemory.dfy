/** The hart and its translations together: runs in which traps, returns and register writes set the
    registers that accesses are translated with. */
module HartMemory {
  import opened Basics
  import opened CsrModel
  import Mmu
  import T = TrapModel
  import C = Tlb
  import R = TlbRuns

  /** What a translation takes from the registers. */
  function RegsOf(c: Csrs, mode: Priv): Mmu.Regs {
    var status := Read(c, MSTATUS);
    Mmu.Regs(Number(Read(c, SATP)), Has(status, STATUS_SUM), Has(status, STATUS_MXR), Has(status, STATUS_MPRV),
             MppOf(status), mode)
  }

  function HartRegs(h: T.Hart): Mmu.Regs { RegsOf(h.csrs, h.mode) }

  /** A step of the hart that changes its registers, or one that concerns memory. */
  datatype Event = Hart(ev: T.Event) | Access(touch: R.Event)

  /** The memory side of a step: a hart step changes the registers translations use. */
  function MemoryStep(h: T.Hart, ev: Event): R.Event {
    match ev
    case Hart(e) => R.SetRegs(HartRegs(T.Step(h, e)))
    case Access(e) => e
  }

  function HartStep(h: T.Hart, ev: Event): T.Hart { if ev.Hart? then T.Step(h, ev.ev) else h }

  /** The hart before event k. */
  function HartBefore(h: T.Hart, evs: seq<Event>, k: nat): T.Hart
    requires k <= |evs|
    decreases k
  {
    if k == 0 then h else HartStep(HartBefore(h, evs, k - 1), evs[k - 1])
  }

  /** The run as memory sees it. Only the hart sets the registers. */
  function MemoryRun(h: T.Hart, evs: seq<Event>): seq<R.Event> {
    seq(|evs|, k requires 0 <= k < |evs| => MemoryStep(HartBefore(h, evs, k), evs[k]))
  }

  predicate Separate(evs: seq<Event>) { forall k :: 0 <= k < |evs| && evs[k].Access? ==> !evs[k].touch.SetRegs? }

  // ---------------------------------------------------------------------------------------

  lemma TrapWidth(h: T.Hart, cause: T.Cause, tval: bv64, interrupt: bool)
    ensures T.TakeTrap(h, cause, tval, h.pc, interrupt).csrs.xlen == h.csrs.xlen
  {
    hide T.TakeTrap;
    T.TakenState(h, cause, tval, h.pc, interrupt);
  }

  lemma StepWidth(h: T.Hart, ev: T.Event)
    ensures T.Step(h, ev).csrs.xlen == h.csrs.xlen
  {
    hide T.TakeTrap, T.TrapReturn, T.PendingInterrupt, T.MayReturn, T.DirtyStatus, Accessible, Read, Stored, Narrow,
         Target;
    TrapWidth(h, T.ILLEGAL, 0, false);
    match ev
    case Raise(cause, tval) => TrapWidth(h, cause, tval, false);
    case Interrupt => if T.PendingInterrupt(h).Some? { TrapWidth(h, T.PendingInterrupt(h).value, 0, true); }
    case Mret => T.ReturnedState(h, true);
    case Sret => T.ReturnedState(h, false);
    case _ =>
  }

  lemma {:induction false} HartSound(h: T.Hart, evs: seq<Event>, k: nat)
    requires T.Sound(h) && k <= |evs|
    ensures T.Sound(HartBefore(h, evs, k)) && HartBefore(h, evs, k).csrs.xlen == h.csrs.xlen
    decreases k
  {
    hide T.Sound, T.Step;
    if k > 0 {
      HartSound(h, evs, k - 1);
      if evs[k - 1].Hart? {
        T.StepSound(HartBefore(h, evs, k - 1), evs[k - 1].ev);
        StepWidth(HartBefore(h, evs, k - 1), evs[k - 1].ev);
      }
    }
  }

  /** Memory translates with the hart's registers of the moment. */
  lemma {:induction false} RegsFollow(xlen: Xlen, s: R.State, h: T.Hart, evs: seq<Event>, k: nat)
    requires s.regs == HartRegs(h) && Separate(evs) && k <= |evs|
    ensures R.Before(xlen, s, MemoryRun(h, evs), k).regs == HartRegs(HartBefore(h, evs, k))
    decreases k
  {
    hide T.Step, HartRegs, C.Cached, C.FillersAfter, C.AfterTouch, C.AfterStore, C.Poke, C.Flushed;
    if k > 0 { RegsFollow(xlen, s, h, evs, k - 1); }
  }

  /** Below machine mode MPRV is clear. */
  lemma SoundClear(h: T.Hart)
    requires T.Sound(h) && !h.mode.Machine?
    ensures !HartRegs(h).mprv
  {
    hide Has, Status, Narrow, SatpSupported, Number, MppOf;
    T.ReadStatus(h.csrs);
    T.ShownMprv(h.csrs.xlen, h.csrs.regs[MSTATUS]);
  }

  /** Every access below machine mode is transparent: in any run from a sound hart and a consistent
      cache, a fetch, load or store made in user or supervisor mode through current tables gets the
      answer and leaves the memory of a fresh walk, which is also the answer of a hart that never
      caches. */
  lemma BelowMachineTransparent(s: R.State, h: T.Hart, evs: seq<Event>, k: nat)
    requires T.Sound(h) && s.regs == HartRegs(h) && R.Consistent(h.csrs.xlen, s) && Separate(evs)
    requires k < |evs| && evs[k].Access? && evs[k].touch.Touch? && !HartBefore(h, evs, k).mode.Machine?
    requires var b := R.Before(h.csrs.xlen, s, MemoryRun(h, evs), k);
             C.Current(b.book, h.csrs.xlen, b.regs, evs[k].touch.va, evs[k].touch.access)
    ensures var xlen, run, va, access := h.csrs.xlen, MemoryRun(h, evs), evs[k].touch.va, evs[k].touch.access;
            var b := R.Before(xlen, s, run, k);
            b.regs == HartRegs(HartBefore(h, evs, k)) &&
            (R.Answer(xlen, b, va, access), R.Step(xlen, b, evs[k].touch).dram) ==
             Mmu.Translate(b.dram, xlen, b.regs, va, access) &&
            R.Answer(xlen, b, va, access) == Mmu.Translate(R.WalkedBefore(xlen, s, run, k), xlen, b.regs, va, access).0
  {
    hide T.Sound, HartRegs, HartBefore, R.Before, R.WalkedBefore, R.Answer, R.Step, R.Consistent, C.Current,
         Mmu.Translate;
    HartSound(h, evs, k);
    RegsFollow(h.csrs.xlen, s, h, evs, k);
    SoundClear(HartBefore(h, evs, k));
    R.MprvClearTransparent(h.csrs.xlen, s, MemoryRun(h, evs), k);
  }

  /** In particular from reset, bare or handed to a kernel. */
  lemma FromReset(xlen: Xlen, dram: seq<byte>, entry: bv64)
    ensures var bare, kernel := T.ResetHart(xlen), T.BootSupervisor(T.ResetHart(xlen), entry);
            T.Sound(bare) && R.Consistent(xlen, R.Reset(dram, HartRegs(bare))) && bare.csrs.xlen == xlen &&
            T.Sound(kernel) && R.Consistent(xlen, R.Reset(dram, HartRegs(kernel))) && kernel.csrs.xlen == xlen
  {
    hide R.Consistent, HartRegs;
    T.RunsFromReset(xlen, entry, []);
    assert T.Run(T.ResetHart(xlen), []) == T.ResetHart(xlen);
    assert T.Run(T.BootSupervisor(T.ResetHart(xlen), entry), []) == T.BootSupervisor(T.ResetHart(xlen), entry);
    R.ResetConsistent(xlen, dram, HartRegs(T.ResetHart(xlen)));
    R.ResetConsistent(xlen, dram, HartRegs(T.BootSupervisor(T.ResetHart(xlen), entry)));
  }
}
