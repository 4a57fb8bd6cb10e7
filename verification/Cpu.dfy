/** The hart: its registers, its translation cache and its memory, updated in place by the methods
    the instructions use. */
module CpuModel {
  import opened Basics
  import opened CsrModel
  import opened CsrStore
  import opened MemoryModel
  import Mmu
  import HartMemory
  import opened PagedAccess
  import Walker
  import T = TrapModel
  import D = DeviceScan
  import C = Tlb

  /** The tohost record a translation through the cache leaves: a hit writes nothing. */
  function TohostAfter(
    dram: seq<byte>, t: C.Cache, xlen: Xlen, r: Mmu.Regs, va: nat, access: Access,
    tohost: Option<nat>, was: Option<nat>
  ): Option<nat> {
    if C.Hits(C.EntryFor(t, va, access), r, va) then was
    else Walker.TohostAfter(dram, xlen, r, va, access, tohost, was)
  }

  /** A load that has gathered v so far, with weight scale for the bytes to come. */
  function Gathered(v: nat, scale: nat, a: After): After {
    if a.done.Value? then a.(done := Value(v + scale * a.done.v)) else a
  }

  lemma GatherStep(v: nat, scale: nat, b: nat, rest: nat)
    ensures v + scale * (b + 256 * rest) == (v + scale * b) + 256 * scale * rest
  {
    assert scale * (256 * rest) == 256 * scale * rest;
  }

  /** One byte of a split load. */
  lemma LoadBytesStep(dram: seq<byte>, t: C.Cache, xlen: Xlen, r: Mmu.Regs, va: nat, n: nat, v: nat, scale: nat)
    requires n > 0
    ensures var first := LoadOnce(dram, t, xlen, r, va, 1);
            Gathered(v, scale, LoadBytes(dram, t, xlen, r, va, n)) ==
            if first.done.Value? then
              Gathered(v + scale * first.done.v, 256 * scale, LoadBytes(first.dram, first.tlb, xlen, r, va + 1, n - 1))
            else first
  {
    hide LoadOnce;
    var first := LoadOnce(dram, t, xlen, r, va, 1);
    if first.done.Value? {
      var rest := LoadBytes(first.dram, first.tlb, xlen, r, va + 1, n - 1);
      if rest.done.Value? { GatherStep(v, scale, first.done.v, rest.done.v); }
    }
  }

  lemma LoadBytesEnd(dram: seq<byte>, t: C.Cache, xlen: Xlen, r: Mmu.Regs, va: nat, v: nat, scale: nat)
    ensures Gathered(v, scale, LoadBytes(dram, t, xlen, r, va, 0)) == After(Value(v), dram, t)
  {
  }

  lemma ProbeStep(dram: seq<byte>, t: C.Cache, xlen: Xlen, r: Mmu.Regs, va: nat, n: nat)
    requires n > 0
    ensures var (res, after, t2) := C.Cached(dram, t, xlen, r, va, Store);
            Probe(dram, t, xlen, r, va, n) ==
            if res.Ok? then Probe(after, t2, xlen, r, va + 1, n - 1) else After(FaultOf(res, va), after, t2)
  {
    hide C.Cached;
  }

  lemma StoreBytesStep(dram: seq<byte>, t: C.Cache, xlen: Xlen, r: Mmu.Regs, va: nat, n: nat, v: nat)
    requires n > 0
    ensures var first := StoreOnce(dram, t, xlen, r, va, 1, v);
            StoreBytes(dram, t, xlen, r, va, n, v) ==
            if first.done.Value? then StoreBytes(first.dram, first.tlb, xlen, r, va + 1, n - 1, v / 256) else first
  {
    hide StoreOnce;
  }

  lemma SplitEnd(dram: seq<byte>, t: C.Cache, xlen: Xlen, r: Mmu.Regs, va: nat, v: nat)
    ensures Probe(dram, t, xlen, r, va, 0) == StoreBytes(dram, t, xlen, r, va, 0, v) == After(Value(0), dram, t)
  {
  }

  ghost predicate Distinct(a: object, b: object) { a != b }

  class Cpu {
    var pc: bv64
    var mode: Priv
    const csrs: CsrFile
    const mem: Memory
    var cycle: nat
    var sbi: bool
    var timerArmed: bool
    const tlb: array2<C.TlbEntry>

    ghost predicate Valid()
      reads csrs, mem.plic
    {
      csrs.Valid() && mem.Valid() && tlb.Length0 == 1024 && tlb.Length1 == 3 && Distinct(csrs.regs, mem.dram)
    }

    /** The trap state. */
    ghost function Hart(): T.Hart
      requires csrs.Valid()
      reads this, csrs, csrs.regs
    {
      T.Hart(mode, pc, csrs.Model())
    }

    /** The devices and what the tick keeps about them. */
    ghost function Soc(): D.Soc
      requires csrs.Valid()
      reads this, csrs, csrs.regs, mem, mem.plic, mem.uart
    {
      D.Soc(mem.Devices(), csrs.regs[MIP], cycle, sbi, timerArmed)
    }

    ghost function Cache(): C.Cache
      requires tlb.Length0 == 1024 && tlb.Length1 == 3
      reads tlb
    {
      seq(1024, i requires 0 <= i < 1024 reads tlb => seq(3, j requires 0 <= j < 3 reads tlb => tlb[i, j]))
    }

    ghost function Regs(): Mmu.Regs
      requires csrs.Valid()
      reads this, csrs, csrs.regs
    {
      HartMemory.RegsOf(csrs.Model(), mode)
    }

    constructor (size: nat, width: Xlen)
      ensures Valid() && fresh(csrs) && fresh(csrs.regs) && fresh(mem) && fresh(mem.dram) && fresh(mem.plic) &&
              fresh(mem.uart) && fresh(tlb)
      ensures Hart() == T.ResetHart(width) && Cache() == C.EmptyCache() && Soc() == D.ResetSoc(false)
    {
      pc, mode := T.START, Machine;
      csrs := new CsrFile(width);
      mem := new Memory(size);
      cycle, sbi, timerArmed := 0, false, false;
      tlb := new C.TlbEntry[1024, 3]((i, j) => C.TlbEntry(false, 0, 0, 0, 0));
      new;
      forall i | 0 <= i < 1024
        ensures Cache()[i] == C.EmptyCache()[i]
      {
        assert forall j :: 0 <= j < 3 ==> Cache()[i][j] == C.TlbEntry(false, 0, 0, 0, 0);
      }
    }

    // -------------------------------------------------------------------------------------
    // Traps

    /** The interrupt to take before the next instruction, if any. */
    method PendingInterrupt() returns (cause: Option<T.Cause>)
      requires Valid()
      ensures cause == T.PendingInterrupt(Hart())
    {
      hide CsrModel.Read, Has, Mask;
      var enabled := csrs.Read(MIE);
      var raised := csrs.Read(MIP);
      var pending := Mask(enabled, raised);
      if pending == 0 {
        return None;
      }
      var status := csrs.Read(MSTATUS);
      var mideleg := csrs.Read(MIDELEG);
      for k := 0 to 6
        invariant T.FirstFrom(Hart(), k) == T.FirstFrom(Hart(), 0)
      {
        var line := T.ORDER[k];
        if !Has(pending, line.bit) {
          continue;
        }
        var allowed :=
          if Has(mideleg, line.bit) then
            match mode case Machine => false case Supervisor => Has(status, STATUS_SIE) case User => true
          else mode.Rank() < Machine.Rank() || Has(status, STATUS_MIE);
        if allowed {
          return Some(line.cause);
        }
      }
      return None;
    }

    /** The handler address in a trap vector register. */
    method TrapVector(which: Addr, cause: T.Cause, interrupt: bool) returns (target: bv64)
      requires Valid()
      ensures target == T.Vector(CsrModel.Read(csrs.Model(), which), cause, interrupt)
      ensures var tvec := CsrModel.Read(csrs.Model(), which);
              T.Aligned(target) &&
              if T.Vectored(tvec) && interrupt then target == T.Slot(T.Base(tvec), cause)
              else T.ClearsMode(target, tvec)
    {
      hide CsrModel.Read, T.Vectored, T.Base, T.Slot, T.Aligned;
      var tvec := csrs.Read(which);
      var base := T.Base(tvec);
      T.BaseAligned(tvec);
      T.SlotAligned(base, cause);
      target := if T.Vectored(tvec) && interrupt then T.Slot(base, cause) else base;
    }

    /** Trap entry. Only a delegated cause met below machine mode stays with the supervisor. */
    method TakeTrap(cause: T.Cause, tval: bv64, epc: bv64, interrupt: bool)
      requires Valid()
      modifies this`pc, this`mode, csrs.regs
      ensures Valid() && Hart() == T.TakeTrap(old(Hart()), cause, tval, epc, interrupt)
    {
      hide CsrModel.Read, T.BitSet, T.Vector, T.SupervisorEntry, T.MachineEntry, T.Code;
      var deleg := csrs.Read(if interrupt then MIDELEG else MEDELEG);
      var toSupervisor := mode != Machine && T.BitSet(deleg, cause);
      var code := T.Code(csrs.xlen, cause, interrupt);
      var status := csrs.Read(MSTATUS);
      if toSupervisor {
        csrs.Force(SEPC, epc);
        csrs.Force(SCAUSE, code);
        csrs.Force(STVAL, tval);
        csrs.Force(MSTATUS, T.SupervisorEntry(status, mode));
        mode := Supervisor;
        pc := TrapVector(STVEC, cause, interrupt);
      } else {
        csrs.Force(MEPC, epc);
        csrs.Force(MCAUSE, code);
        csrs.Force(MTVAL, tval);
        csrs.Force(MSTATUS, T.MachineEntry(status, mode));
        mode := Machine;
        pc := TrapVector(MTVEC, cause, interrupt);
      }
    }

    /** Returns from a trap. */
    method TrapReturn(fromMachine: bool)
      requires Valid()
      modifies this`pc, this`mode, csrs.regs
      ensures Valid() && Hart() == T.TrapReturn(old(Hart()), fromMachine)
    {
      hide CsrModel.Read, T.ReturnMode, T.ReturnStatus;
      var status := csrs.Read(MSTATUS);
      csrs.Force(MSTATUS, T.ReturnStatus(status, fromMachine));
      mode := T.ReturnMode(status, fromMachine);
      pc := csrs.Read(if fromMachine then MEPC else SEPC);
    }

    // -------------------------------------------------------------------------------------
    // The tick

    method DriveBit(mask: bv64, up: bool)
      requires Valid()
      modifies csrs.regs
      ensures csrs.Model() == CsrModel.Force(old(csrs.Model()), MIP, D.Put(old(csrs.regs[MIP]), mask, up))
    {
      if up {
        csrs.SetBits(MIP, mask);
      } else {
        csrs.ClearBits(MIP, mask);
      }
    }

    /** Drives the timer bits, disarming a timer that fires under SBI. */
    method DriveTimer(expired: bool)
      requires Valid()
      modifies csrs.regs, this`timerArmed
      ensures csrs.Model() ==
              CsrModel.Force(old(csrs.Model()), MIP, D.TimerLine(old(csrs.regs[MIP]), sbi, old(timerArmed), expired))
      ensures timerArmed == (old(timerArmed) && !(sbi && expired))
    {
      hide D.Put, On, Off, CsrModel.Force;
      D.TimerPut(csrs.regs[MIP], STI);
      CsrModel.ForceSame(csrs.Model(), MIP);
      if !sbi {
        DriveBit(MTI, expired);
      } else if timerArmed && expired {
        DriveBit(STI, true);
        timerArmed := false;
      }
    }

    /** Advances the timer and drives the timer and software bits. */
    method TickClint()
      requires Valid()
      modifies mem`clint, csrs.regs, this`timerArmed
      ensures Valid() && Soc() == D.Timer(old(Soc()))
      ensures forall a: Addr :: a != MIP && a != TIME ==> csrs.regs[a] == old(csrs.regs[a])
      ensures csrs.regs[TIME] == mem.clint.mtime
    {
      hide D.Put, D.TimerLine, On, Off, D.Clint.Expired, D.Clint.Software, D.Clint.Advanced;
      mem.clint := mem.clint.Advanced();
      csrs.Force(TIME, mem.clint.mtime);
      DriveTimer(mem.clint.Expired());
      DriveBit(MSI, mem.clint.Software());
    }

    /** Recomputes the UART's line and both external-interrupt bits. */
    method ScanDevices()
      requires Valid()
      modifies mem`devicesDirty, mem.plic, csrs.regs
      ensures Valid() && Soc() == D.Scan(old(Soc()))
      ensures forall a: Addr :: a != MIP ==> csrs.regs[a] == old(csrs.regs[a])
    {
      hide D.Put;
      mem.devicesDirty := false;
      var active := mem.uart.IsInterrupting();
      mem.plic.SetLevel(D.UART_IRQ, active);
      var machine := mem.plic.IsPending(0);
      DriveBit(MEI, machine);
      var supervisor := mem.plic.IsPending(1);
      DriveBit(SEI, supervisor);
    }

    /** Advances the timer, reflects the CLINT into mip, and rescans the devices when it must. */
    method TickTimer()
      requires Valid()
      modifies mem`clint, mem`devicesDirty, mem.plic, csrs.regs, this`timerArmed
      ensures Valid() && Soc() == D.Ticked(old(Soc()))
      ensures forall a: Addr :: a != MIP && a != TIME ==> csrs.regs[a] == old(csrs.regs[a])
      ensures csrs.regs[TIME] == mem.clint.mtime
    {
      hide D.Timer, D.Scan;
      TickClint();
      var input := mem.uart.HasInput();
      if !mem.devicesDirty && !input && cycle % D.POLL_INTERVAL != 0 {
        return;
      }
      ScanDevices();
    }

    // -------------------------------------------------------------------------------------
    // Translation and its cache

    method SetEntry(slot: nat, way: nat, e: C.TlbEntry)
      requires Valid() && slot < 1024 && way < 3
      modifies tlb
      ensures Cache() == old(Cache())[slot := old(Cache())[slot][way := e]]
    {
      ghost var was := Cache();
      tlb[slot, way] := e;
      forall i | 0 <= i < 1024
        ensures Cache()[i] == was[slot := was[slot][way := e]][i]
      {
        assert forall j :: 0 <= j < 3 && !(i == slot && j == way) ==> Cache()[i][j] == was[i][j];
      }
    }

    /** Translates through the cache. Whenever no walk meets device memory, the answer, the DRAM and
        the cache afterwards are the specified ones. */
    method Translate(va: nat, access: Access) returns (res: Mmu.Res)
      requires Valid()
      modifies mem`devicesDirty, mem`clint, mem`tohostValue, mem.dram, mem.plic, mem.uart, tlb
      ensures Valid()
      ensures var (want, after, t) := C.Cached(old(mem.dram[..]), old(Cache()), csrs.xlen, Regs(), va, access);
              want != Mmu.DeviceTable ==>
                res == want && mem.dram[..] == after && Cache() == t &&
                Walker.OnlyTouched(old(mem.Devices()), mem.Devices()) &&
                mem.tohostValue ==
                TohostAfter(old(mem.dram[..]), old(Cache()), csrs.xlen, Regs(), va, access, mem.tohost,
                            old(mem.tohostValue))
    {
      hide Mmu.Translate, Walker.TohostAfter, C.Cached, C.Hits, C.EntryOf, CsrModel.Read, Has, MppOf, Number;
      var satp := csrs.Read(SATP);
      var status := csrs.Read(MSTATUS);
      var r := Mmu.Regs(Number(satp), Has(status, STATUS_SUM), Has(status, STATUS_MXR), Has(status, STATUS_MPRV),
                        MppOf(status), mode);
      var slot, way := va / Mmu.PAGE % C.TLB_ENTRIES, C.Way(access);
      var e := tlb[slot, way];
      ghost var dram, t := mem.dram[..], Cache();
      assert e == C.EntryFor(t, va, access);
      if C.Hits(e, r, va) {
        C.CachedHit(dram, t, csrs.xlen, r, va, access);
        return Mmu.Ok(e.ppn + va % Mmu.PAGE);
      }
      C.CachedMiss(dram, t, csrs.xlen, r, va, access);
      res := Walker.Translate(mem, csrs.xlen, r, va, access);
      if res.Ok? {
        SetEntry(slot, way, C.EntryOf(r, va, res.pa));
      }
    }

    /** Drops every cached translation. */
    method FlushTlb()
      requires Valid()
      modifies tlb
      ensures Cache() == C.Flushed(old(Cache()))
    {
      for i := 0 to 1024
        invariant forall m, n :: 0 <= m < i && 0 <= n < 3 ==> tlb[m, n] == old(tlb[m, n]).(valid := false)
        invariant forall m, n :: i <= m < 1024 && 0 <= n < 3 ==> tlb[m, n] == old(tlb[m, n])
      {
        for j := 0 to 3
          invariant forall m, n :: 0 <= m < i && 0 <= n < 3 ==> tlb[m, n] == old(tlb[m, n]).(valid := false)
          invariant forall n :: 0 <= n < j ==> tlb[i, n] == old(tlb[i, n]).(valid := false)
          invariant forall n :: j <= n < 3 ==> tlb[i, n] == old(tlb[i, n])
          invariant forall m, n :: i < m < 1024 && 0 <= n < 3 ==> tlb[m, n] == old(tlb[m, n])
        {
          tlb[i, j] := tlb[i, j].(valid := false);
        }
      }
      ghost var was := old(Cache());
      forall i | 0 <= i < 1024
        ensures Cache()[i] == C.Flushed(was)[i]
      {
        assert forall j :: 0 <= j < 3 ==> Cache()[i][j] == was[i][j].(valid := false);
      }
    }

    // -------------------------------------------------------------------------------------
    // Loads and stores

    /** The state a load or store leaves, with its outcome. */
    ghost function AfterWith(done: Done): After
      requires tlb.Length0 == 1024 && tlb.Length1 == 3
      reads tlb, mem.dram
    {
      After(done, mem.dram[..], Cache())
    }

    /** A load through one translation. */
    method LoadThrough(va: nat, size: nat) returns (done: Done)
      requires Valid() && Sized(size)
      modifies mem`devicesDirty, mem`clint, mem`tohostValue, mem.dram, mem.plic, mem.uart, tlb
      ensures Valid()
      ensures var want := LoadOnce(old(mem.dram[..]), old(Cache()), csrs.xlen, Regs(), va, size);
              !want.done.DeviceHit? ==> AfterWith(done) == want && Walker.OnlyTouched(old(mem.Devices()), mem.Devices())
    {
      hide C.Cached, Mmu.ReadPhysical, TohostAfter, HartMemory.RegsOf;
      var res := Translate(va, Load);
      if !res.Ok? {
        return FaultOf(res, va);
      }
      var v := Walker.ReadData(mem, res.pa, size);
      return if v.Some? then Value(v.value) else AccessFault;
    }

    /** A load of one byte after another, each through its own translation. */
    method ReadBytes(va: nat, size: nat) returns (done: Done)
      requires Valid()
      modifies mem`devicesDirty, mem`clint, mem`tohostValue, mem.dram, mem.plic, mem.uart, tlb
      ensures Valid()
      ensures var want := LoadBytes(old(mem.dram[..]), old(Cache()), csrs.xlen, Regs(), va, size);
              !want.done.DeviceHit? ==> AfterWith(done) == want && Walker.OnlyTouched(old(mem.Devices()), mem.Devices())
    {
      hide LoadOnce, LoadBytes, HartMemory.RegsOf;
      ghost var want := LoadBytes(mem.dram[..], Cache(), csrs.xlen, Regs(), va, size);
      var v: nat, scale: nat := 0, 1;
      for k := 0 to size
        invariant Valid()
        invariant want.done.DeviceHit? ||
                  (Gathered(v, scale, LoadBytes(mem.dram[..], Cache(), csrs.xlen, Regs(), va + k, size - k)) == want &&
                   Walker.OnlyTouched(old(mem.Devices()), mem.Devices()))
      {
        LoadBytesStep(mem.dram[..], Cache(), csrs.xlen, Regs(), va + k, size - k, v, scale);
        var b := LoadThrough(va + k, 1);
        if !b.Value? {
          return b;
        }
        v := v + scale * b.v;
        scale := 256 * scale;
      }
      LoadBytesEnd(mem.dram[..], Cache(), csrs.xlen, Regs(), va + size, v, scale);
      return Value(v);
    }

    /** Reads memory through the translation cache: with one translation inside a page, byte by byte
        across one. */
    method ReadMem(va: nat, size: nat) returns (done: Done)
      requires Valid() && Sized(size)
      modifies mem`devicesDirty, mem`clint, mem`tohostValue, mem.dram, mem.plic, mem.uart, tlb
      ensures Valid()
      ensures var want := PagedAccess.Load(old(mem.dram[..]), old(Cache()), csrs.xlen, Regs(), va, size);
              !want.done.DeviceHit? ==> AfterWith(done) == want && Walker.OnlyTouched(old(mem.Devices()), mem.Devices())
    {
      hide LoadOnce, LoadBytes;
      if va % Mmu.PAGE + size <= Mmu.PAGE {
        done := LoadThrough(va, size);
      } else {
        done := ReadBytes(va, size);
      }
    }

    /** A store through one translation. */
    method StoreThrough(va: nat, size: nat, value: nat) returns (done: Done)
      requires Valid() && Sized(size)
      modifies mem`devicesDirty, mem`clint, mem`tohostValue, mem.dram, mem.plic, mem.uart, tlb
      ensures Valid()
      ensures var want := StoreOnce(old(mem.dram[..]), old(Cache()), csrs.xlen, Regs(), va, size, value);
              !want.done.DeviceHit? ==> AfterWith(done) == want && Walker.OnlyTouched(old(mem.Devices()), mem.Devices())
    {
      hide C.Cached, WriteLE, TohostAfter, HartMemory.RegsOf;
      var res := Translate(va, Store);
      if !res.Ok? {
        return FaultOf(res, va);
      }
      var ok := Walker.WriteData(mem, res.pa, size, value);
      return if ok then Value(0) else AccessFault;
    }

    /** The first pass of a split store. */
    method ProbeStore(va: nat, size: nat) returns (done: Done)
      requires Valid()
      modifies mem`devicesDirty, mem`clint, mem`tohostValue, mem.dram, mem.plic, mem.uart, tlb
      ensures Valid()
      ensures var want := Probe(old(mem.dram[..]), old(Cache()), csrs.xlen, Regs(), va, size);
              !want.done.DeviceHit? ==> AfterWith(done) == want && Walker.OnlyTouched(old(mem.Devices()), mem.Devices())
    {
      hide Probe, C.Cached, TohostAfter, HartMemory.RegsOf;
      ghost var want := Probe(mem.dram[..], Cache(), csrs.xlen, Regs(), va, size);
      for k := 0 to size
        invariant Valid()
        invariant want.done.DeviceHit? ||
                  (Probe(mem.dram[..], Cache(), csrs.xlen, Regs(), va + k, size - k) == want &&
                   Walker.OnlyTouched(old(mem.Devices()), mem.Devices()))
      {
        ProbeStep(mem.dram[..], Cache(), csrs.xlen, Regs(), va + k, size - k);
        var res := Translate(va + k, Store);
        if !res.Ok? {
          return FaultOf(res, va + k);
        }
      }
      SplitEnd(mem.dram[..], Cache(), csrs.xlen, Regs(), va + size, 0);
      return Value(0);
    }

    /** The second pass of a split store. */
    method WriteBytes(va: nat, size: nat, value: nat) returns (done: Done)
      requires Valid()
      modifies mem`devicesDirty, mem`clint, mem`tohostValue, mem.dram, mem.plic, mem.uart, tlb
      ensures Valid()
      ensures var want := StoreBytes(old(mem.dram[..]), old(Cache()), csrs.xlen, Regs(), va, size, value);
              !want.done.DeviceHit? ==> AfterWith(done) == want && Walker.OnlyTouched(old(mem.Devices()), mem.Devices())
    {
      hide StoreOnce, StoreBytes, HartMemory.RegsOf;
      ghost var want := StoreBytes(mem.dram[..], Cache(), csrs.xlen, Regs(), va, size, value);
      var rest := value;
      for k := 0 to size
        invariant Valid()
        invariant want.done.DeviceHit? ||
                  (StoreBytes(mem.dram[..], Cache(), csrs.xlen, Regs(), va + k, size - k, rest) == want &&
                   Walker.OnlyTouched(old(mem.Devices()), mem.Devices()))
      {
        StoreBytesStep(mem.dram[..], Cache(), csrs.xlen, Regs(), va + k, size - k, rest);
        var b := StoreThrough(va + k, 1, rest);
        if !b.Value? {
          return b;
        }
        rest := rest / 256;
      }
      SplitEnd(mem.dram[..], Cache(), csrs.xlen, Regs(), va + size, rest);
      return Value(0);
    }

    /** Writes memory through the translation cache. Across a page every byte is translated before
        any is written. */
    method WriteMem(va: nat, size: nat, value: nat) returns (done: Done)
      requires Valid() && Sized(size)
      modifies mem`devicesDirty, mem`clint, mem`tohostValue, mem.dram, mem.plic, mem.uart, tlb
      ensures Valid()
      ensures var want := PagedAccess.Store(old(mem.dram[..]), old(Cache()), csrs.xlen, Regs(), va, size, value);
              !want.done.DeviceHit? ==> AfterWith(done) == want && Walker.OnlyTouched(old(mem.Devices()), mem.Devices())
    {
      hide StoreOnce, StoreBytes, Probe;
      if va % Mmu.PAGE + size <= Mmu.PAGE {
        done := StoreThrough(va, size, value);
        return;
      }
      done := ProbeStore(va, size);
      if !done.Value? {
        return;
      }
      done := WriteBytes(va, size, value);
    }
  }
}
