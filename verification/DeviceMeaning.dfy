/** The devices as the guest sees them: where their registers lie, what the console and the timer
    answer, and what a tick does to the bits of mip. */
module DeviceMeaning {
  import opened Basics
  import opened CsrModel
  import opened DeviceScan
  import PlicModel
  import UartModel
  import M = PlicMeaning
  import C = CsrMeaning

  // ---------------------------------------------------------------------------------------
  // The tick

  /** The console asserts its line while input waits and bit 0 of IER is set, or while bit 1 is. */
  predicate ConsoleAsserts(u: UartModel.State) { (u.ier % 2 == 1 && |u.rx| > 0) || u.ier / 2 % 2 == 1 }

  /** A scan puts the console's line on source 10 of the controller, and shows in bits 11 and 9 of mip
      whether any source waits for the machine's and the supervisor's context. It changes nothing
      else. */
  lemma ScanMeans(s: Soc)
    requires s.Valid()
    ensures var t := Scan(s);
            (10 in t.dev.plic.levels <==> ConsoleAsserts(s.dev.uart)) &&
            (forall y :: y != 10 ==> (y in t.dev.plic.levels <==> y in s.dev.plic.levels)) &&
            (Has(t.mip, 0x800) <==> exists x :: M.Waiting(t.dev.plic, 0, x)) &&
            (Has(t.mip, 0x200) <==> exists x :: M.Waiting(t.dev.plic, 1, x)) &&
            Mask(t.mip, !0xA00) == Mask(s.mip, !0xA00) &&
            t == s.(mip := t.mip, dev := s.dev.(dirty := false, plic := s.dev.plic.(levels := t.dev.plic.levels)))
  {
    var plic := s.dev.plic.SetLevel(UART_IRQ, s.dev.uart.IsInterrupting());
    PendingMeans(plic, 0);
    PendingMeans(plic, 1);
    hide Put, Has, Mask, PlicModel.State.IsPending, M.Waiting;
    PutMachine(s.mip, plic.IsPending(0));
    PutSupervisor(Put(s.mip, MEI, plic.IsPending(0)), plic.IsPending(1));
    PutBeside(s.mip, MEI, plic.IsPending(0));
    PutBeside(Put(s.mip, MEI, plic.IsPending(0)), SEI, plic.IsPending(1));
  }

  lemma PendingMeans(p: PlicModel.State, context: nat)
    requires p.Valid() && context < 2
    ensures p.IsPending(context) <==> exists x :: M.Waiting(p, context, x)
  {
    PlicModel.BestSpec(p, context);
    hide PlicModel.State.Best;
    forall x ensures M.Waiting(p, context, x) == p.Eligible(context, x) { M.WaitingIsEligible(p, context, x); }
  }

  lemma PutBeside(v: bv64, mask: bv64, b: bool)
    requires mask == 0x800 || mask == 0x200
    ensures Mask(Put(v, mask, b), !0xA00) == Mask(v, !0xA00)
  {
    hide On, Off, Mask;
    if mask == 0x800 {
      BesideSet(v, 0x800, !0xA00);
      BesideCleared(v, 0x800, !0xA00);
    } else {
      BesideSet(v, 0x200, !0xA00);
      BesideCleared(v, 0x200, !0xA00);
    }
  }

  function Next(v: bv64): bv64 { v + 1 }

  /** The timer half of a tick: time advances by one, bit 7 of mip says whether it has reached mtimecmp,
      bit 3 is the software interrupt, and under the firmware bit 5 is raised instead, once for each
      time the timer was armed. */
  lemma TimerTicks(s: Soc)
    ensures var t := Timer(s);
            t.dev.clint == s.dev.clint.(mtime := Next(s.dev.clint.mtime)) &&
            var expired := Reached(t.dev.clint.mtime, s.dev.clint.mtimecmp);
            Has(t.mip, 0x8) == (s.dev.clint.msip != 0) &&
            Has(t.mip, 0x80) == (if s.sbi then Has(s.mip, 0x80) else expired) &&
            Has(t.mip, 0x20) == (Has(s.mip, 0x20) || (s.sbi && s.armed && expired)) &&
            t.armed == (s.armed && !(s.sbi && expired))
  {
    hide TimerBits, Has, Reached, Next, Clint.Expired, Clint.Software, Clint.Advanced;
    TimerMeaning(s);
    ClintAdvances(s.dev.clint);
    ClintExpires(Timer(s).dev.clint);
    ClintSoftware(Timer(s).dev.clint);
  }

  lemma ClintAdvances(c: Clint)
    ensures c.Advanced() == c.(mtime := Next(c.mtime))
  {
  }

  lemma ClintExpires(c: Clint)
    ensures c.Expired() == Reached(c.mtime, c.mtimecmp)
  {
    hide Reached;
  }

  /** A moment is reached once it is no longer to come, as unsigned numbers. */
  lemma ReachedMeans(now: bv64, when: bv64)
    ensures Reached(now, when) <==> !(now < when)
  {
  }

  lemma ClintSoftware(c: Clint)
    ensures c.Software() == (c.msip != 0)
  {
  }

  /** When the lazy tick scans: a device register was touched, input waits, or the cycle is a multiple
      of 256. */
  lemma ScanIsDue(s: Soc)
    requires s.Valid()
    ensures var t := Timer(s.(cycle := s.cycle + 1));
            LazyTick(s) ==
            if s.dev.dirty || |s.dev.uart.rx| > 0 || (s.cycle + 1) % 256 == 0 then Scan(t) else t
  {
    hide TimerBits, Scan;
  }

  /** At reset nothing is asserted, claimed, enabled or typed, every priority, threshold and timer is
      zero, and the first tick scans. */
  lemma ResetMeans(sbi: bool)
    ensures var s := ResetSoc(sbi);
            s.Valid() && s.mip == 0 && s.cycle == 0 && s.sbi == sbi && !s.armed && s.dev.dirty &&
            s.dev.clint == Clint(0, 0, 0) && s.dev.uart == UartModel.State([], 0, 0, 0, 0, 0, 0, 0) &&
            s.dev.plic.levels == {} == s.dev.plic.claimed &&
            (forall x :: 0 <= x < 32 ==> s.dev.plic.priority[x] == 0) &&
            forall c :: 0 <= c < 2 ==> s.dev.plic.threshold[c] == 0 && s.dev.plic.enable[c] == {}
  {
  }

  /** What the firmware's calls do: setting the timer arms it and withdraws its interrupt, and a
      software interrupt is bit 1 of mip. */
  lemma CallsMean(s: Soc, when: bv64, lazy: bool)
    requires s.Valid()
    ensures var t := Step(s, SetTimer(when), lazy);
            t.armed && t.dev == s.dev.(clint := s.dev.clint.(mtimecmp := when)) && !Has(t.mip, 0x20) &&
            Mask(t.mip, !0x20) == Mask(s.mip, !0x20)
    ensures var t := Step(s, RaiseSoftware, lazy);
            t == s.(mip := t.mip) && Has(t.mip, 0x2) && Mask(t.mip, !0x2) == Mask(s.mip, !0x2)
    ensures var t := Step(s, ClearSoftware, lazy);
            t == s.(mip := t.mip) && !Has(t.mip, 0x2) && Mask(t.mip, !0x2) == Mask(s.mip, !0x2)
  {
    hide On, Off, Mask, LazyTick, EagerTick;
    FieldSet(s.mip, 0x20);
    BesideCleared(s.mip, 0x20, !0x20);
    FieldSet(s.mip, 0x2);
    BesideSet(s.mip, 0x2, !0x2);
    BesideCleared(s.mip, 0x2, !0x2);
  }

  /** What software may write of mip: bits 5, 3 and 1 through the register itself, bit 1 through sip. */
  lemma WritesOfMip(s: Soc, value: bv64, lazy: bool)
    requires s.Valid()
    ensures var t := Step(s, WriteMip(value), lazy);
            t == s.(mip := t.mip) && Mask(t.mip, 0x2A) == Mask(value, 0x2A) && Mask(t.mip, !0x2A) == Mask(s.mip, !0x2A)
    ensures var t := Step(s, WriteSip(value), lazy);
            t == s.(mip := t.mip) && Mask(t.mip, 0x2) == Mask(value, 0x2) && Mask(t.mip, !0x2) == Mask(s.mip, !0x2)
  {
    C.InterruptMasks();
    hide Merge, Mask, LazyTick, EagerTick;
    C.Merged(s.mip, value, 0x2A);
    C.Merged(s.mip, value, 0x2);
  }

  // ---------------------------------------------------------------------------------------
  // Registers

  /** The console's registers by offset: line status, identification and modem status, and what it
      hands over at offset 0 with the divisor latch closed. */
  lemma ConsoleReads(u: UartModel.State)
    ensures u.ReadValue(5) == 0x60 + if |u.rx| > 0 then 1 else 0
    ensures u.ReadValue(2) == 0xC0 + if u.ier % 2 == 1 && |u.rx| > 0 then 4 else if u.ier / 2 % 2 == 1 then 2 else 1
    ensures u.ReadValue(6) == 0xB0
    ensures u.lcr < 128 ==> u.ReadValue(1) == u.ier && u.ReadValue(0) == if |u.rx| > 0 then u.rx[0] else 0
    ensures u.lcr >= 128 ==> u.ReadValue(1) == u.divisorHigh && u.ReadValue(0) == u.divisorLow
    ensures u.ReadValue(3) == u.lcr && u.ReadValue(4) == u.mcr && u.ReadValue(7) == u.scr
    ensures u.AfterRead(0) == u.(rx := if u.lcr < 128 && |u.rx| > 0 then u.rx[1..] else u.rx)
    ensures forall offset: nat :: offset > 0 ==> u.AfterRead(offset) == u
  {
  }

  /** What writing each of them changes. */
  lemma ConsoleWrites(u: UartModel.State, value: nat)
    ensures var b: byte := value % 256;
            u.AfterWrite(0, value) == (if u.lcr >= 128 then u.(divisorLow := b) else u) &&
            u.AfterWrite(1, value) == (if u.lcr >= 128 then u.(divisorHigh := b) else u.(ier := b)) &&
            u.AfterWrite(2, value) == u.(fcr := b) && u.AfterWrite(3, value) == u.(lcr := b) &&
            u.AfterWrite(4, value) == u.(mcr := b) && u.AfterWrite(7, value) == u.(scr := b) &&
            forall offset: nat :: offset == 5 || offset == 6 || offset > 7 ==> u.AfterWrite(offset, value) == u
  {
  }

  lemma Shifts()
    ensures Shift(0x200_0000, CLINT_BASE) == 0 && Shift(0x200_4000, CLINT_MTIMECMP) == 0
    ensures Shift(0x200_BFF8, CLINT_MTIME) == 0
  {
  }

  /** The timer's registers read: msip at 0x2000000, mtimecmp at 0x2004000 and mtime at 0x200BFF8, whole
      or in their low halves. */
  lemma TimerReads(c: Clint)
    ensures c.ReadValue(0x200_0000, 4) == Mask(c.msip, 0xFFFF_FFFF)
    ensures c.ReadValue(0x200_4000, 8) == c.mtimecmp && c.ReadValue(0x200_BFF8, 8) == c.mtime
    ensures c.ReadValue(0x200_BFF8, 4) == Mask(c.mtime, 0xFFFF_FFFF)
  {
    Shifts();
    Unmoved(c.msip);
    Unmoved(c.mtimecmp);
    Unmoved(c.mtime);
    hide Shift, Right, Mask;
  }

  lemma Unmoved(v: bv64)
    ensures Right(v, 0) == v == Left(v, 0)
  {
  }

  /** And written: one bit of msip is kept, and a low half leaves the high one. */
  lemma TimerWrites(c: Clint, value: bv64)
    ensures c.AfterWrite(0x200_0000, 4, value) == c.(msip := Mask(value, 1))
    ensures c.AfterWrite(0x200_4000, 8, value) == c.(mtimecmp := value)
    ensures c.AfterWrite(0x200_BFF8, 8, value) == c.(mtime := value)
    ensures c.AfterWrite(0x200_4000, 4, value) == c.(mtimecmp := Halves(High(c.mtimecmp), value))
  {
    Shifts();
    Unmoved(value);
    Unmoved(0xFFFF_FFFF);
    OneBitKept(c.msip, value);
    AllTaken(c.mtimecmp, value);
    AllTaken(c.mtime, value);
    LowTaken(c.mtimecmp, value);
    hide Shift, Right, Left, Merge, Halves, High, Mask;
  }

  lemma OneBitKept(prior: bv64, value: bv64)
    ensures Mask(Merge(prior, value, 0xFFFF_FFFF), 1) == Mask(value, 1)
  {
  }

  lemma AllTaken(prior: bv64, value: bv64)
    ensures Merge(prior, value, !0) == value
  {
  }

  lemma LowTaken(prior: bv64, value: bv64)
    ensures Merge(prior, value, 0xFFFF_FFFF) == Halves(High(prior), value)
  {
  }

  function High(v: bv64): bv64 { v >> 32 }

  /** The low halves of two values, one above the other. */
  function Halves(high: bv64, low: bv64): bv64 { (high << 32) | (low & 0xFFFF_FFFF) }

  /** Where the devices lie below DRAM, and that touching any address there marks them for a scan. */
  lemma DeviceMap(d: Devices, offset: nat, size: nat, value: bv64)
    requires d.plic.Valid()
    ensures offset < 0xC000 ==>
              d.ReadValue(0x200_0000 + offset, size) == Some(Number(d.clint.ReadValue(0x200_0000 + offset, size))) &&
              d.AfterWrite(0x200_0000 + offset, size, value) ==
                d.(dirty := true, clint := d.clint.AfterWrite(0x200_0000 + offset, size, value))
    ensures offset < 0x400_0000 ==>
              d.ReadValue(0xC00_0000 + offset, size) == Some(d.plic.ReadValue(offset)) &&
              d.AfterRead(0xC00_0000 + offset) == d.(dirty := true, plic := d.plic.AfterRead(offset)) &&
              d.AfterWrite(0xC00_0000 + offset, size, value) ==
                d.(dirty := true, plic := d.plic.AfterWrite(offset, Number(value)))
    ensures offset < 0x100 ==>
              d.ReadValue(0x1000_0000 + offset, size) == Some(d.uart.ReadValue(offset)) &&
              d.AfterRead(0x1000_0000 + offset) == d.(dirty := true, uart := d.uart.AfterRead(offset)) &&
              d.AfterWrite(0x1000_0000 + offset, size, value) ==
                d.(dirty := true, uart := d.uart.AfterWrite(offset, Number(value)))
    ensures offset < 0x200_0000 || 0x200_C000 <= offset < 0xC00_0000 || offset >= 0x1000_0100 ==>
              d.ReadValue(offset, size) == None && d.AfterRead(offset) == d.(dirty := true) &&
              d.AfterWrite(offset, size, value) == d.(dirty := true)
  {
    hide Number, Clint.ReadValue, Clint.AfterWrite, PlicModel.State.ReadValue, PlicModel.State.AfterRead,
         PlicModel.State.AfterWrite, UartModel.State.ReadValue, UartModel.State.AfterRead, UartModel.State.AfterWrite;
  }
}
