/** The timer tick and its lazy device scan: interrupt lines are recomputed only after a device
    register was touched, while input waits, or once every 256 cycles. */
module DeviceScan {
  import opened Basics
  import opened CsrModel
  import UartModel
  import PlicModel

  const CLINT_MTIMECMP: nat := 0x0200_4000
  const CLINT_MTIME: nat := 0x0200_BFF8
  const UART_IRQ: nat := 10
  const POLL_INTERVAL: nat := 256

  datatype Clint = Clint(msip: bv64, mtimecmp: bv64, mtime: bv64) {

    /** The register an address falls in, as its base and its value. */
    function Field(addr: nat): (nat, bv64) {
      if addr >= CLINT_MTIME then (CLINT_MTIME, mtime)
      else if addr >= CLINT_MTIMECMP then (CLINT_MTIMECMP, mtimecmp)
      else (CLINT_BASE, msip)
    }

    function Advanced(): Clint { this.(mtime := mtime + 1) }

    predicate Expired() { Reached(mtime, mtimecmp) }

    predicate Software() { msip != 0 }

    function ReadValue(addr: nat, size: nat): bv64
      requires CLINT_BASE <= addr
    {
      var (base, full) := Field(addr);
      var v := Right(full, Shift(addr, base));
      if size >= 8 then v else Mask(v, Ones(size))
    }

    function AfterWrite(addr: nat, size: nat, value: bv64): Clint
      requires CLINT_BASE <= addr
    {
      var (base, full) := Field(addr);
      var mask := if size >= 8 then !0 else Left(Ones(size), Shift(addr, base));
      var merged := Merge(full, Left(value, Shift(addr, base)), mask);
      if base == CLINT_BASE then this.(msip := Mask(merged, 1))
      else if base == CLINT_MTIMECMP then this.(mtimecmp := merged)
      else this.(mtime := merged)
    }
  }

  /** The bit offset of an access within its register. */
  function Shift(addr: nat, base: nat): (n: nat)
    requires base <= addr
    ensures n < 64
  {
    (addr - base) * 8 % 64
  }

  predicate Reached(now: bv64, when: bv64) { now >= when }

  function Right(v: bv64, n: nat): bv64
    requires n < 64
  {
    if n == 0 then v else v >> n
  }

  function Left(v: bv64, n: nat): bv64
    requires n < 64
  {
    if n == 0 then v else v << n
  }

  function Ones(size: nat): bv64 {
    if size == 0 then 0 else if size == 1 then 0xFF else if size == 2 then 0xFFFF else if size == 4 then 0xFFFF_FFFF
    else 0xFFFF_FFFF_FFFF_FFFF
  }

  /** The devices below DRAM, and whether one was touched since the last scan. */
  datatype Devices = Devices(clint: Clint, plic: PlicModel.State, uart: UartModel.State, dirty: bool) {

    /** What a physical read below DRAM returns. */
    function ReadValue(addr: nat, size: nat): Option<nat>
      requires plic.Valid()
    {
      if !IsDevice(addr) then None
      else
        var v: nat :=
          if addr < CLINT_END then Number(clint.ReadValue(addr, size))
          else if addr < PLIC_END then plic.ReadValue(addr - PLIC_BASE)
          else uart.ReadValue(addr - UART_BASE);
        Some(v)
    }

    function AfterRead(addr: nat): (d: Devices)
      requires plic.Valid()
      ensures d.plic.Valid()
    {
      if PLIC_BASE <= addr < PLIC_END then this.(dirty := true, plic := plic.AfterRead(addr - PLIC_BASE))
      else if UART_BASE <= addr < UART_END then this.(dirty := true, uart := uart.AfterRead(addr - UART_BASE))
      else this.(dirty := true)
    }

    function AfterWrite(addr: nat, size: nat, value: bv64): (d: Devices)
      requires plic.Valid()
      ensures d.plic.Valid()
    {
      if CLINT_BASE <= addr < CLINT_END then this.(dirty := true, clint := clint.AfterWrite(addr, size, value))
      else if PLIC_BASE <= addr < PLIC_END then
        this.(dirty := true, plic := plic.AfterWrite(addr - PLIC_BASE, Number(value)))
      else if UART_BASE <= addr < UART_END then
        this.(dirty := true, uart := uart.AfterWrite(addr - UART_BASE, Number(value)))
      else this.(dirty := true)
    }
  }

  /** The devices at reset: the first tick scans. */
  const RESET: Devices := Devices(Clint(0, 0, 0), PlicModel.RESET, UartModel.RESET, true)

  /** The devices, the interrupt-pending register they drive, and what the tick keeps about them. */
  datatype Soc = Soc(dev: Devices, mip: bv64, cycle: nat, sbi: bool, armed: bool) {

    predicate Valid() { dev.plic.Valid() }
  }

  /** The system at reset, under either firmware. */
  function ResetSoc(sbi: bool): Soc { Soc(RESET, 0, 0, sbi, false) }

  function Put(v: bv64, mask: bv64, b: bool): bv64 { if b then On(v, mask) else Off(v, mask) }

  /** The timer bits of mip. Under SBI the expiry of an armed timer becomes a supervisor timer
      interrupt; otherwise the machine timer bit follows the comparison. */
  function TimerLine(mip: bv64, sbi: bool, armed: bool, expired: bool): bv64 {
    if sbi then if armed && expired then On(mip, STI) else mip else Put(mip, MTI, expired)
  }

  /** The same with the software bit. */
  function TimerBits(mip: bv64, sbi: bool, armed: bool, expired: bool, software: bool): bv64 {
    Put(TimerLine(mip, sbi, armed, expired), MSI, software)
  }

  /** Advances mtime by one and reflects the CLINT into mip. */
  function Timer(s: Soc): Soc {
    var clint := s.dev.clint.Advanced();
    s.(dev := s.dev.(clint := clint), armed := s.armed && !(s.sbi && clint.Expired()),
       mip := TimerBits(s.mip, s.sbi, s.armed, clint.Expired(), clint.Software()))
  }

  /** Recomputes the UART's line and both external-interrupt bits. */
  function Scan(s: Soc): (t: Soc)
    requires s.Valid()
    ensures t.Valid()
  {
    var plic := s.dev.plic.SetLevel(UART_IRQ, s.dev.uart.IsInterrupting());
    s.(dev := s.dev.(dirty := false, plic := plic),
       mip := Put(Put(s.mip, MEI, plic.IsPending(0)), SEI, plic.IsPending(1)))
  }

  predicate Skips(s: Soc) { !s.dev.dirty && !s.dev.uart.HasInput() && s.cycle % POLL_INTERVAL != 0 }

  /** What the tick does within one cycle. */
  function Ticked(s: Soc): (t: Soc)
    requires s.Valid()
    ensures t.Valid()
  {
    if Skips(Timer(s)) then Timer(s) else Scan(Timer(s))
  }

  /** The tick at the start of every step. */
  function LazyTick(s: Soc): (t: Soc)
    requires s.Valid()
    ensures t.Valid()
  {
    Ticked(s.(cycle := s.cycle + 1))
  }

  /** The same tick with a scan every time. */
  function EagerTick(s: Soc): (t: Soc)
    requires s.Valid()
    ensures t.Valid()
  {
    Scan(Timer(s.(cycle := s.cycle + 1)))
  }

  // ---------------------------------------------------------------------------------------
  // What else can happen

  datatype Event =
    | Tick
    | Read(addr: nat, size: nat)
    | Write(addr: nat, size: nat, value: bv64)
    | Typed(bytes: seq<byte>)
    | WriteMip(value: bv64)
    | WriteSip(value: bv64)
    | SetTimer(when: bv64)
    | RaiseSoftware
    | ClearSoftware
    | GetChar

  function Step(s: Soc, ev: Event, lazy: bool): (t: Soc)
    requires s.Valid()
    ensures t.Valid()
  {
    match ev
    case Tick => if lazy then LazyTick(s) else EagerTick(s)
    case Read(addr, _) => s.(dev := s.dev.AfterRead(addr))
    case Write(addr, size, value) => s.(dev := s.dev.AfterWrite(addr, size, value))
    case Typed(bytes) => s.(dev := s.dev.(uart := s.dev.uart.PushInput(bytes)))
    case WriteMip(value) => s.(mip := Merge(s.mip, value, MIP_WRITABLE))
    case WriteSip(value) => s.(mip := Merge(s.mip, value, SSI))
    case SetTimer(when) =>
      s.(dev := s.dev.(clint := s.dev.clint.(mtimecmp := when)), armed := true, mip := Off(s.mip, STI))
    case RaiseSoftware => s.(mip := On(s.mip, SSI))
    case ClearSoftware => s.(mip := Off(s.mip, SSI))
    case GetChar => s.(dev := s.dev.(uart := s.dev.uart.TakeInput().1))
  }

  function Run(s: Soc, evs: seq<Event>, lazy: bool): (t: Soc)
    requires s.Valid()
    ensures t.Valid()
    decreases |evs|
  {
    if evs == [] then s else Run(Step(s, evs[0], lazy), evs[1..], lazy)
  }

  /** Everything the guest reads from the devices along a run. */
  function Seen(s: Soc, evs: seq<Event>, lazy: bool): seq<Option<nat>>
    requires s.Valid()
    decreases |evs|
  {
    if evs == [] then []
    else
      (if evs[0].Read? then [s.dev.ReadValue(evs[0].addr, evs[0].size)] else []) +
      Seen(Step(s, evs[0], lazy), evs[1..], lazy)
  }

  // ---------------------------------------------------------------------------------------
  // The invariant

  /** The external-interrupt bits show what the controller offers its two contexts. */
  predicate Shown(s: Soc)
    requires s.Valid()
  {
    Has(s.mip, MEI) == s.dev.plic.IsPending(0) && Has(s.mip, SEI) == s.dev.plic.IsPending(1)
  }

  /** The controller sees the UART's line as it is. */
  predicate Leveled(s: Soc)
    requires s.Valid()
  {
    s.dev.plic == s.dev.plic.SetLevel(UART_IRQ, s.dev.uart.IsInterrupting())
  }

  /** A scan would find nothing to change. */
  predicate Settled(s: Soc)
    requires s.Valid()
  {
    Leveled(s) && Shown(s)
  }

  /** Waiting input is all that asserts the UART's line. */
  predicate HeldByInput(u: UartModel.State) { u.HasInput() && u.RxEnabled() && !u.ThrEnabled() }

  /** What the lazy tick relies on: unless a device was touched since the last scan, the bits in mip
      are right, and so is the UART's line unless waiting input is all that asserts it. */
  predicate Synced(s: Soc)
    requires s.Valid()
  {
    !s.dev.dirty ==> Shown(s) && (!HeldByInput(s.dev.uart) ==> Leveled(s))
  }

  /** When the firmware may poll the console without a scan to follow: a scan is due anyway, or the
      byte it takes, if any, is not the last one holding up a line that the controller has seen. */
  predicate Allowed(s: Soc) {
    s.dev.dirty || |s.dev.uart.rx| != 1 || !s.dev.uart.RxEnabled() || s.dev.uart.ThrEnabled() ||
    UART_IRQ !in s.dev.plic.levels
  }

  /** The firmware's polls along the lazy run are all of that kind. */
  predicate AllAllowed(s: Soc, evs: seq<Event>)
    requires s.Valid()
    decreases |evs|
  {
    evs == [] || ((evs[0].GetChar? ==> Allowed(s)) && AllAllowed(Step(s, evs[0], true), evs[1..]))
  }

  /** Equal but for the flag that only the lazy tick consults. */
  predicate Same(s: Soc, t: Soc) { Clean(s) == Clean(t) }

  function Clean(s: Soc): Soc { s.(dev := s.dev.(dirty := false)) }

  lemma PutMachine(v: bv64, b: bool)
    ensures Has(Put(v, MEI, b), MEI) == b && Has(Put(v, MEI, b), SEI) == Has(v, SEI)
  {
  }

  lemma PutSupervisor(v: bv64, b: bool)
    ensures Has(Put(v, SEI, b), SEI) == b && Has(Put(v, SEI, b), MEI) == Has(v, MEI)
  {
  }

  lemma PutSameMachine(v: bv64)
    ensures Put(v, MEI, Has(v, MEI)) == v
  {
  }

  lemma PutSameSupervisor(v: bv64)
    ensures Put(v, SEI, Has(v, SEI)) == v
  {
  }

  /** A scan leaves nothing for the next one. */
  lemma ScanSettles(s: Soc)
    requires s.Valid()
    ensures Settled(Scan(s))
  {
    hide Put, Has;
    var plic := s.dev.plic.SetLevel(UART_IRQ, s.dev.uart.IsInterrupting());
    LevelTwice(s.dev.plic, s.dev.uart.IsInterrupting());
    PutMachine(s.mip, plic.IsPending(0));
    PutSupervisor(Put(s.mip, MEI, plic.IsPending(0)), plic.IsPending(1));
  }

  lemma LevelTwice(p: PlicModel.State, b: bool)
    requires p.Valid()
    ensures p.SetLevel(UART_IRQ, b).SetLevel(UART_IRQ, b) == p.SetLevel(UART_IRQ, b)
  {
    assert p.levels + {UART_IRQ} + {UART_IRQ} == p.levels + {UART_IRQ};
    assert p.levels - {UART_IRQ} - {UART_IRQ} == p.levels - {UART_IRQ};
  }

  lemma SettledScan(s: Soc)
    requires s.Valid()
    ensures Settled(s) <==> Scan(s) == Clean(s)
  {
    hide Put, Has;
    var plic := s.dev.plic.SetLevel(UART_IRQ, s.dev.uart.IsInterrupting());
    if Settled(s) {
      PutSameMachine(s.mip);
      PutSameSupervisor(s.mip);
    } else if Scan(s) == Clean(s) {
      ScanSettles(s);
    }
  }

  /** The timer's bits are not the external ones. */
  lemma TimerBitsApart(mip: bv64, sbi: bool, armed: bool, expired: bool, software: bool)
    ensures var m := TimerBits(mip, sbi, armed, expired, software);
            Has(m, MEI) == Has(mip, MEI) && Has(m, SEI) == Has(mip, SEI)
  {
    hide Put, Has, On;
    var m := TimerLine(mip, sbi, armed, expired);
    TimerPut(mip, STI);
    OtherBits(mip, STI, true);
    OtherBits(mip, MTI, expired);
    OtherBits(m, MSI, software);
  }

  lemma PutTimer(v: bv64, b: bool)
    ensures Has(Put(v, MTI, b), MTI) == b && Has(Put(v, MTI, b), STI) == Has(v, STI)
  {
  }

  lemma RaiseTimer(v: bv64)
    ensures Has(On(v, STI), STI) && Has(On(v, STI), MTI) == Has(v, MTI)
  {
  }

  lemma PutSoftware(v: bv64, b: bool)
    ensures Has(Put(v, MSI, b), MSI) == b && Has(Put(v, MSI, b), STI) == Has(v, STI) &&
            Has(Put(v, MSI, b), MTI) == Has(v, MTI)
  {
  }

  lemma TimerBitsMean(mip: bv64, sbi: bool, armed: bool, expired: bool, software: bool)
    ensures var m := TimerBits(mip, sbi, armed, expired, software);
            Has(m, MSI) == software &&
            Has(m, MTI) == (if sbi then Has(mip, MTI) else expired) &&
            Has(m, STI) == (Has(mip, STI) || (sbi && armed && expired))
  {
    hide Put, Has, On;
    RaiseTimer(mip);
    PutTimer(mip, expired);
    PutSoftware(TimerLine(mip, sbi, armed, expired), software);
  }

  /** The timer bits after a tick: without SBI the machine timer bit follows the comparison; under
      SBI an armed timer that has expired raises the supervisor timer bit and disarms, so it fires
      once; the software bit follows the CLINT either way. */
  lemma TimerMeaning(s: Soc)
    ensures var t := Timer(s);
            var expired := t.dev.clint.Expired();
            Has(t.mip, MSI) == t.dev.clint.Software() &&
            Has(t.mip, MTI) == (if s.sbi then Has(s.mip, MTI) else expired) &&
            Has(t.mip, STI) == (Has(s.mip, STI) || (s.sbi && s.armed && expired)) &&
            t.armed == (s.armed && !(s.sbi && expired))
  {
    hide TimerBits, Has, Clint.Expired, Clint.Software, Clint.Advanced;
    var clint := s.dev.clint.Advanced();
    TimerBitsMean(s.mip, s.sbi, s.armed, clint.Expired(), clint.Software());
  }

  lemma TimerApart(s: Soc)
    requires s.Valid()
    ensures var t := Timer(s);
            t.dev.plic == s.dev.plic && t.dev.uart == s.dev.uart && t.dev.dirty == s.dev.dirty && t.cycle == s.cycle &&
                               Settled(t) == Settled(s)
  {
    hide TimerBits, Has;
    var clint := s.dev.clint.Advanced();
    TimerBitsApart(s.mip, s.sbi, s.armed, clint.Expired(), clint.Software());
  }

  lemma TimerPut(v: bv64, mask: bv64)
    ensures Put(v, mask, true) == On(v, mask) && Put(v, mask, false) == Off(v, mask)
  {
  }

  lemma OtherBits(v: bv64, mask: bv64, b: bool)
    requires mask == MTI || mask == STI || mask == MSI || mask == SSI
    ensures Has(Put(v, mask, b), MEI) == Has(v, MEI) && Has(Put(v, mask, b), SEI) == Has(v, SEI)
  {
  }

  lemma MergeMip(v: bv64, value: bv64)
    ensures Has(Merge(v, value, MIP_WRITABLE), MEI) == Has(v, MEI) &&
            Has(Merge(v, value, MIP_WRITABLE), SEI) == Has(v, SEI)
  {
  }

  lemma MergeSip(v: bv64, value: bv64)
    ensures Has(Merge(v, value, SSI), MEI) == Has(v, MEI) && Has(Merge(v, value, SSI), SEI) == Has(v, SEI)
  {
  }

  lemma TickSynced(s: Soc)
    requires s.Valid() && Synced(s)
    ensures Synced(LazyTick(s))
  {
    hide Has, Scan, Timer, PlicModel.State.Best;
    var s1 := s.(cycle := s.cycle + 1);
    TimerApart(s1);
    ScanSettles(Timer(s1));
  }

  /** Nothing but the external bits, the controller, the UART and the flag matters. */
  lemma AlikeSynced(s: Soc, t: Soc)
    requires s.Valid() && Synced(s) && t.dev.plic == s.dev.plic && t.dev.uart == s.dev.uart &&
             t.dev.dirty == s.dev.dirty
    requires Has(t.mip, MEI) == Has(s.mip, MEI) && Has(t.mip, SEI) == Has(s.mip, SEI)
    ensures Synced(t)
  {
    hide Has, PlicModel.State.Best, PlicModel.State.SetLevel;
  }

  lemma RegisterSynced(s: Soc, ev: Event)
    requires s.Valid() && Synced(s)
    requires ev.WriteMip? || ev.WriteSip? || ev.SetTimer? || ev.RaiseSoftware? || ev.ClearSoftware?
    ensures Synced(Step(s, ev, true))
  {
    hide Put, Has, Merge, On, Off, Synced;
    match ev {
      case WriteMip(value) => MergeMip(s.mip, value);
      case WriteSip(value) => MergeSip(s.mip, value);
      case SetTimer(_) => OtherBits(s.mip, STI, false); TimerPut(s.mip, STI);
      case RaiseSoftware => OtherBits(s.mip, SSI, true); TimerPut(s.mip, SSI);
      case ClearSoftware => OtherBits(s.mip, SSI, false); TimerPut(s.mip, SSI);
    }
    AlikeSynced(s, Step(s, ev, true));
  }

  /** Every event keeps what the lazy tick relies on, a poll of the console under that guard. */
  lemma StepSynced(s: Soc, ev: Event)
    requires s.Valid() && Synced(s) && (ev.GetChar? ==> Allowed(s))
    ensures Synced(Step(s, ev, true))
  {
    hide Has, LazyTick, PlicModel.State.Best, PlicModel.State.SetLevel;
    match ev
    case Tick => TickSynced(s);
    case Typed(_) => InputSynced(s, ev);
    case GetChar => InputSynced(s, ev);
    case Read(_, _) =>
    case Write(_, _, _) =>
    case _ => RegisterSynced(s, ev);
  }

  lemma InputSynced(s: Soc, ev: Event)
    requires s.Valid() && Synced(s) && (ev.Typed? || ev.GetChar?) && (ev.GetChar? ==> Allowed(s))
    ensures Synced(Step(s, ev, true))
  {
    hide Has, LazyTick, PlicModel.State.Best;
  }

  lemma {:induction false} RunSynced(s: Soc, evs: seq<Event>)
    requires s.Valid() && Synced(s) && AllAllowed(s, evs)
    ensures Synced(Run(s, evs, true))
    decreases |evs|
  {
    hide Synced, Allowed, Step;
    if evs != [] {
      StepSynced(s, evs[0]);
      RunSynced(Step(s, evs[0], true), evs[1..]);
    }
  }

  /** The lazy tick differs from the eager one exactly when it skips a scan that had work to do. */
  lemma LazyTickExact(s: Soc)
    requires s.Valid()
    ensures var t := Timer(s.(cycle := s.cycle + 1));
            Same(LazyTick(s), EagerTick(s)) <==> !Skips(t) || Settled(t)
  {
    hide Timer, Scan, Settled, Skips;
    var t := Timer(s.(cycle := s.cycle + 1));
    TimerApart(s.(cycle := s.cycle + 1));
    SettledScan(t);
    ScanDirty(t);
  }

  lemma ScanDirty(s: Soc)
    requires s.Valid()
    ensures !Scan(s).dev.dirty
  {
  }

  lemma TimerSame(l: Soc, e: Soc)
    requires Same(l, e)
    ensures Same(Timer(l), Timer(e))
  {
    hide TimerBits;
  }

  lemma ScanSame(l: Soc, e: Soc)
    requires l.Valid() && Same(l, e)
    ensures Scan(l) == Scan(e)
  {
    hide Put;
  }

  /** What a lazy tick needs in order to do what an eager one does. */
  predicate SkipsSoundly(s: Soc)
    requires s.Valid()
  {
    var t := Timer(s.(cycle := s.cycle + 1)); !Skips(t) || Settled(t)
  }

  lemma SyncedSkips(s: Soc)
    requires s.Valid() && Synced(s)
    ensures SkipsSoundly(s)
  {
    hide Timer, PlicModel.State.Best, Has;
    TimerApart(s.(cycle := s.cycle + 1));
  }

  lemma EagerSame(l: Soc, e: Soc)
    requires l.Valid() && Same(l, e)
    ensures EagerTick(l) == EagerTick(e)
  {
    hide Timer, Scan;
    var l1, e1 := l.(cycle := l.cycle + 1), e.(cycle := e.cycle + 1);
    TimerApart(l1);
    TimerSame(l1, e1);
    ScanSame(Timer(l1), Timer(e1));
  }

  lemma ReadSame(l: Devices, e: Devices, addr: nat)
    requires l.plic.Valid() && l.(dirty := false) == e.(dirty := false)
    ensures l.AfterRead(addr) == e.AfterRead(addr)
  {
  }

  lemma WriteSame(l: Devices, e: Devices, addr: nat, size: nat, value: bv64)
    requires l.plic.Valid() && l.(dirty := false) == e.(dirty := false)
    ensures l.AfterWrite(addr, size, value) == e.AfterWrite(addr, size, value)
  {
  }

  lemma TickSame(l: Soc, e: Soc)
    requires l.Valid() && Same(l, e)
    ensures Same(LazyTick(l), EagerTick(e)) <==> SkipsSoundly(l)
  {
    hide Timer, Skips, Settled, LazyTick, EagerTick;
    LazyTickExact(l);
    EagerSame(l, e);
  }

  /** One step apart: equal machines stay equal exactly when a lazy tick skips only a scan that would
      change nothing. */
  lemma StepSame(l: Soc, e: Soc, ev: Event)
    requires l.Valid() && Same(l, e)
    ensures Same(Step(l, ev, true), Step(e, ev, false)) <==> (ev.Tick? ==> SkipsSoundly(l))
  {
    hide Put, Merge, On, Off, LazyTick, EagerTick, Devices.AfterRead, Devices.AfterWrite, SkipsSoundly;
    match ev
    case Tick => TickSame(l, e);
    case Read(addr, _) => ReadSame(l.dev, e.dev, addr);
    case Write(addr, size, value) => WriteSame(l.dev, e.dev, addr, size, value);
    case _ =>
  }

  /** The lazy scan agrees with the eager one: over every run whose console polls meet the guard, the
      two machines stay equal in all but the flag, so the guest reads the same from the devices and
      every interrupt is pending in one exactly when it is pending in the other. */
  lemma {:induction false} LazyIsEager(l: Soc, e: Soc, evs: seq<Event>)
    requires l.Valid() && e.Valid() && Same(l, e) && Synced(l) && AllAllowed(l, evs)
    ensures Same(Run(l, evs, true), Run(e, evs, false)) && Seen(l, evs, true) == Seen(e, evs, false)
    decreases |evs|
  {
    hide Step, Synced, Allowed, SkipsSoundly;
    if evs != [] {
      SyncedSkips(l);
      StepSame(l, e, evs[0]);
      StepSynced(l, evs[0]);
      LazyIsEager(Step(l, evs[0], true), Step(e, evs[0], false), evs[1..]);
    }
  }

  /** In particular from reset, where the flag is set. */
  lemma LazyIsEagerFromReset(s: Soc, evs: seq<Event>)
    requires s.Valid() && s.dev.dirty && AllAllowed(s, evs)
    ensures Same(Run(s, evs, true), Run(s, evs, false)) && Seen(s, evs, true) == Seen(s, evs, false)
  {
    hide Step, Allowed;
    LazyIsEager(s, s, evs);
  }

  /** The two machines are equal before the run and after each of its events. */
  predicate SameThroughout(l: Soc, e: Soc, evs: seq<Event>)
    requires l.Valid() && e.Valid()
    decreases |evs|
  {
    Same(l, e) && (evs == [] || SameThroughout(Step(l, evs[0], true), Step(e, evs[0], false), evs[1..]))
  }

  predicate AllSkipSoundly(s: Soc, evs: seq<Event>)
    requires s.Valid()
    decreases |evs|
  {
    evs == [] || ((evs[0].Tick? ==> SkipsSoundly(s)) && AllSkipSoundly(Step(s, evs[0], true), evs[1..]))
  }

  /** Over any run whatever, they stay equal exactly when no tick of the lazy run skips a scan that
      had work to do. */
  lemma {:induction false} RunExact(l: Soc, e: Soc, evs: seq<Event>)
    requires l.Valid() && e.Valid() && Same(l, e)
    ensures SameThroughout(l, e, evs) <==> AllSkipSoundly(l, evs)
    decreases |evs|
  {
    hide Step, SkipsSoundly, Same;
    if evs != [] {
      StepSame(l, e, evs[0]);
      if evs[0].Tick? ==> SkipsSoundly(l) {
        RunExact(Step(l, evs[0], true), Step(e, evs[0], false), evs[1..]);
      }
    }
  }

  // ---------------------------------------------------------------------------------------
  // The firmware's getchar

  lemma GetCharSynced(s: Soc)
    requires s.Valid() && Synced(s)
    ensures var t := Step(s, GetChar, true);
            (Synced(t) <==> Allowed(s)) &&
            (!t.dev.dirty && !t.dev.uart.HasInput() ==> (Settled(t) <==> Allowed(s))) &&
            (t.dev.dirty || t.dev.uart.HasInput() ==> Allowed(s))
  {
    hide Has, PlicModel.State.Best;
    if !Allowed(s) {
      assert UART_IRQ !in Step(s, GetChar, true).dev.plic.SetLevel(UART_IRQ, false).levels;
    }
  }

  /** The guard is exact: a poll keeps what the lazy tick relies on just when it meets the guard, and
      a tick right after the poll does what an eager one does just when it meets the guard or the
      periodic scan falls due. */
  lemma GetCharExact(s: Soc)
    requires s.Valid() && Synced(s)
    ensures var t := Step(s, GetChar, true);
            (Synced(t) <==> Allowed(s)) &&
            (Same(LazyTick(t), EagerTick(t)) <==> Allowed(s) || (s.cycle + 1) % POLL_INTERVAL == 0)
  {
    hide Timer, LazyTick, EagerTick, Settled, Synced, Allowed;
    var t := Step(s, GetChar, true);
    GetCharSynced(s);
    LazyTickExact(t);
    TimerApart(t.(cycle := t.cycle + 1));
    SettledLater(t);
  }

  lemma SettledLater(s: Soc)
    requires s.Valid()
    ensures Settled(s.(cycle := s.cycle + 1)) == Settled(s)
  {
  }
}
