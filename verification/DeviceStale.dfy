/** What a console poll outside the guard leaves behind: a run from reset in which the lazy and the
    eager scan part, and how long they can stay apart. */
module DeviceStale {
  import opened Basics
  import opened CsrModel
  import opened Powers
  import opened DeviceScan
  import PlicModel
  import UartModel

  lemma TimerKeepsBit(s: Soc)
    ensures Has(Timer(s).mip, SEI) == Has(s.mip, SEI)
  {
    hide Has, TimerBits;
    var clint := s.dev.clint.Advanced();
    TimerBitsApart(s.mip, s.sbi, s.armed, clint.Expired(), clint.Software());
  }

  lemma ScannedBit(s: Soc)
    requires s.Valid()
    ensures Has(Scan(s).mip, SEI) == s.dev.plic.SetLevel(UART_IRQ, s.dev.uart.IsInterrupting()).IsPending(1)
  {
    hide Has, Put, PlicModel.State.Best;
    var plic := s.dev.plic.SetLevel(UART_IRQ, s.dev.uart.IsInterrupting());
    PutSupervisor(Put(s.mip, MEI, plic.IsPending(0)), plic.IsPending(1));
  }

  lemma NothingAsserted(p: PlicModel.State)
    requires p.Valid() && p.levels <= {UART_IRQ}
    ensures !p.SetLevel(UART_IRQ, false).IsPending(1)
  {
    var q := p.SetLevel(UART_IRQ, false);
    assert q.levels == {};
    PlicModel.BestSpec(q, 1);
  }

  /** Where the UART's line is the only one up, the tick after such a getchar keeps the external
      interrupt pending although its cause is gone, where a scan would have dropped it. */
  lemma GetCharLeavesStale(s: Soc)
    requires s.Valid() && !s.dev.dirty && Has(s.mip, SEI) && s.dev.plic.levels == {UART_IRQ} &&
             (s.cycle + 1) % POLL_INTERVAL != 0
    requires |s.dev.uart.rx| == 1 && s.dev.uart.RxEnabled() && !s.dev.uart.ThrEnabled()
    ensures Has(LazyTick(Step(s, GetChar, true)).mip, SEI) && !Has(EagerTick(Step(s, GetChar, false)).mip, SEI)
  {
    hide Has, Timer, Scan, PlicModel.State.Best;
    var t := s.(dev := s.dev.(uart := s.dev.uart.TakeInput().1), cycle := s.cycle + 1);
    TimerKeepsBit(t);
    TimerApart(t);
    ScannedBit(Timer(t));
    NothingAsserted(t.dev.plic);
  }

  // ---------------------------------------------------------------------------------------
  // A run from reset in which it happens

  /** The guest enables the receive interrupt and gives it a priority, a byte is typed, and a tick
      delivers it. */
  const DELIVERY: seq<Event> :=
    [Write(UART_BASE + 1, 1, 1), Write(PLIC_BASE + 40, 4, 1), Write(PLIC_BASE + 0x2080, 4, 1024), Typed([65]), Tick]

  /** What the controller is left with. */
  function Delivering(): PlicModel.State {
    PlicModel.RESET.(priority := PlicModel.RESET.priority[10 := 1], enable := [{}, {10}], levels := {10})
  }

  lemma EnableTen()
    ensures PlicModel.Bits(1024) - {0} == {UART_IRQ}
  {
    assert Pow2(10) == 1024;
    hide Pow2, PlicModel.BitAt;
    forall i: nat | i < 32 ensures PlicModel.BitAt(1024, i) <==> i == UART_IRQ { PlicModel.OneBit(10, i); }
  }

  lemma {:induction false} RunJoins(s: Soc, a: seq<Event>, b: seq<Event>, lazy: bool)
    requires s.Valid()
    ensures Run(s, a + b, lazy) == Run(Run(s, a, lazy), b, lazy)
    decreases |a|
  {
    hide Step;
    if a == [] {
      assert a + b == b;
    } else {
      assert (a + b)[1..] == a[1..] + b;
      RunJoins(Step(s, a[0], lazy), a[1..], b, lazy);
    }
  }

  lemma RunOne(s: Soc, ev: Event, lazy: bool)
    requires s.Valid()
    ensures Run(s, [ev], lazy) == Step(s, ev, lazy)
  {
    hide Step;
    assert [ev][1..] == [];
  }

  lemma RunTwo(s: Soc, a: Event, b: Event, lazy: bool)
    requires s.Valid()
    ensures Run(s, [a, b], lazy) == Step(Step(s, a, lazy), b, lazy)
  {
    hide Step;
    assert [a, b][1..] == [b];
    RunOne(Step(s, a, lazy), b, lazy);
  }

  /** The guest's three register writes. */
  lemma Configured(s: Soc, lazy: bool)
    requires s.Valid() && s.dev.plic == PlicModel.RESET && s.dev.uart == UartModel.RESET
    ensures var t := Run(s, DELIVERY[..3], lazy);
            t == s.(dev := s.dev.(
                      dirty := true, uart := UartModel.RESET.(ier := 1), plic := Delivering().(levels := {})))
  {
    hide Step, PlicModel.Bits;
    var a, b, c := DELIVERY[0], DELIVERY[1], DELIVERY[2];
    assert DELIVERY[..3] == [a] + [b, c];
    var s1 := s.(dev := s.dev.(dirty := true, uart := UartModel.RESET.(ier := 1)));
    var s2 := s1.(dev := s1.dev.(plic := PlicModel.RESET.(priority := PlicModel.RESET.priority[10 := 1])));
    RunJoins(s, [a], [b, c], lazy);
    RunOne(s, a, lazy);
    WritesOne(s, lazy);
    RunTwo(s1, b, c, lazy);
    WritesPriority(s1, lazy);
    WritesEnable(s2, lazy);
  }

  lemma NumberOne()
    ensures Number(1) == 1 && Number(1024) == 1024
  {
  }

  lemma WritesOne(s: Soc, lazy: bool)
    requires s.Valid() && s.dev.uart == UartModel.RESET
    ensures Step(s, DELIVERY[0], lazy) == s.(dev := s.dev.(dirty := true, uart := UartModel.RESET.(ier := 1)))
  {
    hide Number;
    NumberOne();
  }

  lemma WritesPriority(s: Soc, lazy: bool)
    requires s.Valid()
    ensures Step(s, DELIVERY[1], lazy) ==
            s.(dev := s.dev.(dirty := true, plic := s.dev.plic.(priority := s.dev.plic.priority[10 := 1])))
  {
    hide Number;
    NumberOne();
  }

  lemma WritesEnable(s: Soc, lazy: bool)
    requires s.Valid()
    ensures Step(s, DELIVERY[2], lazy) ==
            s.(dev := s.dev.(dirty := true, plic := s.dev.plic.(enable := s.dev.plic.enable[1 := {UART_IRQ}])))
  {
    hide Number, PlicModel.Bits;
    NumberOne();
    EnableTen();
  }

  /** Under either tick, the byte's interrupt is delivered and nothing is left to scan. */
  lemma Delivered(sbi: bool, lazy: bool)
    ensures var t := Run(ResetSoc(sbi), DELIVERY, lazy);
            t.dev.plic == Delivering() && t.dev.uart == UartModel.RESET.(ier := 1, rx := [65]) && !t.dev.dirty &&
            t.cycle == 1 &&
            Has(t.mip, SEI)
  {
    hide Step, Has, Timer, Scan;
    var s := ResetSoc(sbi);
    assert DELIVERY == DELIVERY[..3] + [Typed([65]), Tick];
    RunJoins(s, DELIVERY[..3], [Typed([65]), Tick], lazy);
    Configured(s, lazy);
    var c := Run(s, DELIVERY[..3], lazy);
    RunTwo(c, Typed([65]), Tick, lazy);
    TypedTick(c, lazy);
  }

  lemma TypedTick(s: Soc, lazy: bool)
    requires s.dev.plic == Delivering().(levels := {}) && s.dev.uart == UartModel.RESET.(ier := 1) && s.dev.dirty &&
             s.cycle == 0
    ensures s.Valid()
    ensures var t := Step(Step(s, Typed([65]), lazy), Tick, lazy);
            t.dev.plic == Delivering() && t.dev.uart == UartModel.RESET.(ier := 1, rx := [65]) && !t.dev.dirty &&
            t.cycle == 1 &&
            Has(t.mip, SEI)
  {
    hide Has, Timer, PlicModel.State.Best;
    var u := s.(dev := s.dev.(uart := s.dev.uart.(rx := [65])), cycle := 1);
    TimerApart(u);
    ScannedBit(Timer(u));
    assert [] + [65 as byte] == [65];
    assert Delivering().(levels := {}).SetLevel(UART_IRQ, true) == Delivering();
    assert Delivering().Eligible(1, UART_IRQ);
    PlicModel.BestSpec(Delivering(), 1);
  }

  /** The last byte taken by getchar: from reset, the lazy machine ends with the supervisor external
      interrupt pending, the eager one without it. */
  lemma StaleFromReset(sbi: bool)
    ensures var evs := DELIVERY + [GetChar, Tick];
            Has(Run(ResetSoc(sbi), evs, true).mip, SEI) && !Has(Run(ResetSoc(sbi), evs, false).mip, SEI)
  {
    hide Step, Has, Run, LazyTick, EagerTick;
    var s := ResetSoc(sbi);
    Delivered(sbi, true);
    Delivered(sbi, false);
    var l, e := Run(s, DELIVERY, true), Run(s, DELIVERY, false);
    RunJoins(s, DELIVERY, [GetChar, Tick], true);
    RunJoins(s, DELIVERY, [GetChar, Tick], false);
    RunTwo(l, GetChar, Tick, true);
    RunTwo(e, GetChar, Tick, false);
    GetCharLeavesStale(l);
    GetCharLeavesStale(e);
    TickSteps(Step(l, GetChar, true));
    TickSteps(Step(e, GetChar, false));
  }

  lemma TickSteps(s: Soc)
    requires s.Valid()
    ensures Step(s, Tick, true) == LazyTick(s) && Step(s, Tick, false) == EagerTick(s)
  {
  }

  // ---------------------------------------------------------------------------------------
  // How long it can last

  /** What a scan does not recompute: all but the UART's line, the external bits and the flag. */
  function Veil(s: Soc): (t: Soc)
    requires s.Valid()
    ensures t.Valid()
  {
    s.(dev := s.dev.(dirty := false, plic := s.dev.plic.SetLevel(UART_IRQ, false)), mip := VeilMip(s.mip))
  }

  function VeilMip(mip: bv64): bv64 { Put(Put(mip, MEI, false), SEI, false) }

  /** Equal but for what a scan would recompute. */
  predicate Alike(l: Soc, e: Soc)
    requires l.Valid() && e.Valid()
  {
    Veil(l) == Veil(e)
  }

  predicate Claims(ev: Event) {
    ev.Read? && PLIC_BASE <= ev.addr < PLIC_END && PlicModel.ClaimContext(ev.addr - PLIC_BASE).Some?
  }

  // Bit algebra: how the operations on mip commute

  lemma OffIs(v: bv64, k: bv64)
    ensures Off(v, k) == v & !k
  {
  }

  lemma OnIs(v: bv64, k: bv64)
    ensures On(v, k) == v | k
  {
  }

  lemma MergeIs(v: bv64, w: bv64, k: bv64)
    ensures Merge(v, w, k) == On(Off(v, k), Mask(w, k))
  {
  }

  lemma SwapAnds(v: bv64, a: bv64, b: bv64)
    ensures v & a & b == v & b & a
  {
  }

  lemma SwapOrs(v: bv64, a: bv64, b: bv64)
    ensures (v | a) | b == (v | b) | a
  {
  }

  lemma SwapOrAnd(v: bv64, a: bv64, b: bv64)
    requires a & b == 0
    ensures (v | a) & !b == (v & !b) | a
  {
  }

  lemma MaskBeyond(w: bv64, k: bv64, b: bv64)
    requires k & b == 0
    ensures Mask(w, k) & b == 0
  {
  }

  lemma Absorbs(v: bv64, k: bv64)
    ensures (v | k) | k == v | k && (v & !k) | k == v | k
  {
  }

  lemma Clears(v: bv64, k: bv64)
    ensures (v | k) & !k == v & !k && v & !k & !k == v & !k
  {
  }

  lemma OffApart(v: bv64, a: bv64, b: bv64)
    ensures Off(Off(v, a), b) == Off(Off(v, b), a)
  {
    hide Off;
    OffIs(v, a);
    OffIs(v & !a, b);
    OffIs(v, b);
    OffIs(v & !b, a);
    SwapAnds(v, !a, !b);
  }

  lemma OnTogether(v: bv64, a: bv64, b: bv64)
    ensures On(On(v, a), b) == On(On(v, b), a)
  {
    hide On;
    OnIs(v, a);
    OnIs(v | a, b);
    OnIs(v, b);
    OnIs(v | b, a);
    SwapOrs(v, a, b);
  }

  lemma OnApart(v: bv64, a: bv64, b: bv64)
    requires a & b == 0
    ensures Off(On(v, a), b) == On(Off(v, b), a)
  {
    hide On, Off;
    OnIs(v, a);
    OffIs(v | a, b);
    OffIs(v, b);
    OnIs(v & !b, a);
    SwapOrAnd(v, a, b);
  }

  lemma OnLast(v: bv64, k: bv64)
    ensures On(On(v, k), k) == On(v, k) && On(Off(v, k), k) == On(v, k)
  {
    hide On, Off;
    OnIs(v, k);
    OffIs(v, k);
    OnIs(v | k, k);
    OnIs(v & !k, k);
    Absorbs(v, k);
  }

  lemma OffLast(v: bv64, k: bv64)
    ensures Off(On(v, k), k) == Off(v, k) && Off(Off(v, k), k) == Off(v, k)
  {
    hide On, Off;
    OnIs(v, k);
    OffIs(v, k);
    OffIs(v | k, k);
    OffIs(v & !k, k);
    Clears(v, k);
  }

  /** Of two updates of a bit the last counts. */
  lemma PutLast(v: bv64, k: bv64, p: bool, q: bool)
    ensures Put(Put(v, k, p), k, q) == Put(v, k, q)
  {
    hide On, Off;
    OnLast(v, k);
    OffLast(v, k);
  }

  /** Updates of different bits commute. */
  lemma PutApart(v: bv64, a: bv64, p: bool, b: bv64, q: bool)
    requires a & b == 0 && b & a == 0
    ensures Put(Put(v, a, p), b, q) == Put(Put(v, b, q), a, p)
  {
    hide On, Off;
    OffApart(v, a, b);
    OnTogether(v, a, b);
    OnApart(v, a, b);
    OnApart(v, b, a);
  }

  lemma MergeApart(v: bv64, w: bv64, k: bv64, b: bv64)
    requires k & b == 0
    ensures Put(Merge(v, w, k), b, false) == Merge(Put(v, b, false), w, k)
  {
    hide Merge, On, Off, Mask;
    MergeIs(v, w, k);
    MaskBeyond(w, k, b);
    OnApart(Off(v, k), Mask(w, k), b);
    OffApart(v, k, b);
    MergeIs(Off(v, b), w, k);
  }

  lemma Masks(k: bv64)
    requires k == MTI || k == STI || k == MSI || k == SSI || k == MIP_WRITABLE
    ensures k & MEI == 0 && MEI & k == 0 && k & SEI == 0 && SEI & k == 0 && MEI & SEI == 0 && SEI & MEI == 0
  {
  }

  lemma VeilPut(m: bv64, up: bool, higher: bool)
    ensures VeilMip(Put(Put(m, MEI, up), SEI, higher)) == VeilMip(m)
    ensures Put(Put(VeilMip(m), MEI, up), SEI, higher) == Put(Put(m, MEI, up), SEI, higher)
  {
    hide Put;
    Masks(MTI);
    PutsLast(m, up, higher, false, false);
    PutsLast(m, false, false, up, higher);
  }

  lemma PutsLast(m: bv64, p: bool, q: bool, up: bool, higher: bool)
    ensures Put(Put(Put(Put(m, MEI, p), SEI, q), MEI, up), SEI, higher) == Put(Put(m, MEI, up), SEI, higher)
  {
    hide Put;
    Masks(MTI);
    PutApart(Put(m, MEI, p), SEI, q, MEI, up);
    PutLast(m, MEI, p, up);
    PutLast(Put(m, MEI, up), SEI, q, higher);
  }

  lemma VeilLevel(p: PlicModel.State, b: bool, c: bool)
    requires p.Valid()
    ensures p.SetLevel(UART_IRQ, b).SetLevel(UART_IRQ, c) == p.SetLevel(UART_IRQ, c)
  {
    assert p.levels + {UART_IRQ} - {UART_IRQ} == p.levels - {UART_IRQ};
    assert p.levels - {UART_IRQ} + {UART_IRQ} == p.levels + {UART_IRQ};
    LevelTwice(p, b);
  }

  /** A scan makes alike machines equal. */
  lemma ScanAlike(l: Soc, e: Soc)
    requires l.Valid() && e.Valid() && Alike(l, e)
    ensures Scan(l) == Scan(e)
  {
    hide Put, VeilMip, PlicModel.State.SetLevel, PlicModel.State.Best;
    var b := l.dev.uart.IsInterrupting();
    VeilLevel(l.dev.plic, false, b);
    VeilLevel(e.dev.plic, false, b);
    var p := l.dev.plic.SetLevel(UART_IRQ, b);
    VeilPut(l.mip, p.IsPending(0), p.IsPending(1));
    VeilPut(e.mip, p.IsPending(0), p.IsPending(1));
  }

  lemma ScanVeils(s: Soc)
    requires s.Valid()
    ensures Veil(Scan(s)) == Veil(s)
  {
    hide Put, VeilMip, PlicModel.State.SetLevel, PlicModel.State.Best;
    var b := s.dev.uart.IsInterrupting();
    VeilLevel(s.dev.plic, b, false);
    var p := s.dev.plic.SetLevel(UART_IRQ, b);
    VeilPut(s.mip, p.IsPending(0), p.IsPending(1));
  }

  lemma VeilOther(m: bv64, k: bv64, up: bool)
    requires k == MTI || k == STI || k == MSI || k == SSI
    ensures VeilMip(Put(m, k, up)) == Put(VeilMip(m), k, up)
  {
    hide Put;
    Masks(k);
    PutApart(m, k, up, MEI, false);
    PutApart(Put(m, MEI, false), k, up, SEI, false);
  }

  lemma VeilOn(m: bv64, k: bv64)
    requires k == MTI || k == STI || k == MSI || k == SSI
    ensures VeilMip(On(m, k)) == On(VeilMip(m), k) && VeilMip(Off(m, k)) == Off(VeilMip(m), k)
  {
    hide VeilMip, On, Off;
    VeilOther(m, k, true);
    VeilOther(m, k, false);
  }

  lemma VeilMerge(m: bv64, v: bv64, k: bv64)
    requires k == MIP_WRITABLE || k == SSI
    ensures VeilMip(Merge(m, v, k)) == Merge(VeilMip(m), v, k)
  {
    hide Merge, Put;
    Masks(k);
    MergeApart(m, v, k, MEI);
    MergeApart(Put(m, MEI, false), v, k, SEI);
  }

  lemma TimerVeils(s: Soc)
    requires s.Valid()
    ensures Veil(Timer(s)) == Timer(Veil(s))
  {
    hide On, Off, VeilMip, PlicModel.State.SetLevel, Clint.Expired, Clint.Software, Clint.Advanced;
    var clint := s.dev.clint.Advanced();
    var m := TimerLine(s.mip, s.sbi, s.armed, clint.Expired());
    VeilOn(s.mip, STI);
    VeilOn(s.mip, MTI);
    VeilOn(m, MSI);
  }

  lemma WriteVeils(p: PlicModel.State, offset: nat, value: nat)
    requires p.Valid()
    ensures p.AfterWrite(offset, value).SetLevel(UART_IRQ, false) ==
            p.SetLevel(UART_IRQ, false).AfterWrite(offset, value)
  {
    hide PlicModel.Bits;
  }

  lemma DeviceWriteAlike(l: Soc, e: Soc, addr: nat, size: nat, value: bv64)
    requires l.Valid() && e.Valid() && Alike(l, e)
    ensures Alike(Step(l, Write(addr, size, value), true), Step(e, Write(addr, size, value), false))
  {
    hide PlicModel.State.AfterWrite, PlicModel.State.SetLevel, VeilMip, Number, Clint.AfterWrite,
         UartModel.State.AfterWrite;
    if PLIC_BASE <= addr < PLIC_END {
      WriteVeils(l.dev.plic, addr - PLIC_BASE, Number(value));
      WriteVeils(e.dev.plic, addr - PLIC_BASE, Number(value));
    }
  }

  lemma TickAlike(l: Soc, e: Soc)
    requires l.Valid() && e.Valid() && Alike(l, e)
    ensures Alike(LazyTick(l), EagerTick(e))
    ensures var t := Timer(l.(cycle := l.cycle + 1)); !Skips(t) ==> LazyTick(l) == EagerTick(e) && Synced(LazyTick(l))
  {
    hide Timer, Scan, VeilMip, PlicModel.State.SetLevel, Skips, PlicModel.State.Best;
    var l1, e1 := l.(cycle := l.cycle + 1), e.(cycle := e.cycle + 1);
    assert Veil(l1) == Veil(l).(cycle := l.cycle + 1);
    assert Veil(e1) == Veil(e).(cycle := e.cycle + 1);
    TimerVeils(l1);
    TimerVeils(e1);
    TimerApart(l1);
    TimerApart(e1);
    ScanVeils(Timer(l1));
    ScanVeils(Timer(e1));
    ScanAlike(Timer(l1), Timer(e1));
    ScanSettles(Timer(l1));
  }

  lemma RegisterAlike(l: Soc, e: Soc, ev: Event)
    requires l.Valid() && e.Valid() && Alike(l, e) && !ev.Tick? && !ev.Read? && !ev.Write?
    ensures Alike(Step(l, ev, true), Step(e, ev, false))
  {
    hide Merge, On, Off, VeilMip, PlicModel.State.SetLevel, PlicModel.State.Valid, LazyTick, EagerTick,
         Devices.AfterRead, Devices.AfterWrite, UartModel.State.TakeInput, UartModel.State.PushInput;
    match ev
    case WriteMip(value) => VeilMerge(l.mip, value, MIP_WRITABLE); VeilMerge(e.mip, value, MIP_WRITABLE);
    case WriteSip(value) => VeilMerge(l.mip, value, SSI); VeilMerge(e.mip, value, SSI);
    case SetTimer(_) => VeilOn(l.mip, STI); VeilOn(e.mip, STI);
    case RaiseSoftware => VeilOn(l.mip, SSI); VeilOn(e.mip, SSI);
    case ClearSoftware => VeilOn(l.mip, SSI); VeilOn(e.mip, SSI);
    case _ =>
  }

  /** A read that is no claim leaves the controller alone. */
  lemma ReadQuiet(d: Devices, addr: nat, size: nat)
    requires d.plic.Valid() && !Claims(Read(addr, size))
    ensures d.AfterRead(addr) ==
            d.(dirty := true,
               uart := if UART_BASE <= addr < UART_END then d.uart.AfterRead(addr - UART_BASE) else d.uart)
  {
    hide UartModel.State.AfterRead, PlicModel.State.Claimed;
  }

  lemma DeviceReadAlike(l: Soc, e: Soc, addr: nat, size: nat)
    requires l.Valid() && e.Valid() && Alike(l, e) && !Claims(Read(addr, size))
    ensures Alike(Step(l, Read(addr, size), true), Step(e, Read(addr, size), false))
  {
    hide VeilMip, PlicModel.State.SetLevel, UartModel.State.AfterRead, Devices.AfterRead, Claims;
    ReadQuiet(l.dev, addr, size);
    ReadQuiet(e.dev, addr, size);
  }

  /** Only a claim can tell alike machines apart for good. */
  lemma StepAlike(l: Soc, e: Soc, ev: Event)
    requires l.Valid() && e.Valid() && Alike(l, e) && !Claims(ev)
    ensures Alike(Step(l, ev, true), Step(e, ev, false))
  {
    hide LazyTick, EagerTick, Devices.AfterRead, Devices.AfterWrite, Alike, Claims;
    match ev
    case Tick => TickAlike(l, e);
    case Read(addr, size) => DeviceReadAlike(l, e, addr, size);
    case Write(addr, size, value) => DeviceWriteAlike(l, e, addr, size, value);
    case _ => RegisterAlike(l, e, ev);
  }

  function Ticks(evs: seq<Event>): nat
    decreases |evs|
  {
    if evs == [] then 0 else (if evs[0].Tick? then 1 else 0) + Ticks(evs[1..])
  }

  /** Equal, with the lazy machine fit to skip. */
  predicate Agree(l: Soc, e: Soc)
    requires l.Valid() && e.Valid()
  {
    Same(l, e) && Synced(l)
  }

  predicate AgreeAfter(l: Soc, e: Soc, evs: seq<Event>, k: nat)
    requires l.Valid() && e.Valid()
  {
    k <= |evs| && Agree(Run(l, evs[..k], true), Run(e, evs[..k], false))
  }

  lemma AgreeLater(l: Soc, e: Soc, evs: seq<Event>, k: nat)
    requires l.Valid() && e.Valid() && evs != []
    requires AgreeAfter(Step(l, evs[0], true), Step(e, evs[0], false), evs[1..], k)
    ensures AgreeAfter(l, e, evs, k + 1)
  {
    hide Step, Agree;
    assert evs[..k + 1][1..] == evs[1..][..k];
  }

  /** Staleness is bounded: machines that differ in the UART's line and the external bits alone are
      equal again, and the lazy one fit to skip, by the time the periodic scan falls due, whatever
      happens but a claim in the meantime. */
  lemma {:induction false} StaleAtMostOneInterval(l: Soc, e: Soc, evs: seq<Event>)
    requires l.Valid() && e.Valid() && Alike(l, e) && forall ev :: ev in evs ==> !Claims(ev)
    requires Ticks(evs) >= POLL_INTERVAL - l.cycle % POLL_INTERVAL
    ensures exists k :: AgreeAfter(l, e, evs, k)
    decreases |evs|
  {
    hide Alike, Agree, Step, Claims;
    var (t, u) := (Step(l, evs[0], true), Step(e, evs[0], false));
    StepTowardsPoll(l, e, evs[0]);
    if evs[0].Tick? && t.cycle % POLL_INTERVAL == 0 {
      assert evs[..1] == [evs[0]];
      RunOne(l, evs[0], true);
      RunOne(e, evs[0], false);
      assert AgreeAfter(l, e, evs, 1);
    } else {
      StaleAtMostOneInterval(t, u, evs[1..]);
      var k :| AgreeAfter(t, u, evs[1..], k);
      AgreeLater(l, e, evs, k);
    }
  }

  lemma StepTowardsPoll(l: Soc, e: Soc, ev: Event)
    requires l.Valid() && e.Valid() && Alike(l, e) && !Claims(ev)
    ensures var (t, u) := (Step(l, ev, true), Step(e, ev, false));
            Alike(t, u) &&
            if !ev.Tick? then t.cycle == l.cycle
            else t.cycle == l.cycle + 1 && (t.cycle % POLL_INTERVAL == 0 ==> Agree(t, u))
  {
    hide Put, Has, Merge, On, Off, Timer, Scan, Veil, Synced;
    StepAlike(l, e, ev);
    if ev.Tick? {
      TickAlike(l, e);
      TimerApart(l.(cycle := l.cycle + 1));
      ScanCycle(Timer(l.(cycle := l.cycle + 1)));
    }
  }

  lemma ScanCycle(s: Soc)
    requires s.Valid()
    ensures Scan(s).cycle == s.cycle
  {
    hide Put;
  }
}
