/** Whole runs of the cached hart beside the uncached one. */
module TlbRuns {
  import opened Basics
  import opened Mmu
  import opened MmuTheory
  import opened Tlb

  /** A step of the hart as far as translation can tell: an access, a change of the registers, a
      store of a byte to DRAM, or a fence. */
  datatype Event = Touch(va: nat, access: Access) | SetRegs(regs: Regs) | StoreByte(i: nat, b: byte) | Fence

  /** The cached hart, with what the proof keeps about its entries. */
  datatype State = State(dram: seq<byte>, tlb: Cache, fillers: Fillers, regs: Regs, book: Book)

  function Reset(dram: seq<byte>, r: Regs): State {
    State(dram, EmptyCache(), seq(1024, _ => seq(3, _ => User)), r, CLEAR)
  }

  ghost predicate Consistent(xlen: Xlen, s: State) { CacheOk(s.dram, s.tlb, s.fillers, xlen, s.book) }

  function Answer(xlen: Xlen, s: State, va: nat, access: Access): Res {
    Cached(s.dram, s.tlb, xlen, s.regs, va, access).0
  }

  function Step(xlen: Xlen, s: State, ev: Event): State {
    match ev
    case Touch(va, access) =>
      var (res, after, t) := Cached(s.dram, s.tlb, xlen, s.regs, va, access);
      State(after, t, FillersAfter(s.fillers, s.dram, s.tlb, xlen, s.regs, va, access), s.regs,
            AfterTouch(s.book, xlen, s.regs, va, access))
    case SetRegs(r) => s.(regs := r)
    case StoreByte(i, b) => s.(dram := Poke(s.dram, i, b), book := AfterStore(s.book, s.dram, xlen, i))
    case Fence => s.(tlb := Flushed(s.tlb), book := CLEAR)
  }

  /** The same step with a page walk on every access. */
  function Walk(xlen: Xlen, dram: seq<byte>, r: Regs, ev: Event): seq<byte> {
    match ev
    case Touch(va, access) => Translate(dram, xlen, r, va, access).1
    case SetRegs(_) => dram
    case StoreByte(i, b) => Poke(dram, i, b)
    case Fence => dram
  }

  /** The cached hart before event k of a run. */
  function Before(xlen: Xlen, s: State, evs: seq<Event>, k: nat): State
    requires k <= |evs|
    decreases k
  {
    if k == 0 then s else Step(xlen, Before(xlen, s, evs, k - 1), evs[k - 1])
  }

  /** The memory of the uncached hart before event k of the run. */
  function WalkedBefore(xlen: Xlen, s: State, evs: seq<Event>, k: nat): seq<byte>
    requires k <= |evs|
    decreases k
  {
    if k == 0 then s.dram
    else Walk(xlen, WalkedBefore(xlen, s, evs, k - 1), Before(xlen, s, evs, k - 1).regs, evs[k - 1])
  }

  // ---------------------------------------------------------------------------------------
  // The invariant along every run

  lemma StepKeeps(xlen: Xlen, s: State, ev: Event)
    requires Consistent(xlen, s)
    ensures Consistent(xlen, Step(xlen, s, ev))
  {
    hide CacheOk, Cached, FillersAfter, AfterTouch, AfterStore, Poke, Flushed;
    match ev
    case Touch(va, access) => TouchKeeps(s.dram, s.tlb, s.fillers, xlen, s.book, s.regs, va, access);
    case SetRegs(_) =>
    case StoreByte(i, b) => PokeKeeps(s.dram, s.tlb, s.fillers, xlen, s.book, i, b);
    case Fence => FlushedOk(s.dram, s.tlb, s.fillers, xlen);
  }

  lemma {:induction false} RunKeeps(xlen: Xlen, s: State, evs: seq<Event>, k: nat)
    requires Consistent(xlen, s) && k <= |evs|
    ensures Consistent(xlen, Before(xlen, s, evs, k))
    decreases k
  {
    hide Consistent, Step;
    if k > 0 {
      RunKeeps(xlen, s, evs, k - 1);
      StepKeeps(xlen, Before(xlen, s, evs, k - 1), evs[k - 1]);
    }
  }

  lemma ResetConsistent(xlen: Xlen, dram: seq<byte>, r: Regs)
    ensures Consistent(xlen, Reset(dram, r))
  {
    hide Translate, Settled;
  }

  /** Over any run of accesses, register changes, stores and fences, exactly when the access of
      event k gets the answer and the memory a fresh walk would give, provided no entry it goes
      through was overwritten since the last fence. */
  lemma AccessExact(xlen: Xlen, s: State, evs: seq<Event>, k: nat)
    requires Consistent(xlen, s) && k < |evs| && evs[k].Touch?
    requires var b := Before(xlen, s, evs, k); Current(b.book, xlen, b.regs, evs[k].va, evs[k].access)
    ensures var b, va, access := Before(xlen, s, evs, k), evs[k].va, evs[k].access;
            (Answer(xlen, b, va, access), Step(xlen, b, evs[k]).dram) ==
             Translate(b.dram, xlen, b.regs, va, access) <==>
            Transparent(b.dram, b.tlb, b.fillers, xlen, b.regs, va, access)
  {
    hide Cached, Translate, Transparent, CacheOk, FillersAfter, AfterTouch;
    RunKeeps(xlen, s, evs, k);
    var b := Before(xlen, s, evs, k);
    hide Before;
    TouchExact(b.dram, b.tlb, b.fillers, xlen, b.book, b.regs, evs[k].va, evs[k].access);
  }

  // ---------------------------------------------------------------------------------------
  // Beside the uncached run

  /** DRAM with every accessed and dirty bit set: what two memories share that differ only there. */
  function AllUsed(dram: seq<byte>, size: nat): seq<byte>
    requires size > 0
  {
    seq(|dram|, i requires 0 <= i < |dram| => if i % size == 0 then SetBits(dram[i], Access.Store) else dram[i])
  }

  lemma GrownAllUsed(b: byte, c: byte)
    requires Grown(b, c)
    ensures SetBits(b, Access.Store) == SetBits(c, Access.Store) && Grown(b, SetBits(b, Access.Store))
  {
    HighBits(b);
    HighBits(c);
  }

  lemma HighBits(b: byte)
    ensures b == b % 64 + (if b / 64 % 2 == 1 then 64 else 0) + (if b / 128 % 2 == 1 then 128 else 0)
    ensures SetBits(b, Access.Store) == b % 64 + 192
  {
  }

  lemma EvolvedAllUsed(dram: seq<byte>, after: seq<byte>, size: nat)
    requires size > 0 && Evolved(dram, after, size)
    ensures AllUsed(dram, size) == AllUsed(after, size) && Evolved(dram, AllUsed(dram, size), size)
  {
    hide Grown, SetBits;
    forall i | 0 <= i < |dram| && i % size == 0
      ensures SetBits(dram[i], Access.Store) == SetBits(after[i], Access.Store) &&
              Grown(dram[i], SetBits(dram[i], Access.Store))
    {
      GrownAllUsed(dram[i], after[i]);
    }
  }

  lemma PokeAllUsed(dram: seq<byte>, other: seq<byte>, size: nat, i: nat, b: byte)
    requires size > 0 && AllUsed(dram, size) == AllUsed(other, size)
    ensures AllUsed(Poke(dram, i, b), size) == AllUsed(Poke(other, i, b), size)
  {
    hide SetBits;
    assert |dram| == |AllUsed(dram, size)| == |AllUsed(other, size)| == |other|;
    forall j | 0 <= j < |dram| ensures AllUsed(Poke(dram, i, b), size)[j] == AllUsed(Poke(other, i, b), size)[j] {
      assert AllUsed(dram, size)[j] == AllUsed(other, size)[j];
    }
  }

  /** Memories that differ only in accessed and dirty bits translate alike. */
  lemma AlikeTranslate(dram: seq<byte>, other: seq<byte>, xlen: Xlen, r: Regs, va: nat, access: Access)
    requires AllUsed(dram, PteSizeOf(xlen)) == AllUsed(other, PteSizeOf(xlen))
    ensures Translate(dram, xlen, r, va, access).0 == Translate(other, xlen, r, va, access).0
  {
    hide Translate, Evolved, AllUsed, Settled;
    var size := PteSizeOf(xlen);
    GrownSelf(dram, size);
    GrownSelf(other, size);
    EvolvedAllUsed(dram, dram, size);
    EvolvedAllUsed(other, other, size);
    TranslateEvolved(dram, AllUsed(dram, size), xlen, r, va, access);
    TranslateEvolved(other, AllUsed(other, size), xlen, r, va, access);
  }

  lemma StepAlike(xlen: Xlen, s: State, walked: seq<byte>, ev: Event)
    requires Consistent(xlen, s) && AllUsed(s.dram, PteSizeOf(xlen)) == AllUsed(walked, PteSizeOf(xlen))
    ensures AllUsed(Step(xlen, s, ev).dram, PteSizeOf(xlen)) == AllUsed(Walk(xlen, walked, s.regs, ev), PteSizeOf(xlen))
  {
    hide Cached, Translate, CacheOk, Evolved, AllUsed, FillersAfter, AfterTouch, AfterStore, Poke, Flushed;
    var size := PteSizeOf(xlen);
    match ev
    case Touch(va, access) =>
      TouchKeeps(s.dram, s.tlb, s.fillers, xlen, s.book, s.regs, va, access);
      EvolvedAllUsed(s.dram, Step(xlen, s, ev).dram, size);
      TranslateEffect(walked, xlen, s.regs, va, access);
      EvolvedAllUsed(walked, Translate(walked, xlen, s.regs, va, access).1, size);
    case SetRegs(_) =>
    case StoreByte(i, b) => PokeAllUsed(s.dram, walked, size, i, b);
    case Fence =>
  }

  /** Over any run whatever, the cached and the uncached memories differ in accessed and dirty bits
      at most. */
  lemma {:induction false} RunAlike(xlen: Xlen, s: State, evs: seq<Event>, k: nat)
    requires Consistent(xlen, s) && k <= |evs|
    ensures AllUsed(Before(xlen, s, evs, k).dram, PteSizeOf(xlen)) ==
            AllUsed(WalkedBefore(xlen, s, evs, k), PteSizeOf(xlen))
    decreases k
  {
    hide Consistent, Step, Walk, AllUsed;
    if k > 0 {
      RunAlike(xlen, s, evs, k - 1);
      RunKeeps(xlen, s, evs, k - 1);
      StepAlike(xlen, Before(xlen, s, evs, k - 1), WalkedBefore(xlen, s, evs, k - 1), evs[k - 1]);
    }
  }

  /** The cache is transparent: in any run, with any use of MPRV around it, every fetch and every
      load or store made with MPRV clear through current tables gets the answer and leaves the
      memory of a walk made then and there, and that is also the answer of the hart that never
      caches. */
  lemma MprvClearTransparent(xlen: Xlen, s: State, evs: seq<Event>, k: nat)
    requires Consistent(xlen, s) && k < |evs| && evs[k].Touch?
    requires var b := Before(xlen, s, evs, k);
             Current(b.book, xlen, b.regs, evs[k].va, evs[k].access) && (evs[k].access == Fetch || !b.regs.mprv)
    ensures var b, va, access := Before(xlen, s, evs, k), evs[k].va, evs[k].access;
            (Answer(xlen, b, va, access), Step(xlen, b, evs[k]).dram) == Translate(b.dram, xlen, b.regs, va, access) &&
            Answer(xlen, b, va, access) == Translate(WalkedBefore(xlen, s, evs, k), xlen, b.regs, va, access).0
  {
    hide Consistent, Cached, Translate, Harmless, Hits, Answer, Step, Current, AllUsed, Before, WalkedBefore;
    var b := Before(xlen, s, evs, k);
    AccessExact(xlen, s, evs, k);
    RunAlike(xlen, s, evs, k);
    AlikeTranslate(b.dram, WalkedBefore(xlen, s, evs, k), xlen, b.regs, evs[k].va, evs[k].access);
  }

  // ---------------------------------------------------------------------------------------
  // Runs that are transparent throughout

  /** The run with the cache: every answer, and the final memory. */
  function RunCached(xlen: Xlen, s: State, evs: seq<Event>): (seq<Res>, seq<byte>)
    decreases |evs|
  {
    if evs == [] then ([], s.dram)
    else
      var rest := RunCached(xlen, Step(xlen, s, evs[0]), evs[1..]);
      ((if evs[0].Touch? then [Answer(xlen, s, evs[0].va, evs[0].access)] else []) + rest.0, rest.1)
  }

  /** The same run with a page walk on every access. */
  function RunUncached(xlen: Xlen, dram: seq<byte>, r: Regs, evs: seq<Event>): (seq<Res>, seq<byte>)
    decreases |evs|
  {
    if evs == [] then ([], dram)
    else
      var rest := RunUncached(xlen, Walk(xlen, dram, r, evs[0]), if evs[0].SetRegs? then evs[0].regs else r, evs[1..]);
      ((if evs[0].Touch? then [Translate(dram, xlen, r, evs[0].va, evs[0].access).0] else []) + rest.0, rest.1)
  }

  /** Every access of the run goes through current tables and is transparent. */
  predicate AllTransparent(xlen: Xlen, s: State, evs: seq<Event>)
    decreases |evs|
  {
    evs == [] ||
    ((evs[0].Touch? ==> Current(s.book, xlen, s.regs, evs[0].va, evs[0].access) &&
                        Transparent(s.dram, s.tlb, s.fillers, xlen, s.regs, evs[0].va, evs[0].access)) &&
     AllTransparent(xlen, Step(xlen, s, evs[0]), evs[1..]))
  }

  lemma StepTransparent(xlen: Xlen, s: State, ev: Event)
    requires Consistent(xlen, s)
    requires ev.Touch? ==> Current(s.book, xlen, s.regs, ev.va, ev.access) &&
                           Transparent(s.dram, s.tlb, s.fillers, xlen, s.regs, ev.va, ev.access)
    ensures Step(xlen, s, ev).dram == Walk(xlen, s.dram, s.regs, ev) && Consistent(xlen, Step(xlen, s, ev))
    ensures Step(xlen, s, ev).regs == if ev.SetRegs? then ev.regs else s.regs
    ensures ev.Touch? ==> Answer(xlen, s, ev.va, ev.access) == Translate(s.dram, xlen, s.regs, ev.va, ev.access).0
  {
    StepKeeps(xlen, s, ev);
    hide Cached, Translate, CacheOk, Current, Transparent, FillersAfter, AfterTouch, AfterStore, Poke, Flushed;
    if ev.Touch? { TouchExact(s.dram, s.tlb, s.fillers, xlen, s.book, s.regs, ev.va, ev.access); }
  }

  /** A run of such accesses gives the same answers and ends in the same memory with the cache as
      without it. */
  lemma {:induction false} CacheTransparent(xlen: Xlen, s: State, evs: seq<Event>)
    requires Consistent(xlen, s) && AllTransparent(xlen, s, evs)
    ensures RunCached(xlen, s, evs) == RunUncached(xlen, s.dram, s.regs, evs)
    decreases |evs|
  {
    hide Consistent, Step, Walk, Answer, Translate, Current, Transparent;
    if evs != [] {
      StepTransparent(xlen, s, evs[0]);
      CacheTransparent(xlen, Step(xlen, s, evs[0]), evs[1..]);
    }
  }

  /** The run's tables are current throughout, and between fences its MPRV loads and stores are all
      made at one MPP, mpp being the one used so far. */
  predicate OneMpp(xlen: Xlen, s: State, evs: seq<Event>, mpp: Option<Priv>)
    decreases |evs|
  {
    evs == [] ||
    match evs[0]
    case Touch(va, access) =>
      Current(s.book, xlen, s.regs, va, access) &&
      (access != Fetch && s.regs.mprv ==> mpp == None || mpp == Some(s.regs.mpp)) &&
      OneMpp(xlen, Step(xlen, s, evs[0]), evs[1..], if access != Fetch && s.regs.mprv then Some(s.regs.mpp) else mpp)
    case Fence => OneMpp(xlen, Step(xlen, s, evs[0]), evs[1..], None)
    case _ => OneMpp(xlen, Step(xlen, s, evs[0]), evs[1..], mpp)
  }

  /** Every valid load or store entry tagged with MPRV was filled at the MPP used so far. */
  predicate FilledAt(s: State, mpp: Option<Priv>) {
    forall slot, way ::
      0 <= slot < 1024 && 1 <= way < 3 && s.tlb[slot][way].valid && s.tlb[slot][way].ctx / 0x2_0000 % 2 == 1 ==>
      mpp == Some(s.fillers[slot][way])
  }

  lemma CtxMprv(r: Regs)
    ensures CtxOf(r) / 0x2_0000 % 2 == 1 <==> r.mprv
  {
  }

  lemma StepFilled(xlen: Xlen, s: State, ev: Event, mpp: Option<Priv>)
    requires FilledAt(s, mpp)
    requires ev.Touch? && ev.access != Fetch && s.regs.mprv ==> mpp == None || mpp == Some(s.regs.mpp)
    ensures FilledAt(Step(xlen, s, ev),
                     if ev.Fence? then None
                     else if ev.Touch? && ev.access != Fetch && s.regs.mprv then Some(s.regs.mpp) else mpp)
    ensures ev.Touch? ==> Transparent(s.dram, s.tlb, s.fillers, xlen, s.regs, ev.va, ev.access)
  {
    hide Translate, CtxOf, SchemeOf, Grants, IdentityMapped, AfterTouch, AfterStore, Poke;
    CtxMprv(s.regs);
  }

  /** In particular a run that keeps to one MPP between fences is transparent throughout. */
  lemma {:induction false} OneMppTransparent(xlen: Xlen, s: State, evs: seq<Event>, mpp: Option<Priv>)
    requires FilledAt(s, mpp) && OneMpp(xlen, s, evs, mpp)
    ensures AllTransparent(xlen, s, evs)
    decreases |evs|
  {
    hide FilledAt, Step, Current, Transparent;
    if evs != [] {
      StepFilled(xlen, s, evs[0], mpp);
      OneMppTransparent(xlen, Step(xlen, s, evs[0]), evs[1..],
                        if evs[0].Fence? then None
                        else if evs[0].Touch? && evs[0].access != Fetch && s.regs.mprv then Some(s.regs.mpp) else mpp);
    }
  }

  /** From reset, a run that keeps to one MPP between fences gives the same answers and ends in the
      same memory with the cache as without it. */
  lemma TransparentFromReset(xlen: Xlen, dram: seq<byte>, r: Regs, evs: seq<Event>)
    requires OneMpp(xlen, Reset(dram, r), evs, None)
    ensures RunCached(xlen, Reset(dram, r), evs) == RunUncached(xlen, dram, r, evs)
  {
    hide Consistent, OneMpp, Step, Current;
    ResetConsistent(xlen, dram, r);
    OneMppTransparent(xlen, Reset(dram, r), evs, None);
    CacheTransparent(xlen, Reset(dram, r), evs);
  }

  // ---------------------------------------------------------------------------------------
  // The tag omits MPP

  /** One table whose first entry maps a readable supervisor superpage. */
  function OneSupervisorPage(): seq<byte> { seq(4096, i => if i == 0 then 0x43 else 0) }

  function MprvRegs(mpp: Priv): Regs { Regs(0x8008_0000, false, false, true, mpp, Machine) }

  /** Without a condition on MPP the cache is not transparent: a machine-mode load under MPRV that
      first ran as supervisor is answered again after MPP becomes user, where a walk faults. */
  lemma MprvNotTransparent()
    ensures var dram, evs := OneSupervisorPage(), [Touch(0, Load), SetRegs(MprvRegs(User)), Touch(0, Load)];
            RunCached(Rv32, Reset(dram, MprvRegs(Supervisor)), evs).0 == [Ok(0), Ok(0)] &&
            RunUncached(Rv32, dram, MprvRegs(Supervisor), evs).0 == [Ok(0), PageFault]
  {
    var dram, s, u := OneSupervisorPage(), MprvRegs(Supervisor), MprvRegs(User);
    var first := Reset(dram, s);
    SupervisorWalk();
    FirstLoad(first);
    var second := Step(Rv32, first, Touch(0, Load));
    var third := Step(Rv32, second, SetRegs(u));
    hide Translate, Cached, MprvRegs, OneSupervisorPage, FillersAfter, AfterTouch;
    LoadSetLoad(first, second, third, u, [Touch(0, Load), SetRegs(u), Touch(0, Load)]);
  }

  /** The first load fills the entry that answers the second. */
  lemma FirstLoad(s: State)
    requires s == Reset(OneSupervisorPage(), MprvRegs(Supervisor))
    requires Translate(s.dram, Rv32, s.regs, 0, Load) == (Ok(0), s.dram)
    ensures var t := Step(Rv32, s, Touch(0, Load));
            Answer(Rv32, s, 0, Load) == Ok(0) && t.dram == s.dram && t.regs == s.regs &&
            Answer(Rv32, t.(regs := MprvRegs(User)), 0, Load) == Ok(0)
  {
    hide Translate, OneSupervisorPage;
  }

  lemma LastTouch(s: State, evs: seq<Event>)
    requires |evs| == 1 && evs[0] == Touch(0, Load)
    ensures RunCached(Rv32, s, evs).0 == [Answer(Rv32, s, 0, Load)]
    ensures RunUncached(Rv32, s.dram, s.regs, evs).0 == [Translate(s.dram, Rv32, s.regs, 0, Load).0]
  {
    hide Answer, Translate, Step, Walk;
    assert evs[1..] == [];
    assert RunCached(Rv32, Step(Rv32, s, evs[0]), []).0 == [];
    assert RunUncached(Rv32, Walk(Rv32, s.dram, s.regs, evs[0]), s.regs, []).0 == [];
  }

  lemma LoadSetLoad(s: State, t: State, v: State, u: Regs, evs: seq<Event>)
    requires |evs| == 3 && evs[0] == evs[2] == Touch(0, Load) && evs[1] == SetRegs(u)
    requires t == Step(Rv32, s, Touch(0, Load)) && v == t.(regs := u) && t.dram == s.dram && t.regs == s.regs
    requires Answer(Rv32, s, 0, Load) == Answer(Rv32, v, 0, Load) == Ok(0)
    requires Translate(s.dram, Rv32, s.regs, 0, Load) == (Ok(0), s.dram) &&
             Translate(s.dram, Rv32, u, 0, Load) == (PageFault, s.dram)
    ensures RunCached(Rv32, s, evs).0 == [Ok(0), Ok(0)] &&
            RunUncached(Rv32, s.dram, s.regs, evs).0 == [Ok(0), PageFault]
  {
    hide Cached, Answer, Translate, FillersAfter, AfterTouch;
    var rest, last := evs[1..], evs[2..];
    assert rest[1..] == last;
    LastTouch(v, last);
    assert Step(Rv32, t, evs[1]) == v;
    var cached, walked := RunCached(Rv32, v, last), RunUncached(Rv32, s.dram, u, last);
    assert [] + cached.0 == cached.0 && [] + walked.0 == walked.0;
    assert RunCached(Rv32, t, rest).0 == cached.0;
    assert RunUncached(Rv32, s.dram, s.regs, rest).0 == walked.0;
  }

  lemma OneEntry()
    ensures |OneSupervisorPage()| == 4096 && LittleEndian(OneSupervisorPage()[0..4]) == 0x43
  {
    var dram := OneSupervisorPage();
    assert dram[0..4] == [0x43, 0, 0, 0];
    assert LittleEndian([0]) == 0;
    assert LittleEndian([0, 0]) == 0;
    assert LittleEndian([0, 0, 0]) == 0;
  }

  lemma RootEntry(dram: seq<byte>)
    requires |dram| == 4096 && LittleEndian(dram[0..4]) == 0x43
    ensures PteAt(Sv32, 0x8000_0000, 1, 0) == 0x8000_0000 && ReadPhysical(dram, 0x8000_0000, 4) == Data(0x43)
  {
    hide LittleEndian;
  }

  lemma SupervisorLeaf(dram: seq<byte>)
    requires PteAt(Sv32, 0x8000_0000, 1, 0) == 0x8000_0000 && ReadPhysical(dram, 0x8000_0000, 4) == Data(0x43)
    ensures WalkFrom(dram, Sv32, 0x8000_0000, 1, 0) == Leaf(1, 0x8000_0000, 0x43)
  {
    hide ReadPhysical, PteAt;
  }

  lemma SupervisorWalk()
    ensures Translate(OneSupervisorPage(), Rv32, MprvRegs(Supervisor), 0, Load) == (Ok(0), OneSupervisorPage())
    ensures Translate(OneSupervisorPage(), Rv32, MprvRegs(User), 0, Load) == (PageFault, OneSupervisorPage())
  {
    hide LittleEndian, WalkFrom, ReadPhysical, OneSupervisorPage, PteAt;
    var dram := OneSupervisorPage();
    OneEntry();
    RootEntry(dram);
    SupervisorLeaf(dram);
    assert SchemeOf(0x8008_0000, Rv32) == Sv32;
    assert RootWalk(dram, Sv32, 0x8008_0000, 0) == Leaf(1, 0x8000_0000, 0x43);
    assert Ppn(Sv32, 0x43) == 0;
  }
}
