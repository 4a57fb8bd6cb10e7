/** Loads and stores through the translation cache, split byte by byte where they cross a page. */
module PagedAccess {
  import opened Arithmetic
  import opened Basics
  import opened Mmu
  import opened MmuTheory
  import opened Tlb

  /** How a load or store ends. A page fault names the byte that faulted. */
  datatype Done = Value(v: nat) | PageFaultAt(va: nat) | AccessFault | DeviceHit

  datatype After = After(done: Done, dram: seq<byte>, tlb: Cache)

  function FaultOf(res: Res, va: nat): Done
    requires !res.Ok?
  {
    if res.PageFault? then PageFaultAt(va) else DeviceHit
  }

  /** size little-endian bytes of v written at index i. */
  function WriteLE(dram: seq<byte>, i: nat, size: nat, v: nat): (d: seq<byte>)
    requires i + size <= |dram|
    ensures |d| == |dram|
    decreases size
  {
    if size == 0 then dram else WriteLE(dram[i := v % 256], i + 1, size - 1, v / 256)
  }

  function WritePhysical(dram: seq<byte>, t: Cache, pa: nat, size: nat, v: nat): After {
    if pa >= DRAM_BASE then
      match Index(dram, pa, size)
      case Some(i) => After(Value(0), WriteLE(dram, i, size, v), t)
      case None => After(AccessFault, dram, t)
    else After(if IsDevice(pa) then DeviceHit else AccessFault, dram, t)
  }

  function LoadOnce(dram: seq<byte>, t: Cache, xlen: Xlen, r: Regs, va: nat, size: nat): After {
    var (res, after, t2) := Cached(dram, t, xlen, r, va, Access.Load);
    if !res.Ok? then After(FaultOf(res, va), after, t2)
    else
      match ReadPhysical(after, res.pa, size)
      case Data(v) => After(Value(v), after, t2)
      case Unmapped => After(AccessFault, after, t2)
      case Device => After(DeviceHit, after, t2)
  }

  /** n bytes from va upward, each through its own translation. */
  function LoadBytes(dram: seq<byte>, t: Cache, xlen: Xlen, r: Regs, va: nat, n: nat): After
    decreases n
  {
    if n == 0 then After(Value(0), dram, t)
    else
      var first := LoadOnce(dram, t, xlen, r, va, 1);
      if !first.done.Value? then first
      else
        var rest := LoadBytes(first.dram, first.tlb, xlen, r, va + 1, n - 1);
        if rest.done.Value? then rest.(done := Value(first.done.v + 256 * rest.done.v)) else rest
  }

  function Load(dram: seq<byte>, t: Cache, xlen: Xlen, r: Regs, va: nat, size: nat): After {
    if va % PAGE + size <= PAGE then LoadOnce(dram, t, xlen, r, va, size) else LoadBytes(dram, t, xlen, r, va, size)
  }

  function StoreOnce(dram: seq<byte>, t: Cache, xlen: Xlen, r: Regs, va: nat, size: nat, v: nat): After {
    var (res, after, t2) := Cached(dram, t, xlen, r, va, Access.Store);
    if !res.Ok? then After(FaultOf(res, va), after, t2) else WritePhysical(after, t2, res.pa, size, v)
  }

  /** The first pass of a split store: translate every byte, write none. */
  function Probe(dram: seq<byte>, t: Cache, xlen: Xlen, r: Regs, va: nat, n: nat): After
    decreases n
  {
    if n == 0 then After(Value(0), dram, t)
    else
      var (res, after, t2) := Cached(dram, t, xlen, r, va, Access.Store);
      if !res.Ok? then After(FaultOf(res, va), after, t2) else Probe(after, t2, xlen, r, va + 1, n - 1)
  }

  /** The second pass: translate every byte again and write it. */
  function StoreBytes(dram: seq<byte>, t: Cache, xlen: Xlen, r: Regs, va: nat, n: nat, v: nat): After
    decreases n
  {
    if n == 0 then After(Value(0), dram, t)
    else
      var first := StoreOnce(dram, t, xlen, r, va, 1, v);
      if !first.done.Value? then first else StoreBytes(first.dram, first.tlb, xlen, r, va + 1, n - 1, v / 256)
  }

  function StoreSplit(dram: seq<byte>, t: Cache, xlen: Xlen, r: Regs, va: nat, size: nat, v: nat): After {
    var probed := Probe(dram, t, xlen, r, va, size);
    if !probed.done.Value? then probed else StoreBytes(probed.dram, probed.tlb, xlen, r, va, size, v)
  }

  function Store(dram: seq<byte>, t: Cache, xlen: Xlen, r: Regs, va: nat, size: nat, v: nat): After {
    if va % PAGE + size <= PAGE then StoreOnce(dram, t, xlen, r, va, size, v)
    else StoreSplit(dram, t, xlen, r, va, size, v)
  }

  // ---------------------------------------------------------------------------------------
  // What stays in the cache

  predicate Present(t: Cache, r: Regs, va: nat, access: Access) { Hits(EntryFor(t, va, access), r, va) }

  /** Translating the next page never evicts the entry of the page before it. */
  lemma CachedKeeps(dram: seq<byte>, t: Cache, xlen: Xlen, r: Regs, va: nat, access: Access)
    ensures var (res, after, t2) := Cached(dram, t, xlen, r, va, access);
            (res.Ok? ==> Present(t2, r, va, access)) &&
            (forall w :: 0 <= w && w / PAGE == va / PAGE && Present(t, r, w, access) ==> Present(t2, r, w, access)) &&
            (forall w :: 0 <= w && w / PAGE + 1 == va / PAGE && Present(t, r, w, access) ==> Present(t2, r, w, access))
  {
    hide Translate, CtxOf;
    var (res, after, t2) := Cached(dram, t, xlen, r, va, access);
    forall w | 0 <= w && w / PAGE + 1 == va / PAGE && Present(t, r, w, access) ensures Present(t2, r, w, access) {
      DistinctSlots(w / PAGE);
    }
  }

  lemma DistinctSlots(page: nat)
    ensures page % TLB_ENTRIES != (page + 1) % TLB_ENTRIES
  {
  }

  /** A hit answers from the cache alone, whatever has happened to memory. */
  lemma PresentAnswers(dram: seq<byte>, t: Cache, xlen: Xlen, r: Regs, va: nat, access: Access)
    requires Present(t, r, va, access)
    ensures Cached(dram, t, xlen, r, va, access) == (Ok(EntryFor(t, va, access).ppn + va % PAGE), dram, t)
  {
  }

  /** A probe changes memory by accessed and dirty updates only, and on success leaves an entry
      for every byte. */
  lemma {:induction false} ProbePresent(dram: seq<byte>, t: Cache, xlen: Xlen, r: Regs, start: nat, va: nat, n: nat)
    requires start <= va && va + n <= start + PAGE
    requires forall w :: start <= w < va ==> Present(t, r, w, Access.Store)
    ensures var p := Probe(dram, t, xlen, r, va, n);
            Evolved(dram, p.dram, PteSizeOf(xlen)) &&
            (p.done.Value? ==> forall w :: start <= w < va + n ==> Present(p.tlb, r, w, Access.Store))
    decreases n
  {
    hide Cached, Evolved, Present;
    if n == 0 {
      GrownSelf(dram, PteSizeOf(xlen));
    } else {
      var (res, after, t2) := Cached(dram, t, xlen, r, va, Access.Store);
      CachedKeeps(dram, t, xlen, r, va, Access.Store);
      CachedEvolves(dram, t, xlen, r, va, Access.Store);
      if res.Ok? {
        forall w | start <= w < va + 1 ensures Present(t2, r, w, Access.Store) {
          NearPages(start, w, va);
        }
        ProbePresent(after, t2, xlen, r, start, va + 1, n - 1);
        EvolvedTransitive(dram, after, Probe(after, t2, xlen, r, va + 1, n - 1).dram, PteSizeOf(xlen));
      }
    }
  }

  lemma NearPages(start: nat, w: nat, va: nat)
    requires start <= w <= va < start + PAGE
    ensures w / PAGE == va / PAGE || w / PAGE + 1 == va / PAGE
  {
  }

  lemma CachedEvolves(dram: seq<byte>, t: Cache, xlen: Xlen, r: Regs, va: nat, access: Access)
    ensures var after := Cached(dram, t, xlen, r, va, access).1;
            Evolved(dram, after, PteSizeOf(xlen)) && (after == dram || OneEntryMarked(dram, after, xlen, r, va, access))
  {
    hide Translate, Evolved, OneEntryMarked;
    TranslateEffect(dram, xlen, r, va, access);
    GrownSelf(dram, PteSizeOf(xlen));
  }

  /** The second pass never page-faults: every translation hits. */
  lemma {:induction false} StoreBytesHit(dram: seq<byte>, t: Cache, xlen: Xlen, r: Regs, va: nat, n: nat, v: nat)
    requires forall w :: va <= w < va + n ==> Present(t, r, w, Access.Store)
    ensures var s := StoreBytes(dram, t, xlen, r, va, n, v); !s.done.PageFaultAt? && s.tlb == t
    decreases n
  {
    if n != 0 {
      hide Cached, Present, WriteLE;
      PresentAnswers(dram, t, xlen, r, va, Access.Store);
      var first := StoreOnce(dram, t, xlen, r, va, 1, v);
      hide StoreOnce;
      if first.done.Value? { StoreBytesHit(first.dram, t, xlen, r, va + 1, n - 1, v / 256); }
    }
  }

  // ---------------------------------------------------------------------------------------
  // One translation or one per byte

  /** A byte of a page that is present lies at the page's frame plus its offset. */
  lemma OffsetAddress(t: Cache, r: Regs, va: nat, k: nat, access: Access)
    requires Present(t, r, va, access) && va % PAGE + k < PAGE
    ensures Present(t, r, va + k, access)
    ensures EntryFor(t, va + k, access) == EntryFor(t, va, access) && (va + k) % PAGE == va % PAGE + k
  {
    SamePageOffset(va, k);
  }

  lemma SamePageOffset(va: nat, k: nat)
    requires va % PAGE + k < PAGE
    ensures (va + k) / PAGE == va / PAGE && (va + k) % PAGE == va % PAGE + k
  {
  }

  /** What a present page answers, as the address of its first byte. */
  function Base(t: Cache, va: nat, access: Access): nat { EntryFor(t, va, access).ppn + va % PAGE }

  lemma {:induction false} LoadBytesPresent(dram: seq<byte>, t: Cache, xlen: Xlen, r: Regs, va: nat, n: nat)
    requires Present(t, r, va, Access.Load) && va % PAGE + n <= PAGE
    requires DRAM_BASE <= Base(t, va, Access.Load) && Base(t, va, Access.Load) - DRAM_BASE + n <= |dram|
    ensures var i := Base(t, va, Access.Load) - DRAM_BASE;
            LoadBytes(dram, t, xlen, r, va, n) == After(Value(LittleEndian(dram[i..i + n])), dram, t)
    decreases n
  {
    hide Cached, Present, LittleEndian;
    var i := Base(t, va, Access.Load) - DRAM_BASE;
    if n == 0 {
      NoBytes(dram, i);
    } else {
      PresentAnswers(dram, t, xlen, r, va, Access.Load);
      FirstByte(dram, i, n);
      if n > 1 {
        OffsetAddress(t, r, va, 1, Access.Load);
        LoadBytesPresent(dram, t, xlen, r, va + 1, n - 1);
      } else {
        NoBytes(dram, i + 1);
      }
    }
  }

  lemma NoBytes(dram: seq<byte>, i: nat)
    requires i <= |dram|
    ensures LittleEndian(dram[i..i]) == 0
  {
  }

  lemma FirstByte(dram: seq<byte>, i: nat, n: nat)
    requires 1 <= n && i + n <= |dram|
    ensures LittleEndian(dram[i..i + 1]) == dram[i]
    ensures LittleEndian(dram[i..i + n]) == dram[i] + 256 * LittleEndian(dram[i + 1..i + n])
  {
    assert dram[i..i + 1] == [dram[i]];
    assert LittleEndian([dram[i]]) == dram[i];
    assert dram[i..i + n][1..] == dram[i + 1..i + n];
  }

  lemma {:induction false} StoreBytesPresent(dram: seq<byte>, t: Cache, xlen: Xlen, r: Regs, va: nat, n: nat, v: nat)
    requires Present(t, r, va, Access.Store) && va % PAGE + n <= PAGE
    requires DRAM_BASE <= Base(t, va, Access.Store) && Base(t, va, Access.Store) - DRAM_BASE + n <= |dram|
    ensures var i := Base(t, va, Access.Store) - DRAM_BASE;
            StoreBytes(dram, t, xlen, r, va, n, v) == After(Value(0), WriteLE(dram, i, n, v), t)
    decreases n
  {
    var i := Base(t, va, Access.Store) - DRAM_BASE;
    if n != 0 {
      PresentAnswers(dram, t, xlen, r, va, Access.Store);
      hide Cached, Present;
      assert WriteLE(dram, i, 1, v) == dram[i := v % 256];
      if n > 1 {
        OffsetAddress(t, r, va, 1, Access.Store);
        StoreBytesPresent(dram[i := v % 256], t, xlen, r, va + 1, n - 1, v / 256);
      }
    }
  }

  lemma {:induction false} ProbeOfPresent(dram: seq<byte>, t: Cache, xlen: Xlen, r: Regs, va: nat, n: nat)
    requires Present(t, r, va, Access.Store) && va % PAGE + n <= PAGE
    ensures Probe(dram, t, xlen, r, va, n) == After(Value(0), dram, t)
    decreases n
  {
    hide Cached, Present;
    if n != 0 {
      PresentAnswers(dram, t, xlen, r, va, Access.Store);
      if n > 1 {
        OffsetAddress(t, r, va, 1, Access.Store);
        ProbeOfPresent(dram, t, xlen, r, va + 1, n - 1);
      }
    }
  }

  lemma {:induction false} ProbeAppend(dram: seq<byte>, t: Cache, xlen: Xlen, r: Regs, va: nat, n: nat, m: nat)
    ensures var a := Probe(dram, t, xlen, r, va, n);
            Probe(dram, t, xlen, r, va, n + m) == if a.done.Value? then Probe(a.dram, a.tlb, xlen, r, va + n, m) else a
    decreases n
  {
    hide Cached;
    if n != 0 {
      var (res, after, t2) := Cached(dram, t, xlen, r, va, Access.Store);
      if res.Ok? { ProbeAppend(after, t2, xlen, r, va + 1, n - 1, m); }
    }
  }

  /** A translation that fails changes neither memory nor the cache. */
  lemma FailureClean(dram: seq<byte>, t: Cache, xlen: Xlen, r: Regs, va: nat, access: Access)
    ensures var (res, after, t2) := Cached(dram, t, xlen, r, va, access); !res.Ok? ==> after == dram && t2 == t
  {
    hide Translate, Hits, Fill;
    TranslateEffect(dram, xlen, r, va, access);
  }

  /** A probe inside one page does what its first translation does. */
  lemma ProbeOnePage(dram: seq<byte>, t: Cache, xlen: Xlen, r: Regs, va: nat, n: nat)
    requires 1 <= n && va % PAGE + n <= PAGE
    ensures var (res, after, t2) := Cached(dram, t, xlen, r, va, Access.Store);
            Probe(dram, t, xlen, r, va, n) ==
            if res.Ok? then After(Value(0), after, t2) else After(FaultOf(res, va), dram, t)
  {
    hide Cached, Present;
    var (res, after, t2) := Cached(dram, t, xlen, r, va, Access.Store);
    FailureClean(dram, t, xlen, r, va, Access.Store);
    if res.Ok? {
      CachedKeeps(dram, t, xlen, r, va, Access.Store);
      if n > 1 {
        OffsetAddress(t2, r, va, 1, Access.Store);
        ProbeOfPresent(after, t2, xlen, r, va + 1, n - 1);
      }
    }
  }

  /** A store that page-faults has written no data byte. Inside one page it changes nothing. Across
      two, it faults either at its first byte, having changed nothing, or at the first byte of the
      second page, having done no more than translate its first byte. A crossing store that got
      past its first pass never page-faults. */
  lemma StoreFaultsClean(dram: seq<byte>, t: Cache, xlen: Xlen, r: Regs, va: nat, size: nat, v: nat)
    requires 1 <= size <= 8
    ensures var s, next := Store(dram, t, xlen, r, va, size, v), va + (PAGE - va % PAGE);
            var (res, after, t2) := Cached(dram, t, xlen, r, va, Access.Store);
            s.done.PageFaultAt? ==>
              (s.done.va == va && s.dram == dram && s.tlb == t) ||
              (va % PAGE + size > PAGE && s.done.va == next && res.Ok? && s.dram == after && s.tlb == t2)
    ensures var s := Store(dram, t, xlen, r, va, size, v);
            s.done.PageFaultAt? ==>
              Evolved(dram, s.dram, PteSizeOf(xlen)) &&
              (s.dram == dram || OneEntryMarked(dram, s.dram, xlen, r, va, Access.Store))
    ensures Probe(dram, t, xlen, r, va, size).done.Value? ==>
              !StoreSplit(dram, t, xlen, r, va, size, v).done.PageFaultAt?
  {
    hide Cached, Evolved, Present, WriteLE, Probe, StoreBytes, OneEntryMarked;
    FailureClean(dram, t, xlen, r, va, Access.Store);
    CachedEvolves(dram, t, xlen, r, va, Access.Store);
    GrownSelf(dram, PteSizeOf(xlen));
    ProbePresent(dram, t, xlen, r, va, va, size);
    var p := Probe(dram, t, xlen, r, va, size);
    if p.done.Value? { StoreBytesHit(p.dram, p.tlb, xlen, r, va, size, v); }
    if va % PAGE + size > PAGE { ProbeCrossing(dram, t, xlen, r, va, size); }
  }

  lemma ProbeCrossing(dram: seq<byte>, t: Cache, xlen: Xlen, r: Regs, va: nat, size: nat)
    requires 1 <= size <= 8 && va % PAGE + size > PAGE
    ensures var p, next := Probe(dram, t, xlen, r, va, size), va + (PAGE - va % PAGE);
            var (res, after, t2) := Cached(dram, t, xlen, r, va, Access.Store);
            if !res.Ok? then p == After(FaultOf(res, va), dram, t)
            else
              var (res3, after3, t3) := Cached(after, t2, xlen, r, next, Access.Store);
              p == if res3.Ok? then After(Value(0), after3, t3) else After(FaultOf(res3, next), after, t2)
  {
    hide Cached, Probe;
    var n := PAGE - va % PAGE;
    var (res, after, t2) := Cached(dram, t, xlen, r, va, Access.Store);
    ProbeOnePage(dram, t, xlen, r, va, n);
    ProbeAppend(dram, t, xlen, r, va, n, size - n);
    NextPageStart(va, n);
    if res.Ok? { ProbeOnePage(after, t2, xlen, r, va + n, size - n); }
  }

  /** Where an access inside one page lands, when it lands in DRAM or faults. */
  predicate InDramOrFaults(dram: seq<byte>, t: Cache, xlen: Xlen, r: Regs, va: nat, size: nat, access: Access) {
    var (res, after, t2) := Cached(dram, t, xlen, r, va, access);
    res.Ok? ==> DRAM_BASE <= res.pa && res.pa - DRAM_BASE + size <= |dram|
  }

  /** What a translation answered, the cache now answers. */
  lemma CachedBase(dram: seq<byte>, t: Cache, xlen: Xlen, r: Regs, va: nat, access: Access)
    ensures var (res, after, t2) := Cached(dram, t, xlen, r, va, access);
            |after| == |dram| &&
            (res.Ok? ==> Present(t2, r, va, access) && Base(t2, va, access) == res.pa)
  {
    hide Translate, CtxOf;
    TranslateEffect(dram, xlen, r, va, access);
    SamePage(dram, xlen, r, va, va, access);
  }

  /** A load inside one page reads the same bytes through one translation as through one per
      byte, with the same faults, memory and cache. */
  lemma OnePageLoad(dram: seq<byte>, t: Cache, xlen: Xlen, r: Regs, va: nat, size: nat)
    requires 1 <= size && va % PAGE + size <= PAGE && InDramOrFaults(dram, t, xlen, r, va, size, Access.Load)
    ensures LoadOnce(dram, t, xlen, r, va, size) == LoadBytes(dram, t, xlen, r, va, size)
  {
    hide Cached, Present, Base;
    CachedBase(dram, t, xlen, r, va, Access.Load);
    var (res, after, t2) := Cached(dram, t, xlen, r, va, Access.Load);
    if res.Ok? {
      PresentAnswers(after, t2, xlen, r, va, Access.Load);
      PresentBase(after, t2, xlen, r, va, Access.Load);
      LoadBytesPresent(after, t2, xlen, r, va, size);
      assert LoadOnce(dram, t, xlen, r, va, 1) == LoadOnce(after, t2, xlen, r, va, 1);
    }
  }

  lemma PresentBase(dram: seq<byte>, t: Cache, xlen: Xlen, r: Regs, va: nat, access: Access)
    requires Present(t, r, va, access)
    ensures Cached(dram, t, xlen, r, va, access) == (Ok(Base(t, va, access)), dram, t)
  {
    PresentAnswers(dram, t, xlen, r, va, access);
  }

  /** A store inside one page writes the same bytes through one translation as the split form
      does, with the same faults, memory and cache. */
  lemma OnePageStore(dram: seq<byte>, t: Cache, xlen: Xlen, r: Regs, va: nat, size: nat, v: nat)
    requires 1 <= size && va % PAGE + size <= PAGE && InDramOrFaults(dram, t, xlen, r, va, size, Access.Store)
    ensures StoreOnce(dram, t, xlen, r, va, size, v) == StoreSplit(dram, t, xlen, r, va, size, v)
  {
    hide Cached, Present, Base, WriteLE;
    CachedBase(dram, t, xlen, r, va, Access.Store);
    var (res, after, t2) := Cached(dram, t, xlen, r, va, Access.Store);
    if res.Ok? {
      PresentBase(after, t2, xlen, r, va, Access.Store);
      ProbeOfPresent(after, t2, xlen, r, va, size);
      assert Probe(dram, t, xlen, r, va, size) == Probe(after, t2, xlen, r, va, size);
      StoreBytesPresent(after, t2, xlen, r, va, size, v);
    }
  }

  /** The bytes a little-endian write leaves, and reading them back. */
  lemma {:induction false} WriteReadBack(dram: seq<byte>, i: nat, size: nat, v: nat)
    requires i + size <= |dram|
    ensures var d := WriteLE(dram, i, size, v);
            d[..i] == dram[..i] && d[i + size..] == dram[i + size..] &&
            LittleEndian(d[i..i + size]) == v % Pow256(size)
    decreases size
  {
    var d := WriteLE(dram, i, size, v);
    if size != 0 {
      WriteReadBack(dram[i := v % 256], i + 1, size - 1, v / 256);
      assert d[..i] == d[..i + 1][..i];
      assert d[i] == d[..i + 1][i] == v % 256;
      assert d[i..i + size][1..] == d[i + 1..i + size];
      ModStep(v, Pow256(size - 1));
    }
  }

  function Pow256(n: nat): (r: nat)
    ensures r > 0
  {
    if n == 0 then 1 else 256 * Pow256(n - 1)
  }

  lemma ModStep(v: nat, p: nat)
    requires p > 0
    ensures v % (256 * p) == v % 256 + 256 * (v / 256 % p)
  {
    var q, a := v / 256, v % 256;
    var b, c := q / p, q % p;
    assert v == 256 * q + a && q == b * p + c;
    assert v == b * (256 * p) + (256 * c + a) by { assert 256 * (b * p) == b * (256 * p); }
    DivModUnique(v, 256 * p, b, 256 * c + a);
  }

  lemma {:induction false} StoreBytesAppend(dram: seq<byte>, t: Cache, xlen: Xlen, r: Regs, va: nat, n: nat, m: nat,
                                            v: nat)
    ensures var a := StoreBytes(dram, t, xlen, r, va, n, v);
            StoreBytes(dram, t, xlen, r, va, n + m, v) ==
            if a.done.Value? then StoreBytes(a.dram, a.tlb, xlen, r, va + n, m, ShiftBytes(v, n)) else a
    decreases n
  {
    hide StoreOnce;
    if n != 0 {
      var first := StoreOnce(dram, t, xlen, r, va, 1, v);
      if first.done.Value? { StoreBytesAppend(first.dram, first.tlb, xlen, r, va + 1, n - 1, m, v / 256); }
    }
  }

  /** v shifted right by n bytes. */
  function ShiftBytes(v: nat, n: nat): nat { if n == 0 then v else ShiftBytes(v / 256, n - 1) }

  /** Memory after n low bytes of v land at one index and the rest of size bytes at another. */
  function InTwoParts(dram: seq<byte>, first: int, n: nat, second: int, size: nat, v: nat): seq<byte> {
    if 0 <= first && first + n <= |dram| && 0 <= second && n <= size && second + (size - n) <= |dram| then
      WriteLE(WriteLE(dram, first, n, v), second, size - n, ShiftBytes(v, n))
    else dram
  }

  /** What a page-crossing store that succeeds does to memory: the low bytes land at the end of the
      first page's frame and the rest at the start of the second's, wherever that is, on top of
      the accessed and dirty updates of the first pass. */
  lemma CrossingStore(dram: seq<byte>, t: Cache, xlen: Xlen, r: Regs, va: nat, size: nat, v: nat)
    requires 1 <= size <= 8 && va % PAGE + size > PAGE && Probe(dram, t, xlen, r, va, size).done.Value?
    requires var p := Probe(dram, t, xlen, r, va, size);
             var n := PAGE - va % PAGE;
             var first, second := Base(p.tlb, va, Access.Store), Base(p.tlb, va + n, Access.Store);
             DRAM_BASE <= first && first - DRAM_BASE + n <= |dram| &&
             DRAM_BASE <= second && second - DRAM_BASE + (size - n) <= |dram|
    ensures var p := Probe(dram, t, xlen, r, va, size);
            var n := PAGE - va % PAGE;
            var first, second :=
                Base(p.tlb, va, Access.Store) - DRAM_BASE, Base(p.tlb, va + n, Access.Store) - DRAM_BASE;
            |p.dram| == |dram| && Evolved(dram, p.dram, PteSizeOf(xlen)) &&
            Store(dram, t, xlen, r, va, size, v) ==
              After(Value(0), InTwoParts(p.dram, first, n, second, size, v), p.tlb)
  {
    hide Probe, Present, StoreBytes, WriteLE, ShiftBytes, Base;
    var p := Probe(dram, t, xlen, r, va, size);
    var n := PAGE - va % PAGE;
    ProbePresent(dram, t, xlen, r, va, va, size);
    EvolvedLength(dram, p.dram, PteSizeOf(xlen));
    StoreBytesAppend(p.dram, p.tlb, xlen, r, va, n, size - n, v);
    StoreBytesPresent(p.dram, p.tlb, xlen, r, va, n, v);
    NextPageStart(va, n);
    StoreBytesPresent(WriteLE(p.dram, Base(p.tlb, va, Access.Store) - DRAM_BASE, n, v), p.tlb, xlen, r, va + n,
                      size - n, ShiftBytes(v, n));
  }

  lemma EvolvedLength(dram: seq<byte>, after: seq<byte>, size: nat)
    requires size > 0 && Evolved(dram, after, size)
    ensures |after| == |dram|
  {
  }

  lemma NextPageStart(va: nat, n: nat)
    requires n == PAGE - va % PAGE
    ensures (va + n) % PAGE == 0
  {
  }
}
