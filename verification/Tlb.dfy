/** The direct-mapped translation cache, and the proof that it is a transparent accelerator. */
module Tlb {
  import opened Arithmetic
  import opened Basics
  import opened Mmu
  import opened MmuTheory

  const TLB_ENTRIES: nat := 1024

  /** One cached translation, tagged with what the walk depended on besides the tables. */
  datatype TlbEntry = TlbEntry(valid: bool, vpn: nat, ppn: nat, satp: nat, ctx: nat)

  /** One entry per slot and access kind. */
  type Cache = t: seq<seq<TlbEntry>> | |t| == 1024 && forall i :: 0 <= i < 1024 ==> |t[i]| == 3
    witness seq(1024, _ => seq(3, _ => TlbEntry(false, 0, 0, 0, 0)))

  function Way(access: Access): nat {
    match access case Fetch => 0 case Load => 1 case Store => 2
  }

  /** The MPRV, SUM and MXR bits of mstatus in place, with the privilege in the low two bits. */
  function CtxOf(r: Regs): nat {
    (if r.mprv then 0x2_0000 else 0) + (if r.sum then 0x4_0000 else 0) + (if r.mxr then 0x8_0000 else 0) + r.mode.Rank()
  }

  predicate Hits(e: TlbEntry, r: Regs, va: nat) {
    e.valid && e.vpn == va / PAGE && e.satp == r.satp && e.ctx == CtxOf(r)
  }

  function EntryFor(t: Cache, va: nat, access: Access): TlbEntry {
    t[va / PAGE % TLB_ENTRIES][Way(access)]
  }

  /** The entry that records a translation. */
  function EntryOf(r: Regs, va: nat, pa: nat): TlbEntry {
    TlbEntry(true, va / PAGE, pa - pa % PAGE, r.satp, CtxOf(r))
  }

  function Fill(t: Cache, r: Regs, va: nat, access: Access, pa: nat): Cache {
    var slot := va / PAGE % TLB_ENTRIES;
    t[slot := t[slot][Way(access) := EntryOf(r, va, pa)]]
  }

  /** The cached translation: what it answers, and the DRAM and cache it leaves behind. */
  function Cached(dram: seq<byte>, t: Cache, xlen: Xlen, r: Regs, va: nat, access: Access): (Res, seq<byte>, Cache) {
    var e := EntryFor(t, va, access);
    if Hits(e, r, va) then (Ok(e.ppn + va % PAGE), dram, t)
    else
      var (res, after) := Translate(dram, xlen, r, va, access);
      (res, after, if res.Ok? then Fill(t, r, va, access, res.pa) else t)
  }

  lemma CachedHit(dram: seq<byte>, t: Cache, xlen: Xlen, r: Regs, va: nat, access: Access)
    requires Hits(EntryFor(t, va, access), r, va)
    ensures Cached(dram, t, xlen, r, va, access) == (Ok(EntryFor(t, va, access).ppn + va % PAGE), dram, t)
  {
  }

  lemma CachedMiss(dram: seq<byte>, t: Cache, xlen: Xlen, r: Regs, va: nat, access: Access)
    requires !Hits(EntryFor(t, va, access), r, va)
    ensures var (res, after) := Translate(dram, xlen, r, va, access);
            Cached(dram, t, xlen, r, va, access) == (res, after, if res.Ok? then Fill(t, r, va, access, res.pa) else t)
  {
    hide Translate, Hits, Fill;
  }

  function Flushed(t: Cache): Cache {
    seq(1024, i requires 0 <= i < 1024 => seq(3, j requires 0 <= j < 3 => t[i][j].(valid := false)))
  }

  /** The cache at reset. */
  function EmptyCache(): Cache { seq(1024, _ => seq(3, _ => TlbEntry(false, 0, 0, 0, 0))) }

  /** For each entry, the MPP in force when it was filled. The cache does not record it. */
  type Fillers = t: seq<seq<Priv>> | |t| == 1024 && forall i :: 0 <= i < 1024 ==> |t[i]| == 3
    witness seq(1024, _ => seq(3, _ => User))

  function FillerFor(p: Fillers, va: nat, access: Access): Priv {
    p[va / PAGE % TLB_ENTRIES][Way(access)]
  }

  /** The fillers after an access: a miss that succeeds records the MPP of the moment. */
  function FillersAfter(p: Fillers, dram: seq<byte>, t: Cache, xlen: Xlen, r: Regs, va: nat, access: Access): Fillers {
    var slot := va / PAGE % TLB_ENTRIES;
    if !Hits(EntryFor(t, va, access), r, va) && Translate(dram, xlen, r, va, access).0.Ok? then
      p[slot := p[slot][Way(access) := r.mpp]]
    else p
  }

  predicate Walks(xlen: Xlen, r: Regs, access: Access) {
    !SchemeOf(r.satp, xlen).Bare? && !Effective(r, access).Machine?
  }

  /** What has happened since the last fence: the pages translated through the tables, and those of
      them whose entries have since been overwritten. */
  datatype Book = Book(used: set<(nat, nat)>, stale: set<(nat, nat)>)

  const CLEAR: Book := Book({}, {})

  /** Whether a walk reads byte i of DRAM. */
  predicate Reads(dram: seq<byte>, s: Scheme, table: nat, level: nat, va: nat, i: nat)
    decreases level
  {
    var at := PteAt(s, table, level, va);
    match ReadPhysical(dram, at, s.PteSize())
    case Unmapped => false
    case Device => false
    case Data(pte) =>
      at <= i + DRAM_BASE < at + s.PteSize() ||
      (level > 0 && !R(pte) && !X(pte) && Reads(dram, s, Ppn(s, pte) * PAGE, level - 1, va, i))
  }

  predicate PageReads(dram: seq<byte>, xlen: Xlen, satp: nat, va: nat, i: nat) {
    var s := SchemeOf(satp, xlen);
    !s.Bare? && Reads(dram, s, (satp % s.PpnModulus()) * PAGE, s.Levels() - 1, va, i)
  }

  /** The access goes through no entry overwritten since the last fence. */
  predicate Current(book: Book, xlen: Xlen, r: Regs, va: nat, access: Access) {
    Walks(xlen, r, access) ==> (r.satp, va / PAGE) !in book.stale
  }

  function AfterTouch(book: Book, xlen: Xlen, r: Regs, va: nat, access: Access): Book {
    if Walks(xlen, r, access) then book.(used := book.used + {(r.satp, va / PAGE)}) else book
  }

  function AfterStore(book: Book, dram: seq<byte>, xlen: Xlen, i: nat): Book {
    book.(stale := book.stale + set p | p in book.used && PageReads(dram, xlen, p.0, p.1 * PAGE, i))
  }

  // ---------------------------------------------------------------------------------------
  // The invariant

  /** e answers for r and va exactly as a walk would, and the walk would change nothing. */
  predicate Answers(dram: seq<byte>, xlen: Xlen, e: TlbEntry, r: Regs, va: nat, access: Access) {
    Translate(dram, xlen, r, va, access).0 == Ok(e.ppn + va % PAGE) && Settled(dram, xlen, r, va, access)
  }

  /** Whether MPP, which the tag omits, is the one an entry was filled at wherever it matters. */
  predicate Filled(filler: Priv, r: Regs, access: Access) {
    access == Fetch || !r.mprv || r.mpp == filler
  }

  ghost predicate EntryOk(dram: seq<byte>, xlen: Xlen, book: Book, e: TlbEntry, filler: Priv, access: Access) {
    e.valid ==>
      forall r: Regs, va: nat :: Hits(e, r, va) && Filled(filler, r, access) && Current(book, xlen, r, va, access) ==>
        Answers(dram, xlen, e, r, va, access) && (Walks(xlen, r, access) ==> (r.satp, va / PAGE) in book.used)
  }

  ghost predicate CacheOk(dram: seq<byte>, t: Cache, p: Fillers, xlen: Xlen, book: Book) {
    forall slot: nat, access: Access :: slot < TLB_ENTRIES ==>
      EntryOk(dram, xlen, book, t[slot][Way(access)], p[slot][Way(access)], access)
  }

  lemma CtxDetermines(r: Regs, q: Regs)
    requires CtxOf(r) == CtxOf(q)
    ensures r.mode == q.mode && r.sum == q.sum && r.mxr == q.mxr && r.mprv == q.mprv
  {
  }

  /** Translation depends on MPP only where MPRV applies it. */
  lemma SameEffective(dram: seq<byte>, xlen: Xlen, r: Regs, q: Regs, va: nat, access: Access)
    requires r.satp == q.satp && r.sum == q.sum && r.mxr == q.mxr && Effective(r, access) == Effective(q, access)
    ensures Translate(dram, xlen, r, va, access) == Translate(dram, xlen, q, va, access)
    ensures Settled(dram, xlen, r, va, access) == Settled(dram, xlen, q, va, access)
  {
    hide SchemeOf, WalkFrom, Splice, Ppn, Permitted, HasBits, Canonical, Mark;
  }

  lemma SameWalks(xlen: Xlen, r: Regs, q: Regs, access: Access)
    requires r.satp == q.satp && Effective(r, access) == Effective(q, access)
    ensures Walks(xlen, r, access) == Walks(xlen, q, access)
  {
  }

  lemma {:induction false} WalkSamePage(dram: seq<byte>, s: Scheme, table: nat, level: nat, va: nat, va2: nat)
    requires va / PAGE == va2 / PAGE
    ensures WalkFrom(dram, s, table, level, va) == WalkFrom(dram, s, table, level, va2)
    decreases level
  {
    hide V, R, W, X, LittleEndian, Ppn;
    var pte := ReadPhysical(dram, PteAt(s, table, level, va), s.PteSize());
    if pte.Data? && level > 0 { WalkSamePage(dram, s, Ppn(s, pte.v) * PAGE, level - 1, va, va2); }
  }

  lemma SplicePage(s: Scheme, level: nat, pte: nat, va: nat, va2: nat)
    requires va / PAGE == va2 / PAGE
    ensures var pa, pa2 := Splice(s, level, pte, va), Splice(s, level, pte, va2);
            pa % PAGE == va % PAGE && pa2 == pa - pa % PAGE + va2 % PAGE
  {
    hide Ppn;
    var n := Ppn(s, pte) - Ppn(s, pte) % s.Pages(level) + (va / PAGE) % s.Pages(level);
    DivModUnique(n * PAGE + va % PAGE, PAGE, n, va % PAGE);
  }

  lemma CanonicalPage(s: Scheme, va: nat, va2: nat)
    requires va / PAGE == va2 / PAGE
    ensures Canonical(s, va) == Canonical(s, va2)
  {
  }

  /** All addresses of a page translate alike. */
  lemma SamePage(dram: seq<byte>, xlen: Xlen, r: Regs, va: nat, va2: nat, access: Access)
    requires va / PAGE == va2 / PAGE
    ensures var a, b := Translate(dram, xlen, r, va, access).0, Translate(dram, xlen, r, va2, access).0;
            (a.Ok? ==> a.pa % PAGE == va % PAGE && b == Ok(a.pa - a.pa % PAGE + va2 % PAGE)) && (!a.Ok? ==> b == a)
    ensures Settled(dram, xlen, r, va, access) == Settled(dram, xlen, r, va2, access)
  {
    var s := SchemeOf(r.satp, xlen);
    hide SchemeOf, WalkFrom, Splice, Ppn, Permitted, HasBits, Canonical, Mark;
    if !s.Bare? {
      WalkSamePage(dram, s, (r.satp % s.PpnModulus()) * PAGE, s.Levels() - 1, va, va2);
      CanonicalPage(s, va, va2);
      var w := RootWalk(dram, s, r.satp, va);
      LeafInDram(dram, s, (r.satp % s.PpnModulus()) * PAGE, s.Levels() - 1, va);
      LeafInDram(dram, s, (r.satp % s.PpnModulus()) * PAGE, s.Levels() - 1, va2);
      if w.Leaf? { SplicePage(s, w.level, w.pte, va, va2); }
    }
  }

  /** An entry filled by a successful walk answers for every register state its tag admits, MPP
      apart. */
  lemma FilledOk(dram: seq<byte>, xlen: Xlen, book: Book, r: Regs, va: nat, access: Access)
    requires Translate(dram, xlen, r, va, access).0.Ok?
    ensures var (res, after) := Translate(dram, xlen, r, va, access);
            EntryOk(after, xlen, AfterTouch(book, xlen, r, va, access), EntryOf(r, va, res.pa), r.mpp, access)
  {
    hide Translate, Settled, SchemeOf, Walks;
    var (res, after) := Translate(dram, xlen, r, va, access);
    TranslateIdempotent(dram, xlen, r, va, access);
    TranslateSettles(dram, xlen, r, va, access);
    var e := EntryOf(r, va, res.pa);
    var next := AfterTouch(book, xlen, r, va, access);
    forall q: Regs, va2: nat | Hits(e, q, va2) && Filled(r.mpp, q, access) && Current(next, xlen, q, va2, access)
      ensures Answers(after, xlen, e, q, va2, access) && (Walks(xlen, q, access) ==> (q.satp, va2 / PAGE) in next.used)
    {
      CtxDetermines(q, r);
      SamePage(after, xlen, r, va, va2, access);
      SameEffective(after, xlen, q, r, va2, access);
      SameWalks(xlen, q, r, access);
    }
  }

  /** Accessed and dirty updates by other walks leave an entry good. */
  lemma EntryEvolves(dram: seq<byte>, after: seq<byte>, xlen: Xlen, book: Book, next: Book, e: TlbEntry, filler: Priv,
                     access: Access)
    requires EntryOk(dram, xlen, book, e, filler, access) && Evolved(dram, after, PteSizeOf(xlen))
    requires next.stale == book.stale && book.used <= next.used
    ensures EntryOk(after, xlen, next, e, filler, access)
  {
    hide Translate, Settled, SchemeOf, Evolved, Walks;
    if e.valid {
      forall q: Regs, va: nat | Hits(e, q, va) && Filled(filler, q, access) && Current(next, xlen, q, va, access)
        ensures Answers(after, xlen, e, q, va, access) && (Walks(xlen, q, access) ==> (q.satp, va / PAGE) in next.used)
      {
        assert Current(book, xlen, q, va, access);
        TranslateEvolved(dram, after, xlen, q, va, access);
      }
    }
  }

  lemma {:induction false} ReadsSamePage(dram: seq<byte>, s: Scheme, table: nat, level: nat, va: nat, va2: nat, i: nat)
    requires va / PAGE == va2 / PAGE
    ensures Reads(dram, s, table, level, va, i) == Reads(dram, s, table, level, va2, i)
    decreases level
  {
    hide V, R, W, X, LittleEndian, Ppn;
    var pte := ReadPhysical(dram, PteAt(s, table, level, va), s.PteSize());
    if pte.Data? && level > 0 { ReadsSamePage(dram, s, Ppn(s, pte.v) * PAGE, level - 1, va, va2, i); }
  }

  /** A store that misses every entry a walk reads leaves the walk alone. */
  lemma {:induction false} WalkPoked(dram: seq<byte>, s: Scheme, table: nat, level: nat, va: nat, i: nat, b: byte)
    requires i < |dram| && !Reads(dram, s, table, level, va, i)
    ensures WalkFrom(dram[i := b], s, table, level, va) == WalkFrom(dram, s, table, level, va)
    decreases level
  {
    hide V, R, W, X, LittleEndian, Ppn, PteAt;
    var at := PteAt(s, table, level, va);
    ReadPoked(dram, at, s.PteSize(), i, b);
    var pte := ReadPhysical(dram, at, s.PteSize());
    hide ReadPhysical;
    if pte.Data? && level > 0 && !R(pte.v) && !X(pte.v) {
      WalkPoked(dram, s, Ppn(s, pte.v) * PAGE, level - 1, va, i, b);
    }
  }

  lemma ReadPoked(dram: seq<byte>, at: nat, size: nat, i: nat, b: byte)
    requires i < |dram|
    requires ReadPhysical(dram, at, size).Data? ==> !(at <= i + DRAM_BASE < at + size)
    ensures ReadPhysical(dram[i := b], at, size) == ReadPhysical(dram, at, size)
  {
    if at >= DRAM_BASE && Index(dram, at, size).Some? {
      var k := at - DRAM_BASE;
      assert dram[i := b][k..k + size] == dram[k..k + size];
    }
  }

  lemma TranslatePoked(dram: seq<byte>, xlen: Xlen, r: Regs, va: nat, access: Access, i: nat, b: byte)
    requires i < |dram| && (Walks(xlen, r, access) ==> !PageReads(dram, xlen, r.satp, va, i))
    ensures Translate(dram[i := b], xlen, r, va, access).0 == Translate(dram, xlen, r, va, access).0
    ensures Settled(dram[i := b], xlen, r, va, access) == Settled(dram, xlen, r, va, access)
  {
    var s := SchemeOf(r.satp, xlen);
    hide SchemeOf, WalkFrom, Splice, Ppn, Permitted, HasBits, Canonical, Reads;
    if Walks(xlen, r, access) {
      WalkPoked(dram, s, (r.satp % s.PpnModulus()) * PAGE, s.Levels() - 1, va, i, b);
    }
  }

  lemma EntryPoked(dram: seq<byte>, xlen: Xlen, book: Book, e: TlbEntry, filler: Priv, access: Access, i: nat, b: byte)
    requires EntryOk(dram, xlen, book, e, filler, access) && i < |dram|
    ensures EntryOk(dram[i := b], xlen, AfterStore(book, dram, xlen, i), e, filler, access)
  {
    hide Translate, Settled, SchemeOf, PageReads;
    var next := AfterStore(book, dram, xlen, i);
    if e.valid {
      forall q: Regs, va: nat | Hits(e, q, va) && Filled(filler, q, access) && Current(next, xlen, q, va, access)
        ensures Answers(dram[i := b], xlen, e, q, va, access) &&
                (Walks(xlen, q, access) ==> (q.satp, va / PAGE) in next.used)
      {
        assert Current(book, xlen, q, va, access);
        PageReadsOfPage(dram, xlen, q.satp, va, i);
        TranslatePoked(dram, xlen, q, va, access, i, b);
      }
    }
  }

  lemma PageReadsOfPage(dram: seq<byte>, xlen: Xlen, satp: nat, va: nat, i: nat)
    ensures PageReads(dram, xlen, satp, va / PAGE * PAGE, i) == PageReads(dram, xlen, satp, va, i)
  {
    var s := SchemeOf(satp, xlen);
    hide SchemeOf, Reads;
    DivModUnique(va / PAGE * PAGE, PAGE, va / PAGE, 0);
    var level := if s.Levels() == 0 then 0 else s.Levels() - 1;
    ReadsSamePage(dram, s, (satp % s.PpnModulus()) * PAGE, level, va / PAGE * PAGE, va, i);
  }

  // ---------------------------------------------------------------------------------------
  // What each step keeps

  /** Any access keeps the invariant, whatever it answers. */
  lemma TouchKeeps(dram: seq<byte>, t: Cache, p: Fillers, xlen: Xlen, book: Book, r: Regs, va: nat, access: Access)
    requires CacheOk(dram, t, p, xlen, book)
    ensures var (res, after, t2) := Cached(dram, t, xlen, r, va, access);
            CacheOk(after, t2, FillersAfter(p, dram, t, xlen, r, va, access), xlen,
                    AfterTouch(book, xlen, r, va, access)) &&
            Evolved(dram, after, PteSizeOf(xlen))
  {
    hide Translate, Settled, SchemeOf, Evolved, Walks, EntryOk;
    GrownSelf(dram, PteSizeOf(xlen));
    TranslateEffect(dram, xlen, r, va, access);
    var (res, after, t2) := Cached(dram, t, xlen, r, va, access);
    var p2, next := FillersAfter(p, dram, t, xlen, r, va, access), AfterTouch(book, xlen, r, va, access);
    forall slot: nat, kind: Access | slot < TLB_ENTRIES
      ensures EntryOk(after, xlen, next, t2[slot][Way(kind)], p2[slot][Way(kind)], kind)
    {
      assert EntryOk(dram, xlen, book, t[slot][Way(kind)], p[slot][Way(kind)], kind);
      EntryEvolves(dram, after, xlen, book, next, t[slot][Way(kind)], p[slot][Way(kind)], kind);
      if Translate(dram, xlen, r, va, access).0.Ok? { FilledOk(dram, xlen, book, r, va, access); }
    }
  }

  lemma FlushedOk(dram: seq<byte>, t: Cache, p: Fillers, xlen: Xlen)
    ensures CacheOk(dram, Flushed(t), p, xlen, CLEAR)
  {
    hide Translate, Settled;
  }

  /** A byte store as a memory effect; stores outside DRAM leave it alone. */
  function Poke(dram: seq<byte>, i: nat, b: byte): seq<byte> { if i < |dram| then dram[i := b] else dram }

  lemma PokeKeeps(dram: seq<byte>, t: Cache, p: Fillers, xlen: Xlen, book: Book, i: nat, b: byte)
    requires CacheOk(dram, t, p, xlen, book)
    ensures CacheOk(Poke(dram, i, b), t, p, xlen, AfterStore(book, dram, xlen, i))
  {
    hide EntryOk, PageReads;
    var next := AfterStore(book, dram, xlen, i);
    forall slot: nat, kind: Access | slot < TLB_ENTRIES
      ensures EntryOk(Poke(dram, i, b), xlen, next, t[slot][Way(kind)], p[slot][Way(kind)], kind)
    {
      assert EntryOk(dram, xlen, book, t[slot][Way(kind)], p[slot][Way(kind)], kind);
      if i < |dram| {
        EntryPoked(dram, xlen, book, t[slot][Way(kind)], p[slot][Way(kind)], kind, i, b);
      } else {
        EntryStales(dram, xlen, book, next, t[slot][Way(kind)], p[slot][Way(kind)], kind);
      }
    }
  }

  lemma EntryStales(dram: seq<byte>, xlen: Xlen, book: Book, next: Book, e: TlbEntry, filler: Priv, access: Access)
    requires EntryOk(dram, xlen, book, e, filler, access) && book.stale <= next.stale && next.used == book.used
    ensures EntryOk(dram, xlen, next, e, filler, access)
  {
    hide Translate, Settled, SchemeOf, Walks;
    if e.valid {
      forall q: Regs, va: nat | Hits(e, q, va) && Filled(filler, q, access) && Current(next, xlen, q, va, access)
        ensures Answers(dram, xlen, e, q, va, access) && (Walks(xlen, q, access) ==> (q.satp, va / PAGE) in next.used)
      {
        assert Current(book, xlen, q, va, access);
      }
    }
  }

  // ---------------------------------------------------------------------------------------
  // When an access is transparent

  /** A hit on an entry filled at the same MPP, or to which MPP does not apply, answers as a walk
      and the walk would change nothing. */
  lemma HitAnswers(dram: seq<byte>, t: Cache, p: Fillers, xlen: Xlen, book: Book, r: Regs, va: nat, access: Access)
    requires CacheOk(dram, t, p, xlen, book) && Current(book, xlen, r, va, access)
    requires Hits(EntryFor(t, va, access), r, va) && Filled(FillerFor(p, va, access), r, access)
    ensures Answers(dram, xlen, EntryFor(t, va, access), r, va, access)
    ensures Translate(dram, xlen, r, va, access) == (Ok(EntryFor(t, va, access).ppn + va % PAGE), dram)
  {
    hide Translate, Settled, SchemeOf, Walks;
    assert EntryOk(dram, xlen, book, EntryFor(t, va, access), FillerFor(p, va, access), access);
    SettledUnchanged(dram, xlen, r, va, access);
  }

  /** From any cache that satisfies the invariant, an access through current tables whose MPP is the
      entry's, or does not apply, answers as a walk does and leaves the same memory. */
  lemma TouchTransparent(dram: seq<byte>, t: Cache, p: Fillers, xlen: Xlen, book: Book, r: Regs, va: nat,
                         access: Access)
    requires CacheOk(dram, t, p, xlen, book) && Current(book, xlen, r, va, access)
    requires Hits(EntryFor(t, va, access), r, va) ==> Filled(FillerFor(p, va, access), r, access)
    ensures var (res, after, t2) := Cached(dram, t, xlen, r, va, access);
            (res, after) == Translate(dram, xlen, r, va, access)
  {
    hide Translate, CacheOk, Hits, Filled, Current, Fill;
    if Hits(EntryFor(t, va, access), r, va) {
      HitAnswers(dram, t, p, xlen, book, r, va, access);
    }
  }

  /** What a leaf grants a store or load at the privilege MPRV names. */
  predicate Grants(dram: seq<byte>, xlen: Xlen, r: Regs, va: nat, access: Access)
    requires !SchemeOf(r.satp, xlen).Bare?
  {
    var w := RootWalk(dram, SchemeOf(r.satp, xlen), r.satp, va);
    w.Leaf? && Permitted(w.pte, r.mpp, r.sum, r.mxr, access)
  }

  /** The leaf for va maps it to itself and already has the bits the access needs. */
  predicate IdentityMapped(dram: seq<byte>, xlen: Xlen, r: Regs, va: nat, access: Access)
    requires !SchemeOf(r.satp, xlen).Bare?
  {
    var s := SchemeOf(r.satp, xlen);
    var w := RootWalk(dram, s, r.satp, va);
    Canonical(s, va) && w.Leaf? && Ppn(s, w.pte) % s.Pages(w.level) == 0 && Splice(s, w.level, w.pte, va) == va &&
    HasBits(w.pte, access)
  }

  /** When an MPRV access may be answered by an entry filled at another MPP. Between two privileges
      below machine mode it is the permission check of the leaf that decides; where one of them is
      machine mode, which does not translate, whether the page is mapped to itself. */
  predicate Harmless(dram: seq<byte>, xlen: Xlen, e: TlbEntry, filler: Priv, r: Regs, va: nat, access: Access) {
    SchemeOf(r.satp, xlen).Bare? || r.mpp == filler ||
    if r.mpp.Machine? then e.ppn + va % PAGE == va
    else Grants(dram, xlen, r, va, access) && (filler.Machine? ==> IdentityMapped(dram, xlen, r, va, access))
  }

  /** Two privileges below machine mode: given a settled translation at one, the other translates
      alike exactly when the leaf permits it. */
  lemma OtherPrivilege(dram: seq<byte>, xlen: Xlen, r0: Regs, r: Regs, va: nat, access: Access)
    requires access != Fetch && r.mprv && r == r0.(mpp := r.mpp) && !r.mpp.Machine? && !r0.mpp.Machine?
    requires !SchemeOf(r.satp, xlen).Bare? && Translate(dram, xlen, r0, va, access).0.Ok? &&
             Settled(dram, xlen, r0, va, access)
    ensures Translate(dram, xlen, r, va, access) == (Translate(dram, xlen, r0, va, access).0, dram) <==>
            Grants(dram, xlen, r, va, access)
  {
    hide SchemeOf, WalkFrom, Splice, Ppn, Permitted, HasBits, Canonical, Mark, LittleEndian;
    var s := SchemeOf(r.satp, xlen);
    LeafInDram(dram, s, (r.satp % s.PpnModulus()) * PAGE, s.Levels() - 1, va);
  }

  /** From machine mode, whose accesses are not translated, to one below: alike exactly when the
      page is mapped to itself, permitted, and needs no update. */
  lemma FromMachine(dram: seq<byte>, xlen: Xlen, r: Regs, va: nat, access: Access)
    requires access != Fetch && r.mprv && !r.mpp.Machine? && !SchemeOf(r.satp, xlen).Bare?
    ensures Translate(dram, xlen, r, va, access) == (Ok(va), dram) <==>
            Grants(dram, xlen, r, va, access) && IdentityMapped(dram, xlen, r, va, access)
  {
    hide SchemeOf, WalkFrom, Splice, Ppn, Permitted, Canonical, LittleEndian, HasBits, Mark;
    var s := SchemeOf(r.satp, xlen);
    LeafInDram(dram, s, (r.satp % s.PpnModulus()) * PAGE, s.Levels() - 1, va);
    var w := RootWalk(dram, s, r.satp, va);
    if w.Leaf? && !HasBits(w.pte, access) { MarkChanges(dram, w.at - DRAM_BASE, s.PteSize(), access); }
  }

  /** Marking an entry that lacks a bit it needs changes memory. */
  lemma MarkChanges(dram: seq<byte>, i: nat, size: nat, access: Access)
    requires size > 0 && i + size <= |dram| && !HasBits(LittleEndian(dram[i..i + size]), access)
    ensures Mark(dram, i, access) != dram
  {
    LowBits(dram[i..i + size], access);
    SetBitsGrown(dram[i], access);
    hide SetBits, HasBits, LittleEndian;
    assert Mark(dram, i, access)[i] == SetBits(dram[i], access);
  }

  /** Exactly when a cached access through current tables is transparent: always on a miss, for a
      fetch, with MPRV clear and at the MPP the entry was filled at, and otherwise just when the
      change of MPP is harmless. */
  lemma TouchExact(dram: seq<byte>, t: Cache, p: Fillers, xlen: Xlen, book: Book, r: Regs, va: nat, access: Access)
    requires CacheOk(dram, t, p, xlen, book) && Current(book, xlen, r, va, access)
    ensures var (res, after, t2) := Cached(dram, t, xlen, r, va, access);
            (res, after) == Translate(dram, xlen, r, va, access) <==>
            Transparent(dram, t, p, xlen, r, va, access)
  {
    hide Translate, CacheOk, Hits, Current, Fill, Grants, IdentityMapped, SchemeOf;
    var e, filler := EntryFor(t, va, access), FillerFor(p, va, access);
    if !Hits(e, r, va) || Filled(filler, r, access) {
      TouchTransparent(dram, t, p, xlen, book, r, va, access);
    } else {
      OtherMppExact(dram, t, p, xlen, book, r, va, access);
    }
  }

  predicate Transparent(dram: seq<byte>, t: Cache, p: Fillers, xlen: Xlen, r: Regs, va: nat, access: Access) {
    var e, filler := EntryFor(t, va, access), FillerFor(p, va, access);
    !Hits(e, r, va) || access == Fetch || !r.mprv || Harmless(dram, xlen, e, filler, r, va, access)
  }

  /** A hit at another MPP than the entry's. */
  lemma OtherMppExact(dram: seq<byte>, t: Cache, p: Fillers, xlen: Xlen, book: Book, r: Regs, va: nat, access: Access)
    requires CacheOk(dram, t, p, xlen, book) && Current(book, xlen, r, va, access)
    requires Hits(EntryFor(t, va, access), r, va) && access != Fetch && r.mprv && r.mpp != FillerFor(p, va, access)
    ensures Translate(dram, xlen, r, va, access) == (Ok(EntryFor(t, va, access).ppn + va % PAGE), dram) <==>
            Harmless(dram, xlen, EntryFor(t, va, access), FillerFor(p, va, access), r, va, access)
  {
    hide Translate, CacheOk, Grants, IdentityMapped, SchemeOf, Settled, CtxOf;
    var e, filler := EntryFor(t, va, access), FillerFor(p, va, access);
    var r0 := r.(mpp := filler);
    MppNotInTag(r, r0);
    if SchemeOf(r.satp, xlen).Bare? {
      HitAnswers(dram, t, p, xlen, book, r0, va, access);
      Untranslated(dram, xlen, r0, va, access);
      Untranslated(dram, xlen, r, va, access);
    } else if r.mpp.Machine? {
      Untranslated(dram, xlen, r, va, access);
    } else {
      HitAnswers(dram, t, p, xlen, book, r0, va, access);
      if filler.Machine? {
        Untranslated(dram, xlen, r0, va, access);
        FromMachine(dram, xlen, r, va, access);
      } else {
        OtherPrivilege(dram, xlen, r0, r, va, access);
      }
    }
  }

  lemma MppNotInTag(r: Regs, r0: Regs)
    requires r0 == r.(mpp := r0.mpp)
    ensures CtxOf(r) == CtxOf(r0)
  {
  }

  lemma Untranslated(dram: seq<byte>, xlen: Xlen, r: Regs, va: nat, access: Access)
    requires SchemeOf(r.satp, xlen).Bare? || Effective(r, access).Machine?
    ensures Translate(dram, xlen, r, va, access) == (Ok(va), dram)
  {
    hide SchemeOf;
  }
}
