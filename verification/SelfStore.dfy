/** A store into its own page tables: a concrete run in which the cached second pass of a crossing
    store and one that walks again part. */
module SelfStore {
  import opened Basics
  import opened Mmu
  import opened MmuTheory
  import opened PagedAccess
  import opened PagedWalks
  import opened Tlb
  import TlbRuns


  /** A two-level table: a root in the first frame, and in the second a table whose last two entries
      map one page to that second frame itself and the next page to the first. */
  function OwnTables(): seq<byte> {
    seq(8192, i => if i == 0 then 0x01 else if i == 1 then 0x04 else if i == 3 then 0x20
                   else if i == 0x1FF8 then 0xC7 else if i == 0x1FF9 then 0x04 else if i == 0x1FFB then 0x20
                   else if i == 0x1FFC then 0xC7 else if i == 0x1FFF then 0x20 else 0)
  }

  const OWN_REGS: Regs := Regs(0x8008_0000, false, false, false, User, Supervisor)

  /** The last byte of the first page, which is the high byte of the second page's entry. */
  const OWN_VA: nat := 0x3F_EFFF

  function Word(a: nat, b: nat, c: nat, d: nat): nat { a + 256 * b + 0x1_0000 * c + 0x100_0000 * d }

  lemma FourBytes(dram: seq<byte>, i: nat)
    requires i + 4 <= |dram|
    ensures LittleEndian(dram[i..i + 4]) ==
            Word(dram[i], dram[i + 1], dram[i + 2], dram[i + 3])
  {
    var s := dram[i..i + 4];
    assert s[1..][1..] == s[2..] && s[2..][1..] == s[3..] && s[3..][1..] == [];
    assert LittleEndian([]) == 0;
    assert LittleEndian(s[3..]) == s[3];
    assert LittleEndian(s[2..]) == s[2] + 256 * LittleEndian(s[3..]);
    assert LittleEndian(s[1..]) == s[1] + 256 * LittleEndian(s[2..]);
  }

  /** An entry as the walk reads it. */
  lemma EntryAt(dram: seq<byte>, at: nat)
    requires at >= DRAM_BASE && at - DRAM_BASE + 4 <= |dram|
    ensures var i := at - DRAM_BASE;
            ReadPhysical(dram, at, 4) ==
              Data(Word(dram[i], dram[i + 1], dram[i + 2], dram[i + 3]))
  {
    hide LittleEndian;
    FourBytes(dram, at - DRAM_BASE);
  }

  /** The walk of a page in the last two of the first 4 MiB. */
  lemma OwnWalk(dram: seq<byte>, va: nat, pte: nat)
    requires |dram| == 8192 && (va / PAGE == 1022 || va / PAGE == 1023)
    requires ReadPhysical(dram, 0x8000_0000, 4) == Data(0x2000_0401)
    requires ReadPhysical(dram, 0x8000_1000 + 4 * (va / PAGE), 4) == Data(pte) && V(pte) && R(pte)
    ensures RootWalk(dram, Sv32, 0x8008_0000, va) == Leaf(0, 0x8000_1000 + 4 * (va / PAGE), pte)
  {
    hide ReadPhysical, V, R, W, X;
    OwnEntries(va);
    PointerBits();
    assert Ppn(Sv32, 0x2000_0401) * PAGE == 0x8000_1000;
    assert WalkFrom(dram, Sv32, 0x8000_1000, 0, va) == Leaf(0, 0x8000_1000 + 4 * (va / PAGE), pte);
  }

  lemma OwnEntries(va: nat)
    requires va / PAGE == 1022 || va / PAGE == 1023
    ensures PteAt(Sv32, 0x8000_0000, 1, va) == 0x8000_0000 &&
            PteAt(Sv32, 0x8000_1000, 0, va) == 0x8000_1000 + 4 * (va / PAGE)
  {
  }

  lemma PointerBits()
    ensures V(0x2000_0401) && !R(0x2000_0401) && !W(0x2000_0401) && !X(0x2000_0401)
  {
  }

  /** A page that the supervisor may write and that needs no update. */
  lemma OwnTranslate(dram: seq<byte>, va: nat, pte: nat)
    requires |dram| == 8192 && (va / PAGE == 1022 || va / PAGE == 1023) && pte % 256 == 0xC7
    requires ReadPhysical(dram, 0x8000_0000, 4) == Data(0x2000_0401)
    requires ReadPhysical(dram, 0x8000_1000 + 4 * (va / PAGE), 4) == Data(pte)
    ensures Translate(dram, Rv32, OWN_REGS, va, Access.Store) == (Ok(Ppn(Sv32, pte) * PAGE + va % PAGE), dram)
  {
    hide ReadPhysical, V, R, W, X, U, A, D, WalkFrom, Ppn;
    OwnFlags(pte);
    OwnWalk(dram, va, pte);
    assert SchemeOf(0x8008_0000, Rv32) == Sv32;
  }

  lemma OwnFlags(pte: nat)
    requires pte % 256 == 0xC7
    ensures V(pte) && R(pte) && W(pte) && !U(pte) && A(pte) && D(pte)
  {
    LowByteBits(pte);
    SixBits(pte);
  }

  lemma OwnFirst()
    ensures Translate(OwnTables(), Rv32, OWN_REGS, OWN_VA, Access.Store) == (Ok(0x8000_1FFF), OwnTables())
    ensures Translate(OwnTables(), Rv32, OWN_REGS, OWN_VA + 1, Access.Store) == (Ok(0x8000_0000), OwnTables())
  {
    hide Translate, ReadPhysical;
    var d := OwnTables();
    EntryAt(d, 0x8000_0000);
    EntryAt(d, 0x8000_1FF8);
    EntryAt(d, 0x8000_1FFC);
    OwnTranslate(d, OWN_VA, 0x2000_04C7);
    OwnTranslate(d, OWN_VA + 1, 0x2000_00C7);
  }

  /** After the first byte the second page maps to address zero. */
  lemma OwnSecond()
    ensures Translate(OwnTables()[0x1FFF := 0], Rv32, OWN_REGS, OWN_VA + 1, Access.Store).0 == Ok(0)
  {
    hide Translate, ReadPhysical;
    var d := OwnTables()[0x1FFF := 0];
    EntryAt(d, 0x8000_0000);
    EntryAt(d, 0x8000_1FFC);
    OwnTranslate(d, OWN_VA + 1, 0xC7);
  }

  /** The cache answers both translations of the second pass from its first. */
  lemma OwnCached()
    ensures PagedAccess.Store(OwnTables(), EmptyCache(), Rv32, OWN_REGS, OWN_VA, 2, 0).done == Value(0)
  {
    hide Translate, OwnTables, EmptyCache, Probe, Present, Base, Cached, StoreBytes, WriteLE;
    var d := OwnTables();
    OwnFirst();
    NothingCached(OWN_VA);
    NothingCached(OWN_VA + 1);
    OwnFills(d, EmptyCache());
    OwnSize();
    ProbeCrossing(d, EmptyCache(), Rv32, OWN_REGS, OWN_VA, 2);
    CrossingStore(d, EmptyCache(), Rv32, OWN_REGS, OWN_VA, 2, 0);
  }

  lemma OwnSize()
    ensures |OwnTables()| == 8192
  {
  }

  lemma NothingCached(va: nat)
    ensures !Hits(EntryFor(EmptyCache(), va, Access.Store), OWN_REGS, va)
  {
  }

  /** The first pass fills one entry for each page. */
  lemma OwnFills(dram: seq<byte>, t: Cache)
    requires !Hits(EntryFor(t, OWN_VA, Access.Store), OWN_REGS, OWN_VA)
    requires !Hits(EntryFor(t, OWN_VA + 1, Access.Store), OWN_REGS, OWN_VA + 1)
    requires Translate(dram, Rv32, OWN_REGS, OWN_VA, Access.Store) == (Ok(0x8000_1FFF), dram)
    requires Translate(dram, Rv32, OWN_REGS, OWN_VA + 1, Access.Store) == (Ok(0x8000_0000), dram)
    ensures var (res, after, t2) := Cached(dram, t, Rv32, OWN_REGS, OWN_VA, Access.Store);
            var (res3, after3, t3) := Cached(after, t2, Rv32, OWN_REGS, OWN_VA + 1, Access.Store);
            res.Ok? && after == dram && res3.Ok? && after3 == dram &&
            Base(t3, OWN_VA, Access.Store) == 0x8000_1FFF && Base(t3, OWN_VA + 1, Access.Store) == 0x8000_0000
  {
    hide Translate, CtxOf;
  }

  /** A walk finds the second page gone: its entry now names physical address zero. */
  lemma OwnWalked()
    ensures WalkedStore(OwnTables(), Rv32, OWN_REGS, OWN_VA, 2, 0).0 == AccessFault
  {
    hide Translate, OwnTables, WriteLE;
    var d := OwnTables();
    OwnFirst();
    OwnSecond();
    OwnSize();
    OneByte(d, 0x1FFF, 0);
    TwoProbes(d);
    TwoStores(d);
  }

  lemma TwoProbes(dram: seq<byte>)
    requires Translate(dram, Rv32, OWN_REGS, OWN_VA, Access.Store) == (Ok(0x8000_1FFF), dram)
    requires Translate(dram, Rv32, OWN_REGS, OWN_VA + 1, Access.Store) == (Ok(0x8000_0000), dram)
    ensures WalkedProbe(dram, Rv32, OWN_REGS, OWN_VA, 2) == (Value(0), dram)
  {
    hide Translate;
    assert WalkedProbe(dram, Rv32, OWN_REGS, OWN_VA + 2, 0) == (Value(0), dram);
    assert WalkedProbe(dram, Rv32, OWN_REGS, OWN_VA + 1, 1) == (Value(0), dram);
  }

  lemma TwoStores(dram: seq<byte>)
    requires |dram| == 8192 && WriteLE(dram, 0x1FFF, 1, 0) == dram[0x1FFF := 0]
    requires Translate(dram, Rv32, OWN_REGS, OWN_VA, Access.Store) == (Ok(0x8000_1FFF), dram)
    requires Translate(dram[0x1FFF := 0], Rv32, OWN_REGS, OWN_VA + 1, Access.Store).0 == Ok(0)
    ensures WalkedStoreBytes(dram, Rv32, OWN_REGS, OWN_VA, 2, 0).0 == AccessFault
  {
    hide Translate, WalkedStoreOnce, WalkedStoreBytes;
    var d := dram[0x1FFF := 0];
    StoresLow(dram);
    StoresNowhere(d);
    WalkedTwo(dram, d);
  }

  lemma StoresLow(dram: seq<byte>)
    requires |dram| == 8192 && WriteLE(dram, 0x1FFF, 1, 0) == dram[0x1FFF := 0]
    requires Translate(dram, Rv32, OWN_REGS, OWN_VA, Access.Store) == (Ok(0x8000_1FFF), dram)
    ensures WalkedStoreOnce(dram, Rv32, OWN_REGS, OWN_VA, 1, 0) == (Value(0), dram[0x1FFF := 0])
  {
    hide Translate, WriteLE;
  }

  lemma StoresNowhere(dram: seq<byte>)
    requires Translate(dram, Rv32, OWN_REGS, OWN_VA + 1, Access.Store).0 == Ok(0)
    ensures WalkedStoreOnce(dram, Rv32, OWN_REGS, OWN_VA + 1, 1, 0).0 == AccessFault
  {
    hide Translate, WriteLE;
  }

  lemma WalkedTwo(dram: seq<byte>, d: seq<byte>)
    requires WalkedStoreOnce(dram, Rv32, OWN_REGS, OWN_VA, 1, 0) == (Value(0), d)
    requires WalkedStoreOnce(d, Rv32, OWN_REGS, OWN_VA + 1, 1, 0).0 == AccessFault
    ensures WalkedStoreBytes(dram, Rv32, OWN_REGS, OWN_VA, 2, 0).0 == AccessFault
  {
    hide WalkedStoreOnce;
    assert WalkedStoreBytes(d, Rv32, OWN_REGS, OWN_VA + 1, 1, 0).0 == AccessFault;
  }

  /** The two part, from a cache that meets every other condition: the first byte of the store takes
      away the mapping of the second, which the cache still answers and a walk no longer does. */
  lemma StoreNotTransparent()
    ensures var s := TlbRuns.Reset(OwnTables(), OWN_REGS);
            CacheOk(s.dram, s.tlb, s.fillers, Rv32, s.book) &&
            AllUsable(s.tlb, s.fillers, Rv32, s.book, OWN_REGS, OWN_VA, 2, Access.Store) &&
            PagedAccess.Store(s.dram, s.tlb, Rv32, OWN_REGS, OWN_VA, 2, 0).done == Value(0) &&
            WalkedStore(s.dram, Rv32, OWN_REGS, OWN_VA, 2, 0).0 == AccessFault
  {
    hide CacheOk, PagedAccess.Store, WalkedStore, OwnTables;
    TlbRuns.ResetConsistent(Rv32, OwnTables(), OWN_REGS);
    OwnCached();
    OwnWalked();
  }
}
