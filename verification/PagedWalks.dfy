/** Loads and stores through the cache beside the same accesses with a page walk for every
    translation. */
module PagedWalks {
  import opened Arithmetic
  import opened Basics
  import opened Mmu
  import opened MmuTheory
  import opened PagedAccess
  import opened Tlb

  /** What a walked access gives, and the memory it leaves. */
  type Outcome = (Done, seq<byte>)

  function WalkedLoadOnce(dram: seq<byte>, xlen: Xlen, r: Regs, va: nat, size: nat): Outcome {
    var (res, after) := Translate(dram, xlen, r, va, Access.Load);
    if !res.Ok? then (FaultOf(res, va), after)
    else
      match ReadPhysical(after, res.pa, size)
      case Data(v) => (Value(v), after)
      case Unmapped => (AccessFault, after)
      case Device => (DeviceHit, after)
  }

  function WalkedLoadBytes(dram: seq<byte>, xlen: Xlen, r: Regs, va: nat, n: nat): Outcome
    decreases n
  {
    if n == 0 then (Value(0), dram)
    else
      var (first, after) := WalkedLoadOnce(dram, xlen, r, va, 1);
      if !first.Value? then (first, after)
      else
        var (rest, last) := WalkedLoadBytes(after, xlen, r, va + 1, n - 1);
        (if rest.Value? then Value(first.v + 256 * rest.v) else rest, last)
  }

  function WalkedLoad(dram: seq<byte>, xlen: Xlen, r: Regs, va: nat, size: nat): Outcome {
    if va % PAGE + size <= PAGE then WalkedLoadOnce(dram, xlen, r, va, size)
    else WalkedLoadBytes(dram, xlen, r, va, size)
  }

  function WalkedWrite(dram: seq<byte>, pa: nat, size: nat, v: nat): Outcome {
    if pa >= DRAM_BASE then
      match Index(dram, pa, size)
      case Some(i) => (Value(0), WriteLE(dram, i, size, v))
      case None => (AccessFault, dram)
    else (if IsDevice(pa) then DeviceHit else AccessFault, dram)
  }

  function WalkedStoreOnce(dram: seq<byte>, xlen: Xlen, r: Regs, va: nat, size: nat, v: nat): Outcome {
    var (res, after) := Translate(dram, xlen, r, va, Access.Store);
    if !res.Ok? then (FaultOf(res, va), after) else WalkedWrite(after, res.pa, size, v)
  }

  function WalkedProbe(dram: seq<byte>, xlen: Xlen, r: Regs, va: nat, n: nat): Outcome
    decreases n
  {
    if n == 0 then (Value(0), dram)
    else
      var (res, after) := Translate(dram, xlen, r, va, Access.Store);
      if !res.Ok? then (FaultOf(res, va), after) else WalkedProbe(after, xlen, r, va + 1, n - 1)
  }

  function WalkedStoreBytes(dram: seq<byte>, xlen: Xlen, r: Regs, va: nat, n: nat, v: nat): Outcome
    decreases n
  {
    if n == 0 then (Value(0), dram)
    else
      var (first, after) := WalkedStoreOnce(dram, xlen, r, va, 1, v);
      if !first.Value? then (first, after) else WalkedStoreBytes(after, xlen, r, va + 1, n - 1, v / 256)
  }

  function WalkedStore(dram: seq<byte>, xlen: Xlen, r: Regs, va: nat, size: nat, v: nat): Outcome {
    if va % PAGE + size <= PAGE then WalkedStoreOnce(dram, xlen, r, va, size, v)
    else
      var (probed, after) := WalkedProbe(dram, xlen, r, va, size);
      if !probed.Value? then (probed, after) else WalkedStoreBytes(after, xlen, r, va, size, v)
  }

  // ---------------------------------------------------------------------------------------
  // The access's translations are transparent

  /** The tables for va are current, and an entry that would answer was filled at the MPP in force,
      wherever MPP matters. */
  predicate Usable(t: Cache, p: Fillers, xlen: Xlen, book: Book, r: Regs, va: nat, access: Access) {
    Current(book, xlen, r, va, access) &&
    (Hits(EntryFor(t, va, access), r, va) ==> Filled(FillerFor(p, va, access), r, access))
  }

  predicate AllUsable(t: Cache, p: Fillers, xlen: Xlen, book: Book, r: Regs, va: nat, n: nat, access: Access) {
    forall w :: va <= w < va + n ==> Usable(t, p, xlen, book, r, w, access)
  }

  /** One translation on the way: it is that of a walk, and leaves the rest usable. */
  lemma TouchUsable(dram: seq<byte>, t: Cache, p: Fillers, xlen: Xlen, book: Book, r: Regs, va: nat, n: nat,
                    access: Access)
    requires CacheOk(dram, t, p, xlen, book) && AllUsable(t, p, xlen, book, r, va, n, access) && n > 0
    ensures var (res, after, t2) := Cached(dram, t, xlen, r, va, access);
            var p2, next := FillersAfter(p, dram, t, xlen, r, va, access), AfterTouch(book, xlen, r, va, access);
            (res, after) == Translate(dram, xlen, r, va, access) && CacheOk(after, t2, p2, xlen, next) &&
            AllUsable(t2, p2, xlen, next, r, va, n, access)
  {
    TouchKeeps(dram, t, p, xlen, book, r, va, access);
    assert Usable(t, p, xlen, book, r, va, access);
    TouchTransparent(dram, t, p, xlen, book, r, va, access);
    hide CacheOk, Translate;
    var (res, after, t2) := Cached(dram, t, xlen, r, va, access);
    var p2, next := FillersAfter(p, dram, t, xlen, r, va, access), AfterTouch(book, xlen, r, va, access);
    forall w | va <= w < va + n ensures Usable(t2, p2, xlen, next, r, w, access) {
      assert Usable(t, p, xlen, book, r, w, access);
      UsableLater(dram, t, p, xlen, book, r, va, w, access);
    }
  }

  lemma UsableLater(dram: seq<byte>, t: Cache, p: Fillers, xlen: Xlen, book: Book, r: Regs, va: nat, w: nat,
                    access: Access)
    requires Usable(t, p, xlen, book, r, w, access)
    ensures Usable(Cached(dram, t, xlen, r, va, access).2, FillersAfter(p, dram, t, xlen, r, va, access), xlen,
                   AfterTouch(book, xlen, r, va, access), r, w, access)
  {
    hide Translate, CtxOf, Walks;
  }

  /** A load gets the value, or the fault, and leaves the memory that it would with a walk for every
      translation. */
  lemma LoadTransparent(dram: seq<byte>, t: Cache, p: Fillers, xlen: Xlen, book: Book, r: Regs, va: nat, size: nat)
    requires CacheOk(dram, t, p, xlen, book) && 1 <= size && AllUsable(t, p, xlen, book, r, va, size, Access.Load)
    ensures var l := PagedAccess.Load(dram, t, xlen, r, va, size);
            (l.done, l.dram) == WalkedLoad(dram, xlen, r, va, size)
  {
    hide CacheOk, Cached, Translate, AllUsable, LoadBytes, WalkedLoadBytes, AfterTouch, FillersAfter;
    if va % PAGE + size <= PAGE {
      TouchUsable(dram, t, p, xlen, book, r, va, size, Access.Load);
    } else {
      LoadBytesTransparent(dram, t, p, xlen, book, r, va, size);
    }
  }

  lemma AllUsableNext(t: Cache, p: Fillers, xlen: Xlen, book: Book, r: Regs, va: nat, n: nat, access: Access)
    requires n > 0 && AllUsable(t, p, xlen, book, r, va, n, access)
    ensures AllUsable(t, p, xlen, book, r, va + 1, n - 1, access)
  {
    hide Usable;
  }

  lemma {:induction false} LoadBytesTransparent(dram: seq<byte>, t: Cache, p: Fillers, xlen: Xlen, book: Book, r: Regs,
                                                va: nat, n: nat)
    requires CacheOk(dram, t, p, xlen, book) && AllUsable(t, p, xlen, book, r, va, n, Access.Load)
    ensures var l := LoadBytes(dram, t, xlen, r, va, n); (l.done, l.dram) == WalkedLoadBytes(dram, xlen, r, va, n)
    decreases n
  {
    hide CacheOk, Cached, Translate, AllUsable, AfterTouch, FillersAfter;
    if n > 0 {
      TouchUsable(dram, t, p, xlen, book, r, va, n, Access.Load);
      var (res, after, t2) := Cached(dram, t, xlen, r, va, Access.Load);
      var p2, next := FillersAfter(p, dram, t, xlen, r, va, Access.Load), AfterTouch(book, xlen, r, va, Access.Load);
      AllUsableNext(t2, p2, xlen, next, r, va, n, Access.Load);
      LoadBytesTransparent(after, t2, p2, xlen, next, r, va + 1, n - 1);
    }
  }

  // ---------------------------------------------------------------------------------------
  // Stores

  /** The walk and the cache agree on byte w, and the walk would change nothing. */
  predicate Answered(dram: seq<byte>, t: Cache, xlen: Xlen, r: Regs, w: nat) {
    Present(t, r, w, Access.Store) && Answers(dram, xlen, EntryFor(t, w, Access.Store), r, w, Access.Store)
  }

  predicate AllAnswered(dram: seq<byte>, t: Cache, xlen: Xlen, r: Regs, va: nat, n: nat) {
    forall w :: va <= w < va + n ==> Answered(dram, t, xlen, r, w)
  }

  /** The first pass does what a walked first pass does, and leaves an entry for every byte that
      answers as a walk would. */
  lemma {:induction false} ProbeTransparent(dram: seq<byte>, t: Cache, p: Fillers, xlen: Xlen, book: Book, r: Regs,
                                            start: nat, va: nat, n: nat)
    requires CacheOk(dram, t, p, xlen, book) && start <= va && va + n <= start + PAGE
    requires AllUsable(t, p, xlen, book, r, start, va + n - start, Access.Store)
    requires forall w :: start <= w < va ==> Present(t, r, w, Access.Store)
    ensures var s := Probe(dram, t, xlen, r, va, n);
            (s.done, s.dram) == WalkedProbe(dram, xlen, r, va, n) &&
            (s.done.Value? ==> AllAnswered(s.dram, s.tlb, xlen, r, start, va + n - start))
    decreases n
  {
    hide CacheOk, Cached, Translate, AllUsable, AfterTouch, FillersAfter, Answered, Present;
    if n == 0 {
      forall w | start <= w < va ensures Answered(dram, t, xlen, r, w) {
        UsableAnswered(dram, t, p, xlen, book, r, start, va - start, w);
      }
    } else {
      TouchWithin(dram, t, p, xlen, book, r, start, va, n);
      var (res, after, t2) := Cached(dram, t, xlen, r, va, Access.Store);
      var p2, next := FillersAfter(p, dram, t, xlen, r, va, Access.Store), AfterTouch(book, xlen, r, va, Access.Store);
      if res.Ok? {
        CachedKeeps(dram, t, xlen, r, va, Access.Store);
        forall w | start <= w < va + 1 ensures Present(t2, r, w, Access.Store) {
          NearPages(start, w, va);
        }
        ProbeTransparent(after, t2, p2, xlen, next, r, start, va + 1, n - 1);
      }
    }
  }

  lemma UsableAnswered(dram: seq<byte>, t: Cache, p: Fillers, xlen: Xlen, book: Book, r: Regs, va: nat, n: nat, w: nat)
    requires CacheOk(dram, t, p, xlen, book) && AllUsable(t, p, xlen, book, r, va, n, Access.Store)
    requires va <= w < va + n && Present(t, r, w, Access.Store)
    ensures Answered(dram, t, xlen, r, w)
  {
    hide CacheOk, Answers;
    assert Usable(t, p, xlen, book, r, w, Access.Store);
    HitAnswers(dram, t, p, xlen, book, r, w, Access.Store);
  }

  /** A translation in the middle of the range. */
  lemma TouchWithin(dram: seq<byte>, t: Cache, p: Fillers, xlen: Xlen, book: Book, r: Regs, start: nat, va: nat, n: nat)
    requires CacheOk(dram, t, p, xlen, book) && start <= va && n > 0
    requires AllUsable(t, p, xlen, book, r, start, va + n - start, Access.Store)
    ensures var (res, after, t2) := Cached(dram, t, xlen, r, va, Access.Store);
            var p2, next :=
                FillersAfter(p, dram, t, xlen, r, va, Access.Store), AfterTouch(book, xlen, r, va, Access.Store);
            (res, after) == Translate(dram, xlen, r, va, Access.Store) && CacheOk(after, t2, p2, xlen, next) &&
            AllUsable(t2, p2, xlen, next, r, start, va + n - start, Access.Store)
  {
    assert AllUsable(t, p, xlen, book, r, va, n, Access.Store);
    TouchUsable(dram, t, p, xlen, book, r, va, n, Access.Store);
    hide CacheOk, Translate, Cached, FillersAfter, AfterTouch, Usable;
    var p2, next := FillersAfter(p, dram, t, xlen, r, va, Access.Store), AfterTouch(book, xlen, r, va, Access.Store);
    forall w | start <= w < va + n
      ensures Usable(Cached(dram, t, xlen, r, va, Access.Store).2, p2, xlen, next, r, w, Access.Store)
    {
      UsableLater(dram, t, p, xlen, book, r, va, w, Access.Store);
    }
  }

  /** Byte w of the store lands in an entry that translates byte u. */
  predicate Overwrites(dram: seq<byte>, t: Cache, xlen: Xlen, r: Regs, w: nat, u: nat) {
    DRAM_BASE <= Base(t, w, Access.Store) && Walks(xlen, r, Access.Store) &&
    PageReads(dram, xlen, r.satp, u, Base(t, w, Access.Store) - DRAM_BASE)
  }

  /** No byte the store writes belongs to an entry that translates a later one. */
  predicate Apart(dram: seq<byte>, t: Cache, xlen: Xlen, r: Regs, va: nat, n: nat) {
    forall w, u :: va <= w < u < va + n ==> !Overwrites(dram, t, xlen, r, w, u)
  }

  /** Whenever the second pass comes to a byte, a walk through what the earlier bytes have left still
      answers as the cache does and would change nothing. */
  predicate Undisturbed(dram: seq<byte>, t: Cache, xlen: Xlen, r: Regs, va: nat, n: nat, v: nat)
    decreases n
  {
    n == 0 ||
    (Translate(dram, xlen, r, va, Access.Store) == (Ok(Base(t, va, Access.Store)), dram) &&
     var first := StoreOnce(dram, t, xlen, r, va, 1, v);
     first.done.Value? ==> Undisturbed(first.dram, t, xlen, r, va + 1, n - 1, v / 256))
  }

  /** A store beside a walk leaves what the walk reads as it was. */
  lemma {:induction false} ReadsPoked(dram: seq<byte>, s: Scheme, table: nat, level: nat, va: nat, i: nat, b: byte,
                                      j: nat)
    requires i < |dram| && !Reads(dram, s, table, level, va, i)
    ensures Reads(dram[i := b], s, table, level, va, j) == Reads(dram, s, table, level, va, j)
    decreases level
  {
    hide V, R, W, X, LittleEndian, Ppn, PteAt;
    var at := PteAt(s, table, level, va);
    ReadPoked(dram, at, s.PteSize(), i, b);
    var pte := ReadPhysical(dram, at, s.PteSize());
    hide ReadPhysical;
    if pte.Data? && level > 0 && !R(pte.v) && !X(pte.v) {
      ReadsPoked(dram, s, Ppn(s, pte.v) * PAGE, level - 1, va, i, b, j);
    }
  }

  lemma PageReadsPoked(dram: seq<byte>, xlen: Xlen, satp: nat, va: nat, i: nat, b: byte, j: nat)
    requires i < |dram| && !PageReads(dram, xlen, satp, va, i)
    ensures PageReads(dram[i := b], xlen, satp, va, j) == PageReads(dram, xlen, satp, va, j)
  {
    hide SchemeOf, Reads;
    var s := SchemeOf(satp, xlen);
    if !s.Bare? { ReadsPoked(dram, s, (satp % s.PpnModulus()) * PAGE, s.Levels() - 1, va, i, b, j); }
  }

  lemma OverwritesPoked(dram: seq<byte>, t: Cache, xlen: Xlen, r: Regs, va: nat, w: nat, u: nat, b: byte)
    requires !Overwrites(dram, t, xlen, r, va, u) && !Overwrites(dram, t, xlen, r, w, u)
    requires DRAM_BASE <= Base(t, va, Access.Store) < DRAM_BASE + |dram|
    ensures !Overwrites(dram[Base(t, va, Access.Store) - DRAM_BASE := b], t, xlen, r, w, u)
  {
    hide PageReads, Base, Walks;
    if DRAM_BASE <= Base(t, w, Access.Store) && Walks(xlen, r, Access.Store) {
      PageReadsPoked(dram, xlen, r.satp, u, Base(t, va, Access.Store) - DRAM_BASE, b,
                     Base(t, w, Access.Store) - DRAM_BASE);
    }
  }

  lemma AnsweredPoked(dram: seq<byte>, t: Cache, xlen: Xlen, r: Regs, va: nat, u: nat, b: byte)
    requires !Overwrites(dram, t, xlen, r, va, u) && Answered(dram, t, xlen, r, u)
    requires DRAM_BASE <= Base(t, va, Access.Store) < DRAM_BASE + |dram|
    ensures Answered(dram[Base(t, va, Access.Store) - DRAM_BASE := b], t, xlen, r, u)
  {
    hide PageReads, Base, Translate, MmuTheory.Settled, Present, Walks;
    TranslatePoked(dram, xlen, r, u, Access.Store, Base(t, va, Access.Store) - DRAM_BASE, b);
  }

  /** Writing one byte of the store leaves the rest of it translated as before. */
  lemma ApartPoked(dram: seq<byte>, t: Cache, xlen: Xlen, r: Regs, va: nat, n: nat, b: byte)
    requires n > 0 && Apart(dram, t, xlen, r, va, n) && AllAnswered(dram, t, xlen, r, va, n)
    requires DRAM_BASE <= Base(t, va, Access.Store) < DRAM_BASE + |dram|
    ensures var d := dram[Base(t, va, Access.Store) - DRAM_BASE := b];
            Apart(d, t, xlen, r, va + 1, n - 1) && AllAnswered(d, t, xlen, r, va + 1, n - 1)
  {
    hide Overwrites, Answered, Base;
    var d := dram[Base(t, va, Access.Store) - DRAM_BASE := b];
    forall w, u | va + 1 <= w < u < va + n ensures !Overwrites(d, t, xlen, r, w, u) {
      OverwritesPoked(dram, t, xlen, r, va, w, u, b);
    }
    forall u | va + 1 <= u < va + n ensures Answered(d, t, xlen, r, u) {
      AnsweredPoked(dram, t, xlen, r, va, u, b);
    }
  }

  lemma OneByte(dram: seq<byte>, i: nat, v: nat)
    requires i < |dram|
    ensures WriteLE(dram, i, 1, v) == dram[i := v % 256]
  {
  }

  lemma FirstAnswered(dram: seq<byte>, t: Cache, xlen: Xlen, r: Regs, va: nat, n: nat)
    requires n > 0 && AllAnswered(dram, t, xlen, r, va, n)
    ensures Cached(dram, t, xlen, r, va, Access.Store) == (Ok(Base(t, va, Access.Store)), dram, t)
    ensures Translate(dram, xlen, r, va, Access.Store) == (Ok(Base(t, va, Access.Store)), dram)
  {
    hide Cached, Translate, Present, MmuTheory.Settled;
    assert Answered(dram, t, xlen, r, va);
    PresentBase(dram, t, xlen, r, va, Access.Store);
    SettledUnchanged(dram, xlen, r, va, Access.Store);
  }

  /** A store apart from its own tables leaves its second pass undisturbed. */
  lemma {:induction false} ApartUndisturbed(dram: seq<byte>, t: Cache, xlen: Xlen, r: Regs, va: nat, n: nat, v: nat)
    requires Apart(dram, t, xlen, r, va, n) && AllAnswered(dram, t, xlen, r, va, n)
    ensures Undisturbed(dram, t, xlen, r, va, n, v)
    decreases n
  {
    hide Cached, Translate, Present, Apart, AllAnswered, Base;
    if n > 0 {
      FirstAnswered(dram, t, xlen, r, va, n);
      var pa := Base(t, va, Access.Store);
      if DRAM_BASE <= pa < DRAM_BASE + |dram| {
        OneByte(dram, pa - DRAM_BASE, v);
        ApartPoked(dram, t, xlen, r, va, n, v % 256);
        ApartUndisturbed(dram[pa - DRAM_BASE := v % 256], t, xlen, r, va + 1, n - 1, v / 256);
      }
    }
  }

  predicate AllPresent(t: Cache, r: Regs, va: nat, n: nat) {
    forall w :: va <= w < va + n ==> Present(t, r, w, Access.Store)
  }

  /** The second pass through the cache, if undisturbed, is a second pass of walks. */
  lemma {:induction false} StoreBytesTransparent(dram: seq<byte>, t: Cache, xlen: Xlen, r: Regs, va: nat, n: nat,
                                                 v: nat)
    requires AllPresent(t, r, va, n) && Undisturbed(dram, t, xlen, r, va, n, v)
    ensures var s := StoreBytes(dram, t, xlen, r, va, n, v);
            (s.done, s.dram) == WalkedStoreBytes(dram, xlen, r, va, n, v)
    decreases n
  {
    hide Cached, Translate, Present, Base, WriteLE;
    if n > 0 {
      PresentBase(dram, t, xlen, r, va, Access.Store);
      var first := StoreOnce(dram, t, xlen, r, va, 1, v);
      if first.done.Value? { StoreBytesTransparent(first.dram, t, xlen, r, va + 1, n - 1, v / 256); }
    }
  }

  /** What the second pass does at each byte: the translation it gets, and the memory after it. */
  function CachedSteps(dram: seq<byte>, t: Cache, xlen: Xlen, r: Regs, va: nat, n: nat, v: nat): seq<(Res, seq<byte>)>
    decreases n
  {
    if n == 0 then []
    else
      var (res, after, _) := Cached(dram, t, xlen, r, va, Access.Store);
      var first := StoreOnce(dram, t, xlen, r, va, 1, v);
      [(res, after)] +
      if first.done.Value? then CachedSteps(first.dram, first.tlb, xlen, r, va + 1, n - 1, v / 256) else []
  }

  /** The same with a walk at each byte. */
  function WalkedSteps(dram: seq<byte>, xlen: Xlen, r: Regs, va: nat, n: nat, v: nat): seq<(Res, seq<byte>)>
    decreases n
  {
    if n == 0 then []
    else
      var (first, after) := WalkedStoreOnce(dram, xlen, r, va, 1, v);
      [Translate(dram, xlen, r, va, Access.Store)] +
      if first.Value? then WalkedSteps(after, xlen, r, va + 1, n - 1, v / 256) else []
  }

  lemma FirstStep(dram: seq<byte>, t: Cache, xlen: Xlen, r: Regs, va: nat, v: nat)
    requires Present(t, r, va, Access.Store)
    requires Translate(dram, xlen, r, va, Access.Store) == (Ok(Base(t, va, Access.Store)), dram)
    ensures var first := StoreOnce(dram, t, xlen, r, va, 1, v);
            (first.done, first.dram) == WalkedStoreOnce(dram, xlen, r, va, 1, v) && first.tlb == t
  {
    hide Translate, Cached, Present, Base, WriteLE;
    PresentBase(dram, t, xlen, r, va, Access.Store);
  }

  /** The two second passes use the same address from the same memory at every byte if and only if the
      cached one is undisturbed. */
  lemma {:induction false} SecondPassExact(dram: seq<byte>, t: Cache, xlen: Xlen, r: Regs, va: nat, n: nat, v: nat)
    requires AllPresent(t, r, va, n)
    ensures CachedSteps(dram, t, xlen, r, va, n, v) == WalkedSteps(dram, xlen, r, va, n, v) <==>
            Undisturbed(dram, t, xlen, r, va, n, v)
    decreases n
  {
    hide Translate, Cached, Present, Base, StoreOnce, WalkedStoreOnce;
    if n > 0 {
      PresentBase(dram, t, xlen, r, va, Access.Store);
      var cached, walked := CachedSteps(dram, t, xlen, r, va, n, v), WalkedSteps(dram, xlen, r, va, n, v);
      if cached[0] == walked[0] {
        FirstStep(dram, t, xlen, r, va, v);
        var first := StoreOnce(dram, t, xlen, r, va, 1, v);
        if first.done.Value? {
          SecondPassExact(first.dram, t, xlen, r, va + 1, n - 1, v / 256);
          assert cached[1..] == CachedSteps(first.dram, t, xlen, r, va + 1, n - 1, v / 256);
          assert walked[1..] == WalkedSteps(first.dram, xlen, r, va + 1, n - 1, v / 256);
        }
      }
    }
  }

  /** A store ends alike and leaves the memory that it would with a walk for every translation, if the
      second pass of a crossing store is undisturbed. */
  lemma StoreTransparent(dram: seq<byte>, t: Cache, p: Fillers, xlen: Xlen, book: Book, r: Regs, va: nat, size: nat,
                         v: nat)
    requires CacheOk(dram, t, p, xlen, book) && 1 <= size <= 8 && AllUsable(t, p, xlen, book, r, va, size, Access.Store)
    requires var q := Probe(dram, t, xlen, r, va, size);
             va % PAGE + size > PAGE && q.done.Value? ==> Undisturbed(q.dram, q.tlb, xlen, r, va, size, v)
    ensures var s := PagedAccess.Store(dram, t, xlen, r, va, size, v);
            (s.done, s.dram) == WalkedStore(dram, xlen, r, va, size, v)
  {
    hide CacheOk, Cached, Translate, AllUsable, AfterTouch, FillersAfter, AllPresent, Undisturbed, Probe, WalkedProbe,
         StoreBytes, WalkedStoreBytes, WriteLE;
    if va % PAGE + size <= PAGE {
      TouchUsable(dram, t, p, xlen, book, r, va, size, Access.Store);
    } else {
      ProbeTransparent(dram, t, p, xlen, book, r, va, va, size);
      var q := Probe(dram, t, xlen, r, va, size);
      if q.done.Value? {
        AnsweredPresent(q.dram, q.tlb, xlen, r, va, size);
        StoreBytesTransparent(q.dram, q.tlb, xlen, r, va, size, v);
      }
    }
  }

  lemma AnsweredPresent(dram: seq<byte>, t: Cache, xlen: Xlen, r: Regs, va: nat, n: nat)
    requires AllAnswered(dram, t, xlen, r, va, n)
    ensures AllPresent(t, r, va, n)
  {
    hide Present, Answers;
    forall w | va <= w < va + n ensures Present(t, r, w, Access.Store) {
      assert Answered(dram, t, xlen, r, w);
    }
  }

  /** In particular if no byte it writes belongs to an entry that translates a later one. */
  lemma ApartTransparent(dram: seq<byte>, t: Cache, p: Fillers, xlen: Xlen, book: Book, r: Regs, va: nat, size: nat,
                         v: nat)
    requires CacheOk(dram, t, p, xlen, book) && 1 <= size <= 8 && AllUsable(t, p, xlen, book, r, va, size, Access.Store)
    requires var q := Probe(dram, t, xlen, r, va, size);
             va % PAGE + size > PAGE && q.done.Value? ==> Apart(q.dram, q.tlb, xlen, r, va, size)
    ensures var s := PagedAccess.Store(dram, t, xlen, r, va, size, v);
            (s.done, s.dram) == WalkedStore(dram, xlen, r, va, size, v)
  {
    hide CacheOk, AllUsable, AllAnswered, Apart, Undisturbed, Probe, WalkedProbe, PagedAccess.Store, WalkedStore;
    var q := Probe(dram, t, xlen, r, va, size);
    if va % PAGE + size > PAGE && q.done.Value? {
      ProbeTransparent(dram, t, p, xlen, book, r, va, va, size);
      ApartUndisturbed(q.dram, q.tlb, xlen, r, va, size, v);
    }
    StoreTransparent(dram, t, p, xlen, book, r, va, size, v);
  }
}
