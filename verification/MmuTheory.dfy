/** What a page walk guarantees: stability under accessed and dirty updates, at most one entry
    changed, idempotence and contiguity of every leaf. */
module MmuTheory {
  import opened Arithmetic
  import opened Basics
  import opened Mmu

  function PteSizeOf(xlen: Xlen): nat { if xlen.Rv32? then 4 else 8 }

  /** Every check and every address a walk takes from an entry ignores its A and D bits. */
  lemma GrownFlags(p: nat, q: nat)
    requires Grown(p, q)
    ensures V(p) == V(q) && R(p) == R(q) && W(p) == W(q) && X(p) == X(q) && U(p) == U(q)
    ensures p / 1024 == q / 1024
  {
    SixBits(p);
    SixBits(q);
    Quarter(p);
    Quarter(q);
    hide V, R, W, X, U;
  }

  lemma SixBits(p: nat)
    ensures V(p) == V(p % 64) && R(p) == R(p % 64) && W(p) == W(p % 64) && X(p) == X(p % 64) && U(p) == U(p % 64)
  {
    BitZero(p);
    BitOne(p);
    BitTwo(p);
    BitThree(p);
    BitFour(p);
  }

  lemma BitZero(p: nat)
    ensures p % 2 == p % 64 % 2
  {
    EvenPlus(32 * (p / 64), p % 64);
  }

  lemma BitOne(p: nat)
    ensures p / 2 % 2 == p % 64 / 2 % 2
  {
    var q, r := p / 64, p % 64;
    DivModUnique(p, 2, 32 * q + r / 2, r % 2);
    EvenPlus(16 * q, r / 2);
  }

  lemma BitTwo(p: nat)
    ensures p / 4 % 2 == p % 64 / 4 % 2
  {
    var q, r := p / 64, p % 64;
    DivModUnique(p, 4, 16 * q + r / 4, r % 4);
    EvenPlus(8 * q, r / 4);
  }

  lemma BitThree(p: nat)
    ensures p / 8 % 2 == p % 64 / 8 % 2
  {
    var q, r := p / 64, p % 64;
    DivModUnique(p, 8, 8 * q + r / 8, r % 8);
    EvenPlus(4 * q, r / 8);
  }

  lemma BitFour(p: nat)
    ensures p / 16 % 2 == p % 64 / 16 % 2
  {
    var q, r := p / 64, p % 64;
    DivModUnique(p, 16, 4 * q + r / 16, r % 16);
    EvenPlus(2 * q, r / 16);
  }

  lemma Quarter(p: nat)
    ensures p / 1024 == p / 256 / 4
  {
  }

  predicate SameWalk(a: Walk, b: Walk) {
    match a
    case Fault => b.Fault?
    case InDevice => b.InDevice?
    case Leaf(level, at, pte) => b.Leaf? && b.level == level && b.at == at && Grown(pte, b.pte)
  }

  lemma ReadEvolved(dram: seq<byte>, dram2: seq<byte>, addr: nat, size: nat)
    requires (size == 4 || size == 8) && Evolved(dram, dram2, size) && addr % size == 0
    ensures var a, b := ReadPhysical(dram, addr, size), ReadPhysical(dram2, addr, size);
            if a.Data? then b.Data? && Grown(a.v, b.v) else a == b
  {
    hide LittleEndian, Grown;
    if addr >= DRAM_BASE && Index(dram, addr, size).Some? {
      EntryGrown(dram, dram2, size, addr - DRAM_BASE);
    }
  }

  /** A walk takes the same path through tables that changed only by accessed and dirty updates. */
  lemma {:induction false} WalkEvolved(dram: seq<byte>, dram2: seq<byte>, s: Scheme, frame: nat, level: nat, va: nat)
    requires !s.Bare? && Evolved(dram, dram2, s.PteSize())
    ensures SameWalk(WalkFrom(dram, s, frame * PAGE, level, va), WalkFrom(dram2, s, frame * PAGE, level, va))
    decreases level
  {
    hide LittleEndian, Grown, Evolved, Vpn, PteAt, ReadPhysical, V, R, W, X, U;
    var at := PteAt(s, frame * PAGE, level, va);
    PteAligned(s, frame, level, va);
    ReadEvolved(dram, dram2, at, s.PteSize());
    var a, b := ReadPhysical(dram, at, s.PteSize()), ReadPhysical(dram2, at, s.PteSize());
    if a.Data? {
      GrownFlags(a.v, b.v);
      if level > 0 { WalkEvolved(dram, dram2, s, Ppn(s, a.v), level - 1, va); }
    }
  }

  lemma GrownBits(p: nat, q: nat, access: Access)
    requires Grown(p, q) && HasBits(p, access)
    ensures HasBits(q, access)
  {
    hide A, D;
  }

  lemma GrownUse(s: Scheme, level: nat, p: nat, q: nat, eff: Priv, sum: bool, mxr: bool, access: Access, va: nat)
    requires Grown(p, q)
    ensures Permitted(p, eff, sum, mxr, access) == Permitted(q, eff, sum, mxr, access)
    ensures Ppn(s, p) == Ppn(s, q) && Splice(s, level, p, va) == Splice(s, level, q, va)
  {
    GrownFlags(p, q);
    hide V, R, W, X, U;
  }

  lemma SizeOfScheme(r: Regs, xlen: Xlen)
    ensures var s := SchemeOf(r.satp, xlen); !s.Bare? ==> s.PteSize() == PteSizeOf(xlen)
  {
  }

  /** Accessed and dirty updates made by any walks change no translation, and one that needed no
      update of its own still needs none. */
  lemma TranslateEvolved(dram: seq<byte>, dram2: seq<byte>, xlen: Xlen, r: Regs, va: nat, access: Access)
    requires Evolved(dram, dram2, PteSizeOf(xlen))
    ensures Translate(dram2, xlen, r, va, access).0 == Translate(dram, xlen, r, va, access).0
    ensures Settled(dram, xlen, r, va, access) ==> Settled(dram2, xlen, r, va, access)
  {
    SizeOfScheme(r, xlen);
    var s := SchemeOf(r.satp, xlen);
    hide Evolved, SchemeOf, WalkFrom, Splice, Ppn, Permitted, HasBits, Grown;
    if !s.Bare? {
      WalkEvolved(dram, dram2, s, r.satp % s.PpnModulus(), s.Levels() - 1, va);
      LeafInDram(dram, s, (r.satp % s.PpnModulus()) * PAGE, s.Levels() - 1, va);
      LeafInDram(dram2, s, (r.satp % s.PpnModulus()) * PAGE, s.Levels() - 1, va);
      var w := RootWalk(dram, s, r.satp, va);
      var w2 := RootWalk(dram2, s, r.satp, va);
      if w.Leaf? {
        GrownUse(s, w.level, w.pte, w2.pte, Effective(r, access), r.sum, r.mxr, access, va);
        if HasBits(w.pte, access) { GrownBits(w.pte, w2.pte, access); }
      }
    }
  }

  /** The translation finds every bit it would set already set. */
  predicate Settled(dram: seq<byte>, xlen: Xlen, r: Regs, va: nat, access: Access) {
    var s := SchemeOf(r.satp, xlen);
    s.Bare? || Effective(r, access).Machine? ||
    (var w := RootWalk(dram, s, r.satp, va); w.Leaf? ==> HasBits(w.pte, access))
  }

  lemma SettledUnchanged(dram: seq<byte>, xlen: Xlen, r: Regs, va: nat, access: Access)
    requires Settled(dram, xlen, r, va, access)
    ensures Translate(dram, xlen, r, va, access).1 == dram
  {
    hide SchemeOf, WalkFrom, Splice, Ppn, Permitted, HasBits, Canonical;
  }

  lemma SetBitsGrown(b: byte, access: Access)
    ensures Grown(b, SetBits(b, access)) && HasBits(SetBits(b, access), access)
    ensures D(SetBits(b, access)) ==> D(b) || access.Store?
    ensures b / 64 % 2 == 1 && (access.Store? ==> b / 128 % 2 == 1) ==> SetBits(b, access) == b
  {
  }

  /** Marking an entry changes only its low byte, and only by adding A, or A and D for a store. */
  lemma MarkEffect(dram: seq<byte>, i: nat, access: Access, size: nat)
    requires i < |dram| && size > 0 && i % size == 0
    ensures var after := Mark(dram, i, access);
            Evolved(dram, after, size) && |after| == |dram| &&
            (forall k :: 0 <= k < |dram| && k != i ==> after[k] == dram[k]) &&
            Grown(dram[i], after[i]) && A(after[i]) && (D(after[i]) ==> D(dram[i]) || access.Store?)
  {
    SetBitsGrown(dram[i], access);
    hide SetBits;
    GrownSelf(dram, size);
  }

  /** The one byte a translation may change. */
  ghost predicate OneEntryMarked(dram: seq<byte>, after: seq<byte>, xlen: Xlen, r: Regs, va: nat, access: Access) {
    var s := SchemeOf(r.satp, xlen);
    !s.Bare? &&
    var w := RootWalk(dram, s, r.satp, va);
    w.Leaf? && DRAM_BASE <= w.at && w.at - DRAM_BASE < |dram| == |after| &&
    var i := w.at - DRAM_BASE;
    (forall k :: 0 <= k < |dram| && k != i ==> after[k] == dram[k]) &&
    Grown(dram[i], after[i]) && A(after[i]) && (D(after[i]) ==> D(dram[i]) || access.Store?)
  }

  /** A translation changes at most one byte of memory: the low byte of the leaf entry it used,
      which gains A, and gains D only for a store. A fault changes nothing. */
  lemma TranslateEffect(dram: seq<byte>, xlen: Xlen, r: Regs, va: nat, access: Access)
    ensures var (res, after) := Translate(dram, xlen, r, va, access);
            Evolved(dram, after, PteSizeOf(xlen)) && (!res.Ok? ==> after == dram) &&
            (after != dram ==> OneEntryMarked(dram, after, xlen, r, va, access))
  {
    hide SchemeOf, WalkFrom, Splice, Ppn, Permitted, A, D, LittleEndian, Canonical, Mark, Grown, HasBits, Evolved;
    SizeOfScheme(r, xlen);
    var s := SchemeOf(r.satp, xlen);
    GrownSelf(dram, PteSizeOf(xlen));
    if !s.Bare? {
      LeafInDram(dram, s, (r.satp % s.PpnModulus()) * PAGE, s.Levels() - 1, va);
      LeafAligned(dram, s, r.satp % s.PpnModulus(), s.Levels() - 1, va);
      var w := RootWalk(dram, s, r.satp, va);
      if w.Leaf? {
        AlignedOffset(w.at, s.PteSize());
        MarkEffect(dram, w.at - DRAM_BASE, access, s.PteSize());
      }
    }
  }

  lemma GrownSelf(dram: seq<byte>, size: nat)
    requires size > 0
    ensures Evolved(dram, dram, size)
  {
  }

  lemma AlignedOffset(at: nat, size: nat)
    requires at >= DRAM_BASE && (size == 4 || size == 8) && at % size == 0
    ensures (at - DRAM_BASE) % size == 0
  {
  }

  /** Marking an entry sets the bits it lacked. */
  lemma MarkSets(dram: seq<byte>, i: nat, size: nat, access: Access)
    requires size > 0 && i + size <= |dram|
    ensures HasBits(LittleEndian(Mark(dram, i, access)[i..i + size]), access)
  {
    hide SetBits, HasBits, LittleEndian;
    var after := Mark(dram, i, access);
    SetBitsGrown(dram[i], access);
    assert after[i..i + size][0] == SetBits(dram[i], access);
    LowBits(after[i..i + size], access);
  }

  /** The leaf of a walk after its own translation. */
  lemma LeafAfter(dram: seq<byte>, after: seq<byte>, s: Scheme, root: nat, va: nat)
    requires !s.Bare? && Evolved(dram, after, s.PteSize()) && WalkFrom(dram, s, root * PAGE, s.Levels() - 1, va).Leaf?
    ensures var w, w2 :=
            WalkFrom(dram, s, root * PAGE, s.Levels() - 1, va), WalkFrom(after, s, root * PAGE, s.Levels() - 1, va);
            w2.Leaf? && w2.at == w.at && DRAM_BASE <= w.at && w.at - DRAM_BASE + s.PteSize() <= |dram| == |after| &&
            w2.pte == LittleEndian(after[w.at - DRAM_BASE..w.at - DRAM_BASE + s.PteSize()])
  {
    hide WalkFrom, LittleEndian, Grown;
    WalkEvolved(dram, after, s, root, s.Levels() - 1, va);
    LeafInDram(dram, s, root * PAGE, s.Levels() - 1, va);
    LeafInDram(after, s, root * PAGE, s.Levels() - 1, va);
  }

  /** After a successful translation the bits it needs are set. */
  lemma TranslateSettles(dram: seq<byte>, xlen: Xlen, r: Regs, va: nat, access: Access)
    requires Translate(dram, xlen, r, va, access).0.Ok?
    ensures Settled(Translate(dram, xlen, r, va, access).1, xlen, r, va, access)
  {
    hide SchemeOf, WalkFrom, Splice, Ppn, Permitted, HasBits, Canonical, Mark, Evolved, LittleEndian;
    TranslateEffect(dram, xlen, r, va, access);
    SizeOfScheme(r, xlen);
    var s := SchemeOf(r.satp, xlen);
    var after := Translate(dram, xlen, r, va, access).1;
    if !s.Bare? && !Effective(r, access).Machine? {
      var w := RootWalk(dram, s, r.satp, va);
      LeafAfter(dram, after, s, r.satp % s.PpnModulus(), va);
      if !HasBits(w.pte, access) { MarkSets(dram, w.at - DRAM_BASE, s.PteSize(), access); }
    }
  }

  /** Repeating a successful translation gives the same address and no further change. */
  lemma TranslateIdempotent(dram: seq<byte>, xlen: Xlen, r: Regs, va: nat, access: Access)
    requires Translate(dram, xlen, r, va, access).0.Ok?
    ensures var (res, after) := Translate(dram, xlen, r, va, access);
            Translate(after, xlen, r, va, access) == (res, after)
  {
    TranslateEffect(dram, xlen, r, va, access);
    hide Translate, Evolved;
    var after := Translate(dram, xlen, r, va, access).1;
    TranslateEvolved(dram, after, xlen, r, va, access);
    TranslateSettles(dram, xlen, r, va, access);
    SettledUnchanged(after, xlen, r, va, access);
  }

  // ---------------------------------------------------------------------------------------
  // Rights

  lemma {:induction false} LeafNotReserved(dram: seq<byte>, s: Scheme, table: nat, level: nat, va: nat)
    ensures var w := WalkFrom(dram, s, table, level, va);
            w.Leaf? ==> V(w.pte) && (W(w.pte) ==> R(w.pte)) && (R(w.pte) || X(w.pte))
    decreases level
  {
    hide LittleEndian, Vpn, Ppn, PteAt, V, R, W, X;
    var pte := ReadPhysical(dram, PteAt(s, table, level, va), s.PteSize());
    hide ReadPhysical;
    if pte.Data? && level > 0 { LeafNotReserved(dram, s, Ppn(s, pte.v) * PAGE, level - 1, va); }
  }

  /** What a walk's end means for an access. */
  function AtEnd(s: Scheme, w: Walk, eff: Priv, sum: bool, mxr: bool, access: Access, va: nat): Res {
    if w.Fault? then PageFault
    else if w.InDevice? then DeviceTable
    else if !Permitted(w.pte, eff, sum, mxr, access) || Ppn(s, w.pte) % s.Pages(w.level) != 0 then PageFault
    else Ok(Splice(s, w.level, w.pte, va))
  }

  lemma OutcomeAtEnd(dram: seq<byte>, xlen: Xlen, r: Regs, va: nat, access: Access)
    requires var s := SchemeOf(r.satp, xlen); !s.Bare? && !Effective(r, access).Machine? && Canonical(s, va)
    ensures var s := SchemeOf(r.satp, xlen);
            Translate(dram, xlen, r, va, access).0 ==
            AtEnd(s, RootWalk(dram, s, r.satp, va), Effective(r, access), r.sum, r.mxr, access, va)
  {
    hide SchemeOf, WalkFrom, Splice, Ppn, Permitted, HasBits, Canonical, Mark, LittleEndian;
    var s := SchemeOf(r.satp, xlen);
    LeafInDram(dram, s, (r.satp % s.PpnModulus()) * PAGE, s.Levels() - 1, va);
  }

  lemma OutcomeWithout(dram: seq<byte>, xlen: Xlen, r: Regs, va: nat, access: Access)
    requires var s := SchemeOf(r.satp, xlen); s.Bare? || Effective(r, access).Machine? || !Canonical(s, va)
    ensures var s := SchemeOf(r.satp, xlen);
            Translate(dram, xlen, r, va, access).0 ==
            if s.Bare? || Effective(r, access).Machine? then Ok(va) else PageFault
  {
    hide SchemeOf, WalkFrom, Canonical;
  }

  lemma PermittedOrder(pte: nat, eff: Priv, sum: bool, mxr: bool, sum2: bool, mxr2: bool)
    requires (W(pte) ==> R(pte)) && (sum ==> sum2) && (mxr ==> mxr2)
    ensures Permitted(pte, eff, sum, mxr, Access.Store) ==>
            Permitted(pte, eff, sum, mxr, Access.Load) && Permitted(pte, eff, sum2, mxr2, Access.Store)
    ensures Permitted(pte, eff, sum, mxr, Access.Load) ==> Permitted(pte, eff, sum2, mxr2, Access.Load)
  {
    hide V, R, W, X, U;
  }

  lemma EndsOrdered(s: Scheme, w: Walk, eff: Priv, sum: bool, mxr: bool, sum2: bool, mxr2: bool, va: nat)
    requires (w.Leaf? && W(w.pte) ==> R(w.pte)) && (sum ==> sum2) && (mxr ==> mxr2)
    ensures var store, load :=
            AtEnd(s, w, eff, sum, mxr, Access.Store, va), AtEnd(s, w, eff, sum, mxr, Access.Load, va);
            (store.Ok? ==> load == store && AtEnd(s, w, eff, sum2, mxr2, Access.Store, va) == store) &&
            (load.Ok? ==> AtEnd(s, w, eff, sum2, mxr2, Access.Load, va) == load)
  {
    hide Permitted, Ppn, Splice, W, R;
    if w.Leaf? { PermittedOrder(w.pte, eff, sum, mxr, sum2, mxr2); }
  }

  /** Rights are ordered: what can be stored to can be loaded from, at the same address, and
      setting SUM or MXR takes no load or store away. */
  lemma RightsAreOrdered(dram: seq<byte>, xlen: Xlen, r: Regs, r2: Regs, va: nat)
    requires r2 == r.(sum := r2.sum, mxr := r2.mxr) && (r.sum ==> r2.sum) && (r.mxr ==> r2.mxr)
    ensures var store, load :=
            Translate(dram, xlen, r, va, Access.Store).0, Translate(dram, xlen, r, va, Access.Load).0;
            (store.Ok? ==> load == store && Translate(dram, xlen, r2, va, Access.Store).0 == store) &&
            (load.Ok? ==> Translate(dram, xlen, r2, va, Access.Load).0 == load)
  {
    hide Translate, SchemeOf, WalkFrom, Canonical, AtEnd, W, R, V, X;
    var s := SchemeOf(r.satp, xlen);
    if s.Bare? || Effective(r, Access.Load).Machine? || !Canonical(s, va) {
      OutcomeWithout(dram, xlen, r, va, Access.Store);
      OutcomeWithout(dram, xlen, r, va, Access.Load);
      OutcomeWithout(dram, xlen, r2, va, Access.Store);
      OutcomeWithout(dram, xlen, r2, va, Access.Load);
    } else {
      OutcomeAtEnd(dram, xlen, r, va, Access.Store);
      OutcomeAtEnd(dram, xlen, r, va, Access.Load);
      OutcomeAtEnd(dram, xlen, r2, va, Access.Store);
      OutcomeAtEnd(dram, xlen, r2, va, Access.Load);
      LeafNotReserved(dram, s, (r.satp % s.PpnModulus()) * PAGE, s.Levels() - 1, va);
      EndsOrdered(s, RootWalk(dram, s, r.satp, va), Effective(r, Access.Load), r.sum, r.mxr, r2.sum, r2.mxr, va);
    }
  }

  // ---------------------------------------------------------------------------------------
  // Contiguity

  /** The number of the level-sized span that contains va. */
  function Span(s: Scheme, level: nat, va: nat): nat { va / PAGE / s.Pages(level) }

  lemma SpanVpn(s: Scheme, leaf: nat, level: nat, va: nat, va2: nat)
    requires !s.Bare? && leaf <= level && level < s.Levels() && Span(s, leaf, va) == Span(s, leaf, va2)
    ensures forall table: nat :: PteAt(s, table, level, va) == PteAt(s, table, level, va2)
  {
    Coarser(va / PAGE);
    Coarser(va2 / PAGE);
    assert Vpn(s, level, va) == Vpn(s, level, va2);
    hide Vpn;
  }

  lemma Coarser(x: nat)
    ensures x / 512 / 512 == x / 262144 && x / 1 == x
  {
  }

  lemma {:induction false} WalkSameSpan(dram: seq<byte>, s: Scheme, table: nat, level: nat, va: nat, va2: nat)
    requires !s.Bare? && level < s.Levels() && WalkFrom(dram, s, table, level, va).Leaf?
    requires Span(s, WalkFrom(dram, s, table, level, va).level, va) ==
             Span(s, WalkFrom(dram, s, table, level, va).level, va2)
    ensures WalkFrom(dram, s, table, level, va2) == WalkFrom(dram, s, table, level, va)
    decreases level
  {
    hide V, R, W, X, LittleEndian, Ppn, Span, Vpn, PteAt;
    LeafInDram(dram, s, table, level, va);
    var w := WalkFrom(dram, s, table, level, va);
    SpanVpn(s, w.level, level, va, va2);
    assert PteAt(s, table, level, va) == PteAt(s, table, level, va2);
    var pte := ReadPhysical(dram, PteAt(s, table, level, va), s.PteSize());
    hide ReadPhysical;
    if !R(pte.v) && !X(pte.v) {
      WalkSameSpan(dram, s, Ppn(s, pte.v) * PAGE, level - 1, va, va2);
    }
  }

  lemma SpliceContiguous(s: Scheme, level: nat, pte: nat, va: nat, va2: nat)
    requires Span(s, level, va) == Span(s, level, va2)
    ensures Splice(s, level, pte, va2) - Splice(s, level, pte, va) == va2 - va
  {
    var n, base := s.Pages(level), Ppn(s, pte) - Ppn(s, pte) % s.Pages(level);
    hide Ppn;
    assert va / PAGE == Span(s, level, va) * n + (va / PAGE) % n;
    assert va2 / PAGE == Span(s, level, va2) * n + (va2 / PAGE) % n;
  }

  /** A translated address is the leaf's frame plus the offset within the leaf's span. */
  lemma SpliceOffset(s: Scheme, level: nat, pte: nat, va: nat)
    requires Ppn(s, pte) % s.Pages(level) == 0
    ensures Splice(s, level, pte, va) == Ppn(s, pte) * PAGE + va % (s.Pages(level) * PAGE)
  {
    var n := s.Pages(level);
    hide Ppn;
    SplitModulus(va, n);
  }

  lemma SplitModulus(va: nat, n: nat)
    requires n > 0
    ensures va % (n * PAGE) == (va / PAGE) % n * PAGE + va % PAGE
  {
    var q := va / PAGE;
    assert va == (q / n * n + q % n) * PAGE + va % PAGE;
    DivModUnique(va, n * PAGE, q / n, q % n * PAGE + va % PAGE);
  }

  lemma Below(va: nat, t: nat)
    ensures va < t * 0x4000_0000 <==> va / PAGE / 262144 < t
  {
    var q := va / PAGE / 262144;
    assert q * 0x4000_0000 <= va < (q + 1) * 0x4000_0000;
  }

  lemma CanonicalSpan(s: Scheme, level: nat, va: nat, va2: nat)
    requires !s.Bare? && level < s.Levels() && Span(s, level, va) == Span(s, level, va2)
    ensures Canonical(s, va) == Canonical(s, va2)
  {
    if s.Sv39? {
      Coarser(va / PAGE);
      Coarser(va2 / PAGE);
      assert va / PAGE / 262144 == va2 / PAGE / 262144;
      Below(va, 256);
      Below(va2, 256);
      Below(va, 0x4_0000_0000 - 256);
      Below(va2, 0x4_0000_0000 - 256);
    }
  }

  /** Each leaf maps its whole span contiguously from its frame: any address of the span
      translates, and by the same displacement. */
  lemma LeafContiguous(dram: seq<byte>, xlen: Xlen, r: Regs, va: nat, va2: nat, access: Access)
    requires var s := SchemeOf(r.satp, xlen);
             !s.Bare? && !Effective(r, access).Machine? && Translate(dram, xlen, r, va, access).0.Ok? &&
             Span(s, RootWalk(dram, s, r.satp, va).level, va) == Span(s, RootWalk(dram, s, r.satp, va).level, va2)
    ensures var a, b := Translate(dram, xlen, r, va, access).0, Translate(dram, xlen, r, va2, access).0;
            b.Ok? && b.pa - a.pa == va2 - va
    ensures var s := SchemeOf(r.satp, xlen);
            var w := RootWalk(dram, s, r.satp, va);
            Translate(dram, xlen, r, va, access).0 == Ok(Ppn(s, w.pte) * PAGE + va % (s.Pages(w.level) * PAGE))
  {
    var s := SchemeOf(r.satp, xlen);
    hide SchemeOf, WalkFrom, Permitted, Ppn, HasBits, LittleEndian, Span, Canonical, Splice;
    LeafInDram(dram, s, (r.satp % s.PpnModulus()) * PAGE, s.Levels() - 1, va);
    var w := RootWalk(dram, s, r.satp, va);
    WalkSameSpan(dram, s, (r.satp % s.PpnModulus()) * PAGE, s.Levels() - 1, va, va2);
    SpliceContiguous(s, w.level, w.pte, va, va2);
    SpliceOffset(s, w.level, w.pte, va);
    CanonicalSpan(s, w.level, va, va2);
  }
}
