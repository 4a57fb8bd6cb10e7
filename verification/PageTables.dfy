/** What page tables mean, said without the walk: a page is mapped by a path of entries, one read
    from each table, and its last entry's bits say who may do what. */
module PageTables {
  import opened Basics
  import opened Mmu
  import opened MmuTheory

  /** The number of tables on a full path. */
  function Depth(xlen: Xlen): nat { if xlen.Rv32? then 2 else 3 }

  predicate Paging(xlen: Xlen, satp: nat) {
    if xlen.Rv32? then satp / 0x8000_0000 == 1 else satp / 0x1000_0000_0000_0000 % 16 == 8
  }

  /** The bits above the translated ones are all equal to the highest of those. */
  predicate SignExtended(xlen: Xlen, va: nat) {
    xlen.Rv64? ==> va / 0x40_0000_0000 == 0 || va / 0x40_0000_0000 == 0x3FF_FFFF
  }

  /** The index into the table at a depth: bits 31:22 and 21:12, or 38:30, 29:21 and 20:12. */
  function Digit(xlen: Xlen, depth: nat, va: nat): nat {
    if xlen.Rv32? then if depth == 0 then va / 0x40_0000 % 1024 else va / 0x1000 % 1024
    else if depth == 0 then va / 0x4000_0000 % 512
    else if depth == 1 then va / 0x20_0000 % 512
    else va / 0x1000 % 512
  }

  /** The bytes that an entry found at a depth maps: a page, or a superpage. */
  function Extent(xlen: Xlen, depth: nat): (n: nat)
    ensures n > 0
  {
    if xlen.Rv32? then if depth == 0 then 0x40_0000 else 0x1000
    else if depth == 0 then 0x4000_0000
    else if depth == 1 then 0x20_0000
    else 0x1000
  }

  function FrameField(xlen: Xlen, v: nat): nat { v % (if xlen.Rv32? then 0x40_0000 else 0x1000_0000_0000) }

  /** The page number in an entry, which starts at bit 10. */
  function FrameOf(xlen: Xlen, pte: nat): nat { FrameField(xlen, pte / 0x400) }

  function EntryAddress(xlen: Xlen, frame: nat, depth: nat, va: nat): nat {
    frame * 0x1000 + Digit(xlen, depth, va) * PteSizeOf(xlen)
  }

  predicate InDram(dram: seq<byte>, at: nat, size: nat) {
    0x8000_0000 <= at && at - 0x8000_0000 + size <= |dram|
  }

  predicate Holds(dram: seq<byte>, xlen: Xlen, at: nat, pte: nat) {
    var size := PteSizeOf(xlen);
    InDram(dram, at, size) && LittleEndian(dram[at - 0x8000_0000..at - 0x8000_0000 + size]) == pte
  }

  /** A bit, by its weight. */
  predicate Flag(pte: nat, weight: nat)
    requires weight > 0
  {
    pte / weight % 2 == 1
  }

  /** Valid, and neither readable, writable nor executable. */
  predicate IsPointer(pte: nat) { Flag(pte, 1) && !Flag(pte, 2) && !Flag(pte, 4) && !Flag(pte, 8) }

  /** Valid and readable or executable; writable only if readable. */
  predicate IsLeaf(pte: nat) {
    Flag(pte, 1) && (Flag(pte, 2) || Flag(pte, 8)) && (Flag(pte, 4) ==> Flag(pte, 2))
  }

  /** The entries met from the table in a frame, at a depth, down to a leaf. */
  predicate Path(dram: seq<byte>, xlen: Xlen, frame: nat, depth: nat, va: nat, path: seq<nat>)
    decreases |path|
  {
    depth < Depth(xlen) && path != [] &&
    Holds(dram, xlen, EntryAddress(xlen, frame, depth, va), path[0]) &&
    if |path| == 1 then IsLeaf(path[0])
    else IsPointer(path[0]) && Path(dram, xlen, FrameOf(xlen, path[0]), depth + 1, va, path[1..])
  }

  /** The frame of the table that the last entry of a path was read from. */
  function LastTable(xlen: Xlen, frame: nat, path: seq<nat>): nat
    requires path != []
  {
    if |path| == 1 then frame else FrameOf(xlen, path[|path| - 2])
  }

  /** A path that satp starts. */
  predicate Mapping(dram: seq<byte>, xlen: Xlen, satp: nat, va: nat, path: seq<nat>) {
    path != [] && Path(dram, xlen, FrameField(xlen, satp), 0, va, path)
  }

  /** What a leaf's bits forbid. */
  predicate Denied(pte: nat, eff: Priv, sum: bool, mxr: bool, access: Access) {
    (access.Fetch? && !Flag(pte, 8)) ||
    (access.Load? && !Flag(pte, 2) && !mxr) ||
    (access.Load? && !Flag(pte, 2) && !Flag(pte, 8)) ||
    (access.Store? && !Flag(pte, 4)) ||
    (eff.User? && !Flag(pte, 16)) ||
    (eff.Supervisor? && Flag(pte, 16) && access.Fetch?) ||
    (eff.Supervisor? && Flag(pte, 16) && !sum)
  }

  // ---------------------------------------------------------------------------------------
  // The walk follows the paths

  lemma SchemePaging(xlen: Xlen, satp: nat)
    ensures Paging(xlen, satp) <==> !SchemeOf(satp, xlen).Bare?
    ensures Paging(xlen, satp) ==> SchemeOf(satp, xlen) == SchemeFor(xlen)
  {
  }

  function SchemeFor(xlen: Xlen): Scheme { if xlen.Rv32? then Sv32 else Sv39 }

  lemma CanonicalMeans(xlen: Xlen, va: nat)
    requires va < 0x1_0000_0000_0000_0000
    ensures SignExtended(xlen, va) <==> Canonical(SchemeFor(xlen), va)
  {
  }

  lemma Nested(va: nat)
    ensures va / 4096 / 1024 == va / 0x40_0000 && va / 4096 / 512 == va / 0x20_0000 &&
            va / 4096 / 262144 == va / 0x4000_0000
  {
  }

  lemma DigitIsVpn(xlen: Xlen, depth: nat, frame: nat, va: nat)
    requires depth < Depth(xlen)
    ensures PteAt(SchemeFor(xlen), frame * PAGE, Depth(xlen) - 1 - depth, va) == EntryAddress(xlen, frame, depth, va)
  {
    Nested(va);
  }

  lemma BitsMean(pte: nat)
    ensures V(pte) == Flag(pte, 1) && R(pte) == Flag(pte, 2) && W(pte) == Flag(pte, 4) && X(pte) == Flag(pte, 8) &&
            U(pte) == Flag(pte, 16)
  {
  }

  lemma FrameIsPpn(xlen: Xlen, pte: nat)
    ensures Ppn(SchemeFor(xlen), pte) == FrameOf(xlen, pte)
  {
  }

  lemma HoldsIsRead(dram: seq<byte>, xlen: Xlen, at: nat, pte: nat)
    ensures Holds(dram, xlen, at, pte) <==> ReadPhysical(dram, at, SchemeFor(xlen).PteSize()) == Data(pte)
  {
    hide LittleEndian;
  }

  /** One step of the walk. */
  lemma StepMeans(dram: seq<byte>, xlen: Xlen, frame: nat, depth: nat, va: nat, pte: nat)
    requires depth < Depth(xlen) && Holds(dram, xlen, EntryAddress(xlen, frame, depth, va), pte)
    ensures var s, level := SchemeFor(xlen), Depth(xlen) - 1 - depth;
            WalkFrom(dram, s, frame * PAGE, level, va) ==
            if IsLeaf(pte) then Leaf(level, EntryAddress(xlen, frame, depth, va), pte)
            else if IsPointer(pte) && level > 0 then WalkFrom(dram, s, FrameOf(xlen, pte) * PAGE, level - 1, va)
            else Walk.Fault
  {
    hide Flag, Holds, EntryAddress, ReadPhysical, PteAt, Ppn, V, R, W, X, U, FrameOf;
    DigitIsVpn(xlen, depth, frame, va);
    HoldsIsRead(dram, xlen, EntryAddress(xlen, frame, depth, va), pte);
    BitsMean(pte);
    FrameIsPpn(xlen, pte);
  }

  /** The walk ends at the leaf of any path. */
  lemma {:induction false} WalkOfPath(dram: seq<byte>, xlen: Xlen, frame: nat, depth: nat, va: nat, path: seq<nat>)
    requires Path(dram, xlen, frame, depth, va, path)
    ensures path != [] && depth + |path| <= Depth(xlen)
    ensures WalkFrom(dram, SchemeFor(xlen), frame * PAGE, Depth(xlen) - 1 - depth, va) ==
            Leaf(Depth(xlen) - depth - |path|,
                 EntryAddress(xlen, LastTable(xlen, frame, path), depth + |path| - 1, va), path[|path| - 1])
    decreases |path|
  {
    hide Flag, Holds, EntryAddress, WalkFrom, FrameOf, IsLeaf;
    StepMeans(dram, xlen, frame, depth, va, path[0]);
    if |path| > 1 {
      NotBoth(path[0]);
      WalkOfPath(dram, xlen, FrameOf(xlen, path[0]), depth + 1, va, path[1..]);
    }
  }

  lemma NotBoth(pte: nat)
    requires IsPointer(pte)
    ensures !IsLeaf(pte)
  {
    hide Flag;
  }

  /** A walk that ends at a leaf has followed a path. */
  lemma {:induction false} PathOfWalk(dram: seq<byte>, xlen: Xlen, frame: nat, depth: nat, va: nat)
    returns (path: seq<nat>)
    requires depth < Depth(xlen)
    requires WalkFrom(dram, SchemeFor(xlen), frame * PAGE, Depth(xlen) - 1 - depth, va).Leaf?
    ensures Path(dram, xlen, frame, depth, va, path)
    decreases Depth(xlen) - depth
  {
    hide Flag, EntryAddress, FrameOf, IsLeaf, IsPointer, LittleEndian;
    var at := EntryAddress(xlen, frame, depth, va);
    var pte := LeafStart(dram, xlen, frame, depth, va);
    hide Holds, WalkFrom;
    StepMeans(dram, xlen, frame, depth, va, pte);
    if IsLeaf(pte) {
      path := [pte];
    } else {
      var rest := PathOfWalk(dram, xlen, FrameOf(xlen, pte), depth + 1, va);
      path := [pte] + rest;
      assert path[1..] == rest;
    }
  }

  lemma LeafStart(dram: seq<byte>, xlen: Xlen, frame: nat, depth: nat, va: nat) returns (pte: nat)
    requires depth < Depth(xlen)
    requires WalkFrom(dram, SchemeFor(xlen), frame * PAGE, Depth(xlen) - 1 - depth, va).Leaf?
    ensures Holds(dram, xlen, EntryAddress(xlen, frame, depth, va), pte)
  {
    hide Flag, EntryAddress, PteAt, Ppn, V, R, W, X, U, FrameOf, Holds, ReadPhysical;
    var at := EntryAddress(xlen, frame, depth, va);
    DigitIsVpn(xlen, depth, frame, va);
    pte := ReadPhysical(dram, at, SchemeFor(xlen).PteSize()).v;
    HoldsIsRead(dram, xlen, at, pte);
  }

  // ---------------------------------------------------------------------------------------
  // Rights and addresses

  /** The privilege an access is made with: MPRV lends loads and stores, never fetches, that of MPP. */
  function Acting(r: Regs, access: Access): Priv {
    match access
    case Fetch => r.mode
    case _ => if r.mprv then r.mpp else r.mode
  }

  predicate Translating(xlen: Xlen, r: Regs, access: Access) { Paging(xlen, r.satp) && !Acting(r, access).Machine? }

  /** Whether a leaf that ends a path lets an access through: its bits allow it, and the frame is as
      aligned as what it maps is large. */
  predicate Grants(xlen: Xlen, path: seq<nat>, eff: Priv, sum: bool, mxr: bool, access: Access)
    requires path != []
  {
    var pte := path[|path| - 1];
    !Denied(pte, eff, sum, mxr, access) && FrameOf(xlen, pte) * 0x1000 % Extent(xlen, |path| - 1) == 0
  }

  function Landing(xlen: Xlen, path: seq<nat>, va: nat): nat
    requires path != []
  {
    FrameOf(xlen, path[|path| - 1]) * 0x1000 + va % Extent(xlen, |path| - 1)
  }

  /** Where the last entry of a path lies, as an index into DRAM. */
  function LeafIndex(xlen: Xlen, satp: nat, path: seq<nat>, va: nat): int
    requires path != []
  {
    EntryAddress(xlen, LastTable(xlen, FrameField(xlen, satp), path), |path| - 1, va) - 0x8000_0000
  }

  /** What marking the entry at index i as used does to memory: bit 6 of its low byte is set, and for
      a store bit 7, and nothing else changes. */
  predicate MarkedAt(dram: seq<byte>, after: seq<byte>, i: int, access: Access) {
    |after| == |dram| && 0 <= i < |dram| &&
    (forall k :: 0 <= k < |dram| && k != i ==> after[k] == dram[k]) &&
    after[i] % 64 == dram[i] % 64 && Flag(after[i], 64) &&
    (Flag(after[i], 128) <==> Flag(dram[i], 128) || access.Store?)
  }

  lemma ActingIsEffective(r: Regs, access: Access)
    ensures Acting(r, access) == Effective(r, access)
  {
  }

  lemma DeniedMeans(pte: nat, eff: Priv, sum: bool, mxr: bool, access: Access)
    requires !eff.Machine?
    ensures Denied(pte, eff, sum, mxr, access) <==> !Permitted(pte, eff, sum, mxr, access)
  {
    hide Flag, V, R, W, X, U;
    BitsMean(pte);
  }

  lemma AlignedMeans(xlen: Xlen, depth: nat, ppn: nat)
    requires depth < Depth(xlen)
    ensures var s, level := SchemeFor(xlen), Depth(xlen) - 1 - depth;
            Extent(xlen, depth) == s.Pages(level) * PAGE &&
            (ppn * 0x1000 % Extent(xlen, depth) == 0 <==> ppn % s.Pages(level) == 0)
  {
  }

  lemma MarkMeans(dram: seq<byte>, i: nat, access: Access)
    requires i < |dram|
    ensures MarkedAt(dram, Mark(dram, i, access), i, access)
  {
  }

  lemma UsedAlready(dram: seq<byte>, i: nat, size: nat, access: Access)
    requires size > 0 && i + size <= |dram| && HasBits(LittleEndian(dram[i..i + size]), access)
    ensures MarkedAt(dram, dram, i, access)
  {
    hide LittleEndian;
    LowBits(dram[i..i + size], access);
    assert dram[i..i + size][0] == dram[i];
  }

  /** A path for the address ends the walk at its leaf. */
  lemma MappingWalk(dram: seq<byte>, xlen: Xlen, satp: nat, va: nat, path: seq<nat>)
    requires Paging(xlen, satp) && Mapping(dram, xlen, satp, va, path)
    ensures SchemeOf(satp, xlen) == SchemeFor(xlen) && 0 < |path| <= Depth(xlen)
    ensures RootWalk(dram, SchemeFor(xlen), satp, va) ==
            Leaf(Depth(xlen) - |path|, LeafIndex(xlen, satp, path, va) + 0x8000_0000, path[|path| - 1])
  {
    hide Path, EntryAddress, LastTable, WalkFrom;
    SchemePaging(xlen, satp);
    WalkOfPath(dram, xlen, FrameField(xlen, satp), 0, va, path);
  }

  /** The answer at the end of a path: a page fault if the leaf's bits forbid the access or its frame
      is misaligned, and otherwise the frame plus the offset within what the leaf maps. */
  lemma PathAnswers(dram: seq<byte>, xlen: Xlen, r: Regs, va: nat, access: Access, path: seq<nat>)
    requires va < 0x1_0000_0000_0000_0000 && Translating(xlen, r, access) && SignExtended(xlen, va)
    requires Mapping(dram, xlen, r.satp, va, path)
    ensures path != []
    ensures Translate(dram, xlen, r, va, access).0 ==
            if Grants(xlen, path, Acting(r, access), r.sum, r.mxr, access) then Ok(Landing(xlen, path, va))
            else PageFault
  {
    hide Mapping, LeafIndex, RootWalk, SchemeOf, Paging, SignExtended, Canonical, Permitted, Denied, FrameOf, Ppn,
         Splice, Translate, Extent, Scheme.Pages;
    ActingIsEffective(r, access);
    MappingWalk(dram, xlen, r.satp, va, path);
    CanonicalMeans(xlen, va);
    SchemePaging(xlen, r.satp);
    var pte := path[|path| - 1];
    DeniedMeans(pte, Acting(r, access), r.sum, r.mxr, access);
    FrameIsPpn(xlen, pte);
    AlignedMeans(xlen, |path| - 1, FrameOf(xlen, pte));
    OutcomeAtEnd(dram, xlen, r, va, access);
    if FrameOf(xlen, pte) % SchemeFor(xlen).Pages(Depth(xlen) - |path|) == 0 {
      SpliceOffset(SchemeFor(xlen), Depth(xlen) - |path|, pte, va);
    }
  }

  lemma OutcomeMarks(dram: seq<byte>, xlen: Xlen, r: Regs, va: nat, access: Access)
    requires var s := SchemeOf(r.satp, xlen);
             !s.Bare? && !Effective(r, access).Machine? && RootWalk(dram, s, r.satp, va).Leaf? &&
             Translate(dram, xlen, r, va, access).0.Ok?
    ensures var s := SchemeOf(r.satp, xlen);
            var w := RootWalk(dram, s, r.satp, va);
            DRAM_BASE <= w.at && w.at - DRAM_BASE + s.PteSize() <= |dram| &&
            w.pte == LittleEndian(dram[w.at - DRAM_BASE..w.at - DRAM_BASE + s.PteSize()]) &&
            Translate(dram, xlen, r, va, access).1 ==
            if HasBits(w.pte, access) then dram else Mark(dram, w.at - DRAM_BASE, access)
  {
    hide SchemeOf, WalkFrom, Splice, Ppn, Permitted, HasBits, Canonical, Mark, LittleEndian;
    var s := SchemeOf(r.satp, xlen);
    LeafInDram(dram, s, (r.satp % s.PpnModulus()) * PAGE, s.Levels() - 1, va);
  }

  /** The memory an answer leaves: the entry that ended the path is marked as used. */
  lemma PathMarks(dram: seq<byte>, xlen: Xlen, r: Regs, va: nat, access: Access, path: seq<nat>)
    requires Translating(xlen, r, access) && Mapping(dram, xlen, r.satp, va, path)
    requires Translate(dram, xlen, r, va, access).0.Ok?
    ensures MarkedAt(dram, Translate(dram, xlen, r, va, access).1, LeafIndex(xlen, r.satp, path, va), access)
  {
    hide Mapping, LeafIndex, RootWalk, SchemeOf, Paging, Translate, HasBits, Mark, MarkedAt, LittleEndian;
    ActingIsEffective(r, access);
    MappingWalk(dram, xlen, r.satp, va, path);
    SchemePaging(xlen, r.satp);
    OutcomeMarks(dram, xlen, r, va, access);
    var i, size := LeafIndex(xlen, r.satp, path, va), SchemeFor(xlen).PteSize();
    if HasBits(path[|path| - 1], access) {
      UsedAlready(dram, i, size, access);
    } else {
      MarkMeans(dram, i, access);
    }
  }

  /** Translation is the meaning of the page tables. Without paging, or for machine mode, an address
      stands for itself. Otherwise the answer is pa exactly when the address is sign-extended and
      some path maps it to pa through a leaf that grants the access. */
  lemma TranslateExact(dram: seq<byte>, xlen: Xlen, r: Regs, va: nat, access: Access, pa: nat)
    requires va < 0x1_0000_0000_0000_0000
    ensures Translate(dram, xlen, r, va, access).0 == Ok(pa) <==>
            if !Translating(xlen, r, access) then pa == va
            else SignExtended(xlen, va) &&
                 exists path :: Mapping(dram, xlen, r.satp, va, path) && pa == Landing(xlen, path, va) &&
                                Grants(xlen, path, Acting(r, access), r.sum, r.mxr, access)
  {
    hide Mapping, RootWalk, SchemeOf, Paging, SignExtended, Canonical, Translate, Grants, Landing;
    ActingIsEffective(r, access);
    CanonicalMeans(xlen, va);
    SchemePaging(xlen, r.satp);
    if !Translating(xlen, r, access) || !SignExtended(xlen, va) {
      OutcomeWithout(dram, xlen, r, va, access);
    } else if RootWalk(dram, SchemeFor(xlen), r.satp, va).Leaf? {
      var path := SomeMapping(dram, xlen, r.satp, va);
      PathAnswers(dram, xlen, r, va, access, path);
      forall q | Mapping(dram, xlen, r.satp, va, q)
        ensures q != [] && Translate(dram, xlen, r, va, access).0 ==
                           if Grants(xlen, q, Acting(r, access), r.sum, r.mxr, access) then Ok(Landing(xlen, q, va))
                           else PageFault
      {
        PathAnswers(dram, xlen, r, va, access, q);
      }
    } else {
      forall q | Mapping(dram, xlen, r.satp, va, q) ensures false { MappingWalk(dram, xlen, r.satp, va, q); }
      OutcomeAtEnd(dram, xlen, r, va, access);
    }
  }

  /** Pointers from the table in a frame, at a depth, to a table that lies in a device. */
  predicate DevicePath(dram: seq<byte>, xlen: Xlen, frame: nat, depth: nat, va: nat, path: seq<nat>)
    decreases |path|
  {
    var at := EntryAddress(xlen, frame, depth, va);
    depth < Depth(xlen) &&
    if path == [] then at < 0x8000_0000 && IsDevice(at)
    else
      Holds(dram, xlen, at, path[0]) && IsPointer(path[0]) &&
      DevicePath(dram, xlen, FrameOf(xlen, path[0]), depth + 1, va, path[1..])
  }

  lemma DeviceStep(dram: seq<byte>, xlen: Xlen, frame: nat, depth: nat, va: nat)
    requires depth < Depth(xlen)
    ensures var at := EntryAddress(xlen, frame, depth, va);
            var read := ReadPhysical(dram, at, SchemeFor(xlen).PteSize());
            var w := WalkFrom(dram, SchemeFor(xlen), frame * PAGE, Depth(xlen) - 1 - depth, va);
            (read.Device? <==> at < 0x8000_0000 && IsDevice(at)) && (read.Device? ==> w.InDevice?) &&
            (read.Unmapped? ==> w.Fault?) && (read.Data? ==> Holds(dram, xlen, at, read.v))
  {
    hide EntryAddress, PteAt, Ppn, V, R, W, X, U, FrameOf, LittleEndian;
    DigitIsVpn(xlen, depth, frame, va);
  }

  lemma {:induction false} DeviceOfPath(dram: seq<byte>, xlen: Xlen, frame: nat, depth: nat, va: nat, path: seq<nat>)
    requires DevicePath(dram, xlen, frame, depth, va, path)
    ensures WalkFrom(dram, SchemeFor(xlen), frame * PAGE, Depth(xlen) - 1 - depth, va).InDevice?
    decreases |path|
  {
    hide Flag, Holds, EntryAddress, WalkFrom, FrameOf, IsLeaf, ReadPhysical, IsPointer;
    DeviceStep(dram, xlen, frame, depth, va);
    if path != [] {
      StepMeans(dram, xlen, frame, depth, va, path[0]);
      NotBoth(path[0]);
      DeviceOfPath(dram, xlen, FrameOf(xlen, path[0]), depth + 1, va, path[1..]);
    }
  }

  lemma {:induction false} PathOfDevice(dram: seq<byte>, xlen: Xlen, frame: nat, depth: nat, va: nat)
    returns (path: seq<nat>)
    requires depth < Depth(xlen)
    requires WalkFrom(dram, SchemeFor(xlen), frame * PAGE, Depth(xlen) - 1 - depth, va).InDevice?
    ensures DevicePath(dram, xlen, frame, depth, va, path)
    decreases Depth(xlen) - depth
  {
    hide Flag, Holds, EntryAddress, WalkFrom, FrameOf, IsLeaf, ReadPhysical, IsPointer;
    DeviceStep(dram, xlen, frame, depth, va);
    var read := ReadPhysical(dram, EntryAddress(xlen, frame, depth, va), SchemeFor(xlen).PteSize());
    path := [];
    if read.Data? {
      StepMeans(dram, xlen, frame, depth, va, read.v);
      var rest := PathOfDevice(dram, xlen, FrameOf(xlen, read.v), depth + 1, va);
      path := [read.v] + rest;
      assert path[1..] == rest;
    }
  }

  /** A walk leaves DRAM exactly when pointers lead to a table in a device; every address that is
      neither that nor mapped page-faults. */
  lemma DeviceExact(dram: seq<byte>, xlen: Xlen, r: Regs, va: nat, access: Access)
    requires va < 0x1_0000_0000_0000_0000
    ensures Translate(dram, xlen, r, va, access).0 == DeviceTable <==>
            Translating(xlen, r, access) && SignExtended(xlen, va) &&
            exists path :: DevicePath(dram, xlen, FrameField(xlen, r.satp), 0, va, path)
  {
    hide DevicePath, WalkFrom, SchemeOf, Paging, SignExtended, Canonical, Translate;
    ActingIsEffective(r, access);
    CanonicalMeans(xlen, va);
    SchemePaging(xlen, r.satp);
    var frame := FrameField(xlen, r.satp);
    if !Translating(xlen, r, access) || !SignExtended(xlen, va) {
      OutcomeWithout(dram, xlen, r, va, access);
    } else {
      OutcomeAtEnd(dram, xlen, r, va, access);
      forall path | DevicePath(dram, xlen, frame, 0, va, path)
        ensures RootWalk(dram, SchemeFor(xlen), r.satp, va).InDevice?
      {
        DeviceOfPath(dram, xlen, frame, 0, va, path);
      }
      if RootWalk(dram, SchemeFor(xlen), r.satp, va).InDevice? {
        var path := PathOfDevice(dram, xlen, frame, 0, va);
      }
    }
  }

  lemma SomeMapping(dram: seq<byte>, xlen: Xlen, satp: nat, va: nat) returns (path: seq<nat>)
    requires Paging(xlen, satp) && RootWalk(dram, SchemeFor(xlen), satp, va).Leaf?
    ensures Mapping(dram, xlen, satp, va, path)
  {
    hide Path, WalkFrom;
    path := PathOfWalk(dram, xlen, FrameField(xlen, satp), 0, va);
    WalkOfPath(dram, xlen, FrameField(xlen, satp), 0, va, path);
  }
}
