/** Address translation over page tables in DRAM: the Sv32 and Sv39 walk with its accessed and
    dirty updates. Addresses, page-table entries and bytes are naturals; a right shift by k is a
    division by 2^k and a mask of the low k bits a remainder. */
module Mmu {
  import opened Arithmetic
  import opened Basics

  const PAGE: nat := 4096

  datatype Scheme = Bare | Sv32 | Sv39 {

    function Levels(): nat { match this case Sv32 => 2 case Sv39 => 3 case Bare => 0 }

    /** Entries in one table. */
    function Radix(): nat { if Sv32? then 1024 else 512 }

    function PteSize(): nat { if Sv32? then 4 else 8 }

    function PpnModulus(): nat { if Sv32? then 0x40_0000 else 0x1000_0000_0000 }

    /** Pages that a leaf at this level maps. */
    function Pages(level: nat): (r: nat)
      ensures r > 0
    {
      if level == 0 then 1 else if level == 1 then Radix() else Radix() * Radix()
    }
  }

  function SchemeOf(satp: nat, xlen: Xlen): Scheme {
    if xlen.Rv32? && satp / 0x8000_0000 == 1 then Sv32
    else if xlen.Rv64? && (satp / 0x1000_0000_0000_0000) % 16 == 8 then Sv39
    else Bare
  }

  /** The registers a translation depends on. */
  datatype Regs = Regs(satp: nat, sum: bool, mxr: bool, mprv: bool, mpp: Priv, mode: Priv)

  /** MPRV redirects loads and stores, never fetches, to the privilege in MPP. */
  function Effective(r: Regs, access: Access): Priv {
    if access != Fetch && r.mprv then r.mpp else r.mode
  }

  // ---------------------------------------------------------------------------------------
  // Memory

  function LittleEndian(s: seq<byte>): nat {
    if s == [] then 0 else s[0] + 256 * LittleEndian(s[1..])
  }

  function Index(dram: seq<byte>, addr: nat, size: nat): Option<nat> {
    if addr < DRAM_BASE || addr - DRAM_BASE + size > |dram| then None else Some(addr - DRAM_BASE)
  }

  /** What a physical read finds: bytes of DRAM, nothing, or a device register. */
  datatype Loaded = Data(v: nat) | Unmapped | Device

  function ReadPhysical(dram: seq<byte>, addr: nat, size: nat): Loaded {
    if addr >= DRAM_BASE then
      match Index(dram, addr, size)
      case Some(i) => Data(LittleEndian(dram[i..i + size]))
      case None => Unmapped
    else if IsDevice(addr) then Loaded.Device else Unmapped
  }

  // ---------------------------------------------------------------------------------------
  // Page-table entries

  predicate V(p: nat) { p % 2 == 1 }
  predicate R(p: nat) { p / 2 % 2 == 1 }
  predicate W(p: nat) { p / 4 % 2 == 1 }
  predicate X(p: nat) { p / 8 % 2 == 1 }
  predicate U(p: nat) { p / 16 % 2 == 1 }
  predicate A(p: nat) { p / 64 % 2 == 1 }
  predicate D(p: nat) { p / 128 % 2 == 1 }

  function Ppn(s: Scheme, p: nat): nat { (p / 1024) % s.PpnModulus() }

  function Vpn(s: Scheme, level: nat, va: nat): nat {
    (va / PAGE / s.Pages(level)) % s.Radix()
  }

  /** Where a walk ends: at a leaf entry, in a fault, or in device memory. */
  datatype Walk = Fault | InDevice | Leaf(level: nat, at: nat, pte: nat)

  function PteAt(s: Scheme, table: nat, level: nat, va: nat): nat {
    table + Vpn(s, level, va) * s.PteSize()
  }

  function WalkFrom(dram: seq<byte>, s: Scheme, table: nat, level: nat, va: nat): Walk
    decreases level
  {
    match ReadPhysical(dram, PteAt(s, table, level, va), s.PteSize())
    case Unmapped => Fault
    case Device => InDevice
    case Data(pte) =>
      if !V(pte) || (!R(pte) && W(pte)) then Fault
      else if !R(pte) && !X(pte) then
        if level == 0 then Fault else WalkFrom(dram, s, Ppn(s, pte) * PAGE, level - 1, va)
      else Leaf(level, PteAt(s, table, level, va), pte)
  }

  /** Whether a privilege may make an access through a leaf. */
  predicate Permitted(pte: nat, effective: Priv, sum: bool, mxr: bool, access: Access) {
    (effective.User? ==> U(pte)) &&
    (effective.Supervisor? && U(pte) ==> access != Fetch && sum) &&
    match access
    case Fetch => X(pte)
    case Load => R(pte) || (mxr && X(pte))
    case Store => W(pte)
  }

  /** The physical address: high page bits from the entry, low ones from the virtual address. */
  function Splice(s: Scheme, level: nat, pte: nat, va: nat): nat {
    (Ppn(s, pte) - Ppn(s, pte) % s.Pages(level) + (va / PAGE) % s.Pages(level)) * PAGE + va % PAGE
  }

  predicate HasBits(b: nat, access: Access) { A(b) && (access.Store? ==> D(b)) }

  /** The low byte of an entry with A, and D for a store, set. */
  function SetBits(b: byte, access: Access): byte {
    var a := if b / 64 % 2 == 1 then b else b + 64;
    if access.Store? && a / 128 % 2 == 0 then a + 128 else a
  }

  /** The entry at byte i marked as used. */
  function Mark(dram: seq<byte>, i: nat, access: Access): seq<byte>
    requires i < |dram|
  {
    dram[i := SetBits(dram[i], access)]
  }

  /** A translated address, a page fault, or a walk that left for device memory. */
  datatype Res = Ok(pa: nat) | PageFault | DeviceTable

  predicate Canonical(s: Scheme, va: nat) {
    s.Sv39? ==> va < 0x40_0000_0000 || va >= 0xFFFF_FFC0_0000_0000
  }

  function RootWalk(dram: seq<byte>, s: Scheme, satp: nat, va: nat): Walk
    requires !s.Bare?
  {
    WalkFrom(dram, s, (satp % s.PpnModulus()) * PAGE, s.Levels() - 1, va)
  }

  /** The uncached translation and the DRAM it leaves behind. */
  function Translate(dram: seq<byte>, xlen: Xlen, r: Regs, va: nat, access: Access): (Res, seq<byte>) {
    var s := SchemeOf(r.satp, xlen);
    if s.Bare? || Effective(r, access).Machine? then (Ok(va), dram)
    else if !Canonical(s, va) then (PageFault, dram)
    else
      match RootWalk(dram, s, r.satp, va)
      case Fault => (PageFault, dram)
      case InDevice => (DeviceTable, dram)
      case Leaf(level, at, pte) =>
        LeafInDram(dram, s, (r.satp % s.PpnModulus()) * PAGE, s.Levels() - 1, va);
        if !Permitted(pte, Effective(r, access), r.sum, r.mxr, access) || Ppn(s, pte) % s.Pages(level) != 0 then
          (PageFault, dram)
        else
          (Ok(Splice(s, level, pte, va)), if HasBits(pte, access) then dram else Mark(dram, at - DRAM_BASE, access))
  }

  /** A leaf is an entry that was read from DRAM. */
  lemma {:induction false} LeafInDram(dram: seq<byte>, s: Scheme, table: nat, level: nat, va: nat)
    requires !s.Bare?
    ensures var w := WalkFrom(dram, s, table, level, va);
            w.Leaf? ==> DRAM_BASE <= w.at && w.at - DRAM_BASE + s.PteSize() <= |dram| && w.level <= level &&
                        w.pte == LittleEndian(dram[w.at - DRAM_BASE..w.at - DRAM_BASE + s.PteSize()])
    decreases level
  {
    hide LittleEndian, Vpn, Ppn, PteAt, V, R, W, X;
    match ReadPhysical(dram, PteAt(s, table, level, va), s.PteSize())
    case Unmapped =>
    case Device =>
    case Data(pte) =>
      if level > 0 { LeafInDram(dram, s, Ppn(s, pte) * PAGE, level - 1, va); }
  }

  /** Tables are page-aligned, so entries are aligned to their size. */
  lemma PteAligned(s: Scheme, frame: nat, level: nat, va: nat)
    requires !s.Bare?
    ensures PteAt(s, frame * PAGE, level, va) % s.PteSize() == 0
  {
    hide Vpn;
    var at, v := PteAt(s, frame * PAGE, level, va), Vpn(s, level, va);
    if s.Sv32? { DivModUnique(at, 4, frame * 1024 + v, 0); } else { DivModUnique(at, 8, frame * 512 + v, 0); }
  }

  lemma {:induction false} LeafAligned(dram: seq<byte>, s: Scheme, frame: nat, level: nat, va: nat)
    requires !s.Bare?
    ensures var w := WalkFrom(dram, s, frame * PAGE, level, va);
            w.Leaf? ==> w.at % s.PteSize() == 0
    decreases level
  {
    PteAligned(s, frame, level, va);
    hide LittleEndian, Vpn, Ppn, PteAt, V, R, W, X, LittleEndian;
    match ReadPhysical(dram, PteAt(s, frame * PAGE, level, va), s.PteSize())
    case Unmapped =>
    case Device =>
    case Data(pte) =>
      if level > 0 { LeafAligned(dram, s, Ppn(s, pte), level - 1, va); }
  }

  // ---------------------------------------------------------------------------------------
  // Entries that differ only in their accessed and dirty bits

  /** b2 is b with A or D possibly added. */
  predicate Grown(b: nat, b2: nat) {
    b / 256 == b2 / 256 && b % 64 == b2 % 64 && (A(b) ==> A(b2)) && (D(b) ==> D(b2))
  }

  /** dram2 is dram after accessed and dirty updates to aligned entries. */
  ghost predicate Evolved(dram: seq<byte>, dram2: seq<byte>, size: nat)
    requires size > 0
  {
    |dram| == |dram2| &&
    forall i :: 0 <= i < |dram| ==> if i % size == 0 then Grown(dram[i], dram2[i]) else dram[i] == dram2[i]
  }

  lemma EvolvedTransitive(a: seq<byte>, b: seq<byte>, c: seq<byte>, size: nat)
    requires size > 0 && Evolved(a, b, size) && Evolved(b, c, size)
    ensures Evolved(a, c, size)
  {
  }

  lemma EvenPlus(h: nat, x: nat)
    ensures (2 * h + x) % 2 == x % 2
  {
  }

  lemma LowByteBits(v: nat)
    ensures A(v) == A(v % 256) && D(v) == D(v % 256) && v % 64 == v % 256 % 64
  {
    var q, r := v / 256, v % 256;
    DivModUnique(v, 64, 4 * q + r / 64, r % 64);
    EvenPlus(2 * q, r / 64);
    DivModUnique(v, 128, 2 * q + r / 128, r % 128);
    EvenPlus(q, r / 128);
  }

  lemma GrownFromLow(v: nat, w: nat)
    requires v / 256 == w / 256 && Grown(v % 256, w % 256)
    ensures Grown(v, w)
  {
    LowByteBits(v);
    LowByteBits(w);
    hide A, D;
  }

  lemma AddHigh(b: byte, rest: nat)
    ensures (b + 256 * rest) / 256 == rest && (b + 256 * rest) % 256 == b
  {
    DivModUnique(b + 256 * rest, 256, rest, b);
  }

  lemma GrownAbove(b: byte, c: byte, rest: nat)
    requires Grown(b, c)
    ensures Grown(b + 256 * rest, c + 256 * rest)
  {
    hide Grown, A, D;
    AddHigh(b, rest);
    AddHigh(c, rest);
    GrownFromLow(b + 256 * rest, c + 256 * rest);
  }

  lemma LittleEndianTail(s: seq<byte>, t: seq<byte>)
    requires |s| == |t| > 0 && s[1..] == t[1..] && Grown(s[0], t[0])
    ensures Grown(LittleEndian(s), LittleEndian(t))
  {
    hide Grown;
    GrownAbove(s[0], t[0], LittleEndian(s[1..]));
  }

  lemma LowBits(s: seq<byte>, access: Access)
    requires s != []
    ensures HasBits(LittleEndian(s), access) == HasBits(s[0], access)
  {
    LowByteBits(LittleEndian(s));
    hide A, D;
  }

  lemma EntryGrown(dram: seq<byte>, dram2: seq<byte>, size: nat, i: nat)
    requires size > 0 && Evolved(dram, dram2, size) && i % size == 0 && i + size <= |dram|
    ensures Grown(LittleEndian(dram[i..i + size]), LittleEndian(dram2[i..i + size]))
  {
    var s, t := dram[i..i + size], dram2[i..i + size];
    forall k | 1 <= k < size ensures s[k] == t[k] {
      assert (i + k) % size != 0 by { NotMultiple(i, k, size); }
    }
    assert s[1..] == t[1..];
    LittleEndianTail(s, t);
  }

  lemma NotMultiple(i: nat, k: nat, size: nat)
    requires size > 0 && i % size == 0 && 0 < k < size
    ensures (i + k) % size == k
  {
    DivModUnique(i + k, size, i / size, k);
  }
}
