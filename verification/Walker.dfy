/** The page walk as the hart performs it: a loop over the levels that reads entries through memory
    and writes the accessed and dirty bits back into them. */
module Walker {
  import opened Basics
  import opened Mmu
  import opened MemoryModel
  import opened PagedAccess
  import DeviceScan

  /** An entry with A, and D for a store, set. */
  function Used(pte: nat, access: Access): nat {
    var a := if A(pte) then pte else pte + 64;
    if access.Store? && !D(a) then a + 128 else a
  }

  lemma UsedNonZero(pte: nat, access: Access)
    ensures Used(pte, access) != 0
  {
  }

  lemma UsedLow(b: byte, rest: nat, access: Access)
    ensures Used(b + 256 * rest, access) == SetBits(b, access) + 256 * rest
  {
    AddHigh(b, rest);
    LowByteBits(b + 256 * rest);
    if !A(b) {
      AddHigh(b + 64, rest);
      LowByteBits(b + 64 + 256 * rest);
    }
  }

  /** Writing back the value read changes nothing. */
  lemma {:induction false} WriteSame(dram: seq<byte>, i: nat, size: nat)
    requires i + size <= |dram|
    ensures WriteLE(dram, i, size, LittleEndian(dram[i..i + size])) == dram
    decreases size
  {
    if size != 0 {
      var rest := LittleEndian(dram[i + 1..i + size]);
      assert dram[i..i + size][1..] == dram[i + 1..i + size];
      AddHigh(dram[i], rest);
      assert dram[i := dram[i]] == dram;
      WriteSame(dram, i + 1, size - 1);
    }
  }

  /** Writing the marked entry back sets the bits in its low byte and nothing else. */
  lemma WriteMarks(dram: seq<byte>, i: nat, size: nat, access: Access)
    requires size > 0 && i + size <= |dram|
    ensures WriteLE(dram, i, size, Used(LittleEndian(dram[i..i + size]), access)) == Mark(dram, i, access)
  {
    hide Used, SetBits;
    var rest := LittleEndian(dram[i + 1..i + size]);
    assert dram[i..i + size][1..] == dram[i + 1..i + size];
    UsedLow(dram[i], rest, access);
    AddHigh(SetBits(dram[i], access), rest);
    var d := Mark(dram, i, access);
    assert d[i + 1..i + size] == dram[i + 1..i + size];
    WriteSame(d, i + 1, size - 1);
  }

  /** A device's state but for the touched flag, which may have been set. */
  predicate OnlyTouched(a: DeviceScan.Devices, b: DeviceScan.Devices) { b == a || b == a.(dirty := true) }

  /** The tohost record after the entry at an address is marked. */
  function Recorded(at: nat, pte: nat, access: Access, tohost: Option<nat>, was: Option<nat>): Option<nat> {
    if !HasBits(pte, access) && tohost == Some(at) then Some(Used(pte, access)) else was
  }

  /** The tohost record a translation leaves: only an answer through a leaf that lies at the tohost
      address and lacks a bit changes it, to the marked entry. */
  function TohostAfter(
    dram: seq<byte>, xlen: Xlen, r: Regs, va: nat, access: Access, tohost: Option<nat>, was: Option<nat>
  ): Option<nat> {
    var s := SchemeOf(r.satp, xlen);
    if s.Bare? || !Mmu.Translate(dram, xlen, r, va, access).0.Ok? || Effective(r, access).Machine? then was
    else
      match RootWalk(dram, s, r.satp, va)
      case Leaf(_, at, pte) => Recorded(at, pte, access, tohost, was)
      case _ => was
  }

  /** Sets the bits an access needs in the entry it was read from, if any is missing. */
  method SetUsed(mem: Memory, at: nat, size: nat, pte: nat, access: Access) returns (ok: bool)
    requires mem.Valid() && Sized(size)
    modifies mem`devicesDirty, mem`clint, mem`tohostValue, mem.dram, mem.plic, mem.uart
    ensures mem.Valid()
    ensures var dram := old(mem.dram[..]);
            ReadPhysical(dram, at, size) == Data(pte) ==>
              ok && mem.Devices() == old(mem.Devices()) && DRAM_BASE <= at && at - DRAM_BASE < |dram| &&
              mem.dram[..] == (if HasBits(pte, access) then dram else Mark(dram, at - DRAM_BASE, access)) &&
              mem.tohostValue == Recorded(at, pte, access, mem.tohost, old(mem.tohostValue))
  {
    hide LittleEndian, Used, SetBits, HasBits, WriteLE;
    ok := true;
    if !HasBits(pte, access) {
      ghost var dram := mem.dram[..];
      if ReadPhysical(dram, at, size) == Data(pte) { WriteMarks(dram, at - DRAM_BASE, size, access); }
      UsedNonZero(pte, access);
      ok := mem.Write(at, size, Used(pte, access));
    }
  }

  /** A physical read, as DRAM sees it. */
  method ReadData(mem: Memory, at: nat, size: nat) returns (r: Option<nat>)
    requires mem.Valid() && Sized(size)
    modifies mem`devicesDirty, mem.plic, mem.uart
    ensures mem.Valid()
    ensures var l := ReadPhysical(mem.dram[..], at, size);
            !l.Device? ==> r == Answer(l) && OnlyTouched(old(mem.Devices()), mem.Devices())
  {
    hide LittleEndian;
    r := mem.Read(at, size);
  }

  /** A physical write, as DRAM sees it. */
  method WriteData(mem: Memory, at: nat, size: nat, v: nat) returns (ok: bool)
    requires mem.Valid() && Sized(size)
    modifies mem`devicesDirty, mem`clint, mem`tohostValue, mem.dram, mem.plic, mem.uart
    ensures mem.Valid()
    ensures !IsDevice(at) ==>
              ok == Index(old(mem.dram[..]), at, size).Some? && OnlyTouched(old(mem.Devices()), mem.Devices()) &&
              mem.dram[..] == if ok then WriteLE(old(mem.dram[..]), at - DRAM_BASE, size, v) else old(mem.dram[..])
  {
    hide WriteLE;
    ok := mem.Write(at, size, v);
  }

  lemma RootIs(dram: seq<byte>, s: Scheme, satp: nat, va: nat)
    requires s.Levels() > 0
    ensures RootWalk(dram, s, satp, va) ==
            WalkFrom(dram, s, (satp % s.PpnModulus()) * PAGE, s.Levels() - 1, va)
  {
  }

  /** One level of the walk. */
  lemma WalkStep(dram: seq<byte>, s: Scheme, table: nat, level: nat, va: nat)
    ensures var l := ReadPhysical(dram, PteAt(s, table, level, va), s.PteSize());
            WalkFrom(dram, s, table, level, va) ==
            if l.Device? then InDevice
            else if l.Unmapped? || !V(l.v) || (!R(l.v) && W(l.v)) then Walk.Fault
            else if R(l.v) || X(l.v) then Leaf(level, PteAt(s, table, level, va), l.v)
            else if level == 0 then Walk.Fault
            else WalkFrom(dram, s, Ppn(s, l.v) * PAGE, level - 1, va)
  {
    hide V, R, W, X, Ppn, PteAt, ReadPhysical;
  }

  lemma TranslateFaults(
    dram: seq<byte>, xlen: Xlen, r: Regs, va: nat, access: Access, tohost: Option<nat>, was: Option<nat>
  )
    requires var s := SchemeOf(r.satp, xlen);
             !s.Bare? && !Effective(r, access).Machine? &&
             (!Canonical(s, va) || RootWalk(dram, s, r.satp, va).Fault?)
    ensures Mmu.Translate(dram, xlen, r, va, access) == (PageFault, dram)
    ensures TohostAfter(dram, xlen, r, va, access, tohost, was) == was
  {
    hide WalkFrom, Canonical, SchemeOf;
  }

  lemma TranslateLeaves(
    dram: seq<byte>, xlen: Xlen, r: Regs, va: nat, access: Access, tohost: Option<nat>, was: Option<nat>
  )
    requires var s := SchemeOf(r.satp, xlen);
             !s.Bare? && !Effective(r, access).Machine? && Canonical(s, va) && RootWalk(dram, s, r.satp, va).Leaf?
    ensures var s := SchemeOf(r.satp, xlen);
            var w := RootWalk(dram, s, r.satp, va);
            Mmu.Translate(dram, xlen, r, va, access) ==
            if !Permitted(w.pte, Effective(r, access), r.sum, r.mxr, access) ||
               Ppn(s, w.pte) % s.Pages(w.level) != 0 then
              (PageFault, dram)
            else
              (Ok(Splice(s, w.level, w.pte, va)),
               if HasBits(w.pte, access) then dram
               else if DRAM_BASE <= w.at && w.at - DRAM_BASE < |dram| then Mark(dram, w.at - DRAM_BASE, access)
               else dram)
    ensures var s := SchemeOf(r.satp, xlen);
            var w := RootWalk(dram, s, r.satp, va);
            TohostAfter(dram, xlen, r, va, access, tohost, was) ==
            if Mmu.Translate(dram, xlen, r, va, access).0.Ok? then Recorded(w.at, w.pte, access, tohost, was) else was
  {
    hide WalkFrom, Canonical, SchemeOf, Permitted, Ppn, Splice, HasBits, Mark, LittleEndian, Recorded;
    var s := SchemeOf(r.satp, xlen);
    LeafInDram(dram, s, (r.satp % s.PpnModulus()) * PAGE, s.Levels() - 1, va);
  }

  lemma TranslateLeavesDram(dram: seq<byte>, xlen: Xlen, r: Regs, va: nat, access: Access)
    requires var s := SchemeOf(r.satp, xlen);
             !s.Bare? && !Effective(r, access).Machine? && Canonical(s, va) && RootWalk(dram, s, r.satp, va).InDevice?
    ensures Mmu.Translate(dram, xlen, r, va, access).0 == DeviceTable
  {
    hide WalkFrom, Canonical, SchemeOf;
  }

  lemma NoTranslation(
    dram: seq<byte>, xlen: Xlen, r: Regs, va: nat, access: Access, tohost: Option<nat>, was: Option<nat>
  )
    requires SchemeOf(r.satp, xlen).Bare? || Effective(r, access).Machine?
    ensures Mmu.Translate(dram, xlen, r, va, access) == (Ok(va), dram)
    ensures TohostAfter(dram, xlen, r, va, access, tohost, was) == was
  {
  }

  /** Translates one address. Whenever the walk stays clear of device memory, the answer, the DRAM
      and the tohost record it leaves are the specified ones and no device has changed. */
  method Translate(mem: Memory, xlen: Xlen, r: Regs, va: nat, access: Access) returns (res: Res)
    requires mem.Valid()
    modifies mem`devicesDirty, mem`clint, mem`tohostValue, mem.dram, mem.plic, mem.uart
    ensures mem.Valid()
    ensures var (want, after) := Mmu.Translate(old(mem.dram[..]), xlen, r, va, access);
            want != DeviceTable ==>
            res == want && mem.dram[..] == after && OnlyTouched(old(mem.Devices()), mem.Devices()) &&
            mem.tohostValue ==
            TohostAfter(old(mem.dram[..]), xlen, r, va, access, mem.tohost, old(mem.tohostValue))
  {
    hide Mmu.Translate, WalkFrom, ReadPhysical, LittleEndian, SchemeOf, Effective, V, R, W, X, Ppn, Splice, Mark,
         HasBits, Permitted, Canonical, PteAt, TohostAfter, Recorded, RootWalk, Vpn;
    var effective := Effective(r, access);
    var s := SchemeOf(r.satp, xlen);
    ghost var dram, was := mem.dram[..], mem.tohostValue;
    if s.Bare? || effective.Machine? {
      NoTranslation(dram, xlen, r, va, access, mem.tohost, was);
      return Ok(va);
    }
    if !Canonical(s, va) {
      TranslateFaults(dram, xlen, r, va, access, mem.tohost, was);
      return PageFault;
    }
    ghost var root := RootWalk(dram, s, r.satp, va);
    if root.Fault? {
      TranslateFaults(dram, xlen, r, va, access, mem.tohost, was);
    } else if root.Leaf? {
      TranslateLeaves(dram, xlen, r, va, access, mem.tohost, was);
    } else {
      TranslateLeavesDram(dram, xlen, r, va, access);
    }
    var table: nat := (r.satp % s.PpnModulus()) * PAGE;
    var level := s.Levels();
    assert root == WalkFrom(dram, s, table, level - 1, va) by { RootIs(dram, s, r.satp, va); }
    while level > 0
      invariant mem.Valid() && level <= s.Levels() && mem.tohostValue == was
      invariant root.InDevice? || (mem.dram[..] == dram && OnlyTouched(old(mem.Devices()), mem.Devices()))
      invariant root.InDevice? || root == if level > 0 then WalkFrom(dram, s, table, level - 1, va) else Walk.Fault
    {
      level := level - 1;
      WalkStep(dram, s, table, level, va);
      var at := PteAt(s, table, level, va);
      var read := ReadData(mem, at, s.PteSize());
      if read.None? {
        return PageFault;
      }
      var pte := read.value;
      if !V(pte) || (!R(pte) && W(pte)) {
        return PageFault;
      }
      if !R(pte) && !X(pte) {
        if level == 0 {
          return PageFault;
        }
        table := Ppn(s, pte) * PAGE;
        continue;
      }
      if !Permitted(pte, effective, r.sum, r.mxr, access) {
        return PageFault;
      }
      if level > 0 {
        if Ppn(s, pte) % s.Pages(level) != 0 {
          return PageFault;
        }
      }
      var ok := SetUsed(mem, at, s.PteSize(), pte, access);
      if !ok {
        return PageFault;
      }
      return Ok(Splice(s, level, pte, va));
    }
    return PageFault;
  }
}
