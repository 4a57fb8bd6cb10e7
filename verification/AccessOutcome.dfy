/** How every load and store ends, in terms of the one or two translations it needs: with which
    fault, naming which address, or with which bytes. */
module AccessOutcome {
  import opened Basics
  import opened Mmu
  import opened MmuTheory
  import opened Tlb
  import opened PagedAccess

  /** The bytes from va to the end of its page. */
  function Room(va: nat): (n: nat)
    ensures n > 0
  {
    0x1000 - va % 0x1000
  }

  function NextPage(va: nat): nat { va + Room(va) }

  predicate Crosses(va: nat, size: nat) { size > Room(va) }

  /** How many bytes the first translation serves. */
  function Served(va: nat, size: nat): nat { if Crosses(va, size) then Room(va) else size }

  predicate Lands(dram: seq<byte>, pa: nat, n: nat) { 0x8000_0000 <= pa && pa - 0x8000_0000 + n <= |dram| }

  function BytesAt(dram: seq<byte>, pa: nat, n: nat): seq<byte>
    requires Lands(dram, pa, n)
  {
    dram[pa - 0x8000_0000..pa - 0x8000_0000 + n]
  }

  /** What an access meets at an address from which it cannot be served by DRAM. */
  function Missed(pa: nat): (d: Done)
    ensures !d.Value? && !d.PageFaultAt?
  {
    if pa < 0x8000_0000 && IsDevice(pa) then DeviceHit else AccessFault
  }

  // ---------------------------------------------------------------------------------------
  // Byte by byte within a page that is present

  lemma {:induction false} SpanMissed(dram: seq<byte>, t: Cache, xlen: Xlen, r: Regs, va: nat, n: nat)
    requires Present(t, r, va, Access.Load) && va % PAGE + n <= PAGE && n > 0
    requires !Lands(dram, Base(t, va, Access.Load), n)
    ensures LoadBytes(dram, t, xlen, r, va, n) == After(Missed(Base(t, va, Access.Load)), dram, t)
    decreases n
  {
    hide Cached, Present, LittleEndian;
    PresentAnswers(dram, t, xlen, r, va, Access.Load);
    if Lands(dram, Base(t, va, Access.Load), 1) {
      OffsetAddress(t, r, va, 1, Access.Load);
      SpanMissed(dram, t, xlen, r, va + 1, n - 1);
    }
  }

  lemma SpanLoad(dram: seq<byte>, t: Cache, xlen: Xlen, r: Regs, va: nat, n: nat)
    requires Present(t, r, va, Access.Load) && va % PAGE + n <= PAGE && n > 0
    ensures var pa := Base(t, va, Access.Load);
            LoadBytes(dram, t, xlen, r, va, n) ==
            After(if Lands(dram, pa, n) then Value(LittleEndian(BytesAt(dram, pa, n))) else Missed(pa), dram, t)
  {
    hide Cached, Present, LittleEndian, LoadBytes, Base, Missed;
    if Lands(dram, Base(t, va, Access.Load), n) {
      LoadBytesPresent(dram, t, xlen, r, va, n);
    } else {
      SpanMissed(dram, t, xlen, r, va, n);
    }
  }

  lemma {:induction false} SpanUnstored(dram: seq<byte>, t: Cache, xlen: Xlen, r: Regs, va: nat, n: nat, v: nat)
    requires Present(t, r, va, Access.Store) && va % PAGE + n <= PAGE && n > 0
    requires !Lands(dram, Base(t, va, Access.Store), n)
    ensures StoreBytes(dram, t, xlen, r, va, n, v).done == Missed(Base(t, va, Access.Store))
    decreases n
  {
    hide Cached, Present;
    PresentAnswers(dram, t, xlen, r, va, Access.Store);
    if Lands(dram, Base(t, va, Access.Store), 1) {
      var i := Base(t, va, Access.Store) - DRAM_BASE;
      assert WriteLE(dram, i, 1, v) == dram[i := v % 256];
      OffsetAddress(t, r, va, 1, Access.Store);
      SpanUnstored(dram[i := v % 256], t, xlen, r, va + 1, n - 1, v / 256);
    }
  }

  /** z above the n bytes of x. */
  function Joined(x: nat, n: nat, z: nat): nat { x + Pow256(n) * z }

  lemma {:induction false} LoadBytesAppend(dram: seq<byte>, t: Cache, xlen: Xlen, r: Regs, va: nat, n: nat, m: nat)
    ensures var a := LoadBytes(dram, t, xlen, r, va, n);
            LoadBytes(dram, t, xlen, r, va, n + m) ==
            if !a.done.Value? then a
            else
              var b := LoadBytes(a.dram, a.tlb, xlen, r, va + n, m);
              if b.done.Value? then b.(done := Value(Joined(a.done.v, n, b.done.v))) else b
    decreases n
  {
    hide LoadOnce, Joined;
    if n != 0 {
      var first := LoadOnce(dram, t, xlen, r, va, 1);
      if first.done.Value? {
        LoadBytesAppend(first.dram, first.tlb, xlen, r, va + 1, n - 1, m);
        var a := LoadBytes(first.dram, first.tlb, xlen, r, va + 1, n - 1);
        if a.done.Value? {
          var b := LoadBytes(a.dram, a.tlb, xlen, r, va + n, m);
          if b.done.Value? { JoinStep(first.done.v, a.done.v, n, b.done.v); }
        }
      }
    } else {
      JoinNothing(LoadBytes(dram, t, xlen, r, va, m).done);
    }
  }

  lemma JoinNothing(d: Done)
    ensures d.Value? ==> Joined(0, 0, d.v) == d.v
  {
  }

  lemma JoinStep(x: nat, y: nat, n: nat, z: nat)
    requires n > 0
    ensures x + 256 * Joined(y, n - 1, z) == Joined(x + 256 * y, n, z)
  {
    assert 256 * (Pow256(n - 1) * z) == Pow256(n) * z;
  }

  lemma {:induction false} LittleEndianAppend(a: seq<byte>, b: seq<byte>)
    ensures LittleEndian(a + b) == Joined(LittleEndian(a), |a|, LittleEndian(b))
    decreases |a|
  {
    hide Joined;
    JoinNothing(Value(LittleEndian(b)));
    if a == [] {
      assert a + b == b;
    } else {
      assert (a + b)[1..] == a[1..] + b;
      LittleEndianAppend(a[1..], b);
      JoinStep(a[0], LittleEndian(a[1..]), |a|, LittleEndian(b));
    }
  }

  /** The bytes of the first page, with the translation of its first byte. */
  lemma FirstSpan(dram: seq<byte>, t: Cache, xlen: Xlen, r: Regs, va: nat, n: nat)
    requires n > 0 && va % PAGE + n <= PAGE
    ensures var (res, after, t2) := Cached(dram, t, xlen, r, va, Access.Load);
            var a := LoadBytes(dram, t, xlen, r, va, n);
            if !res.Ok? then !a.done.Value? && a.done == (if res.PageFault? then PageFaultAt(va) else DeviceHit)
            else a == After(if Lands(after, res.pa, n) then Value(LittleEndian(BytesAt(after, res.pa, n)))
                            else Missed(res.pa), after, t2)
  {
    hide Cached, Present, LittleEndian, Base, Missed;
    var (res, after, t2) := Cached(dram, t, xlen, r, va, Access.Load);
    if res.Ok? {
      CachedBase(dram, t, xlen, r, va, Access.Load);
      PresentBase(after, t2, xlen, r, va, Access.Load);
      assert LoadOnce(dram, t, xlen, r, va, 1) == LoadOnce(after, t2, xlen, r, va, 1);
      assert LoadBytes(dram, t, xlen, r, va, n) == LoadBytes(after, t2, xlen, r, va, n);
      hide LoadBytes, LoadOnce;
      SpanLoad(after, t2, xlen, r, va, n);
    }
  }

  // ---------------------------------------------------------------------------------------

  lemma PageOffsets(va: nat, size: nat)
    requires 1 <= size <= 8
    ensures Crosses(va, size) <==> va % PAGE + size > PAGE
    ensures va % PAGE + Served(va, size) <= PAGE && Served(va, size) > 0
    ensures Crosses(va, size) ==> NextPage(va) % PAGE == 0 && size - Room(va) > 0
  {
  }

  /** How a load ends. It page-faults at its own address when that does not translate; when it
      crosses, all its first bytes are in DRAM and the next page does not translate, it page-faults
      at the start of that page. It ends in an access fault where an address it needs is neither DRAM
      nor a device, and otherwise in the little-endian value of the bytes found. */
  lemma LoadEnds(dram: seq<byte>, t: Cache, xlen: Xlen, r: Regs, va: nat, size: nat)
    requires 1 <= size <= 8
    ensures var done, n, next := PagedAccess.Load(dram, t, xlen, r, va, size).done, Served(va, size), NextPage(va);
            var (res, after, t2) := Cached(dram, t, xlen, r, va, Access.Load);
            match res
            case PageFault => done == PageFaultAt(va)
            case DeviceTable => done == DeviceHit
            case Ok(pa) =>
              if !Lands(after, pa, n) then done == Missed(pa)
              else if !Crosses(va, size) then done == Value(LittleEndian(BytesAt(after, pa, n)))
              else
                var (res2, after2, t3) := Cached(after, t2, xlen, r, next, Access.Load);
                match res2
                case PageFault => done == PageFaultAt(next)
                case DeviceTable => done == DeviceHit
                case Ok(pa2) =>
                  if !Lands(after2, pa2, size - n) then done == Missed(pa2)
                  else done == Value(LittleEndian(BytesAt(after, pa, n) + BytesAt(after2, pa2, size - n)))
  {
    hide Cached, LittleEndian, LoadBytes, Crosses, NextPage;
    PageOffsets(va, size);
    if Crosses(va, size) { CrossingLoad(dram, t, xlen, r, va, size); }
  }

  lemma CrossingLoad(dram: seq<byte>, t: Cache, xlen: Xlen, r: Regs, va: nat, size: nat)
    requires 1 <= size <= 8 && Crosses(va, size)
    ensures var done, n, next := LoadBytes(dram, t, xlen, r, va, size).done, Room(va), NextPage(va);
            var (res, after, t2) := Cached(dram, t, xlen, r, va, Access.Load);
            if !res.Ok? then done == (if res.PageFault? then PageFaultAt(va) else DeviceHit)
            else if !Lands(after, res.pa, n) then done == Missed(res.pa)
            else
              var (res2, after2, t3) := Cached(after, t2, xlen, r, next, Access.Load);
              if !res2.Ok? then done == (if res2.PageFault? then PageFaultAt(next) else DeviceHit)
              else if !Lands(after2, res2.pa, size - n) then done == Missed(res2.pa)
              else done == Value(LittleEndian(BytesAt(after, res.pa, n) + BytesAt(after2, res2.pa, size - n)))
  {
    hide Cached, LittleEndian, LoadBytes;
    PageOffsets(va, size);
    var n := Room(va);
    FirstSpan(dram, t, xlen, r, va, n);
    LoadBytesAppend(dram, t, xlen, r, va, n, size - n);
    var (res, after, t2) := Cached(dram, t, xlen, r, va, Access.Load);
    if res.Ok? && Lands(after, res.pa, n) {
      FirstSpan(after, t2, xlen, r, va + n, size - n);
      var (res2, after2, t3) := Cached(after, t2, xlen, r, va + n, Access.Load);
      if res2.Ok? && Lands(after2, res2.pa, size - n) {
        LittleEndianAppend(BytesAt(after, res.pa, n), BytesAt(after2, res2.pa, size - n));
      }
    }
  }

  /** How a store ends. It page-faults at its own address when that does not translate, and at the
      start of the next page when it crosses, its own address translates and that page does not; an
      access fault comes only after every translation it needs. */
  lemma StoreEnds(dram: seq<byte>, t: Cache, xlen: Xlen, r: Regs, va: nat, size: nat, v: nat)
    requires 1 <= size <= 8
    ensures var done, n, next := PagedAccess.Store(dram, t, xlen, r, va, size, v).done, Served(va, size), NextPage(va);
            var (res, after, t2) := Cached(dram, t, xlen, r, va, Access.Store);
            match res
            case PageFault => done == PageFaultAt(va)
            case DeviceTable => done == DeviceHit
            case Ok(pa) =>
              if !Crosses(va, size) then done == if Lands(after, pa, n) then Value(0) else Missed(pa)
              else
                var (res2, after2, t3) := Cached(after, t2, xlen, r, next, Access.Store);
                match res2
                case PageFault => done == PageFaultAt(next)
                case DeviceTable => done == DeviceHit
                case Ok(pa2) =>
                  done == if !Lands(after2, pa, n) then Missed(pa)
                          else if !Lands(after2, pa2, size - n) then Missed(pa2)
                          else Value(0)
  {
    hide Cached, WriteLE, Probe, StoreBytes, Crosses, NextPage;
    PageOffsets(va, size);
    if Crosses(va, size) { CrossingStoreEnds(dram, t, xlen, r, va, size, v); }
  }

  lemma CrossingStoreEnds(dram: seq<byte>, t: Cache, xlen: Xlen, r: Regs, va: nat, size: nat, v: nat)
    requires 1 <= size <= 8 && Crosses(va, size)
    ensures var done, n, next := StoreSplit(dram, t, xlen, r, va, size, v).done, Room(va), NextPage(va);
            var (res, after, t2) := Cached(dram, t, xlen, r, va, Access.Store);
            if !res.Ok? then done == (if res.PageFault? then PageFaultAt(va) else DeviceHit)
            else
              var (res2, after2, t3) := Cached(after, t2, xlen, r, next, Access.Store);
              if !res2.Ok? then done == (if res2.PageFault? then PageFaultAt(next) else DeviceHit)
              else done == if !Lands(after2, res.pa, n) then Missed(res.pa)
                           else if !Lands(after2, res2.pa, size - n) then Missed(res2.pa)
                           else Value(0)
  {
    hide Cached, Probe, StoreBytes, Lands, Missed, Present, Base;
    PageOffsets(va, size);
    ProbeCrossing(dram, t, xlen, r, va, size);
    var n := Room(va);
    var (res, after, t2) := Cached(dram, t, xlen, r, va, Access.Store);
    if res.Ok? {
      var (res2, after2, t3) := Cached(after, t2, xlen, r, va + n, Access.Store);
      if res2.Ok? {
        CachedBase(dram, t, xlen, r, va, Access.Store);
        CachedBase(after, t2, xlen, r, va + n, Access.Store);
        BaseKept(after, t2, xlen, r, va, n);
        SecondPass(after2, t3, xlen, r, va, n, size - n, v);
      }
    }
  }

  /** Translating the next page leaves the answer for this one. */
  lemma BaseKept(dram: seq<byte>, t: Cache, xlen: Xlen, r: Regs, va: nat, n: nat)
    requires Present(t, r, va, Access.Store) && n == Room(va)
    ensures var t2 := Cached(dram, t, xlen, r, va + n, Access.Store).2;
            Present(t2, r, va, Access.Store) && Base(t2, va, Access.Store) == Base(t, va, Access.Store)
  {
    hide Translate, CtxOf;
    NextPageNumber(va);
    DistinctSlots(va / PAGE);
  }

  lemma NextPageNumber(va: nat)
    ensures (va + Room(va)) / PAGE == va / PAGE + 1
  {
  }

  lemma SecondPass(dram: seq<byte>, t: Cache, xlen: Xlen, r: Regs, va: nat, n: nat, m: nat, v: nat)
    requires n == Room(va) && 0 < m && m <= 8
    requires Present(t, r, va, Access.Store) && Present(t, r, va + n, Access.Store)
    ensures var pa, pa2 := Base(t, va, Access.Store), Base(t, va + n, Access.Store);
            StoreBytes(dram, t, xlen, r, va, n + m, v).done ==
            if !Lands(dram, pa, n) then Missed(pa) else if !Lands(dram, pa2, m) then Missed(pa2) else Value(0)
  {
    hide Cached, StoreBytes, Present, Base, Missed, WriteLE, ShiftBytes;
    NextPageStart(va, n);
    StoreBytesAppend(dram, t, xlen, r, va, n, m, v);
    if Lands(dram, Base(t, va, Access.Store), n) {
      StoreBytesPresent(dram, t, xlen, r, va, n, v);
      var d := WriteLE(dram, Base(t, va, Access.Store) - DRAM_BASE, n, v);
      if Lands(d, Base(t, va + n, Access.Store), m) {
        StoreBytesPresent(d, t, xlen, r, va + n, m, ShiftBytes(v, n));
      } else {
        SpanUnstored(d, t, xlen, r, va + n, m, ShiftBytes(v, n));
      }
    } else {
      SpanUnstored(dram, t, xlen, r, va, n, v);
    }
  }

  /** When accesses page-fault, and at which address: exactly when the translation of their own
      address does, or, for one that crosses and gets that far, that of the next page does. */
  lemma PageFaultsExactly(dram: seq<byte>, t: Cache, xlen: Xlen, r: Regs, va: nat, size: nat, v: nat, w: nat)
    requires 1 <= size <= 8
    ensures var (res, after, t2) := Cached(dram, t, xlen, r, va, Access.Load);
            PagedAccess.Load(dram, t, xlen, r, va, size).done == PageFaultAt(w) <==>
            (w == va && res.PageFault?) ||
            (w == NextPage(va) && Crosses(va, size) && res.Ok? && Lands(after, res.pa, Room(va)) &&
             Cached(after, t2, xlen, r, w, Access.Load).0.PageFault?)
    ensures var (res, after, t2) := Cached(dram, t, xlen, r, va, Access.Store);
            PagedAccess.Store(dram, t, xlen, r, va, size, v).done == PageFaultAt(w) <==>
            (w == va && res.PageFault?) ||
            (w == NextPage(va) && Crosses(va, size) && res.Ok? &&
             Cached(after, t2, xlen, r, w, Access.Store).0.PageFault?)
  {
    hide Cached, PagedAccess.Load, PagedAccess.Store, LittleEndian, Room, BytesAt, Lands;
    LoadEnds(dram, t, xlen, r, va, size);
    StoreEnds(dram, t, xlen, r, va, size, v);
  }
}
