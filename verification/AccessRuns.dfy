/** Whole loads and stores as runs of translations and byte stores. */
module AccessRuns {
  import opened Basics
  import opened Mmu
  import opened PagedAccess
  import opened PagedWalks
  import opened Tlb
  import R = TlbRuns

  /** The state after a run. */
  function Run(xlen: Xlen, s: R.State, evs: seq<R.Event>): R.State
    decreases |evs|
  {
    if evs == [] then s else Run(xlen, R.Step(xlen, s, evs[0]), evs[1..])
  }

  lemma {:induction false} RunJoins(xlen: Xlen, s: R.State, a: seq<R.Event>, b: seq<R.Event>)
    ensures Run(xlen, s, a + b) == Run(xlen, Run(xlen, s, a), b)
    decreases |a|
  {
    hide R.Step;
    if a == [] {
      assert a + b == b;
    } else {
      assert (a + b)[1..] == a[1..] + b;
      RunJoins(xlen, R.Step(xlen, s, a[0]), a[1..], b);
    }
  }

  lemma RunOne(xlen: Xlen, s: R.State, ev: R.Event)
    ensures Run(xlen, s, [ev]) == R.Step(xlen, s, ev)
  {
    hide R.Step;
    assert [ev][1..] == [];
  }

  /** The same runs as those of translations alone. */
  lemma {:induction false} RunIsBefore(xlen: Xlen, s: R.State, evs: seq<R.Event>, k: nat)
    requires k <= |evs|
    ensures R.Before(xlen, s, evs, k) == Run(xlen, s, evs[..k])
    decreases k
  {
    hide R.Step, Run;
    if k > 0 {
      RunIsBefore(xlen, s, evs, k - 1);
      assert evs[..k] == evs[..k - 1] + [evs[k - 1]];
      RunJoins(xlen, s, evs[..k - 1], [evs[k - 1]]);
      RunOne(xlen, R.Before(xlen, s, evs, k - 1), evs[k - 1]);
    } else {
      RunNone(xlen, s, evs[..0]);
    }
  }

  lemma RunNone(xlen: Xlen, s: R.State, evs: seq<R.Event>)
    requires evs == []
    ensures Run(xlen, s, evs) == s
  {
  }

  lemma {:induction false} RunKeeps(xlen: Xlen, s: R.State, evs: seq<R.Event>)
    requires R.Consistent(xlen, s)
    ensures R.Consistent(xlen, Run(xlen, s, evs))
    decreases |evs|
  {
    hide R.Consistent, R.Step;
    if evs != [] {
      R.StepKeeps(xlen, s, evs[0]);
      RunKeeps(xlen, R.Step(xlen, s, evs[0]), evs[1..]);
    }
  }

  // ---------------------------------------------------------------------------------------
  // The events of a load and of a store

  function LoadBytesEvents(dram: seq<byte>, t: Cache, xlen: Xlen, r: Regs, va: nat, n: nat): seq<R.Event>
    decreases n
  {
    if n == 0 then []
    else
      var first := LoadOnce(dram, t, xlen, r, va, 1);
      [R.Touch(va, Access.Load)] +
      if first.done.Value? then LoadBytesEvents(first.dram, first.tlb, xlen, r, va + 1, n - 1) else []
  }

  function LoadEvents(dram: seq<byte>, t: Cache, xlen: Xlen, r: Regs, va: nat, size: nat): seq<R.Event> {
    if va % PAGE + size <= PAGE then [R.Touch(va, Access.Load)] else LoadBytesEvents(dram, t, xlen, r, va, size)
  }

  /** The bytes of a value, stored from index i up. */
  function ByteEvents(i: nat, size: nat, v: nat): seq<R.Event>
    decreases size
  {
    if size == 0 then [] else [R.StoreByte(i, v % 256)] + ByteEvents(i + 1, size - 1, v / 256)
  }

  function WriteEvents(dram: seq<byte>, pa: nat, size: nat, v: nat): seq<R.Event> {
    match Index(dram, pa, size)
    case Some(i) => ByteEvents(i, size, v)
    case None => []
  }

  function StoreOnceEvents(dram: seq<byte>, t: Cache, xlen: Xlen, r: Regs, va: nat, size: nat, v: nat): seq<R.Event> {
    var (res, after, _) := Cached(dram, t, xlen, r, va, Access.Store);
    [R.Touch(va, Access.Store)] + if res.Ok? then WriteEvents(after, res.pa, size, v) else []
  }

  function ProbeEvents(dram: seq<byte>, t: Cache, xlen: Xlen, r: Regs, va: nat, n: nat): seq<R.Event>
    decreases n
  {
    if n == 0 then []
    else
      var (res, after, t2) := Cached(dram, t, xlen, r, va, Access.Store);
      [R.Touch(va, Access.Store)] + if res.Ok? then ProbeEvents(after, t2, xlen, r, va + 1, n - 1) else []
  }

  function StoreBytesEvents(dram: seq<byte>, t: Cache, xlen: Xlen, r: Regs, va: nat, n: nat, v: nat): seq<R.Event>
    decreases n
  {
    if n == 0 then []
    else
      var first := StoreOnce(dram, t, xlen, r, va, 1, v);
      StoreOnceEvents(dram, t, xlen, r, va, 1, v) +
      if first.done.Value? then StoreBytesEvents(first.dram, first.tlb, xlen, r, va + 1, n - 1, v / 256) else []
  }

  function StoreEvents(dram: seq<byte>, t: Cache, xlen: Xlen, r: Regs, va: nat, size: nat, v: nat): seq<R.Event> {
    if va % PAGE + size <= PAGE then StoreOnceEvents(dram, t, xlen, r, va, size, v)
    else
      var probed := Probe(dram, t, xlen, r, va, size);
      ProbeEvents(dram, t, xlen, r, va, size) +
      if probed.done.Value? then StoreBytesEvents(probed.dram, probed.tlb, xlen, r, va, size, v) else []
  }

  /** The state holds this memory and cache, under the same registers as before. */
  predicate Holds(before: R.State, after: R.State, dram: seq<byte>, t: Cache) {
    after.dram == dram && after.tlb == t && after.regs == before.regs
  }

  lemma TouchHolds(xlen: Xlen, s: R.State, va: nat, access: Access)
    ensures var (_, after, t) := Cached(s.dram, s.tlb, xlen, s.regs, va, access);
            Holds(s, Run(xlen, s, [R.Touch(va, access)]), after, t)
  {
    hide Cached, FillersAfter, AfterTouch;
    RunOne(xlen, s, R.Touch(va, access));
  }

  lemma LoadOnceHolds(xlen: Xlen, s: R.State, va: nat, size: nat)
    ensures var l := LoadOnce(s.dram, s.tlb, xlen, s.regs, va, size);
            Holds(s, Run(xlen, s, [R.Touch(va, Access.Load)]), l.dram, l.tlb)
  {
    hide Cached, ReadPhysical, Run;
    TouchHolds(xlen, s, va, Access.Load);
  }

  lemma {:induction false} LoadBytesHolds(xlen: Xlen, s: R.State, va: nat, n: nat)
    ensures var l := LoadBytes(s.dram, s.tlb, xlen, s.regs, va, n);
            Holds(s, Run(xlen, s, LoadBytesEvents(s.dram, s.tlb, xlen, s.regs, va, n)), l.dram, l.tlb)
    decreases n
  {
    hide LoadOnce, R.Step;
    if n > 0 {
      hide Run;
      LoadOnceHolds(xlen, s, va, 1);
      var first := LoadOnce(s.dram, s.tlb, xlen, s.regs, va, 1);
      var touch := [R.Touch(va, Access.Load)];
      var u := Run(xlen, s, touch);
      if first.done.Value? {
        LoadBytesHolds(xlen, u, va + 1, n - 1);
        RunJoins(xlen, s, touch, LoadBytesEvents(u.dram, u.tlb, xlen, u.regs, va + 1, n - 1));
      } else {
        assert touch + [] == touch;
      }
    }
  }

  /** A load is a run of translations: memory and cache after it are those after the run. */
  lemma LoadIsRun(xlen: Xlen, s: R.State, va: nat, size: nat)
    ensures var l := PagedAccess.Load(s.dram, s.tlb, xlen, s.regs, va, size);
            Holds(s, Run(xlen, s, LoadEvents(s.dram, s.tlb, xlen, s.regs, va, size)), l.dram, l.tlb)
  {
    hide LoadOnce, LoadBytes, LoadBytesEvents, Run;
    LoadOnceHolds(xlen, s, va, size);
    LoadBytesHolds(xlen, s, va, size);
  }

  lemma {:induction false} BytesHold(xlen: Xlen, s: R.State, i: nat, size: nat, v: nat)
    requires i + size <= |s.dram|
    ensures Holds(s, Run(xlen, s, ByteEvents(i, size, v)), WriteLE(s.dram, i, size, v), s.tlb)
    decreases size
  {
    hide AfterStore;
    if size > 0 {
      var ev := R.StoreByte(i, v % 256);
      var u := R.Step(xlen, s, ev);
      BytesHold(xlen, u, i + 1, size - 1, v / 256);
      var rest := ByteEvents(i + 1, size - 1, v / 256);
      assert ([ev] + rest)[1..] == rest;
    }
  }

  lemma WriteHolds(xlen: Xlen, s: R.State, pa: nat, size: nat, v: nat)
    ensures var w := WritePhysical(s.dram, s.tlb, pa, size, v);
            Holds(s, Run(xlen, s, WriteEvents(s.dram, pa, size, v)), w.dram, w.tlb)
  {
    hide WriteLE, ByteEvents, R.Step;
    if Index(s.dram, pa, size).Some? { BytesHold(xlen, s, pa - DRAM_BASE, size, v); }
  }

  lemma StoreOnceHolds(xlen: Xlen, s: R.State, va: nat, size: nat, v: nat)
    ensures var w := StoreOnce(s.dram, s.tlb, xlen, s.regs, va, size, v);
            Holds(s, Run(xlen, s, StoreOnceEvents(s.dram, s.tlb, xlen, s.regs, va, size, v)), w.dram, w.tlb)
  {
    hide Cached, Run, WriteEvents, WritePhysical;
    TouchHolds(xlen, s, va, Access.Store);
    var (res, after, t) := Cached(s.dram, s.tlb, xlen, s.regs, va, Access.Store);
    var touch := [R.Touch(va, Access.Store)];
    if res.Ok? {
      WriteHolds(xlen, Run(xlen, s, touch), res.pa, size, v);
      RunJoins(xlen, s, touch, WriteEvents(after, res.pa, size, v));
    } else {
      assert touch + [] == touch;
    }
  }

  lemma {:induction false} ProbeHolds(xlen: Xlen, s: R.State, va: nat, n: nat)
    ensures var p := Probe(s.dram, s.tlb, xlen, s.regs, va, n);
            Holds(s, Run(xlen, s, ProbeEvents(s.dram, s.tlb, xlen, s.regs, va, n)), p.dram, p.tlb)
    decreases n
  {
    hide Cached, R.Step;
    if n > 0 {
      hide Run;
      TouchHolds(xlen, s, va, Access.Store);
      var (res, after, t) := Cached(s.dram, s.tlb, xlen, s.regs, va, Access.Store);
      var touch := [R.Touch(va, Access.Store)];
      var u := Run(xlen, s, touch);
      if res.Ok? {
        ProbeHolds(xlen, u, va + 1, n - 1);
        RunJoins(xlen, s, touch, ProbeEvents(u.dram, u.tlb, xlen, u.regs, va + 1, n - 1));
      } else {
        assert touch + [] == touch;
      }
    }
  }

  lemma {:induction false} StoreBytesHold(xlen: Xlen, s: R.State, va: nat, n: nat, v: nat)
    ensures var w := StoreBytes(s.dram, s.tlb, xlen, s.regs, va, n, v);
            Holds(s, Run(xlen, s, StoreBytesEvents(s.dram, s.tlb, xlen, s.regs, va, n, v)), w.dram, w.tlb)
    decreases n
  {
    hide StoreOnce, StoreOnceEvents, R.Step;
    if n > 0 {
      hide Run;
      StoreOnceHolds(xlen, s, va, 1, v);
      var first := StoreOnce(s.dram, s.tlb, xlen, s.regs, va, 1, v);
      var once := StoreOnceEvents(s.dram, s.tlb, xlen, s.regs, va, 1, v);
      var u := Run(xlen, s, once);
      if first.done.Value? {
        StoreBytesHold(xlen, u, va + 1, n - 1, v / 256);
        RunJoins(xlen, s, once, StoreBytesEvents(u.dram, u.tlb, xlen, u.regs, va + 1, n - 1, v / 256));
      } else {
        assert once + [] == once;
      }
    }
  }

  /** A store is a run of translations and byte stores. */
  lemma StoreIsRun(xlen: Xlen, s: R.State, va: nat, size: nat, v: nat)
    ensures var w := PagedAccess.Store(s.dram, s.tlb, xlen, s.regs, va, size, v);
            Holds(s, Run(xlen, s, StoreEvents(s.dram, s.tlb, xlen, s.regs, va, size, v)), w.dram, w.tlb)
  {
    hide StoreOnce, StoreBytes, StoreBytesEvents, StoreOnceEvents, Probe, ProbeEvents, Run;
    if va % PAGE + size <= PAGE {
      StoreOnceHolds(xlen, s, va, size, v);
    } else {
      ProbeHolds(xlen, s, va, size);
      var probes := ProbeEvents(s.dram, s.tlb, xlen, s.regs, va, size);
      var p := Probe(s.dram, s.tlb, xlen, s.regs, va, size);
      var u := Run(xlen, s, probes);
      if p.done.Value? {
        StoreBytesHold(xlen, u, va, size, v);
        RunJoins(xlen, s, probes, StoreBytesEvents(u.dram, u.tlb, xlen, u.regs, va, size, v));
      } else {
        assert probes + [] == probes;
      }
    }
  }

  // ---------------------------------------------------------------------------------------
  // Runs of loads and stores

  /** A step of a program: a load, a store, or any other event. */
  datatype Op = Loading(va: nat, size: nat) | Storing(va: nat, size: nat, v: nat) | Other(ev: R.Event)

  function EventsOf(xlen: Xlen, s: R.State, op: Op): seq<R.Event> {
    match op
    case Loading(va, size) => LoadEvents(s.dram, s.tlb, xlen, s.regs, va, size)
    case Storing(va, size, v) => StoreEvents(s.dram, s.tlb, xlen, s.regs, va, size, v)
    case Other(ev) => [ev]
  }

  /** The events of a program's first k steps. */
  function EventsBefore(xlen: Xlen, s: R.State, ops: seq<Op>, k: nat): seq<R.Event>
    requires k <= |ops|
    decreases k
  {
    if k == 0 then []
    else
      var before := EventsBefore(xlen, s, ops, k - 1);
      before + EventsOf(xlen, Run(xlen, s, before), ops[k - 1])
  }

  /** The cached hart before step k. */
  function OpBefore(xlen: Xlen, s: R.State, ops: seq<Op>, k: nat): R.State
    requires k <= |ops|
  {
    Run(xlen, s, EventsBefore(xlen, s, ops, k))
  }

  /** Each step is the load, the store or the event that it names. */
  lemma OpSteps(xlen: Xlen, s: R.State, ops: seq<Op>, k: nat)
    requires k < |ops|
    ensures var b, c := OpBefore(xlen, s, ops, k), OpBefore(xlen, s, ops, k + 1);
            match ops[k]
            case Loading(va, size) =>
              var l := PagedAccess.Load(b.dram, b.tlb, xlen, b.regs, va, size); Holds(b, c, l.dram, l.tlb)
            case Storing(va, size, v) =>
              var w := PagedAccess.Store(b.dram, b.tlb, xlen, b.regs, va, size, v); Holds(b, c, w.dram, w.tlb)
            case Other(ev) => c == R.Step(xlen, b, ev)
  {
    hide Run, LoadEvents, StoreEvents, PagedAccess.Load, PagedAccess.Store, R.Step;
    var before := EventsBefore(xlen, s, ops, k);
    var b := Run(xlen, s, before);
    RunJoins(xlen, s, before, EventsOf(xlen, b, ops[k]));
    match ops[k]
    case Loading(va, size) => LoadIsRun(xlen, b, va, size);
    case Storing(va, size, v) => StoreIsRun(xlen, b, va, size, v);
    case Other(ev) => RunOne(xlen, b, ev);
  }

  /** The tables for each byte of an access are current. */
  predicate AllCurrent(s: R.State, xlen: Xlen, va: nat, size: nat, access: Access) {
    forall w :: va <= w < va + size ==> Current(s.book, xlen, s.regs, w, access)
  }

  lemma ClearUsable(s: R.State, xlen: Xlen, va: nat, size: nat, access: Access)
    requires !s.regs.mprv && AllCurrent(s, xlen, va, size, access)
    ensures AllUsable(s.tlb, s.fillers, xlen, s.book, s.regs, va, size, access)
  {
    hide Current, Hits;
  }

  /** Over any run of loads, stores, fetches, register changes, byte stores and fences, a load made
      with MPRV clear through current tables gets the value or fault, and leaves the memory, that it
      would with a walk made then for each of its translations. */
  lemma LoadInRun(xlen: Xlen, s: R.State, ops: seq<Op>, k: nat)
    requires R.Consistent(xlen, s) && k < |ops| && ops[k].Loading? && 1 <= ops[k].size
    requires var b := OpBefore(xlen, s, ops, k);
             !b.regs.mprv && AllCurrent(b, xlen, ops[k].va, ops[k].size, Access.Load)
    ensures var b, va, size := OpBefore(xlen, s, ops, k), ops[k].va, ops[k].size;
            var l := PagedAccess.Load(b.dram, b.tlb, xlen, b.regs, va, size);
            (l.done, OpBefore(xlen, s, ops, k + 1).dram) == WalkedLoad(b.dram, xlen, b.regs, va, size)
  {
    hide CacheOk, OpBefore, PagedAccess.Load, WalkedLoad, AllUsable, AllCurrent;
    var b := OpBefore(xlen, s, ops, k);
    OpConsistent(xlen, s, ops, k);
    ClearUsable(b, xlen, ops[k].va, ops[k].size, Access.Load);
    LoadTransparent(b.dram, b.tlb, b.fillers, xlen, b.book, b.regs, ops[k].va, ops[k].size);
    OpSteps(xlen, s, ops, k);
  }

  lemma OpConsistent(xlen: Xlen, s: R.State, ops: seq<Op>, k: nat)
    requires R.Consistent(xlen, s) && k <= |ops|
    ensures R.Consistent(xlen, OpBefore(xlen, s, ops, k))
  {
    hide R.Consistent, Run;
    RunKeeps(xlen, s, EventsBefore(xlen, s, ops, k));
  }

  /** And so does a store whose second pass, if it crosses a page, is undisturbed. */
  lemma StoreInRun(xlen: Xlen, s: R.State, ops: seq<Op>, k: nat)
    requires R.Consistent(xlen, s) && k < |ops| && ops[k].Storing? && 1 <= ops[k].size <= 8
    requires var b := OpBefore(xlen, s, ops, k);
             !b.regs.mprv && AllCurrent(b, xlen, ops[k].va, ops[k].size, Access.Store)
    requires var b, va, size := OpBefore(xlen, s, ops, k), ops[k].va, ops[k].size;
             var q := Probe(b.dram, b.tlb, xlen, b.regs, va, size);
             va % PAGE + size > PAGE && q.done.Value? ==> Undisturbed(q.dram, q.tlb, xlen, b.regs, va, size, ops[k].v)
    ensures var b, va, size, v := OpBefore(xlen, s, ops, k), ops[k].va, ops[k].size, ops[k].v;
            var w := PagedAccess.Store(b.dram, b.tlb, xlen, b.regs, va, size, v);
            (w.done, OpBefore(xlen, s, ops, k + 1).dram) == WalkedStore(b.dram, xlen, b.regs, va, size, v)
  {
    hide CacheOk, OpBefore, PagedAccess.Store, WalkedStore, AllUsable, AllCurrent, Probe, Undisturbed;
    var b := OpBefore(xlen, s, ops, k);
    OpConsistent(xlen, s, ops, k);
    ClearUsable(b, xlen, ops[k].va, ops[k].size, Access.Store);
    StoreTransparent(b.dram, b.tlb, b.fillers, xlen, b.book, b.regs, ops[k].va, ops[k].size, ops[k].v);
    OpSteps(xlen, s, ops, k);
  }
}
