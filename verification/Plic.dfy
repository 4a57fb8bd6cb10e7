/** The platform-level interrupt controller: arbitration, the claim/complete handshake and the
    register interface. A 32-bit mask register is modelled as the set of its bit numbers; Word and
    Bits convert at the register interface. */
module PlicModel {
  import opened Basics
  import opened Powers

  const MAX_SOURCES: nat := 32
  const CONTEXTS: nat := 2
  const PENDING_BASE: nat := 0x1000
  const ENABLE_BASE: nat := 0x2000
  const ENABLE_STRIDE: nat := 0x80
  const CONTROL_BASE: nat := 0x20_0000
  const CONTEXT_STRIDE: nat := 0x1000
  const U32: nat := 0x1_0000_0000

  predicate BitAt(v: nat, i: nat) { if i == 0 then v % 2 == 1 else BitAt(v / 2, i - 1) }

  /** The bits set in the low 32 bits of a register value. */
  function Bits(v: nat): set<nat> { set i: nat | i < MAX_SOURCES && BitAt(v, i) }

  function WordFrom(s: set<nat>, i: nat): nat
    requires i <= MAX_SOURCES
    decreases MAX_SOURCES - i
  {
    if i == MAX_SOURCES then 0 else (if i in s then 1 else 0) + 2 * WordFrom(s, i + 1)
  }

  /** The register value with exactly the given bits. */
  function Word(s: set<nat>): nat { WordFrom(s, 0) }

  lemma Halve(b: nat, w: nat)
    requires b <= 1
    ensures (b + 2 * w) / 2 == w && (b + 2 * w) % 2 == b
  {
  }

  lemma {:induction false} WordBit(s: set<nat>, j: nat, i: nat)
    requires i + j < MAX_SOURCES
    ensures BitAt(WordFrom(s, j), i) <==> i + j in s
    decreases i
  {
    Halve(if j in s then 1 else 0, WordFrom(s, j + 1));
    if i > 0 { WordBit(s, j + 1, i - 1); }
  }

  /** A mask survives the trip through a register. */
  lemma BitsOfWord(s: set<nat>)
    requires forall i :: i in s ==> i < MAX_SOURCES
    ensures Bits(Word(s)) == s
  {
    hide BitAt, WordFrom;
    forall i: nat | i < MAX_SOURCES ensures i in Bits(Word(s)) <==> i in s { WordBit(s, 0, i); }
  }

  /** A power of two has its one bit set. */
  lemma {:induction false} OneBit(k: nat, i: nat)
    ensures BitAt(Pow2(k), i) <==> i == k
    decreases i
  {
    if i > 0 {
      if k > 0 {
        OneBit(k - 1, i - 1);
      } else {
        NoBit(i - 1);
      }
    }
  }

  lemma {:induction false} NoBit(i: nat)
    ensures !BitAt(0, i)
  {
    if i > 0 { NoBit(i - 1); }
  }

  /** The bits of a number below 2^32 determine it. */
  lemma {:induction false} WordFromBits(s: set<nat>, v: nat, j: nat)
    requires j <= MAX_SOURCES && v < Pow2(MAX_SOURCES - j)
    requires forall i: nat :: j <= i < MAX_SOURCES ==> (i in s <==> BitAt(v, i - j))
    ensures WordFrom(s, j) == v
    decreases MAX_SOURCES - j
  {
    if j < MAX_SOURCES {
      assert BitAt(v, 0) <==> v % 2 == 1;
      forall i: nat | j + 1 <= i < MAX_SOURCES ensures i in s <==> BitAt(v / 2, i - (j + 1)) {
        assert BitAt(v, i - j) == BitAt(v / 2, i - j - 1);
      }
      WordFromBits(s, v / 2, j + 1);
    }
  }

  datatype State = State(priority: seq<nat>, levels: set<nat>, claimed: set<nat>, enable: seq<set<nat>>,
                         threshold: seq<nat>) {

    predicate Valid() {
      |priority| == MAX_SOURCES && |enable| == CONTEXTS && |threshold| == CONTEXTS &&
      (forall i :: i in levels ==> 1 <= i < MAX_SOURCES) &&
      (forall i :: i in claimed ==> 1 <= i < MAX_SOURCES) &&
      forall c :: 0 <= c < CONTEXTS ==> forall i :: i in enable[c] ==> 1 <= i < MAX_SOURCES
    }

    function Pending(): set<nat> { levels - claimed }

    /** What may be handed to a context: asserted, unclaimed, enabled and strictly above its threshold. */
    predicate Eligible(context: nat, x: nat)
      requires Valid() && context < CONTEXTS
    {
      x in Pending() && x in enable[context] && priority[x] > threshold[context]
    }

    function EligibleSet(context: nat): set<nat>
      requires Valid() && context < CONTEXTS
    {
      set x | x in levels && Eligible(context, x)
    }

    /** The arbitration order: higher priority first, lower number among equals. */
    predicate Beats(x: nat, y: nat)
      requires x < |priority| && y < |priority|
    {
      priority[x] > priority[y] || (priority[x] == priority[y] && x < y)
    }

    /** The scan from a source upward, holding the best so far. */
    function BestFrom(context: nat, source: nat, best: nat, bestPriority: nat): nat
      requires Valid() && context < CONTEXTS && 1 <= source <= MAX_SOURCES
      decreases MAX_SOURCES - source
    {
      if source == MAX_SOURCES then best
      else if source in Pending() && source in enable[context] && priority[source] > bestPriority then
        BestFrom(context, source + 1, source, priority[source])
      else BestFrom(context, source + 1, best, bestPriority)
    }

    function Best(context: nat): nat
      requires Valid() && context < CONTEXTS
    {
      BestFrom(context, 1, 0, threshold[context])
    }

    predicate IsPending(context: nat)
      requires Valid() && context < CONTEXTS
    {
      Best(context) != 0
    }

    function SetLevel(source: nat, asserted: bool): (s: State)
      requires Valid()
      ensures s.Valid()
    {
      if source == 0 || source >= MAX_SOURCES then this
      else this.(levels := if asserted then levels + {source} else levels - {source})
    }

    function Claimed(context: nat): (s: State)
      requires Valid() && context < CONTEXTS
      ensures s.Valid()
    {
      BestSpec(this, context);
      if Best(context) == 0 then this else this.(claimed := claimed + {Best(context)})
    }

    function Completed(source: nat): (s: State)
      requires Valid()
      ensures s.Valid()
    {
      if source < MAX_SOURCES then this.(claimed := claimed - {source}) else this
    }

    /** A register read: what it returns. */
    function ReadValue(offset: nat): nat
      requires Valid()
    {
      if offset < PENDING_BASE then
        if offset / 4 < MAX_SOURCES then priority[offset / 4] else 0
      else if offset < ENABLE_BASE then
        if offset == PENDING_BASE then Word(Pending()) else 0
      else if offset < CONTROL_BASE then
        var context, word := (offset - ENABLE_BASE) / ENABLE_STRIDE, (offset - ENABLE_BASE) % ENABLE_STRIDE;
        if word == 0 && context < CONTEXTS then Word(enable[context]) else 0
      else
        var context, field := (offset - CONTROL_BASE) / CONTEXT_STRIDE, (offset - CONTROL_BASE) % CONTEXT_STRIDE;
        if context >= CONTEXTS then 0
        else if field == 0 then threshold[context]
        else if field == 4 then Best(context)
        else 0
    }

    /** A register read: the state after it. Only a claim changes anything. */
    function AfterRead(offset: nat): (s: State)
      requires Valid()
      ensures s.Valid()
    {
      match ClaimContext(offset)
      case Some(context) => Claimed(context)
      case None => this
    }

    function AfterWrite(offset: nat, value64: nat): (s: State)
      requires Valid()
      ensures s.Valid()
    {
      var value := value64 % U32;
      if offset < PENDING_BASE then
        if 0 < offset / 4 < MAX_SOURCES then this.(priority := priority[offset / 4 := value]) else this
      else if offset < ENABLE_BASE then this
      else if offset < CONTROL_BASE then
        var context, word := (offset - ENABLE_BASE) / ENABLE_STRIDE, (offset - ENABLE_BASE) % ENABLE_STRIDE;
        if word == 0 && context < CONTEXTS then this.(enable := enable[context := Bits(value) - {0}]) else this
      else
        var context, field := (offset - CONTROL_BASE) / CONTEXT_STRIDE, (offset - CONTROL_BASE) % CONTEXT_STRIDE;
        if context >= CONTEXTS then this
        else if field == 0 then this.(threshold := threshold[context := value])
        else if field == 4 then Completed(value)
        else this
    }
  }

  /** The context whose claim/complete register is at this offset. */
  function ClaimContext(offset: nat): (c: Option<nat>)
    ensures c.Some? ==> c.value < CONTEXTS
  {
    if offset < CONTROL_BASE then None
    else
      var context, field := (offset - CONTROL_BASE) / CONTEXT_STRIDE, (offset - CONTROL_BASE) % CONTEXT_STRIDE;
      if context < CONTEXTS && field == 4 then Some(context) else None
  }

  lemma {:induction false} BestFromSpec(s: State, context: nat, source: nat, best: nat, bestPriority: nat)
    requires s.Valid() && context < CONTEXTS && 1 <= source <= MAX_SOURCES && best < source
    requires if best == 0 then bestPriority == s.threshold[context]
             else s.Eligible(context, best) && bestPriority == s.priority[best]
    requires forall y :: 1 <= y < source && y != best && s.Eligible(context, y) ==> best != 0 && s.Beats(best, y)
    ensures var b := s.BestFrom(context, source, best, bestPriority);
            b < MAX_SOURCES && (b != 0 ==> s.Eligible(context, b)) &&
            forall y :: s.Eligible(context, y) && y != b ==> b != 0 && s.Beats(b, y)
    decreases MAX_SOURCES - source
  {
    if source < MAX_SOURCES {
      if source in s.Pending() && source in s.enable[context] && s.priority[source] > bestPriority {
        BestFromSpec(s, context, source + 1, source, s.priority[source]);
      } else {
        BestFromSpec(s, context, source + 1, best, bestPriority);
      }
    }
  }

  /** best returns the eligible source that beats every other, or 0 when none is eligible. */
  lemma BestSpec(s: State, context: nat)
    requires s.Valid() && context < CONTEXTS
    ensures var b := s.Best(context);
            b < MAX_SOURCES && (b != 0 <==> exists y :: s.Eligible(context, y)) &&
            (b != 0 ==> s.Eligible(context, b)) &&
            forall y :: s.Eligible(context, y) && y != b ==> s.Beats(b, y)
  {
    BestFromSpec(s, context, 1, 0, s.threshold[context]);
  }

  // ---------------------------------------------------------------------------------------
  // Registers

  /** The register an offset addresses. */
  datatype Register =
    | Priority(source: nat)
    | PendingBits
    | Enable(context: nat)
    | Threshold(context: nat)
    | ClaimComplete(context: nat)
    | NoRegister

  function RegisterAt(offset: nat): Register {
    if offset < PENDING_BASE then if offset / 4 < MAX_SOURCES then Priority(offset / 4) else NoRegister
    else if offset < ENABLE_BASE then if offset == PENDING_BASE then PendingBits else NoRegister
    else if offset < CONTROL_BASE then
      var context, word := (offset - ENABLE_BASE) / ENABLE_STRIDE, (offset - ENABLE_BASE) % ENABLE_STRIDE;
      if word == 0 && context < CONTEXTS then Enable(context) else NoRegister
    else
      var context, field := (offset - CONTROL_BASE) / CONTEXT_STRIDE, (offset - CONTROL_BASE) % CONTEXT_STRIDE;
      if context >= CONTEXTS then NoRegister
      else if field == 0 then Threshold(context) else if field == 4 then ClaimComplete(context) else NoRegister
  }

  predicate Plain(r: Register) { r.Priority? || r.Enable? || r.Threshold? }

  lemma Pow2Of32()
    ensures Pow2(32) == U32
  {
    assert Pow2(4) == 16;
    hide Pow2;
    Pow2Add(4, 4);
    Pow2Add(8, 8);
    Pow2Add(16, 16);
  }

  lemma EnableBits(value: nat)
    requires value < U32
    ensures Word(Bits(value) - {0}) == value - value % 2
  {
    hide Pow2;
    Pow2Of32();
    var v := value - value % 2;
    forall i: nat | i < MAX_SOURCES ensures i in Bits(value) - {0} <==> BitAt(v, i) {
      Halve(value % 2, value / 2);
      Halve(0, value / 2);
    }
    WordFromBits(Bits(value) - {0}, v, 0);
  }

  /** A written register reads back, source 0 excepted, and no other plain register changes. */
  lemma RegistersReadBack(s: State, offset: nat, value: nat, other: nat)
    requires s.Valid() && Plain(RegisterAt(offset)) && RegisterAt(offset) != Priority(0)
    ensures var t := s.AfterWrite(offset, value);
            t.ReadValue(offset) == (if RegisterAt(offset).Enable? then value % U32 - value % 2 else value % U32) &&
            (Plain(RegisterAt(other)) && RegisterAt(other) != RegisterAt(offset) ==>
             t.ReadValue(other) == s.ReadValue(other))
  {
    hide Bits, Word, State.Best;
    EnableBits(value % U32);
    LowBitOf(value);
  }

  lemma LowBitOf(value: nat)
    ensures value % U32 % 2 == value % 2
  {
  }

  // ---------------------------------------------------------------------------------------
  // Runs

  /** What can happen to the controller: a guest register access, or a line changing. */
  datatype Event = Read(offset: nat) | Write(offset: nat, value: nat) | Level(source: nat, asserted: bool)

  function Step(s: State, ev: Event): (t: State)
    requires s.Valid()
    ensures t.Valid()
  {
    match ev
    case Read(offset) => s.AfterRead(offset)
    case Write(offset, value) => s.AfterWrite(offset, value)
    case Level(source, asserted) => s.SetLevel(source, asserted)
  }

  /** What the event hands out: the source a claim returned, 0 for anything else. */
  function Handed(s: State, ev: Event): nat
    requires s.Valid()
  {
    if ev.Read? && ClaimContext(ev.offset).Some? then s.ReadValue(ev.offset) else 0
  }

  predicate Completes(ev: Event, x: nat) {
    ev.Write? && ClaimContext(ev.offset).Some? && ev.value % U32 == x
  }

  /** Every non-zero claim is asserted, unclaimed, enabled, strictly above the threshold, of the
      greatest priority and the lowest number among ties, and leaves the source claimed. */
  lemma ClaimIsBest(s: State, offset: nat)
    requires s.Valid() && ClaimContext(offset).Some?
    ensures var x, context := Handed(s, Read(offset)), ClaimContext(offset).value;
            (x != 0 <==> exists y :: s.Eligible(context, y)) &&
            (x != 0 ==> s.Eligible(context, x) && x in Step(s, Read(offset)).claimed) &&
            (forall y :: s.Eligible(context, y) && y != x ==> s.Beats(x, y)) &&
            (x == 0 ==> Step(s, Read(offset)) == s)
  {
    BestSpec(s, ClaimContext(offset).value);
  }

  lemma ClaimTakes(s: State, ev: Event)
    requires s.Valid() && Handed(s, ev) != 0
    ensures Handed(s, ev) !in s.claimed && Handed(s, ev) in Step(s, ev).claimed
  {
    ClaimIsBest(s, ev.offset);
  }

  lemma ClaimedStays(s: State, ev: Event, x: nat)
    requires s.Valid() && x in s.claimed && !Completes(ev, x)
    ensures x in Step(s, ev).claimed
  {
  }

  /** The state before event k of a run. */
  function Before(s: State, evs: seq<Event>, k: nat): (t: State)
    requires s.Valid() && k <= |evs|
    ensures t.Valid()
    decreases k
  {
    if k == 0 then s else Step(Before(s, evs, k - 1), evs[k - 1])
  }

  lemma BeforeNext(s: State, evs: seq<Event>, k: nat)
    requires s.Valid() && k < |evs|
    ensures Before(s, evs, k + 1) == Step(Before(s, evs, k), evs[k])
  {
  }

  /** A claimed source can only be released by completing it. */
  lemma {:induction false} ReleasedByCompletion(s: State, evs: seq<Event>, x: nat, i: nat, j: nat)
    requires s.Valid() && i <= j <= |evs|
    requires x in Before(s, evs, i).claimed && x !in Before(s, evs, j).claimed
    ensures exists k :: i <= k < j && Completes(evs[k], x)
    decreases j
  {
    hide Step, Completes;
    if x in Before(s, evs, j - 1).claimed {
      if !Completes(evs[j - 1], x) { ClaimedStays(Before(s, evs, j - 1), evs[j - 1], x); }
    } else {
      ReleasedByCompletion(s, evs, x, i, j - 1);
    }
  }

  /** Over any interleaving of register accesses by both contexts and line changes, two claims
      that return the same source are separated by a completion of it. */
  lemma ClaimExclusion(s: State, evs: seq<Event>, i: nat, j: nat)
    requires s.Valid() && i < j < |evs|
    requires Handed(Before(s, evs, i), evs[i]) == Handed(Before(s, evs, j), evs[j]) != 0
    ensures exists k :: i < k < j && Completes(evs[k], Handed(Before(s, evs, i), evs[i]))
  {
    hide Handed, Step, Completes, Before;
    var x := Handed(Before(s, evs, i), evs[i]);
    ClaimTakes(Before(s, evs, i), evs[i]);
    ClaimTakes(Before(s, evs, j), evs[j]);
    BeforeNext(s, evs, i);
    ReleasedByCompletion(s, evs, x, i + 1, j);
    var k :| i + 1 <= k < j && Completes(evs[k], x);
  }

  // ---------------------------------------------------------------------------------------
  // Draining

  /** The results of n claims in a row by one context. */
  function Claims(s: State, context: nat, n: nat): seq<nat>
    requires s.Valid() && context < CONTEXTS
    decreases n
  {
    if n == 0 then [] else [s.Best(context)] + Claims(s.Claimed(context), context, n - 1)
  }

  lemma ClaimShrinks(s: State, context: nat)
    requires s.Valid() && context < CONTEXTS && s.Best(context) != 0
    ensures var t := s.Claimed(context);
            t.EligibleSet(context) == s.EligibleSet(context) - {s.Best(context)} &&
            s.Best(context) in s.EligibleSet(context) && |t.EligibleSet(context)| < |s.EligibleSet(context)| &&
            t.priority == s.priority
  {
    BestSpec(s, context);
    var t := s.Claimed(context);
    assert t.EligibleSet(context) == s.EligibleSet(context) - {s.Best(context)};
  }

  /** Claims until nothing is left. */
  function Drain(s: State, context: nat): seq<nat>
    requires s.Valid() && context < CONTEXTS
    decreases |s.EligibleSet(context)|
  {
    if s.Best(context) == 0 then []
    else
      ClaimShrinks(s, context);
      [s.Best(context)] + Drain(s.Claimed(context), context)
  }

  /** Draining hands out every eligible source exactly once, in strictly descending arbitration
      order; its length is the number of eligible sources. */
  lemma {:induction false} DrainSpec(s: State, context: nat)
    requires s.Valid() && context < CONTEXTS
    ensures var d := Drain(s, context);
            |d| == |s.EligibleSet(context)| &&
            (forall x :: x in d <==> x in s.EligibleSet(context)) &&
            (forall i :: 0 <= i < |d| ==> d[i] < MAX_SOURCES) &&
            forall i, j :: 0 <= i < j < |d| ==> s.Beats(d[i], d[j])
    decreases |s.EligibleSet(context)|
  {
    BestSpec(s, context);
    if s.Best(context) == 0 {
      assert s.EligibleSet(context) == {};
    } else {
      var b, t := s.Best(context), s.Claimed(context);
      ClaimShrinks(s, context);
      DrainSpec(t, context);
      DrainPrepend(s, t, context, b, Drain(t, context));
    }
  }

  lemma DrainPrepend(s: State, t: State, context: nat, b: nat, rest: seq<nat>)
    requires s.Valid() && t.Valid() && context < CONTEXTS && t.priority == s.priority
    requires b in s.EligibleSet(context) && t.EligibleSet(context) == s.EligibleSet(context) - {b}
    requires forall y :: s.Eligible(context, y) && y != b ==> s.Beats(b, y)
    requires |rest| == |t.EligibleSet(context)| && forall x :: x in rest <==> x in t.EligibleSet(context)
    requires forall i :: 0 <= i < |rest| ==> rest[i] < MAX_SOURCES
    requires forall i, j :: 0 <= i < j < |rest| ==> t.Beats(rest[i], rest[j])
    ensures var d := [b] + rest;
            |d| == |s.EligibleSet(context)| && (forall x :: x in d <==> x in s.EligibleSet(context)) &&
            (forall i :: 0 <= i < |d| ==> d[i] < MAX_SOURCES) &&
            forall i, j :: 0 <= i < j < |d| ==> s.Beats(d[i], d[j])
  {
    hide State.Eligible, State.EligibleSet, State.Beats;
    InEligibleSet(s, context, b);
    assert s.EligibleSet(context) == t.EligibleSet(context) + {b};
    forall j | 0 <= j < |rest| ensures s.Beats(b, rest[j]) {
      InEligibleSet(s, context, rest[j]);
      assert rest[j] in t.EligibleSet(context);
    }
    forall i, j | 0 <= i < j < |rest| ensures s.Beats(rest[i], rest[j]) {
      SamePriorities(s, t, rest[i], rest[j]);
    }
  }

  lemma InEligibleSet(s: State, context: nat, x: nat)
    requires s.Valid() && context < CONTEXTS
    ensures x in s.EligibleSet(context) <==> s.Eligible(context, x)
    ensures s.Eligible(context, x) ==> x < MAX_SOURCES
  {
  }

  lemma SamePriorities(s: State, t: State, x: nat, y: nat)
    requires t.priority == s.priority && x < |s.priority| && y < |s.priority|
    ensures s.Beats(x, y) == t.Beats(x, y)
  {
  }

  lemma PrependTake(b: nat, d: seq<nat>, n: nat)
    requires n > 0
    ensures [b] + (if n - 1 <= |d| then d[..n - 1] else d + Zeros(n - 1 - |d|)) ==
            if n <= |[b] + d| then ([b] + d)[..n] else [b] + d + Zeros(n - |[b] + d|)
  {
  }

  function Zeros(n: nat): seq<nat> { seq(n, _ => 0) }

  /** The controller at reset. */
  const RESET: State := State(Zeros(MAX_SOURCES), {}, {}, [{}, {}], [0, 0])

  /** Repeated claims with nothing else changing: the drain order, and then 0 forever. */
  lemma {:induction false} RepeatedClaims(s: State, context: nat, n: nat)
    requires s.Valid() && context < CONTEXTS
    ensures var d := Drain(s, context);
            Claims(s, context, n) == if n <= |d| then d[..n] else d + Zeros(n - |d|)
    decreases n
  {
    hide Drain, Claims;
    DrainStep(s, context);
    ClaimsStep(s, context, n);
    if n != 0 {
      var t := s.Claimed(context);
      RepeatedClaims(t, context, n - 1);
      if s.Best(context) == 0 {
        assert t == s;
        assert Zeros(n) == [0] + Zeros(n - 1);
      } else {
        PrependTake(s.Best(context), Drain(t, context), n);
      }
    }
  }

  lemma DrainStep(s: State, context: nat)
    requires s.Valid() && context < CONTEXTS
    ensures Drain(s, context) ==
            if s.Best(context) == 0 then [] else [s.Best(context)] + Drain(s.Claimed(context), context)
  {
  }

  lemma ClaimsStep(s: State, context: nat, n: nat)
    requires s.Valid() && context < CONTEXTS
    ensures Claims(s, context, n) ==
            if n == 0 then [] else [s.Best(context)] + Claims(s.Claimed(context), context, n - 1)
  {
  }

  // ---------------------------------------------------------------------------------------

  /** The device itself. */
  class Plic {
    var priority: seq<nat>
    var levels: set<nat>
    var claimed: set<nat>
    var enable: seq<set<nat>>
    var threshold: seq<nat>

    ghost function Model(): State
      reads this
    {
      State(priority, levels, claimed, enable, threshold)
    }

    ghost predicate Valid()
      reads this
    {
      Model().Valid()
    }

    constructor ()
      ensures Valid() && Model() == RESET
    {
      priority := Zeros(MAX_SOURCES);
      levels, claimed := {}, {};
      enable, threshold := [{}, {}], [0, 0];
    }

    method SetLevel(source: nat, asserted: bool)
      requires Valid()
      modifies this
      ensures Valid() && Model() == old(Model()).SetLevel(source, asserted)
      ensures 1 <= source < 32 ==> (source in levels <==> asserted)
    {
      if source == 0 || source >= MAX_SOURCES {
        return;
      }
      if asserted {
        levels := levels + {source};
      } else {
        levels := levels - {source};
      }
    }

    method Best(context: nat) returns (best: nat)
      requires Valid() && context < CONTEXTS
      ensures best == Model().Best(context)
      ensures best < MAX_SOURCES && (best != 0 <==> exists y :: Model().Eligible(context, y))
      ensures best != 0 ==> Model().Eligible(context, best)
      ensures forall y :: Model().Eligible(context, y) && y != best ==> Model().Beats(best, y)
    {
      BestSpec(Model(), context);
      var candidates := (levels - claimed) * enable[context];
      best := 0;
      var bestPriority := threshold[context];
      for source := 1 to MAX_SOURCES
        invariant Model().BestFrom(context, source, best, bestPriority) == Model().Best(context)
      {
        if source !in candidates {
          continue;
        }
        if priority[source] > bestPriority {
          best := source;
          bestPriority := priority[source];
        }
      }
    }

    method IsPending(context: nat) returns (pending: bool)
      requires Valid() && context < CONTEXTS
      ensures pending == Model().IsPending(context)
    {
      var best := Best(context);
      pending := best != 0;
    }

    method Claim(context: nat) returns (source: nat)
      requires Valid() && context < CONTEXTS
      modifies this
      ensures Valid() && source == old(Model()).Best(context) && Model() == old(Model()).Claimed(context)
      ensures claimed == if source == 0 then old(claimed) else old(claimed) + {source}
    {
      source := Best(context);
      if source != 0 {
        claimed := claimed + {source};
      }
    }

    method Complete(source: nat)
      requires Valid()
      modifies this
      ensures Valid() && Model() == old(Model()).Completed(source)
      ensures claimed == old(claimed) - {source}
    {
      if source < MAX_SOURCES {
        claimed := claimed - {source};
      }
    }

    method Read(offset: nat) returns (value: nat)
      requires Valid()
      modifies this
      ensures Valid() && value == old(Model()).ReadValue(offset) && Model() == old(Model()).AfterRead(offset)
    {
      value := 0;
      if offset < PENDING_BASE {
        if offset / 4 < MAX_SOURCES {
          value := priority[offset / 4];
        }
      } else if offset < ENABLE_BASE {
        if offset == PENDING_BASE {
          value := Word(levels - claimed);
        }
      } else if offset < CONTROL_BASE {
        var context, word := (offset - ENABLE_BASE) / ENABLE_STRIDE, (offset - ENABLE_BASE) % ENABLE_STRIDE;
        if word == 0 && context < CONTEXTS {
          value := Word(enable[context]);
        }
      } else {
        var context, field := (offset - CONTROL_BASE) / CONTEXT_STRIDE, (offset - CONTROL_BASE) % CONTEXT_STRIDE;
        if context < CONTEXTS {
          if field == 0 {
            value := threshold[context];
          } else if field == 4 {
            value := Claim(context);
          }
        }
      }
    }

    method Write(offset: nat, value64: nat)
      requires Valid()
      modifies this
      ensures Valid() && Model() == old(Model()).AfterWrite(offset, value64)
    {
      var value := value64 % U32;
      if offset < PENDING_BASE {
        if 0 < offset / 4 < MAX_SOURCES {
          priority := priority[offset / 4 := value];
        }
      } else if ENABLE_BASE <= offset < CONTROL_BASE {
        var context, word := (offset - ENABLE_BASE) / ENABLE_STRIDE, (offset - ENABLE_BASE) % ENABLE_STRIDE;
        if word == 0 && context < CONTEXTS {
          enable := enable[context := Bits(value) - {0}];
        }
      } else if offset >= CONTROL_BASE {
        var context, field := (offset - CONTROL_BASE) / CONTEXT_STRIDE, (offset - CONTROL_BASE) % CONTEXT_STRIDE;
        if context < CONTEXTS {
          if field == 0 {
            threshold := threshold[context := value];
          } else if field == 4 {
            Complete(value);
          }
        }
      }
    }
  }
}
