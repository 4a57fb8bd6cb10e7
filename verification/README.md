# A verified model of the RISC-V emulator's core

This project models the hard core of a RISC-V hart emulator (RV32 and RV64) in Dafny and proves what
that core is for: a soft-float unit that rounds every result correctly, an address translator whose
cache cannot be noticed below machine mode, an interrupt controller and a lazy device scan that behave like their simple
forms, a trap mechanism that nests, and a width-parametric integer unit.

`dafny verify dfyconfig.toml` checks everything.

## How the model is laid out

| file | what it holds |
|---|---|
| `Basics`, `Arithmetic`, `Powers` | shared vocabulary, the memory map, integer facts, powers of two as integers and reals |
| `FloatFormat` | the two formats, their bit fields, and the real number each pattern denotes |
| `Rounding` | correct rounding stated over real values, with no reference to the code |
| `Packing`, `Sums`, `FloatOps`, `FloatSqrt`, `FloatInt`, `FloatCompare` | the operations of `fpu.rs` |
| `FloatCorrect`, `FloatLaws`, `FloatOrder`, `FloatSpecial`, `FloatRange`, `FloatIntOrder` | what those operations guarantee |
| `Mmu`, `MmuTheory`, `Tlb`, `PagedAccess` | the page walk, the translation cache, loads and stores through it, on values |
| `TlbRuns`, `HartMemory` | whole runs of the cached hart beside an uncached one, and under the registers that traps set |
| `PagedWalks`, `SelfStore`, `AccessRuns` | loads and stores beside walked ones, a store that tells them apart, and whole runs of loads and stores |
| `PageTables`, `AccessOutcome`, `HartPaging` | what page tables mean without a walk, how every load and store ends, what the bits of mstatus do to an access and how a page fault reaches the kernel |
| `Memory`, `Walker`, `Cpu` | the same in the source's imperative form: memory, the walk loop and the hart, updated in place |
| `Plic`, `Uart`, `DeviceScan`, `DeviceStale` | the interrupt controller, the console device, the timer tick with its lazy scan, and what is left when that scan is wrong |
| `Csr`, `CsrStore`, `Trap` | control registers, the register array, trap entry and return, whole runs |
| `FormatMeaning`, `PlicMeaning`, `DeviceMeaning`, `CsrMeaning`, `TrapMeaning` | the same components in literal bits, offsets and addresses, independent of the definitions the models share with their specifications |
| `IntegerUnit` | the ALU and the multiply/divide unit |

Each class method of `Memory`, `Walker`, `Cpu`, `CsrStore`, `Plic` and `Uart` is proved equal to a pure
function of the old state; the theorems are proved about those functions.

**Floating point.** A finite pattern denotes a real number. `Rounding.RoundsTo` says what it means for
a representable `y` to be the rounding of a real `x` in each of the five modes, over values only:
rounding down is the greatest representable value not above `x`; to nearest is a representable value no
other is closer than, ties to the even significand or away from zero; towards zero is the value of
largest magnitude not beyond `x`. `Packing.CorrectlyRounded` adds the format: past the largest finite
value the result is the infinity or the largest finite value according to the mode, and the flags follow
from the delivered value. `Packing.Delivers` is the same prescription over magnitudes, which also covers
irrational square roots, and `Packing.DeliversUnique` shows that the prescription fixes pattern and
flags. Sections 4.3, 5.4.1 and 5.8 of IEEE 754-2019 are what is being stated.

**Memory system.** DRAM is a sequence of bytes in the specification and an array in the classes. A walk
or access that leaves DRAM for a device register ends in its own outcome (`DeviceTable`, `DeviceHit`),
and the claims are about all the others.

**Registers.** Control registers are 64-bit vectors with the source's masks. Elsewhere a register is a
natural number: a mask by 2^k - 1 is a remainder, a right shift a quotient, an OR of disjoint fields a sum.

## What the proofs found

- The cache's tag is said to carry everything a walk depends on (`emu/src/cpu.rs:115-119`). It omits
  MPP, which a walk uses under MPRV. `TlbRuns.MprvNotTransparent` gives a run of two loads around a
  change of MPP in which the cached and the uncached answers differ. `Tlb.TouchExact` says exactly when
  an access can tell: it must hit, be a load or store under MPRV, and find an entry filled at another
  MPP, and then the two agree just when the leaf grants the access at the new MPP, or, where machine
  mode is one of the two, just when the page is moreover mapped to itself. `TlbRuns.AccessExact` lifts
  this to every access of every run. Every fetch and every access with MPRV clear is therefore
  transparent whatever else the run does (`TlbRuns.MprvClearTransparent`), and since MPRV is set only in
  machine mode, so is every access below machine mode (`HartMemory.BelowMachineTransparent`). "Current"
  tables are what the architecture asks for: no entry the access goes through was overwritten since
  the last fence.
- The tick says that nothing can change the interrupt lines unless a device register was touched
  (`emu/src/cpu.rs:476-478`). The firmware's getchar takes input without touching one
  (`emu/src/sbi.rs:79-86`). `DeviceScan.LazyIsEager` holds for every run whose getchars meet a guard:
  a scan is due anyway, or the byte taken, if any, is not the last one holding up a line the controller
  has seen. `DeviceScan.GetCharExact` shows that the guard is exact, `DeviceStale.StaleFromReset` is a
  run from reset in which it fails and the supervisor external interrupt stays pending, and
  `DeviceStale.StaleAtMostOneInterval` bounds that by one polling interval unless the guest claims an
  interrupt in the meantime. A claim of the stale source cannot be undone by a scan.
- `round_pack` looks at no guard bit when it discards exactly 128 places. `Packing.RoundPackExactly`
  shows that this is the only way it can go wrong on an exact significand, and for which significands
  of 2^127 and more it does; `Packing.SkippedGuard` is one. Every caller stays below 2^127.
- The comment above `add_raw` (`emu/src/fpu.rs:314-317`) claims that an operand loses bits only if all of
  it lies more than 126 places below the other's leading bit. Only its lowest bit need lie there:
  `Sums.DiscardsFromAbove` has an operand that loses one and reaches up to 74 places below. The
  conclusion still holds: the aligned operands differ by at least 2^124 (`Sums.AlignedSafe`), so
  nothing discarded is exposed.
- A page-crossing store translates twice (`emu/src/cpu.rs:335-347`). Its second pass answers from the
  cache also where its own first bytes have changed the page table: `SelfStore.StoreNotTransparent` is
  such a store, whose second byte a fresh walk would no longer find mapped.
  `PagedWalks.SecondPassExact` says exactly when the two second passes run alike, and
  `PagedWalks.ApartTransparent` that they do if no byte written belongs to an entry that translates a
  later one.

## Model

| member | source | states |
|---|---|---|
| Packing.RoundPackCorrect | emu/src/fpu.rs:191-282 | for every mode, format and exponent, round_pack of a significand that is the exact value, or its round-to-odd with at least sig + 3 bits, delivers the correct rounding of that value with its flags, through the subnormal floor, carry-out and overflow |
| Packing.RoundPackExactly | emu/src/fpu.rs:198-222 | on any exact significand below 2^128 the result is correct if and only if the 128-place discard skips no guard bit that mattered |
| Packing.SkippedGuard | emu/src/fpu.rs:209-222 | a single-precision significand just above half the least subnormal that rounding to nearest should take up and round_pack returns as zero |
| Packing.RoundPackInPlace | emu/src/fpu.rs:198-282 | the imperative form with its locals q, e_out and flags returns the specified pattern and flags |
| Packing.EncodeInPlace | emu/src/fpu.rs:243-281 | the final encoding step returns the specified pattern and flags for a rounded significand |
| Packing.DiscardLocates | emu/src/fpu.rs:209-222 | the quotient, guard and sticky bits of a discard locate the exact value among the multiples of the result's unit, also for a round-to-odd significand |
| Packing.EncodeCorrect | emu/src/fpu.rs:243-281 | a canonical significand encodes to the pattern of exactly its value, or to the overflow result, with exactly the prescribed flags |
| Packing.PatternUnique | emu/src/fpu.rs:149-181 | a finite pattern is determined by its sign and the magnitude it denotes |
| Packing.DeliversUnique | emu/src/fpu.rs:191-197 | correct rounding leaves one possible pattern and one possible flag set |
| Packing.DeliversSigned | emu/src/fpu.rs:223-231 | the sign-and-magnitude view of rounding used by the code is correct rounding of the signed real in every mode |
| Rounding.LocatedRounds | emu/src/fpu.rs:223-234 | deciding by quotient, guard and sticky bits yields the rounding of the located value in every mode and direction |
| Rounding.MagnitudeRoundsTo | emu/src/fpu.rs:224-231 | rounding a magnitude with the mode mirrored by the sign is rounding the signed number |
| Rounding.RoundsMagMonotone | emu/src/fpu.rs:191-197 | rounding is monotone in the exact value, also when one value is a square root |
| Rounding.RoundsMagUnique | emu/src/fpu.rs:191-197 | a value has one rounding in each direction |
| Sums.UnpackValue | emu/src/fpu.rs:149-181 | unpack classifies every pattern as the format defines it and preserves the value, subnormals included |
| Sums.ScaleRoundOdd | emu/src/fpu.rs:284-297 | scale returns the round-to-odd of its operand at the new exponent, exactly when nothing is shifted out |
| Sums.SumFits | emu/src/fpu.rs:318-330 | no shift and no sum in add_raw leaves 128 bits |
| Sums.AlignedSafe | emu/src/fpu.rs:303-323 | either both aligned operands are exact, or one is exact and even and exceeds the other by at least 2^124 |
| Sums.DiscardsFromAbove | emu/src/fpu.rs:314-317 | two double significands of which one loses a bit although its leading bit is 74 places below the other's |
| Sums.AddRawCorrect | emu/src/fpu.rs:303-330 | for significands below 2^106, add_raw returns the round-to-odd of the exact signed sum with its true sign, zero exactly on cancellation, and is exact or keeps 125 bits |
| FloatCorrect.AddOrSubCorrect | emu/src/fpu.rs:351-386 | add and sub return the correct rounding of the exact sum or difference of any finite operands, with the prescribed sign of zero |
| FloatCorrect.MulCorrect | emu/src/fpu.rs:388-407 | mul returns the correct rounding of the exact product of any finite operands |
| FloatCorrect.FmaCorrect | emu/src/fpu.rs:479-543 | fma returns the single correct rounding of the exact signed product plus signed addend, for every finite operand, sign variant and mode |
| FloatCorrect.QuotientRoundOdd | emu/src/fpu.rs:427-430 | the truncated quotient with the remainder folded in is the round-to-odd of the exact quotient |
| FloatCorrect.DivCorrect | emu/src/fpu.rs:409-433 | div returns the correct rounding of the exact quotient by any non-zero, raises divide-by-zero for a non-zero over zero, and is invalid for zero over zero |
| FloatOps.ProductFits | emu/src/fpu.rs:401-404 | the product of two significands is positive and below 2^106 |
| FloatOps.QuotientFits | emu/src/fpu.rs:424-429 | the shifted dividend fits 128 bits and the quotient has at least 64 significant bits |
| FloatRange.ExponentsFit | emu/src/fpu.rs:144-330 | for all operands of products, quotients, roots, sums, fused sums and conversions, no exponent computed on the way to the result leaves a signed 32-bit integer |
| FloatSpecial.FmaNan | emu/src/fpu.rs:491-519 | over all patterns, fma is a NaN exactly on a NaN operand, zero times infinity or opposing infinities, then canonical, and invalid exactly on a signalling or meaningless operand set; infinities otherwise carry the right sign |
| FloatSpecial.AddOrSubNan | emu/src/fpu.rs:359-372 | the same for add and sub |
| FloatSpecial.MulNan | emu/src/fpu.rs:388-400 | the same for mul |
| FloatSpecial.DivNan | emu/src/fpu.rs:409-422 | the same for div, with divide-by-zero exactly for a finite non-zero over zero |
| FloatSpecial.SqrtNan | emu/src/fpu.rs:435-448 | sqrt is a NaN exactly on a NaN and on anything negative but a zero, invalid exactly on the latter and on signalling NaNs; the positive infinity and both zeros are kept |
| FloatSpecial.ConvertNan | emu/src/fpu.rs:545-554 | a conversion between formats is a NaN exactly on a NaN, invalid exactly if it was signalling, and keeps infinities with their sign |
| FloatSpecial.CanonicalNan | emu/src/fpu.rs:107-112 | the canonical NaN is a NaN, quiet and positive |
| FloatSqrt.Isqrt | emu/src/fpu.rs:463-477 | Newton's loop terminates on every 128-bit n, stays within 128 bits and returns floor(sqrt(n)) |
| FloatSqrt.NewtonStep | emu/src/fpu.rs:470-476 | a Newton step from any positive x never falls below floor(sqrt(n)) |
| FloatSqrt.RootRoundOdd | emu/src/fpu.rs:449-460 | the integer root with its sticky bit is the round-to-odd of the exact square root |
| FloatSqrt.SqrtCorrect | emu/src/fpu.rs:435-461 | sqrt delivers the correctly rounded root of every positive value, keeps zeros and is invalid on negatives |
| FloatSqrt.SqrtByNewton | emu/src/fpu.rs:435-461 | the root computed with the loop equals the specified one on every pattern |
| FloatLaws.FmaOneIsAdd | emu/src/fpu.rs:479-543 | fma by one is the plain sum or difference in pattern and flags, on all patterns |
| FloatLaws.PackOfUnpack | emu/src/fpu.rs:149-282 | round_pack of unpack is the identity without flags on every finite non-zero pattern in every mode |
| FloatLaws.ConvertCorrect | emu/src/fpu.rs:545-554 | conversion between formats is correct rounding of the value |
| FloatLaws.WidenExact | emu/src/fpu.rs:545-554 | widening single to double keeps the value and raises nothing |
| FloatLaws.NarrowOfWiden | emu/src/fpu.rs:545-554 | widening then narrowing returns every non-NaN single unchanged without flags, whatever the two modes |
| FloatInt.RoundToIntCorrect | emu/src/fpu.rs:556-582 | round_to_int is correct rounding to an integer and reports inexact exactly when it differs |
| FloatInt.ToIntCorrect | emu/src/fpu.rs:584-632 | to_int returns the correctly rounded integer when it fits and otherwise the nearer bound with invalid alone, at every width from 1 to 64 |
| FloatInt.FitsIsReading | emu/src/fpu.rs:590-599 | the range that to_int saturates to is that of the patterns of the width, read as unsigned or in two's complement |
| FloatInt.SaturatedPatterns | emu/src/fpu.rs:600-612 | in literal bits, what NaNs and infinities convert to at 32 and 64 bits, signed and unsigned, with invalid alone |
| FloatIntOrder.ToIntOrdered | emu/src/fpu.rs:584-632 | to_int preserves the order of the extended reals in every mode and at every width, so saturated results, those of the infinities among them, never pass those in range |
| FloatInt.FromIntCorrect | emu/src/fpu.rs:634-638 | from_int is correct rounding of the signed integer |
| FloatInt.IntegerRoundTrip | emu/src/fpu.rs:584-638 | every integer of magnitude at most 2^(sig+1) that fits the target survives the trip to float and back without flags, whatever the two modes |
| FloatCompare.KeyOrders | emu/src/fpu.rs:640-651 | the integer key orders all non-NaN patterns exactly as the extended reals they denote |
| FloatCompare.ComparisonsCorrect | emu/src/fpu.rs:653-673 | eq, lt and le agree with the order of the extended reals, and are false on NaNs with exactly the prescribed flags |
| FloatCompare.OrderIsTotal | emu/src/fpu.rs:653-673 | le is a total preorder on non-NaNs whose strict part is lt and whose equivalence is eq |
| FloatCompare.MinMaxCorrect | emu/src/fpu.rs:675-701 | min and max return an operand that no operand lies beyond on the extended real line, the sign deciding between zeros, give a NaN way to a number, and are invalid exactly on a signalling operand |
| FloatOrder.FlagsMeanInexact | emu/src/fpu.rs:260-279 | no flag exactly when the exact value came back, underflow exactly when an inexact result lies below the smallest normal, an infinity only with overflow |
| FloatOrder.SqrtInexact | emu/src/fpu.rs:449-459 | sqrt raises nothing exactly when the root is a value of the format |
| FloatOrder.PrescribedMonotone | emu/src/fpu.rs:191-282 | larger exact values never give smaller results, across signs, zeros, subnormals and overflow |
| FloatOrder.DirectedBounds | emu/src/fpu.rs:223-231 | a result rounded down never exceeds the exact value and one rounded up never falls below it, also when it is an infinity or the largest finite value |
| FormatMeaning.SingleMeans | emu/src/fpu.rs:76-181 | in literal bits, which single patterns are finite, infinite, quiet and signalling NaNs, and the number each finite one denotes |
| FormatMeaning.DoubleMeans | emu/src/fpu.rs:78-181 | the same for double |
| FormatMeaning.NamedPatterns | emu/src/fpu.rs:107-130 | the zeros, infinities, largest finite numbers and canonical NaNs in literal bits |
| FormatMeaning.ZeroSum | emu/src/fpu.rs:351-386 | an exactly zero sum or difference keeps a common sign and is otherwise negative only when rounding down |
| FormatMeaning.ZeroFusedSum | emu/src/fpu.rs:479-543 | so is an exactly zero fused sum, by the signs of product and addend |
| FormatMeaning.DivideByZero | emu/src/fpu.rs:409-422 | a non-zero number over a zero is the infinity of the quotient's sign, with divide-by-zero alone |
| FormatMeaning.DeliveredFlags | emu/src/fpu.rs:260-281 | a rounded result raises nothing, inexact, inexact with underflow or inexact with overflow |
| FormatMeaning.OverflowPattern | emu/src/fpu.rs:243-259 | an overflow delivers the infinity or the largest finite number as the mode and the sign decide, in literal bits |
| Mmu.LeafInDram | emu/src/mmu.rs:105-122 | the leaf a walk ends in is an entry it read from DRAM |
| MmuTheory.WalkEvolved | emu/src/mmu.rs:105-122 | a walk takes the same path through tables that differ only by accessed and dirty updates |
| MmuTheory.TranslateEffect | emu/src/mmu.rs:158-165 | a translation changes at most the low byte of the leaf entry it used, adding A, and D only for a store; a fault changes nothing |
| MmuTheory.TranslateIdempotent | emu/src/mmu.rs:64-175 | repeating a successful translation gives the same address and changes nothing more |
| MmuTheory.TranslateEvolved | emu/src/mmu.rs:64-175 | accessed and dirty updates by any walks change no translation |
| MmuTheory.LeafContiguous | emu/src/mmu.rs:148-171 | a leaf maps its whole span contiguously from its frame: any other address of the span translates, by the same displacement |
| MmuTheory.RightsAreOrdered | emu/src/mmu.rs:110-146 | what can be stored to can be loaded from at the same address, and setting SUM or MXR takes no load or store away |
| PageTables.TranslateExact | emu/src/mmu.rs:38-175 | an address translates to pa if and only if paging is off or the access is machine mode's and pa is the address, or the address is sign-extended and a path of entries from satp, one read from each table, maps it to pa through a leaf whose bits grant the access |
| PageTables.PathAnswers | emu/src/mmu.rs:124-171 | at the end of a path a fetch needs bit 3, a load bit 1 or, with MXR, bit 3, a store bit 2, a user bit 4, and a supervisor bit 4 clear or, for loads and stores, SUM; a misaligned superpage faults; otherwise the answer is the frame plus the offset |
| PageTables.PathMarks | emu/src/mmu.rs:158-165 | an answer sets bit 6 of the low byte of the entry that ended the path, and bit 7 for a store, and changes nothing else |
| PageTables.DeviceExact | emu/src/mmu.rs:105-108 | a walk leaves DRAM if and only if pointers lead to a table in a device; all that is neither that nor mapped page-faults |
| Walker.Translate | emu/src/mmu.rs:64-175 | the loop over levels, writing A and D through memory, gives the specified answer, DRAM and tohost record and disturbs no device |
| Walker.WriteMarks | emu/src/mmu.rs:161-165 | writing back the entry with its bits set changes only its low byte |
| Walker.SetUsed | emu/src/mmu.rs:161-165 | the update writes exactly when a needed bit is missing, and is recorded when the entry lies at the tohost address |
| Tlb.TouchTransparent | emu/src/cpu.rs:258-287 | from any cache that satisfies the invariant, an access through current tables whose MPP is that of the entry it hits, or to which MPP does not apply, answers as a fresh walk does and leaves the same memory |
| Tlb.TouchKeeps | emu/src/cpu.rs:258-287 | every access whatever keeps the invariant and changes memory by accessed and dirty bits only |
| Tlb.TouchExact | emu/src/cpu.rs:115-287 | an access through current tables gives a fresh walk's answer and memory if and only if it misses, is a fetch, has MPRV clear, finds an entry filled at its own MPP, or the change of MPP is harmless |
| Tlb.OtherPrivilege | emu/src/mmu.rs:124-146 | given a settled translation at one privilege below machine mode, the other one translates alike if and only if the leaf grants it the access |
| Tlb.FromMachine | emu/src/mmu.rs:73-83 | a translated access is answered by its own address, as machine mode is, if and only if the page is mapped to itself, grants the access and needs no accessed or dirty update |
| TlbRuns.AccessExact | emu/src/cpu.rs:258-297 | the same equivalence at every access of every run of accesses, register changes, stores and fences |
| TlbRuns.RunAlike | emu/src/cpu.rs:258-297 | over any run, the memories with and without the cache differ in accessed and dirty bits at most |
| TlbRuns.MprvClearTransparent | emu/src/cpu.rs:258-297 | in every run, every fetch and every access with MPRV clear through current tables gets the answer and leaves the memory of a walk made then, which is also the answer of the hart that never caches |
| HartMemory.BelowMachineTransparent | emu/src/cpu.rs:258-297 | in every run of traps, returns, register writes and accesses, every access made below machine mode through current tables is transparent in that sense |
| HartMemory.FromReset | emu/src/cpu.rs:130-140 | its conditions hold at reset, bare or handed to a kernel |
| TlbRuns.CacheTransparent | emu/src/cpu.rs:258-297 | over every run whose accesses all go through current tables and meet that exact condition, every answer and the final memory equal the uncached ones |
| TlbRuns.OneMppTransparent | emu/src/cpu.rs:258-297 | in particular every run through current tables that makes its MPRV loads and stores at one MPP between fences |
| TlbRuns.TransparentFromReset | emu/src/cpu.rs:130-140 | such a run from the empty cache gives the same answers and ends in the same memory as without the cache |
| TlbRuns.MprvNotTransparent | emu/src/cpu.rs:70-73 | a concrete run in which the tag's missing MPP makes the cached answer differ from the walk's |
| Tlb.EntryEvolves | emu/src/cpu.rs:276-286 | accessed and dirty updates by other walks leave a cached entry good |
| PagedAccess.StoreFaultsClean | emu/src/cpu.rs:325-347 | a store that page-faults writes no data byte: it faults at its first byte having changed nothing at all, or at the first byte of the second page having done no more than translate its first byte, which marks one entry; a crossing store that passed its first pass never page-faults |
| PagedAccess.ProbePresent | emu/src/cpu.rs:335-339 | after a successful first pass the cache answers for every byte of the store |
| PagedAccess.StoreBytesHit | emu/src/cpu.rs:340-345 | the second pass hits the cache on every byte and leaves it unchanged |
| PagedAccess.CrossingStore | emu/src/cpu.rs:335-347 | a crossing store that succeeds puts its low bytes at the end of the first frame and the rest at the start of the second, and nothing else but accessed and dirty bits |
| PagedWalks.LoadTransparent | emu/src/cpu.rs:305-323 | from any cache that satisfies the invariant, a load through current tables, its MPP that of the entries it hits wherever MPP applies, gets the value or fault and leaves the memory that it would with a walk for every translation |
| PagedWalks.StoreTransparent | emu/src/cpu.rs:325-347 | a store likewise, provided that each byte of a crossing one, when its turn comes, is still mapped to where the first pass found it |
| PagedWalks.SecondPassExact | emu/src/cpu.rs:340-345 | the second pass through the cache and one that walks again use the same address from the same memory at every byte if and only if that holds |
| PagedWalks.ApartTransparent | emu/src/cpu.rs:325-347 | it holds if no byte the store writes belongs to an entry that translates a later one |
| SelfStore.StoreNotTransparent | emu/src/cpu.rs:335-345 | a concrete crossing store from reset whose first byte overwrites the entry of its second page: the cached store succeeds, the walked one faults |
| AccessRuns.LoadIsRun | emu/src/cpu.rs:305-323 | a load is a run of translations: the memory and cache it leaves are those after the run |
| AccessRuns.StoreIsRun | emu/src/cpu.rs:325-347 | a store is a run of translations and byte stores |
| AccessRuns.LoadInRun | emu/src/cpu.rs:258-323 | over any run of loads, stores, fetches, register changes, byte stores and fences, a load made with MPRV clear through current tables gets the value or fault, and leaves the memory, of a load that walks for each translation |
| AccessRuns.StoreInRun | emu/src/cpu.rs:258-347 | and so does a store whose second pass, if it crosses a page, is undisturbed |
| PagedAccess.OnePageLoad | emu/src/cpu.rs:305-322 | inside a page, one translation reads the same value, memory and cache as one per byte |
| PagedAccess.OnePageStore | emu/src/cpu.rs:327-346 | inside a page, one translation writes the same bytes as the split form |
| PagedAccess.WriteReadBack | emu/src/memory.rs:114-156 | a little-endian write reads back as the value modulo its width and changes no other byte |
| AccessOutcome.LoadEnds | emu/src/cpu.rs:305-323 | how every load ends, by the translations of its own page and of the next: the page fault and its address, the access fault, or the little-endian value of the bytes of both pages |
| AccessOutcome.StoreEnds | emu/src/cpu.rs:327-347 | how every store ends, likewise, no access fault coming before every translation has succeeded |
| AccessOutcome.PageFaultsExactly | emu/src/cpu.rs:305-347 | a load or store page-faults at an address if and only if it is its own and does not translate, or it starts the next page, the access crosses and gets that far, and that page does not translate |
| HartPaging.StatusBits | emu/src/cpu.rs:258-266 | bits 17, 18, 19 and 12:11 of mstatus are what a translation takes as MPRV, SUM, MXR and MPP |
| HartPaging.SumOpensUserPages | emu/src/mmu.rs:129-135 | a supervisor loads from and stores to a user's page exactly while bit 18 of mstatus is set, and never executes it |
| HartPaging.MxrReadsCode | emu/src/mmu.rs:138-142 | an execute-only page can be loaded from exactly while bit 19 is set |
| HartPaging.MprvLends | emu/src/mmu.rs:73-84 | machine mode translates nothing, but with bit 17 set its loads and stores are those of the privilege in bits 12:11 |
| HartPaging.LoadFaultReachesKernel | emu/src/cpu.rs:305-323 | a load that page-faults below machine mode, its fault delegated, enters the supervisor's handler with cause 13 and the faulting address, and the return comes back to the load in its own mode |
| HartPaging.StoreFaultReachesKernel | emu/src/cpu.rs:327-347 | so does a store, with cause 15 |
| MemoryModel.Memory.Read | emu/src/memory.rs:108-139 | a read returns the bytes of DRAM and changes nothing, or the device's value with the device's side effect and the touched flag |
| MemoryModel.Memory.Write | emu/src/memory.rs:141-170 | a write changes exactly its bytes of DRAM, recording a non-zero write to the tohost address, or performs the device write and sets the touched flag; a failed write changes no DRAM |
| MemoryModel.Memory.Index | emu/src/memory.rs:100-106 | an access has an index exactly when it lies inside DRAM |
| MemoryModel.Memory.Gather | emu/src/memory.rs:119-126 | the loop returns the little-endian value of the bytes |
| MemoryModel.Memory.Scatter | emu/src/memory.rs:144-149 | the loop stores the value's bytes in place and nothing else |
| CpuModel.Cpu.Translate | emu/src/cpu.rs:258-287 | the method's answer, DRAM and cache are those of the specified cached translation; a hit leaves the tohost record alone and a miss leaves the walk's |
| CpuModel.Cpu.FlushTlb | emu/src/cpu.rs:291-297 | every entry of every slot is invalid afterwards and otherwise unchanged |
| CpuModel.Cpu.ReadMem | emu/src/cpu.rs:305-323 | the in-place load equals the specified one, with its fault, DRAM and cache |
| CpuModel.Cpu.ReadBytes | emu/src/cpu.rs:313-322 | the byte loop of a crossing load equals the specified recursion |
| CpuModel.Cpu.WriteMem | emu/src/cpu.rs:327-347 | the in-place store equals the specified one, with its fault, DRAM and cache |
| CpuModel.Cpu.ProbeStore | emu/src/cpu.rs:337-339 | the first pass of a crossing store translates every byte and writes none |
| CpuModel.Cpu.WriteBytes | emu/src/cpu.rs:340-345 | the second pass writes every byte through its own translation |
| PlicModel.BestSpec | emu/src/plic.rs:73-92 | best is an eligible source that beats every other by priority and then lower number, and 0 exactly when none is eligible |
| PlicModel.ClaimIsBest | emu/src/plic.rs:100-111 | a non-zero claim is asserted, unclaimed, enabled, strictly above the threshold, of greatest priority, lowest-numbered among ties, and leaves the source claimed; a zero claim changes nothing |
| PlicModel.ClaimExclusion | emu/src/plic.rs:100-120 | over any interleaving of register accesses by both contexts and line changes, two claims of one source are separated by a completion of it |
| PlicModel.DrainSpec | emu/src/plic.rs:77-111 | claiming until nothing is left hands out every eligible source once, in strict arbitration order |
| PlicModel.RepeatedClaims | emu/src/plic.rs:105-111 | n claims in a row give the first n of that order and then 0 forever |
| PlicModel.BitsOfWord | emu/src/plic.rs:36-39 | a set of sources survives its encoding as a mask register |
| PlicModel.RegistersReadBack | emu/src/plic.rs:122-196 | a written priority, enable or threshold register reads back, without the bit of source 0, and no other such register changes |
| PlicMeaning.ClaimMeans | emu/src/plic.rs:68-111 | reading a claim register hands out the asserted, unclaimed, enabled source above the threshold of greatest priority and lowest number, or 0 if there is none, and claims just it |
| PlicMeaning.CompletionReleases | emu/src/plic.rs:113-120 | writing a source's number to any claim register releases that source and changes nothing else |
| PlicMeaning.WaitsAgain | emu/src/plic.rs:113-120 | a completed source waits again if and only if it is still asserted, enabled and above the threshold |
| PlicMeaning.HandshakeRepeats | emu/src/plic.rs:100-120 | a claim and its completion leave the controller as it was, so the next claim hands out the same source |
| PlicMeaning.WritesMean | emu/src/plic.rs:160-192 | which priority, threshold or enable bits a write changes, by literal offset |
| PlicMeaning.ReadsMean | emu/src/plic.rs:122-154 | what each register reads, by literal offset; the pending register shows what is asserted and unclaimed |
| PlicMeaning.LevelMeans | emu/src/plic.rs:57-66 | a line is asserted after it is raised and not after it is lowered, and no other changes |
| PlicModel.Plic.Best | emu/src/plic.rs:77-92 | the scanning loop returns the source that beats all others |
| PlicModel.Plic.SetLevel | emu/src/plic.rs:57-66 | the device's state afterwards is the specified one, out-of-range sources ignored |
| PlicModel.Plic.Claim | emu/src/plic.rs:105-111 | returns the best source and marks it claimed, nothing else |
| PlicModel.Plic.Complete | emu/src/plic.rs:116-120 | releases the source, nothing else |
| PlicModel.Plic.Read | emu/src/plic.rs:122-158 | every register reads as specified, and only a claim changes state |
| PlicModel.Plic.Write | emu/src/plic.rs:160-196 | every register write has the specified effect, source 0 never enabled or prioritised |
| UartModel.InputConserved | emu/src/uart.rs:55-68 | over any run, what was queued and typed is what was delivered followed by what is still queued, in order |
| UartModel.DrainQuiets | emu/src/uart.rs:68-117 | with DLAB clear, one read of the receive buffer for each queued byte hands the queue over in order and lowers the receive interrupt, and one read fewer leaves it up |
| UartModel.RegistersReadBack | emu/src/uart.rs:111-161 | a written register reads back, the divisor and the registers it hides do not disturb each other, and no input is lost |
| UartModel.Uart.Read | emu/src/uart.rs:111-129 | every register reads as specified, and only the receive buffer with DLAB clear consumes input |
| UartModel.Uart.Write | emu/src/uart.rs:146-161 | every register write has the specified effect |
| DeviceScan.LazyIsEager | emu/src/cpu.rs:450-499 | over every run whose getchars meet the guard, the machine that scans lazily and the one that scans on every tick stay equal in all but the touched flag, and the guest reads the same from the devices |
| DeviceScan.LazyIsEagerFromReset | emu/src/memory.rs:69-79 | in particular from reset, where the touched flag is set |
| DeviceScan.LazyTickExact | emu/src/cpu.rs:476-499 | from any state the lazy tick equals the eager one if and only if it scans or a scan would find nothing to change |
| DeviceScan.RunExact | emu/src/cpu.rs:476-499 | over any run whatever, the two machines stay equal throughout if and only if no tick of the lazy one skips a scan that had work to do |
| DeviceScan.StepSynced | emu/src/cpu.rs:476-485 | every event, a getchar under the guard, keeps what the lazy tick relies on |
| DeviceScan.GetCharExact | emu/src/sbi.rs:79-86 | a getchar keeps what the lazy tick relies on if and only if it meets the guard, and a tick right after it does what an eager tick does if and only if it meets the guard or the periodic scan falls due |
| DeviceStale.GetCharLeavesStale | emu/src/sbi.rs:79-86 | outside the guard the external interrupt stays pending where a scan would have dropped it |
| DeviceStale.StaleFromReset | emu/src/sbi.rs:79-86 | a concrete run from reset that ends with the supervisor external interrupt pending under the lazy scan and not under the eager one |
| DeviceStale.StaleAtMostOneInterval | emu/src/cpu.rs:65-68 | machines that differ only in what a scan recomputes are equal again, and the lazy one fit to skip, by the time the periodic scan falls due, whatever happens but a claim in the meantime |
| DeviceScan.TimerMeaning | emu/src/cpu.rs:450-471 | after a tick the machine timer bit follows the comparison; under SBI an armed timer raises the supervisor bit once, on expiry; the software bit follows the CLINT |
| DeviceMeaning.ScanMeans | emu/src/cpu.rs:486-498 | a scan asserts source 10 exactly while the console interrupts, sets bits 11 and 9 of mip exactly if a source waits for the machine's and the supervisor's context, and changes nothing else |
| DeviceMeaning.ScanIsDue | emu/src/cpu.rs:479-485 | the tick scans exactly if a device was touched, input waits or the cycle is a multiple of 256 |
| DeviceMeaning.TimerTicks | emu/src/cpu.rs:450-471 | a tick advances time by one; bits 7, 5 and 3 of mip by the comparison with mtimecmp, the armed timer and the software interrupt |
| DeviceMeaning.ReachedMeans | emu/src/cpu.rs:457-462 | the comparison is of unsigned numbers, and equality counts as expired |
| DeviceMeaning.ResetMeans | emu/src/memory.rs:69-79 | the devices at reset, and that the first tick scans |
| DeviceMeaning.CallsMean | emu/src/sbi.rs:94-223 | setting the timer arms it and withdraws bit 5 of mip; a software interrupt raises and clears bit 1 |
| DeviceMeaning.WritesOfMip | emu/src/csr.rs:314-322 | software writes bits 5, 3 and 1 of mip, and bit 1 through sip; the devices' bits keep their values |
| DeviceMeaning.TimerReads | emu/src/memory.rs:175-185 | msip, mtimecmp and mtime read at their addresses, whole or in their low halves |
| DeviceMeaning.TimerWrites | emu/src/memory.rs:186-201 | and written: a low half leaves the high one, and msip keeps one bit |
| DeviceMeaning.ConsoleReads | emu/src/uart.rs:78-129 | what every console register reads, by literal offset and bits |
| DeviceMeaning.ConsoleWrites | emu/src/uart.rs:146-161 | what writing each of them changes |
| DeviceMeaning.DeviceMap | emu/src/memory.rs:128-139 | which addresses below DRAM belong to which device, that others belong to none, and that touching any sets the touched flag |
| CpuModel.Cpu.TickTimer | emu/src/cpu.rs:450-499 | the in-place tick has exactly the specified effect on CLINT, PLIC, mip and the armed timer, and changes no other register but time |
| CpuModel.Cpu.TickClint | emu/src/cpu.rs:450-471 | the timer part of the tick, in place |
| CpuModel.Cpu.ScanDevices | emu/src/cpu.rs:485-498 | the scan, in place |
| CsrModel.WritesAreConfined | emu/src/csr.rs:231-240 | a write made below machine mode reaches a machine register only through a supervisor window and within its mask, and a user write reaches no supervisor register at all |
| CsrModel.WindowReadsBack | emu/src/csr.rs:301-306 | what is written through sstatus reads back wherever it is writable, by both names |
| CsrMeaning.StatusReadsBack | emu/src/csr.rs:296-306 | mstatus and sstatus read back what was written to their writable bits and ignore the rest, in literal masks |
| CsrMeaning.SupervisorView | emu/src/csr.rs:247-248 | sstatus shows the supervisor's part of mstatus, in literal bits |
| CsrMeaning.DirtySummary | emu/src/csr.rs:268-277 | bit 63 of mstatus and sstatus is set exactly if one of the two extension fields is all ones |
| CsrMeaning.EnablesReadBack | emu/src/csr.rs:307-311 | mie reads back all six interrupt bits and sie the supervisor's three, by both names; sie leaves the others alone |
| CsrMeaning.PendingReadBack | emu/src/csr.rs:312-322 | mip takes three bits from software and sip one, the others keep their values, and sip shows three bits of mip |
| CsrMeaning.SatpReadsBack | emu/src/csr.rs:334-350 | satp takes a value of a mode the hart implements and keeps what it had otherwise |
| CsrMeaning.TrapRegistersReadBack | emu/src/csr.rs:323-330 | mepc and sepc lose bit 0; mtvec and stvec lose a reserved mode |
| CsrMeaning.FloatStateReadsBack | emu/src/csr.rs:283-295 | fcsr reads back as flags and rounding mode, and writing either leaves the other |
| CsrMeaning.ModeField | emu/src/csr.rs:246 | the rounding mode is bits 7:5 |
| CsrMeaning.CycleHalves | emu/src/csr.rs:251-361 | the cycle counter's halves rebuild it under two names each, and writing the high half leaves the low one |
| CsrMeaning.RetiredHalves | emu/src/csr.rs:252-366 | the same for retired instructions |
| CsrMeaning.UpperHalves | emu/src/csr.rs:255-366 | the same for time, and for mstatus under the name its upper half has on RV32 |
| CsrMeaning.PlainReadsBack | emu/src/csr.rs:333-367 | every other register reads back as written, and misa cannot be written |
| CsrMeaning.OneRegisterChanges | emu/src/csr.rs:281-367 | a write changes no register but the one it names or the machine register behind the name |
| CsrMeaning.AccessRule | emu/src/csr.rs:231-240 | bits 9:8 of the address say what privilege a register takes, and bits 11:10 whether it can be written |
| CsrMeaning.MisaAtReset | emu/src/csr.rs:166-181 | misa at reset names exactly A, C, D, F, I, M, S and U |
| CsrMeaning.MisaWidth | emu/src/csr.rs:166-181 | and the width in its top two bits |
| CsrStore.CsrFile.Read | emu/src/csr.rs:243-266 | the value is the specified one, aliases resolved and narrowed to the width |
| CsrStore.CsrFile.Write | emu/src/csr.rs:281-367 | the array afterwards is the old one with the one specified register updated under its mask |
| CsrStore.CsrFile.Force | emu/src/csr.rs:371-373 | exactly one register changes, unmasked |
| TrapModel.PendingIsFirst | emu/src/cpu.rs:507-542 | the interrupt taken is the first in the fixed order that is pending, enabled and allowed; none exactly when no interrupt is all three |
| TrapModel.InterruptIsRouted | emu/src/cpu.rs:528-540 | it goes to the supervisor exactly when delegated, never below the current mode, and to the current mode only when that mode's interrupts are on |
| TrapMeaning.PendingExactly | emu/src/cpu.rs:507-542 | the interrupt taken is the most urgent that is pending and enabled by its own bits and let in by privilege, mideleg, SIE and MIE: the machine's before the supervisor's, external before software before timer |
| TrapMeaning.InterruptArrives | emu/src/cpu.rs:405-411 | taking it enters the mode it belongs to with its flagged cause, no value and the interrupted address; if there is none nothing happens |
| TrapMeaning.TrapIsRouted | emu/src/cpu.rs:559-565 | a trap goes to the supervisor if and only if it is taken below machine mode and its cause's bit is set, in medeleg for an exception and in mideleg for an interrupt |
| TrapMeaning.KernelHandles | emu/src/cpu.rs:1353-1362 | under the firmware the kernel handles every exception but its own environment call, and the three supervisor interrupts |
| TrapMeaning.ResetState | emu/src/cpu.rs:130-140 | the registers, mode and pc at reset, in literal bits |
| TrapMeaning.BootState | emu/src/cpu.rs:1353-1366 | what the firmware changes before a kernel starts, and that nothing else does |
| TrapMeaning.EntryPushes | emu/src/cpu.rs:573-604 | entry pushes and clears the enable of the mode it enters, records the mode it left and changes no other bit of mstatus |
| TrapMeaning.ReturnPops | emu/src/cpu.rs:624-652 | a return goes to the recorded mode and the saved address, pops the enable, leaves its place set, drops the recorded mode to user, clears MPRV below machine mode and changes no other bit |
| TrapMeaning.ReturnsAllowed | emu/src/cpu.rs:1097-1115 | mret is legal in machine mode only, sret from supervisor mode up and, in supervisor mode, with TSR clear; otherwise it is an illegal instruction |
| TrapMeaning.FloatMarksDirty | emu/src/cpu.rs:196-204 | marking the floating-point state dirty sets its field of mstatus and changes nothing else but the summary bit |
| TrapModel.InterruptMasksItself | emu/src/cpu.rs:559-604 | after a machine interrupt nothing is pending, and after a supervisor one nothing delegated is |
| TrapModel.TrapThenReturn | emu/src/cpu.rs:553-652 | a trap and its matching return restore privilege, interrupt enables and pc; no other register but the handler's own changes, and in mstatus only its xPIE, xPP and, below machine mode, MPRV |
| TrapModel.HandlerSees | emu/src/cpu.rs:559-616 | at either width the handler finds the cause with its interrupt flag on top, the value and the return address given, and runs at the address the mode's vector register named |
| TrapModel.NestedTrapsReturn | emu/src/cpu.rs:553-652 | with any number of machine traps, whose handlers may do anything that has the saved fields back at their return, taken from inside a supervisor handler whose own code puts SPIE, SPP and sepc back, the handler's return restores privilege, both interrupt enables and pc |
| TrapModel.HandlerKeepsStack | emu/src/cpu.rs:591-652 | such machine traps leave sepc, SIE, SPIE, SPP and MIE as the supervisor handler's own code alone would |
| TrapModel.ExcursionKeepsStack | emu/src/cpu.rs:591-603 | a machine trap and return inside a supervisor handler leave sepc, SPIE, SPP and both enables alone and come back to the interrupted instruction |
| TrapModel.TrapSound | emu/src/cpu.rs:559-604 | a trap keeps the run invariant and never lowers the privilege |
| TrapModel.RunsFromReset | emu/src/cpu.rs:507-652 | in every run from reset, bare or handed to a kernel, MPRV is set only in machine mode and satp holds a scheme the hart implements |
| TrapModel.PrivilegeMoves | emu/src/cpu.rs:1097-1115 | privilege rises only by entering a trap handler and falls only by an mret from machine mode or an sret from above user mode |
| CpuModel.Cpu.PendingInterrupt | emu/src/cpu.rs:507-542 | the scanning loop returns the specified interrupt |
| CpuModel.Cpu.TakeTrap | emu/src/cpu.rs:559-604 | the hart's registers, mode and pc afterwards are the specified ones |
| CpuModel.Cpu.TrapReturn | emu/src/cpu.rs:624-652 | the hart's registers, mode and pc afterwards are the specified ones |
| TrapModel.VectorFans | emu/src/cpu.rs:606-616 | every handler address is a multiple of four; exceptions and direct mode go to the vector register less its mode bits; vectored interrupts lie four bytes apart from there in the order of their causes |
| TrapMeaning.HandlerAddress | emu/src/cpu.rs:606-616 | a handler starts at the vector register of the mode entered less its two low bits, plus four times the cause for an interrupt when those bits are 1 |
| TrapMeaning.HandlerFinds | emu/src/cpu.rs:567-600 | the handler reads the cause, the top bit of the width set for an interrupt, the value and the return address at their literal addresses |
| CpuModel.Cpu.TrapVector | emu/src/cpu.rs:606-616 | the address returned is aligned, and is the base with its mode bits cleared or, for a vectored interrupt, the cause's four-byte slot above it |
| IntegerUnit.WordFormsAreRv32 | emu/src/cpu.rs:1219-1241 | every 32-bit ALU and multiply/divide result on the 64-bit hart is the sign extension of what the 32-bit hart computes and keeps in 32-bit registers |
| IntegerUnit.AluIgnoresUpper | emu/src/cpu.rs:1223-1241 | only the low bits of its operands reach an ALU result |
| IntegerUnit.MulDivIgnoresUpper | emu/src/cpu.rs:1252-1298 | only the low bits of its operands reach a multiply or divide result |
| IntegerUnit.SumMeaning | emu/src/cpu.rs:1227-1228 | sums and differences are exact modulo the width, as signed numbers |
| IntegerUnit.CompareLaws | emu/src/cpu.rs:1227-1231 | sltu is the borrow of a difference and the carry of a sum, slt is the sign of the difference corrected by its overflow, and a difference is exact as a signed number just when it does not overflow |
| IntegerUnit.ShiftMeaning | emu/src/cpu.rs:1233-1234 | right shifts divide by the power of two rounding down, signed or unsigned |
| IntegerUnit.ShiftLeftMeaning | emu/src/cpu.rs:1229 | a left shift multiplies by the power of two, modulo the width |
| IntegerUnit.BitwiseMeaning | emu/src/cpu.rs:1232-1236 | each bit of xor, or and and comes from the same bits of the operands |
| IntegerUnit.Undefined | emu/src/cpu.rs:1237 | exactly the ten ALU and eight multiply and divide function codes name an operation |
| IntegerUnit.HalvesRebuildProduct | emu/src/cpu.rs:1256-1267 | the high and low halves rebuild the exact product, signed, mixed and unsigned, at both widths |
| IntegerUnit.SignedDivision | emu/src/cpu.rs:1268-1274 | signed quotient and remainder are the truncating ones, with the defined results for a zero divisor and for overflow |
| IntegerUnit.UnsignedDivision | emu/src/cpu.rs:1275-1295 | unsigned quotient and remainder, with the defined results for a zero divisor |
| IntegerUnit.DivisionCongruence | emu/src/cpu.rs:1268-1295 | in every case, zero divisors and overflow included, quotient times divisor plus remainder is the dividend modulo the width |

## Left out

- `main.rs`, `elf.rs` and the diagnostic program: option parsing, image loading and tracing.
- `sbi.rs` apart from the timer, inter-processor and getchar calls: console output, probing and power-off.
- `compress.rs`, `decode.rs` and `execute`: which encodings are legal and how instructions are dispatched; the run theorems range over every sequence of the state changes an instruction can make.
- Instruction fetch: it uses the same translation, with the fetch permissions, and adds only alignment.
- LR/SC, AMO, FCLASS, sign injection, NaN-boxing and the CSR existence table: each is one branch.
- General-purpose registers, retirement counters, and the cause and tval of exceptions other than page and access faults: not part of any claim here.
- Unbounded exponents: the code's i32 exponents are integers here; `FloatRange.ExponentsFit` proves that no exponent an operation computes leaves 32 bits.
- IEEE 754's own underflow rule: tininess is judged on the delivered result, as the code does, which differs from section 7.5 of IEEE 754-2019 in a narrow band below the smallest normal.
- Page tables and data spans in device memory: a walk or access that meets one is outside the claims.
- Reserved page-table bits and the access-fault rule for an unreadable entry: the walk ignores the first and page-faults on the second, and so does the model.
- Addresses that wrap past 2^64, and 64-bit overflow of the cycle counter: addresses and the counter are unbounded.
- Access faults part-way through a crossing store: the second pass can then have written some bytes.
- Debug-build overflow checks: CLINT shift amounts and vectored trap targets wrap as in a release build.
- Canonical 32-bit program counters: jumps are not truncated on RV32, so no invariant on pc is claimed.
- Input echo and transmitted bytes of the UART: output only.
- TlbRuns.CacheTransparent: a run in which some MPRV access is not transparent is outside it, because that access itself tells the two harts apart; TlbRuns.AccessExact and TlbRuns.MprvClearTransparent cover the accesses of such runs one by one.
- PagedWalks.StoreTransparent: a crossing store that changes where its own later bytes are mapped is outside it, because the property is false of it (SelfStore.StoreNotTransparent).
- DeviceScan.LazyIsEager: excludes getchars outside the guard, because the lazy scan is wrong after them (DeviceScan.GetCharExact, DeviceStale.StaleFromReset).
- Packing.RoundPackCorrect: significands of 2^127 and more that are discarded by exactly 128 places are outside it, because the code is wrong there for the modes Packing.RoundPackExactly names.
- The tohost record after a whole load or store: it is stated for each translation and each physical write.
