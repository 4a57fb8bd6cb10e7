/** Control and status registers: write masks, derived bits, and the supervisor's windows onto the
    machine registers. */
module CsrModel {
  import opened Basics

  const FFLAGS: Addr := 0x001
  const FRM: Addr := 0x002
  const FCSR: Addr := 0x003
  const SSTATUS: Addr := 0x100
  const SIE: Addr := 0x104
  const STVEC: Addr := 0x105
  const SCOUNTEREN: Addr := 0x106
  const SEPC: Addr := 0x141
  const SCAUSE: Addr := 0x142
  const STVAL: Addr := 0x143
  const SIP: Addr := 0x144
  const SATP: Addr := 0x180
  const MSTATUS: Addr := 0x300
  const MISA: Addr := 0x301
  const MEDELEG: Addr := 0x302
  const MIDELEG: Addr := 0x303
  const MIE: Addr := 0x304
  const MTVEC: Addr := 0x305
  const MCOUNTEREN: Addr := 0x306
  const MSTATUSH: Addr := 0x310
  const MEPC: Addr := 0x341
  const MCAUSE: Addr := 0x342
  const MTVAL: Addr := 0x343
  const MIP: Addr := 0x344
  const MCYCLE: Addr := 0xB00
  const MINSTRET: Addr := 0xB02
  const MCYCLEH: Addr := 0xB80
  const MINSTRETH: Addr := 0xB82
  const CYCLE: Addr := 0xC00
  const TIME: Addr := 0xC01
  const INSTRET: Addr := 0xC02
  const CYCLEH: Addr := 0xC80
  const TIMEH: Addr := 0xC81
  const INSTRETH: Addr := 0xC82

  // mstatus fields
  const STATUS_SIE: bv64 := 0x2
  const STATUS_MIE: bv64 := 0x8
  const STATUS_SPIE: bv64 := 0x20
  const STATUS_MPIE: bv64 := 0x80
  const STATUS_SPP: bv64 := 0x100
  const STATUS_MPP: bv64 := 0x1800
  const STATUS_FS: bv64 := 0x6000
  const STATUS_XS: bv64 := 0x1_8000
  const STATUS_MPRV: bv64 := 0x2_0000
  const STATUS_SUM: bv64 := 0x4_0000
  const STATUS_MXR: bv64 := 0x8_0000
  const STATUS_TVM: bv64 := 0x10_0000
  const STATUS_TW: bv64 := 0x20_0000
  const STATUS_TSR: bv64 := 0x40_0000
  const STATUS_SD: bv64 := 0x8000_0000_0000_0000
  const STATUS_XLENS: bv64 := 0xA_0000_0000

  const STATUS_UXL: bv64 := 0x3_0000_0000

  const STATUS_WRITABLE: bv64 :=
    STATUS_SIE | STATUS_MIE | STATUS_SPIE | STATUS_MPIE | STATUS_SPP | STATUS_MPP | STATUS_FS | STATUS_MPRV |
    STATUS_SUM | STATUS_MXR | STATUS_TVM | STATUS_TW | STATUS_TSR

  /** The part of mstatus that sstatus shows. */
  const STATUS_VISIBLE: bv64 :=
    STATUS_SIE | STATUS_SPIE | STATUS_SPP | STATUS_FS | STATUS_XS | STATUS_SUM | STATUS_MXR | STATUS_UXL | STATUS_SD

  /** The part of mstatus that may be written through sstatus. */
  const STATUS_SHARED: bv64 := STATUS_WRITABLE & STATUS_VISIBLE

  // One bit for each kind of interrupt, at the same place in every register about them
  const SSI: bv64 := 0x2
  const MSI: bv64 := 0x8
  const STI: bv64 := 0x20
  const MTI: bv64 := 0x80
  const SEI: bv64 := 0x200
  const MEI: bv64 := 0x800
  const INT_VISIBLE: bv64 := SSI | STI | SEI
  const INT_ALL: bv64 := SSI | MSI | STI | MTI | SEI | MEI

  /** The bits of mip that software may write; devices drive the rest. */
  const MIP_WRITABLE: bv64 := SSI | MSI | STI

  const LOW32: bv64 := 0xFFFF_FFFF

  type Addr = a: int | 0 <= a < 4096

  type RegFile = s: seq<bv64> | |s| == 4096 witness seq(4096, _ => 0)

  /** The register file and the width it answers at. */
  datatype Csrs = Csrs(regs: RegFile, xlen: Xlen)

  function Number(v: bv64): nat { v as nat }

  // Bit fields, by mask

  function Mask(v: bv64, mask: bv64): bv64 { v & mask }

  predicate Has(v: bv64, mask: bv64) { Mask(v, mask) != 0 }

  predicate Full(v: bv64, mask: bv64) { Mask(v, mask) == mask }

  function On(v: bv64, mask: bv64): bv64 { v | mask }

  function Off(v: bv64, mask: bv64): bv64 { v & !mask }

  function Low(v: bv64): bv64 { v & LOW32 }

  function Narrow(xlen: Xlen, v: bv64): bv64 { if xlen.Rv32? then Low(v) else v }

  /** prior with the masked bits taken from value. */
  function Merge(prior: bv64, value: bv64, mask: bv64): bv64 { (prior & !mask) | (value & mask) }

  /** mstatus with its derived SD bit. */
  function Status(v: bv64): bv64 {
    if Full(v, STATUS_FS) || Full(v, STATUS_XS) then On(v, STATUS_SD) else Off(v, STATUS_SD)
  }

  /** The mode a two-bit privilege field names. */
  function PrivOf(bits: bv64): Priv {
    if bits & 3 == 0 then User else if bits & 3 == 1 then Supervisor else Machine
  }

  /** The privilege in mstatus.MPP. */
  function MppOf(status: bv64): Priv { PrivOf(Mask(status, STATUS_MPP) >> 11) }

  function PrivBits(p: Priv): bv64 { match p case User => 0 case Supervisor => 1 case Machine => 3 }

  function Misa(xlen: Xlen): bv64 {
    if xlen.Rv32? then 0x4014_112D else 0x8000_0000_0014_112D
  }

  function Reset(xlen: Xlen): Csrs {
    Csrs(seq(4096, _ => 0)[MISA := Misa(xlen)][MSTATUS := if xlen.Rv64? then STATUS_XLENS else 0], xlen)
  }

  /** The least privilege that may touch a register, from bits 9:8 of its address. */
  function Required(addr: Addr): Priv {
    var p := addr / 256 % 4;
    if p == 0 then User else if p == 1 then Supervisor else Machine
  }

  predicate Accessible(addr: Addr, mode: Priv, write: bool) {
    mode.Rank() >= Required(addr).Rank() && !(write && addr / 1024 % 4 == 3)
  }

  function Upper(v: bv64): bv64 { v >> 32 }

  function RoundingMode(fcsr: bv64): bv64 { Mask(fcsr, 0xE0) >> 5 }

  /** The architectural value before it is narrowed to the register width. */
  function Wide(c: Csrs, addr: Addr): bv64 {
    var r := c.regs;
    if addr == FFLAGS then Mask(r[FCSR], 0x1F)
    else if addr == FRM then RoundingMode(r[FCSR])
    else if addr == SSTATUS then Mask(Status(r[MSTATUS]), STATUS_VISIBLE)
    else if addr == MSTATUS then Status(r[MSTATUS])
    else if addr == SIE then Mask(r[MIE], INT_VISIBLE)
    else if addr == SIP then Mask(r[MIP], INT_VISIBLE)
    else if addr == CYCLE then r[MCYCLE]
    else if addr == INSTRET then r[MINSTRET]
    else if addr == CYCLEH || addr == MCYCLEH then Upper(r[MCYCLE])
    else if addr == TIMEH then Upper(r[TIME])
    else if addr == INSTRETH || addr == MINSTRETH then Upper(r[MINSTRET])
    else if addr == MSTATUSH then Upper(Status(r[MSTATUS]))
    else r[addr]
  }

  function Read(c: Csrs, addr: Addr): bv64 { Narrow(c.xlen, Wide(c, addr)) }

  /** The register that a write to an address lands in. */
  function Target(addr: Addr): Addr {
    if addr == FFLAGS || addr == FRM then FCSR
    else if addr == SSTATUS || addr == MSTATUSH then MSTATUS
    else if addr == SIE then MIE
    else if addr == SIP then MIP
    else if addr == MCYCLEH || addr == CYCLE then MCYCLE
    else if addr == MINSTRETH || addr == INSTRET then MINSTRET
    else addr
  }

  predicate SatpSupported(xlen: Xlen, value: bv64) {
    if xlen.Rv32? then value >> 31 <= 1 else (value >> 60) & 0xF == 0 || (value >> 60) & 0xF == 8
  }

  /** A trap vector keeps its mode bits unless they name one of the two reserved modes. */
  function VectorBase(value: bv64): bv64 { if value & 3 > 1 then Off(value, 3) else value }

  function WithRounding(prior: bv64, value: bv64): bv64 { Merge(prior, value << 5, 0xE0) }

  function WithUpper(prior: bv64, value: bv64): bv64 { (value << 32) | Low(prior) }

  /** What the target register holds after a write. */
  function Stored(c: Csrs, addr: Addr, value: bv64): bv64 {
    var prior := c.regs[Target(addr)];
    if addr == FCSR then Mask(value, 0xFF)
    else if addr == FFLAGS then Merge(prior, value, 0x1F)
    else if addr == FRM then WithRounding(prior, value)
    else if addr == MSTATUS then Merge(prior, value, STATUS_WRITABLE)
    else if addr == SSTATUS then Merge(prior, value, STATUS_SHARED)
    else if addr == SIE then Merge(prior, value, INT_VISIBLE)
    else if addr == MIE then Mask(value, INT_ALL)
    else if addr == SIP then Merge(prior, value, SSI)
    else if addr == MIP then Merge(prior, value, MIP_WRITABLE)
    else if addr == MEPC || addr == SEPC then Off(value, 1)
    else if addr == MTVEC || addr == STVEC then VectorBase(value)
    else if addr == MISA then prior
    else if addr == SATP then if SatpSupported(c.xlen, value) then value else prior
    else if addr == MCYCLEH || addr == MINSTRETH || addr == MSTATUSH then WithUpper(prior, value)
    else value
  }

  function Write(c: Csrs, addr: Addr, value: bv64): Csrs {
    c.(regs := c.regs[Target(addr) := Stored(c, addr, value)])
  }

  function Force(c: Csrs, addr: Addr, value: bv64): Csrs { c.(regs := c.regs[addr := value]) }

  lemma ForceSame(c: Csrs, addr: Addr)
    ensures Force(c, addr, c.regs[addr]) == c
  {
    assert c.regs[addr := c.regs[addr]] == c.regs;
  }

  // ---------------------------------------------------------------------------------------
  // Fields

  lemma BesideSet(v: bv64, m: bv64, k: bv64)
    requires m & k == 0
    ensures Mask(On(v, m), k) == Mask(v, k)
  {
  }

  lemma BesideCleared(v: bv64, m: bv64, k: bv64)
    requires m & k == 0
    ensures Mask(Off(v, m), k) == Mask(v, k)
  {
  }

  lemma FieldSet(v: bv64, m: bv64)
    ensures Mask(On(v, m), m) == m && Mask(Off(v, m), m) == 0
  {
  }

  lemma FieldCleared(v: bv64, m: bv64, k: bv64)
    requires k & m == k
    ensures Mask(Off(v, m), k) == 0
  {
  }

  lemma FieldPlaced(v: bv64, p: bv64, k: bv64)
    requires Mask(v, k) == 0 && p & k == p
    ensures Mask(On(v, p), k) == p
  {
  }

  // ---------------------------------------------------------------------------------------

  /** Whether a bit of a machine register is within a supervisor's reach. */
  function SupervisorMask(addr: Addr): bv64 {
    if addr == MSTATUS then STATUS_SHARED
    else if addr == MIE then INT_VISIBLE
    else if addr == MIP then SSI
    else 0
  }

  lemma MergeKeeps(prior: bv64, value: bv64, mask: bv64)
    ensures Merge(prior, value, mask) & !mask == prior & !mask
    ensures Merge(prior, value, mask) & mask == value & mask
  {
  }

  /** The only registers of a more privileged mode that an accessible write lands in are those
      behind a supervisor window. */
  lemma OnlyThroughWindows(mode: Priv, addr: Addr)
    requires Accessible(addr, mode, true) && mode.Rank() < Required(Target(addr)).Rank()
    ensures mode.Supervisor? && (addr == SSTATUS || addr == SIE || addr == SIP)
  {
  }

  /** A write made below machine mode reaches no machine register except through the supervisor's
      windows, and a write from user mode reaches no supervisor register or window at all. */
  lemma WritesAreConfined(c: Csrs, mode: Priv, addr: Addr, value: bv64, i: Addr)
    requires Accessible(addr, mode, true) && mode.Rank() < Required(i).Rank()
    ensures var after := Write(c, addr, value).regs[i];
            after & !SupervisorMask(i) == c.regs[i] & !SupervisorMask(i) &&
            (mode.User? ==> after == c.regs[i])
  {
    hide Merge, Stored, SatpSupported, Accessible, Required, Target, SupervisorMask;
    if Target(addr) == i {
      OnlyThroughWindows(mode, addr);
      WindowStored(c, addr, value);
    }
  }

  lemma WindowStored(c: Csrs, addr: Addr, value: bv64)
    requires addr == SSTATUS || addr == SIE || addr == SIP
    ensures Stored(c, addr, value) == Merge(c.regs[Target(addr)], value, SupervisorMask(Target(addr)))
    ensures Stored(c, addr, value) & !SupervisorMask(Target(addr)) ==
            c.regs[Target(addr)] & !SupervisorMask(Target(addr))
  {
    MergeKeeps(c.regs[Target(addr)], value, SupervisorMask(Target(addr)));
    hide Merge;
  }

  /** A value written through a window reads back wherever it is writable, by both names. */
  lemma WindowReadsBack(c: Csrs, value: bv64)
    ensures var mask := Narrow(c.xlen, STATUS_SHARED);
            Read(Write(c, SSTATUS, value), SSTATUS) & mask == value & mask &&
            Read(Write(c, SSTATUS, value), MSTATUS) & mask == value & mask
  {
  }
}
