/** The control registers as software sees them, by address and bit: what a write leaves to be read
    back, and through which names. */
module CsrMeaning {
  import opened Basics
  import opened CsrModel

  /** The value as the width shows it. */
  function Width(xlen: Xlen, v: bv64): bv64 { if xlen.Rv32? then v & 0xFFFF_FFFF else v }

  lemma WidthIsNarrow(xlen: Xlen, v: bv64)
    ensures Width(xlen, v) == Narrow(xlen, v)
  {
  }

  /** Showing a value at the width and picking fields of it commute. */
  lemma NarrowFields(xlen: Xlen, v: bv64, mask: bv64)
    ensures Mask(Narrow(xlen, v), mask) == Narrow(xlen, Mask(v, mask))
  {
  }

  lemma NarrowNothing(xlen: Xlen, v: bv64, mask: bv64)
    requires mask & !0xFFFF_FFFF == 0
    ensures Narrow(xlen, Mask(v, mask)) == Mask(v, mask)
  {
  }

  /** The interrupt enables. mie holds the hart's six bits, sie shows and writes the supervisor's three
      of them. */
  lemma EnablesReadBack(c: Csrs, value: bv64)
    ensures Read(Write(c, 0x304, value), 0x304) == Mask(value, 0xAAA)
    ensures Read(Write(c, 0x304, value), 0x104) == Mask(value, 0x222)
    ensures Read(Write(c, 0x104, value), 0x104) == Mask(value, 0x222)
    ensures Mask(Read(Write(c, 0x104, value), 0x304), !0x222) == Mask(Read(c, 0x304), !0x222)
  {
    EnableMasks(c.regs[MIE], value);
    hide Mask, Merge, Narrow, Status, Upper, RoundingMode;
    NarrowNothing(c.xlen, value, 0xAAA);
    NarrowNothing(c.xlen, value, 0x222);
    NarrowFields(c.xlen, Merge(c.regs[MIE], value, INT_VISIBLE), !0x222);
    NarrowFields(c.xlen, c.regs[MIE], !0x222);
  }

  lemma EnableMasks(prior: bv64, value: bv64)
    ensures Mask(value, INT_ALL) == Mask(value, 0xAAA) && Mask(Mask(value, INT_ALL), INT_VISIBLE) == Mask(value, 0x222)
    ensures Mask(Merge(prior, value, INT_VISIBLE), INT_VISIBLE) == Mask(value, 0x222)
    ensures Mask(Merge(prior, value, INT_VISIBLE), !0x222) == Mask(prior, !0x222)
  {
    InterruptMasks();
    Within(value);
    hide Mask, Merge;
    Merged(prior, value, 0x222);
  }

  lemma InterruptMasks()
    ensures INT_ALL == 0xAAA && INT_VISIBLE == 0x222 && MIP_WRITABLE == 0x2A && SSI == 0x2
  {
  }

  lemma Within(value: bv64)
    ensures Mask(Mask(value, 0xAAA), 0x222) == Mask(value, 0x222)
  {
  }

  /** A merge takes its masked bits from the value and keeps the others. */
  lemma Merged(prior: bv64, value: bv64, mask: bv64)
    ensures Mask(Merge(prior, value, mask), mask) == Mask(value, mask)
    ensures Mask(Merge(prior, value, mask), !mask) == Mask(prior, !mask)
  {
    MergeKeeps(prior, value, mask);
    hide Merge;
  }

  lemma MergedShown(xlen: Xlen, prior: bv64, value: bv64, mask: bv64)
    requires mask & !0xFFFF_FFFF == 0
    ensures Mask(Narrow(xlen, Merge(prior, value, mask)), mask) == Mask(value, mask)
    ensures Mask(Narrow(xlen, Merge(prior, value, mask)), !mask) == Mask(Narrow(xlen, prior), !mask)
  {
    hide Mask, Merge, Narrow;
    var m := Merge(prior, value, mask);
    Merged(prior, value, mask);
    NarrowFields(xlen, m, mask);
    NarrowFields(xlen, m, !mask);
    NarrowFields(xlen, prior, !mask);
    NarrowNothing(xlen, value, mask);
  }

  /** The pending interrupts. Software writes three bits through mip and one through sip; devices own
      the others. */
  lemma PendingReadBack(c: Csrs, value: bv64)
    ensures Mask(Read(Write(c, 0x344, value), 0x344), 0x2A) == Mask(value, 0x2A)
    ensures Mask(Read(Write(c, 0x344, value), 0x344), !0x2A) == Mask(Read(c, 0x344), !0x2A)
    ensures Mask(Read(Write(c, 0x144, value), 0x344), 0x2) == Mask(value, 0x2)
    ensures Mask(Read(Write(c, 0x144, value), 0x344), !0x2) == Mask(Read(c, 0x344), !0x2)
    ensures Read(c, 0x144) == Mask(Read(c, 0x344), 0x222)
  {
    var r := c.regs[MIP];
    MergedShown(c.xlen, r, value, 0x2A);
    MergedShown(c.xlen, r, value, 0x2);
    NarrowFields(c.xlen, r, 0x222);
    PendingReads(c, value);
    hide Mask, Merge, Narrow, Read, Write;
  }

  lemma PendingReads(c: Csrs, value: bv64)
    ensures Read(Write(c, 0x344, value), 0x344) == Narrow(c.xlen, Merge(c.regs[MIP], value, 0x2A))
    ensures Read(Write(c, 0x144, value), 0x344) == Narrow(c.xlen, Merge(c.regs[MIP], value, 0x2))
    ensures Read(c, 0x344) == Narrow(c.xlen, c.regs[MIP]) && Read(c, 0x144) == Narrow(c.xlen, Mask(c.regs[MIP], 0x222))
  {
    InterruptMasks();
    hide Mask, Merge, Narrow, Status, Upper, RoundingMode;
  }

  /** satp takes a value whose mode the hart implements, and keeps what it had otherwise. On RV32 a
      value of the register's width always names one. */
  lemma SatpReadsBack(c: Csrs, value: bv64)
    ensures c.xlen.Rv64? ==>
            Read(Write(c, 0x180, value), 0x180) ==
            if value >> 60 == 0 || value >> 60 == 8 then value else Read(c, 0x180)
    ensures c.xlen.Rv32? && value <= 0xFFFF_FFFF ==> Read(Write(c, 0x180, value), 0x180) == value
  {
    hide Status, Mask, Upper, RoundingMode;
    Modes(value);
  }

  lemma Modes(value: bv64)
    ensures (value >> 60) & 0xF == value >> 60
    ensures value <= 0xFFFF_FFFF ==> value >> 31 <= 1 && value & 0xFFFF_FFFF == value
  {
  }

  /** mstatus keeps what is written to its writable fields and ignores the rest; sstatus reaches the
      supervisor's share of them. */
  lemma StatusReadsBack(c: Csrs, value: bv64)
    ensures Mask(Read(Write(c, 0x300, value), 0x300), 0x7E_79AA) == Mask(value, 0x7E_79AA)
    ensures Mask(Write(c, 0x300, value).regs[0x300], !0x7E_79AA) == Mask(c.regs[0x300], !0x7E_79AA)
    ensures Mask(Read(Write(c, 0x100, value), 0x100), 0xC_6122) == Mask(value, 0xC_6122)
    ensures Mask(Write(c, 0x100, value).regs[0x300], !0xC_6122) == Mask(c.regs[0x300], !0xC_6122)
  {
    StatusMasks();
    hide Merge, Mask, Narrow, Status, Upper, RoundingMode;
    Merged(c.regs[MSTATUS], value, 0x7E_79AA);
    Merged(c.regs[MSTATUS], value, 0xC_6122);
    StatusFields(c.xlen, Merge(c.regs[MSTATUS], value, 0x7E_79AA));
    StatusFields(c.xlen, Merge(c.regs[MSTATUS], value, 0xC_6122));
  }

  /** sstatus shows the supervisor's part of mstatus: its enables, stack, SUM, MXR, the extension
      fields, the width of user mode and the summary bit. */
  lemma SupervisorView(c: Csrs)
    ensures Read(c, 0x100) == Mask(Read(c, 0x300), 0x8000_0003_000D_E122)
  {
    VisibleMask();
    hide Mask, Narrow, Status, Upper, RoundingMode;
    NarrowFields(c.xlen, Status(c.regs[MSTATUS]), 0x8000_0003_000D_E122);
  }

  lemma VisibleMask()
    ensures STATUS_VISIBLE == 0x8000_0003_000D_E122
  {
  }

  lemma StatusMasks()
    ensures STATUS_WRITABLE == 0x7E_79AA && STATUS_SHARED == 0xC_6122
  {
  }

  lemma StatusFields(xlen: Xlen, raw: bv64)
    ensures Mask(Narrow(xlen, Status(raw)), 0x7E_79AA) == Mask(raw, 0x7E_79AA)
    ensures Mask(Narrow(xlen, Mask(Status(raw), STATUS_VISIBLE)), 0xC_6122) == Mask(raw, 0xC_6122)
  {
    MachineFields(raw);
    SharedFields(raw);
    hide Mask, Narrow, Status;
    NarrowFields(xlen, Status(raw), 0x7E_79AA);
    NarrowNothing(xlen, raw, 0x7E_79AA);
    NarrowFields(xlen, Mask(Status(raw), STATUS_VISIBLE), 0xC_6122);
    NarrowNothing(xlen, raw, 0xC_6122);
  }

  lemma MachineFields(raw: bv64)
    ensures Mask(Status(raw), 0x7E_79AA) == Mask(raw, 0x7E_79AA)
  {
    hide Mask, On, Off, Full;
    BesideSet(raw, STATUS_SD, 0x7E_79AA);
    BesideCleared(raw, STATUS_SD, 0x7E_79AA);
  }

  lemma SharedFields(raw: bv64)
    ensures Mask(Mask(Status(raw), STATUS_VISIBLE), 0xC_6122) == Mask(raw, 0xC_6122)
  {
  }

  /** SD summarises: on the 64-bit hart bit 63 of mstatus and of sstatus is set exactly when the
      floating-point field or the other extension field is all ones. */
  lemma DirtySummary(c: Csrs)
    requires c.xlen.Rv64?
    ensures Read(c, 0x300) >> 63 == if c.regs[0x300] & 0x6000 == 0x6000 || c.regs[0x300] & 0x1_8000 == 0x1_8000 then 1
                                    else 0
    ensures Read(c, 0x100) >> 63 == Read(c, 0x300) >> 63
  {
    SummaryBit(c.regs[MSTATUS]);
    hide Status, Mask;
  }

  lemma SummaryBit(raw: bv64)
    ensures Status(raw) >> 63 == if raw & 0x6000 == 0x6000 || raw & 0x1_8000 == 0x1_8000 then 1 else 0
    ensures Mask(Status(raw), STATUS_VISIBLE) >> 63 == Status(raw) >> 63
  {
  }

  lemma TrapRegisterReads(c: Csrs, value: bv64)
    ensures Read(Write(c, 0x341, value), 0x341) == Narrow(c.xlen, Off(value, 1)) == Read(Write(c, 0x141, value), 0x141)
    ensures Read(Write(c, 0x305, value), 0x305) == Narrow(c.xlen, VectorBase(value)) ==
            Read(Write(c, 0x105, value), 0x105)
  {
    hide Narrow, Status, Mask, Off, VectorBase, Upper, RoundingMode;
  }

  /** Return addresses lose bit 0, and trap vectors their mode bits where those name a reserved mode. */
  lemma TrapRegistersReadBack(c: Csrs, value: bv64)
    ensures Read(Write(c, 0x341, value), 0x341) == Width(c.xlen, Off(value, 1)) == Read(Write(c, 0x141, value), 0x141)
    ensures Read(Write(c, 0x305, value), 0x305) ==
            Width(c.xlen, if Mask(value, 3) == 2 || Mask(value, 3) == 3 then Off(value, 3) else value) ==
            Read(Write(c, 0x105, value), 0x105)
  {
    Reserved(value);
    TrapRegisterReads(c, value);
    hide Read, Write, Narrow, Width, Mask, Off, VectorBase;
    WidthIsNarrow(c.xlen, Off(value, 1));
    WidthIsNarrow(c.xlen, VectorBase(value));
  }

  lemma Reserved(value: bv64)
    ensures VectorBase(value) == if Mask(value, 3) == 2 || Mask(value, 3) == 3 then Off(value, 3) else value
  {
  }

  lemma FloatReads(c: Csrs, value: bv64)
    ensures Read(c, 0x001) == Narrow(c.xlen, Mask(c.regs[0x003], 0x1F))
    ensures Read(c, 0x002) == Narrow(c.xlen, RoundingMode(c.regs[0x003]))
    ensures Write(c, 0x003, value).regs[0x003] == Mask(value, 0xFF)
    ensures Write(c, 0x001, value).regs[0x003] == Merge(c.regs[0x003], value, 0x1F)
    ensures Write(c, 0x002, value).regs[0x003] == WithRounding(c.regs[0x003], value)
    ensures Write(c, 0x001, value).xlen == Write(c, 0x002, value).xlen == Write(c, 0x003, value).xlen == c.xlen
  {
    hide Mask, RoundingMode, Merge, WithRounding, Narrow, Status, Upper;
  }

  /** The floating-point state: fcsr is the flags and, above them, the rounding mode. */
  lemma FloatStateReadsBack(c: Csrs, value: bv64)
    ensures Read(Write(c, 0x003, value), 0x001) == Mask(value, 0x1F)
    ensures Read(Write(c, 0x003, value), 0x002) == RoundingMode(value)
    ensures Read(Write(c, 0x001, value), 0x001) == Mask(value, 0x1F)
    ensures Read(Write(c, 0x001, value), 0x002) == Read(c, 0x002)
    ensures Read(Write(c, 0x002, value), 0x002) == Mask(value, 7)
    ensures Read(Write(c, 0x002, value), 0x001) == Read(c, 0x001)
  {
    FloatReads(c, value);
    FloatReads(Write(c, 0x001, value), value);
    FloatReads(Write(c, 0x002, value), value);
    FloatReads(Write(c, 0x003, value), value);
    hide Read, Write, Mask, RoundingMode, Merge, WithRounding, Narrow;
    var prior := c.regs[0x003];
    FloatWhole(value);
    FlagsMerged(prior, value);
    ModeMerged(prior, value);
    NarrowNothing(c.xlen, value, 0x1F);
    NarrowNothing(c.xlen, value, 7);
    ModeNarrow(c.xlen, value);
  }

  /** The rounding mode in bits 7:5. */
  lemma ModeField(v: bv64)
    ensures RoundingMode(v) == (v >> 5) & 7
  {
  }

  lemma FloatWhole(value: bv64)
    ensures Mask(Mask(value, 0xFF), 0x1F) == Mask(value, 0x1F)
    ensures RoundingMode(Mask(value, 0xFF)) == RoundingMode(value)
  {
  }

  lemma ModeNarrow(xlen: Xlen, value: bv64)
    ensures Narrow(xlen, RoundingMode(value)) == RoundingMode(value)
  {
  }

  lemma FlagsMerged(prior: bv64, value: bv64)
    ensures Mask(Merge(prior, value, 0x1F), 0x1F) == Mask(value, 0x1F)
    ensures RoundingMode(Merge(prior, value, 0x1F)) == RoundingMode(prior)
  {
  }

  lemma ModeMerged(prior: bv64, value: bv64)
    ensures RoundingMode(WithRounding(prior, value)) == Mask(value, 7)
    ensures Mask(WithRounding(prior, value), 0x1F) == Mask(prior, 0x1F)
  {
  }

  /** The addresses of 64-bit counters, of their upper halves, and of the registers with fields of
      their own. */
  predicate Special(addr: Addr) {
    addr == 0x001 || addr == 0x002 || addr == 0x003 || addr == 0x100 || addr == 0x104 || addr == 0x105 ||
    addr == 0x141 || addr == 0x144 || addr == 0x180 || addr == 0x300 || addr == 0x301 || addr == 0x304 ||
    addr == 0x305 || addr == 0x310 || addr == 0x341 || addr == 0x344 || addr == 0xB80 || addr == 0xB82 ||
    addr == 0xC00 || addr == 0xC02 || addr == 0xC80 || addr == 0xC81 || addr == 0xC82
  }

  /** Every other register reads back as written, and misa cannot be written. */
  lemma PlainReadsBack(c: Csrs, addr: Addr, value: bv64)
    ensures !Special(addr) ==> Read(Write(c, addr, value), addr) == Width(c.xlen, value)
    ensures Write(c, 0x301, value) == c
  {
    WidthIsNarrow(c.xlen, value);
    hide Narrow, Width, Status, Mask, Upper, RoundingMode;
    assert c.regs[MISA := c.regs[MISA]] == c.regs;
  }

  lemma CycleReads(c: Csrs, value: bv64)
    ensures Read(c, 0xB80) == Narrow(c.xlen, Upper(c.regs[0xB00])) == Read(c, 0xC80)
    ensures Read(c, 0xC00) == Read(c, 0xB00)
    ensures Write(c, 0xB80, value).regs[0xB00] == WithUpper(c.regs[0xB00], value)
    ensures Read(Write(c, 0xB80, value), 0xB80) == Narrow(c.xlen, Upper(WithUpper(c.regs[0xB00], value)))
  {
    hide Mask, Narrow, Status, Upper, RoundingMode, WithUpper;
  }

  /** The counters: two names for each half, the low half and the high one together the whole, and
      writing the high half leaves the low one. */
  lemma CycleHalves(c: Csrs, value: bv64)
    ensures c.regs[0xB00] == Whole(Read(c, 0xB80), c.regs[0xB00])
    ensures Read(c, 0xC00) == Read(c, 0xB00) && Read(c, 0xC80) == Read(c, 0xB80)
    ensures Read(Write(c, 0xB80, value), 0xB80) == Mask(value, 0xFFFF_FFFF)
    ensures Mask(Write(c, 0xB80, value).regs[0xB00], 0xFFFF_FFFF) == Mask(c.regs[0xB00], 0xFFFF_FFFF)
  {
    CycleReads(c, value);
    hide Read, Write, Mask, Narrow, Whole, Upper, WithUpper;
    Halves(c.xlen, c.regs[0xB00]);
    UpperWritten(c.regs[0xB00], value);
    NarrowNothing(c.xlen, value, 0xFFFF_FFFF);
  }

  lemma RetiredReads(c: Csrs, value: bv64)
    ensures Read(c, 0xB82) == Narrow(c.xlen, Upper(c.regs[0xB02])) == Read(c, 0xC82)
    ensures Read(c, 0xC02) == Read(c, 0xB02)
    ensures Write(c, 0xB82, value).regs[0xB02] == WithUpper(c.regs[0xB02], value)
    ensures Read(Write(c, 0xB82, value), 0xB82) == Narrow(c.xlen, Upper(WithUpper(c.regs[0xB02], value)))
  {
    hide Mask, Narrow, Status, Upper, RoundingMode, WithUpper;
  }

  /** The same for retired instructions. */
  lemma RetiredHalves(c: Csrs, value: bv64)
    ensures c.regs[0xB02] == Whole(Read(c, 0xB82), c.regs[0xB02])
    ensures Read(c, 0xC02) == Read(c, 0xB02) && Read(c, 0xC82) == Read(c, 0xB82)
    ensures Read(Write(c, 0xB82, value), 0xB82) == Mask(value, 0xFFFF_FFFF)
    ensures Mask(Write(c, 0xB82, value).regs[0xB02], 0xFFFF_FFFF) == Mask(c.regs[0xB02], 0xFFFF_FFFF)
  {
    RetiredReads(c, value);
    hide Read, Write, Mask, Narrow, Whole, Upper, WithUpper;
    Halves(c.xlen, c.regs[0xB02]);
    UpperWritten(c.regs[0xB02], value);
    NarrowNothing(c.xlen, value, 0xFFFF_FFFF);
  }

  /** A high half above the low half of v. */
  function Whole(high: bv64, v: bv64): bv64 { (high << 32) | (v & 0xFFFF_FFFF) }

  lemma Halves(xlen: Xlen, v: bv64)
    ensures v == Whole(Narrow(xlen, Upper(v)), v)
  {
    UpperShown(xlen, v);
    Rebuilt(v);
    hide Narrow, Upper, Whole;
  }

  lemma UpperShown(xlen: Xlen, v: bv64)
    ensures Narrow(xlen, Upper(v)) == Upper(v)
  {
  }

  lemma Rebuilt(v: bv64)
    ensures Whole(Upper(v), v) == v
  {
  }

  lemma UpperWritten(v: bv64, value: bv64)
    ensures Upper(WithUpper(v, value)) == Mask(value, 0xFFFF_FFFF)
    ensures Mask(WithUpper(v, value), 0xFFFF_FFFF) == Mask(v, 0xFFFF_FFFF)
  {
  }

  lemma HighReads(c: Csrs, value: bv64)
    ensures Read(c, 0x310) == Narrow(c.xlen, Upper(Status(c.regs[0x300])))
    ensures Read(c, 0xC81) == Narrow(c.xlen, Upper(c.regs[0xC01])) && Read(c, 0xC01) == Narrow(c.xlen, c.regs[0xC01])
    ensures Write(c, 0x310, value).regs[0x300] == WithUpper(c.regs[0x300], value)
  {
    hide Mask, Narrow, Status, Upper, RoundingMode, WithUpper;
  }

  /** The other upper halves: that of time, and that of mstatus, which the 32-bit hart reads and writes
      by a name of its own and apart from the lower half. */
  lemma UpperHalves(c: Csrs, value: bv64)
    ensures c.regs[0xC01] == Whole(Read(c, 0xC81), c.regs[0xC01])
    ensures Status(c.regs[0x300]) == Whole(Read(c, 0x310), Status(c.regs[0x300]))
    ensures Write(c, 0x310, value).regs[0x300] == Whole(value, c.regs[0x300])
  {
    HighReads(c, value);
    Halves(c.xlen, c.regs[0xC01]);
    Halves(c.xlen, Status(c.regs[0x300]));
    UpperIsWhole(c.regs[0x300], value);
    hide Read, Write, Narrow, Status, Upper, Whole, WithUpper;
  }

  lemma UpperIsWhole(v: bv64, value: bv64)
    ensures WithUpper(v, value) == Whole(value, v)
  {
  }

  /** A write changes one register: the one it names, or the machine register behind the name. */
  lemma OneRegisterChanges(c: Csrs, addr: Addr, value: bv64, i: Addr)
    requires i != addr
    requires addr == 0x001 || addr == 0x002 ==> i != 0x003
    requires addr == 0x100 || addr == 0x310 ==> i != 0x300
    requires (addr == 0x104 ==> i != 0x304) && (addr == 0x144 ==> i != 0x344)
    requires addr == 0xB80 || addr == 0xC00 ==> i != 0xB00
    requires addr == 0xB82 || addr == 0xC02 ==> i != 0xB02
    ensures Write(c, addr, value).regs[i] == c.regs[i] && Write(c, addr, value).xlen == c.xlen
  {
    hide Stored;
  }

  /** Who may touch a register: its address says in bits 9:8 how much privilege it takes, and in bits
      11:10 whether it can be written. */
  lemma AccessRule(addr: Addr, mode: Priv, write: bool)
    ensures Accessible(addr, mode, write) <==>
            (addr / 0x100 % 4 == 0 || (addr / 0x100 % 4 == 1 && !mode.User?) || mode.Machine?) &&
            (write ==> addr < 0xC00)
  {
  }

  /** misa at reset names the extensions A, C, D, F, I, M, S and U by the letters' places. */
  lemma MisaAtReset(xlen: Xlen, letter: bv64)
    requires letter < 26
    ensures Lettered(Read(Reset(xlen), 0x301), letter) <==>
            letter == 0 || letter == 2 || letter == 3 || letter == 5 || letter == 8 || letter == 12 || letter == 18 ||
            letter == 20
  {
    MisaValue(xlen);
    Letters(letter);
    hide Read, Reset, Lettered;
  }

  /** And the width on top. */
  lemma MisaWidth()
    ensures Read(Reset(Rv32), 0x301) >> 30 == 1 && Read(Reset(Rv64), 0x301) >> 62 == 2
  {
    MisaValue(Rv32);
    MisaValue(Rv64);
    hide Read, Reset;
  }

  predicate Lettered(misa: bv64, letter: bv64)
    requires letter < 26
  {
    (misa >> letter) & 1 == 1
  }

  lemma MisaValue(xlen: Xlen)
    ensures Read(Reset(xlen), 0x301) == if xlen.Rv32? then 0x4014_112D else 0x8000_0000_0014_112D
  {
    hide Status, Mask, Upper, RoundingMode;
    assert Read(Reset(xlen), 0x301) == Narrow(xlen, Misa(xlen));
  }

  lemma Letters(letter: bv64)
    requires letter < 26
    ensures Lettered(0x4014_112D, letter) == Lettered(0x8000_0000_0014_112D, letter)
    ensures Lettered(0x4014_112D, letter) <==>
            letter == 0 || letter == 2 || letter == 3 || letter == 5 || letter == 8 || letter == 12 || letter == 18 ||
            letter == 20
  {
  }
}
