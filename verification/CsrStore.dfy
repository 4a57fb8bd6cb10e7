/** The register file as the hart holds it: one array, updated in place. */
module CsrStore {
  import opened Basics
  import opened CsrModel

  class CsrFile {
    const regs: array<bv64>
    var xlen: Xlen

    ghost predicate Valid()
      reads this
    {
      regs.Length == 4096
    }

    ghost function Model(): Csrs
      requires Valid()
      reads this, regs
    {
      Csrs(regs[..], xlen)
    }

    constructor (width: Xlen)
      ensures Valid() && fresh(regs) && Model() == CsrModel.Reset(width)
    {
      regs := new bv64[4096](_ => 0);
      xlen := width;
      new;
      regs[MISA] := Misa(width);
      if width == Rv64 {
        regs[MSTATUS] := STATUS_XLENS;
      }
      assert regs[..] == CsrModel.Reset(width).regs;
    }

    method Status() returns (v: bv64)
      requires Valid()
      ensures v == CsrModel.Status(regs[MSTATUS])
    {
      v := regs[MSTATUS];
      if Full(v, STATUS_FS) || Full(v, STATUS_XS) {
        v := On(v, STATUS_SD);
      } else {
        v := Off(v, STATUS_SD);
      }
    }

    method Read(addr: Addr) returns (v: bv64)
      requires Valid()
      ensures v == CsrModel.Read(Model(), addr)
    {
      hide Mask, RoundingMode, Upper, Narrow, CsrModel.Status;
      if addr == FFLAGS {
        v := Mask(regs[FCSR], 0x1F);
      } else if addr == FRM {
        v := RoundingMode(regs[FCSR]);
      } else if addr == SSTATUS {
        v := Status();
        v := Mask(v, STATUS_VISIBLE);
      } else if addr == MSTATUS {
        v := Status();
      } else if addr == SIE {
        v := Mask(regs[MIE], INT_VISIBLE);
      } else if addr == SIP {
        v := Mask(regs[MIP], INT_VISIBLE);
      } else if addr == CYCLE {
        v := regs[MCYCLE];
      } else if addr == INSTRET {
        v := regs[MINSTRET];
      } else if addr == CYCLEH || addr == MCYCLEH {
        v := Upper(regs[MCYCLE]);
      } else if addr == TIMEH {
        v := Upper(regs[TIME]);
      } else if addr == INSTRETH || addr == MINSTRETH {
        v := Upper(regs[MINSTRET]);
      } else if addr == MSTATUSH {
        v := Status();
        v := Upper(v);
      } else {
        v := regs[addr];
      }
      v := Narrow(xlen, v);
    }

    method Write(addr: Addr, value: bv64)
      requires Valid()
      modifies regs
      ensures Model() == CsrModel.Write(old(Model()), addr, value)
    {
      hide Mask, Merge, Off, VectorBase, WithUpper, WithRounding, SatpSupported;
      if addr < SATP {
        WriteLow(addr, value);
      } else if addr < MIE {
        WriteStatus(addr, value);
      } else if addr < MCYCLE {
        WriteMachine(addr, value);
      } else {
        WriteCounter(addr, value);
      }
    }

    /** The floating-point state. */
    method WriteFloat(addr: Addr, value: bv64)
      requires Valid() && addr <= FCSR
      modifies regs
      ensures Model() == CsrModel.Write(old(Model()), addr, value)
    {
      hide Mask, Merge, WithRounding;
      if addr == FCSR {
        regs[FCSR] := Mask(value, 0xFF);
      } else if addr == FFLAGS {
        regs[FCSR] := Merge(regs[FCSR], value, 0x1F);
      } else if addr == FRM {
        regs[FCSR] := WithRounding(regs[FCSR], value);
      } else {
        regs[addr] := value;
      }
    }

    /** The floating-point state and the supervisor's trap registers. */
    method WriteLow(addr: Addr, value: bv64)
      requires Valid() && addr < SATP
      modifies regs
      ensures Model() == CsrModel.Write(old(Model()), addr, value)
    {
      hide Mask, Merge, Off, VectorBase, WithUpper, WithRounding, SatpSupported;
      if addr <= FCSR {
        WriteFloat(addr, value);
      } else if addr == SSTATUS {
        regs[MSTATUS] := Merge(regs[MSTATUS], value, STATUS_SHARED);
      } else if addr == SIE {
        regs[MIE] := Merge(regs[MIE], value, INT_VISIBLE);
      } else if addr == STVEC {
        regs[STVEC] := VectorBase(value);
      } else if addr < SEPC {
        regs[addr] := value;
      } else {
        WriteSupervisorTrap(addr, value);
      }
    }

    method WriteSupervisorTrap(addr: Addr, value: bv64)
      requires Valid() && SEPC <= addr < SATP
      modifies regs
      ensures Model() == CsrModel.Write(old(Model()), addr, value)
    {
      hide Merge, Off;
      if addr == SEPC {
        regs[SEPC] := Off(value, 1);
      } else if addr == SIP {
        regs[MIP] := Merge(regs[MIP], value, SSI);
      } else {
        regs[addr] := value;
      }
    }

    method WriteStatus(addr: Addr, value: bv64)
      requires Valid() && SATP <= addr < MIE
      modifies regs
      ensures Model() == CsrModel.Write(old(Model()), addr, value)
    {
      hide Mask, Merge, Off, VectorBase, WithUpper, WithRounding, SatpSupported;
      if addr == SATP {
        if SatpSupported(xlen, value) {
          regs[SATP] := value;
        }
      } else if addr == MSTATUS {
        regs[MSTATUS] := Merge(regs[MSTATUS], value, STATUS_WRITABLE);
      } else if addr != MISA {
        regs[addr] := value;
      }
    }

    method WriteMachine(addr: Addr, value: bv64)
      requires Valid() && MIE <= addr < MCYCLE
      modifies regs
      ensures Model() == CsrModel.Write(old(Model()), addr, value)
    {
      hide Mask, Merge, Off, VectorBase, WithUpper, WithRounding, SatpSupported;
      if addr == MIE {
        regs[MIE] := Mask(value, INT_ALL);
      } else if addr == MTVEC {
        regs[MTVEC] := VectorBase(value);
      } else if addr == MSTATUSH {
        regs[MSTATUS] := WithUpper(regs[MSTATUS], value);
      } else if addr < MEPC {
        regs[addr] := value;
      } else {
        WriteMachineTrap(addr, value);
      }
    }

    method WriteMachineTrap(addr: Addr, value: bv64)
      requires Valid() && MEPC <= addr < MCYCLE
      modifies regs
      ensures Model() == CsrModel.Write(old(Model()), addr, value)
    {
      hide Merge, Off;
      if addr == MEPC {
        regs[MEPC] := Off(value, 1);
      } else if addr == MIP {
        regs[MIP] := Merge(regs[MIP], value, MIP_WRITABLE);
      } else {
        regs[addr] := value;
      }
    }

    method WriteCounter(addr: Addr, value: bv64)
      requires Valid() && MCYCLE <= addr
      modifies regs
      ensures Model() == CsrModel.Write(old(Model()), addr, value)
    {
      hide Mask, Merge, Off, VectorBase, WithUpper, WithRounding, SatpSupported;
      if addr == MCYCLEH {
        regs[MCYCLE] := WithUpper(regs[MCYCLE], value);
      } else if addr == MINSTRETH {
        regs[MINSTRET] := WithUpper(regs[MINSTRET], value);
      } else if addr == CYCLE {
        regs[MCYCLE] := value;
      } else if addr == INSTRET {
        regs[MINSTRET] := value;
      } else {
        regs[addr] := value;
      }
    }

    method Force(addr: Addr, value: bv64)
      requires Valid()
      modifies regs
      ensures Model() == CsrModel.Force(old(Model()), addr, value)
    {
      regs[addr] := value;
    }

    method SetBits(addr: Addr, bits: bv64)
      requires Valid()
      modifies regs
      ensures Model() == CsrModel.Force(old(Model()), addr, On(old(regs[addr]), bits))
    {
      regs[addr] := On(regs[addr], bits);
    }

    method ClearBits(addr: Addr, bits: bv64)
      requires Valid()
      modifies regs
      ensures Model() == CsrModel.Force(old(Model()), addr, Off(old(regs[addr]), bits))
    {
      regs[addr] := Off(regs[addr], bits);
    }
  }
}
