/** Physical memory as the hart holds it: DRAM and the devices, changed in place by reads and
    writes. */
module MemoryModel {
  import opened Basics
  import opened Mmu
  import PagedAccess
  import CsrModel
  import DeviceScan
  import PlicModel
  import UartModel

  predicate Sized(size: nat) { size == 1 || size == 2 || size == 4 || size == 8 }

  /** The low 64 bits of a value. */
  function Word64(v: nat): bv64 { (v % 0x1_0000_0000_0000_0000) as bv64 }

  function Answer(l: Loaded): Option<nat>
    requires !l.Device?
  {
    if l.Data? then Some(l.v) else None
  }

  class Memory {
    const dram: array<byte>
    var clint: DeviceScan.Clint
    const plic: PlicModel.Plic
    const uart: UartModel.Uart
    var tohost: Option<nat>
    var tohostValue: Option<nat>
    var devicesDirty: bool

    ghost predicate Valid()
      reads plic
    {
      plic.Valid()
    }

    ghost function Devices(): DeviceScan.Devices
      reads this, plic, uart
    {
      DeviceScan.Devices(clint, plic.Model(), uart.Model(), devicesDirty)
    }

    constructor (size: nat)
      ensures Valid() && fresh(dram) && fresh(plic) && fresh(uart)
      ensures dram[..] == seq(size, _ => 0) && Devices() == DeviceScan.RESET && tohost == None && tohostValue == None
    {
      dram := new byte[size](_ => 0);
      clint := DeviceScan.Clint(0, 0, 0);
      plic := new PlicModel.Plic();
      uart := new UartModel.Uart();
      tohost, tohostValue, devicesDirty := None, None, true;
    }

    method Index(addr: nat, size: nat) returns (i: Option<nat>)
      ensures i == Mmu.Index(dram[..], addr, size)
    {
      i := None;
      if addr >= DRAM_BASE {
        if addr - DRAM_BASE + size <= dram.Length {
          i := Some(addr - DRAM_BASE);
        }
      }
    }

    /** The little-endian value of a run of bytes. */
    method Gather(i: nat, size: nat) returns (v: nat)
      requires i + size <= dram.Length
      ensures v == LittleEndian(dram[i..i + size])
    {
      v := 0;
      for k := size downto 0
        invariant v == LittleEndian(dram[i + k..i + size])
      {
        assert dram[i + k..i + size][1..] == dram[i + k + 1..i + size];
        v := dram[i + k] + 256 * v;
      }
    }

    /** Stores the bytes of a value, lowest first. */
    method Scatter(i: nat, size: nat, v: nat)
      requires i + size <= dram.Length
      modifies dram
      ensures dram[..] == PagedAccess.WriteLE(old(dram[..]), i, size, v)
    {
      var rest := v;
      for k := 0 to size
        invariant PagedAccess.WriteLE(dram[..], i + k, size - k, rest) == PagedAccess.WriteLE(old(dram[..]), i, size, v)
      {
        ghost var was := dram[..];
        dram[i + k] := rest % 256;
        assert dram[..] == was[i + k := rest % 256];
        rest := rest / 256;
      }
    }

    /** Reads DRAM or a device. A device read can change the device, and always marks the devices
        touched. */
    /** A read below DRAM: the device's value, and what reading it does to the device. */
    method ReadDevice(addr: nat, size: nat) returns (r: Option<nat>)
      requires Valid() && addr < DRAM_BASE
      modifies this`devicesDirty, plic, uart
      ensures Valid() && r == old(Devices()).ReadValue(addr, size) && Devices() == old(Devices()).AfterRead(addr)
    {
      hide CsrModel.Number, DeviceScan.Clint.ReadValue, PlicModel.State.ReadValue, PlicModel.State.AfterRead,
           UartModel.State.ReadValue, UartModel.State.AfterRead;
      r := None;
      devicesDirty := true;
      if CLINT_BASE <= addr < CLINT_END {
        r := Some(CsrModel.Number(clint.ReadValue(addr, size)));
      } else if PLIC_BASE <= addr < PLIC_END {
        var v := plic.Read(addr - PLIC_BASE);
        r := Some(v);
      } else if UART_BASE <= addr < UART_END {
        var v := uart.Read(addr - UART_BASE);
        r := Some(v);
      }
    }

    method Read(addr: nat, size: nat) returns (r: Option<nat>)
      requires Valid() && Sized(size)
      modifies this`devicesDirty, plic, uart
      ensures Valid()
      ensures addr >= DRAM_BASE ==> Devices() == old(Devices()) && r == Answer(ReadPhysical(dram[..], addr, size))
      ensures addr < DRAM_BASE ==>
              r == old(Devices()).ReadValue(addr, size) && Devices() == old(Devices()).AfterRead(addr)
    {
      r := None;
      if addr >= DRAM_BASE {
        var i := Index(addr, size);
        if i.Some? {
          var v := Gather(i.value, size);
          assert dram[..][i.value..i.value + size] == dram[i.value..i.value + size];
          r := Some(v);
        }
      } else {
        r := ReadDevice(addr, size);
      }
    }

    /** Writes DRAM or a device. A non-zero write to the tohost address is also recorded. */
    method Write(addr: nat, size: nat, value: nat) returns (ok: bool)
      requires Valid() && Sized(size)
      modifies this`devicesDirty, this`clint, this`tohostValue, dram, plic, uart
      ensures Valid()
      ensures addr >= DRAM_BASE ==> Devices() == old(Devices()) && ok == Mmu.Index(dram[..], addr, size).Some?
      ensures addr >= DRAM_BASE && ok ==>
                dram[..] == PagedAccess.WriteLE(old(dram[..]), addr - DRAM_BASE, size, value) &&
                tohostValue == if tohost == Some(addr) && value != 0 then Some(value) else old(tohostValue)
      ensures addr < DRAM_BASE ==>
              ok == IsDevice(addr) && Devices() == old(Devices()).AfterWrite(addr, size, Word64(value))
      ensures !ok || addr < DRAM_BASE ==> dram[..] == old(dram[..]) && tohostValue == old(tohostValue)
    {
      hide PagedAccess.WriteLE, Word64, CsrModel.Number;
      ok := false;
      if addr >= DRAM_BASE {
        var i := Index(addr, size);
        if i.Some? {
          Scatter(i.value, size, value);
          if tohost == Some(addr) && value != 0 {
            tohostValue := Some(value);
          }
          ok := true;
        }
      } else {
        ok := WriteDevice(addr, size, value);
      }
    }

    method WriteDevice(addr: nat, size: nat, value: nat) returns (ok: bool)
      requires Valid() && addr < DRAM_BASE
      modifies this`devicesDirty, this`clint, plic, uart
      ensures Valid() && ok == IsDevice(addr) && Devices() == old(Devices()).AfterWrite(addr, size, Word64(value))
    {
      hide Word64, CsrModel.Number;
      ok := false;
      devicesDirty := true;
      if CLINT_BASE <= addr < CLINT_END {
        clint := clint.AfterWrite(addr, size, Word64(value));
        ok := true;
      } else if PLIC_BASE <= addr < PLIC_END {
        plic.Write(addr - PLIC_BASE, CsrModel.Number(Word64(value)));
        ok := true;
      } else if UART_BASE <= addr < UART_END {
        uart.Write(addr - UART_BASE, CsrModel.Number(Word64(value)));
        ok := true;
      }
    }
  }
}
