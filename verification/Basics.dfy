/** Vocabulary shared by the modules of the machine. */
module Basics {

  type byte = x: int | 0 <= x < 256

  datatype Option<T> = None | Some(value: T)

  datatype Xlen = Rv32 | Rv64

  /** What a memory access is for. */
  datatype Access = Fetch | Load | Store

  datatype Priv = User | Supervisor | Machine {

    /** The encoding in MPP and SPP, which also orders the modes. */
    function Rank(): nat { match this case User => 0 case Supervisor => 1 case Machine => 3 }
  }

  // The physical memory map

  const CLINT_BASE: nat := 0x0200_0000
  const CLINT_END: nat := 0x0200_C000
  const PLIC_BASE: nat := 0x0C00_0000
  const PLIC_END: nat := 0x1000_0000
  const UART_BASE: nat := 0x1000_0000
  const UART_END: nat := 0x1000_0100
  const DRAM_BASE: nat := 0x8000_0000

  predicate IsDevice(addr: nat) {
    CLINT_BASE <= addr < CLINT_END || PLIC_BASE <= addr < PLIC_END || UART_BASE <= addr < UART_END
  }
}
