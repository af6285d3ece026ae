/** Which vector instructions the machine supports. */
module Cpu {
  /** cpu::features::get(): 0, 1 or 2, the index of every table of implementations. */
  datatype CpuTier = Gpr | Sse2 | Avx2
}
