/** The CHIP-8 register file, stack and memory that the CPU operations transform. */
module CpuStates {
  import opened Base

  const MemorySize: nat := 4096
  const StackDepth: nat := 16
  const RegisterCount: nat := 16

  /** Memory, program counter, stack pointer, return stack, the sixteen V registers and
      the address register I. Program counter, stack slots and I are 16-bit words; the
      stack pointer is a byte used as an index, and the registers are bytes. */
  datatype CpuState = CpuState(
    memory: seq<ByteValue>,
    pc: Word,
    sp: ByteValue,
    stack: seq<Word>,
    v: seq<ByteValue>,
    i: Word)
  {
    /** The array sizes a state is allocated with. */
    predicate Valid() {
      |memory| == MemorySize && |stack| == StackDepth && |v| == RegisterCount
    }
  }

  /** The state a newly constructed CPU starts in: every array zero-filled, and the
      program counter, stack pointer and I all 0. */
  function Fresh(): (s: CpuState)
    ensures s.Valid()
    ensures s.pc == 0 && s.sp == 0 && s.i == 0
    ensures forall a | 0 <= a < |s.memory| :: s.memory[a] == 0
    ensures forall k | 0 <= k < |s.stack| :: s.stack[k] == 0
    ensures forall r | 0 <= r < |s.v| :: s.v[r] == 0
  {
    CpuState(seq(MemorySize, _ => 0), 0, 0, seq(StackDepth, _ => 0), seq(RegisterCount, _ => 0), 0)
  }
}
