/** The CHIP-8 operation set, one constructor per operation of the CPU interface, with the
    operand types the interface declares. */
module Ops {
  import opened Base

  /** One CPU operation with its operands. Register operands (`vx`, `vy`, `register`) are
      V-register indices; `kk` and `argument` are byte constants; addresses are 16-bit
      words of which the decoder only ever fills the low 12 bits. */
  datatype Op =
    | Cls
    | Jump(address: Word)
    | Call(address: Word)
    | SeConstant(register: ByteValue, kk: ByteValue)
    | SneConstant(register: ByteValue, kk: ByteValue)
    | Ret
    | Se(vx: ByteValue, vy: ByteValue)
    | LdConstant(vx: ByteValue, argument: ByteValue)
    | AddConstant(vx: ByteValue, argument: ByteValue)
    | Ld(vx: ByteValue, vy: ByteValue)
    | Or(vx: ByteValue, vy: ByteValue)
    | And(vx: ByteValue, vy: ByteValue)
    | Xor(vx: ByteValue, vy: ByteValue)
    | AddCarry(vx: ByteValue, vy: ByteValue)
    | Sub(vx: ByteValue, vy: ByteValue)
    | Shr(vx: ByteValue)
    | Subn(vx: ByteValue, vy: ByteValue)
    | Shl(vx: ByteValue)
    | Sne(vx: ByteValue, vy: ByteValue)
    | Ldi(address: Word)
    | JumpV0Offset(address: Word)
    | Rnd(vx: ByteValue, kk: ByteValue)
    | Drw(vx: ByteValue, vy: ByteValue, height: ByteValue)
    | Skp(vx: ByteValue)
    | Sknp(vx: ByteValue)
    | Lddt(vx: ByteValue)
    | Ldk(vx: ByteValue)
    | SetDt(vx: ByteValue)
    | SetSt(vx: ByteValue)
    | AddI(vx: ByteValue)
    | Ldf(vx: ByteValue)
    | Ldb(vx: ByteValue)
    | CopyRegisters(vx: ByteValue)
    | CopyMemory(vx: ByteValue)

  /** The operations the decoder can produce: every one except Shl, Drw and the
      E/F-family operations, for which it has no case. */
  predicate Decodable(op: Op) {
    !(op.Shl? || op.Drw? || op.Skp? || op.Sknp? || op.Lddt? || op.Ldk? || op.SetDt?
      || op.SetSt? || op.AddI? || op.Ldf? || op.Ldb? || op.CopyRegisters? || op.CopyMemory?)
  }

  /** Register operands name one of the sixteen V registers and addresses fit in the
      12-bit address space. */
  predicate OperandsInRange(op: Op) {
    match op
    case Cls | Ret => true
    case Jump(a) => a < 0x1000
    case Call(a) => a < 0x1000
    case Ldi(a) => a < 0x1000
    case JumpV0Offset(a) => a < 0x1000
    case SeConstant(x, _) => x < 16
    case SneConstant(x, _) => x < 16
    case LdConstant(x, _) => x < 16
    case AddConstant(x, _) => x < 16
    case Rnd(x, _) => x < 16
    case Se(x, y) => x < 16 && y < 16
    case Ld(x, y) => x < 16 && y < 16
    case Or(x, y) => x < 16 && y < 16
    case And(x, y) => x < 16 && y < 16
    case Xor(x, y) => x < 16 && y < 16
    case AddCarry(x, y) => x < 16 && y < 16
    case Sub(x, y) => x < 16 && y < 16
    case Subn(x, y) => x < 16 && y < 16
    case Sne(x, y) => x < 16 && y < 16
    case Drw(x, y, _) => x < 16 && y < 16
    case Shr(x) => x < 16
    case Shl(x) => x < 16
    case Skp(x) => x < 16
    case Sknp(x) => x < 16
    case Lddt(x) => x < 16
    case Ldk(x) => x < 16
    case SetDt(x) => x < 16
    case SetSt(x) => x < 16
    case AddI(x) => x < 16
    case Ldf(x) => x < 16
    case Ldb(x) => x < 16
    case CopyRegisters(x) => x < 16
    case CopyMemory(x) => x < 16
  }
}
