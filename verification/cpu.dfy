/** The operations the CPU class implements, as transitions of a machine: the CPU state
    together with the display that Cls clears. Each operation moves the program counter
    itself; 16-bit `+=` on the program counter wraps. */
module Cpu {
  import opened Base
  import opened CpuStates
  import Display
  import opened Ops
  import opened Decoder
  import opened Bits
  import opened DecoderProperties

  /** The CPU state and the display's pixel buffer. */
  datatype Machine = Machine(state: CpuState, screen: seq<byte>) {
    predicate Valid() {
      state.Valid() && Display.IsScreen(screen)
    }
  }

  /** `+=` on a 16-bit program counter: the sum, or the sum less 2^16 when it passes the
      top of the range. */
  function WrapAdd(a: Word, k: nat): (r: Word)
    requires k < 0x1_0000
    ensures r == a + k || r == a + k - 0x1_0000
  {
    (a + k) % 0x1_0000
  }

  /** The program counter moved forward by k, modulo 2^16. */
  predicate Advanced(before: CpuState, after: CpuState, k: nat) {
    (after.pc - before.pc) % 0x1_0000 == k
  }

  /** Everything but the program counter is as it was. */
  predicate OnlyPcChanged(before: CpuState, after: CpuState) {
    && after.memory == before.memory && after.sp == before.sp && after.stack == before.stack
    && after.v == before.v && after.i == before.i
  }

  /** Everything but the program counter and register x is as it was. */
  predicate OnlyRegisterChanged(before: CpuState, after: CpuState, x: nat) {
    && after.memory == before.memory && after.sp == before.sp && after.stack == before.stack
    && after.i == before.i && |after.v| == |before.v|
    && forall r | 0 <= r < |after.v| && r != x :: after.v[r] == before.v[r]
  }

  /** 00E0: clear the display and move to the next instruction. */
  function Cls(m: Machine): (r: Machine)
    requires m.Valid()
    ensures r.Valid()
    ensures forall c | 0 <= c < |r.screen| :: r.screen[c] == 0
    ensures Advanced(m.state, r.state, 2) && OnlyPcChanged(m.state, r.state)
  {
    Machine(m.state.(pc := WrapAdd(m.state.pc, 2)), Display.Clear(m.screen))
  }

  /** 1nnn: continue at the address, which is not advanced past. */
  function Jump(m: Machine, address: Word): (r: Machine)
    requires m.Valid()
    ensures r.Valid() && r.screen == m.screen
    ensures r.state.pc == address && OnlyPcChanged(m.state, r.state)
  {
    m.(state := m.state.(pc := address))
  }

  /** 2nnn: push the current program counter (the address of the call itself) and
      continue at the address. The stack holds sixteen entries. */
  function Call(m: Machine, address: Word): (r: Machine)
    requires m.Valid() && m.state.sp < StackDepth
    ensures r.Valid() && r.screen == m.screen
    ensures r.state.pc == address && r.state.sp == m.state.sp + 1
    ensures r.state.stack[m.state.sp] == m.state.pc
    ensures forall k | 0 <= k < StackDepth && k != m.state.sp :: r.state.stack[k] == m.state.stack[k]
    ensures r.state.memory == m.state.memory && r.state.v == m.state.v && r.state.i == m.state.i
  {
    var s := m.state;
    m.(state := s.(stack := s.stack[s.sp := s.pc], sp := s.sp + 1, pc := address))
  }

  /** 00EE: pop the top of the stack into the program counter, which is not advanced
      past it. */
  function Ret(m: Machine): (r: Machine)
    requires m.Valid() && 1 <= m.state.sp <= StackDepth
    ensures r.Valid() && r.screen == m.screen
    ensures r.state.sp == m.state.sp - 1 && r.state.pc == m.state.stack[r.state.sp]
    ensures r.state.stack == m.state.stack && r.state.memory == m.state.memory
    ensures r.state.v == m.state.v && r.state.i == m.state.i
  {
    var s := m.state;
    m.(state := s.(sp := s.sp - 1, pc := s.stack[s.sp - 1]))
  }

  /** Move past the next instruction when the condition holds, to it otherwise. */
  function SkipIf(m: Machine, condition: bool): (r: Machine)
    requires m.Valid()
    ensures r.Valid() && r.screen == m.screen && OnlyPcChanged(m.state, r.state)
    ensures condition ==> Advanced(m.state, r.state, 4)
    ensures !condition ==> Advanced(m.state, r.state, 2)
  {
    m.(state := m.state.(pc := WrapAdd(m.state.pc, if condition then 4 else 2)))
  }

  /** 3xkk: skip the next instruction when Vx equals kk. */
  function SeConstant(m: Machine, register: ByteValue, kk: ByteValue): (r: Machine)
    requires m.Valid() && register < RegisterCount
    ensures r.Valid() && r.screen == m.screen && OnlyPcChanged(m.state, r.state)
    ensures m.state.v[register] == kk ==> Advanced(m.state, r.state, 4)
    ensures m.state.v[register] != kk ==> Advanced(m.state, r.state, 2)
  {
    SkipIf(m, m.state.v[register] == kk)
  }

  /** 4xkk: skip the next instruction when Vx differs from kk. */
  function SneConstant(m: Machine, register: ByteValue, kk: ByteValue): (r: Machine)
    requires m.Valid() && register < RegisterCount
    ensures r.Valid() && r.screen == m.screen && OnlyPcChanged(m.state, r.state)
    ensures m.state.v[register] != kk ==> Advanced(m.state, r.state, 4)
    ensures m.state.v[register] == kk ==> Advanced(m.state, r.state, 2)
  {
    SkipIf(m, m.state.v[register] != kk)
  }

  /** 5xy0: skip the next instruction when Vx equals Vy. */
  function Se(m: Machine, vx: ByteValue, vy: ByteValue): (r: Machine)
    requires m.Valid() && vx < RegisterCount && vy < RegisterCount
    ensures r.Valid() && r.screen == m.screen && OnlyPcChanged(m.state, r.state)
    ensures m.state.v[vx] == m.state.v[vy] ==> Advanced(m.state, r.state, 4)
    ensures m.state.v[vx] != m.state.v[vy] ==> Advanced(m.state, r.state, 2)
  {
    SkipIf(m, m.state.v[vx] == m.state.v[vy])
  }

  /** Store a value in register x and move to the next instruction. */
  function SetRegister(m: Machine, x: ByteValue, value: ByteValue): (r: Machine)
    requires m.Valid() && x < RegisterCount
    ensures r.Valid() && r.screen == m.screen
    ensures r.state.v[x] == value && OnlyRegisterChanged(m.state, r.state, x)
    ensures Advanced(m.state, r.state, 2)
  {
    var s := m.state;
    m.(state := s.(v := s.v[x := value], pc := WrapAdd(s.pc, 2)))
  }

  /** 6xkk: Vx := kk. */
  function LdConstant(m: Machine, vx: ByteValue, argument: ByteValue): (r: Machine)
    requires m.Valid() && vx < RegisterCount
    ensures r.Valid() && r.screen == m.screen
    ensures r.state.v[vx] == argument && OnlyRegisterChanged(m.state, r.state, vx)
    ensures Advanced(m.state, r.state, 2)
  {
    SetRegister(m, vx, argument)
  }

  /** 7xkk: Vx := Vx + kk, wrapping modulo 256; no flag register is touched. */
  function AddConstant(m: Machine, vx: ByteValue, argument: ByteValue): (r: Machine)
    requires m.Valid() && vx < RegisterCount
    ensures r.Valid() && r.screen == m.screen
    ensures var sum := m.state.v[vx] + argument;
      r.state.v[vx] == sum || r.state.v[vx] == sum - 256
    ensures OnlyRegisterChanged(m.state, r.state, vx)
    ensures Advanced(m.state, r.state, 2)
  {
    SetRegister(m, vx, (m.state.v[vx] + argument) % 256)
  }

  /** 8xy0: Vx := Vy. */
  function Ld(m: Machine, vx: ByteValue, vy: ByteValue): (r: Machine)
    requires m.Valid() && vx < RegisterCount && vy < RegisterCount
    ensures r.Valid() && r.screen == m.screen
    ensures r.state.v[vx] == m.state.v[vy] && OnlyRegisterChanged(m.state, r.state, vx)
    ensures Advanced(m.state, r.state, 2)
  {
    SetRegister(m, vx, m.state.v[vy])
  }

  /** 8xy1: Vx := Vx | Vy, bit by bit. */
  function Or(m: Machine, vx: ByteValue, vy: ByteValue): (r: Machine)
    requires m.Valid() && vx < RegisterCount && vy < RegisterCount
    ensures r.Valid() && r.screen == m.screen
    ensures forall k: nat | k < 8 :: Bit(r.state.v[vx], k) <==> Bit(m.state.v[vx], k) || Bit(m.state.v[vy], k)
    ensures OnlyRegisterChanged(m.state, r.state, vx)
    ensures Advanced(m.state, r.state, 2)
  {
    var a, b := m.state.v[vx], m.state.v[vy];
    OrBitsBitwise(a, b, 8);
    SetRegister(m, vx, OrBits(a, b, 8))
  }

  /** What handing an operation to the CPU comes to. */
  datatype Outcome =
      /** The operation ran and left this machine. */
    | Ran(machine: Machine)
      /** The CPU class declares no body for the operation. */
    | NotImplemented(op: Op)
      /** Call on a full stack or Ret on an empty one: the stack index is out of range
          and the access throws. */
    | StackFault

  /** The eleven operations the CPU class implements. */
  predicate Implemented(op: Op) {
    || op.Cls? || op.Jump? || op.Call? || op.Ret? || op.SeConstant? || op.SneConstant?
    || op.Se? || op.LdConstant? || op.AddConstant? || op.Ld? || op.Or?
  }

  /** The stack has room for a Call and an entry for a Ret. */
  predicate StackFits(s: CpuState, op: Op) {
    && (op.Call? ==> s.sp < StackDepth)
    && (op.Ret? ==> 1 <= s.sp <= StackDepth)
  }

  /** Hand one operation to the CPU. */
  function Execute(m: Machine, op: Op): (o: Outcome)
    requires m.Valid() && OperandsInRange(op)
    ensures o.Ran? ==> o.machine.Valid()
    ensures o.NotImplemented? <==> !Implemented(op)
    ensures o.StackFault? <==> Implemented(op) && !StackFits(m.state, op)
  {
    if !Implemented(op) then NotImplemented(op)
    else if !StackFits(m.state, op) then StackFault
    else Ran(Run(m, op))
  }

  /** The transition of an implemented operation that the stack has room for. */
  function Run(m: Machine, op: Op): (r: Machine)
    requires m.Valid() && OperandsInRange(op) && Implemented(op) && StackFits(m.state, op)
    ensures r.Valid()
  {
    match op
    case Cls => Cls(m)
    case Jump(a) => Jump(m, a)
    case Call(a) => Call(m, a)
    case Ret => Ret(m)
    case SeConstant(x, kk) => SeConstant(m, x, kk)
    case SneConstant(x, kk) => SneConstant(m, x, kk)
    case Se(x, y) => Se(m, x, y)
    case LdConstant(x, kk) => LdConstant(m, x, kk)
    case AddConstant(x, kk) => AddConstant(m, x, kk)
    case Ld(x, y) => Ld(m, x, y)
    case Or(x, y) => Or(m, x, y)
    case _ => assert false; m
  }

  /** Decode an instruction word and run what it dispatches. A word the decoder ignores
      leaves the machine as it was: the program counter does not move either. */
  function Step(m: Machine, w: Word): (o: Outcome)
    requires m.Valid()
    ensures Ignored(w) ==> o == Ran(m)
  {
    var decoded := Decode(w);
    DecodeNoneIffIgnored(w);
    DecodedOperandsInRange(w);
    if decoded.None? then Ran(m) else Execute(m, decoded.value)
  }
}
