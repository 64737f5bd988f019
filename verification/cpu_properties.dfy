/** How the CPU operations compose: a call returns to where it was made, the two
    constant comparisons are complementary, loads and adds combine as byte arithmetic,
    and a word runs the operation it encodes. */
module CpuProperties {
  import opened Base
  import opened CpuStates
  import Ops
  import opened Decoder
  import opened DecoderProperties
  import opened Bits
  import opened Cpu

  /** Ret undoes Call: the program counter is the call's own address again, the stack
      pointer is back, and registers, memory, I and display are untouched. Only the
      stack slot the call wrote keeps the return address. */
  lemma CallThenRet(m: Machine, address: Word)
    requires m.Valid() && m.state.sp < StackDepth
    ensures var r := Ret(Call(m, address));
      && r.state.pc == m.state.pc && r.state.sp == m.state.sp
      && r.state.v == m.state.v && r.state.memory == m.state.memory && r.state.i == m.state.i
      && r.screen == m.screen
      && r.state.stack == m.state.stack[m.state.sp := m.state.pc]
  {
    var c := Call(m, address);
    assert c.state.stack == m.state.stack[m.state.sp := m.state.pc];
  }

  /** The word 2nnn followed by the word 00EE returns to the program counter and stack
      pointer the call started from. */
  lemma StepCallThenRet(m: Machine, address: Word)
    requires m.Valid() && m.state.sp < StackDepth && address < 0x1000
    ensures Step(m, 0x2000 + address).Ran?
    ensures var m1 := Step(m, 0x2000 + address).machine;
      && m1.state.pc == address
      && Step(m1, 0x00EE).Ran?
      && Step(m1, 0x00EE).machine.state.pc == m.state.pc
      && Step(m1, 0x00EE).machine.state.sp == m.state.sp
  {
    DecodeEncodeCall(address);
    assert Encode(Ops.Call(address)) == 0x2000 + address;
    DecodeEncode(Ops.Ret);
    assert Encode(Ops.Ret) == 0x00EE;
    DecodeNoneIffIgnored(0x2000 + address);
    DecodeNoneIffIgnored(0x00EE);
    CallThenRet(m, address);
  }

  /** Handing the CPU the encoding of an operation runs that operation. */
  lemma StepEncoded(m: Machine, op: Ops.Op)
    requires m.Valid() && Ops.Decodable(op) && Ops.OperandsInRange(op)
    ensures Step(m, Encode(op)) == Execute(m, op)
  {
    DecodeEncode(op);
    DecodeNoneIffIgnored(Encode(op));
  }

  /** Exactly one of SeConstant and SneConstant skips the next instruction. */
  lemma ConstantComparisonsComplementary(m: Machine, x: ByteValue, kk: ByteValue)
    requires m.Valid() && x < RegisterCount
    ensures Advanced(m.state, SeConstant(m, x, kk).state, 4) <==> Advanced(m.state, SneConstant(m, x, kk).state, 2)
    ensures Advanced(m.state, SeConstant(m, x, kk).state, 2) <==> Advanced(m.state, SneConstant(m, x, kk).state, 4)
  {
  }

  /** Comparing a register with itself always skips. */
  lemma SeSameRegisterSkips(m: Machine, x: ByteValue)
    requires m.Valid() && x < RegisterCount
    ensures Advanced(m.state, Se(m, x, x).state, 4)
  {
  }

  /** After loading kk into Vx, comparing Vx with kk skips and the inequality test does
      not. */
  lemma LoadThenCompare(m: Machine, x: ByteValue, kk: ByteValue)
    requires m.Valid() && x < RegisterCount
    ensures var m1 := LdConstant(m, x, kk);
      Advanced(m1.state, SeConstant(m1, x, kk).state, 4) && Advanced(m1.state, SneConstant(m1, x, kk).state, 2)
  {
  }

  /** After Vx := Vy the two registers compare equal, so Se on them skips. */
  lemma LdThenSeSkips(m: Machine, x: ByteValue, y: ByteValue)
    requires m.Valid() && x < RegisterCount && y < RegisterCount
    ensures var m1 := Ld(m, x, y);
      Advanced(m1.state, Se(m1, x, y).state, 4)
  {
  }

  /** Of two jumps the second wins: only its address matters. */
  lemma JumpOverrides(m: Machine, a: Word, b: Word)
    requires m.Valid()
    ensures Jump(Jump(m, a), b) == Jump(m, b)
  {
  }

  /** Two constant additions add their sum modulo 256. */
  lemma AddConstantTwice(m: Machine, x: ByteValue, a: ByteValue, b: ByteValue)
    requires m.Valid() && x < RegisterCount
    ensures AddConstant(AddConstant(m, x, a), x, b).state.v[x] == (m.state.v[x] + a + b) % 256
  {
    var v0 := m.state.v[x];
    var v1 := AddConstant(m, x, a).state.v[x];
    var v2 := AddConstant(AddConstant(m, x, a), x, b).state.v[x];
    assert v1 == (v0 + a) % 256;
    assert v2 == (v1 + b) % 256;
  }

  /** Adding a constant carries into no flag: VF changes only when it is the target. */
  lemma AddConstantKeepsFlag(m: Machine, x: ByteValue, kk: ByteValue)
    requires m.Valid() && x < 0xF
    ensures AddConstant(m, x, kk).state.v[0xF] == m.state.v[0xF]
  {
  }

  /** The new Vx contains both old operands as bit sets: OR-ing the old Vx or the old Vy
      into it changes nothing, so Or never clears a bit. */
  lemma OrKeepsBits(m: Machine, x: ByteValue, y: ByteValue)
    requires m.Valid() && x < RegisterCount && y < RegisterCount
    ensures var r := Or(m, x, y).state.v[x];
      OrBits(m.state.v[x], r, 8) == r && OrBits(m.state.v[y], r, 8) == r
  {
    var a, b := m.state.v[x], m.state.v[y];
    assert Or(m, x, y).state.v[x] == OrBits(a, b, 8);
    OrBitsContains(a, b, 8);
  }

  /** Repeating an Or changes no register further. */
  lemma OrIdempotent(m: Machine, x: ByteValue, y: ByteValue)
    requires m.Valid() && x < RegisterCount && y < RegisterCount
    ensures Or(Or(m, x, y), x, y).state.v == Or(m, x, y).state.v
  {
    var m1 := Or(m, x, y);
    var a, b := m.state.v[x], m.state.v[y];
    var r := m1.state.v[x];
    assert r == OrBits(a, b, 8);
    if x == y {
      OrBitsSelf(r, 8);
    } else {
      assert m1.state.v[y] == b;
      OrBitsAbsorbs(a, b, 8);
    }
    assert Or(m1, x, y).state.v[x] == r;
  }

  /** 0x0A OR 0x0C stores 0x0E in Vx. */
  lemma OrExample(m: Machine, x: ByteValue, y: ByteValue)
    requires m.Valid() && x < RegisterCount && y < RegisterCount && x != y
    requires m.state.v[x] == 0x0A && m.state.v[y] == 0x0C
    ensures Or(m, x, y).state.v[x] == 0x0E
  {
    OrBitsExample();
  }

  /** Clearing a cleared display changes nothing. */
  lemma ClsIdempotent(m: Machine)
    requires m.Valid()
    ensures Cls(Cls(m)).screen == Cls(m).screen
  {
  }

  /** The program counter wraps: Cls at 0xFFFE continues at 0, and a skip at 0xFFFE
      continues at 2. */
  lemma PcWraps(m: Machine, x: ByteValue)
    requires m.Valid() && m.state.pc == 0xFFFE && x < RegisterCount
    ensures Cls(m).state.pc == 0
    ensures Se(m, x, x).state.pc == 2
  {
  }
}
