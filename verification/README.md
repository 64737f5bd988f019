# CHIP-8 CPU core in Dafny

A model of the CPU core of the Cj.Chip8 emulator and proofs about it. The core has five parts:

- **instruction decoder.** It switches on the top nibble of a 16-bit instruction word. It then hands the operand fields to one operation of the CPU interface.
- **CPU class.** It implements eleven of those operations as changes to the CPU state: Cls, Jump, Call, Ret, SeConstant, SneConstant, Se, LdConstant, AddConstant, Ld and Or.
- **CPU state.** This is 4 KiB of memory, a 16-bit program counter, a byte stack pointer, a sixteen-entry return stack, sixteen byte registers V0..VF and the 16-bit address register I.
- **64 x 32 display.** It is one byte per pixel and draws sprites by XOR, wrapping at both edges. It reports whether a lit pixel was erased.
- **BCD converter.** It splits a byte into three decimal digits.

Modules:

- `Base`: bytes, 16-bit words and `Option`.
- `Arith`: a division and remainder lemma.
- `Bits`: bitwise OR on naturals, bit by bit.
- `CpuStates`: the CPU state.
- `Display`: the framebuffer and Draw.
- `Bcd`: the BCD converter.
- `Ops`: the operation set of the CPU interface, one constructor per operation.
- `Decoder`: the decoder, and the encoding that it inverts.
- `DecoderProperties`: what the decoder guarantees.
- `Cpu`: the implemented operations as machine transitions. The machine is the state plus the screen. This module also holds the dispatch of a decoded operation.
- `CpuProperties`: how the operations compose.

The model uses these representations:

- Program counter, stack slots and I are C# `short`s. They are modelled as words in 0..0xFFFF: the 16-bit pattern.
- `+=` on the program counter wraps modulo 2^16, and the model writes that wrap out (`Cpu.WrapAdd`).
- Registers, memory and the stack pointer are bytes in 0..255. `+=` on a register wraps modulo 256.
- Operand fields are read as nibbles by division and remainder by 16. For a 16-bit pattern this is the decoder's shift and mask.
- A word the decoder has no case for dispatches nothing and raises nothing: `Decode` gives `None`, and `Step` leaves the machine unchanged.

Where the code and its tests disagree, the model follows the code:

- A new `CpuState` starts with program counter 0 (`CpuState.cs:6`). `CpuStateTests.cs:21` expects 0x200.
- The CPU class does not declare that it implements the CPU interface. It has methods for only eleven of the interface's thirty-four operations (`IChip8Cpu.cs:5-38`), although `CpuTests.cs` also tests And, Xor and AddCarry. Handing the CPU any other operation gives `Cpu.Outcome.NotImplemented`.

Where the code departs from the usual CHIP-8 convention or from its own interface's types, the model follows the code:

- Ret sets the program counter to the popped address without adding 2 (`Chip8Cpu.cs:57`). Call pushes the program counter of the call itself (`Chip8Cpu.cs:29`). A call followed by a return therefore resumes at the call (`CpuProperties.CallThenRet`).
- The interface declares `Subn(int vx, int vy)`, while every other register operand is a byte. The decoder only ever passes nibbles, so `Ops.Subn` carries bytes like the rest.

## Model

| member | source | states |
|---|---|---|
| CpuStates.Fresh | source/Cj.Chip8.Cpu/CpuState.cs:5-11 | a new state has 4096 bytes of memory, sixteen stack slots and sixteen registers, all zero, and program counter, stack pointer and I all 0 |
| Display.Clear | source/Cj.Chip8.Cpu/Display.cs:15-21 | after Clear every one of the 2048 cells is 0, whatever the buffer held |
| Display.Draw | source/Cj.Chip8.Cpu/Display.cs:23-46 | Draw's nested loops compute the sequential pixel-visit reference; for a sprite of at most 32 rows each cell becomes its old value XOR the sprite bit landing on it, and the erase flag is 1 exactly when some lit cell meets a set sprite bit |
| Display.DrawRow | source/Cj.Chip8.Cpu/Display.cs:29-42 | one pass of the inner loop over the eight bits of a sprite row advances the reference by exactly those eight visits |
| Display.DrawCellwise | source/Cj.Chip8.Cpu/Display.cs:27-45 | for sprites of at most 32 rows the visit-by-visit result equals the cellwise XOR with the wrapped footprint, with erase 1 iff a lit pixel meets a set bit |
| Display.DrawOutside | source/Cj.Chip8.Cpu/Display.cs:27-43 | for any sprite height, cells outside the wrapped 8 x height footprint keep their values |
| Display.DrawKeepsBinary | source/Cj.Chip8.Cpu/Display.cs:36-41 | a buffer of 0/1 pixels stays a buffer of 0/1 pixels after a draw |
| Display.PrefixLinear | source/Cj.Chip8.Cpu/Display.cs:27-43 | for any sprite height, every cell after the draw loops is its old value XOR what the same loops leave on an all-dark buffer |
| Display.DrawTwiceRestores | source/Cj.Chip8.Cpu/Display.cs:41 | for any sprite height, drawing the same sprite twice at the same place restores the buffer |
| Display.SecondDrawErases | source/Cj.Chip8.Cpu/Display.cs:38-41 | for a sprite of at most 32 rows on any buffer, the second of two identical draws reports an erase iff the first lit some pixel that was dark |
| Display.DrawOnCleared | source/Cj.Chip8.Cpu/Display.cs:25-45 | for a sprite of at most 32 rows, drawing on a cleared screen erases nothing and lights exactly the sprite's bits |
| Display.DrawCellAt | source/Cj.Chip8.Cpu/Display.cs:33-41 | for a sprite of at most 32 rows, the cell at a given index becomes its old value XOR the sprite bit that lands on it |
| Display.DrawWrapsAt | source/Cj.Chip8.Cpu/Display.cs:29-36 | for a sprite of at most 32 rows drawn on a cleared screen, bit j of sprite row i lands on row (y+i) mod 32, column (x+j) mod 64 |
| Display.HorizontalWrapExample | source/Cj.Chip8.Test/DisplayTests.cs:107-124 | a 0xF1 row drawn on a cleared screen at column 62 of a row lights columns 62, 63, 0, 1 and 5 of that row, and leaves columns 2, 3 and 4 dark |
| Display.DrawnRow | source/Cj.Chip8.Test/DisplayTests.cs:156-168 | for a sprite of at most 32 rows drawn on a cleared screen at (x, y), all eight cells of screen row (y+i) mod 32 from column x on, wrapping at the right edge, show the bits of sprite row i |
| Display.VerticalWrapExample | source/Cj.Chip8.Test/DisplayTests.cs:127-139 | the sprite 0xF1, 0x3E drawn at column 0, row 31 of a cleared screen shows 0xF1 on row 31 and 0x3E on row 0, all eight bits of each |
| Display.DiagonalWrapExample | source/Cj.Chip8.Test/DisplayTests.cs:141-154 | the same sprite drawn at column 60, row 31 shows 0xF1 on row 31 and 0x3E on row 0, both from column 60 and wrapping to columns 0 to 3 |
| Bcd.ToBcd | source/Cj.Chip8.Cpu/BcdConverter.cs:5-18 | three digits, hundreds at most 2 and the others at most 9, whose decimal value is the byte |
| Bcd.ToBcdDigits | source/Cj.Chip8.Cpu/BcdConverter.cs:9-11 | the converter's subtract-and-divide digits are v/100, (v/10) mod 10 and v mod 10 |
| Bcd.ToBcdFromBcd | source/Cj.Chip8.Cpu/BcdConverter.cs:9-15 | digits that stand for a byte convert back to themselves, so the digits are unique |
| Bcd.FromBcdToBcd | source/Cj.Chip8.Cpu/BcdConverter.cs:9-15 | the digits of a byte are valid BCD and stand for the byte |
| Bcd.Examples | source/Cj.Chip8.Test/BcdConverterTests.cs:19-60 | 255, 123, 15 and 3 convert to the digits the converter's examples give |
| DecoderProperties.DecodeNoneIffIgnored | source/Cj.Chip8.Cpu/InstructionDecoder.cs:7-84 | a word dispatches nothing exactly when it is a family-0 word other than 00E0 and 00EE, an 8xyN word with N at least 8, or a D, E or F word |
| DecoderProperties.SystemWord | source/Cj.Chip8.Cpu/InstructionDecoder.cs:9-19 | the whole-word comparison with 00En holds iff the nibbles are 0, 0, E, n |
| DecoderProperties.DecodedOperandsInRange | source/Cj.Chip8.Cpu/InstructionDecoder.cs:20-83 | every decoded register index is below 16 and every address below 0x1000, and no Shl, Drw or E/F operation is ever produced |
| DecoderProperties.DecodeEncode | source/Cj.Chip8.Cpu/InstructionDecoder.cs:7-84 | every operation the decoder can produce is decoded back from its encoding |
| DecoderProperties.EncodeDecode | source/Cj.Chip8.Cpu/InstructionDecoder.cs:7-84 | encoding a decoded operation gives the word back, minus only the low nibble of Se/Sne and the y nibble of Shr |
| DecoderProperties.DecodeEncodeJump | source/Cj.Chip8.Cpu/InstructionDecoder.cs:20-23 | 1nnn decodes to Jump(nnn) |
| DecoderProperties.DecodeEncodeCall | source/Cj.Chip8.Cpu/InstructionDecoder.cs:24-27 | 2nnn decodes to Call(nnn) |
| DecoderProperties.DecodeEncodeSeConstant | source/Cj.Chip8.Cpu/InstructionDecoder.cs:28-30 | 3xkk decodes to SeConstant(x, kk) |
| DecoderProperties.DecodeEncodeSneConstant | source/Cj.Chip8.Cpu/InstructionDecoder.cs:31-33 | 4xkk decodes to SneConstant(x, kk) |
| DecoderProperties.DecodeEncodeSe | source/Cj.Chip8.Cpu/InstructionDecoder.cs:34-36 | 5xy0 decodes to Se(x, y) |
| DecoderProperties.DecodeEncodeLdConstant | source/Cj.Chip8.Cpu/InstructionDecoder.cs:37-39 | 6xkk decodes to LdConstant(x, kk) |
| DecoderProperties.DecodeEncodeAddConstant | source/Cj.Chip8.Cpu/InstructionDecoder.cs:40-42 | 7xkk decodes to AddConstant(x, kk) |
| DecoderProperties.DecodeEncodeLd | source/Cj.Chip8.Cpu/InstructionDecoder.cs:46-48 | 8xy0 decodes to Ld(x, y) |
| DecoderProperties.DecodeEncodeOr | source/Cj.Chip8.Cpu/InstructionDecoder.cs:49-51 | 8xy1 decodes to Or(x, y) |
| DecoderProperties.DecodeEncodeAnd | source/Cj.Chip8.Cpu/InstructionDecoder.cs:52-54 | 8xy2 decodes to And(x, y) |
| DecoderProperties.DecodeEncodeXor | source/Cj.Chip8.Cpu/InstructionDecoder.cs:55-57 | 8xy3 decodes to Xor(x, y) |
| DecoderProperties.DecodeEncodeAddCarry | source/Cj.Chip8.Cpu/InstructionDecoder.cs:58-60 | 8xy4 decodes to AddCarry(x, y) |
| DecoderProperties.DecodeEncodeSub | source/Cj.Chip8.Cpu/InstructionDecoder.cs:61-63 | 8xy5 decodes to Sub(x, y) |
| DecoderProperties.DecodeEncodeShr | source/Cj.Chip8.Cpu/InstructionDecoder.cs:64-66 | 8x06 decodes to Shr(x) |
| DecoderProperties.DecodeEncodeSubn | source/Cj.Chip8.Cpu/InstructionDecoder.cs:67-69 | 8xy7 decodes to Subn(x, y) |
| DecoderProperties.DecodeEncodeSne | source/Cj.Chip8.Cpu/InstructionDecoder.cs:72-74 | 9xy0 decodes to Sne(x, y) |
| DecoderProperties.DecodeEncodeLdi | source/Cj.Chip8.Cpu/InstructionDecoder.cs:75-77 | Annn decodes to Ldi(nnn) |
| DecoderProperties.DecodeEncodeJumpV0Offset | source/Cj.Chip8.Cpu/InstructionDecoder.cs:78-80 | Bnnn decodes to JumpV0Offset(nnn) |
| DecoderProperties.DecodeEncodeRnd | source/Cj.Chip8.Cpu/InstructionDecoder.cs:81-83 | Cxkk decodes to Rnd(x, kk) |
| DecoderProperties.LowNibbleIgnored | source/Cj.Chip8.Cpu/InstructionDecoder.cs:34-36 | two 5xy? words (or two 9xy? words) that agree on x and y dispatch the same operation, whatever their low nibble |
| DecoderProperties.ShrDropsY | source/Cj.Chip8.Cpu/InstructionDecoder.cs:64-66 | two 8xy6 words with the same x dispatch the same Shr, whatever their y |
| DecoderProperties.DecodeExamples | source/Cj.Chip8.Cpu/InstructionDecoder.cs:7-84 | sample words dispatch Cls, Ret, Jump, Se, AddConstant and Shr with the expected operands, and 00E1, 812F and D123 dispatch nothing |
| Bits.OrBits | source/Cj.Chip8.Cpu/Chip8Cpu.cs:91 | the OR of two n-bit values is an n-bit value |
| Bits.OrBitsBit | source/Cj.Chip8.Cpu/Chip8Cpu.cs:91 | bit k of the OR is set iff bit k of either operand is set |
| Bits.OrBitsAbsorbs | source/Cj.Chip8.Cpu/Chip8Cpu.cs:91 | OR-ing the same operand in again changes nothing |
| Bits.OrBitsContains | source/Cj.Chip8.Cpu/Chip8Cpu.cs:91 | the OR of a and b contains a and b: OR-ing either into it again changes nothing |
| Bits.OrBitsSelf | source/Cj.Chip8.Cpu/Chip8Cpu.cs:91 | a value OR-ed with itself is the value |
| Bits.OrBitsWiden | source/Cj.Chip8.Cpu/Chip8Cpu.cs:91 | the OR of two n-bit values does not depend on the width it is taken at |
| Bits.OrBitsExample | source/Cj.Chip8.Test/CpuTests.cs:266-268 | 0x0A OR 0x0C is 0x0E |
| Cpu.WrapAdd | source/Cj.Chip8.Cpu/Chip8Cpu.cs:19 | 16-bit `+=` gives the sum, or the sum less 2^16 when it passes the top |
| Cpu.Cls | source/Cj.Chip8.Cpu/Chip8Cpu.cs:15-20 | every pixel goes dark, the program counter advances by 2 modulo 2^16, and nothing else in the state changes |
| Cpu.Jump | source/Cj.Chip8.Cpu/Chip8Cpu.cs:22-25 | the program counter becomes the address and nothing else changes |
| Cpu.Call | source/Cj.Chip8.Cpu/Chip8Cpu.cs:27-31 | the current program counter is stored in the slot at the stack pointer, the pointer goes up by one, the program counter becomes the address, and the other slots, registers, memory and I are untouched; it needs a free slot |
| Cpu.Ret | source/Cj.Chip8.Cpu/Chip8Cpu.cs:55-58 | the stack pointer goes down by one and the program counter becomes the slot it now points at, with nothing added; it needs a non-empty stack |
| Cpu.SeConstant | source/Cj.Chip8.Cpu/Chip8Cpu.cs:33-42 | the program counter advances by 4 when Vx equals kk and by 2 otherwise, and only it changes |
| Cpu.SneConstant | source/Cj.Chip8.Cpu/Chip8Cpu.cs:44-53 | the program counter advances by 4 when Vx differs from kk and by 2 otherwise, and only it changes |
| Cpu.Se | source/Cj.Chip8.Cpu/Chip8Cpu.cs:60-69 | the program counter advances by 4 when Vx equals Vy and by 2 otherwise, and only it changes |
| Cpu.LdConstant | source/Cj.Chip8.Cpu/Chip8Cpu.cs:71-75 | Vx becomes the argument, no other register or state part changes, and the program counter advances by 2 |
| Cpu.AddConstant | source/Cj.Chip8.Cpu/Chip8Cpu.cs:77-81 | Vx becomes Vx + argument, less 256 on overflow; no other register changes (no carry flag) and the program counter advances by 2 |
| Cpu.Ld | source/Cj.Chip8.Cpu/Chip8Cpu.cs:83-87 | Vx becomes Vy, nothing else but the program counter changes, and it advances by 2 |
| Cpu.Or | source/Cj.Chip8.Cpu/Chip8Cpu.cs:89-93 | each of the 8 bits of Vx is set iff it was set in Vx or in Vy; nothing else but the program counter changes, and it advances by 2 |
| Cpu.Execute | source/Cj.Chip8.Cpu/Chip8Cpu.cs:15-93 | an operation with no body is reported as not implemented, iff; Call on a full stack or Ret on an empty one faults, iff; otherwise it runs and leaves a well-formed machine |
| Cpu.Step | source/Cj.Chip8.Cpu/InstructionDecoder.cs:5-86 | a word the decoder ignores leaves the machine exactly as it was, program counter included |
| CpuProperties.CallThenRet | source/Cj.Chip8.Cpu/Chip8Cpu.cs:27-58 | Ret after Call restores program counter, stack pointer, registers, memory, I and screen; only the written stack slot keeps the return address |
| CpuProperties.StepCallThenRet | source/Cj.Chip8.Cpu/InstructionDecoder.cs:12-27 | the words 2nnn then 00EE run Call then Ret and return to the original program counter and stack pointer |
| CpuProperties.StepEncoded | source/Cj.Chip8.Cpu/InstructionDecoder.cs:5-86 | running the encoding of an operation is handing the CPU that operation |
| CpuProperties.ConstantComparisonsComplementary | source/Cj.Chip8.Cpu/Chip8Cpu.cs:33-53 | SeConstant skips exactly when SneConstant does not |
| CpuProperties.SeSameRegisterSkips | source/Cj.Chip8.Cpu/Chip8Cpu.cs:60-69 | comparing a register with itself always skips |
| CpuProperties.LoadThenCompare | source/Cj.Chip8.Cpu/Chip8Cpu.cs:33-75 | after Vx := kk, SeConstant with kk skips and SneConstant with kk does not |
| CpuProperties.LdThenSeSkips | source/Cj.Chip8.Cpu/Chip8Cpu.cs:60-87 | after Vx := Vy, Se on Vx and Vy skips |
| CpuProperties.JumpOverrides | source/Cj.Chip8.Cpu/Chip8Cpu.cs:22-25 | a jump followed by a jump is the second jump alone |
| CpuProperties.AddConstantTwice | source/Cj.Chip8.Cpu/Chip8Cpu.cs:77-81 | two constant additions add their sum modulo 256 |
| CpuProperties.AddConstantKeepsFlag | source/Cj.Chip8.Cpu/Chip8Cpu.cs:77-81 | adding a constant to a register other than VF leaves VF unchanged |
| CpuProperties.OrKeepsBits | source/Cj.Chip8.Cpu/Chip8Cpu.cs:89-93 | the new Vx contains both old Vx and old Vy: OR-ing either into it again changes nothing, so Or never clears a bit |
| CpuProperties.OrIdempotent | source/Cj.Chip8.Cpu/Chip8Cpu.cs:89-93 | repeating an Or leaves every register as the first Or left it |
| CpuProperties.OrExample | source/Cj.Chip8.Test/CpuTests.cs:261-279 | Vx = 0x0A OR Vy = 0x0C stores 0x0E in Vx |
| CpuProperties.ClsIdempotent | source/Cj.Chip8.Cpu/Chip8Cpu.cs:15-20 | clearing a cleared screen changes no pixel |
| CpuProperties.PcWraps | source/Cj.Chip8.Cpu/Chip8Cpu.cs:19 | at program counter 0xFFFE, Cls continues at 0 and a taken skip at 2 |

## Left out

- The CPU operations the CPU class declares no body for are left out. These are And, Xor, AddCarry, Sub, Shr, Subn, Shl, Sne, Ldi, JumpV0Offset, Rnd, Drw, Skp, Sknp, Lddt, Ldk, SetDt, SetSt, AddI, Ldf, Ldb, CopyRegisters and CopyMemory. They appear in `Ops.Op` and the decoder, but `Cpu.Execute` reports them as not implemented.
- Timers, keyboard, random numbers, font data, the instruction table (`Instruction.cs`, `InstructionPattern.cs`), the CPU runner and the UI are left out. None of them is part of the modelled core. `Randomizer.cs`, `TimerClock.cs` and the Emulator project are not part of this model.
- The display is passed to the CPU through an interface, so the CPU cannot see it directly. The model instead holds the pixel buffer in the machine and calls `Display.Clear` on it.
- Cpu.Execute: a Call on a full stack or a Ret on an empty one throws in C# after changing the stack pointer. The model reports `StackFault` and does not say what the state is afterwards. The standalone `Cpu.Call` and `Cpu.Ret` take the stack bounds as preconditions instead.
- A register index of 16 or more makes C# throw. The CPU functions take `index < 16` as a precondition. The decoder never produces such an index (`DecoderProperties.DecodedOperandsInRange`).
- Decoder.Decode: operand fields are read by division and remainder by 16, not by the C# shift and mask on a sign-extended `short`. The two agree on every 16-bit pattern, because the masks drop the extended bits. That agreement is argued here, not proved.
- Display.Draw: the cellwise XOR and erase-flag contract holds for sprites of at most 32 rows. Taller sprites visit some cells twice, and the same holds for `Display.SecondDrawErases`, `Display.DrawOnCleared`, `Display.DrawCellAt` and `Display.DrawWrapsAt`. For every height, the model proves that Draw computes the visit-by-visit reference, and that cells outside the footprint are untouched.
- Display.Draw: `Pixels` is a fixed 2048-byte array, but Draw only ever XORs 0/1 bits into it. The model proves that 0/1 is preserved (`Display.DrawKeepsBinary`) and does not model other byte values specially.
- Cpu.Step: its own contract covers only the words the decoder ignores. For every other word the dispatch is stated separately by `CpuProperties.StepEncoded`, together with `DecoderProperties.EncodeDecode`. This keeps `Step`'s own proof small.
