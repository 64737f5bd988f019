/** The instruction decoder: a 16-bit instruction word to the operation it dispatches.
    The decoder switches on the top nibble; a word it has no case for dispatches nothing
    and raises no error, which is modelled as None. The operand fields are read as
    nibbles by division and remainder by 16, the arithmetic reading of the decoder's
    shifts and masks on a 16-bit pattern. */
module Decoder {
  import opened Base
  import opened Ops

  /** Nibble k of a word, counting from the least significant: the word shifted right
      by 4k bits and masked with 0xF. */
  function Nibble(w: nat, k: nat): (r: nat)
    ensures r < 16
    decreases k
  {
    if k == 0 then w % 0x10 else Nibble(w / 0x10, k - 1)
  }

  /** The family nibble: bits 12..15, `instruction & 0xF000` shifted down. */
  function Family(w: Word): (f: nat)
    ensures f < 16
  {
    Nibble(w, 3)
  }

  /** The x operand: bits 8..11, `(instruction >> 8) & 0xF`. */
  function X(w: Word): (x: ByteValue)
    ensures x < 16
  {
    Nibble(w, 2)
  }

  /** The y operand: bits 4..7, `(instruction >> 4) & 0xF`. */
  function Y(w: Word): (y: ByteValue)
    ensures y < 16
  {
    Nibble(w, 1)
  }

  /** The low nibble: bits 0..3, `instruction & 0x000F`. */
  function N(w: Word): (n: nat)
    ensures n < 16
  {
    Nibble(w, 0)
  }

  /** The words the decoder dispatches nothing for: in family 0 every word except 00E0
      and 00EE; in family 8 the words whose low nibble is 8 or more; and the whole of
      families D, E and F. */
  predicate Ignored(w: Word) {
    || (Family(w) == 0 && w != 0x00E0 && w != 0x00EE)
    || (Family(w) == 8 && N(w) >= 8)
    || Family(w) >= 0xD
  }

  /** The operation an instruction word dispatches, if any. */
  function Decode(w: Word): (r: Option<Op>) {
    DecodeFields(Family(w), X(w), Y(w), N(w))
  }

  /** The decoder's switch, on the four nibbles f, x, y, n of a word (top first). kk is
      the low byte y·16 + n and nnn the low twelve bits x·256 + y·16 + n. Family 0
      compares the whole word, which is 00E0 or 00EE exactly when x is 0, y is E and n
      is 0 or E. */
  function DecodeFields(f: nat, x: nat, y: nat, n: nat): (r: Option<Op>)
    requires f < 16 && x < 16 && y < 16 && n < 16
  {
    var kk := 0x10 * y + n;
    var nnn := 0x100 * x + kk;
    if f == 0x0 then
      if x == 0 && y == 0xE && n == 0 then Some(Cls)
      else if x == 0 && y == 0xE && n == 0xE then Some(Ret)
      else None
    else if f == 0x1 then Some(Jump(nnn))
    else if f == 0x2 then Some(Call(nnn))
    else if f == 0x3 then Some(SeConstant(x, kk))
    else if f == 0x4 then Some(SneConstant(x, kk))
    else if f == 0x5 then Some(Se(x, y))
    else if f == 0x6 then Some(LdConstant(x, kk))
    else if f == 0x7 then Some(AddConstant(x, kk))
    else if f == 0x8 then DecodeArithmetic(x, y, n)
    else if f == 0x9 then Some(Sne(x, y))
    else if f == 0xA then Some(Ldi(nnn))
    else if f == 0xB then Some(JumpV0Offset(nnn))
    else if f == 0xC then Some(Rnd(x, kk))
    else None
  }

  /** Family 8, selected by the low nibble: Ld, Or, And, Xor, AddCarry, Sub, Shr, Subn
      for 0 to 7 (Shr receives x only), nothing for 8 to F. */
  function DecodeArithmetic(x: nat, y: nat, n: nat): (r: Option<Op>)
    requires x < 16 && y < 16
  {
    if n == 0 then Some(Ld(x, y))
    else if n == 1 then Some(Or(x, y))
    else if n == 2 then Some(And(x, y))
    else if n == 3 then Some(Xor(x, y))
    else if n == 4 then Some(AddCarry(x, y))
    else if n == 5 then Some(Sub(x, y))
    else if n == 6 then Some(Shr(x))
    else if n == 7 then Some(Subn(x, y))
    else None
  }

  /** The instruction word for a decodable operation: the family nibble and the operands
      in their fixed positions, with the bits the decoder ignores set to zero. */
  function Encode(op: Op): (w: Word)
    requires Decodable(op) && OperandsInRange(op)
  {
    match op
    case Cls => 0x00E0
    case Ret => 0x00EE
    case Jump(a) => 0x1000 + a
    case Call(a) => 0x2000 + a
    case SeConstant(x, kk) => 0x3000 + XK(x, kk)
    case SneConstant(x, kk) => 0x4000 + XK(x, kk)
    case Se(x, y) => 0x5000 + XY(x, y)
    case LdConstant(x, kk) => 0x6000 + XK(x, kk)
    case AddConstant(x, kk) => 0x7000 + XK(x, kk)
    case Ld(x, y) => 0x8000 + XY(x, y)
    case Or(x, y) => 0x8001 + XY(x, y)
    case And(x, y) => 0x8002 + XY(x, y)
    case Xor(x, y) => 0x8003 + XY(x, y)
    case AddCarry(x, y) => 0x8004 + XY(x, y)
    case Sub(x, y) => 0x8005 + XY(x, y)
    case Shr(x) => 0x8006 + XY(x, 0)
    case Subn(x, y) => 0x8007 + XY(x, y)
    case Sne(x, y) => 0x9000 + XY(x, y)
    case Ldi(a) => 0xA000 + a
    case JumpV0Offset(a) => 0xB000 + a
    case Rnd(x, kk) => 0xC000 + XK(x, kk)
  }

  /** Register x in bits 8..11 and the byte kk in bits 0..7. */
  function XK(x: ByteValue, kk: ByteValue): (w: nat)
    requires x < 16
    ensures w < 0x1000
  {
    0x100 * x + kk
  }

  /** Register x in bits 8..11 and register y in bits 4..7. */
  function XY(x: ByteValue, y: ByteValue): (w: nat)
    requires x < 16 && y < 16
    ensures w < 0x1000 && w % 0x10 == 0
  {
    0x100 * x + 0x10 * y
  }

  /** The word with the bits the decoded operation ignores cleared: Se and Sne drop the
      low nibble, Shr drops the y nibble, every other operation keeps the whole word. */
  function Kept(op: Op, w: Word): (k: Word) {
    if op.Se? || op.Sne? then w - N(w)
    else if op.Shr? then w - 0x10 * Y(w)
    else w
  }
}
