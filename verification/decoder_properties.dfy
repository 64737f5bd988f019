/** What the decoder guarantees: which words it ignores, that every operand it hands out
    is in range, and that it inverts the encoding of every operation it produces. */
module DecoderProperties {
  import opened Base
  import opened Arith
  import opened Ops
  import opened Decoder

  /** Exactly the ignored words decode to nothing: the decoder raises no error, it only
      dispatches nothing. */
  lemma DecodeNoneIffIgnored(w: Word)
    ensures Decode(w).None? <==> Ignored(w)
  {
    SystemWord(w, 0);
    SystemWord(w, 0xE);
    FieldsNoneIffIgnored(Family(w), X(w), Y(w), N(w));
  }

  /** The word 00En is the one with nibbles 0, 0, E and n. */
  lemma SystemWord(w: Word, n: nat)
    requires n < 16
    ensures w == 0xE0 + n <==> Family(w) == 0 && X(w) == 0 && Y(w) == 0xE && N(w) == n
  {
    Split(w);
    Fields(0, 0, 0xE, n);
  }

  /** DecodeNoneIffIgnored on the four nibbles of the word. */
  lemma FieldsNoneIffIgnored(f: nat, x: nat, y: nat, n: nat)
    requires f < 16 && x < 16 && y < 16 && n < 16
    ensures DecodeFields(f, x, y, n).None? <==>
      || (f == 0 && !(x == 0 && y == 0xE && (n == 0 || n == 0xE)))
      || (f == 8 && n >= 8)
      || f >= 0xD
  {
  }

  /** A decode result that is nothing, or an operation the decoder can produce whose
      registers are below 16 and whose address is below 0x1000. */
  predicate InRange(r: Option<Op>) {
    r.Some? ==> Decodable(r.value) && OperandsInRange(r.value)
  }

  /** Every decoded operation is one the decoder can produce, names a register below 16
      and carries an address below 0x1000. */
  lemma DecodedOperandsInRange(w: Word)
    ensures InRange(Decode(w))
  {
    FieldsInRange(Family(w), X(w), Y(w), N(w));
  }

  /** DecodedOperandsInRange on the four nibbles of the word. */
  lemma FieldsInRange(f: nat, x: nat, y: nat, n: nat)
    requires f < 16 && x < 16 && y < 16 && n < 16
    ensures InRange(DecodeFields(f, x, y, n))
  {
    if f < 8 {
      FieldsInRangeLow(f, x, y, n);
    } else {
      FieldsInRangeHigh(f, x, y, n);
    }
  }

  /** FieldsInRange for families 0 to 7. */
  lemma FieldsInRangeLow(f: nat, x: nat, y: nat, n: nat)
    requires f < 8 && x < 16 && y < 16 && n < 16
    ensures InRange(DecodeFields(f, x, y, n))
  {
  }

  /** FieldsInRange for families 8 to F. */
  lemma FieldsInRangeHigh(f: nat, x: nat, y: nat, n: nat)
    requires 8 <= f < 16 && x < 16 && y < 16 && n < 16
    ensures InRange(DecodeFields(f, x, y, n))
  {
  }

  /** The word with nibbles f, x, y and n from the top down. */
  function Nibbles(f: nat, x: nat, y: nat, n: nat): (w: int) {
    0x1000 * f + 0x100 * x + 0x10 * y + n
  }

  /** A word assembled from four nibbles yields those nibbles back as its fields. */
  lemma Fields(f: nat, x: nat, y: nat, n: nat)
    requires f < 16 && x < 16 && y < 16 && n < 16
    ensures var w := Nibbles(f, x, y, n);
      0 <= w < 0x1_0000 && Family(w) == f && X(w) == x && Y(w) == y && N(w) == n
  {
    var w := Nibbles(f, x, y, n);
    ModUnique(w, 0x10, 0x100 * f + 0x10 * x + y, n);
    ModUnique(w / 0x10, 0x10, 0x10 * f + x, y);
    ModUnique(w / 0x10 / 0x10, 0x10, f, x);
    assert Family(w) == Nibble(w / 0x10 / 0x10 / 0x10, 0);
    assert X(w) == Nibble(w / 0x10 / 0x10, 0);
    assert Y(w) == Nibble(w / 0x10, 0);
  }

  /** The word assembled from four nibbles decodes as those nibbles. */
  lemma DecodeNibbles(f: nat, x: nat, y: nat, n: nat)
    requires f < 16 && x < 16 && y < 16 && n < 16
    ensures 0 <= Nibbles(f, x, y, n) < 0x1_0000
    ensures Decode(Nibbles(f, x, y, n)) == DecodeFields(f, x, y, n)
  {
    Fields(f, x, y, n);
  }

  /** Every word is the sum of its four nibbles in place. */
  lemma Split(w: Word)
    ensures w == Nibbles(Family(w), X(w), Y(w), N(w))
  {
    var q1 := w / 0x10;
    var q2 := q1 / 0x10;
    var q3 := q2 / 0x10;
    assert Family(w) == Nibble(q3, 0) == q3;
    assert X(w) == Nibble(q2, 0);
    assert Y(w) == Nibble(q1, 0);
  }

  /** Every operation the decoder can produce is produced from its own encoding. */
  lemma DecodeEncode(op: Op)
    requires Decodable(op) && OperandsInRange(op)
    ensures Decode(Encode(op)) == Some(op)
  {
    match op
    case Cls => Fields(0, 0, 0xE, 0);
    case Ret => Fields(0, 0, 0xE, 0xE);
    case Jump(a) => DecodeEncodeJump(a);
    case Call(a) => DecodeEncodeCall(a);
    case Ldi(a) => DecodeEncodeLdi(a);
    case JumpV0Offset(a) => DecodeEncodeJumpV0Offset(a);
    case SeConstant(x, kk) => DecodeEncodeSeConstant(x, kk);
    case SneConstant(x, kk) => DecodeEncodeSneConstant(x, kk);
    case LdConstant(x, kk) => DecodeEncodeLdConstant(x, kk);
    case AddConstant(x, kk) => DecodeEncodeAddConstant(x, kk);
    case Rnd(x, kk) => DecodeEncodeRnd(x, kk);
    case Se(x, y) => DecodeEncodeSe(x, y);
    case Sne(x, y) => DecodeEncodeSne(x, y);
    case Ld(x, y) => DecodeEncodeLd(x, y);
    case Or(x, y) => DecodeEncodeOr(x, y);
    case And(x, y) => DecodeEncodeAnd(x, y);
    case Xor(x, y) => DecodeEncodeXor(x, y);
    case AddCarry(x, y) => DecodeEncodeAddCarry(x, y);
    case Sub(x, y) => DecodeEncodeSub(x, y);
    case Subn(x, y) => DecodeEncodeSubn(x, y);
    case Shr(x) => DecodeEncodeShr(x);
  }

  /** A 12-bit address is its three low nibbles in place. */
  lemma AddressNibbles(a: Word)
    requires a < 0x1000
    ensures a == 0x100 * X(a) + 0x10 * Y(a) + N(a)
  {
    Split(a);
  }

  // One lemma per operation, so that each proof considers a single decoder branch.

  lemma DecodeEncodeJump(a: Word)
    requires a < 0x1000
    ensures Decode(Encode(Jump(a))) == Some(Jump(a))
  {
    AddressNibbles(a);
    DecodeNibbles(1, X(a), Y(a), N(a));
    assert Encode(Jump(a)) == Nibbles(1, X(a), Y(a), N(a));
  }

  lemma DecodeEncodeCall(a: Word)
    requires a < 0x1000
    ensures Decode(Encode(Call(a))) == Some(Call(a))
  {
    AddressNibbles(a);
    DecodeNibbles(2, X(a), Y(a), N(a));
    assert Encode(Call(a)) == Nibbles(2, X(a), Y(a), N(a));
  }

  lemma DecodeEncodeLdi(a: Word)
    requires a < 0x1000
    ensures Decode(Encode(Ldi(a))) == Some(Ldi(a))
  {
    AddressNibbles(a);
    DecodeNibbles(0xA, X(a), Y(a), N(a));
    assert Encode(Ldi(a)) == Nibbles(0xA, X(a), Y(a), N(a));
  }

  lemma DecodeEncodeJumpV0Offset(a: Word)
    requires a < 0x1000
    ensures Decode(Encode(JumpV0Offset(a))) == Some(JumpV0Offset(a))
  {
    AddressNibbles(a);
    DecodeNibbles(0xB, X(a), Y(a), N(a));
    assert Encode(JumpV0Offset(a)) == Nibbles(0xB, X(a), Y(a), N(a));
  }

  lemma DecodeEncodeSeConstant(x: ByteValue, kk: ByteValue)
    requires x < 16
    ensures Decode(Encode(SeConstant(x, kk))) == Some(SeConstant(x, kk))
  {
    var hi, lo := kk / 0x10, kk % 0x10;
    DecodeNibbles(3, x, hi, lo);
    assert Encode(SeConstant(x, kk)) == Nibbles(3, x, hi, lo);
  }

  lemma DecodeEncodeSneConstant(x: ByteValue, kk: ByteValue)
    requires x < 16
    ensures Decode(Encode(SneConstant(x, kk))) == Some(SneConstant(x, kk))
  {
    var hi, lo := kk / 0x10, kk % 0x10;
    DecodeNibbles(4, x, hi, lo);
    assert Encode(SneConstant(x, kk)) == Nibbles(4, x, hi, lo);
  }

  lemma DecodeEncodeLdConstant(x: ByteValue, kk: ByteValue)
    requires x < 16
    ensures Decode(Encode(LdConstant(x, kk))) == Some(LdConstant(x, kk))
  {
    var hi, lo := kk / 0x10, kk % 0x10;
    DecodeNibbles(6, x, hi, lo);
    assert Encode(LdConstant(x, kk)) == Nibbles(6, x, hi, lo);
  }

  lemma DecodeEncodeAddConstant(x: ByteValue, kk: ByteValue)
    requires x < 16
    ensures Decode(Encode(AddConstant(x, kk))) == Some(AddConstant(x, kk))
  {
    var hi, lo := kk / 0x10, kk % 0x10;
    DecodeNibbles(7, x, hi, lo);
    assert Encode(AddConstant(x, kk)) == Nibbles(7, x, hi, lo);
  }

  lemma DecodeEncodeRnd(x: ByteValue, kk: ByteValue)
    requires x < 16
    ensures Decode(Encode(Rnd(x, kk))) == Some(Rnd(x, kk))
  {
    var hi, lo := kk / 0x10, kk % 0x10;
    DecodeNibbles(0xC, x, hi, lo);
    assert Encode(Rnd(x, kk)) == Nibbles(0xC, x, hi, lo);
  }

  lemma DecodeEncodeSe(x: ByteValue, y: ByteValue)
    requires x < 16 && y < 16
    ensures Decode(Encode(Se(x, y))) == Some(Se(x, y))
  {
    DecodeNibbles(5, x, y, 0);
    assert Encode(Se(x, y)) == Nibbles(5, x, y, 0);
  }

  lemma DecodeEncodeSne(x: ByteValue, y: ByteValue)
    requires x < 16 && y < 16
    ensures Decode(Encode(Sne(x, y))) == Some(Sne(x, y))
  {
    DecodeNibbles(9, x, y, 0);
    assert Encode(Sne(x, y)) == Nibbles(9, x, y, 0);
  }

  lemma DecodeEncodeLd(x: ByteValue, y: ByteValue)
    requires x < 16 && y < 16
    ensures Decode(Encode(Ld(x, y))) == Some(Ld(x, y))
  {
    DecodeNibbles(8, x, y, 0);
    assert Encode(Ld(x, y)) == Nibbles(8, x, y, 0);
  }

  lemma DecodeEncodeOr(x: ByteValue, y: ByteValue)
    requires x < 16 && y < 16
    ensures Decode(Encode(Or(x, y))) == Some(Or(x, y))
  {
    DecodeNibbles(8, x, y, 1);
    assert Encode(Or(x, y)) == Nibbles(8, x, y, 1);
  }

  lemma DecodeEncodeAnd(x: ByteValue, y: ByteValue)
    requires x < 16 && y < 16
    ensures Decode(Encode(And(x, y))) == Some(And(x, y))
  {
    DecodeNibbles(8, x, y, 2);
    assert Encode(And(x, y)) == Nibbles(8, x, y, 2);
  }

  lemma DecodeEncodeXor(x: ByteValue, y: ByteValue)
    requires x < 16 && y < 16
    ensures Decode(Encode(Xor(x, y))) == Some(Xor(x, y))
  {
    DecodeNibbles(8, x, y, 3);
    assert Encode(Xor(x, y)) == Nibbles(8, x, y, 3);
  }

  lemma DecodeEncodeAddCarry(x: ByteValue, y: ByteValue)
    requires x < 16 && y < 16
    ensures Decode(Encode(AddCarry(x, y))) == Some(AddCarry(x, y))
  {
    DecodeNibbles(8, x, y, 4);
    assert Encode(AddCarry(x, y)) == Nibbles(8, x, y, 4);
  }

  lemma DecodeEncodeSub(x: ByteValue, y: ByteValue)
    requires x < 16 && y < 16
    ensures Decode(Encode(Sub(x, y))) == Some(Sub(x, y))
  {
    DecodeNibbles(8, x, y, 5);
    assert Encode(Sub(x, y)) == Nibbles(8, x, y, 5);
  }

  lemma DecodeEncodeSubn(x: ByteValue, y: ByteValue)
    requires x < 16 && y < 16
    ensures Decode(Encode(Subn(x, y))) == Some(Subn(x, y))
  {
    DecodeNibbles(8, x, y, 7);
    assert Encode(Subn(x, y)) == Nibbles(8, x, y, 7);
  }

  lemma DecodeEncodeShr(x: ByteValue)
    requires x < 16
    ensures Decode(Encode(Shr(x))) == Some(Shr(x))
  {
    DecodeNibbles(8, x, 0, 6);
    assert Encode(Shr(x)) == Nibbles(8, x, 0, 6);
  }

  /** Encoding a decoded operation gives back the word, less only the bits the decoder
      ignored for it: the low nibble of Se and Sne and the y nibble of Shr. */
  lemma EncodeDecode(w: Word)
    ensures match Decode(w)
      case None => true
      case Some(op) => Decodable(op) && OperandsInRange(op) && Encode(op) == Kept(op, w)
  {
    Split(w);
    FieldsReencode(Family(w), X(w), Y(w), N(w));
  }

  /** The decoded operation of nibbles f, x, y, n, or nothing, with the word its encoding
      gives: the same nibbles, except that Se and Sne clear n and Shr clears y. */
  predicate Reencodes(r: Option<Op>, f: nat, x: nat, y: nat, n: nat) {
    match r
    case None => true
    case Some(op) =>
      && Decodable(op) && OperandsInRange(op)
      && Encode(op) == Nibbles(f, x, if op.Shr? then 0 else y, if op.Se? || op.Sne? then 0 else n)
  }

  /** EncodeDecode on the four nibbles of the word. */
  lemma FieldsReencode(f: nat, x: nat, y: nat, n: nat)
    requires f < 16 && x < 16 && y < 16 && n < 16
    ensures Reencodes(DecodeFields(f, x, y, n), f, x, y, n)
  {
    if f < 8 {
      FieldsReencodeLow(f, x, y, n);
    } else {
      FieldsReencodeHigh(f, x, y, n);
    }
  }

  /** FieldsReencode for families 0 to 7. */
  lemma FieldsReencodeLow(f: nat, x: nat, y: nat, n: nat)
    requires f < 8 && x < 16 && y < 16 && n < 16
    ensures Reencodes(DecodeFields(f, x, y, n), f, x, y, n)
  {
  }

  /** FieldsReencode for families 8 to F. */
  lemma FieldsReencodeHigh(f: nat, x: nat, y: nat, n: nat)
    requires 8 <= f < 16 && x < 16 && y < 16 && n < 16
    ensures Reencodes(DecodeFields(f, x, y, n), f, x, y, n)
  {
  }

  /** Se and Sne ignore the low nibble: two words of family 5, or of family 9, that
      agree on x and y decode to the same operation. */
  lemma LowNibbleIgnored(w: Word, w': Word)
    requires Family(w) == Family(w') && (Family(w) == 5 || Family(w) == 9)
    requires X(w) == X(w') && Y(w) == Y(w')
    ensures Decode(w) == Decode(w')
  {
  }

  /** Shr receives only x: two 8xy6 words that agree on x decode to the same operation,
      whatever their y. */
  lemma ShrDropsY(w: Word, w': Word)
    requires Family(w) == Family(w') == 8 && N(w) == N(w') == 6
    requires X(w) == X(w')
    ensures Decode(w) == Decode(w')
  {
  }

  /** Sample words: the two system words, an Se whose low nibble is ignored, a Shr that
      drops y, the ignored 8xyF and a D-family word with no case. */
  lemma DecodeExamples()
    ensures Decode(0x00E0) == Some(Cls) && Decode(0x00EE) == Some(Ret)
    ensures Decode(0x00E1) == None
    ensures Decode(0x1ABC) == Some(Jump(0xABC))
    ensures Decode(0x5AB7) == Some(Se(0xA, 0xB))
    ensures Decode(0x7F2C) == Some(AddConstant(0xF, 0x2C))
    ensures Decode(0x8126) == Some(Shr(1))
    ensures Decode(0x812F) == None
    ensures Decode(0xD123) == None
  {
  }
}
