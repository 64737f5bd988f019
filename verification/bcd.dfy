/** Binary-coded decimal: a byte split into its hundreds, tens and ones digits. */
module Bcd {
  import opened Base
  import opened Arith

  /** The three decimal digits of a byte, most significant first. Computed in the
      converter's order: hundreds by division, then tens from what the hundreds leave,
      then the ones as what remains after both. */
  function ToBcd(value: ByteValue): (r: seq<ByteValue>)
    ensures |r| == 3
    ensures r[0] <= 2 && r[1] <= 9 && r[2] <= 9
    ensures 100 * (r[0] as int) + 10 * r[1] + r[2] == value
  {
    var n: int := value;
    var hundreds := n / 100;
    var tens := (n - hundreds * 100) / 10;
    var singles := n - hundreds * 100 - tens * 10;
    [hundreds, tens, singles]
  }

  /** Three decimal digits whose value fits in a byte. */
  predicate IsByteBcd(d: seq<ByteValue>) {
    |d| == 3 && d[0] <= 9 && d[1] <= 9 && d[2] <= 9 && 100 * (d[0] as int) + 10 * d[1] + d[2] < 256
  }

  /** The value three decimal digits stand for. */
  function FromBcd(d: seq<ByteValue>): (value: ByteValue)
    requires IsByteBcd(d)
  {
    100 * (d[0] as int) + 10 * d[1] + d[2]
  }

  /** ToBcd agrees with the textbook digit formula: v / 100, (v / 10) mod 10, v mod 10. */
  lemma ToBcdDigits(value: ByteValue)
    ensures ToBcd(value)[0] == value / 100
    ensures ToBcd(value)[1] == (value / 10) % 10
    ensures ToBcd(value)[2] == value % 10
  {
    var r := ToBcd(value);
    var h, t, s := r[0], r[1], r[2];
    ModUnique(value, 10, 10 * h + t, s);
    ModUnique(10 * h + t, 10, h, t);
    ModUnique(value, 100, h, 10 * t + s);
  }

  /** Decimal digits are unique: converting the value of valid digits gives the same
      digits back. */
  lemma ToBcdFromBcd(d: seq<ByteValue>)
    requires IsByteBcd(d)
    ensures ToBcd(FromBcd(d)) == d
  {
    var v := FromBcd(d);
    var r := ToBcd(v);
    ModUnique(v, 100, d[0], 10 * d[1] + d[2]);
    ModUnique(v - 100 * d[0], 10, d[1], d[2]);
    assert r[0] == d[0] && r[1] == d[1] && r[2] == d[2];
  }

  /** Converting a byte to digits and back gives the byte. */
  lemma FromBcdToBcd(value: ByteValue)
    ensures IsByteBcd(ToBcd(value)) && FromBcd(ToBcd(value)) == value
  {
  }

  /** The converter's worked examples. */
  lemma Examples()
    ensures ToBcd(255) == [2, 5, 5]
    ensures ToBcd(123) == [1, 2, 3]
    ensures ToBcd(15) == [0, 1, 5]
    ensures ToBcd(3) == [0, 0, 3]
  {
  }
}
