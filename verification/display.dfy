/** The 64x32 monochrome framebuffer of Display.cs: one byte per pixel, row-major,
    cell index = row * 64 + column. Sprites are XOR-drawn with toroidal wraparound. */
module Display {
  import opened Base
  import opened Arith

  const Width: nat := 64
  const Height: nat := 32
  /** Width * Height cells. */
  const PixelCount: nat := 2048

  /** A drawing coordinate: the C# `byte` x or y argument of Draw, which every use
      promotes to `int` before adding the sprite offset. */
  type Coord = ByteValue

  /** A pixel buffer of the fixed size. */
  predicate IsScreen(px: seq<byte>) {
    |px| == PixelCount
  }

  /** Every pixel is off (0) or on (1). */
  predicate Binary(px: seq<byte>) {
    forall c | 0 <= c < |px| :: px[c] == 0 || px[c] == 1
  }

  /** Clear: whatever the buffer held, every cell becomes 0. */
  function Clear(px: seq<byte>): (r: seq<byte>)
    requires IsScreen(px)
    ensures IsScreen(r) && Binary(r)
    ensures forall c | 0 <= c < |r| :: r[c] == 0
  {
    seq(|px|, _ => 0)
  }

  /** Bit j of a sprite row, j = 0 being the most significant (leftmost) bit:
      (row >> (7 - j)) & 1, with the shift written out per j. */
  function RowBit(row: byte, j: nat): (b: byte)
    requires j < 8
    ensures b == 0 || b == 1
  {
    match j
    case 0 => (row >> 7) & 1
    case 1 => (row >> 6) & 1
    case 2 => (row >> 5) & 1
    case 3 => (row >> 4) & 1
    case 4 => (row >> 3) & 1
    case 5 => (row >> 2) & 1
    case 6 => (row >> 1) & 1
    case 7 => row & 1
  }

  /** The cell that sprite row i, bit j lands on when the sprite is drawn at (x, y):
      the row wraps modulo 32 and the column modulo 64, independently.
      (Arithmetic below uses the literals 64 and 32 for Width and Height.) */
  function Cell(x: Coord, y: Coord, i: nat, j: nat): (c: nat)
    ensures c < PixelCount
  {
    ((y + i) % 32) * 64 + (x + j) % 64
  }

  /** Which sprite row (modulo 32) a sprite drawn at row y puts on cell c. */
  function RowOffset(y: Coord, c: nat): (i: nat) {
    (c / 64 - y) % 32
  }

  /** Which sprite bit (modulo 64) a sprite drawn at column x puts on cell c. */
  function ColOffset(x: Coord, c: nat): (j: nat) {
    (c % 64 - x) % 64
  }

  /** Cell c lies in the wrapped 8 x height rectangle of a sprite drawn at (x, y). */
  predicate InFootprint(x: Coord, y: Coord, height: nat, c: nat) {
    RowOffset(y, c) < height && ColOffset(x, c) < 8
  }

  /** The sprite bit that lands on cell c, or 0 for a cell outside the footprint. */
  function SpriteBit(x: Coord, y: Coord, sprite: seq<byte>, c: nat): (b: byte)
    ensures b == 0 || b == 1
    ensures !InFootprint(x, y, |sprite|, c) ==> b == 0
  {
    if InFootprint(x, y, |sprite|, c) then RowBit(sprite[RowOffset(y, c)], ColOffset(x, c)) else 0
  }

  /** The buffer and erase flag after the first k of the 8 * |sprite| pixel visits Draw
      makes, in its loop order: visit k touches row k / 8, bit k % 8. The flag becomes 1
      when a visited pixel holds 1 at the moment its sprite bit 1 is XORed in. */
  function DrawPrefix(px: seq<byte>, x: Coord, y: Coord, sprite: seq<byte>, k: nat): (r: (seq<byte>, byte))
    requires IsScreen(px)
    requires k <= 8 * |sprite|
    ensures IsScreen(r.0)
    ensures r.1 == 0 || r.1 == 1
    decreases k
  {
    if k == 0 then (px, 0)
    else
      var prev := DrawPrefix(px, x, y, sprite, k - 1);
      var c := Cell(x, y, (k - 1) / 8, (k - 1) % 8);
      var b := RowBit(sprite[(k - 1) / 8], (k - 1) % 8);
      (prev.0[c := b ^ prev.0[c]], if prev.0[c] == 1 && b == 1 then 1 else prev.1)
  }

  /** The buffer and erase flag after a whole Draw. */
  function DrawSpec(px: seq<byte>, x: Coord, y: Coord, sprite: seq<byte>): (r: (seq<byte>, byte))
    requires IsScreen(px)
    ensures IsScreen(r.0)
    ensures r.1 == 0 || r.1 == 1
  {
    DrawPrefix(px, x, y, sprite, 8 * |sprite|)
  }

  /** Draw, as the nested row/bit loops of the source: XOR every sprite bit into its
      wrapped cell and report whether some lit pixel was hit by a set bit. For a sprite
      of at most 32 rows no cell is visited twice, so the result is the cellwise XOR of
      the buffer with the sprite's footprint. */
  method Draw(px: seq<byte>, x: Coord, y: Coord, sprite: seq<byte>) returns (pixels: seq<byte>, erased: byte)
    requires IsScreen(px)
    ensures (pixels, erased) == DrawSpec(px, x, y, sprite)
    ensures IsScreen(pixels)
    ensures erased == 0 || erased == 1
    ensures |sprite| <= Height ==>
      forall c | 0 <= c < PixelCount :: pixels[c] == px[c] ^ SpriteBit(x, y, sprite, c)
    ensures |sprite| <= Height ==>
      (erased == 1 <==> exists c | 0 <= c < PixelCount :: px[c] == 1 && SpriteBit(x, y, sprite, c) == 1)
  {
    pixels, erased := px, 0;
    var i := 0;
    while i < |sprite|
      invariant 0 <= i <= |sprite|
      invariant pixels == DrawPrefix(px, x, y, sprite, 8 * i).0
      invariant erased == DrawPrefix(px, x, y, sprite, 8 * i).1
    {
      pixels, erased := DrawRow(px, x, y, sprite, i, pixels, erased);
      i := i + 1;
    }
    if |sprite| <= Height {
      DrawCellwise(px, x, y, sprite);
    }
  }

  /** One pass of Draw's inner loop: the eight bits of sprite row i. */
  method DrawRow(px: seq<byte>, x: Coord, y: Coord, sprite: seq<byte>, i: nat, pixels0: seq<byte>, erased0: byte)
    returns (pixels: seq<byte>, erased: byte)
    requires IsScreen(px) && i < |sprite|
    requires pixels0 == DrawPrefix(px, x, y, sprite, 8 * i).0
    requires erased0 == DrawPrefix(px, x, y, sprite, 8 * i).1
    ensures pixels == DrawPrefix(px, x, y, sprite, 8 * i + 8).0
    ensures erased == DrawPrefix(px, x, y, sprite, 8 * i + 8).1
  {
    pixels, erased := pixels0, erased0;
    var rowStartOffset := ((y + i) % 32) * 64;
    var j := 0;
    while j < 8
      invariant 0 <= j <= 8
      invariant pixels == DrawPrefix(px, x, y, sprite, 8 * i + j).0
      invariant erased == DrawPrefix(px, x, y, sprite, 8 * i + j).1
    {
      DrawPrefixStep(px, x, y, sprite, i, j);
      var pixelOffset := rowStartOffset + (x + j) % 64;
      assert pixelOffset == Cell(x, y, i, j);
      var oldPixelValue := pixels[pixelOffset];
      var newPixelValue := RowBit(sprite[i], j);
      if oldPixelValue == 1 && newPixelValue == 1 {
        erased := 1;
      }
      pixels := pixels[pixelOffset := newPixelValue ^ pixels[pixelOffset]];
      j := j + 1;
    }
  }

  /** Visit 8 * i + j of the loop order is row i, bit j. */
  lemma DrawPrefixStep(px: seq<byte>, x: Coord, y: Coord, sprite: seq<byte>, i: nat, j: nat)
    requires IsScreen(px) && i < |sprite| && j < 8
    ensures var p := DrawPrefix(px, x, y, sprite, 8 * i + j).0;
      var c := Cell(x, y, i, j);
      DrawPrefix(px, x, y, sprite, 8 * i + j + 1).0 == p[c := RowBit(sprite[i], j) ^ p[c]]
    ensures var p := DrawPrefix(px, x, y, sprite, 8 * i + j).0;
      var c := Cell(x, y, i, j);
      DrawPrefix(px, x, y, sprite, 8 * i + j + 1).1 ==
        if p[c] == 1 && RowBit(sprite[i], j) == 1 then 1 else DrawPrefix(px, x, y, sprite, 8 * i + j).1
  {
    assert (8 * i + j) / 8 == i && (8 * i + j) % 8 == j;
  }

  /** Going forward by i from a and reading the offset back modulo m gives i modulo m. */
  lemma OffsetOfShift(a: int, i: int, m: int)
    requires m > 0
    ensures ((a + i) % m - a) % m == i % m
  {
    var q := (a + i) / m;
    var s := i / m;
    assert (a + i) % m - a == i - m * q;
    ModUnique((a + i) % m - a, m, s - q, i % m);
  }

  /** Reading the offset of r from a and going forward by it lands on r again. */
  lemma ShiftOfOffset(a: int, r: int, m: int)
    requires m > 0 && 0 <= r < m
    ensures (a + (r - a) % m) % m == r
  {
    var q := (r - a) / m;
    assert a + (r - a) % m == r - m * q;
    ModUnique(r - m * q, m, -q, r);
  }

  /** The offsets of the cell that row i, bit j lands on are i (modulo 32) and j. */
  lemma CellOffsets(x: Coord, y: Coord, i: nat, j: nat)
    requires j < 64
    ensures RowOffset(y, Cell(x, y, i, j)) == i % 32
    ensures i < 32 ==> RowOffset(y, Cell(x, y, i, j)) == i
    ensures ColOffset(x, Cell(x, y, i, j)) == j
  {
    if i < 32 {
      ModUnique(i, 32, 0, i);
    }
    var row := (y + i) % 32;
    var col := (x + j) % 64;
    ModUnique(row * 64 + col, 64, row, col);
    OffsetOfShift(y, i, 32);
    OffsetOfShift(x, j, 64);
  }

  /** Every cell is the landing cell of its own offsets. */
  lemma CellOfOffsets(x: Coord, y: Coord, c: nat)
    requires c < PixelCount
    ensures Cell(x, y, RowOffset(y, c), ColOffset(x, c)) == c
  {
    var row, col := c / 64, c % 64;
    ModUnique(c, 64, row, col);
    ShiftOfOffset(y, row, 32);
    ShiftOfOffset(x, col, 64);
  }

  /** Cell c has been reached by one of the first k visits of a sprite of the given height. */
  predicate Visited(x: Coord, y: Coord, height: nat, k: nat, c: nat) {
    InFootprint(x, y, height, c) && 8 * RowOffset(y, c) + ColOffset(x, c) < k
  }

  /** Visit k - 1 reaches exactly one cell not reached before it. */
  lemma VisitStep(x: Coord, y: Coord, height: nat, k: nat, c: nat)
    requires 1 <= k <= 8 * height && height <= Height && c < PixelCount
    ensures Visited(x, y, height, k, c) <==>
      Visited(x, y, height, k - 1, c) || c == Cell(x, y, (k - 1) / 8, (k - 1) % 8)
  {
    var i, j := (k - 1) / 8, (k - 1) % 8;
    CellOffsets(x, y, i, j);
    if Visited(x, y, height, k, c) && !Visited(x, y, height, k - 1, c) {
      CellOfOffsets(x, y, c);
      assert RowOffset(y, c) == i && ColOffset(x, c) == j;
    }
  }

  /** The value cell c holds after the first k visits of a sprite of at most 32 rows:
      its original value, XORed with its sprite bit once the cell has been reached. */
  function PixelAfter(px: seq<byte>, x: Coord, y: Coord, sprite: seq<byte>, k: nat, c: nat): (p: byte)
    requires c < |px|
  {
    if Visited(x, y, |sprite|, k, c) then px[c] ^ SpriteBit(x, y, sprite, c) else px[c]
  }

  /** Cell c is lit where the sprite bit landing on it is set: drawing there erases it. */
  predicate Collides(px: seq<byte>, x: Coord, y: Coord, sprite: seq<byte>, c: nat)
    requires c < |px|
  {
    px[c] == 1 && SpriteBit(x, y, sprite, c) == 1
  }

  /** After k visits of a sprite of at most 32 rows, each cell reached so far holds its
      original value XOR its sprite bit and every other cell its original value. */
  lemma {:induction false} PrefixPixels(px: seq<byte>, x: Coord, y: Coord, sprite: seq<byte>, k: nat)
    requires IsScreen(px) && |sprite| <= Height && k <= 8 * |sprite|
    ensures forall c | 0 <= c < PixelCount ::
      DrawPrefix(px, x, y, sprite, k).0[c] == PixelAfter(px, x, y, sprite, k, c)
  {
    if k > 0 {
      PrefixPixels(px, x, y, sprite, k - 1);
      forall c | 0 <= c < PixelCount
        ensures DrawPrefix(px, x, y, sprite, k).0[c] == PixelAfter(px, x, y, sprite, k, c)
      {
        PixelStep(px, x, y, sprite, k, c);
      }
    }
  }

  /** One visit moves one cell from "not yet reached" to "reached" and leaves the rest. */
  lemma PixelStep(px: seq<byte>, x: Coord, y: Coord, sprite: seq<byte>, k: nat, c: nat)
    requires IsScreen(px) && |sprite| <= Height && 1 <= k <= 8 * |sprite| && c < PixelCount
    requires DrawPrefix(px, x, y, sprite, k - 1).0[c] == PixelAfter(px, x, y, sprite, k - 1, c)
    ensures DrawPrefix(px, x, y, sprite, k).0[c] == PixelAfter(px, x, y, sprite, k, c)
  {
    if c == Cell(x, y, (k - 1) / 8, (k - 1) % 8) {
      PixelStepHit(px, x, y, sprite, k);
    } else {
      PixelStepMiss(px, x, y, sprite, k, c);
    }
  }

  lemma PixelStepHit(px: seq<byte>, x: Coord, y: Coord, sprite: seq<byte>, k: nat)
    requires IsScreen(px) && |sprite| <= Height && 1 <= k <= 8 * |sprite|
    requires var c := Cell(x, y, (k - 1) / 8, (k - 1) % 8);
      DrawPrefix(px, x, y, sprite, k - 1).0[c] == PixelAfter(px, x, y, sprite, k - 1, c)
    ensures var c := Cell(x, y, (k - 1) / 8, (k - 1) % 8);
      DrawPrefix(px, x, y, sprite, k).0[c] == PixelAfter(px, x, y, sprite, k, c)
  {
    VisitedNow(x, y, sprite, k);
  }

  lemma PixelStepMiss(px: seq<byte>, x: Coord, y: Coord, sprite: seq<byte>, k: nat, c: nat)
    requires IsScreen(px) && |sprite| <= Height && 1 <= k <= 8 * |sprite| && c < PixelCount
    requires c != Cell(x, y, (k - 1) / 8, (k - 1) % 8)
    requires DrawPrefix(px, x, y, sprite, k - 1).0[c] == PixelAfter(px, x, y, sprite, k - 1, c)
    ensures DrawPrefix(px, x, y, sprite, k).0[c] == PixelAfter(px, x, y, sprite, k, c)
  {
    VisitStep(x, y, |sprite|, k, c);
  }

  /** Visit k - 1 reaches the cell of row (k - 1) / 8, bit (k - 1) % 8 for the first
      time, and puts that row's bit on it. */
  lemma VisitedNow(x: Coord, y: Coord, sprite: seq<byte>, k: nat)
    requires |sprite| <= Height && 1 <= k <= 8 * |sprite|
    ensures var cs := Cell(x, y, (k - 1) / 8, (k - 1) % 8);
      && !Visited(x, y, |sprite|, k - 1, cs)
      && Visited(x, y, |sprite|, k, cs)
      && SpriteBit(x, y, sprite, cs) == RowBit(sprite[(k - 1) / 8], (k - 1) % 8)
  {
    var i, j := (k - 1) / 8, (k - 1) % 8;
    CellOffsets(x, y, i, j);
    assert i < 32 && 8 * i + j == k - 1;
  }

  /** After k visits of a sprite of at most 32 rows, the flag is 1 exactly when some
      cell reached so far collides. */
  lemma {:induction false} PrefixErased(px: seq<byte>, x: Coord, y: Coord, sprite: seq<byte>, k: nat)
    requires IsScreen(px) && |sprite| <= Height && k <= 8 * |sprite|
    ensures DrawPrefix(px, x, y, sprite, k).1 == 1 <==> CollisionWithin(px, x, y, sprite, k)
  {
    if k > 0 {
      PrefixErased(px, x, y, sprite, k - 1);
      ErasedStep(px, x, y, sprite, k);
      if DrawPrefix(px, x, y, sprite, k).1 == 1 {
        CollisionGrows(px, x, y, sprite, k);
      } else {
        NoCollisionYet(px, x, y, sprite, k);
      }
    }
  }

  /** Some cell among the first k reached collides. */
  predicate CollisionWithin(px: seq<byte>, x: Coord, y: Coord, sprite: seq<byte>, k: nat)
    requires IsScreen(px)
  {
    exists c | 0 <= c < PixelCount :: Visited(x, y, |sprite|, k, c) && Collides(px, x, y, sprite, c)
  }

  /** A collision among the first k - 1 visits, or at visit k - 1, is one among the first k. */
  lemma CollisionGrows(px: seq<byte>, x: Coord, y: Coord, sprite: seq<byte>, k: nat)
    requires IsScreen(px) && |sprite| <= Height && 1 <= k <= 8 * |sprite|
    requires CollisionWithin(px, x, y, sprite, k - 1)
      || Collides(px, x, y, sprite, Cell(x, y, (k - 1) / 8, (k - 1) % 8))
    ensures CollisionWithin(px, x, y, sprite, k)
  {
    if CollisionWithin(px, x, y, sprite, k - 1) {
      var c :| 0 <= c < PixelCount && Visited(x, y, |sprite|, k - 1, c) && Collides(px, x, y, sprite, c);
      VisitStep(x, y, |sprite|, k, c);
    } else {
      VisitedNow(x, y, sprite, k);
    }
  }

  /** Without a collision among the first k - 1 visits nor at visit k - 1, there is none
      among the first k. */
  lemma NoCollisionYet(px: seq<byte>, x: Coord, y: Coord, sprite: seq<byte>, k: nat)
    requires IsScreen(px) && |sprite| <= Height && 1 <= k <= 8 * |sprite|
    requires !CollisionWithin(px, x, y, sprite, k - 1)
    requires !Collides(px, x, y, sprite, Cell(x, y, (k - 1) / 8, (k - 1) % 8))
    ensures !CollisionWithin(px, x, y, sprite, k)
  {
    forall c | 0 <= c < PixelCount && Visited(x, y, |sprite|, k, c)
      ensures !Collides(px, x, y, sprite, c)
    {
      VisitStep(x, y, |sprite|, k, c);
    }
  }

  /** Visit k - 1 sets the flag exactly when the flag was already set or the cell it
      reaches collides. */
  lemma ErasedStep(px: seq<byte>, x: Coord, y: Coord, sprite: seq<byte>, k: nat)
    requires IsScreen(px) && |sprite| <= Height && 1 <= k <= 8 * |sprite|
    ensures var cs := Cell(x, y, (k - 1) / 8, (k - 1) % 8);
      DrawPrefix(px, x, y, sprite, k).1 == 1 <==>
        DrawPrefix(px, x, y, sprite, k - 1).1 == 1 || Collides(px, x, y, sprite, cs)
  {
    var cs := Cell(x, y, (k - 1) / 8, (k - 1) % 8);
    VisitedNow(x, y, sprite, k);
    PrefixPixels(px, x, y, sprite, k - 1);
    assert DrawPrefix(px, x, y, sprite, k - 1).0[cs] == px[cs];
  }

  /** For a sprite of at most 32 rows, Draw is the cellwise XOR of the buffer with the
      sprite's wrapped footprint, and the flag is 1 exactly when some lit cell meets a
      set sprite bit. */
  lemma DrawCellwise(px: seq<byte>, x: Coord, y: Coord, sprite: seq<byte>)
    requires IsScreen(px) && |sprite| <= Height
    ensures forall c | 0 <= c < PixelCount ::
      DrawSpec(px, x, y, sprite).0[c] == px[c] ^ SpriteBit(x, y, sprite, c)
    ensures DrawSpec(px, x, y, sprite).1 == 1 <==>
      exists c | 0 <= c < PixelCount :: px[c] == 1 && SpriteBit(x, y, sprite, c) == 1
  {
    var n := |sprite|;
    PrefixPixels(px, x, y, sprite, 8 * n);
    PrefixErased(px, x, y, sprite, 8 * n);
    forall c | 0 <= c < PixelCount
      ensures Visited(x, y, n, 8 * n, c) <==> InFootprint(x, y, n, c)
    {
    }
  }

  /** Whatever the sprite height, a cell outside the wrapped footprint keeps its value. */
  lemma {:induction false} PrefixOutside(px: seq<byte>, x: Coord, y: Coord, sprite: seq<byte>, k: nat, c: nat)
    requires IsScreen(px) && k <= 8 * |sprite| && c < PixelCount
    requires !InFootprint(x, y, |sprite|, c)
    ensures DrawPrefix(px, x, y, sprite, k).0[c] == px[c]
  {
    if k > 0 {
      PrefixOutside(px, x, y, sprite, k - 1, c);
      var i, j := (k - 1) / 8, (k - 1) % 8;
      CellOffsets(x, y, i, j);
      assert i % 32 <= i < |sprite|;
      assert InFootprint(x, y, |sprite|, Cell(x, y, i, j));
    }
  }

  /** Draw leaves every cell outside the sprite's wrapped 8 x |sprite| footprint
      unchanged, for any sprite height. */
  lemma DrawOutside(px: seq<byte>, x: Coord, y: Coord, sprite: seq<byte>)
    requires IsScreen(px)
    ensures forall c | 0 <= c < PixelCount && !InFootprint(x, y, |sprite|, c) ::
      DrawSpec(px, x, y, sprite).0[c] == px[c]
  {
    forall c | 0 <= c < PixelCount && !InFootprint(x, y, |sprite|, c)
      ensures DrawSpec(px, x, y, sprite).0[c] == px[c]
    {
      PrefixOutside(px, x, y, sprite, 8 * |sprite|, c);
    }
  }

  /** Whatever the sprite height, a buffer of 0/1 pixels stays a buffer of 0/1 pixels. */
  lemma {:induction false} PrefixBinary(px: seq<byte>, x: Coord, y: Coord, sprite: seq<byte>, k: nat)
    requires IsScreen(px) && Binary(px) && k <= 8 * |sprite|
    ensures Binary(DrawPrefix(px, x, y, sprite, k).0)
  {
    if k > 0 {
      PrefixBinary(px, x, y, sprite, k - 1);
    }
  }

  /** Draw maps a buffer of 0/1 pixels to a buffer of 0/1 pixels. */
  lemma DrawKeepsBinary(px: seq<byte>, x: Coord, y: Coord, sprite: seq<byte>)
    requires IsScreen(px) && Binary(px)
    ensures Binary(DrawSpec(px, x, y, sprite).0)
  {
    PrefixBinary(px, x, y, sprite, 8 * |sprite|);
  }

  /** The all-dark buffer. */
  function Blank(): (b: seq<byte>)
    ensures IsScreen(b) && forall c | 0 <= c < |b| :: b[c] == 0
  {
    seq(PixelCount, _ => 0)
  }

  /** Drawing is XOR with what the same visits leave on a dark buffer, for any sprite
      height: each visit XORs one bit into one cell, and XOR is associative and
      commutative. */
  lemma {:induction false} PrefixLinear(px: seq<byte>, x: Coord, y: Coord, sprite: seq<byte>, k: nat)
    requires IsScreen(px) && k <= 8 * |sprite|
    ensures forall c | 0 <= c < PixelCount ::
      DrawPrefix(px, x, y, sprite, k).0[c] == px[c] ^ DrawPrefix(Blank(), x, y, sprite, k).0[c]
  {
    if k > 0 {
      PrefixLinear(px, x, y, sprite, k - 1);
    }
  }

  /** Drawing the same sprite twice at the same place restores the buffer exactly, for any
      sprite height. */
  lemma DrawTwiceRestores(px: seq<byte>, x: Coord, y: Coord, sprite: seq<byte>)
    requires IsScreen(px)
    ensures DrawSpec(DrawSpec(px, x, y, sprite).0, x, y, sprite).0 == px
  {
    var p1 := DrawSpec(px, x, y, sprite).0;
    var p2 := DrawSpec(p1, x, y, sprite).0;
    PrefixLinear(px, x, y, sprite, 8 * |sprite|);
    PrefixLinear(p1, x, y, sprite, 8 * |sprite|);
    assert forall c | 0 <= c < PixelCount :: p2[c] == px[c];
  }

  /** On a 0/1 buffer, the second of two identical draws reports an erase exactly when the
      first one turned some pixel on. */
  lemma SecondDrawErases(px: seq<byte>, x: Coord, y: Coord, sprite: seq<byte>)
    requires IsScreen(px) && |sprite| <= Height
    ensures DrawSpec(DrawSpec(px, x, y, sprite).0, x, y, sprite).1 == 1 <==>
      exists c | 0 <= c < PixelCount :: px[c] == 0 && SpriteBit(x, y, sprite, c) == 1
  {
    var p1 := DrawSpec(px, x, y, sprite).0;
    DrawCellwise(px, x, y, sprite);
    DrawCellwise(p1, x, y, sprite);
    forall c | 0 <= c < PixelCount
      ensures (p1[c] == 1 && SpriteBit(x, y, sprite, c) == 1) <==> (px[c] == 0 && SpriteBit(x, y, sprite, c) == 1)
    {
    }
  }

  /** On a cleared screen nothing is erased, and the drawn pixels are exactly the sprite. */
  lemma DrawOnCleared(px: seq<byte>, x: Coord, y: Coord, sprite: seq<byte>)
    requires IsScreen(px) && |sprite| <= Height
    ensures DrawSpec(Clear(px), x, y, sprite).1 == 0
    ensures forall c | 0 <= c < PixelCount :: DrawSpec(Clear(px), x, y, sprite).0[c] == SpriteBit(x, y, sprite, c)
  {
    DrawCellwise(Clear(px), x, y, sprite);
  }

  /** One cell of DrawCellwise, as a quantifier-free fact. */
  lemma DrawCellAt(px: seq<byte>, x: Coord, y: Coord, sprite: seq<byte>, c: nat)
    requires IsScreen(px) && |sprite| <= Height && c < PixelCount
    ensures DrawSpec(px, x, y, sprite).0[c] == px[c] ^ SpriteBit(x, y, sprite, c)
  {
    DrawCellwise(px, x, y, sprite);
  }

  /** On a cleared screen, bit j of sprite row i lands on column (x + j) mod 64 of row
      (y + i) mod 32: a sprite running off the right edge reappears on the left, one
      running off the bottom reappears at the top. */
  lemma DrawWrapsAt(px: seq<byte>, x: Coord, y: Coord, sprite: seq<byte>, i: nat, j: nat)
    requires IsScreen(px) && |sprite| <= Height && i < |sprite| && j < 8
    ensures DrawSpec(Clear(px), x, y, sprite).0[((y + i) % 32) * 64 + (x + j) % 64] == RowBit(sprite[i], j)
  {
    var z := Clear(px);
    var c := Cell(x, y, i, j);
    CellOffsets(x, y, i, j);
    assert InFootprint(x, y, |sprite|, c);
    DrawCellAt(z, x, y, sprite, c);
    XorZero(z[c], SpriteBit(x, y, sprite, c));
  }

  /** XOR onto a dark pixel yields the bit. */
  lemma XorZero(p: byte, b: byte)
    requires p == 0
    ensures p ^ b == b
  {
  }

  /** A sprite whose first row is 0xF1 (1111 0001), drawn at column 62 of row y on a
      cleared screen, wraps: its eight bits land on columns 62, 63, 0, 1, 2, 3, 4 and 5
      of row y, which read 1, 1, 1, 1, 0, 0, 0, 1. */
  lemma HorizontalWrapExample(px: seq<byte>, sprite: seq<byte>, y: Coord)
    requires IsScreen(px) && 1 <= |sprite| <= Height && sprite[0] == 0xF1 && y < 32
    ensures var p := DrawSpec(Clear(px), 62, y, sprite).0;
      && p[y * 64 + 62] == 1 && p[y * 64 + 63] == 1 && p[y * 64] == 1 && p[y * 64 + 1] == 1
      && p[y * 64 + 2] == 0 && p[y * 64 + 3] == 0 && p[y * 64 + 4] == 0 && p[y * 64 + 5] == 1
  {
    HorizontalWrapLeft(px, sprite, y);
    HorizontalWrapRight(px, sprite, y);
  }

  /** HorizontalWrapExample for the four bits that stay left of the edge and the first
      two that wrap. */
  lemma HorizontalWrapLeft(px: seq<byte>, sprite: seq<byte>, y: Coord)
    requires IsScreen(px) && 1 <= |sprite| <= Height && sprite[0] == 0xF1 && y < 32
    ensures var p := DrawSpec(Clear(px), 62, y, sprite).0;
      p[y * 64 + 62] == 1 && p[y * 64 + 63] == 1 && p[y * 64] == 1 && p[y * 64 + 1] == 1
  {
    WrapCells(y);
    assert ((y + 0) % 32) * 64 + (62 + 0) % 64 == y * 64 + 62;
    DrawWrapsAt(px, 62, y, sprite, 0, 0);
    assert ((y + 0) % 32) * 64 + (62 + 1) % 64 == y * 64 + 63;
    DrawWrapsAt(px, 62, y, sprite, 0, 1);
    assert ((y + 0) % 32) * 64 + (62 + 2) % 64 == y * 64;
    DrawWrapsAt(px, 62, y, sprite, 0, 2);
    assert ((y + 0) % 32) * 64 + (62 + 3) % 64 == y * 64 + 1;
    DrawWrapsAt(px, 62, y, sprite, 0, 3);
  }

  /** HorizontalWrapExample for the last four bits, all wrapped to the left edge. */
  lemma HorizontalWrapRight(px: seq<byte>, sprite: seq<byte>, y: Coord)
    requires IsScreen(px) && 1 <= |sprite| <= Height && sprite[0] == 0xF1 && y < 32
    ensures var p := DrawSpec(Clear(px), 62, y, sprite).0;
      p[y * 64 + 2] == 0 && p[y * 64 + 3] == 0 && p[y * 64 + 4] == 0 && p[y * 64 + 5] == 1
  {
    WrapCells(y);
    assert ((y + 0) % 32) * 64 + (62 + 4) % 64 == y * 64 + 2;
    DrawWrapsAt(px, 62, y, sprite, 0, 4);
    assert ((y + 0) % 32) * 64 + (62 + 5) % 64 == y * 64 + 3;
    DrawWrapsAt(px, 62, y, sprite, 0, 5);
    assert ((y + 0) % 32) * 64 + (62 + 6) % 64 == y * 64 + 4;
    DrawWrapsAt(px, 62, y, sprite, 0, 6);
    assert ((y + 0) % 32) * 64 + (62 + 7) % 64 == y * 64 + 5;
    DrawWrapsAt(px, 62, y, sprite, 0, 7);
  }

  /** The eight cells of screen row y from column x on, wrapping at the right edge, show
      the bits of a sprite row, most significant first. */
  predicate RowShows(px: seq<byte>, x: Coord, y: Coord, row: byte)
    requires IsScreen(px) && y < Height
  {
    forall b | 0 <= b < 8 :: px[y * 64 + (x + b) % 64] == RowBit(row, b)
  }

  /** On a cleared screen, sprite row i shows on screen row (y + i) mod 32 from column x. */
  lemma DrawnRow(px: seq<byte>, x: Coord, y: Coord, sprite: seq<byte>, i: nat)
    requires IsScreen(px) && |sprite| <= Height && i < |sprite|
    ensures RowShows(DrawSpec(Clear(px), x, y, sprite).0, x, (y + i) % 32, sprite[i])
  {
    forall b | 0 <= b < 8
      ensures DrawSpec(Clear(px), x, y, sprite).0[((y + i) % 32) * 64 + (x + b) % 64] == RowBit(sprite[i], b)
    {
      DrawWrapsAt(px, x, y, sprite, i, b);
    }
  }

  /** The sprite 0xF1, 0x3E drawn at row 31 of a cleared screen: its first row shows on
      row 31 and its second wraps to row 0. */
  lemma VerticalWrapExample(px: seq<byte>)
    requires IsScreen(px)
    ensures RowShows(DrawSpec(Clear(px), 0, 31, [0xF1, 0x3E]).0, 0, 31, 0xF1)
    ensures RowShows(DrawSpec(Clear(px), 0, 31, [0xF1, 0x3E]).0, 0, 0, 0x3E)
  {
    DrawnRow(px, 0, 31, [0xF1, 0x3E], 0);
    DrawnRow(px, 0, 31, [0xF1, 0x3E], 1);
  }

  /** The same sprite drawn at column 60, row 31: both rows wrap at the right edge, and the
      second also wraps to row 0. */
  lemma DiagonalWrapExample(px: seq<byte>)
    requires IsScreen(px)
    ensures RowShows(DrawSpec(Clear(px), 60, 31, [0xF1, 0x3E]).0, 60, 31, 0xF1)
    ensures RowShows(DrawSpec(Clear(px), 60, 31, [0xF1, 0x3E]).0, 60, 0, 0x3E)
  {
    DrawnRow(px, 60, 31, [0xF1, 0x3E], 0);
    DrawnRow(px, 60, 31, [0xF1, 0x3E], 1);
  }

  /** The cells the wrap examples look at, and the sprite bits they expect. */
  lemma WrapCells(y: Coord)
    requires y < 32
    ensures ((y + 0) % 32) * 64 == y * 64
    ensures RowBit(0xF1, 0) == 1 && RowBit(0xF1, 1) == 1 && RowBit(0xF1, 2) == 1 && RowBit(0xF1, 3) == 1
    ensures RowBit(0xF1, 4) == 0 && RowBit(0xF1, 5) == 0 && RowBit(0xF1, 6) == 0 && RowBit(0xF1, 7) == 1
  {
    ModUnique(y, 32, 0, y);
  }
}
