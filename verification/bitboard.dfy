/** Model of src/bitboard.py: the border masks of the play field, packing a 0/1 grid into
    12-bit row blocks, and splitting a field into its single set bits.
    Cell index i is row i / 12 (row 0 is the floor) and column i % 12 (column 0 is the right wall). */
module Bitboard {
  import opened Bits

  /** Board width, hard-coded as 12 in src/bitboard.py:12 and src/bitboard.py:30. */
  const COLUMNS: nat := 12
  /** Board height (the debug printer pads boards to 22 * 12 bits, src/bitboard.py:23). */
  const ROWS: nat := 22

  // ---------------------------------------------------------------------------
  // Border masks

  /** The value of `bottom_border` after the loop has run over range(columns): the lowest
      `columns` bits set. Defined by shifting the mask up and setting bit 0; BottomMaskStep shows
      that one more pass of the loop, which ORs in the next higher bit, gives the same value. */
  function BottomMask(columns: nat): nat
  {
    if columns == 0 then 0 else 2 * BottomMask(columns - 1) + 1
  }

  /** The value of `right_border` after the loop has run over range(rows): bit 0 of each of the
      lowest `rows` rows. The row stride is the literal 12 of the source, whatever `columns` is.
      Defined by shifting the mask up a row (0x1000 is 2^12) and setting bit 0; RightMaskStep
      shows that one more pass of the loop, which ORs in bit 12 * rows, gives the same value. */
  function RightMask(rows: nat): nat
  {
    if rows == 0 then 0 else 0x1000 * RightMask(rows - 1) + 1
  }

  /** `left_border = right_border << (columns - 1)`. */
  function LeftMask(columns: nat, rows: nat): (r: nat)
    requires columns >= 1
    ensures forall i: nat :: Bit(r, i) <==>
      i >= columns - 1 && (i - (columns - 1)) % 12 == 0 && (i - (columns - 1)) / 12 < rows
  {
    var m := Shl(RightMask(rows), columns - 1);
    forall i: nat ensures Bit(m, i) <==>
      i >= columns - 1 && (i - (columns - 1)) % 12 == 0 && (i - (columns - 1)) / 12 < rows
    {
      BitShl(RightMask(rows), columns - 1, i);
      if i >= columns - 1 { RightMaskBit(rows, i - (columns - 1)); }
    }
    m
  }

  /** `top_border = bottom_border << (columns * (rows - 1))`. */
  function TopMask(columns: nat, rows: nat): (r: nat)
    requires rows >= 1
    ensures forall i: nat :: Bit(r, i) <==> columns * (rows - 1) <= i < columns * rows
  {
    var m := Shl(BottomMask(columns), columns * (rows - 1));
    forall i: nat ensures Bit(m, i) <==> columns * (rows - 1) <= i < columns * rows {
      BitShl(BottomMask(columns), columns * (rows - 1), i);
      if i >= columns * (rows - 1) { BottomMaskBit(columns, i - columns * (rows - 1)); }
    }
    m
  }

  /** `all_borders = left | right | top | bottom`. */
  function AllMask(columns: nat, rows: nat): (r: nat)
    requires columns >= 1 && rows >= 1
    ensures forall i: nat :: Bit(r, i) <==>
      Bit(LeftMask(columns, rows), i) || Bit(RightMask(rows), i) ||
      Bit(TopMask(columns, rows), i) || Bit(BottomMask(columns), i)
  {
    var l, rt, t, b := LeftMask(columns, rows), RightMask(rows), TopMask(columns, rows), BottomMask(columns);
    BitOrAll(l, rt);
    BitOrAll(Or(l, rt), t);
    BitOrAll(Or(Or(l, rt), t), b);
    Or(Or(Or(l, rt), t), b)
  }

  lemma {:induction false} BottomMaskBit(columns: nat, i: nat)
    ensures Bit(BottomMask(columns), i) <==> i < columns
    ensures BottomMask(columns) < Pow2(columns)
  {
    if columns == 0 {
      BitZero(i);
    } else {
      BitOdd(BottomMask(columns - 1), i);
      BottomMaskBit(columns - 1, if i > 0 then i - 1 else 0);
    }
  }

  /** The mask with `columns` bits is one less than 2^columns. */
  lemma {:induction false} BottomMaskValue(columns: nat)
    ensures BottomMask(columns) + 1 == Pow2(columns)
  {
    if columns > 0 { BottomMaskValue(columns - 1); }
  }

  /** One more pass of the loop: ORing in bit `columns`, above every bit set so far. */
  lemma BottomMaskStep(columns: nat)
    ensures BottomMask(columns + 1) == BottomMask(columns) + Pow2(columns)
  {
    BottomMaskValue(columns);
  }

  lemma {:induction false} RightMaskBit(rows: nat, i: nat)
    ensures Bit(RightMask(rows), i) <==> i % 12 == 0 && i / 12 < rows
    ensures RightMask(rows) < Pow2(12 * rows)
  {
    if rows == 0 {
      BitZero(i);
    } else {
      var prev := RightMask(rows - 1);
      RowUp(prev);
      BitOdd(Shl(prev, 11), i);
      if i > 0 { BitShl(prev, 11, i - 1); }
      RightMaskBit(rows - 1, if i >= 12 then i - 12 else 0);
      Pow2Row(12 * (rows - 1));
    }
  }

  /** Moving a field up one row multiplies it by 2^12. */
  lemma RowUp(x: nat)
    ensures 0x1000 * x + 1 == 2 * Shl(x, 11) + 1
  {
    ShlMul(x, 11);
    assert Pow2(11) == 0x800;
  }

  lemma Pow2Row(a: nat)
    ensures Pow2(a + 12) == 0x1000 * Pow2(a)
  {
    Pow2Add(a, 12);
    ShlMul(Pow2(a), 12);
    assert Pow2(12) == 0x1000;
  }

  /** One more pass of the loop: ORing in bit 12 * rows, above every bit set so far. */
  lemma {:induction false} RightMaskStep(rows: nat)
    ensures RightMask(rows + 1) == RightMask(rows) + Pow2(12 * rows)
  {
    if rows > 0 {
      RightMaskStep(rows - 1);
      Pow2Row(12 * (rows - 1));
    }
  }

  /** The module-level loop `for i in range(columns): bottom_border |= 1 << i`. */
  method BuildBottomBorder(columns: nat) returns (mask: nat)
    ensures mask == BottomMask(columns)
    ensures forall i: nat :: Bit(mask, i) <==> i < columns
  {
    mask := 0;
    var i := 0;
    while i < columns
      invariant 0 <= i <= columns
      invariant mask == BottomMask(i)
    {
      BottomMaskBit(i, 0);
      BottomMaskStep(i);
      ShlPow2(0, i);
      DisjointBelow(mask, i);
      OrDisjoint(mask, Pow2(i));
      mask := Or(mask, Shl(1, i));
      i := i + 1;
    }
    forall j: nat ensures Bit(mask, j) <==> j < columns { BottomMaskBit(columns, j); }
  }

  /** The module-level loop `for i in range(rows): right_border |= 1 << (i * 12)`. */
  method BuildRightBorder(rows: nat) returns (mask: nat)
    ensures mask == RightMask(rows)
    ensures forall i: nat :: Bit(mask, i) <==> i % 12 == 0 && i / 12 < rows
  {
    mask := 0;
    var i := 0;
    while i < rows
      invariant 0 <= i <= rows
      invariant mask == RightMask(i)
    {
      RightMaskBit(i, 0);
      RightMaskStep(i);
      ShlPow2(0, i * 12);
      DisjointBelow(mask, 12 * i);
      OrDisjoint(mask, Pow2(12 * i));
      mask := Or(mask, Shl(1, i * 12));
      i := i + 1;
    }
    forall j: nat ensures Bit(mask, j) <==> j % 12 == 0 && j / 12 < rows { RightMaskBit(rows, j); }
  }

  // ---------------------------------------------------------------------------
  // The masks of the 12 x 22 play field

  function Bottom(): nat { BottomMask(COLUMNS) }
  function Right(): nat { RightMask(ROWS) }
  function Left(): nat { LeftMask(COLUMNS, ROWS) }
  function Top(): nat { TopMask(COLUMNS, ROWS) }
  function AllBorders(): nat { AllMask(COLUMNS, ROWS) }

  /** The floor is exactly row 0. */
  lemma BottomBit(i: nat)
    ensures Bit(Bottom(), i) <==> i < COLUMNS
  {
    BottomMaskBit(COLUMNS, i);
  }

  /** The right wall is column 0 of each of the 22 rows. */
  lemma RightBit(i: nat)
    ensures Bit(Right(), i) <==> i % COLUMNS == 0 && i < COLUMNS * ROWS
  {
    RightMaskBit(ROWS, i);
  }

  /** The left wall is column 11 of each of the 22 rows. */
  lemma LeftBit(i: nat)
    ensures Bit(Left(), i) <==> i % COLUMNS == COLUMNS - 1 && i < COLUMNS * ROWS
  {
    LeftMaskAt12(COLUMNS, ROWS, i);
  }

  /** The top border is exactly the topmost row, row 21. */
  lemma TopBit(i: nat)
    ensures Bit(Top(), i) <==> COLUMNS * (ROWS - 1) <= i < COLUMNS * ROWS
  {
    TopMaskAt(COLUMNS, ROWS, i);
  }

  /** With 12 columns, `left_border` marks column 11 of every row. */
  lemma LeftMaskAt12(columns: nat, rows: nat, i: nat)
    requires columns == 12
    ensures Bit(LeftMask(columns, rows), i) <==> i % 12 == 11 && i < 12 * rows
  {
  }

  lemma TopMaskAt(columns: nat, rows: nat, i: nat)
    requires rows >= 1
    ensures Bit(TopMask(columns, rows), i) <==> columns * (rows - 1) <= i < columns * rows
  {
  }

  /** With 12 columns every border bit lies inside the rows * columns field. */
  lemma {:induction false} AllBordersInside(columns: nat, rows: nat)
    requires columns == 12 && rows >= 1
    ensures AllMask(columns, rows) < Pow2(columns * rows)
  {
    var a := AllMask(columns, rows);
    forall i: nat | Bit(a, i) ensures i < columns * rows {
      RightMaskBit(rows, i);
      BottomMaskBit(columns, i);
      LeftMaskAt12(columns, rows, i);
      TopMaskAt(columns, rows, i);
    }
    BelowPow2(a, columns * rows);
  }

  // ---------------------------------------------------------------------------
  // arrangement_to_bit

  /** A tile counts as filled when it is not 0. */
  function TileBit(tile: int): (b: nat)
    ensures b <= 1 && (b == 1 <==> tile != 0)
  {
    if tile == 0 then 0 else 1
  }

  /** The pattern the inner loop builds from one row: the first element is the most significant bit. */
  function RowBits(row: seq<int>): nat
  {
    if row == [] then 0 else 2 * RowBits(row[..|row| - 1]) + TileBit(row[|row| - 1])
  }

  /** The value the outer loop builds: each row shifts what came before up by `width` bits. */
  function Packed(arrangement: seq<seq<int>>, width: nat): nat
  {
    if arrangement == [] then 0
    else Or(Shl(Packed(arrangement[..|arrangement| - 1], width), width), RowBits(arrangement[|arrangement| - 1]))
  }

  /** The tile `r` rows from the bottom and `c` columns from the right of the arrangement is filled. */
  predicate Filled(arrangement: seq<seq<int>>, r: nat, c: nat)
  {
    r < |arrangement| &&
    var row := arrangement[|arrangement| - 1 - r];
    c < |row| && row[|row| - 1 - c] != 0
  }

  /** Number of filled tiles in a row and in an arrangement. */
  function RowCount(row: seq<int>): nat
  {
    if row == [] then 0 else TileBit(row[0]) + RowCount(row[1..])
  }

  function CellCount(arrangement: seq<seq<int>>): nat
  {
    if arrangement == [] then 0 else RowCount(arrangement[0]) + CellCount(arrangement[1..])
  }

  lemma {:induction false} RowCountSnoc(row: seq<int>)
    requires row != []
    ensures RowCount(row) == RowCount(row[..|row| - 1]) + TileBit(row[|row| - 1])
  {
    if |row| > 1 {
      RowCountSnoc(row[1..]);
      assert row[1..][..|row| - 2] == row[..|row| - 1][1..];
    }
  }

  lemma {:induction false} CellCountSnoc(arrangement: seq<seq<int>>)
    requires arrangement != []
    ensures CellCount(arrangement) ==
      CellCount(arrangement[..|arrangement| - 1]) + RowCount(arrangement[|arrangement| - 1])
  {
    var a := arrangement;
    if |a| > 1 {
      CellCountSnoc(a[1..]);
      assert a[1..][..|a| - 2] == a[..|a| - 1][1..];
    }
  }

  predicate RowsFit(arrangement: seq<seq<int>>, width: nat)
  {
    forall k | 0 <= k < |arrangement| :: |arrangement[k]| <= width
  }

  /** `arrangement_to_bit`, with the row stride as a parameter: the shown definition shifts by the
      literal 12, which is the behaviour at width 12. */
  method ArrangementToBit(arrangement: seq<seq<int>>, width: nat) returns (bit: nat)
    ensures bit == Packed(arrangement, width)
  {
    bit := 0;
    var r := 0;
    while r < |arrangement|
      invariant 0 <= r <= |arrangement|
      invariant bit == Packed(arrangement[..r], width)
    {
      var row := arrangement[r];
      bit := Shl(bit, width);
      var rowBit := 0;
      var c := 0;
      while c < |row|
        invariant 0 <= c <= |row|
        invariant rowBit == RowBits(row[..c])
      {
        assert row[..c + 1][..c] == row[..c];
        assert RowBits(row[..c + 1]) == 2 * rowBit + TileBit(row[c]);
        assert Shl(rowBit, 0) == rowBit;
        rowBit := Shl(rowBit, 1);
        if row[c] != 0 {
          BitsEqual(Or(rowBit, 1), rowBit + 1) by {
            forall i: nat ensures Bit(Or(rowBit, 1), i) == Bit(rowBit + 1, i) {
              BitOr(rowBit, 1, i);
              if i > 0 { BitHalf(rowBit, i - 1); BitHalf(rowBit + 1, i - 1); BitHalf(1, i - 1); BitZero(i - 1); }
            }
          }
          rowBit := Or(rowBit, 1);
        }
        c := c + 1;
      }
      assert row[..c] == row;
      assert arrangement[..r + 1][..r] == arrangement[..r];
      bit := Or(bit, rowBit);
      r := r + 1;
    }
    assert arrangement[..r] == arrangement;
  }

  lemma {:induction false} RowBitsBit(row: seq<int>, c: nat)
    ensures Bit(RowBits(row), c) <==> c < |row| && row[|row| - 1 - c] != 0
    ensures RowBits(row) < Pow2(|row|)
  {
    if row == [] {
      BitZero(c);
    } else {
      var init := row[..|row| - 1];
      RowBitsBit(init, 0);
      if c > 0 {
        RowBitsBit(init, c - 1);
        BitHalf(RowBits(row), c - 1);
      }
    }
  }

  lemma {:induction false} RowCountPopcount(row: seq<int>)
    ensures Popcount(RowBits(row)) == RowCount(row)
  {
    if row != [] {
      RowCountPopcount(row[..|row| - 1]);
      RowCountSnoc(row);
    }
  }

  /** A shifted value and a value below the shift have no bit in common. */
  lemma ShlDisjoint(x: nat, y: nat, k: nat)
    requires y < Pow2(k)
    ensures And(Shl(x, k), y) == 0
  {
    BelowPow2(y, k);
    forall i: nat ensures Bit(And(Shl(x, k), y), i) == Bit(0, i) {
      BitAnd(Shl(x, k), y, i);
      BitShl(x, k, i);
      BitZero(i);
    }
    BitsEqual(And(Shl(x, k), y), 0);
  }

  /** `arrangement_to_bit` at width 12: the last row of the arrangement is the lowest 12-bit block,
      each earlier row sits 12 bits higher, and within a row the first element is the highest bit. */
  lemma {:induction false} PackedBit(arrangement: seq<seq<int>>, width: nat, i: nat)
    requires width == COLUMNS && RowsFit(arrangement, width)
    ensures Bit(Packed(arrangement, width), i) <==> Filled(arrangement, i / 12, i % 12)
  {
    if arrangement == [] {
      BitZero(i);
    } else {
      var init, last := arrangement[..|arrangement| - 1], arrangement[|arrangement| - 1];
      BitOr(Shl(Packed(init, width), width), RowBits(last), i);
      BitShl(Packed(init, width), width, i);
      RowBitsBit(last, i);
      if i >= 12 {
        PackedBit(init, width, i - 12);
        assert (i - 12) / 12 == i / 12 - 1 && (i - 12) % 12 == i % 12;
      }
    }
  }

  /** When no row is wider than the stride, the packed board has one set bit per filled tile. */
  lemma {:induction false} PackedPopcount(arrangement: seq<seq<int>>, width: nat)
    requires RowsFit(arrangement, width)
    ensures Popcount(Packed(arrangement, width)) == CellCount(arrangement)
  {
    if arrangement != [] {
      var init, last := arrangement[..|arrangement| - 1], arrangement[|arrangement| - 1];
      PackedPopcount(init, width);
      RowBitsBit(last, 0);
      Pow2Monotone(|last|, width);
      ShlDisjoint(Packed(init, width), RowBits(last), width);
      OrDisjoint(Shl(Packed(init, width), width), RowBits(last));
      PopcountDisjoint(Shl(Packed(init, width), width), RowBits(last));
      PopcountShl(Packed(init, width), width);
      RowCountPopcount(last);
      CellCountSnoc(arrangement);
    }
  }

  // ---------------------------------------------------------------------------
  // decompose_bits

  /** The set bits of `x` below position `k`, each as its own power of two, lowest first. */
  function Singles(x: nat, k: nat): seq<nat>
  {
    if k == 0 then [] else Singles(x, k - 1) + (if Bit(x, k - 1) then [Pow2(k - 1)] else [])
  }

  /** What `decompose_bits(x)` returns. */
  function Decompose(x: nat): seq<nat>
  {
    Singles(x, BitLength(x))
  }

  function Sum(s: seq<nat>): nat
  {
    if s == [] then 0 else Sum(s[..|s| - 1]) + s[|s| - 1]
  }

  lemma {:induction false} BitLengthBound(x: nat, k: nat)
    ensures x < Pow2(k) <==> BitLength(x) <= k
  {
    if x > 0 && k > 0 {
      BitLengthBound(x / 2, k - 1);
    }
  }

  lemma BitBelowLength(x: nat, i: nat)
    requires Bit(x, i)
    ensures i < BitLength(x)
  {
    BitLengthBound(x, BitLength(x));
    BelowPow2(x, BitLength(x));
  }

  /** `i & x` for a single bit `i = 2^k` is `i` when bit k of x is set and 0 otherwise. */
  lemma AndPow2(x: nat, k: nat)
    ensures And(Pow2(k), x) == if Bit(x, k) then Pow2(k) else 0
  {
    var v := if Bit(x, k) then Pow2(k) else 0;
    forall i: nat ensures Bit(And(Pow2(k), x), i) == Bit(v, i) {
      BitAnd(Pow2(k), x, i);
      BitPow2(k, i);
      BitZero(i);
    }
    BitsEqual(And(Pow2(k), x), v);
  }

  /** The loop of `decompose_bits`: `i` runs over 1, 2, 4, ... while `i <= x`. */
  method DecomposeBits(x: nat) returns (bits: seq<nat>)
    ensures bits == Decompose(x)
  {
    bits := [];
    var i: nat := 1;
    ghost var k: nat := 0;
    while i <= x
      invariant i == Pow2(k) && k <= BitLength(x)
      invariant bits == Singles(x, k)
      decreases BitLength(x) - k
    {
      BitLengthBound(x, k);
      AndPow2(x, k);
      var bit := And(i, x);
      if bit != 0 {
        bits := bits + [bit];
      }
      ShlPow2(k, 1);
      i := Shl(i, 1);
      k := k + 1;
    }
    BitLengthBound(x, k);
  }

  lemma {:induction false} SinglesBelow(x: nat, k: nat)
    ensures forall j | 0 <= j < |Singles(x, k)| :: Singles(x, k)[j] < Pow2(k)
    ensures forall a, b | 0 <= a < b < |Singles(x, k)| :: Singles(x, k)[a] < Singles(x, k)[b]
  {
    if k > 0 {
      SinglesBelow(x, k - 1);
      Pow2Less(k - 1, k);
    }
  }

  lemma {:induction false} SinglesMember(x: nat, k: nat)
    ensures forall j | 0 <= j < |Singles(x, k)| ::
      IsPow2(Singles(x, k)[j]) && Bit(x, Log2(Singles(x, k)[j])) && Log2(Singles(x, k)[j]) < k
    ensures forall n: nat | n < k && Bit(x, n) :: Pow2(n) in Singles(x, k)
  {
    if k > 0 {
      SinglesMember(x, k - 1);
      Pow2IsPow2(k - 1);
    }
  }

  lemma {:induction false} LowBitsStep(x: nat, k: nat)
    requires k > 0
    ensures LowBits(x, k) == LowBits(x, k - 1) + (if Bit(x, k - 1) then Pow2(k - 1) else 0)
  {
    if k > 1 {
      LowBitsStep(x / 2, k - 1);
      BitHalf(x, k - 2);
    }
  }

  lemma LowBitsBelow(x: nat, k: nat)
    ensures LowBits(x, k) < Pow2(k)
  {
    forall i: nat | Bit(LowBits(x, k), i) ensures i < k { BitLow(x, k, i); }
    BelowPow2(LowBits(x, k), k);
  }

  lemma {:induction false} SinglesSum(x: nat, k: nat)
    ensures Sum(Singles(x, k)) == LowBits(x, k)
    ensures |Singles(x, k)| == Popcount(LowBits(x, k))
  {
    if k > 0 {
      SinglesSum(x, k - 1);
      LowBitsStep(x, k);
      var s := Singles(x, k);
      if Bit(x, k - 1) {
        assert s[..|s| - 1] == Singles(x, k - 1);
        assert Sum(s) == Sum(Singles(x, k - 1)) + Pow2(k - 1);
        LowBitsBelow(x, k - 1);
        DisjointBelow(LowBits(x, k - 1), k - 1);
        PopcountDisjoint(LowBits(x, k - 1), Pow2(k - 1));
        PopcountPow2(k - 1);
      } else {
        assert s == Singles(x, k - 1);
      }
    }
  }

  lemma LowBitsAll(x: nat)
    ensures LowBits(x, BitLength(x)) == x
  {
    forall i: nat ensures Bit(LowBits(x, BitLength(x)), i) == Bit(x, i) {
      BitLow(x, BitLength(x), i);
      if Bit(x, i) { BitBelowLength(x, i); }
    }
    BitsEqual(LowBits(x, BitLength(x)), x);
  }

  /** `decompose_bits(x)` is the list of the single set bits of x: powers of two, strictly ascending,
      one per set bit (so its length is the popcount and it is empty for 0), summing to x. */
  lemma DecomposeSpec(x: nat)
    ensures forall j | 0 <= j < |Decompose(x)| :: IsPow2(Decompose(x)[j]) && Bit(x, Log2(Decompose(x)[j]))
    ensures forall n: nat | Bit(x, n) :: Pow2(n) in Decompose(x)
    ensures forall a, b | 0 <= a < b < |Decompose(x)| :: Decompose(x)[a] < Decompose(x)[b]
    ensures Sum(Decompose(x)) == x
    ensures |Decompose(x)| == Popcount(x)
  {
    DecomposeAscending(x);
    SinglesMember(x, BitLength(x));
    forall n: nat | Bit(x, n) ensures n < BitLength(x) { BitBelowLength(x, n); }
    DecomposeLength(x);
  }

  lemma DecomposeAscending(x: nat)
    ensures forall a, b | 0 <= a < b < |Decompose(x)| :: Decompose(x)[a] < Decompose(x)[b]
  {
    SinglesBelow(x, BitLength(x));
  }

  lemma DecomposeLength(x: nat)
    ensures Sum(Decompose(x)) == x
    ensures |Decompose(x)| == Popcount(x)
  {
    SinglesSum(x, BitLength(x));
    LowBitsAll(x);
  }
}
