/** The falling piece of src/tetriminos.py (`Tetrimino`): its bitboard on the 12 x 22 field, its
    rotation counter, its locked flag and its tiles, a map from single-bit cells to the piece's colour. */
module Pieces {
  import opened Bits
  import opened Bitboard
  import opened Shapes
  import opened ShapeQueue

  /** `columns * (rows - 1) - columns // 2 - 2` with the default 12 x 22 field. */
  const SPAWN_SHIFT: nat := COLUMNS * (ROWS - 1) - COLUMNS / 2 - 2

  /** The tiles dictionary built from a list of cells, all of one colour. */
  function TilesOf(bits: seq<nat>, c: Color): map<nat, Color>
  {
    map b | b in bits :: c
  }

  function Min(a: nat, b: nat): nat
  {
    if a <= b then a else b
  }

  /** The distinct entries of a list. */
  function Elems(s: seq<nat>): set<nat>
  {
    set x | x in s
  }

  /** What `update_tiles` makes of `n` tiles of colour `c` on `board`: Python's `zip` pairs them
      with the board's set bits, lowest first, so there are as many as both have. */
  function Rekeyed(board: nat, n: nat, c: Color): (r: map<nat, Color>)
    ensures |r| == Min(Popcount(board), n)
    ensures forall b | b in r :: r[b] == c && b in Decompose(board)
  {
    DecomposeLength(board);
    PrefixTiles(board, Min(|Decompose(board)|, n), c);
    TilesOf(Decompose(board)[..Min(|Decompose(board)|, n)], c)
  }

  /** Re-keying twice, the second time onto a board with no more set bits than the first, is
      re-keying once. */
  lemma RekeyedAgain(first: nat, second: nat, n: nat, c: Color)
    requires Popcount(second) <= Popcount(first)
    ensures Rekeyed(second, |Rekeyed(first, n, c)|, c) == Rekeyed(second, n, c)
  {
    DecomposeLength(second);
  }

  /** A strictly ascending list has as many distinct elements as entries. */
  lemma {:induction false} AscendingCard(s: seq<nat>)
    requires forall a, b | 0 <= a < b < |s| :: s[a] < s[b]
    ensures |Elems(s)| == |s|
  {
    if s != [] {
      var init, last := s[..|s| - 1], s[|s| - 1];
      AscendingCard(init);
      var elems := Elems(init);
      assert last !in elems;
      assert Elems(s) == elems + {last};
      assert elems * {last} == {};
      assert |elems + {last}| == |elems| + 1;
    }
  }

  /** The piece's tiles sit on distinct set bits of its board, so there are at most popcount of them. */
  lemma TilesBound(tiles: map<nat, Color>, board: nat)
    requires forall b | b in tiles :: b in Decompose(board)
    ensures |tiles| <= Popcount(board)
  {
    DecomposeLength(board);
    DecomposeAscending(board);
    AscendingCard(Decompose(board));
    SubsetCard(tiles.Keys, Elems(Decompose(board)));
  }

  /** The first n entries of `decompose_bits(board)`, all of colour c, keyed by their cell, make n tiles. */
  lemma PrefixTiles(board: nat, n: nat, c: Color)
    requires n <= |Decompose(board)|
    ensures |TilesOf(Decompose(board)[..n], c)| == n
    ensures forall b | b in TilesOf(Decompose(board)[..n], c) :: b in Decompose(board)
  {
    var d := Decompose(board)[..n];
    DecomposeAscending(board);
    AscendingCard(d);
    assert TilesOf(d, c).Keys == Elems(d);
  }

  /** `a` is `b` shifted left by `s` bits (right by `-s` when `s` is negative) with no set bit lost. */
  ghost predicate IsShiftBy(a: nat, b: nat, s: int)
  {
    (forall i: nat :: Bit(a, i) <==> i - s >= 0 && Bit(b, i - s)) &&
    (forall j: nat :: Bit(b, j) ==> j + s >= 0)
  }

  /** `a` is non-empty and compares with `b` the way a shift by `s` says it should. */
  predicate Compares(a: nat, b: nat, s: int)
  {
    a != 0 && (s > 0 ==> a > b) && (s == 0 ==> a == b) && (s < 0 ==> a < b)
  }

  /** A shift of a non-empty board compares with the board the way the shift distance says. */
  lemma ShiftCompare(a: nat, b: nat, s: int)
    requires b != 0 && IsShiftBy(a, b, s)
    ensures Compares(a, b, s)
  {
    if s >= 0 {
      forall i: nat ensures Bit(a, i) == Bit(Shl(b, s), i) { BitShl(b, s, i); }
      BitsEqual(a, Shl(b, s));
      if s > 0 { ShlGrows(b, s); }
    } else {
      var i := NonZeroHasBit(b);
      forall j: nat ensures Bit(b, j) == Bit(Shl(a, -s), j) { BitShl(a, -s, j); }
      BitsEqual(b, Shl(a, -s));
      assert Bit(a, i + s);
      BitZero(i + s);
      ShlGrows(a, -s);
    }
  }

  /** One step of the recovery loop moves the board one bit towards the compared board. */
  lemma ShiftStep(a: nat, b: nat, s: int)
    requires b != 0 && IsShiftBy(a, b, s)
    ensures s > 0 ==> IsShiftBy(Shr(a, 1), b, s - 1) && Compares(Shr(a, 1), b, s - 1)
    ensures s < 0 ==> IsShiftBy(Shl(a, 1), b, s + 1) && Compares(Shl(a, 1), b, s + 1)
  {
    if s > 0 {
      BitShrAll(a, 1);
      assert IsShiftBy(Shr(a, 1), b, s - 1);
      ShiftCompare(Shr(a, 1), b, s - 1);
    } else if s < 0 {
      BitShlAll(a, 1);
      assert IsShiftBy(Shl(a, 1), b, s + 1);
      ShiftCompare(Shl(a, 1), b, s + 1);
    }
  }

  /** Dropping an empty bottom row keeps the board a shift of the compared board, twelve bits closer. */
  lemma DropEmptyRow(a: nat, b: nat, s: int, columns: nat)
    requires columns == COLUMNS
    requires b != 0 && IsShiftBy(a, b, s) && And(a, Bottom()) == 0
    ensures IsShiftBy(Shr(a, columns), b, s - columns) && Compares(Shr(a, columns), b, s - columns)
    ensures Shr(a, columns) < a
  {
    forall i: nat | Bit(a, i) ensures i >= columns {
      BitAnd(a, Bottom(), i);
      BottomBit(i);
      BitZero(i);
    }
    forall j: nat | Bit(b, j) ensures j + s - columns >= 0 {
      assert Bit(a, j + s);
    }
    BitShrAll(a, columns);
    ShiftCompare(a, b, s);
    ShrLess(a, columns);
    ShiftCompare(Shr(a, columns), b, s - columns);
  }

  /** The shift that turns `b` into `a` is unique when `b` is not empty. */
  lemma ShiftUnique(a: nat, b: nat, s: int, t: int)
    requires b != 0 && IsShiftBy(a, b, s) && IsShiftBy(a, b, t)
    ensures s == t
  {
    var m := LowestBit(b);
    assert Bit(a, m + s) && Bit(a, m + t);
  }

  /** The position of the lowest set bit of a non-zero board. */
  lemma {:induction false} LowestBit(x: nat) returns (m: nat)
    requires x != 0
    ensures Bit(x, m) && forall i: nat :: i < m ==> !Bit(x, i)
  {
    if x % 2 == 1 {
      m := 0;
    } else {
      var m' := LowestBit(x / 2);
      m := m' + 1;
      BitHalf(x, m');
      forall i: nat | i < m ensures !Bit(x, i) {
        if i > 0 { BitHalf(x, i - 1); }
      }
    }
  }

  /** The outcome of `rotated_bitboard <<= shift`: a negative count raises ValueError in Python. */
  datatype Shifted = Shifted(board: nat) | NegativeShift

  class Tetrimino {
    var shape: Shape
    var tile: Color
    var bitboard: nat
    var rotation: nat
    var locked: bool
    var tiles: map<nat, Color>
    const columns: nat
    const rows: nat

    /** The rotation counter is in 0..3, and every tile is one of the piece's set bits in its colour. */
    ghost predicate Valid()
      reads this
    {
      columns == COLUMNS && rows == ROWS && rotation < 4 &&
      forall b | b in tiles :: tiles[b] == tile && b in Decompose(bitboard)
    }

    /** `Tetrimino(shape, tile, ...)` with the default 12 columns: packs the arrangement and gives
        each set bit a copy of the tile. */
    constructor (shape: Shape, tile: Color)
      ensures Valid()
      ensures this.shape == shape && this.tile == tile && rotation == 0 && !locked
      ensures bitboard == Packed(Arrangement(shape), COLUMNS)
      ensures tiles == TilesOf(Decompose(bitboard), tile) && |tiles| == 4
    {
      var board := ArrangementToBit(Arrangement(shape), COLUMNS);
      var bits := DecomposeBits(board);
      var t: map<nat, Color> := map[];
      var i := 0;
      while i < |bits|
        invariant 0 <= i <= |bits|
        invariant t == TilesOf(bits[..i], tile)
      {
        assert bits[..i + 1] == bits[..i] + [bits[i]];
        t := t[bits[i] := tile];
        i := i + 1;
      }
      assert bits[..i] == bits;
      this.shape, this.tile, bitboard, rotation, locked, tiles := shape, tile, board, 0, false, t;
      columns, rows := COLUMNS, ROWS;
      ShapeBits(shape);
      DecomposeLength(board);
      PrefixTiles(board, |bits|, tile);
    }

    /** `update_tiles`: re-keys the tiles onto the board's set bits, lowest first, keeping as many
        tiles as both lists have (Python's `zip`). */
    method UpdateTiles()
      requires forall b | b in tiles :: tiles[b] == tile
      modifies this
      ensures bitboard == old(bitboard) && shape == old(shape) && tile == old(tile)
      ensures rotation == old(rotation) && locked == old(locked)
      ensures tiles == Rekeyed(bitboard, old(|tiles|), tile)
      ensures |tiles| == Min(Popcount(bitboard), old(|tiles|))
      ensures forall b | b in tiles :: tiles[b] == tile && b in Decompose(bitboard)
    {
      var bits := DecomposeBits(bitboard);
      DecomposeLength(bitboard);
      var n := |tiles|;
      var t: map<nat, Color> := map[];
      var i := 0;
      while i < |bits| && i < n
        invariant 0 <= i <= |bits| && i <= n
        invariant t == TilesOf(bits[..i], tile)
      {
        assert bits[..i + 1] == bits[..i] + [bits[i]];
        t := t[bits[i] := tile];
        i := i + 1;
      }
      tiles := t;
      PrefixTiles(bitboard, i, tile);
    }

    /** `move_to_start`: shifts the piece to its spawn position near the top middle of the field. */
    method MoveToStart()
      requires Valid()
      modifies this
      ensures Valid() && shape == old(shape) && tile == old(tile)
      ensures rotation == old(rotation) && locked == old(locked)
      ensures bitboard == Shl(old(bitboard), SPAWN_SHIFT)
      ensures tiles == Rekeyed(bitboard, old(|tiles|), tile) && |tiles| == old(|tiles|)
    {
      TilesBound(tiles, bitboard);
      PopcountShl(bitboard, SPAWN_SHIFT);
      bitboard := Shl(bitboard, columns * (rows - 1) - columns / 2 - 2);
      UpdateTiles();
    }

    /** `move_down`: one row down. */
    method MoveDown()
      requires Valid()
      modifies this
      ensures Valid() && shape == old(shape) && tile == old(tile)
      ensures rotation == old(rotation) && locked == old(locked)
      ensures bitboard == Shr(old(bitboard), columns)
      ensures tiles == Rekeyed(bitboard, old(|tiles|), tile)
      ensures Popcount(bitboard) == Popcount(old(bitboard)) ==> |tiles| == old(|tiles|)
    {
      TilesBound(tiles, bitboard);
      bitboard := Shr(bitboard, columns);
      UpdateTiles();
    }

    /** `move_left`: one column left (towards the higher bit). */
    method MoveLeft()
      requires Valid()
      modifies this
      ensures Valid() && shape == old(shape) && tile == old(tile)
      ensures rotation == old(rotation) && locked == old(locked)
      ensures bitboard == Shl(old(bitboard), 1)
      ensures tiles == Rekeyed(bitboard, old(|tiles|), tile) && |tiles| == old(|tiles|)
    {
      TilesBound(tiles, bitboard);
      PopcountShl(bitboard, 1);
      bitboard := Shl(bitboard, 1);
      UpdateTiles();
    }

    /** `move_right`: one column right (towards the lower bit). */
    method MoveRight()
      requires Valid()
      modifies this
      ensures Valid() && shape == old(shape) && tile == old(tile)
      ensures rotation == old(rotation) && locked == old(locked)
      ensures bitboard == Shr(old(bitboard), 1)
      ensures tiles == Rekeyed(bitboard, old(|tiles|), tile)
      ensures Popcount(bitboard) == Popcount(old(bitboard)) ==> |tiles| == old(|tiles|)
    {
      TilesBound(tiles, bitboard);
      bitboard := Shr(bitboard, 1);
      UpdateTiles();
    }

    /** `set_rotate`: installs the rotated board and advances the rotation counter cyclically. */
    method SetRotate(board: nat)
      requires Valid()
      modifies this
      ensures Valid() && shape == old(shape) && tile == old(tile) && locked == old(locked)
      ensures bitboard == board
      ensures rotation == (old(rotation) + 1) % 4
      ensures tiles == Rekeyed(board, old(|tiles|), tile)
      ensures Popcount(board) >= old(|tiles|) ==> |tiles| == old(|tiles|)
    {
      bitboard := board;
      rotation := rotation + 1;
      if rotation > 3 {
        rotation := 0;
      }
      UpdateTiles();
    }

    /** The shift-recovery part of `test_rotate`. `compare` is the piece's arrangement in its current
        rotation widened to 12 columns and `rotated` the same for the next rotation (both come from
        functions outside this model); the live board must be `compare` shifted by `offset`. The
        method finds that shift by first dropping empty bottom rows and then stepping one bit at a
        time, and applies it to `rotated`. It assigns no field. */
    method TestRotate(compare: nat, rotated: nat, ghost offset: int) returns (r: Shifted)
      requires columns == COLUMNS
      requires compare != 0 && IsShiftBy(bitboard, compare, offset)
      ensures r == if offset >= 0 then Shifted(Shl(rotated, offset)) else NegativeShift
    {
      var board: nat := bitboard;
      var shift: int := 0;
      var cols: nat := columns;
      ShiftCompare(board, compare, offset);
      while And(board, Bottom()) == 0
        invariant IsShiftBy(board, compare, offset - shift) && Compares(board, compare, offset - shift)
        decreases board
      {
        ghost var rest := offset - shift;
        DropEmptyRow(board, compare, rest, cols);
        board := Shr(board, cols);
        shift := shift + cols;
        assert offset - shift == rest - cols;
      }
      while board != compare
        invariant IsShiftBy(board, compare, offset - shift) && Compares(board, compare, offset - shift)
        decreases if offset - shift >= 0 then offset - shift else shift - offset
      {
        ghost var rest := offset - shift;
        ShiftStep(board, compare, rest);
        if board > compare {
          board := Shr(board, 1);
          shift := shift + 1;
        } else {
          board := Shl(board, 1);
          shift := shift - 1;
        }
      }
      if shift >= 0 {
        r := Shifted(Shl(rotated, shift));
      } else {
        r := NegativeShift;
      }
    }
  }
}
