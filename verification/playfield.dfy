/** The board algebra behind `Game` in src/tetriminos.py and `Tetriminos` in src/main.py: the
    collision tests, the placed-tile board, the line filters of `clear_lines` and the rotation kick.
    Placed tiles are a map from single-bit cell values to a colour, as in `Game.tiles`. */
module Playfield {
  import opened Bits
  import opened Bitboard
  import opened ShapeQueue

  // ---------------------------------------------------------------------------
  // Collision tests (`collide`, `collide_left`, `collide_right`, `collide_bottom`)

  /** One shared cell is a collision. */
  lemma CollideAt(a: nat, b: nat, i: nat)
    requires Bit(a, i) && Bit(b, i)
    ensures Collide(a, b)
  {
    CollideIff(a, b);
  }

  /** A board shifted left by k bits meets `obj` exactly when some set bit i of the board has bit
      i + k set in `obj`. */
  lemma ShlHit(x: nat, obj: nat, k: nat)
    ensures Collide(Shl(x, k), obj) <==> exists i: nat :: Bit(x, i) && Bit(obj, i + k)
  {
    BitShlAll(x, k);
    if Collide(Shl(x, k), obj) {
      CollideIff(Shl(x, k), obj);
      var j: nat :| Bit(Shl(x, k), j) && Bit(obj, j);
      var i: nat := j - k;
      assert Bit(x, i) && Bit(obj, i + k);
      assert exists i: nat :: Bit(x, i) && Bit(obj, i + k);
    } else if exists i: nat :: Bit(x, i) && Bit(obj, i + k) {
      var i: nat :| Bit(x, i) && Bit(obj, i + k);
      CollideAt(Shl(x, k), obj, i + k);
    }
  }

  /** A board shifted right by k bits meets `obj` exactly when some set bit i + k of the board
      lands on a set bit i of `obj`. */
  lemma ShrHit(x: nat, obj: nat, k: nat)
    ensures Collide(Shr(x, k), obj) <==> exists i: nat :: Bit(x, i + k) && Bit(obj, i)
  {
    CollideIff(Shr(x, k), obj);
    BitShrAll(x, k);
  }

  /** `collide_left`: the piece moved one column left overlaps `obj`. */
  function CollideLeft(bitboard: nat, obj: nat): bool
  {
    Collide(Shl(bitboard, 1), obj)
  }

  /** `collide_right`: the piece moved one column right overlaps `obj`. */
  function CollideRight(bitboard: nat, obj: nat): bool
  {
    Collide(Shr(bitboard, 1), obj)
  }

  /** `collide_bottom`: the piece moved one row down overlaps `obj`. */
  function CollideBottom(bitboard: nat, obj: nat): bool
  {
    Collide(Shr(bitboard, COLUMNS), obj)
  }

  /** `collide_left` holds exactly when some cell of the piece has a cell of `obj` just to its left. */
  lemma CollideLeftBits(bitboard: nat, obj: nat)
    ensures CollideLeft(bitboard, obj) <==> exists i: nat :: Bit(bitboard, i) && Bit(obj, i + 1)
  {
    ShlHit(bitboard, obj, 1);
  }

  /** `collide_right` holds exactly when some cell of the piece has a cell of `obj` just to its right. */
  lemma CollideRightBits(bitboard: nat, obj: nat)
    ensures CollideRight(bitboard, obj) <==> exists i: nat :: Bit(bitboard, i + 1) && Bit(obj, i)
  {
    ShrHit(bitboard, obj, 1);
  }

  /** `collide_bottom` holds exactly when some cell of the piece has a cell of `obj` just below it. */
  lemma CollideBottomBits(bitboard: nat, obj: nat)
    ensures CollideBottom(bitboard, obj) <==> exists i: nat :: Bit(bitboard, i + COLUMNS) && Bit(obj, i)
  {
    ShrHit(bitboard, obj, COLUMNS);
  }

  // ---------------------------------------------------------------------------
  // The placed-tile board

  /** Every key of the tile map is a single cell. */
  ghost predicate SingleCells(tiles: map<nat, Color>)
  {
    forall b | b in tiles :: IsPow2(b)
  }

  /** The OR of a finite set of boards. */
  ghost function Union(boards: set<nat>): nat
    decreases boards
  {
    if boards == {} then 0
    else
      var b :| b in boards;
      Or(b, Union(boards - {b}))
  }

  lemma {:induction false} UnionBit(boards: set<nat>, i: nat)
    ensures Bit(Union(boards), i) <==> exists b :: b in boards && Bit(b, i)
    decreases boards
  {
    if boards == {} {
      BitZero(i);
    } else {
      var b :| b in boards && Union(boards) == Or(b, Union(boards - {b}));
      UnionBit(boards - {b}, i);
      BitOr(b, Union(boards - {b}), i);
    }
  }

  /** With single-cell keys, cell i of the placed board is set exactly when `1 << i` is a key. */
  lemma PlacedBit(tiles: map<nat, Color>, i: nat)
    requires SingleCells(tiles)
    ensures Bit(Union(tiles.Keys), i) <==> Pow2(i) in tiles
  {
    UnionBit(tiles.Keys, i);
    BitPow2(i, i);
    if exists b :: b in tiles.Keys && Bit(b, i) {
      var b :| b in tiles.Keys && Bit(b, i);
      IsPow2Exactly(b);
      BitPow2(Log2(b), i);
    }
  }

  /** Checking the tiles one at a time finds a hit exactly when the union of the tiles is hit. */
  lemma HitsAnyTile(zone: nat, tiles: map<nat, Color>)
    ensures (exists b :: b in tiles && Collide(zone, b)) <==> Collide(zone, Union(tiles.Keys))
  {
    CollideIff(zone, Union(tiles.Keys));
    forall i: nat ensures Bit(Union(tiles.Keys), i) <==> exists b :: b in tiles.Keys && Bit(b, i) {
      UnionBit(tiles.Keys, i);
    }
    if exists b :: b in tiles && Collide(zone, b) {
      var b :| b in tiles && Collide(zone, b);
      CollideIff(zone, b);
      var i: nat :| Bit(zone, i) && Bit(b, i);
      assert Bit(Union(tiles.Keys), i);
    }
    if Collide(zone, Union(tiles.Keys)) {
      var i: nat :| Bit(zone, i) && Bit(Union(tiles.Keys), i);
      var b :| b in tiles.Keys && Bit(b, i);
      CollideAt(zone, b, i);
    }
  }

  /** A move test that checks a wall and then each placed tile in turn is the same as one test
      against the wall and the placed board together. */
  lemma BlockedIsBoardHit(zone: nat, wall: nat, tiles: map<nat, Color>)
    ensures (Collide(zone, wall) || exists k :: k in tiles && Collide(zone, k)) <==>
      Collide(zone, Or(wall, Union(tiles.Keys)))
  {
    HitsAnyTile(zone, tiles);
    CollideOr(zone, wall, Union(tiles.Keys));
  }

  /** One more tile OR-ed into the running board of `get_full_board`. */
  lemma UnionInsert(start: nat, done: set<nat>, b: nat)
    requires b !in done
    ensures Or(Or(start, Union(done)), b) == Or(start, Union(done + {b}))
  {
    forall i: nat ensures Bit(Or(Or(start, Union(done)), b), i) == Bit(Or(start, Union(done + {b})), i) {
      BitOr(Or(start, Union(done)), b, i);
      BitOr(start, Union(done), i);
      BitOr(start, Union(done + {b}), i);
      UnionBit(done, i);
      UnionBit(done + {b}, i);
    }
    BitsEqual(Or(Or(start, Union(done)), b), Or(start, Union(done + {b})));
  }

  /** The cells of `bottom_border`: row 0. */
  ghost predicate FloorRow(f: nat)
  {
    forall i: nat :: Bit(f, i) <==> i < COLUMNS
  }

  lemma FloorRowCells()
    ensures FloorRow(Bottom())
  {
    forall i: nat ensures Bit(Bottom(), i) <==> i < COLUMNS {
      BottomBit(i);
    }
  }

  /** The cells of `right_border`: column 0 of every row. */
  ghost predicate RightWall(w: nat)
  {
    forall i: nat :: Bit(w, i) <==> i % COLUMNS == 0 && i < COLUMNS * ROWS
  }

  /** The cells of `left_border`: column 11 of every row. */
  ghost predicate LeftWall(w: nat)
  {
    forall i: nat :: Bit(w, i) <==> i % COLUMNS == COLUMNS - 1 && i < COLUMNS * ROWS
  }

  /** The cells of `right_border | left_border`: both side columns of every row. */
  ghost predicate SideWalls(w: nat)
  {
    forall i: nat :: Bit(w, i) <==> (i % COLUMNS == 0 || i % COLUMNS == COLUMNS - 1) && i < COLUMNS * ROWS
  }

  /** The cells of `top_border`: the whole top row. */
  ghost predicate TopRow(t: nat)
  {
    forall i: nat :: Bit(t, i) <==> COLUMNS * (ROWS - 1) <= i < COLUMNS * ROWS
  }

  /** `right_border` has exactly the cells of the right wall, and no other board does. */
  lemma RightWallCells(w: nat)
    ensures RightWall(w) <==> w == Right()
  {
    forall i: nat ensures Bit(Right(), i) <==> i % COLUMNS == 0 && i < COLUMNS * ROWS { RightBit(i); }
    if RightWall(w) { BitsEqual(w, Right()); }
  }

  /** `left_border` has exactly the cells of the left wall, and no other board does. */
  lemma LeftWallCells(w: nat)
    ensures LeftWall(w) <==> w == Left()
  {
    LeftWallOfLeft();
    if LeftWall(w) { BitsEqual(w, Left()); }
  }

  lemma LeftWallOfLeft()
    ensures LeftWall(Left())
  {
    forall i: nat ensures Bit(Left(), i) <==> i % COLUMNS == COLUMNS - 1 && i < COLUMNS * ROWS { LeftBit(i); }
  }

  /** `top_border` has exactly the cells of the top row, and no other board does. */
  lemma TopRowCells(t: nat)
    ensures TopRow(t) <==> t == Top()
  {
    forall i: nat ensures Bit(Top(), i) <==> COLUMNS * (ROWS - 1) <= i < COLUMNS * ROWS { TopBit(i); }
    if TopRow(t) { BitsEqual(t, Top()); }
  }

  /** OR-ing the two walls gives both side columns. */
  lemma WallsBits(right: nat, left: nat)
    requires RightWall(right) && LeftWall(left)
    ensures SideWalls(Or(right, left))
  {
    BitOrAll(right, left);
  }

  /** What `get_full_board` returns: the placed tiles OR-ed onto a starting board, which is the
      side walls or 0. */
  ghost function FullBoard(walls: nat, tiles: map<nat, Color>): nat
  {
    Or(walls, Union(tiles.Keys))
  }

  /** Cell i of the full board with walls is a wall cell or a placed tile. */
  lemma FullBoardBit(walls: nat, tiles: map<nat, Color>, i: nat)
    requires SingleCells(tiles) && SideWalls(walls)
    ensures Bit(FullBoard(walls, tiles), i) <==>
      ((i % COLUMNS == 0 || i % COLUMNS == COLUMNS - 1) && i < COLUMNS * ROWS) || Pow2(i) in tiles
  {
    BitOr(walls, Union(tiles.Keys), i);
    PlacedBit(tiles, i);
  }

  // ---------------------------------------------------------------------------
  // Line filters of `clear_lines`

  /** A filter of h full rows whose lowest row is r. */
  function Band(r: nat, h: nat): nat
  {
    Shl(BottomMask(COLUMNS * h), COLUMNS * r)
  }

  lemma BandBit(r: nat, h: nat, i: nat)
    ensures Bit(Band(r, h), i) <==> COLUMNS * r <= i < COLUMNS * (r + h)
  {
    BitShl(BottomMask(COLUMNS * h), COLUMNS * r, i);
    if i >= COLUMNS * r {
      BottomMaskBit(COLUMNS * h, i - COLUMNS * r);
    }
  }

  lemma BandAll(r: nat, h: nat)
    ensures forall i: nat :: Bit(Band(r, h), i) <==> COLUMNS * r <= i < COLUMNS * (r + h)
  {
    forall i: nat ensures Bit(Band(r, h), i) <==> COLUMNS * r <= i < COLUMNS * (r + h) {
      BandBit(r, h, i);
    }
  }

  /** Every bit of the band lies below the first cell above it. */
  lemma BandBelow(r: nat, h: nat)
    ensures Band(r, h) < Pow2(COLUMNS * (r + h))
  {
    BandAll(r, h);
    BelowPow2(Band(r, h), COLUMNS * (r + h));
  }

  /** A set bit makes a number at least that power of two. */
  lemma BitAtLeast(x: nat, i: nat)
    requires Bit(x, i)
    ensures Pow2(i) <= x
  {
    forall j: nat | Bit(Pow2(i), j) ensures Bit(x, j) { BitPow2(i, j); }
    SupersetAtLeast(x, Pow2(i));
  }

  /** `bit > line_filter` and `bit < line_filter` for a single cell: a cell compares above a band
      of h >= 1 rows exactly when it lies above the band's top row, and below it otherwise. */
  lemma CellVersusBand(j: nat, r: nat, h: nat)
    requires h >= 1
    ensures Pow2(j) > Band(r, h) <==> j >= COLUMNS * (r + h)
    ensures Pow2(j) < Band(r, h) <==> j < COLUMNS * (r + h)
  {
    var top := COLUMNS * (r + h) - 1;
    BandBelow(r, h);
    if j >= COLUMNS * (r + h) {
      Pow2Monotone(COLUMNS * (r + h), j);
    } else {
      BandBit(r, h, top);
      BitAtLeast(Band(r, h), top);
      if j < top {
        Pow2Less(j, top);
      } else {
        BandBit(r, h, top - 1);
        BitPow2(top, top - 1);
        assert Band(r, h) != Pow2(top);
      }
    }
  }

  /** `line_filter < top_border`: a band of h >= 1 rows is below the top border exactly when it
      ends at or below row 20, so the slide stops before the filter reaches the top row. */
  lemma BandBelowTop(r: nat, h: nat, top: nat)
    requires h >= 1 && TopRow(top)
    ensures Band(r, h) < top <==> r + h <= ROWS - 1
  {
    BitAtLeast(top, COLUMNS * (ROWS - 1));
    BandBelow(r, h);
    if r + h <= ROWS - 1 {
      Pow2Monotone(COLUMNS * (r + h), COLUMNS * (ROWS - 1));
    } else if r + h > ROWS {
      BelowPow2(top, COLUMNS * ROWS);
      BandBit(r, h, COLUMNS * (r + h) - 1);
      BitAtLeast(Band(r, h), COLUMNS * (r + h) - 1);
      Pow2Monotone(COLUMNS * ROWS, COLUMNS * (r + h) - 1);
    } else {
      forall i: nat | Bit(top, i) ensures Bit(Band(r, h), i) {
        BandBit(r, h, i);
      }
      SupersetAtLeast(Band(r, h), top);
    }
  }

  /** One more pass of the filter-building loop `line_filter |= bottom_border << COLUMNS * j`
      adds row j to the band. */
  lemma BandGrow(j: nat)
    ensures Or(Band(0, j), Shl(Bottom(), COLUMNS * j)) == Band(0, j + 1)
  {
    forall i: nat ensures Bit(Or(Band(0, j), Shl(Bottom(), COLUMNS * j)), i) == Bit(Band(0, j + 1), i) {
      BitOr(Band(0, j), Shl(Bottom(), COLUMNS * j), i);
      BandBit(0, j, i);
      BandBit(0, j + 1, i);
      BitShl(Bottom(), COLUMNS * j, i);
      if i >= COLUMNS * j { BottomBit(i - COLUMNS * j); }
    }
    BitsEqual(Or(Band(0, j), Shl(Bottom(), COLUMNS * j)), Band(0, j + 1));
  }

  /** `line_filter <<= COLUMNS` slides the band up one row. */
  lemma BandUp(r: nat, h: nat)
    ensures Shl(Band(r, h), COLUMNS) == Band(r + 1, h)
  {
    forall i: nat ensures Bit(Shl(Band(r, h), COLUMNS), i) == Bit(Band(r + 1, h), i) {
      BitShl(Band(r, h), COLUMNS, i);
      BandBit(r + 1, h, i);
      if i >= COLUMNS { BandBit(r, h, i - COLUMNS); }
    }
    BitsEqual(Shl(Band(r, h), COLUMNS), Band(r + 1, h));
  }

  /** A piece that is not confined to the floor row and has no cell in row 1 (so it does not
      land on the floor) is still not confined to the floor row after one step down. */
  lemma StepAboveFloor(b: nat, floor: nat)
    requires FloorRow(floor)
    requires b >= Pow2(COLUMNS) && !CollideBottom(b, floor)
    ensures Shr(b, COLUMNS) >= Pow2(COLUMNS)
  {
    BelowPow2(b, COLUMNS);
    CollideBottomBits(b, floor);
    var i: nat :| Bit(b, i) && i >= COLUMNS;
    if i < 2 * COLUMNS {
      var j: nat := i - COLUMNS;
      assert Bit(b, j + COLUMNS) && Bit(floor, j);
      assert exists k: nat :: Bit(b, k + COLUMNS) && Bit(floor, k);
      assert false;
    }
    BitShr(b, COLUMNS, i - COLUMNS);
    BitAtLeast(Shr(b, COLUMNS), i - COLUMNS);
    Pow2Monotone(COLUMNS, i - COLUMNS);
  }

  /** Columns 1 to 10 of rows r .. r + h - 1 all hold a placed tile. */
  ghost predicate Covered(tiles: map<nat, Color>, r: nat, h: nat)
  {
    forall i: nat | COLUMNS * r <= i < COLUMNS * (r + h) && 0 < i % COLUMNS < COLUMNS - 1 :: Pow2(i) in tiles
  }

  /** A covered band holds a tile in column 1 of its lowest row. */
  lemma CoveredCell(tiles: map<nat, Color>, r: nat, h: nat)
    requires Covered(tiles, r, h) && h >= 1
    ensures Pow2(COLUMNS * r + 1) in tiles
  {
    assert (COLUMNS * r + 1) % COLUMNS == 1;
  }

  /** `(line_filter & full_board) == line_filter` on the board with walls: the filter's rows are
      complete exactly when every inner cell of them holds a tile. */
  lemma FilterCovered(walls: nat, tiles: map<nat, Color>, r: nat, h: nat)
    requires SingleCells(tiles) && SideWalls(walls) && r + h <= ROWS
    ensures And(Band(r, h), FullBoard(walls, tiles)) == Band(r, h) <==> Covered(tiles, r, h)
  {
    var full := FullBoard(walls, tiles);
    AndCovers(Band(r, h), full);
    forall i: nat ensures Bit(Band(r, h), i) ==> Bit(full, i) <==>
      (COLUMNS * r <= i < COLUMNS * (r + h) && 0 < i % COLUMNS < COLUMNS - 1 ==> Pow2(i) in tiles)
    {
      BandBit(r, h, i);
      FullBoardBit(walls, tiles, i);
    }
  }

  /** The tile map after one clear of the band of h rows at row r: rows below the band are kept,
      the band's cells are gone, and every cell above the band moves down h rows. */
  ghost predicate Compacted(before: map<nat, Color>, after: map<nat, Color>, r: nat, h: nat)
  {
    SingleCells(after) &&
    (forall i: nat | i < COLUMNS * r ::
      (Pow2(i) in after <==> Pow2(i) in before) &&
      (Pow2(i) in after ==> after[Pow2(i)] == before[Pow2(i)])) &&
    (forall i: nat | i >= COLUMNS * r ::
      (Pow2(i) in after <==> Pow2(i + COLUMNS * h) in before) &&
      (Pow2(i) in after ==> after[Pow2(i)] == before[Pow2(i + COLUMNS * h)]))
  }

  /** A clear at row r leaves the rows below r as they were, so a row below r is complete after
      the clear exactly when it was before. */
  lemma CompactedKeepsRowsBelow(before: map<nat, Color>, after: map<nat, Color>, r: nat, h: nat, q: nat)
    requires Compacted(before, after, r, h) && q < r
    ensures Covered(after, q, 1) <==> Covered(before, q, 1)
  {
  }

  /** `decompose_bits(line_filter)` lists exactly the band's cells. */
  lemma BandDecomposed(r: nat, h: nat, j: nat)
    ensures Pow2(j) in Decompose(Band(r, h)) <==> COLUMNS * r <= j < COLUMNS * (r + h)
  {
    var d := Decompose(Band(r, h));
    DecomposeSpec(Band(r, h));
    BandBit(r, h, j);
    if Pow2(j) in d {
      var n :| 0 <= n < |d| && d[n] == Pow2(j);
      Pow2IsPow2(j);
      assert Bit(Band(r, h), Log2(d[n]));
    }
  }

  /** The maps after the stages of one clear in `clear_lines`: `rest` is `before` without the
      band's cells, and `shifted` holds the cells above the band moved down h rows. */
  ghost predicate ClearStages(before: map<nat, Color>, rest: map<nat, Color>, shifted: map<nat, Color>,
                              r: nat, h: nat)
  {
    h >= 1 && SingleCells(before) &&
    (forall k :: k in rest <==> k in before && k !in Decompose(Band(r, h))) &&
    (forall k | k in rest :: rest[k] == before[k]) &&
    SingleCells(shifted) &&
    (forall j: nat :: Pow2(j) in shifted <==> Pow2(j + COLUMNS * h) in rest && Pow2(j + COLUMNS * h) > Band(r, h)) &&
    (forall j: nat | Pow2(j) in shifted :: shifted[Pow2(j)] == rest[Pow2(j + COLUMNS * h)])
  }

  /** The three stages of one clear in `clear_lines` (delete the band's tiles, move the tiles above
      the band down h rows, keep the tiles below it, and merge) produce the compacted map. */
  lemma AssembleCompacted(before: map<nat, Color>, rest: map<nat, Color>, shifted: map<nat, Color>,
                          r: nat, h: nat)
    requires h >= 1 && SingleCells(before)
    requires forall k :: k in rest <==> k in before && k !in Decompose(Band(r, h))
    requires forall k | k in rest :: rest[k] == before[k]
    requires SingleCells(shifted)
    requires forall j: nat :: Pow2(j) in shifted <==> Pow2(j + COLUMNS * h) in rest && Pow2(j + COLUMNS * h) > Band(r, h)
    requires forall j: nat | Pow2(j) in shifted :: shifted[Pow2(j)] == rest[Pow2(j + COLUMNS * h)]
    ensures Compacted(before, shifted + map b | b in rest && b < Band(r, h) :: rest[b], r, h)
  {
    var low := map b | b in rest && b < Band(r, h) :: rest[b];
    var after := shifted + low;
    assert ClearStages(before, rest, shifted, r, h);
    forall i: nat | i < COLUMNS * r
      ensures (Pow2(i) in after <==> Pow2(i) in before) && (Pow2(i) in after ==> after[Pow2(i)] == before[Pow2(i)])
    {
      StageBelow(before, rest, shifted, r, h, i);
    }
    forall i: nat | i >= COLUMNS * r
      ensures (Pow2(i) in after <==> Pow2(i + COLUMNS * h) in before) &&
        (Pow2(i) in after ==> after[Pow2(i)] == before[Pow2(i + COLUMNS * h)])
    {
      StageAbove(before, rest, shifted, r, h, i);
    }
  }

  /** A cell below the band keeps its tile through the clear. */
  lemma StageBelow(before: map<nat, Color>, rest: map<nat, Color>, shifted: map<nat, Color>,
                   r: nat, h: nat, i: nat)
    requires ClearStages(before, rest, shifted, r, h) && i < COLUMNS * r
    ensures var after := shifted + map b | b in rest && b < Band(r, h) :: rest[b];
      (Pow2(i) in after <==> Pow2(i) in before) && (Pow2(i) in after ==> after[Pow2(i)] == before[Pow2(i)])
  {
    CellVersusBand(i, r, h);
    CellVersusBand(i + COLUMNS * h, r, h);
    BandDecomposed(r, h, i);
  }

  /** A cell at or above the band's bottom row takes the tile from h rows higher. */
  lemma StageAbove(before: map<nat, Color>, rest: map<nat, Color>, shifted: map<nat, Color>,
                   r: nat, h: nat, i: nat)
    requires ClearStages(before, rest, shifted, r, h) && i >= COLUMNS * r
    ensures var after := shifted + map b | b in rest && b < Band(r, h) :: rest[b];
      (Pow2(i) in after <==> Pow2(i + COLUMNS * h) in before) &&
      (Pow2(i) in after ==> after[Pow2(i)] == before[Pow2(i + COLUMNS * h)])
  {
    CellVersusBand(i, r, h);
    CellVersusBand(i + COLUMNS * h, r, h);
    BandDecomposed(r, h, i);
    BandDecomposed(r, h, i + COLUMNS * h);
  }

  /** Where a cell of the compacted map came from: cells below the band stay, cells at or above
      it came from h rows higher. */
  ghost function Lifted(k: nat, r: nat, h: nat): nat
  {
    if k == 0 then 0
    else
      var i := Log2(k);
      Pow2(if i < COLUMNS * r then i else i + COLUMNS * h)
  }

  lemma LiftedInjective(a: nat, b: nat, r: nat, h: nat)
    requires IsPow2(a) && IsPow2(b) && Lifted(a, r, h) == Lifted(b, r, h)
    ensures a == b
  {
    IsPow2Exactly(a);
    IsPow2Exactly(b);
    var i, j := Log2(a), Log2(b);
    var li := if i < COLUMNS * r then i else i + COLUMNS * h;
    var lj := if j < COLUMNS * r then j else j + COLUMNS * h;
    assert Lifted(a, r, h) == Pow2(li) && Lifted(b, r, h) == Pow2(lj);
    Pow2Injective(li, lj);
    assert i == j;
  }

  ghost function LiftAll(s: set<nat>, r: nat, h: nat): set<nat>
  {
    set k | k in s :: Lifted(k, r, h)
  }

  lemma {:induction false} LiftAllCard(s: set<nat>, r: nat, h: nat)
    requires forall k | k in s :: IsPow2(k)
    ensures |LiftAll(s, r, h)| == |s|
    decreases s
  {
    if s != {} {
      var x :| x in s;
      LiftAllCard(s - {x}, r, h);
      assert LiftAll(s, r, h) == LiftAll(s - {x}, r, h) + {Lifted(x, r, h)};
      if Lifted(x, r, h) in LiftAll(s - {x}, r, h) {
        var y :| y in s - {x} && Lifted(y, r, h) == Lifted(x, r, h);
        LiftedInjective(x, y, r, h);
      }
    }
  }

  /** A clear of a complete band removes at least the band's cell in column 1, so the tile map
      shrinks; this is what makes the re-check of the same filter position terminate. */
  lemma CompactedShrinks(before: map<nat, Color>, after: map<nat, Color>, r: nat, h: nat)
    requires Compacted(before, after, r, h) && h >= 1 && Pow2(COLUMNS * r + 1) in before
    ensures |after| < |before|
  {
    var gone := Pow2(COLUMNS * r + 1);
    forall k | k in LiftAll(after.Keys, r, h) ensures k in before.Keys - {gone} {
      var a :| a in after.Keys && k == Lifted(a, r, h);
      LiftedCell(before, after, r, h, a);
    }
    LiftAllCard(after.Keys, r, h);
    SubsetCard(LiftAll(after.Keys, r, h), before.Keys - {gone});
  }

  /** Each tile left by a clear came from a tile of the map before it, and not from the band's
      cell in column 1. */
  lemma LiftedCell(before: map<nat, Color>, after: map<nat, Color>, r: nat, h: nat, a: nat)
    requires Compacted(before, after, r, h) && h >= 1 && a in after
    ensures Lifted(a, r, h) in before && Lifted(a, r, h) != Pow2(COLUMNS * r + 1)
  {
    IsPow2Exactly(a);
    var i := Log2(a);
    var li := if i < COLUMNS * r then i else i + COLUMNS * h;
    assert a == Pow2(i) && a != 0 && Pow2(i) in after;
    assert Lifted(a, r, h) == Pow2(li);
    if i < COLUMNS * r {
      assert Pow2(i) in before;
    } else {
      assert Pow2(i + COLUMNS * h) in before;
    }
    assert li != COLUMNS * r + 1;
    if Pow2(li) == Pow2(COLUMNS * r + 1) {
      Pow2Injective(li, COLUMNS * r + 1);
    }
  }

  // ---------------------------------------------------------------------------
  // Rotation kick

  /** The kick of `rotate`: the candidate is kept when it does not meet `detect`; otherwise it is
      moved one column right, or else one column left, whichever first does not meet `fit`; with
      neither, the rotation is refused. The current engine checks both steps against the same
      board; the older engine checks the kicks against the borders only. */
  function Kick(candidate: nat, detect: nat, fit: nat): (r: Option<nat>)
    ensures r.None? <==>
      Collide(detect, candidate) && Collide(Shr(candidate, 1), fit) && Collide(Shl(candidate, 1), fit)
    ensures r.Some? ==>
      (r.value == candidate && !Collide(detect, candidate)) ||
      (r.value == Shr(candidate, 1) && !Collide(r.value, fit)) ||
      (r.value == Shl(candidate, 1) && !Collide(r.value, fit))
    ensures !Collide(detect, candidate) ==> r == Some(candidate)
    ensures Collide(detect, candidate) && !Collide(Shr(candidate, 1), fit) ==> r == Some(Shr(candidate, 1))
    ensures Collide(detect, candidate) && Collide(Shr(candidate, 1), fit) && !Collide(Shl(candidate, 1), fit) ==>
      r == Some(Shl(candidate, 1))
  {
    if !Collide(detect, candidate) then Some(candidate)
    else if !Collide(Shr(candidate, 1), fit) then Some(Shr(candidate, 1))
    else if !Collide(Shl(candidate, 1), fit) then Some(Shl(candidate, 1))
    else None
  }

  /** When the kicks are checked against the same board as the candidate, an accepted rotation
      never overlaps that board, and a candidate that fits is taken as it is. */
  lemma KickFits(candidate: nat, full: nat)
    ensures Kick(candidate, full, full).Some? ==> !Collide(Kick(candidate, full, full).value, full)
    ensures !Collide(full, candidate) ==> Kick(candidate, full, full) == Some(candidate)
  {
    CollideSymmetric(full, candidate);
  }
}
