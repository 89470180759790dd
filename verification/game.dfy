/** The `Game` controller of src/tetriminos.py: the placed tiles, the active piece, the stash slot
    and the piece queue, with spawning, moves, locking, rotation, line clearing and the game-over
    test. Rendering is not modelled. */
module Engine {
  import opened Bits
  import opened Bitboard
  import opened Shapes
  import opened ShapeQueue
  import opened Pieces
  import opened Playfield

  /** Where a freshly spawned piece of shape s sits: its packed arrangement moved to the start. */
  function SpawnBoard(s: Shape): nat
  {
    Shl(Packed(Arrangement(s), COLUMNS), SPAWN_SHIFT)
  }

  /** A spawned piece has a cell above the floor row. */
  lemma SpawnAboveFloor(s: Shape)
    ensures SpawnBoard(s) >= Pow2(COLUMNS)
  {
    ShapeBits(s);
    ShiftedAboveFloor(Packed(Arrangement(s), COLUMNS), Popcount(Packed(Arrangement(s), COLUMNS)));
  }

  /** Any board with a set bit, moved to the start, has a cell above the floor row. */
  lemma ShiftedAboveFloor(p: nat, n: nat)
    requires n == Popcount(p) && n > 0
    ensures Shl(p, SPAWN_SHIFT) >= Pow2(COLUMNS)
  {
    if p == 0 { assert false; }
    var i := NonZeroHasBit(p);
    var shift: nat := SPAWN_SHIFT;
    BitShl(p, shift, i + shift);
    BitAtLeast(Shl(p, shift), i + shift);
    Pow2Monotone(COLUMNS, i + shift);
  }

  /** The board `rows` rows below `board`. */
  function Dropped(board: nat, rows: nat): nat
  {
    Shr(board, COLUMNS * rows)
  }

  /** Re-keying the tiles of a piece dropped a row gives the same map whether it starts from the
      tiles it was made with or from those it was re-keyed to after earlier drops. */
  lemma RekeyedDrop(b: nat, made: map<nat, Color>, now: map<nat, Color>, drops: nat, c: Color)
    requires now == if drops == 0 then made else Rekeyed(b, |made|, c)
    ensures Rekeyed(Shr(b, COLUMNS), |now|, c) == Rekeyed(Shr(b, COLUMNS), |made|, c)
  {
    if drops > 0 {
      PopcountShr(b, COLUMNS);
      RekeyedAgain(b, Shr(b, COLUMNS), |made|, c);
    }
  }

  /** One more row of drop: the board `drops` rows below `start`, moved down a row, is the
      board `drops + 1` rows below it. */
  lemma DropStep(start: nat, drops: nat, b: nat, c: nat)
    requires b == Shr(start, COLUMNS * drops) && c == Shr(b, COLUMNS)
    ensures c == Shr(start, COLUMNS * (drops + 1))
  {
    ShrShr(start, COLUMNS * drops, COLUMNS);
  }

  /** The borders of the bitboard module have the cells the game expects. */
  lemma BitboardBorders()
    ensures FloorRow(Bottom()) && RightWall(Right()) && LeftWall(Left()) && TopRow(Top())
  {
    FloorRowCells();
    RightWallCells(Right());
    LeftWallCells(Left());
    TopRowCells(Top());
  }

  /** `from bitboard import bottom_border, right_border, left_border, top_border`: the four
      masks, each known to the game by its cells. */
  method ImportBorders() returns (bottom: nat, right: nat, left: nat, top: nat)
    ensures FloorRow(bottom) && RightWall(right) && LeftWall(left) && TopRow(top)
  {
    bottom, right, left, top := Bottom(), Right(), Left(), Top();
    BitboardBorders();
  }

  /** The piece the constructor builds for `p` after `move_to_start`. */
  ghost predicate Spawned(t: Tetrimino, p: Piece)
    reads t
  {
    t.Valid() && t.shape == p.shape && t.tile == p.tile && t.rotation == 0 && !t.locked &&
    t.bitboard == SpawnBoard(p.shape) && t.tiles == Rekeyed(t.bitboard, 4, p.tile) && |t.tiles| == 4
  }

  /** The piece's tiles sit on single cells. */
  lemma PieceCells(t: Tetrimino)
    requires t.Valid()
    ensures SingleCells(t.tiles)
  {
    DecomposeSpec(t.bitboard);
    forall b | b in t.tiles ensures IsPow2(b) {
      var n :| 0 <= n < |Decompose(t.bitboard)| && Decompose(t.bitboard)[n] == b;
    }
  }

  /** `collide_bottom` against the floor or against one of the placed tiles: the piece cannot go
      down and locks. */
  predicate Landed(bitboard: nat, floor: nat, tiles: map<nat, Color>)
  {
    CollideBottom(bitboard, floor) || exists k :: k in tiles && CollideBottom(bitboard, k)
  }

  class Game {
    var tiles: map<nat, Color>
    var tetrimino: Tetrimino?
    var stashed: Option<Piece>
    const queue: TetriminoQueue
    /** The borders the game imports from the bitboard module. */
    const bottom: nat
    const right: nat
    const left: nat
    const top: nat

    /** The queue is consistent, placed tiles sit on single cells, the active piece is valid, and
        the borders have the cells of `right_border`, `left_border` and `top_border`. */
    ghost predicate Valid()
      reads this, queue, queue.gen, tetrimino
    {
      queue.Valid() && SingleCells(tiles) && (tetrimino != null ==> tetrimino.Valid()) &&
      FloorRow(bottom) && RightWall(right) && LeftWall(left) && TopRow(top)
    }

    /** `get_tetrimino` will draw a new piece. */
    ghost predicate NeedsSpawn()
      reads this, tetrimino
    {
      tetrimino == null || tetrimino.locked
    }

    /** The board of the piece `get_tetrimino` hands out next. */
    ghost function ActiveBoard(): nat
      reads this, tetrimino, queue, queue.gen
      requires Valid()
    {
      if NeedsSpawn() then SpawnBoard(queue.queue[0]) else tetrimino.bitboard
    }

    /** `t` is the piece `get_tetrimino` handed out: a fresh piece of the shape and tile at the
        head of the queue, which now lists that shape as handed out, or the active piece it
        kept, with the queue untouched. Moves keep the shape and the tile. */
    twostate predicate HandedOut(new t: Tetrimino)
      requires old(Valid())
      reads this, t, queue, queue.gen
    {
      if old(NeedsSpawn()) then
        fresh(t) && t.shape == old(queue.Peek()).shape && t.tile == old(queue.Peek()).tile &&
        queue.handed == old(queue.handed) + [t.shape]
      else
        t == old(tetrimino) && t.shape == old(t.shape) && t.tile == old(t.tile) && unchanged(queue, queue.gen)
    }

    /** `t` is exactly as `get_tetrimino` handed it out: just spawned, or the active piece with
        none of its fields changed. */
    twostate predicate AsHandedOut(new t: Tetrimino)
      requires old(Valid())
      reads this, t, queue, queue.gen
    {
      if old(NeedsSpawn()) then Spawned(t, old(queue.Peek())) else t == old(tetrimino) && unchanged(t)
    }

    /** The tiles of the piece `get_tetrimino` hands out next: four of the queue's colour on a
        freshly spawned board, or the active piece's. */
    ghost function ActiveTiles(): map<nat, Color>
      reads this, tetrimino, queue, queue.gen
      requires Valid()
    {
      if NeedsSpawn() then Rekeyed(SpawnBoard(queue.queue[0]), 4, queue.tile) else tetrimino.tiles
    }

    /** The rotation counter of the piece `get_tetrimino` hands out next. */
    ghost function ActiveRotation(): nat
      reads this, tetrimino
    {
      if NeedsSpawn() then 0 else tetrimino.rotation
    }

    constructor (queue: TetriminoQueue)
      requires queue.Valid()
      ensures Valid() && this.queue == queue
      ensures tiles == map[] && tetrimino == null && stashed == None
    {
      var b, r, l, t := ImportBorders();
      this.queue := queue;
      bottom, right, left, top := b, r, l, t;
      tiles := map[];
      tetrimino := null;
      stashed := None;
    }

    /** `get_tetrimino`: keeps the active piece while it is unlocked; otherwise takes the next
        shape and tile from the queue and spawns that piece at the start position. */
    method GetTetrimino() returns (t: Tetrimino)
      requires Valid()
      modifies this, queue, queue.gen
      ensures Valid() && tetrimino == t && !t.locked
      ensures tiles == old(tiles) && stashed == old(stashed)
      ensures t.bitboard == old(ActiveBoard()) && t.rotation == old(ActiveRotation()) && t.tiles == old(ActiveTiles())
      ensures old(NeedsSpawn()) ==>
        fresh(t) && Spawned(t, old(queue.Peek())) && queue.handed == old(queue.handed) + [t.shape]
      ensures !old(NeedsSpawn()) ==> t == old(tetrimino) && unchanged(queue, queue.gen)
    {
      if tetrimino == null || tetrimino.locked {
        var p := queue.Next();
        t := new Tetrimino(p.shape, p.tile);
        t.MoveToStart();
        tetrimino := t;
      } else {
        t := tetrimino;
      }
    }

    /** `stash`: puts the active piece's shape and tile in the stash slot and returns them; the
        piece stashed before, if any, is respawned at the start, otherwise there is no active
        piece until the next `get_tetrimino`. */
    method Stash() returns (s: Piece)
      requires Valid() && tetrimino != null
      modifies this
      ensures Valid() && tiles == old(tiles)
      ensures s == Piece(old(tetrimino.shape), old(tetrimino.tile)) && stashed == Some(s)
      ensures old(stashed).None? ==> tetrimino == null
      ensures old(stashed).Some? ==> tetrimino != null && fresh(tetrimino) && Spawned(tetrimino, old(stashed).value)
    {
      var previous := stashed;
      stashed := Some(Piece(tetrimino.shape, tetrimino.tile));
      if previous.Some? {
        var t := new Tetrimino(previous.value.shape, previous.value.tile);
        t.MoveToStart();
        tetrimino := t;
      } else {
        tetrimino := null;
      }
      s := stashed.value;
    }

    /** `get_full_board`: ORs every placed tile into the board, starting from the side walls when
        `includeBorders` is set. */
    method GetFullBoard(includeBorders: bool) returns (full: nat)
      ensures full == FullBoard(if includeBorders then Or(right, left) else 0, tiles)
    {
      var start := if includeBorders then Or(right, left) else 0;
      full := start;
      var rest := tiles.Keys;
      assert tiles.Keys - rest == {};
      while rest != {}
        invariant rest <= tiles.Keys
        invariant full == Or(start, Union(tiles.Keys - rest))
        decreases rest
      {
        var b :| b in rest;
        UnionInsert(start, tiles.Keys - rest, b);
        full := Or(full, b);
        assert (tiles.Keys - rest) + {b} == tiles.Keys - (rest - {b});
        rest := rest - {b};
      }
      assert tiles.Keys - rest == tiles.Keys;
    }

    /** `_move_down`: when the piece one row down would meet the floor or a placed tile, its tiles
        are merged into the placed tiles and it locks where it is; otherwise it moves down a row. */
    method MoveDownStep(t: Tetrimino)
      requires Valid() && tetrimino == t
      modifies this, t
      ensures Valid() && tetrimino == t && stashed == old(stashed)
      ensures t.shape == old(t.shape) && t.tile == old(t.tile) && t.rotation == old(t.rotation)
      ensures old(t.locked) || Landed(old(t.bitboard), bottom, old(tiles)) ==>
        t.locked && t.bitboard == old(t.bitboard) && t.tiles == old(t.tiles) && tiles == old(tiles) + old(t.tiles)
      ensures !(old(t.locked) || Landed(old(t.bitboard), bottom, old(tiles))) ==>
        !t.locked && t.bitboard == Shr(old(t.bitboard), COLUMNS) && tiles == old(tiles) &&
        t.tiles == Rekeyed(t.bitboard, old(|t.tiles|), t.tile)
      ensures !t.locked ==> !Collide(t.bitboard, Or(bottom, Union(tiles.Keys)))
    {
      PieceCells(t);
      if CollideBottom(t.bitboard, bottom) {
        tiles := tiles + t.tiles;
        t.locked := true;
        return;
      }
      var rest := tiles.Keys;
      while rest != {}
        invariant rest <= tiles.Keys
        invariant t.bitboard == old(t.bitboard) && t.tiles == old(t.tiles) && t.rotation == old(t.rotation)
        invariant t.shape == old(t.shape) && t.tile == old(t.tile)
        invariant t.locked ==> old(t.locked) || exists k :: k in tiles && CollideBottom(t.bitboard, k)
        invariant !t.locked ==> !old(t.locked) && forall k | k in tiles.Keys - rest :: !CollideBottom(t.bitboard, k)
        decreases rest
        modifies t
      {
        var k :| k in rest;
        if CollideBottom(t.bitboard, k) && !t.locked {
          t.locked := true;
          break;
        }
        rest := rest - {k};
      }
      if t.locked {
        tiles := tiles + t.tiles;
        t.locked := true;
        return;
      }
      assert !Landed(t.bitboard, bottom, tiles);
      BlockedIsBoardHit(Shr(t.bitboard, COLUMNS), bottom, tiles);
      t.MoveDown();
    }

    /** `move_down`: one `_move_down` of the piece `get_tetrimino` hands out. */
    method MoveDown()
      requires Valid()
      modifies this, queue, queue.gen, tetrimino
      ensures Valid() && tetrimino != null && stashed == old(stashed)
      ensures HandedOut(tetrimino) && tetrimino.rotation == old(ActiveRotation())
      ensures Landed(old(ActiveBoard()), bottom, old(tiles)) ==>
        tetrimino.locked && tetrimino.bitboard == old(ActiveBoard()) && tetrimino.tiles == old(ActiveTiles()) &&
        tiles == old(tiles) + tetrimino.tiles
      ensures !Landed(old(ActiveBoard()), bottom, old(tiles)) ==>
        !tetrimino.locked && tetrimino.bitboard == Shr(old(ActiveBoard()), COLUMNS) && tiles == old(tiles) &&
        tetrimino.tiles == Rekeyed(tetrimino.bitboard, |old(ActiveTiles())|, tetrimino.tile)
    {
      var t := GetTetrimino();
      MoveDownStep(t);
    }

    /** The checks of `move_left`: `collide_left` against the left wall and then against each
        placed tile, stopping at the first hit. */
    method LeftBlocked(bitboard: nat) returns (blocked: bool)
      ensures blocked <==> Collide(Shl(bitboard, 1), Or(left, Union(tiles.Keys)))
    {
      ghost var zone := Shl(bitboard, 1);
      BlockedIsBoardHit(zone, left, tiles);
      if CollideLeft(bitboard, left) {
        assert Collide(zone, left);
        return true;
      }
      var rest := tiles.Keys;
      while rest != {}
        invariant rest <= tiles.Keys
        invariant forall k | k in tiles.Keys - rest :: !Collide(zone, k)
        decreases rest
      {
        var k :| k in rest;
        if CollideLeft(bitboard, k) {
          assert k in tiles && Collide(zone, k);
          return true;
        }
        rest := rest - {k};
      }
      return false;
    }

    /** `move_left`: the piece moves one column left unless that would meet the left wall or a
        placed tile, in which case nothing changes. */
    method MoveLeft()
      requires Valid()
      modifies this, queue, queue.gen, tetrimino
      ensures Valid() && tetrimino != null && !tetrimino.locked
      ensures tiles == old(tiles) && stashed == old(stashed) && tetrimino.rotation == old(ActiveRotation())
      ensures HandedOut(tetrimino)
      ensures Collide(Shl(old(ActiveBoard()), 1), Or(left, Union(tiles.Keys))) ==>
        tetrimino.bitboard == old(ActiveBoard()) && tetrimino.tiles == old(ActiveTiles()) && AsHandedOut(tetrimino)
      ensures !Collide(Shl(old(ActiveBoard()), 1), Or(left, Union(tiles.Keys))) ==>
        tetrimino.bitboard == Shl(old(ActiveBoard()), 1) &&
        tetrimino.tiles == Rekeyed(tetrimino.bitboard, |old(ActiveTiles())|, tetrimino.tile)
    {
      var t := GetTetrimino();
      var blocked := LeftBlocked(t.bitboard);
      if !blocked {
        t.MoveLeft();
      }
    }

    /** The checks of `move_right`: `collide_right` against the right wall and then against each
        placed tile, stopping at the first hit. */
    method RightBlocked(bitboard: nat) returns (blocked: bool)
      ensures blocked <==> Collide(Shr(bitboard, 1), Or(right, Union(tiles.Keys)))
    {
      ghost var zone := Shr(bitboard, 1);
      BlockedIsBoardHit(zone, right, tiles);
      if CollideRight(bitboard, right) {
        assert Collide(zone, right);
        return true;
      }
      var rest := tiles.Keys;
      while rest != {}
        invariant rest <= tiles.Keys
        invariant forall k | k in tiles.Keys - rest :: !Collide(zone, k)
        decreases rest
      {
        var k :| k in rest;
        if CollideRight(bitboard, k) {
          assert k in tiles && Collide(zone, k);
          return true;
        }
        rest := rest - {k};
      }
      return false;
    }

    /** `move_right`: the piece moves one column right unless that would meet the right wall or a
        placed tile, in which case nothing changes. */
    method MoveRight()
      requires Valid()
      modifies this, queue, queue.gen, tetrimino
      ensures Valid() && tetrimino != null && !tetrimino.locked
      ensures tiles == old(tiles) && stashed == old(stashed) && tetrimino.rotation == old(ActiveRotation())
      ensures HandedOut(tetrimino)
      ensures Collide(Shr(old(ActiveBoard()), 1), Or(right, Union(tiles.Keys))) ==>
        tetrimino.bitboard == old(ActiveBoard()) && tetrimino.tiles == old(ActiveTiles()) && AsHandedOut(tetrimino)
      ensures !Collide(Shr(old(ActiveBoard()), 1), Or(right, Union(tiles.Keys))) ==>
        tetrimino.bitboard == Shr(old(ActiveBoard()), 1) &&
        tetrimino.tiles == Rekeyed(tetrimino.bitboard, |old(ActiveTiles())|, tetrimino.tile)
    {
      var t := GetTetrimino();
      var blocked := RightBlocked(t.bitboard);
      if !blocked {
        t.MoveRight();
      }
    }

    /** `move_down_and_lock`: moves the piece down until it locks. The loop only ends if the piece
        has a cell above the floor row, which every spawned piece has. The returned count is the
        number of rows the piece dropped: it locks at the first row where it lands. */
    method MoveDownAndLock() returns (ghost drops: nat)
      requires Valid()
      requires !NeedsSpawn() ==> tetrimino.bitboard >= Pow2(COLUMNS)
      modifies this, queue, queue.gen, tetrimino
      ensures Valid() && tetrimino != null && tetrimino.locked && stashed == old(stashed)
      ensures HandedOut(tetrimino) && tetrimino.rotation == old(ActiveRotation())
      ensures tetrimino.bitboard == Dropped(old(ActiveBoard()), drops)
      ensures Landed(tetrimino.bitboard, bottom, old(tiles))
      ensures forall e: nat | e < drops :: !Landed(Dropped(old(ActiveBoard()), e), bottom, old(tiles))
      ensures tetrimino.tiles ==
        if drops == 0 then old(ActiveTiles()) else Rekeyed(tetrimino.bitboard, |old(ActiveTiles())|, tetrimino.tile)
      ensures tiles == old(tiles) + tetrimino.tiles
    {
      if NeedsSpawn() {
        SpawnAboveFloor(queue.queue[0]);
      }
      var t := GetTetrimino();
      drops := DropUntilLocked(t);
    }

    /** The loop of `move_down_and_lock` once the piece is known: `_move_down` until the piece
        locks, which happens at the first row where it lands. */
    method DropUntilLocked(t: Tetrimino) returns (ghost drops: nat)
      requires Valid() && tetrimino == t && !t.locked && t.bitboard >= Pow2(COLUMNS)
      modifies this, t
      ensures Valid() && tetrimino == t && t.locked && stashed == old(stashed)
      ensures t.shape == old(t.shape) && t.tile == old(t.tile) && t.rotation == old(t.rotation)
      ensures t.bitboard == Dropped(old(t.bitboard), drops) && Landed(t.bitboard, bottom, old(tiles))
      ensures forall e: nat | e < drops :: !Landed(Dropped(old(t.bitboard), e), bottom, old(tiles))
      ensures t.tiles == if drops == 0 then old(t.tiles) else Rekeyed(t.bitboard, old(|t.tiles|), t.tile)
      ensures tiles == old(tiles) + t.tiles
    {
      ghost var before := tiles;
      ghost var start, shape, tile, turns, pieceTiles := t.bitboard, t.shape, t.tile, t.rotation, t.tiles;
      drops := 0;
      while !t.locked
        invariant Valid() && tetrimino == t && stashed == old(stashed)
        invariant t.shape == shape && t.tile == tile && t.rotation == turns
        invariant t.bitboard == Dropped(start, drops)
        invariant !t.locked ==> tiles == before && t.bitboard >= Pow2(COLUMNS)
        invariant t.locked ==> tiles == before + t.tiles && Landed(t.bitboard, bottom, before)
        invariant forall e: nat | e < drops :: !Landed(Dropped(start, e), bottom, before)
        invariant t.tiles == if drops == 0 then pieceTiles else Rekeyed(t.bitboard, |pieceTiles|, tile)
        decreases t.bitboard, if t.locked then 0 else 1
      {
        ghost var b := t.bitboard;
        RekeyedDrop(b, pieceTiles, t.tiles, drops, tile);
        MoveDownStep(t);
        if !t.locked {
          StepAboveFloor(b, bottom);
          ShrLess(b, COLUMNS);
          DropStep(start, drops, b, t.bitboard);
          drops := drops + 1;
        }
      }
    }

    /** `rotate`, given the candidate board `test_rotate` computes for the active piece: the
        candidate is checked against the placed tiles and the side walls; on a collision it is
        kicked one column right, else one column left, each kick checked against the same board;
        with no free position nothing changes. An accepted board goes through `set_rotate`. */
    method Rotate(candidate: nat)
      requires Valid()
      modifies this, queue, queue.gen, tetrimino
      ensures Valid() && tetrimino != null && !tetrimino.locked
      ensures tiles == old(tiles) && stashed == old(stashed) && HandedOut(tetrimino)
      ensures var k := Kick(candidate, FullBoard(Or(right, left), tiles), FullBoard(Or(right, left), tiles));
        (k.None? ==>
          tetrimino.bitboard == old(ActiveBoard()) && tetrimino.rotation == old(ActiveRotation()) &&
          tetrimino.tiles == old(ActiveTiles()) && AsHandedOut(tetrimino)) &&
        (k.Some? ==>
          tetrimino.bitboard == k.value && tetrimino.rotation == (old(ActiveRotation()) + 1) % 4 &&
          tetrimino.tiles == Rekeyed(k.value, |old(ActiveTiles())|, tetrimino.tile))
      ensures tetrimino.bitboard != old(ActiveBoard()) ==> !Collide(tetrimino.bitboard, FullBoard(Or(right, left), tiles))
    {
      var t := GetTetrimino();
      var accepted := RotationTarget(candidate);
      KickFits(candidate, FullBoard(Or(right, left), tiles));
      if accepted.Some? {
        t.SetRotate(accepted.value);
      }
    }

    /** The kick of `rotate`: the board the piece ends up on, or None when the candidate and both
        kicks collide. */
    method RotationTarget(candidate: nat) returns (accepted: Option<nat>)
      ensures accepted == Kick(candidate, FullBoard(Or(right, left), tiles), FullBoard(Or(right, left), tiles))
    {
      var test := candidate;
      var full := GetFullBoard(true);
      if Collide(full, test) {
        if !Collide(Shr(test, 1), full) {
          test := Shr(test, 1);
        } else if !Collide(Shl(test, 1), full) {
          test := Shl(test, 1);
        } else {
          return None;
        }
      }
      return Some(test);
    }

    /** The filters of `clear_lines`: the k-th one covers the bottom k + 1 rows. */
    method LineFilters() returns (filters: seq<nat>)
      ensures |filters| == 4 && forall k | 0 <= k < 4 :: filters[k] == Band(0, k + 1)
    {
      filters := [];
      var i := 1;
      while i < 5
        invariant 1 <= i <= 5 && |filters| == i - 1
        invariant forall k | 0 <= k < i - 1 :: filters[k] == Band(0, k + 1)
      {
        var filter := 0;
        var j := 0;
        while j < i
          invariant 0 <= j <= i && filter == Band(0, j)
        {
          BandGrow(j);
          filter := Or(filter, Shl(Bottom(), COLUMNS * j));
          j := j + 1;
        }
        filters := filters + [filter];
        i := i + 1;
      }
    }

    /** `clear_lines`: for filters of 4, 3, 2 and 1 rows in turn, slides the filter up from the
        floor while it is below the top border. Returns the height of each clear: the clears of
        the four passes one after the other, clears of more rows first. Afterwards no row below
        the top row is complete. */
    method ClearLines()
      returns (linesCleared: seq<nat>, ghost states: seq<map<nat, Color>>, ghost rows: seq<nat>, ghost passes: seq<Sweep>)
      requires Valid()
      modifies this
      ensures Valid() && tetrimino == old(tetrimino) && stashed == old(stashed)
      ensures forall h | h in linesCleared :: 1 <= h <= 4
      ensures forall i, j | 0 <= i < j < |linesCleared| :: linesCleared[i] >= linesCleared[j]
      ensures |passes| == 4 && linesCleared == AllHeights(passes)
      ensures Swept(passes, old(tiles), tiles)
      ensures ClearRun(states, rows, linesCleared) && states[0] == old(tiles) && states[|states| - 1] == tiles
      ensures forall q: nat | q < ROWS - 1 :: !Covered(tiles, q, 1)
      ensures |tiles| <= old(|tiles|)
      ensures linesCleared == [] ==> tiles == old(tiles)
      ensures (forall q: nat | q < ROWS - 1 :: !Covered(old(tiles), q, 1)) ==> linesCleared == [] && tiles == old(tiles)
    {
      var filters := LineFilters();
      linesCleared, states, rows, passes := SlideFilters(filters);
      AllPasses(old(tiles), tiles, linesCleared, states, rows, passes);
      RunFromStart(states, rows, linesCleared);
    }

    /** The loop of `clear_lines` over its filters: the passes of 4, 3, 2 and 1 rows in turn. */
    method SlideFilters(filters: seq<nat>)
      returns (linesCleared: seq<nat>, ghost states: seq<map<nat, Color>>, ghost rows: seq<nat>, ghost passes: seq<Sweep>)
      requires Valid() && |filters| == 4 && forall k | 0 <= k < 4 :: filters[k] == Band(0, k + 1)
      modifies this
      ensures Valid() && tetrimino == old(tetrimino) && stashed == old(stashed)
      ensures Clearing(old(tiles), tiles, 4, linesCleared, states, rows, passes)
      ensures |tiles| <= old(|tiles|)
      ensures forall q: nat | q < ROWS - 1 :: !Covered(tiles, q, 1)
    {
      linesCleared := [];
      states, rows, passes := [tiles], [], [];
      var n := 0;
      while n < 4
        invariant 0 <= n <= 4
        invariant Valid() && tetrimino == old(tetrimino) && stashed == old(stashed)
        invariant Clearing(old(tiles), tiles, n, linesCleared, states, rows, passes)
        invariant |tiles| <= old(|tiles|)
        invariant n == 4 ==> forall q: nat | q < ROWS - 1 :: !Covered(tiles, q, 1)
      {
        ghost var before := tiles;
        var height := 4 - n;
        var cleared, pass := SlideFilter(filters[height - 1], height);
        ClearingStep(old(tiles), before, tiles, n, linesCleared, states, rows, passes, pass);
        linesCleared := linesCleared + cleared;
        states, rows := states + pass.states[1..], rows + pass.rows;
        passes := passes + [pass];
        n := n + 1;
      }
    }

    /** One pass of `clear_lines` with a filter of `height` rows: while the filter is below the
        top border, a filter covered by the placed tiles and the side walls is cleared and the
        same position is checked again; otherwise the filter moves up a row. After the one-row
        pass no row below the top row is complete. */
    method SlideFilter(filter: nat, height: nat) returns (cleared: seq<nat>, ghost pass: Sweep)
      requires Valid() && 1 <= height <= 4 && filter == Band(0, height)
      modifies this
      ensures Valid() && tetrimino == old(tetrimino) && stashed == old(stashed)
      ensures pass.heights == cleared && Finished(pass, height) && pass.states[0] == old(tiles) && Outcome(pass) == tiles
      ensures |tiles| <= old(|tiles|)
      ensures cleared == [] ==> tiles == old(tiles)
      ensures (forall q: nat | q < ROWS - 1 :: !Covered(old(tiles), q, 1)) ==> cleared == []
      ensures height == 1 ==> forall q: nat | q < ROWS - 1 :: !Covered(tiles, q, 1)
    {
      cleared := [];
      ghost var states, rows := [tiles], [];
      var filter: nat := filter;
      ghost var r: nat := 0;
      while filter < top
        invariant Sliding(old(tiles), tiles, filter, height, r, states, rows, cleared)
        invariant tetrimino == old(tetrimino) && stashed == old(stashed)
        decreases |tiles|, ROWS - r
      {
        BandBelowTop(r, height, top);
        var full := GetFullBoard(true);
        WallsBits(right, left);
        FilterCovered(Or(right, left), tiles, r, height);
        if And(filter, full) != filter {
          SlideUp(old(tiles), tiles, filter, height, r, states, rows, cleared);
          filter := Shl(filter, COLUMNS);
          r := r + 1;
        } else {
          CoveredBottomRow(tiles, r, height);
          var after := ClearedTiles(tiles, filter, height, r);
          SlideClear(old(tiles), tiles, after, filter, height, r, states, rows, cleared);
          cleared := cleared + [height];
          states, rows := states + [after], rows + [r];
          tiles := after;
        }
      }
      BandBelowTop(r, height, top);
      SlideDone(old(tiles), tiles, filter, height, r, states, rows, cleared);
      pass := Sweep(states, rows, cleared);
    }

    /** `is_game_over`: some placed tile lies in the top row. */
    method IsGameOver() returns (over: bool)
      requires Valid()
      ensures over <==> exists k :: k in tiles && Collide(k, top)
      ensures over <==> exists i: nat :: COLUMNS * (ROWS - 1) <= i < COLUMNS * ROWS && Pow2(i) in tiles
    {
      TopRowTiles(tiles, top);
      over := false;
      var rest := tiles.Keys;
      while rest != {}
        invariant rest <= tiles.Keys
        invariant forall k | k in tiles.Keys - rest :: !Collide(k, top)
        decreases rest
      {
        var k :| k in rest;
        if Collide(k, top) {
          return true;
        }
        rest := rest - {k};
      }
    }
  }

  /** A run of clears: `states` are the tile maps from the first to the last, and the i-th
      clear removes a complete band of `heights[i]` rows at row `rows[i]`, below the top row,
      moving the tiles above it down by its height. */
  ghost predicate ClearRun(states: seq<map<nat, Color>>, rows: seq<nat>, heights: seq<nat>)
  {
    |states| == |heights| + 1 && |rows| == |heights| &&
    forall i | 0 <= i < |heights| ::
      rows[i] + heights[i] < ROWS && Covered(states[i], rows[i], heights[i]) &&
      Compacted(states[i], states[i + 1], rows[i], heights[i])
  }

  /** One more clear extends a run. */
  lemma ClearRunSnoc(states: seq<map<nat, Color>>, rows: seq<nat>, heights: seq<nat>,
                     next: map<nat, Color>, r: nat, h: nat)
    requires ClearRun(states, rows, heights) && r + h < ROWS
    requires Covered(states[|states| - 1], r, h) && Compacted(states[|states| - 1], next, r, h)
    ensures ClearRun(states + [next], rows + [r], heights + [h])
  {
    var s := states + [next];
    forall i | 0 <= i < |heights| + 1
      ensures (rows + [r])[i] + (heights + [h])[i] < ROWS && Covered(s[i], (rows + [r])[i], (heights + [h])[i]) &&
        Compacted(s[i], s[i + 1], (rows + [r])[i], (heights + [h])[i])
    {
      if i < |heights| {
        assert s[i] == states[i] && s[i + 1] == states[i + 1];
      } else {
        assert s[i] == states[|states| - 1] && s[i + 1] == next;
      }
    }
  }

  /** A pass of `slide_filter` with bands of height `h` that has reached row `r`: a run of clears
      of that height, in ascending row order, none above `r`. */
  ghost predicate Pass(states: seq<map<nat, Color>>, rows: seq<nat>, heights: seq<nat>, h: nat, r: nat)
  {
    ClearRun(states, rows, heights) && (forall x | x in heights :: x == h) &&
    (forall i | 0 <= i < |rows| :: rows[i] <= r) &&
    (forall i, j | 0 <= i < j < |rows| :: rows[i] <= rows[j])
  }

  /** A clear at the row the pass has reached extends the pass. */
  lemma PassSnoc(states: seq<map<nat, Color>>, rows: seq<nat>, heights: seq<nat>,
                 next: map<nat, Color>, h: nat, r: nat)
    requires Pass(states, rows, heights, h, r) && r + h < ROWS
    requires Covered(states[|states| - 1], r, h) && Compacted(states[|states| - 1], next, r, h)
    ensures Pass(states + [next], rows + [r], heights + [h], h, r)
  {
    ClearRunSnoc(states, rows, heights, next, r, h);
  }

  /** Moving the filter up a row keeps the pass. */
  lemma PassUp(states: seq<map<nat, Color>>, rows: seq<nat>, heights: seq<nat>, h: nat, r: nat)
    requires Pass(states, rows, heights, h, r)
    ensures Pass(states, rows, heights, h, r + 1)
  {
  }

  /** Two runs, the second starting where the first ends, make one run. */
  lemma ClearRunAppend(s1: seq<map<nat, Color>>, r1: seq<nat>, h1: seq<nat>,
                       s2: seq<map<nat, Color>>, r2: seq<nat>, h2: seq<nat>)
    requires ClearRun(s1, r1, h1) && ClearRun(s2, r2, h2) && s2[0] == s1[|s1| - 1]
    ensures ClearRun(s1 + s2[1..], r1 + r2, h1 + h2)
    ensures (s1 + s2[1..])[0] == s1[0] && (s1 + s2[1..])[|s1 + s2[1..]| - 1] == s2[|s2| - 1]
  {
    var s, r, h := s1 + s2[1..], r1 + r2, h1 + h2;
    forall i | 0 <= i < |h|
      ensures r[i] + h[i] < ROWS && Covered(s[i], r[i], h[i]) && Compacted(s[i], s[i + 1], r[i], h[i])
    {
      if i < |h1| {
        assert s[i] == s1[i] && s[i + 1] == s1[i + 1] && r[i] == r1[i] && h[i] == h1[i];
      } else {
        var j := i - |h1|;
        assert s[i] == s2[j] && s[i + 1] == s2[j + 1] && r[i] == r2[j] && h[i] == h2[j];
      }
    }
  }

  /** What a run says about its first board: with no clear the board is the last one, and a
      board with no complete row below the top row starts no clear. */
  lemma RunFromStart(states: seq<map<nat, Color>>, rows: seq<nat>, heights: seq<nat>)
    requires ClearRun(states, rows, heights) && forall x | x in heights :: x >= 1
    ensures heights == [] ==> states[|states| - 1] == states[0]
    ensures (forall q: nat | q < ROWS - 1 :: !Covered(states[0], q, 1)) ==> heights == []
  {
    if heights != [] {
      assert heights[0] in heights;
      CoveredBottomRow(states[0], rows[0], heights[0]);
    }
  }

  /** A finished `slide_filter` pass with bands of height `h`: a run of clears of that height in
      ascending rows, each at the lowest complete band at or above the clear before it, that leaves
      no complete band below the top row from its last clear up. */
  ghost predicate SlidPass(states: seq<map<nat, Color>>, rows: seq<nat>, heights: seq<nat>, h: nat)
  {
    ClearRun(states, rows, heights) && (forall x | x in heights :: x == h) &&
    (forall i, j | 0 <= i < j < |rows| :: rows[i] <= rows[j]) && FirstBands(states, rows, h) &&
    NoBandFrom(states[|states| - 1], LastRow(rows), h)
  }

  /** No band of `h` rows at or above row `r` and below the top row is complete. */
  ghost predicate NoBandFrom(tiles: map<nat, Color>, r: nat, h: nat)
  {
    forall q: nat | r <= q && q + h <= ROWS - 1 :: !Covered(tiles, q, h)
  }

  /** The clears of one `slide_filter` pass: the boards from before its first clear to after its
      last, the rows of the clears and their heights. */
  datatype Sweep = Sweep(states: seq<map<nat, Color>>, rows: seq<nat>, heights: seq<nat>)

  /** The board a pass leaves. */
  ghost function Outcome(p: Sweep): map<nat, Color>
  {
    if p.states == [] then map[] else p.states[|p.states| - 1]
  }

  /** A pass recorded in `p` is a finished `slide_filter` pass with bands of `h` rows. */
  ghost predicate Finished(p: Sweep, h: nat)
  {
    |p.states| > 0 && SlidPass(p.states, p.rows, p.heights, h)
  }

  /** The passes of `clear_lines` so far, from `start` to `end`: pass k, counted from 0, slid
      bands of 4 - k rows and started from the board the pass before it left. */
  ghost predicate Swept(passes: seq<Sweep>, start: map<nat, Color>, end: map<nat, Color>)
    decreases |passes|
  {
    if passes == [] then start == end
    else
      var p := passes[|passes| - 1];
      |passes| <= 4 && Finished(p, 5 - |passes|) && Outcome(p) == end &&
      Swept(passes[..|passes| - 1], start, p.states[0])
  }

  /** A pass that starts from the board the earlier passes left extends them. */
  lemma SweptSnoc(passes: seq<Sweep>, start: map<nat, Color>, mid: map<nat, Color>, n: nat, p: Sweep, end: map<nat, Color>)
    requires Swept(passes, start, mid) && |passes| == n < 4
    requires Finished(p, 4 - n) && p.states[0] == mid && Outcome(p) == end
    ensures Swept(passes + [p], start, end)
  {
    var q := passes + [p];
    assert q[..|q| - 1] == passes && q[|q| - 1] == p;
  }

  /** The record `clear_lines` keeps after `n` passes from `start` to `tiles`: one run of clears,
      split into the passes, whose heights are in descending order and above 4 - n. */
  ghost predicate Clearing(start: map<nat, Color>, tiles: map<nat, Color>, n: nat, heights: seq<nat>,
                           states: seq<map<nat, Color>>, rows: seq<nat>, passes: seq<Sweep>)
  {
    n <= 4 && (forall h | h in heights :: 4 - n < h <= 4) &&
    (forall i, j | 0 <= i < j < |heights| :: heights[i] >= heights[j]) &&
    ClearRun(states, rows, heights) && states[0] == start && states[|states| - 1] == tiles &&
    |passes| == n && heights == AllHeights(passes) && Swept(passes, start, tiles)
  }

  /** The record of all four passes of `clear_lines`, spelled out. */
  lemma AllPasses(start: map<nat, Color>, tiles: map<nat, Color>, heights: seq<nat>,
                  states: seq<map<nat, Color>>, rows: seq<nat>, passes: seq<Sweep>)
    requires Clearing(start, tiles, 4, heights, states, rows, passes)
    ensures forall h | h in heights :: 1 <= h <= 4
    ensures forall i, j | 0 <= i < j < |heights| :: heights[i] >= heights[j]
    ensures |passes| == 4 && heights == AllHeights(passes) && Swept(passes, start, tiles)
    ensures ClearRun(states, rows, heights) && states[0] == start && states[|states| - 1] == tiles
  {
  }

  /** One more pass of `clear_lines` extends its record. */
  lemma ClearingStep(start: map<nat, Color>, tiles: map<nat, Color>, after: map<nat, Color>, n: nat,
                     heights: seq<nat>, states: seq<map<nat, Color>>, rows: seq<nat>, passes: seq<Sweep>, p: Sweep)
    requires Clearing(start, tiles, n, heights, states, rows, passes) && n < 4
    requires Finished(p, 4 - n) && p.states[0] == tiles && Outcome(p) == after
    ensures Clearing(start, after, n + 1, heights + p.heights, states + p.states[1..], rows + p.rows, passes + [p])
  {
    SweptSnoc(passes, start, tiles, n, p, after);
    ClearRunAppend(states, rows, heights, p.states, p.rows, p.heights);
    assert (passes + [p])[..n] == passes;
    DescendingAppend(heights, p.heights, 4 - n);
  }

  /** Heights in descending order, all above `h`, followed by heights equal to `h`, stay in
      descending order. */
  lemma DescendingAppend(a: seq<nat>, b: seq<nat>, h: nat)
    requires forall i, j | 0 <= i < j < |a| :: a[i] >= a[j]
    requires (forall x | x in a :: x > h) && forall x | x in b :: x == h
    ensures forall i, j | 0 <= i < j < |a + b| :: (a + b)[i] >= (a + b)[j]
    ensures forall x | x in a + b :: x >= h
  {
    forall i, j | 0 <= i < j < |a + b| ensures (a + b)[i] >= (a + b)[j] {
      if j < |a| {
        assert (a + b)[i] == a[i] && (a + b)[j] == a[j];
      } else if i < |a| {
        assert (a + b)[i] == a[i] && a[i] in a && (a + b)[j] == b[j - |a|] && b[j - |a|] in b;
      } else {
        assert (a + b)[i] == b[i - |a|] && b[i - |a|] in b && (a + b)[j] == b[j - |a|] && b[j - |a|] in b;
      }
    }
  }

  /** The heights of the clears of the passes, pass after pass. */
  function AllHeights(passes: seq<Sweep>): (r: seq<nat>)
    ensures passes == [] ==> r == []
    ensures passes != [] ==> r == AllHeights(passes[..|passes| - 1]) + passes[|passes| - 1].heights
  {
    if passes == [] then [] else AllHeights(passes[..|passes| - 1]) + passes[|passes| - 1].heights
  }

  /** The row of the last clear of a pass, or the floor before the first. */
  function LastRow(rows: seq<nat>): (r: nat)
    ensures rows != [] ==> r in rows
    ensures rows == [] ==> r == 0
  {
    if rows == [] then 0 else rows[|rows| - 1]
  }

  /** Every clear of a pass with bands of height `h` is at the lowest complete band at or above
      the row of the clear before it. */
  ghost predicate FirstBands(states: seq<map<nat, Color>>, rows: seq<nat>, h: nat)
    requires |states| > |rows|
  {
    forall i | 0 <= i < |rows| :: forall q: nat | LastRow(rows[..i]) <= q < rows[i] :: !Covered(states[i], q, h)
  }

  /** The state of a `slide_filter` pass of height `h` that started from `start` and has its filter
      at row `r`: the clears so far form a pass ending in `tiles`, each at the lowest complete
      band it could reach; no band from the last clear up to the filter is complete; and for single
      rows no row below the filter is complete. */
  ghost predicate Sliding(start: map<nat, Color>, tiles: map<nat, Color>, filter: nat, h: nat, r: nat,
                          states: seq<map<nat, Color>>, rows: seq<nat>, heights: seq<nat>)
  {
    filter == Band(r, h) && r + h <= ROWS && SingleCells(tiles) && |tiles| <= |start| &&
    Pass(states, rows, heights, h, r) && states[0] == start && states[|states| - 1] == tiles &&
    FirstBands(states, rows, h) && (forall q: nat | LastRow(rows) <= q < r :: !Covered(tiles, q, h)) &&
    (h == 1 ==> NoCompleteRowBelow(tiles, r))
  }

  /** A clear at the lowest complete band above the previous clear extends the clears' record. */
  lemma FirstBandsSnoc(states: seq<map<nat, Color>>, rows: seq<nat>, h: nat, tiles: map<nat, Color>,
                       after: map<nat, Color>, r: nat)
    requires |states| == |rows| + 1 && states[|states| - 1] == tiles && FirstBands(states, rows, h)
    requires forall q: nat | LastRow(rows) <= q < r :: !Covered(tiles, q, h)
    ensures FirstBands(states + [after], rows + [r], h)
  {
    var s, w := states + [after], rows + [r];
    forall i | 0 <= i < |w|
      ensures forall q: nat | LastRow(w[..i]) <= q < w[i] :: !Covered(s[i], q, h)
    {
      if i < |rows| {
        assert w[..i] == rows[..i] && s[i] == states[i] && w[i] == rows[i];
      } else {
        assert w[..i] == rows && s[i] == states[|states| - 1];
      }
    }
  }

  /** A pass whose filter has reached the top border is finished. */
  lemma SlideDone(start: map<nat, Color>, tiles: map<nat, Color>, filter: nat, h: nat, r: nat,
                  states: seq<map<nat, Color>>, rows: seq<nat>, heights: seq<nat>)
    requires Sliding(start, tiles, filter, h, r, states, rows, heights) && h >= 1 && r + h > ROWS - 1
    ensures Finished(Sweep(states, rows, heights), h) && Sweep(states, rows, heights).states[0] == start
    ensures Outcome(Sweep(states, rows, heights)) == tiles && NoBandFrom(tiles, LastRow(rows), h)
    ensures heights == [] ==> tiles == start
    ensures (forall q: nat | q < ROWS - 1 :: !Covered(start, q, 1)) ==> heights == []
    ensures h == 1 ==> forall q: nat | q < ROWS - 1 :: !Covered(tiles, q, 1)
  {
    RunFromStart(states, rows, heights);
  }

  /** An incomplete band below the top row moves the filter up a row. */
  lemma SlideUp(start: map<nat, Color>, tiles: map<nat, Color>, filter: nat, h: nat, r: nat,
                states: seq<map<nat, Color>>, rows: seq<nat>, heights: seq<nat>)
    requires Sliding(start, tiles, filter, h, r, states, rows, heights)
    requires r + h <= ROWS - 1 && !Covered(tiles, r, h)
    ensures Sliding(start, tiles, Shl(filter, COLUMNS), h, r + 1, states, rows, heights)
  {
    BandUp(r, h);
    PassUp(states, rows, heights, h, r);
    if h == 1 {
      IncompleteRowUp(tiles, r);
    }
  }

  /** A complete band below the top row is cleared and the filter stays at its row. */
  lemma SlideClear(start: map<nat, Color>, tiles: map<nat, Color>, after: map<nat, Color>, filter: nat,
                   h: nat, r: nat, states: seq<map<nat, Color>>, rows: seq<nat>, heights: seq<nat>)
    requires Sliding(start, tiles, filter, h, r, states, rows, heights)
    requires r + h <= ROWS - 1 && Covered(tiles, r, h)
    requires Compacted(tiles, after, r, h) && SingleCells(after) && |after| < |tiles|
    requires NoCompleteRowBelow(after, r) <==> NoCompleteRowBelow(tiles, r)
    ensures Sliding(start, after, filter, h, r, states + [after], rows + [r], heights + [h])
  {
    PassSnoc(states, rows, heights, after, h, r);
    FirstBandsSnoc(states, rows, h, tiles, after, r);
  }

  /** No row below row `r` is complete. */
  ghost predicate NoCompleteRowBelow(tiles: map<nat, Color>, r: nat)
  {
    forall q: nat | q < r :: !Covered(tiles, q, 1)
  }

  /** An incomplete row `r` above incomplete rows extends them by one. */
  lemma IncompleteRowUp(tiles: map<nat, Color>, r: nat)
    requires NoCompleteRowBelow(tiles, r) && !Covered(tiles, r, 1)
    ensures NoCompleteRowBelow(tiles, r + 1)
  {
  }

  /** A complete band has a complete bottom row. */
  lemma CoveredBottomRow(tiles: map<nat, Color>, r: nat, h: nat)
    requires Covered(tiles, r, h) && h >= 1
    ensures Covered(tiles, r, 1)
  {
  }

  /** The tiles after clearing a complete band: the band is compacted away, so there are fewer
      tiles than before and the rows below the band are complete exactly when they were before. */
  method ClearedTiles(tiles: map<nat, Color>, filter: nat, height: nat, ghost r: nat)
    returns (after: map<nat, Color>)
    requires SingleCells(tiles) && height >= 1 && filter == Band(r, height) && Covered(tiles, r, height)
    ensures Compacted(tiles, after, r, height)
    ensures SingleCells(after) && |after| < |tiles|
    ensures forall q: nat | q < r :: Covered(after, q, 1) <==> Covered(tiles, q, 1)
    ensures NoCompleteRowBelow(after, r) <==> NoCompleteRowBelow(tiles, r)
  {
    CoveredCell(tiles, r, height);
    after := ClearBand(tiles, filter, height, r);
    CompactedShrinks(tiles, after, r, height);
    forall q: nat | q < r ensures Covered(after, q, 1) <==> Covered(tiles, q, 1) {
      CompactedKeepsRowsBelow(tiles, after, r, height, q);
    }
  }

  /** The delete loop of `clear_lines`: every bit of the filter that is a placed tile is removed. */
  method DeleteCells(tiles: map<nat, Color>, bits: seq<nat>) returns (all: map<nat, Color>)
    ensures forall k :: k in all <==> k in tiles && k !in bits
    ensures forall k | k in all :: all[k] == tiles[k]
  {
    all := tiles;
    var i := 0;
    while i < |bits|
      invariant 0 <= i <= |bits|
      invariant forall k :: k in all <==> k in tiles && k !in bits[..i]
      invariant forall k | k in all :: all[k] == tiles[k]
    {
      assert bits[..i + 1] == bits[..i] + [bits[i]];
      if bits[i] in all {
        all := all - {bits[i]};
      }
      i := i + 1;
    }
    assert bits[..i] == bits;
  }

  /** The shift loop of `clear_lines`: every tile, all of which lie at cell d or above, moves
      down d cells and keeps its colour. */
  method ShiftCells(shiftTiles: map<nat, Color>, d: nat) returns (shifted: map<nat, Color>)
    requires SingleCells(shiftTiles) && forall b | b in shiftTiles :: b >= Pow2(d)
    ensures SingleCells(shifted)
    ensures forall j: nat :: Pow2(j) in shifted <==> Pow2(j + d) in shiftTiles
    ensures forall j: nat | Pow2(j) in shifted :: shifted[Pow2(j)] == shiftTiles[Pow2(j + d)]
  {
    shifted := map[];
    var rest := shiftTiles.Keys;
    while rest != {}
      invariant rest <= shiftTiles.Keys
      invariant SingleCells(shifted)
      invariant forall j: nat :: Pow2(j) in shifted <==> Pow2(j + d) in shiftTiles && Pow2(j + d) !in rest
      invariant forall j: nat | Pow2(j) in shifted :: shifted[Pow2(j)] == shiftTiles[Pow2(j + d)]
      decreases rest
    {
      var b :| b in rest;
      ShiftCell(b, d);
      shifted := shifted[Shr(b, d) := shiftTiles[b]];
      rest := rest - {b};
    }
  }

  /** A single cell at index d or above, shifted down by d, is the single cell d below it. */
  lemma ShiftCell(b: nat, d: nat)
    requires IsPow2(b) && b >= Pow2(d)
    ensures IsPow2(Shr(b, d))
    ensures forall j: nat :: Pow2(j) == Shr(b, d) <==> Pow2(j + d) == b
  {
    var m := Log2(b);
    IsPow2Exactly(b);
    if m < d {
      Pow2Less(m, d);
      assert false;
    }
    ShrPow2(m, d);
    Pow2IsPow2(m - d);
    forall j: nat ensures Pow2(j) == Pow2(m - d) <==> Pow2(j + d) == b {
      if Pow2(j) == Pow2(m - d) { Pow2Injective(j, m - d); }
      if Pow2(j + d) == b { Pow2Injective(j + d, m); }
    }
  }

  /** The clearing branch of `clear_lines` for a complete filter of `height` rows at row r:
      deletes the tiles inside the filter, moves every tile above it down `height` rows and
      keeps the tiles below it. */
  method ClearBand(tiles: map<nat, Color>, filter: nat, height: nat, ghost r: nat)
    returns (after: map<nat, Color>)
    requires SingleCells(tiles) && height >= 1 && filter == Band(r, height)
    ensures Compacted(tiles, after, r, height)
  {
    var bits := DecomposeBits(filter);
    var all := DeleteCells(tiles, bits);
    var shiftTiles := map b | b in all && b > filter :: all[b];
    var d := height * COLUMNS;
    forall b | b in shiftTiles ensures b >= Pow2(d) {
      IsPow2Exactly(b);
      CellVersusBand(Log2(b), r, height);
      Pow2Monotone(d, Log2(b));
    }
    var shifted := ShiftCells(shiftTiles, d);
    var staticTiles := map b | b in all && b < filter :: all[b];
    AssembleCompacted(tiles, all, shifted, r, height);
    after := shifted + staticTiles;
  }

  /** A placed single-cell tile meets the top border exactly when it is in the top row. */
  lemma TopRowTiles(tiles: map<nat, Color>, top: nat)
    requires SingleCells(tiles) && TopRow(top)
    ensures (exists k :: k in tiles && Collide(k, top)) <==>
      exists i: nat :: COLUMNS * (ROWS - 1) <= i < COLUMNS * ROWS && Pow2(i) in tiles
  {
    if exists k :: k in tiles && Collide(k, top) {
      var k :| k in tiles && Collide(k, top);
      CollideIff(k, top);
      var i: nat :| Bit(k, i) && Bit(top, i);
      IsPow2Exactly(k);
      BitPow2(Log2(k), i);
      assert COLUMNS * (ROWS - 1) <= i < COLUMNS * ROWS && Pow2(i) in tiles;
    }
    if exists i: nat :: COLUMNS * (ROWS - 1) <= i < COLUMNS * ROWS && Pow2(i) in tiles {
      var i: nat :| COLUMNS * (ROWS - 1) <= i < COLUMNS * ROWS && Pow2(i) in tiles;
      BitPow2(i, i);
      CollideAt(Pow2(i), top, i);
    }
  }
}
