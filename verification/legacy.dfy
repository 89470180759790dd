/** The first engine, src/main.py: a piece keeps a list of `Tile` records whose positions are only
    brought up to date by `render`, and the `Tetriminos` controller keeps the placed tiles as a
    list, draws shapes straight from the shape generator and colours from a global cycle. It has
    no stash, no line clearing and no queue. Drawing is not modelled; the position update that
    `render` performs is. */
module Legacy {
  import opened Bits
  import opened Bitboard
  import opened Shapes
  import opened ShapeQueue
  import opened Playfield
  import Pieces
  import Engine

  /** A `Tile` of src/main.py reduced to its board position and its colour. */
  datatype Tile = Tile(bitboard: nat, color: Color)

  /** The cells of `all_borders`: the floor row, the top row and both side columns. */
  ghost predicate BorderRing(a: nat)
  {
    forall i: nat :: Bit(a, i) <==> (i < COLUMNS * ROWS &&
      (i < COLUMNS || COLUMNS * (ROWS - 1) <= i || i % COLUMNS == 0 || i % COLUMNS == COLUMNS - 1))
  }

  lemma AllBordersCells()
    ensures BorderRing(AllBorders())
  {
    forall i: nat ensures Bit(AllBorders(), i) <==> (i < COLUMNS * ROWS &&
      (i < COLUMNS || COLUMNS * (ROWS - 1) <= i || i % COLUMNS == 0 || i % COLUMNS == COLUMNS - 1))
    {
      LeftBit(i);
      RightBit(i);
      TopBit(i);
      BottomBit(i);
    }
  }

  /** The imports of src/main.py from the bitboard module: `all_borders` and the four borders,
      each known by its cells. */
  method ImportBorders() returns (all: nat, bottom: nat, right: nat, left: nat, top: nat)
    ensures BorderRing(all) && FloorRow(bottom) && RightWall(right) && LeftWall(left) && TopRow(top)
  {
    all := AllBorders();
    AllBordersCells();
    bottom, right, left, top := Engine.ImportBorders();
  }

  /** The tiles after `render`: `zip` pairs the k-th set bit of the board with the k-th tile and
      moves that tile there; tiles beyond the last bit stay where they were. (`Tile.render` keeps
      the old position for a zero bit, which `decompose_bits` never yields.) */
  function Rendered(tiles: seq<Tile>, bits: seq<nat>): (r: seq<Tile>)
    ensures |r| == |tiles|
    ensures forall k | 0 <= k < |r| :: r[k].color == tiles[k].color
    ensures forall k | 0 <= k < |r| :: r[k].bitboard == if k < |bits| then bits[k] else tiles[k].bitboard
  {
    seq(|tiles|, k requires 0 <= k < |tiles| =>
      if k < |bits| then Tile(bits[k], tiles[k].color) else tiles[k])
  }

  /** The tiles sit on the board's set bits, lowest bit first, as far as both lists go. */
  ghost predicate Synced(tiles: seq<Tile>, board: nat)
  {
    forall k | 0 <= k < |tiles| && k < |Decompose(board)| :: tiles[k].bitboard == Decompose(board)[k]
  }

  /** The tiles a new piece gets: one tile of colour `c` on each set bit of the board, lowest
      bit first. */
  function Laid(board: nat, c: Color): (r: seq<Tile>)
    ensures |r| == |Decompose(board)|
    ensures forall k | 0 <= k < |r| :: r[k] == Tile(Decompose(board)[k], c)
  {
    seq(|Decompose(board)|, k requires 0 <= k < |Decompose(board)| => Tile(Decompose(board)[k], c))
  }

  /** Laid tiles are one per cell of the board: they cover it, one tile per set bit. */
  lemma LaidCovers(board: nat, c: Color)
    ensures |Laid(board, c)| == Popcount(board)
    ensures Synced(Laid(board, c), board) && Covers(Laid(board, c), board)
  {
    var d := Decompose(board);
    DecomposeSpec(board);
    var r := Laid(board, c);
    assert forall k | 0 <= k < |r| :: r[k].bitboard == d[k];
    OnBits(r, d, board);
  }

  /** The tiles sit on distinct single cells of the board, lowest first, and every cell of the
      board carries one of them. */
  ghost predicate Covers(r: seq<Tile>, board: nat)
  {
    (forall k | 0 <= k < |r| :: IsPow2(r[k].bitboard) && Bit(board, Log2(r[k].bitboard))) &&
    (forall j, k | 0 <= j < k < |r| :: r[j].bitboard < r[k].bitboard) &&
    (forall n: nat | Bit(board, n) :: exists k | 0 <= k < |r| :: r[k].bitboard == Pow2(n))
  }

  /** After `render` of a piece with as many tiles as cells, every tile is on a distinct cell of
      the piece and every cell of the piece carries a tile. */
  lemma RenderedCovers(tiles: seq<Tile>, board: nat)
    requires |tiles| == Popcount(board)
    ensures Synced(Rendered(tiles, Decompose(board)), board)
    ensures Covers(Rendered(tiles, Decompose(board)), board)
  {
    var d := Decompose(board);
    DecomposeSpec(board);
    var r := Rendered(tiles, d);
    assert forall k | 0 <= k < |r| :: r[k].bitboard == d[k];
    OnBits(r, d, board);
  }

  /** Tiles placed one per entry of a list of a board's single bits inherit that list's facts. */
  lemma OnBits(r: seq<Tile>, d: seq<nat>, board: nat)
    requires |r| == |d|
    requires forall k | 0 <= k < |r| :: r[k].bitboard == d[k]
    requires forall j | 0 <= j < |d| :: IsPow2(d[j]) && Bit(board, Log2(d[j]))
    requires forall n: nat | Bit(board, n) :: Pow2(n) in d
    requires forall a, b | 0 <= a < b < |d| :: d[a] < d[b]
    ensures Covers(r, board)
  {
    forall n: nat | Bit(board, n) ensures exists k | 0 <= k < |r| :: r[k].bitboard == Pow2(n) {
      var k :| 0 <= k < |d| && d[k] == Pow2(n);
      assert r[k].bitboard == Pow2(n);
    }
  }

  /** The placed tiles OR-ed together, as `full_board |= tile.bitboard` does one at a time. */
  function TileBoard(tiles: seq<Tile>): nat
  {
    if tiles == [] then 0 else Or(TileBoard(tiles[..|tiles| - 1]), tiles[|tiles| - 1].bitboard)
  }

  /** A board meets the OR of the tiles exactly when it meets one of them. */
  lemma {:induction false} TileBoardHit(z: nat, tiles: seq<Tile>)
    ensures Collide(z, TileBoard(tiles)) <==> exists k | 0 <= k < |tiles| :: Collide(z, tiles[k].bitboard)
  {
    if tiles == [] {
      assert And(z, 0) == 0;
    } else {
      var p := tiles[..|tiles| - 1];
      TileBoardHit(z, p);
      CollideOr(z, TileBoard(p), tiles[|tiles| - 1].bitboard);
      assert forall k | 0 <= k < |p| :: p[k] == tiles[k];
    }
  }

  /** Checking a wall and then each placed tile in turn is one test against the wall and the
      OR of the tiles. */
  lemma BlockedIsHit(zone: nat, wall: nat, tiles: seq<Tile>)
    ensures (Collide(zone, wall) || exists k | 0 <= k < |tiles| :: Collide(zone, tiles[k].bitboard)) <==>
      Collide(zone, Or(wall, TileBoard(tiles)))
  {
    TileBoardHit(zone, tiles);
    CollideOr(zone, wall, TileBoard(tiles));
  }

  lemma OrAssoc(a: nat, b: nat, c: nat)
    ensures Or(Or(a, b), c) == Or(a, Or(b, c))
  {
    BitOrAll(a, b);
    BitOrAll(Or(a, b), c);
    BitOrAll(b, c);
    BitOrAll(a, Or(b, c));
    BitsEqual(Or(Or(a, b), c), Or(a, Or(b, c)));
  }

  /** `collide_bottom` against the floor or against one of the placed tiles: the piece locks. */
  predicate Landed(bitboard: nat, floor: nat, tiles: seq<Tile>)
  {
    CollideBottom(bitboard, floor) || exists k | 0 <= k < |tiles| :: CollideBottom(bitboard, tiles[k].bitboard)
  }

  /** The rotation kick of src/main.py, as written: the candidate is tested against the borders
      and the placed tiles, but each kick only against the borders. Take a candidate with a cell n
      on a placed tile, where n is inside the field and not in its two rightmost columns, and a
      second placed tile on cell n - 1 just right of it: the kick one column right is accepted
      and overlaps that second tile. */
  lemma KickOverlapsTile(all: nat, n: nat)
    requires BorderRing(all)
    requires COLUMNS < n < COLUMNS * (ROWS - 1) && n % COLUMNS >= 2
    ensures var tiles := [Tile(Pow2(n), 0), Tile(Pow2(n - 1), 0)];
      var k := Kick(Pow2(n), Or(all, TileBoard(tiles)), all);
      k == Some(Pow2(n - 1)) && Collide(k.value, TileBoard(tiles))
  {
    var tiles := [Tile(Pow2(n), 0), Tile(Pow2(n - 1), 0)];
    var full := Or(all, TileBoard(tiles));
    assert Collide(full, Pow2(n)) by {
      OnTile(tiles, 0, n);
      CollideOr(Pow2(n), all, TileBoard(tiles));
      CollideSymmetric(full, Pow2(n));
    }
    assert Shr(Pow2(n), 1) == Pow2(n - 1) by {
      ShrPow2(n, 1);
    }
    InsideFree(all, n - 1);
    OnTile(tiles, 1, n - 1);
  }

  /** A single cell equal to a tile's board meets the OR of the tiles. */
  lemma OnTile(tiles: seq<Tile>, k: nat, n: nat)
    requires k < |tiles| && tiles[k].bitboard == Pow2(n)
    ensures Collide(Pow2(n), TileBoard(tiles))
  {
    BitPow2(n, n);
    CollideAt(Pow2(n), Pow2(n), n);
    TileBoardHit(Pow2(n), tiles);
  }

  /** A cell off the border ring does not meet `all_borders`. */
  lemma InsideFree(all: nat, m: nat)
    requires BorderRing(all)
    requires COLUMNS <= m < COLUMNS * (ROWS - 1) && 1 <= m % COLUMNS < COLUMNS - 1
    ensures !Collide(Pow2(m), all)
  {
    CollideIff(Pow2(m), all);
    forall i: nat | Bit(Pow2(m), i) ensures !Bit(all, i) {
      BitPow2(m, i);
    }
  }

  /** A piece of src/main.py. */
  class Tetrimino {
    var shape: Shape
    var tile: Color
    var bitboard: nat
    var rotation: nat
    var locked: bool
    var tiles: seq<Tile>

    /** The rotation counter is in 0..3 and the piece has four tiles in its colour. */
    ghost predicate Valid()
      reads this
    {
      rotation < 4 && |tiles| == 4 && forall k | 0 <= k < |tiles| :: tiles[k].color == tile
    }

    /** `Tetrimino(shape, tile, screen)`: packs the arrangement, moves it to the start near the
        top middle and puts one tile on each set bit (the closing `render` moves no tile). */
    constructor (shape: Shape, tile: Color)
      ensures Valid()
      ensures this.shape == shape && this.tile == tile && rotation == 0 && !locked
      ensures bitboard == Engine.SpawnBoard(shape)
      ensures tiles == Laid(bitboard, tile)
    {
      var packed := ArrangementToBit(Arrangement(shape), COLUMNS);
      var board := Shl(packed, COLUMNS * (ROWS - 1) - COLUMNS / 2 - 2);
      var bits := DecomposeBits(board);
      var t: seq<Tile> := [];
      var i := 0;
      while i < |bits|
        invariant 0 <= i <= |bits| && |t| == i
        invariant forall k | 0 <= k < i :: t[k] == Tile(bits[k], tile)
      {
        t := t + [Tile(bits[i], tile)];
        i := i + 1;
      }
      ShapeBits(shape);
      PopcountShl(Packed(Arrangement(shape), COLUMNS), Pieces.SPAWN_SHIFT);
      DecomposeLength(board);
      this.shape, this.tile, bitboard, rotation, locked, tiles := shape, tile, board, 0, false, t;
    }

    /** `render`, as far as positions go: every tile moves to its bit of the board. An empty tile
        list raises ValueError, reported here as `ok == false`. */
    method Render() returns (ok: bool)
      modifies this
      ensures shape == old(shape) && tile == old(tile) && bitboard == old(bitboard)
      ensures rotation == old(rotation) && locked == old(locked)
      ensures ok <==> old(tiles) != []
      ensures ok ==> tiles == Rendered(old(tiles), Decompose(bitboard))
      ensures !ok ==> tiles == old(tiles)
      ensures old(Valid()) ==> Valid()
    {
      if tiles == [] {
        return false;
      }
      var bits := DecomposeBits(bitboard);
      var t := tiles;
      var i := 0;
      while i < |bits| && i < |t|
        invariant 0 <= i <= |bits| && i <= |t| && |t| == |tiles|
        invariant forall k | 0 <= k < |t| :: t[k] == if k < i then Tile(bits[k], tiles[k].color) else tiles[k]
      {
        t := t[i := Tile(bits[i], t[i].color)];
        i := i + 1;
      }
      tiles := t;
      return true;
    }

    /** `move_down`: one row down; the tiles stay where they were until the next `render`. */
    method MoveDown()
      modifies this
      ensures bitboard == Shr(old(bitboard), COLUMNS)
      ensures shape == old(shape) && tile == old(tile) && rotation == old(rotation)
      ensures locked == old(locked) && tiles == old(tiles)
    {
      bitboard := Shr(bitboard, COLUMNS);
    }

    /** `move_left`: one column left (towards the higher bit). */
    method MoveLeft()
      modifies this
      ensures bitboard == Shl(old(bitboard), 1)
      ensures shape == old(shape) && tile == old(tile) && rotation == old(rotation)
      ensures locked == old(locked) && tiles == old(tiles)
    {
      bitboard := Shl(bitboard, 1);
    }

    /** `move_right`: one column right (towards the lower bit). */
    method MoveRight()
      modifies this
      ensures bitboard == Shr(old(bitboard), 1)
      ensures shape == old(shape) && tile == old(tile) && rotation == old(rotation)
      ensures locked == old(locked) && tiles == old(tiles)
    {
      bitboard := Shr(bitboard, 1);
    }

    /** `set_rotate`: installs the rotated board and advances the rotation counter cyclically. */
    method SetRotate(board: nat)
      modifies this
      ensures bitboard == board
      ensures rotation == if old(rotation) >= 3 then 0 else old(rotation) + 1
      ensures old(rotation) < 4 ==> rotation == (old(rotation) + 1) % 4
      ensures shape == old(shape) && tile == old(tile) && locked == old(locked) && tiles == old(tiles)
    {
      bitboard := board;
      rotation := rotation + 1;
      if rotation > 3 {
        rotation := 0;
      }
    }
  }

  /** The `Tetriminos` controller of src/main.py. `palette` is the colour the module-level
      `tiles = cycle(...)` yields next. */
  class Tetriminos {
    var tiles: seq<Tile>
    var tetrimino: Tetrimino?
    var palette: Color
    const gen: ShapeGenerator
    /** The borders src/main.py imports from the bitboard module. */
    const all: nat
    const bottom: nat
    const right: nat
    const left: nat
    const top: nat

    ghost predicate Valid()
      reads this, gen, tetrimino
    {
      gen.Valid() && (tetrimino != null ==> tetrimino.Valid()) &&
      BorderRing(all) && FloorRow(bottom) && RightWall(right) && LeftWall(left) && TopRow(top)
    }

    /** `get_tetrimino` will make a new piece. */
    ghost predicate NeedsSpawn()
      reads this, tetrimino
    {
      tetrimino == null || tetrimino.locked
    }

    /** `t` is the piece `get_tetrimino` handed out: a fresh piece of the next colour of the
        cycle and of the shape the generator drew, or the active piece it kept, with the cycle and
        the generator untouched. Moves keep the shape and the tile. */
    twostate predicate HandedOut(new t: Tetrimino)
      reads this, t, gen
    {
      if old(NeedsSpawn()) then
        fresh(t) && t.tile == old(palette) && palette == NextColor(old(palette)) &&
        gen.drawn == old(gen.drawn) + [t.shape]
      else
        t == old(tetrimino) && t.shape == old(t.shape) && t.tile == old(t.tile) &&
        palette == old(palette) && unchanged(gen)
    }

    /** `t` is exactly as `get_tetrimino` handed it out: just made, at the start position with its
        tiles rendered there, or the active piece with none of its fields changed. */
    twostate predicate AsHandedOut(new t: Tetrimino)
      reads this, t
    {
      if old(NeedsSpawn()) then
        t.bitboard == Engine.SpawnBoard(t.shape) && t.rotation == 0 && !t.locked && t.tiles == Laid(t.bitboard, t.tile)
      else
        t == old(tetrimino) && unchanged(t)
    }

    /** `t` carries the tiles `get_tetrimino` handed it out with: laid on the start position of a
        new piece, or those of the active piece. */
    twostate predicate TilesAsHandedOut(new t: Tetrimino)
      reads this, t
    {
      t.tiles == if old(NeedsSpawn()) then Laid(Engine.SpawnBoard(t.shape), t.tile) else old(tetrimino.tiles)
    }

    constructor (start: Color)
      ensures Valid() && fresh(gen) && gen.drawn == []
      ensures tiles == [] && tetrimino == null && palette == start
    {
      var a, b, r, l, t := ImportBorders();
      all, bottom, right, left, top := a, b, r, l, t;
      tiles := [];
      tetrimino := null;
      palette := start;
      gen := new ShapeGenerator();
    }

    /** `get_tetrimino`: keeps the active piece while it is unlocked; otherwise takes the next
        colour of the cycle and the next shape of the generator and makes a piece of them. */
    method GetTetrimino() returns (t: Tetrimino)
      requires Valid()
      modifies this, gen
      ensures Valid() && tetrimino == t && !t.locked && tiles == old(tiles)
      ensures old(NeedsSpawn()) ==>
        fresh(t) && gen.drawn == old(gen.drawn) + [t.shape] && t.tile == old(palette) &&
        palette == NextColor(old(palette)) && t.bitboard == Engine.SpawnBoard(t.shape) &&
        t.rotation == 0 && t.tiles == Laid(t.bitboard, t.tile)
      ensures !old(NeedsSpawn()) ==> t == old(tetrimino) && palette == old(palette) && unchanged(gen)
    {
      if tetrimino == null || tetrimino.locked {
        var c := palette;
        palette := NextColor(palette);
        var s := gen.Next();
        t := new Tetrimino(s, c);
        tetrimino := t;
      } else {
        t := tetrimino;
      }
    }

    /** The first half of `move_down` once the piece is known: lock it where it is when it
        lands, otherwise move it down a row. */
    method MoveDownStep(t: Tetrimino)
      requires Valid() && tetrimino == t && !t.locked
      modifies this, t
      ensures Valid() && tetrimino == t && palette == old(palette)
      ensures t.shape == old(t.shape) && t.tile == old(t.tile) && t.rotation == old(t.rotation)
      ensures t.tiles == old(t.tiles)
      ensures t.locked <==> Landed(old(t.bitboard), bottom, old(tiles))
      ensures t.locked ==> t.bitboard == old(t.bitboard) && tiles == old(tiles) + old(t.tiles)
      ensures !t.locked ==> t.bitboard == Shr(old(t.bitboard), COLUMNS) && tiles == old(tiles)
      ensures !t.locked ==> !Collide(t.bitboard, Or(bottom, TileBoard(tiles)))
    {
      if CollideBottom(t.bitboard, bottom) {
        tiles := tiles + t.tiles;
        t.locked := true;
        return;
      }
      var i := 0;
      while i < |tiles|
        invariant 0 <= i <= |tiles|
        invariant forall k | 0 <= k < i :: !CollideBottom(t.bitboard, tiles[k].bitboard)
      {
        if CollideBottom(t.bitboard, tiles[i].bitboard) {
          tiles := tiles + t.tiles;
          t.locked := true;
          return;
        }
        i := i + 1;
      }
      BlockedIsHit(Shr(t.bitboard, COLUMNS), bottom, tiles);
      t.MoveDown();
    }

    /** `move_down`: the piece `get_tetrimino` hands out locks if it has landed (its tiles, at
        their last rendered positions, join the placed tiles) and moves down a row otherwise. */
    method MoveDown()
      requires Valid()
      modifies this, gen, tetrimino
      ensures Valid() && tetrimino != null && HandedOut(tetrimino) && TilesAsHandedOut(tetrimino)
      ensures var before := if old(NeedsSpawn()) then Engine.SpawnBoard(tetrimino.shape) else old(tetrimino.bitboard);
        (Landed(before, bottom, old(tiles)) ==>
          tetrimino.locked && tetrimino.bitboard == before && tiles == old(tiles) + tetrimino.tiles) &&
        (!Landed(before, bottom, old(tiles)) ==>
          !tetrimino.locked && tetrimino.bitboard == Shr(before, COLUMNS) && tiles == old(tiles))
    {
      var t := GetTetrimino();
      MoveDownStep(t);
    }

    /** The checks of `move_left`: `collide_left` against the left border, then against each
        placed tile. */
    method LeftBlocked(bitboard: nat) returns (blocked: bool)
      ensures blocked <==> Collide(Shl(bitboard, 1), Or(left, TileBoard(tiles)))
    {
      BlockedIsHit(Shl(bitboard, 1), left, tiles);
      if CollideLeft(bitboard, left) {
        return true;
      }
      var i := 0;
      while i < |tiles|
        invariant 0 <= i <= |tiles|
        invariant forall k | 0 <= k < i :: !Collide(Shl(bitboard, 1), tiles[k].bitboard)
      {
        if CollideLeft(bitboard, tiles[i].bitboard) {
          return true;
        }
        i := i + 1;
      }
      return false;
    }

    /** `move_left`: one column left unless that meets the left border or a placed tile. */
    method MoveLeft()
      requires Valid()
      modifies this, gen, tetrimino
      ensures Valid() && tetrimino != null && !tetrimino.locked && tiles == old(tiles) && HandedOut(tetrimino)
      ensures TilesAsHandedOut(tetrimino)
      ensures var before := if old(NeedsSpawn()) then Engine.SpawnBoard(tetrimino.shape) else old(tetrimino.bitboard);
        tetrimino.bitboard ==
          if Collide(Shl(before, 1), Or(left, TileBoard(tiles))) then before else Shl(before, 1)
      ensures var before := if old(NeedsSpawn()) then Engine.SpawnBoard(tetrimino.shape) else old(tetrimino.bitboard);
        Collide(Shl(before, 1), Or(left, TileBoard(tiles))) ==> AsHandedOut(tetrimino)
    {
      var t := GetTetrimino();
      var blocked := LeftBlocked(t.bitboard);
      if !blocked {
        t.MoveLeft();
      }
    }

    /** The checks of `move_right`: `collide_right` against the right border, then against each
        placed tile. */
    method RightBlocked(bitboard: nat) returns (blocked: bool)
      ensures blocked <==> Collide(Shr(bitboard, 1), Or(right, TileBoard(tiles)))
    {
      BlockedIsHit(Shr(bitboard, 1), right, tiles);
      if CollideRight(bitboard, right) {
        return true;
      }
      var i := 0;
      while i < |tiles|
        invariant 0 <= i <= |tiles|
        invariant forall k | 0 <= k < i :: !Collide(Shr(bitboard, 1), tiles[k].bitboard)
      {
        if CollideRight(bitboard, tiles[i].bitboard) {
          return true;
        }
        i := i + 1;
      }
      return false;
    }

    /** `move_right`: one column right unless that meets the right border or a placed tile. */
    method MoveRight()
      requires Valid()
      modifies this, gen, tetrimino
      ensures Valid() && tetrimino != null && !tetrimino.locked && tiles == old(tiles) && HandedOut(tetrimino)
      ensures TilesAsHandedOut(tetrimino)
      ensures var before := if old(NeedsSpawn()) then Engine.SpawnBoard(tetrimino.shape) else old(tetrimino.bitboard);
        tetrimino.bitboard ==
          if Collide(Shr(before, 1), Or(right, TileBoard(tiles))) then before else Shr(before, 1)
      ensures var before := if old(NeedsSpawn()) then Engine.SpawnBoard(tetrimino.shape) else old(tetrimino.bitboard);
        Collide(Shr(before, 1), Or(right, TileBoard(tiles))) ==> AsHandedOut(tetrimino)
    {
      var t := GetTetrimino();
      var blocked := RightBlocked(t.bitboard);
      if !blocked {
        t.MoveRight();
      }
    }

    /** `move_down_and_lock`: moves the piece down, rendering after every row, until it locks.
        The loop only ends if the piece has a cell above the floor row, which every spawned
        piece has. The returned count is the number of rows dropped; after at least one drop the
        tiles that join the placed tiles sit on the piece's final cells. The piece locks at the
        first row where it lands. */
    method MoveDownAndLock() returns (ghost drops: nat)
      requires Valid()
      requires !NeedsSpawn() ==> tetrimino.bitboard >= Pow2(COLUMNS)
      modifies this, gen, tetrimino
      ensures Valid() && tetrimino != null && tetrimino.locked && HandedOut(tetrimino)
      ensures tetrimino.rotation == if old(NeedsSpawn()) then 0 else old(tetrimino.rotation)
      ensures var before := if old(NeedsSpawn()) then Engine.SpawnBoard(tetrimino.shape) else old(tetrimino.bitboard);
        tetrimino.bitboard == Engine.Dropped(before, drops) &&
        forall e: nat | e < drops :: !Landed(Engine.Dropped(before, e), bottom, old(tiles))
      ensures Landed(tetrimino.bitboard, bottom, old(tiles))
      ensures tiles == old(tiles) + tetrimino.tiles
      ensures drops > 0 ==> Synced(tetrimino.tiles, tetrimino.bitboard)
      ensures drops == 0 ==> TilesAsHandedOut(tetrimino)
    {
      var t := GetTetrimino();
      if old(NeedsSpawn()) {
        Engine.SpawnAboveFloor(t.shape);
      }
      drops := DropUntilLocked(t);
    }

    /** The loop of `move_down_and_lock` once the piece is known: a row at a time, rendering
        after each, until the piece locks at the first row where it lands. */
    method DropUntilLocked(t: Tetrimino) returns (ghost drops: nat)
      requires Valid() && tetrimino == t && !t.locked && t.bitboard >= Pow2(COLUMNS)
      modifies this, t
      ensures Valid() && tetrimino == t && t.locked && palette == old(palette)
      ensures t.shape == old(t.shape) && t.tile == old(t.tile) && t.rotation == old(t.rotation)
      ensures t.bitboard == Engine.Dropped(old(t.bitboard), drops) && Landed(t.bitboard, bottom, old(tiles))
      ensures forall e: nat | e < drops :: !Landed(Engine.Dropped(old(t.bitboard), e), bottom, old(tiles))
      ensures tiles == old(tiles) + t.tiles
      ensures drops > 0 ==> Synced(t.tiles, t.bitboard)
      ensures drops == 0 ==> t.tiles == old(t.tiles)
    {
      ghost var before := tiles;
      ghost var start, shape, tile, turns, colour, laid := t.bitboard, t.shape, t.tile, t.rotation, palette, t.tiles;
      drops := 0;
      while !t.locked
        invariant Valid() && tetrimino == t && t.shape == shape && t.tile == tile && t.rotation == turns
        invariant palette == colour
        invariant t.bitboard == Engine.Dropped(start, drops)
        invariant !t.locked ==> tiles == before && t.bitboard >= Pow2(COLUMNS)
        invariant t.locked ==> tiles == before + t.tiles && Landed(t.bitboard, bottom, before)
        invariant forall e: nat | e < drops :: !Landed(Engine.Dropped(start, e), bottom, before)
        invariant drops > 0 ==> Synced(t.tiles, t.bitboard)
        invariant drops == 0 ==> t.tiles == laid
        decreases t.bitboard, if t.locked then 0 else 1
      {
        drops := DropRow(t, start, drops, before);
      }
    }

    /** One pass of the loop in `move_down_and_lock`: the piece locks where it is, or drops a row
        and is rendered there. */
    method DropRow(t: Tetrimino, ghost start: nat, ghost drops: nat, ghost before: seq<Tile>)
      returns (ghost next: nat)
      requires Valid() && tetrimino == t && !t.locked
      requires t.bitboard == Engine.Dropped(start, drops) && t.bitboard >= Pow2(COLUMNS)
      requires tiles == before
      requires drops > 0 ==> Synced(t.tiles, t.bitboard)
      modifies this, t
      ensures Valid() && tetrimino == t && palette == old(palette)
      ensures t.shape == old(t.shape) && t.tile == old(t.tile) && t.rotation == old(t.rotation)
      ensures t.bitboard == Engine.Dropped(start, next)
      ensures t.locked <==> Landed(old(t.bitboard), bottom, before)
      ensures t.locked ==> next == drops && tiles == before + t.tiles && Landed(t.bitboard, bottom, before)
      ensures !t.locked ==> next == drops + 1 && tiles == before && Pow2(COLUMNS) <= t.bitboard < old(t.bitboard)
      ensures next > 0 ==> Synced(t.tiles, t.bitboard)
      ensures t.locked ==> t.tiles == old(t.tiles)
    {
      ghost var b := t.bitboard;
      MoveDownStep(t);
      next := drops;
      if !t.locked {
        StepAboveFloor(b, bottom);
        ShrLess(b, COLUMNS);
        Engine.DropStep(start, drops, b, t.bitboard);
        next := drops + 1;
        var _ := t.Render();
      }
    }

    /** `full_board`: `all_borders` with every placed tile OR-ed in, one at a time. */
    method FullBoard() returns (full: nat)
      ensures full == Or(all, TileBoard(tiles))
    {
      full := all;
      var i := 0;
      while i < |tiles|
        invariant 0 <= i <= |tiles|
        invariant full == Or(all, TileBoard(tiles[..i]))
      {
        assert tiles[..i + 1][..i] == tiles[..i];
        OrAssoc(all, TileBoard(tiles[..i]), tiles[i].bitboard);
        full := Or(full, tiles[i].bitboard);
        i := i + 1;
      }
      assert tiles[..i] == tiles;
    }

    /** `rotate`, given the candidate board `test_rotate` computes for the active piece: the
        candidate is tested against `all_borders` and the placed tiles; on a collision it is
        kicked one column right, else one column left, each kick tested against `all_borders`
        only; with no free position nothing changes. */
    method Rotate(candidate: nat)
      requires Valid()
      modifies this, gen, tetrimino
      ensures Valid() && tetrimino != null && !tetrimino.locked && tiles == old(tiles) && HandedOut(tetrimino)
      ensures TilesAsHandedOut(tetrimino)
      ensures var before := if old(NeedsSpawn()) then Engine.SpawnBoard(tetrimino.shape) else old(tetrimino.bitboard);
        var turns := if old(NeedsSpawn()) then 0 else old(tetrimino.rotation);
        var k := Kick(candidate, Or(all, TileBoard(tiles)), all);
        (k.None? ==> tetrimino.bitboard == before && tetrimino.rotation == turns && AsHandedOut(tetrimino)) &&
        (k.Some? ==> tetrimino.bitboard == k.value && tetrimino.rotation == (turns + 1) % 4)
      ensures tetrimino.bitboard != (if old(NeedsSpawn()) then Engine.SpawnBoard(tetrimino.shape) else old(tetrimino.bitboard)) ==>
        !Collide(tetrimino.bitboard, all)
    {
      var t := GetTetrimino();
      var test := candidate;
      var full := FullBoard();
      CollideSymmetric(test, all);
      if Collide(full, test) {
        if !Collide(Shr(test, 1), all) {
          test := Shr(test, 1);
        } else if !Collide(Shl(test, 1), all) {
          test := Shl(test, 1);
        } else {
          return;
        }
      } else {
        CollideOr(test, all, TileBoard(tiles));
        CollideSymmetric(full, test);
      }
      CollideSymmetric(test, all);
      t.SetRotate(test);
    }

    /** `is_game_over`: some placed tile has a cell in the top row. (The source returns None
        rather than False when none has.) */
    method IsGameOver() returns (over: bool)
      requires Valid()
      ensures over <==> exists k | 0 <= k < |tiles| :: Collide(tiles[k].bitboard, top)
      ensures over <==> exists k, i: nat | 0 <= k < |tiles| :: COLUMNS * (ROWS - 1) <= i < COLUMNS * ROWS && Bit(tiles[k].bitboard, i)
    {
      TopRowHit(tiles, top);
      over := false;
      var i := 0;
      while i < |tiles|
        invariant 0 <= i <= |tiles|
        invariant forall k | 0 <= k < i :: !Collide(tiles[k].bitboard, top)
      {
        if Collide(tiles[i].bitboard, top) {
          return true;
        }
        i := i + 1;
      }
    }
  }

  /** A tile meets the top border exactly when it has a cell in the top row. */
  lemma TopRowHit(tiles: seq<Tile>, top: nat)
    requires TopRow(top)
    ensures (exists k | 0 <= k < |tiles| :: Collide(tiles[k].bitboard, top)) <==>
      exists k, i: nat | 0 <= k < |tiles| :: COLUMNS * (ROWS - 1) <= i < COLUMNS * ROWS && Bit(tiles[k].bitboard, i)
  {
    if exists k | 0 <= k < |tiles| :: Collide(tiles[k].bitboard, top) {
      var k :| 0 <= k < |tiles| && Collide(tiles[k].bitboard, top);
      CollideIff(tiles[k].bitboard, top);
      var i: nat :| Bit(tiles[k].bitboard, i) && Bit(top, i);
      assert COLUMNS * (ROWS - 1) <= i < COLUMNS * ROWS;
    }
    if exists k, i: nat | 0 <= k < |tiles| :: COLUMNS * (ROWS - 1) <= i < COLUMNS * ROWS && Bit(tiles[k].bitboard, i) {
      var k, i: nat :| 0 <= k < |tiles| && COLUMNS * (ROWS - 1) <= i < COLUMNS * ROWS && Bit(tiles[k].bitboard, i);
      assert Bit(top, i);
      CollideAt(tiles[k].bitboard, top, i);
    }
  }
}
