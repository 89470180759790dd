# A verified model of the bitboard Tetris engine

The game stores the play field as one arbitrary-precision integer per object. The field is 12
columns by 22 rows. Cell `i` is row `i / 12` and column `i % 12`; row 0 is the floor and column 0
is the right wall. The borders, each piece and each placed tile are bit sets over these cells.
Moving a piece is a shift: one row down is `>> 12`, one column left is `<< 1` and one column right
is `>> 1`. A collision test is `a & b > 0`.

This project models the core of that engine in Dafny and proves properties of the model.

- `bits.dfy` (module `Bits`): Python's non-negative `int` as `nat`, with `<<`, `>>`, `&`, `|`
  and popcount defined by recursion on halving. It also holds the bit-level lemmas everything
  else rests on.
- `bitboard.dfy` (module `Bitboard`), from src/bitboard.py:
  - the loops that build `bottom_border` and `right_border`;
  - the derived `left_border`, `top_border` and `all_borders`;
  - `arrangement_to_bit`, with the row stride as a parameter;
  - `decompose_bits`.
- `shapes.dfy` (module `Shapes`): the seven-shape catalog of src/tetriminos.py, with trimming,
  width and height.
- `queue.dfy` (module `ShapeQueue`): `shape_generator`, `TetriminoQueue` and `TetriminoStash`,
  plus the colour cycle as an index mod 7.
- `tetrimino.dfy` (module `Pieces`): the `Tetrimino` class of src/tetriminos.py and the
  shift-recovery loop of `test_rotate`.
- `playfield.dfy` (module `Playfield`): what the controllers share. This covers the `collide*`
  tests, the cells of each border, the full board, line filters as bands of rows, and the
  rotation kick.
- `game.dfy` (module `Engine`): the `Game` controller of src/tetriminos.py. It covers spawning,
  stashing, moves, locking, rotation with kicks, line clearing and the game-over test.
- `legacy.dfy` (module `Legacy`): the older engine of src/main.py, kept as a separate variant.
  - Pieces carry a list of `Tile` records, and only `render` moves those tiles onto the piece's
    cells.
  - The controller keeps the placed tiles as a list.
  - Its rotation kick tests the kicked positions against the borders only.
- `levels.dfy` (module `Levels`): the SNES gravity table and `get_snes_speed`.

State that the source changes in place is modelled as classes with `modifies` clauses: pieces,
the generator, the queue, the stash and both controllers. The module-level loops and the
functions with loops are methods with loop invariants, each proved against a specification
function.

A few conventions run through the model:

- The borders are held as constant fields of the controllers, each characterised by its cells
  (`FloorRow`, `RightWall`, `LeftWall`, `TopRow`, `BorderRing`).
- The random shuffle is a nondeterministic choice of a permutation of the seven shapes.
- Pygame surfaces are reduced to a colour index.

## Model

| member | source | states |
|---|---|---|
| Bitboard.BuildBottomBorder | src/bitboard.py:6-8 | the loop yields exactly bits 0..columns-1 |
| Bitboard.BottomMaskBit | src/bitboard.py:6-8 | bit i of the floor mask is set iff i < columns, and the mask is below 2^columns |
| Bitboard.BottomMaskValue | src/bitboard.py:6-8 | the floor mask plus one is 2^columns |
| Bitboard.BottomMaskStep | src/bitboard.py:7-8 | one more pass of the loop ORs in exactly the next higher bit |
| Bitboard.BuildRightBorder | src/bitboard.py:10-12 | the loop yields exactly the bits 12*i for i < rows |
| Bitboard.RightMaskBit | src/bitboard.py:10-12 | bit i of the right mask is set iff i % 12 == 0 and i / 12 < rows, and the mask is below 2^(12*rows) |
| Bitboard.RightMaskStep | src/bitboard.py:11-12 | one more pass of the loop ORs in exactly bit 12*rows |
| Bitboard.RowUp | src/bitboard.py:12 | moving a mask up one 12-bit row and setting bit 0 is `(x << 11) * 2 + 1` |
| Bitboard.Pow2Row | src/bitboard.py:12 | 2^(a+12) is 2^a moved up one row |
| Bitboard.LeftMask | src/bitboard.py:14 | `right_border << (columns-1)` has exactly the bits columns-1 + 12*k for k < rows |
| Bitboard.TopMask | src/bitboard.py:15 | `bottom_border << columns*(rows-1)` is exactly row rows-1 |
| Bitboard.AllMask | src/bitboard.py:17 | a bit of `all_borders` is set iff it is set in one of the four masks |
| Bitboard.BottomBit | src/bitboard.py:6-8 | on the 12 x 22 field, `bottom_border` is exactly row 0 |
| Bitboard.RightBit | src/bitboard.py:10-12 | on the field, `right_border` is exactly column 0 of every row |
| Bitboard.LeftBit | src/bitboard.py:14 | on the field, `left_border` is exactly column 11 of every row |
| Bitboard.TopBit | src/bitboard.py:15 | on the field, `top_border` is exactly row 21 |
| Bitboard.LeftMaskAt12 | src/bitboard.py:14 | with 12 columns the left mask marks column 11 of the first `rows` rows |
| Bitboard.TopMaskAt | src/bitboard.py:15 | the top mask is exactly the cells of the topmost row |
| Bitboard.AllBordersInside | src/bitboard.py:17 | with 12 columns every bit of `all_borders` lies below rows*columns |
| Bitboard.TileBit | src/bitboard.py:33-36 | a tile contributes a 1 bit iff it is not 0 |
| Bitboard.ArrangementToBit | src/bitboard.py:27-39 | the nested loops compute the packed value: each earlier row `width` bits above the next |
| Bitboard.RowBitsBit | src/bitboard.py:31-36 | bit c of a row's pattern is set iff the c-th entry from the right is non-zero; the first entry is the top bit |
| Bitboard.RowCountPopcount | src/bitboard.py:31-36 | a row's pattern has one set bit per non-zero entry |
| Bitboard.RowCountSnoc | src/bitboard.py:32-36 | counting non-zero entries row by row adds the last entry's bit |
| Bitboard.CellCountSnoc | src/bitboard.py:29-37 | counting non-zero cells adds the last row's count |
| Bitboard.ShlDisjoint | src/bitboard.py:30-37 | a value shifted up k bits shares no bit with a value below 2^k, so `|=` adds the row without carries |
| Bitboard.PackedBit | src/bitboard.py:27-39 | with rows of at most 12 entries, bit i of the result is set iff the cell i/12 rows from the bottom and i%12 from the right is non-zero |
| Bitboard.PackedPopcount | src/bitboard.py:27-39 | with rows of at most `width` entries, the result has exactly one set bit per non-zero cell |
| Bitboard.DecomposeBits | src/bitboard.py:41-48 | the loop over i = 1, 2, 4, ... while i <= x returns the single set bits of x, lowest first |
| Bitboard.AndPow2 | src/bitboard.py:45 | `i & x` for i = 2^k is i when bit k of x is set and 0 otherwise |
| Bitboard.BitLengthBound | src/bitboard.py:44 | x < 2^k iff x has at most k binary digits, which bounds the loop |
| Bitboard.BitBelowLength | src/bitboard.py:44 | every set bit of x is below its length, so the loop reaches it |
| Bitboard.SinglesBelow | src/bitboard.py:43-47 | the bits collected before step k are below 2^k and strictly ascending |
| Bitboard.SinglesMember | src/bitboard.py:43-47 | each collected value is a set bit of x, and every set bit below k is collected |
| Bitboard.LowBitsStep | src/bitboard.py:43-47 | the low k bits of x add bit k-1's value to the low k-1 bits |
| Bitboard.LowBitsBelow | src/bitboard.py:43-47 | the low k bits of x are below 2^k |
| Bitboard.SinglesSum | src/bitboard.py:43-47 | the collected bits sum to the low k bits of x, and there is one per set bit |
| Bitboard.LowBitsAll | src/bitboard.py:44 | the low bits up to x's length are x itself |
| Bitboard.DecomposeSpec | src/bitboard.py:41-48 | the result holds powers of two at set bits of x, holds every set bit, ascends strictly, sums to x and has popcount(x) entries |
| Bitboard.DecomposeAscending | src/bitboard.py:41-48 | the result is strictly ascending |
| Bitboard.DecomposeLength | src/bitboard.py:41-48 | the result sums to x and has popcount(x) entries |
| Shapes.EveryShapeListed | src/tetriminos.py:58-65 | `list(Shapes)` holds each of the seven shapes exactly once |
| Shapes.TrimmedConcat | src/tetriminos.py:106-108 | trimming distributes over concatenation, so the kept rows stay in order |
| Shapes.TrimmedRows | src/tetriminos.py:106-108 | trimming keeps exactly the rows with a non-zero sum and never adds rows |
| Shapes.CatalogShape | src/tetriminos.py:68-116 | the widths are 4, 2 and 3, the heights 1 for `i` and 2 otherwise; every grid is square with 0/1 entries and has four cells |
| Shapes.CatalogHeight | src/tetriminos.py:114-116 | trimmed height is 1 for `i` and 2 for the others |
| Shapes.CatalogRows | src/tetriminos.py:68-104 | no row is wider than the shape's width |
| Shapes.CatalogCount | src/tetriminos.py:68-104 | every shape's grid holds only 0 and 1 and exactly four cells |
| Shapes.CountI | src/tetriminos.py:69-74 | the `i` grid holds 0/1 only and four cells |
| Shapes.CountJ | src/tetriminos.py:75-79 | the `j` grid holds 0/1 only and four cells |
| Shapes.CountL | src/tetriminos.py:80-84 | the `l` grid holds 0/1 only and four cells |
| Shapes.CountO | src/tetriminos.py:85-88 | the `o` grid holds 0/1 only and four cells |
| Shapes.CountS | src/tetriminos.py:89-93 | the `s` grid holds 0/1 only and four cells |
| Shapes.CountT | src/tetriminos.py:94-98 | the `t` grid holds 0/1 only and four cells |
| Shapes.CountZ | src/tetriminos.py:99-103 | the `z` grid holds 0/1 only and four cells |
| Shapes.ShapeBits | src/tetriminos.py:152-153 | packed at 12 columns, every shape fits and has exactly four set bits |
| ShapeQueue.NextColor | src/tetriminos.py:51 | `next(tiles)` advances the seven-colour cycle by one and wraps from the last to the first |
| ShapeQueue.BagLength | src/tetriminos.py:236-237 | a shuffled `list(Shapes)` has seven entries |
| ShapeQueue.BagOnce | src/tetriminos.py:236-237 | a shuffled bag holds every shape, each once |
| ShapeQueue.TwiceCounted | src/tetriminos.py:236-237 | a shape at two positions of a list is counted twice |
| ShapeQueue.ShapeGenerator.constructor | src/tetriminos.py:232-233 | the generator starts with an empty bag and has yielded nothing |
| ShapeQueue.ShapeGenerator.Next | src/tetriminos.py:234-238 | pops the front of the bag, refilling it with a permutation of the seven shapes when empty; what was yielded so far plus the bag stays a run of whole bags |
| ShapeQueue.Refilled | src/tetriminos.py:235-237 | a refill appends one whole bag of seven to the yielded run |
| ShapeQueue.Popped | src/tetriminos.py:238 | popping the front moves it from the bag to the yielded shapes without changing the stream |
| ShapeQueue.BlocksAppend | src/tetriminos.py:235-238 | appending a bag to a run of whole bags gives a run of whole bags |
| ShapeQueue.BagsPrefix | src/tetriminos.py:232-238 | a prefix of whole-bag length of such a run is itself a run of whole bags |
| ShapeQueue.DrawnInBags | src/tetriminos.py:232-238 | every aligned block of seven yielded shapes is a permutation of the seven shapes |
| ShapeQueue.TetriminoQueue.constructor | src/tetriminos.py:242-245 | the queue starts with seven lookahead shapes forming a bag, and its colour is the `start` parameter, standing for the colour the shared cycle yields next |
| ShapeQueue.TetriminoQueue.Peek | src/tetriminos.py:258-259 | `peek` is the oldest of the seven queued shapes with the current colour |
| ShapeQueue.TetriminoQueue.Next | src/tetriminos.py:250-256 | `__next__` returns what `peek` returned, appends one new draw, keeps seven lookahead and advances the colour |
| ShapeQueue.HandedInBags | src/tetriminos.py:241-256 | the shapes handed out so far are aligned blocks of permutations of the seven shapes |
| ShapeQueue.TetriminoStash.constructor | src/tetriminos.py:263-264 | the stash starts empty |
| ShapeQueue.TetriminoStash.Stash | src/tetriminos.py:266-268 | returns the previous value and stores the new one |
| Pieces.AscendingCard | src/tetriminos.py:156-157 | distinct ascending bits give as many map keys as bits |
| Pieces.TilesBound | src/tetriminos.py:169-174 | tiles keyed by bits of the board are at most popcount many |
| Pieces.PrefixTiles | src/tetriminos.py:172-173 | keying the first n bits gives n tiles, each on a bit of the board |
| Pieces.ShiftCompare | src/tetriminos.py:209-215 | a live board that is `compare` shifted by s compares greater exactly when s > 0 |
| Pieces.ShiftStep | src/tetriminos.py:209-215 | each step of the second loop moves the board one bit toward `compare` and the shift count with it |
| Pieces.DropEmptyRow | src/tetriminos.py:205-207 | dropping an empty bottom row keeps the board a shift of `compare`, 12 less, and strictly smaller |
| Pieces.ShiftUnique | src/tetriminos.py:209-215 | the shift between a board and `compare` is unique |
| Pieces.LowestBit | src/tetriminos.py:205 | a non-zero board has a lowest set bit |
| Pieces.Rekeyed | src/tetriminos.py:169-174 | `update_tiles` of n tiles of one colour gives min(popcount, n) tiles, each of that colour on a set bit of the board |
| Pieces.RekeyedAgain | src/tetriminos.py:169-174 | re-keying onto a board with no more set bits than the last one is the same as re-keying the original count |
| Pieces.Tetrimino.constructor | src/tetriminos.py:152-157 | packs the arrangement at 12 columns with rotation 0, and gives each of its four set bits a tile in the piece's colour |
| Pieces.Tetrimino.UpdateTiles | src/tetriminos.py:169-174 | the tiles become the old colour on the lowest set bits of the board, min(popcount, old count) of them, each on a bit of the board |
| Pieces.Tetrimino.MoveToStart | src/tetriminos.py:159-164 | shifts the board up by 12*21 - 6 - 2 and re-keys the tiles onto it, keeping their count |
| Pieces.Tetrimino.MoveDown | src/tetriminos.py:176-178 | the board becomes `>> 12` and the tiles are re-keyed onto it; their count is kept when no cell is lost |
| Pieces.Tetrimino.MoveLeft | src/tetriminos.py:180-182 | the board becomes `<< 1` and the tiles are re-keyed onto it, keeping their count |
| Pieces.Tetrimino.MoveRight | src/tetriminos.py:184-186 | the board becomes `>> 1` and the tiles are re-keyed onto it; their count is kept when no cell is lost |
| Pieces.Tetrimino.SetRotate | src/tetriminos.py:224-229 | stores the board, re-keys the tiles onto it and advances the rotation cyclically within 0..3 |
| Pieces.Tetrimino.TestRotate | src/tetriminos.py:201-221 | recovers the shift of the live board relative to `compare` and applies it to `rotated`; a negative shift is the ValueError of `<<=`; no field changes |
| Playfield.CollideAt | src/tetriminos.py:382-384 | two boards sharing a set bit collide |
| Playfield.ShlHit | src/tetriminos.py:386-390 | the board shifted up k meets obj iff some cell i of the board has cell i+k of obj |
| Playfield.ShrHit | src/tetriminos.py:392-402 | the board shifted down k meets obj iff some cell i+k of the board has cell i of obj |
| Playfield.CollideLeftBits | src/tetriminos.py:386-390 | `collide_left` holds iff some cell of the piece has an obj cell just to its left |
| Playfield.CollideRightBits | src/tetriminos.py:392-396 | `collide_right` holds iff some cell of the piece has an obj cell just to its right |
| Playfield.CollideBottomBits | src/tetriminos.py:398-402 | `collide_bottom` holds iff some cell of the piece has an obj cell just below it |
| Playfield.UnionBit | src/tetriminos.py:376-380 | a bit of the OR of the tiles is set iff it is set in one of them |
| Playfield.PlacedBit | src/tetriminos.py:376-380 | for single-cell tiles, bit i of their OR is set iff 2^i is a placed tile |
| Playfield.HitsAnyTile | src/tetriminos.py:473-475 | testing each tile in turn finds a hit iff the OR of the tiles is hit |
| Playfield.BlockedIsBoardHit | src/tetriminos.py:468-488 | a border test followed by one test per tile is one test against border OR tiles |
| Playfield.UnionInsert | src/tetriminos.py:378-379 | one more `full_board \|= tile` adds exactly that tile to the OR |
| Playfield.FloorRowCells | src/bitboard.py:6-8 | `bottom_border` has the cells of the floor row |
| Playfield.RightWallCells | src/bitboard.py:10-12 | a board has exactly the cells of column 0 iff it is `right_border` |
| Playfield.LeftWallCells | src/bitboard.py:14 | a board has exactly the cells of column 11 iff it is `left_border` |
| Playfield.LeftWallOfLeft | src/bitboard.py:14 | `left_border` has the cells of column 11 |
| Playfield.TopRowCells | src/bitboard.py:15 | a board has exactly the cells of row 21 iff it is `top_border` |
| Playfield.WallsBits | src/tetriminos.py:377 | `right_border \| left_border` is both side columns |
| Playfield.FullBoardBit | src/tetriminos.py:376-380 | bit i of the full board with walls is set iff i is a side-column cell or 2^i is a placed tile |
| Playfield.BandBit | src/tetriminos.py:405-411 | a filter of h rows starting at row r has exactly the cells of those rows |
| Playfield.BandAll | src/tetriminos.py:405-411 | the same, for every cell at once |
| Playfield.BandBelow | src/tetriminos.py:417 | a band is below 2^(12*(r+h)) |
| Playfield.BitAtLeast | src/tetriminos.py:431 | a board is at least the value of any of its set bits |
| Playfield.CellVersusBand | src/tetriminos.py:431-440 | a single cell is above the filter value iff it lies above the band, and below it otherwise |
| Playfield.BandBelowTop | src/tetriminos.py:417 | `line_filter < top_border` iff the band ends below the top row |
| Playfield.BandGrow | src/tetriminos.py:408-409 | one more `line_filter \|= bottom_border << COLUMNS*j` adds row j |
| Playfield.BandUp | src/tetriminos.py:422 | `line_filter <<= COLUMNS` moves the band up one row |
| Playfield.StepAboveFloor | src/tetriminos.py:445-462 | a piece above the floor row that does not land on the floor is still above it after a step down |
| Playfield.CoveredCell | src/tetriminos.py:421 | a covered band holds a tile in column 1 of its lowest row |
| Playfield.FilterCovered | src/tetriminos.py:419-421 | `(line_filter & full_board) == line_filter` iff every inner cell of the band holds a tile |
| Playfield.CompactedKeepsRowsBelow | src/tetriminos.py:439-442 | a clear keeps the rows below the band as they were |
| Playfield.BandDecomposed | src/tetriminos.py:426 | the filter's decomposed bits are exactly the band's cells |
| Playfield.AssembleCompacted | src/tetriminos.py:426-442 | delete, shift and keep together give a board whose upper rows moved down by the band height |
| Playfield.StageBelow | src/tetriminos.py:439-442 | a cell below the band keeps its tile through delete, shift and merge |
| Playfield.StageAbove | src/tetriminos.py:430-437 | a cell at or above the band's bottom row gets the tile from h rows higher |
| Playfield.LiftedInjective | src/tetriminos.py:430-437 | the shift down of the tiles above the band maps distinct tiles to distinct cells |
| Playfield.LiftAllCard | src/tetriminos.py:430-437 | lifting a set of single cells keeps its size |
| Playfield.CompactedShrinks | src/tetriminos.py:426-442 | clearing a complete band strictly reduces the tile count |
| Playfield.LiftedCell | src/tetriminos.py:426-442 | every tile after the clear comes from a tile before it that is not in the band |
| Playfield.Kick | src/tetriminos.py:502-508 | a free candidate is kept; otherwise `>> 1` is taken when it fits, and `<< 1` only when `>> 1` does not; nothing only when all three collide |
| Playfield.KickFits | src/tetriminos.py:500-510 | with the full board used for both tests, an accepted position never overlaps it, and a free candidate is kept |
| Engine.SpawnAboveFloor | src/tetriminos.py:349-358 | a spawned piece has a cell above the floor row |
| Engine.ShiftedAboveFloor | src/tetriminos.py:159-162 | any non-empty board moved to the start has a cell above the floor row |
| Engine.DropStep | src/tetriminos.py:490-494 | one more row of drop adds 12 to the total shift |
| Engine.RekeyedDrop | src/tetriminos.py:176-178 | one more row down re-keys the tiles the same way whether counted from the piece's first map or from its map after earlier drops |
| Engine.BitboardBorders | src/tetriminos.py:25-36 | the imported borders have the cells of floor, right wall, left wall and top row |
| Engine.ImportBorders | src/tetriminos.py:25-36 | the four borders the game imports, each known by its cells |
| Engine.PieceCells | src/tetriminos.py:169-174 | every tile of a piece sits on a single cell |
| Engine.Game.constructor | src/tetriminos.py:344-347 | no tiles, no active piece, empty stash |
| Engine.Game.GetTetrimino | src/tetriminos.py:349-358 | spawns from the queue's next piece at the start only when there is no piece or it is locked, with four tiles of its colour on the lowest bits of its board; otherwise returns the active piece unchanged |
| Engine.Game.Stash | src/tetriminos.py:360-374 | stores the active piece's shape and colour and returns them; respawns the previously stashed piece at the start, or leaves no active piece |
| Engine.Game.GetFullBoard | src/tetriminos.py:376-380 | the loop ORs every placed tile onto the side walls or onto 0 |
| Engine.Game.MoveDownStep | src/tetriminos.py:445-462 | if one row down meets the floor or a tile, the piece's tiles merge into the placed tiles and it locks in place; otherwise it drops one row, its tiles re-keyed onto the lowest bits of the new board, and nothing else changes |
| Engine.Game.MoveDown | src/tetriminos.py:464-466 | `_move_down` of the piece `get_tetrimino` hands out, which keeps its shape and colour; when it lands its tile map is the one handed out, otherwise that map re-keyed onto the board one row down |
| Engine.Game.LeftBlocked | src/tetriminos.py:468-475 | the checks find a hit iff `bitboard << 1` meets the left border or a placed tile |
| Engine.Game.MoveLeft | src/tetriminos.py:468-477 | the piece handed out, same shape and colour, moves exactly one column left unless blocked, its tile map re-keyed onto the new board; when blocked it is exactly as handed out, tiles included; the placed tiles and the queue do not change beyond the spawn |
| Engine.Game.RightBlocked | src/tetriminos.py:479-486 | the checks find a hit iff `bitboard >> 1` meets the right border or a placed tile |
| Engine.Game.MoveRight | src/tetriminos.py:479-488 | the piece handed out, same shape and colour, moves exactly one column right unless blocked, its tile map re-keyed onto the new board; when blocked it is exactly as handed out, tiles included; the placed tiles and the queue do not change beyond the spawn |
| Engine.Game.MoveDownAndLock | src/tetriminos.py:490-494 | the piece handed out drops whole rows and locks at the first row where it lands on the floor or a tile, not landed at any earlier row; its tile map is the one handed out re-keyed onto the final board (unchanged with no drop), and those tiles join the placed tiles |
| Engine.Game.DropUntilLocked | src/tetriminos.py:492-494 | the loop stops at the first drop where the piece has landed; the piece keeps shape, colour and rotation, and its tile map is its starting map re-keyed onto the final board |
| Engine.Game.Rotate | src/tetriminos.py:496-510 | the piece handed out takes the kicked candidate through `set_rotate`, with its tile map re-keyed onto it, or stays exactly as handed out when no kick fits; a new position never overlaps walls or tiles |
| Engine.Game.RotationTarget | src/tetriminos.py:500-508 | the accepted position is the kick of the candidate against the full board with walls |
| Engine.Game.LineFilters | src/tetriminos.py:405-412 | the filters cover the bottom 1, 2, 3 and 4 rows |
| Engine.Game.ClearLines | src/tetriminos.py:404-442 | the tiles go through four passes, of bands of 4, 3, 2 and 1 rows, each starting from the board the one before left and each a finished pass of its height; the list returned is the passes' clear heights one after the other, each 1..4 and in non-increasing order; all clears form one run, each removing a complete band and moving the rows above it down; afterwards no row below the top row is complete; with no complete row at the start nothing changes |
| Engine.Game.SlideFilters | src/tetriminos.py:413-442 | the loop over the filters of 4, 3, 2 and 1 rows leaves the record of four chained passes, their heights in non-increasing order, and no complete row below the top |
| Engine.Game.SlideFilter | src/tetriminos.py:415-442 | one pass of a filter up the field: a run of clears of its height at ascending rows, each at the lowest complete band at or above the row of the clear before it, and no complete band left from the last clear's row up to the top; after the one-row pass no row below the top is complete; with no complete row nothing is cleared |
| Engine.ClearRunSnoc | src/tetriminos.py:438-442 | one more clear extends a run |
| Engine.ClearRunAppend | src/tetriminos.py:414-415 | the passes of successive filters join into one run |
| Engine.RunFromStart | src/tetriminos.py:415-442 | a run with no clear ends where it began, and a field with no complete row starts no clear |
| Engine.PassSnoc | src/tetriminos.py:438-442 | a clear at the filter's row extends the pass in ascending row order |
| Engine.SlideUp | src/tetriminos.py:421-424 | an incomplete band moves the filter up a row and keeps the pass |
| Engine.SlideClear | src/tetriminos.py:426-442 | a cleared band keeps the pass with the filter at its row |
| Engine.FirstBandsSnoc | src/tetriminos.py:417-442 | a clear made with no complete band between the previous clear and it keeps every clear at the lowest complete band |
| Engine.SlideDone | src/tetriminos.py:417-442 | when the filter reaches the top border the pass is finished: no complete band from the last clear up, the field unchanged if nothing was cleared |
| Engine.SweptSnoc | src/tetriminos.py:413-415 | a finished pass starting from the board the earlier passes left extends the chain of passes |
| Engine.ClearingStep | src/tetriminos.py:413-442 | one more pass extends the run of clears and keeps the heights in non-increasing order |
| Engine.AllPasses | src/tetriminos.py:404-442 | after the four passes every height is 1..4, in non-increasing order, and the clears chain from the start to the end |
| Engine.DescendingAppend | src/tetriminos.py:413-429 | heights above h followed by heights equal to h stay in non-increasing order |
| Engine.Game.IsGameOver | src/tetriminos.py:517-520 | true iff some placed tile meets `top_border`, that is iff a tile lies in row 21 |
| Engine.ClearedTiles | src/tetriminos.py:426-442 | clearing a complete band removes it and moves the rows above it down by its height, leaving fewer tiles and the rows below unchanged |
| Engine.DeleteCells | src/tetriminos.py:426-428 | exactly the filter's bits are deleted from the tiles |
| Engine.ShiftCells | src/tetriminos.py:430-437 | every tile moves down by `height*COLUMNS` cells, with its colour |
| Engine.ShiftCell | src/tetriminos.py:436 | a single cell shifted down by d is the cell d below it |
| Engine.ClearBand | src/tetriminos.py:426-442 | the tiles after one clear are the band removed and the rows above moved down by its height |
| Engine.TopRowTiles | src/tetriminos.py:517-520 | a single-cell tile meets the top border iff it is in row 21 |
| Legacy.AllBordersCells | src/bitboard.py:17 | `all_borders` is exactly the floor row, top row and both side columns |
| Legacy.ImportBorders | src/main.py:23-34 | the borders the old engine imports, each known by its cells |
| Legacy.Rendered | src/main.py:149-155 | `render` moves the k-th tile to the k-th set bit and leaves tiles past the last bit, keeping colours |
| Legacy.RenderedCovers | src/main.py:149-155 | with as many tiles as cells, rendered tiles sit on distinct cells of the piece and cover every cell |
| Legacy.LaidCovers | src/main.py:142-145 | a new piece's tiles are one per set bit of its board, lowest first, covering every cell |
| Legacy.TileBoardHit | src/main.py:304-306 | a board meets the OR of the tiles iff it meets one of them |
| Legacy.BlockedIsHit | src/main.py:262-282 | a border test followed by one test per tile is one test against border OR tiles |
| Legacy.OrAssoc | src/main.py:304-306 | OR-ing tiles one at a time onto the borders is the borders OR the OR of the tiles |
| Legacy.KickOverlapsTile | src/main.py:308-314 | a candidate on a placed tile, with another tile just right of it, is kicked onto that second tile |
| Legacy.InsideFree | src/main.py:310-313 | a cell off the border ring passes the kick's test against `all_borders` |
| Legacy.Tetrimino.constructor | src/main.py:139-147 | the piece spawns at `bits[shape] << (12*21 - 6 - 2)` with one tile of its colour on each set bit, lowest bit first |
| Legacy.Tetrimino.Render | src/main.py:149-155 | an empty tile list is the ValueError; otherwise every tile moves to its bit of the board |
| Legacy.Tetrimino.MoveDown | src/main.py:157-158 | the board becomes `>> 12`; the tiles stay where they were |
| Legacy.Tetrimino.MoveLeft | src/main.py:160-161 | the board becomes `<< 1`; the tiles stay where they were |
| Legacy.Tetrimino.MoveRight | src/main.py:163-164 | the board becomes `>> 1`; the tiles stay where they were |
| Legacy.Tetrimino.SetRotate | src/main.py:202-206 | stores the board and advances the rotation, wrapping above 3 to 0 |
| Legacy.Tetriminos.constructor | src/main.py:213-215 | no tiles, no active piece, a fresh generator |
| Legacy.Tetriminos.GetTetrimino | src/main.py:217-223 | makes a piece of the next colour and next generated shape, with its tiles laid on its bits, only when there is no piece or it is locked |
| Legacy.Tetriminos.MoveDownStep | src/main.py:249-260 | the unlocked piece locks iff one row down meets the floor or a tile, with its tiles appended and its board kept; otherwise it drops one row |
| Legacy.Tetriminos.MoveDown | src/main.py:247-260 | the lock-or-drop step for the piece `get_tetrimino` hands out, which keeps its shape, colour and tile list |
| Legacy.Tetriminos.LeftBlocked | src/main.py:264-269 | the checks find a hit iff `bitboard << 1` meets the left border or a tile |
| Legacy.Tetriminos.MoveLeft | src/main.py:262-271 | the piece handed out moves one column left unless blocked, its tile list as handed out; when blocked it is exactly as handed out |
| Legacy.Tetriminos.RightBlocked | src/main.py:275-280 | the checks find a hit iff `bitboard >> 1` meets the right border or a tile |
| Legacy.Tetriminos.MoveRight | src/main.py:273-282 | the piece handed out moves one column right unless blocked, its tile list as handed out; when blocked it is exactly as handed out |
| Legacy.Tetriminos.MoveDownAndLock | src/main.py:284-298 | the piece handed out drops whole rows and locks at the first row where it lands, with its tiles appended; with no drop its tiles are those handed out, after a drop they sit on its final cells |
| Legacy.Tetriminos.DropUntilLocked | src/main.py:286-298 | the loop stops at the first drop where the piece has landed, keeping shape, colour and rotation, and its tiles when it did not drop |
| Legacy.Tetriminos.DropRow | src/main.py:287-298 | one pass locks the piece iff it has landed, with its tiles appended and kept, or drops it a row and renders its tiles onto its new cells |
| Legacy.Tetriminos.FullBoard | src/main.py:304-306 | the loop gives `all_borders` OR every placed tile |
| Legacy.Tetriminos.Rotate | src/main.py:300-316 | the candidate is tested against borders and tiles, the kicks against the borders only; the tile list stays as handed out; with no kick the piece is exactly as handed out; a new position never meets the borders |
| Legacy.Tetriminos.IsGameOver | src/main.py:323-326 | true iff some tile meets `top_border`, that is iff some tile has a cell in row 21 |
| Legacy.TopRowHit | src/main.py:323-326 | a tile meets the top border iff it has a cell in row 21 |
| Levels.MaxLevelIsMax | src/levels.py:18-22 | 29 is in the table and no key exceeds it |
| Levels.Key | src/levels.py:22-24 | the key a level resolves to is the highest table level at or below it |
| Levels.Frames | src/levels.py:3-25 | a level's frame count is a table value between 1 and 48 |
| Levels.EntriesInRange | src/levels.py:3-19 | every table entry is between 1 and 48 |
| Levels.GetSnesSpeed | src/levels.py:21-25 | the loop returns the entry of the highest table level at or below the capped level |
| Levels.TableDecreasing | src/levels.py:3-19 | a higher table level never has a larger entry |
| Levels.FramesMonotone | src/levels.py:3-25 | the frame count is non-increasing in the level |
| Levels.FramesAboveTop | src/levels.py:18-22 | every level from 29 up gives 1 frame |
| Levels.FramesBetweenKeys | src/levels.py:14-24 | levels 10 to 12 give level 10's 5 frames |
| Levels.FramesListed | src/levels.py:3-24 | a level in the table gives its own entry |

## Left out

- Rendering is not modelled. That covers pygame drawing, the loading of assets and surfaces, the
  `render` functions, `Widget`, `TetriminoDisplay`, `Game.render` and `Tetriminos.render`. The
  one exception is the tile-position update in src/main.py:149-155, because it decides where
  locked tiles land.
- The event and clock loops of the root `main.py` and `game.py` are not part of this model.
- The float and OS helpers under `utils/` and `src/utils.py` are not part of this model.
- `print_board` and the `__main__` block of src/bitboard.py are console output and are left out.
- `rotate_bitboard`, `widen_bitboard_width`, `bitboard_height`, `bitboard_to_coords` and
  src/settings are not part of this model.
  - Both `rotate` methods take the rotated candidate as a parameter.
  - `Pieces.Tetrimino.TestRotate` takes the current and next rotations widened to 12 columns as
    parameters, plus a ghost shift witnessing that the live board is a shift of the current one.
    Without that the source loop need not end.
  - A line filter's height is its row count.
  - `COLUMNS` is 12 and `ROWS` is 22, from the literals in src/bitboard.py.
- The random shuffle is a nondeterministic choice of a permutation (`:|`).
- Pygame tile surfaces are a colour index in 0..6.
- In src/main.py the module-level colour `cycle` is held by the controller as `palette`.
- `ShapeQueue.TetriminoQueue`: the module-level colour `cycle` of src/tetriminos.py:51 is shared by
  every queue. The model holds it per queue as the `tile` field, whose first value is the
  constructor's `start`. Two queues drawing from one cycle are not modelled.
- `Engine.Game.IsGameOver`: returns `false` where the source falls off the end and returns
  `None`.
- `arrangement_to_bit` is defined with one parameter and a literal row stride of 12. The calls
  in src/tetriminos.py:153, src/tetriminos.py:193 and src/main.py:171 pass a width as well. The model takes the width as a parameter,
  and at width 12 that is the shown code.
- `clear_lines` ends with `return cleared_lines`, a name that is never bound. The model returns
  the list the loop builds, `linesCleared`.
- `Levels.GetSnesSpeed`: returns the frame count without the conversion to milliseconds
  (`/ FPS * 1000`). That conversion is float division by a constant not shown. It requires
  `level >= 0` because a negative level never reaches a table key and the source loops forever.
- `Engine.Game.MoveDownAndLock`: requires an active piece to have a cell above the floor row,
  and `Legacy.Tetriminos.MoveDownAndLock` requires the same. Without that the source loop need
  not end. Every spawned piece has such a cell (`Engine.SpawnAboveFloor`).
- `Legacy.Tetriminos.IsGameOver`: returns `false` where the source falls off the end and returns
  `None`.
- `Legacy.Tile`: tiles are values. The source shares `Tile` objects between a piece and the
  placed list after `extend`, but no modelled operation touches a piece after it locks.
- The `all_tiles = self.tiles` alias in `clear_lines` is modelled as one tile map that is
  updated in place.
- The borders are computed once and held as constants of each controller, characterised by
  their cells. This matches the module-level constants of the source.
- `Bitboard.BottomMask` and `Bitboard.RightMask` are the masks in closed form.
  `BottomMaskStep` and `RightMaskStep` prove that each pass of the source loops ORs in exactly
  the next bit, and `BuildBottomBorder` and `BuildRightBorder` run those loops.
- `Pieces.Tetrimino.MoveDown`: promises an unchanged tile count only when the shift loses no
  cell. The source keeps `min(popcount, tiles)` tiles, as `UpdateTiles` states.
- `Pieces.Tetrimino.MoveRight`: same as `MoveDown`, for a shift that loses no cell.

## Findings

| source | as written | input that shows it | evidently intended | confidence | as-written member | corrected member |
|---|---|---|---|---|---|---|
| src/main.py:308-314 | a kicked rotation is tested against `all_borders` only, so it can overlap placed tiles | a candidate with a cell on a placed tile at cell n (inside the field, column 2 to 11), and another placed tile at cell n - 1: the kick `>> 1` is accepted onto that tile | each kick tested against the borders and the placed tiles, as src/tetriminos.py:502-508 does | high (proved; not executed; presumes the two-argument `arrangement_to_bit` of src/main.py:171) | Legacy.KickOverlapsTile | Playfield.KickFits |
