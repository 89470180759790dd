/** The tetrimino catalog of src/tetriminos.py (the same table appears in src/main.py):
    the seven shapes, their 0/1 arrangements, and the trimmed/width/height tables derived from them. */
module Shapes {
  import opened Bits
  import opened Bitboard

  datatype Shape = I | J | L | O | S | T | Z

  /** `list(Shapes)`: the enum in declaration order. */
  function AllShapes(): seq<Shape>
  {
    [I, J, L, O, S, T, Z]
  }

  /** Every shape is in `list(Shapes)`, so a bag of seven holds each shape exactly once. */
  lemma EveryShapeListed(s: Shape)
    ensures s in AllShapes()
    ensures multiset(AllShapes())[s] == 1
  {
    var r := AllShapes();
    match s
    case I => assert r[0] == s;
    case J => assert r[1] == s;
    case L => assert r[2] == s;
    case O => assert r[3] == s;
    case S => assert r[4] == s;
    case T => assert r[5] == s;
    case Z => assert r[6] == s;
  }

  /** The `tetriminos` table: each shape's spawn arrangement, top row first. */
  function Arrangement(s: Shape): seq<seq<int>>
  {
    match s
    case I => [[0, 0, 0, 0], [1, 1, 1, 1], [0, 0, 0, 0], [0, 0, 0, 0]]
    case J => [[0, 0, 1], [1, 1, 1], [0, 0, 0]]
    case L => [[1, 0, 0], [1, 1, 1], [0, 0, 0]]
    case O => [[1, 1], [1, 1]]
    case S => [[0, 1, 1], [1, 1, 0], [0, 0, 0]]
    case T => [[0, 1, 0], [1, 1, 1], [0, 0, 0]]
    case Z => [[1, 1, 0], [0, 1, 1], [0, 0, 0]]
  }

  function RowSum(row: seq<int>): int
  {
    if row == [] then 0 else row[0] + RowSum(row[1..])
  }

  /** The comprehension `[row for row in arrangement if sum(row) > 0]`. */
  function Trimmed(arrangement: seq<seq<int>>): seq<seq<int>>
  {
    if arrangement == [] then []
    else (if RowSum(arrangement[0]) > 0 then [arrangement[0]] else []) + Trimmed(arrangement[1..])
  }

  /** `tetriminos_widths`: the length of the first row. */
  function Width(s: Shape): nat
  {
    |Arrangement(s)[0]|
  }

  /** `tetriminos_height`: the number of rows left after trimming. */
  function Height(s: Shape): nat
  {
    |Trimmed(Arrangement(s))|
  }

  /** Trimming works row by row: the trimmed concatenation is the concatenation of the trimmed
      parts, so the kept rows stay in their original order. */
  lemma {:induction false} TrimmedConcat(a: seq<seq<int>>, b: seq<seq<int>>)
    ensures Trimmed(a + b) == Trimmed(a) + Trimmed(b)
  {
    if a == [] {
      assert a + b == b;
    } else {
      assert (a + b)[1..] == a[1..] + b;
      TrimmedConcat(a[1..], b);
    }
  }

  /** A row survives trimming exactly when its sum is positive. */
  lemma {:induction false} TrimmedRows(arrangement: seq<seq<int>>)
    ensures forall row :: row in Trimmed(arrangement) <==> row in arrangement && RowSum(row) > 0
    ensures |Trimmed(arrangement)| <= |arrangement|
  {
    if arrangement != [] {
      TrimmedRows(arrangement[1..]);
      assert arrangement == [arrangement[0]] + arrangement[1..];
    }
  }

  /** The catalog tables: I is 4 wide and 1 high, O is 2 by 2, every other shape is 3 wide and 2 high;
      each arrangement is square with 0/1 entries and exactly four filled tiles. */
  lemma CatalogShape(s: Shape)
    ensures Width(s) == (match s case I => 4 case O => 2 case _ => 3)
    ensures Height(s) == (if s == I then 1 else 2)
    ensures |Arrangement(s)| == Width(s) && RowsFit(Arrangement(s), Width(s))
    ensures ZeroOne(Arrangement(s))
    ensures CellCount(Arrangement(s)) == 4
  {
    CatalogHeight(s);
    CatalogRows(s);
    CatalogCount(s);
  }

  lemma CatalogHeight(s: Shape)
    ensures Height(s) == (if s == I then 1 else 2)
  {
  }

  lemma CatalogRows(s: Shape)
    ensures RowsFit(Arrangement(s), Width(s))
  {
  }

  /** Every entry of the arrangement is 0 or 1. */
  predicate ZeroOne(arrangement: seq<seq<int>>)
  {
    forall k, c | 0 <= k < |arrangement| && 0 <= c < |arrangement[k]| ::
      arrangement[k][c] == 0 || arrangement[k][c] == 1
  }

  lemma CatalogCount(s: Shape)
    ensures ZeroOne(Arrangement(s)) && CellCount(Arrangement(s)) == 4
  {
    match s
    case I => CountI();
    case J => CountJ();
    case L => CountL();
    case O => CountO();
    case S => CountS();
    case T => CountT();
    case Z => CountZ();
  }

  // One lemma per shape keeps each literal evaluation in a proof of its own.
  lemma CountI() ensures ZeroOne(Arrangement(I)) && CellCount(Arrangement(I)) == 4 {}
  lemma CountJ() ensures ZeroOne(Arrangement(J)) && CellCount(Arrangement(J)) == 4 {}
  lemma CountL() ensures ZeroOne(Arrangement(L)) && CellCount(Arrangement(L)) == 4 {}
  lemma CountO() ensures ZeroOne(Arrangement(O)) && CellCount(Arrangement(O)) == 4 {}
  lemma CountS() ensures ZeroOne(Arrangement(S)) && CellCount(Arrangement(S)) == 4 {}
  lemma CountT() ensures ZeroOne(Arrangement(T)) && CellCount(Arrangement(T)) == 4 {}
  lemma CountZ() ensures ZeroOne(Arrangement(Z)) && CellCount(Arrangement(Z)) == 4 {}

  /** Every row of a catalog arrangement fits in the 12-column field, so the packed piece has one
      set bit per filled tile: four. */
  lemma ShapeBits(s: Shape)
    ensures RowsFit(Arrangement(s), COLUMNS)
    ensures Popcount(Packed(Arrangement(s), COLUMNS)) == 4
  {
    CatalogShape(s);
    PackedPopcount(Arrangement(s), COLUMNS);
  }
}
