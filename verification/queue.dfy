/** The piece supply of src/tetriminos.py: the 7-bag `shape_generator`, the seven-deep lookahead
    `TetriminoQueue` and the one-slot `TetriminoStash`. The pygame tile surfaces are replaced by a
    colour index; `itertools.cycle` over the seven surfaces becomes a counter taken mod 7. */
module ShapeQueue {
  import opened Shapes

  datatype Option<T> = None | Some(value: T)

  /** Index of a tile surface in the colour list. */
  type Color = c: nat | c < 7

  /** What `next(tiles)` yields after `c`: the cycle wraps from the last colour to the first. */
  function NextColor(c: Color): (r: Color)
    ensures r == c + 1 || (c == 6 && r == 0)
  {
    (c + 1) % 7
  }

  /** A `(shape, tile)` pair as handed out by the queue and held in a stash. */
  datatype Piece = Piece(shape: Shape, tile: Color)

  /** A shuffled `list(Shapes)`: some permutation of the seven shapes. */
  predicate IsBag(b: seq<Shape>)
  {
    multiset(b) == multiset(AllShapes())
  }

  /** The k-th aligned block of seven in a stream of shapes. */
  function Block(s: seq<Shape>, k: nat): seq<Shape>
    requires 7 * k + 7 <= |s|
  {
    s[7 * k .. 7 * k + 7]
  }

  lemma BagLength(b: seq<Shape>)
    requires IsBag(b)
    ensures |b| == 7
  {
    assert |b| == |multiset(b)| == |multiset(AllShapes())|;
  }

  /** A bag holds seven shapes, each of them exactly once. */
  lemma BagOnce(b: seq<Shape>)
    requires IsBag(b)
    ensures |b| == 7
    ensures forall s: Shape :: s in b
    ensures forall i, j | 0 <= i < j < |b| :: b[i] != b[j]
  {
    BagLength(b);
    forall s: Shape ensures s in b { EveryShapeListed(s); }
    forall i, j | 0 <= i < j < |b| ensures b[i] != b[j] {
      if b[i] == b[j] {
        TwiceCounted(b, i, j);
        EveryShapeListed(b[i]);
        assert false;
      }
    }
  }

  lemma TwiceCounted(b: seq<Shape>, i: nat, j: nat)
    requires i < j < |b| && b[i] == b[j]
    ensures multiset(b)[b[i]] >= 2
  {
    assert b == b[..j] + b[j..];
    assert b[i] in b[..j] && b[j] in b[j..];
  }

  /** `shape_generator()`: a generator that refills its bag with a shuffle of all seven shapes
      whenever the bag is empty and then pops the front. `drawn` records what it has yielded. */
  class ShapeGenerator {
    var bag: seq<Shape>
    ghost var drawn: seq<Shape>
    ghost var bags: nat

    /** Everything yielded so far followed by what is left in the bag is a run of whole bags. */
    ghost predicate Valid()
      reads this
    {
      |bag| <= 7 && |drawn| + |bag| == 7 * bags && AllBags(drawn + bag)
    }

    constructor ()
      ensures Valid() && bag == [] && drawn == []
    {
      bag := [];
      drawn := [];
      bags := 0;
    }

    /** `next(generator)`. The shuffle is a nondeterministic choice of permutation. */
    method Next() returns (s: Shape)
      requires Valid()
      modifies this
      ensures Valid()
      ensures drawn == old(drawn) + [s]
      ensures old(bag) != [] ==> s == old(bag)[0] && bag == old(bag)[1..]
      ensures old(bag) == [] ==> IsBag([s] + bag) && |bag| == 6
    {
      if bag == [] {
        assert IsBag(AllShapes());
        var shuffled :| IsBag(shuffled);
        assert drawn + bag == drawn;
        Refilled(drawn, shuffled, bags);
        bag := shuffled;
        bags := bags + 1;
      }
      ghost var total := |drawn| + |bag|;
      s := bag[0];
      Popped(drawn, bag);
      bag := bag[1..];
      drawn := drawn + [s];
      assert |drawn| + |bag| == total;
    }
  }

  /** A refill appends a whole bag to the run of whole bags yielded so far. */
  lemma Refilled(drawn: seq<Shape>, shuffled: seq<Shape>, n: nat)
    requires |drawn| == 7 * n && AllBags(drawn) && IsBag(shuffled)
    ensures |shuffled| == 7 && AllBags(drawn + shuffled)
  {
    BagLength(shuffled);
    BlocksAppend(drawn, shuffled);
  }

  /** Popping the front of the bag onto the yielded shapes leaves the stream as it was. */
  lemma Popped(drawn: seq<Shape>, bag: seq<Shape>)
    requires bag != []
    ensures (drawn + [bag[0]]) + bag[1..] == drawn + bag && [bag[0]] + bag[1..] == bag
  {
  }

  ghost predicate AllBags(stream: seq<Shape>)
  {
    forall k: nat | 7 * k + 7 <= |stream| :: IsBag(Block(stream, k))
  }

  /** Appending a fresh bag to a run of whole bags gives a run of whole bags. */
  lemma BlocksAppend(prefix: seq<Shape>, b: seq<Shape>)
    requires |prefix| % 7 == 0 && AllBags(prefix) && IsBag(b) && |b| == 7
    ensures AllBags(prefix + b)
  {
    forall k: nat | 7 * k + 7 <= |prefix + b| ensures IsBag(Block(prefix + b, k)) {
      if 7 * k + 7 <= |prefix| {
        assert Block(prefix + b, k) == Block(prefix, k);
      } else {
        assert 7 * k == |prefix|;
        assert Block(prefix + b, k) == b;
      }
    }
  }

  /** A prefix of a run of whole bags is a run of whole bags. */
  lemma BagsPrefix(s: seq<Shape>, t: seq<Shape>)
    requires AllBags(s + t)
    ensures AllBags(s)
  {
    forall k: nat | 7 * k + 7 <= |s| ensures IsBag(Block(s, k)) {
      assert Block(s, k) == Block(s + t, k);
    }
  }

  /** Every aligned block of seven shapes the generator has yielded is a permutation of the seven shapes. */
  lemma DrawnInBags(g: ShapeGenerator)
    requires g.Valid()
    ensures AllBags(g.drawn)
  {
    BagsPrefix(g.drawn, g.bag);
  }

  /** `TetriminoQueue`: seven shapes of lookahead in front of a generator, plus the tile colour for
      the next piece. `handed` records the shapes `__next__` has returned. */
  class TetriminoQueue {
    const gen: ShapeGenerator
    var queue: seq<Shape>
    var tile: Color
    ghost var handed: seq<Shape>

    /** The queue is the seven newest draws, and the shapes handed out are the draws before them. */
    ghost predicate Valid()
      reads this, gen
    {
      gen.Valid() && |queue| == 7 && handed + queue == gen.drawn
    }

    /** `TetriminoQueue()`: fills the queue with seven draws; `start` is the colour the shared
        tile cycle yields next. */
    constructor (start: Color)
      ensures Valid() && fresh(gen)
      ensures IsBag(queue) && handed == [] && tile == start
    {
      var g := new ShapeGenerator();
      var q := [];
      var n := 0;
      while n < 7
        invariant 0 <= n <= 7
        invariant g.Valid() && q == g.drawn && |q| == n
        invariant n == 0 ==> g.bag == []
        invariant n > 0 ==> |g.bag| == 7 - n
        modifies g
      {
        var s := g.Next();
        q := q + [s];
        n := n + 1;
      }
      assert g.drawn + g.bag == q;
      assert Block(q, 0) == q;
      gen, queue, tile, handed := g, q, start, [];
    }

    /** `peek()`: the shape at the front of the queue and the tile colour that goes with it. */
    function Peek(): (p: Piece)
      reads this, gen
      requires Valid()
      ensures p.shape == gen.drawn[|gen.drawn| - 7] && p.tile == tile
    {
      Piece(queue[0], tile)
    }

    /** `__next__`: draws one more shape onto the back, hands out the front with the current tile
        colour, and advances the colour cycle. */
    method Next() returns (p: Piece)
      requires Valid()
      modifies this, gen
      ensures Valid()
      ensures p == old(Peek())
      ensures |gen.drawn| == |old(gen.drawn)| + 1
      ensures queue == old(queue)[1..] + [gen.drawn[|gen.drawn| - 1]]
      ensures handed == old(handed) + [p.shape]
      ensures tile == NextColor(old(tile))
    {
      var s := gen.Next();
      queue := queue + [s];
      var t := tile;
      tile := NextColor(tile);
      p := Piece(queue[0], t);
      handed := handed + [queue[0]];
      queue := queue[1..];
    }
  }

  /** The shapes a queue hands out come in whole bags: each aligned block of seven is a
      permutation of the seven shapes. */
  lemma HandedInBags(q: TetriminoQueue)
    requires q.Valid()
    ensures AllBags(q.handed)
  {
    DrawnInBags(q.gen);
    BagsPrefix(q.handed, q.queue);
  }

  /** `TetriminoStash`: one slot. */
  class TetriminoStash {
    var stashed: Option<Piece>

    constructor ()
      ensures stashed == None
    {
      stashed := None;
    }

    /** `stash(to_stash)`: swaps the argument in and returns what was there before. */
    method Stash(toStash: Option<Piece>) returns (previous: Option<Piece>)
      modifies this
      ensures previous == old(stashed) && stashed == toStash
    {
      previous, stashed := stashed, toStash;
    }
  }
}
