/** The gravity table of src/levels.py: how many frames a piece waits before it falls a row, by
    level, as on the SNES. */
module Levels {

  /** `SNES_LEVELS_AND_FRAME_RATE`: level to frames per row. Levels missing from the table use
      the entry of the nearest level below them. */
  const SNES_LEVELS_AND_FRAME_RATE: map<int, int> :=
    map[0 := 48, 1 := 43, 2 := 38, 3 := 33, 4 := 28, 5 := 23, 6 := 18, 7 := 13, 8 := 8,
        9 := 6, 10 := 5, 13 := 4, 16 := 3, 19 := 2, 29 := 1]

  /** `max(SNES_LEVELS_AND_FRAME_RATE)`, the highest level in the table. */
  const MAX_LEVEL: int := 29

  lemma MaxLevelIsMax()
    ensures MAX_LEVEL in SNES_LEVELS_AND_FRAME_RATE
    ensures forall k | k in SNES_LEVELS_AND_FRAME_RATE :: k <= MAX_LEVEL
  {
  }

  /** `SNES_LEVELS_AND_FRAME_RATE.get(level)` is truthy: the level is a key with a non-zero entry. */
  predicate Listed(level: int)
  {
    level in SNES_LEVELS_AND_FRAME_RATE && SNES_LEVELS_AND_FRAME_RATE[level] != 0
  }

  /** k is the highest listed level at or below `level`. */
  ghost predicate Governs(k: int, level: int)
  {
    Listed(k) && k <= level && forall j | Listed(j) && j <= level :: j <= k
  }

  /** The table entry that applies to a level: the highest listed level at or below it. */
  function Key(level: nat): (k: nat)
    ensures Governs(k, level)
  {
    if Listed(level) then level else Key(level - 1)
  }

  /** The frames per row for a level: levels above the table's top use its top entry. */
  function Frames(level: nat): (f: int)
    ensures f in SNES_LEVELS_AND_FRAME_RATE.Values && 1 <= f <= 48
  {
    var k := Key(if level < MAX_LEVEL then level else MAX_LEVEL);
    assert SNES_LEVELS_AND_FRAME_RATE[k] in SNES_LEVELS_AND_FRAME_RATE.Values;
    EntriesInRange(k);
    SNES_LEVELS_AND_FRAME_RATE[k]
  }

  lemma EntriesInRange(k: int)
    requires k in SNES_LEVELS_AND_FRAME_RATE
    ensures 1 <= SNES_LEVELS_AND_FRAME_RATE[k] <= 48
  {
  }

  /** `get_snes_speed`, returning the frame count: the level is capped at the table's top, then
      lowered one at a time until the table lists it. A negative level would never reach a listed
      one (the loop would not end), so the level must be at least 0. The conversion of frames to
      milliseconds is not modelled. */
  method GetSnesSpeed(level: int) returns (frames: int)
    requires level >= 0
    ensures frames == Frames(level)
    ensures exists k :: (Governs(k, if level < MAX_LEVEL then level else MAX_LEVEL) &&
      frames == SNES_LEVELS_AND_FRAME_RATE[k])
  {
    var l: nat := if level < MAX_LEVEL then level else MAX_LEVEL;
    ghost var capped := l;
    while !Listed(l)
      invariant l <= capped && Key(l) == Key(capped)
      decreases l
    {
      l := l - 1;
    }
    frames := SNES_LEVELS_AND_FRAME_RATE[l];
  }

  /** The table's entries shrink as the level rises. */
  lemma TableDecreasing(j: int, k: int)
    requires j in SNES_LEVELS_AND_FRAME_RATE && k in SNES_LEVELS_AND_FRAME_RATE && j <= k
    ensures SNES_LEVELS_AND_FRAME_RATE[k] <= SNES_LEVELS_AND_FRAME_RATE[j]
  {
  }

  /** A higher level never falls slower. */
  lemma {:induction false} FramesMonotone(a: nat, b: nat)
    requires a <= b
    ensures Frames(b) <= Frames(a)
  {
    var ca := if a < MAX_LEVEL then a else MAX_LEVEL;
    var cb := if b < MAX_LEVEL then b else MAX_LEVEL;
    var ka, kb := Key(ca), Key(cb);
    assert Listed(ka) && ka <= cb;
    assert ka <= kb;
    TableDecreasing(ka, kb);
  }

  /** Every level from the table's top up falls one row per frame. */
  lemma FramesAboveTop(level: nat)
    requires level >= MAX_LEVEL
    ensures Frames(level) == 1
  {
  }

  /** A level between two listed levels uses the lower one's entry: levels 11 and 12 use level
      10's five frames. */
  lemma FramesBetweenKeys(level: nat)
    requires 10 <= level <= 12
    ensures Frames(level) == 5
  {
    assert Key(level) == 10 by {
      assert Governs(Key(level), level);
      assert Listed(10);
    }
  }

  /** A listed level uses its own entry. */
  lemma FramesListed(level: nat)
    requires level in SNES_LEVELS_AND_FRAME_RATE
    ensures Frames(level) == SNES_LEVELS_AND_FRAME_RATE[level]
  {
    MaxLevelIsMax();
    assert Listed(level);
  }
}
