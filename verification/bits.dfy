/** Arbitrary-width unsigned integers used as bit sets, the way Python's `int` is used by the
    board engine. Every operation is defined by recursion on `/ 2` and `% 2`, so the solver
    never has to reason about nonlinear arithmetic. */
module Bits {

  /** 2 to the power k. */
  function Pow2(k: nat): (r: nat)
    ensures r >= 1
  {
    if k == 0 then 1 else 2 * Pow2(k - 1)
  }

  /** Bit i of x is set. */
  predicate Bit(x: nat, i: nat)
  {
    if i == 0 then x % 2 == 1 else Bit(x / 2, i - 1)
  }

  /** x << k */
  function Shl(x: nat, k: nat): nat
  {
    if k == 0 then x else 2 * Shl(x, k - 1)
  }

  /** x >> k */
  function Shr(x: nat, k: nat): nat
  {
    if k == 0 then x else Shr(x / 2, k - 1)
  }

  /** x & y */
  function And(x: nat, y: nat): nat
  {
    if x == 0 || y == 0 then 0
    else 2 * And(x / 2, y / 2) + (if x % 2 == 1 && y % 2 == 1 then 1 else 0)
  }

  /** x | y */
  function Or(x: nat, y: nat): nat
  {
    if x == 0 then y
    else if y == 0 then x
    else 2 * Or(x / 2, y / 2) + (if x % 2 == 1 || y % 2 == 1 then 1 else 0)
  }

  /** The number of set bits of x. */
  function Popcount(x: nat): nat
  {
    if x == 0 then 0 else x % 2 + Popcount(x / 2)
  }

  /** The number of binary digits of x: the least k with x < 2^k. */
  function BitLength(x: nat): nat
  {
    if x == 0 then 0 else 1 + BitLength(x / 2)
  }

  /** The bits of x below position k, as a number. */
  function LowBits(x: nat, k: nat): nat
  {
    if k == 0 then 0 else x % 2 + 2 * LowBits(x / 2, k - 1)
  }

  /** Python's `a & b > 0`: the two fields share a set bit. */
  predicate Collide(a: nat, b: nat)
  {
    And(a, b) > 0
  }

  /** x is a single set bit, 2^j for some j. */
  predicate IsPow2(x: nat)
  {
    x == 1 || (x > 1 && x % 2 == 0 && IsPow2(x / 2))
  }

  /** The position of the highest set bit of a positive x. */
  function Log2(x: nat): nat
    requires x > 0
  {
    if x == 1 then 0 else 1 + Log2(x / 2)
  }

  // ---------------------------------------------------------------------------
  // Bit characterisations of the operations

  lemma {:induction false} BitZero(i: nat)
    ensures !Bit(0, i)
  {
    if i > 0 { BitZero(i - 1); }
  }

  /** Halving 2m + b, for a binary digit b, gives back m and the digit. */
  lemma Digit(m: nat, b: nat)
    requires b < 2
    ensures (2 * m + b) / 2 == m && (2 * m + b) % 2 == b
  {
  }

  lemma {:induction false} BitHalf(x: nat, i: nat)
    ensures Bit(x, i + 1) == Bit(x / 2, i)
  {
  }

  /** A left shift by k multiplies by 2^k. */
  lemma {:induction false} ShlMul(x: nat, k: nat)
    ensures Shl(x, k) == x * Pow2(k)
  {
    if k > 0 {
      ShlMul(x, k - 1);
      assert x * Pow2(k) == 2 * (x * Pow2(k - 1));
    }
  }

  /** Doubling and adding one sets bit 0 and moves every other bit up by one. */
  lemma BitOdd(y: nat, i: nat)
    ensures Bit(2 * y + 1, i) <==> i == 0 || (i > 0 && Bit(y, i - 1))
  {
    if i > 0 { assert (2 * y + 1) / 2 == y; }
  }

  lemma {:induction false} BitPow2(k: nat, i: nat)
    ensures Bit(Pow2(k), i) <==> i == k
  {
    if i == 0 {
    } else if k == 0 {
      BitZero(i - 1);
    } else {
      BitPow2(k - 1, i - 1);
    }
  }

  lemma {:induction false} BitShl(x: nat, k: nat, i: nat)
    ensures Bit(Shl(x, k), i) <==> i >= k && Bit(x, i - k)
  {
    if k > 0 {
      if i > 0 {
        assert Shl(x, k) / 2 == Shl(x, k - 1);
        BitShl(x, k - 1, i - 1);
      }
    }
  }

  lemma {:induction false} BitShr(x: nat, k: nat, i: nat)
    ensures Bit(Shr(x, k), i) <==> Bit(x, i + k)
  {
    if k > 0 {
      BitShr(x / 2, k - 1, i);
    }
  }

  lemma {:induction false} BitAnd(x: nat, y: nat, i: nat)
    ensures Bit(And(x, y), i) <==> Bit(x, i) && Bit(y, i)
  {
    if x == 0 {
      BitZero(i);
    } else if y == 0 {
      BitZero(i);
    } else {
      var m, d := And(x / 2, y / 2), if x % 2 == 1 && y % 2 == 1 then 1 else 0;
      assert And(x, y) == 2 * m + d;
      Digit(m, d);
      if i > 0 {
        BitHalf(And(x, y), i - 1);
        BitHalf(x, i - 1);
        BitHalf(y, i - 1);
        BitAnd(x / 2, y / 2, i - 1);
      }
    }
  }

  lemma {:induction false} BitOr(x: nat, y: nat, i: nat)
    ensures Bit(Or(x, y), i) <==> Bit(x, i) || Bit(y, i)
  {
    if x == 0 {
      BitZero(i);
    } else if y == 0 {
      BitZero(i);
    } else {
      var m, d := Or(x / 2, y / 2), if x % 2 == 1 || y % 2 == 1 then 1 else 0;
      assert Or(x, y) == 2 * m + d;
      Digit(m, d);
      if i > 0 {
        BitHalf(Or(x, y), i - 1);
        BitHalf(x, i - 1);
        BitHalf(y, i - 1);
        BitOr(x / 2, y / 2, i - 1);
      }
    }
  }

  lemma {:induction false} BitLow(x: nat, k: nat, i: nat)
    ensures Bit(LowBits(x, k), i) <==> i < k && Bit(x, i)
  {
    if k == 0 {
      BitZero(i);
    } else if i > 0 {
      assert LowBits(x, k) / 2 == LowBits(x / 2, k - 1);
      BitLow(x / 2, k - 1, i - 1);
    }
  }

  lemma BitShlAll(x: nat, k: nat)
    ensures forall i: nat :: Bit(Shl(x, k), i) <==> i >= k && Bit(x, i - k)
  {
    forall i: nat ensures Bit(Shl(x, k), i) <==> i >= k && Bit(x, i - k) { BitShl(x, k, i); }
  }

  lemma BitShrAll(x: nat, k: nat)
    ensures forall i: nat :: Bit(Shr(x, k), i) <==> Bit(x, i + k)
  {
    forall i: nat ensures Bit(Shr(x, k), i) <==> Bit(x, i + k) { BitShr(x, k, i); }
  }

  lemma BitAndAll(x: nat, y: nat)
    ensures forall i: nat :: Bit(And(x, y), i) <==> Bit(x, i) && Bit(y, i)
  {
    forall i: nat ensures Bit(And(x, y), i) <==> Bit(x, i) && Bit(y, i) { BitAnd(x, y, i); }
  }

  lemma BitOrAll(x: nat, y: nat)
    ensures forall i: nat :: Bit(Or(x, y), i) <==> Bit(x, i) || Bit(y, i)
  {
    forall i: nat ensures Bit(Or(x, y), i) <==> Bit(x, i) || Bit(y, i) { BitOr(x, y, i); }
  }

  // ---------------------------------------------------------------------------
  // Extensionality, zero, size

  /** Two numbers with the same bits are equal. */
  lemma {:induction false} BitsEqual(x: nat, y: nat)
    requires forall i: nat :: Bit(x, i) == Bit(y, i)
    ensures x == y
    decreases x + y
  {
    if x != 0 || y != 0 {
      assert Bit(x, 0) == Bit(y, 0);
      forall i: nat ensures Bit(x / 2, i) == Bit(y / 2, i) {
        assert Bit(x, i + 1) == Bit(y, i + 1);
      }
      BitsEqual(x / 2, y / 2);
    }
  }

  /** A non-zero number has a set bit. */
  lemma {:induction false} NonZeroHasBit(x: nat) returns (i: nat)
    requires x != 0
    ensures Bit(x, i)
  {
    if x % 2 == 1 {
      i := 0;
    } else {
      var j := NonZeroHasBit(x / 2);
      i := j + 1;
    }
  }

  lemma NonZeroNotEmpty(x: nat)
    requires x != 0
    ensures !(forall i: nat :: !Bit(x, i))
  {
    var i := NonZeroHasBit(x);
  }

  lemma ZeroIffNoBit(x: nat)
    ensures x == 0 <==> forall i: nat :: !Bit(x, i)
  {
    if x == 0 {
      forall i: nat ensures !Bit(x, i) { BitZero(i); }
    } else {
      NonZeroNotEmpty(x);
    }
  }

  /** Python's `a & b > 0` holds exactly when a and b share a bit. */
  lemma CollideIff(a: nat, b: nat)
    ensures Collide(a, b) <==> exists i: nat :: Bit(a, i) && Bit(b, i)
  {
    if Collide(a, b) {
      var i := NonZeroHasBit(And(a, b));
      BitAnd(a, b, i);
    }
    if exists i: nat :: Bit(a, i) && Bit(b, i) {
      var i: nat :| Bit(a, i) && Bit(b, i);
      BitAnd(a, b, i);
      if And(a, b) == 0 { BitZero(i); }
    }
  }

  /** x < 2^k exactly when no bit at or above k is set. */
  lemma {:induction false} BelowPow2(x: nat, k: nat)
    ensures x < Pow2(k) <==> forall i: nat :: Bit(x, i) ==> i < k
  {
    if k == 0 {
      ZeroIffNoBit(x);
    } else {
      BelowPow2(x / 2, k - 1);
      assert x < Pow2(k) <==> x / 2 < Pow2(k - 1);
      if x / 2 < Pow2(k - 1) {
        forall i: nat | Bit(x, i) ensures i < k {
          if i > 0 { BitHalf(x, i - 1); }
        }
      } else {
        var i: nat :| Bit(x / 2, i) && !(i < k - 1);
        BitHalf(x, i);
      }
    }
  }

  lemma {:induction false} Pow2Monotone(a: nat, b: nat)
    requires a <= b
    ensures Pow2(a) <= Pow2(b)
    decreases b
  {
    if a < b { Pow2Monotone(a, b - 1); }
  }

  /** Pow2 is strictly increasing. */
  lemma Pow2Less(a: nat, b: nat)
    requires a < b
    ensures Pow2(a) < Pow2(b)
  {
    Pow2Monotone(a, b - 1);
  }

  lemma {:induction false} Pow2Add(a: nat, b: nat)
    ensures Pow2(a + b) == Shl(Pow2(a), b)
  {
    if b > 0 { Pow2Add(a, b - 1); }
  }

  /** Adding 2^k to a number below 2^k sets exactly bit k. */
  lemma {:induction false} AddHighBit(x: nat, k: nat, i: nat)
    requires x < Pow2(k)
    ensures Bit(x + Pow2(k), i) <==> i == k || Bit(x, i)
  {
    if k == 0 {
      assert x == 0;
      BitPow2(0, i);
      BitZero(i);
    } else if i > 0 {
      assert (x + Pow2(k)) / 2 == x / 2 + Pow2(k - 1);
      AddHighBit(x / 2, k - 1, i - 1);
    }
  }

  lemma AddHighBitAll(x: nat, k: nat)
    requires x < Pow2(k)
    ensures forall i: nat :: Bit(x + Pow2(k), i) <==> i == k || Bit(x, i)
  {
    var y := x + Pow2(k);
    forall i: nat ensures Bit(y, i) <==> i == k || Bit(x, i) { AddHighBit(x, k, i); }
  }

  /** OR of two fields with no common bit is their sum. */
  lemma {:induction false} OrDisjoint(x: nat, y: nat)
    requires And(x, y) == 0
    ensures Or(x, y) == x + y
    decreases x + y
  {
    if x != 0 && y != 0 {
      assert !(x % 2 == 1 && y % 2 == 1);
      OrDisjoint(x / 2, y / 2);
    }
  }

  /** Popcount of a sum of disjoint fields. */
  lemma {:induction false} PopcountDisjoint(x: nat, y: nat)
    requires And(x, y) == 0
    ensures Popcount(x + y) == Popcount(x) + Popcount(y)
    decreases x + y
  {
    if x != 0 && y != 0 {
      assert !(x % 2 == 1 && y % 2 == 1);
      assert (x + y) / 2 == x / 2 + y / 2;
      PopcountDisjoint(x / 2, y / 2);
    }
  }

  lemma {:induction false} PopcountShl(x: nat, k: nat)
    ensures Popcount(Shl(x, k)) == Popcount(x)
  {
    if k > 0 { PopcountShl(x, k - 1); }
  }

  /** A right shift never adds set bits. */
  lemma {:induction false} PopcountShr(x: nat, k: nat)
    ensures Popcount(Shr(x, k)) <= Popcount(x)
  {
    if k > 0 {
      PopcountShr(x / 2, k - 1);
    }
  }

  lemma {:induction false} PopcountPow2(k: nat)
    ensures Popcount(Pow2(k)) == 1
  {
    if k > 0 {
      var p := Pow2(k - 1);
      assert Pow2(k) == 2 * p + 0;
      Digit(p, 0);
      assert Popcount(Pow2(k)) == Popcount(p);
      PopcountPow2(k - 1);
    }
  }

  /** A field below 2^k and 2^k share no bit. */
  lemma DisjointBelow(x: nat, k: nat)
    requires x < Pow2(k)
    ensures And(x, Pow2(k)) == 0
  {
    BelowPow2(x, k);
    forall i: nat ensures !Bit(And(x, Pow2(k)), i) {
      BitAnd(x, Pow2(k), i);
      BitPow2(k, i);
    }
    ZeroIffNoBit(And(x, Pow2(k)));
  }

  // ---------------------------------------------------------------------------
  // Single bits

  lemma {:induction false} IsPow2Exactly(x: nat)
    requires IsPow2(x)
    ensures x == Pow2(Log2(x))
  {
    if x != 1 { IsPow2Exactly(x / 2); }
  }

  lemma {:induction false} Pow2IsPow2(k: nat)
    ensures IsPow2(Pow2(k)) && Log2(Pow2(k)) == k
  {
    if k > 0 {
      var p := Pow2(k - 1);
      Pow2IsPow2(k - 1);
      assert Pow2(k) == 2 * p && (2 * p) / 2 == p && (2 * p) % 2 == 0;
    }
  }

  lemma Pow2Injective(a: nat, b: nat)
    requires Pow2(a) == Pow2(b)
    ensures a == b
  {
    Pow2IsPow2(a);
    Pow2IsPow2(b);
  }

  lemma {:induction false} ShlPow2(k: nat, n: nat)
    ensures Shl(Pow2(k), n) == Pow2(k + n)
  {
    Pow2Add(k, n);
  }

  lemma {:induction false} ShrPow2(k: nat, n: nat)
    requires n <= k
    ensures Shr(Pow2(k), n) == Pow2(k - n)
  {
    if n > 0 {
      assert Pow2(k) / 2 == Pow2(k - 1);
      ShrPow2(k - 1, n - 1);
    }
  }

  /** Shifting right by k loses nothing when the bits below k are clear. */
  lemma ShlShr(x: nat, k: nat)
    requires forall i: nat :: Bit(x, i) ==> i >= k
    ensures Shl(Shr(x, k), k) == x
  {
    forall i: nat ensures Bit(Shl(Shr(x, k), k), i) == Bit(x, i) {
      BitShl(Shr(x, k), k, i);
      if i >= k { BitShr(x, k, i - k); }
    }
    BitsEqual(Shl(Shr(x, k), k), x);
  }

  lemma ShrShl(x: nat, k: nat)
    ensures Shr(Shl(x, k), k) == x
  {
    forall i: nat ensures Bit(Shr(Shl(x, k), k), i) == Bit(x, i) {
      BitShr(Shl(x, k), k, i);
      BitShl(x, k, i + k);
    }
    BitsEqual(Shr(Shl(x, k), k), x);
  }

  lemma {:induction false} ShrAtMost(x: nat, k: nat)
    ensures Shr(x, k) <= x
  {
    if k > 0 { ShrAtMost(x / 2, k - 1); }
  }

  lemma {:induction false} ShrLess(x: nat, k: nat)
    requires x > 0 && k > 0
    ensures Shr(x, k) < x
  {
    ShrAtMost(x / 2, k - 1);
  }

  lemma {:induction false} ShlGrows(x: nat, k: nat)
    requires x > 0 && k > 0
    ensures Shl(x, k) > x
  {
    if k > 1 { ShlGrows(x, k - 1); }
  }

  lemma CollideSymmetric(a: nat, b: nat)
    ensures Collide(a, b) == Collide(b, a)
  {
    CollideIff(a, b);
    CollideIff(b, a);
  }

  /** A number whose set bits include all of `y`'s is at least `y`. */
  lemma {:induction false} SupersetAtLeast(x: nat, y: nat)
    requires forall i: nat :: Bit(y, i) ==> Bit(x, i)
    ensures y <= x
    decreases x
  {
    if y != 0 {
      var k := NonZeroHasBit(y);
      if x == 0 { BitZero(k); }
      forall i: nat | Bit(y / 2, i) ensures Bit(x / 2, i) {
        BitHalf(y, i);
        BitHalf(x, i);
      }
      SupersetAtLeast(x / 2, y / 2);
      assert Bit(y, 0) ==> Bit(x, 0);
    }
  }

  /** `x & y == x` tests that every set bit of `x` is set in `y`. */
  lemma AndCovers(x: nat, y: nat)
    ensures (forall i: nat :: Bit(x, i) ==> Bit(y, i)) ==> And(x, y) == x
    ensures And(x, y) == x ==> forall i: nat :: Bit(x, i) ==> Bit(y, i)
  {
    BitAndAll(x, y);
    if forall i: nat :: Bit(x, i) ==> Bit(y, i) {
      BitsEqual(And(x, y), x);
    }
  }

  /** A subset is no larger than its superset. */
  lemma SubsetCard(a: set<nat>, b: set<nat>)
    requires a <= b
    ensures |a| <= |b|
  {
    if a != {} {
      var x :| x in a;
      SubsetCard(a - {x}, b - {x});
    }
  }

  /** Two right shifts add up. */
  lemma ShrShr(x: nat, a: nat, b: nat)
    ensures Shr(Shr(x, a), b) == Shr(x, a + b)
  {
    forall i: nat ensures Bit(Shr(Shr(x, a), b), i) == Bit(Shr(x, a + b), i) {
      BitShr(Shr(x, a), b, i);
      BitShr(x, a, i + b);
      BitShr(x, a + b, i);
    }
    BitsEqual(Shr(Shr(x, a), b), Shr(x, a + b));
  }

  /** A board meets the union of two boards exactly when it meets one of them. */
  lemma CollideOr(z: nat, a: nat, b: nat)
    ensures Collide(z, Or(a, b)) <==> Collide(z, a) || Collide(z, b)
  {
    CollideIff(z, Or(a, b));
    CollideIff(z, a);
    CollideIff(z, b);
    BitOrAll(a, b);
    if Collide(z, a) {
      var i: nat :| Bit(z, i) && Bit(a, i);
      assert Bit(z, i) && Bit(Or(a, b), i);
    }
    if Collide(z, b) {
      var i: nat :| Bit(z, i) && Bit(b, i);
      assert Bit(z, i) && Bit(Or(a, b), i);
    }
  }
}
