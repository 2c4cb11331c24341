/** Square roots rounded correctly, said with squares of integers only. `a` is
    the square of the exact root, in the square of the unit of the format. */
module FloatRoot {
  import opened Powers
  import opened FloatSpec

  function Square(m: nat): nat {
    m * m
  }

  /** `u` is at least the integer square root of `a`. */
  ghost predicate AboveRoot(u: nat, a: nat) {
    a < (u + 1) * (u + 1)
  }

  ghost predicate IsRoot(s: nat, a: nat) {
    s * s <= a && AboveRoot(s, a)
  }

  lemma RootSquares(s: nat, a: nat)
    ensures IsRoot(s, a) <==> Square(s) <= a < Square(s + 1)
  {
  }

  // ----- the definition of a rounded root

  /** `n` is as near to the root as `k`: the middle between the two, `(n + k) / 2`,
      lies beyond the root or on it, and if on it then `n` wins the tie. */
  ghost predicate ComparedRoots(f: Format, rm: RoundingMode, a: nat, n: nat, k: nat) {
    && (n < k ==> 4 * a <= Square(n + k))
    && (k < n ==> Square(n + k) <= 4 * a)
    && (k != n && Square(n + k) == 4 * a ==> if rm == RNE then EvenSignificand(f, n) else n > k)
  }

  ghost predicate ClosestToRoot(f: Format, rm: RoundingMode, a: nat, n: nat) {
    forall k: nat :: Representable(f, k) ==> ComparedRoots(f, rm, a, n, k)
  }

  ghost predicate FromAbove(f: Format, a: nat, n: nat) {
    a <= Square(n) && forall k: nat :: Representable(f, k) && a <= Square(k) ==> n <= k
  }

  ghost predicate FromBelow(f: Format, a: nat, n: nat) {
    Square(n) <= a && forall k: nat :: Representable(f, k) && Square(k) <= a ==> k <= n
  }

  /** `n` is the root of `a`, rounded as if the exponent had no upper bound. */
  ghost predicate RoundsRoot(f: Format, rm: RoundingMode, a: nat, n: nat) {
    && Representable(f, n)
    && if Nearest(rm) then ClosestToRoot(f, rm, a, n) else if rm == RUP then FromAbove(f, a, n) else FromBelow(f, a, n)
  }

  ghost predicate TinyRoot(f: Format, rm: RoundingMode, a: nat) {
    exists t: nat :: RoundsRoot(f, rm, 4 * a, t) && t < 2 * Pow2(f.mantSize)
  }

  ghost predicate DeliversRoot(f: Format, rm: RoundingMode, a: nat, n: nat, w: nat, raised: Flags)
    requires f.Valid()
  {
    && IsWord(f, w)
    && (if n <= MaxMag(f) then !Neg(f, w) && Finite(f, w) && Mag(f, w) == n else w == OverflowWord(f, rm, false))
    && raised.overflow == (n > MaxMag(f)) && raised.inexact == (n > MaxMag(f) || Square(n) != a)
    && raised.underflow == (Square(n) != a && TinyRoot(f, rm, a))
    && !raised.divideZero && !raised.invalid
  }

  /** The word and the flags are those of the exact root of `a` rounded once. */
  ghost predicate RoundedRoot(f: Format, rm: RoundingMode, a: nat, w: nat, raised: Flags)
    requires f.Valid()
  {
    exists n: nat :: RoundsRoot(f, rm, a, n) && DeliversRoot(f, rm, a, n, w, raised)
  }

  // ----- numbers that compare as the root does

  /** The real `y` lies on the same side of `m` as the root of `a`. */
  ghost predicate Sides(y: real, a: nat, m: nat) {
    && (m as real <= y <==> Square(m) <= a)
    && (m as real == y <==> Square(m) == a)
  }

  ghost predicate AllSides(y: real, a: nat) {
    forall m: nat :: Sides(y, a, m)
  }

  /** To within quarters of the unit, `x` compares as the root of `a` does. */
  ghost predicate Like(x: real, a: nat) {
    x >= 0.0 && AllSides(4.0 * x, 16 * a)
  }

  lemma SquareTwice(m: nat)
    ensures Square(2 * m) == 4 * Square(m)
  {
  }

  lemma SidesHalf(y: real, a: nat, m: nat)
    requires Sides(2.0 * y, 4 * a, 2 * m)
    ensures Sides(y, a, m)
  {
    SquareTwice(m);
    hide Square;
  }

  lemma AllHalves(y: real, a: nat)
    requires AllSides(2.0 * y, 4 * a)
    ensures AllSides(y, a)
  {
    forall m: nat ensures Sides(y, a, m) {
      assert Sides(2.0 * y, 4 * a, 2 * m);
      SidesHalf(y, a, m);
    }
  }

  lemma LikeHalves(x: real, a: nat)
    requires Like(x, a)
    ensures AllSides(2.0 * x, 4 * a) && AllSides(x, a)
  {
    assert 2.0 * (2.0 * x) == 4.0 * x && 4 * (4 * a) == 16 * a;
    hide AllSides;
    AllHalves(2.0 * x, 4 * a);
    AllHalves(x, a);
  }

  /** Distances from `x`, by the middle of the two numbers. */
  lemma Middle(x: real, n: nat, k: nat)
    ensures n < k ==> (Dist(n, x) <= Dist(k, x) <==> 2.0 * x <= (n + k) as real)
    ensures k < n ==> (Dist(n, x) <= Dist(k, x) <==> (n + k) as real <= 2.0 * x)
    ensures n != k ==> (Dist(n, x) == Dist(k, x) <==> (n + k) as real == 2.0 * x)
  {
  }

  lemma ClosestLike(f: Format, rm: RoundingMode, x: real, a: nat, n: nat)
    requires x >= 0.0 && AllSides(2.0 * x, 4 * a)
    ensures Closest(f, rm, x, n) <==> ClosestToRoot(f, rm, a, n)
  {
    hide Square;
    hide Representable;
    hide EvenSignificand;
    forall k: nat ensures Compared(f, rm, x, n, k) <==> ComparedRoots(f, rm, a, n, k) {
      assert Sides(2.0 * x, 4 * a, n + k);
      Middle(x, n, k);
      hide Dist;
    }
    hide Dist;
    if Closest(f, rm, x, n) {
      forall k: nat | Representable(f, k) ensures ComparedRoots(f, rm, a, n, k) {
        assert Compared(f, rm, x, n, k);
      }
    }
    if ClosestToRoot(f, rm, a, n) {
      forall k: nat | Representable(f, k) ensures Compared(f, rm, x, n, k) {
        assert ComparedRoots(f, rm, a, n, k);
      }
    }
  }

  ghost predicate Compared(f: Format, rm: RoundingMode, x: real, n: nat, k: nat) {
    && Dist(n, x) <= Dist(k, x)
    && (k != n && Dist(n, x) == Dist(k, x) ==> if rm == RNE then EvenSignificand(f, n) else n > k)
  }

  lemma RoundsLike(f: Format, rm: RoundingMode, x: real, a: nat, n: nat)
    requires x >= 0.0 && AllSides(2.0 * x, 4 * a)
    ensures Rounds(f, rm, false, x, n) <==> RoundsRoot(f, rm, a, n)
  {
    hide Square;
    hide Representable;
    ClosestLike(f, rm, x, a, n);
    hide Closest;
    hide ClosestToRoot;
    AllHalves(x, a);
    DirectedLike(f, x, a, n);
    hide Above;
    hide Below;
    hide FromAbove;
    hide FromBelow;
  }

  lemma DirectedLike(f: Format, x: real, a: nat, n: nat)
    requires AllSides(x, a)
    ensures Above(f, x, n) <==> FromAbove(f, a, n)
    ensures Below(f, x, n) <==> FromBelow(f, a, n)
  {
    hide Square;
    hide Representable;
    assert Sides(x, a, n);
    assert forall k: nat :: Sides(x, a, k) ==> (k as real <= x <==> Square(k) <= a);
    assert forall k: nat :: Sides(x, a, k) ==> (x <= k as real <==> a <= Square(k));
  }

  lemma TinyLike(f: Format, rm: RoundingMode, x: real, a: nat)
    requires Like(x, a)
    ensures Tiny(f, rm, false, x) <==> TinyRoot(f, rm, a)
  {
    var y, b := 2.0 * x, 4 * a;
    assert 2.0 * y == 4.0 * x && 4 * b == 16 * a;
    hide AllSides;
    hide Rounds;
    hide RoundsRoot;
    forall t: nat ensures Rounds(f, rm, false, y, t) <==> RoundsRoot(f, rm, b, t) {
      RoundsLike(f, rm, y, b, t);
    }
  }

  /** Rounding such a number is rounding the root. */
  lemma RoundedLike(f: Format, rm: RoundingMode, x: real, a: nat, w: nat, raised: Flags)
    requires f.Valid() && Like(x, a)
    ensures Rounded(f, rm, false, x, w, raised) <==> RoundedRoot(f, rm, a, w, raised)
  {
    TinyLike(f, rm, x, a);
    LikeHalves(x, a);
    hide Rounds;
    hide RoundsRoot;
    forall n: nat ensures Rounds(f, rm, false, x, n) <==> RoundsRoot(f, rm, a, n) {
      hide AllSides;
      RoundsLike(f, rm, x, a, n);
    }
    hide Tiny;
    hide TinyRoot;
    hide Square;
    forall n: nat ensures Delivers(f, rm, false, x, n, w, raised) <==> DeliversRoot(f, rm, a, n, w, raised) {
      assert Sides(x, a, n);
    }
    hide Delivers;
    hide DeliversRoot;
  }

  // ----- the root itself, and numbers in its place

  lemma SquareOrder(m: nat, n: nat)
    ensures m < n <==> Square(m) < Square(n)
  {
    if m < n {
      MulOrder(m, n, m + 1, n);
    } else {
      MulOrder(n, m, n, m);
    }
  }

  lemma {:induction false} RootExists(b: nat) returns (s: nat)
    ensures IsRoot(s, b)
    decreases b
  {
    if b == 0 {
      s := 0;
    } else {
      s := RootExists(b - 1);
      if Square(s + 1) == b {
        SquareOrder(s + 1, s + 2);
        s := s + 1;
      }
    }
  }

  /** `y` lies in the same cell of the integers as the root of `b`. */
  ghost predicate InCell(y: real, b: nat, s: nat) {
    IsRoot(s, b) && s as real <= y < (s + 1) as real && (s as real == y <==> Square(s) == b)
  }

  lemma CellSides(y: real, b: nat, s: nat, m: nat)
    requires InCell(y, b, s)
    ensures Sides(y, b, m)
  {
    RootSquares(s, b);
    SquareOrder(m, s);
    SquareOrder(s, m);
    SquareOrder(s + 1, m);
    hide Square;
  }

  /** And back: the cell, from its two ends. */
  lemma SidesCell(y: real, b: nat, s: nat)
    requires IsRoot(s, b) && Sides(y, b, s) && Sides(y, b, s + 1)
    ensures s as real <= y < (s + 1) as real && (y == s as real <==> s * s == b)
  {
    RootSquares(s, b);
  }

  lemma SquareScaled(m: nat, t: nat)
    ensures Square(m * Pow2(t)) == Square(m) * Pow2(2 * t)
  {
    Pow2Add(t, t);
    var p := Pow2(t);
    hide Pow2;
    AssocNat(m * p, m, p);
    AssocNat(m, p, m);
    AssocNat(m, m, p);
    AssocNat(m * m, p, p);
  }

  /** What holds on the finer grid holds on the coarser one. */
  lemma SidesScaled(y: real, a: nat, m: nat, t: nat)
    requires Sides(Scale(y, t), a * Pow2(2 * t), m * Pow2(t))
    ensures Sides(y, a, m)
  {
    SquareScaled(m, t);
    ScaleNat(m, t);
    ScaleOrder(m as real, y, t);
    OrderTimes(Square(m), a, Pow2(2 * t));
    hide *;
    ScaleOrder(y, m as real, t);
  }

  lemma OrderTimes(p: nat, q: nat, g: nat)
    requires g > 0
    ensures (p <= q <==> p * g <= q * g) && (p == q <==> p * g == q * g)
  {
    if p < q {
      MulMono(p + 1, q, g);
    } else {
      MulMono(q, p, g);
      if q < p {
        MulMono(q + 1, p, g);
      }
    }
  }

  /** A number in the root's cell of a grid of step `2^-k`. */
  lemma StandIn(a: nat, k: nat) returns (x: real, s: nat)
    requires k >= 2
    ensures InCell(Scale(x, k), a * Pow2(2 * k), s) && Like(x, a)
  {
    var b := a * Pow2(2 * k);
    s := RootExists(b);
    var y := if Square(s) == b then s as real else s as real + 0.5;
    x := Scale(y, 0 - k);
    assert Scale(x, k) == y by {
      Rescale(y, 0 - k, k);
      ScaleZero(y);
    }
    CellLike(x, a, k, s);
  }

  lemma CellLike(x: real, a: nat, k: nat, s: nat)
    requires k >= 2 && InCell(Scale(x, k), a * Pow2(2 * k), s)
    ensures Like(x, a)
  {
    ScaleSign(x, k);
    Quarters(x, a, k);
    var y, b := 4.0 * x, 16 * a;
    forall m: nat ensures Sides(y, b, m) {
      CellSides(Scale(x, k), a * Pow2(2 * k), s, m * Pow2(k - 2));
      hide *;
      SidesScaled(y, b, m, k - 2);
    }
    hide Scale;
    hide Square;
    hide Pow2;
  }

  lemma Quarters(x: real, a: nat, k: nat)
    requires k >= 2
    ensures Scale(4.0 * x, k - 2) == Scale(x, k) && 16 * a * Pow2(2 * (k - 2)) == a * Pow2(2 * k)
  {
    ScaleStep(x, 0);
    ScaleStep(x, 1);
    ScaleZero(x);
    Rescale(x, 2, k - 2);
    Pow2Next(2 * (k - 2));
    hide *;
    AssocNat(a, 16, Pow2(2 * (k - 2)));
  }

  /** The real root itself is such a number. */
  lemma RootLike(x: real, a: nat)
    requires x >= 0.0 && x * x == a as real
    ensures Like(x, a)
  {
    var y, b := 4.0 * x, 16 * a;
    assert y * y == b as real by { TimesTimes(4.0, x, 4.0, x); }
    forall m: nat ensures Sides(y, b, m) {
      SquareReal(m);
      RealOrder(m as real, y);
      RealOrder(y, m as real);
    }
  }

  lemma SquareReal(m: nat)
    ensures (m as real) * (m as real) == Square(m) as real
  {
  }

  lemma SquareLess(x: real, y: real)
    requires 0.0 <= x < y
    ensures x * x < y * y
  {
    TimesOrder(0.0, y - x, y + x);
    assert (y - x) * (y + x) == y * y - x * x;
  }

  lemma RealOrder(x: real, y: real)
    requires x >= 0.0 && y >= 0.0
    ensures x < y <==> x * x < y * y
    ensures x == y <==> x * x == y * y
  {
    if x < y {
      SquareLess(x, y);
    } else if y < x {
      SquareLess(y, x);
    }
  }
}
