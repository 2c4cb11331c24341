/** Rounding on a grid: what the significand, the round bit and the sticky bits
    have to do with the definition of correct rounding. */
module FloatRounding {
  import opened Powers
  import opened FloatSpec

  /** The grid of step `2^e` is that of the format from `q * 2^e` to the next point. */
  ghost predicate OnGrid(f: Format, q: nat, e: nat) {
    q < 2 * Pow2(f.mantSize) && (e == 0 || Pow2(f.mantSize) <= q)
  }

  /** No representable number lies strictly between two neighbours on the grid. */
  lemma GridGap(f: Format, q: nat, e: nat, k: nat)
    requires OnGrid(f, q, e) && Representable(f, k) && q * Pow2(e) < k
    ensures (q + 1) * Pow2(e) <= k
  {
    var c: nat, i: nat :| Canonical(f, k, c, i);
    if i >= e {
      FinerMultiple(q, e, c, i);
    } else {
      hide Pow2;
      MulMono(Pow2(f.mantSize), q, Pow2(e));
      BelowBinade(Pow2(f.mantSize), c, i, e);
      assert false;
    }
  }

  lemma FinerMultiple(q: nat, e: nat, c: nat, i: nat)
    requires e <= i && q * Pow2(e) < c * Pow2(i)
    ensures (q + 1) * Pow2(e) <= c * Pow2(i)
  {
    hide Pow2;
    Pow2Add(i - e, e);
    Multiple(c, Pow2(i - e), Pow2(e), Pow2(i));
    NextMultiple(q, c * Pow2(i - e), Pow2(e));
  }

  lemma Multiple(c: nat, t: nat, g: nat, h: nat)
    requires h == t * g
    ensures c * h == (c * t) * g
  {
    AssocNat(c, t, g);
  }

  lemma NextMultiple(q: nat, j: nat, g: nat)
    requires q * g < j * g
    ensures (q + 1) * g <= j * g
  {
    if j <= q {
      MulMono(j, q, g);
    } else {
      MulMono(q + 1, j, g);
    }
  }

  lemma MulMonoRight(m: nat, a: nat, b: nat)
    requires a <= b
    ensures m * a <= m * b
  {
  }

  lemma CanonicalPoint(f: Format, n: nat, c: nat, i: nat)
    requires Canonical(f, n, c, i)
    ensures Representable(f, n) && (c % 2 == 0 ==> EvenSignificand(f, n))
  {
    hide Canonical;
  }

  /** A point of the grid is representable, and its significand is even if `q` is. */
  lemma GridPoint(f: Format, q: nat, e: nat)
    requires f.Valid() && (e == 0 || Pow2(f.mantSize) <= q) && q <= 2 * Pow2(f.mantSize)
    ensures Representable(f, q * Pow2(e))
    ensures q % 2 == 0 ==> EvenSignificand(f, q * Pow2(e))
  {
    hide Representable;
    hide EvenSignificand;
    var p, n := Pow2(f.mantSize), q * Pow2(e);
    if q < 2 * p {
      CanonicalPoint(f, n, q, e);
    } else {
      assert p == 2 * Pow2(f.mantSize - 1) && Pow2(e + 1) == 2 * Pow2(e);
      hide Pow2;
      AssocNat(p, 2, Pow2(e));
      CanonicalPoint(f, n, p, e + 1);
    }
  }

  /** An odd point of the grid has an odd significand. */
  lemma GridOdd(f: Format, q: nat, e: nat)
    requires f.Valid() && OnGrid(f, q, e) && q % 2 == 1
    ensures !EvenSignificand(f, q * Pow2(e))
  {
    forall c: nat, i: nat | Canonical(f, q * Pow2(e), c, i) ensures c % 2 == 1 {
      CanonicalUnique(f, q * Pow2(e), q, e, c, i);
    }
  }

  lemma CanonicalUnique(f: Format, n: nat, c: nat, i: nat, d: nat, j: nat)
    requires Canonical(f, n, c, i) && Canonical(f, n, d, j)
    ensures c == d && i == j
  {
    if i < j {
      CanonicalOrder(f, n, c, i, d, j);
    } else if j < i {
      CanonicalOrder(f, n, d, j, c, i);
    } else if c < d {
      MulMono(c + 1, d, Pow2(i));
    } else if d < c {
      MulMono(d + 1, c, Pow2(i));
    }
  }

  lemma CanonicalOrder(f: Format, n: nat, c: nat, i: nat, d: nat, j: nat)
    requires Canonical(f, n, c, i) && Canonical(f, n, d, j)
    ensures i >= j
  {
    var p := Pow2(f.mantSize);
    hide Pow2;
    if i < j {
      MulMono(p, d, Pow2(j));
      BelowBinade(p, c, i, j);
      assert false;
    }
  }

  /** A significand of one bit more, at a lower exponent, is less. */
  lemma BelowBinade(p: nat, c: nat, i: nat, j: nat)
    requires c < 2 * p && i < j
    ensures c * Pow2(i) < p * Pow2(j)
  {
    Pow2Mono(i, j);
    var g, h := Pow2(i), Pow2(j);
    hide Pow2;
    MulMono(c + 1, 2 * p, g);
    Distribute(c, 1, g);
    MulMonoRight(p, 2 * g, h);
    AssocNat(p, 2, g);
  }

  // ----- the rounding rule

  /** Whether a magnitude `x` between the neighbours `lo` and `hi` goes up;
      `odd` tells whether the significand of `lo` is odd. */
  ghost predicate GoesUp(rm: RoundingMode, neg: bool, x: real, lo: nat, hi: nat, odd: bool) {
    if Nearest(rm) then
      hi as real - x < x - lo as real || (hi as real - x == x - lo as real && (rm == RMM || odd))
    else
      Away(rm, neg) && (lo as real) < x
  }

  ghost predicate Neighbours(f: Format, lo: nat, hi: nat, odd: bool) {
    && lo < hi && Representable(f, lo) && Representable(f, hi)
    && (forall k: nat :: Representable(f, k) ==> k <= lo || hi <= k)
    && EvenSignificand(f, lo) == !odd && EvenSignificand(f, hi) == odd
  }

  lemma NeighbourRounds(f: Format, rm: RoundingMode, neg: bool, x: real, lo: nat, hi: nat, odd: bool)
    requires Neighbours(f, lo, hi, odd) && lo as real <= x < hi as real
    ensures Rounds(f, rm, neg, x, if GoesUp(rm, neg, x, lo, hi, odd) then hi else lo)
  {
    hide Representable;
    hide EvenSignificand;
  }

  lemma NeighbourUnique(f: Format, rm: RoundingMode, neg: bool, x: real, lo: nat, hi: nat, odd: bool, n: nat)
    requires Neighbours(f, lo, hi, odd) && lo as real <= x < hi as real && Rounds(f, rm, neg, x, n)
    ensures n == if GoesUp(rm, neg, x, lo, hi, odd) then hi else lo
  {
    hide Representable;
    hide EvenSignificand;
  }

  /** The multiples of the step are neighbours. */
  lemma GridNeighbours(f: Format, q: nat, e: nat)
    requires f.Valid() && OnGrid(f, q, e)
    ensures Neighbours(f, q * Pow2(e), (q + 1) * Pow2(e), q % 2 == 1)
  {
    hide Pow2;
    hide Representable;
    hide EvenSignificand;
    var g := Pow2(e);
    var lo, hi := q * g, (q + 1) * g;
    GridPoint(f, q, e);
    GridPoint(f, q + 1, e);
    GridParity(f, q, e);
    Distribute(q, 1, g);
    forall k: nat | Representable(f, k) ensures k <= lo || hi <= k {
      if lo < k {
        GridGap(f, q, e, k);
      }
    }
  }

  lemma GridParity(f: Format, q: nat, e: nat)
    requires f.Valid() && OnGrid(f, q, e)
    ensures EvenSignificand(f, q * Pow2(e)) == (q % 2 == 0)
    ensures EvenSignificand(f, (q + 1) * Pow2(e)) == (q % 2 == 1)
  {
    hide EvenSignificand;
    hide Representable;
    hide Pow2;
    if q % 2 == 1 {
      GridOdd(f, q, e);
      GridPoint(f, q + 1, e);
    } else {
      NextOdd(q, Pow2(f.mantSize));
      GridPoint(f, q, e);
      GridOdd(f, q + 1, e);
    }
  }

  lemma NextOdd(q: nat, p: nat)
    requires q % 2 == 0 && q < 2 * p
    ensures q + 1 < 2 * p && (q + 1) % 2 == 1
  {
  }

  ghost predicate Cell(x: real, q: nat, g: nat) {
    (q * g) as real <= x < ((q + 1) * g) as real
  }

  ghost function GridRound(rm: RoundingMode, neg: bool, x: real, q: nat, g: nat): nat {
    if GoesUp(rm, neg, x, q * g, (q + 1) * g, q % 2 == 1) then (q + 1) * g else q * g
  }

  /** The rule rounds correctly, and correct rounding has one result only. */
  lemma GridRounds(f: Format, rm: RoundingMode, neg: bool, x: real, q: nat, e: nat, n: nat)
    requires f.Valid() && OnGrid(f, q, e) && Cell(x, q, Pow2(e))
    ensures Rounds(f, rm, neg, x, n) <==> n == GridRound(rm, neg, x, q, Pow2(e))
  {
    var lo, hi, odd := q * Pow2(e), (q + 1) * Pow2(e), q % 2 == 1;
    assert lo as real <= x < hi as real;
    assert GridRound(rm, neg, x, q, Pow2(e)) == if GoesUp(rm, neg, x, lo, hi, odd) then hi else lo;
    hide *;
    GridNeighbours(f, q, e);
    NeighbourRounds(f, rm, neg, x, lo, hi, odd);
    if Rounds(f, rm, neg, x, n) {
      NeighbourUnique(f, rm, neg, x, lo, hi, odd, n);
    }
  }

  /** A number of more than MANT_SIZE + 1 bits, cut to the significand. */
  lemma LongCell(f: Format, n: nat, l: nat, q: nat, e: nat)
    requires l == f.mantSize + 1 + e && Pow2(l - 1) <= n < Pow2(l) && q == n / Pow2(e)
    ensures Pow2(f.mantSize) <= q < 2 * Pow2(f.mantSize) && q * Pow2(e) <= n < (q + 1) * Pow2(e)
  {
    Pow2Add(f.mantSize, e);
    assert Pow2(l) == 2 * Pow2(l - 1);
    hide Pow2;
    DivMod(n, Pow2(e));
    Distribute(q, 1, Pow2(e));
    CellSize(n, q, Pow2(e), Pow2(f.mantSize));
  }

  lemma CellSize(n: nat, q: nat, g: nat, p: nat)
    requires q * g <= n < (q + 1) * g && p * g <= n < 2 * (p * g)
    ensures p <= q < 2 * p
  {
    AssocNat(2, p, g);
    if q < p {
      MulMono(q + 1, p, g);
    } else if q >= 2 * p {
      MulMono(2 * p, q, g);
    }
  }

  lemma ShortOnGrid(f: Format, n: nat)
    requires n < 2 * Pow2(f.mantSize)
    ensures OnGrid(f, n, 0) && n * Pow2(0) <= n < (n + 1) * Pow2(0)
  {
    assert Pow2(0) == 1;
    hide Pow2;
  }

  lemma LongOnGrid(f: Format, q: nat, e: nat)
    requires Pow2(f.mantSize) <= q < 2 * Pow2(f.mantSize)
    ensures OnGrid(f, q, e)
  {
    hide Pow2;
  }

  lemma GridOfNat(f: Format, n: nat) returns (q: nat, e: nat)
    ensures OnGrid(f, q, e) && q * Pow2(e) <= n < (q + 1) * Pow2(e)
  {
    hide *;
    var l := BitLen(n);
    Pow2Next(f.mantSize);
    if l <= f.mantSize + 1 {
      q, e := n, 0;
      Pow2Mono(l, f.mantSize + 1);
      ShortOnGrid(f, n);
    } else {
      e := l - (f.mantSize + 1);
      q := n / Pow2(e);
      LongCell(f, n, l, q, e);
      LongOnGrid(f, q, e);
    }
  }

  lemma FloorCell(x: real, lo: nat, hi: nat)
    requires lo <= x.Floor < hi
    ensures lo as real <= x < hi as real
  {
  }

  /** Every magnitude lies in a cell of the grid. */
  lemma GridOf(f: Format, x: real) returns (q: nat, e: nat)
    requires f.Valid() && x >= 0.0
    ensures OnGrid(f, q, e) && Cell(x, q, Pow2(e))
  {
    hide Pow2;
    hide OnGrid;
    q, e := GridOfNat(f, x.Floor);
    FloorCell(x, q * Pow2(e), (q + 1) * Pow2(e));
  }

  /** Correct rounding always has exactly one result. */
  lemma RoundsExactlyOne(f: Format, rm: RoundingMode, neg: bool, x: real) returns (n: nat)
    requires f.Valid() && x >= 0.0
    ensures forall k: nat :: Rounds(f, rm, neg, x, k) <==> k == n
  {
    var q, e := GridOf(f, x);
    n := GridRound(rm, neg, x, q, Pow2(e));
    forall k: nat ensures Rounds(f, rm, neg, x, k) <==> k == n {
      GridRounds(f, rm, neg, x, q, e, k);
    }
  }
}
