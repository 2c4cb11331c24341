/** `sqrtrem_u` by Newton's iteration, and `sqrt_sf`. */
module FloatSqrt {
  import opened Powers
  import opened FloatSpec
  import opened FloatRounding
  import opened FloatSticky
  import opened FloatPack
  import opened FloatUnpack
  import opened FloatMul
  import opened FloatDiv
  import opened FloatRoot

  // ----- integer square roots

  ghost predicate Quotes(a: nat, s: nat, q: nat) {
    q * s <= a < (q + 1) * s
  }

  /** A step of Newton's iteration does not pass below the root. */
  lemma NewtonAbove(a: nat, s: nat, q: nat)
    requires Quotes(a, s, q)
    ensures AboveRoot((q + s) / 2, a)
  {
    var u := (q + s) / 2;
    var d := 2 * (u + 1) - (q + s + 1);
    assert d >= 0;
    SquareSum(q + 1, s);
    MulOrder(q + 1 + s, 2 * (u + 1), q + 1 + s, 2 * (u + 1));
    AssocNat(2 * (u + 1), 2, u + 1);
    AssocNat(2, u + 1, u + 1);
    AssocNat(2, 2, (u + 1) * (u + 1));
  }

  lemma SquareSum(x: int, y: int)
    ensures (x + y) * (x + y) >= 4 * (x * y)
  {
    assert (x + y) * (x + y) == 4 * (x * y) + (x - y) * (x - y) by {
      Distribute(x, y, x + y);
      Distribute(x, -y, x - y);
      Distribute(x, y, x);
      Distribute(x, y, y);
      Distribute(x, -y, x);
      Distribute(x, -y, y);
    }
    Square(x - y);
  }

  lemma Square(z: int)
    ensures z * z >= 0
  {
  }

  /** When the step does not go down, the root is reached. */
  lemma NewtonStop(a: nat, s: nat, q: nat)
    requires Quotes(a, s, q) && (q + s) / 2 >= s
    ensures s * s <= a
  {
    MulMono(s, q, s);
  }

  /** The quotient is not much larger than the divisor. */
  lemma NewtonSum(a: nat, s: nat, q: nat)
    requires Quotes(a, s, q) && AboveRoot(s, a) && s > 0
    ensures q <= s + 2 && (q == s + 2 ==> (s + 1) * (s + 1) == a + 1)
  {
    var t := s + 1;
    assert t * t == s * s + 2 * s + 1 by {
      Distribute(s, 1, t);
      Distribute(s, 1, s);
    }
    if q >= s + 3 {
      MulMono(s + 3, q, s);
      Distribute(s, 3, s);
    } else if q == s + 2 {
      Distribute(s, 2, s);
    }
  }

  /** A square root of a number with an all-zero low word exceeds its high word. */
  lemma RootAboveHigh(a1: nat, g: nat, s: nat)
    requires 0 < a1 && 4 * (a1 + 1) <= 4 * g && AboveRoot(s, a1 * (4 * g))
    ensures a1 < s
  {
    if s <= a1 {
      MulOrder(s + 1, a1 + 1, s + 1, a1 + 1);
      MulMonoRight(a1, 4 * (a1 + 1), 4 * g);
      AssocNat(a1, 4, a1 + 1);
      AssocNat(4, a1, a1 + 1);
      Distribute(a1, 1, a1 + 1);
      MulMono(1, a1, a1 + 1);
    }
  }

  /** Newton's sum does not overflow a word. */
  lemma SumFits(a1: nat, g: nat, s: nat, q: nat)
    requires 0 < s <= 2 * g && a1 < g && g > 0
    requires Quotes(a1 * (4 * g), s, q) && AboveRoot(s, a1 * (4 * g))
    ensures q + s < 4 * g
  {
    var a := a1 * (4 * g);
    assert a + 4 * g <= (2 * g) * (2 * g) by {
      MulMono(a1 + 1, g, 4 * g);
      Distribute(a1, 1, 4 * g);
      AssocNat(g, 2, 2 * g);
    }
    if s == 2 * g {
      if q >= 2 * g {
        MulMono(2 * g, q, 2 * g);
      }
    } else {
      NewtonSum(a, s, q);
    }
  }

  /** The number with high word `a1` and low word 0. */
  ghost function Wide(a1: nat, n: nat): nat {
    a1 * Pow2(n)
  }

  lemma RootOfSquare(w: nat, a: nat)
    requires a <= w * w
    ensures AboveRoot(w, a)
  {
    Distribute(w, 1, w + 1);
    Distribute(w, 1, w);
  }

  lemma WideBelow(a1: nat, n: nat, l: nat, k: nat)
    requires n <= l <= 2 * k && a1 <= Pow2(l - n)
    ensures AboveRoot(Pow2(k), Wide(a1, n))
  {
    hide AboveRoot;
    Pow2Mono(l, 2 * k);
    Pow2Add(k, k);
    Pow2Add(l - n, n);
    hide Pow2;
    MulMono(a1, Pow2(l - n), Pow2(n));
    RootOfSquare(Pow2(k), a1 * Pow2(n));
  }

  /** The start of the iteration: a power of two that is not below the root. */
  lemma Start(n: nat, a1: nat, l: nat)
    requires n >= 2 && 0 < a1 < Pow2(n - 2) && a1 - 1 < Pow2(n) && l == 2 * n - Clz(a1 - 1, n)
    ensures AboveRoot(Pow2((l + 1) / 2), Wide(a1, n)) && Pow2((l + 1) / 2) <= Pow2(n - 1)
  {
    hide AboveRoot;
    hide Wide;
    var c := Clz(a1 - 1, n);
    if a1 > 1 {
      Pow2Less(n - c - 1, n - 2);
    }
    Pow2Mono((l + 1) / 2, n - 1);
    hide Pow2;
    WideBelow(a1, n, l, (l + 1) / 2);
  }

  /** One turn of the iteration. */
  lemma NewtonStep(n: nat, g: nat, a1: nat, s: nat, q: nat, r: nat)
    requires 0 < a1 < g && Pow2(n) == 4 * g && s <= 2 * g && AboveRoot(s, Wide(a1, n))
    requires Wide(a1, n) == q * s + r && r < s
    ensures var u := (q + s) / 2;
            && q + s < 4 * g && AboveRoot(u, Wide(a1, n)) && 0 < u
            && (u >= s ==> IsRoot(s, Wide(a1, n)))
  {
    hide Pow2;
    assert Quotes(Wide(a1, n), s, q) by { Distribute(q, 1, s); }
    hide AboveRoot;
    SumFits(a1, g, s, q);
    NewtonAbove(Wide(a1, n), s, q);
    RootPositive((q + s) / 2, a1, 4 * g);
    if (q + s) / 2 >= s {
      NewtonStop(Wide(a1, n), s, q);
    }
  }

  lemma RootPositive(u: nat, a1: nat, n: nat)
    requires 0 < a1 && 0 < n && AboveRoot(u, a1 * n)
    ensures u > 0
  {
    MulMono(1, a1, n);
  }

  /** The division of one turn. */
  method DivideWide(n: nat, a1: nat, s: nat) returns (q: nat, ghost r: nat)
    requires n >= 2 && 0 < a1 < Pow2(n - 2) && s <= Pow2(n - 1) && AboveRoot(s, Wide(a1, n))
    ensures Wide(a1, n) == q * s + r && r < s
  {
    Pow2Next(n - 2);
    hide Pow2;
    RootAboveHigh(a1, Pow2(n - 2), s);
    q, r := DivremU(n, a1, 0, s);
  }

  /** Newton's iteration from above. */
  method NewtonLoop(n: nat, a1: nat, start: nat) returns (s: nat)
    requires n >= 2 && 0 < a1 < Pow2(n - 2) && start <= Pow2(n - 1) && AboveRoot(start, Wide(a1, n))
    ensures IsRoot(s, Wide(a1, n))
  {
    ghost var g := Pow2(n - 2);
    Pow2Next(n - 2);
    RootPositiveWide(start, a1, n);
    hide Pow2;
    hide AboveRoot;
    hide IsRoot;
    hide Wide;
    var u: nat := start;
    while true
      invariant 0 < u <= 2 * g && AboveRoot(u, Wide(a1, n))
      decreases u
    {
      s := u;
      var q, r := DivideWide(n, a1, s);
      NewtonStep(n, g, a1, s, q, r);
      u := (q + s) / 2;
      if u >= s {
        break;
      }
    }
  }

  /** `sqrtrem_u` on a number whose low word is zero. */
  method SqrtremU(half: nat, a1: nat) returns (s: nat, inexact: bool)
    requires half >= 2 && a1 < Pow2(2 * half - 2)
    ensures IsRoot(s, Wide(a1, 2 * half)) && inexact == (s * s != Wide(a1, 2 * half))
  {
    var n := 2 * half;
    if a1 == 0 {
      assert Wide(a1, n) == 0 && IsRoot(0, 0);
      return 0, false;
    }
    Pow2Mono(n - 2, n);
    var l := 2 * n - Clz(a1 - 1, n);
    Start(n, a1, l);
    hide Pow2;
    hide AboveRoot;
    hide Wide;
    hide Double;
    s := NewtonLoop(n, a1, Pow2((l + 1) / 2));
    RootIsWord(s, a1, n);
    hide IsRoot;
    var sq1, sq0 := MulU(half, s, s);
    inexact := sq0 != 0 || sq1 != a1;
    SameWords(sq1, sq0, a1, n, s * s);
  }

  lemma RootPositiveWide(u: nat, a1: nat, n: nat)
    requires 0 < a1 && AboveRoot(u, Wide(a1, n))
    ensures u > 0
  {
    RootPositive(u, a1, Pow2(n));
  }

  lemma RootIsWord(s: nat, a1: nat, n: nat)
    requires n >= 2 && a1 < Pow2(n - 2) && IsRoot(s, Wide(a1, n))
    ensures s < Pow2(n)
  {
    Pow2Mono(n - 2, n);
    hide Pow2;
    if s >= Pow2(n) {
      MulOrder(Pow2(n), s, Pow2(n), s);
      MulMono(a1 + 1, Pow2(n), Pow2(n));
      Distribute(a1, 1, Pow2(n));
    }
  }

  lemma SameWords(high: nat, low: nat, a1: nat, n: nat, square: nat)
    requires low < Pow2(n) && Double(n, high, low) == square
    ensures (low != 0 || high != a1) == (square != Wide(a1, n))
  {
    DivRem(high, low, Pow2(n));
    DivRem(a1, 0, Pow2(n));
  }

  // ----- the square root of a number

  /** `x` is the exact square root of a magnitude, in the unit of the format. */
  ghost predicate IsExactRoot(f: Format, mag: nat, x: real)
    requires f.Valid()
  {
    x >= 0.0 && x * x == Scale(mag as real, f.Bias() + f.mantSize - 1)
  }

  /** The square of the exact root, in the square of the unit of the format. */
  function RootSquare(f: Format, mag: nat): nat
    requires f.Valid()
  {
    mag * Pow2(f.Bias() + f.mantSize - 1)
  }

  /** What the square root of a word is. */
  ghost predicate IsSqrt(f: Format, rm: RoundingMode, a: nat, w: nat, raised: Flags)
    requires f.Valid()
  {
    if IsNaN(f, a) then w == QNaN(f) && raised == if IsSignalling(f, a) then INVALID else NO_FLAGS
    else if Neg(f, a) && !IsZero(f, a) then w == QNaN(f) && raised == INVALID
    else if IsInf(f, a) || (Neg(f, a) && IsZero(f, a)) then w == a && raised == NO_FLAGS
    else Finite(f, a) && RoundedRoot(f, rm, RootSquare(f, Mag(f, a)), w, raised)
  }

  /** The same, for whoever has a real number for the exact root. */
  lemma SqrtOfReal(f: Format, rm: RoundingMode, a: nat, x: real, w: nat, raised: Flags)
    requires f.Valid() && Finite(f, a) && !Neg(f, a) && IsExactRoot(f, Mag(f, a), x) && IsSqrt(f, rm, a, w, raised)
    ensures Rounded(f, rm, false, x, w, raised)
  {
    var e := f.Bias() + f.mantSize - 1;
    ScaleNat(Mag(f, a), e);
    hide Scale;
    hide Pow2;
    hide Mag;
    hide RoundedRoot;
    hide Rounded;
    RootLike(x, RootSquare(f, Mag(f, a)));
    hide Like;
    RoundedLike(f, rm, x, RootSquare(f, Mag(f, a)), w, raised);
  }

  /** The root of a full-width mantissa is normalised. */
  lemma RootBounds(n: nat, a1: nat, s: nat)
    requires n >= 4 && Pow2(n - 4) <= a1 < Pow2(n - 2) && IsRoot(s, Wide(a1, n))
    ensures Pow2(n - 2) <= s < Pow2(n - 1)
  {
    var w, u := Pow2(n - 2), Pow2(n - 1);
    assert w * w == Pow2(n - 4) * Pow2(n) by {
      Pow2Add(n - 2, n - 2);
      Pow2Add(n - 4, n);
    }
    assert u * u == Pow2(n - 2) * Pow2(n) by {
      Pow2Add(n - 1, n - 1);
      Pow2Add(n - 2, n);
    }
    hide Pow2;
    if s < w {
      MulOrder(s + 1, w, s + 1, w);
      MulMono(Pow2(n - 4), a1, Pow2(n));
    }
    if s >= u {
      MulOrder(u, s, u, s);
      MulMono(a1 + 1, Pow2(n - 2), Pow2(n));
      Distribute(a1, 1, Pow2(n));
    }
  }

  /** The grid of the root's mantissa, in steps of `2^-k` of the unit. */
  lemma RootGrid(f: Format, mag: nat, c: nat, e: int, k: nat, d: int)
    requires f.Valid() && mag as real == Scale(c as real, 2 * e + f.Bias() - 1)
    requires d == f.RndSize() + 1 - e - f.Bias() && d <= k
    ensures RootSquare(f, mag) * Pow2(2 * k)
         == Wide(c * Pow2(f.FSize() - 4 - f.mantSize), f.FSize()) * Pow2(2 * (k - d))
  {
    var n, b := f.FSize(), f.Bias() + f.mantSize - 1;
    var wide := Wide(c * Pow2(n - 4 - f.mantSize), n);
    WideScale(c, n - 4 - f.mantSize, n);
    ScaleNat(mag, b);
    ScaleNat(RootSquare(f, mag), 2 * k);
    ScaleNat(wide, 2 * (k - d));
    hide *;
    Rescale(c as real, 2 * e + f.Bias() - 1, b);
    Rescale(c as real, 2 * e + f.Bias() - 1 + b, 2 * k);
    Rescale(c as real, n - 4 - f.mantSize + n, 2 * (k - d));
    assert f.RndSize() == n - 2 - f.mantSize by { Sizes(f); }
  }

  lemma WideScale(c: nat, k: nat, n: nat)
    ensures Scale(c as real, k + n) == Wide(c * Pow2(k), n) as real
  {
    ScaleNat(c, k + n);
    Pow2Add(k, n);
    AssocNat(c, Pow2(k), Pow2(n));
  }

  lemma RootMant(f: Format, c: nat)
    requires f.Valid() && Pow2(f.mantSize) <= c < 4 * Pow2(f.mantSize)
    ensures Pow2(f.FSize() - 4) <= c * Pow2(f.FSize() - 4 - f.mantSize) < Pow2(f.FSize() - 2)
  {
    Pow2Next(f.mantSize);
    ShlBounds(c, f.mantSize + 2, f.FSize() - 4 - f.mantSize);
    Pow2Add(f.mantSize, f.FSize() - 4 - f.mantSize);
    MulMono(Pow2(f.mantSize), c, Pow2(f.FSize() - 4 - f.mantSize));
  }

  lemma DivMod2(x: int)
    ensures x % 2 == 0 || (x - 1) / 2 * 2 == x - 1
    ensures x % 2 == 0 ==> x / 2 * 2 == x
  {
  }

  /** The exponent halved, with a mantissa of up to MANT_SIZE + 2 bits. */
  method EvenExponent(f: Format, a: nat) returns (c: nat, e: int)
    requires f.Valid() && Finite(f, a) && Mag(f, a) > 0
    ensures Pow2(f.mantSize) <= c < 4 * Pow2(f.mantSize) && Mag(f, a) as real == Scale(c as real, 2 * e + f.Bias() - 1)
  {
    hide *;
    var aExp, aMant := Operand(f, a);
    MaskIs(f);
    aExp := aExp - f.ExpMask() / 2;
    DivMod2(aExp);
    if aExp % 2 != 0 {
      aExp := aExp - 1;
      ScaleStep(aMant as real, aExp + f.Bias() - 1);
      ScaleDouble(aMant, aExp + f.Bias() - 1);
      aMant := 2 * aMant;
    }
    c, e := aMant, aExp / 2;
  }

  /** The root of the mantissa stands for `x`, a number in the place of the exact root. */
  lemma RootStands(f: Format, mag: nat, x: real, k: nat, r: nat, c: nat, e: int, s: nat, inexact: bool)
    returns (xs: real)
    requires f.Valid() && Pow2(f.mantSize) <= c < 4 * Pow2(f.mantSize)
    requires mag as real == Scale(c as real, 2 * e + f.Bias() - 1)
    requires f.RndSize() + 1 - e - f.Bias() <= k && InCell(Scale(x, k), RootSquare(f, mag) * Pow2(2 * k), r)
    requires var a1 := c * Pow2(f.FSize() - 4 - f.mantSize);
             IsRoot(s, Wide(a1, f.FSize())) && inexact == (s * s != Wide(a1, f.FSize()))
    ensures x == Scale(xs, e + f.Bias() - 1 - f.RndSize())
    ensures Or1(s, inexact) < Pow2(f.FSize() - 1) && StandsFor(f, xs, Or1(s, inexact))
  {
    var n, a1 := f.FSize(), c * Pow2(f.FSize() - 4 - f.mantSize);
    var d := f.RndSize() + 1 - e - f.Bias();
    xs := Scale(x, d);
    Pow2Mono(f.mantSize + 2, n - 2);
    RootMant(f, c);
    RootBounds(n, a1, s);
    assert x == Scale(xs, 0 - d) by {
      Rescale(x, d, 0 - d);
      ScaleZero(x);
    }
    CellOfRoot(f, mag, x, k, r, c, e, s);
    assert (xs == s as real) == !inexact && s as real <= xs < (s + 1) as real;
    hide *;
    FloorStands(f, xs, s, !inexact);
  }

  lemma CellOfRoot(f: Format, mag: nat, x: real, k: nat, r: nat, c: nat, e: int, s: nat)
    requires f.Valid() && mag as real == Scale(c as real, 2 * e + f.Bias() - 1)
    requires f.RndSize() + 1 - e - f.Bias() <= k && InCell(Scale(x, k), RootSquare(f, mag) * Pow2(2 * k), r)
    requires IsRoot(s, Wide(c * Pow2(f.FSize() - 4 - f.mantSize), f.FSize()))
    ensures var xs := Scale(x, f.RndSize() + 1 - e - f.Bias());
            var wide := Wide(c * Pow2(f.FSize() - 4 - f.mantSize), f.FSize());
            s as real <= xs < (s + 1) as real && (xs == s as real <==> s * s == wide)
  {
    var d := f.RndSize() + 1 - e - f.Bias();
    var xs, wide := Scale(x, d), Wide(c * Pow2(f.FSize() - 4 - f.mantSize), f.FSize());
    var b, t := RootSquare(f, mag) * Pow2(2 * k), k - d;
    RootGrid(f, mag, c, e, k, d);
    Rescale(x, d, t);
    hide *;
    assert b == wide * Pow2(2 * t) && Scale(x, k) == Scale(xs, t);
    assert Sides(xs, wide, s) by {
      CellSides(Scale(x, k), b, r, s * Pow2(t));
      SidesScaled(xs, wide, s, t);
    }
    assert Sides(xs, wide, s + 1) by {
      CellSides(Scale(x, k), b, r, (s + 1) * Pow2(t));
      SidesScaled(xs, wide, s + 1, t);
    }
    SidesCell(xs, wide, s);
  }

  /** `sqrt_sf` on positive finite numbers. */
  method SqrtFinite(f: Format, a: nat, rm: RoundingMode) returns (w: nat, raised: Flags)
    requires f.Valid() && Finite(f, a) && Mag(f, a) > 0
    ensures RoundedRoot(f, rm, RootSquare(f, Mag(f, a)), w, raised)
  {
    hide Rounded;
    hide RoundedRoot;
    hide Scale;
    hide StandsFor;
    hide Mag;
    hide Wide;
    hide IsRoot;
    hide InCell;
    hide Like;
    hide RootSquare;
    hide Pow2;
    var c, e := EvenExponent(f, a);
    MaskIs(f);
    RootMant(f, c);
    var aMant := c * Pow2(f.FSize() - 4 - f.mantSize);
    var s, inexact := SqrtremU(f.FSize() / 2, aMant);
    ghost var d := f.RndSize() + 1 - e - f.Bias();
    ghost var k := if d > 2 then d else 2;
    ghost var x, r := StandIn(RootSquare(f, Mag(f, a)), k);
    ghost var xs := RootStands(f, Mag(f, a), x, k, r, c, e, s, inexact);
    aMant := Or1(s, inexact);
    hide Or1;
    w, raised := Normalize(f, false, e + f.ExpMask() / 2, aMant, rm, xs, x);
    RoundedLike(f, rm, x, RootSquare(f, Mag(f, a)), w, raised);
  }

  /** `sqrt_sf`, for any word. */
  method Sqrt(f: Format, a: nat, rm: RoundingMode) returns (w: nat, raised: Flags)
    requires f.Valid() && IsWord(f, a)
    ensures IsSqrt(f, rm, a, w, raised)
  {
    hide RoundedRoot;
    hide RootSquare;
    hide Mag;
    hide Pow2;
    SigNaNTest(f, a);
    if Exp(f, a) == f.ExpMask() {
      if Mant(f, a) != 0 {
        w, raised := QNaN(f), if IsSigNaN(f, a) then INVALID else NO_FLAGS;
      } else if Neg(f, a) {
        w, raised := QNaN(f), INVALID;
      } else {
        w, raised := a, NO_FLAGS;
      }
      return;
    }
    if Neg(f, a) {
      if IsZero(f, a) {
        w, raised := a, NO_FLAGS;
      } else {
        w, raised := QNaN(f), INVALID;
      }
      return;
    }
    MagZero(f, a);
    if IsZero(f, a) {
      ZeroRoot(f, rm);
      w, raised := Pack(f, false, 0, 0), NO_FLAGS;
    } else {
      w, raised := SqrtFinite(f, a, rm);
    }
  }

  lemma ZeroRoot(f: Format, rm: RoundingMode)
    requires f.Valid()
    ensures RoundedRoot(f, rm, RootSquare(f, 0), Pack(f, false, 0, 0), NO_FLAGS)
  {
    ZeroRounded(f, rm, false);
    RootLike(0.0, 0);
    RoundedLike(f, rm, 0.0, 0, Pack(f, false, 0, 0), NO_FLAGS);
    hide RoundedRoot;
  }
}
