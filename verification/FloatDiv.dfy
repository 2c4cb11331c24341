/** `divrem_u` by shifting and subtracting, and `div_sf`. */
module FloatDiv {
  import opened Powers
  import opened FloatSpec
  import opened FloatSticky
  import opened FloatPack
  import opened FloatUnpack

  // ----- double-word division

  /** `x - y` on words of `n` bits. */
  function SubWord(n: nat, x: nat, y: nat): nat
    requires y <= Pow2(n)
  {
    Low(x + Pow2(n) - y, n)
  }

  /** The word that still holds `rem` above the quotient digits `q`. */
  ghost predicate Packed(n: nat, i: nat, a0: nat, rem: nat, q: nat)
    requires i <= n
  {
    a0 == rem * Pow2(i) + q && rem < Pow2(n - i) && q < Pow2(i)
  }

  lemma BitOut(bit: nat, r: nat, h: nat, g: nat, q: nat, m: nat, a0: nat)
    requires a0 == (bit * h + r) * g + q && r < h && q < g && bit < 2 && m == h * g
    ensures m > 0 && a0 / m == bit && a0 < 2 * m && (2 * a0) % (2 * m) == r * (2 * g) + 2 * q
  {
    Nested(bit, h, g, r, q);
    var u := r * g + q;
    assert u < m by { DigitPair(r, h, q, g); }
    assert a0 == bit * m + u;
    DivRem(bit, u, m);
    assert 2 * a0 == bit * (2 * m) + 2 * u by {
      AssocNat(bit, 2, m);
      AssocNat(2, bit, m);
    }
    DivRem(bit, 2 * u, 2 * m);
    AssocNat(r, 2, g);
    AssocNat(2, r, g);
  }

  /** Taking the next bit of the dividend out of the word. */
  lemma NextBit(n: nat, i: nat, a0: nat, rem: nat, q: nat, qb: nat)
    requires i < n && Packed(n, i, a0, rem, q) && qb < 2
    ensures var h := Pow2(n - i - 1);
            && Shr(a0, n - 1) == rem / h < 2 && a0 < Pow2(n)
            && Packed(n, i + 1, Low(2 * a0, n) + qb, rem % h, 2 * q + qb)
  {
    var h, g, m := Pow2(n - i - 1), Pow2(i), Pow2(n - 1);
    assert Pow2(n - i) == 2 * h && Pow2(i + 1) == 2 * g && Pow2(n) == 2 * m;
    Pow2Add(n - i - 1, i);
    hide Pow2;
    var bit, r := rem / h, rem % h;
    DivMod(rem, h);
    assert bit < 2 by {
      if bit >= 2 {
        MulMono(2, bit, h);
      }
    }
    BitOut(bit, r, h, g, q, m, a0);
  }

  lemma DigitPair(r: nat, h: nat, q: nat, g: nat)
    requires r < h && q < g
    ensures r * g + q < h * g
  {
    MulMono(r + 1, h, g);
    Distribute(r, 1, g);
  }

  /** One digit of the quotient. */
  lemma NextDigit(n: nat, a1: nat, bit: nat, b: nat)
    requires n > 0 && a1 < b < Pow2(n) && bit < 2
    ensures var t, low := 2 * a1 + bit, Low(2 * a1, n) + bit;
            var over := Shr(a1, n - 1) != 0 || low >= b;
            && low < Pow2(n) && over == (t >= b)
            && (if over then SubWord(n, low, b) == t - b < b else low == t)
  {
    var h := Pow2(n - 1);
    assert Pow2(n) == 2 * h;
    hide Pow2;
    TopBit(a1, h);
    if a1 >= h {
      DivRem(1, 2 * a1 - 2 * h, 2 * h);
    } else {
      SmallMod(2 * a1, 2 * h);
    }
    var t, low := 2 * a1 + bit, Low(2 * a1, n) + bit;
    if t >= b {
      if a1 >= h {
        SmallMod(t - b, 2 * h);
      } else {
        DivRem(1, t - b, 2 * h);
      }
    }
  }

  lemma Digits(v: nat, q: nat, b: nat, a1: nat, h: nat, bit: nat, r: nat, qb: nat, a1': nat)
    requires v == (q * b + a1) * (2 * h) + (bit * h + r) && 2 * a1 + bit == qb * b + a1'
    ensures v == ((2 * q + qb) * b + a1') * h + r
  {
    var w := q * b;
    assert (2 * q + qb) * b + a1' == 2 * w + 2 * a1 + bit by {
      Distribute(2 * q, qb, b);
      AssocNat(2, q, b);
    }
    AssocNat(w + a1, 2, h);
    Distribute(2 * (w + a1), bit, h);
  }

  /** The digits so far, the remainder so far and the rest of the dividend. */
  ghost predicate Progress(total: nat, q: nat, b: nat, a1: nat, k: nat, rem: nat) {
    total == (q * b + a1) * Pow2(k) + rem
  }

  lemma NextProgress(total: nat, q: nat, b: nat, a1: nat, k: nat, rem: nat, bit: nat, qb: nat, a1': nat)
    requires k > 0 && Progress(total, q, b, a1, k, rem) && bit == rem / Pow2(k - 1) && 2 * a1 + bit == qb * b + a1'
    ensures Progress(total, 2 * q + qb, b, a1', k - 1, rem % Pow2(k - 1))
  {
    var h := Pow2(k - 1);
    assert Pow2(k) == 2 * h;
    hide Pow2;
    DivMod(rem, h);
    Digits(total, q, b, a1, h, bit, rem % h, qb, a1');
  }

  lemma LastDigit(n: nat, total: nat, b: nat, x0: nat, x1: nat, rem: nat, q: nat)
    requires Packed(n, n, x0, rem, q) && Progress(total, q, b, x1, 0, rem)
    ensures total == x0 * b + x1 && x0 < Pow2(n)
  {
    assert Pow2(0) == 1;
  }

  /** `divrem_u` on machines without a double-word type. */
  method DivremU(n: nat, a1: nat, a0: nat, b: nat) returns (q: nat, r: nat)
    requires n > 0 && a1 < b < Pow2(n) && a0 < Pow2(n)
    ensures a1 * Pow2(n) + a0 == q * b + r && r < b && q < Pow2(n)
  {
    var i, x1: nat, x0: nat := 0, a1, a0;
    ghost var rem: nat, digits: nat, total: nat := a0, 0, a1 * Pow2(n) + a0;
    assert Packed(n, 0, a0, a0, 0) && Pow2(0) == 1 && Progress(total, 0, b, a1, n, a0);
    hide Pow2;
    hide Progress;
    hide Shr;
    hide Low;
    hide SubWord;
    while i < n
      invariant 0 <= i <= n && x1 < b && Packed(n, i, x0, rem, digits)
      invariant Progress(total, digits, b, x1, n - i, rem)
    {
      var top := Shr(x0, n - 1);
      var carry := Shr(x1, n - 1);
      var low := Low(2 * x1, n) + top;
      var qb := 0;
      NextBit(n, i, x0, rem, digits, 0);
      NextBit(n, i, x0, rem, digits, 1);
      NextDigit(n, x1, top, b);
      hide Packed;
      if carry != 0 || low >= b {
        low := SubWord(n, low, b);
        qb := 1;
      }
      NextProgress(total, digits, b, x1, n - i, rem, top, qb, low);
      x0 := Low(2 * x0, n) + qb;
      x1 := low;
      rem, digits := rem % Pow2(n - i - 1), 2 * digits + qb;
      i := i + 1;
    }
    q, r := x0, x1;
    LastDigit(n, total, b, x0, x1, rem, digits);
  }

  // ----- the quotient of two numbers

  const DIVIDE_ZERO := Flags(false, false, false, true, false)

  /** The exact quotient of two magnitudes, in the unit of the format. */
  ghost function ExactQuotient(f: Format, a: nat, b: nat): real
    requires f.Valid() && b > 0
  {
    Scale(a as real / b as real, f.Bias() + f.mantSize - 1)
  }

  predicate IsZero(f: Format, w: nat) {
    Exp(f, w) == 0 && Mant(f, w) == 0
  }

  /** What the quotient of two words is. */
  ghost predicate IsQuotient(f: Format, rm: RoundingMode, a: nat, b: nat, w: nat, raised: Flags)
    requires f.Valid()
  {
    var neg := Neg(f, a) != Neg(f, b);
    if IsNaN(f, a) || IsNaN(f, b) then
      w == QNaN(f) && raised == if IsSignalling(f, a) || IsSignalling(f, b) then INVALID else NO_FLAGS
    else if (IsInf(f, a) && IsInf(f, b)) || (IsZero(f, a) && IsZero(f, b)) then
      w == QNaN(f) && raised == INVALID
    else if IsInf(f, a) then
      w == Pack(f, neg, f.ExpMask(), 0) && raised == NO_FLAGS
    else if IsInf(f, b) then
      w == Pack(f, neg, 0, 0) && raised == NO_FLAGS
    else if IsZero(f, b) then
      w == Pack(f, neg, f.ExpMask(), 0) && raised == DIVIDE_ZERO
    else
      Mag(f, b) > 0 && Rounded(f, rm, neg, ExactQuotient(f, Mag(f, a), Mag(f, b)), w, raised)
  }

  /** `q` and `r` are the quotient and remainder of `a * n` by `4 * b`. */
  ghost predicate Divided(a: nat, n: nat, b: nat, q: nat, r: nat) {
    a * n == q * (4 * b) + r && r < 4 * b
  }

  lemma DividedIs(a: nat, n: nat, b: nat, q: nat, r: nat)
    requires a * n + 0 == q * (b * 4) + r && r < b * 4
    ensures Divided(a, n, b, q, r)
  {
  }

  ghost predicate IsRatio(y: real, a: nat, b: nat) {
    b > 0 && y * b as real == a as real
  }

  /** The integer quotient, and what it stands for. */
  lemma QuotientStands(f: Format, a: nat, b: nat, q: nat, r: nat, y: real)
    requires f.Valid() && Divided(a, Pow2(f.FSize()), b, q, r) && IsRatio(y, a, b)
    requires Pow2(f.mantSize) <= a < 2 * Pow2(f.mantSize) && Pow2(f.mantSize) <= b < 2 * Pow2(f.mantSize)
    ensures Or1(q, r != 0) < Pow2(f.FSize() - 1)
    ensures StandsFor(f, Scale(y, f.FSize() - 2), Or1(q, r != 0))
  {
    hide Divided;
    hide IsRatio;
    hide IsTimes;
    hide StandsFor;
    hide Or1;
    hide Scale;
    var n, x := f.FSize(), Scale(y, f.FSize() - 2);
    hide Pow2;
    Pow2Next(n - 3);
    Pow2Mono(f.mantSize + 2, n - 3);
    QuotientBounds(a, b, q, r, Pow2(f.mantSize), Pow2(n - 3), Pow2(n));
    ScaleIsTimes(y, n - 2);
    QuotientReal(a, b, q, r, Pow2(n - 2), Pow2(n), y, x);
    FloorStands(f, x, q, r == 0);
  }

  lemma QuotientBounds(a: nat, b: nat, q: nat, r: nat, p: nat, k: nat, n: nat)
    requires k > 0 && n == 8 * k && Divided(a, n, b, q, r) && p <= a < 2 * p && p <= b < 2 * p
    ensures k <= q < 4 * k
  {
    Regroup(a, b, q, k);
    assert q < 4 * k by {
      if q >= 4 * k {
        MulOrder(4 * k, q, p, b);
        MulMono(a + 1, 2 * p, k);
        Distribute(a, 1, k);
        AssocNat(2, p, k);
        AssocNat(4, k, p);
      }
    }
    assert k <= q by {
      if q < k {
        MulOrder(q + 1, k, b + 1, 2 * p);
        Distribute(q, 1, b + 1);
        Distribute(b, 1, q);
        MulMono(p, a, k);
        AssocNat(k, 2, p);
        AssocNat(2, k, p);
      }
    }
  }

  lemma Regroup(a: nat, b: nat, q: nat, k: nat)
    ensures a * (8 * k) == 8 * (a * k) && q * (4 * b) == 4 * (q * b)
  {
    AssocNat(8, a, k);
    AssocNat(a, 8, k);
    AssocNat(q, 4, b);
    AssocNat(4, q, b);
  }

  ghost predicate IsTimes(x: real, y: real, m: nat) {
    x == y * m as real
  }

  lemma ScaleIsTimes(y: real, k: nat)
    ensures IsTimes(Scale(y, k), y, Pow2(k))
  {
    ScaleByNat(y, k);
  }

  lemma QuotientReal(a: nat, b: nat, q: nat, r: nat, m: nat, n: nat, y: real, x: real)
    requires n == 4 * m && IsRatio(y, a, b) && Divided(a, n, b, q, r) && IsTimes(x, y, m)
    ensures q as real <= x < (q + 1) as real && (r == 0 <==> x == q as real)
  {
    var d := (4 * b) as real;
    assert x * d == (a * (4 * m)) as real by {
      TimesDiv(y, a, b, m);
    }
    assert (a * (4 * m)) as real == q as real * d + r as real;
    TimesOrder(x, q as real, d);
    TimesOrder(q as real, x, d);
    TimesOrder(x, (q + 1) as real, d);
    assert (q + 1) as real * d == q as real * d + d;
  }

  lemma TimesDiv(y: real, a: nat, b: nat, m: nat)
    requires y * b as real == a as real
    ensures (y * m as real) * (4 * b) as real == (a * (4 * m)) as real
  {
    Assoc(y, m as real, (4 * b) as real);
    Assoc(m as real, 4.0, b as real);
    assert (4 * b) as real == 4.0 * b as real;
    Assoc(y, 4.0 * m as real, b as real);
    assert m as real * (4.0 * b as real) == (4.0 * m as real) * b as real;
    assert (a * (4 * m)) as real == a as real * (4.0 * m as real);
  }

  lemma RatioScale(y: real, a: nat, b: nat, z: real, aMag: nat, bMag: nat, aExp: int, bExp: int)
    requires bMag > 0 && y * b as real == a as real && z * bMag as real == aMag as real
    requires Scale(a as real, aExp - 1) == aMag as real && Scale(b as real, bExp - 1) == bMag as real
    ensures Scale(y, aExp - bExp) == z
  {
    hide Scale;
    ScaleTimesIs(y, aExp - bExp, b as real, bExp - 1, a as real, aExp - 1);
    Cancel(Scale(y, aExp - bExp), Scale(b as real, bExp - 1), Scale(a as real, aExp - 1), z,
           bMag as real, aMag as real);
  }

  lemma Cancel(x: real, b: real, a: real, z: real, d: real, c: real)
    requires d > 0.0 && x * b == a && z * d == c && a == c && b == d
    ensures x == z
  {
    TimesOrder(x, z, b);
  }

  lemma Ratio(a: nat, b: nat) returns (y: real)
    requires b > 0
    ensures y == a as real / b as real && y * b as real == a as real && IsRatio(y, a, b)
  {
    y := a as real / b as real;
  }

  lemma QuotientScale(f: Format, a: nat, b: nat, aMag: nat, bMag: nat, aExp: int, bExp: int, y: real)
    requires f.Valid() && bMag > 0 && y * b as real == a as real
    requires Scale(a as real, aExp - 1) == aMag as real && Scale(b as real, bExp - 1) == bMag as real
    ensures ExactQuotient(f, aMag, bMag)
         == Scale(Scale(y, f.FSize() - 2), aExp - bExp + f.Bias() + f.mantSize + 1 - f.FSize())
  {
    var z := Ratio(aMag, bMag);
    RatioScale(y, a, b, z, aMag, bMag, aExp, bExp);
    hide Scale;
    Rescale(y, aExp - bExp, f.Bias() + f.mantSize - 1);
    Rescale(y, f.FSize() - 2, aExp - bExp + f.Bias() + f.mantSize + 1 - f.FSize());
  }

  lemma DivisorFits(f: Format, a: nat, b: nat)
    requires f.Valid() && Pow2(f.mantSize) <= a < 2 * Pow2(f.mantSize) && Pow2(f.mantSize) <= b < 2 * Pow2(f.mantSize)
    ensures f.FSize() > 0 && a < b * 4 < Pow2(f.FSize())
  {
    Pow2Next(f.mantSize);
    Pow2Mono(f.mantSize + 3, f.FSize());
    hide Pow2;
  }

  /** `div_sf` on finite numbers other than zero. */
  method DivFinite(f: Format, a: nat, b: nat, rm: RoundingMode) returns (w: nat, raised: Flags)
    requires f.Valid() && Finite(f, a) && Finite(f, b) && Mag(f, a) > 0 && Mag(f, b) > 0
    ensures Rounded(f, rm, Neg(f, a) != Neg(f, b), ExactQuotient(f, Mag(f, a), Mag(f, b)), w, raised)
  {
    hide *;
    Sizes(f);
    var bExp, bMant := Operand(f, b);
    var aExp, aMant := Operand(f, a);
    var rExp := aExp - bExp + Pow2(f.expSize - 1) - 1;
    DivisorFits(f, aMant, bMant);
    var rMant, r := DivremU(f.FSize(), aMant, 0, bMant * 4);
    DividedIs(aMant, Pow2(f.FSize()), bMant, rMant, r);
    ghost var y := Ratio(aMant, bMant);
    QuotientStands(f, aMant, bMant, rMant, r, y);
    QuotientScale(f, aMant, bMant, Mag(f, a), Mag(f, b), aExp, bExp, y);
    rMant := Or1(rMant, r != 0);
    w, raised := Normalize(f, Neg(f, a) != Neg(f, b), rExp, rMant, rm, Scale(y, f.FSize() - 2),
                           ExactQuotient(f, Mag(f, a), Mag(f, b)));
  }

  /** `div_sf`, for any two words. */
  method Div(f: Format, a: nat, b: nat, rm: RoundingMode) returns (w: nat, raised: Flags)
    requires f.Valid() && IsWord(f, a) && IsWord(f, b)
    ensures IsQuotient(f, rm, a, b, w, raised)
  {
    hide Rounded;
    hide Mag;
    hide Pow2;
    SigNaNTest(f, a);
    SigNaNTest(f, b);
    var neg := Neg(f, a) != Neg(f, b);
    if Exp(f, a) == f.ExpMask() {
      if Mant(f, a) != 0 || IsNaN(f, b) {
        w, raised := QNaN(f), if IsSigNaN(f, a) || IsSigNaN(f, b) then INVALID else NO_FLAGS;
      } else if Exp(f, b) == f.ExpMask() {
        w, raised := QNaN(f), INVALID;
      } else {
        w, raised := Pack(f, neg, f.ExpMask(), 0), NO_FLAGS;
      }
      return;
    } else if Exp(f, b) == f.ExpMask() {
      if Mant(f, b) != 0 {
        w, raised := QNaN(f), if IsSigNaN(f, a) || IsSigNaN(f, b) then INVALID else NO_FLAGS;
      } else {
        w, raised := Pack(f, neg, 0, 0), NO_FLAGS;
      }
      return;
    }
    MagZero(f, a);
    MagZero(f, b);
    if IsZero(f, b) {
      if IsZero(f, a) {
        w, raised := QNaN(f), INVALID;
      } else {
        w, raised := Pack(f, neg, f.ExpMask(), 0), DIVIDE_ZERO;
      }
    } else if IsZero(f, a) {
      ScaleSign(0.0, f.Bias() + f.mantSize - 1);
      ZeroRounded(f, rm, neg);
      w, raised := Pack(f, neg, 0, 0), NO_FLAGS;
    } else {
      w, raised := DivFinite(f, a, b, rm);
    }
  }
}