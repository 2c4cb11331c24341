/** `mul_u` by half words, and `mul_sf`. */
module FloatMul {
  import opened Powers
  import opened FloatSpec
  import opened FloatSticky
  import opened FloatPack
  import opened FloatUnpack

  // ----- double-word products

  /** A double word. */
  ghost function Double(n: nat, hi: nat, lo: nat): nat {
    Shl(hi, n) + lo
  }

  lemma Columns(b: nat, q: nat, x1: nat, x0: nat, y1: nat, y0: nat, z1: nat, z0: nat, t1: nat, t0: nat,
                c1: nat, r1: nat, d1: nat, r2: nat)
    requires q == b * b && x1 + y0 + z0 == c1 * b + r1 && c1 + y1 + z1 + t0 == d1 * b + r2
    ensures (t1 * b + t0) * q + ((y1 * b + y0) + (z1 * b + z0)) * b + (x1 * b + x0)
         == ((d1 + t1) * b + r2) * q + (r1 * b + x0)
  {
    AssocNat(y1 + z1, b, b);
    Distribute((y1 + z1) * b, y0 + z0, b);
    assert (y1 * b + y0) + (z1 * b + z0) == (y1 + z1) * b + (y0 + z0) by { Distribute(y1, z1, b); }
    AssocNat(c1, b, b);
    Distribute(c1 * b, r1, b);
    Distribute(x1 + y0 + z0, 0, b);
    Distribute(y0 + z0, x1, b);
    Distribute(t1 * b, t0, q);
    Distribute(t0, c1 + y1 + z1, q);
    Distribute(c1, y1 + z1, q);
    Distribute(d1 * b, r2, q);
    Distribute(t1 * b, d1 * b + r2, q);
    Distribute(t1, d1, b);
  }

  lemma Halfwords(a1: nat, a0: nat, b1: nat, b0: nat, b: nat)
    ensures (a1 * b + a0) * (b1 * b + b0) == a1 * b1 * (b * b) + (a0 * b1 + a1 * b0) * b + a0 * b0
  {
    var v := b1 * b + b0;
    Distribute(a1 * b, a0, v);
    Distribute(b1 * b, b0, a0);
    AssocNat(a0, b1, b);
    Distribute(b1 * b, b0, a1 * b);
    assert v * (a1 * b) == a1 * b1 * (b * b) + a1 * b0 * b by {
      AssocNat(a1, b, b1 * b);
      AssocNat(b, b1, b);
      AssocNat(b1, b, b);
      AssocNat(a1, b1, b * b);
      AssocNat(a1, b0, b);
    }
    Distribute(a0 * b1, a1 * b0, b);
  }

  lemma ColumnSums(half: nat, g: nat, a1: nat, a0: nat, b1: nat, b0: nat, c: nat, d: nat)
    requires g == Pow2(half) && c == Shr(a0 * b0, half) + Low(a0 * b1, half) + Low(a1 * b0, half)
    requires d == Shr(c, half) + Shr(a0 * b1, half) + Shr(a1 * b0, half) + Low(a1 * b1, half)
    ensures (a1 * g + a0) * (b1 * g + b0)
         == ((Shr(d, half) + Shr(a1 * b1, half)) * g + Low(d, half)) * (g * g) + (Low(c, half) * g + Low(a0 * b0, half))
  {
    Halfwords(a1, a0, b1, b0, g);
    var r00, r01, r10, r11 := a0 * b0, a0 * b1, a1 * b0, a1 * b1;
    HalfSplit(r00, half);
    HalfSplit(r01, half);
    HalfSplit(r10, half);
    HalfSplit(r11, half);
    HalfSplit(c, half);
    HalfSplit(d, half);
    hide Pow2;
    hide Shr;
    hide Low;
    Columns(g, g * g, Shr(r00, half), Low(r00, half), Shr(r01, half), Low(r01, half), Shr(r10, half), Low(r10, half),
            Shr(r11, half), Low(r11, half), Shr(c, half), Low(c, half), Shr(d, half), Low(d, half));
  }

  lemma Digits(high: nat, low: nat, g: nat)
    requires low < g
    ensures high < g ==> high * g + low < g * g
    ensures high * g + low < g * g ==> high < g
  {
    if high < g {
      MulMono(high + 1, g, g);
      Distribute(high, 1, g);
    } else {
      MulMono(g, high, g);
    }
  }

  lemma ProductLess(a: nat, b: nat, q: nat)
    requires a < q && b < q
    ensures a * b < q * q
  {
    MulMono(b, q, a);
    MulMono(a + 1, q, q);
    Distribute(a, 1, q);
  }

  /** The columns of a product of two words fill two words. */
  lemma WordOf(g: nat, q: nat, product: nat, r3: nat, r2: nat, r1: nat, r0: nat, u: nat, v: nat)
    requires q == g * g && product < q * q && r2 < g && r1 < g && r0 < g
    requires u == r3 * g + r2 && v == r1 * g + r0 && product == u * q + v
    ensures r3 < g && u < q && v < q
  {
    assert v < q by { Digits(r1, r0, g); }
    assert u < q by { Digits(u, v, q); }
    assert r3 < g by { Digits(r3, r2, g); }
  }

  /** `mul_u` on machines without a double-word type: the product of two words of
      `2 * half` bits as a high and a low word. */
  method MulU(half: nat, a: nat, b: nat) returns (high: nat, low: nat)
    requires a < Pow2(2 * half) && b < Pow2(2 * half)
    ensures Double(2 * half, high, low) == a * b && high < Pow2(2 * half) && low < Pow2(2 * half)
  {
    hide Pow2;
    hide Shr;
    hide Low;
    hide Double;
    var a0, a1 := Low(a, half), Shr(a, half);
    var b0, b1 := Low(b, half), Shr(b, half);
    var r00, r01, r10, r11 := a0 * b0, a0 * b1, a1 * b0, a1 * b1;
    var r0 := Low(r00, half);
    var c := Shr(r00, half) + Low(r01, half) + Low(r10, half);
    var r1 := Low(c, half);
    var d := Shr(c, half) + Shr(r01, half) + Shr(r10, half) + Low(r11, half);
    var r2 := Low(d, half);
    ghost var top := Shr(d, half) + Shr(r11, half);
    ProductColumns(half, a, b, a1, a0, b1, b0, r11, r10, r01, r00, c, d, top,
                   top * Pow2(half) + r2, r1 * Pow2(half) + r0);
    var r3 := Low(Shr(d, half) + Shr(r11, half), half);
    low := r1 * Pow2(half) + r0;
    high := r3 * Pow2(half) + r2;
  }

  lemma ProductColumns(half: nat, a: nat, b: nat, a1: nat, a0: nat, b1: nat, b0: nat,
                       r11: nat, r10: nat, r01: nat, r00: nat, c: nat, d: nat, r3: nat, high: nat, low: nat)
    requires a < Pow2(2 * half) && b < Pow2(2 * half)
    requires a0 == Low(a, half) && a1 == Shr(a, half) && b0 == Low(b, half) && b1 == Shr(b, half)
    requires r00 == a0 * b0 && r01 == a0 * b1 && r10 == a1 * b0 && r11 == a1 * b1
    requires c == Shr(r00, half) + Low(r01, half) + Low(r10, half)
    requires d == Shr(c, half) + Shr(r01, half) + Shr(r10, half) + Low(r11, half)
    requires r3 == Shr(d, half) + Shr(r11, half)
    requires high == r3 * Pow2(half) + Low(d, half) && low == Low(c, half) * Pow2(half) + Low(r00, half)
    ensures Low(r3, half) == r3 && Double(2 * half, high, low) == a * b
    ensures high < Pow2(2 * half) && low < Pow2(2 * half)
  {
    hide Pow2;
    hide Shr;
    hide Low;
    hide Double;
    var g, q, product := Pow2(half), Pow2(2 * half), a * b;
    assert q == g * g by { Pow2Add(half, half); }
    assert product < q * q by { ProductLess(a, b, q); }
    assert product == high * q + low by {
      HalfSplit(a, half);
      HalfSplit(b, half);
      ColumnSums(half, g, a1, a0, b1, b0, c, d);
    }
    WordOf(g, q, product, r3, Low(d, half), Low(c, half), Low(r00, half), high, low);
    LowSmall(r3, half);
    DoubleIs(2 * half, high, low);
  }

  lemma DoubleIs(n: nat, hi: nat, lo: nat)
    ensures Double(n, hi, lo) == hi * Pow2(n) + lo
  {
  }

  lemma LowSmall(r: nat, k: nat)
    requires r < Pow2(k)
    ensures Low(r, k) == r
  {
    SmallMod(r, Pow2(k));
  }

  // ----- the product of two numbers

  /** The exact product of two magnitudes, in the unit of the format. */
  ghost function ExactProduct(f: Format, a: nat, b: nat): real
    requires f.Valid()
  {
    Scale((a * b) as real, 1 - f.Bias() - f.mantSize)
  }

  /** What the product of two words is. */
  ghost predicate IsProduct(f: Format, rm: RoundingMode, a: nat, b: nat, w: nat, raised: Flags)
    requires f.Valid()
  {
    var neg := Neg(f, a) != Neg(f, b);
    if IsNaN(f, a) || IsNaN(f, b) then
      w == QNaN(f) && raised == if IsSignalling(f, a) || IsSignalling(f, b) then INVALID else NO_FLAGS
    else if || (IsInf(f, a) && Exp(f, b) == 0 && Mant(f, b) == 0)
            || (IsInf(f, b) && Exp(f, a) == 0 && Mant(f, a) == 0) then
      w == QNaN(f) && raised == INVALID
    else if IsInf(f, a) || IsInf(f, b) then
      w == Pack(f, neg, f.ExpMask(), 0) && raised == NO_FLAGS
    else
      Rounded(f, rm, neg, ExactProduct(f, Mag(f, a), Mag(f, b)), w, raised)
  }

  lemma ProductScale(f: Format, a: nat, b: nat, aMag: nat, bMag: nat, aExp: int, bExp: int, d: int, k: int)
    requires f.Valid() && Scale(a as real, aExp - 1) == aMag as real && Scale(b as real, bExp - 1) == bMag as real
    requires k + d == aExp + bExp - 1 - f.Bias() - f.mantSize
    ensures ExactProduct(f, aMag, bMag) == Scale(Scale((a * b) as real, d), k)
  {
    hide Scale;
    var x := (a * b) as real;
    assert Scale(x, aExp + bExp - 2) == (aMag * bMag) as real by {
      ScaleTimesIs(a as real, aExp - 1, b as real, bExp - 1, x, aExp + bExp - 2);
    }
    Rescale(x, aExp + bExp - 2, 1 - f.Bias() - f.mantSize);
    Rescale(x, d, k);
  }

  /** `mul_sf` on finite numbers other than zero. */
  method MulFinite(f: Format, a: nat, b: nat, rm: RoundingMode) returns (w: nat, raised: Flags)
    requires f.Valid() && Finite(f, a) && Finite(f, b) && Mag(f, a) > 0 && Mag(f, b) > 0
    ensures Rounded(f, rm, Neg(f, a) != Neg(f, b), ExactProduct(f, Mag(f, a), Mag(f, b)), w, raised)
  {
    hide Rounded;
    hide Scale;
    hide Pow2;
    hide StandsFor;
    hide Double;
    var aExp, aMant := Operand(f, a);
    var bExp, bMant := Operand(f, b);
    var rExp := aExp + bExp - Pow2(f.expSize - 1) + 2;
    WordShift(f, aMant, f.RndSize());
    WordShift(f, bMant, f.RndSize() + 1);
    var half := f.FSize() / 2;
    var rMant, low := MulU(half, aMant * Pow2(f.RndSize()), bMant * Pow2(f.RndSize() + 1));
    HighWord(f, rMant, low, aMant, bMant);
    ProductScale(f, aMant, bMant, Mag(f, a), Mag(f, b), aExp, bExp, 2 * f.RndSize() + 1 - f.FSize(),
                 rExp - 1 - f.RndSize());
    rMant := Or1(rMant, low != 0);
    w, raised := Normalize(f, Neg(f, a) != Neg(f, b), rExp, rMant, rm,
                           Scale((aMant * bMant) as real, 2 * f.RndSize() + 1 - f.FSize()),
                           ExactProduct(f, Mag(f, a), Mag(f, b)));
  }

  lemma WordShift(f: Format, c: nat, s: nat)
    requires f.Valid() && Pow2(f.mantSize) <= c < 2 * Pow2(f.mantSize) && s <= f.RndSize() + 1
    ensures IsWord(f, c * Pow2(s)) && Pow2(f.mantSize + s) <= c * Pow2(s) < Pow2(f.mantSize + s + 1)
  {
    ShlBounds(c, f.mantSize + 1, s);
    Pow2Mono(f.mantSize + 1 + s, f.FSize());
  }

  /** The high word of the product, with a sticky bit for the low word. */
  lemma HighWord(f: Format, high: nat, low: nat, a: nat, b: nat)
    requires f.Valid() && low < Pow2(f.FSize())
    requires Pow2(f.mantSize) <= a < 2 * Pow2(f.mantSize) && Pow2(f.mantSize) <= b < 2 * Pow2(f.mantSize)
    requires Double(f.FSize(), high, low) == (a * Pow2(f.RndSize())) * (b * Pow2(f.RndSize() + 1))
    ensures Or1(high, low != 0) < Pow2(f.FSize() - 1)
    ensures StandsFor(f, Scale((a * b) as real, 2 * f.RndSize() + 1 - f.FSize()), Or1(high, low != 0))
  {
    var n := f.FSize();
    var product := Double(n, high, low);
    hide StandsFor;
    hide Double;
    WordShift(f, a, f.RndSize());
    WordShift(f, b, f.RndSize() + 1);
    hide Pow2;
    ProductBounds(a * Pow2(f.RndSize()), b * Pow2(f.RndSize() + 1), n - 2, n - 1);
    ProductShift(a, b, f.RndSize(), f.RndSize() + 1);
    StickyHigh(f, high, low, product, a * b, 2 * f.RndSize() + 1);
  }

  lemma StickyHigh(f: Format, high: nat, low: nat, product: nat, c: nat, k: nat)
    requires f.Valid() && low < Pow2(f.FSize()) && product == Double(f.FSize(), high, low) && product == c * Pow2(k)
    requires Pow2(2 * f.FSize() - 3) <= product < Pow2(2 * f.FSize() - 1)
    ensures Or1(high, low != 0) < Pow2(f.FSize() - 1)
    ensures StandsFor(f, Scale(c as real, k - f.FSize()), Or1(high, low != 0))
  {
    var n, r := f.FSize(), Or1(high, low != 0);
    Pow2Mono(f.mantSize + 2, n - 3);
    assert Pow2(1) == 2;
    hide Pow2;
    hide Scale;
    hide Agrees;
    hide Or1;
    hide Double;
    JamHigh(n, high, low);
    JamBounds(product, 2 * n - 3, 2 * n - 1, n);
    hide Jam;
    AgreesExact(product, Pow2(1));
    AgreesJam(product as real, product, 1, n);
    ScaleNat(c, k);
    Rescale(c as real, k, 0 - f.FSize());
  }

  lemma JamHigh(n: nat, high: nat, low: nat)
    requires low < Pow2(n)
    ensures Jam(Double(n, high, low), n) == Or1(high, low != 0)
  {
    DivRem(high, low, Pow2(n));
  }

  lemma ProductShift(a: nat, b: nat, i: nat, j: nat)
    ensures (a * Pow2(i)) * (b * Pow2(j)) == (a * b) * Pow2(i + j)
  {
    Pow2Add(i, j);
    var p, q := Pow2(i), Pow2(j);
    hide Pow2;
    AssocNat(a * p, b, q);
    AssocNat(b, a, p);
    AssocNat(a * b, p, q);
  }

  /** `mul_sf`, for any two words. */
  method Mul(f: Format, a: nat, b: nat, rm: RoundingMode) returns (w: nat, raised: Flags)
    requires f.Valid() && IsWord(f, a) && IsWord(f, b)
    ensures IsProduct(f, rm, a, b, w, raised)
  {
    hide Rounded;
    hide Mag;
    hide Pow2;
    SigNaNTest(f, a);
    SigNaNTest(f, b);
    var neg := Neg(f, a) != Neg(f, b);
    if Exp(f, a) == f.ExpMask() || Exp(f, b) == f.ExpMask() {
      if IsNaN(f, a) || IsNaN(f, b) {
        w, raised := QNaN(f), if IsSigNaN(f, a) || IsSigNaN(f, b) then INVALID else NO_FLAGS;
      } else if (Exp(f, a) == f.ExpMask() && Exp(f, b) == 0 && Mant(f, b) == 0)
             || (Exp(f, b) == f.ExpMask() && Exp(f, a) == 0 && Mant(f, a) == 0) {
        w, raised := QNaN(f), INVALID;
      } else {
        w, raised := Pack(f, neg, f.ExpMask(), 0), NO_FLAGS;
      }
      return;
    }
    MagZero(f, a);
    MagZero(f, b);
    if (Exp(f, a) == 0 && Mant(f, a) == 0) || (Exp(f, b) == 0 && Mant(f, b) == 0) {
      ZeroProduct(f, Mag(f, a), Mag(f, b));
      ZeroRounded(f, rm, neg);
      w, raised := Pack(f, neg, 0, 0), NO_FLAGS;
    } else {
      w, raised := MulFinite(f, a, b, rm);
    }
  }

  lemma ZeroProduct(f: Format, a: nat, b: nat)
    requires f.Valid() && (a == 0 || b == 0)
    ensures ExactProduct(f, a, b) == 0.0
  {
    ScaleSign((a * b) as real, 1 - f.Bias() - f.mantSize);
  }
}