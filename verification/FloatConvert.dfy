/** Conversions between formats, and the round trip between them. */
module FloatConvert {
  import opened Powers
  import opened FloatSpec
  import opened FloatRounding
  import opened FloatSticky
  import opened FloatPack
  import opened FloatUnpack

  /** Every number of `g` is a normal number of `f`, with bits to spare. */
  predicate Wider(f: Format, g: Format) {
    f.Valid() && g.Valid() && g.FSize() - 2 <= f.mantSize && g.Bias() + g.mantSize < f.Bias()
  }

  /** The unit of `g` is `2^UnitRatio` units of `f`. */
  function UnitRatio(f: Format, g: Format): nat
    requires Wider(f, g)
  {
    f.Bias() + f.mantSize - g.Bias() - g.mantSize
  }

  lemma StandardFormats()
    ensures Wider(SF64, SF32) && Wider(SF128, SF32) && Wider(SF128, SF64)
  {
    assert Pow2(4) == 16;
    Pow2Add(4, 3);
    Pow2Add(4, 4);
    Pow2Add(7, 3);
    Pow2Add(7, 7);
    Pow2Next(0);
  }

  // ----- to a wider format

  /** What the widened word is: the same number. */
  ghost predicate IsWidened(f: Format, g: Format, a: nat, w: nat, raised: Flags)
    requires Wider(f, g)
  {
    if IsNaN(g, a) then w == QNaN(f) && raised == if IsSignalling(g, a) then INVALID else NO_FLAGS
    else if IsInf(g, a) then w == Pack(f, Neg(g, a), f.ExpMask(), 0) && raised == NO_FLAGS
    else
      && IsWord(f, w) && Finite(f, w) && Neg(f, w) == Neg(g, a) && raised == NO_FLAGS
      && Mag(f, w) == Mag(g, a) * Pow2(UnitRatio(f, g))
  }

  lemma WidenedFits(f: Format, g: Format, exp: int, c: nat)
    requires Wider(f, g) && Pow2(g.mantSize) <= c < 2 * Pow2(g.mantSize) && 1 - g.mantSize <= exp < g.ExpMask()
    ensures f.Valid() && f.mantSize >= g.mantSize && 0 < exp - g.Bias() + f.Bias() < f.ExpMask()
    ensures Pow2(f.mantSize) <= c * Pow2(f.mantSize - g.mantSize) < 2 * Pow2(f.mantSize)
  {
    MaskIs(f);
    MaskIs(g);
    ShlBounds(c, g.mantSize + 1, f.mantSize - g.mantSize);
    assert Pow2(f.mantSize + 1) == 2 * Pow2(f.mantSize);
    hide Pow2;
  }

  /** A significand moved to the wider format. */
  lemma WidenedWord(f: Format, g: Format, neg: bool, exp: int, c: nat, mag: nat, e: nat, m: nat)
    requires Wider(f, g) && Pow2(g.mantSize) <= c < 2 * Pow2(g.mantSize) && Scale(c as real, exp - 1) == mag as real
    requires 1 - g.mantSize <= exp < g.ExpMask()
    requires e == exp - g.Bias() + f.Bias() && m == c * Pow2(f.mantSize - g.mantSize)
    ensures 0 < e < f.ExpMask()
    ensures var w := Pack(f, neg, e, m);
            IsWord(f, w) && Finite(f, w) && Neg(f, w) == neg && Mag(f, w) == mag * Pow2(UnitRatio(f, g))
  {
    var s := f.mantSize - g.mantSize;
    WidenedFits(f, g, exp, c);
    assert UnitRatio(f, g) == f.Bias() + f.mantSize - g.Bias() - g.mantSize;
    hide *;
    FullWord(f, neg, e, m);
    ScaleNat(c, s);
    Rescale(c as real, s, e - 1);
    ScaleNat(mag, UnitRatio(f, g));
    Rescale(c as real, exp - 1, UnitRatio(f, g));
  }

  /** A normal number from its full-width significand. */
  lemma FullWord(f: Format, neg: bool, e: nat, m: nat)
    requires f.Valid() && 0 < e < f.ExpMask() && Pow2(f.mantSize) <= m < 2 * Pow2(f.mantSize)
    ensures var w := Pack(f, neg, e, m);
            && IsWord(f, w) && Finite(f, w) && Neg(f, w) == neg
            && Mag(f, w) as real == Scale(m as real, e - 1)
  {
    var w := Pack(f, neg, e, m);
    MaskIs(f);
    PackFields(f, neg, e, m);
    DivRem(1, m - Pow2(f.mantSize), Pow2(f.mantSize));
    hide Pow2;
    hide Pack;
    hide Scale;
    MagIs(f, w);
  }

  /** `cvt_sf32_sf` and `cvt_sf64_sf`: widening is exact. */
  method Widen(f: Format, g: Format, a: nat) returns (w: nat, raised: Flags)
    requires Wider(f, g) && IsWord(g, a)
    ensures IsWidened(f, g, a, w, raised)
  {
    hide Mag;
    hide Scale;
    hide Pow2;
    hide Pack;
    hide QNaN;
    hide MaxMag;
    SigNaNTest(g, a);
    if Exp(g, a) == g.ExpMask() {
      if Mant(g, a) != 0 {
        w, raised := QNaN(f), if IsSigNaN(g, a) then INVALID else NO_FLAGS;
      } else {
        w, raised := Pack(f, Neg(g, a), f.ExpMask(), 0), NO_FLAGS;
      }
      return;
    }
    MagZero(g, a);
    if Exp(g, a) == 0 && Mant(g, a) == 0 {
      w, raised := Pack(f, Neg(g, a), 0, 0), NO_FLAGS;
      SmallWord(f, Neg(g, a), 0);
    } else {
      var exp, c := Operand(g, a);
      WidenedFits(f, g, exp, c);
      exp := exp - g.Bias() + f.Bias();
      var m := c * Pow2(f.mantSize - g.mantSize);
      WidenedWord(f, g, Neg(g, a), exp - f.Bias() + g.Bias(), c, Mag(g, a), exp, m);
      w, raised := Pack(f, Neg(g, a), exp, m), NO_FLAGS;
    }
  }

  // ----- to a narrower format

  /** What the narrowed word is: the number, rounded once. */
  ghost predicate IsNarrowed(f: Format, g: Format, rm: RoundingMode, a: nat, w: nat, raised: Flags)
    requires Wider(f, g)
  {
    if IsNaN(f, a) then w == QNaN(g) && raised == if IsSignalling(f, a) then INVALID else NO_FLAGS
    else if IsInf(f, a) then w == Pack(g, Neg(f, a), g.ExpMask(), 0) && raised == NO_FLAGS
    else Rounded(g, rm, Neg(f, a), Scale(Mag(f, a) as real, 0 - UnitRatio(f, g)), w, raised)
  }

  /** All numbers below half the smallest positive number round alike. */
  lemma TinyAlike(f: Format, rm: RoundingMode, neg: bool, x: real, y: real, w: nat, raised: Flags)
    requires f.Valid() && 0.0 < x < 0.5 && 0.0 < y < 0.5 && Rounded(f, rm, neg, y, w, raised)
    ensures Rounded(f, rm, neg, x, w, raised)
  {
    VeryTiny(f, rm, neg, x);
    VeryTiny(f, rm, neg, y);
    hide Pow2;
    hide Tiny;
    hide Rounds;
    hide Mag;
    hide MaxMag;
    hide Neg;
    hide OverflowWord;
    var n: nat :| Rounds(f, rm, neg, y, n) && Delivers(f, rm, neg, y, n, w, raised);
    TinyRounds(f, rm, neg, y, n);
    TinyRounds(f, rm, neg, x, n);
    assert Delivers(f, rm, neg, x, n, w, raised);
  }

  lemma TinyRounds(f: Format, rm: RoundingMode, neg: bool, x: real, n: nat)
    requires f.Valid() && 0.0 < x < 0.5
    ensures Rounds(f, rm, neg, x, n) <==> n == if Away(rm, neg) then 1 else 0
  {
    assert OnGrid(f, 0, 0) && Pow2(0) == 1;
    hide Pow2;
    hide Rounds;
    hide OnGrid;
    GridRounds(f, rm, neg, x, 0, 0, n);
  }

  /** A full-width significand, cut to the internal width of the narrower format. */
  lemma NarrowStands(f: Format, g: Format, c: nat)
    requires Wider(f, g) && Pow2(f.mantSize) <= c < 2 * Pow2(f.mantSize)
    ensures var d := f.mantSize - (g.FSize() - 2);
            Jam(c, d) < Pow2(g.FSize() - 1) && StandsFor(g, Scale(c as real, 0 - d), Jam(c, d))
  {
    var d := f.mantSize - (g.FSize() - 2);
    JamBounds(c, f.mantSize, f.mantSize + 1, d);
    Pow2Mono(g.mantSize + 2, g.FSize() - 2);
    assert Pow2(1) == 2;
    AgreesExact(c, 2);
    AgreesJam(c as real, c, 1, d);
  }

  lemma HalfIs()
    ensures Scale(1.0, -1) == 0.5
  {
    ScaleStep(1.0, -1);
    ScaleZero(1.0);
  }

  /** A number of the wider format below its normal range, and the mantissa that
      the code has for it: both are far below the narrower format. */
  lemma NarrowTiny(f: Format, g: Format, mant: nat, exp: int, m: nat)
    requires Wider(f, g) && 0 < mant < Pow2(f.mantSize) && 0 < m < Pow2(g.FSize() - 1) && exp <= 0
    ensures 0.0 < Scale(mant as real, 0 - UnitRatio(f, g)) < 0.5
    ensures 0.0 < Scale(m as real, exp - f.Bias() + g.Bias() - 1 - g.RndSize()) < 0.5
  {
    var e := exp - f.Bias() + g.Bias() - 1 - g.RndSize();
    HalfIs();
    ScaleSign(mant as real, 0 - UnitRatio(f, g));
    ScaleSign(m as real, e);
    TinyScale(mant, f.mantSize, 0 - UnitRatio(f, g));
    TinyScale(m, g.FSize() - 1, e);
  }

  lemma TinyScale(m: nat, k: nat, e: int)
    requires m < Pow2(k) && k + e <= -1
    ensures Scale(m as real, e) < Scale(1.0, -1)
  {
    ScaleNat(1, k);
    ScaleOrder(m as real, Scale(1.0, k), e);
    Rescale(1.0, k, e);
    ScaleOne(k + e, -1);
  }

  lemma NarrowScale(f: Format, g: Format, c: nat, exp: int, mag: nat)
    requires Wider(f, g) && Scale(c as real, exp - 1) == mag as real
    ensures Scale(mag as real, 0 - UnitRatio(f, g))
         == Scale(Scale(c as real, 0 - (f.mantSize - (g.FSize() - 2))), exp - f.Bias() + g.Bias() - 1 - g.RndSize())
  {
    Rescale(c as real, exp - 1, 0 - UnitRatio(f, g));
    Rescale(c as real, 0 - (f.mantSize - (g.FSize() - 2)), exp - f.Bias() + g.Bias() - 1 - g.RndSize());
  }

  /** `cvt_sf64_sf32` and its like. The source drops the result of
      `normalize_subnormal_sf` here, so the mantissa of a number below the normal
      range stays short; what is left of it is a sticky bit either way. */
  method Narrow(f: Format, g: Format, a: nat, rm: RoundingMode) returns (w: nat, raised: Flags)
    requires Wider(f, g) && IsWord(f, a)
    ensures IsNarrowed(f, g, rm, a, w, raised)
  {
    hide Scale;
    hide Rounded;
    SigNaNTest(f, a);
    if Exp(f, a) == f.ExpMask() {
      if Mant(f, a) != 0 {
        w, raised := QNaN(g), if IsSigNaN(f, a) then INVALID else NO_FLAGS;
      } else {
        w, raised := Pack(g, Neg(f, a), g.ExpMask(), 0), NO_FLAGS;
      }
      return;
    }
    MagZero(f, a);
    if Exp(f, a) == 0 && Mant(f, a) == 0 {
      ScaleSign(0.0, 0 - UnitRatio(f, g));
      ZeroRounded(g, rm, Neg(f, a));
      w, raised := Pack(g, Neg(f, a), 0, 0), NO_FLAGS;
    } else if Exp(f, a) == 0 {
      w, raised := NarrowSubnormal(f, g, a, rm);
    } else {
      w, raised := NarrowNormal(f, g, a, rm);
    }
  }

  method NarrowNormal(f: Format, g: Format, a: nat, rm: RoundingMode) returns (w: nat, raised: Flags)
    requires Wider(f, g) && IsWord(f, a) && Finite(f, a) && Exp(f, a) != 0
    ensures Rounded(g, rm, Neg(f, a), Scale(Mag(f, a) as real, 0 - UnitRatio(f, g)), w, raised)
  {
    hide Scale;
    hide Rounded;
    hide StandsFor;
    MagIs(f, a);
    hide Mag;
    var aMant := Mant(f, a) + Pow2(f.mantSize);
    var aExp := Exp(f, a) - f.Bias() + g.Bias();
    var shift := f.mantSize - (g.FSize() - 2);
    NarrowStands(f, g, aMant);
    NarrowScale(f, g, aMant, Exp(f, a), Mag(f, a));
    FitsWord(f, aMant);
    RshiftIsJam(f, aMant, shift);
    w, raised := Normalize(g, Neg(f, a), aExp, RshiftRnd(f, aMant, shift), rm, Scale(aMant as real, 0 - shift),
                           Scale(Mag(f, a) as real, 0 - UnitRatio(f, g)));
  }

  lemma FitsWord(f: Format, m: nat)
    requires f.Valid() && m < 2 * Pow2(f.mantSize)
    ensures IsWord(f, m)
  {
    Pow2Mono(f.mantSize + 1, f.FSize());
  }

  method NarrowSubnormal(f: Format, g: Format, a: nat, rm: RoundingMode) returns (w: nat, raised: Flags)
    requires Wider(f, g) && IsWord(f, a) && Exp(f, a) == 0 && Mant(f, a) != 0 && Finite(f, a)
    ensures Rounded(g, rm, Neg(f, a), Scale(Mag(f, a) as real, 0 - UnitRatio(f, g)), w, raised)
  {
    hide Scale;
    hide Rounded;
    var aMant := Mant(f, a);
    var exp, dropped := NormalizeSubnormal(f, aMant);
    var aExp := exp - f.Bias() + g.Bias();
    var shift := f.mantSize - (g.FSize() - 2);
    var m := RshiftRnd(f, aMant, shift);
    ShortMant(f, g, aMant, m);
    NarrowTiny(f, g, aMant, exp, m);
    ghost var y := Scale(m as real, aExp - 1 - g.RndSize());
    w, raised := Normalize(g, Neg(f, a), aExp, m, rm, m as real, y);
    TinyAlike(g, rm, Neg(f, a), Scale(aMant as real, 0 - UnitRatio(f, g)), y, w, raised);
  }

  lemma ShortMant(f: Format, g: Format, mant: nat, m: nat)
    requires Wider(f, g) && 0 < mant < Pow2(f.mantSize) && m == RshiftRnd(f, mant, f.mantSize - (g.FSize() - 2))
    ensures 0 < m < Pow2(g.FSize() - 1)
  {
    var d := f.mantSize - (g.FSize() - 2);
    hide Jam;
    hide RshiftRnd;
    FitsWord(f, mant);
    RshiftIsJam(f, mant, d);
    JamPositive(mant, d);
    JamBound(mant, f.mantSize, d);
    Pow2Next(f.mantSize - d);
  }

  // ----- there and back

  /** Widening and then narrowing gives back the word, in every mode and with no flags. */
  lemma WidenNarrow(f: Format, g: Format, rm: RoundingMode, a: nat, w: nat, wf: Flags, v: nat, vf: Flags)
    requires Wider(f, g) && IsWord(g, a) && !IsNaN(g, a)
    requires IsWidened(f, g, a, w, wf) && IsNarrowed(f, g, rm, w, v, vf)
    ensures v == a && wf == NO_FLAGS && vf == NO_FLAGS
  {
    if IsInf(g, a) {
      MaskIs(f);
      PackFields(f, Neg(g, a), f.ExpMask(), 0);
      SmallMod(0, Pow2(f.mantSize));
      PackOfFields(g, a);
    } else {
      var x := Scale(Mag(f, w) as real, 0 - UnitRatio(f, g));
      ScaleNat(Mag(g, a), UnitRatio(f, g));
      Rescale(Mag(g, a) as real, UnitRatio(f, g), 0 - UnitRatio(f, g));
      ScaleZero(Mag(g, a) as real);
      hide Rounded;
      hide Mag;
      FiniteRounded(g, rm, a);
      RoundedUnique(g, rm, Neg(g, a), x, v, vf, a, NO_FLAGS);
    }
  }
}
