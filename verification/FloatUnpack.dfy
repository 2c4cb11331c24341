/** Taking words apart: significands and exponents, NaNs, and the two ways in
    which the operations bring a significand to full width. */
module FloatUnpack {
  import opened Powers
  import opened FloatSpec
  import opened FloatRounding
  import opened FloatSticky

  /** The significand with its implicit bit. */
  function Sig(f: Format, w: nat): (c: nat)
    ensures c < 2 * Pow2(f.mantSize) && (Exp(f, w) != 0 ==> Pow2(f.mantSize) <= c)
  {
    if Exp(f, w) == 0 then Mant(f, w) else Mant(f, w) + Pow2(f.mantSize)
  }

  /** The exponent at which the significand is an integer, plus 1. */
  function Exp1(f: Format, w: nat): (e: nat)
    ensures e >= 1
  {
    if Exp(f, w) == 0 then 1 else Exp(f, w)
  }

  lemma MagIs(f: Format, w: nat)
    requires Finite(f, w)
    ensures Mag(f, w) == Sig(f, w) * Pow2(Exp1(f, w) - 1)
    ensures Scale(Sig(f, w) as real, Exp1(f, w) - 1) == Mag(f, w) as real
    ensures Canonical(f, Mag(f, w), Sig(f, w), Exp1(f, w) - 1)
  {
    assert Pow2(0) == 1;
    ScaleNat(Sig(f, w), Exp1(f, w) - 1);
  }

  /** A finite number is its sign and its magnitude. */
  lemma MagInjective(f: Format, v: nat, w: nat)
    requires f.Valid() && IsWord(f, v) && IsWord(f, w) && Finite(f, v) && Finite(f, w)
    requires Neg(f, v) == Neg(f, w) && Mag(f, v) == Mag(f, w)
    ensures v == w
  {
    MagIs(f, v);
    MagIs(f, w);
    CanonicalUnique(f, Mag(f, v), Sig(f, v), Exp1(f, v) - 1, Sig(f, w), Exp1(f, w) - 1);
    PackOfFields(f, v);
    PackOfFields(f, w);
  }

  /** Correct rounding determines the word and the flags. */
  lemma RoundedUnique(f: Format, rm: RoundingMode, neg: bool, x: real, v: nat, vf: Flags, w: nat, wf: Flags)
    requires f.Valid() && x >= 0.0 && Rounded(f, rm, neg, x, v, vf) && Rounded(f, rm, neg, x, w, wf)
    ensures v == w && vf == wf
  {
    hide Rounds;
    hide Tiny;
    hide MaxMag;
    hide Mag;
    var n := RoundsExactlyOne(f, rm, neg, x);
    if n <= MaxMag(f) {
      MagInjective(f, v, w);
    }
  }

  // ----- the order of magnitudes

  /** `a & ~SIGN_MASK`. */
  function Body(f: Format, w: nat): nat
    requires f.Valid()
  {
    Low(w, f.FSize() - 1)
  }

  lemma LowFields(w: nat, s: nat, exp: nat, m: nat, e: nat, p: nat)
    requires exp < e && m < p && w == s * (e * p) + exp * p + m
    ensures e * p > 0 && w % (e * p) == exp * p + m
  {
    MulMono(exp + 1, e, p);
    Distribute(exp, 1, p);
    DivRem(s, exp * p + m, e * p);
  }

  lemma BodyIs(f: Format, w: nat)
    requires f.Valid() && IsWord(f, w)
    ensures Body(f, w) == Exp(f, w) * Pow2(f.mantSize) + Mant(f, w) && Exp(f, w) < Pow2(f.expSize)
  {
    PackOfFields(f, w);
    FieldSizes(f);
    var p, e, s := Pow2(f.mantSize), Pow2(f.expSize), if Neg(f, w) then 1 else 0;
    var exp, m := Exp(f, w), Mant(f, w);
    assert Body(f, w) == w % (e * p) && w == s * (e * p) + exp * p + m % p && m < p;
    hide *;
    SmallMod(m, p);
    LowFields(w, s, exp, m, e, p);
  }

  lemma BodyOrder(f: Format, a: nat, b: nat)
    requires f.Valid() && IsWord(f, a) && IsWord(f, b) && Body(f, b) <= Body(f, a)
    ensures Exp(f, b) < Exp(f, a) || (Exp(f, b) == Exp(f, a) && Mant(f, b) <= Mant(f, a))
  {
    BodyIs(f, a);
    BodyIs(f, b);
    var p := Pow2(f.mantSize);
    hide Pow2;
    if Exp(f, a) < Exp(f, b) {
      MulMono(Exp(f, a) + 1, Exp(f, b), p);
      Distribute(Exp(f, a), 1, p);
    }
  }

  lemma MagOrder(f: Format, a: nat, b: nat)
    requires f.Valid() && IsWord(f, a) && IsWord(f, b) && Finite(f, a) && Finite(f, b) && Body(f, b) <= Body(f, a)
    ensures Exp1(f, b) <= Exp1(f, a) && Mag(f, b) <= Mag(f, a)
  {
    BodyOrder(f, a, b);
    MagIs(f, a);
    MagIs(f, b);
    var i, j := Exp1(f, a) - 1, Exp1(f, b) - 1;
    if Exp1(f, b) < Exp1(f, a) {
      Pow2Mono(j, i);
      var p := Pow2(f.mantSize);
      hide Pow2;
      MulMonoRight(p, 2 * Pow2(j), Pow2(i));
      MulMono(p, Sig(f, a), Pow2(i));
      MulMono(Sig(f, b), 2 * p, Pow2(j));
      AssocNat(p, 2, Pow2(j));
    } else {
      MulMono(Sig(f, b), Sig(f, a), Pow2(i));
    }
  }

  // ----- NaNs

  function QNaN(f: Format): nat
    requires f.Valid()
  {
    f.ExpMask() * Pow2(f.mantSize) + Pow2(f.mantSize - 1)
  }

  /** The quiet bit of a NaN is the highest bit of its mantissa. */
  predicate IsSignalling(f: Format, w: nat)
    requires f.Valid()
  {
    IsNaN(f, w) && Mant(f, w) < Pow2(f.mantSize - 1)
  }

  /** `issignan_sf`. */
  predicate IsSigNaN(f: Format, w: nat)
    requires f.Valid()
  {
    Low(Shr(w, f.mantSize - 1), f.expSize + 1) == 2 * f.ExpMask() && Mant(f, w) != 0
  }

  lemma SigNaNTest(f: Format, w: nat)
    requires f.Valid() && IsWord(f, w)
    ensures IsSigNaN(f, w) == IsSignalling(f, w)
  {
    hide Pow2;
    hide Shr;
    hide Low;
    var u, m := w / Pow2(f.mantSize), w % Pow2(f.mantSize);
    var t := if m >= Pow2(f.mantSize - 1) then 1 else 0;
    ShrLess(w, f.mantSize - 1, u, m, t);
    LowMore(u, t, f.expSize);
  }

  lemma ShrLess(w: nat, k: nat, u: nat, m: nat, t: nat)
    requires u == w / Pow2(k + 1) && m == w % Pow2(k + 1) && t == if m >= Pow2(k) then 1 else 0
    ensures Shr(w, k) == 2 * u + t
  {
    var h, g := Pow2(k), Pow2(k + 1);
    assert g == 2 * h;
    hide Pow2;
    HalfQuotient(w, h, u, m, t);
  }

  lemma LowMore(u: nat, t: nat, k: nat)
    requires t < 2
    ensures Low(2 * u + t, k + 1) == 2 * (u % Pow2(k)) + t
  {
    var e, g := Pow2(k), Pow2(k + 1);
    assert g == 2 * e;
    hide Pow2;
    DivMod(u, e);
    TwiceRem(u / e, u % e, e, t);
  }

  lemma HalfQuotient(w: nat, h: nat, u: nat, m: nat, t: nat)
    requires h > 0 && u == w / (2 * h) && m == w % (2 * h) && t == if m >= h then 1 else 0
    ensures w / h == 2 * u + t
  {
    DivMod(w, 2 * h);
    AssocNat(u, 2, h);
    Distribute(2 * u, t, h);
    DivRem(2 * u + t, m - t * h, h);
  }

  lemma TwiceRem(q: nat, r: nat, e: nat, t: nat)
    requires r < e && t < 2
    ensures (2 * (q * e + r) + t) % (2 * e) == 2 * r + t
  {
    AssocNat(q, 2, e);
    AssocNat(2, q, e);
    DivRem(q, 2 * r + t, 2 * e);
  }

  // ----- subnormal operands

  /** `normalize_subnormal_sf`: the significand at full width. */
  method NormalizeSubnormal(f: Format, mant: nat) returns (exp: int, c: nat)
    requires f.Valid() && 0 < mant < Pow2(f.mantSize)
    ensures Pow2(f.mantSize) <= c < 2 * Pow2(f.mantSize) && Scale(c as real, exp - 1) == mant as real
    ensures 1 - f.mantSize <= exp <= 0
  {
    hide Pow2;
    hide Scale;
    Pow2Mono(f.mantSize, f.FSize());
    Pow2Next(f.mantSize);
    var l := Clz(mant, f.FSize());
    Pow2Less(f.FSize() - l - 1, f.mantSize);
    var shift: nat := f.mantSize - (f.FSize() - 1 - l);
    exp := 1 - shift;
    c := mant * Pow2(shift);
    ShlBounds(mant, f.FSize() - l, shift);
    ScaleNat(mant, shift);
    Rescale(mant as real, shift, exp - 1);
    ScaleZero(mant as real);
  }

  // ----- results that need no rounding

  lemma RoundsZero(f: Format, rm: RoundingMode, neg: bool)
    requires f.Valid()
    ensures Rounds(f, rm, neg, 0.0, 0)
  {
    assert Canonical(f, 0, 0, 0);
    assert EvenSignificand(f, 0);
  }

  lemma ZeroRounded(f: Format, rm: RoundingMode, neg: bool)
    requires f.Valid()
    ensures Rounded(f, rm, neg, 0.0, Pack(f, neg, 0, 0), NO_FLAGS)
  {
    RoundsZero(f, rm, neg);
    PackFields(f, neg, 0, 0);
    SmallMod(0, Pow2(f.mantSize));
    hide Rounds;
    assert Delivers(f, rm, neg, 0.0, 0, Pack(f, neg, 0, 0), NO_FLAGS);
  }

  /** A finite number other than zero, with its significand at full width. */
  method Operand(f: Format, w: nat) returns (exp: int, c: nat)
    requires f.Valid() && Finite(f, w) && Mag(f, w) > 0
    ensures Pow2(f.mantSize) <= c < 2 * Pow2(f.mantSize) && Scale(c as real, exp - 1) == Mag(f, w) as real
    ensures 1 - f.mantSize <= exp < f.ExpMask()
  {
    MagIs(f, w);
    if Exp(f, w) == 0 {
      exp, c := NormalizeSubnormal(f, Mant(f, w));
    } else {
      exp, c := Exp(f, w), Mant(f, w) + Pow2(f.mantSize);
    }
  }

  lemma MagZero(f: Format, w: nat)
    requires f.Valid() && Finite(f, w)
    ensures Mag(f, w) == 0 <==> Exp(f, w) == 0 && Mant(f, w) == 0
  {
    if Exp(f, w) != 0 {
      MulMonoRightNat(Pow2(f.mantSize) + Mant(f, w), Pow2(Exp(f, w) - 1));
    }
  }

  lemma MagBound(f: Format, w: nat)
    requires f.Valid() && IsWord(f, w) && Finite(f, w)
    ensures Mag(f, w) <= MaxMag(f)
  {
    PackOfFields(f, w);
    MagIs(f, w);
    Pow2Mono(Exp1(f, w) - 1, f.ExpMask() - 2);
    MulOrder(Sig(f, w), 2 * Pow2(f.mantSize) - 1, Pow2(Exp1(f, w) - 1), Pow2(f.ExpMask() - 2));
  }

  /** Rounding a number of the format changes nothing. */
  lemma FiniteRounded(f: Format, rm: RoundingMode, w: nat)
    requires f.Valid() && IsWord(f, w) && Finite(f, w)
    ensures Rounded(f, rm, Neg(f, w), Mag(f, w) as real, w, NO_FLAGS)
  {
    MagBound(f, w);
    MagIs(f, w);
    var n := Mag(f, w);
    hide Mag;
    hide MaxMag;
    hide Pow2;
    CanonicalPoint(f, n, Sig(f, w), Exp1(f, w) - 1);
    assert Rounds(f, rm, Neg(f, w), n as real, n) by {
      hide EvenSignificand;
      hide Representable;
    }
    hide Rounds;
    assert Delivers(f, rm, Neg(f, w), n as real, n, w, NO_FLAGS);
  }
}
