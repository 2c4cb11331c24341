/** Conversions between floats and integers (lib/tinyemu/softfp_template_icvt.h). */
module FloatInt {
  import opened Powers
  import opened FloatSpec
  import opened FloatRounding
  import opened FloatSticky
  import opened FloatPack
  import opened FloatUnpack
  import opened FloatAdd

  /** The integers of `ICVT_SIZE` bits. */
  predicate InRange(size: nat, unsigned: bool, a: int)
    requires size > 0
  {
    if unsigned then 0 <= a < Pow2(size) else 0 - Pow2(size - 1) <= a < Pow2(size - 1)
  }

  // ----- from integers

  /** The exact magnitude of an integer, in the unit of the format. */
  ghost function IntMag(f: Format, r: nat): real
    requires f.Valid()
  {
    Scale(r as real, f.Bias() + f.mantSize - 1)
  }

  /** An integer, cut to the internal width with a sticky bit. */
  lemma LongInteger(f: Format, r: nat, l: nat)
    requires f.Valid() && l > 0 && Pow2(f.FSize() - 2 + l) <= r < Pow2(f.FSize() - 1 + l)
    ensures Jam(r, l) < Pow2(f.FSize() - 1) && StandsFor(f, Scale(r as real, 0 - l), Jam(r, l))
  {
    assert Pow2(1) == 2;
    hide Pow2;
    hide Scale;
    hide Jam;
    hide Agrees;
    JamBounds(r, f.FSize() - 2 + l, f.FSize() - 1 + l, l);
    Pow2Mono(f.mantSize + 2, f.FSize() - 2);
    AgreesExact(r, 2);
    AgreesJam(r as real, r, 1, l);
  }

  lemma IntSize(size: nat, unsigned: bool, a: int)
    requires size > 0 && InRange(size, unsigned, a)
    ensures (unsigned ==> a >= 0) && Abs(a) < Pow2(size) && Abs(a) == if a < 0 then -a else a
  {
    Pow2Mono(size - 1, size);
    hide Pow2;
  }

  lemma IntMagIs(f: Format, r: nat, aExp: int)
    requires f.Valid() && aExp == f.ExpMask() / 2 + f.FSize() - 2
    ensures IntMag(f, r) == Scale(r as real, aExp - 1 - f.RndSize())
  {
    MaskIs(f);
    hide Pow2;
    hide Scale;
    hide Format.ExpMask;
    hide Format.Bias;
  }

  /** An integer of more bits than the internal width has, shifted. */
  lemma LongMag(f: Format, size: nat, r: nat, l: nat, aExp: int, x: real)
    requires f.Valid() && r < Pow2(size) && l > 0 && size - Clz(r, size) == f.FSize() - 1 + l
    requires x == Scale(r as real, aExp - 1 - f.RndSize())
    ensures Jam(r, l) < Pow2(f.FSize() - 1) && StandsFor(f, Scale(r as real, 0 - l), Jam(r, l))
    ensures x == Scale(Scale(r as real, 0 - l), aExp + l - 1 - f.RndSize())
  {
    assert f.FSize() >= 1;
    hide *;
    assert r > 0;
    assert size - Clz(r, size) - 1 == f.FSize() - 2 + l;
    LongInteger(f, r, l);
    Rescale(r as real, 0 - l, aExp + l - 1 - f.RndSize());
  }

  /** `internal_cvt_i*_sf*`: an integer, rounded once. */
  method IntToFloat(f: Format, size: nat, unsigned: bool, a: int, rm: RoundingMode) returns (w: nat, raised: Flags)
    requires f.Valid() && size > 0 && InRange(size, unsigned, a)
    ensures Rounded(f, rm, a < 0, IntMag(f, Abs(a)), w, raised)
  {
    hide *;
    IntSize(size, unsigned, a);
    var r: nat := if !unsigned && a < 0 then -a else a;
    var aExp := f.ExpMask() / 2 + f.FSize() - 2;
    ghost var x := IntMag(f, r);
    IntMagIs(f, r, aExp);
    var l := size - Clz(r, size) - (f.FSize() - 1);
    if l > 0 {
      LongMag(f, size, r, l, aExp, x);
      w, raised := Normalize(f, !unsigned && a < 0, aExp + l, Jam(r, l), rm, Scale(r as real, 0 - l), x);
    } else {
      Pow2Mono(size - Clz(r, size), f.FSize() - 1);
      ExactStands(f, r);
      w, raised := Normalize(f, !unsigned && a < 0, aExp, r, rm, r as real, x);
    }
  }

  // ----- to integers

  ghost predicate ClosestInteger(rm: RoundingMode, x: real, n: nat) {
    forall k: nat ::
      && Dist(n, x) <= Dist(k, x)
      && (k != n && Dist(n, x) == Dist(k, x) ==> if rm == RNE then n % 2 == 0 else n > k)
  }

  /** `n` is the magnitude `x` of a number of the given sign, rounded to an integer. */
  ghost predicate RoundsToInteger(rm: RoundingMode, neg: bool, x: real, n: nat) {
    if Nearest(rm) then ClosestInteger(rm, x, n)
    else if Away(rm, neg) then x <= n as real < x + 1.0
    else n as real <= x < (n + 1) as real
  }

  lemma RuleRounds(rm: RoundingMode, neg: bool, x: real, q: nat)
    requires q as real <= x < (q + 1) as real
    ensures RoundsToInteger(rm, neg, x, if GoesUp(rm, neg, x, q, q + 1, q % 2 == 1) then q + 1 else q)
  {
  }

  /** An integer rounds to itself only. */
  lemma IntegerExact(rm: RoundingMode, neg: bool, m: nat, n: nat)
    ensures RoundsToInteger(rm, neg, m as real, n) <==> n == m
  {
    assert Dist(m, m as real) == 0.0;
  }

  /** `r_max`: the largest magnitude of the given sign. */
  function Limit(size: nat, unsigned: bool, neg: bool): nat
    requires size > 0
  {
    if unsigned then if neg then 0 else Pow2(size) - 1
    else if neg then Pow2(size - 1) else Pow2(size - 1) - 1
  }

  function WithSign(neg: bool, n: nat): int {
    var m: int := n;
    if neg then -m else m
  }

  /** The value of a magnitude. */
  ghost function RealMag(f: Format, mag: nat): real
    requires f.Valid()
  {
    Scale(mag as real, 1 - f.Bias() - f.mantSize)
  }

  ghost predicate Saturates(f: Format, rm: RoundingMode, size: nat, unsigned: bool, neg: bool, x: real, n: nat,
                            r: int, raised: Flags)
    requires size > 0
  {
    if n <= Limit(size, unsigned, neg) then r == WithSign(neg, n) && raised == NO_FLAGS.(inexact := n as real != x)
    else r == WithSign(neg, Limit(size, unsigned, neg)) && raised == INVALID
  }

  /** What the conversion of a word delivers; a NaN counts as positive infinity. */
  ghost predicate IsInteger(f: Format, rm: RoundingMode, size: nat, unsigned: bool, a: nat, r: int, raised: Flags)
    requires f.Valid() && size > 0
  {
    if IsNaN(f, a) then r == Limit(size, unsigned, false) && raised == INVALID
    else if IsInf(f, a) then r == WithSign(Neg(f, a), Limit(size, unsigned, Neg(f, a))) && raised == INVALID
    else
      var x := RealMag(f, Mag(f, a));
      exists n: nat ::
        RoundsToInteger(rm, Neg(f, a), x, n) && Saturates(f, rm, size, unsigned, Neg(f, a), x, n, r, raised)
  }

  /** The significand shifted right, with the bits below the point. */
  lemma IntStep(f: Format, rm: RoundingMode, neg: bool, c: nat, d: nat, x: real)
    requires f.Valid() && x == Scale(c as real, 0 - d)
    ensures var m := Jam(c * Pow2(f.RndSize()), d);
            var n := RoundedMant(f, rm, neg, m);
            RoundsToInteger(rm, neg, x, n) && (n as real == x <==> Low(m, f.RndSize()) == 0)
  {
    var k := f.RndSize();
    var m, ys := Jam(c * Pow2(k), d), Scale((c * Pow2(k)) as real, 0 - d);
    hide Scale;
    hide Jam;
    hide RoundsToInteger;
    hide RoundedMant;
    hide Agrees;
    assert Pow2(0) == 1;
    AgreesExact(c * Pow2(k), Pow2(k - 1));
    AgreesJam((c * Pow2(k)) as real, c * Pow2(k), k - 1, d);
    assert x == Scale(ys, 0 - f.RndSize()) by {
      ScaleNat(c, k);
      Rescale(c as real, k, 0 - d);
      Rescale(c as real, f.RndSize() - d, 0 - f.RndSize());
    }
    hide Pow2;
    var q, r := Shr(m, k), Low(m, k);
    HalfSplit(m, k);
    hide Shr;
    hide Low;
    MantScale(x, ys, q, r, k, 0);
    UpAgrees(rm, neg, x, q, q + 1, q, r, Pow2(k - 1));
    MantRule(f, rm, neg, m);
    hide UpRule;
    RuleRounds(rm, neg, x, q);
    hide GoesUp;
  }

  lemma RealMagIs(f: Format, w: nat)
    requires f.Valid() && Finite(f, w)
    ensures RealMag(f, Mag(f, w)) == Scale(Sig(f, w) as real, Exp1(f, w) - f.Bias() - f.mantSize)
  {
    MagIs(f, w);
    Rescale(Sig(f, w) as real, Exp1(f, w) - 1, 1 - f.Bias() - f.mantSize);
  }

  /** Beyond the shift that the result has room for, the number is too large. */
  lemma TooLarge(f: Format, size: nat, unsigned: bool, neg: bool, c: nat, e: nat)
    requires f.Valid() && size > 0 && e + f.mantSize > size - 1 && Pow2(f.mantSize) <= c
    ensures Limit(size, unsigned, neg) < c * Pow2(e)
  {
    Pow2Add(f.mantSize, e);
    Pow2Mono(size, f.mantSize + e);
    Pow2Mono(size - 1, size);
    MulMono(Pow2(f.mantSize), c, Pow2(e));
  }

  /** The branch of numbers without a fraction. */
  lemma WholeNumber(f: Format, rm: RoundingMode, size: nat, unsigned: bool, a: nat, e: nat)
    requires f.Valid() && size > 0 && Finite(f, a) && e == Exp1(f, a) - f.Bias() - f.mantSize
    ensures var x, n := RealMag(f, Mag(f, a)), Sig(f, a) * Pow2(e);
            x == n as real && RoundsToInteger(rm, Neg(f, a), x, n)
    ensures Pow2(f.mantSize) <= Sig(f, a)
  {
    RealMagIs(f, a);
    ScaleNat(Sig(f, a), e);
    IntegerExact(rm, Neg(f, a), Sig(f, a) * Pow2(e), Sig(f, a) * Pow2(e));
  }

  lemma WholeSaturates(f: Format, rm: RoundingMode, size: nat, unsigned: bool, neg: bool, n: nat, r: int, raised: Flags)
    requires size > 0
    requires var top := Limit(size, unsigned, neg);
             if n > top then r == WithSign(neg, top) && raised == INVALID
             else r == WithSign(neg, n) && raised == NO_FLAGS
    ensures Saturates(f, rm, size, unsigned, neg, n as real, n, r, raised)
  {
    hide Limit;
  }

  lemma Delivered(f: Format, rm: RoundingMode, size: nat, unsigned: bool, a: nat, n: nat, r: int, raised: Flags)
    requires f.Valid() && size > 0 && Finite(f, a)
    requires RoundsToInteger(rm, Neg(f, a), RealMag(f, Mag(f, a)), n)
    requires Saturates(f, rm, size, unsigned, Neg(f, a), RealMag(f, Mag(f, a)), n, r, raised)
    ensures IsInteger(f, rm, size, unsigned, a, r, raised)
  {
    hide RoundsToInteger;
    hide Saturates;
  }

  /** `internal_cvt_sf*_i*`. The result is the integer that the returned bits stand for. */
  method FloatToInt(f: Format, size: nat, unsigned: bool, a: nat, rm: RoundingMode) returns (r: int, raised: Flags)
    requires f.Valid() && 0 < size <= f.Bias() + 1 && f.mantSize <= f.Bias() + 1 && IsWord(f, a)
    ensures IsInteger(f, rm, size, unsigned, a, r, raised)
  {
    hide *;
    Unpacked(f, a);
    MaskIs(f);
    var neg := Neg(f, a) && !IsNaN(f, a);
    var aExp, aMant := Exp(f, a), Mant(f, a);
    if aExp == 0 {
      aExp := 1;
    } else {
      aMant := aMant + Pow2(f.mantSize);
    }
    var e := aExp - f.ExpMask() / 2 - f.mantSize;
    var rMax := Limit(size, unsigned, neg);
    if e < 0 {
      r, raised := RoundInteger(f, size, unsigned, a, aMant, -e, rm);
    } else if e <= size - 1 - f.mantSize {
      WholeNumber(f, rm, size, unsigned, a, e);
      var n := aMant * Pow2(e);
      if n > rMax {
        r, raised := WithSign(neg, rMax), INVALID;
      } else {
        r, raised := WithSign(neg, n), NO_FLAGS;
      }
      WholeSaturates(f, rm, size, unsigned, neg, n, r, raised);
      Delivered(f, rm, size, unsigned, a, n, r, raised);
    } else {
      r, raised := WithSign(neg, rMax), INVALID;
      if Finite(f, a) {
        WholeNumber(f, rm, size, unsigned, a, e);
        TooLarge(f, size, unsigned, neg, aMant, e);
        WholeSaturates(f, rm, size, unsigned, neg, aMant * Pow2(e), r, raised);
        Delivered(f, rm, size, unsigned, a, aMant * Pow2(e), r, raised);
      } else {
        NotFinite(f, rm, size, unsigned, a);
      }
    }
  }

  lemma Unpacked(f: Format, a: nat)
    requires f.Valid() && IsWord(f, a)
    ensures Sig(f, a) == Mant(f, a) + (if Exp(f, a) == 0 then 0 else Pow2(f.mantSize))
    ensures Exp1(f, a) == if Exp(f, a) == 0 then 1 else Exp(f, a)
    ensures (Finite(f, a) <==> Exp(f, a) != f.ExpMask()) && (Finite(f, a) ==> !IsNaN(f, a))
    ensures 0 <= Exp(f, a) <= f.ExpMask() && 0 < f.ExpMask()
  {
    PackOfFields(f, a);
    hide Pow2;
  }

  lemma NotFinite(f: Format, rm: RoundingMode, size: nat, unsigned: bool, a: nat)
    requires f.Valid() && size > 0 && !Finite(f, a)
    ensures var neg := Neg(f, a) && !IsNaN(f, a);
            IsInteger(f, rm, size, unsigned, a, WithSign(neg, Limit(size, unsigned, neg)), INVALID)
  {
    hide Pow2;
    hide Limit;
  }

  lemma ShiftedInteger(f: Format, c: nat, d: nat)
    requires f.Valid() && c < 2 * Pow2(f.mantSize)
    ensures RshiftRnd(f, c * Pow2(f.RndSize()), d) == Jam(c * Pow2(f.RndSize()), d)
  {
    assert Pow2(f.mantSize + 1) == 2 * Pow2(f.mantSize);
    hide Pow2;
    ShlBounds(c, f.mantSize + 1, f.RndSize());
    Pow2Mono(f.mantSize + 1 + f.RndSize(), f.FSize());
    RshiftIsJam(f, c * Pow2(f.RndSize()), d);
  }

  /** The branch of numbers with a fraction. */
  method RoundInteger(f: Format, size: nat, unsigned: bool, a: nat, c: nat, d: nat, rm: RoundingMode)
    returns (r: int, raised: Flags)
    requires f.Valid() && size > 0 && IsWord(f, a) && Finite(f, a) && c == Sig(f, a) && d > 0
    requires 0 - d == Exp1(f, a) - f.Bias() - f.mantSize
    ensures IsInteger(f, rm, size, unsigned, a, r, raised)
  {
    RealMagIs(f, a);
    IntStep(f, rm, Neg(f, a), c, d, RealMag(f, Mag(f, a)));
    ShiftedInteger(f, c, d);
    hide Scale;
    hide Mag;
    hide RealMag;
    hide RoundsToInteger;
    hide Pow2;
    hide RshiftRnd;
    hide Jam;
    hide Limit;
    hide Low;
    hide Shr;
    hide Sig;
    hide Exp1;
    hide Finite;
    hide Neg;
    var neg := Neg(f, a);
    var mant := RshiftRnd(f, c * Pow2(f.RndSize()), d);
    var rndBits := Low(mant, f.RndSize());
    mant := Shr(mant + Addend(f, rm, neg), f.RndSize());
    if rm == RNE && rndBits == Pow2(f.RndSize() - 1) {
      mant := mant - mant % 2;
    }
    if mant > Limit(size, unsigned, neg) {
      r, raised := WithSign(neg, Limit(size, unsigned, neg)), INVALID;
    } else {
      r, raised := WithSign(neg, mant), NO_FLAGS.(inexact := rndBits != 0);
    }
    Delivered(f, rm, size, unsigned, a, mant, r, raised);
  }

  // ----- there and back

  /** A short significand, at full width. */
  lemma FullWidth(f: Format, m: nat) returns (c: nat, s: nat)
    requires f.Valid() && 0 < m < 2 * Pow2(f.mantSize)
    ensures s <= f.mantSize && c == m * Pow2(s) && Pow2(f.mantSize) <= c < 2 * Pow2(f.mantSize)
  {
    assert Pow2(f.mantSize + 1) == 2 * Pow2(f.mantSize);
    hide Pow2;
    BitLenBound(m, f.mantSize + 1);
    s := f.mantSize + 1 - BitLen(m);
    ShlBounds(m, BitLen(m), s);
    c := m * Pow2(s);
  }

  /** A small integer is a number of the format. */
  lemma IntegerRepresentable(f: Format, m: nat)
    requires f.Valid() && m < 2 * Pow2(f.mantSize) && f.mantSize + 2 <= f.Bias()
    ensures var n := m * Pow2(f.Bias() + f.mantSize - 1);
            IntMag(f, m) == n as real && Representable(f, n) && n <= MaxMag(f)
  {
    var e := f.Bias() + f.mantSize - 1;
    ScaleNat(m, e);
    if m == 0 {
      assert Canonical(f, 0, 0, 0);
    } else {
      var c, s := FullWidth(f, m);
      Pow2Add(s, e - s);
      AssocNat(m, Pow2(s), Pow2(e - s));
      CanonicalPoint(f, c * Pow2(e - s), c, e - s);
      assert f.ExpMask() == 2 * f.Bias() + 1;
      Pow2Mono(e - s, f.ExpMask() - 2);
      hide Pow2;
      MulOrder(c, 2 * Pow2(f.mantSize) - 1, Pow2(e - s), Pow2(f.ExpMask() - 2));
    }
  }

  lemma RepresentableRounds(f: Format, rm: RoundingMode, neg: bool, k: nat, w: nat, raised: Flags)
    requires f.Valid() && Representable(f, k) && k <= MaxMag(f) && Rounded(f, rm, neg, k as real, w, raised)
    ensures Finite(f, w) && Neg(f, w) == neg && Mag(f, w) == k && raised == NO_FLAGS
  {
    var n: nat :| Rounds(f, rm, neg, k as real, n) && Delivers(f, rm, neg, k as real, n, w, raised);
    RoundsBetween(f, rm, neg, k as real, n, k);
    hide Rounds;
    hide Tiny;
    hide Mag;
    hide MaxMag;
  }

  /** An integer that fits the significand survives the trip through the format. */
  lemma IntRoundTrip(f: Format, rm: RoundingMode, rm': RoundingMode, size: nat, unsigned: bool, a: int,
                     w: nat, wf: Flags, r: int, rf: Flags)
    requires f.Valid() && 0 < size && InRange(size, unsigned, a) && Abs(a) < 2 * Pow2(f.mantSize)
    requires f.mantSize + 2 <= f.Bias() && Rounded(f, rm, a < 0, IntMag(f, Abs(a)), w, wf)
    requires IsInteger(f, rm', size, unsigned, w, r, rf)
    ensures r == a && wf == NO_FLAGS && rf == NO_FLAGS
  {
    hide *;
    var k := Abs(a) * Pow2(f.Bias() + f.mantSize - 1);
    IntegerRepresentable(f, Abs(a));
    RepresentableRounds(f, rm, a < 0, k, w, wf);
    RealMagOf(f, Abs(a));
    BackToInteger(f, rm', size, unsigned, a, w, r, rf);
  }

  lemma RealMagOf(f: Format, m: nat)
    requires f.Valid()
    ensures RealMag(f, m * Pow2(f.Bias() + f.mantSize - 1)) == m as real
  {
    ScaleNat(m, f.Bias() + f.mantSize - 1);
    Rescale(m as real, f.Bias() + f.mantSize - 1, 1 - f.Bias() - f.mantSize);
    ScaleZero(m as real);
    hide Scale;
    hide Pow2;
  }

  lemma BackToInteger(f: Format, rm: RoundingMode, size: nat, unsigned: bool, a: int, w: nat, r: int, raised: Flags)
    requires f.Valid() && size > 0 && InRange(size, unsigned, a) && IsInteger(f, rm, size, unsigned, w, r, raised)
    requires Finite(f, w) && Neg(f, w) == (a < 0) && RealMag(f, Mag(f, w)) == Abs(a) as real
    ensures r == a && raised == NO_FLAGS
  {
    hide Mag;
    hide RealMag;
    hide RoundsToInteger;
    hide Pow2;
    var m := Abs(a);
    var n: nat :| RoundsToInteger(rm, a < 0, m as real, n) &&
                  Saturates(f, rm, size, unsigned, a < 0, m as real, n, r, raised);
    IntegerExact(rm, a < 0, m, n);
  }

  lemma DoubleHolds32(unsigned: bool, a: int)
    requires InRange(32, unsigned, a)
    ensures Abs(a) < 2 * Pow2(SF64.mantSize) && SF64.Valid()
  {
    hide Pow2;
    Pow2Mono(32, 52);
    Pow2Mono(31, 32);
  }

  lemma DoubleBias()
    ensures SF64.mantSize + 2 <= SF64.Bias()
  {
    Pow2Next(0);
    Pow2Next(4);
    Pow2Mono(6, 10);
    hide Pow2;
  }

  /** Every 32-bit integer survives the trip through a double. */
  lemma Int32ThroughDouble(rm: RoundingMode, rm': RoundingMode, unsigned: bool, a: int,
                           w: nat, wf: Flags, r: int, rf: Flags)
    requires InRange(32, unsigned, a)
    requires Rounded(SF64, rm, a < 0, IntMag(SF64, Abs(a)), w, wf) && IsInteger(SF64, rm', 32, unsigned, w, r, rf)
    ensures r == a && wf == NO_FLAGS && rf == NO_FLAGS
  {
    hide *;
    DoubleHolds32(unsigned, a);
    DoubleBias();
    IntRoundTrip(SF64, rm, rm', 32, unsigned, a, w, wf, r, rf);
  }
}
