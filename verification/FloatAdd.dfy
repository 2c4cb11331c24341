/** `add_sf` and `sub_sf`: the exact sum, rounded once. */
module FloatAdd {
  import opened Powers
  import opened FloatSpec
  import opened FloatSticky
  import opened FloatPack
  import opened FloatUnpack

  /** The sign of a sum: its own, or that of equal-signed zeros, or the rounding
      mode's if the sum vanishes (IEEE 754-2008, section 6.3). */
  function SumNeg(rm: RoundingMode, s: int, aNeg: bool, bNeg: bool): bool {
    if s != 0 then s < 0 else if aNeg == bNeg then aNeg else rm == RDN
  }

  function Abs(s: int): nat {
    if s < 0 then -s else s
  }

  /** What the sum of two words is. */
  ghost predicate IsSum(f: Format, rm: RoundingMode, a: nat, b: nat, w: nat, raised: Flags)
    requires f.Valid()
  {
    if IsNaN(f, a) || IsNaN(f, b) then
      w == QNaN(f) && raised == if IsSignalling(f, a) || IsSignalling(f, b) then INVALID else NO_FLAGS
    else if IsInf(f, a) && IsInf(f, b) && Neg(f, a) != Neg(f, b) then
      w == QNaN(f) && raised == INVALID
    else if IsInf(f, a) then w == a && raised == NO_FLAGS
    else if IsInf(f, b) then w == b && raised == NO_FLAGS
    else
      var s := Value(f, a) + Value(f, b);
      Rounded(f, rm, SumNeg(rm, s, Neg(f, a), Neg(f, b)), Abs(s) as real, w, raised)
  }

  // ----- the shifted operand

  /** A shift of at most three bits only drops the guard bits, which are zero. */
  lemma GuardBits(c: nat, d: nat)
    requires d <= 3
    ensures Jam(8 * c, d) as real == Scale((8 * c) as real, 0 - d)
  {
    var g := Pow2(d);
    var k := 8 / g;
    assert Pow2(1) == 2 && Pow2(2) == 4 && Pow2(3) == 8 && k * g == 8;
    AssocNat(c, k, g);
    DivRem(c * k, 0, g);
    ScaleNat(c * k, d);
    Rescale((c * k) as real, d, 0 - d);
    ScaleZero((c * k) as real);
  }

  /** Everything that the sum needs to know about the shifted smaller operand. */
  lemma Shifted(f: Format, c: nat, d: nat)
    requires f.Valid() && c < 2 * Pow2(f.mantSize)
    ensures var b, bx := RshiftRnd(f, 8 * c, d), Scale((8 * c) as real, 0 - d);
            && Agrees(bx, b, 2) && b <= 16 * Pow2(f.mantSize) && 0.0 <= bx
            && (bx == b as real || (b <= Pow2(f.mantSize) && d > 0))
  {
    var m := f.mantSize;
    Pow2Next(m);
    Pow2Mono(m + 4, f.FSize());
    ScaleSign((8 * c) as real, 0 - d);
    hide Scale;
    hide Agrees;
    RshiftIsJam(f, 8 * c, d);
    AgreesExact(8 * c, Pow2(1));
    AgreesJam((8 * c) as real, 8 * c, 1, d);
    JamSmaller(8 * c, d);
    if d <= 3 {
      GuardBits(c, d);
    } else {
      FarShift(8 * c, m, d);
    }
  }

  lemma FarShift(x: nat, m: nat, d: nat)
    requires x < Pow2(m + 4) && d >= 4
    ensures Jam(x, d) <= Pow2(m)
  {
    if d <= m + 4 {
      JamBound(x, m + 4, d);
      Pow2Mono(m + 4 - d, m);
    } else {
      Pow2Mono(m + 4, d);
      SmallMod(x, Pow2(d));
    }
  }

  /** Adding or subtracting an even number keeps a sticky bit where it is. */
  lemma AgreesSum(a: nat, b: nat, bx: real)
    requires a % 2 == 0 && Agrees(bx, b, 2)
    ensures Agrees(a as real + bx, a + b, 2)
    ensures bx <= a as real ==> b <= a && Agrees(a as real - bx, a - b, 2)
  {
  }

  /** The mantissa after the addition, and what it stands for. */
  lemma SumStands(f: Format, a: nat, b: nat, bx: real, big: bool)
    requires f.Valid() && a % 2 == 0 && a < 16 * Pow2(f.mantSize) && (big ==> 8 * Pow2(f.mantSize) <= a)
    requires Agrees(bx, b, 2) && b <= 16 * Pow2(f.mantSize)
    requires bx == b as real || (b <= Pow2(f.mantSize) && big)
    ensures a + b < Pow2(f.FSize() - 1) && StandsFor(f, a as real + bx, a + b)
    ensures bx <= a as real ==> b <= a && StandsFor(f, a as real - bx, a - b)
  {
    var m := f.mantSize;
    Pow2Next(m);
    Pow2Mono(m + 5, f.FSize() - 1);
    hide Pow2;
    AgreesSum(a, b, bx);
  }

  lemma SumScale(f: Format, c: nat, exp: nat, e: nat, mag: nat)
    requires 1 <= exp <= e && Scale(c as real, exp - 1) == mag as real
    ensures Scale(Scale((8 * c) as real, 0 - (e - exp)), e - 4) == mag as real
  {
    ScaleNat(c, 3);
    assert Pow2(3) == 8;
    Rescale(c as real, 3, exp - e);
    Rescale(c as real, exp - e + 3, e - 4);
  }

  lemma ScaleSum(x: real, y: real, e: int)
    ensures Scale(x + y, e) == Scale(x, e) + Scale(y, e) && Scale(x - y, e) == Scale(x, e) - Scale(y, e)
  {
    hide Pow;
  }

  // ----- the operation

  /** `add_sf` on finite numbers, the larger magnitude first. */
  method AddFinite(f: Format, a: nat, b: nat, rm: RoundingMode) returns (w: nat, raised: Flags)
    requires f.Valid() && IsWord(f, a) && IsWord(f, b) && Finite(f, a) && Finite(f, b) && Body(f, b) <= Body(f, a)
    ensures var s := Value(f, a) + Value(f, b);
            Rounded(f, rm, SumNeg(rm, s, Neg(f, a), Neg(f, b)), Abs(s) as real, w, raised)
  {
    var aNeg, bNeg := Neg(f, a), Neg(f, b);
    var aExp, bExp := Exp(f, a), Exp(f, b);
    var aMant, bMant := 8 * Mant(f, a), 8 * Mant(f, b);
    if aExp == 0 {
      aExp := 1;
    } else {
      aMant := aMant + 8 * Pow2(f.mantSize);
    }
    if bExp == 0 {
      bExp := 1;
    } else {
      bMant := bMant + 8 * Pow2(f.mantSize);
    }
    hide Rounded;
    w, raised := AddMantissas(f, aNeg, bNeg, aExp, bExp, aMant, bMant, rm, a, b);
  }

  /** The addition proper: mantissas with three guard bits and a sticky bit. */
  method AddMantissas(f: Format, aNeg: bool, bNeg: bool, aExp: nat, bExp: nat, aMant: nat, bMant: nat,
                      rm: RoundingMode, ghost a: nat, ghost b: nat)
    returns (w: nat, raised: Flags)
    requires f.Valid() && IsWord(f, a) && IsWord(f, b) && Finite(f, a) && Finite(f, b) && Body(f, b) <= Body(f, a)
    requires aNeg == Neg(f, a) && bNeg == Neg(f, b) && aExp == Exp1(f, a) && bExp == Exp1(f, b)
    requires aMant == 8 * Sig(f, a) && bMant == 8 * Sig(f, b)
    ensures var s := Value(f, a) + Value(f, b); Rounded(f, rm, SumNeg(rm, s, aNeg, bNeg), Abs(s) as real, w, raised)
  {
    hide *;
    MagOrder(f, a, b);
    SumSign(f, rm, a, b);
    var bShifted := RshiftRnd(f, bMant, aExp - bExp);
    ghost var bx := Scale(bMant as real, 0 - (aExp - bExp));
    SumFacts(f, a, b, bShifted, bx);
    if aNeg == bNeg {
      w, raised := Normalize(f, aNeg, aExp + f.RndSize() - 3, aMant + bShifted, rm, aMant as real + bx,
                             (Mag(f, a) + Mag(f, b)) as real);
    } else {
      var mant, neg := aMant - bShifted, aNeg;
      if mant == 0 {
        neg := rm == RDN;
      }
      w, raised := Normalize(f, neg, aExp + f.RndSize() - 3, mant, rm, aMant as real - bx,
                             (Mag(f, a) - Mag(f, b)) as real);
    }
  }

  lemma SumSign(f: Format, rm: RoundingMode, a: nat, b: nat)
    requires f.Valid() && Finite(f, a) && Finite(f, b) && Mag(f, b) <= Mag(f, a)
    ensures var s := Value(f, a) + Value(f, b);
            if Neg(f, a) == Neg(f, b) then
              SumNeg(rm, s, Neg(f, a), Neg(f, b)) == Neg(f, a) && Abs(s) == Mag(f, a) + Mag(f, b)
            else
              && SumNeg(rm, s, Neg(f, a), Neg(f, b)) == (if Mag(f, a) == Mag(f, b) then rm == RDN else Neg(f, a))
              && Abs(s) == Mag(f, a) - Mag(f, b)
  {
    hide Mag;
    hide Neg;
  }

  lemma FullSig(f: Format, w: nat)
    ensures Exp1(f, w) > 1 ==> Pow2(f.mantSize) <= Sig(f, w)
  {
  }

  /** The two mantissas, aligned. */
  lemma SumFacts(f: Format, a: nat, b: nat, bMant: nat, bx: real)
    requires f.Valid() && Finite(f, a) && Finite(f, b) && Mag(f, b) <= Mag(f, a) && Exp1(f, b) <= Exp1(f, a)
    requires bMant == RshiftRnd(f, 8 * Sig(f, b), Exp1(f, a) - Exp1(f, b))
    requires bx == Scale((8 * Sig(f, b)) as real, 0 - (Exp1(f, a) - Exp1(f, b)))
    ensures var m, e := 8 * Sig(f, a), Exp1(f, a) - 4;
            && m + bMant < Pow2(f.FSize() - 1) && StandsFor(f, m as real + bx, m + bMant)
            && bMant <= m && StandsFor(f, m as real - bx, m - bMant)
            && Scale(m as real + bx, e) == (Mag(f, a) + Mag(f, b)) as real
            && Scale(m as real - bx, e) == (Mag(f, a) - Mag(f, b)) as real
            && (m == bMant <==> Mag(f, a) == Mag(f, b))
  {
    hide *;
    var m, e := 8 * Sig(f, a), Exp1(f, a) - 4;
    FullSig(f, a);
    MagIs(f, a);
    MagIs(f, b);
    Shifted(f, Sig(f, b), Exp1(f, a) - Exp1(f, b));
    SumScale(f, Sig(f, a), Exp1(f, a), Exp1(f, a), Mag(f, a));
    SumScale(f, Sig(f, b), Exp1(f, b), Exp1(f, a), Mag(f, b));
    ScaleZero(m as real);
    SumStands(f, m, bMant, bx, Exp1(f, a) > Exp1(f, b));
    ScaleSum(m as real, bx, e);
    ScaleOrder(m as real, bx, e);
    Pow2Next(f.mantSize);
    StandsZero(f, m as real - bx, m - bMant);
  }

  lemma StandsZero(f: Format, xs: real, m: nat)
    requires StandsFor(f, xs, m)
    ensures m == 0 <==> xs == 0.0
  {
    assert Pow2(f.mantSize + 2) == 2 * Pow2(f.mantSize + 1);
  }

  lemma QuietBit(m: nat, k: nat)
    requires k > 0 && m < Pow2(k)
    ensures Shr(m, k - 1) % 2 == 0 <==> m < Pow2(k - 1)
  {
    var h := Pow2(k - 1);
    if m < h {
      SmallMod(m, h);
    } else {
      DivRem(1, m - h, h);
    }
  }

  lemma SumSwap(f: Format, rm: RoundingMode, a: nat, b: nat, w: nat, raised: Flags)
    requires f.Valid() && IsWord(f, a) && IsWord(f, b) && IsSum(f, rm, a, b, w, raised)
    ensures IsSum(f, rm, b, a, w, raised)
  {
    hide Rounded;
    PackOfFields(f, a);
    PackOfFields(f, b);
  }

  /** Addition commutes, bit for bit and flag for flag. */
  lemma SumCommutes(f: Format, rm: RoundingMode, a: nat, b: nat, v: nat, vf: Flags, w: nat, wf: Flags)
    requires f.Valid() && IsWord(f, a) && IsWord(f, b)
    requires IsSum(f, rm, a, b, v, vf) && IsSum(f, rm, b, a, w, wf)
    ensures v == w && vf == wf
  {
    SumSwap(f, rm, b, a, w, wf);
    hide Rounded;
    if Finite(f, a) && Finite(f, b) {
      var s := Value(f, a) + Value(f, b);
      RoundedUnique(f, rm, SumNeg(rm, s, Neg(f, a), Neg(f, b)), Abs(s) as real, v, vf, w, wf);
    }
  }

  /** `add_sf`, for any two words. */
  method Add(f: Format, a0: nat, b0: nat, rm: RoundingMode) returns (w: nat, raised: Flags)
    requires f.Valid() && IsWord(f, a0) && IsWord(f, b0)
    ensures IsSum(f, rm, a0, b0, w, raised)
  {
    hide Rounded;
    hide Value;
    hide Pow2;
    var a, b := a0, b0;
    if Body(f, a) < Body(f, b) {
      a, b := b0, a0;
    }
    BodyOrder(f, a, b);
    PackOfFields(f, b);
    QuietBit(Mant(f, a), f.mantSize);
    SigNaNTest(f, b);
    if Exp(f, a) == f.ExpMask() {
      if Mant(f, a) != 0 {
        w := QNaN(f);
        raised := if Shr(Mant(f, a), f.mantSize - 1) % 2 == 0 || IsSigNaN(f, b) then INVALID else NO_FLAGS;
      } else if Exp(f, b) == f.ExpMask() && Neg(f, a) != Neg(f, b) {
        w, raised := QNaN(f), INVALID;
      } else {
        w, raised := a, NO_FLAGS;
      }
    } else {
      w, raised := AddFinite(f, a, b, rm);
    }
    assert IsSum(f, rm, a, b, w, raised);
    if Body(f, a0) < Body(f, b0) {
      SumSwap(f, rm, a, b, w, raised);
    }
  }

  /** `b ^ SIGN_MASK`. */
  function FlipSign(f: Format, w: nat): (r: nat)
    requires f.Valid()
  {
    if Neg(f, w) && Pow2(f.FSize() - 1) <= w then w - Pow2(f.FSize() - 1) else w + Pow2(f.FSize() - 1)
  }

  lemma Flipped(f: Format, w: nat)
    requires f.Valid() && IsWord(f, w)
    ensures var r := FlipSign(f, w);
            IsWord(f, r) && Neg(f, r) == !Neg(f, w) && Exp(f, r) == Exp(f, w) && Mant(f, r) == Mant(f, w)
  {
    PackOfFields(f, w);
    PackFields(f, !Neg(f, w), Exp(f, w), Mant(f, w));
    SmallMod(Mant(f, w), Pow2(f.mantSize));
  }

  /** `sub_sf`: the exact difference, rounded once. */
  method Sub(f: Format, a: nat, b: nat, rm: RoundingMode) returns (w: nat, raised: Flags)
    requires f.Valid() && IsWord(f, a) && IsWord(f, b)
    ensures IsWord(f, FlipSign(f, b)) && IsSum(f, rm, a, FlipSign(f, b), w, raised)
    ensures Finite(f, a) && Finite(f, b) ==>
              var s := Value(f, a) - Value(f, b);
              Rounded(f, rm, SumNeg(rm, s, Neg(f, a), !Neg(f, b)), Abs(s) as real, w, raised)
  {
    Flipped(f, b);
    hide Rounded;
    hide FlipSign;
    w, raised := Add(f, a, FlipSign(f, b), rm);
  }
}
