/** Correct results on the signed real axis, from the fields of the words (IEEE
    754-2008, sections 3.4, 4.3, 6.2, 6.3 and 7): the reference that the rounded
    magnitudes of FloatSpec are compared with. It uses none of their definitions
    but the format, the rounding modes and the flags. */
module FloatIeee {
  import opened Powers
  import opened FloatSpec
  import opened FloatRounding
  import opened FloatPack
  import opened FloatUnpack

  // ----- what words stand for

  predicate Minus(f: Format, w: nat) {
    w >= Pow2(f.expSize + f.mantSize)
  }

  function Exponent(f: Format, w: nat): nat {
    w / Pow2(f.mantSize) % Pow2(f.expSize)
  }

  function Trailing(f: Format, w: nat): nat {
    w % Pow2(f.mantSize)
  }

  predicate IsNumber(f: Format, w: nat) {
    w < Pow2(1 + f.expSize + f.mantSize) && Exponent(f, w) != Pow2(f.expSize) - 1
  }

  predicate Infinite(f: Format, w: nat) {
    Exponent(f, w) == Pow2(f.expSize) - 1 && Trailing(f, w) == 0
  }

  predicate NotNumber(f: Format, w: nat) {
    Exponent(f, w) == Pow2(f.expSize) - 1 && Trailing(f, w) != 0
  }

  /** A signalling NaN: the highest bit of its trailing significand is 0. */
  predicate Signals(f: Format, w: nat) {
    NotNumber(f, w) && 2 * Trailing(f, w) < Pow2(f.mantSize)
  }

  function Signed0(f: Format, minus: bool): nat {
    if minus then Pow2(f.expSize + f.mantSize) else 0
  }

  function Infinity(f: Format, minus: bool): nat {
    Signed0(f, minus) + (Pow2(f.expSize) - 1) * Pow2(f.mantSize)
  }

  /** The quiet NaN with a plus sign and no other payload. */
  function DefaultNaN(f: Format): nat
    requires f.Valid()
  {
    (Pow2(f.expSize) - 1) * Pow2(f.mantSize) + Pow2(f.mantSize - 1)
  }

  /** The largest exponent, which is also the bias. */
  function EMax(f: Format): nat
    requires f.Valid()
  {
    Pow2(f.expSize - 1) - 1
  }

  /** The number that a word stands for. */
  ghost function RealOf(f: Format, w: nat): real
    requires f.Valid()
  {
    var e, m := Exponent(f, w), Trailing(f, w);
    var x := if e == 0 then Scale(m as real, 1 - EMax(f) - f.mantSize)
             else Scale((Pow2(f.mantSize) + m) as real, e - EMax(f) - f.mantSize);
    if Minus(f, w) then -x else x
  }

  // ----- rounding

  ghost function Absolute(x: real): real {
    if x < 0.0 then -x else x
  }

  /** The largest number, and from `-inf` to it. */
  ghost predicate GreatestBelow(f: Format, x: real, w: nat)
    requires f.Valid()
  {
    if IsNumber(f, w) then
      RealOf(f, w) <= x && forall v: nat | IsNumber(f, v) && RealOf(f, v) <= x :: RealOf(f, v) <= RealOf(f, w)
    else
      w == Infinity(f, true) && forall v: nat | IsNumber(f, v) :: x < RealOf(f, v)
  }

  ghost predicate LeastAbove(f: Format, x: real, w: nat)
    requires f.Valid()
  {
    if IsNumber(f, w) then
      x <= RealOf(f, w) && forall v: nat | IsNumber(f, v) && x <= RealOf(f, v) :: RealOf(f, w) <= RealOf(f, v)
    else
      w == Infinity(f, false) && forall v: nat | IsNumber(f, v) :: RealOf(f, v) < x
  }

  /** The magnitude of `x` goes from `below` up to `at`, or beyond; `at` is the even
      one of two neighbours. */
  ghost predicate Reaches(rm: RoundingMode, x: real, below: real, at: real) {
    match rm
    case RNE | RMM => below + at <= 2.0 * Absolute(x)
    case RTZ => at <= Absolute(x)
    case RDN => if x < 0.0 then below < -x else at <= x
    case RUP => if x > 0.0 then below < x else at <= -x
  }

  ghost function Largest(f: Format): real
    requires f.Valid()
  {
    Scale((2 * Pow2(f.mantSize) - 1) as real, EMax(f) - f.mantSize)
  }

  /** No number is nearer; of two at the same distance it is the one with the even
      significand, or the one of larger magnitude. From the middle between the largest
      number and the next power of two on, the result is infinite. */
  ghost predicate NearestTo(f: Format, rm: RoundingMode, x: real, w: nat)
    requires f.Valid()
  {
    if Reaches(rm, x, Largest(f), Pow(EMax(f) + 1)) then w == Infinity(f, x < 0.0)
    else
      && IsNumber(f, w)
      && forall v: nat | IsNumber(f, v) ::
           && Absolute(RealOf(f, w) - x) <= Absolute(RealOf(f, v) - x)
           && (RealOf(f, v) != RealOf(f, w) && Absolute(RealOf(f, w) - x) == Absolute(RealOf(f, v) - x) ==>
                 if rm == RNE then w % 2 == 0 else Absolute(RealOf(f, v)) < Absolute(RealOf(f, w)))
  }

  ghost predicate RoundsTo(f: Format, rm: RoundingMode, x: real, w: nat)
    requires f.Valid()
  {
    match rm
    case RDN => GreatestBelow(f, x, w)
    case RUP => LeastAbove(f, x, w)
    case RTZ => if x >= 0.0 then GreatestBelow(f, x, w) else LeastAbove(f, x, w)
    case RNE | RMM => NearestTo(f, rm, x, w)
  }

  /** The flags of a rounded result. Overflow: the magnitude reaches the power of two
      after the largest number. Underflow: inexact, and the magnitude does not reach the
      smallest normal number even with an exponent unbounded below. */
  ghost predicate Flagged(f: Format, rm: RoundingMode, x: real, w: nat, raised: Flags)
    requires f.Valid()
  {
    var exact := IsNumber(f, w) && RealOf(f, w) == x;
    && (raised.inexact <==> !exact)
    && (raised.overflow <==> Reaches(rm, x, Largest(f), Pow(EMax(f) + 1)))
    && (raised.underflow <==>
          !exact && !Reaches(rm, x, Pow(1 - EMax(f)) - Pow(0 - EMax(f) - f.mantSize), Pow(1 - EMax(f))))
    && !raised.divideZero && !raised.invalid
  }

  /** `w` and the flags are what an operation with the exact result `x` delivers; the
      sign matters when `x` is zero. */
  ghost predicate Correct(f: Format, rm: RoundingMode, minus: bool, x: real, w: nat, raised: Flags)
    requires f.Valid()
  {
    && w < Pow2(1 + f.expSize + f.mantSize) && Minus(f, w) == minus
    && RoundsTo(f, rm, x, w) && Flagged(f, rm, x, w, raised)
  }

  /** No flag, or one of the two of results that are not rounded. */
  predicate Quiet(raised: Flags) {
    !raised.inexact && !raised.underflow && !raised.overflow && !raised.divideZero && !raised.invalid
  }

  predicate OnlyInvalid(raised: Flags) {
    !raised.inexact && !raised.underflow && !raised.overflow && !raised.divideZero && raised.invalid
  }

  predicate OnlyDivideZero(raised: Flags) {
    !raised.inexact && !raised.underflow && !raised.overflow && raised.divideZero && !raised.invalid
  }

  // ----- the unit of the format

  /** The unit is `2^UnitExp`. */
  function UnitExp(f: Format): int
    requires f.Valid()
  {
    1 - f.Bias() - f.mantSize
  }

  lemma FieldsAre(f: Format, w: nat)
    requires f.Valid()
    ensures Exponent(f, w) == Exp(f, w) && Trailing(f, w) == Mant(f, w) && EMax(f) == f.Bias()
    ensures IsNumber(f, w) <==> IsWord(f, w) && Finite(f, w)
    ensures Infinite(f, w) == IsInf(f, w) && NotNumber(f, w) == IsNaN(f, w)
    ensures Minus(f, w) == Neg(f, w)
  {
    var d := Pow2(f.expSize + f.mantSize);
    assert f.FSize() - 1 == f.expSize + f.mantSize;
    DivMod(w, d);
    if w < d {
      SmallMod(w, d);
    }
  }

  lemma RealFields(f: Format, w: nat, minus: bool, x: real)
    requires f.Valid() && minus == Neg(f, w) && x == Scale(Sig(f, w) as real, Exp1(f, w) - f.Bias() - f.mantSize)
    ensures RealOf(f, w) == if minus then -x else x
  {
    FieldsAre(f, w);
    hide Scale;
    hide Pow2;
    hide Minus;
    hide Neg;
    hide Exponent;
    hide Trailing;
    hide EMax;
    hide Format.Bias;
    hide Exp;
    hide Mant;
  }

  lemma ScaleMinus(x: real, e: int)
    ensures Scale(-x, e) == -Scale(x, e)
  {
    hide Pow;
  }

  /** The value of a number, in the unit. */
  lemma RealIs(f: Format, w: nat)
    requires f.Valid() && IsNumber(f, w)
    ensures Finite(f, w) && RealOf(f, w) == Scale(Value(f, w) as real, UnitExp(f))
  {
    FieldsAre(f, w);
    MagIs(f, w);
    var m, k := Mag(f, w) as real, Exp1(f, w) - f.Bias() - f.mantSize;
    ValueIs(f, w, m);
    Rescale(Sig(f, w) as real, Exp1(f, w) - 1, UnitExp(f));
    assert k == Exp1(f, w) - 1 + UnitExp(f);
    ScaleMinus(m, UnitExp(f));
    hide *;
    RealFields(f, w, Neg(f, w), Scale(Sig(f, w) as real, k));
  }

  lemma ValueIs(f: Format, w: nat, m: real)
    requires f.Valid() && Finite(f, w) && m == Mag(f, w) as real
    ensures Value(f, w) as real == if Neg(f, w) then -m else m
  {
    hide Mag;
    hide Neg;
  }

  // ----- directed rounding

  /** `x` is the signed magnitude `y` in the unit. */
  ghost predicate IsExact(f: Format, minus: bool, y: real, x: real)
    requires f.Valid()
  {
    y >= 0.0 && x == if minus then -Scale(y, UnitExp(f)) else Scale(y, UnitExp(f))
  }

  /** The signed number `v` against the exact result. */
  lemma Against(f: Format, minus: bool, y: real, x: real, v: nat)
    requires f.Valid() && IsExact(f, minus, y, x) && IsNumber(f, v)
    ensures Finite(f, v)
    ensures var s := if minus then -y else y;
            && (RealOf(f, v) <= x <==> Value(f, v) as real <= s) && (x <= RealOf(f, v) <==> s <= Value(f, v) as real)
  {
    RealIs(f, v);
    ScaleMinus(y, UnitExp(f));
    var s := if minus then -y else y;
    ScaleOrder(Value(f, v) as real, s, UnitExp(f));
    ScaleOrder(s, Value(f, v) as real, UnitExp(f));
    hide *;
  }

  lemma Among(f: Format, v: nat, w: nat)
    requires f.Valid() && IsNumber(f, v) && IsNumber(f, w)
    ensures Finite(f, v) && Finite(f, w) && (RealOf(f, v) <= RealOf(f, w) <==> Value(f, v) <= Value(f, w))
    ensures RealOf(f, v) == RealOf(f, w) <==> Value(f, v) == Value(f, w)
  {
    RealIs(f, v);
    RealIs(f, w);
    ScaleOrder(Value(f, w) as real, Value(f, v) as real, UnitExp(f));
    hide *;
  }

  /** `m` is the largest magnitude of a number that is at most `y`. */
  ghost predicate LargestTo(f: Format, y: real, m: nat)
    requires f.Valid()
  {
    m as real <= y && forall v: nat | IsNumber(f, v) && Finite(f, v) && Mag(f, v) as real <= y :: Mag(f, v) <= m
  }

  ghost predicate SmallestFrom(f: Format, y: real, m: nat)
    requires f.Valid()
  {
    y <= m as real && forall v: nat | IsNumber(f, v) && Finite(f, v) && y <= Mag(f, v) as real :: m <= Mag(f, v)
  }

  lemma TowardZero(f: Format, minus: bool, y: real, x: real, w: nat)
    requires f.Valid() && IsExact(f, minus, y, x) && IsNumber(f, w) && Finite(f, w) && Neg(f, w) == minus
    requires LargestTo(f, y, Mag(f, w))
    ensures if minus then LeastAbove(f, x, w) else GreatestBelow(f, x, w)
  {
    hide IsNumber;
    hide RealOf;
    hide Mag;
    hide Neg;
    hide IsExact;
    Against(f, minus, y, x, w);
    forall v: nat | IsNumber(f, v)
      ensures minus && x <= RealOf(f, v) ==> RealOf(f, w) <= RealOf(f, v)
      ensures !minus && RealOf(f, v) <= x ==> RealOf(f, v) <= RealOf(f, w)
    {
      Against(f, minus, y, x, v);
      Among(f, v, w);
      Among(f, w, v);
    }
  }

  lemma AwayFromZero(f: Format, minus: bool, y: real, x: real, w: nat)
    requires f.Valid() && IsExact(f, minus, y, x) && IsNumber(f, w) && Finite(f, w) && Neg(f, w) == minus
    requires SmallestFrom(f, y, Mag(f, w))
    ensures if minus then GreatestBelow(f, x, w) else LeastAbove(f, x, w)
  {
    assert y >= 0.0;
    hide IsNumber;
    hide RealOf;
    hide Mag;
    hide Neg;
    hide IsExact;
    Against(f, minus, y, x, w);
    forall v: nat | IsNumber(f, v)
      ensures minus && RealOf(f, v) <= x ==> RealOf(f, v) <= RealOf(f, w)
      ensures !minus && x <= RealOf(f, v) ==> RealOf(f, w) <= RealOf(f, v)
    {
      Against(f, minus, y, x, v);
      Among(f, v, w);
      Among(f, w, v);
    }
  }

  /** Beyond all numbers the result away from zero is infinite. */
  lemma Beyond(f: Format, minus: bool, y: real, x: real, w: nat)
    requires f.Valid() && IsExact(f, minus, y, x) && w == Infinity(f, minus) && !IsNumber(f, w)
    requires forall v: nat | IsNumber(f, v) && Finite(f, v) :: (Mag(f, v) as real) < y
    ensures if minus then GreatestBelow(f, x, w) else LeastAbove(f, x, w)
  {
    hide IsNumber;
    hide RealOf;
    hide Mag;
    hide Neg;
    hide IsExact;
    hide Infinity;
    forall v: nat | IsNumber(f, v)
      ensures if minus then x < RealOf(f, v) else RealOf(f, v) < x
    {
      Against(f, minus, y, x, v);
    }
  }

  // ----- where the rounded magnitude passes a power of two

  ghost predicate Reaching(rm: RoundingMode, minus: bool, y: real, lo: real, hi: real) {
    if Nearest(rm) then lo + hi <= 2.0 * y else if Away(rm, minus) then lo < y else hi <= y
  }

  lemma CrossingRule(rm: RoundingMode, minus: bool, y: real, n: nat, lo: nat, hi: nat)
    requires lo < hi && (hi as real <= y ==> hi <= n) && (y <= lo as real ==> n <= lo)
    requires lo as real <= y < hi as real ==> n == if GoesUp(rm, minus, y, lo, hi, true) then hi else lo
    ensures (Reaching(rm, minus, y, lo as real, hi as real) <==> hi <= n) && (n < hi ==> n <= lo)
  {
  }

  lemma OddCell(rm: RoundingMode, minus: bool, y: real, q: nat, g: nat, lo: nat, hi: nat)
    requires g > 0 && q % 2 == 1 && lo == q * g && hi == (q + 1) * g
    ensures lo < hi && (Cell(y, q, g) <==> lo as real <= y < hi as real)
    ensures GridRound(rm, minus, y, q, g) == if GoesUp(rm, minus, y, lo, hi, true) then hi else lo
  {
    hide GoesUp;
    Distribute(q, 1, g);
  }

  lemma Crossing(f: Format, rm: RoundingMode, minus: bool, y: real, n: nat, e: nat, lo: nat, hi: nat)
    requires f.Valid() && y >= 0.0 && Rounds(f, rm, minus, y, n)
    requires lo == (2 * Pow2(f.mantSize) - 1) * Pow2(e) && hi == 2 * Pow2(f.mantSize) * Pow2(e)
    ensures lo < hi && (Reaching(rm, minus, y, lo as real, hi as real) <==> hi <= n) && (n < hi ==> n <= lo)
  {
    hide *;
    var q := 2 * Pow2(f.mantSize) - 1;
    GridPoint(f, q, e);
    GridPoint(f, q + 1, e);
    OddCell(rm, minus, y, q, Pow2(e), lo, hi);
    RoundsBetween(f, rm, minus, y, n, lo);
    RoundsBetween(f, rm, minus, y, n, hi);
    if lo as real <= y < hi as real {
      LastOnGrid(f, q, e);
      GridRounds(f, rm, minus, y, q, e, n);
    }
    CrossingRule(rm, minus, y, n, lo, hi);
  }

  lemma LastOnGrid(f: Format, q: nat, e: nat)
    requires q == 2 * Pow2(f.mantSize) - 1
    ensures OnGrid(f, q, e)
  {
  }

  lemma LargestIs(f: Format)
    requires f.Valid()
    ensures Largest(f) == Scale(MaxMag(f) as real, UnitExp(f))
    ensures Pow(EMax(f) + 1) == Scale((2 * Pow2(f.mantSize) * Pow2(f.ExpMask() - 2)) as real, UnitExp(f))
  {
    var p, e := Pow2(f.mantSize), f.ExpMask() - 2;
    MaskIs(f);
    ScaleNat(2 * p - 1, e);
    Rescale((2 * p - 1) as real, e, UnitExp(f));
    ScaleNat(1, f.mantSize + 1 + e);
    Pow2Add(f.mantSize + 1, e);
    Rescale(1.0, f.mantSize + 1 + e, UnitExp(f));
    assert EMax(f) == f.Bias();
    assert Pow2(f.mantSize + 1) == 2 * p;
    hide *;
    UnitPow(EMax(f) + 1);
  }

  lemma UnitPow(e: int)
    ensures Pow(e) == Scale(1.0, e)
  {
    hide Pow;
  }

  lemma TimesMore(a: real, b: real, y: real, p: real)
    requires p > 0.0
    ensures a * p + b * p <= 2.0 * (y * p) <==> a + b <= 2.0 * y
  {
    TimesOrder(2.0 * y, a + b, p);
    assert (a + b) * p == a * p + b * p;
    assert (2.0 * y) * p == 2.0 * (y * p);
  }

  lemma ScaledMiddle(a: real, b: real, y: real, e: int)
    ensures Scale(a, e) + Scale(b, e) <= 2.0 * Scale(y, e) <==> a + b <= 2.0 * y
  {
    hide Pow;
    TimesMore(a, b, y, Pow(e));
  }

  lemma ReachesIs(f: Format, rm: RoundingMode, minus: bool, y: real, x: real, lo: real, hi: real)
    requires f.Valid() && IsExact(f, minus, y, x) && 0.0 <= lo && 0.0 < hi
    ensures Reaches(rm, x, Scale(lo, UnitExp(f)), Scale(hi, UnitExp(f))) <==> Reaching(rm, minus, y, lo, hi)
  {
    var u := UnitExp(f);
    hide UnitExp;
    hide Scale;
    ScaledMiddle(lo, hi, y, u);
    ScaleOrder(lo, y, u);
    ScaleOrder(y, hi, u);
    ScaleSign(y, u);
    ScaleSign(lo, u);
    ScaleSign(hi, u);
    ReachesCases(rm, minus, y, x, lo, hi, Scale(y, u), Scale(lo, u), Scale(hi, u));
  }

  lemma ReachesCases(rm: RoundingMode, minus: bool, y: real, x: real, lo: real, hi: real, sy: real, sl: real, sh: real)
    requires 0.0 <= y && 0.0 <= lo && 0.0 < hi && x == (if minus then -sy else sy)
    requires 0.0 <= sy && 0.0 <= sl && 0.0 < sh && (y > 0.0 <==> sy > 0.0)
    requires (sl + sh <= 2.0 * sy <==> lo + hi <= 2.0 * y) && (sl < sy <==> lo < y) && (sh <= sy <==> hi <= y)
    ensures Reaches(rm, x, sl, sh) <==> Reaching(rm, minus, y, lo, hi)
  {
  }

  lemma OverflowIs(f: Format, rm: RoundingMode, minus: bool, y: real, x: real, n: nat)
    requires f.Valid() && IsExact(f, minus, y, x) && Rounds(f, rm, minus, y, n)
    ensures n > MaxMag(f) <==> Reaches(rm, x, Largest(f), Pow(EMax(f) + 1))
  {
    assert y >= 0.0;
    var e := f.ExpMask() - 2;
    var lo, hi := MaxMag(f), 2 * Pow2(f.mantSize) * Pow2(e);
    assert lo == (2 * Pow2(f.mantSize) - 1) * Pow2(e);
    hide *;
    LargestIs(f);
    Crossing(f, rm, minus, y, n, e, lo, hi);
    ReachesIs(f, rm, minus, y, x, lo as real, hi as real);
  }

  lemma SmallestIs(f: Format)
    requires f.Valid()
    ensures Pow(1 - EMax(f)) == Scale(Pow2(f.mantSize) as real, UnitExp(f))
    ensures Pow(1 - EMax(f)) - Pow(0 - EMax(f) - f.mantSize) == Scale(Pow2(f.mantSize) as real - 0.5, UnitExp(f))
  {
    var p, u := Pow2(f.mantSize), UnitExp(f);
    assert EMax(f) == f.Bias() && u - 1 == 0 - EMax(f) - f.mantSize;
    ScaleNat(1, f.mantSize);
    Rescale(1.0, f.mantSize, u);
    hide *;
    UnitPow(1 - EMax(f));
    UnitPow(u - 1);
    ScaleStep(1.0, u - 1);
    HalfLess(p as real, u);
  }

  lemma HalfLess(x: real, u: int)
    ensures Scale(x - 0.5, u) == Scale(x, u) - Scale(1.0, u) / 2.0
  {
    hide Pow;
  }

  lemma TinyCrossing(f: Format, rm: RoundingMode, minus: bool, y: real)
    requires f.Valid() && y >= 0.0
    ensures Tiny(f, rm, minus, y)
       <==> !Reaching(rm, minus, 2.0 * y, (2 * Pow2(f.mantSize) - 1) as real, (2 * Pow2(f.mantSize)) as real)
  {
    assert Pow2(0) == 1;
    var lo, hi := 2 * Pow2(f.mantSize) - 1, 2 * Pow2(f.mantSize);
    var t := RoundsExactlyOne(f, rm, minus, 2.0 * y);
    TinyIs(f, rm, minus, y, 2.0 * y, t);
    hide *;
    assert Rounds(f, rm, minus, 2.0 * y, t);
    Crossing(f, rm, minus, 2.0 * y, t, 0, lo, hi);
  }

  lemma UnderflowIs(f: Format, rm: RoundingMode, minus: bool, y: real, x: real)
    requires f.Valid() && IsExact(f, minus, y, x)
    ensures Tiny(f, rm, minus, y)
       <==> !Reaches(rm, x, Pow(1 - EMax(f)) - Pow(0 - EMax(f) - f.mantSize), Pow(1 - EMax(f)))
  {
    assert y >= 0.0;
    var p := Pow2(f.mantSize) as real;
    assert p >= 1.0;
    hide *;
    SmallestIs(f);
    TinyCrossing(f, rm, minus, y);
    ReachesIs(f, rm, minus, y, x, p - 0.5, p);
    Halved(rm, minus, y, p);
  }

  lemma Halved(rm: RoundingMode, minus: bool, y: real, p: real)
    ensures Reaching(rm, minus, 2.0 * y, 2.0 * p - 1.0, 2.0 * p) <==> Reaching(rm, minus, y, p - 0.5, p)
  {
  }

  // ----- the delivered word

  lemma NumberMag(f: Format, v: nat)
    requires f.Valid() && IsNumber(f, v)
    ensures Finite(f, v) && Representable(f, Mag(f, v)) && Mag(f, v) <= MaxMag(f)
  {
    FieldsAre(f, v);
    MagIs(f, v);
    MagBound(f, v);
    CanonicalPoint(f, Mag(f, v), Sig(f, v), Exp1(f, v) - 1);
    hide *;
  }

  lemma LargestWord(f: Format, minus: bool)
    requires f.Valid()
    ensures var w := Pack(f, minus, f.ExpMask() - 1, Pow2(f.mantSize) - 1);
            IsNumber(f, w) && Finite(f, w) && Neg(f, w) == minus && Mag(f, w) == MaxMag(f)
  {
    var p := Pow2(f.mantSize);
    NormalWord(f, minus, f.ExpMask() - 1, p - 1);
    SmallMod(p - 1, p);
    FieldsAre(f, Pack(f, minus, f.ExpMask() - 1, p - 1));
    hide IsNumber;
    hide Pack;
  }

  lemma InfiniteWord(f: Format, minus: bool)
    requires f.Valid()
    ensures var w := Pack(f, minus, f.ExpMask(), 0);
            w == Infinity(f, minus) && !IsNumber(f, w) && IsWord(f, w) && Neg(f, w) == minus && !Finite(f, w)
  {
    PackFields(f, minus, f.ExpMask(), 0);
    FieldsAre(f, Pack(f, minus, f.ExpMask(), 0));
    assert f.FSize() - 1 == f.expSize + f.mantSize;
    SmallMod(0, Pow2(f.mantSize));
    hide IsNumber;
  }

  lemma DirectedDown(f: Format, rm: RoundingMode, minus: bool, y: real, x: real, n: nat, w: nat, raised: Flags)
    requires f.Valid() && IsExact(f, minus, y, x) && !Nearest(rm) && !Away(rm, minus)
    requires Rounds(f, rm, minus, y, n) && Delivers(f, rm, minus, y, n, w, raised)
    ensures IsNumber(f, w) && if minus then LeastAbove(f, x, w) else GreatestBelow(f, x, w)
  {
    LargestWord(f, minus);
    FieldsAre(f, w);
    assert Below(f, y, n);
    hide IsExact;
    hide IsNumber;
    hide Mag;
    hide MaxMag;
    hide Pack;
    hide Neg;
    hide Representable;
    hide LeastAbove;
    hide GreatestBelow;
    forall v: nat | IsNumber(f, v) && Finite(f, v) && Mag(f, v) as real <= y ensures Mag(f, v) <= Mag(f, w) {
      NumberMag(f, v);
    }
    TowardZero(f, minus, y, x, w);
  }

  lemma DirectedUp(f: Format, rm: RoundingMode, minus: bool, y: real, x: real, n: nat, w: nat, raised: Flags)
    requires f.Valid() && IsExact(f, minus, y, x) && Away(rm, minus)
    requires Rounds(f, rm, minus, y, n) && Delivers(f, rm, minus, y, n, w, raised)
    ensures if minus then GreatestBelow(f, x, w) else LeastAbove(f, x, w)
  {
    InfiniteWord(f, minus);
    FieldsAre(f, w);
    assert Above(f, y, n);
    hide IsExact;
    hide IsNumber;
    hide Mag;
    hide MaxMag;
    hide Pack;
    hide Neg;
    hide Infinity;
    hide Representable;
    hide LeastAbove;
    hide GreatestBelow;
    forall v: nat | IsNumber(f, v)
      ensures Finite(f, v) && Mag(f, v) <= MaxMag(f) && (y <= Mag(f, v) as real ==> n <= Mag(f, v))
    {
      NumberMag(f, v);
    }
    if n <= MaxMag(f) {
      AwayFromZero(f, minus, y, x, w);
    } else {
      Beyond(f, minus, y, x, w);
    }
  }

  // ----- rounding to the nearest number

  lemma EvenRem(w: nat, p: nat)
    requires p > 0 && p % 2 == 0
    ensures w % p % 2 == w % 2
  {
    var q, h, r := w / p, p / 2, w % p;
    DivMod(w, p);
    EvenParts(w, q, h, p, r);
  }

  lemma EvenParts(w: nat, q: nat, h: nat, p: nat, r: nat)
    requires w == q * p + r && p == 2 * h
    ensures r % 2 == w % 2
  {
    AssocNat(q, 2, h);
    AssocNat(2, q, h);
    ModTwo(q * h, r);
  }

  lemma ModTwo(m: nat, r: nat)
    ensures (2 * m + r) % 2 == r % 2
  {
  }

  lemma SigMant(f: Format, w: nat, p: nat)
    requires f.Valid() && p == Pow2(f.mantSize)
    ensures p > 0 && p % 2 == 0 && Sig(f, w) % 2 == w % p % 2
  {
    Pow2Even(f.mantSize + 1);
    hide Pow2;
    hide Exp;
  }

  lemma EvenSig(f: Format, w: nat)
    requires f.Valid() && Sig(f, w) % 2 == 0
    ensures w % 2 == 0
  {
    hide *;
    SigMant(f, w, Pow2(f.mantSize));
    EvenRem(w, Pow2(f.mantSize));
  }

  /** An even significand is an even word. */
  lemma EvenWord(f: Format, w: nat)
    requires f.Valid() && IsNumber(f, w) && Finite(f, w) && EvenSignificand(f, Mag(f, w))
    ensures w % 2 == 0
  {
    var c: nat, i: nat :| Canonical(f, Mag(f, w), c, i) && c % 2 == 0;
    hide *;
    MagIs(f, w);
    CanonicalUnique(f, Mag(f, w), c, i, Sig(f, w), Exp1(f, w) - 1);
    EvenSig(f, w);
  }

  lemma Distance(f: Format, minus: bool, y: real, x: real, v: nat)
    requires f.Valid() && IsExact(f, minus, y, x) && IsNumber(f, v)
    ensures Finite(f, v) && Absolute(RealOf(f, v)) == Scale(Mag(f, v) as real, UnitExp(f))
    ensures var s := if minus then -y else y;
            Absolute(RealOf(f, v) - x) == Scale(Absolute(Value(f, v) as real - s), UnitExp(f))
  {
    RealIs(f, v);
    FieldsAre(f, v);
    var m := Mag(f, v) as real;
    ValueIs(f, v, m);
    var a, s := Value(f, v) as real, if minus then -y else y;
    var u := UnitExp(f);
    ScaleMinus(y, u);
    assert x == Scale(s, u);
    hide *;
    ScaleApart(a, s, u);
    ScaleApart(a, 0.0, u);
    ScaleSign(0.0, u);
    AbsoluteOf(a, m);
    AbsoluteIs(RealOf(f, v));
    AbsoluteIs(a);
  }

  lemma AbsoluteIs(a: real)
    ensures Absolute(a - 0.0) == Absolute(a)
  {
  }

  lemma AbsoluteOf(a: real, m: real)
    requires m >= 0.0 && (a == m || a == -m)
    ensures Absolute(a) == m
  {
  }

  lemma ScaleApart(a: real, b: real, e: int)
    ensures Absolute(Scale(a, e) - Scale(b, e)) == Scale(Absolute(a - b), e)
  {
    var p := Pow(e);
    assert Scale(a, e) - Scale(b, e) == (a - b) * p;
    assert (-(a - b)) * p == -((a - b) * p);
    hide Pow;
    TimesOrder(a - b, 0.0, p);
  }

  lemma Apart(n: nat, k: nat, y: real, minus: bool, vw: real, vv: real, s: real)
    requires y >= 0.0 && s == (if minus then -y else y) && vw == (if minus then -(n as real) else n as real)
    requires (vv == k as real || vv == -(k as real)) && Dist(n, y) <= Dist(k, y) && (y == 0.0 ==> n == 0)
    ensures Absolute(vw - s) <= Absolute(vv - s)
    ensures vv != vw && Absolute(vw - s) == Absolute(vv - s) ==> k != n && Dist(n, y) == Dist(k, y)
  {
  }

  /** The rounded word against another number. */
  lemma Nearer(f: Format, rm: RoundingMode, minus: bool, y: real, x: real, w: nat, v: nat)
    requires f.Valid() && IsExact(f, minus, y, x) && IsNumber(f, w) && IsNumber(f, v) && Finite(f, w)
    requires Neg(f, w) == minus && Closest(f, rm, y, Mag(f, w)) && (y == 0.0 ==> Mag(f, w) == 0)
    ensures Absolute(RealOf(f, w) - x) <= Absolute(RealOf(f, v) - x)
    ensures RealOf(f, v) != RealOf(f, w) && Absolute(RealOf(f, w) - x) == Absolute(RealOf(f, v) - x) ==>
              if rm == RNE then w % 2 == 0 else Absolute(RealOf(f, v)) < Absolute(RealOf(f, w))
  {
    NumberMag(f, v);
    var n, k := Mag(f, w), Mag(f, v);
    assert Dist(n, y) <= Dist(k, y);
    assert k != n && Dist(n, y) == Dist(k, y) ==> if rm == RNE then EvenSignificand(f, n) else n > k;
    ValueIs(f, w, n as real);
    ValueIs(f, v, k as real);
    Distance(f, minus, y, x, w);
    Distance(f, minus, y, x, v);
    Among(f, v, w);
    assert y >= 0.0;
    var s := if minus then -y else y;
    var vw, vv := Value(f, w) as real, Value(f, v) as real;
    hide *;
    Apart(n, k, y, minus, vw, vv, s);
    ScaleOrder(Absolute(vv - s), Absolute(vw - s), UnitExp(f));
    ScaleOrder(k as real, n as real, UnitExp(f));
    if rm == RNE && EvenSignificand(f, n) {
      EvenWord(f, w);
    }
  }

  lemma ZeroIs(f: Format, rm: RoundingMode, minus: bool, n: nat)
    requires f.Valid() && Rounds(f, rm, minus, 0.0, n)
    ensures n == 0
  {
    assert Canonical(f, 0, 0, 0);
    RoundsBetween(f, rm, minus, 0.0, n, 0);
  }

  lemma NearestIs(f: Format, rm: RoundingMode, minus: bool, y: real, x: real, n: nat, w: nat, raised: Flags)
    requires f.Valid() && IsExact(f, minus, y, x) && Nearest(rm)
    requires Rounds(f, rm, minus, y, n) && Delivers(f, rm, minus, y, n, w, raised)
    ensures NearestTo(f, rm, x, w)
  {
    OverflowIs(f, rm, minus, y, x, n);
    InfiniteWord(f, minus);
    FieldsAre(f, w);
    assert Closest(f, rm, y, n);
    if y == 0.0 {
      ZeroIs(f, rm, minus, n);
    }
    hide Reaches;
    hide IsNumber;
    hide Mag;
    hide MaxMag;
    hide Pack;
    hide Neg;
    hide Rounds;
    hide Closest;
    hide Infinity;
    if n > MaxMag(f) {
      assert y != 0.0;
      ScaleSign(y, UnitExp(f));
    } else {
      hide IsExact;
      hide RealOf;
      hide Absolute;
      forall v: nat | IsNumber(f, v)
        ensures Absolute(RealOf(f, w) - x) <= Absolute(RealOf(f, v) - x)
        ensures RealOf(f, v) != RealOf(f, w) && Absolute(RealOf(f, w) - x) == Absolute(RealOf(f, v) - x) ==>
                  if rm == RNE then w % 2 == 0 else Absolute(RealOf(f, v)) < Absolute(RealOf(f, w))
      {
        Nearer(f, rm, minus, y, x, w, v);
      }
    }
  }

  // ----- the flags

  lemma ExactIs(f: Format, rm: RoundingMode, minus: bool, y: real, x: real, n: nat, w: nat, raised: Flags)
    requires f.Valid() && IsExact(f, minus, y, x)
    requires Rounds(f, rm, minus, y, n) && Delivers(f, rm, minus, y, n, w, raised)
    ensures IsNumber(f, w) && RealOf(f, w) == x <==> n <= MaxMag(f) && n as real == y
  {
    FieldsAre(f, w);
    LargestWord(f, minus);
    InfiniteWord(f, minus);
    assert Representable(f, MaxMag(f)) by { NumberMag(f, Pack(f, minus, f.ExpMask() - 1, Pow2(f.mantSize) - 1)); }
    RoundsBetween(f, rm, minus, y, n, MaxMag(f));
    if IsNumber(f, w) {
      Against(f, minus, y, x, w);
      ValueIs(f, w, Mag(f, w) as real);
    }
    hide IsExact;
    hide RealOf;
    hide IsNumber;
    hide Mag;
    hide MaxMag;
    hide Pack;
    hide Neg;
    hide Rounds;
    hide Infinity;
    hide Value;
  }

  lemma FlagsAre(f: Format, rm: RoundingMode, minus: bool, y: real, x: real, n: nat, w: nat, raised: Flags)
    requires f.Valid() && IsExact(f, minus, y, x)
    requires Rounds(f, rm, minus, y, n) && Delivers(f, rm, minus, y, n, w, raised)
    ensures Flagged(f, rm, x, w, raised)
  {
    ExactIs(f, rm, minus, y, x, n, w, raised);
    OverflowIs(f, rm, minus, y, x, n);
    UnderflowIs(f, rm, minus, y, x);
    if n > MaxMag(f) {
      OverflowNotTiny(f, rm, minus, y, n);
    }
    hide IsNumber;
    hide RealOf;
    hide Reaches;
    hide Rounds;
    hide Tiny;
    hide MaxMag;
    hide Largest;
    hide Pow;
    hide IsExact;
    hide Mag;
    hide Neg;
    hide OverflowWord;
  }

  lemma OverflowNotTiny(f: Format, rm: RoundingMode, minus: bool, y: real, n: nat)
    requires f.Valid() && Rounds(f, rm, minus, y, n) && n > MaxMag(f)
    ensures !Tiny(f, rm, minus, y)
  {
    var p := Pow2(f.mantSize);
    assert MaxMag(f) >= p by { MulMonoRight(2 * p - 1, 1, Pow2(f.ExpMask() - 2)); }
    Powers2(f, 0);
    hide *;
    RoundsBetween(f, rm, minus, y, n, p);
    NotTiny(f, rm, minus, y);
  }

  lemma SignIs(f: Format, rm: RoundingMode, minus: bool, y: real, n: nat, w: nat, raised: Flags)
    requires f.Valid() && Delivers(f, rm, minus, y, n, w, raised)
    ensures w < Pow2(1 + f.expSize + f.mantSize) && Minus(f, w) == minus
  {
    FieldsAre(f, w);
    LargestWord(f, minus);
    InfiniteWord(f, minus);
    hide Pack;
    hide Neg;
    hide Minus;
    hide Mag;
    hide Tiny;
  }

  /** A result that is exactly zero. */
  lemma ZeroBoth(f: Format, w: nat)
    requires f.Valid() && IsNumber(f, w) && RealOf(f, w) == 0.0
    ensures GreatestBelow(f, 0.0, w) && LeastAbove(f, 0.0, w)
  {
    hide RealOf;
    hide IsNumber;
  }

  lemma ModeIs(f: Format, rm: RoundingMode, minus: bool, y: real, x: real, n: nat, w: nat, raised: Flags)
    requires f.Valid() && IsExact(f, minus, y, x)
    requires Rounds(f, rm, minus, y, n) && Delivers(f, rm, minus, y, n, w, raised)
    ensures RoundsTo(f, rm, x, w)
  {
    ScaleSign(y, UnitExp(f));
    assert x >= 0.0 <==> !minus || x == 0.0;
    if x == 0.0 {
      assert y == 0.0;
      ZeroIs(f, rm, minus, n);
      ExactIs(f, rm, minus, y, x, n, w, raised);
      ZeroBoth(f, w);
    }
    hide IsExact;
    hide GreatestBelow;
    hide LeastAbove;
    hide NearestTo;
    hide Rounds;
    hide Delivers;
    if Nearest(rm) {
      NearestIs(f, rm, minus, y, x, n, w, raised);
    } else if Away(rm, minus) {
      DirectedUp(f, rm, minus, y, x, n, w, raised);
    } else {
      DirectedDown(f, rm, minus, y, x, n, w, raised);
    }
  }

  /** A magnitude rounded once is a correct result on the signed axis. */
  lemma RoundedIsCorrect(f: Format, rm: RoundingMode, minus: bool, y: real, x: real, w: nat, raised: Flags)
    requires f.Valid() && IsExact(f, minus, y, x) && Rounded(f, rm, minus, y, w, raised)
    ensures Correct(f, rm, minus, x, w, raised)
  {
    var n: nat :| Rounds(f, rm, minus, y, n) && Delivers(f, rm, minus, y, n, w, raised);
    hide *;
    FlagsAre(f, rm, minus, y, x, n, w, raised);
    SignIs(f, rm, minus, y, n, w, raised);
    ModeIs(f, rm, minus, y, x, n, w, raised);
    assert Correct(f, rm, minus, x, w, raised) by { Assembled(f, rm, minus, x, w, raised); }
  }

  lemma Assembled(f: Format, rm: RoundingMode, minus: bool, x: real, w: nat, raised: Flags)
    requires f.Valid() && w < Pow2(1 + f.expSize + f.mantSize) && Minus(f, w) == minus
    requires RoundsTo(f, rm, x, w) && Flagged(f, rm, x, w, raised)
    ensures Correct(f, rm, minus, x, w, raised)
  {
    hide RoundsTo;
    hide Flagged;
  }

  // ----- a correct result is unique

  lemma WordAsBody(f: Format, w: nat)
    requires f.Valid() && IsWord(f, w)
    ensures w == Body(f, w) + if Minus(f, w) then Pow2(f.expSize + f.mantSize) else 0
    ensures Body(f, w) < Pow2(f.expSize + f.mantSize)
  {
    var d := Pow2(f.expSize + f.mantSize);
    assert f.FSize() - 1 == f.expSize + f.mantSize && Pow2(f.FSize()) == 2 * d;
    assert Body(f, w) == w % d;
    hide Pow2;
    if w < d {
      SmallMod(w, d);
    } else {
      DivRem(1, w - d, d);
    }
  }

  lemma NextWord(f: Format, v: nat, w: nat)
    requires f.Valid() && IsWord(f, v) && IsWord(f, w) && Minus(f, v) == Minus(f, w) && v + 1 < w
    ensures IsWord(f, v + 1) && Minus(f, v + 1) == Minus(f, v)
    ensures Body(f, v) < Body(f, v + 1) < Body(f, w)
  {
    WordAsBody(f, v);
    WordAsBody(f, w);
    WordAsBody(f, v + 1);
    hide Body;
    hide Pow2;
  }

  /** Between two even words of one sign there is another number. */
  lemma MagBetween(f: Format, v: nat, w: nat)
    requires f.Valid() && IsNumber(f, v) && IsNumber(f, w) && Finite(f, v) && Finite(f, w)
    requires Minus(f, v) == Minus(f, w) && Mag(f, v) < Mag(f, w) && v % 2 == 0 && w % 2 == 0
    ensures IsNumber(f, v + 1) && Finite(f, v + 1) && Minus(f, v + 1) == Minus(f, v)
    ensures Mag(f, v) < Mag(f, v + 1) < Mag(f, w)
  {
    hide *;
    FieldsAre(f, v);
    FieldsAre(f, w);
    if Body(f, w) <= Body(f, v) {
      MagOrder(f, v, w);
    }
    WordAsBody(f, v);
    WordAsBody(f, w);
    assert v + 1 < w;
    NextWord(f, v, w);
    BelowFinite(f, v + 1, w);
    FieldsAre(f, v + 1);
    MagOrder(f, v + 1, v);
    MagOrder(f, w, v + 1);
    if Mag(f, v) == Mag(f, v + 1) {
      MagInjective(f, v, v + 1);
    }
    if Mag(f, w) == Mag(f, v + 1) {
      MagInjective(f, w, v + 1);
    }
  }

  lemma BelowFinite(f: Format, v: nat, w: nat)
    requires f.Valid() && IsWord(f, v) && IsWord(f, w) && Finite(f, w) && Body(f, v) <= Body(f, w)
    ensures Finite(f, v)
  {
    BodyOrder(f, w, v);
    PackOfFields(f, w);
    hide Exp;
    hide Mant;
    hide Body;
  }

  lemma RealBetween(f: Format, v: nat, w: nat) returns (u: nat)
    requires f.Valid() && IsNumber(f, v) && IsNumber(f, w) && Minus(f, v) == Minus(f, w)
    requires RealOf(f, v) < RealOf(f, w) && v % 2 == 0 && w % 2 == 0
    ensures IsNumber(f, u) && RealOf(f, v) < RealOf(f, u) < RealOf(f, w)
  {
    hide *;
    FieldsAre(f, v);
    FieldsAre(f, w);
    ValueIs(f, v, Mag(f, v) as real);
    ValueIs(f, w, Mag(f, w) as real);
    Among(f, w, v);
    if Minus(f, v) {
      MagBetween(f, w, v);
      u := w + 1;
    } else {
      MagBetween(f, v, w);
      u := v + 1;
    }
    FieldsAre(f, u);
    ValueIs(f, u, Mag(f, u) as real);
    Among(f, u, v);
    Among(f, w, u);
  }

  lemma SameReal(f: Format, v: nat, w: nat)
    requires f.Valid() && IsNumber(f, v) && IsNumber(f, w) && Minus(f, v) == Minus(f, w) && RealOf(f, v) == RealOf(f, w)
    ensures v == w
  {
    hide *;
    FieldsAre(f, v);
    FieldsAre(f, w);
    ValueIs(f, v, Mag(f, v) as real);
    ValueIs(f, w, Mag(f, w) as real);
    Among(f, v, w);
    MagInjective(f, v, w);
  }

  lemma NearestUnique(f: Format, rm: RoundingMode, x: real, v: nat, w: nat)
    requires f.Valid() && (rm == RNE || rm == RMM) && Minus(f, v) == Minus(f, w)
    requires NearestTo(f, rm, x, v) && NearestTo(f, rm, x, w)
    ensures v == w
  {
    hide RealOf;
    hide IsNumber;
    hide Reaches;
    hide Minus;
    if !Reaches(rm, x, Largest(f), Pow(EMax(f) + 1)) {
      if RealOf(f, v) == RealOf(f, w) {
        SameReal(f, v, w);
      } else if rm == RNE {
        var a, b := if RealOf(f, v) < RealOf(f, w) then v else w, if RealOf(f, v) < RealOf(f, w) then w else v;
        var u := RealBetween(f, a, b);
      }
    }
  }

  lemma DirectedUnique(f: Format, x: real, v: nat, w: nat)
    requires f.Valid() && Minus(f, v) == Minus(f, w)
    requires (GreatestBelow(f, x, v) && GreatestBelow(f, x, w)) || (LeastAbove(f, x, v) && LeastAbove(f, x, w))
    ensures v == w
  {
    hide RealOf;
    hide IsNumber;
    hide Minus;
    hide Infinity;
    if IsNumber(f, v) && IsNumber(f, w) {
      SameReal(f, v, w);
    }
  }

  /** The exact result, its sign and the rounding mode leave no choice of word or flags. */
  lemma CorrectUnique(f: Format, rm: RoundingMode, minus: bool, x: real, v: nat, vf: Flags, w: nat, wf: Flags)
    requires f.Valid() && Correct(f, rm, minus, x, v, vf) && Correct(f, rm, minus, x, w, wf)
    ensures v == w && vf == wf
  {
    hide GreatestBelow;
    hide LeastAbove;
    hide NearestTo;
    hide Minus;
    hide RealOf;
    hide IsNumber;
    hide Reaches;
    if rm == RNE || rm == RMM {
      NearestUnique(f, rm, x, v, w);
    } else {
      DirectedUnique(f, x, v, w);
    }
  }

  /** The two descriptions of a correctly rounded result agree: of the rounded
      magnitude, and on the signed axis. */
  lemma RoundedIffCorrect(f: Format, rm: RoundingMode, minus: bool, y: real, x: real, w: nat, raised: Flags,
                          v: nat, vf: Flags)
    requires f.Valid() && IsExact(f, minus, y, x) && Rounded(f, rm, minus, y, v, vf)
    ensures Rounded(f, rm, minus, y, w, raised) <==> Correct(f, rm, minus, x, w, raised)
  {
    hide *;
    RoundedIsCorrect(f, rm, minus, y, x, v, vf);
    if Correct(f, rm, minus, x, w, raised) {
      CorrectUnique(f, rm, minus, x, v, vf, w, raised);
    }
    if Rounded(f, rm, minus, y, w, raised) {
      RoundedIsCorrect(f, rm, minus, y, x, w, raised);
    }
  }
}
