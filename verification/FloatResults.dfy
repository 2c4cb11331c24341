/** What each operation delivers, on the signed real axis and by the fields of the
    words: the exact result rounded once, and the special results with their flags. */
module FloatResults {
  import opened Powers
  import opened FloatSpec
  import opened FloatUnpack
  import opened FloatAdd
  import opened FloatMul
  import opened FloatDiv
  import opened FloatSqrt
  import opened FloatFma
  import opened FloatIeee

  // ----- special words

  /** The result is the default NaN. */
  predicate GivesNaN(f: Format, invalid: bool, w: nat, raised: Flags)
    requires f.Valid()
  {
    w == DefaultNaN(f) && if invalid then OnlyInvalid(raised) else Quiet(raised)
  }

  predicate ZeroWord(f: Format, w: nat) {
    Exponent(f, w) == 0 && Trailing(f, w) == 0
  }

  /** The default NaN is a quiet NaN with a plus sign. */
  lemma DefaultNaNIs(f: Format)
    requires f.Valid()
    ensures var w := DefaultNaN(f);
            && w < Pow2(1 + f.expSize + f.mantSize) && NotNumber(f, w) && !Signals(f, w) && !Minus(f, w)
            && Trailing(f, w) == Pow2(f.mantSize - 1)
    ensures DefaultNaN(f) == QNaN(f)
  {
    var h := Pow2(f.mantSize - 1);
    assert Pow2(f.mantSize) == 2 * h;
    PackFields(f, false, f.ExpMask(), h);
    SmallMod(h, 2 * h);
    FieldsAre(f, DefaultNaN(f));
    hide Pow2;
    hide Exp;
    hide Mant;
    hide Neg;
    hide Exponent;
    hide Trailing;
    hide Minus;
  }

  /** The default NaN and the infinities of the two common formats. */
  lemma StandardWords()
    ensures SF32.Valid() && DefaultNaN(SF32) == 0x7fc0_0000
    ensures Infinity(SF32, false) == 0x7f80_0000 && Infinity(SF32, true) == 0xff80_0000
    ensures SF64.Valid() && DefaultNaN(SF64) == 0x7ff8_0000_0000_0000
    ensures Infinity(SF64, false) == 0x7ff0_0000_0000_0000 && Infinity(SF64, true) == 0xfff0_0000_0000_0000
  {
    PowerTable();
    hide Pow2;
  }

  /** The number 1 has the bias in its exponent field and no other bit. */
  lemma OneIs(f: Format)
    requires f.Valid()
    ensures RealOf(f, EMax(f) * Pow2(f.mantSize)) == 1.0
  {
    var w := EMax(f) * Pow2(f.mantSize);
    MaskIs(f);
    assert EMax(f) == f.Bias() && f.Bias() > 0;
    PackFields(f, false, f.Bias(), 0);
    SmallMod(0, Pow2(f.mantSize));
    assert w == Pack(f, false, f.Bias(), 0);
    FieldsAre(f, w);
    ScaleNat(1, f.mantSize);
    Rescale(1.0, f.mantSize, 0 - f.mantSize);
    ScaleZero(1.0);
    hide Pow2;
    hide Scale;
    hide Pack;
    hide Exp;
    hide Mant;
    hide Neg;
    hide Exponent;
    hide Trailing;
    hide Minus;
  }

  lemma SignalsIs(f: Format, w: nat)
    requires f.Valid()
    ensures Signals(f, w) == IsSignalling(f, w)
  {
    FieldsAre(f, w);
    assert Pow2(f.mantSize) == 2 * Pow2(f.mantSize - 1);
    hide Pow2;
    hide Exp;
    hide Mant;
    hide Exponent;
    hide Trailing;
  }

  lemma InfinityIs(f: Format, w: nat, minus: bool)
    requires f.Valid() && IsWord(f, w)
    ensures Infinite(f, w) ==> w == Infinity(f, Minus(f, w))
    ensures Pack(f, minus, f.ExpMask(), 0) == Infinity(f, minus) && Pack(f, minus, 0, 0) == Signed0(f, minus)
  {
    FieldsAre(f, w);
    InfiniteWord(f, false);
    InfiniteWord(f, true);
    PackOfFields(f, w);
    SmallMod(0, Pow2(f.mantSize));
    assert f.FSize() - 1 == f.expSize + f.mantSize;
    hide Exp;
    hide Mant;
    hide Neg;
    hide Minus;
    hide Infinity;
  }

  // ----- sums and differences

  /** The sign of a sum: its own; of a vanishing sum that of the operands when they
      agree, else minus in RDN only. */
  ghost predicate SumMinus(rm: RoundingMode, x: real, aMinus: bool, bMinus: bool) {
    if x != 0.0 then x < 0.0 else if aMinus == bMinus then aMinus else rm == RDN
  }

  ghost predicate SumOf(f: Format, rm: RoundingMode, a: nat, b: nat, w: nat, raised: Flags)
    requires f.Valid()
  {
    if NotNumber(f, a) || NotNumber(f, b) then GivesNaN(f, Signals(f, a) || Signals(f, b), w, raised)
    else if Infinite(f, a) && Infinite(f, b) && Minus(f, a) != Minus(f, b) then GivesNaN(f, true, w, raised)
    else if Infinite(f, a) then w == Infinity(f, Minus(f, a)) && Quiet(raised)
    else if Infinite(f, b) then w == Infinity(f, Minus(f, b)) && Quiet(raised)
    else
      var x := RealOf(f, a) + RealOf(f, b);
      Correct(f, rm, SumMinus(rm, x, Minus(f, a), Minus(f, b)), x, w, raised)
  }

  ghost predicate DifferenceOf(f: Format, rm: RoundingMode, a: nat, b: nat, w: nat, raised: Flags)
    requires f.Valid()
  {
    if NotNumber(f, a) || NotNumber(f, b) then GivesNaN(f, Signals(f, a) || Signals(f, b), w, raised)
    else if Infinite(f, a) && Infinite(f, b) && Minus(f, a) == Minus(f, b) then GivesNaN(f, true, w, raised)
    else if Infinite(f, a) then w == Infinity(f, Minus(f, a)) && Quiet(raised)
    else if Infinite(f, b) then w == Infinity(f, !Minus(f, b)) && Quiet(raised)
    else
      var x := RealOf(f, a) - RealOf(f, b);
      Correct(f, rm, SumMinus(rm, x, Minus(f, a), !Minus(f, b)), x, w, raised)
  }

  /** The exact sum of two numbers, in the unit. */
  lemma ExactSum(f: Format, rm: RoundingMode, a: nat, b: nat, aMinus: bool, bMinus: bool)
    requires f.Valid() && IsNumber(f, a) && IsNumber(f, b)
    ensures Finite(f, a) && Finite(f, b)
    ensures var s, x := Value(f, a) + Value(f, b), RealOf(f, a) + RealOf(f, b);
            IsExact(f, SumNeg(rm, s, aMinus, bMinus), Abs(s) as real, x)
            && SumNeg(rm, s, aMinus, bMinus) == SumMinus(rm, x, aMinus, bMinus)
  {
    RealIs(f, a);
    RealIs(f, b);
    var s, u := Value(f, a) + Value(f, b), UnitExp(f);
    ScaleSum(Value(f, a) as real, Value(f, b) as real, u);
    assert s as real == Value(f, a) as real + Value(f, b) as real;
    ScaleMinus(Abs(s) as real, u);
    ScaleSign(s as real, u);
    ScaleSign(Abs(s) as real, u);
    hide Value;
    hide RealOf;
    hide Scale;
    hide UnitExp;
  }

  /** An operand, in both vocabularies. */
  lemma OperandIs(f: Format, w: nat)
    requires f.Valid() && IsWord(f, w)
    ensures IsNumber(f, w) == Finite(f, w) && Infinite(f, w) == IsInf(f, w) && NotNumber(f, w) == IsNaN(f, w)
    ensures Minus(f, w) == Neg(f, w) && Signals(f, w) == IsSignalling(f, w)
    ensures ZeroWord(f, w) == (Exp(f, w) == 0 && Mant(f, w) == 0)
    ensures Infinite(f, w) ==> w == Infinity(f, Minus(f, w))
  {
    FieldsAre(f, w);
    SignalsIs(f, w);
    InfinityIs(f, w, false);
    hide Exp;
    hide Mant;
    hide Exponent;
    hide Trailing;
    hide Minus;
    hide Neg;
    hide Infinity;
  }

  lemma AddSpecial(f: Format, rm: RoundingMode, a: nat, b: nat, w: nat, raised: Flags)
    requires f.Valid() && IsWord(f, a) && IsWord(f, b) && IsSum(f, rm, a, b, w, raised)
    requires !IsNumber(f, a) || !IsNumber(f, b)
    ensures SumOf(f, rm, a, b, w, raised)
  {
    OperandIs(f, a);
    OperandIs(f, b);
    DefaultNaNIs(f);
    hide IsNumber;
    hide NotNumber;
    hide Infinite;
    hide Infinity;
    hide DefaultNaN;
    hide QNaN;
    hide Signals;
    hide IsSignalling;
    hide Minus;
    hide Neg;
    hide Exp;
    hide Mant;
    hide Rounded;
    hide Correct;
  }

  lemma SumRounded(f: Format, rm: RoundingMode, a: nat, b: nat, w: nat, raised: Flags)
    requires f.Valid() && Finite(f, a) && Finite(f, b) && IsSum(f, rm, a, b, w, raised)
    ensures var s := Value(f, a) + Value(f, b);
            Rounded(f, rm, SumNeg(rm, s, Neg(f, a), Neg(f, b)), Abs(s) as real, w, raised)
  {
    hide Rounded;
    hide Exp;
    hide Mant;
    hide Value;
    hide SumNeg;
    hide Abs;
  }

  lemma SumCorrect(f: Format, rm: RoundingMode, a: nat, b: nat, x: real, w: nat, raised: Flags)
    requires f.Valid() && IsNumber(f, a) && IsNumber(f, b) && x == RealOf(f, a) + RealOf(f, b)
    requires Correct(f, rm, SumMinus(rm, x, Minus(f, a), Minus(f, b)), x, w, raised)
    ensures SumOf(f, rm, a, b, w, raised)
  {
    hide Correct;
    hide Exponent;
    hide RealOf;
    hide SumMinus;
  }

  lemma AddNumbers(f: Format, rm: RoundingMode, a: nat, b: nat, w: nat, raised: Flags)
    requires f.Valid() && IsWord(f, a) && IsWord(f, b) && IsSum(f, rm, a, b, w, raised)
    requires IsNumber(f, a) && IsNumber(f, b)
    ensures SumOf(f, rm, a, b, w, raised)
  {
    hide *;
    OperandIs(f, a);
    OperandIs(f, b);
    var s, x := Value(f, a) + Value(f, b), RealOf(f, a) + RealOf(f, b);
    SumRounded(f, rm, a, b, w, raised);
    ExactSum(f, rm, a, b, Neg(f, a), Neg(f, b));
    RoundedIsCorrect(f, rm, SumNeg(rm, s, Neg(f, a), Neg(f, b)), Abs(s) as real, x, w, raised);
    SumCorrect(f, rm, a, b, x, w, raised);
  }

  /** What `add_sf` delivers. */
  lemma AddDelivers(f: Format, rm: RoundingMode, a: nat, b: nat, w: nat, raised: Flags)
    requires f.Valid() && IsWord(f, a) && IsWord(f, b) && IsSum(f, rm, a, b, w, raised)
    ensures SumOf(f, rm, a, b, w, raised)
  {
    hide *;
    if IsNumber(f, a) && IsNumber(f, b) {
      AddNumbers(f, rm, a, b, w, raised);
    } else {
      AddSpecial(f, rm, a, b, w, raised);
    }
  }

  lemma FlippedIs(f: Format, b: nat)
    requires f.Valid() && IsWord(f, b)
    ensures var c := FlipSign(f, b);
            && IsWord(f, c) && Minus(f, c) == !Minus(f, b) && NotNumber(f, c) == NotNumber(f, b)
            && Infinite(f, c) == Infinite(f, b) && Signals(f, c) == Signals(f, b) && IsNumber(f, c) == IsNumber(f, b)
            && RealOf(f, c) == -RealOf(f, b)
  {
    var c := FlipSign(f, b);
    Flipped(f, b);
    FieldsAre(f, b);
    FieldsAre(f, c);
    hide FlipSign;
    hide Exp;
    hide Mant;
    hide Exponent;
    hide Trailing;
    hide Minus;
    hide Neg;
    hide Scale;
    hide Pow2;
  }

  /** What `sub_sf` delivers. */
  lemma SubDelivers(f: Format, rm: RoundingMode, a: nat, b: nat, w: nat, raised: Flags)
    requires f.Valid() && IsWord(f, a) && IsWord(f, b)
    requires IsWord(f, FlipSign(f, b)) && IsSum(f, rm, a, FlipSign(f, b), w, raised)
    ensures DifferenceOf(f, rm, a, b, w, raised)
  {
    FlippedIs(f, b);
    AddDelivers(f, rm, a, FlipSign(f, b), w, raised);
    hide FlipSign;
    hide IsSum;
    hide NotNumber;
    hide Infinite;
    hide Infinity;
    hide GivesNaN;
    hide Signals;
    hide Minus;
    hide RealOf;
    hide SumMinus;
    hide Correct;
    hide Quiet;
  }

  // ----- products and quotients

  ghost function Times(x: real, y: real): real {
    x * y
  }

  ghost predicate ProductOf(f: Format, rm: RoundingMode, a: nat, b: nat, w: nat, raised: Flags)
    requires f.Valid()
  {
    var minus := Minus(f, a) != Minus(f, b);
    if NotNumber(f, a) || NotNumber(f, b) then GivesNaN(f, Signals(f, a) || Signals(f, b), w, raised)
    else if (Infinite(f, a) && ZeroWord(f, b)) || (ZeroWord(f, a) && Infinite(f, b)) then GivesNaN(f, true, w, raised)
    else if Infinite(f, a) || Infinite(f, b) then w == Infinity(f, minus) && Quiet(raised)
    else Correct(f, rm, minus, Times(RealOf(f, a), RealOf(f, b)), w, raised)
  }

  /** `RealOf` by sign and magnitude. */
  lemma RealMagnitude(f: Format, w: nat)
    requires f.Valid() && IsNumber(f, w)
    ensures Finite(f, w)
    ensures RealOf(f, w) == var x := Scale(Mag(f, w) as real, UnitExp(f)); if Minus(f, w) then -x else x
  {
    RealIs(f, w);
    FieldsAre(f, w);
    ValueIs(f, w, Mag(f, w) as real);
    ScaleMinus(Mag(f, w) as real, UnitExp(f));
    hide *;
  }

  lemma SignedProduct(x: real, y: real, p: bool, q: bool)
    ensures Times(if p then -x else x, if q then -y else y) == if p != q then -(x * y) else x * y
  {
    assert (-x) * (-y) == x * y && (-x) * y == -(x * y) && x * (-y) == -(x * y);
  }

  lemma ProductScaled(f: Format, m: nat, n: nat, k: nat)
    requires f.Valid() && k == m * n
    ensures var u := UnitExp(f);
            && ExactProduct(f, m, n) == Scale(k as real, u) >= 0.0
            && Scale(m as real, u) * Scale(n as real, u) == Scale(Scale(k as real, u), u)
  {
    var u := UnitExp(f);
    assert ExactProduct(f, m, n) == Scale(k as real, u);
    RealProduct(m, n, k);
    hide *;
    ScaleTimesIs(m as real, u, n as real, u, k as real, u + u);
    Rescale(k as real, u, u);
    ScaleSign(k as real, u);
  }

  lemma RealProduct(m: nat, n: nat, k: nat)
    requires k == m * n
    ensures m as real * n as real == k as real
  {
  }

  lemma ExactTimes(f: Format, a: nat, b: nat)
    requires f.Valid() && IsNumber(f, a) && IsNumber(f, b)
    ensures Finite(f, a) && Finite(f, b)
    ensures IsExact(f, Minus(f, a) != Minus(f, b), ExactProduct(f, Mag(f, a), Mag(f, b)),
                    Times(RealOf(f, a), RealOf(f, b)))
  {
    hide *;
    RealMagnitude(f, a);
    RealMagnitude(f, b);
    var x, y := Scale(Mag(f, a) as real, UnitExp(f)), Scale(Mag(f, b) as real, UnitExp(f));
    ProductScaled(f, Mag(f, a), Mag(f, b), Mag(f, a) * Mag(f, b));
    SignedProduct(x, y, Minus(f, a), Minus(f, b));
    ExactIsAt(f, Minus(f, a) != Minus(f, b), ExactProduct(f, Mag(f, a), Mag(f, b)), Times(RealOf(f, a), RealOf(f, b)));
  }

  lemma ExactIsAt(f: Format, minus: bool, y: real, x: real)
    requires f.Valid() && y >= 0.0 && x == var z := Scale(y, UnitExp(f)); if minus then -z else z
    ensures IsExact(f, minus, y, x)
  {
  }

  lemma MulSpecial(f: Format, rm: RoundingMode, a: nat, b: nat, w: nat, raised: Flags)
    requires f.Valid() && IsWord(f, a) && IsWord(f, b) && IsProduct(f, rm, a, b, w, raised)
    requires !IsNumber(f, a) || !IsNumber(f, b)
    ensures ProductOf(f, rm, a, b, w, raised)
  {
    OperandIs(f, a);
    OperandIs(f, b);
    DefaultNaNIs(f);
    InfinityIs(f, a, Minus(f, a) != Minus(f, b));
    hide IsNumber;
    hide NotNumber;
    hide Infinite;
    hide Infinity;
    hide DefaultNaN;
    hide QNaN;
    hide Signals;
    hide IsSignalling;
    hide ZeroWord;
    hide Minus;
    hide Neg;
    hide Exp;
    hide Mant;
    hide Rounded;
    hide Correct;
  }

  lemma ProductRounded(f: Format, rm: RoundingMode, a: nat, b: nat, w: nat, raised: Flags)
    requires f.Valid() && Finite(f, a) && Finite(f, b) && IsProduct(f, rm, a, b, w, raised)
    ensures Rounded(f, rm, Neg(f, a) != Neg(f, b), ExactProduct(f, Mag(f, a), Mag(f, b)), w, raised)
  {
    hide Rounded;
    hide Exp;
    hide Mant;
    hide Mag;
    hide Neg;
    hide ExactProduct;
  }

  lemma ProductCorrect(f: Format, rm: RoundingMode, a: nat, b: nat, x: real, w: nat, raised: Flags)
    requires f.Valid() && IsNumber(f, a) && IsNumber(f, b) && x == Times(RealOf(f, a), RealOf(f, b))
    requires Correct(f, rm, Minus(f, a) != Minus(f, b), x, w, raised)
    ensures ProductOf(f, rm, a, b, w, raised)
  {
    hide Times;
    hide Correct;
    hide Exponent;
    hide Minus;
    hide RealOf;
    hide ZeroWord;
    hide GivesNaN;
    hide Signals;
    assert !NotNumber(f, a) && !NotNumber(f, b) && !Infinite(f, a) && !Infinite(f, b);
    hide NotNumber;
    hide Infinite;
  }

  lemma MulNumbers(f: Format, rm: RoundingMode, a: nat, b: nat, w: nat, raised: Flags)
    requires f.Valid() && IsWord(f, a) && IsWord(f, b) && IsProduct(f, rm, a, b, w, raised)
    requires IsNumber(f, a) && IsNumber(f, b)
    ensures ProductOf(f, rm, a, b, w, raised)
  {
    hide *;
    OperandIs(f, a);
    OperandIs(f, b);
    ProductRounded(f, rm, a, b, w, raised);
    ExactTimes(f, a, b);
    var y, x := ExactProduct(f, Mag(f, a), Mag(f, b)), Times(RealOf(f, a), RealOf(f, b));
    RoundedIsCorrect(f, rm, Neg(f, a) != Neg(f, b), y, x, w, raised);
    ProductCorrect(f, rm, a, b, x, w, raised);
  }

  /** What `mul_sf` delivers. */
  lemma MulDelivers(f: Format, rm: RoundingMode, a: nat, b: nat, w: nat, raised: Flags)
    requires f.Valid() && IsWord(f, a) && IsWord(f, b) && IsProduct(f, rm, a, b, w, raised)
    ensures ProductOf(f, rm, a, b, w, raised)
  {
    hide *;
    if IsNumber(f, a) && IsNumber(f, b) {
      MulNumbers(f, rm, a, b, w, raised);
    } else {
      MulSpecial(f, rm, a, b, w, raised);
    }
  }

  ghost function Over(x: real, y: real): real
    requires y != 0.0
  {
    x / y
  }

  ghost predicate QuotientOf(f: Format, rm: RoundingMode, a: nat, b: nat, w: nat, raised: Flags)
    requires f.Valid()
  {
    var minus := Minus(f, a) != Minus(f, b);
    if NotNumber(f, a) || NotNumber(f, b) then GivesNaN(f, Signals(f, a) || Signals(f, b), w, raised)
    else if (Infinite(f, a) && Infinite(f, b)) || (ZeroWord(f, a) && ZeroWord(f, b)) then GivesNaN(f, true, w, raised)
    else if Infinite(f, a) then w == Infinity(f, minus) && Quiet(raised)
    else if Infinite(f, b) then w == Signed0(f, minus) && Quiet(raised)
    else if ZeroWord(f, b) then w == Infinity(f, minus) && OnlyDivideZero(raised)
    else RealOf(f, b) != 0.0 && Correct(f, rm, minus, Over(RealOf(f, a), RealOf(f, b)), w, raised)
  }

  lemma OverIs(x: real, y: real, q: real)
    requires y != 0.0 && q * y == x
    ensures Over(x, y) == q
  {
    TimesCancel(x / y, q, y);
  }

  lemma TimesCancel(p: real, q: real, y: real)
    requires y != 0.0 && p * y == q * y
    ensures p == q
  {
    var d := p - q;
    assert d * y == 0.0;
    if d > 0.0 && y < 0.0 {
      TimesOrder(0.0, d, -y);
    } else if d > 0.0 {
      TimesOrder(0.0, d, y);
    } else if d < 0.0 && y < 0.0 {
      TimesOrder(d, 0.0, -y);
    } else if d < 0.0 {
      TimesOrder(d, 0.0, y);
    }
  }

  lemma SignedOver(x: real, y: real, q: real, p: bool, r: bool)
    requires y != 0.0 && q * y == x
    ensures Over(if p then -x else x, if r then -y else y) == if p != r then -q else q
  {
    assert (-q) * y == -x && (-q) * (-y) == x && q * (-y) == -x;
    OverIs(x, y, q);
    OverIs(-x, -y, q);
    OverIs(-x, y, -q);
    OverIs(x, -y, -q);
    hide Over;
  }

  lemma QuotientIs(f: Format, m: nat, n: nat, q: real)
    requires f.Valid() && n > 0 && q == m as real / n as real
    ensures ExactQuotient(f, m, n) == Scale(q, 0 - UnitExp(f))
  {
    hide Scale;
    assert 0 - UnitExp(f) == f.Bias() + f.mantSize - 1;
  }

  /** The quotient of two magnitudes, which the unit does not change. */
  lemma QuotientScaled(f: Format, m: nat, n: nat, q: real)
    requires f.Valid() && n > 0 && q == m as real / n as real && q * n as real == m as real
    ensures var u := UnitExp(f);
            && ExactQuotient(f, m, n) == Scale(q, 0 - u) >= 0.0 && Scale(ExactQuotient(f, m, n), u) == q
            && q * Scale(n as real, u) == Scale(m as real, u) && Scale(n as real, u) > 0.0
  {
    hide *;
    var u := UnitExp(f);
    QuotientIs(f, m, n, q);
    RatioPositive(q, m as real, n as real);
    Rescale(q, 0 - u, u);
    ScaleZero(q);
    ScaleSign(q, 0 - u);
    ScaleSign(n as real, u);
    ScaleOver(q, m as real, n as real, u);
  }

  lemma RatioPositive(q: real, m: real, n: real)
    requires m >= 0.0 && n > 0.0 && q * n == m
    ensures q >= 0.0
  {
    if q < 0.0 {
      TimesOrder(q, 0.0, n);
    }
  }

  lemma ScaleOver(q: real, m: real, n: real, u: int)
    requires q * n == m
    ensures q * Scale(n, u) == Scale(m, u)
  {
    hide Pow;
    Assoc(q, n, Pow(u));
  }

  lemma ExactOver(f: Format, a: nat, b: nat)
    requires f.Valid() && IsNumber(f, a) && IsNumber(f, b) && Finite(f, a) && Finite(f, b) && Mag(f, b) > 0
    ensures RealOf(f, b) != 0.0
    ensures IsExact(f, Minus(f, a) != Minus(f, b), ExactQuotient(f, Mag(f, a), Mag(f, b)),
                    Over(RealOf(f, a), RealOf(f, b)))
  {
    hide *;
    RealMagnitude(f, a);
    RealMagnitude(f, b);
    var q := Ratio(Mag(f, a), Mag(f, b));
    QuotientScaled(f, Mag(f, a), Mag(f, b), q);
    var x, y := Scale(Mag(f, a) as real, UnitExp(f)), Scale(Mag(f, b) as real, UnitExp(f));
    SignedOver(x, y, q, Minus(f, a), Minus(f, b));
    ExactIsAt(f, Minus(f, a) != Minus(f, b), ExactQuotient(f, Mag(f, a), Mag(f, b)), Over(RealOf(f, a), RealOf(f, b)));
  }

  lemma DivSpecial(f: Format, rm: RoundingMode, a: nat, b: nat, w: nat, raised: Flags)
    requires f.Valid() && IsWord(f, a) && IsWord(f, b) && IsQuotient(f, rm, a, b, w, raised)
    requires !IsNumber(f, a) || !IsNumber(f, b) || ZeroWord(f, b)
    ensures QuotientOf(f, rm, a, b, w, raised)
  {
    OperandIs(f, a);
    OperandIs(f, b);
    DefaultNaNIs(f);
    InfinityIs(f, a, Minus(f, a) != Minus(f, b));
    hide IsNumber;
    hide NotNumber;
    hide Infinite;
    hide Infinity;
    hide DefaultNaN;
    hide QNaN;
    hide Signals;
    hide IsSignalling;
    hide ZeroWord;
    hide Minus;
    hide Neg;
    hide Exp;
    hide Mant;
    hide Rounded;
    hide Correct;
    hide Pack;
    hide Signed0;
  }

  lemma QuotientRounded(f: Format, rm: RoundingMode, a: nat, b: nat, w: nat, raised: Flags)
    requires f.Valid() && Finite(f, a) && Finite(f, b) && !IsZero(f, b) && IsQuotient(f, rm, a, b, w, raised)
    ensures Mag(f, b) > 0
    ensures Rounded(f, rm, Neg(f, a) != Neg(f, b), ExactQuotient(f, Mag(f, a), Mag(f, b)), w, raised)
  {
    hide Rounded;
    hide Exp;
    hide Mant;
    hide Mag;
    hide Neg;
    hide ExactQuotient;
  }

  lemma QuotientCorrect(f: Format, rm: RoundingMode, a: nat, b: nat, x: real, w: nat, raised: Flags)
    requires f.Valid() && IsNumber(f, a) && IsNumber(f, b) && !ZeroWord(f, b) && RealOf(f, b) != 0.0
    requires x == Over(RealOf(f, a), RealOf(f, b)) && Correct(f, rm, Minus(f, a) != Minus(f, b), x, w, raised)
    ensures QuotientOf(f, rm, a, b, w, raised)
  {
    hide Over;
    hide Correct;
    hide Exponent;
    hide Minus;
    hide RealOf;
    hide ZeroWord;
    hide GivesNaN;
    hide Signals;
  }

  lemma DivNumbers(f: Format, rm: RoundingMode, a: nat, b: nat, w: nat, raised: Flags)
    requires f.Valid() && IsWord(f, a) && IsWord(f, b) && IsQuotient(f, rm, a, b, w, raised)
    requires IsNumber(f, a) && IsNumber(f, b) && !ZeroWord(f, b)
    ensures QuotientOf(f, rm, a, b, w, raised)
  {
    OperandIs(f, a);
    OperandIs(f, b);
    assert !IsZero(f, b);
    hide *;
    QuotientRounded(f, rm, a, b, w, raised);
    ExactOver(f, a, b);
    var y, x := ExactQuotient(f, Mag(f, a), Mag(f, b)), Over(RealOf(f, a), RealOf(f, b));
    RoundedIsCorrect(f, rm, Neg(f, a) != Neg(f, b), y, x, w, raised);
    QuotientCorrect(f, rm, a, b, x, w, raised);
  }

  /** What `div_sf` delivers. */
  lemma DivDelivers(f: Format, rm: RoundingMode, a: nat, b: nat, w: nat, raised: Flags)
    requires f.Valid() && IsWord(f, a) && IsWord(f, b) && IsQuotient(f, rm, a, b, w, raised)
    ensures QuotientOf(f, rm, a, b, w, raised)
  {
    hide *;
    if IsNumber(f, a) && IsNumber(f, b) && !ZeroWord(f, b) {
      DivNumbers(f, rm, a, b, w, raised);
    } else {
      DivSpecial(f, rm, a, b, w, raised);
    }
  }

  // ----- square roots

  ghost predicate SqrtOf(f: Format, rm: RoundingMode, a: nat, w: nat, raised: Flags)
    requires f.Valid()
  {
    if NotNumber(f, a) then GivesNaN(f, Signals(f, a), w, raised)
    else if Minus(f, a) && !ZeroWord(f, a) then GivesNaN(f, true, w, raised)
    else if Infinite(f, a) then w == Infinity(f, false) && Quiet(raised)
    else if Minus(f, a) then w == Signed0(f, true) && Quiet(raised)
    else forall x: real | x >= 0.0 && Times(x, x) == RealOf(f, a) :: Correct(f, rm, false, x, w, raised)
  }

  lemma MinusZero(f: Format, a: nat)
    requires f.Valid() && IsWord(f, a) && ZeroWord(f, a) && Minus(f, a)
    ensures a == Signed0(f, true)
  {
    FieldsAre(f, a);
    PackOfFields(f, a);
    SmallMod(0, Pow2(f.mantSize));
    assert f.FSize() - 1 == f.expSize + f.mantSize;
    hide Exp;
    hide Mant;
    hide Neg;
    hide Minus;
    hide Exponent;
    hide Trailing;
  }

  lemma SqrtSpecial(f: Format, rm: RoundingMode, a: nat, w: nat, raised: Flags)
    requires f.Valid() && IsWord(f, a) && IsSqrt(f, rm, a, w, raised) && (!IsNumber(f, a) || Minus(f, a))
    ensures SqrtOf(f, rm, a, w, raised)
  {
    OperandIs(f, a);
    DefaultNaNIs(f);
    if Minus(f, a) && ZeroWord(f, a) {
      MinusZero(f, a);
    }
    hide IsNumber;
    hide NotNumber;
    hide Infinite;
    hide Infinity;
    hide DefaultNaN;
    hide QNaN;
    hide Signals;
    hide IsSignalling;
    hide ZeroWord;
    hide Minus;
    hide Neg;
    hide Exp;
    hide Mant;
    hide Correct;
    hide Signed0;
    hide FloatRoot.RoundedRoot;
  }

  lemma RootScaled(x: real, m: real, u: int)
    requires Times(x, x) == Scale(m, u)
    ensures var y := Scale(x, 0 - u); y * y == Scale(m, 0 - u)
  {
    hide Scale;
    var v := 0 - u;
    ScaleTimes(x, v, x, v);
    Rescale(m, u, v + v);
  }

  lemma ExactRootIs(f: Format, mag: nat, y: real)
    requires f.Valid() && y >= 0.0 && y * y == Scale(mag as real, 0 - UnitExp(f))
    ensures IsExactRoot(f, mag, y)
  {
    hide Scale;
    assert 0 - UnitExp(f) == f.Bias() + f.mantSize - 1;
  }

  /** The square root of a number, in the unit. */
  lemma RootInUnit(f: Format, a: nat, x: real)
    requires f.Valid() && IsNumber(f, a) && Finite(f, a) && !Minus(f, a) && x >= 0.0 && Times(x, x) == RealOf(f, a)
    ensures var y := Scale(x, 0 - UnitExp(f)); IsExactRoot(f, Mag(f, a), y) && IsExact(f, false, y, x)
  {
    hide *;
    var u := UnitExp(f);
    RealMagnitude(f, a);
    RootScaled(x, Mag(f, a) as real, u);
    Rescale(x, 0 - u, u);
    ScaleZero(x);
    ScaleSign(x, 0 - u);
    ExactRootIs(f, Mag(f, a), Scale(x, 0 - u));
    ExactIsAt(f, false, Scale(x, 0 - u), x);
  }

  lemma SqrtNumber(f: Format, rm: RoundingMode, a: nat, x: real, w: nat, raised: Flags)
    requires f.Valid() && IsWord(f, a) && IsSqrt(f, rm, a, w, raised) && IsNumber(f, a) && !Minus(f, a)
    requires x >= 0.0 && Times(x, x) == RealOf(f, a)
    ensures Correct(f, rm, false, x, w, raised)
  {
    hide *;
    OperandIs(f, a);
    RootInUnit(f, a, x);
    SqrtOfReal(f, rm, a, Scale(x, 0 - UnitExp(f)), w, raised);
    RoundedIsCorrect(f, rm, false, Scale(x, 0 - UnitExp(f)), x, w, raised);
  }

  /** What `sqrt_sf` delivers. */
  lemma SqrtDelivers(f: Format, rm: RoundingMode, a: nat, w: nat, raised: Flags)
    requires f.Valid() && IsWord(f, a) && IsSqrt(f, rm, a, w, raised)
    ensures SqrtOf(f, rm, a, w, raised)
  {
    if IsNumber(f, a) && !Minus(f, a) {
      forall x: real | x >= 0.0 && Times(x, x) == RealOf(f, a) ensures Correct(f, rm, false, x, w, raised) {
        SqrtNumber(f, rm, a, x, w, raised);
      }
      hide Correct;
      hide IsSqrt;
      hide RealOf;
      hide Times;
      hide Minus;
      hide Exponent;
    } else {
      hide *;
      SqrtSpecial(f, rm, a, w, raised);
    }
  }

  // ----- fused multiply-add

  ghost predicate FmaOf(f: Format, rm: RoundingMode, a: nat, b: nat, c: nat, w: nat, raised: Flags)
    requires f.Valid()
  {
    var minus := Minus(f, a) != Minus(f, b);
    if NotNumber(f, a) || NotNumber(f, b) || NotNumber(f, c) then
      GivesNaN(f, Signals(f, a) || Signals(f, b) || Signals(f, c), w, raised)
    else if (Infinite(f, a) && ZeroWord(f, b)) || (ZeroWord(f, a) && Infinite(f, b)) then GivesNaN(f, true, w, raised)
    else if Infinite(f, a) || Infinite(f, b) then
      if Infinite(f, c) && Minus(f, c) != minus then GivesNaN(f, true, w, raised)
      else w == Infinity(f, minus) && Quiet(raised)
    else if Infinite(f, c) then w == Infinity(f, Minus(f, c)) && Quiet(raised)
    else
      var x := Times(RealOf(f, a), RealOf(f, b)) + RealOf(f, c);
      Correct(f, rm, SumMinus(rm, x, minus, Minus(f, c)), x, w, raised)
  }

  lemma FmaSpecial(f: Format, rm: RoundingMode, a: nat, b: nat, c: nat, w: nat, raised: Flags)
    requires f.Valid() && IsWord(f, a) && IsWord(f, b) && IsWord(f, c) && IsFma(f, rm, a, b, c, w, raised)
    requires !IsNumber(f, a) || !IsNumber(f, b) || !IsNumber(f, c)
    ensures FmaOf(f, rm, a, b, c, w, raised)
  {
    OperandIs(f, a);
    OperandIs(f, b);
    OperandIs(f, c);
    DefaultNaNIs(f);
    InfinityIs(f, a, Minus(f, a) != Minus(f, b));
    InfinityIs(f, a, Minus(f, c));
    hide IsNumber;
    hide NotNumber;
    hide Infinite;
    hide Infinity;
    hide DefaultNaN;
    hide QNaN;
    hide Signals;
    hide IsSignalling;
    hide ZeroWord;
    hide Minus;
    hide Neg;
    hide Exp;
    hide Mant;
    hide Rounded;
    hide Correct;
    hide Pack;
  }

  lemma FmaRounded(f: Format, rm: RoundingMode, a: nat, b: nat, c: nat, w: nat, raised: Flags)
    requires f.Valid() && Finite(f, a) && Finite(f, b) && Finite(f, c) && IsFma(f, rm, a, b, c, w, raised)
    ensures var s := ExactFma(f, a, b, c);
            Rounded(f, rm, RealSumNeg(rm, s, Neg(f, a) != Neg(f, b), Neg(f, c)), RealAbs(s), w, raised)
  {
    hide Rounded;
    hide Exp;
    hide Mant;
    hide Neg;
    hide ExactFma;
    hide RealSumNeg;
    hide RealAbs;
  }

  lemma FmaCorrect(f: Format, rm: RoundingMode, a: nat, b: nat, c: nat, minus: bool, x: real, w: nat, raised: Flags)
    requires f.Valid() && IsNumber(f, a) && IsNumber(f, b) && IsNumber(f, c) && minus == (Minus(f, a) != Minus(f, b))
    requires x == Times(RealOf(f, a), RealOf(f, b)) + RealOf(f, c)
    requires Correct(f, rm, SumMinus(rm, x, minus, Minus(f, c)), x, w, raised)
    ensures FmaOf(f, rm, a, b, c, w, raised)
  {
    hide Times;
    hide Correct;
    hide Exponent;
    hide Minus;
    hide RealOf;
    hide ZeroWord;
    hide GivesNaN;
    hide Signals;
    hide SumMinus;
  }

  /** A sum of signed magnitudes. */
  lemma ExactAddend(f: Format, rm: RoundingMode, p: bool, y: real, x: real, q: bool, z: real, v: real)
    requires f.Valid() && IsExact(f, p, y, x) && IsExact(f, q, z, v)
    ensures var s := Signed(p, y) + Signed(q, z);
            && IsExact(f, RealSumNeg(rm, s, p, q), RealAbs(s), x + v)
            && RealSumNeg(rm, s, p, q) == SumMinus(rm, x + v, p, q)
  {
    var u, s := UnitExp(f), Signed(p, y) + Signed(q, z);
    ScaleMinus(y, u);
    ScaleMinus(z, u);
    ScaleSum(Signed(p, y), Signed(q, z), u);
    ScaleMinus(RealAbs(s), u);
    ScaleSign(s, u);
    ScaleSign(RealAbs(s), u);
    hide Scale;
    hide UnitExp;
  }

  lemma ExactFused(f: Format, rm: RoundingMode, a: nat, b: nat, c: nat)
    requires f.Valid() && IsNumber(f, a) && IsNumber(f, b) && IsNumber(f, c)
    requires Finite(f, a) && Finite(f, b) && Finite(f, c)
    requires Minus(f, a) == Neg(f, a) && Minus(f, b) == Neg(f, b) && Minus(f, c) == Neg(f, c)
    ensures var s, x := ExactFma(f, a, b, c), Times(RealOf(f, a), RealOf(f, b)) + RealOf(f, c);
            var minus := Neg(f, a) != Neg(f, b);
            && IsExact(f, RealSumNeg(rm, s, minus, Neg(f, c)), RealAbs(s), x)
            && RealSumNeg(rm, s, minus, Neg(f, c)) == SumMinus(rm, x, minus, Neg(f, c))
  {
    var y, z := ExactProduct(f, Mag(f, a), Mag(f, b)), Mag(f, c) as real;
    assert ExactFma(f, a, b, c) == Signed(Neg(f, a) != Neg(f, b), y) + Signed(Neg(f, c), z);
    assert z >= 0.0;
    hide *;
    ExactTimes(f, a, b);
    RealMagnitude(f, c);
    ExactIsAt(f, Neg(f, c), z, RealOf(f, c));
    ExactAddend(f, rm, Neg(f, a) != Neg(f, b), y, Times(RealOf(f, a), RealOf(f, b)), Neg(f, c), z, RealOf(f, c));
  }

  /** What `fma_sf` delivers. */
  lemma FmaDelivers(f: Format, rm: RoundingMode, a: nat, b: nat, c: nat, w: nat, raised: Flags)
    requires f.Valid() && IsWord(f, a) && IsWord(f, b) && IsWord(f, c) && IsFma(f, rm, a, b, c, w, raised)
    ensures FmaOf(f, rm, a, b, c, w, raised)
  {
    hide *;
    if IsNumber(f, a) && IsNumber(f, b) && IsNumber(f, c) {
      OperandIs(f, a);
      OperandIs(f, b);
      OperandIs(f, c);
      FmaRounded(f, rm, a, b, c, w, raised);
      ExactFused(f, rm, a, b, c);
      var s, x := ExactFma(f, a, b, c), Times(RealOf(f, a), RealOf(f, b)) + RealOf(f, c);
      var minus := Neg(f, a) != Neg(f, b);
      RoundedIsCorrect(f, rm, RealSumNeg(rm, s, minus, Neg(f, c)), RealAbs(s), x, w, raised);
      FmaCorrect(f, rm, a, b, c, minus, x, w, raised);
    } else {
      FmaSpecial(f, rm, a, b, c, w, raised);
    }
  }
}
