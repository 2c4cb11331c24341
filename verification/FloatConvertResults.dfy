/** What the conversions between formats, and between floats and integers, deliver:
    on the signed real axis, with the bounds of the integers written out. */
module FloatConvertResults {
  import opened Powers
  import opened FloatSpec
  import opened FloatAdd
  import opened FloatUnpack
  import opened FloatConvert
  import opened FloatInt
  import opened FloatIeee
  import opened FloatResults

  // ----- between formats

  ghost predicate WidenedFrom(f: Format, g: Format, a: nat, w: nat, raised: Flags)
    requires f.Valid() && g.Valid()
  {
    if NotNumber(g, a) then GivesNaN(f, Signals(g, a), w, raised)
    else if Infinite(g, a) then w == Infinity(f, Minus(g, a)) && Quiet(raised)
    else IsNumber(f, w) && RealOf(f, w) == RealOf(g, a) && Minus(f, w) == Minus(g, a) && Quiet(raised)
  }

  ghost predicate NarrowedFrom(f: Format, g: Format, rm: RoundingMode, a: nat, w: nat, raised: Flags)
    requires f.Valid() && g.Valid()
  {
    if NotNumber(f, a) then GivesNaN(g, Signals(f, a), w, raised)
    else if Infinite(f, a) then w == Infinity(g, Minus(f, a)) && Quiet(raised)
    else Correct(g, rm, Minus(f, a), RealOf(f, a), w, raised)
  }

  lemma UnitsOf(f: Format, g: Format)
    requires Wider(f, g)
    ensures f.Valid() && g.Valid() && UnitRatio(f, g) + UnitExp(f) == UnitExp(g)
  {
  }

  lemma WidenedNumber(f: Format, g: Format, a: nat, w: nat)
    requires Wider(f, g) && IsNumber(g, a) && IsNumber(f, w) && Finite(f, w) && Finite(g, a)
    requires Minus(f, w) == Minus(g, a) && Mag(f, w) == Mag(g, a) * Pow2(UnitRatio(f, g))
    ensures RealOf(f, w) == RealOf(g, a)
  {
    hide *;
    UnitsOf(f, g);
    RealMagnitude(f, w);
    RealMagnitude(g, a);
    ScaleNat(Mag(g, a), UnitRatio(f, g));
    Rescale(Mag(g, a) as real, UnitRatio(f, g), UnitExp(f));
  }

  /** What `cvt_sf32_sf` and `cvt_sf64_sf` deliver. */
  lemma WidenDelivers(f: Format, g: Format, a: nat, w: nat, raised: Flags)
    requires Wider(f, g) && IsWord(g, a) && IsWidened(f, g, a, w, raised)
    ensures WidenedFrom(f, g, a, w, raised)
  {
    OperandIs(g, a);
    DefaultNaNIs(f);
    InfinityIs(f, 0, Minus(g, a));
    FieldsAre(f, w);
    if IsNumber(g, a) {
      assert Finite(f, w) && Mag(f, w) == Mag(g, a) * Pow2(UnitRatio(f, g));
      WidenedNumber(f, g, a, w);
    }
    hide IsNumber;
    hide NotNumber;
    hide Infinite;
    hide Infinity;
    hide DefaultNaN;
    hide QNaN;
    hide Signals;
    hide IsSignalling;
    hide Minus;
    hide Neg;
    hide Exp;
    hide Mant;
    hide Mag;
    hide RealOf;
    hide Pack;
    hide Pow2;
  }

  lemma NarrowSpecial(f: Format, g: Format, rm: RoundingMode, a: nat, w: nat, raised: Flags)
    requires Wider(f, g) && IsWord(f, a) && IsNarrowed(f, g, rm, a, w, raised) && !IsNumber(f, a)
    ensures NarrowedFrom(f, g, rm, a, w, raised)
  {
    OperandIs(f, a);
    DefaultNaNIs(g);
    InfinityIs(g, 0, Minus(f, a));
    hide IsNumber;
    hide NotNumber;
    hide Infinite;
    hide Infinity;
    hide DefaultNaN;
    hide QNaN;
    hide Signals;
    hide IsSignalling;
    hide Minus;
    hide Neg;
    hide Exp;
    hide Mant;
    hide Rounded;
    hide Correct;
    hide Pack;
  }

  lemma NarrowRounded(f: Format, g: Format, rm: RoundingMode, a: nat, w: nat, raised: Flags)
    requires Wider(f, g) && Finite(f, a) && IsNarrowed(f, g, rm, a, w, raised)
    ensures Rounded(g, rm, Neg(f, a), Scale(Mag(f, a) as real, 0 - UnitRatio(f, g)), w, raised)
  {
    hide Rounded;
    hide Exp;
    hide Mant;
    hide Mag;
    hide Neg;
  }

  lemma NarrowCorrect(f: Format, g: Format, rm: RoundingMode, a: nat, w: nat, raised: Flags)
    requires f.Valid() && g.Valid() && IsNumber(f, a) && Correct(g, rm, Minus(f, a), RealOf(f, a), w, raised)
    ensures NarrowedFrom(f, g, rm, a, w, raised)
  {
    hide Correct;
    hide Exponent;
    hide Minus;
    hide RealOf;
  }

  lemma ExactNarrow(f: Format, g: Format, a: nat)
    requires Wider(f, g) && IsNumber(f, a) && Finite(f, a)
    ensures IsExact(g, Minus(f, a), Scale(Mag(f, a) as real, 0 - UnitRatio(f, g)), RealOf(f, a))
  {
    hide *;
    UnitsOf(f, g);
    var m := Mag(f, a) as real;
    MagNat(f, a);
    RealMagnitude(f, a);
    Rescale(m, 0 - UnitRatio(f, g), UnitExp(g));
    ScaleSign(m, 0 - UnitRatio(f, g));
    ExactIsAt(g, Minus(f, a), Scale(m, 0 - UnitRatio(f, g)), RealOf(f, a));
  }

  /** What `cvt_sf_sf32` and `cvt_sf_sf64` deliver. */
  lemma NarrowDelivers(f: Format, g: Format, rm: RoundingMode, a: nat, w: nat, raised: Flags)
    requires Wider(f, g) && IsWord(f, a) && IsNarrowed(f, g, rm, a, w, raised)
    ensures NarrowedFrom(f, g, rm, a, w, raised)
  {
    hide *;
    UnitsOf(f, g);
    if IsNumber(f, a) {
      OperandIs(f, a);
      NarrowRounded(f, g, rm, a, w, raised);
      ExactNarrow(f, g, a);
      RoundedIsCorrect(g, rm, Neg(f, a), Scale(Mag(f, a) as real, 0 - UnitRatio(f, g)), RealOf(f, a), w, raised);
      NarrowCorrect(f, g, rm, a, w, raised);
    } else {
      NarrowSpecial(f, g, rm, a, w, raised);
    }
  }

  // ----- integers to floats

  lemma ExactInteger(f: Format, a: int)
    requires f.Valid()
    ensures IsExact(f, a < 0, IntMag(f, Abs(a)), a as real)
  {
    var m: real := Abs(a) as real;
    assert IntMag(f, Abs(a)) == Scale(m, 0 - UnitExp(f));
    assert m >= 0.0 && a as real == if a < 0 then -m else m;
    hide *;
    Rescale(m, 0 - UnitExp(f), UnitExp(f));
    ScaleZero(m);
    ScaleSign(m, 0 - UnitExp(f));
    ExactIsAt(f, a < 0, Scale(m, 0 - UnitExp(f)), a as real);
  }

  /** What `internal_cvt_i*_sf*` delivers. */
  lemma IntToFloatDelivers(f: Format, rm: RoundingMode, a: int, w: nat, raised: Flags)
    requires f.Valid() && Rounded(f, rm, a < 0, IntMag(f, Abs(a)), w, raised)
    ensures Correct(f, rm, a < 0, a as real, w, raised)
  {
    hide *;
    ExactInteger(f, a);
    RoundedIsCorrect(f, rm, a < 0, IntMag(f, Abs(a)), a as real, w, raised);
  }

  // ----- floats to integers

  /** `z` is `x` rounded to an integer. */
  ghost predicate RoundedInteger(rm: RoundingMode, x: real, z: int) {
    match rm
    case RDN => z as real <= x < z as real + 1.0
    case RUP => z as real - 1.0 < x <= z as real
    case RTZ => if x >= 0.0 then z as real <= x < z as real + 1.0 else z as real - 1.0 < x <= z as real
    case RNE =>
      -0.5 <= x - z as real <= 0.5 && (x - z as real == 0.5 || x - z as real == -0.5 ==> z % 2 == 0)
    case RMM =>
      -0.5 <= x - z as real <= 0.5 && (x - z as real == 0.5 ==> x < 0.0) && (x - z as real == -0.5 ==> x > 0.0)
  }

  /** The rounded integer when it is in the range, else the nearest integer in the
      range with the invalid flag; a NaN counts as too large. */
  ghost predicate IntegerOf(f: Format, rm: RoundingMode, size: nat, unsigned: bool, a: nat, r: int, raised: Flags)
    requires f.Valid() && size > 0
  {
    var lo := if unsigned then 0 else 0 - Pow2(size - 1);
    var hi := if unsigned then Pow2(size) - 1 else Pow2(size - 1) - 1;
    if NotNumber(f, a) then r == hi && OnlyInvalid(raised)
    else if Infinite(f, a) then r == (if Minus(f, a) then lo else hi) && OnlyInvalid(raised)
    else
      exists z: int ::
        && RoundedInteger(rm, RealOf(f, a), z)
        && if z < lo then r == lo && OnlyInvalid(raised)
           else if hi < z then r == hi && OnlyInvalid(raised)
           else
             && r == z && raised.inexact == (z as real != RealOf(f, a))
             && !raised.underflow && !raised.overflow && !raised.divideZero && !raised.invalid
  }

  /** Rounding to an integer has one result. */
  lemma RoundedIntegerUnique(rm: RoundingMode, x: real, y: int, z: int)
    requires RoundedInteger(rm, x, y) && RoundedInteger(rm, x, z)
    ensures y == z
  {
  }

  /** The magnitude rounded is the number rounded. */
  lemma SignedInteger(rm: RoundingMode, minus: bool, y: real, n: nat, x: real, z: int)
    requires y >= 0.0 && RoundsToInteger(rm, minus, y, n)
    requires x == (if minus then -y else y) && z == WithSign(minus, n)
    ensures RoundedInteger(rm, x, z)
  {
    if Nearest(rm) {
      assert Dist(n, y) <= Dist(n + 1, y);
      assert n + 1 != n && Dist(n, y) == Dist(n + 1, y) ==> if rm == RNE then n % 2 == 0 else n > n + 1;
      if n > 0 {
        assert Dist(n, y) <= Dist(n - 1, y);
        assert Dist(n, y) == Dist(n - 1, y) ==> if rm == RNE then n % 2 == 0 else n > n - 1;
      }
    }
  }

  lemma SaturatedInteger(f: Format, rm: RoundingMode, size: nat, unsigned: bool, a: nat, n: nat, r: int, raised: Flags)
    requires f.Valid() && size > 0 && IsNumber(f, a) && RoundedInteger(rm, RealOf(f, a), WithSign(Minus(f, a), n))
    requires Saturates(f, rm, size, unsigned, Minus(f, a), Absolute(RealOf(f, a)), n, r, raised)
    requires RealOf(f, a) == if Minus(f, a) then -Absolute(RealOf(f, a)) else Absolute(RealOf(f, a))
    ensures IntegerOf(f, rm, size, unsigned, a, r, raised)
  {
    assert Pow2(size) == 2 * Pow2(size - 1);
    hide Pow2;
    hide RoundedInteger;
    hide RealOf;
    hide Minus;
    hide Exponent;
    hide Trailing;
    hide Absolute;
  }

  /** What `internal_cvt_sf*_i*` delivers, and that it is always in the range. */
  lemma FloatToIntDelivers(f: Format, rm: RoundingMode, size: nat, unsigned: bool, a: nat, r: int, raised: Flags)
    requires f.Valid() && size > 0 && IsWord(f, a) && IsInteger(f, rm, size, unsigned, a, r, raised)
    ensures IntegerOf(f, rm, size, unsigned, a, r, raised) && InRange(size, unsigned, r)
  {
    OperandIs(f, a);
    if IsNumber(f, a) {
      FromMagnitude(f, rm, size, unsigned, a, r, raised);
    }
    assert Pow2(size) == 2 * Pow2(size - 1);
    hide Pow2;
    hide RoundsToInteger;
    hide RoundedInteger;
    hide RealOf;
    hide Minus;
    hide Neg;
    hide IsNumber;
    hide NotNumber;
    hide Infinite;
    hide Exp;
    hide Mant;
    hide Mag;
    hide RealMag;
  }

  lemma FromMagnitude(f: Format, rm: RoundingMode, size: nat, unsigned: bool, a: nat, r: int, raised: Flags)
    requires f.Valid() && size > 0 && IsWord(f, a) && IsInteger(f, rm, size, unsigned, a, r, raised) && IsNumber(f, a)
    ensures IntegerOf(f, rm, size, unsigned, a, r, raised)
  {
    OperandIs(f, a);
    var x := RealMag(f, Mag(f, a));
    var n: nat :| RoundsToInteger(rm, Neg(f, a), x, n) && Saturates(f, rm, size, unsigned, Neg(f, a), x, n, r, raised);
    assert x == Scale(Mag(f, a) as real, UnitExp(f));
    hide *;
    RealMagnitude(f, a);
    ScaleSign(Mag(f, a) as real, UnitExp(f));
    MagNat(f, a);
    AbsoluteReal(RealOf(f, a), x, Minus(f, a));
    SignedInteger(rm, Minus(f, a), x, n, RealOf(f, a), WithSign(Minus(f, a), n));
    SaturatedInteger(f, rm, size, unsigned, a, n, r, raised);
  }

  lemma MagNat(f: Format, a: nat)
    requires Finite(f, a)
    ensures Mag(f, a) as real >= 0.0
  {
    hide Mag;
  }

  lemma AbsoluteReal(x: real, y: real, minus: bool)
    requires y >= 0.0 && x == if minus then -y else y
    ensures Absolute(x) == y
  {
  }

  /** The ranges of the integers of 32 and 64 bits. */
  lemma IntegerRanges(r: int)
    ensures InRange(32, false, r) <==> -0x8000_0000 <= r <= 0x7fff_ffff
    ensures InRange(32, true, r) <==> 0 <= r <= 0xffff_ffff
    ensures InRange(64, false, r) <==> -0x8000_0000_0000_0000 <= r <= 0x7fff_ffff_ffff_ffff
    ensures InRange(64, true, r) <==> 0 <= r <= 0xffff_ffff_ffff_ffff
  {
    PowerTable();
    hide Pow2;
  }
}
