/** `round_pack_sf` and the normalisations in front of it
    (lib/tinyemu/softfp_template.h). */
module FloatPack {
  import opened Powers
  import opened FloatSpec
  import opened FloatRounding
  import opened FloatSticky

  function Addend(f: Format, rm: RoundingMode, neg: bool): nat
    requires f.Valid()
  {
    match rm
    case RNE | RMM => Pow2(f.RndSize() - 1)
    case RTZ => 0
    case RDN => if neg then Pow2(f.RndSize()) - 1 else 0
    case RUP => if neg then 0 else Pow2(f.RndSize()) - 1
  }

  /** The significand after rounding, before it is packed. */
  function RoundedMant(f: Format, rm: RoundingMode, neg: bool, mant: nat): nat
    requires f.Valid()
  {
    var c := Shr(mant + Addend(f, rm, neg), f.RndSize());
    if rm == RNE && Low(mant, f.RndSize()) == Pow2(f.RndSize() - 1) then c - c % 2 else c
  }

  predicate UpRule(rm: RoundingMode, neg: bool, q: nat, r: nat, h: nat) {
    if Nearest(rm) then r > h || (r == h && (rm == RMM || q % 2 == 1)) else Away(rm, neg) && r != 0
  }

  lemma Carry(q: nat, r: nat, a: nat, d: nat)
    requires r < d && a < d
    ensures (q * d + r + a) / d == if r + a >= d then q + 1 else q
  {
    if r + a >= d {
      Distribute(q, 1, d);
      DivRem(q + 1, r + a - d, d);
    } else {
      DivRem(q, r + a, d);
    }
  }

  lemma ShrCarry(mant: nat, a: nat, k: nat)
    requires a < Pow2(k)
    ensures Shr(mant + a, k) == Shr(mant, k) + if Low(mant, k) + a >= Pow2(k) then 1 else 0
  {
    hide Pow2;
    DivMod(mant, Pow2(k));
    Carry(Shr(mant, k), Low(mant, k), a, Pow2(k));
  }

  lemma AddendCases(f: Format, rm: RoundingMode, neg: bool)
    requires f.Valid()
    ensures var h := Pow2(f.RndSize() - 1);
            && Pow2(f.RndSize()) == 2 * h
            && Addend(f, rm, neg) == if Nearest(rm) then h else if Away(rm, neg) then 2 * h - 1 else 0
  {
  }

  /** The addend carries into the significand exactly when it must go up. */
  lemma MantRule(f: Format, rm: RoundingMode, neg: bool, mant: nat)
    requires f.Valid()
    ensures var q, r := Shr(mant, f.RndSize()), Low(mant, f.RndSize());
            RoundedMant(f, rm, neg, mant) == q + if UpRule(rm, neg, q, r, Pow2(f.RndSize() - 1)) then 1 else 0
  {
    AddendCases(f, rm, neg);
    hide Pow2;
    hide Addend;
    hide Shr;
    hide Low;
    ShrCarry(mant, Addend(f, rm, neg), f.RndSize());
    var q, r, h := Shr(mant, f.RndSize()), Low(mant, f.RndSize()), Pow2(f.RndSize() - 1);
    CarryRule(rm, neg, q, r, h, Addend(f, rm, neg), Shr(mant + Addend(f, rm, neg), f.RndSize()));
  }

  lemma CarryRule(rm: RoundingMode, neg: bool, q: nat, r: nat, h: nat, a: nat, c: nat)
    requires h > 0 && r < 2 * h && a == if Nearest(rm) then h else if Away(rm, neg) then 2 * h - 1 else 0
    requires c == q + if r + a >= 2 * h then 1 else 0
    ensures (if rm == RNE && r == h then c - c % 2 else c) == q + if UpRule(rm, neg, q, r, h) then 1 else 0
  {
  }

  lemma UpAgrees(rm: RoundingMode, neg: bool, x: real, lo: nat, hi: nat, q: nat, r: nat, h: nat)
    requires lo < hi && 0 < h && (r == 0 ==> x == lo as real)
    requires 0 < r < h ==> lo as real < x && 2.0 * x < (lo + hi) as real
    requires r == h ==> 2.0 * x == (lo + hi) as real
    requires r > h ==> (lo + hi) as real < 2.0 * x && x < hi as real
    ensures GoesUp(rm, neg, x, lo, hi, q % 2 == 1) == UpRule(rm, neg, q, r, h)
    ensures lo as real <= x < hi as real && (x == lo as real <==> r == 0)
  {
  }

  lemma PointScale(q: nat, k: nat, e: nat)
    ensures Scale((q * Pow2(k)) as real, e - k) == (q * Pow2(e)) as real
  {
    ScaleNat(q, k);
    ScaleNat(q, e);
    Rescale(q as real, k, e - k);
  }

  lemma MidScale(q: nat, k: nat, e: nat)
    requires k > 0
    ensures 2.0 * Scale((q * Pow2(k) + Pow2(k - 1)) as real, e - k) == (q * Pow2(e) + (q + 1) * Pow2(e)) as real
  {
    var h := Pow2(k - 1);
    assert Pow2(k) == 2 * h;
    PointScale(2 * q + 1, k - 1, e);
    hide Pow2;
    hide Scale;
    AssocNat(q, 2, h);
    Distribute(2 * q, 1, h);
    assert q * (2 * h) + h == (2 * q + 1) * h;
    ScaleStep(((2 * q + 1) * h) as real, e - k);
    Distribute(q, q + 1, Pow2(e));
  }

  lemma MantScale(x: real, ys: real, q: nat, r: nat, k: nat, e: nat)
    requires k > 0 && x == Scale(ys, e - k) && r < Pow2(k)
    requires Agrees(ys, q * Pow2(k) + r, Pow2(k - 1))
    ensures var lo, hi, h := q * Pow2(e), (q + 1) * Pow2(e), Pow2(k - 1);
            && (r == 0 ==> x == lo as real)
            && (0 < r < h ==> lo as real < x && 2.0 * x < (lo + hi) as real)
            && (r == h ==> 2.0 * x == (lo + hi) as real)
            && (r > h ==> (lo + hi) as real < 2.0 * x && x < hi as real)
  {
    var h, m := Pow2(k - 1), q * Pow2(k) + r;
    assert Pow2(k) == 2 * h;
    PointScale(q, k, e);
    PointScale(q + 1, k, e);
    MidScale(q, k, e);
    hide Pow2;
    hide Scale;
    Distribute(q, 1, 2 * h);
    ScaleOrder(ys, (q * (2 * h)) as real, e - k);
    ScaleOrder((q * (2 * h)) as real, ys, e - k);
    ScaleOrder(ys, (q * (2 * h) + h) as real, e - k);
    ScaleOrder((q * (2 * h) + h) as real, ys, e - k);
    ScaleOrder(ys, ((q + 1) * (2 * h)) as real, e - k);
    AgreesQuarter(ys, q, r, h);
  }

  lemma AgreesQuarter(ys: real, q: nat, r: nat, h: nat)
    requires 0 < h && r < 2 * h && Agrees(ys, q * (2 * h) + r, h)
    ensures var lo := q * (2 * h);
            && (r == 0 ==> ys == lo as real) && (0 < r < h ==> lo as real < ys < (lo + h) as real)
            && (r == h ==> ys == (lo + h) as real) && (r > h ==> (lo + h) as real < ys < (lo + 2 * h) as real)
  {
    AssocNat(q, 2, h);
    if r < h {
      DivRem(2 * q, r, h);
    } else {
      Distribute(2 * q, 1, h);
      DivRem(2 * q + 1, r - h, h);
    }
  }

  /** Rounding the significand rounds the number. */
  lemma RoundStep(f: Format, rm: RoundingMode, neg: bool, x: real, ys: real, mant: nat, e: nat)
    requires f.Valid() && Agrees(ys, mant, Pow2(f.RndSize() - 1)) && x == Scale(ys, e - f.RndSize())
    requires OnGrid(f, Shr(mant, f.RndSize()), e)
    ensures forall n: nat :: Rounds(f, rm, neg, x, n) <==> n == RoundedMant(f, rm, neg, mant) * Pow2(e)
    ensures x == (RoundedMant(f, rm, neg, mant) * Pow2(e)) as real <==> Low(mant, f.RndSize()) == 0
  {
    var k := f.RndSize();
    var q, r := Shr(mant, k), Low(mant, k);
    var lo, hi := q * Pow2(e), (q + 1) * Pow2(e);
    hide Rounds;
    hide RoundedMant;
    hide OnGrid;
    hide Agrees;
    hide Scale;
    hide Pow2;
    DivMod(mant, Pow2(k));
    MantScale(x, ys, q, r, k, e);
    Distribute(q, 1, Pow2(e));
    UpAgrees(rm, neg, x, lo, hi, q, r, Pow2(k - 1));
    MantRule(f, rm, neg, mant);
    hide UpRule;
    hide GoesUp;
    forall n: nat ensures Rounds(f, rm, neg, x, n) <==> n == RoundedMant(f, rm, neg, mant) * Pow2(e) {
      GridRounds(f, rm, neg, x, q, e, n);
    }
  }

  // ----- underflow

  /** Rounding does not cross a representable number. */
  lemma RoundsBetween(f: Format, rm: RoundingMode, neg: bool, y: real, t: nat, k: nat)
    requires Rounds(f, rm, neg, y, t) && Representable(f, k)
    ensures (y <= k as real ==> t <= k) && (k as real <= y ==> k <= t)
  {
    hide Representable;
    hide EvenSignificand;
  }

  lemma Powers2(f: Format, e: nat)
    requires f.Valid()
    ensures Representable(f, Pow2(f.mantSize + e))
  {
    Pow2Add(f.mantSize, e);
    GridPoint(f, Pow2(f.mantSize), e);
  }

  lemma AgreesTop(x: real, m: nat, j: nat, n: nat)
    requires j <= n && m < Pow2(n) && Agrees(x, m, Pow2(j))
    ensures x <= Pow2(n) as real
  {
    Pow2Add(n - j, j);
    hide Pow2;
    var g, d := Pow2(j), Pow2(n - j);
    DivMod(m, g);
    var k, r := m / g, m % g;
    AgreesBounds(x, m, g, r);
    hide Agrees;
    DigitBelow(m, k, r, g, d);
    hide *;
    TopOfCell(x, k, r, g, d);
  }

  lemma TopOfCell(x: real, k: nat, r: nat, g: nat, d: nat)
    requires k < d && (if r == 0 then x == (k * g + r) as real else x < (k * g + r - r + g) as real)
    ensures x <= (d * g) as real
  {
    Distribute(k, 1, g);
    MulMono(k + 1, d, g);
  }

  lemma DigitBelow(m: nat, k: nat, r: nat, g: nat, d: nat)
    requires m == k * g + r && m < d * g
    ensures k < d
  {
    if k >= d {
      MulMono(d, k, g);
    }
  }

  lemma AgreesBottom(x: real, m: nat, j: nat, n: nat)
    requires j <= n && m >= Pow2(n) && Agrees(x, m, Pow2(j))
    ensures x >= Pow2(n) as real
  {
    var g := Pow2(j);
    Pow2Add(n - j, j);
    hide Pow2;
    DivMod(m, g);
    var k := m / g;
    if k < Pow2(n - j) {
      MulMono(k + 1, Pow2(n - j), g);
      Distribute(k, 1, g);
    }
    MulMono(Pow2(n - j), k, g);
  }

  /** A normalised mantissa at exponent `aExp` stands for a number in its binade. */
  lemma Binade(f: Format, x: real, xs: real, m: nat, aExp: int)
    requires f.Valid() && Pow2(f.FSize() - 2) <= m < Pow2(f.FSize() - 1)
    requires Agrees(xs, m, Pow2(f.RndSize() - 1)) && x == Scale(xs, aExp - 1 - f.RndSize())
    ensures Scale(1.0, f.mantSize + aExp - 1) <= x <= Scale(1.0, f.mantSize + aExp)
  {
    AgreesTop(xs, m, f.RndSize() - 1, f.FSize() - 1);
    AgreesBottom(xs, m, f.RndSize() - 1, f.FSize() - 2);
    ScaleNat(1, f.FSize() - 1);
    ScaleNat(1, f.FSize() - 2);
    var d := aExp - 1 - f.RndSize();
    hide Scale;
    hide Pow2;
    Rescale(1.0, f.FSize() - 1, d);
    Rescale(1.0, f.FSize() - 2, d);
    ScaleOrder(Scale(1.0, f.FSize() - 1), xs, d);
    ScaleOrder(xs, Scale(1.0, f.FSize() - 2), d);
  }

  lemma ScaleOne(a: int, b: int)
    requires a <= b
    ensures Scale(1.0, a) <= Scale(1.0, b)
    decreases b - a
  {
    if a < b {
      ScaleOne(a, b - 1);
      assert Pow(b) == 2.0 * Pow(b - 1) by { PowStep(b - 1); }
    }
  }

  /** Numbers of the normal range are not tiny. */
  lemma NotTiny(f: Format, rm: RoundingMode, neg: bool, x: real)
    requires f.Valid() && x >= Pow2(f.mantSize) as real
    ensures !Tiny(f, rm, neg, x)
  {
    var y := 2.0 * x;
    Powers2(f, 1);
    forall t: nat | Rounds(f, rm, neg, y, t) ensures t >= 2 * Pow2(f.mantSize) {
      RoundsBetween(f, rm, neg, y, t, Pow2(f.mantSize + 1));
    }
  }

  lemma VeryTiny(f: Format, rm: RoundingMode, neg: bool, x: real)
    requires f.Valid() && 0.0 <= 2.0 * x <= Pow2(f.mantSize) as real
    ensures Tiny(f, rm, neg, x)
  {
    var y := 2.0 * x;
    Powers2(f, 0);
    var t := RoundsExactlyOne(f, rm, neg, y);
    RoundsBetween(f, rm, neg, y, t, Pow2(f.mantSize));
  }

  /** Whether the rounded significand has its extra bit. */
  lemma RoundedBelow(f: Format, rm: RoundingMode, neg: bool, m: nat)
    requires f.Valid()
    ensures RoundedMant(f, rm, neg, m) < 2 * Pow2(f.mantSize) <==> m + Addend(f, rm, neg) < Pow2(f.FSize() - 1)
  {
    hide Pow2;
    hide Addend;
    hide Shr;
    WordPowers(f);
    ShrBelow(m + Addend(f, rm, neg), f.RndSize(), 2 * Pow2(f.mantSize));
  }

  lemma WordPowers(f: Format)
    requires f.Valid()
    ensures Pow2(f.FSize() - 1) == 2 * Pow2(f.mantSize) * Pow2(f.RndSize())
    ensures Pow2(f.FSize() - 2) == Pow2(f.mantSize) * Pow2(f.RndSize())
    ensures Pow2(f.FSize()) == 2 * Pow2(f.FSize() - 1) && Pow2(f.FSize() - 1) == 2 * Pow2(f.FSize() - 2)
  {
    Pow2Add(f.mantSize, f.RndSize());
    AssocNat(2, Pow2(f.mantSize), Pow2(f.RndSize()));
  }

  lemma TinyIs(f: Format, rm: RoundingMode, neg: bool, x: real, y: real, c: nat)
    requires y == 2.0 * x && forall t: nat :: Rounds(f, rm, neg, y, t) <==> t == c
    ensures Tiny(f, rm, neg, x) <==> c < 2 * Pow2(f.mantSize)
  {
    hide Rounds;
    assert Rounds(f, rm, neg, y, c);
    if Tiny(f, rm, neg, x) {
      var t: nat :| Rounds(f, rm, neg, y, t) && t < 2 * Pow2(f.mantSize);
      assert t == c;
    }
  }

  lemma RoundStepAtZero(f: Format, rm: RoundingMode, neg: bool, y: real, xs: real, m: nat)
    requires f.Valid() && m < Pow2(f.FSize() - 1)
    requires Agrees(xs, m, Pow2(f.RndSize() - 1)) && y == Scale(xs, 0 - f.RndSize())
    ensures forall n: nat :: Rounds(f, rm, neg, y, n) <==> n == RoundedMant(f, rm, neg, m)
  {
    assert Pow2(0) == 1;
    hide Pow2;
    hide Rounds;
    hide RoundedMant;
    hide Scale;
    hide Agrees;
    WordPowers(f);
    ShrBelow(m, f.RndSize(), 2 * Pow2(f.mantSize));
    RoundStep(f, rm, neg, y, xs, m, 0);
  }

  /** The test of the code just below the smallest normal number. */
  lemma BarelyTiny(f: Format, rm: RoundingMode, neg: bool, x: real, xs: real, m: nat)
    requires f.Valid() && m < Pow2(f.FSize() - 1)
    requires Agrees(xs, m, Pow2(f.RndSize() - 1)) && x == Scale(xs, 0 - f.RndSize() - 1)
    ensures Tiny(f, rm, neg, x) <==> m + Addend(f, rm, neg) < Pow2(f.FSize() - 1)
  {
    hide Scale;
    hide Agrees;
    hide Pow2;
    hide Tiny;
    hide Rounds;
    hide RoundedMant;
    hide Addend;
    var k: int := f.RndSize();
    ScaleStep(xs, 0 - k - 1);
    RoundStepAtZero(f, rm, neg, 2.0 * x, xs, m);
    TinyIs(f, rm, neg, x, 2.0 * x, RoundedMant(f, rm, neg, m));
    RoundedBelow(f, rm, neg, m);
  }

  lemma ShrBelow(a: nat, k: nat, d: nat)
    ensures Shr(a, k) < d <==> a < d * Pow2(k)
  {
    var g := Pow2(k);
    hide Pow2;
    DivMod(a, g);
    if a / g < d {
      MulMono(a / g + 1, d, g);
      Distribute(a / g, 1, g);
    } else {
      MulMono(d, a / g, g);
    }
  }

  // ----- packing

  ghost predicate Represents(f: Format, neg: bool, w: nat, n: nat)
    requires f.Valid()
  {
    IsWord(f, w) && Neg(f, w) == neg && Finite(f, w) && Mag(f, w) == n && n <= MaxMag(f)
  }

  lemma SmallWord(f: Format, neg: bool, c: nat)
    requires f.Valid() && c < Pow2(f.mantSize)
    ensures Represents(f, neg, Pack(f, neg, 0, c), c)
  {
    PackFields(f, neg, 0, c);
    SmallMod(c, Pow2(f.mantSize));
    MulMonoRightNat(2 * Pow2(f.mantSize) - 1, Pow2(f.ExpMask() - 2));
  }

  lemma NormalWord(f: Format, neg: bool, exp: nat, c: nat)
    requires f.Valid() && 1 <= exp
    ensures var n := (Pow2(f.mantSize) + c % Pow2(f.mantSize)) * Pow2(exp - 1);
            if exp < f.ExpMask() then Represents(f, neg, Pack(f, neg, exp, c), n) else n > MaxMag(f)
  {
    var p, m := Pow2(f.mantSize), c % Pow2(f.mantSize);
    DivMod(c, p);
    var top := Pow2(f.ExpMask() - 2);
    if exp < f.ExpMask() {
      PackFields(f, neg, exp, c);
      Pow2Mono(exp - 1, f.ExpMask() - 2);
      hide Pow2;
      MulMonoRight(p + m, Pow2(exp - 1), top);
      MulMono(p + m, 2 * p - 1, top);
    } else {
      Pow2Mono(f.ExpMask() - 1, exp - 1);
      assert Pow2(f.ExpMask() - 1) == 2 * top;
      hide Pow2;
      MulMonoRight(p + m, 2 * top, Pow2(exp - 1));
      MulMono(p, p + m, 2 * top);
      AssocNat(p, 2, top);
      Distribute(2 * p - 1, 1, top);
    }
  }

  /** The word for the rounded significand `c` at exponent `e`, unless it overflows. */
  lemma PackedWord(f: Format, neg: bool, c: nat, e: nat)
    requires f.Valid() && c <= 2 * Pow2(f.mantSize) && (e == 0 || Pow2(f.mantSize) <= c)
    ensures var p := Pow2(f.mantSize);
            var exp := e + 1 + Shr(c, f.mantSize + 1);
            if c < p then Represents(f, neg, Pack(f, neg, 0, c), c * Pow2(e))
            else if exp < f.ExpMask() then Represents(f, neg, Pack(f, neg, exp, c), c * Pow2(e))
            else c * Pow2(e) > MaxMag(f)
  {
    hide Represents;
    hide Pack;
    hide MaxMag;
    var p := Pow2(f.mantSize);
    assert Pow2(f.mantSize + 1) == 2 * p && Pow2(0) == 1 && Pow2(e + 1) == 2 * Pow2(e);
    var d := Pow2(f.mantSize + 1);
    hide Pow2;
    if c < p {
      SmallWord(f, neg, c);
    } else if c < 2 * p {
      SmallMod(c, d);
      DivRem(1, c - p, p);
      NormalWord(f, neg, e + 1, c);
    } else {
      DivRem(1, 0, d);
      DivRem(2, 0, p);
      NormalWord(f, neg, e + 2, c);
      AssocNat(p, 2, Pow2(e));
    }
  }

  // ----- the function of the source

  /** The effect of moving a number below the normal range to exponent 1. */
  lemma Subnormal(f: Format, rm: RoundingMode, neg: bool, x: real, xs: real, m: nat, aExp: int)
    requires f.Valid() && m < Pow2(f.FSize() - 1) && aExp <= 0 && (m == 0 || Pow2(f.FSize() - 2) <= m)
    requires Agrees(xs, m, Pow2(f.RndSize() - 1)) && x == Scale(xs, aExp - 1 - f.RndSize())
    ensures var r := RshiftRnd(f, m, 1 - aExp);
            && r <= m && Agrees(Scale(xs, aExp - 1), r, Pow2(f.RndSize() - 1))
            && x == Scale(Scale(xs, aExp - 1), 0 - f.RndSize())
    ensures m > 0 ==> (Tiny(f, rm, neg, x) <==> aExp < 0 || m + Addend(f, rm, neg) < Pow2(f.FSize() - 1))
  {
    assert IsWord(f, m);
    RshiftIsJam(f, m, 1 - aExp);
    JamSmaller(m, 1 - aExp);
    AgreesJam(xs, m, f.RndSize() - 1, 1 - aExp);
    Rescale(xs, aExp - 1, 0 - f.RndSize());
    if m > 0 {
      if aExp == 0 {
        BarelyTiny(f, rm, neg, x, xs, m);
      } else {
        Binade(f, x, xs, m, aExp);
        ScaleOne(f.mantSize + aExp, f.mantSize - 1);
        ScaleStep(1.0, f.mantSize - 1);
        ScaleNat(1, f.mantSize);
        ScalePositive(f.mantSize + aExp - 1);
        VeryTiny(f, rm, neg, x);
      }
    }
  }

  lemma ScalePositive(e: int)
    ensures Scale(1.0, e) > 0.0
  {
  }

  /** The flags and the word of a significand `c` at exponent `e`. */
  lemma Delivered(f: Format, rm: RoundingMode, neg: bool, x: real, c: nat, e: nat, w: nat, raised: Flags)
    requires f.Valid() && Rounds(f, rm, neg, x, c * Pow2(e))
    requires c <= 2 * Pow2(f.mantSize) && (e == 0 || Pow2(f.mantSize) <= c)
    requires var exp := e + 1 + Shr(c, f.mantSize + 1);
             var over := c >= Pow2(f.mantSize) && exp >= f.ExpMask();
             && w == (if over then OverflowWord(f, rm, neg)
                      else Pack(f, neg, if c < Pow2(f.mantSize) then 0 else exp, c))
             && raised.overflow == over && raised.inexact == (over || x != (c * Pow2(e)) as real)
    requires raised.underflow == (x != (c * Pow2(e)) as real && Tiny(f, rm, neg, x))
    requires !raised.divideZero && !raised.invalid
    ensures Rounded(f, rm, neg, x, w, raised)
  {
    PackedWord(f, neg, c, e);
    PackFields(f, neg, f.ExpMask(), 0);
    PackFields(f, neg, f.ExpMask() - 1, Pow2(f.mantSize) - 1);
    hide Rounds;
    hide Tiny;
    hide Pack;
    hide MaxMag;
    hide Pow2;
    assert Delivers(f, rm, neg, x, c * Pow2(e), w, raised);
  }

  /** A zero mantissa is delivered as a zero. */
  lemma ZeroStep(f: Format, rm: RoundingMode, neg: bool)
    requires f.Valid()
    ensures RoundedMant(f, rm, neg, 0) == 0 && Rounds(f, rm, neg, 0.0, 0) && Low(0, f.RndSize()) == 0
  {
    WordPowers(f);
    assert Agrees(0.0, 0, Pow2(f.RndSize() - 1));
    assert Scale(0.0, 0 - f.RndSize()) == 0.0;
    RoundStepAtZero(f, rm, neg, 0.0, 0.0, 0);
    MantRule(f, rm, neg, 0);
  }

  /** `c` at exponent `e` is the rounded significand of `x`. */
  ghost predicate RoundsAt(f: Format, rm: RoundingMode, neg: bool, x: real, c: nat, e: nat, exact: bool) {
    && Rounds(f, rm, neg, x, c * Pow2(e)) && c <= 2 * Pow2(f.mantSize) && (e == 0 || Pow2(f.mantSize) <= c)
    && (x == (c * Pow2(e)) as real <==> exact)
  }

  /** The significand and its flags, at the exponent that the number is rounded at. */
  lemma Prepared(f: Format, rm: RoundingMode, neg: bool, x: real, ys: real, mant: nat, e: nat)
    requires f.Valid() && mant < Pow2(f.FSize() - 1) && (e == 0 || mant == 0 || Pow2(f.FSize() - 2) <= mant)
    requires Agrees(ys, mant, Pow2(f.RndSize() - 1)) && x == Scale(ys, e - f.RndSize())
    ensures RoundsAt(f, rm, neg, x, RoundedMant(f, rm, neg, mant), if mant == 0 then 0 else e,
                     Low(mant, f.RndSize()) == 0)
    ensures mant == 0 ==> RoundedMant(f, rm, neg, mant) == 0
  {
    hide Rounds;
    hide Scale;
    hide RoundedMant;
    hide RoundsAt;
    if mant == 0 {
      PreparedZero(f, rm, neg, x, ys, e - f.RndSize());
    } else {
      PreparedFull(f, rm, neg, x, ys, mant, e);
    }
  }

  lemma PreparedZero(f: Format, rm: RoundingMode, neg: bool, x: real, ys: real, d: int)
    requires f.Valid() && Agrees(ys, 0, Pow2(f.RndSize() - 1)) && x == Scale(ys, d)
    ensures RoundsAt(f, rm, neg, x, RoundedMant(f, rm, neg, 0), 0, Low(0, f.RndSize()) == 0)
    ensures RoundedMant(f, rm, neg, 0) == 0
  {
    hide Rounds;
    hide Scale;
    hide RoundedMant;
    hide Low;
    hide Pow2;
    AgreesZero(ys, Pow2(f.RndSize() - 1));
    ZeroScale(ys, d);
    ZeroStep(f, rm, neg);
  }

  lemma AgreesZero(ys: real, g: nat)
    requires g > 0 && Agrees(ys, 0, g)
    ensures ys == 0.0
  {
    SmallMod(0, g);
  }

  lemma PreparedFull(f: Format, rm: RoundingMode, neg: bool, x: real, ys: real, mant: nat, e: nat)
    requires f.Valid() && mant < Pow2(f.FSize() - 1) && (e == 0 || Pow2(f.FSize() - 2) <= mant)
    requires Agrees(ys, mant, Pow2(f.RndSize() - 1)) && x == Scale(ys, e - f.RndSize())
    ensures RoundsAt(f, rm, neg, x, RoundedMant(f, rm, neg, mant), e, Low(mant, f.RndSize()) == 0)
  {
    hide Rounds;
    hide Scale;
    hide RoundedMant;
    hide Pow2;
    hide Agrees;
    hide UpRule;
    hide Low;
    WordPowers(f);
    ShrBelow(mant, f.RndSize(), 2 * Pow2(f.mantSize));
    ShrBelow(mant, f.RndSize(), Pow2(f.mantSize));
    hide Shr;
    RoundStep(f, rm, neg, x, ys, mant, e);
    MantRule(f, rm, neg, mant);
  }

  lemma ZeroScale(y: real, e: int)
    requires y == 0.0
    ensures Scale(y, e) == 0.0
  {
  }

  /** The first half of `round_pack_sf`: numbers below the normal range. */
  method Denormalise(f: Format, neg: bool, aExp: int, aMant: nat, rm: RoundingMode, ghost xs: real, ghost x: real)
    returns (exp: nat, mant: nat, underflow: bool, ghost ys: real)
    requires f.Valid() && aMant < Pow2(f.FSize() - 1) && (aMant == 0 || Pow2(f.FSize() - 2) <= aMant)
    requires Agrees(xs, aMant, Pow2(f.RndSize() - 1)) && x == Scale(xs, aExp - 1 - f.RndSize())
    ensures 1 <= exp && mant < Pow2(f.FSize() - 1) && (exp == 1 || mant == 0 || Pow2(f.FSize() - 2) <= mant)
    ensures Agrees(ys, mant, Pow2(f.RndSize() - 1)) && x == Scale(ys, exp - 1 - f.RndSize())
    ensures underflow == (Low(mant, f.RndSize()) != 0 && Tiny(f, rm, neg, x))
  {
    hide Scale;
    hide Tiny;
    hide Pow2;
    hide Addend;
    hide Agrees;
    hide Low;
    mant := aMant;
    if aExp <= 0 {
      var isSubnormal := aExp < 0 || aMant + Addend(f, rm, neg) < Pow2(f.FSize() - 1);
      Subnormal(f, rm, neg, x, xs, aMant, aExp);
      mant := RshiftRnd(f, aMant, 1 - aExp);
      LowOfZero(f.RndSize());
      underflow := isSubnormal && Low(mant, f.RndSize()) != 0;
      exp := 1;
      ys := Scale(xs, aExp - 1);
    } else {
      exp, underflow, ys := aExp, false, xs;
      if mant != 0 {
        Binade(f, x, xs, mant, aExp);
        ScaleOne(f.mantSize, f.mantSize + aExp - 1);
        ScaleNat(1, f.mantSize);
        NotTiny(f, rm, neg, x);
      }
      LowOfZero(f.RndSize());
    }
  }

  lemma LowOfZero(k: nat)
    ensures Low(0, k) == 0
  {
    SmallMod(0, Pow2(k));
  }

  /** `round_pack_sf`. The mantissa has its highest bit at F_SIZE - 2 and stands
      for the exact mantissa `xs`, that is, for the exact magnitude `x`. */
  method RoundPack(f: Format, neg: bool, aExp: int, aMant: nat, rm: RoundingMode, ghost xs: real, ghost x: real)
    returns (w: nat, raised: Flags)
    requires f.Valid() && aMant < Pow2(f.FSize() - 1) && (aMant == 0 || Pow2(f.FSize() - 2) <= aMant)
    requires Agrees(xs, aMant, Pow2(f.RndSize() - 1)) && x == Scale(xs, aExp - 1 - f.RndSize())
    ensures Rounded(f, rm, neg, x, w, raised)
  {
    hide Scale;
    hide Tiny;
    hide Agrees;
    hide Rounds;
    hide Rounded;
    hide Low;
    hide Pow2;
    var addend := Addend(f, rm, neg);
    var exp, mant, underflow, ys := Denormalise(f, neg, aExp, aMant, rm, xs, x);
    Prepared(f, rm, neg, x, ys, mant, exp - 1);
    ghost var e := if mant == 0 then 0 else exp - 1;
    var rndBits := Low(mant, f.RndSize());
    var inexact, overflow := rndBits != 0, false;
    mant := Shr(mant + addend, f.RndSize());
    if rm == RNE && rndBits == Pow2(f.RndSize() - 1) {
      mant := mant - mant % 2;
    }
    ghost var c := mant;
    exp := exp + Shr(mant, f.mantSize + 1);
    if mant <= Pow2(f.mantSize) - 1 {
      exp := 0;
    } else if exp >= f.ExpMask() {
      if addend == 0 {
        exp, mant := f.ExpMask() - 1, Pow2(f.mantSize) - 1;
      } else {
        exp, mant := f.ExpMask(), 0;
      }
      overflow, inexact := true, true;
    }
    w := Pack(f, neg, exp, mant);
    raised := Flags(inexact, underflow, overflow, false, false);
    AddendCases(f, rm, neg);
    hide Addend;
    hide Shr;
    Delivered(f, rm, neg, x, c, e, w, raised);
  }

  // ----- normalisation

  /** A mantissa that stands for `xs`: exactly, or with a sticky bit far enough to the right. */
  ghost predicate StandsFor(f: Format, xs: real, m: nat) {
    xs == m as real || (Pow2(f.mantSize + 2) <= m && Agrees(xs, m, 2))
  }

  /** A number between `q` and `q + 1`, cut to `q` with a sticky bit. */
  lemma FloorStands(f: Format, x: real, q: nat, exact: bool)
    requires f.Valid() && Pow2(f.mantSize + 2) <= q < Pow2(f.FSize() - 1)
    requires q as real <= x < (q + 1) as real && (exact <==> x == q as real)
    ensures Or1(q, !exact) < Pow2(f.FSize() - 1) && StandsFor(f, x, Or1(q, !exact))
  {
    Or1Below(q, !exact, f.FSize() - 1);
    AgreesFloor(x, q, exact);
  }

  lemma ExactStands(f: Format, m: nat)
    ensures StandsFor(f, m as real, m)
  {
  }

  lemma Normalised(f: Format, xs: real, m: nat, x: real, aExp: int)
    requires f.Valid() && m < Pow2(f.FSize() - 1) && StandsFor(f, xs, m) && x == Scale(xs, aExp - 1 - f.RndSize())
    ensures IsWord(f, m) && Clz(m, f.FSize()) >= 1
    ensures var s: int := Clz(m, f.FSize()) - 1;
            && m * Pow2(s) < Pow2(f.FSize() - 1) && (m == 0 || Pow2(f.FSize() - 2) <= m * Pow2(s))
            && Agrees(Scale(xs, s), m * Pow2(s), Pow2(f.RndSize() - 1))
            && x == Scale(Scale(xs, s), aExp - s - 1 - f.RndSize())
  {
    hide *;
    Sizes(f);
    StandsIs(f, xs, m);
    ShortWord(f, m);
    var s: nat := Clz(m, f.FSize()) - 1;
    Rescale(xs, s, aExp - s - 1 - f.RndSize());
    ShlBounds(m, f.FSize() - s - 1, s);
    if xs == m as real {
      ExactLeft(m, s, f.RndSize() - 1);
    } else {
      Pow2Less(f.mantSize + 2, f.FSize() - s - 1);
      LeftAgrees(xs, m, s, f.RndSize() - 1);
    }
  }

  lemma ExactLeft(m: nat, s: nat, j: nat)
    ensures Agrees(Scale(m as real, s), m * Pow2(s), Pow2(j))
  {
    ScaleNat(m, s);
    AgreesExact(m * Pow2(s), Pow2(j));
  }

  lemma ClzSmall(m: nat, size: nat)
    requires size > 0 && m < Pow2(size - 1)
    ensures m < Pow2(size) && Clz(m, size) >= 1
  {
    Pow2Mono(size - 1, size);
    if m > 0 {
      Pow2Less(size - Clz(m, size) - 1, size - 1);
    }
  }

  lemma StandsIs(f: Format, xs: real, m: nat)
    requires StandsFor(f, xs, m)
    ensures xs == m as real || (Pow2(f.mantSize + 2) <= m && Agrees(xs, m, 2))
  {
  }

  lemma ShortWord(f: Format, m: nat)
    requires f.Valid() && m < Pow2(f.FSize() - 1)
    ensures IsWord(f, m) && m < Pow2(f.FSize()) && Clz(m, f.FSize()) >= 1
  {
    hide Pow2;
    ClzSmall(m, f.FSize());
  }

  lemma LeftAgrees(xs: real, m: nat, s: nat, j: nat)
    requires Agrees(xs, m, 2) && s + 1 <= j
    ensures Agrees(Scale(xs, s), m * Pow2(s), Pow2(j))
  {
    AgreesShl(xs, m, 1, s);
    AgreesCoarse(Scale(xs, s), m * Pow2(s), s + 1, j);
  }

  /** `normalize_sf`. */
  method Normalize(f: Format, neg: bool, aExp: int, aMant: nat, rm: RoundingMode, ghost xs: real, ghost x: real)
    returns (w: nat, raised: Flags)
    requires f.Valid() && aMant < Pow2(f.FSize() - 1) && StandsFor(f, xs, aMant)
    requires x == Scale(xs, aExp - 1 - f.RndSize())
    ensures Rounded(f, rm, neg, x, w, raised)
  {
    Normalised(f, xs, aMant, x, aExp);
    hide Scale;
    hide Agrees;
    hide Rounded;
    var shift: nat := Clz(aMant, f.FSize()) - 1;
    w, raised := RoundPack(f, neg, aExp - shift, aMant * Pow2(shift), rm, Scale(xs, shift), x);
  }
}
