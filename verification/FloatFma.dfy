/** `normalize2_sf` and `fma_sf`: the exact `a * b + c`, rounded once. */
module FloatFma {
  import opened Powers
  import opened FloatSpec
  import opened FloatRounding
  import opened FloatSticky
  import opened FloatPack
  import opened FloatUnpack
  import opened FloatAdd
  import opened FloatMul

  // ----- normalisation of a double word

  /** A double-word mantissa that stands for `dx`: exactly, or to within its high
      word and with its highest bit near the top. */
  ghost predicate StandsForWide(f: Format, dx: real, d: nat)
    requires f.Valid()
  {
    dx == d as real || (Pow2(2 * f.FSize() - 4) <= d && Agrees(dx, d, Pow2(f.FSize())))
  }

  lemma LowShift(lo: nat, q: nat, r: nat, g: nat, p: nat, w: nat)
    requires lo == q * g + r && r < g && w == g * p && p > 0
    ensures lo * p == q * w + r * p && r * p < w && (lo * p) % w == r * p
  {
    assert r * p < w by {
      MulMono(r + 1, g, p);
      Distribute(r, 1, p);
    }
    assert lo * p == q * w + r * p by {
      Distribute(q * g, r, p);
      AssocNat(q, g, p);
    }
    DivRem(q, r * p, w);
  }

  lemma HighShift(hi: nat, lo: nat, p: nat, q: nat, r: nat, w: nat)
    requires lo * p == q * w + r
    ensures (hi * w + lo) * p == (hi * p + q) * w + r
  {
    Distribute(hi * w, lo, p);
    AssocNat(hi, w, p);
    AssocNat(hi, p, w);
    Distribute(hi * p, q, w);
  }

  lemma LowWordShift(n: nat, lo: nat, s: nat)
    requires s <= n && lo < Pow2(n)
    ensures Shl(lo, s) == Shr(lo, n - s) * Pow2(n) + Low(Shl(lo, s), n)
  {
    var p, q, r, w := Pow2(s), Shr(lo, n - s), Low(lo, n - s), Pow2(n);
    assert Shl(lo, s) == lo * p;
    hide *;
    Pow2Add(n - s, s);
    HalfSplit(lo, n - s);
    LowIs(lo * p, n);
    LowShift(lo, q, r, Pow2(n - s), p, w);
  }

  /** A shift to the left that keeps the top bit, seen word by word. */
  lemma ShlWide(n: nat, hi: nat, lo: nat, s: nat)
    requires s <= n && lo < Pow2(n)
    ensures Shl(Double(n, hi, lo), s) == Double(n, Shl(hi, s) + Shr(lo, n - s), Low(Shl(lo, s), n))
  {
    LowWordShift(n, lo, s);
    hide Pow2;
    hide Shr;
    hide Low;
    HighShift(hi, lo, Pow2(s), Shr(lo, n - s), Low(Shl(lo, s), n), Pow2(n));
  }

  lemma LowIs(x: nat, n: nat)
    ensures Low(x, n) == x % Pow2(n)
  {
  }

  /** The size of a double word shows in its high word. */
  lemma HighTest(n: nat, hi: nat, lo: nat, k: nat)
    requires lo < Pow2(n)
    ensures hi < Pow2(k) <==> Double(n, hi, lo) < Pow2(k + n)
  {
    Pow2Add(k, n);
    hide Pow2;
    if hi < Pow2(k) {
      MulMono(hi + 1, Pow2(k), Pow2(n));
      Distribute(hi, 1, Pow2(n));
    } else {
      MulMono(Pow2(k), hi, Pow2(n));
    }
  }

  /** The shift count of `normalize2_sf`, from the words. */
  lemma WideClz(n: nat, hi: nat, lo: nat, s: nat)
    requires n >= 2 && hi < Pow2(n - 1) && lo < Pow2(n) && hi < Pow2(n)
    requires s == (if hi == 0 then n + Clz(lo, n) else Clz(hi, n)) - 1
    ensures var d := Double(n, hi, lo);
            Shl(d, s) < Pow2(2 * n - 1) && (d > 0 ==> s < 2 * n - 1 && Pow2(2 * n - 2) <= Shl(d, s))
  {
    var d := Double(n, hi, lo);
    hide Pow2;
    if hi == 0 {
      DoubleLow(n, lo);
      hide Double;
      ShlSize(lo, n - Clz(lo, n), s);
    } else {
      var l := n - Clz(hi, n);
      HighTest(n, hi, lo, l);
      HighTest(n, hi, lo, l - 1);
      hide Double;
      ShlSize(d, l + n, s);
    }
  }

  lemma ShlSize(d: nat, l: nat, s: nat)
    requires d < Pow2(l)
    ensures Shl(d, s) < Pow2(l + s) && (l > 0 && Pow2(l - 1) <= d ==> Pow2(l - 1 + s) <= Shl(d, s))
  {
    ShlBounds(d, l, s);
  }

  /** The mantissa that is left of a double word after normalisation. */
  lemma WideNormalised(f: Format, dx: real, d: nat, s: nat)
    requires f.Valid() && StandsForWide(f, dx, d)
    requires Shl(d, s) < Pow2(2 * f.FSize() - 1) && (d == 0 || Pow2(2 * f.FSize() - 2) <= Shl(d, s))
    ensures var n, m := f.FSize(), Jam(Shl(d, s), f.FSize());
            && m < Pow2(n - 1) && (m == 0 || Pow2(n - 2) <= m)
            && Agrees(Scale(Scale(dx, s), 0 - n), m, Pow2(f.RndSize() - 1))
  {
    hide Scale;
    hide Agrees;
    hide Jam;
    WideBits(f.FSize(), Shl(d, s));
    if dx == d as real {
      ExactNormalised(f, d, s);
    } else {
      CoarseNormalised(f, dx, d, s);
    }
  }

  lemma WideBits(n: nat, e: nat)
    requires n >= 2 && e < Pow2(2 * n - 1) && (e == 0 || Pow2(2 * n - 2) <= e)
    ensures Jam(e, n) < Pow2(n - 1) && (Jam(e, n) == 0 || Pow2(n - 2) <= Jam(e, n))
  {
    if e == 0 {
      SmallMod(0, Pow2(n));
    } else {
      JamBounds(e, 2 * n - 2, 2 * n - 1, n);
    }
  }

  lemma ExactNormalised(f: Format, d: nat, s: nat)
    requires f.Valid()
    ensures Agrees(Scale(Scale(d as real, s), 0 - f.FSize()), Jam(Shl(d, s), f.FSize()), Pow2(f.RndSize() - 1))
  {
    hide Agrees;
    hide Scale;
    hide Jam;
    ScaleNat(d, s);
    AgreesExact(Shl(d, s), Pow2(f.RndSize() - 1));
    AgreesJam((Shl(d, s)) as real, Shl(d, s), f.RndSize() - 1, f.FSize());
  }

  lemma CoarseNormalised(f: Format, dx: real, d: nat, s: nat)
    requires f.Valid() && Pow2(2 * f.FSize() - 4) <= d && Agrees(dx, d, Pow2(f.FSize()))
    requires Shl(d, s) < Pow2(2 * f.FSize() - 1)
    ensures Agrees(Scale(Scale(dx, s), 0 - f.FSize()), Jam(Shl(d, s), f.FSize()), Pow2(f.RndSize() - 1))
  {
    hide Agrees;
    hide Scale;
    hide Jam;
    var n := f.FSize();
    FewBits(n, d, s);
    var j := if s == 0 then 1 else s;
    AgreesShl(dx, d, n, s);
    AgreesCoarse(Scale(dx, s), Shl(d, s), n + s, n + j);
    AgreesJamFine(Scale(dx, s), Shl(d, s), n + j, n);
    AgreesCoarse(Scale(Scale(dx, s), 0 - f.FSize()), Jam(Shl(d, s), n), j, f.RndSize() - 1);
  }

  lemma FewBits(n: nat, d: nat, s: nat)
    requires n >= 4 && Pow2(2 * n - 4) <= d && Shl(d, s) < Pow2(2 * n - 1)
    ensures s <= 2
  {
    ShlLower(d, 2 * n - 4, s);
    hide Shl;
    Pow2Less(2 * n - 4 + s, 2 * n - 1);
  }

  lemma ShlLower(d: nat, a: nat, s: nat)
    requires Pow2(a) <= d
    ensures Pow2(a + s) <= Shl(d, s)
  {
    Pow2Add(a, s);
    MulMono(Pow2(a), d, Pow2(s));
  }

  /** The shift of `normalize2_sf`, down to one word with a sticky bit. */
  method ShiftWide(n: nat, aMant1: nat, aMant0: nat, shift: nat) returns (m: nat)
    requires aMant0 < Pow2(n) && (shift >= n ==> aMant1 == 0)
    ensures m == Jam(Shl(Double(n, aMant1, aMant0), shift), n)
  {
    hide Jam;
    hide Double;
    hide Pow2;
    if shift == 0 {
      m := Or1(aMant1, aMant0 != 0);
    } else if shift < n {
      var hi := Shl(aMant1, shift) + Shr(aMant0, n - shift);
      var lo := Low(Shl(aMant0, shift), n);
      m := Or1(hi, lo != 0);
    } else {
      m := Shl(aMant0, shift - n);
    }
    ShiftedWords(n, aMant1, aMant0, shift, m);
  }

  /** `normalize2_sf`. */
  method Normalize2(f: Format, neg: bool, aExp: int, aMant1: nat, aMant0: nat, rm: RoundingMode,
                    ghost dx: real, ghost x: real)
    returns (w: nat, raised: Flags)
    requires f.Valid() && aMant1 < Pow2(f.FSize() - 1) && aMant0 < Pow2(f.FSize())
    requires StandsForWide(f, dx, Double(f.FSize(), aMant1, aMant0))
    requires x == Scale(dx, aExp - 1 - f.RndSize() - f.FSize())
    ensures Rounded(f, rm, neg, x, w, raised)
  {
    var n := f.FSize();
    Pow2Mono(n - 1, n);
    ClzSmall(aMant1, n);
    hide Rounded;
    hide StandsForWide;
    hide Scale;
    hide Agrees;
    hide Jam;
    hide Double;
    var shift: nat := (if aMant1 == 0 then n + Clz(aMant0, n) else Clz(aMant1, n)) - 1;
    ghost var d := Double(n, aMant1, aMant0);
    WideClz(n, aMant1, aMant0, shift);
    WideNormalised(f, dx, d, shift);
    var m := ShiftWide(n, aMant1, aMant0, shift);
    Rescale(dx, shift, 0 - f.FSize());
    Rescale(dx, shift - f.FSize(), aExp - shift - 1 - f.RndSize());
    w, raised := RoundPack(f, neg, aExp - shift, m, rm, Scale(Scale(dx, shift), 0 - f.FSize()), x);
  }

  /** The three ways of shifting deliver the same mantissa. */
  lemma ShiftedWords(n: nat, hi: nat, lo: nat, s: nat, m: nat)
    requires lo < Pow2(n) && (s >= n ==> hi == 0)
    requires m == if s == 0 then Or1(hi, lo != 0)
                  else if s < n then Or1(Shl(hi, s) + Shr(lo, n - s), Low(Shl(lo, s), n) != 0)
                  else Shl(lo, s - n)
    ensures m == Jam(Shl(Double(n, hi, lo), s), n)
  {
    hide Double;
    hide Shl;
    hide Shr;
    hide Low;
    hide Jam;
    hide Or1;
    if s == 0 {
      ShlZero(Double(n, hi, lo));
      JamHigh(n, hi, lo);
    } else if s < n {
      ShlWide(n, hi, lo, s);
      LowBound(Shl(lo, s), n);
      JamHigh(n, Shl(hi, s) + Shr(lo, n - s), Low(Shl(lo, s), n));
    } else {
      DoubleLow(n, lo);
      JamShl(lo, s, n);
    }
  }

  lemma ShlZero(a: nat)
    ensures Shl(a, 0) == a
  {
    assert Pow2(0) == 1;
  }

  lemma LowBound(a: nat, n: nat)
    ensures Low(a, n) < Pow2(n)
  {
  }

  lemma DoubleLow(n: nat, lo: nat)
    ensures Double(n, 0, lo) == lo
  {
  }

  lemma JamShl(a: nat, s: nat, n: nat)
    requires s >= n
    ensures Jam(Shl(a, s), n) == Shl(a, s - n)
  {
    Pow2Add(s - n, n);
    hide Pow2;
    AssocNat(a, Pow2(s - n), Pow2(n));
    DivRem(a * Pow2(s - n), 0, Pow2(n));
  }

  // ----- alignment of the smaller operand

  lemma SplitShift(n: nat, hi: nat, lo: nat, s: nat)
    requires s <= n
    ensures Double(n, hi, lo) == (Shl(hi, n - s) + Shr(lo, s)) * Pow2(s) + Low(lo, s)
  {
    Pow2Add(n - s, s);
    HalfSplit(lo, s);
    hide Pow2;
    hide Shr;
    hide Low;
    AssocNat(hi, Pow2(n - s), Pow2(s));
    Distribute(hi * Pow2(n - s), Shr(lo, s), Pow2(s));
  }

  lemma JamOf(a: nat, q: nat, r: nat, s: nat)
    requires a == q * Pow2(s) + r && r < Pow2(s)
    ensures Jam(a, s) == Or1(q, r != 0)
  {
    DivRem(q, r, Pow2(s));
  }

  lemma Or1High(n: nat, hi: nat, x: nat, b: bool)
    requires n > 0 && x < Pow2(n)
    ensures Or1(Double(n, hi, x), b) == Double(n, hi, Or1(x, b)) && Or1(x, b) < Pow2(n)
  {
    hide Or1;
    Or1Below(x, b, n);
    hide Pow2;
    Pow2Even(n + 1);
    EvenTimes(hi, Pow2(n));
    Or1Sum(hi * Pow2(n), x, b);
  }

  lemma Or1Sum(e: nat, x: nat, b: bool)
    requires e % 2 == 0
    ensures Or1(e + x, b) == e + Or1(x, b)
  {
  }

  /** The lower word of a shift by less than a word. */
  lemma ShiftedLow(n: nat, hi: nat, lo: nat, s: nat)
    requires 0 < s < n && hi < Pow2(n) && lo < Pow2(n)
    ensures var x := Low(Shl(hi, n - s), n) + Shr(lo, s);
            && x < Pow2(n) && Or1(x, Low(lo, s) != 0) < Pow2(n)
            && Jam(Double(n, hi, lo), s) == Double(n, Shr(hi, s), Or1(x, Low(lo, s) != 0))
  {
    var x := Low(Shl(hi, n - s), n) + Shr(lo, s);
    hide Jam;
    hide Or1;
    SplitShift(n, hi, lo, s);
    LowBound(lo, s);
    JamOf(Double(n, hi, lo), Shl(hi, n - s) + Shr(lo, s), Low(lo, s), s);
    LowWordShift(n, hi, n - s);
    assert x < Pow2(n) by { LowSum(n, hi, lo, s); }
    hide Pow2;
    hide Shr;
    hide Low;
    assert Double(n, Shr(hi, s), x) == Shl(hi, n - s) + Shr(lo, s);
    Or1High(n, Shr(hi, s), x, Low(lo, s) != 0);
  }

  lemma LowSum(n: nat, hi: nat, lo: nat, s: nat)
    requires 0 < s < n && hi < Pow2(n) && lo < Pow2(n)
    ensures Low(Shl(hi, n - s), n) + Shr(lo, s) < Pow2(n)
  {
    Pow2Add(n - s, s);
    HalfSplit(hi, s);
    HalfSplit(lo, s);
    var p, g, q, r := Pow2(n - s), Pow2(s), Shr(hi, s), Low(hi, s);
    hide Pow2;
    hide Shr;
    hide Low;
    LowIs(Shl(hi, n - s), n);
    AssocNat(p, g, 1);
    LowShift(hi, q, r, g, p, Pow2(n));
    DigitBelow(lo, Shr(lo, s), Low(lo, s), g, p);
    MulMono(r + 1, g, p);
    Distribute(r, 1, p);
  }

  lemma FarJam(n: nat, hi: nat, lo: nat, s: nat)
    requires hi < Pow2(n) && lo < Pow2(n) && s >= 2 * n
    ensures Jam(Double(n, hi, lo), s) == Bit(lo != 0 || hi != 0)
  {
    var d := Double(n, hi, lo);
    assert d < Pow2(s) by {
      Pow2Add(n, n);
      Pow2Mono(2 * n, s);
      hide Pow2;
      MulMono(hi + 1, Pow2(n), Pow2(n));
      Distribute(hi, 1, Pow2(n));
    }
    assert d == 0 <==> hi == 0 && lo == 0 by {
      MulMonoRightNat(hi, Pow2(n));
    }
    hide Double;
    SmallMod(d, Pow2(s));
  }

  /** A shift by more than a word, when the low word is zero. */
  lemma HighJam(n: nat, hi: nat, s: nat)
    requires n <= s
    ensures Jam(Double(n, hi, 0), s) == Jam(hi, s - n)
  {
    JamHigh(n, hi, 0);
    JamCompose(Double(n, hi, 0), n, s - n);
  }

  /** The shift of the smaller operand in `fma_sf`. Past one word it forgets the
      low word. */
  method AlignWide(f: Format, c1: nat, c0: nat, shift: nat) returns (d1: nat, d0: nat)
    requires f.Valid() && 0 < c1 < Pow2(f.FSize()) && c0 < Pow2(f.FSize())
    ensures d1 <= c1 && d0 < Pow2(f.FSize())
    ensures shift <= f.FSize() || shift >= 2 * f.FSize() || c0 == 0 ==>
              Double(f.FSize(), d1, d0) == Jam(Double(f.FSize(), c1, c0), shift)
    ensures shift > f.FSize() ==> d1 == 0 && 0 < d0
  {
    var n := f.FSize();
    hide Pow2;
    hide Jam;
    hide Double;
    hide Or1;
    hide Shr;
    hide Low;
    hide Shl;
    hide RshiftRnd;
    d1, d0 := 0, 0;
    if shift >= 2 * n {
      d0 := Bit(c0 != 0 || c1 != 0);
      FarJam(n, c1, c0, shift);
      DoubleLow(n, d0);
      PowerAbove(n);
    } else if shift >= n + 1 {
      d0 := RshiftRnd(f, c1, shift - n);
      RshiftIsJam(f, c1, shift - n);
      JamPositive(c1, shift - n);
      HighJam(n, c1, shift);
      DoubleLow(n, d0);
    } else if shift == n {
      d0 := Or1(c1, c0 != 0);
      JamHigh(n, c1, c0);
      DoubleLow(n, d0);
      Or1Below(c1, c0 != 0, n);
    } else if shift != 0 {
      d0 := Or1(Low(Shl(c1, n - shift), n) + Shr(c0, shift), Low(c0, shift) != 0);
      d1 := Shr(c1, shift);
      ShiftedLow(n, c1, c0, shift);
      ShrSmaller(c1, shift);
    } else {
      d1, d0 := c1, c0;
      JamZero(Double(n, c1, c0));
    }
  }

  lemma PowerAbove(n: nat)
    requires n > 0
    ensures Pow2(n) > 1
  {
  }

  lemma ShrSmaller(a: nat, k: nat)
    ensures Shr(a, k) <= a
  {
    HalfSplit(a, k);
    MulMonoRightNat(Shr(a, k), Pow2(k));
  }


  // ----- the double-word sum

  /** A double-word mantissa with its highest bit at 2 * F_SIZE - 3, and zeros at the end. */
  ghost predicate FullWide(f: Format, d: nat)
    requires f.Valid()
  {
    Pow2(2 * f.FSize() - 3) <= d < Pow2(2 * f.FSize() - 2) && Low(d, 2 * f.RndSize()) == 0
  }

  lemma JamExact(a: nat, k: nat, d: nat)
    requires Low(a, k) == 0 && d <= k
    ensures Jam(a, d) as real == Scale(a as real, 0 - d)
  {
    HalfSplit(a, k);
    Pow2Add(k - d, d);
    var q := Shr(a, k) * Pow2(k - d);
    AssocNat(Shr(a, k), Pow2(k - d), Pow2(d));
    DivRem(q, 0, Pow2(d));
    ScaleNat(q, d);
    Rescale(q as real, d, 0 - d);
    ScaleZero(q as real);
  }

  lemma EvenWide(f: Format, d: nat)
    requires f.Valid() && FullWide(f, d)
    ensures d % 2 == 0
  {
    HalfSplit(d, 2 * f.RndSize());
    Pow2Even(2 * f.RndSize() + 1);
    EvenTimes(Shr(d, 2 * f.RndSize()), Pow2(2 * f.RndSize()));
  }

  lemma WideSizes(f: Format)
    requires f.Valid()
    ensures var k, n := Pow2(2 * f.FSize() - 6), f.FSize();
            && Pow2(2 * n - 4) == 4 * k && Pow2(2 * n - 3) == 8 * k && Pow2(2 * n - 2) == 16 * k
            && Pow2(2 * n - 1) == 32 * k && Pow2(n) <= k
  {
    Pow2Next(2 * f.FSize() - 6);
    Pow2Mono(f.FSize(), 2 * f.FSize() - 6);
  }

  /** `s` stands for the shifted operand `sx` in a sum and in a difference. */
  ghost predicate Combines(f: Format, big: nat, s: nat, sx: real)
    requires f.Valid()
  {
    && 0.0 <= sx <= big as real && s <= big && big + s < Pow2(2 * f.FSize() - 1)
    && StandsForWide(f, big as real + sx, big + s) && StandsForWide(f, big as real - sx, big - s)
  }

  lemma CombinesExactly(f: Format, big: nat, s: nat)
    requires f.Valid() && FullWide(f, big) && s <= big
    ensures Combines(f, big, s, s as real)
  {
    hide Agrees;
    hide Low;
    WideSizes(f);
    hide Pow2;
  }

  lemma CombinesCoarsely(f: Format, big: nat, s: nat, sx: real)
    requires f.Valid() && FullWide(f, big) && s <= Pow2(2 * f.FSize() - 6) && 0.0 <= sx <= big as real && s <= big
    requires Agrees(big as real + sx, big + s, Pow2(f.FSize())) && Agrees(big as real - sx, big - s, Pow2(f.FSize()))
    ensures Combines(f, big, s, sx)
  {
    hide Agrees;
    WideSizes(f);
    hide Pow2;
  }

  lemma JamHalf(a: nat, k: nat, d: nat)
    requires Low(a, k) == 0 && 1 <= d <= k
    ensures 2 * Jam(a, d) <= a
  {
    HalfSplit(a, k);
    Pow2Add(k - d, d);
    Pow2Even(d);
    var q := Shr(a, k) * Pow2(k - d);
    AssocNat(Shr(a, k), Pow2(k - d), Pow2(d));
    DivRem(q, 0, Pow2(d));
    hide Pow2;
    MulMonoRight(q, 2, Pow2(d));
  }

  /** Few bits: the shift is exact. */
  lemma ExactShift(f: Format, big: nat, small: nat, shift: nat)
    requires f.Valid() && FullWide(f, big) && FullWide(f, small) && shift <= 2 * f.RndSize()
    requires shift == 0 ==> small <= big
    ensures Combines(f, big, Jam(small, shift), Scale(small as real, 0 - shift))
  {
    JamExact(small, 2 * f.RndSize(), shift);
    WideSizes(f);
    hide Pow2;
    hide Combines;
    if shift > 0 {
      JamHalf(small, 2 * f.RndSize(), shift);
    } else {
      JamZero(small);
    }
    hide Jam;
    CombinesExactly(f, big, Jam(small, shift));
  }

  /** Many bits: the sum keeps its size, and the sticky bit its place. */
  lemma StickyShift(f: Format, big: nat, small: nat, shift: nat)
    requires f.Valid() && FullWide(f, big) && FullWide(f, small) && shift >= 4
    ensures Combines(f, big, Jam(small, shift), Scale(small as real, 0 - shift))
  {
    hide Scale;
    hide Jam;
    hide Combines;
    hide Agrees;
    var s, sx, n := Jam(small, shift), Scale(small as real, 0 - shift), f.FSize();
    FarShift(small, 2 * n - 6, shift);
    AgreesExact(small, 2);
    assert Pow2(1) == 2;
    WideSizes(f);
    EvenWide(f, big);
    hide Pow2;
    AgreesJam(small as real, small, 1, shift);
    ScaleSign(small as real, 0 - shift);
    AgreesNear(sx, s);
    AgreesSum(big, s, sx);
    AgreesCoarse(big as real + sx, big + s, 1, n);
    AgreesCoarse(big as real - sx, big - s, 1, n);
    CombinesCoarsely(f, big, s, sx);
  }

  lemma AgreesNear(x: real, m: nat)
    requires Agrees(x, m, 2)
    ensures x <= (m + 1) as real
  {
  }

  /** More than a word: the sum is right to within its high word. */
  lemma OpenShift(f: Format, big: nat, small: nat, shift: nat, s: nat)
    requires f.Valid() && FullWide(f, big) && FullWide(f, small) && shift > f.FSize()
    requires Low(big, f.FSize()) == 0 && 0 < s < Pow2(f.FSize())
    ensures Combines(f, big, s, Scale(small as real, 0 - shift))
  {
    var sx, n := Scale(small as real, 0 - shift), f.FSize();
    ScaleSign(small as real, 0 - shift);
    assert sx < Pow2(n) as real by {
      ScaleNat(1, 2 * n - 2);
      ScaleOrder(small as real, Scale(1.0, 2 * n - 2), 0 - shift);
      Rescale(1.0, 2 * n - 2, 0 - shift);
      ScaleOne(2 * n - 2 - shift, n);
      ScaleNat(1, n);
    }
    WideSizes(f);
    HalfSplit(big, n);
    hide Pow2;
    hide Scale;
    hide Shr;
    hide Low;
    hide Combines;
    AgreesOpen(big, Shr(big, n), Pow2(n), s, sx);
    hide Agrees;
    CombinesCoarsely(f, big, s, sx);
  }

  lemma AgreesOpen(big: nat, q: nat, g: nat, s: nat, sx: real)
    requires big == q * g && 0 < s < g && 0.0 < sx < g as real
    ensures Agrees(big as real + sx, big + s, g)
    ensures g <= big ==> Agrees(big as real - sx, big - s, g)
  {
    DivRem(q, s, g);
    if g <= big {
      if q == 0 {
        assert false;
      }
      Distribute(q - 1, 1, g);
      DivRem(q - 1, g - s, g);
    }
  }

  lemma DoubleHigh(n: nat, hi: nat, lo: nat, k: nat)
    requires Double(n, hi, lo) < Pow2(k + n)
    ensures hi < Pow2(k)
  {
    Pow2Add(k, n);
    hide Pow2;
    if hi >= Pow2(k) {
      MulMono(Pow2(k), hi, Pow2(n));
    }
  }

  /** Addition with a carry between the words. */
  lemma AddWords(n: nat, r1: nat, r0: nat, d1: nat, d0: nat)
    requires r0 < Pow2(n) && d0 < Pow2(n)
    ensures var lo := Low(r0 + d0, n);
            Double(n, r1 + d1 + Bit(lo < d0), lo) == Double(n, r1, r0) + Double(n, d1, d0)
  {
    var w := Pow2(n);
    hide Pow2;
    var c := if r0 + d0 >= w then 1 else 0;
    DivRem(c, r0 + d0 - c * w, w);
    Distribute(r1 + d1, c, w);
    Distribute(r1, d1, w);
  }

  /** Subtraction with a borrow between the words. */
  lemma SubWords(n: nat, r1: nat, r0: nat, d1: nat, d0: nat)
    requires r0 < Pow2(n) && d0 < Pow2(n) && Double(n, d1, d0) <= Double(n, r1, r0)
    ensures var lo := Low(r0 + Pow2(n) - d0, n);
            && d1 + Bit(lo > r0) <= r1
            && Double(n, r1 - d1 - Bit(lo > r0), lo) == Double(n, r1, r0) - Double(n, d1, d0)
  {
    var w := Pow2(n);
    hide Pow2;
    var b := if r0 < d0 then 1 else 0;
    DivRem(1 - b, r0 + b * w - d0, w);
    if r1 < d1 + b {
      MulMono(r1 + 1, d1 + b, w);
      Distribute(r1, 1, w);
      Distribute(d1, b, w);
    }
    Distribute(r1 - d1 - b, d1 + b, w);
    Distribute(d1, b, w);
  }

  // ----- sums of reals

  ghost function Signed(neg: bool, x: real): real {
    if neg then -x else x
  }

  ghost function RealAbs(s: real): real {
    if s < 0.0 then -s else s
  }

  /** The sign of a sum, as for `add_sf`. */
  ghost predicate RealSumNeg(rm: RoundingMode, s: real, aNeg: bool, bNeg: bool) {
    if s != 0.0 then s < 0.0 else if aNeg == bNeg then aNeg else rm == RDN
  }

  lemma Aligned(f: Format, r1: nat, r0: nat, c1: nat, c0: nat, d1: nat, d0: nat, shift: nat)
    requires f.Valid() && r0 < Pow2(f.FSize()) && c0 < Pow2(f.FSize()) && d0 < Pow2(f.FSize())
    requires FullWide(f, Double(f.FSize(), r1, r0)) && FullWide(f, Double(f.FSize(), c1, c0)) && (r0 == 0 || c0 == 0)
    requires shift == 0 ==> Double(f.FSize(), c1, c0) <= Double(f.FSize(), r1, r0)
    requires shift <= f.FSize() || shift >= 2 * f.FSize() || c0 == 0 ==>
               Double(f.FSize(), d1, d0) == Jam(Double(f.FSize(), c1, c0), shift)
    requires shift > f.FSize() ==> d1 == 0 && 0 < d0
    ensures Combines(f, Double(f.FSize(), r1, r0), Double(f.FSize(), d1, d0),
                     Scale(Double(f.FSize(), c1, c0) as real, 0 - shift))
  {
    var n := f.FSize();
    var big, small, s := Double(n, r1, r0), Double(n, c1, c0), Double(n, d1, d0);
    hide Combines;
    hide FullWide;
    hide Jam;
    hide Scale;
    hide Low;
    if s == Jam(small, shift) {
      if shift <= 2 * f.RndSize() {
        ExactShift(f, big, small, shift);
      } else {
        StickyShift(f, big, small, shift);
      }
    } else {
      LowOfDouble(n, r1, r0);
      DoubleLow(n, d0);
      OpenShift(f, big, small, shift, s);
    }
  }

  lemma LowOfDouble(n: nat, hi: nat, lo: nat)
    requires lo < Pow2(n)
    ensures Low(Double(n, hi, lo), n) == lo
  {
    DivRem(hi, lo, Pow2(n));
  }

  lemma SignOfSum(rm: RoundingMode, rNeg: bool, cNeg: bool, xr: real, xc: real)
    requires 0.0 < xc <= xr
    ensures var s := Signed(rNeg, xr) + Signed(cNeg, xc);
            if rNeg == cNeg then RealSumNeg(rm, s, rNeg, cNeg) == rNeg && RealAbs(s) == xr + xc
            else RealSumNeg(rm, s, rNeg, cNeg) == (if xr == xc then rm == RDN else rNeg) && RealAbs(s) == xr - xc
  {
  }

  lemma DoubleZero(n: nat, hi: nat, lo: nat)
    ensures Double(n, hi, lo) == 0 <==> hi == 0 && lo == 0
  {
    MulMonoRightNat(hi, Pow2(n));
  }

  lemma WideZero(f: Format, dx: real, d: nat)
    requires f.Valid() && StandsForWide(f, dx, d)
    ensures d == 0 <==> dx == 0.0
  {
    WideSizes(f);
    var g := Pow2(f.FSize());
    if dx != d as real {
      DivMod(d, g);
      AgreesBounds(dx, d, g, d % g);
      hide Pow2;
    }
  }

  /** Adding or subtracting the magnitudes. */
  method SumWide(f: Format, add: bool, r1: nat, r0: nat, d1: nat, d0: nat, ghost sx: real)
    returns (hi: nat, lo: nat, ghost dx: real)
    requires f.Valid() && r0 < Pow2(f.FSize()) && d0 < Pow2(f.FSize())
    requires Combines(f, Double(f.FSize(), r1, r0), Double(f.FSize(), d1, d0), sx)
    ensures hi < Pow2(f.FSize() - 1) && lo < Pow2(f.FSize()) && StandsForWide(f, dx, Double(f.FSize(), hi, lo))
    ensures dx == if add then Double(f.FSize(), r1, r0) as real + sx else Double(f.FSize(), r1, r0) as real - sx
    ensures hi == 0 && lo == 0 <==> dx == 0.0
  {
    var n := f.FSize();
    hide Double;
    hide StandsForWide;
    hide Pow2;
    if add {
      lo := Low(r0 + d0, n);
      hi := r1 + d1 + Bit(lo < d0);
      dx := Double(n, r1, r0) as real + sx;
      AddWords(n, r1, r0, d1, d0);
    } else {
      lo := Low(r0 + Pow2(n) - d0, n);
      SubWords(n, r1, r0, d1, d0);
      hi := r1 - d1 - Bit(lo > r0);
      dx := Double(n, r1, r0) as real - sx;
    }
    hide Low;
    DoubleHigh(n, hi, lo, n - 1);
    DoubleZero(n, hi, lo);
    WideZero(f, dx, Double(n, hi, lo));
  }

  /** The second half of `fma_sf`: the larger magnitude comes first. */
  method AddWide(f: Format, rNeg: bool, rExp: int, r1: nat, r0: nat, cNeg: bool, cExp: int, c1: nat, c0: nat,
                 rm: RoundingMode, ghost xr: real, ghost xc: real)
    returns (w: nat, raised: Flags)
    requires f.Valid() && r0 < Pow2(f.FSize()) && 0 < c1 < Pow2(f.FSize()) && c0 < Pow2(f.FSize())
    requires (r0 == 0 || c0 == 0)
    requires FullWide(f, Double(f.FSize(), r1, r0)) && FullWide(f, Double(f.FSize(), c1, c0)) && cExp <= rExp
    requires rExp == cExp ==> Double(f.FSize(), c1, c0) <= Double(f.FSize(), r1, r0)
    requires xr == Scale(Double(f.FSize(), r1, r0) as real, rExp - 1 - f.RndSize() - f.FSize())
    requires xc == Scale(Double(f.FSize(), c1, c0) as real, cExp - 1 - f.RndSize() - f.FSize())
    ensures var s := Signed(rNeg, xr) + Signed(cNeg, xc);
            Rounded(f, rm, RealSumNeg(rm, s, rNeg, cNeg), RealAbs(s), w, raised)
  {
    hide Rounded;
    hide Scale;
    hide FullWide;
    hide Double;
    hide Jam;
    hide StandsForWide;
    var n := f.FSize();
    var shift: nat := rExp - cExp;
    var d1, d0 := AlignWide(f, c1, c0, shift);
    Aligned(f, r1, r0, c1, c0, d1, d0, shift);
    ghost var sx := Scale(Double(n, c1, c0) as real, 0 - shift);
    AlignedReals(f, Double(n, r1, r0), Double(n, c1, c0), Double(n, d1, d0), rExp, cExp, xr, xc);
    SignOfSum(rm, rNeg, cNeg, xr, xc);
    hide Combines;
    hide Signed;
    hide RealSumNeg;
    hide RealAbs;
    hide Pow2;
    var hi, lo, dx := SumWide(f, rNeg == cNeg, r1, r0, d1, d0, sx);
    var neg := if rNeg != cNeg && hi == 0 && lo == 0 then rm == RDN else rNeg;
    w, raised := Normalize2(f, neg, rExp, hi, lo, rm, dx, if rNeg == cNeg then xr + xc else xr - xc);
  }

  /** The two operands as exact magnitudes. */
  lemma AlignedReals(f: Format, big: nat, small: nat, s: nat, rExp: int, cExp: int, xr: real, xc: real)
    requires f.Valid() && cExp <= rExp && FullWide(f, small)
    requires Combines(f, big, s, Scale(small as real, cExp - rExp))
    requires xr == Scale(big as real, rExp - 1 - f.RndSize() - f.FSize())
    requires xc == Scale(small as real, cExp - 1 - f.RndSize() - f.FSize())
    ensures 0.0 < xc <= xr && (xr == xc <==> big as real == Scale(small as real, cExp - rExp))
    ensures var e, sx := rExp - 1 - f.RndSize() - f.FSize(), Scale(small as real, cExp - rExp);
            xr + xc == Scale(big as real + sx, e) && xr - xc == Scale(big as real - sx, e)
  {
    hide Scale;
    hide StandsForWide;
    hide Pow2;
    var e, sx := rExp - 1 - f.RndSize() - f.FSize(), Scale(small as real, cExp - rExp);
    Rescale(small as real, cExp - rExp, e);
    ScaleSum(big as real, sx, e);
    ScaleSign(small as real, cExp - 1 - f.RndSize() - f.FSize());
    ScaleOrder(big as real, sx, e);
  }

  // ----- the product as a double word

  lemma LowTimes(a: nat, k: nat)
    ensures Low(a * Pow2(k), k) == 0
  {
    DivRem(a, 0, Pow2(k));
  }

  /** The product of two full-width significands, before normalisation. */
  lemma RawProduct(f: Format, a: nat, b: nat, r1: nat, r0: nat)
    requires f.Valid() && Pow2(f.mantSize) <= a < 2 * Pow2(f.mantSize) && Pow2(f.mantSize) <= b < 2 * Pow2(f.mantSize)
    requires Double(f.FSize(), r1, r0) == (a * Pow2(f.RndSize())) * (b * Pow2(f.RndSize()))
    ensures var d, n := Double(f.FSize(), r1, r0), f.FSize();
            && Pow2(2 * n - 4) <= d < Pow2(2 * n - 2) && d == (a * b) * Pow2(2 * f.RndSize())
            && Low(d, 2 * f.RndSize()) == 0
  {
    var n := f.FSize();
    WordShift(f, a, f.RndSize());
    WordShift(f, b, f.RndSize());
    hide Pow2;
    hide Double;
    ProductBounds(a * Pow2(f.RndSize()), b * Pow2(f.RndSize()), n - 2, n - 2);
    ProductShift(a, b, f.RndSize(), f.RndSize());
    LowTimes(a * b, 2 * f.RndSize());
  }

  lemma LowTwice(d: nat, k: nat)
    requires Low(d, k) == 0
    ensures Low(2 * d, k) == 0
  {
    HalfSplit(d, k);
    AssocNat(2, Shr(d, k), Pow2(k));
    DivRem(2 * Shr(d, k), 0, Pow2(k));
  }

  /** One place to the left. */
  lemma DoubleTwice(n: nat, hi: nat, lo: nat)
    requires n > 0 && lo < Pow2(n)
    ensures Double(n, 2 * hi + Shr(lo, n - 1), Low(2 * lo, n)) == 2 * Double(n, hi, lo)
  {
    ShlWide(n, hi, lo, 1);
    ShlOne(hi);
    ShlOne(lo);
    ShlOne(Double(n, hi, lo));
  }

  lemma ShlOne(a: nat)
    ensures Shl(a, 1) == 2 * a
  {
    assert Pow2(1) == 2;
  }

  lemma HalfSize(f: Format)
    requires f.Valid()
    ensures f.expSize >= 1 && 2 * (f.FSize() / 2) == f.FSize()
  {
  }

  lemma WordBelow(f: Format, w: nat)
    requires IsWord(f, w)
    ensures w < Pow2(f.FSize())
  {
  }

  /** The multiplication in `fma_sf`. */
  method RawWide(f: Format, a: nat, b: nat) returns (rExp: int, r1: nat, r0: nat)
    requires f.Valid() && Finite(f, a) && Finite(f, b) && Mag(f, a) > 0 && Mag(f, b) > 0
    ensures r0 < Pow2(f.FSize()) && Low(Double(f.FSize(), r1, r0), 2 * f.RndSize()) == 0
    ensures Pow2(2 * f.FSize() - 4) <= Double(f.FSize(), r1, r0) < Pow2(2 * f.FSize() - 2)
    ensures ExactProduct(f, Mag(f, a), Mag(f, b))
         == Scale(Double(f.FSize(), r1, r0) as real, rExp - 1 - f.RndSize() - f.FSize())
  {
    hide *;
    Sizes(f);
    HalfSize(f);
    var n := f.FSize();
    var aExp, aMant := Operand(f, a);
    var bExp, bMant := Operand(f, b);
    rExp := aExp + bExp - Pow2(f.expSize - 1) + 3;
    WordShift(f, aMant, f.RndSize());
    WordShift(f, bMant, f.RndSize());
    WordBelow(f, aMant * Pow2(f.RndSize()));
    WordBelow(f, bMant * Pow2(f.RndSize()));
    r1, r0 := MulU(n / 2, aMant * Pow2(f.RndSize()), bMant * Pow2(f.RndSize()));
    RawProduct(f, aMant, bMant, r1, r0);
    ProductScale(f, aMant, bMant, Mag(f, a), Mag(f, b), aExp, bExp, 2 * f.RndSize(),
                 rExp - 1 - f.RndSize() - f.FSize());
    ScaleNat(aMant * bMant, 2 * f.RndSize());
  }

  /** The product of two finite numbers other than zero, at full double width. */
  method ProductWide(f: Format, a: nat, b: nat) returns (rExp: int, r1: nat, r0: nat)
    requires f.Valid() && Finite(f, a) && Finite(f, b) && Mag(f, a) > 0 && Mag(f, b) > 0
    ensures r0 < Pow2(f.FSize()) && FullWide(f, Double(f.FSize(), r1, r0))
    ensures ExactProduct(f, Mag(f, a), Mag(f, b))
         == Scale(Double(f.FSize(), r1, r0) as real, rExp - 1 - f.RndSize() - f.FSize())
  {
    hide Mag;
    hide Scale;
    hide ExactProduct;
    hide Double;
    hide Low;
    hide Shr;
    var n := f.FSize();
    Pow2Next(2 * n - 4);
    hide Pow2;
    rExp, r1, r0 := RawWide(f, a, b);
    HighTest(n, r1, r0, n - 3);
    if r1 < Pow2(n - 3) {
      DoubleTwice(n, r1, r0);
      LowTwice(Double(n, r1, r0), 2 * f.RndSize());
      LowBound(2 * r0, n);
      ScaleStep(Double(n, r1, r0) as real, rExp - 2 - f.RndSize() - f.FSize());
      ScaleDouble(Double(n, r1, r0), rExp - 2 - f.RndSize() - f.FSize());
      r1, r0 := 2 * r1 + Shr(r0, n - 1), Low(2 * r0, n);
      rExp := rExp - 1;
    }
  }

  // ----- the operation

  /** The exact value of `a * b + c`, in the unit of the format. */
  ghost function ExactFma(f: Format, a: nat, b: nat, c: nat): real
    requires f.Valid() && Finite(f, a) && Finite(f, b) && Finite(f, c)
  {
    Signed(Neg(f, a) != Neg(f, b), ExactProduct(f, Mag(f, a), Mag(f, b))) + Signed(Neg(f, c), Mag(f, c) as real)
  }

  /** What the fused operation delivers for three words. */
  ghost predicate IsFma(f: Format, rm: RoundingMode, a: nat, b: nat, c: nat, w: nat, raised: Flags)
    requires f.Valid()
  {
    var neg := Neg(f, a) != Neg(f, b);
    if IsNaN(f, a) || IsNaN(f, b) || IsNaN(f, c) then
      && w == QNaN(f)
      && raised == if IsSignalling(f, a) || IsSignalling(f, b) || IsSignalling(f, c) then INVALID else NO_FLAGS
    else if || (IsInf(f, a) && Exp(f, b) == 0 && Mant(f, b) == 0) || (IsInf(f, b) && Exp(f, a) == 0 && Mant(f, a) == 0)
            || ((IsInf(f, a) || IsInf(f, b)) && IsInf(f, c) && neg != Neg(f, c)) then
      w == QNaN(f) && raised == INVALID
    else if IsInf(f, c) then
      w == Pack(f, Neg(f, c), f.ExpMask(), 0) && raised == NO_FLAGS
    else if IsInf(f, a) || IsInf(f, b) then
      w == Pack(f, neg, f.ExpMask(), 0) && raised == NO_FLAGS
    else
      var s := ExactFma(f, a, b, c);
      Rounded(f, rm, RealSumNeg(rm, s, neg, Neg(f, c)), RealAbs(s), w, raised)
  }

  /** The addend at full double width. */
  method AddendWide(f: Format, c: nat) returns (cExp: int, c1: nat)
    requires f.Valid() && Finite(f, c) && Mag(f, c) > 0
    ensures Pow2(f.FSize() - 3) <= c1 < Pow2(f.FSize() - 2) && FullWide(f, Double(f.FSize(), c1, 0))
    ensures Mag(f, c) as real == Scale(Double(f.FSize(), c1, 0) as real, cExp - 1 - f.RndSize() - f.FSize())
  {
    hide Mag;
    hide Scale;
    var n := f.FSize();
    var exp, cMant := Operand(f, c);
    cExp := exp + 1;
    WordShift(f, cMant, f.RndSize() - 1);
    c1 := cMant * Pow2(f.RndSize() - 1);
    WideAddend(f, c1);
    ScaleNat(cMant, f.RndSize() - 1);
    ScaleNat(c1, n);
    Rescale(cMant as real, f.RndSize() - 1, f.FSize());
    Rescale(cMant as real, f.RndSize() - 1 + f.FSize(), cExp - 1 - f.RndSize() - f.FSize());
  }

  lemma WideAddend(f: Format, c1: nat)
    requires f.Valid() && Pow2(f.FSize() - 3) <= c1 < Pow2(f.FSize() - 2)
    ensures FullWide(f, Double(f.FSize(), c1, 0))
  {
    var n, k := f.FSize(), 2 * f.RndSize();
    HighTest(n, c1, 0, n - 2);
    HighTest(n, c1, 0, n - 3);
    Pow2Add(n - k, k);
    AssocNat(c1, Pow2(n - k), Pow2(k));
    LowTimes(c1 * Pow2(n - k), k);
  }

  /** The order of the two operands, as the code decides it. */
  lemma WideOrder(n: nat, r1: nat, r0: nat, c1: nat)
    ensures r1 >= c1 ==> Double(n, c1, 0) <= Double(n, r1, r0)
    ensures r0 < Pow2(n) && r1 < c1 ==> Double(n, r1, r0) <= Double(n, c1, 0)
  {
    if r1 >= c1 {
      MulMono(c1, r1, Pow2(n));
    } else {
      MulMono(r1 + 1, c1, Pow2(n));
      Distribute(r1, 1, Pow2(n));
    }
  }

  lemma WideHigh(f: Format, hi: nat, lo: nat)
    requires f.Valid() && lo < Pow2(f.FSize()) && FullWide(f, Double(f.FSize(), hi, lo))
    ensures 0 < hi < Pow2(f.FSize()) && hi < Pow2(f.FSize() - 1)
  {
    var n := f.FSize();
    HighTest(n, hi, lo, n - 2);
    HighTest(n, hi, lo, n - 3);
    Pow2Mono(n - 2, n - 1);
    Pow2Mono(n - 2, n);
  }

  lemma SwapSum(rm: RoundingMode, rNeg: bool, cNeg: bool, xr: real, xc: real)
    ensures var s, t := Signed(rNeg, xr) + Signed(cNeg, xc), Signed(cNeg, xc) + Signed(rNeg, xr);
            s == t && RealSumNeg(rm, s, rNeg, cNeg) == RealSumNeg(rm, t, cNeg, rNeg)
  {
  }

  /** A product of nonzero numbers plus a nonzero addend. */
  method FmaBoth(f: Format, a: nat, b: nat, c: nat, rm: RoundingMode) returns (w: nat, raised: Flags)
    requires f.Valid() && Finite(f, a) && Finite(f, b) && Finite(f, c)
    requires Mag(f, a) > 0 && Mag(f, b) > 0 && Mag(f, c) > 0
    ensures var s := ExactFma(f, a, b, c);
            Rounded(f, rm, RealSumNeg(rm, s, Neg(f, a) != Neg(f, b), Neg(f, c)), RealAbs(s), w, raised)
  {
    hide Mag;
    hide Scale;
    hide ExactProduct;
    hide Double;
    hide FullWide;
    hide Rounded;
    hide RealSumNeg;
    hide RealAbs;
    hide Signed;
    hide Pow2;
    var rNeg, cNeg := Neg(f, a) != Neg(f, b), Neg(f, c);
    var rExp, r1, r0 := ProductWide(f, a, b);
    var cExp, c1 := AddendWide(f, c);
    ghost var xr, xc := ExactProduct(f, Mag(f, a), Mag(f, b)), Mag(f, c) as real;
    WideHigh(f, r1, r0);
    WideHigh(f, c1, 0);
    WideOrder(f.FSize(), r1, r0, c1);
    if rExp > cExp || (rExp == cExp && r1 >= c1) {
      w, raised := AddWide(f, rNeg, rExp, r1, r0, cNeg, cExp, c1, 0, rm, xr, xc);
    } else {
      SwapSum(rm, rNeg, cNeg, xr, xc);
      w, raised := AddWide(f, cNeg, cExp, c1, 0, rNeg, rExp, r1, r0, rm, xc, xr);
    }
  }

  /** A product of nonzero numbers alone. */
  method FmaProduct(f: Format, a: nat, b: nat, rm: RoundingMode) returns (w: nat, raised: Flags)
    requires f.Valid() && Finite(f, a) && Finite(f, b) && Mag(f, a) > 0 && Mag(f, b) > 0
    ensures Rounded(f, rm, Neg(f, a) != Neg(f, b), ExactProduct(f, Mag(f, a), Mag(f, b)), w, raised)
  {
    hide Mag;
    hide Scale;
    hide ExactProduct;
    hide Double;
    hide Rounded;
    hide StandsFor;
    var n := f.FSize();
    var rExp, r1, r0 := ProductWide(f, a, b);
    ghost var d := Double(n, r1, r0);
    Pow2Mono(2 * n - 2, 2 * n - 1);
    ShlZero(d);
    StickyHigh(f, r1, r0, d, d, 0);
    Rescale(d as real, 0 - f.FSize(), rExp - 1 - f.RndSize());
    w, raised := Normalize(f, Neg(f, a) != Neg(f, b), rExp, Or1(r1, r0 != 0), rm, Scale(d as real, 0 - f.FSize()),
                           ExactProduct(f, Mag(f, a), Mag(f, b)));
  }

  /** `fma_sf` on finite numbers. */
  method FmaFinite(f: Format, a: nat, b: nat, c: nat, rm: RoundingMode) returns (w: nat, raised: Flags)
    requires f.Valid() && IsWord(f, c) && Finite(f, a) && Finite(f, b) && Finite(f, c)
    ensures var s := ExactFma(f, a, b, c);
            Rounded(f, rm, RealSumNeg(rm, s, Neg(f, a) != Neg(f, b), Neg(f, c)), RealAbs(s), w, raised)
  {
    hide Mag;
    hide Rounded;
    hide Pow2;
    var rNeg := Neg(f, a) != Neg(f, b);
    MagZero(f, a);
    MagZero(f, b);
    MagZero(f, c);
    if (Exp(f, a) == 0 && Mant(f, a) == 0) || (Exp(f, b) == 0 && Mant(f, b) == 0) {
      ZeroProduct(f, Mag(f, a), Mag(f, b));
      if Exp(f, c) == 0 && Mant(f, c) == 0 {
        if Neg(f, c) != rNeg {
          rNeg := rm == RDN;
        }
        ZeroRounded(f, rm, rNeg);
        w, raised := Pack(f, rNeg, 0, 0), NO_FLAGS;
      } else {
        FiniteRounded(f, rm, c);
        w, raised := c, NO_FLAGS;
      }
      return;
    }
    if Exp(f, c) == 0 && Mant(f, c) == 0 {
      PositiveProduct(f, Mag(f, a), Mag(f, b));
      w, raised := FmaProduct(f, a, b, rm);
    } else {
      w, raised := FmaBoth(f, a, b, c, rm);
    }
  }

  lemma PositiveProduct(f: Format, a: nat, b: nat)
    requires f.Valid() && a > 0 && b > 0
    ensures ExactProduct(f, a, b) > 0.0
  {
    MulMono(1, a, b);
    ScaleSign((a * b) as real, 1 - f.Bias() - f.mantSize);
  }

  /** `fma_sf`, for any three words. */
  method Fma(f: Format, a: nat, b: nat, c: nat, rm: RoundingMode) returns (w: nat, raised: Flags)
    requires f.Valid() && IsWord(f, a) && IsWord(f, b) && IsWord(f, c)
    ensures IsFma(f, rm, a, b, c, w, raised)
  {
    hide Mag;
    hide Rounded;
    hide Pow2;
    SigNaNTest(f, a);
    SigNaNTest(f, b);
    SigNaNTest(f, c);
    var rNeg, mask := Neg(f, a) != Neg(f, b), f.ExpMask();
    if Exp(f, a) == mask || Exp(f, b) == mask || Exp(f, c) == mask {
      if IsNaN(f, a) || IsNaN(f, b) || IsNaN(f, c) {
        w, raised := QNaN(f), if IsSigNaN(f, a) || IsSigNaN(f, b) || IsSigNaN(f, c) then INVALID else NO_FLAGS;
      } else if || (Exp(f, a) == mask && Exp(f, b) == 0 && Mant(f, b) == 0)
                || (Exp(f, b) == mask && Exp(f, a) == 0 && Mant(f, a) == 0)
                || ((Exp(f, a) == mask || Exp(f, b) == mask) && Exp(f, c) == mask && rNeg != Neg(f, c)) {
        w, raised := QNaN(f), INVALID;
      } else if Exp(f, c) == mask {
        w, raised := Pack(f, Neg(f, c), mask, 0), NO_FLAGS;
      } else {
        w, raised := Pack(f, rNeg, mask, 0), NO_FLAGS;
      }
    } else {
      w, raised := FmaFinite(f, a, b, c, rm);
    }
  }
}
