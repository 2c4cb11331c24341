/** Sticky shifts: `rshift_rnd` of lib/tinyemu/softfp_template.h, and what a word
    with a sticky bit still says about the exact number that it stands for. */
module FloatSticky {
  import opened Powers
  import opened FloatSpec

  /** `x | b`. */
  function Or1(x: nat, b: bool): nat {
    if b && x % 2 == 0 then x + 1 else x
  }

  function Bit(b: bool): nat {
    if b then 1 else 0
  }

  /** `(a >> d) | ((a & mask) != 0)`. */
  function Jam(a: nat, d: nat): nat {
    Or1(Shr(a, d), Low(a, d) != 0)
  }

  function RshiftRnd(f: Format, a: nat, d: nat): nat {
    if d != 0 then
      if d >= f.FSize() then Bit(a != 0)
      else Jam(a, d)
    else
      a
  }

  lemma RshiftIsJam(f: Format, a: nat, d: nat)
    requires IsWord(f, a)
    ensures RshiftRnd(f, a, d) == Jam(a, d)
  {
    if d >= f.FSize() {
      Pow2Mono(f.FSize(), d);
      SmallMod(a, Pow2(d));
    } else if d == 0 {
      DivRem(a, 0, 1);
    }
  }

  lemma JamStep(a: nat, d: nat)
    ensures Jam(a, d + 1) == Jam(Jam(a, d), 1)
  {
    var g := Pow2(d);
    var q, r := a / g, a % g;
    assert Pow2(d + 1) == 2 * g && Pow2(1) == 2;
    hide Pow2;
    DivMod(a, g);
    DivMod(q, 2);
    Halves(q / 2, q % 2, g, r, a);
    DivRem(q / 2, q % 2 * g + r, 2 * g);
  }

  lemma Halves(k: nat, b: nat, g: nat, r: nat, a: nat)
    requires b < 2 && r < g && a == (2 * k + b) * g + r
    ensures b * g + r < 2 * g && a == k * (2 * g) + (b * g + r) && (b * g + r == 0 <==> b == 0 && r == 0)
  {
    Distribute(2 * k, b, g);
    AssocNat(k, 2, g);
  }

  lemma {:induction false} JamCompose(a: nat, d1: nat, d2: nat)
    ensures Jam(Jam(a, d1), d2) == Jam(a, d1 + d2)
    decreases d2
  {
    if d2 == 0 {
      DivRem(Jam(a, d1), 0, 1);
    } else {
      JamCompose(a, d1, d2 - 1);
      JamStep(Jam(a, d1), d2 - 1);
      JamStep(a, d1 + d2 - 1);
    }
  }

  /** Sticky shifts compose: two shifts lose no more than one. */
  lemma ShiftsCompose(f: Format, a: nat, d1: nat, d2: nat)
    requires IsWord(f, a)
    ensures RshiftRnd(f, RshiftRnd(f, a, d1), d2) == RshiftRnd(f, a, d1 + d2)
  {
    RshiftIsJam(f, a, d1);
    RshiftIsJam(f, a, d1 + d2);
    JamSmaller(a, d1);
    if a == 0 {
      assert Jam(a, d1) == 0 by { SmallMod(0, Pow2(d1)); }
    }
    RshiftIsJam(f, Jam(a, d1), d2);
    JamCompose(a, d1, d2);
  }

  lemma JamSmaller(a: nat, d: nat)
    ensures Jam(a, d) <= a
  {
    DivMod(a, Pow2(d));
    var g, q, r := Pow2(d), a / Pow2(d), a % Pow2(d);
    hide Pow2;
    MulMonoRightNat(q, g);
    if d == 0 {
      assert Pow2(0) == 1;
    }
  }

  lemma MulMonoRightNat(q: nat, g: nat)
    requires g >= 1
    ensures q <= q * g
  {
  }

  // ----- what survives

  /** `x` and `m` lie equally with respect to all multiples of `g`. */
  ghost predicate Agrees(x: real, m: nat, g: nat)
    requires g > 0
  {
    if m % g == 0 then x == m as real else (m - m % g) as real < x < (m - m % g + g) as real
  }

  lemma AgreesExact(m: nat, g: nat)
    requires g > 0
    ensures Agrees(m as real, m, g)
  {
    DivMod(m, g);
  }

  lemma AgreesCoarser(x: real, m: nat, g: nat)
    requires g > 0 && Agrees(x, m, g)
    ensures Agrees(x, m, 2 * g)
  {
    var k, r := m / g, m % g;
    DivMod(m, g);
    AgreesBounds(x, m, g, r);
    hide Agrees;
    CoarserParts(x, m, g, k / 2, k % 2, r);
  }

  lemma CoarserParts(x: real, m: nat, g: nat, k: nat, b: nat, r: nat)
    requires g > 0 && r < g && b < 2 && m == (2 * k + b) * g + r
    requires if r == 0 then x == m as real else (m - r) as real < x < (m - r + g) as real
    ensures Agrees(x, m, 2 * g)
  {
    var rest := b * g + r;
    Halves(k, b, g, r, m);
    assert rest == if b == 1 then g + r else r;
    DivRem(k, rest, 2 * g);
  }

  lemma {:induction false} AgreesCoarse(x: real, m: nat, i: nat, j: nat)
    requires i <= j && Agrees(x, m, Pow2(i))
    ensures Agrees(x, m, Pow2(j))
    decreases j
  {
    if i < j {
      AgreesCoarse(x, m, i, j - 1);
      AgreesCoarser(x, m, Pow2(j - 1));
    }
  }

  lemma HalfSum(m: nat, b: nat, r: nat)
    requires m == 2 * b + r
    ensures m / 2 == b + r / 2 && m % 2 == r % 2
    ensures b % 2 == 0 ==> Or1(m / 2, m % 2 != 0) == b + Or1(r / 2, r % 2 != 0)
  {
  }

  /** One bit to the right, for a granularity that stays even. */
  lemma AgreesHalfFine(x: real, m: nat, h: nat)
    requires h > 0 && h % 2 == 0 && Agrees(x, m, 2 * h)
    ensures Agrees(x / 2.0, Or1(m / 2, m % 2 != 0), h)
  {
    var k, r := m / (2 * h), m % (2 * h);
    DivMod(m, 2 * h);
    AssocNat(k, 2, h);
    AssocNat(2, k, h);
    var b := k * h;
    assert m == 2 * b + r;
    EvenTimes(k, h);
    HalfSum(m, b, r);
    AgreesBounds(x, m, 2 * h, r);
    hide Agrees;
    AgreesInside(x / 2.0, Or1(m / 2, m % 2 != 0), k, h, Or1(r / 2, r % 2 != 0), r);
  }

  /** One bit to the right. */
  lemma AgreesHalf(x: real, m: nat, h: nat)
    requires h > 0 && Agrees(x, m, 2 * h) && (h == 1 || h % 2 == 0)
    ensures Agrees(x / 2.0, Or1(m / 2, m % 2 != 0), 2 * h)
  {
    if h == 1 {
      DivMod(m, 2);
      HalfSum(m, m / 2, m % 2);
      AgreesOdd(x / 2.0, Or1(m / 2, m % 2 != 0), m / 2);
    } else {
      AgreesHalfFine(x, m, h);
      AgreesCoarser(x / 2.0, Or1(m / 2, m % 2 != 0), h);
    }
  }

  lemma AgreesBounds(x: real, m: nat, g: nat, r: nat)
    requires g > 0 && Agrees(x, m, g) && r == m % g
    ensures if r == 0 then x == m as real else (m - r) as real < x < (m - r + g) as real
  {
  }

  lemma AgreesOdd(y: real, s: nat, b: nat)
    requires (s == b && y == b as real) || (s == Or1(b, true) && b as real < y < (b + 1) as real)
    ensures Agrees(y, s, 2)
  {
  }

  lemma AgreesInside(y: real, s: nat, k: nat, h: nat, t: nat, r: nat)
    requires h > 0 && h % 2 == 0 && r < 2 * h && s == k * h + t && t == Or1(r / 2, r % 2 != 0)
    requires if r == 0 then y == s as real else (k * h) as real < y < (k * h + h) as real
    ensures Agrees(y, s, h)
  {
    DivRem(k, t, h);
  }

  lemma EvenTimes(k: nat, h: nat)
    requires h % 2 == 0
    ensures k * h % 2 == 0
  {
    var i := h / 2;
    assert h == 2 * i;
    AssocNat(k, 2, i);
    AssocNat(2, k, i);
    DivRem(k * i, 0, 2);
  }

  lemma JamOne(a: nat)
    ensures Jam(a, 1) == Or1(a / 2, a % 2 != 0)
  {
  }

  lemma AgreesOneBit(y: real, a: nat, j: nat)
    requires j >= 1 && Agrees(y, a, Pow2(j))
    ensures Agrees(y / 2.0, Jam(a, 1), Pow2(j))
  {
    hide Pow2;
    hide Agrees;
    hide Jam;
    hide Or1;
    Pow2Even(j);
    JamOne(a);
    AgreesHalf(y, a, Pow2(j - 1));
  }

  lemma AgreesOneBitFine(y: real, a: nat, j: nat)
    requires j >= 2 && Agrees(y, a, Pow2(j))
    ensures Agrees(y / 2.0, Jam(a, 1), Pow2(j - 1))
  {
    hide Pow2;
    hide Agrees;
    hide Jam;
    hide Or1;
    Pow2Even(j);
    JamOne(a);
    AgreesHalfFine(y, a, Pow2(j - 1));
  }

  /** Any number of bits to the right, while the granularity stays even. */
  lemma {:induction false} AgreesJamFine(x: real, m: nat, j: nat, d: nat)
    requires d < j && Agrees(x, m, Pow2(j))
    ensures Agrees(Scale(x, 0 - d), Jam(m, d), Pow2(j - d))
    decreases d
  {
    hide Agrees;
    hide Scale;
    if d == 0 {
      DivRem(m, 0, 1);
      ScaleZero(x);
    } else {
      hide Pow2;
      hide Jam;
      AgreesJamFine(x, m, j, d - 1);
      JamStep(m, d - 1);
      ScaleStep(x, 0 - d);
      AgreesOneBitFine(Scale(x, 1 - d), Jam(m, d - 1), j - (d - 1));
    }
  }

  /** Any number of bits to the right. */
  lemma {:induction false} AgreesJam(x: real, m: nat, j: nat, d: nat)
    requires j >= 1 && Agrees(x, m, Pow2(j))
    ensures Agrees(Scale(x, 0 - d), Jam(m, d), Pow2(j))
    decreases d
  {
    hide Agrees;
    hide Scale;
    if d == 0 {
      DivRem(m, 0, 1);
      ScaleZero(x);
    } else {
      hide Pow2;
      hide Jam;
      AgreesJam(x, m, j, d - 1);
      JamStep(m, d - 1);
      ScaleStep(x, 0 - d);
      AgreesOneBit(Scale(x, 1 - d), Jam(m, d - 1), j);
    }
  }

  /** Bits to the left. */
  lemma AgreesLeft(x: real, m: nat, g: nat, s: nat, y: real, ms: nat, gs: nat)
    requires g > 0 && s > 0 && Agrees(x, m, g) && y == x * s as real && ms == m * s && gs == s * g > 0
    ensures Agrees(y, ms, gs)
  {
    var k, r := m / g, m % g;
    DivMod(m, g);
    AgreesBounds(x, m, g, r);
    ScaleParts(k, r, g, s, m);
    if r == 0 {
      AgreesExact(ms, gs);
    } else {
      assert (k * gs) as real < y by { LeftOrder(k * g, x, s, k * gs, y); }
      assert y < ((k + 1) * gs) as real by {
        ScaleParts(k + 1, 0, g, s, (k + 1) * g);
        Distribute(k, 1, g);
        RightOrder((k + 1) * g, x, s, (k + 1) * gs, y);
      }
      Distribute(k, 1, gs);
      hide Agrees;
      AgreesCell(y, ms, gs, k, s * r);
    }
  }

  lemma LeftOrder(lo: nat, x: real, s: nat, los: nat, y: real)
    requires s > 0 && lo as real < x && los == lo * s && y == x * s as real
    ensures los as real < y
  {
    TimesOrder(lo as real, x, s as real);
  }

  lemma RightOrder(hi: nat, x: real, s: nat, his: nat, y: real)
    requires s > 0 && x < hi as real && his == hi * s && y == x * s as real
    ensures y < his as real
  {
    TimesOrder(x, hi as real, s as real);
  }

  lemma AgreesCell(y: real, m: nat, g: nat, k: nat, r: nat)
    requires 0 < r < g && m == k * g + r && (k * g) as real < y < (k * g + g) as real
    ensures Agrees(y, m, g)
  {
    DivRem(k, r, g);
  }

  lemma ScaleParts(k: nat, r: nat, g: nat, s: nat, m: nat)
    requires m == k * g + r && s > 0 && g > 0
    ensures m * s == k * (s * g) + s * r && (r < g ==> s * r < s * g) && (s * r == 0 <==> r == 0) && s * g > 0
    ensures (k * g) * s == k * (s * g)
  {
    Distribute(k * g, r, s);
    AssocNat(k, g, s);
    if r < g {
      MulMono(r + 1, g, s);
    }
  }

  lemma AgreesShl(x: real, m: nat, i: nat, s: nat)
    requires Agrees(x, m, Pow2(i))
    ensures Agrees(Scale(x, s), m * Pow2(s), Pow2(i + s))
  {
    hide Agrees;
    hide Pow2;
    hide Scale;
    assert Scale(x, s) == x * Pow2(s) as real by { ScaleByNat(x, s); }
    assert Pow2(i + s) == Pow2(s) * Pow2(i) by { Pow2Add(s, i); }
    AgreesLeft(x, m, Pow2(i), Pow2(s), Scale(x, s), m * Pow2(s), Pow2(i + s));
  }

  /** The size of a shifted number. */
  lemma JamBounds(m: nat, lo: nat, hi: nat, d: nat)
    requires d <= lo && d < hi && Pow2(lo) <= m < Pow2(hi)
    ensures Pow2(lo - d) <= Jam(m, d) < Pow2(hi - d)
  {
    ShrBounds(m, lo, hi, d);
    hide Shr;
    hide Low;
    Or1Below(Shr(m, d), Low(m, d) != 0, hi - d);
  }

  lemma ShrBounds(m: nat, lo: nat, hi: nat, d: nat)
    requires d <= lo && d <= hi && Pow2(lo) <= m < Pow2(hi)
    ensures Pow2(lo - d) <= Shr(m, d) < Pow2(hi - d)
  {
    Pow2Add(lo - d, d);
    Pow2Add(hi - d, d);
    var q, g := m / Pow2(d), Pow2(d);
    hide Pow2;
    DivMod(m, g);
    CellDigits(m, q, g, Pow2(lo - d), Pow2(hi - d));
  }

  lemma CellDigits(m: nat, q: nat, g: nat, a: nat, b: nat)
    requires q * g <= m < q * g + g && a * g <= m < b * g
    ensures a <= q < b
  {
    if q < a {
      MulMono(q + 1, a, g);
      Distribute(q, 1, g);
    }
    if q >= b {
      MulMono(b, q, g);
    }
  }

  /** An integer part with a sticky bit for the rest. */
  lemma AgreesFloor(x: real, q: nat, exact: bool)
    requires q as real <= x < (q + 1) as real && (exact <==> x == q as real)
    ensures Agrees(x, Or1(q, !exact), 2)
  {
  }

  lemma Or1Below(q: nat, b: bool, k: nat)
    requires k > 0 && q < Pow2(k)
    ensures q <= Or1(q, b) < Pow2(k)
  {
    assert Pow2(k) == 2 * Pow2(k - 1);
  }

  lemma JamBound(m: nat, n: nat, d: nat)
    requires d <= n && m < Pow2(n)
    ensures Jam(m, d) <= Pow2(n - d)
  {
    Pow2Add(n - d, d);
    var q, g := m / Pow2(d), Pow2(d);
    hide Pow2;
    DivMod(m, g);
    if q >= Pow2(n - d) {
      MulMono(Pow2(n - d), q, g);
    }
  }

  lemma JamPositive(a: nat, d: nat)
    requires a > 0
    ensures 0 < Jam(a, d) <= a
  {
    JamSmaller(a, d);
    DivMod(a, Pow2(d));
  }

  lemma JamZero(a: nat)
    ensures Jam(a, 0) == a
  {
    DivRem(a, 0, 1);
  }
}
