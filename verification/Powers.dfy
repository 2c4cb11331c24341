/** Powers of two as word sizes (naturals) and as scales (reals). */
module Powers {

  function Pow2(n: nat): (p: nat)
    ensures p >= 1
  {
    if n == 0 then 1 else 2 * Pow2(n - 1)
  }

  lemma {:induction false} Pow2Add(a: nat, b: nat)
    ensures Pow2(a + b) == Pow2(a) * Pow2(b)
    decreases a
  {
    if a > 0 {
      Pow2Add(a - 1, b);
      AssocNat(2, Pow2(a - 1), Pow2(b));
    }
  }

  lemma {:induction false} Pow2Mono(a: nat, b: nat)
    requires a <= b
    ensures Pow2(a) <= Pow2(b)
    ensures a < b ==> 2 * Pow2(a) <= Pow2(b)
    decreases b
  {
    if a < b {
      Pow2Mono(a, b - 1);
    }
  }

  lemma Pow2Even(j: nat)
    requires j >= 1
    ensures Pow2(j) == 2 * Pow2(j - 1) && (j == 1 ==> Pow2(j - 1) == 1) && (j >= 2 ==> Pow2(j - 1) % 2 == 0)
  {
    if j >= 2 {
      assert Pow2(j - 1) == 2 * Pow2(j - 2);
    }
  }

  lemma Pow2Next(m: nat)
    ensures Pow2(m + 1) == 2 * Pow2(m) && Pow2(m + 2) == 4 * Pow2(m) && Pow2(m + 3) == 8 * Pow2(m)
    ensures Pow2(m + 4) == 16 * Pow2(m) && Pow2(m + 5) == 32 * Pow2(m)
    ensures Pow2(0) == 1 && Pow2(1) == 2 && Pow2(2) == 4 && Pow2(3) == 8
  {
    assert Pow2(m + 2) == 2 * Pow2(m + 1);
    assert Pow2(m + 3) == 2 * Pow2(m + 2);
    assert Pow2(m + 4) == 2 * Pow2(m + 3);
    assert Pow2(m + 5) == 2 * Pow2(m + 4);
  }

  /** The powers that the numbers of the formats and of the page tables are. */
  lemma PowerTable()
    ensures Pow2(0) == 1 && Pow2(1) == 2 && Pow2(2) == 4 && Pow2(8) == 0x100 && Pow2(9) == 0x200 && Pow2(10) == 0x400
    ensures Pow2(11) == 0x800 && Pow2(12) == 0x1000 && Pow2(17) == 0x2_0000 && Pow2(18) == 0x4_0000
    ensures Pow2(19) == 0x8_0000 && Pow2(21) == 0x20_0000 && Pow2(22) == 0x40_0000 && Pow2(23) == 0x80_0000
    ensures Pow2(26) == 0x400_0000 && Pow2(30) == 0x4000_0000 && Pow2(31) == 0x8000_0000
    ensures Pow2(32) == 0x1_0000_0000 && Pow2(38) == 0x40_0000_0000 && Pow2(39) == 0x80_0000_0000
    ensures Pow2(44) == 0x1000_0000_0000 && Pow2(47) == 0x8000_0000_0000 && Pow2(51) == 0x8_0000_0000_0000
    ensures Pow2(52) == 0x10_0000_0000_0000 && Pow2(60) == 0x1000_0000_0000_0000
    ensures Pow2(63) == 0x8000_0000_0000_0000 && Pow2(64) == 0x1_0000_0000_0000_0000
  {
    hide *;
    Pow2Next(0);
    Pow2Next(4);
    Pow2Next(9);
    Pow2Next(14);
    Pow2Next(19);
    Pow2Next(24);
    Pow2Next(29);
    Pow2Next(34);
    Pow2Next(39);
    Pow2Next(44);
    Pow2Next(49);
    Pow2Next(54);
    Pow2Next(59);
  }

  lemma Pow2Less(a: nat, b: nat)
    requires Pow2(a) < Pow2(b)
    ensures a < b
  {
    if b <= a {
      Pow2Mono(b, a);
    }
  }

  /** `a << k`, without the loss of high bits. */
  function Shl(a: nat, k: nat): nat {
    a * Pow2(k)
  }

  function Quotient(a: nat, d: nat): nat
    requires d > 0
  {
    a / d
  }

  /** `a >> k`. */
  function Shr(a: nat, k: nat): nat {
    Quotient(a, Pow2(k))
  }

  /** `a & ((1 << k) - 1)`. */
  function Low(a: nat, k: nat): (r: nat)
    ensures r < Pow2(k)
  {
    a % Pow2(k)
  }

  lemma HalfSplit(x: nat, k: nat)
    ensures x == Shr(x, k) * Pow2(k) + Low(x, k)
  {
    hide Pow2;
  }

  // ----- division and order

  lemma DivRem(q: nat, r: nat, d: nat)
    requires r < d
    ensures (q * d + r) / d == q && (q * d + r) % d == r
  {
    var x := q * d + r;
    var p, s := x / d, x % d;
    assert x == p * d + s;
    if p < q {
      MulMono(p + 1, q, d);
    } else if q < p {
      MulMono(q + 1, p, d);
    }
  }

  lemma MulMono(a: nat, b: nat, m: nat)
    requires a <= b
    ensures a * m <= b * m
  {
  }

  lemma Distribute(a: int, b: int, m: int)
    ensures (a + b) * m == a * m + b * m
  {
  }

  lemma Nested(s: nat, e: nat, p: nat, exp: nat, m: nat)
    ensures (s * e + exp) * p + m == s * (e * p) + exp * p + m
  {
    AssocNat(s, e, p);
    Distribute(s * e, exp, p);
  }

  lemma DivMod(x: nat, d: nat)
    requires d > 0
    ensures x / d >= 0 && 0 <= x % d < d && x == x / d * d + x % d
  {
  }

  lemma SmallMod(m: nat, d: nat)
    requires m < d
    ensures m % d == m && m / d == 0
  {
    DivRem(0, m, d);
  }

  /** The real `2^e`. */
  ghost function Pow(e: int): (p: real)
    ensures p > 0.0
    decreases if e >= 0 then e else -e
  {
    if e == 0 then 1.0 else if e > 0 then 2.0 * Pow(e - 1) else Pow(e + 1) / 2.0
  }

  lemma PowStep(e: int)
    ensures Pow(e + 1) == 2.0 * Pow(e)
  {
  }

  lemma {:induction false} PowNat(n: nat)
    ensures Pow(n) == Pow2(n) as real
  {
    if n > 0 {
      PowNat(n - 1);
    }
  }

  ghost predicate Splits(a: int, b: int) {
    Pow(a + b) == Pow(a) * Pow(b)
  }

  lemma SplitsStep(a: int, b: int)
    ensures Splits(a, b) <==> Splits(a, b + 1)
  {
    hide Pow;
    PowStep(a + b);
    PowStep(b);
    Twice(Pow(a), Pow(b), Pow(b + 1));
  }

  lemma {:induction false} SplitsAll(a: int, b: int)
    ensures Splits(a, b)
    decreases if b >= 0 then b else -b
  {
    if b > 0 {
      hide Splits;
      SplitsAll(a, b - 1);
      SplitsStep(a, b - 1);
    } else if b < 0 {
      hide Splits;
      SplitsAll(a, b + 1);
      SplitsStep(a, b);
    } else {
      assert Pow(0) == 1.0;
    }
  }

  lemma PowAdd(a: int, b: int)
    ensures Pow(a + b) == Pow(a) * Pow(b)
  {
    hide Pow;
    SplitsAll(a, b);
  }

  lemma Twice(x: real, y: real, z: real)
    requires z == 2.0 * y
    ensures x * z == 2.0 * (x * y)
  {
  }

  lemma AssocNat(x: int, y: int, z: int)
    ensures x * (y * z) == (x * y) * z
  {
  }

  lemma Assoc(x: real, y: real, z: real)
    ensures x * (y * z) == (x * y) * z == y * (x * z)
  {
  }

  /** `x * 2^e`. */
  ghost function Scale(x: real, e: int): real {
    x * Pow(e)
  }

  lemma ScaleZero(x: real)
    ensures Scale(x, 0) == x
  {
    assert Pow(0) == 1.0;
    hide Pow;
  }

  lemma ScaleSign(x: real, e: int)
    ensures (x > 0.0 <==> Scale(x, e) > 0.0) && (x == 0.0 <==> Scale(x, e) == 0.0)
  {
    hide Pow;
    TimesOrder(0.0, x, Pow(e));
  }

  lemma ScaleStep(x: real, e: int)
    ensures Scale(x, e + 1) == 2.0 * Scale(x, e)
  {
    hide Pow;
    PowStep(e);
    Twice(x, Pow(e), Pow(e + 1));
  }

  /** Scaling twice. */
  lemma Rescale(x: real, a: int, b: int)
    ensures Scale(Scale(x, a), b) == Scale(x, a + b)
  {
    hide Pow;
    PowAdd(a, b);
    Assoc(x, Pow(a), Pow(b));
  }

  lemma ScaleTimes(x: real, a: int, y: real, b: int)
    ensures Scale(x, a) * Scale(y, b) == Scale(x * y, a + b)
  {
    hide Pow;
    PowAdd(a, b);
    TimesTimes(x, Pow(a), y, Pow(b));
  }

  lemma ScaleTimesIs(x: real, a: int, y: real, b: int, xy: real, ab: int)
    requires x * y == xy && a + b == ab
    ensures Scale(x, a) * Scale(y, b) == Scale(xy, ab)
  {
    hide Scale;
    ScaleTimes(x, a, y, b);
  }

  lemma TimesTimes(x: real, a: real, y: real, b: real)
    ensures (x * a) * (y * b) == (x * y) * (a * b)
  {
    Assoc(x * a, y, b);
    Assoc(y, x, a);
    Assoc(x * y, a, b);
  }

  lemma ScaleByNat(x: real, s: nat)
    ensures Scale(x, s) == x * Pow2(s) as real
  {
    hide Pow;
    PowNat(s);
  }

  lemma ScaleNat(n: nat, e: nat)
    ensures Scale(n as real, e) == (n * Pow2(e)) as real
  {
    hide Pow;
    PowNat(e);
  }

  lemma ScaleDouble(m: nat, e: int)
    ensures Scale((2 * m) as real, e) == 2.0 * Scale(m as real, e)
  {
    hide Pow;
    Assoc(2.0, m as real, Pow(e));
  }

  lemma ScaleOrder(x: real, y: real, e: int)
    ensures (x < y <==> Scale(x, e) < Scale(y, e)) && (x == y <==> Scale(x, e) == Scale(y, e))
  {
    hide Pow;
    TimesOrder(x, y, Pow(e));
  }

  lemma TimesOrder(a: real, b: real, s: real)
    requires s > 0.0
    ensures (a < b <==> a * s < b * s) && (a == b <==> a * s == b * s)
  {
  }

  // ----- the length of a word

  function BitLen(n: nat): (l: nat)
    ensures n < Pow2(l) && (n > 0 ==> l > 0 && Pow2(l - 1) <= n) && (n == 0 ==> l == 0)
  {
    if n == 0 then 0 else BitLen(n / 2) + 1
  }

  lemma BitLenBound(n: nat, size: nat)
    requires n < Pow2(size)
    ensures BitLen(n) <= size
  {
    if n > 0 {
      Pow2Less(BitLen(n) - 1, size);
    }
  }

  /** `clz` on words of `size` bits. */
  function Clz(n: nat, size: nat): (r: nat)
    requires n < Pow2(size)
    ensures r <= size && n < Pow2(size - r) && (n > 0 ==> r < size && Pow2(size - r - 1) <= n)
    ensures n == 0 ==> r == size
  {
    BitLenBound(n, size);
    size - BitLen(n)
  }

  lemma ShlBounds(m: nat, l: nat, s: nat)
    requires m < Pow2(l)
    ensures m * Pow2(s) < Pow2(l + s)
    ensures l > 0 && Pow2(l - 1) <= m ==> Pow2(l - 1 + s) <= m * Pow2(s)
  {
    Pow2Add(l, s);
    MulMono(m + 1, Pow2(l), Pow2(s));
    Distribute(m, 1, Pow2(s));
    if l > 0 && Pow2(l - 1) <= m {
      Pow2Add(l - 1, s);
      MulMono(Pow2(l - 1), m, Pow2(s));
    }
  }

  lemma ProductBounds(a: nat, b: nat, i: nat, j: nat)
    requires Pow2(i) <= a < Pow2(i + 1) && Pow2(j) <= b < Pow2(j + 1)
    ensures Pow2(i + j) <= a * b < Pow2(i + j + 2)
  {
    Pow2Add(i, j);
    Pow2Add(i + 1, j + 1);
    var p, q, r, s := Pow2(i), Pow2(j), Pow2(i + 1), Pow2(j + 1);
    hide Pow2;
    MulOrder(p, a, q, b);
    MulMono(b, s, a);
    MulMono(a + 1, r, s);
    Distribute(a, 1, s);
  }

  lemma MulOrder(a: nat, b: nat, c: nat, d: nat)
    requires a <= b && c <= d
    ensures a * c <= b * d
  {
    MulMono(a, b, c);
    MulMono(c, d, b);
  }
}
