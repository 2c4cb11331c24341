/** Binary interchange formats, and what it means to round a real number to one
    of them (IEEE 754-2008, sections 3.3, 4.3 and 7). Magnitudes are counted in
    multiples of the smallest positive number of the format. */
module FloatSpec {
  import opened Powers

  /** EXP_SIZE and MANT_SIZE; a word has 1 + EXP_SIZE + MANT_SIZE bits, and the
      two halves of a word are equally long. */
  datatype Format = Format(expSize: nat, mantSize: nat) {
    predicate Valid() {
      8 <= expSize <= mantSize && (1 + expSize + mantSize) % 2 == 0
    }

    function FSize(): nat {
      1 + expSize + mantSize
    }

    function RndSize(): nat
      requires Valid()
    {
      FSize() - 2 - mantSize
    }

    function ExpMask(): (m: nat)
      ensures Valid() ==> m >= 255
    {
      assert Pow2(8) == 256;
      if Valid() then Pow2Mono(8, expSize); Pow2(expSize) - 1 else Pow2(expSize) - 1
    }

    function Bias(): nat
      requires Valid()
    {
      Pow2(expSize - 1) - 1
    }
  }

  lemma Sizes(f: Format)
    requires f.Valid()
    ensures f.expSize >= 8 && f.FSize() >= 17 && f.RndSize() >= 7 && f.RndSize() == f.FSize() - 2 - f.mantSize
    ensures Pow2(f.expSize - 1) == f.Bias() + 1
  {
  }

  lemma MaskIs(f: Format)
    requires f.Valid()
    ensures f.ExpMask() == 2 * f.Bias() + 1 && f.ExpMask() / 2 == f.Bias() && f.ExpMask() < Pow2(f.expSize)
  {
  }

  const SF32 := Format(8, 23)
  const SF64 := Format(11, 52)
  const SF128 := Format(15, 112)

  datatype RoundingMode = RNE | RTZ | RDN | RUP | RMM

  datatype Flags = Flags(inexact: bool, underflow: bool, overflow: bool, divideZero: bool, invalid: bool)

  const NO_FLAGS := Flags(false, false, false, false, false)
  const INVALID := Flags(false, false, false, false, true)

  // ----- words

  predicate IsWord(f: Format, w: nat) {
    w < Pow2(f.FSize())
  }

  function Neg(f: Format, w: nat): bool
    requires f.Valid()
  {
    w / Pow2(f.FSize() - 1) != 0
  }

  function Exp(f: Format, w: nat): nat {
    w / Pow2(f.mantSize) % Pow2(f.expSize)
  }

  function Mant(f: Format, w: nat): nat {
    w % Pow2(f.mantSize)
  }

  /** `pack_sf`. */
  function Pack(f: Format, neg: bool, exp: nat, mant: nat): nat
    requires f.Valid()
  {
    (if neg then Pow2(f.FSize() - 1) else 0) + exp * Pow2(f.mantSize) + mant % Pow2(f.mantSize)
  }

  /** The three fields of a word, as numbers. */
  lemma Split(s: nat, exp: nat, m: nat, e: nat, p: nat, w: nat)
    requires exp < e && m < p && w == s * (e * p) + exp * p + m
    ensures e * p > 0 && w / (e * p) == s && w / p % e == exp && w % p == m
    ensures s < 2 ==> w < 2 * (e * p)
  {
    var d := e * p;
    MulMono(exp + 1, e, p);
    AssocNat(s, e, p);
    Distribute(s * e, exp, p);
    DivRem(s * e + exp, m, p);
    DivRem(s, exp, e);
    DivRem(s, exp * p + m, d);
  }

  /** And back. */
  lemma Join(w: nat, e: nat, p: nat)
    requires e > 0 && p > 0
    ensures e * p > 0 && w / p % e < e && w % p < p && w == w / (e * p) * (e * p) + w / p % e * p + w % p
  {
    var u, m := w / p, w % p;
    var s, exp := u / e, u % e;
    DivMod(w, p);
    DivMod(u, e);
    assert w == (s * e + exp) * p + m;
    Nested(s, e, p, exp, m);
    Split(s, exp, m, e, p, w);
  }

  lemma TopBit(w: nat, d: nat)
    requires d > 0 && w < 2 * d
    ensures w / d == if w / d != 0 then 1 else 0
  {
    if w >= d {
      DivRem(1, w - d, d);
    } else {
      DivRem(0, w, d);
    }
  }

  lemma FieldSizes(f: Format)
    requires f.Valid()
    ensures Pow2(f.FSize() - 1) == Pow2(f.expSize) * Pow2(f.mantSize)
    ensures Pow2(f.FSize()) == 2 * (Pow2(f.expSize) * Pow2(f.mantSize))
  {
    Pow2Add(f.expSize, f.mantSize);
  }

  lemma {:induction false} PackFields(f: Format, neg: bool, exp: nat, mant: nat)
    requires f.Valid() && exp < Pow2(f.expSize)
    ensures var w := Pack(f, neg, exp, mant);
            IsWord(f, w) && Neg(f, w) == neg && Exp(f, w) == exp && Mant(f, w) == mant % Pow2(f.mantSize)
  {
    var p, e := Pow2(f.mantSize), Pow2(f.expSize);
    FieldSizes(f);
    hide Pow2;
    Split(if neg then 1 else 0, exp, mant % p, e, p, Pack(f, neg, exp, mant));
  }

  /** A word is determined by its fields. */
  lemma {:induction false} PackOfFields(f: Format, w: nat)
    requires f.Valid() && IsWord(f, w)
    ensures Exp(f, w) < Pow2(f.expSize) && w == Pack(f, Neg(f, w), Exp(f, w), Mant(f, w))
  {
    FieldSizes(f);
    hide Pow2;
    Join(w, Pow2(f.expSize), Pow2(f.mantSize));
    TopBit(w, Pow2(f.expSize) * Pow2(f.mantSize));
    SmallMod(Mant(f, w), Pow2(f.mantSize));
  }

  predicate Finite(f: Format, w: nat) {
    Exp(f, w) != f.ExpMask()
  }

  predicate IsInf(f: Format, w: nat) {
    Exp(f, w) == f.ExpMask() && Mant(f, w) == 0
  }

  predicate IsNaN(f: Format, w: nat) {
    Exp(f, w) == f.ExpMask() && Mant(f, w) != 0
  }

  /** The magnitude of a finite number, in multiples of the smallest positive one. */
  function Mag(f: Format, w: nat): nat
    requires Finite(f, w)
  {
    if Exp(f, w) == 0 then Mant(f, w) else (Pow2(f.mantSize) + Mant(f, w)) * Pow2(Exp(f, w) - 1)
  }

  /** The value of a finite number, in the same unit. */
  function Value(f: Format, w: nat): int
    requires f.Valid() && Finite(f, w)
  {
    var m: int := Mag(f, w);
    if Neg(f, w) then -m else m
  }

  // ----- rounding

  /** `n` is `c * 2^i` with a significand of at most MANT_SIZE + 1 bits, full unless i == 0. */
  ghost predicate Canonical(f: Format, n: nat, c: nat, i: nat) {
    n == c * Pow2(i) && c < 2 * Pow2(f.mantSize) && (i == 0 || Pow2(f.mantSize) <= c)
  }

  ghost predicate Representable(f: Format, n: nat) {
    exists c: nat, i: nat :: Canonical(f, n, c, i)
  }

  ghost predicate EvenSignificand(f: Format, n: nat) {
    exists c: nat, i: nat :: Canonical(f, n, c, i) && c % 2 == 0
  }

  predicate Nearest(rm: RoundingMode) {
    rm == RNE || rm == RMM
  }

  /** The directed modes round away from zero on one side of it. */
  predicate Away(rm: RoundingMode, neg: bool) {
    (rm == RDN && neg) || (rm == RUP && !neg)
  }

  ghost function Dist(n: nat, x: real): real {
    if n as real <= x then x - n as real else n as real - x
  }

  ghost predicate Closest(f: Format, rm: RoundingMode, x: real, n: nat) {
    forall k: nat :: Representable(f, k) ==>
      && Dist(n, x) <= Dist(k, x)
      && (k != n && Dist(n, x) == Dist(k, x) ==> if rm == RNE then EvenSignificand(f, n) else n > k)
  }

  ghost predicate Above(f: Format, x: real, n: nat) {
    x <= n as real && forall k: nat :: Representable(f, k) && x <= k as real ==> n <= k
  }

  ghost predicate Below(f: Format, x: real, n: nat) {
    n as real <= x && forall k: nat :: Representable(f, k) && k as real <= x ==> k <= n
  }

  /** `n` is the magnitude `x` of a number of the given sign, rounded as if the
      exponent had no upper bound. */
  ghost predicate Rounds(f: Format, rm: RoundingMode, neg: bool, x: real, n: nat) {
    && Representable(f, n)
    && if Nearest(rm) then Closest(f, rm, x, n) else if Away(rm, neg) then Above(f, x, n) else Below(f, x, n)
  }

  /** Tiny after rounding: with an exponent unbounded below as well, the result
      would be less than the smallest normal number. At twice the magnitude the
      numbers just below that are full precision. */
  ghost predicate Tiny(f: Format, rm: RoundingMode, neg: bool, x: real) {
    var y := 2.0 * x;
    exists t: nat :: Rounds(f, rm, neg, y, t) && t < 2 * Pow2(f.mantSize)
  }

  function MaxMag(f: Format): nat
    requires f.Valid()
  {
    (2 * Pow2(f.mantSize) - 1) * Pow2(f.ExpMask() - 2)
  }

  function OverflowWord(f: Format, rm: RoundingMode, neg: bool): nat
    requires f.Valid()
  {
    if Nearest(rm) || Away(rm, neg) then Pack(f, neg, f.ExpMask(), 0)
    else Pack(f, neg, f.ExpMask() - 1, Pow2(f.mantSize) - 1)
  }

  ghost predicate Delivers(f: Format, rm: RoundingMode, neg: bool, x: real, n: nat, w: nat, raised: Flags)
    requires f.Valid()
  {
    && IsWord(f, w)
    && (if n <= MaxMag(f) then Neg(f, w) == neg && Finite(f, w) && Mag(f, w) == n else w == OverflowWord(f, rm, neg))
    && raised.overflow == (n > MaxMag(f)) && raised.inexact == (n > MaxMag(f) || n as real != x)
    && raised.underflow == (n as real != x && Tiny(f, rm, neg, x))
    && !raised.divideZero && !raised.invalid
  }

  /** The word and the flags are those of the exact magnitude `x` rounded once. */
  ghost predicate Rounded(f: Format, rm: RoundingMode, neg: bool, x: real, w: nat, raised: Flags)
    requires f.Valid()
  {
    exists n: nat :: Rounds(f, rm, neg, x, n) && Delivers(f, rm, neg, x, n, w, raised)
  }
}
