/** The part of dtoa_r in runtime/stub/dtoa.c that turns a mantissa, a binary exponent and a decimal
    exponent into the numbers the digit loops work on. */
module DtoaSetup {
  import opened Words
  import opened BigintArithmetic
  import opened PowersOfFive
  import opened QuoremStep
  import opened Decimal
  import opened DigitLoops

  /** v = m * 2^e2 * 5^e5. */
  ghost predicate IsScaled(v: nat, m: nat, e2: nat, e5: nat) {
    v == m * Pow(5, e5) * Pow(2, e2)
  }

  function Pos(e: int): nat { if e > 0 then e else 0 }
  function Neg(e: int): nat { if e < 0 then -e else 0 }

  /** v/S = m * 2^e2 * 5^e5, for exponents of either sign. */
  ghost predicate IsRatio(v: nat, S: nat, m: nat, e2: int, e5: int) {
    v * (Pow(5, Neg(e5)) * Pow(2, Neg(e2))) == m * (Pow(5, Pos(e5)) * Pow(2, Pos(e2))) * S
  }

  lemma RatioOfScaled(v: nat, S: nat, m: nat, v2: nat, v5: nat, s2: nat, s5: nat)
    requires IsScaled(v, m, v2, v5) && IsScaled(S, 1, s2, s5)
    ensures IsRatio(v, S, m, v2 - s2, v5 - s5)
  {
    var e2, e5 := v2 - s2, v5 - s5;
    assert v2 + Neg(e2) == s2 + Pos(e2) && v5 + Neg(e5) == s5 + Pos(e5);
    PowAdd(5, v5, Neg(e5));
    PowAdd(5, s5, Pos(e5));
    PowAdd(2, v2, Neg(e2));
    PowAdd(2, s2, Pos(e2));
    var (a, b, c, d) := (Pow(5, v5), Pow(5, Neg(e5)), Pow(2, v2), Pow(2, Neg(e2)));
    var (f, g, h, i) := (Pow(5, s5), Pow(5, Pos(e5)), Pow(2, s2), Pow(2, Pos(e2)));
    calc {
      m * a * c * (b * d);
      { Regroup(m, a, c, b, d); }
      m * ((a * b) * (c * d));
      m * ((f * g) * (h * i));
      { Regroup(m, g, i, f, h); MulCommutes(f, g); MulCommutes(h, i); }
      m * g * i * (f * h);
      { MulAssoc(m, g, i); assert 1 * f * h == f * h; }
      m * (g * i) * S;
    }
  }

  lemma Regroup(m: int, a: int, c: int, b: int, d: int)
    ensures m * a * c * (b * d) == m * ((a * b) * (c * d))
  {
    calc {
      m * a * c * (b * d);
      { MulAssoc(m * a * c, b, d); }
      m * a * c * b * d;
      { MulAssoc(m * a, c, b); MulCommutes(c, b); MulAssoc(m * a, b, c); }
      m * a * b * c * d;
      { MulAssoc(m, a, b); MulAssoc(m * (a * b), c, d); }
      m * (a * b) * (c * d);
      { MulAssoc(m, a * b, c * d); }
      m * ((a * b) * (c * d));
    }
  }

  /** Multiplying the scaled number by a power of five or of two. */
  lemma ScaleUpBy(v: nat, m: nat, e2: nat, e5: nat, x: nat)
    requires IsScaled(v, m, e2, e5)
    ensures IsScaled(v * Pow(2, x), m, e2 + x, e5)
    ensures e2 == 0 ==> IsScaled(v * Pow(5, x), m, 0, e5 + x)
  {
    PowAdd(2, e2, x);
    PowAdd(5, e5, x);
    MulAssoc(m * Pow(5, e5), Pow(2, e2), Pow(2, x));
    assert Pow(2, 0) == 1;
    MulAssoc(m, Pow(5, e5), Pow(5, x));
  }

  /** lshift, skipped when there is nothing to shift by. */
  method ShiftIfNeeded(b0: Bigint, k: nat, ghost m: nat, ghost e5: nat) returns (b: Bigint)
    requires b0.Valid() && b0.wds > 0 && b0.Value() > 0 && IsScaled(b0.Value(), m, 0, e5)
    ensures b.Valid() && b.wds > 0 && b.Value() > 0
    ensures IsScaled(b.Value(), m, k, e5) && b.Value() == b0.Value() * Pow(2, k)
    ensures b == b0 || (fresh(b) && fresh(b.x))
  {
    hide IsScaled;
    b := b0;
    assert Pow(2, 0) == 1;
    if k > 0 {
      TopNonzero(b0);
      b := LShift(b0, k);
    }
    ScaleUpBy(b0.Value(), m, 0, e5, k);
    PowPositive(2, k);
    MulPositive(b0.Value(), Pow(2, k));
  }

  lemma TopNonzero(b: Bigint)
    requires b.Valid() && b.wds > 0 && b.Value() > 0
    ensures b.x[b.wds - 1] != 0
  {
    ValZero(b.x[..], b.wds);
  }

  /** pow5mult applied to a number that is not zero. */
  method FivesIfNeeded(b0: Bigint, k: nat, p5s: P5Chain, ghost m: nat) returns (b: Bigint)
    requires b0.Valid() && p5s.Valid() && p5s.Untouched(b0)
    requires b0.wds > 0 && b0.Value() == m > 0
    modifies b0, b0.x, p5s
    ensures b.Valid() && b.wds > 0 && b.Value() > 0 && IsScaled(b.Value(), m, 0, k)
    ensures b == b0 || (fresh(b) && fresh(b.x))
    ensures p5s.Valid() && p5s.Untouched(b) && fresh(p5s.Repr - old(p5s.Repr))
  {
    b := b0;
    assert Pow(5, 0) == 1 && Pow(2, 0) == 1;
    if k > 0 {
      b := Pow5Mult(b0, k, p5s);
    }
    PowPositive(5, k);
    MulPositive(m, Pow(5, k));
    NonzeroHasWords(b);
  }

  /** The exponents of the three numbers before they are built. */
  datatype Exponents = Exponents(b2: nat, b5: nat, s2: nat, s5: nat, m2: nat, m5: nat)

  /** b2, s2, ... for the number m * 2^be / 10^k, with i extra places when half-gaps are wanted; a
      common power of two is taken out, and spec_case doubles b and S once more. */
  method ScaleExponents(be: int, k: int, leftright: bool, i: nat, specCase: bool) returns (e: Exponents)
    ensures e.b2 - e.s2 == be - k && e.b5 - e.s5 == -k
    ensures e.m2 - e.s2 == be - k - (if leftright then i else 0) - (if specCase then 1 else 0)
    ensures e.m5 == e.b5
  {
    var b2, s2, b5, s5;
    var j := -be;
    if j >= 0 {
      b2, s2 := 0, j;
    } else {
      b2, s2 := -j, 0;
    }
    if k >= 0 {
      b5, s5 := 0, k;
      s2 := s2 + k;
    } else {
      b2 := b2 - k;
      b5, s5 := -k, 0;
    }
    var m2, m5 := b2, b5;
    if leftright {
      b2 := b2 + i;
      s2 := s2 + i;
    }
    if m2 > 0 && s2 > 0 {
      var c := if m2 < s2 then m2 else s2;
      b2, m2, s2 := b2 - c, m2 - c, s2 - c;
    }
    if specCase {
      b2, s2 := b2 + 1, s2 + 1;
    }
    e := Exponents(b2, b5, s2, s5, m2, m5);
  }

  /** S = 5^s5 * 2^s2 with the extra shift that gives it four leading zero bits. */
  method BuildDivisor(s2: nat, s5: nat, p5s: P5Chain) returns (S: Bigint, extra: nat)
    requires p5s.Valid()
    modifies p5s
    ensures fresh(S) && fresh(S.x) && S.Valid() && Normalised(S) && S.Value() > 0
    ensures IsScaled(S.Value(), 1, s2 + extra, s5)
    ensures p5s.Valid() && p5s.Untouched(S) && fresh(p5s.Repr - old(p5s.Repr))
  {
    hide IsScaled, Val, FourSpare;
    var one := new Bigint.FromInt(1);
    S := FivesIfNeeded(one, s5, p5s, 1);
    extra := Dshift(S, s2);
    ghost var v := S.Value();
    ghost var n :| FourSpare(v * Pow(2, s2 + extra), n);
    S := ShiftIfNeeded(S, s2 + extra, 1, s5);
    NormalisedTop(S, n);
  }

  /** The number b itself: m * 5^b5 * 2^(b2 + extra). */
  method BuildNumber(b0: Bigint, b2: nat, b5: nat, p5s: P5Chain, ghost m: nat) returns (b: Bigint)
    requires b0.Valid() && b0.wds > 0 && b0.Value() == m > 0
    requires p5s.Valid() && p5s.Untouched(b0)
    modifies b0, b0.x, p5s
    ensures b.Valid() && b.wds > 0 && b.Value() > 0 && IsScaled(b.Value(), m, b2, b5)
    ensures b == b0 || (fresh(b) && fresh(b.x))
    ensures p5s.Valid() && fresh(p5s.Repr - old(p5s.Repr))
  {
    hide IsScaled, Val;
    b := FivesIfNeeded(b0, b5, p5s, m);
    b := ShiftIfNeeded(b, b2, m, b5);
  }

  /** The number m * 2^be / 10^k in the form b/S, for the fixed-length loop. */
  method BuildFixed(b0: Bigint, be: int, k: int, p5s: P5Chain, ghost m: nat) returns (b: Bigint, S: Bigint)
    requires b0.Valid() && b0.wds > 0 && b0.Value() == m > 0
    requires p5s.Valid() && p5s.Untouched(b0)
    modifies b0, b0.x, p5s
    ensures b.Valid() && S.Valid() && Normalised(S) && Apart(b, S) && S.Value() > 0
    ensures b == b0 || (fresh(b) && fresh(b.x))
    ensures IsRatio(b.Value(), S.Value(), m, be - k, -k)
    ensures p5s.Valid()
  {
    hide IsScaled, IsRatio, Val, Normalised;
    var e := ScaleExponents(be, k, false, 0, false);
    var extra;
    S, extra := BuildDivisor(e.s2, e.s5, p5s);
    b := BuildNumber(b0, e.b2 + extra, e.b5, p5s, m);
    RatioOfScaled(b.Value(), S.Value(), m, e.b2 + extra, e.b5, e.s2 + extra, e.s5);
  }

  /** A copy of mlo shifted by Log2P = 1, for a double whose lower gap is half its upper gap. */
  method CopyShifted(mlo: Bigint) returns (mhi: Bigint)
    requires mlo.Valid() && mlo.wds > 0 && mlo.Value() > 0
    ensures fresh(mhi) && fresh(mhi.x) && mhi.Valid() && mhi.wds > 0 && mhi.Value() == 2 * mlo.Value()
  {
    var c := new Bigint(mlo.k);
    CopyInto(c, mlo);
    ValSame(mlo.x[..], c.x[..], mlo.wds);
    TopNonzero(mlo);
    mhi := Double(c);
  }

  /** The same number with its half-gaps mlo/S = 2^(be-i-spec)/10^k and mhi/S, equal or doubled. */
  method BuildFree(b0: Bigint, be: int, k: int, i: nat, specCase: bool, p5s: P5Chain, ghost m: nat)
      returns (b: Bigint, S: Bigint, mlo: Bigint, mhi: Bigint)
    requires b0.Valid() && b0.wds > 0 && b0.Value() == m > 0
    requires p5s.Valid() && p5s.Untouched(b0)
    modifies b0, b0.x, p5s
    ensures Separate(b, S, mlo, mhi) && Ready(b, S, mlo, mhi)
    ensures fresh(mlo) && fresh(mlo.x) && fresh(mhi) && fresh(mhi.x) && fresh(S) && fresh(S.x)
    ensures b == b0 || (fresh(b) && fresh(b.x))
    ensures IsRatio(b.Value(), S.Value(), m, be - k, -k)
    ensures IsRatio(mlo.Value(), S.Value(), 1, be - k - i - (if specCase then 1 else 0), -k)
    ensures mhi.Value() == (if specCase then 2 else 1) * mlo.Value() && mlo.Value() > 0 && S.Value() > 0
    ensures p5s.Valid()
  {
    hide IsScaled, IsRatio, Val, Normalised;
    var e := ScaleExponents(be, k, true, i, specCase);
    b, mhi := BuildFives(b0, e.m5, p5s, m);
    var extra;
    S, extra := BuildDivisor(e.s2, e.s5, p5s);
    b, mhi := ShiftBoth(b, mhi, e.b2 + extra, e.m2 + extra, m, e.m5);
    RatioOfScaled(b.Value(), S.Value(), m, e.b2 + extra, e.b5, e.s2 + extra, e.s5);
    RatioOfScaled(mhi.Value(), S.Value(), 1, e.m2 + extra, e.m5, e.s2 + extra, e.s5);
    mlo := mhi;
    if specCase {
      mhi := CopyShifted(mlo);
    }
  }

  method ShiftBoth(b0: Bigint, mhi0: Bigint, b2: nat, m2: nat, ghost m: nat, ghost e5: nat)
      returns (b: Bigint, mhi: Bigint)
    requires b0.Valid() && b0.wds > 0 && b0.Value() > 0 && IsScaled(b0.Value(), m, 0, e5)
    requires mhi0.Valid() && mhi0.wds > 0 && mhi0.Value() > 0 && IsScaled(mhi0.Value(), 1, 0, e5)
    requires Apart(b0, mhi0)
    ensures b.Valid() && b.wds > 0 && b.Value() > 0 && IsScaled(b.Value(), m, b2, e5)
    ensures mhi.Valid() && mhi.wds > 0 && mhi.Value() > 0 && IsScaled(mhi.Value(), 1, m2, e5)
    ensures b == b0 || (fresh(b) && fresh(b.x))
    ensures mhi == mhi0 || (fresh(mhi) && fresh(mhi.x))
    ensures Apart(b, mhi)
  {
    hide IsScaled, Val;
    b := ShiftIfNeeded(b0, b2, m, e5);
    mhi := ShiftIfNeeded(mhi0, m2, 1, e5);
  }

  /** mhi = 5^m5, and b = m * 5^m5 computed with it. */
  method BuildFives(b0: Bigint, m5: nat, p5s: P5Chain, ghost m: nat) returns (b: Bigint, mhi: Bigint)
    requires b0.Valid() && b0.wds > 0 && b0.Value() == m > 0
    requires p5s.Valid() && p5s.Untouched(b0)
    modifies p5s
    ensures b.Valid() && b.wds > 0 && b.Value() > 0 && IsScaled(b.Value(), m, 0, m5)
    ensures mhi.Valid() && mhi.wds > 0 && mhi.Value() > 0 && IsScaled(mhi.Value(), 1, 0, m5)
    ensures b == b0 || (fresh(b) && fresh(b.x))
    ensures fresh(mhi) && fresh(mhi.x) && Apart(b, mhi)
    ensures p5s.Valid()
  {
    hide IsScaled, Val;
    var one := new Bigint.FromInt(1);
    mhi := FivesIfNeeded(one, m5, p5s, 1);
    b := b0;
    if m5 > 0 {
      b := Mult(mhi, b0);
    }
    FivesShared(b.Value(), mhi.Value(), m, m5);
    NonzeroHasWords(b);
  }

  /** The factor 5^m5 is computed once, in mhi, and multiplied into b. */
  lemma FivesShared(v: nat, f: nat, m: nat, e5: nat)
    requires m > 0 && f > 0 && IsScaled(f, 1, 0, e5) && v == if e5 > 0 then f * m else m
    ensures v > 0 && IsScaled(v, m, 0, e5)
  {
    assert Pow(2, 0) == 1 && Pow(5, 0) == 1;
    MulCommutes(f, m);
    MulPositive(f, m);
  }

  /** The decimal exponent is not too small: m * 2^be < 10^(k+1). */
  ghost predicate ExponentFits(m: nat, be: int, k: int) {
    m * (Pow(5, Pos(-k)) * Pow(2, Pos(be - k))) < 10 * (Pow(5, Neg(-k)) * Pow(2, Neg(be - k)))
  }

  lemma BelowTen(v: nat, S: nat, m: nat, be: int, k: int)
    requires IsRatio(v, S, m, be - k, -k) && ExponentFits(m, be, k) && S > 0
    ensures v < 10 * S
  {
    var X := Pow(5, Neg(-k)) * Pow(2, Neg(be - k));
    var Y := m * (Pow(5, Pos(-k)) * Pow(2, Pos(be - k)));
    PowPositive(5, Neg(-k));
    PowPositive(2, Neg(be - k));
    MulPositive(Pow(5, Neg(-k)), Pow(2, Neg(be - k)));
    MulMonoStrict(Y, 10 * X, S);
    MulAssoc(10, X, S);
    MulCommutes(X, S);
    MulAssoc(10, S, X);
    MulCancelLt(v, 10 * S, X);
  }

  // ------------------------------------------------------------------ no first digit nine

  /** What divides d * a and is coprime to d divides a. */
  lemma Coprime(d: int, a: int, p: int, u: int, v: int, K: int)
    requires d * u + p * v == 1 && d * a == p * K
    ensures a == p * (u * K + v * a)
  {
    calc {
      p * (u * K + v * a);
      { MulCommutes(p, u * K + v * a); MulDistributes(u * K, v * a, p); }
      u * K * p + v * a * p;
      { MulAssoc(u, K, p); MulCommutes(K, p); MulAssoc(u, d, a); }
      u * d * a + v * a * p;
      { MulAssoc(v, a, p); MulCommutes(a, p); MulAssoc(v, p, a); }
      u * d * a + v * p * a;
      { MulDistributes(u * d, v * p, a); MulCommutes(u, d); MulCommutes(v, p); }
      1 * a;
    }
  }

  /** A number coprime to two and to five divides no product of their powers. */
  lemma {:induction false} TwosAndFives(x: nat, y: nat, p: int, u2: int, v2: int, u5: int, v5: int, K: int)
    requires p > 1 && 2 * u2 + p * v2 == 1 && 5 * u5 + p * v5 == 1
    ensures Pow(5, x) * Pow(2, y) != p * K
    decreases x + y
  {
    assert Pow(5, 0) == 1 && Pow(2, 0) == 1;
    if x > 0 {
      var a := Pow(5, x - 1) * Pow(2, y);
      MulAssoc(5, Pow(5, x - 1), Pow(2, y));
      if 5 * a == p * K {
        Coprime(5, a, p, u5, v5, K);
        TwosAndFives(x - 1, y, p, u2, v2, u5, v5, u5 * K + v5 * a);
      }
    } else if y > 0 {
      var a := Pow(2, y - 1);
      if 2 * a == p * K {
        Coprime(2, a, p, u2, v2, K);
        TwosAndFives(x, y - 1, p, u2, v2, u5, v5, u2 * K + v2 * a);
      }
    } else if K > 0 {
      MulMono(1, K, p);
    } else {
      MulMono(K, 0, p);
    }
  }

  /** So no odd number from 11 to 19 does. */
  lemma NoOddDivisor(x: nat, y: nat, q: nat, K: nat)
    requires q in {11, 13, 15, 17, 19}
    ensures Pow(5, x) * Pow(2, y) != q * K
  {
    if q == 11 {
      TwosAndFives(x, y, 11, -5, 1, -2, 1, K);
    } else if q == 13 {
      TwosAndFives(x, y, 13, -6, 1, -5, 2, K);
    } else if q == 15 {
      TwosAndFives(x, y, 3, -1, 1, -1, 2, 5 * K);
    } else if q == 17 {
      TwosAndFives(x, y, 17, -8, 1, 7, -2, K);
    } else {
      TwosAndFives(x, y, 19, -9, 1, 4, -1, K);
    }
  }

  /** The number is m * 2^i half-gaps. */
  lemma MantissaTimesGap(v: nat, h: nat, S: nat, m: nat, e2: int, e5: int, i: nat)
    requires IsRatio(v, S, m, e2, e5) && IsRatio(h, S, 1, e2 - i, e5)
    ensures v == m * Pow(2, i) * h
  {
    var (F, G, I) := (Pow(5, Neg(e5)), Pow(5, Pos(e5)), Pow(2, i));
    var (a, A, c, C) := (Pow(2, Neg(e2)), Pow(2, Pos(e2)), Pow(2, Neg(e2 - i)), Pow(2, Pos(e2 - i)));
    assert Pos(e2) + Neg(e2 - i) == Neg(e2) + (Pos(e2 - i) + i);
    PowAdd(2, Pos(e2), Neg(e2 - i));
    PowAdd(2, Neg(e2), Pos(e2 - i) + i);
    PowAdd(2, Pos(e2 - i), i);
    assert A * c == a * (C * I);
    PowPositive(5, Neg(e5));
    PowPositive(2, Neg(e2));
    PowPositive(2, Neg(e2 - i));
    CancelGap(v, h, S, m, F, G, I, a, A, c, C);
  }

  lemma CancelGap(v: nat, h: nat, S: nat, m: nat, F: nat, G: nat, I: nat, a: nat, A: nat, c: nat, C: nat)
    requires v * (F * a) == m * (G * A) * S && h * (F * c) == 1 * (G * C) * S
    requires A * c == a * (C * I) && F > 0 && a > 0 && c > 0
    ensures v == m * I * h
  {
    MulPositive(F, c);
    MulPositive(F * c, a);
    calc {
      v * (F * c * a);
      { MulAssoc(F, c, a); MulCommutes(c, a); MulAssoc(F, a, c); MulAssoc(v, F * a, c); }
      v * (F * a) * c;
      m * (G * A) * S * c;
      { Shuffle(m, G, A, S, c); }
      m * (G * S) * (A * c);
      m * (G * S) * (a * (C * I));
      { MulCommutes(a, C * I); MulAssoc(m * (G * S), C * I, a); }
      m * (G * S) * (C * I) * a;
      { Shuffle(m, G, S, C, I); MulAssoc(G, C, S); MulAssoc(G, S, C); MulCommutes(S, C); }
      m * (G * C * S) * I * a;
      m * (h * (F * c)) * I * a;
      { Shuffle(m, h, F * c, I, a); MulAssoc(m, I, h); MulCommutes(h, I); }
      m * I * h * (F * c * a);
    }
    MulCancelEq(v, m * I * h, F * c * a);
  }

  lemma Shuffle(m: int, G: int, A: int, S: int, c: int)
    ensures m * (G * A) * S * c == m * (G * S) * (A * c)
  {
    calc {
      m * (G * A) * S * c;
      { MulAssoc(m, G, A); }
      m * G * A * S * c;
      { MulAssoc(m * G, A, S); MulCommutes(A, S); MulAssoc(m * G, S, A); }
      m * G * S * A * c;
      { MulAssoc(m, G, S); MulAssoc(m * (G * S), A, c); }
      m * (G * S) * (A * c);
    }
  }

  /** The numbers dtoa starts from never have a first digit nine that would be raised onto the upper
      end: 10*S would be an odd number of half-gaps from 11 to 19, and it has no such factor. */
  lemma NoNine(t: Target, m: nat, e2: int, e5: int, i: nat)
    requires t.Valid() && i > 0
    requires IsRatio(t.b0, t.S, m, e2, e5) && IsRatio(t.mhi0, t.S, 1, e2 - i, e5)
    ensures !NineOntoEnd(t)
  {
    if NineOntoEnd(t) {
      MantissaTimesGap(t.b0, t.mhi0, t.S, m, e2, e5, i);
      var q := m * Pow(2, i) + 1;
      HalfGapsInTen(m * Pow(2, i - 1), Pow(2, i), m, t.mhi0, t.b0, t.S, i);
      TenTimes(t.mhi0, t.S, e2 - i, e5, q);
      NoOddDivisor(Neg(e5) + 1, Neg(e2 - i) + 1, q, Pow(5, Pos(e5)) * Pow(2, Pos(e2 - i)));
    }
  }

  /** Nor are they in the middle between two end points: they are an even number of half-gaps. */
  lemma NotBothEnds(t: Target, m: nat, e2: int, e5: int, i: nat)
    requires t.Valid() && i > 0
    requires IsRatio(t.b0, t.S, m, e2, e5) && IsRatio(t.mhi0, t.S, 1, e2 - i, e5)
    ensures !BothEnds(t)
  {
    if BothEnds(t) {
      var j: nat :| IsOddMultiple(t.b0, t.mhi0, j);
      MantissaTimesGap(t.b0, t.mhi0, t.S, m, e2, e5, i);
      MulCancelEq(m * Pow(2, i), 2 * j + 1, t.mhi0);
      MulAssoc(m, 2, Pow(2, i - 1));
      MulCommutes(m, 2);
      MulAssoc(2, m, Pow(2, i - 1));
      EvenIsNotOdd(m * Pow(2, i - 1), j);
    }
  }

  lemma EvenIsNotOdd(a: nat, j: nat)
    ensures 2 * a != 2 * j + 1
  {}

  lemma HalfGapsInTen(half: nat, I: nat, m: nat, h: nat, b: nat, S: nat, i: nat)
    requires i > 0 && I == Pow(2, i) && half == m * Pow(2, i - 1)
    requires h > 0 && b == m * I * h && 9 * S <= b && 10 * S - b == h && S < 2 * h
    ensures (m * I + 1) * h == 10 * S && m * I + 1 in {11, 13, 15, 17, 19}
  {
    var q := m * I + 1;
    MulDistributes(m * I, 1, h);
    MulAssoc(m, 2, Pow(2, i - 1));
    MulCommutes(m, 2);
    MulAssoc(2, m, Pow(2, i - 1));
    assert q == 2 * half + 1;
    MulCancelLt(q, 20, h);
    MulCancelLe(10, q, h);
  }

  lemma TenTimes(h: nat, S: nat, e2: int, e5: int, q: nat)
    requires IsRatio(h, S, 1, e2, e5) && q * h == 10 * S && h > 0
    ensures Pow(5, Neg(e5) + 1) * Pow(2, Neg(e2) + 1) == q * (Pow(5, Pos(e5)) * Pow(2, Pos(e2)))
  {
    var (F, c, K) := (Pow(5, Neg(e5)), Pow(2, Neg(e2)), Pow(5, Pos(e5)) * Pow(2, Pos(e2)));
    calc {
      10 * (F * c) * h;
      { MulAssoc(10, F * c, h); MulCommutes(F * c, h); }
      10 * (h * (F * c));
      10 * (K * S);
      { MulAssoc(10, K, S); MulCommutes(10, K); MulAssoc(K, 10, S); }
      K * (10 * S);
      K * (q * h);
      { MulAssoc(K, q, h); MulCommutes(K, q); }
      q * K * h;
    }
    MulCancelEq(10 * (F * c), q * K, h);
    MulAssoc(5 * F, 2, c);
    MulAssoc(10, F, c);
  }

  /** Twice the number is the one an exponent higher. */
  lemma DoubleRatio(v: nat, S: nat, m: nat, e2: int, e5: int)
    requires IsRatio(v, S, m, e2 - 1, e5)
    ensures IsRatio(2 * v, S, m, e2, e5)
  {
    var (F, G) := (Pow(5, Neg(e5)), Pow(5, Pos(e5)));
    if e2 >= 1 {
      var A := Pow(2, Pos(e2 - 1));
      assert Pow(2, Pos(e2)) == 2 * A;
      assert Pow(2, Neg(e2)) == 1 == Pow(2, Neg(e2 - 1));
      MulAssoc(2, v, F * 1);
      MulAssoc(2, G, A);
      MulAssoc(2, m, G * A);
      MulCommutes(2, m);
      MulAssoc(m, 2, G * A);
      MulAssoc(2, m * (G * A), S);
      MulCommutes(2, G);
      MulAssoc(G, 2, A);
    } else {
      var a := Pow(2, Neg(e2));
      assert Pow(2, Neg(e2 - 1)) == 2 * a;
      MulAssoc(F, 2, a);
      MulCommutes(F, 2);
      MulAssoc(2, F, a);
      MulAssoc(v, 2, F * a);
      MulCommutes(2, v);
    }
  }

  /** A string that strips and prints a number with a nonzero first place starts with that place. */
  lemma StartsNonzero(t: Target, s: seq<nat>, e: nat, n: nat)
    requires t.Valid() && n > 0 && Digits(s) && |s| <= n && t.S <= t.b0
    requires t.NotCutBelow(n, Scaled(s, e, n)) || t.RoundedToEven(n, Scaled(s, e, n))
    requires e == 0 || (e == 1 && Scaled(s, 1, n) == Pow(10, n))
    ensures s != [] && s[0] != 0
  {
    hide Scaled, Target.NotCutBelow, Target.RoundedToEven;
    t.NotBelowFirst(n, Scaled(s, e, n));
    LeadingDigit(s, e, n);
  }

  // ------------------------------------------------------------------ the modes

  /** dtoa in modes 0 and 1, from the mantissa m of the double m * 2^be, whose half-gap to the next
      double above is 2^(be-i): the shortest decimal that reads back as that double, the nearest of
      those, and the even one of two that are as near. Its first digit is not zero if k is not too large. */
  method ShortestDecimal(b0: Bigint, be: int, k: int, i: nat, specCase: bool, even: bool, mode: nat, p5s: P5Chain,
                         ghost m: nat)
      returns (s: seq<nat>, decpt: int, ghost t: Target, ghost n: nat)
    requires b0.Valid() && b0.wds > 0 && b0.Value() == m > 0 && ExponentFits(m, be, k) && i > 0
    requires p5s.Valid() && p5s.Untouched(b0)
    modifies b0, b0.x, p5s
    ensures t.Valid() && t.closed == (even && mode != 1)
    ensures IsRatio(t.b0, t.S, m, be - k, -k)
    ensures IsRatio(t.mlo0, t.S, 1, be - k - i - (if specCase then 1 else 0), -k)
    ensures t.mhi0 == (if specCase then 2 else 1) * t.mlo0
    ensures n > 0 && Digits(s) && |s| <= n && (s != [] ==> s[|s| - 1] != 0)
    ensures t.S <= t.b0 ==> s != [] && s[0] != 0
    ensures k + 1 <= decpt <= k + 2
    ensures t.InRange(n, Scaled(s, decpt - 1 - k, n))
    ensures t.NoneShorter(n)
    ensures t.NearestInRange(n, Scaled(s, decpt - 1 - k, n))
    ensures t.TieIsEven(n, Scaled(s, decpt - 1 - k, n))
  {
    hide IsRatio, Val, ExponentFits, Scaled, Dec, Pow, NineOntoEnd, BothEnds, Target.TieIsEven;
    hide Target.InRange, Target.NoneShorter, Target.NearestInRange, Target.NotCutBelow, Target.RoundedToEven;
    var b, S, mlo, mhi := BuildFree(b0, be, k, i, specCase, p5s, m);
    BelowTen(b.Value(), S.Value(), m, be, k);
    t := Target(b.Value(), S.Value(), mlo.Value(), mhi.Value(), even && mode != 1);
    if specCase {
      DoubleRatio(t.mlo0, t.S, 1, be - k - i, -k);
    }
    NoNine(t, m, be - k, -k, i);
    NotBothEnds(t, m, be - k, -k, i);
    var k';
    ghost var limited;
    s, k', n, limited := FreeDigits(b, S, mlo, mhi, even, mode, -1, k, t);
    s := StripTrailingZeros(s, k' - k, n);
    decpt := k' + 1;
    if t.S <= t.b0 {
      StartsNonzero(t, s, k' - k, n);
    }
  }

  /** dtoa in modes 2 and 3 with at least one digit wanted: the number correctly rounded to ilim
      significant digits. */
  method RoundedDecimal(b0: Bigint, be: int, k: int, ilim: nat, p5s: P5Chain, ghost m: nat)
      returns (s: seq<nat>, decpt: int, ghost t: Target)
    requires b0.Valid() && b0.wds > 0 && b0.Value() == m > 0 && ExponentFits(m, be, k) && ilim > 0
    requires p5s.Valid() && p5s.Untouched(b0)
    modifies b0, b0.x, p5s
    ensures t.Valid() && IsRatio(t.b0, t.S, m, be - k, -k)
    ensures Digits(s) && |s| <= ilim && (s != [] ==> s[|s| - 1] != 0)
    ensures t.S <= t.b0 ==> s != [] && s[0] != 0
    ensures k + 1 <= decpt <= k + 2
    ensures t.RoundedToEven(ilim, Scaled(s, decpt - 1 - k, ilim))
    ensures decpt == k + 2 <==> Scaled(s, decpt - 1 - k, ilim) == Pow(10, ilim)
  {
    hide IsRatio, Val, ExponentFits, Scaled, Dec, Target.RoundedToEven;
    var b, S := BuildFixed(b0, be, k, p5s, m);
    BelowTen(b.Value(), S.Value(), m, be, k);
    t := Target(b.Value(), S.Value(), 1, 1, false);
    var k';
    s, k' := FixedDigits(b, S, ilim, k, t);
    s := StripTrailingZeros(s, k' - k, ilim);
    decpt := k' + 1;
    if t.S <= t.b0 {
      StartsNonzero(t, s, k' - k, ilim);
    }
  }

  /** Mode 3 when the last wanted place, of weight 10^-ndigits, lies above the first digit of the
      number (ilim <= 0): a one in that place if the number exceeds half of it, and otherwise nothing. */
  method NoDigits(b: Bigint, S0: Bigint, ilim: int, k: int, ndigits: int) returns (s: seq<nat>, decpt: int)
    requires b.Valid() && S0.Valid() && S0.wds > 0 && S0.Value() > 0 && Apart(b, S0)
    requires b.Value() < 10 * S0.Value() && ilim <= 0 && ilim == ndigits + k + 1
    modifies S0, S0.x
    ensures s == if 2 * b.Value() > Pow(10, 1 - ilim) * old(S0.Value()) then [1] else []
    ensures decpt == if s == [] then -ndigits else 1 - ndigits
  {
    ghost var v, vS := b.Value(), S0.Value();
    assert Pow(10, 1) == 10;
    if ilim < 0 {
      PowMono(10, 2, 1 - ilim);
      assert Pow(10, 2) == 100;
      MulMono(100, Pow(10, 1 - ilim), vS);
      return [], -1 - ndigits + 1;
    }
    var S := MultAdd(S0, 5, 0);
    var j := Cmp(b, S);
    if j <= 0 {
      return [], -1 - ndigits + 1;
    }
    return [1], k + 1 + 1;
  }
}
