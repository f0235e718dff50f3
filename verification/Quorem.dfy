/** One decimal digit of a quotient: hi0bits, dshift and quorem of runtime/stub/dtoa.c. */
module QuoremStep {
  import opened Words
  import opened BigintArithmetic

  // ------------------------------------------------------------------ hi0bits and dshift

  /** The number of leading zero bits of a 32-bit word. A test of the high bits against a mask is
      written as a comparison. */
  method Hi0bits(x0: Word) returns (k: nat)
    ensures x0 == 0 ==> k == 32
    ensures x0 > 0 ==> k < 32 && Pow(2, 31 - k) <= x0 < Pow(2, 32 - k)
  {
    var x: Word := x0;
    k := 0;
    k, x := SkipZeros(x0, k, x, 16, 0x1_0000);
    k, x := SkipZeros(x0, k, x, 8, 0x100);
    k, x := SkipZeros(x0, k, x, 4, 0x10);
    k, x := SkipZeros(x0, k, x, 2, 4);
    if x < 0x8000_0000 {
      Shifted(x0, k, 1);
      k := k + 1;
      if x < 0x4000_0000 {
        return 32;
      }
    }
    if x0 > 0 { TopBit(x0, k, if x < 0x8000_0000 then x * 2 else x); }
  }

  /** One halving step of hi0bits: if the top c bits are clear, count them and shift them out. */
  method SkipZeros(ghost x0: Word, k0: nat, x1: Word, c: nat, p: nat) returns (k: nat, x: Word)
    requires (c == 16 && p == 0x1_0000) || (c == 8 && p == 0x100) || (c == 4 && p == 0x10) || (c == 2 && p == 4)
    requires x1 == x0 * Pow(2, k0)
    requires x0 > 0 ==> x1 > 0 && BASE / p / p <= x1
    ensures x == x0 * Pow(2, k) && k0 <= k <= k0 + c
    ensures x0 > 0 ==> BASE / p <= x
  {
    k, x := k0, x1;
    if x1 < BASE / p {
      Shifted(x0, k0, c);
      k := k0 + c;
      x := x1 * p;
    }
  }

  lemma Shifted(x0: nat, k: nat, c: nat)
    requires c in {1, 2, 4, 8, 16}
    ensures x0 * Pow(2, k + c) == x0 * Pow(2, k) * Pow(2, c)
    ensures Pow(2, 1) == 2 && Pow(2, 2) == 4 && Pow(2, 4) == 0x10 && Pow(2, 8) == 0x100 && Pow(2, 16) == 0x1_0000
  {
    PowersOfTwo();
    PowAdd(2, k, c);
    MulAssoc(x0, Pow(2, k), Pow(2, c));
  }

  lemma TopBit(x0: nat, k: nat, x: nat)
    requires k < 32 && x == x0 * Pow(2, k) && 0x8000_0000 <= x < BASE
    ensures Pow(2, 31 - k) <= x0 < Pow(2, 32 - k)
  {
    PowersOfTwo();
    PowAdd(2, 31 - k, k);
    PowAdd(2, 32 - k, k);
    PowPositive(2, k);
    assert Pow(2, 32) == 2 * Pow(2, 31);
    MulCancelLe(Pow(2, 31 - k), x0, Pow(2, k));
    MulCancelLt(x0, Pow(2, 32 - k), Pow(2, k));
  }

  lemma PowersOfTwo()
    ensures Pow(2, 1) == 2 && Pow(2, 2) == 4 && Pow(2, 4) == 0x10 && Pow(2, 8) == 0x100
    ensures Pow(2, 16) == 0x1_0000 && Pow(2, 32) == BASE
  {
    Pow2Word();
    PowAdd(2, 8, 8);
    assert Pow(2, 8) == 256;
  }

  const LOW: nat := 0x800_0000   // 2^27
  const HIGH: nat := 0x1000_0000 // 2^28

  /** v has 28 significant bits above a whole number n of words. */
  ghost predicate FourSpare(v: nat, n: nat) {
    Scale(LOW, n) <= v < Scale(HIGH, n)
  }

  /** The divisor shape quorem asks for: a top word with exactly four leading zero bits. */
  ghost predicate Normalised(S: Bigint)
    reads S, S.x
  {
    S.Valid() && S.wds > 0 && LOW <= S.x[S.wds - 1] < HIGH
  }

  /** Whatever the number of words, a Bigint with such a value has such a top word. */
  lemma NormalisedTop(S: Bigint, n: nat)
    requires S.Valid() && S.wds > 0 && FourSpare(S.Value(), n)
    ensures Normalised(S)
  {
    var w := S.wds;
    var t: int := S.x[w - 1];
    ValZero(S.x[..], w);
    ScaleMono(0, LOW, n);
    ValTop(S.x[..], w);
    ValBound(S.x[..], w);
    if n < w - 1 {
      ValAtLeast(S.x[..], w);
      ScaleMono(HIGH, BASE, n);
      ScaleUp(n + 1, w - 1);
      ScaleScale(1, 1, n);
    } else if n > w - 1 {
      ScaleUp(w, n);
      ScaleMono(1, LOW, n);
    } else {
      if t >= HIGH { ScaleMono(HIGH, t, n); }
      if t < LOW { ScaleMono(t + 1, LOW, n); }
    }
  }

  /** The extra shift that, after a shift by p2, leaves the divisor four leading zero bits. */
  method Dshift(b: Bigint, p2: nat) returns (rv: nat)
    requires b.Valid() && b.wds > 0 && b.Value() > 0
    ensures rv < 32
    ensures exists n {:trigger FourSpare(b.Value() * Pow(2, p2 + rv), n)} :: FourSpare(b.Value() * Pow(2, p2 + rv), n)
  {
    ghost var top := b.x[b.wds - 1];
    ValZero(b.x[..], b.wds);
    var k := Hi0bits(b.x[b.wds - 1]);
    var r := k as int - 4;
    if p2 > 0 {
      r := r - p2;
    }
    rv := r % 32;
    ValTop(b.x[..], b.wds);
    ghost var m := ShiftWholeWords(k, p2, rv);
    TopAfterShift(b.Value(), top, k, b.wds - 1, p2 + rv, m);
  }

  lemma ShiftWholeWords(k: nat, p2: nat, rv: nat) returns (m: nat)
    requires k < 32 && rv == (k as int - 4 - p2) % 32
    ensures 31 - k + (p2 + rv) == 27 + 32 * m
  {
    var q := (k as int - 4 - p2) / 32;
    assert k as int - 4 - p2 == 32 * q + rv;
    assert q <= 0;
    m := -q;
  }

  lemma TopAfterShift(v: nat, top: Word, k: nat, n: nat, t: nat, m: nat)
    requires k < 32 && Pow(2, 31 - k) <= top < Pow(2, 32 - k)
    requires Scale(top, n) <= v < Scale(top as int + 1, n)
    requires 31 - k + t == 27 + 32 * m
    ensures FourSpare(v * Pow(2, t), m + n)
  {
    var s := Pow(2, t);
    PowPositive(2, t);
    var lo, hi := Pow(2, 31 - k), Pow(2, 32 - k);
    ScaleMono(lo, top, n);
    ScaleMono(top as int + 1, hi, n);
    MulMono(Scale(lo, n), v, s);
    MulMonoStrict(v, Scale(hi, n), s);
    // 2^(31-k) * 2^t is 2^27 times m whole words
    WordsOfBits(31 - k, t, 27, m, n);
    WordsOfBits(32 - k, t, 28, m, n);
    SmallPowers();
  }

  lemma WordsOfBits(e: nat, t: nat, r: nat, m: nat, n: nat)
    requires e + t == r + 32 * m
    ensures Scale(Pow(2, e), n) * Pow(2, t) == Scale(Pow(2, r), m + n)
  {
    PowMul(2, 32, m);
    Pow2Word();
    PowAdd(2, e, t);
    PowAdd(2, r, 32 * m);
    ScalePow(Pow(2, r), m);
    ScaleMul(Pow(2, e), Pow(2, t), n);
    ScaleScale(Pow(2, r), m, n);
  }

  lemma SmallPowers()
    ensures Pow(2, 27) == LOW && Pow(2, 28) == HIGH
  {
    PowersOfTwo();
    PowAdd(2, 16, 8);
    PowAdd(2, 24, 4);
    assert Pow(2, 3) == 8;
    PowAdd(2, 24, 3);
  }

  // ------------------------------------------------------------------ quorem

  /** The top-word estimate q of b/S, where u and d are the top words, is never too large and at
      most one too small. */
  lemma QuotientEstimate(b: nat, S: nat, u: nat, d: nat, p: nat, q: nat)
    requires p > 0 && d >= 10
    requires d * p <= S < (d + 1) * p
    requires u * p <= b < (u + 1) * p
    requires b < 10 * S
    requires q * (d + 1) <= u < (q + 1) * (d + 1)
    ensures q <= 9 && q * S <= b < (q + 2) * S
  {
    EstimateNotTooLarge(b, S, u, d, p, q);
    if q >= 10 { MulMono(10, q, S); }
    EstimateNearlyRight(b, S, u, d, p, q);
  }

  lemma DivBracket(u: nat, d: nat)
    requires d > 0
    ensures (u / d) * d <= u < (u / d + 1) * d
  {
    assert u == (u / d) * d + u % d;
    assert (u / d + 1) * d == (u / d) * d + d;
  }

  lemma EstimateNotTooLarge(b: nat, S: nat, u: nat, d: nat, p: nat, q: nat)
    requires S < (d + 1) * p && u * p <= b && q * (d + 1) <= u
    ensures q * S <= b
  {
    MulMono(S, (d + 1) * p, q);
    MulCommutes(S, q);
    MulCommutes((d + 1) * p, q);
    MulAssoc(q, d + 1, p);
    MulMono(q * (d + 1), u, p);
  }

  lemma EstimateNearlyRight(b: nat, S: nat, u: nat, d: nat, p: nat, q: nat)
    requires d * p <= S && b < (u + 1) * p && u < (q + 1) * (d + 1) && q + 1 <= d
    ensures b < (q + 2) * S
  {
    assert (q + 1) * (d + 1) <= (q + 2) * d by {
      MulDistributes(q + 1, 1, d);
      MulDistributes(d, 1, q + 1);
      MulCommutes(q + 1, d + 1);
      MulCommutes(q + 1, d);
    }
    MulMono(u + 1, (q + 2) * d, p);
    MulAssoc(q + 2, d, p);
    MulMono(d * p, S, q + 2);
    MulCommutes(d * p, q + 2);
    MulCommutes(S, q + 2);
  }

  /** The pair quorem returns is the quotient and the remainder. */
  lemma QuotientUnique(b: nat, S: nat, q: nat, r: nat)
    requires b == S * q + r && r < S
    ensures q == b / S && r == b % S
  {
    var q', r' := b / S, b % S;
    assert b == q' * S + r';
    MulCommutes(S, q);
    if q' < q { MulMono(q' + 1, q, S); MulDistributes(q', 1, S); }
    if q < q' { MulMono(q + 1, q', S); MulDistributes(q, 1, S); }
  }

  lemma CarryStep(v: int, borrow: int, vb: int, t: int, q: int, c: int, x: int, s: int, low: int, c': int, v': int,
                  borrow': int, i: nat)
    requires v == vb - t + Scale(c, i) + Scale(borrow, i)
    requires s * q + c == low + c' * BASE
    requires v' - Scale(borrow', i + 1) == v - Scale(borrow, i) + Scale(x, i) - Scale(low, i)
    ensures v' == vb + Scale(x, i) - (t + Scale(s * q, i)) + Scale(c', i + 1) + Scale(borrow', i + 1)
  {
    CarryOut(s * q, c, 0, low, c', i);
  }

  /** Subtracts s * q + carry + borrow from word i of bx. The ghost arguments are the part vb of the
      minuend and the part t of the product already handled. */
  method SubtractProduct(bx: array<Word>, i: nat, s: Word, q: Word, carry: Word, borrow: nat, ghost vb: int,
                         ghost t: int)
      returns (carry': Word, borrow': nat)
    requires i < bx.Length && borrow <= 1
    requires Val(bx[..], i) == vb - t + Scale(carry, i) + Scale(borrow, i)
    modifies bx
    ensures borrow' <= 1
    ensures forall j :: 0 <= j < bx.Length && j != i ==> bx[j] == old(bx[j])
    ensures Val(bx[..], i + 1) ==
            vb + Scale(old(bx[i]), i) - (t + Scale(s * q, i)) + Scale(carry', i + 1) + Scale(borrow', i + 1)
  {
    WordProductFits(s, q, carry, 0);
    var ys := s * q + carry;
    ghost var v, x := Val(bx[..], i), bx[i];
    borrow' := SubtractWord(bx, i, bx[i], ys % BASE, borrow);
    carry' := ys / BASE;
    CarryStep(v, borrow, vb, t, q, carry, x, s, ys % BASE, carry', Val(bx[..], i + 1), borrow', i);
  }

  /** b := b - q*S on n words, in place, for q*S <= b: the loop both halves of quorem run, the
      second time with q = 1. */
  method SubtractMultiple(bx: array<Word>, sx: array<Word>, n: nat, q: Word)
    requires bx != sx && n <= bx.Length && n <= sx.Length
    requires Val(sx[..], n) * q <= Val(bx[..], n)
    modifies bx
    ensures Val(bx[..], n) == Val(old(bx[..]), n) - Val(sx[..], n) * q
    ensures forall j :: n <= j < bx.Length ==> bx[j] == old(bx[j])
  {
    TimesVal(sx[..], n, q);
    SubtractTimes(bx, sx, n, q);
  }

  method SubtractTimes(bx: array<Word>, sx: array<Word>, n: nat, q: Word)
    requires bx != sx && n <= bx.Length && n <= sx.Length
    requires Times(sx[..], n, q) <= Val(bx[..], n)
    modifies bx
    ensures Val(bx[..], n) == Val(old(bx[..]), n) - Times(sx[..], n, q)
    ensures forall j :: n <= j < bx.Length ==> bx[j] == old(bx[j])
  {
    ghost var sb, ss := bx[..], sx[..];
    var borrow: nat, carry: Word := 0, 0;
    var i := 0;
    while i < n
      invariant 0 <= i <= n
      invariant borrow <= 1
      invariant forall j :: i <= j < bx.Length ==> bx[j] == sb[j]
      invariant Val(bx[..], i) == Val(sb, i) - Times(ss, i, q) + Scale(carry, i) + Scale(borrow, i)
    {
      carry, borrow := SubtractProduct(bx, i, sx[i], q, carry, borrow, Val(sb, i), Times(ss, i, q));
      i := i + 1;
    }
    NoFinalBorrow(bx[..], carry, borrow, n);
  }

  lemma NoFinalBorrow(s: seq<Word>, carry: nat, borrow: nat, n: nat)
    requires n <= |s| && Scale(carry, n) + Scale(borrow, n) <= Val(s, n)
    ensures carry == 0 && borrow == 0
  {
    ValBound(s, n);
    if carry > 0 { ScaleMono(1, carry, n); }
    if borrow > 0 { ScaleMono(1, borrow, n); }
  }

  /** Drops the leading zero words of b below its top word, as quorem does after a subtraction: at
      least one word stays unless b has only one. */
  method DropTop(b: Bigint, n0: nat)
    requires b.wds == n0 + 1 <= b.x.Length == Pow(2, b.k)
    modifies b`wds
    ensures b.Valid() && b.wds <= n0 + 1
    ensures b.Value() == old(b.Value())
    ensures n0 > 0 ==> b.wds > 0
  {
    if b.x[n0] == 0 {
      var n := n0;
      while n > 1 && b.x[n - 1] == 0
        invariant n <= n0 && (n0 > 0 ==> n > 0)
        invariant Val(b.x[..], n) == Val(b.x[..], n0 + 1)
      {
        n := n - 1;
      }
      b.wds := n;
    }
  }

  method TopQuotient(u: Word, d: Word) returns (q: nat)
    requires d < HIGH
    ensures q * (d + 1) <= u < (q + 1) * (d + 1)
  {
    DivBracket(u, d + 1);
    q := u / (d + 1);
  }

  /** The first half of quorem: subtracts the estimate, which leaves less than 2S. */
  method SubtractEstimate(b: Bigint, S: Bigint) returns (q: nat)
    requires Apart(b, S) && b.Valid() && Normalised(S)
    requires b.Value() < 10 * S.Value() && b.wds == S.wds
    modifies b, b.x
    ensures b.Valid() && b.wds <= S.wds && b.sign == old(b.sign)
    ensures q <= 9
    ensures b.Value() == old(b.Value()) - S.Value() * q < 2 * S.Value()
  {
    var n := S.wds - 1;
    q := TopQuotient(b.x[n], S.x[n]);
    Estimate(b, S, q);
    if q != 0 {
      SubtractMultiple(b.x, S.x, n + 1, q);
      DropTop(b, n);
    }
  }

  /** The second half: one more S, if it still fits. */
  method SubtractOnce(b: Bigint, S: Bigint, q0: nat) returns (q: nat)
    requires Apart(b, S) && b.Valid() && Normalised(S)
    requires b.wds <= S.wds && b.Value() < 2 * S.Value()
    modifies b, b.x
    ensures b.Valid() && b.sign == old(b.sign)
    ensures q == q0 || q == q0 + 1
    ensures b.Value() == old(b.Value()) - (if q == q0 then 0 else S.Value())
    ensures b.Value() < S.Value()
  {
    q := q0;
    var c := Cmp(b, S);
    if c >= 0 {
      q := q + 1;
      LongEnough(b, S);
      SubtractMultiple(b.x, S.x, S.wds, 1);
      DropTop(b, S.wds - 1);
    }
  }

  /** The quotient digit of b by S; b keeps the remainder (QuotientUnique says there is only one such
      pair: the quotient and the remainder of the division). */
  method Quorem(b: Bigint, S: Bigint) returns (q: nat)
    requires Apart(b, S) && b.Valid() && Normalised(S)
    requires b.Value() < 10 * S.Value()
    modifies b, b.x
    ensures b.Valid()
    ensures old(b.Value()) == S.Value() * q + b.Value() && b.Value() < S.Value()
    ensures q <= 9
    ensures b.sign == old(b.sign)
  {
    ghost var v, vS := b.Value(), S.Value();
    NoOversize(b, S);
    if b.wds < S.wds {
      ValShorter(b.x[..], b.wds, S.x[..], S.wds);
      DigitFound(v, vS, 0, 0, v);
      return 0;
    }
    var q0 := SubtractEstimate(b, S);
    q := SubtractOnce(b, S, q0);
    DigitFound(v, vS, q0, q, b.Value());
  }

  lemma DigitFound(b: nat, S: nat, q0: nat, q: nat, r: nat)
    requires b < 10 * S && r < S
    requires q == q0 || q == q0 + 1
    requires r == b - S * q0 - (if q == q0 then 0 else S)
    ensures b == S * q + r && q <= 9
  {
    MulDistributes(q0, 1, S);
    MulCommutes(S, q0);
    MulCommutes(S, q);
    if q >= 10 { MulMono(10, q, S); }
  }

  lemma NoOversize(b: Bigint, S: Bigint)
    requires b.Valid() && Normalised(S) && b.Value() < 10 * S.Value()
    ensures b.wds <= S.wds && S.Value() > 0
  {
    var n := S.wds;
    ValTop(S.x[..], n);
    ValAtLeast(S.x[..], n);
    if b.wds > n {
      ValAtLeast(b.x[..], b.wds);
      ScaleUp(n, b.wds - 1);
      ScaleMono(S.x[n - 1] as int + 1, HIGH, n - 1);
      ScaleMul(HIGH, 10, n - 1);
      ScaleMono(HIGH * 10, BASE, n - 1);
      ScaleScale(1, 1, n - 1);
    }
  }

  lemma Estimate(b: Bigint, S: Bigint, q: nat)
    requires b.Valid() && Normalised(S) && b.wds == S.wds && b.Value() < 10 * S.Value()
    requires q * (S.x[S.wds - 1] as int + 1) <= b.x[S.wds - 1] < (q + 1) * (S.x[S.wds - 1] as int + 1)
    ensures q <= 9 && S.Value() * q <= b.Value() && b.Value() - S.Value() * q < 2 * S.Value()
  {
    var n := S.wds - 1;
    PowPositive(BASE, n);
    ValTop(S.x[..], n + 1);
    ValTop(b.x[..], n + 1);
    ScalePow(S.x[n], n);
    ScalePow(S.x[n] as int + 1, n);
    ScalePow(b.x[n], n);
    ScalePow(b.x[n] as int + 1, n);
    QuotientEstimate(b.Value(), S.Value(), b.x[n], S.x[n], Pow(BASE, n), q);
    MulCommutes(S.Value(), q);
    MulDistributes(q, 2, S.Value());
  }

  lemma LongEnough(b: Bigint, S: Bigint)
    requires b.Valid() && Normalised(S) && b.wds <= S.wds && S.Value() <= b.Value()
    ensures b.wds == S.wds
  {
    if b.wds < S.wds { ValShorter(b.x[..], b.wds, S.x[..], S.wds); }
  }
}
