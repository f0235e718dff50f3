/** Little-endian numbers in base 2^32: what the word arrays of a Bigint denote. */
module Words {

  const BASE: nat := 0x1_0000_0000

  type Word = w: int | 0 <= w < 0x1_0000_0000

  function Pow(b: nat, e: nat): nat {
    if e == 0 then 1 else b * Pow(b, e - 1)
  }

  lemma {:induction false} PowPositive(b: nat, e: nat)
    requires b > 0
    ensures Pow(b, e) > 0
  {
    if e > 0 { PowPositive(b, e - 1); MulPositive(b, Pow(b, e - 1)); }
  }

  lemma {:induction false} PowAdd(b: nat, m: nat, n: nat)
    ensures Pow(b, m + n) == Pow(b, m) * Pow(b, n)
  {
    if m == 0 {
    } else {
      PowAdd(b, m - 1, n);
      MulAssoc(b, Pow(b, m - 1), Pow(b, n));
    }
  }

  lemma {:induction false} PowMono(b: nat, m: nat, n: nat)
    requires b > 0 && m <= n
    ensures Pow(b, m) <= Pow(b, n)
    decreases n
  {
    if m < n {
      PowMono(b, m, n - 1);
      MulMono(1, b, Pow(b, n - 1));
    }
  }

  lemma {:induction false} PowMul(b: nat, m: nat, n: nat)
    ensures Pow(Pow(b, m), n) == Pow(b, m * n)
  {
    if n == 0 {
    } else {
      PowMul(b, m, n - 1);
      PowAdd(b, m, m * (n - 1));
      assert m + m * (n - 1) == m * n;
    }
  }

  lemma MulPositive(x: int, y: int)
    requires x > 0 && y > 0
    ensures x * y > 0
  {}

  lemma MulNonNegative(x: int, y: int)
    requires x >= 0 && y >= 0
    ensures x * y >= 0
  {}

  lemma MulCommutes(x: int, y: int)
    ensures x * y == y * x
  {}

  lemma MulDistributes(a: int, b: int, m: int)
    ensures (a + b) * m == a * m + b * m
  {}

  lemma DivMod(x: int, d: int)
    requires d > 0
    ensures x == (x / d) * d + x % d
  {}

  lemma MulAssoc(x: int, y: int, z: int)
    ensures x * (y * z) == (x * y) * z
  {}

  lemma MulMono(x: int, y: int, z: int)
    requires x <= y && 0 <= z
    ensures x * z <= y * z
  {}

  lemma MulMonoStrict(x: int, y: int, z: int)
    requires x < y && 0 < z
    ensures x * z < y * z
  {}

  /** Cancelling a positive factor from an inequality. */
  lemma MulCancelLe(x: int, y: int, z: int)
    requires z > 0 && x * z <= y * z
    ensures x <= y
  {
    if y < x { MulMonoStrict(y, x, z); }
  }

  lemma MulCancelLt(x: int, y: int, z: int)
    requires z > 0 && x * z < y * z
    ensures x < y
  {
    if y <= x { MulMono(y, x, z); }
  }

  lemma MulCancelEq(x: int, y: int, z: int)
    requires z > 0 && x * z == y * z
    ensures x == y
  {
    MulCancelLe(x, y, z);
    MulCancelLe(y, x, z);
  }

  /** a * 2^(32i), written so that only constants multiply. */
  function Scale(a: int, i: nat): (r: int)
    ensures a == 0 ==> r == 0
    ensures a >= 0 ==> r >= 0
  {
    if i == 0 then a else BASE * Scale(a, i - 1)
  }

  lemma {:induction false} ScalePow(a: int, i: nat)
    ensures Scale(a, i) == a * Pow(BASE, i)
  {
    if i > 0 {
      ScalePow(a, i - 1);
      MulAssoc(BASE, a, Pow(BASE, i - 1));
      MulAssoc(a, BASE, Pow(BASE, i - 1));
    }
  }

  lemma {:induction false} ScaleAdd(a: int, b: int, i: nat)
    ensures Scale(a + b, i) == Scale(a, i) + Scale(b, i)
  {
    if i > 0 { ScaleAdd(a, b, i - 1); }
  }

  lemma {:induction false} ScaleMul(a: int, m: int, i: nat)
    ensures Scale(a * m, i) == Scale(a, i) * m
  {
    if i > 0 {
      ScaleMul(a, m, i - 1);
      MulAssoc(BASE, Scale(a, i - 1), m);
    }
  }

  lemma {:induction false} ScaleMono(a: int, b: int, i: nat)
    requires a <= b
    ensures Scale(a, i) <= Scale(b, i)
    ensures a < b ==> Scale(a, i) < Scale(b, i)
  {
    if i > 0 { ScaleMono(a, b, i - 1); }
  }

  lemma {:induction false} ScaleScale(a: int, i: nat, j: nat)
    ensures Scale(Scale(a, i), j) == Scale(a, i + j)
  {
    if j > 0 { ScaleScale(a, i, j - 1); }
  }

  /** One word of an addition chain: what exceeds a word is a carry one place up. */
  lemma {:induction false} CarryOut(a: int, b: int, c: int, w: int, c': int, i: nat)
    requires a + b + c == w + c' * BASE
    ensures Scale(a, i) + Scale(b, i) + Scale(c, i) == Scale(w, i) + Scale(c', i + 1)
  {
    if i > 0 { CarryOut(a, b, c, w, c', i - 1); }
  }

  /** One word of a subtraction chain: what is missing is borrowed one place up. */
  lemma {:induction false} BorrowOut(x: int, y: int, b: int, w: int, b': int, i: nat)
    requires x - y - b == w - b' * BASE
    ensures Scale(x, i) - Scale(y, i) - Scale(b, i) == Scale(w, i) - Scale(b', i + 1)
  {
    if i > 0 { BorrowOut(x, y, b, w, b', i - 1); }
  }

  /** The number denoted by the n low words of s. */
  function Val(s: seq<Word>, n: nat): nat
    requires n <= |s|
  {
    if n == 0 then 0
    else
      Val(s, n - 1) + Scale(s[n - 1], n - 1)
  }

  /** Only the n low words matter. */
  lemma {:induction false} ValSame(s: seq<Word>, t: seq<Word>, n: nat)
    requires n <= |s| && n <= |t|
    requires forall j :: 0 <= j < n ==> s[j] == t[j]
    ensures Val(s, n) == Val(t, n)
  {
    if n > 0 { ValSame(s, t, n - 1); }
  }

  /** The top word brackets the number. */
  lemma {:induction false} ValTop(s: seq<Word>, n: nat)
    requires 0 < n <= |s|
    ensures Scale(s[n - 1], n - 1) <= Val(s, n) < Scale(s[n - 1] as int + 1, n - 1)
    decreases n, 0
  {
    ValBound(s, n - 1);
    ScaleAdd(s[n - 1], 1, n - 1);
  }

  lemma {:induction false} ValBound(s: seq<Word>, n: nat)
    requires n <= |s|
    ensures Val(s, n) < Scale(1, n)
    decreases n, 1
  {
    if n > 0 {
      ValTop(s, n);
      ScaleMono(s[n - 1] as int + 1, BASE, n - 1);
      ScaleScale(1, 1, n - 1);
    }
  }

  /** Leading zero words do not count. */
  lemma {:induction false} ValStrip(s: seq<Word>, m: nat, n: nat)
    requires m <= n <= |s|
    requires forall j :: m <= j < n ==> s[j] == 0
    ensures Val(s, n) == Val(s, m)
    decreases n
  {
    if m < n { ValStrip(s, m, n - 1); }
  }

  /** A number is zero exactly when every word is. */
  lemma {:induction false} ValZero(s: seq<Word>, n: nat)
    requires n <= |s|
    ensures Val(s, n) == 0 <==> forall j :: 0 <= j < n ==> s[j] == 0
  {
    if n > 0 {
      ValZero(s, n - 1);
      ScaleMono(0, s[n - 1], n - 1);
    }
  }

  /** At the first difference from the top, the larger word makes the larger number. */
  lemma {:induction false} ValLess(s: seq<Word>, t: seq<Word>, i: nat, n: nat)
    requires i < n <= |s| && n <= |t|
    requires s[i] < t[i]
    requires forall j :: i < j < n ==> s[j] == t[j]
    ensures Val(s, n) < Val(t, n)
    decreases n
  {
    if i == n - 1 {
      ValTop(s, n);
      ValTop(t, n);
      ScaleMono(s[i] as int + 1, t[i], i);
    } else {
      ValLess(s, t, i, n - 1);
    }
  }

  lemma {:induction false} ScaleUp(i: nat, j: nat)
    requires i <= j
    ensures 0 < Scale(1, i) <= Scale(1, j)
    decreases j
  {
    if i < j { ScaleUp(i, j - 1); } else if i > 0 { ScaleUp(i - 1, i - 1); }
  }

  lemma ValAtLeast(t: seq<Word>, n: nat)
    requires 0 < n <= |t| && t[n - 1] > 0
    ensures 0 < Scale(1, n - 1) <= Val(t, n)
  {
    ValTop(t, n);
    ScaleMono(1, t[n - 1], n - 1);
    ScaleUp(n - 1, n - 1);
  }

  /** A number with fewer words is smaller than one with a nonzero top word. */
  lemma ValShorter(s: seq<Word>, m: nat, t: seq<Word>, n: nat)
    requires m <= |s| && m < n <= |t| && t[n - 1] > 0
    ensures Val(s, m) < Val(t, n)
  {
    ValBound(s, m);
    ScaleUp(m, n - 1);
    ValAtLeast(t, n);
  }

  /** The product of the n low words of s by y, summed word by word as the loops do. */
  function Times(s: seq<Word>, n: nat, y: int): int
    requires n <= |s|
  {
    if n == 0 then 0 else Times(s, n - 1, y) + Scale(s[n - 1] * y, n - 1)
  }

  lemma {:induction false} TimesVal(s: seq<Word>, n: nat, y: int)
    requires n <= |s|
    ensures Times(s, n, y) == Val(s, n) * y
  {
    if n > 0 {
      TimesVal(s, n - 1, y);
      ScaleMul(s[n - 1], y, n - 1);
      MulDistributes(Val(s, n - 1), Scale(s[n - 1], n - 1), y);
    }
  }
}
