/** Multi-word natural numbers of runtime/stub/dtoa.c and the loops that compute with them. */
module BigintArithmetic {
  import opened Words

  /** A struct Bigint: `k` fixes the capacity, `wds` counts the words in use, `x` holds them,
      least significant first. */
  class Bigint {
    const k: nat
    const x: array<Word>
    var wds: nat
    var sign: bool

    /** The representation every caller relies on. The number zero has two forms, wds == 1 with
        x[0] == 0 (from diff) and wds == 0 with x[0] == 0 (which quorem can leave behind). */
    ghost predicate Valid()
      reads this, x
    {
      && x.Length == Pow(2, k)
      && 0 < x.Length
      && wds <= x.Length
      && (wds == 0 ==> x[0] == 0)
      && (wds > 1 ==> x[wds - 1] != 0)
    }

    ghost function Value(): nat
      requires wds <= x.Length
      reads this, x
    {
      Val(x[..], wds)
    }

    /** Balloc: 2^k words of unspecified contents. */
    constructor (k: nat)
      ensures this.k == k && x.Length == Pow(2, k) && 0 < x.Length
      ensures wds == 0 && !sign && fresh(x)
    {
      PowPositive(2, k);
      this.k := k;
      x := new Word[Pow(2, k)];
      wds := 0;
      sign := false;
    }

    /** i2b. */
    constructor FromInt(i: Word)
      ensures Valid() && wds == 1 && Value() == i && !sign && fresh(x)
    {
      k := 1;
      assert Pow(2, 1) == 2;
      x := new Word[2];
      wds := 1;
      sign := false;
      new;
      x[0] := i;
      assert Val(x[..], 1) == Val(x[..], 0) + x[0] * Pow(BASE, 0);
    }
  }

  /** Nothing written through a can be seen through b. */
  ghost predicate Apart(a: Bigint, b: Bigint) {
    a != b && a.x != b.x
  }

  /** An assignment to one word, and what it does to the number below and at that word. */
  method StoreWord(x: array<Word>, i: nat, w: Word)
    requires i < x.Length
    modifies x
    ensures x[..] == old(x[..])[i := w]
    ensures Val(x[..], i + 1) == Val(old(x[..]), i) + Scale(w, i)
  {
    x[i] := w;
    ValSame(old(x[..]), x[..], i);
  }

  // ------------------------------------------------------------------ multadd

  lemma WordProduct(x: Word, m: nat, c: nat)
    requires 0 < m < 0x8000_0000 && c < 0x8000_0000
    ensures 0 <= x * m + c < BASE * 0x8000_0000
    ensures c <= x * m + c && (x > 0 ==> x * m + c > 0)
  {
    MulMono(x, BASE - 1, m);
    MulNonNegative(x, m);
    if x > 0 { MulPositive(x, m); }
  }

  lemma MultAddStep(v: int, v0: int, c: int, m: int, a: int, x: int, w: int, c': int, i: nat)
    requires v + Scale(c, i) == v0 * m + a
    requires x * m + c == w + c' * BASE
    ensures v + Scale(w, i) + Scale(c', i + 1) == (v0 + Scale(x, i)) * m + a
  {
    CarryOut(x * m, c, 0, w, c', i);
    ScaleMul(x, m, i);
    MulDistributes(v0, Scale(x, i), m);
  }

  /** The carry loop of multadd; like the original's do-while it handles one word even when
      wds is 0. */
  method MultAddWords(x: array<Word>, wds: nat, m: nat, a: nat) returns (carry: nat)
    requires wds <= x.Length && 0 < x.Length
    requires 0 < m < 0x8000_0000 && a < 0x8000_0000
    modifies x
    ensures wds > 0 ==> Val(x[..], wds) + Scale(carry, wds) == Val(old(x[..]), wds) * m + a
    ensures wds == 0 && old(x[0]) == 0 ==> x[0] == a && carry == 0
    ensures carry < 0x8000_0000
    ensures wds > 0 && carry == 0 && old(x[wds - 1]) != 0 ==> x[wds - 1] != 0
  {
    ghost var s := x[..];
    var i := 0;
    carry := a;
    while i < 1 || i < wds
      invariant 0 <= i <= x.Length && (wds > 0 ==> i <= wds) && (wds == 0 ==> i <= 1)
      invariant carry < 0x8000_0000
      invariant forall j :: i <= j < x.Length ==> x[j] == s[j]
      invariant Val(x[..], i) + Scale(carry, i) == Val(s, i) * m + a
      invariant 0 < i == wds && s[wds - 1] != 0 && carry == 0 ==> x[wds - 1] != 0
      invariant wds == 0 && i == 1 && s[0] == 0 ==> x[0] == a && carry == 0
      decreases x.Length - i
    {
      WordProduct(x[i], m, carry);
      var y := x[i] * m + carry;
      MultAddStep(Val(x[..], i), Val(s, i), carry, m, a, x[i], y % BASE, y / BASE, i);
      carry := y / BASE;
      StoreWord(x, i, y % BASE);
      i := i + 1;
    }
  }

  /** Multiplies b by m and adds a, in place unless a new top word does not fit. On the wds == 0
      form of zero the addend lands in x[0] but is not counted, so the result is m*b + a exactly
      when b has a word or a is 0. */
  method MultAdd(b: Bigint, m: nat, a: nat) returns (r: Bigint)
    requires b.Valid()
    requires 0 < m < 0x8000_0000 && a < 0x8000_0000
    modifies b, b.x
    ensures r == b || (fresh(r) && fresh(r.x))
    ensures old(b.wds) == 0 ==> r == b && r.wds == 0 && r.x[0] == a
    ensures old(b.wds) > 0 ==> r.wds > 0
    ensures old(b.wds) > 0 || a == 0 ==> r.Valid() && r.Value() == old(b.Value()) * m + a
    ensures r.sign == old(b.sign)
  {
    var wds := b.wds;
    var carry := MultAddWords(b.x, wds, m, a);
    r := b;
    if carry != 0 {
      if wds >= b.x.Length {
        var b1 := new Bigint(b.k + 1);
        CopyInto(b1, b);
        ValSame(b.x[..], b1.x[..], wds);
        r := b1;
      }
      StoreWord(r.x, wds, carry);
      r.wds := wds + 1;
    }
  }

  /** Bcopy. */
  method CopyInto(dst: Bigint, src: Bigint)
    requires dst != src && dst.x != src.x
    requires src.wds <= src.x.Length && src.wds <= dst.x.Length
    modifies dst, dst.x
    ensures dst.wds == src.wds && dst.sign == src.sign
    ensures forall j :: 0 <= j < src.wds ==> dst.x[j] == src.x[j]
  {
    for i := 0 to src.wds
      invariant forall j :: 0 <= j < i ==> dst.x[j] == src.x[j]
    {
      dst.x[i] := src.x[i];
    }
    dst.wds := src.wds;
    dst.sign := src.sign;
  }

  // ------------------------------------------------------------------ cmp

  lemma ZeroForms(a: Bigint, b: Bigint)
    requires a.Valid() && b.Valid()
    ensures a.wds < b.wds ==>
              a.Value() < b.Value() || (a.wds == 0 && b.wds == 1 && b.x[0] == 0 && a.Value() == b.Value() == 0)
  {
    if a.wds < b.wds {
      if b.x[b.wds - 1] != 0 {
        ValShorter(a.x[..], a.wds, b.x[..], b.wds);
      } else {
        assert b.wds == 1;
        assert Val(b.x[..], 1) == 0;
      }
    }
  }

  /** The sign of the comparison. It is the order of the numbers, except that the wds == 0 form of
      zero counts as less than the wds == 1 form. */
  method Cmp(a: Bigint, b: Bigint) returns (r: int)
    requires a.Valid() && b.Valid()
    requires a.wds > 0 || b.wds > 0
    ensures r < 0 <==> a.Value() < b.Value() || (a.Value() == b.Value() && a.wds < b.wds)
    ensures r > 0 <==> a.Value() > b.Value() || (a.Value() == b.Value() && a.wds > b.wds)
    ensures a.Value() == b.Value() && a.wds != b.wds ==> a.Value() == 0 && a.wds + b.wds == 1
  {
    ZeroForms(a, b);
    ZeroForms(b, a);
    if a.wds != b.wds {
      return a.wds - b.wds;
    }
    var i := a.wds;
    while true
      invariant 0 < i <= a.wds
      invariant forall j :: i <= j < a.wds ==> a.x[j] == b.x[j]
      decreases i
    {
      i := i - 1;
      if a.x[i] != b.x[i] {
        if a.x[i] < b.x[i] {
          ValLess(a.x[..], b.x[..], i, a.wds);
          return -1;
        } else {
          ValLess(b.x[..], a.x[..], i, a.wds);
          return 1;
        }
      }
      if i <= 0 {
        break;
      }
    }
    ValSame(a.x[..], b.x[..], a.wds);
    return 0;
  }

  // ------------------------------------------------------------------ diff

  const WIDE: nat := 0x1_0000_0000_0000_0000

  /** One word of a subtraction in wrapping 64-bit arithmetic: bit 32 of the wrapped difference is
      the borrow. */
  lemma BorrowStep(d: int)
    requires -(BASE as int) <= d < BASE
    ensures var y := d % WIDE; d == y % BASE - (y / BASE % 2) * BASE
  {
    if d < 0 {
      assert d % WIDE == d + WIDE;
      assert (d + WIDE) / BASE == BASE - 1;
    }
  }

  /** |a - b|, with sign set when a < b. */
  method Diff(a: Bigint, b: Bigint) returns (c: Bigint)
    requires a.Valid() && b.Valid() && a.wds > 0 && b.wds > 0
    ensures fresh(c) && fresh(c.x) && c.Valid() && c.wds > 0
    ensures c.Value() == if a.Value() < b.Value() then b.Value() - a.Value() else a.Value() - b.Value()
    ensures c.sign <==> a.Value() < b.Value()
  {
    var i := Cmp(a, b);
    if i == 0 {
      c := new Bigint(0);
      c.wds := 1;
      c.x[0] := 0;
      ValZero(c.x[..], 1);
      return;
    }
    if i < 0 {
      c := DiffOrdered(b, a);
      c.sign := true;
    } else {
      c := DiffOrdered(a, b);
    }
  }

  /** Stores x - y - borrow in word i of xc and returns the next borrow. */
  method SubtractWord(xc: array<Word>, i: nat, x: Word, y: Word, borrow: nat) returns (borrow': nat)
    requires i < xc.Length && borrow <= 1
    modifies xc
    ensures borrow' <= 1
    ensures forall j :: 0 <= j < xc.Length && j != i ==> xc[j] == old(xc[j])
    ensures Val(xc[..], i + 1) - Scale(borrow', i + 1) ==
            Val(old(xc[..]), i) - Scale(borrow, i) + Scale(x, i) - Scale(y, i)
  {
    var d := x as int - y - borrow;
    BorrowStep(d);
    var wrapped := d % WIDE;
    BorrowOut(x, y, borrow, wrapped % BASE, wrapped / BASE % 2, i);
    borrow' := wrapped / BASE % 2;
    StoreWord(xc, i, wrapped % BASE);
  }

  /** The borrow loops of diff, for a number a that is not less than b. */
  method DiffWords(xa: array<Word>, wa: nat, xb: array<Word>, wb: nat, xc: array<Word>)
    requires 0 < wb <= wa && wa <= xa.Length && wb <= xb.Length && wa <= xc.Length
    requires xc != xa && xc != xb
    requires Val(xa[..], wa) >= Val(xb[..], wb)
    modifies xc
    ensures Val(xc[..], wa) == Val(xa[..], wa) - Val(xb[..], wb)
  {
    ghost var sa, sb := xa[..], xb[..];
    var borrow := 0;
    var i := 0;
    while i < wb
      invariant 0 <= i <= wb
      invariant 0 <= borrow <= 1
      invariant Val(xc[..], i) - Scale(borrow, i) == Val(sa, i) - Val(sb, i)
    {
      borrow := SubtractWord(xc, i, xa[i], xb[i], borrow);
      i := i + 1;
    }
    while i < wa
      invariant wb <= i <= wa
      invariant 0 <= borrow <= 1
      invariant Val(xc[..], i) - Scale(borrow, i) == Val(sa, i) - Val(sb, wb)
    {
      borrow := SubtractWord(xc, i, xa[i], 0, borrow);
      i := i + 1;
    }
    ValBound(xc[..], wa);
  }

  /** Counts the words that remain once leading zeros are dropped. */
  method StripZeros(x: array<Word>, n: nat) returns (m: nat)
    requires n <= x.Length
    ensures m <= n && (m > 0 ==> x[m - 1] != 0)
    ensures Val(x[..], m) == Val(x[..], n)
    ensures forall i :: m <= i < n ==> x[i] == 0
  {
    m := n;
    while m > 0 && x[m - 1] == 0
      invariant 0 <= m <= n
      invariant Val(x[..], m) == Val(x[..], n)
      invariant forall i :: m <= i < n ==> x[i] == 0
    {
      m := m - 1;
    }
  }

  method DiffOrdered(a: Bigint, b: Bigint) returns (c: Bigint)
    requires a.Valid() && b.Valid() && a.wds > 0 && b.wds > 0
    requires a.Value() > b.Value()
    ensures fresh(c) && fresh(c.x) && c.Valid() && c.wds > 0 && !c.sign
    ensures c.Value() == a.Value() - b.Value()
  {
    ZeroForms(a, b);
    c := new Bigint(a.k);
    DiffWords(a.x, a.wds, b.x, b.wds, c.x);
    var wa := StripZeros(c.x, a.wds);
    c.wds := wa;
  }

  // ------------------------------------------------------------------ mult

  lemma MultStep(v: int, carry: int, v0: int, y: int, t: int, x: int, i: nat, j: nat, c: int, w: int, carry': int)
    requires v + Scale(carry, j + i) == v0 + Scale(t, j)
    requires x * y + c + carry == w + carry' * BASE
    ensures v + Scale(w, j + i) + Scale(carry', j + i + 1) == v0 + Scale(c, j + i) + Scale(t + Scale(x * y, i), j)
  {
    CarryOut(x * y, c, carry, w, carry', j + i);
    ScaleScale(x * y, i, j);
    ScaleAdd(t, Scale(x * y, i), j);
  }

  lemma WordProductFits(x: Word, y: Word, c: Word, carry: Word)
    ensures 0 <= x * y + c + carry < WIDE
  {
    MulMono(x, BASE - 1, y);
    MulNonNegative(x, y);
  }

  /** Adds x * y + carry to word j + i of c and returns the next carry. The ghost arguments are the
      number v0 that stood below, and the part t of the row already added. */
  method AddProduct(c: array<Word>, i: nat, j: nat, x: Word, y: Word, carry: Word, ghost v0: int, ghost t: int)
      returns (carry': Word)
    requires j + i < c.Length
    requires Val(c[..], j + i) + Scale(carry, j + i) == v0 + Scale(t, j)
    modifies c
    ensures c[..] == old(c[..])[j + i := c[j + i]]
    ensures Val(c[..], j + i + 1) + Scale(carry', j + i + 1) ==
            v0 + Scale(old(c[j + i]), j + i) + Scale(t + Scale(x * y, i), j)
  {
    WordProductFits(x, y, c[j + i], carry);
    var z := x * y + c[j + i] + carry;
    MultStep(Val(c[..], j + i), carry, v0, y, t, x, i, j, c[j + i], z % BASE, z / BASE);
    carry' := z / BASE;
    StoreWord(c, j + i, z % BASE);
  }

  /** Adds y * a, shifted up by j words, to the product collected in c. */
  method AddRow(c: array<Word>, a: array<Word>, wa: nat, y: Word, j: nat, ghost wc: nat)
    requires c != a && 0 < wa <= a.Length && j + wa < wc <= c.Length
    requires forall i :: j + wa <= i < wc ==> c[i] == 0
    modifies c
    ensures forall i :: j + wa < i < wc ==> c[i] == 0
    ensures Val(c[..], j + wa + 1) == Val(old(c[..]), j + wa) + Scale(Times(a[..], wa, y), j)
  {
    var carry := AddRowWords(c, a, wa, y, j);
    StoreWord(c, j + wa, carry);
  }

  /** The inner do-while of mult; the carry that is left belongs in word j + wa. */
  method AddRowWords(c: array<Word>, a: array<Word>, wa: nat, y: Word, j: nat) returns (carry: Word)
    requires c != a && 0 < wa <= a.Length && j + wa < c.Length
    modifies c
    ensures forall t :: j + wa <= t < c.Length ==> c[t] == old(c[t])
    ensures Val(c[..], j + wa) + Scale(carry, j + wa) == Val(old(c[..]), j + wa) + Scale(Times(a[..], wa, y), j)
  {
    ghost var s, sa := c[..], a[..];
    var i := 0;
    carry := 0;
    while i < wa
      invariant 0 <= i <= wa
      invariant forall t :: j + i <= t < c.Length ==> c[t] == s[t]
      invariant Val(c[..], j + i) + Scale(carry, j + i) == Val(s, j + i) + Scale(Times(sa, i, y), j)
    {
      carry := AddProduct(c, i, j, a[i], y, carry, Val(s, j + i), Times(sa, i, y));
      i := i + 1;
    }
  }

  /** The row loop of mult. */
  method MultWords(xa: array<Word>, wa: nat, xb: array<Word>, wb: nat, xc: array<Word>)
    requires wb <= wa <= xa.Length && wb <= xb.Length && wa + wb <= xc.Length
    requires xc != xa && xc != xb
    modifies xc
    ensures Val(xc[..], wa + wb) == Val(xa[..], wa) * Val(xb[..], wb)
    ensures wa + wb > 0 && wb == 0 ==> xc[0] == 0
  {
    for i := 0 to wa + wb
      invariant forall t :: 0 <= t < i ==> xc[t] == 0
    {
      xc[i] := 0;
    }
    ghost var sb := xb[..];
    ghost var va := Val(xa[..], wa);
    ValStrip(xc[..], 0, wa);
    var j := 0;
    while j < wb
      invariant 0 <= j <= wb
      invariant forall t :: wa + j <= t < wa + wb ==> xc[t] == 0
      invariant Val(xc[..], wa + j) == va * Val(sb, j)
      invariant wb == 0 && wa > 0 ==> xc[0] == 0
    {
      var y := xb[j];
      if y != 0 {
        AddRow(xc, xa, wa, y, j, wa + wb);
        TimesVal(xa[..], wa, y);
      } else {
        ValStrip(xc[..], wa + j, wa + j + 1);
      }
      RowValue(va, Val(sb, j), y, j);
      j := j + 1;
    }
  }

  lemma RowValue(va: int, vb: int, y: int, j: nat)
    ensures va * (vb + Scale(y, j)) == va * vb + Scale(va * y, j)
  {
    MulCommutes(va, y);
    ScaleMul(y, va, j);
    MulCommutes(va, vb);
    MulCommutes(va, vb + Scale(y, j));
    MulDistributes(vb, Scale(y, j), va);
  }

  /** The exact product. */
  method Mult(a: Bigint, b: Bigint) returns (c: Bigint)
    requires a.Valid() && b.Valid()
    requires a.wds > 0 || b.wds > 0
    ensures fresh(c) && fresh(c.x) && c.Valid()
    ensures c.Value() == a.Value() * b.Value()
  {
    if a.wds < b.wds {
      c := MultOrdered(b, a);
      MulCommutes(a.Value(), b.Value());
    } else {
      c := MultOrdered(a, b);
    }
  }

  /** mult after its operands are put in order: a capacity of 2^k or 2^(k+1) words suffices. */
  method MultOrdered(a: Bigint, b: Bigint) returns (c: Bigint)
    requires a.Valid() && b.Valid()
    requires a.wds >= b.wds && a.wds > 0
    ensures fresh(c) && fresh(c.x) && c.Valid()
    ensures c.Value() == a.Value() * b.Value()
  {
    var k := a.k;
    var wc := a.wds + b.wds;
    if wc > a.x.Length {
      k := k + 1;
    }
    c := new Bigint(k);
    MultWords(a.x, a.wds, b.x, b.wds, c.x);
    var wds := StripZeros(c.x, wc);
    c.wds := wds;
  }

  // ------------------------------------------------------------------ lshift

  /** Shifting one word left by the bits that p = 2^k counts, q = 2^(32-k): the low bits that the
      shift clears take the bits z that left the word below. */
  lemma ShiftStep(x: Word, p: nat, q: nat, z: nat)
    requires p > 0 && q > 0 && p * q == BASE && z < p
    ensures (x * p) % BASE == (x % q) * p
    ensures x * p + z == (x / q) * BASE + ((x % q) * p + z)
    ensures 0 <= (x % q) * p + z < BASE
    ensures x / q < p
  {
    var h, l := x / q, x % q;
    DivMod(x, q);
    SplitWord(x, h, l, p, q);
    MulMono(l, q - 1, p);
    MulDistributes(q, -1, p);
    MulCommutes(p, q);
    MulNonNegative(l, p);
    if h >= p {
      MulMono(p, h, q);
    }
  }

  lemma SplitWord(x: int, h: int, l: int, p: int, q: int)
    requires x == h * q + l && p * q == BASE
    ensures x * p == h * BASE + l * p
  {
    MulDistributes(h * q, l, p);
    MulAssoc(h, q, p);
    MulCommutes(p, q);
  }

  lemma ShiftValue(v: int, z: int, s: int, p: int, x: int, w: int, z': int, i: nat, n: nat)
    requires v + Scale(z, n + i) == Scale(s, n) * p
    requires x * p + z == w + z' * BASE
    ensures v + Scale(w, n + i) + Scale(z', n + i + 1) == Scale(s + Scale(x, i), n) * p
  {
    CarryOut(x * p, z, 0, w, z', n + i);
    ScaleMul(x, p, n + i);
    ScaleScale(x, i, n);
    ScaleAdd(s, Scale(x, i), n);
    MulDistributes(Scale(s, n), Scale(x, n + i), p);
  }

  /** Stores one shifted word over the bits z of the word below; returns the bits that leave it. */
  method ShiftWord(y: array<Word>, i: nat, x: Word, z: nat, p: nat, q: nat) returns (z': nat)
    requires i < y.Length && p > 0 && q > 0 && p * q == BASE && z < p
    modifies y
    ensures z' < p && x * p + z == y[i] + z' * BASE
    ensures forall j :: 0 <= j < y.Length && j != i ==> y[j] == old(y[j])
    ensures Val(y[..], i + 1) == Val(old(y[..]), i) + Scale(y[i], i)
    ensures z' == 0 && x != 0 ==> y[i] != 0
  {
    ShiftStep(x, p, q, z);
    if x != 0 { MulPositive(x, p); }
    StoreWord(y, i, (x * p) % BASE + z);
    z' := x / q;
  }

  /** The bit-shifting loop of lshift: writes wds words of x * p above n zero words of y and
      returns the bits that leave the top word. */
  method ShiftWords(x: array<Word>, wds: nat, y: array<Word>, n: nat, p: nat, q: nat) returns (z: nat)
    requires y != x && 0 < wds <= x.Length && n + wds <= y.Length
    requires p > 0 && q > 0 && p * q == BASE
    requires forall i :: 0 <= i < n ==> y[i] == 0
    modifies y
    ensures z < p
    ensures Val(y[..], n + wds) + Scale(z, n + wds) == Scale(Val(x[..], wds), n) * p
    ensures z == 0 && x[wds - 1] != 0 ==> y[n + wds - 1] != 0
  {
    ghost var s := x[..];
    var i := 0;
    z := 0;
    ValStrip(y[..], 0, n);
    while i < wds
      invariant 0 <= i <= wds
      invariant z < p
      invariant Val(y[..], n + i) + Scale(z, n + i) == Scale(Val(s, i), n) * p
      invariant 0 < i == wds && z == 0 && s[wds - 1] != 0 ==> y[n + wds - 1] != 0
    {
      ghost var v := Val(y[..], n + i);
      var z' := ShiftWord(y, n + i, x[i], z, p, q);
      ShiftValue(v, z, Val(s, i), p, s[i], y[n + i], z', i, n);
      z := z';
      i := i + 1;
    }
  }

  /** Copying words upwards by n places multiplies by 2^(32n). */
  lemma {:induction false} ValShift(x: seq<Word>, y: seq<Word>, n: nat, i: nat)
    requires i <= |x| && n + i <= |y|
    requires forall j :: 0 <= j < n ==> y[j] == 0
    requires forall j :: 0 <= j < i ==> y[n + j] == x[j]
    ensures Val(y, n + i) == Scale(Val(x, i), n)
  {
    if i == 0 {
      ValStrip(y, 0, n);
    } else {
      ValShift(x, y, n, i - 1);
      ScaleScale(x[i - 1], i - 1, n);
      ScaleAdd(Val(x, i - 1), Scale(x[i - 1], i - 1), n);
    }
  }

  /** Both copying loops of lshift, into an array with room for n + wds + 1 words; returns the
      word count of the result. */
  method LShiftWords(x: array<Word>, wds: nat, y: array<Word>, k: nat) returns (n1: nat)
    requires y != x && 0 < wds <= x.Length && k / 32 + wds + 1 <= y.Length
    modifies y
    ensures k / 32 + wds <= n1 <= k / 32 + wds + 1
    ensures Val(y[..], n1) == Val(x[..], wds) * Pow(2, k)
    ensures x[wds - 1] != 0 ==> y[n1 - 1] != 0
    ensures n1 == k / 32 + wds + 1 ==> y[n1 - 1] != 0
  {
    var n, bits := k / 32, k % 32;
    for j := 0 to n
      invariant forall t :: 0 <= t < j ==> y[t] == 0
    {
      y[j] := 0;
    }
    ghost var v := Val(x[..], wds);
    n1 := n + wds;
    Pow2Split(v, n, bits);
    if bits != 0 {
      var z := ShiftWords(x, wds, y, n, Pow(2, bits), Pow(2, 32 - bits));
      StoreWord(y, n1, z);
      if z != 0 {
        n1 := n1 + 1;
      }
    } else {
      for j := 0 to wds
        invariant forall t :: 0 <= t < n ==> y[t] == 0
        invariant forall t :: 0 <= t < j ==> y[n + t] == x[t]
      {
        y[n + j] := x[j];
      }
      ValShift(x[..], y[..], n, wds);
    }
  }

  lemma Pow2Split(v: nat, n: nat, bits: nat)
    requires bits < 32
    ensures Pow(2, bits) > 0 && Pow(2, 32 - bits) > 0 && Pow(2, bits) * Pow(2, 32 - bits) == BASE
    ensures Pow(2, bits) <= BASE
    ensures Scale(v, n) * Pow(2, bits) == v * Pow(2, 32 * n + bits)
  {
    ScalePow(v, n);
    Pow2Word();
    PowMul(2, 32, n);
    PowAdd(2, 32 * n, bits);
    PowAdd(2, bits, 32 - bits);
    PowPositive(2, bits);
    PowPositive(2, 32 - bits);
    MulMono(1, Pow(2, 32 - bits), Pow(2, bits));
    MulAssoc(v, Pow(BASE, n), Pow(2, bits));
  }

  lemma Pow2Word()
    ensures Pow(2, 32) == BASE
  {
    PowAdd(2, 8, 8);
    PowAdd(2, 16, 16);
    assert Pow(2, 8) == 256;
  }

  /** A fresh copy of b shifted left by k bits. */
  method LShift(b: Bigint, k: nat) returns (b1: Bigint)
    requires b.Valid() && b.wds > 0
    ensures fresh(b1) && fresh(b1.x)
    ensures 0 < b1.wds <= b1.x.Length == Pow(2, b1.k)
    ensures b1.Value() == b.Value() * Pow(2, k)
    ensures b.x[b.wds - 1] != 0 || k < 32 ==> b1.Valid()
  {
    var k1 := b.k;
    var n1 := k / 32 + b.wds + 1;
    var i := b.x.Length;
    while n1 > i
      invariant i == Pow(2, k1) > 0
      decreases n1 - i
    {
      i := i * 2;
      k1 := k1 + 1;
    }
    b1 := new Bigint(k1);
    var wds := LShiftWords(b.x, b.wds, b1.x, k);
    b1.wds := wds;
  }
}
