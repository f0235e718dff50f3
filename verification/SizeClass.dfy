/** Size classes: runtime/core/SizeClass.cpp. Unsigned machine words are natural numbers below the
    stated power of two. */
module SizeClasses {
  import opened Words

  const WORD_SIZE: nat := 16

  // ------------------------------------------------------------------ bits

  /** The bit-wise or of two unsigned numbers. */
  function Or(a: nat, b: nat): nat
    decreases a + b
  {
    if a == 0 then b
    else if b == 0 then a
    else (if a % 2 == 1 || b % 2 == 1 then 1 else 0) + 2 * Or(a / 2, b / 2)
  }

  function ShiftRight(a: nat, n: nat): nat {
    if n == 0 then a else ShiftRight(a / 2, n - 1)
  }

  predicate Bit(a: nat, i: nat) {
    if i == 0 then a % 2 == 1 else Bit(a / 2, i - 1)
  }

  lemma {:induction false} OrBit(a: nat, b: nat, i: nat)
    ensures Bit(Or(a, b), i) <==> Bit(a, i) || Bit(b, i)
    decreases i
  {
    if a == 0 {
      ZeroBit(i);
    } else if b == 0 {
      ZeroBit(i);
    } else {
      var c, r := if a % 2 == 1 || b % 2 == 1 then 1 else 0, Or(a / 2, b / 2);
      assert Or(a, b) == c + 2 * r;
      hide Or;
      assert Or(a, b) % 2 == c && Or(a, b) / 2 == r;
      if i > 0 {
        OrBit(a / 2, b / 2, i - 1);
      }
    }
  }

  lemma {:induction false} ZeroBit(i: nat)
    ensures !Bit(0, i)
  {
    if i > 0 { ZeroBit(i - 1); }
  }

  lemma {:induction false} ShiftBit(a: nat, n: nat, i: nat)
    ensures Bit(ShiftRight(a, n), i) <==> Bit(a, i + n)
    decreases n
  {
    if n > 0 { ShiftBit(a / 2, n - 1, i); }
  }

  /** The highest set bit of x is bit k. */
  predicate Highest(x: nat, k: nat) {
    Pow(2, k) <= x < Pow(2, k + 1)
  }

  lemma {:induction false} HighestBit(x: nat, k: nat, i: nat)
    requires Highest(x, k) && i >= k
    ensures Bit(x, i) <==> i == k
  {
    if k > 0 {
      HighestBit(x / 2, k - 1, i - 1);
    } else if i > 0 {
      assert x == 1;
      ZeroBit(i - 1);
    }
  }

  /** The word with the lowest k + 1 bits set. */
  function Ones(k: nat): nat {
    PowPositive(2, k + 1);
    Pow(2, k + 1) - 1
  }

  lemma {:induction false} AllOnes(x: nat, k: nat)
    requires forall i: nat :: Bit(x, i) <==> i <= k
    ensures x == Ones(k)
  {
    assert Bit(x, 0);
    if k == 0 {
      assert forall i: nat :: !Bit(x / 2, i) by {
        forall i: nat ensures !Bit(x / 2, i) { assert !Bit(x, i + 1); }
      }
      NoBits(x / 2);
    } else {
      forall i: nat ensures Bit(x / 2, i) <==> i <= k - 1 {
        assert Bit(x, i + 1) <==> i + 1 <= k;
      }
      AllOnes(x / 2, k - 1);
    }
  }

  lemma {:induction false} NoBits(x: nat)
    requires forall i: nat :: !Bit(x, i)
    ensures x == 0
  {
    assert !Bit(x, 0);
    if x > 0 {
      forall i: nat ensures !Bit(x / 2, i) { assert !Bit(x, i + 1); }
      NoBits(x / 2);
    }
  }

  // ------------------------------------------------------------------ counting leading zeros

  const DEBRUIJN: seq<nat> := [31, 22, 30, 21, 18, 10, 29, 2, 20, 17, 15, 13, 9, 6, 28, 1,
                               23, 19, 11, 3, 16, 14, 7, 24, 12, 4, 8, 25, 5, 26, 27, 0]

  /** x |= x >> n. */
  function Smear(x: nat, n: nat): nat {
    Or(x, ShiftRight(x, n))
  }

  function Smeared(x: nat): nat {
    Smear(Smear(Smear(Smear(Smear(x, 1), 2), 4), 8), 16)
  }

  /** The hash of the smeared word: the top five bits of a 32-bit product. */
  function Hash(x: nat): (h: nat)
    ensures h < 32
  {
    x * 0x07C4ACDD % 0x1_0000_0000 / 0x800_0000
  }

  function Clz32(x: nat): nat
    requires x < 0x1_0000_0000
  {
    if x == 0 then 32 else DEBRUIJN[Hash(Smeared(x))]
  }

  /** The highest w bits up to bit k are set, and none above. */
  ghost predicate Window(x: nat, k: nat, w: nat) {
    (forall i: nat :: i > k ==> !Bit(x, i)) && forall i: nat :: i <= k < i + w ==> Bit(x, i)
  }

  lemma SmearWindow(x: nat, k: nat, w: nat)
    requires Window(x, k, w)
    ensures Window(Smear(x, w), k, w + w)
  {
    forall i: nat ensures i > k ==> !Bit(Smear(x, w), i)
                  ensures i <= k < i + w + w ==> Bit(Smear(x, w), i)
    {
      OrBit(x, ShiftRight(x, w), i);
      ShiftBit(x, w, i);
    }
  }

  lemma SmearedIsOnes(x: nat, k: nat)
    requires Highest(x, k) && k < 32
    ensures Smeared(x) == Ones(k)
  {
    forall i: nat | i >= k ensures Bit(x, i) <==> i == k {
      HighestBit(x, k, i);
    }
    SmearWindow(x, k, 1);
    SmearWindow(Smear(x, 1), k, 2);
    SmearWindow(Smear(Smear(x, 1), 2), k, 4);
    SmearWindow(Smear(Smear(Smear(x, 1), 2), 4), k, 8);
    SmearWindow(Smear(Smear(Smear(Smear(x, 1), 2), 4), 8), k, 16);
    forall i: nat ensures Bit(Smeared(x), i) <==> i <= k {
      assert i <= k ==> k < i + 32;
    }
    AllOnes(Smeared(x), k);
  }

  lemma {:induction false} HighestExists(x: nat) returns (k: nat)
    requires x > 0
    ensures Highest(x, k)
  {
    if x == 1 {
      k := 0;
    } else {
      k := HighestExists(x / 2);
      k := k + 1;
    }
  }

  /** The multiplier is a de Bruijn constant for words of ones: the table undoes the hash. */
  lemma HashOfOnes(k: nat)
    requires k < 32
    ensures DEBRUIJN[Hash(Ones(k))] == 31 - k
  {
    hide Pow, Hash;
    if k < 8 {
      OnesLow(k);
    } else if k < 16 {
      OnesMid(k);
    } else if k < 24 {
      OnesUpper(k);
    } else {
      OnesTop(k);
    }
  }

  lemma OnesLow(k: nat)
    requires k < 8
    ensures DEBRUIJN[Hash(Ones(k))] == 31 - k
  {
    PowersLow();
    HashesLow();
    hide Pow, Hash;
  }

  lemma OnesMid(k: nat)
    requires 8 <= k < 16
    ensures DEBRUIJN[Hash(Ones(k))] == 31 - k
  {
    PowersLow();
    HashesMid();
    hide Pow, Hash;
  }

  lemma OnesUpper(k: nat)
    requires 16 <= k < 24
    ensures DEBRUIJN[Hash(Ones(k))] == 31 - k
  {
    PowersHigh();
    HashesUpper();
    hide Pow, Hash;
  }

  lemma OnesTop(k: nat)
    requires 24 <= k < 32
    ensures DEBRUIJN[Hash(Ones(k))] == 31 - k
  {
    PowersHigh();
    HashesTop();
    hide Pow, Hash;
  }

  lemma HashesLow()
    ensures Hash(0x1) == 0 && Hash(0x3) == 2
    ensures Hash(0x7) == 6 && Hash(0xF) == 14
    ensures Hash(0x1F) == 30 && Hash(0x3F) == 29
    ensures Hash(0x7F) == 27 && Hash(0xFF) == 23
  {}

  lemma HashesMid()
    ensures Hash(0x1FF) == 16 && Hash(0x3FF) == 1
    ensures Hash(0x7FF) == 3 && Hash(0xFFF) == 8
    ensures Hash(0x1FFF) == 17 && Hash(0x3FFF) == 4
    ensures Hash(0x7FFF) == 9 && Hash(0xFFFF) == 20
  {}

  lemma HashIs(x: nat, q: nat, r: nat)
    requires x * 0x07C4ACDD == q * 0x1_0000_0000 + r && r < 0x1_0000_0000
    ensures Hash(x) == r / 0x800_0000
  {
    ModIs(x * 0x07C4ACDD, q, r);
  }

  lemma {:induction false} ModIs(y: nat, q: nat, r: nat)
    requires y == q * 0x1_0000_0000 + r && r < 0x1_0000_0000
    ensures y % 0x1_0000_0000 == r
  {}

  lemma HashesUpper()
    ensures Hash(0x1FFFF) == 10 && Hash(0x3FFFF) == 21
    ensures Hash(0x7FFFF) == 11 && Hash(0xFFFFF) == 24
    ensures Hash(0x1FFFFF) == 18 && Hash(0x3FFFFF) == 5
    ensures Hash(0x7FFFFF) == 12 && Hash(0xFFFFFF) == 26
  {
    HashIs(0x1FFFF, 0xF89, 0x51F55323);
    HashIs(0x3FFFF, 0x1F12, 0xABAF5323);
    HashIs(0x7FFFF, 0x3E25, 0x5F235323);
    HashIs(0xFFFFF, 0x7C4A, 0xC60B5323);
    HashIs(0x1FFFFF, 0xF895, 0x93DB5323);
    HashIs(0x3FFFFF, 0x1F12B, 0x2F7B5323);
    HashIs(0x7FFFFF, 0x3E256, 0x66BB5323);
    HashIs(0xFFFFFF, 0x7C4AC, 0xD53B5323);
  }

  lemma HashesTop()
    ensures Hash(0x1FFFFFF) == 22 && Hash(0x3FFFFFF) == 13
    ensures Hash(0x7FFFFFF) == 28 && Hash(0xFFFFFFF) == 25
    ensures Hash(0x1FFFFFFF) == 19 && Hash(0x3FFFFFFF) == 7
    ensures Hash(0x7FFFFFFF) == 15 && Hash(0xFFFFFFFF) == 31
  {
    HashIs(0x1FFFFFF, 0xF8959, 0xB23B5323);
    HashIs(0x3FFFFFF, 0x1F12B3, 0x6C3B5323);
    HashIs(0x7FFFFFF, 0x3E2566, 0xE03B5323);
    HashIs(0xFFFFFFF, 0x7C4ACD, 0xC83B5323);
    HashIs(0x1FFFFFFF, 0xF8959B, 0x983B5323);
    HashIs(0x3FFFFFFF, 0x1F12B37, 0x383B5323);
    HashIs(0x7FFFFFFF, 0x3E2566E, 0x783B5323);
    HashIs(0xFFFFFFFF, 0x7C4ACDC, 0xF83B5323);
  }

  lemma PowersLow()
    ensures Pow(2, 1) == 0x2 && Pow(2, 2) == 0x4 && Pow(2, 3) == 0x8 && Pow(2, 4) == 0x10
    ensures Pow(2, 5) == 0x20 && Pow(2, 6) == 0x40 && Pow(2, 7) == 0x80 && Pow(2, 8) == 0x100
    ensures Pow(2, 9) == 0x200 && Pow(2, 10) == 0x400 && Pow(2, 11) == 0x800 && Pow(2, 12) == 0x1000
    ensures Pow(2, 13) == 0x2000 && Pow(2, 14) == 0x4000 && Pow(2, 15) == 0x8000 && Pow(2, 16) == 0x1_0000
  {}

  lemma PowersHigh()
    ensures Pow(2, 17) == 0x2_0000 && Pow(2, 18) == 0x4_0000 && Pow(2, 19) == 0x8_0000 && Pow(2, 20) == 0x10_0000
    ensures Pow(2, 21) == 0x20_0000 && Pow(2, 22) == 0x40_0000 && Pow(2, 23) == 0x80_0000 && Pow(2, 24) == 0x100_0000
    ensures Pow(2, 25) == 0x200_0000 && Pow(2, 26) == 0x400_0000 && Pow(2, 27) == 0x800_0000
            && Pow(2, 28) == 0x1000_0000
    ensures Pow(2, 29) == 0x2000_0000 && Pow(2, 30) == 0x4000_0000 && Pow(2, 31) == 0x8000_0000
            && Pow(2, 32) == 0x1_0000_0000
  {
    PowersLow();
  }

  /** mi_clz32 counts the leading zeros of a 32-bit word. */
  lemma Clz32IsLeadingZeros(x: nat, k: nat)
    requires Highest(x, k) && x < 0x1_0000_0000
    ensures k < 32 && Clz32(x) == 31 - k
  {
    PowersHigh();
    if k >= 32 { PowMono(2, 32, k); }
    SmearedIsOnes(x, k);
    HashOfOnes(k);
  }

  const INTPTR_BITS: nat := 128

  /** mi_clz: of a 64-bit word, but a zero word counts as 128 bits. */
  function Clz(x: nat): nat
    requires x < 0x1_0000_0000_0000_0000
  {
    if x == 0 then INTPTR_BITS
    else
      var count := Clz32(x / 0x1_0000_0000);
      if count < 32 then count else 32 + Clz32(x % 0x1_0000_0000)
  }

  /** mi_bsr, which takes words to have 128 bits. */
  function Bsr(x: nat): int
    requires x < 0x1_0000_0000_0000_0000
  {
    if x == 0 then INTPTR_BITS else INTPTR_BITS - 1 - Clz(x)
  }

  /** On 64-bit words mi_bsr is 64 above the index of the highest bit. */
  lemma BsrIsHighestBit(x: nat, k: nat)
    requires Highest(x, k) && x < 0x1_0000_0000_0000_0000
    ensures k < 64 && Bsr(x) == 64 + k
  {
    if x / 0x1_0000_0000 > 0 {
      var h := HighestExists(x / 0x1_0000_0000);
      BsrHigh(x, h);
      HighWord(x, h);
      HighestUnique(x, k, h + 32);
    } else {
      assert x % 0x1_0000_0000 == x;
      Clz32IsLeadingZeros(x, k);
      assert Clz32(0) == 32;
      hide Clz32;
    }
  }

  lemma BsrHigh(x: nat, h: nat)
    requires x < 0x1_0000_0000_0000_0000 && Highest(x / 0x1_0000_0000, h)
    ensures h < 32 && Bsr(x) == 96 + h
  {
    Clz32IsLeadingZeros(x / 0x1_0000_0000, h);
    hide Clz32;
  }

  lemma HighWord(x: nat, h: nat)
    requires Highest(x / 0x1_0000_0000, h)
    ensures Highest(x, h + 32)
  {
    PowSplit(h);
    PowSplit(h + 1);
  }

  lemma {:induction false} PowSplit(h: nat)
    ensures Pow(2, h + 32) == Pow(2, h) * 0x1_0000_0000
  {
    if h == 0 {
      PowersHigh();
    } else {
      PowSplit(h - 1);
    }
  }

  lemma HighestUnique(x: nat, k: nat, l: nat)
    requires Highest(x, k) && Highest(x, l)
    ensures k == l
  {
    if k < l { PowMono(2, k + 1, l); }
    if l < k { PowMono(2, l + 1, k); }
  }

  // ------------------------------------------------------------------ size classes

  /** The words of each class, in rows of eight. */
  const CLASS_ROWS: seq<seq<nat>> := [
    [1, 2, 3, 4, 5, 6, 7, 8],
    [10, 12, 14, 16, 20, 24, 28, 32],
    [40, 48, 56, 64, 80, 96, 112, 128],
    [160, 192, 224, 256, 320, 384, 448, 512],
    [640, 768, 896, 1024, 1280, 1536, 1792, 2048],
    [2560, 3072, 3584, 4096, 5120, 6144, 7168, 8192],
    [10240, 12288, 14336, 16384, 20480, 24576, 28672, 32768],
    [40960, 49152, 57344, 65536, 81920, 98304, 114688, 131072],
    [163840, 196608, 229376, 262144, 327680, 393216, 458752, 524288]]

  const HUGE: nat := 72
  const MAX_WORDS: nat := 524288

  /** A 64-bit right shift takes its count modulo 64. */
  function Shr64(x: nat, count: int): nat {
    ShiftRight(x, count % 64)
  }

  /** _mi_wsize_from_size. */
  function WordsFor(size: nat): nat {
    (size + WORD_SIZE - 1) / WORD_SIZE
  }

  /** The class index of w words, before and after it is narrowed to a byte. */
  function ClassIndex(w: nat): int
    requires 8 <= w < 0x1_0000_0000_0000_0000
  {
    var b := Bsr(w - 1) % 256;
    b * 4 + Shr64(w - 1, b - 2) % 4 - 4
  }

  function WordsToClass(w: nat): nat
    requires w < 0x1_0000_0000_0000_0000
  {
    var wsize := if w == 0 then 1 else w;
    if wsize < 8 then wsize - 1 else ClassIndex(wsize) % 256
  }

  function SizeToClass(size: nat): nat
    requires size < 0x1_0000_0000_0000_0000
  {
    WordsToClass(WordsFor(size))
  }

  /** The table's entry for a class; the last entry, for huge objects, is zero. */
  function ClassWords(cls: nat): nat
    requires cls <= HUGE
  {
    if cls == HUGE then 0 else CLASS_ROWS[cls / 8][cls % 8]
  }

  function ClassToSize(cls: nat): nat
    requires cls <= HUGE
  {
    ClassWords(cls) * WORD_SIZE
  }

  lemma Row0()
    ensures ClassWords(0) == 1 && ClassWords(1) == 2 && ClassWords(2) == 3 && ClassWords(3) == 4
    ensures ClassWords(4) == 5 && ClassWords(5) == 6 && ClassWords(6) == 7 && ClassWords(7) == 8
  {}

  lemma Row1()
    ensures ClassWords(8) == 10 && ClassWords(9) == 12 && ClassWords(10) == 14 && ClassWords(11) == 16
    ensures ClassWords(12) == 20 && ClassWords(13) == 24 && ClassWords(14) == 28 && ClassWords(15) == 32
  {}

  lemma Row2()
    ensures ClassWords(16) == 40 && ClassWords(17) == 48 && ClassWords(18) == 56 && ClassWords(19) == 64
    ensures ClassWords(20) == 80 && ClassWords(21) == 96 && ClassWords(22) == 112 && ClassWords(23) == 128
  {}

  lemma Row3()
    ensures ClassWords(24) == 160 && ClassWords(25) == 192 && ClassWords(26) == 224 && ClassWords(27) == 256
    ensures ClassWords(28) == 320 && ClassWords(29) == 384 && ClassWords(30) == 448 && ClassWords(31) == 512
  {}

  lemma Row4()
    ensures ClassWords(32) == 640 && ClassWords(33) == 768 && ClassWords(34) == 896 && ClassWords(35) == 1024
    ensures ClassWords(36) == 1280 && ClassWords(37) == 1536 && ClassWords(38) == 1792 && ClassWords(39) == 2048
  {}

  lemma Row5()
    ensures ClassWords(40) == 2560 && ClassWords(41) == 3072 && ClassWords(42) == 3584 && ClassWords(43) == 4096
    ensures ClassWords(44) == 5120 && ClassWords(45) == 6144 && ClassWords(46) == 7168 && ClassWords(47) == 8192
  {}

  lemma Row6()
    ensures ClassWords(48) == 10240 && ClassWords(49) == 12288 && ClassWords(50) == 14336 && ClassWords(51) == 16384
    ensures ClassWords(52) == 20480 && ClassWords(53) == 24576 && ClassWords(54) == 28672 && ClassWords(55) == 32768
  {}

  lemma Row7()
    ensures ClassWords(56) == 40960 && ClassWords(57) == 49152 && ClassWords(58) == 57344 && ClassWords(59) == 65536
    ensures ClassWords(60) == 81920 && ClassWords(61) == 98304 && ClassWords(62) == 114688 && ClassWords(63) == 131072
  {}

  lemma Row8()
    ensures ClassWords(64) == 163840 && ClassWords(65) == 196608 && ClassWords(66) == 229376 && ClassWords(67) == 262144
    ensures ClassWords(68) == 327680 && ClassWords(69) == 393216 && ClassWords(70) == 458752 && ClassWords(71) == 524288
  {}

  /** Four classes to every power of two. */
  lemma TableEntry(k: nat, q: nat)
    requires 2 <= k <= 18 && q < 4
    ensures ClassWords(4 * k + q - 4) == (q + 5) * Pow(2, k - 2)
  {
    hide Pow, ClassWords;
    if k < 10 {
      EntryLow(k, q);
    } else {
      EntryHigh(k, q);
    }
  }

  lemma EntryLow(k: nat, q: nat)
    requires 2 <= k < 10 && q < 4
    ensures ClassWords(4 * k + q - 4) == (q + 5) * Pow(2, k - 2)
  {
    PowersLow();
    assert Pow(2, 0) == 1;
    hide Pow, ClassWords;
    assert q == 0 || q == 1 || q == 2 || q == 3;
    if k == 2 {
      Row0();
    } else if k == 3 || k == 4 {
      Row1();
    } else if k == 5 || k == 6 {
      Row2();
    } else if k == 7 || k == 8 {
      Row3();
    } else if k == 9 || k == 10 {
      Row4();
    }
  }

  lemma EntryHigh(k: nat, q: nat)
    requires 10 <= k <= 18 && q < 4
    ensures ClassWords(4 * k + q - 4) == (q + 5) * Pow(2, k - 2)
  {
    PowersLow();
    hide Pow, ClassWords;
    assert q == 0 || q == 1 || q == 2 || q == 3;
    if k == 9 || k == 10 {
      Row4();
    } else if k == 11 || k == 12 {
      Row5();
    } else if k == 13 || k == 14 {
      Row6();
    } else if k == 15 || k == 16 {
      Row7();
    } else if k == 17 || k == 18 {
      Row8();
    }
  }

  /** Shifting down to the top three bits leaves the quarter of the octave that x is in. */
  lemma {:induction false} TopBits(x: nat, k: nat)
    requires Highest(x, k) && k >= 2
    ensures var top := ShiftRight(x, k - 2); 4 <= top < 8 && top * Pow(2, k - 2) <= x < (top + 1) * Pow(2, k - 2)
    decreases k
  {
    if k > 2 {
      TopBits(x / 2, k - 1);
    } else {
      PowersLow();
    }
  }

  /** The octave of w words: w is in quarter q of octave k, whose class is 4k + q - 4. That mi_bsr
      is 64 too high is undone by the modulus of the shift count and of the byte. */
  lemma Octave(w: nat) returns (k: nat, q: nat)
    requires 8 <= w < 0x1_0000_0000_0000_0000
    ensures 2 <= k < 64 && q < 4 && WordsToClass(w) == 4 * k + q - 4
    ensures Highest(w - 1, k)
    ensures (q + 4) * Pow(2, k - 2) < w <= (q + 5) * Pow(2, k - 2)
  {
    k := HighestExists(w - 1);
    AtLeastTwo(w - 1, k);
    BsrIsHighestBit(w - 1, k);
    TopBits(w - 1, k);
    hide Bsr, ShiftRight, Pow;
    q := ShiftRight(w - 1, k - 2) - 4;
    NarrowIndex(w, k, q);
  }

  lemma AtLeastTwo(x: nat, k: nat)
    requires Highest(x, k) && x >= 7
    ensures k >= 2
  {
    PowersLow();
    if k < 2 { PowMono(2, k + 1, 2); }
  }

  lemma NarrowIndex(w: nat, k: nat, q: nat)
    requires 8 <= w < 0x1_0000_0000_0000_0000 && 2 <= k < 64 && q < 4
    requires Bsr(w - 1) == 64 + k && ShiftRight(w - 1, k - 2) == q + 4
    ensures WordsToClass(w) == 4 * k + q - 4
  {
    hide Bsr, ShiftRight;
    assert (64 + k) % 256 == 64 + k;
    assert (62 + k) % 64 == k - 2;
    assert (q + 4) % 4 == q;
  }

  lemma TableIncreases(c: nat)
    requires c < 71
    ensures ClassWords(c) < ClassWords(c + 1)
  {
    hide ClassWords, Pow;
    if c < 4 {
      Row0();
    } else {
      var k, q := (c + 4) / 4, (c + 4) % 4;
      TableEntry(k, q);
      PowPositive(2, k - 2);
      if q < 3 {
        TableEntry(k, q + 1);
        MoreTimes(q + 5, Pow(2, k - 2));
      } else {
        TableEntry(k + 1, 0);
        HalfPow(k - 1);
      }
    }
  }

  lemma MoreTimes(q: nat, p: nat)
    requires p >= 1
    ensures q * p < (q + 1) * p
  {}

  lemma {:induction false} TableMono(c: nat, d: nat)
    requires c <= d < 72
    ensures ClassWords(c) <= ClassWords(d)
    decreases d
  {
    if c < d {
      TableMono(c, d - 1);
      TableIncreases(d - 1);
    }
  }

  /** The class of w words holds them, and the class below does not. */
  ghost predicate Brackets(w: nat, c: nat) {
    c < HUGE && w <= ClassWords(c) && (c > 0 ==> ClassWords(c - 1) < w) && 4 * (ClassWords(c) - w) < w
  }

  lemma ClassBrackets(w: nat)
    requires 1 <= w <= MAX_WORDS
    ensures Brackets(w, WordsToClass(w))
  {
    if w < 8 {
      FirstClasses(w);
      hide Brackets, ClassIndex;
    } else {
      hide WordsToClass, Brackets, Pow;
      var k, q := Octave(w);
      SmallOctave(w, k);
      OctaveBrackets(w, k, q);
    }
  }

  lemma FirstClasses(w: nat)
    requires 1 <= w < 8
    ensures Brackets(w, w - 1)
  {
    Row0();
    hide ClassWords;
    assert w == 1 || w == 2 || w == 3 || w == 4 || w == 5 || w == 6 || w == 7;
  }

  lemma OctaveBrackets(w: nat, k: nat, q: nat)
    requires 2 <= k <= 18 && q < 4 && (q + 4) * Pow(2, k - 2) < w <= (q + 5) * Pow(2, k - 2)
    ensures Brackets(w, 4 * k + q - 4)
  {
    hide ClassWords, Pow;
    TableEntry(k, q);
    EntryBefore(k, q);
    QuarterSlack(w, q, Pow(2, k - 2));
  }

  lemma EntryBefore(k: nat, q: nat)
    requires 2 <= k <= 18 && q < 4
    ensures ClassWords(4 * k + q - 5) == (q + 4) * Pow(2, k - 2)
  {
    hide ClassWords;
    if q > 0 {
      TableEntry(k, q - 1);
    } else if k > 2 {
      TableEntry(k - 1, 3);
    } else {
      Row0();
    }
  }

  lemma QuarterSlack(w: nat, q: nat, p: nat)
    requires (q + 4) * p < w <= (q + 5) * p
    ensures 4 * ((q + 5) * p - w) < w
  {
    assert (q + 5) * p == (q + 4) * p + p;
    assert (q + 4) * p >= 4 * p;
  }

  lemma HalfPow(n: nat)
    requires n > 0
    ensures Pow(2, n) == 2 * Pow(2, n - 1)
  {}

  lemma SmallOctave(w: nat, k: nat)
    requires 8 <= w <= MAX_WORDS && Highest(w - 1, k)
    ensures k <= 18
  {
    PowersHigh();
    if k > 18 { PowMono(2, 19, k); }
  }

  /** Exactly the requests of at most 524288 words get a class of the table. */
  lemma InTableIff(w: nat)
    requires w < 0x1_0000_0000_0000_0000
    ensures WordsToClass(w) < HUGE <==> w <= MAX_WORDS
  {
    if w == 0 {
    } else if w <= MAX_WORDS {
      ClassBrackets(w);
    } else {
      var k, q := Octave(w);
      PowersHigh();
      if k < 19 { PowMono(2, k + 1, 19); }
    }
  }

  // ------------------------------------------------------------------ the promises

  predicate Regular(size: nat) {
    size <= MAX_WORDS * WORD_SIZE
  }

  /** size_to_class gives the least class whose size holds the request, and by the table's sizes less
      than a quarter of the rounded request is slack. */
  lemma LeastClass(size: nat, d: nat)
    requires Regular(size) && d < HUGE
    ensures SizeToClass(size) < HUGE && size <= ClassToSize(SizeToClass(size))
    ensures d < SizeToClass(size) ==> ClassToSize(d) < size
    ensures size > 0 ==> 4 * (ClassToSize(SizeToClass(size)) - WordsFor(size) * WORD_SIZE) < WordsFor(size) * WORD_SIZE
  {
    var w := WordsFor(size);
    if w > 0 {
      ClassBrackets(w);
      var c := WordsToClass(w);
      hide WordsToClass, ClassWords;
      if d < c {
        TableMono(d, c - 1);
      }
    }
  }

  lemma Monotone(s: nat, t: nat)
    requires s <= t && Regular(t)
    ensures SizeToClass(s) <= SizeToClass(t) < HUGE && ClassToSize(SizeToClass(s)) <= ClassToSize(SizeToClass(t))
  {
    LeastClass(t, 0);
    LeastClass(s, SizeToClass(t));
    TableMono(SizeToClass(s), SizeToClass(t));
  }

  /** A class's own size is in that class, so rounding up twice is rounding up once. */
  lemma RoundUpIdempotent(size: nat)
    requires Regular(size)
    ensures SizeToClass(size) < HUGE
    ensures var r := ClassToSize(SizeToClass(size));
            Regular(r) && SizeToClass(r) < HUGE && ClassToSize(SizeToClass(r)) == r
  {
    LeastClass(size, 0);
    var c := SizeToClass(size);
    ClassIsItsOwn(c);
  }

  lemma ClassIsItsOwn(c: nat)
    requires c < HUGE
    ensures Regular(ClassToSize(c)) && SizeToClass(ClassToSize(c)) == c
  {
    TableMono(c, 71);
    hide SizeToClass;
    LeastClass(ClassToSize(c), c);
    var d := SizeToClass(ClassToSize(c));
    if d < c {
      TableMono(d, c - 1);
      TableIncreases(c - 1);
    }
  }
}
