/** The digit loops of dtoa_r in runtime/stub/dtoa.c, on Bigints. */
module DigitLoops {
  import opened Words
  import opened BigintArithmetic
  import opened QuoremStep
  import opened Decimal

  // ------------------------------------------------------------------ roundoff

  /** Adds one in the last place: nines at the end are dropped and the digit before them raised; if
      every digit is a nine, the string becomes "1" and the exponent goes up. */
  method Roundoff(buf: seq<nat>, k: int) returns (s: seq<nat>, k': int)
    requires |buf| > 0 && Digits(buf)
    ensures Digits(s) && 0 < |s| <= |buf|
    ensures k' == if Dec(buf) + 1 == Pow(10, |buf|) then k + 1 else k
    ensures Scaled(s, k' - k, |buf|) == Dec(buf) + 1
  {
    var n := |buf|;
    AllDigits(buf);
    DecBound(buf);
    while true
      invariant 0 < n <= |buf|
      invariant forall i :: n <= i < |buf| ==> buf[i] == 9
      invariant Dec(buf) + 1 == RaisedAt(buf, n)
      decreases n
    {
      DropDigit(buf, n);
      n := n - 1;
      if buf[n] != 9 {
        return buf[..n] + [buf[n] + 1], k;
      }
      if n == 0 {
        AllNines(|buf|);
        return [1], k + 1;
      }
    }
  }

  lemma AllDigits(buf: seq<nat>)
    ensures Dec(buf) + 1 == RaisedAt(buf, |buf|)
  {
    assert buf[..|buf|] == buf;
    assert Pow(10, 0) == 1;
  }

  lemma AllNines(n: nat)
    ensures n > 0 ==> Scaled([1], 1, n) == Pow(10, n)
  {
    DecAppend([], 1);
    assert [] + [1] == [1];
  }

  /** The first m digits of buf raised by one in the last place, at the scale of buf. */
  ghost function RaisedAt(buf: seq<nat>, m: nat): nat
    requires m <= |buf|
  {
    (Dec(buf[..m]) + 1) * Pow(10, |buf| - m)
  }

  lemma DropDigit(buf: seq<nat>, m: nat)
    requires 0 < m <= |buf|
    ensures buf[m - 1] == 9 ==> RaisedAt(buf, m) == RaisedAt(buf, m - 1)
    ensures buf[m - 1] != 9 ==> RaisedAt(buf, m) == Dec(buf[..m - 1] + [buf[m - 1] + 1]) * Pow(10, |buf| - m)
    ensures RaisedAt(buf, 0) == Pow(10, |buf|)
  {
    var t := buf[..m - 1];
    assert buf[..m] == t + [buf[m - 1]];
    DecAppend(t, buf[m - 1]);
    DecAppend(t, buf[m - 1] + 1);
    var p := Pow(10, |buf| - m);
    assert Pow(10, |buf| - (m - 1)) == 10 * p;
    MulAssoc(Dec(t) + 1, 10, p);
    MulCommutes(Dec(t) + 1, 10);
    assert buf[..0] == [];
  }

  /** Trailing zeros are removed from the result. */
  method StripTrailingZeros(buf: seq<nat>, ghost e: nat, ghost n: nat) returns (s: seq<nat>)
    requires Digits(buf) && |buf| <= e + n
    ensures Digits(s) && |s| <= |buf|
    ensures Scaled(s, e, n) == Scaled(buf, e, n)
    ensures s != [] ==> s[|s| - 1] != 0
  {
    s := buf;
    while |s| > 0 && s[|s| - 1] == 0
      invariant Digits(s) && |s| <= |buf|
      invariant Scaled(s, e, n) == Scaled(buf, e, n)
    {
      ScaledStrip(s, e, n);
      s := s[..|s| - 1];
    }
  }

  // ------------------------------------------------------------------ free format

  /** What one turn of the free-format loop decides about its digit. */
  datatype Choice = Continue | Keep | Up

  lemma NonzeroHasWords(b: Bigint)
    requires b.Valid() && b.Value() > 0
    ensures b.wds > 0
  {}

  /** Twice the number: the shift by one before the last comparison. */
  method Double(b: Bigint) returns (b2: Bigint)
    requires b.Valid() && b.wds > 0
    ensures fresh(b2) && fresh(b2.x) && b2.Valid() && b2.wds > 0
    ensures b2.Value() == 2 * b.Value()
  {
    b2 := LShift(b, 1);
    assert Pow(2, 1) == 2;
  }

  /** What the choice may be, given the remainder r, the distance d to the next decimal above, and
      the half-gaps lo and hi: keep the digit or raise it only inside the interval, and the nearer
      way when both are inside (save a nine raised exactly onto the end point), the even one when both
      are as near (save where both are end points). */
  predicate Sound(c: Choice, r: int, d: int, lo: int, hi: int, closed: bool, dig: nat) {
    && (c.Continue? <==> !Within(r, lo, closed) && !Within(d, hi, closed))
    && (c.Keep? ==> Within(r, lo, closed) && (!Within(d, hi, closed) || r <= d))
    && (c.Up? ==> Within(d, hi, closed) && (!Within(r, lo, closed) || r >= d || (dig == 9 && closed && d == hi)))
    && (r == d && Within(r, lo, closed) && Within(d, hi, closed) && !(r == lo == hi) ==>
          (c.Keep? <==> dig % 2 == 0) && (c.Up? <==> dig % 2 == 1))
  }

  /** The two comparisons every turn starts with. The second one is off by the zero rule of Cmp only
      when the remainder is zero. */
  method CompareGaps(b: Bigint, S: Bigint, mlo: Bigint, mhi: Bigint) returns (j: int, j1: int)
    requires b.Valid() && S.Valid() && mlo.Valid() && mhi.Valid()
    requires S.wds > 0 && mlo.wds > 0 && mhi.wds > 0 && mlo.Value() > 0
    ensures (j < 0 <==> b.Value() < mlo.Value()) && (j == 0 <==> b.Value() == mlo.Value())
    ensures j1 > 0 <==> S.Value() - b.Value() < mhi.Value()
    ensures j1 == 0 ==> S.Value() - b.Value() == mhi.Value()
    ensures j1 < 0 && S.Value() - b.Value() == mhi.Value() ==> b.Value() == 0
  {
    hide Bigint.Value, Val, Pow;
    j := Cmp(b, mlo);
    var delta := Diff(S, mhi);
    j1 := 1;
    if !delta.sign {
      j1 := Cmp(b, delta);
    }
  }

  /** The comparisons of one turn, after quorem has left the remainder in b. */
  method Choose(b: Bigint, S: Bigint, mlo: Bigint, mhi: Bigint, dig: nat, even: bool, mode: nat) returns (c: Choice)
    requires b.Valid() && S.Valid() && mlo.Valid() && mhi.Valid()
    requires S.wds > 0 && mlo.wds > 0 && mhi.wds > 0
    requires b.Value() < S.Value() && 0 < mlo.Value() <= mhi.Value()
    ensures Sound(c, b.Value(), S.Value() - b.Value(), mlo.Value(), mhi.Value(), even && mode != 1, dig)
  {
    hide Val, Pow;
    ZeroRemainder(b);
    var j, j1 := CompareGaps(b, S, mlo, mhi);
    if j1 == 0 && mode != 1 && even {
      if dig == 9 || j > 0 {
        return Up;
      }
      return Keep;
    }
    if j < 0 || (j == 0 && mode != 1 && even) {
      if b.x[0] == 0 && b.wds <= 1 {
        return Keep;
      }
      if j1 > 0 {
        var b2 := Double(b);
        j1 := Cmp(b2, S);
        if j1 > 0 || (j1 == 0 && dig % 2 == 1) {
          return Up;
        }
      }
      return Keep;
    }
    if j1 > 0 {
      return Up;
    }
    return Continue;
  }

  lemma ZeroRemainder(b: Bigint)
    requires b.Valid()
    ensures b.x[0] == 0 && b.wds <= 1 <==> b.Value() == 0
  {
    ValZero(b.x[..], b.wds);
  }

  // ------------------------------------------------------------------ the loops

  /** The numbers in play when digit n is about to be taken off: b is what is left of 10^(n-1)*b0
      after the digits s, times one digit place. */
  ghost predicate BeforeDigit(t: Target, n: nat, s: seq<nat>, b: int)
    requires n > 0
  {
    |s| == n - 1 && Digits(s) && 0 <= b < 10 * t.S && Pow(10, n - 1) * t.b0 == 10 * (Dec(s) * t.S) + b
  }

  lemma FirstDigit(t: Target)
    requires t.Valid()
    ensures BeforeDigit(t, 1, [], t.b0) && t.b0 < 10 * t.S
    ensures t.NoneShorter(1)
    ensures t.LowGap(1) == t.mlo0 && t.HighGap(1) == t.mhi0
  {
    assert Pow(10, 0) == 1;
  }

  /** quorem's digit and remainder cut the number off one digit later. */
  lemma TakeDigit(t: Target, n: nat, s: seq<nat>, b: nat, dig: nat, r: nat)
    requires t.Valid() && n > 0 && BeforeDigit(t, n, s, b) && Digits(s)
    requires b == t.S * dig + r && r < t.S && dig <= 9
    ensures Digits(s + [dig])
    ensures t.CutOff(n, Dec(s + [dig]), r)
    ensures Dec(s + [dig]) % 10 == dig
  {
    DecAppend(s, dig);
    MulCommutes(t.S, dig);
    MulAssoc(10, Dec(s), t.S);
    MulDistributes(10 * Dec(s), dig, t.S);
  }

  /** Ten times the remainder is ready for the next digit. */
  lemma ReadyForNext(t: Target, n: nat, s: seq<nat>, r: nat)
    requires t.Valid() && n > 0 && |s| == n && Digits(s) && t.CutOff(n, Dec(s), r)
    ensures BeforeDigit(t, n + 1, s, r * 10)
    ensures t.LowGap(n + 1) == t.LowGap(n) * 10 && t.HighGap(n + 1) == t.HighGap(n) * 10
  {
    assert Pow(10, n) == 10 * Pow(10, n - 1);
    MulAssoc(10, Pow(10, n - 1), t.b0);
    MulAssoc(10, Pow(10, n - 1), t.mlo0);
    MulAssoc(10, Pow(10, n - 1), t.mhi0);
  }

  /** If the loop goes on, no decimal of this length is in range either. */
  lemma NoneOfThisLength(t: Target, n: nat, s: seq<nat>, dig: nat, r: nat)
    requires t.Valid() && n > 0 && t.CutOff(n, Dec(s + [dig]), r) && t.NoneShorter(n)
    requires Sound(Continue, r, t.S - r, t.LowGap(n), t.HighGap(n), t.closed, dig)
    ensures t.NoneShorter(n + 1)
  {
    t.OnlyNeighbours(n, Dec(s + [dig]), r);
    forall m, N: int | 0 < m < n + 1 ensures !t.InRange(m, N) {}
  }

  /** Storing the last digit, raised or not, with roundoff's carry when it was a nine. */
  method StoreLast(s: seq<nat>, dig: nat, up: bool, k: int) returns (s': seq<nat>, k': int)
    requires Digits(s) && dig <= 9
    ensures Digits(s') && 0 < |s'| <= |s| + 1 && k <= k' <= k + 1
    ensures Scaled(s', k' - k, |s| + 1) == if up then Dec(s + [dig]) + 1 else Dec(s + [dig])
    ensures k' == k + 1 ==> Scaled(s', 1, |s| + 1) == Pow(10, |s| + 1)
  {
    if up && dig == 9 {
      s', k' := Roundoff(s + [9], k);
    } else {
      s', k' := s + [if up then dig + 1 else dig], k;
      DecAppend(s, dig);
      DecAppend(s, dig + 1);
      ScaledExact(s');
    }
  }

  /** A first digit nine, less than half a unit from the upper end's digit, would be raised exactly onto
      the closed upper end. */
  ghost predicate NineOntoEnd(t: Target) {
    t.closed && 9 * t.S <= t.b0 && 10 * t.S - t.b0 == t.mhi0 && t.S < 2 * t.mhi0
  }

  /** b is 2j + 1 half-gaps h. */
  ghost predicate IsOddMultiple(b: nat, h: nat, j: nat) {
    b == (2 * j + 1) * h
  }

  /** A number in the middle between two decimals that are both end points of its interval. */
  ghost predicate BothEnds(t: Target) {
    t.mlo0 == t.mhi0 && exists j: nat :: IsOddMultiple(t.b0, t.mhi0, j)
  }

  /** What free-format conversion promises when it stops by itself after n digits: the decimal lies
      in the interval, no shorter one does, none of n digits in the interval is nearer, unless the
      numbers it started from have a first digit nine of that kind, and if another is as near, the
      decimal is even, unless both are end points. */
  ghost predicate Shortest(t: Target, n: nat, M: int)
    requires n > 0
  {
    && t.InRange(n, M)
    && t.NoneShorter(n)
    && t.NotCutBelow(n, M)
    && (t.NearestInRange(n, M) || (n == 1 && M == 10 && NineOntoEnd(t)))
    && (t.TieIsEven(n, M) || BothEnds(t))
  }

  lemma StopsShortest(t: Target, n: nat, s: seq<nat>, dig: nat, r: nat, c: Choice)
    requires t.Valid() && n > 0 && |s| == n - 1 && dig <= 9
    requires t.CutOff(n, Dec(s + [dig]), r) && t.NoneShorter(n)
    requires !c.Continue?
    requires Sound(c, r, t.S - r, t.LowGap(n), t.HighGap(n), t.closed, dig)
    ensures Shortest(t, n, if c.Up? then Dec(s + [dig]) + 1 else Dec(s + [dig]))
  {
    hide Target.NoneShorter, Target.InRange, Target.NearestInRange, Target.CutOff, Target.NotCutBelow, Target.TieIsEven;
    hide Pow, Dec, BothEnds, NineOntoEnd, Sound, Target.LowGap, Target.HighGap, Target.Valid;
    DecAppend(s, dig);
    StopsNearest(t, n, Dec(s + [dig]), dig, r, c);
    TieBroken(t, n, Dec(s + [dig]), r, dig, c);
  }

  lemma StopsNearest(t: Target, n: nat, D: nat, dig: nat, r: nat, c: Choice)
    requires t.Valid() && n > 0 && t.CutOff(n, D, r) && D % 10 == dig && t.NoneShorter(n) && !c.Continue?
    requires Sound(c, r, t.S - r, t.LowGap(n), t.HighGap(n), t.closed, dig)
    ensures var M := if c.Up? then D + 1 else D;
            && t.InRange(n, M) && t.NotCutBelow(n, M)
            && (t.NearestInRange(n, M) || (n == 1 && M == 10 && NineOntoEnd(t)))
  {
    hide Target.NoneShorter, Target.InRange, Target.NearestInRange;
    t.OnlyNeighbours(n, D, r);
    CutIsNotBelow(t, n, D, r);
    if c.Up? && t.LowOk(n, r) && r < t.S - r {
      NineAtEnd(t, n, D, r);
    } else {
      t.StopNearest(n, D, r, c.Up?);
    }
    hide Target.CutOff, Target.NotCutBelow, Pow;
  }

  lemma TieBroken(t: Target, n: nat, D: nat, r: nat, dig: nat, c: Choice)
    requires t.Valid() && n > 0 && t.CutOff(n, D, r) && D % 10 == dig && !c.Continue?
    requires Sound(c, r, t.S - r, t.LowGap(n), t.HighGap(n), t.closed, dig)
    ensures t.TieIsEven(n, if c.Up? then D + 1 else D) || BothEnds(t)
  {
    hide Target.CutOff, Target.TieIsEven, BothEnds, Pow;
    if r == t.S - r && r == t.LowGap(n) == t.HighGap(n) {
      MiddleOfEnds(t, n, D, r);
    } else {
      GapPositive(t, n);
      CutBelow(t, n, D, r);
      hide Target.LowGap, Target.HighGap, Target.Valid;
      t.TieAtNeighbours(n, D, r, c.Up?);
    }
  }

  lemma GapPositive(t: Target, n: nat)
    requires t.Valid() && n > 0
    ensures t.LowGap(n) > 0
  {
    PowPositive(10, n - 1);
    MulPositive(Pow(10, n - 1), t.mlo0);
  }

  lemma CutBelow(t: Target, n: nat, D: nat, r: nat)
    requires n > 0 && t.CutOff(n, D, r)
    ensures r < t.S
  {}

  /** Then the number is an odd number of half-gaps. */
  lemma MiddleOfEnds(t: Target, n: nat, D: nat, r: nat)
    requires t.Valid() && n > 0 && t.CutOff(n, D, r)
    requires r == t.S - r && r == t.LowGap(n) == t.HighGap(n)
    ensures BothEnds(t)
  {
    var P := Pow(10, n - 1);
    PowPositive(10, n - 1);
    MulCommutes(P, t.mlo0);
    MulCommutes(P, t.mhi0);
    MulCommutes(P, t.b0);
    MulCancelEq(t.mlo0, t.mhi0, P);
    assert t.S == 2 * r;
    calc {
      t.b0 * P;
      D * (2 * r) + r;
      { MulAssoc(D, 2, r); MulCommutes(D, 2); MulDistributes(2 * D, 1, r); }
      (2 * D + 1) * r;
      (2 * D + 1) * (t.mhi0 * P);
      { MulAssoc(2 * D + 1, t.mhi0, P); }
      (2 * D + 1) * t.mhi0 * P;
    }
    MulCancelEq(t.b0, (2 * D + 1) * t.mhi0, P);
    assert IsOddMultiple(t.b0, t.mhi0, D);
  }

  lemma CutIsNotBelow(t: Target, n: nat, D: nat, r: nat)
    requires t.Valid() && n > 0 && t.CutOff(n, D, r)
    ensures t.NotCutBelow(n, D) && t.NotCutBelow(n, D + 1)
  {
    MulDistributes(D, 1, t.S);
    MulDistributes(D + 1, 1, t.S);
  }

  lemma NineAtEnd(t: Target, n: nat, D: nat, r: nat)
    requires t.Valid() && n > 0 && t.CutOff(n, D, r) && D % 10 == 9 && t.closed && t.S - r == t.HighGap(n)
             && t.NoneShorter(n)
    requires r < t.S - r
    ensures n == 1 && D == 9 && NineOntoEnd(t)
  {
    t.NineAtEndIsFirst(n, D, r);
    assert Pow(10, 0) == 1;
    hide Target.NoneShorter;
  }

  /** Nothing written through one of the four numbers is seen through another; mlo and mhi may be
      the same number. */
  ghost predicate Separate(b: Bigint, S: Bigint, mlo: Bigint, mhi: Bigint) {
    && Apart(b, S) && Apart(mlo, S) && Apart(mhi, S)
    && Apart(b, mlo) && Apart(b, mhi)
    && (mlo == mhi || Apart(mlo, mhi))
  }

  ghost predicate Ready(b: Bigint, S: Bigint, mlo: Bigint, mhi: Bigint)
    reads b, b.x, S, S.x, mlo, mlo.x, mhi, mhi.x
  {
    b.Valid() && Normalised(S) && mlo.Valid() && mhi.Valid() && mlo.wds > 0 && mhi.wds > 0
  }

  /** Multiplies by ten for the next digit; mlo and mhi stay one number if they were one. */
  method TimesTen(b0: Bigint, S: Bigint, mlo0: Bigint, mhi0: Bigint) returns (b: Bigint, mlo: Bigint, mhi: Bigint)
    requires Separate(b0, S, mlo0, mhi0) && Ready(b0, S, mlo0, mhi0)
    modifies b0, b0.x, mlo0, mlo0.x, mhi0, mhi0.x
    ensures Separate(b, S, mlo, mhi) && Ready(b, S, mlo, mhi)
    ensures b == b0 || (fresh(b) && fresh(b.x))
    ensures mlo == mlo0 || (fresh(mlo) && fresh(mlo.x))
    ensures mhi == mhi0 || (fresh(mhi) && fresh(mhi.x))
    ensures b.Value() == old(b0.Value()) * 10 && S.Value() == old(S.Value())
    ensures mlo.Value() == old(mlo0.Value()) * 10 && mhi.Value() == old(mhi0.Value()) * 10
  {
    hide Bigint.Value, Val, Pow;
    b := MultAdd(b0, 10, 0);
    if mlo0 == mhi0 {
      mhi := MultAdd(mhi0, 10, 0);
      mlo := mhi;
    } else {
      mlo := MultAdd(mlo0, 10, 0);
      mhi := MultAdd(mhi0, 10, 0);
    }
  }

  /** The comparison that rounds off the last digit of a conversion of limited length. */
  method RoundUpLast(b: Bigint, S: Bigint, dig: nat) returns (up: bool)
    requires b.Valid() && S.Valid() && S.wds > 0 && b.wds > 0
    requires S.Value() > 0
    ensures up <==> 2 * b.Value() > S.Value() || (2 * b.Value() == S.Value() && dig % 2 == 1)
  {
    var b2 := Double(b);
    var j := Cmp(b2, S);
    up := j > 0 || (j == 0 && dig % 2 == 1);
  }

  /** The last rounding: the digits s, raised in the last place if `up`. */
  method RoundLast(s: seq<nat>, up: bool, k: int, ghost t: Target, ghost n: nat, ghost r: nat)
      returns (s': seq<nat>, k': int)
    requires t.Valid() && |s| == n > 0 && Digits(s) && t.CutOff(n, Dec(s), r)
    requires up <==> 2 * r > t.S || (2 * r == t.S && s[n - 1] % 2 == 1)
    ensures Digits(s') && 0 < |s'| <= n && k <= k' <= k + 1
    ensures t.RoundedToEven(n, Scaled(s', k' - k, n))
    ensures k' == k + 1 <==> Scaled(s', k' - k, n) == Pow(10, n)
  {
    LastDigitParity(s);
    t.HalfEven(n, Dec(s), r, up);
    DecBound(s);
    s', k' := s, k;
    if up {
      s', k' := Roundoff(s, k);
    } else {
      ScaledExact(s);
    }
  }

  lemma LastDigitParity(s: seq<nat>)
    requires s != []
    ensures Dec(s) % 2 == s[|s| - 1] % 2
  {}

  lemma ExactStop(t: Target, n: nat, s: seq<nat>, m: nat)
    requires t.Valid() && 0 < n <= m && |s| == n && Digits(s) && t.CutOff(n, Dec(s), 0)
    ensures t.RoundedToEven(m, Scaled(s, 0, m)) && Scaled(s, 0, m) < Pow(10, m)
  {
    t.ExactRounds(n, Dec(s), m);
    DecBound(s);
    PowAdd(10, n, m - n);
    PowPositive(10, m - n);
    MulMonoStrict(Dec(s), Pow(10, n), Pow(10, m - n));
  }

  /** The state in which digit n is about to be taken off. */
  ghost predicate LoopState(t: Target, n: nat, s: seq<nat>, b: Bigint, S: Bigint, mlo: Bigint, mhi: Bigint)
    requires n > 0
    reads b, b.x, S, S.x, mlo, mlo.x, mhi, mhi.x
  {
    && t.Valid() && Ready(b, S, mlo, mhi)
    && S.Value() == t.S && mlo.Value() == t.LowGap(n) && mhi.Value() == t.HighGap(n)
    && 0 < mlo.Value() <= mhi.Value()
    && |s| == n - 1 && Digits(s) && BeforeDigit(t, n, s, b.Value())
    && t.NoneShorter(n)
  }

  /** The state after a turn that does not stop the loop. */
  ghost predicate TurnDone(t: Target, n: nat, s: seq<nat>, b: Bigint, S: Bigint, mlo: Bigint, mhi: Bigint)
    requires n > 0
    reads b, b.x, S, S.x, mlo, mlo.x, mhi, mhi.x
  {
    && t.Valid() && Ready(b, S, mlo, mhi)
    && S.Value() == t.S && mlo.Value() == t.LowGap(n) && mhi.Value() == t.HighGap(n)
    && 0 < mlo.Value() <= mhi.Value() && mlo.Value() <= b.Value() < t.S
    && |s| == n && Digits(s) && b.wds > 0 && t.CutOff(n, Dec(s), b.Value())
    && t.NoneShorter(n + 1)
  }

  /** Takes off one digit and decides about it. */
  method Turn(b: Bigint, S: Bigint, mlo: Bigint, mhi: Bigint, even: bool, mode: nat, ghost t: Target, ghost n: nat,
              ghost s: seq<nat>)
      returns (dig: nat, c: Choice)
    requires Separate(b, S, mlo, mhi) && n > 0 && LoopState(t, n, s, b, S, mlo, mhi)
    requires t.closed == (even && mode != 1)
    modifies b, b.x
    ensures dig <= 9
    ensures !c.Continue? ==> Shortest(t, n, if c.Up? then Dec(s + [dig]) + 1 else Dec(s + [dig]))
    ensures c.Continue? ==> TurnDone(t, n, s + [dig], b, S, mlo, mhi)
  {
    hide Target.CutOff, Target.LowGap, Target.HighGap, Target.NoneShorter, Target.RoundedToEven, Shortest, Dec;
    hide Bigint.Value, Val, Pow;
    ghost var v := b.Value();
    dig := Quorem(b, S);
    TakeDigit(t, n, s, v, dig, b.Value());
    c := Choose(b, S, mlo, mhi, dig, even, mode);
    if c == Continue {
      NoneOfThisLength(t, n, s, dig, b.Value());
      NonzeroHasWords(b);
    } else {
      StopsShortest(t, n, s, dig, b.Value(), c);
    }
  }

  /** Makes everything ready for the next digit. */
  method NextTurn(b0: Bigint, S: Bigint, mlo0: Bigint, mhi0: Bigint, ghost t: Target, ghost n: nat, ghost s: seq<nat>)
      returns (b: Bigint, mlo: Bigint, mhi: Bigint)
    requires Separate(b0, S, mlo0, mhi0) && n > 0 && TurnDone(t, n, s, b0, S, mlo0, mhi0)
    modifies b0, b0.x, mlo0, mlo0.x, mhi0, mhi0.x
    ensures Separate(b, S, mlo, mhi) && LoopState(t, n + 1, s, b, S, mlo, mhi)
    ensures b == b0 || (fresh(b) && fresh(b.x))
    ensures mlo == mlo0 || (fresh(mlo) && fresh(mlo.x))
    ensures mhi == mhi0 || (fresh(mhi) && fresh(mhi.x))
    ensures mlo.Valid() && mlo.Value() == 10 * old(mlo0.Value())
  {
    hide Target.CutOff, Target.LowGap, Target.HighGap, Target.NoneShorter, Dec;
    ReadyForNext(t, n, s, b0.Value());
    b, mlo, mhi := TimesTen(b0, S, mlo0, mhi0);
  }

  /** The left-right loop: digits are produced until the string read back gives the same double. In
      modes 0 and 1 there is no limit (ilim < 0); modes 4 and 5 stop at ilim digits and round. */
  method FreeDigits(b0: Bigint, S: Bigint, mlo0: Bigint, mhi0: Bigint, even: bool, mode: nat, ilim: int, k0: int,
                    ghost t: Target)
      returns (s: seq<nat>, k: int, ghost n: nat, ghost limited: bool)
    requires Separate(b0, S, mlo0, mhi0) && Ready(b0, S, mlo0, mhi0)
    requires t == Target(b0.Value(), S.Value(), mlo0.Value(), mhi0.Value(), even && mode != 1) && t.Valid()
    modifies b0, b0.x, mlo0, mlo0.x, mhi0, mhi0.x
    ensures n > 0 && Digits(s) && 0 < |s| <= n && k0 <= k <= k0 + 1
    ensures limited ==> n == ilim && t.NoneShorter(n + 1) && t.RoundedToEven(n, Scaled(s, k - k0, n))
    ensures !limited ==> Shortest(t, n, Scaled(s, k - k0, n))
    ensures !limited && k == k0 + 1 ==> Scaled(s, 1, n) == Pow(10, n)
    ensures ilim < 0 ==> !limited
  {
    hide LoopState, Bigint.Value, Val, Pow, Shortest, Target.NoneShorter, Target.RoundedToEven, Scaled, Dec;
    var b, mlo, mhi := b0, mlo0, mhi0;
    s, k := [], k0;
    var i := 1;
    n := 1;
    StartState(t, b, S, mlo, mhi);
    while true
      invariant n == i == |s| + 1 && Digits(s)
      invariant Separate(b, S, mlo, mhi) && LoopState(t, n, s, b, S, mlo, mhi)
      invariant b == b0 || (fresh(b) && fresh(b.x))
      invariant mlo == mlo0 || (fresh(mlo) && fresh(mlo.x))
      invariant mhi == mhi0 || (fresh(mhi) && fresh(mhi.x))
      invariant mlo.Valid() && mlo.Value() > 0
      decreases t.S - mlo.Value()
    {
      var dig, c := Turn(b, S, mlo, mhi, even, mode, t, n, s);
      if c != Continue {
        s, k := StoreLast(s, dig, c == Up, k0);
        limited := false;
        return;
      }
      s := s + [dig];
      if i == ilim {
        var up := RoundUpLast(b, S, dig);
        s, k := RoundLast(s, up, k0, t, i, b.Value());
        limited := true;
        return;
      }
      b, mlo, mhi := NextTurn(b, S, mlo, mhi, t, n, s);
      i := i + 1;
      n := i;
    }
  }

  lemma StartState(t: Target, b: Bigint, S: Bigint, mlo: Bigint, mhi: Bigint)
    requires Ready(b, S, mlo, mhi) && t.Valid()
    requires t == Target(b.Value(), S.Value(), mlo.Value(), mhi.Value(), t.closed)
    ensures LoopState(t, 1, [], b, S, mlo, mhi)
  {
    FirstDigit(t);
  }

  /** The loop of modes 2 and 3: ilim digits, or fewer if the number terminates, then rounding. */
  method FixedDigits(b0: Bigint, S: Bigint, ilim: nat, k0: int, ghost t: Target) returns (s: seq<nat>, k: int)
    requires Apart(b0, S) && b0.Valid() && Normalised(S) && ilim > 0
    requires t.Valid() && t.b0 == b0.Value() && t.S == S.Value()
    modifies b0, b0.x
    ensures Digits(s) && 0 < |s| <= ilim && k0 <= k <= k0 + 1
    ensures t.RoundedToEven(ilim, Scaled(s, k - k0, ilim))
    ensures k == k0 + 1 <==> Scaled(s, k - k0, ilim) == Pow(10, ilim)
  {
    hide BeforeDigit, Target.CutOff, Target.RoundedToEven, Scaled, Dec;
    var b := b0;
    s, k := [], k0;
    FirstDigit(t);
    var i := 1;
    while true
      invariant i == |s| + 1 && i <= ilim
      invariant Apart(b, S) && b.Valid() && Normalised(S)
      invariant b == b0 || (fresh(b) && fresh(b.x))
      invariant S.Value() == t.S && BeforeDigit(t, i, s, b.Value()) && Digits(s) && b.Value() < 10 * t.S
      decreases ilim - i
    {
      ghost var v := b.Value();
      var dig := Quorem(b, S);
      TakeDigit(t, i, s, v, dig, b.Value());
      s := s + [dig];
      ZeroRemainder(b);
      if b.x[0] == 0 && b.wds <= 1 {
        ExactStop(t, i, s, ilim);
        return;
      }
      if i >= ilim {
        break;
      }
      ReadyForNext(t, i, s, b.Value());
      b := MultAdd(b, 10, 0);
      i := i + 1;
    }
    var up := RoundUpLast(b, S, s[|s| - 1]);
    s, k := RoundLast(s, up, k0, t, i, b.Value());
  }
}
