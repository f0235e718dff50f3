/** Decimal strings, the interval of numbers that read back as one double, and what the digit
    loops of dtoa_r promise. Everything is scaled to integers: the number being printed is b0/S,
    in units of the first digit. */
module Decimal {
  import opened Words

  ghost predicate Digits(s: seq<nat>) {
    forall i :: 0 <= i < |s| ==> s[i] <= 9
  }

  /** The number a string of digits denotes. */
  function Dec(s: seq<nat>): nat {
    if s == [] then 0 else 10 * Dec(s[..|s| - 1]) + s[|s| - 1]
  }

  lemma DecAppend(s: seq<nat>, d: nat)
    ensures Dec(s + [d]) == 10 * Dec(s) + d
  {
    assert (s + [d])[..|s|] == s;
  }

  /** A string of n digits stays below 10^n, and reaches it plus one only with nines throughout. */
  lemma {:induction false} DecBound(s: seq<nat>)
    requires Digits(s)
    ensures Dec(s) < Pow(10, |s|)
    ensures Dec(s) + 1 == Pow(10, |s|) <==> forall i :: 0 <= i < |s| ==> s[i] == 9
  {
    if s != [] {
      var t := s[..|s| - 1];
      DecBound(t);
      assert forall i :: 0 <= i < |t| ==> t[i] == s[i];
    }
  }

  /** The number denoted by the digits s when the first digit has weight 10^e, in units of
      10^(1-n). */
  function Scaled(s: seq<nat>, e: nat, n: nat): nat
    requires |s| <= e + n
  {
    Dec(s) * Pow(10, e + n - |s|)
  }

  lemma ScaledExact(s: seq<nat>)
    ensures Scaled(s, 0, |s|) == Dec(s)
  {}

  /** Trailing zeros may be dropped. */
  lemma {:induction false} ScaledStrip(s: seq<nat>, e: nat, n: nat)
    requires 0 < |s| <= e + n && s[|s| - 1] == 0
    ensures Scaled(s[..|s| - 1], e, n) == Scaled(s, e, n)
  {
    var t := s[..|s| - 1];
    assert Pow(10, e + n - |t|) == 10 * Pow(10, e + n - |s|);
    MulAssoc(Dec(t), 10, Pow(10, e + n - |s|));
  }

  /** A string whose number reaches its first place does not start with a zero. */
  lemma LeadingDigit(s: seq<nat>, e: nat, n: nat)
    requires Digits(s) && n > 0 && |s| <= n && Pow(10, n - 1) <= Scaled(s, e, n)
    requires e == 0 || (e == 1 && Scaled(s, 1, n) == Pow(10, n))
    ensures s != [] && s[0] != 0
  {
    PowPositive(10, n - 1);
    if s != [] && s[0] == 0 {
      DecTail(s);
      DecBound(s[1..]);
      var p := Pow(10, e + n - |s|);
      PowPositive(10, e + n - |s|);
      PowAdd(10, |s| - 1, e + n - |s|);
      MulMonoStrict(Dec(s), Pow(10, |s| - 1), p);
    }
  }

  lemma {:induction false} DecTail(s: seq<nat>)
    requires s != [] && s[0] == 0
    ensures Dec(s) == Dec(s[1..])
  {
    if |s| == 1 {
      assert s == [] + [0] && s[..0] == [];
    } else {
      var n := |s| - 1;
      DecTail(s[..n]);
      assert s[1..][..n - 1] == s[..n][1..];
    }
  }

  /** A distance that stays inside a half-gap. */
  predicate Within(distance: int, gap: int, closed: bool) {
    distance < gap || (distance == gap && closed)
  }

  /** A number and the interval around it: b0/S with half-gaps mlo0/S and mhi0/S to the neighbouring
      doubles. The end points belong to the interval when `closed`. */
  datatype Target = Target(b0: nat, S: nat, mlo0: nat, mhi0: nat, closed: bool) {

    ghost predicate Valid() {
      0 < S && b0 < 10 * S && 0 < mlo0 <= mhi0
    }

    /** N * 10^(1-n) lies in the interval. */
    ghost predicate InRange(n: nat, N: int)
      requires n > 0
    {
      var P := Pow(10, n - 1);
      if closed then P * b0 - P * mlo0 <= N * S <= P * b0 + P * mhi0
      else P * b0 - P * mlo0 < N * S < P * b0 + P * mhi0
    }

    /** No decimal with fewer than n digits lies in the interval. */
    ghost predicate NoneShorter(n: nat) {
      forall m, N: int {:trigger InRange(m, N)} :: 0 < m < n ==> !InRange(m, N)
    }

    /** Twice the distance from N * 10^(1-n), scaled. */
    ghost function Distance(n: nat, N: int): nat
      requires n > 0
    {
      var d := Pow(10, n - 1) * b0 - N * S;
      if d < 0 then -d else d
    }

    /** No n-digit decimal in the interval is nearer. */
    ghost predicate NearestInRange(n: nat, M: int)
      requires n > 0
    {
      forall N: int {:trigger InRange(n, N)} :: InRange(n, N) ==> Distance(n, M) <= Distance(n, N)
    }

    /** Of two equally near ones M is the even one. */
    ghost predicate TieIsEven(n: nat, M: int)
      requires n > 0
    {
      forall N: int {:trigger InRange(n, N)} ::
        InRange(n, N) && N != M && Distance(n, N) == Distance(n, M) ==> M % 2 == 0
    }

    /** The n-digit decimal nearest to b0/S, ties to even. */
    ghost predicate RoundedToEven(n: nat, M: int)
      requires n > 0
    {
      2 * Distance(n, M) <= S && (2 * Distance(n, M) == S ==> M % 2 == 0)
    }

    /** D is the number cut off after n digits and r what is left of it. */
    ghost predicate CutOff(n: nat, D: nat, r: nat)
      requires n > 0
    {
      Pow(10, n - 1) * b0 == D * S + r && r < S
    }

    /** M is not below what is left when the number is cut off after n digits. */
    ghost predicate NotCutBelow(n: nat, M: int)
      requires n > 0
    {
      Pow(10, n - 1) * b0 < (M + 1) * S
    }

    /** So when the number has a nonzero first digit, so has M. */
    lemma NotBelowFirst(n: nat, M: int)
      requires Valid() && n > 0 && S <= b0 && (NotCutBelow(n, M) || RoundedToEven(n, M))
      ensures Pow(10, n - 1) <= M
    {
      var P := Pow(10, n - 1);
      PowPositive(10, n - 1);
      MulCommutes(P, b0);
      MulCommutes(P, S);
      MulMono(S, b0, P);
      if M + 1 <= P { MulMono(M + 1, P, S); }
      MulDistributes(M, 1, S);
    }

    /** The half-gaps at the scale of n digits. */
    ghost function LowGap(n: nat): nat
      requires n > 0
    {
      Pow(10, n - 1) * mlo0
    }

    ghost function HighGap(n: nat): nat
      requires n > 0
    {
      Pow(10, n - 1) * mhi0
    }

    ghost predicate LowOk(n: nat, r: nat)
      requires n > 0
    {
      Within(r, LowGap(n), closed)
    }

    ghost predicate HighOk(n: nat, r: nat)
      requires n > 0 && r <= S
    {
      Within(S - r, HighGap(n), closed)
    }

    /** Only the two neighbours D and D + 1 need to be looked at. */
    lemma OnlyNeighbours(n: nat, D: nat, r: nat)
      requires Valid() && n > 0 && CutOff(n, D, r)
      ensures InRange(n, D) <==> LowOk(n, r)
      ensures InRange(n, D + 1) <==> HighOk(n, r)
      ensures !LowOk(n, r) ==> forall N: int {:trigger InRange(n, N)} :: N <= D ==> !InRange(n, N)
      ensures !HighOk(n, r) ==> forall N: int {:trigger InRange(n, N)} :: N > D ==> !InRange(n, N)
    {
      PowPositive(10, n - 1);
      MulPositive(Pow(10, n - 1), mlo0);
      MulPositive(Pow(10, n - 1), mhi0);
      MulDistributes(D, 1, S);
      forall N: int | N <= D ensures N * S <= D * S { MulMono(N, D, S); }
      forall N: int | N > D ensures N * S >= D * S + S { MulMono(D + 1, N, S); }
    }

    /** Below D and above D + 1 everything is farther away than one of the two. */
    lemma NeighboursNearest(n: nat, D: nat, r: nat, N: int)
      requires Valid() && n > 0 && CutOff(n, D, r)
      ensures Distance(n, D) == r && Distance(n, D + 1) == S - r
      ensures N <= D ==> Distance(n, N) >= r
      ensures N > D ==> Distance(n, N) >= S - r
    {
      MulDistributes(D, 1, S);
      if N <= D { MulMono(N, D, S); } else { MulMono(D + 1, N, S); }
    }

    /** The digit that stops the loop is the nearest one in range. */
    lemma StopNearest(n: nat, D: nat, r: nat, up: bool)
      requires Valid() && n > 0 && CutOff(n, D, r)
      requires up ==> HighOk(n, r) && (!LowOk(n, r) || 2 * r >= S)
      requires !up ==> LowOk(n, r) && (!HighOk(n, r) || 2 * r <= S)
      ensures NearestInRange(n, if up then D + 1 else D)
    {
      OnlyNeighbours(n, D, r);
      forall N: int | InRange(n, N)
        ensures Distance(n, if up then D + 1 else D) <= Distance(n, N)
      {
        NeighboursNearest(n, D, r, N);
      }
    }

    /** The neighbours are the only ones that can be equally near. */
    lemma TieAtNeighbours(n: nat, D: nat, r: nat, up: bool)
      requires Valid() && n > 0 && CutOff(n, D, r)
      requires up && D % 2 == 0 ==> !(2 * r == S && LowOk(n, r)) && r > 0
      requires !up && D % 2 == 1 ==> !(2 * r == S && HighOk(n, r))
      ensures TieIsEven(n, if up then D + 1 else D)
    {
      var M := if up then D + 1 else D;
      OnlyNeighbours(n, D, r);
      NeighboursNearest(n, D, r, D);
      hide InRange, LowOk, HighOk;
      forall N: int | InRange(n, N) && N != M && Distance(n, N) == Distance(n, M)
        ensures M % 2 == 0
      {
        FartherBy(n, D, r, N);
      }
    }

    lemma FartherBy(n: nat, D: nat, r: nat, N: int)
      requires Valid() && n > 0 && CutOff(n, D, r)
      ensures Distance(n, D) == r && Distance(n, D + 1) == S - r
      ensures N < D ==> Distance(n, N) >= r + S
      ensures N > D + 1 ==> Distance(n, N) >= S - r + S
    {
      MulDistributes(D, 1, S);
      MulDistributes(D - 1, 1, S);
      MulDistributes(D + 1, 1, S);
      if N < D { MulMono(N, D - 1, S); }
      if N > D + 1 { MulMono(D + 2, N, S); }
    }

    /** Rounding after n digits by comparing twice the remainder with S. */
    lemma HalfEven(n: nat, D: nat, r: nat, up: bool)
      requires Valid() && n > 0 && CutOff(n, D, r)
      requires up <==> 2 * r > S || (2 * r == S && D % 2 == 1)
      ensures RoundedToEven(n, if up then D + 1 else D)
    {
      NeighboursNearest(n, D, r, D);
    }

    /** A number that terminates is its own rounding at every later length. */
    lemma ExactRounds(n: nat, D: nat, m: nat)
      requires Valid() && 0 < n <= m && CutOff(n, D, 0)
      ensures RoundedToEven(m, D * Pow(10, m - n))
    {
      var q := Pow(10, m - n);
      PowAdd(10, m - n, n - 1);
      MulAssoc(q, Pow(10, n - 1), b0);
      MulCommutes(q, D * S);
      MulAssoc(D, S, q);
      MulCommutes(S, q);
      MulAssoc(D, q, S);
      assert Pow(10, m - 1) * b0 == D * q * S;
    }

    /** If raising a last digit nine gives the end point exactly, the end point has fewer digits. */
    lemma EndPointIsShorter(n: nat, D: nat, r: nat)
      requires Valid() && n > 1 && CutOff(n, D, r) && D % 10 == 9
      requires closed && S - r == HighGap(n)
      ensures InRange(n - 1, (D + 1) / 10)
    {
      var P, N := Pow(10, n - 2), (D + 1) / 10;
      assert Pow(10, n - 1) == 10 * P;
      MulAssoc(10, P, b0);
      MulAssoc(10, P, mhi0);
      MulDistributes(D, 1, S);
      assert D + 1 == 10 * N;
      MulAssoc(10, N, S);
      PowPositive(10, n - 2);
      MulNonNegative(P, mlo0);
      MulNonNegative(P, mhi0);
    }

    /** So such a nine can only be the first digit: later, the shorter decimal would have stopped
        the loop. */
    lemma NineAtEndIsFirst(n: nat, D: nat, r: nat)
      requires Valid() && n > 0 && CutOff(n, D, r) && D % 10 == 9
      requires closed && S - r == HighGap(n)
      requires NoneShorter(n)
      ensures n == 1 && D == 9
    {
      if n > 1 {
        EndPointIsShorter(n, D, r);
      } else {
        assert Pow(10, 0) == 1;
        if D >= 10 { MulMono(10, D, S); }
      }
    }
  }
}
