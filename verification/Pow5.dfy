/** pow5mult of runtime/stub/dtoa.c and its cache of the powers 5^4, 5^8, 5^16, ... */
module PowersOfFive {
  import opened Words
  import opened BigintArithmetic

  /** Element i of the chain: each squares the one before it. */
  ghost function Element(i: nat): nat {
    if i == 0 then 625 else Element(i - 1) * Element(i - 1)
  }

  lemma {:induction false} ElementIsPower(i: nat)
    ensures Element(i) == Pow(5, 4 * Pow(2, i)) > 0
  {
    PowPositive(5, 4 * Pow(2, i));
    if i == 0 {
      assert Pow(2, 0) == 1;
      PowAdd(5, 2, 2);
      assert Pow(5, 2) == 25;
    } else {
      ElementIsPower(i - 1);
      PowAdd(5, 4 * Pow(2, i - 1), 4 * Pow(2, i - 1));
    }
  }

  /** The chain p5s, p5s->next, ...: element i holds 5^(4 * 2^i). */
  class P5Chain {
    var chain: seq<Bigint>
    ghost var Repr: set<object>

    ghost predicate Valid()
      reads this, Repr
    {
      forall i {:trigger chain[i]} :: 0 <= i < |chain| ==>
        chain[i] in Repr && chain[i].x in Repr &&
        chain[i].Valid() && chain[i].wds > 0 && chain[i].Value() == Element(i)
    }

    /** Writing to b cannot disturb the chain. */
    ghost predicate Untouched(b: Bigint)
      reads this
    {
      b !in Repr && b.x !in Repr
    }

    constructor ()
      ensures Valid() && chain == [] && Repr == {}
    {
      chain := [];
      Repr := {};
    }

    /** Makes element i exist by squaring the element before it; the first is 625. */
    method Extend(i: nat)
      requires Valid() && i <= |chain|
      modifies this
      ensures Valid() && i < |chain|
      ensures old(chain) <= chain && |chain| <= |old(chain)| + 1
      ensures fresh(Repr - old(Repr))
    {
      if i < |chain| {
        return;
      }
      var p51: Bigint;
      if i == 0 {
        p51 := new Bigint.FromInt(625);
      } else {
        var p5 := chain[i - 1];
        p51 := Mult(p5, p5);
        ElementIsPower(i);
      }
      chain := chain + [p51];
      Repr := Repr + {p51, p51.x};
    }
  }

  /** What is left to multiply before turn i of the loop, read off the bits of k. */
  ghost function Rest(i: nat, k: nat): nat
    decreases k
  {
    if k == 0 then 1 else (if k % 2 == 1 then Element(i) else 1) * Rest(i + 1, k / 2)
  }

  lemma {:induction false} RestIsPower(i: nat, k: nat)
    ensures Rest(i, k) == Pow(5, 4 * Pow(2, i) * k)
    decreases k
  {
    if k > 0 {
      RestIsPower(i + 1, k / 2);
      ElementIsPower(i);
      var e := 4 * Pow(2, i);
      MulAssoc(e, 2, k / 2);
      assert 4 * Pow(2, i + 1) == 2 * e;
      MulCommutes(e, k);
      MulCommutes(e, 2 * (k / 2));
      if k % 2 == 1 {
        MulDistributes(2 * (k / 2), 1, e);
        PowAdd(5, e, e * (2 * (k / 2)));
      }
    }
  }

  /** The first step of pow5mult: one of 5, 25, 125 for the two low bits of k. */
  method MultSmall(b0: Bigint, k: nat) returns (b: Bigint)
    requires b0.Valid()
    modifies b0, b0.x
    ensures b.Valid() && b.Value() == old(b0.Value()) * Pow(5, k % 4)
    ensures b == b0 || (fresh(b) && fresh(b.x))
  {
    SmallFives(k % 4);
    b := b0;
    if k % 4 == 1 {
      b := MultAdd(b0, 5, 0);
    } else if k % 4 == 2 {
      b := MultAdd(b0, 25, 0);
    } else if k % 4 == 3 {
      b := MultAdd(b0, 125, 0);
    }
  }

  /** The squaring loop of pow5mult: b * 625^k. */
  method MultLarge(b0: Bigint, k0: nat, p5s: P5Chain) returns (b: Bigint)
    requires b0.Valid() && p5s.Valid() && p5s.Untouched(b0) && k0 > 0
    modifies p5s
    ensures b.Valid() && b.Value() == b0.Value() * Rest(0, k0)
    ensures b == b0 || (fresh(b) && fresh(b.x))
    ensures p5s.Valid() && p5s.Untouched(b) && old(p5s.chain) <= p5s.chain
    ensures fresh(p5s.Repr - old(p5s.Repr))
  {
    b := b0;
    ghost var target := b0.Value() * Rest(0, k0);
    var k := k0;
    var i := 0;
    p5s.Extend(0);
    while true
      invariant b.Valid() && p5s.Valid() && p5s.Untouched(b) && i < |p5s.chain| && k > 0
      invariant b == b0 || (fresh(b) && fresh(b.x))
      invariant old(p5s.chain) <= p5s.chain
      invariant fresh(p5s.Repr - old(p5s.Repr))
      invariant b.Value() * Rest(i, k) == target
      decreases k
    {
      b := MultBit(b, k, i, p5s);
      k := k / 2;
      if k == 0 {
        break;
      }
      p5s.Extend(i + 1);
      i := i + 1;
    }
  }

  /** One turn of the loop: multiplies by element i if the low bit of k is set. */
  method MultBit(b0: Bigint, k: nat, i: nat, p5s: P5Chain) returns (b: Bigint)
    requires b0.Valid() && p5s.Valid() && i < |p5s.chain| && k > 0
    ensures b.Valid() && b.Value() * Rest(i + 1, k / 2) == b0.Value() * Rest(i, k)
    ensures b == b0 || (fresh(b) && fresh(b.x))
  {
    b := b0;
    if k % 2 == 1 {
      b := Mult(b0, p5s.chain[i]);
      MulAssoc(b0.Value(), Element(i), Rest(i + 1, k / 2));
    }
  }

  /** b * 5^k, consuming b. */
  method Pow5Mult(b0: Bigint, k: nat, p5s: P5Chain) returns (b: Bigint)
    requires b0.Valid() && p5s.Valid() && p5s.Untouched(b0)
    modifies b0, b0.x, p5s
    ensures b.Valid() && b.Value() == old(b0.Value()) * Pow(5, k)
    ensures b == b0 || (fresh(b) && fresh(b.x))
    ensures p5s.Valid() && p5s.Untouched(b) && old(p5s.chain) <= p5s.chain
    ensures fresh(p5s.Repr - old(p5s.Repr))
  {
    ghost var v := b0.Value();
    b := MultSmall(b0, k);
    SplitPower(v, k);
    if k / 4 == 0 {
      return;
    }
    b := MultLarge(b, k / 4, p5s);
  }

  lemma SmallFives(r: nat)
    requires r < 4
    ensures Pow(5, r) == if r == 0 then 1 else if r == 1 then 5 else if r == 2 then 25 else 125
  {
    assert Pow(5, 1) == 5;
    assert Pow(5, 2) == 25;
  }

  lemma SplitPower(v: nat, k: nat)
    ensures v * Pow(5, k % 4) * Rest(0, k / 4) == v * Pow(5, k)
  {
    RestIsPower(0, k / 4);
    assert Pow(2, 0) == 1;
    assert k % 4 + 4 * (k / 4) == k;
    PowAdd(5, k % 4, 4 * (k / 4));
    MulAssoc(v, Pow(5, k % 4), Rest(0, k / 4));
  }
}
