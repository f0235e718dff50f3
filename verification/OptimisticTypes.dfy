/** The order on types and the lattice points of compiler/lib/OptimisticTypes.cpp. */
module OptimisticTypes {
  import opened Common

  /** Types are unique objects: the tags tell apart structures and scalars that look alike. */
  datatype Type =
    | Pointer(element: Type)
    | Struct(tag: nat, fields: seq<Type>)
    | Scalar(tag: nat)

  /** type_lifts_into. */
  predicate Lifts(a: Type, b: Type)
    decreases a, b
  {
    if a == b then true
    else if a.Pointer? && b.Pointer? then Lifts(a.element, b.element)
    else if b.Struct? && |b.fields| > 0 then Lifts(a, b.fields[0])
    else false
  }

  lemma LiftsRefl(a: Type)
    ensures Lifts(a, a)
  {}

  /** How far a type is above the types that lift into it: lifting goes strictly up. */
  function Rank(a: Type): nat {
    match a
    case Pointer(e) => Rank(e)
    case Struct(_, fields) => if |fields| > 0 then Rank(fields[0]) + 1 else 0
    case Scalar(_) => 0
  }

  lemma {:induction false} LiftsRaisesRank(a: Type, b: Type)
    requires Lifts(a, b)
    ensures Rank(a) <= Rank(b) && (Rank(a) == Rank(b) ==> a == b)
    decreases a, b
  {
    if a == b {
    } else if a.Pointer? && b.Pointer? {
      LiftsRaisesRank(a.element, b.element);
    } else {
      LiftsRaisesRank(a, b.fields[0]);
    }
  }

  lemma LiftsAntisym(a: Type, b: Type)
    requires Lifts(a, b) && Lifts(b, a)
    ensures a == b
  {
    LiftsRaisesRank(a, b);
    LiftsRaisesRank(b, a);
  }

  lemma {:induction false} LiftsTrans(a: Type, b: Type, c: Type)
    requires Lifts(a, b) && Lifts(b, c)
    ensures Lifts(a, c)
    decreases c, b, a
  {
    if a == b || b == c {
    } else if b.Pointer? && c.Pointer? {
      // a is a pointer too: only pointers lift into pointers
      LiftsTrans(a.element, b.element, c.element);
    } else {
      LiftsTrans(a, b, c.fields[0]);
      if a.Pointer? && c.Pointer? {
        assert false;
      }
    }
  }

  /** What lifts into one type forms a chain. */
  lemma {:induction false} DownSetsAreChains(a: Type, b: Type, c: Type)
    requires Lifts(a, c) && Lifts(b, c)
    ensures Lifts(a, b) || Lifts(b, a)
    decreases c
  {
    if a == c || b == c {
    } else if c.Pointer? {
      DownSetsAreChains(a.element, b.element, c.element);
    } else {
      DownSetsAreChains(a, b, c.fields[0]);
    }
  }

  // ------------------------------------------------------------------ which types lift

  /** One step up: b is a struct whose first field is a, or both are pointers and the step is under them. */
  predicate Step(a: Type, b: Type) {
    || (b.Struct? && b.fields != [] && a == b.fields[0])
    || (a.Pointer? && b.Pointer? && Step(a.element, b.element))
  }

  /** A sequence of types, each a step above the one before. */
  ghost predicate Steps(s: seq<Type>) {
    s != [] && forall k: nat :: k + 1 < |s| ==> Step(s[k], s[k + 1])
  }

  ghost predicate StepsTo(s: seq<Type>, a: Type, b: Type) {
    Steps(s) && s[0] == a && s[|s| - 1] == b
  }

  /** Lifting is exactly going up such steps, any number of them. */
  lemma LiftsIffSteps(a: Type, b: Type)
    ensures Lifts(a, b) <==> exists s :: StepsTo(s, a, b)
  {
    if Lifts(a, b) {
      var s := LiftedSteps(a, b);
    }
    if exists s :: StepsTo(s, a, b) {
      var s :| StepsTo(s, a, b);
      StepsLift(s);
    }
  }

  lemma {:induction false} LiftedSteps(a: Type, b: Type) returns (s: seq<Type>)
    requires Lifts(a, b)
    ensures StepsTo(s, a, b)
    decreases a, b
  {
    if a == b {
      s := [a];
    } else if a.Pointer? && b.Pointer? {
      var under := LiftedSteps(a.element, b.element);
      s := seq(|under|, k requires 0 <= k < |under| => Pointer(under[k]));
      forall k: nat | k + 1 < |s| ensures Step(s[k], s[k + 1]) {
        assert Step(under[k], under[k + 1]);
      }
    } else {
      var below := LiftedSteps(a, b.fields[0]);
      s := below + [b];
      forall k: nat | k + 1 < |s| ensures Step(s[k], s[k + 1]) {
        if k + 1 < |below| { assert Step(below[k], below[k + 1]); }
      }
    }
  }

  lemma {:induction false} StepLifts(a: Type, b: Type)
    requires Step(a, b)
    ensures Lifts(a, b)
  {
    if a.Pointer? && b.Pointer? {
      StepLifts(a.element, b.element);
    }
  }

  lemma {:induction false} StepsLift(s: seq<Type>)
    requires Steps(s)
    ensures Lifts(s[0], s[|s| - 1])
  {
    var n := |s| - 1;
    if n > 0 {
      var front := s[..n];
      forall k: nat | k + 1 < |front| ensures Step(front[k], front[k + 1]) {
        assert Step(s[k], s[k + 1]);
      }
      StepsLift(front);
      assert Step(s[n - 1], s[n - 1 + 1]);
      StepLifts(s[n - 1], s[n]);
      LiftsTrans(s[0], s[n - 1], s[n]);
    }
  }

  /** Reflexive, closed under pointers, and closed under being put first in a struct. */
  ghost predicate LiftsLike(rel: (Type, Type) -> bool) {
    && (forall a :: rel(a, a))
    && (forall a, b :: rel(a, b) ==> rel(Pointer(a), Pointer(b)))
    && (forall a, b: Type :: b.Struct? && b.fields != [] && rel(a, b.fields[0]) ==> rel(a, b))
  }

  /** And it is the least relation of that kind. */
  lemma LiftsIsLeast(rel: (Type, Type) -> bool, a: Type, b: Type)
    ensures LiftsLike(Lifts)
    ensures LiftsLike(rel) && Lifts(a, b) ==> rel(a, b)
  {
    if LiftsLike(rel) && Lifts(a, b) {
      LiftsWithin(rel, a, b);
    }
  }

  lemma {:induction false} LiftsWithin(rel: (Type, Type) -> bool, a: Type, b: Type)
    requires LiftsLike(rel) && Lifts(a, b)
    ensures rel(a, b)
    decreases a, b
  {
    if a == b {
    } else if a.Pointer? && b.Pointer? {
      LiftsWithin(rel, a.element, b.element);
      assert rel(Pointer(a.element), Pointer(b.element));
    } else {
      LiftsWithin(rel, a, b.fields[0]);
    }
  }

  /** What lifts into a type of each form. */
  lemma LiftsInto(a: Type, b: Type)
    ensures b.Scalar? || (b.Struct? && b.fields == []) ==> (Lifts(a, b) <==> a == b)
    ensures b.Struct? && b.fields != [] ==> (Lifts(a, b) <==> a == b || Lifts(a, b.fields[0]))
    ensures b.Pointer? ==> (Lifts(a, b) <==> a.Pointer? && Lifts(a.element, b.element))
  {}

  /** Scalar i meets struct {i, f} to the struct, f meets it to Overdefined. */
  lemma FirstFieldOnly(i: nat, f: nat, tag: nat)
    requires i != f
    ensures var s := Struct(tag, [Scalar(i), Scalar(f)]);
            && Met(Defined(Scalar(i)), Defined(s)) == Defined(s)
            && Met(Defined(Scalar(f)), Defined(s)) == Overdefined
  {}

  // ------------------------------------------------------------------ the lattice

  datatype Point = Underdefined | Defined(state: Type) | Overdefined

  /** The order with a bottom and a top added. */
  predicate Leq(p: Point, q: Point) {
    p.Underdefined? || q.Overdefined? || (p.Defined? && q.Defined? && Lifts(p.state, q.state))
  }

  /** r is the least point above both p and q. */
  ghost predicate IsJoin(p: Point, q: Point, r: Point) {
    Leq(p, r) && Leq(q, r) && forall s :: Leq(p, s) && Leq(q, s) ==> Leq(r, s)
  }

  /** The value a point has after meeting `incoming`. */
  function Met(p: Point, incoming: Point): Point {
    if p.Overdefined? || incoming.Overdefined? then Overdefined
    else if incoming.Underdefined? then p
    else if p.Underdefined? then incoming
    else if Lifts(p.state, incoming.state) then incoming
    else if Lifts(incoming.state, p.state) then p
    else Overdefined
  }

  lemma LeqPartialOrder(p: Point, q: Point, r: Point)
    ensures Leq(p, p)
    ensures Leq(p, q) && Leq(q, p) ==> p == q
    ensures Leq(p, q) && Leq(q, r) ==> Leq(p, r)
  {
    if p.Defined? && q.Defined? && Leq(p, q) && Leq(q, p) {
      LiftsAntisym(p.state, q.state);
    }
    if p.Defined? && q.Defined? && r.Defined? && Leq(p, q) && Leq(q, r) {
      LiftsTrans(p.state, q.state, r.state);
    }
  }

  /** meet computes the least upper bound. */
  lemma MetIsJoin(p: Point, q: Point)
    ensures IsJoin(p, q, Met(p, q))
  {
    forall s | Leq(p, s) && Leq(q, s) ensures Leq(Met(p, q), s) {
      if p.Defined? && q.Defined? && s.Defined? {
        DownSetsAreChains(p.state, q.state, s.state);
      }
    }
  }

  lemma JoinUnique(p: Point, q: Point, r: Point, r': Point)
    requires IsJoin(p, q, r) && IsJoin(p, q, r')
    ensures r == r'
  {
    LeqPartialOrder(r, r', r);
  }

  lemma MetCommutes(p: Point, q: Point)
    ensures Met(p, q) == Met(q, p) && Met(p, p) == p
  {
    MetIsJoin(p, q);
    MetIsJoin(q, p);
    JoinUnique(p, q, Met(p, q), Met(q, p));
  }

  lemma MetAssociates(p: Point, q: Point, r: Point)
    ensures Met(Met(p, q), r) == Met(p, Met(q, r))
  {
    var x, y := Met(Met(p, q), r), Met(p, Met(q, r));
    MetIsJoin(p, q);
    MetIsJoin(Met(p, q), r);
    MetIsJoin(q, r);
    MetIsJoin(p, Met(q, r));
    LeqPartialOrder(p, Met(p, q), x);
    LeqPartialOrder(q, Met(p, q), x);
    LeqPartialOrder(q, Met(q, r), y);
    LeqPartialOrder(r, Met(q, r), y);
    assert Leq(Met(q, r), x) && Leq(Met(p, q), y);
    LeqPartialOrder(x, y, x);
  }

  /** The point after meeting a sequence of others, one by one. */
  function MetAll(p: Point, incoming: seq<Point>): Point {
    if incoming == [] then p else Met(MetAll(p, incoming[..|incoming| - 1]), incoming[|incoming| - 1])
  }

  /** Meeting many points gives the least point above all of them. */
  lemma {:induction false} MetAllIsJoin(p: Point, incoming: seq<Point>)
    ensures Leq(p, MetAll(p, incoming)) && forall k :: 0 <= k < |incoming| ==> Leq(incoming[k], MetAll(p, incoming))
    ensures forall s :: Leq(p, s) && (forall k :: 0 <= k < |incoming| ==> Leq(incoming[k], s)) ==>
              Leq(MetAll(p, incoming), s)
  {
    if incoming == [] {
      LeqPartialOrder(p, p, p);
    } else {
      var n := |incoming| - 1;
      var front, all := MetAll(p, incoming[..n]), MetAll(p, incoming);
      MetAllIsJoin(p, incoming[..n]);
      MetIsJoin(front, incoming[n]);
      LeqPartialOrder(p, front, all);
      forall k | 0 <= k < |incoming| ensures Leq(incoming[k], all) {
        if k < n {
          assert incoming[..n][k] == incoming[k];
          LeqPartialOrder(incoming[k], front, all);
        }
      }
      forall s | Leq(p, s) && (forall k :: 0 <= k < |incoming| ==> Leq(incoming[k], s)) ensures Leq(all, s) {
        assert forall k :: 0 <= k < n ==> incoming[..n][k] == incoming[k];
        assert Leq(front, s);
      }
    }
  }

  /** So neither the order nor repetition of the points met matters. */
  lemma OrderDoesNotMatter(p: Point, a: seq<Point>, b: seq<Point>)
    requires forall x :: x in a <==> x in b
    ensures MetAll(p, a) == MetAll(p, b)
  {
    MetAllIsJoin(p, a);
    MetAllIsJoin(p, b);
    var x, y := MetAll(p, a), MetAll(p, b);
    forall k | 0 <= k < |a| ensures Leq(a[k], y) {
      assert a[k] in b;
    }
    forall k | 0 <= k < |b| ensures Leq(b[k], x) {
      assert b[k] in a;
    }
    LeqPartialOrder(x, y, x);
  }

  datatype PointType = OverdefinedPoint | DefinedPoint | UnderdefinedPoint

  class OTLatticePoint {
    var kind: PointType
    var state: Option<Type>

    ghost predicate Valid()
      reads this
    {
      kind.DefinedPoint? <==> state.Some?
    }

    function Value(): Point
      reads this
      requires Valid()
    {
      match kind
      case OverdefinedPoint => Overdefined
      case DefinedPoint => Defined(state.value)
      case UnderdefinedPoint => Underdefined
    }

    constructor ()
      ensures Valid() && Value() == Underdefined
    {
      kind, state := UnderdefinedPoint, None;
    }

    method SetOverdefined()
      modifies this
      ensures Valid() && Value() == Overdefined
    {
      state := None;
      kind := OverdefinedPoint;
    }

    method SetState(t: Type)
      modifies this
      ensures Valid() && Value() == Defined(t)
    {
      state := Some(t);
      kind := DefinedPoint;
    }

    /** The point becomes the least upper bound, and reports whether it rose. */
    method Meet(incoming: OTLatticePoint) returns (changed: bool)
      requires Valid() && incoming.Valid()
      modifies this
      ensures Valid() && IsJoin(old(Value()), old(incoming.Value()), Value())
      ensures Value() == Met(old(Value()), old(incoming.Value()))
      ensures changed <==> Value() != old(Value())
    {
      MetIsJoin(Value(), incoming.Value());
      if kind.OverdefinedPoint? {
        return false;
      }
      if incoming.kind.OverdefinedPoint? {
        SetOverdefined();
        return true;
      }
      if incoming.kind.UnderdefinedPoint? {
        return false;
      }
      if kind.UnderdefinedPoint? {
        SetState(incoming.state.value);
        return true;
      }
      if incoming.state.value == state.value {
        return false;
      }
      if Lifts(state.value, incoming.state.value) {
        SetState(incoming.state.value);
        return true;
      }
      if Lifts(incoming.state.value, state.value) {
        return false;
      }
      SetOverdefined();
      return true;
    }
  }
}
