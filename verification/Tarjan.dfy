/** Strongly connected components: tarjan_scc and its helper in compiler/include/alaska/Graph.h. */
module TarjanScc {
  import opened Common
  import opened Graphs

  /** The bookkeeping at one moment. `grays` are the nodes whose helper call has not returned. */
  datatype State = State(index: nat, indices: map<Node, nat>, stack: seq<Node>, components: map<Node, set<Node>>,
                         grays: set<Node>)

  ghost predicate OnStack(st: State, n: Node) {
    n in st.stack
  }

  /** Indices grow along the stack; grays are on the stack. */
  ghost predicate Shape(g: DirectedGraph, st: State) {
    && st.index == |st.indices|
    && (forall n :: n in st.indices ==> n in g.out && st.indices[n] < st.index)
    && (forall i :: 0 <= i < |st.stack| ==> st.stack[i] in st.indices)
    && Sorted(st.stack, st.indices)
    && (forall n :: n in st.grays ==> OnStack(st, n))
  }

  ghost predicate Sorted(stack: seq<Node>, indices: map<Node, nat>)
    requires forall i :: 0 <= i < |stack| ==> stack[i] in indices
  {
    forall i, j :: 0 <= i < j < |stack| ==> indices[stack[i]] < indices[stack[j]]
  }

  /** A node whose call has returned has only visited successors. */
  ghost predicate NoBlackToWhite(g: DirectedGraph, st: State) {
    forall x, w :: x in st.indices && x !in st.grays && g.Edge(x, w) ==> w in st.indices
  }

  /** Every stack node reaches the nodes above it, */
  ghost predicate LowReachesHigh(g: DirectedGraph, st: State) {
    forall i, j :: 0 <= i <= j < |st.stack| ==> g.Reach(st.stack[i], st.stack[j])
  }

  /** and some gray node at or below it. */
  ghost predicate ReachesGray(g: DirectedGraph, st: State) {
    forall j :: 0 <= j < |st.stack| ==> ReachesGrayBelow(g, st, j)
  }

  ghost predicate ReachesGrayBelow(g: DirectedGraph, st: State, j: nat)
    requires j < |st.stack|
  {
    exists i :: 0 <= i <= j && st.stack[i] in st.grays && g.Reach(st.stack[j], st.stack[i])
  }

  /** C is a maximal set of mutually reachable nodes. */
  ghost predicate IsScc(g: DirectedGraph, C: set<Node>) {
    forall a, b :: a in C ==> (b in C <==> g.Mutual(a, b))
  }

  /** The finished components are SCCs, disjoint, and hold exactly the visited nodes off the stack. */
  ghost predicate ComponentsDone(g: DirectedGraph, st: State) {
    && (forall r :: r in st.components ==> r in st.components[r] && IsScc(g, st.components[r]))
    && (forall r, n :: r in st.components && n in st.components[r] ==> n in st.indices && !OnStack(st, n))
    && (forall n :: n in st.indices && !OnStack(st, n) ==> InSome(st, n))
    && (forall r, q, n :: r in st.components && q in st.components && n in st.components[r] && n in st.components[q] ==>
         r == q)
  }

  ghost predicate InSome(st: State, n: Node) {
    exists r :: r in st.components && n in st.components[r]
  }

  ghost predicate Inv(g: DirectedGraph, st: State) {
    && g.Valid()
    && Shape(g, st)
    && NoBlackToWhite(g, st)
    && LowReachesHigh(g, st)
    && ReachesGray(g, st)
    && ComponentsDone(g, st)
  }

  lemma SameSlot(g: DirectedGraph, st: State, i: nat, j: nat)
    requires Shape(g, st) && i < |st.stack| && j < |st.stack|
    requires st.stack[i] == st.stack[j]
    ensures i == j
  {}

  lemma SmallerIsBelow(g: DirectedGraph, st: State, i: nat, j: nat)
    requires Shape(g, st) && i < |st.stack| && j < |st.stack|
    requires st.indices[st.stack[i]] < st.indices[st.stack[j]]
    ensures i < j
  {}

  lemma GraySlot(g: DirectedGraph, st: State, n: Node) returns (i: nat)
    requires Shape(g, st) && n in st.grays
    ensures i < |st.stack| && st.stack[i] == n
  {
    assert OnStack(st, n);
    i :| 0 <= i < |st.stack| && st.stack[i] == n;
  }

  lemma GrayBelow(g: DirectedGraph, st: State, j: nat) returns (i: nat)
    requires ReachesGray(g, st) && j < |st.stack|
    ensures i <= j && st.stack[i] in st.grays && g.Reach(st.stack[j], st.stack[i])
  {
    assert ReachesGrayBelow(g, st, j);
    i :| 0 <= i <= j && st.stack[i] in st.grays && g.Reach(st.stack[j], st.stack[i]);
  }

  // ------------------------------------------------------------------ entering a node

  ghost function Pushed(st: State, n: Node): State {
    State(st.index + 1, st.indices[n := st.index], st.stack + [n], st.components, st.grays + {n})
  }

  lemma PushKeepsInv(g: DirectedGraph, st: State, n: Node)
    requires Inv(g, st) && n in g.out && n !in st.indices
    requires forall y :: y in st.grays ==> g.Reach(y, n)
    ensures Inv(g, Pushed(st, n))
  {
    hide DirectedGraph.Reach, ComponentsDone, ReachesGray, LowReachesHigh, Shape;
    PushShape(g, st, n);
    PushReaches(g, st, n);
    PushComponents(g, st, n);
  }

  lemma PushShape(g: DirectedGraph, st: State, n: Node)
    requires Shape(g, st) && n in g.out && n !in st.indices
    ensures Shape(g, Pushed(st, n))
  {
    hide Sorted;
    var st' := Pushed(st, n);
    OneMore(st.indices, n, st.index);
    forall v | v in st'.grays
      ensures OnStack(st', v)
    {
      if v in st.grays { assert OnStack(st, v); }
    }
    PushSorted(st, n);
  }

  lemma OneMore(m: map<Node, nat>, n: Node, x: nat)
    requires n !in m
    ensures |m[n := x]| == |m| + 1
  {
    assert m[n := x].Keys == m.Keys + {n};
    assert |m[n := x].Keys| == |m.Keys| + 1;
  }

  lemma PushSorted(st: State, n: Node)
    requires n !in st.indices && forall i :: 0 <= i < |st.stack| ==> st.stack[i] in st.indices
    requires forall v :: v in st.indices ==> st.indices[v] < st.index
    requires Sorted(st.stack, st.indices)
    ensures Sorted(Pushed(st, n).stack, Pushed(st, n).indices)
  {
    var st' := Pushed(st, n);
    forall i, j | 0 <= i < j < |st'.stack|
      ensures st'.indices[st'.stack[i]] < st'.indices[st'.stack[j]]
    {
      assert st'.stack[i] == st.stack[i];
      if j < |st.stack| { assert st'.stack[j] == st.stack[j]; }
    }
  }

  lemma PushReaches(g: DirectedGraph, st: State, n: Node)
    requires Inv(g, st) && forall y :: y in st.grays ==> g.Reach(y, n)
    ensures LowReachesHigh(g, Pushed(st, n)) && ReachesGray(g, Pushed(st, n))
  {
    hide DirectedGraph.Reach, ComponentsDone, NoBlackToWhite;
    var st' := Pushed(st, n);
    var p := |st.stack|;
    forall i | 0 <= i < p
      ensures g.Reach(st.stack[i], n)
    {
      var j := GrayBelow(g, st, i);
      g.ReachTrans(st.stack[i], st.stack[j], n);
    }
    g.ReachSelf(n);
    forall j | 0 <= j < |st'.stack|
      ensures ReachesGrayBelow(g, st', j)
    {
      if j < p {
        var i := GrayBelow(g, st, j);
        assert st'.stack[i] == st.stack[i];
      } else {
        assert st'.stack[p] == n;
      }
    }
  }

  lemma PushComponents(g: DirectedGraph, st: State, n: Node)
    requires Inv(g, st) && n !in st.indices
    ensures ComponentsDone(g, Pushed(st, n))
  {
    var st' := Pushed(st, n);
    forall v
      ensures OnStack(st', v) <==> OnStack(st, v) || v == n
    {
      assert st'.stack == st.stack + [n];
    }
    forall v | v in st'.indices && !OnStack(st', v)
      ensures InSome(st', v)
    {
      assert InSome(st, v);
    }
  }

  // ------------------------------------------------------------------ leaving a node

  /** Edges out of the part of the stack from position p on lead to visited nodes, and those into
      the stack below p have index at least low. */
  ghost predicate EdgesAtLeast(g: DirectedGraph, st: State, p: nat, low: nat)
    requires p <= |st.stack| && forall i :: 0 <= i < |st.stack| ==> st.stack[i] in st.indices
  {
    forall i, j :: p <= i < |st.stack| && 0 <= j < p && g.Edge(st.stack[i], st.stack[j]) ==>
      low <= st.indices[st.stack[j]]
  }

  /** Something on the stack with index low can be reached from n. */
  ghost predicate Attained(g: DirectedGraph, st: State, n: Node, low: nat)
    requires forall i :: 0 <= i < |st.stack| ==> st.stack[i] in st.indices
  {
    exists i :: 0 <= i < |st.stack| && st.indices[st.stack[i]] == low && g.Reach(n, st.stack[i])
  }

  /** n, at position p, was the last gray node, and every successor of it has been visited. */
  ghost predicate ReadyToLeave(g: DirectedGraph, st: State, n: Node, p: nat) {
    && Inv(g, st) && p < |st.stack| && st.stack[p] == n && n in st.grays
    && (forall i :: p < i < |st.stack| ==> st.stack[i] !in st.grays)
    && (forall w :: g.Edge(n, w) ==> w in st.indices)
  }

  ghost function Blackened(st: State, n: Node): State {
    st.(grays := st.grays - {n})
  }

  /** A node that reaches something older than itself stays on the stack. */
  lemma BlackenKeepsInv(g: DirectedGraph, st: State, n: Node, p: nat, low: nat)
    requires ReadyToLeave(g, st, n, p)
    requires Attained(g, st, n, low) && low < st.indices[n]
    ensures Inv(g, Blackened(st, n))
  {
    hide DirectedGraph.Reach, ComponentsDone, LowReachesHigh;
    var st' := Blackened(st, n);
    var k :| 0 <= k < |st.stack| && st.indices[st.stack[k]] == low && g.Reach(n, st.stack[k]);
    SmallerIsBelow(g, st, k, p);
    var h := GrayBelow(g, st, k);
    forall j | 0 <= j < |st'.stack|
      ensures ReachesGrayBelow(g, st', j)
    {
      var i := GrayBelow(g, st, j);
      if st.stack[i] == n {
        SameSlot(g, st, i, p);
        g.ReachTrans(st.stack[j], n, st.stack[k]);
        g.ReachTrans(st.stack[j], st.stack[k], st.stack[h]);
        LowerGrayRemains(g, st, p, h);
      } else {
        assert st'.stack[i] in st'.grays;
      }
    }
    BlackenComponents(g, st, n);
    assert LowReachesHigh(g, st') by { SameStackReaches(g, st, st'); }
  }

  lemma LowerGrayRemains(g: DirectedGraph, st: State, p: nat, h: nat)
    requires Shape(g, st) && h < p < |st.stack| && st.stack[h] in st.grays
    ensures st.stack[h] in Blackened(st, st.stack[p]).grays
  {
    if st.stack[h] == st.stack[p] { SameSlot(g, st, h, p); }
  }

  lemma SameStackReaches(g: DirectedGraph, st: State, st': State)
    requires LowReachesHigh(g, st) && st'.stack == st.stack
    ensures LowReachesHigh(g, st')
  {}

  lemma BlackenComponents(g: DirectedGraph, st: State, n: Node)
    requires ComponentsDone(g, st)
    ensures ComponentsDone(g, Blackened(st, n))
  {
    var st' := Blackened(st, n);
    forall v | v in st'.indices && !OnStack(st', v)
      ensures InSome(st', v)
    {
      assert OnStack(st', v) == OnStack(st, v);
      assert InSome(st, v);
    }
    assert forall v :: OnStack(st', v) == OnStack(st, v);
  }

  /** The stack from position p on. */
  ghost function Top(st: State, p: nat): set<Node>
    requires p <= |st.stack|
  {
    set i | p <= i < |st.stack| :: st.stack[i]
  }

  /** When nothing above p points below p, whatever is mutually reachable with n lies above p. */
  lemma MutualStaysInTop(g: DirectedGraph, st: State, n: Node, p: nat, z: Node)
    requires ReadyToLeave(g, st, n, p) && EdgesAtLeast(g, st, p, st.indices[n])
    requires g.Mutual(n, z)
    ensures z in Top(st, p)
  {
    hide DirectedGraph.Reach, DirectedGraph.Path, LowReachesHigh, ReachesGray;
    var A := Top(st, p);
    var U := set v | v in st.indices.Keys && !OnStack(st, v);
    assert n in A by { assert st.stack[p] == n; }
    forall u, v | u in A && g.Edge(u, v)
      ensures v in A || v in U
    {
      TopEdges(g, st, n, p, u, v);
    }
    if z !in A {
      var path := WitnessPath(g, n, z);
      var w := g.LeavesThrough(A, U, n, path, z);
      g.ReachTrans(w, z, n);
      OffStackStaysOff(g, st, w, n);
    }
  }

  lemma WitnessPath(g: DirectedGraph, a: Node, b: Node) returns (p: seq<Node>)
    requires g.Reach(a, b)
    ensures g.Path(a, p, b)
  {
    p :| g.Path(a, p, b);
  }

  lemma TopEdges(g: DirectedGraph, st: State, n: Node, p: nat, u: Node, v: Node)
    requires ReadyToLeave(g, st, n, p) && EdgesAtLeast(g, st, p, st.indices[n])
    requires u in Top(st, p) && g.Edge(u, v)
    ensures v in Top(st, p) || (v in st.indices && !OnStack(st, v))
  {
    hide LowReachesHigh, ReachesGray, ComponentsDone;
    var i :| p <= i < |st.stack| && st.stack[i] == u;
    if OnStack(st, v) {
      var j: nat :| 0 <= j < |st.stack| && st.stack[j] == v;
      if j < p { SmallerOrEqualIsAbove(g, st, p, j); }
    }
  }

  lemma SmallerOrEqualIsAbove(g: DirectedGraph, st: State, i: nat, j: nat)
    requires Shape(g, st) && i < |st.stack| && j < |st.stack|
    requires st.indices[st.stack[i]] <= st.indices[st.stack[j]]
    ensures i <= j
  {}

  /** What is mutually reachable with a finished node is itself off the stack. */
  lemma OffStackStaysOff(g: DirectedGraph, st: State, w: Node, n: Node)
    requires ComponentsDone(g, st) && w in st.indices && !OnStack(st, w)
    requires g.Mutual(w, n)
    ensures !OnStack(st, n)
  {
    assert InSome(st, w);
    var r :| r in st.components && w in st.components[r];
    assert n in st.components[r];
  }

  /** The popped part of the stack is exactly one strongly connected component. */
  lemma TopIsScc(g: DirectedGraph, st: State, n: Node, p: nat)
    requires ReadyToLeave(g, st, n, p) && EdgesAtLeast(g, st, p, st.indices[n])
    ensures IsScc(g, Top(st, p))
  {
    var A := Top(st, p);
    forall y | y in A
      ensures g.Mutual(n, y)
    {
      var j :| p <= j < |st.stack| && st.stack[j] == y;
      assert g.Reach(st.stack[p], st.stack[j]);
      assert ReachesGrayBelow(g, st, j);
      var i :| 0 <= i <= j && st.stack[i] in st.grays && g.Reach(st.stack[j], st.stack[i]);
      assert i <= p;
      assert g.Reach(st.stack[i], st.stack[p]);
      g.ReachTrans(y, st.stack[i], n);
    }
    forall a, b | a in A
      ensures b in A <==> g.Mutual(a, b)
    {
      if b in A {
        g.ReachTrans(a, n, b);
        g.ReachTrans(b, n, a);
      }
      if g.Mutual(a, b) {
        g.ReachTrans(n, a, b);
        g.ReachTrans(b, a, n);
        MutualStaysInTop(g, st, n, p, b);
      }
    }
  }

  ghost function Popped(st: State, n: Node, p: nat): State
    requires p <= |st.stack|
  {
    st.(stack := st.stack[..p], components := st.components[n := Top(st, p)], grays := st.grays - {n})
  }

  lemma PopKeepsInv(g: DirectedGraph, st: State, n: Node, p: nat)
    requires ReadyToLeave(g, st, n, p) && EdgesAtLeast(g, st, p, st.indices[n])
    ensures Inv(g, Popped(st, n, p))
  {
    hide DirectedGraph.Reach, ComponentsDone, IsScc;
    var st' := Popped(st, n, p);
    TopIsScc(g, st, n, p);
    forall y | y in st'.grays
      ensures OnStack(st', y)
    {
      var i := GraySlot(g, st, y);
      assert i < p;
      assert st'.stack[i] == y;
    }
    forall j | 0 <= j < |st'.stack|
      ensures ReachesGrayBelow(g, st', j)
    {
      var i := GrayBelow(g, st, j);
      LowerGrayRemains(g, st, p, i);
      assert st'.stack[i] in st'.grays;
    }
    PopComponents(g, st, n, p);
  }

  lemma SplitStack(g: DirectedGraph, st: State, n: Node, p: nat, v: Node)
    requires Shape(g, st) && p < |st.stack|
    ensures OnStack(st, v) <==> OnStack(Popped(st, n, p), v) || v in Top(st, p)
    ensures v in Top(st, p) ==> !OnStack(Popped(st, n, p), v) && v in st.indices
  {
    var st' := Popped(st, n, p);
    if OnStack(st, v) {
      var i: nat :| 0 <= i < |st.stack| && st.stack[i] == v;
      if i < p {
        assert st'.stack[i] == v;
      } else {
        forall j: nat | j < p ensures st'.stack[j] != v {
          if st'.stack[j] == v { SameSlot(g, st, i, j); }
        }
      }
    }
  }

  lemma PopComponents(g: DirectedGraph, st: State, n: Node, p: nat)
    requires ReadyToLeave(g, st, n, p) && IsScc(g, Top(st, p))
    ensures ComponentsDone(g, Popped(st, n, p))
  {
    var st', A := Popped(st, n, p), Top(st, p);
    forall v
      ensures OnStack(st, v) <==> OnStack(st', v) || v in A
      ensures v in A ==> !OnStack(st', v) && v in st.indices
    {
      SplitStack(g, st, n, p, v);
    }
    assert n in A by { assert st.stack[p] == n; }
    assert n !in st.components by { assert OnStack(st, n); }
    forall v | v in st'.indices && !OnStack(st', v)
      ensures InSome(st', v)
    {
      if v in A {
        assert n in st'.components && v in st'.components[n];
      } else {
        assert InSome(st, v);
        var r :| r in st.components && v in st.components[r];
        assert r in st'.components && v in st'.components[r];
      }
    }
  }

  // ------------------------------------------------------------------ the recursion

  /** A visited node keeps its index, and a finished component is final. */
  ghost predicate Grew(st: State, st': State) {
    && (forall v :: v in st.indices ==> v in st'.indices && st'.indices[v] == st.indices[v])
    && (forall r :: r in st.components ==> r in st'.components && st'.components[r] == st.components[r])
    && (forall v :: v in st'.indices && v !in st.indices ==> st.index <= st'.indices[v])
    && st.stack <= st'.stack
    && st'.grays == st.grays
  }

  /** What the helper leaves for its caller, as a fact about the caller's state st and the state st'
      after the call. */
  ghost predicate ChildDone(g: DirectedGraph, st: State, st': State, to: Node, lowTo: nat) {
    && Inv(g, st') && Grew(st, st') && to in st'.indices
    && EdgesAtLeast(g, st', |st.stack|, lowTo)
    && (OnStack(st', to) ==> lowTo < st'.indices[to] && Attained(g, st', to, lowTo))
    && (!OnStack(st', to) ==> lowTo == st'.indices[to] && st'.stack == st.stack)
  }

  class Tarjan {
    const g: DirectedGraph
    var components: map<Node, set<Node>>
    var index: nat
    var indices: map<Node, nat>
    var lowlink: map<Node, nat>
    var stack: seq<Node>
    ghost var grays: set<Node>

    ghost function Now(): State
      reads this
    {
      State(index, indices, stack, components, grays)
    }

    ghost predicate Valid()
      reads this
    {
      Inv(g, Now()) && lowlink.Keys == indices.Keys
    }

    constructor (g: DirectedGraph)
      requires g.Valid()
      ensures this.g == g && Valid() && indices == map[] && stack == [] && grays == {}
    {
      this.g := g;
      components, index, indices, lowlink, stack, grays := map[], 0, map[], map[], [], {};
    }

    /** tarjan_scc_helper. */
    method Helper(n: Node)
      requires Valid() && n in g.out && n !in indices
      requires forall y :: y in grays ==> g.Reach(y, n)
      modifies this
      ensures Valid() && n in lowlink && ChildDone(g, old(Now()), Now(), n, lowlink[n])
      ensures forall v :: v in old(lowlink) ==> v in lowlink && lowlink[v] == old(lowlink[v])
      decreases g.out.Keys - indices.Keys, 1
    {
      hide Inv, Scanning, EdgesAtLeast, Attained, ChildDone, DirectedGraph.Reach;
      ghost var st0 := Now();
      PushKeepsInv(g, st0, n);
      ScanStart(g, st0, n);
      indices := indices[n := index];
      lowlink := lowlink[n := index];
      index := index + 1;
      stack := stack + [n];
      grays := grays + {n};
      assert Now() == Pushed(st0, n);
      Scan(n, st0);
      Leave(n, st0);
    }

    /** The end of the helper: a root pops its component, any other node stays on the stack. */
    method Leave(n: Node, ghost st0: State)
      requires n in g.out && n in lowlink && lowlink.Keys == indices.Keys && Inv(g, st0)
      requires Scanning(g, st0, Now(), n, |st0.stack|, |g.out[n]|, lowlink[n])
      modifies this`stack, this`components, this`grays
      ensures Valid() && n in lowlink && ChildDone(g, st0, Now(), n, lowlink[n])
    {
      hide Scanning, Inv, EdgesAtLeast, Attained, ChildDone;
      ghost var p := |st0.stack|;
      ScanEnd(g, st0, Now(), n, p, lowlink[n]);
      if lowlink[n] == indices[n] {
        PopKeepsInv(g, Now(), n, p);
        PopVisited(g, st0, Now(), n, p);
        PopUntil(n, p);
      } else {
        BlackenKeepsInv(g, Now(), n, p, lowlink[n]);
        BlackenVisited(g, st0, Now(), n, p, lowlink[n]);
      }
      grays := grays - {n};
    }

    /** The loop over the outgoing edges of n. */
    method Scan(n: Node, ghost st0: State)
      requires n in g.out && n in lowlink && lowlink.Keys == indices.Keys
      requires Scanning(g, st0, Now(), n, |st0.stack|, 0, lowlink[n])
      modifies this
      ensures lowlink.Keys == indices.Keys && n in lowlink
      ensures Scanning(g, st0, Now(), n, |st0.stack|, |g.out[n]|, lowlink[n])
      ensures forall v :: v in old(lowlink) && v != n ==> v in lowlink && lowlink[v] == old(lowlink[v])
      decreases g.out.Keys - indices.Keys, 2
    {
      hide Scanning, Inv, EdgesAtLeast, Attained;
      var outs := g.out[n];
      ghost var p := |st0.stack|;
      for i := 0 to |outs|
        invariant lowlink.Keys == indices.Keys && n in lowlink
        invariant Scanning(g, st0, Now(), n, p, i, lowlink[n])
        invariant old(indices.Keys) <= indices.Keys
        invariant forall v :: v in old(lowlink) && v != n ==> v in lowlink && lowlink[v] == old(lowlink[v])
      {
        var to := outs[i];
        if to !in indices {
          ghost var st, low := Now(), lowlink[n];
          BeforeChild(g, st0, st, n, p, i, low);
          Helper(to);
          GrewKeys(st, Now());
          ScanChild(g, st0, st, Now(), n, p, i, low, lowlink[to]);
          lowlink := lowlink[n := Min(lowlink[n], lowlink[to])];
        } else if to in stack {
          ScanOnStack(g, st0, Now(), n, p, i, lowlink[n]);
          lowlink := lowlink[n := Min(lowlink[n], indices[to])];
        } else {
          ScanSkip(g, st0, Now(), n, p, i, lowlink[n]);
        }
      }
    }

    /** Pops the stack down to and including n, into the component of n. */
    method PopUntil(n: Node, ghost p: nat)
      requires Shape(g, Now()) && p < |stack| && stack[p] == n
      modifies this`stack, this`components
      ensures Now().(grays := grays - {n}) == old(Popped(Now(), n, p))
    {
      ghost var st := Now();
      assert Top(st, |stack|) == {};
      components := components[n := {}];
      var popNode;
      while true
        invariant p < |stack| <= |st.stack| && stack == st.stack[..|stack|]
        invariant components == st.components[n := Top(st, |stack|)]
        decreases |stack|
      {
        popNode := stack[|stack| - 1];
        stack := stack[..|stack| - 1];
        assert Top(st, |stack|) == Top(st, |stack| + 1) + {popNode};
        components := components[n := components[n] + {popNode}];
        if popNode == n {
          SameSlot(g, st, |stack|, p);
          break;
        }
      }
    }
  }

  lemma GrewKeys(st: State, st': State)
    requires Grew(st, st')
    ensures st.indices.Keys <= st'.indices.Keys
  {
    forall v | v in st.indices.Keys ensures v in st'.indices.Keys {
      assert v in st.indices;
    }
  }

  // ------------------------------------------------------------------ scanning the edges of a node

  /** The state st while the first i edges of n have been looked at; st0 is the state before n was
      entered, p the position of n on the stack, low its lowlink. */
  ghost predicate Scanning(g: DirectedGraph, st0: State, st: State, n: Node, p: nat, i: nat, low: nat) {
    && Inv(g, st) && n in g.out && i <= |g.out[n]|
    && p == |st0.stack| < |st.stack| && st0.stack <= st.stack && st.stack[p] == n
    && n !in st0.indices && n !in st0.grays && st.grays == st0.grays + {n}
    && (forall y :: y in st0.grays ==> g.Reach(y, n))
    && (forall v :: v in st0.indices ==> v in st.indices && st.indices[v] == st0.indices[v])
    && (forall r :: r in st0.components ==> r in st.components && st.components[r] == st0.components[r])
    && (forall v :: v in st.indices && v !in st0.indices ==> st0.index <= st.indices[v])
    && (forall k :: p < k < |st.stack| ==> st.stack[k] !in st.grays)
    && (forall t :: 0 <= t < i ==> g.out[n][t] in st.indices)
    && EdgesAtLeast2(g, st, p, low)
    && (forall t, j :: 0 <= t < i && 0 <= j < p && g.out[n][t] == st.stack[j] ==> low <= st.indices[st.stack[j]])
    && low <= st.indices[n] && Attained(g, st, n, low)
  }

  /** EdgesAtLeast for the nodes strictly above position p. */
  ghost predicate EdgesAtLeast2(g: DirectedGraph, st: State, p: nat, low: nat)
    requires p <= |st.stack| && forall i :: 0 <= i < |st.stack| ==> st.stack[i] in st.indices
  {
    forall k, j :: p < k < |st.stack| && 0 <= j < p && g.Edge(st.stack[k], st.stack[j]) ==>
      low <= st.indices[st.stack[j]]
  }

  lemma ScanStart(g: DirectedGraph, st0: State, n: Node)
    requires Inv(g, st0) && n in g.out && n !in st0.indices && Inv(g, Pushed(st0, n))
    requires forall y :: y in st0.grays ==> g.Reach(y, n)
    ensures Scanning(g, st0, Pushed(st0, n), n, |st0.stack|, 0, st0.index)
  {
    var st := Pushed(st0, n);
    g.ReachSelf(n);
    assert st.stack[|st0.stack|] == n;
  }

  lemma BeforeChild(g: DirectedGraph, st0: State, st: State, n: Node, p: nat, i: nat, low: nat)
    requires Scanning(g, st0, st, n, p, i, low) && i < |g.out[n]|
    ensures Inv(g, st) && g.out[n][i] in g.out && n in st.indices
    ensures forall y :: y in st.grays ==> g.Reach(y, g.out[n][i])
  {
    var to := g.out[n][i];
    g.ReachEdge(n, to);
    forall y | y in st.grays
      ensures g.Reach(y, to)
    {
      if y != n { g.ReachTrans(y, n, to); }
    }
  }

  lemma MinLow(g: DirectedGraph, st: State, n: Node, a: nat, b: nat)
    requires Shape(g, st) && Attained(g, st, n, a) && (b < a ==> Attained(g, st, n, b))
    ensures Attained(g, st, n, Min(a, b))
  {}

  lemma AttainedByParent(g: DirectedGraph, st: State, n: Node, to: Node, low: nat)
    requires Shape(g, st) && g.Edge(n, to) && Attained(g, st, to, low)
    ensures Attained(g, st, n, low)
  {
    hide DirectedGraph.Reach;
    var i :| 0 <= i < |st.stack| && st.indices[st.stack[i]] == low && g.Reach(to, st.stack[i]);
    g.ReachEdge(n, to);
    g.ReachTrans(n, to, st.stack[i]);
  }

  lemma AttainedLater(g: DirectedGraph, st: State, st': State, n: Node, low: nat)
    requires Shape(g, st) && Shape(g, st') && Grew(st, st') && Attained(g, st, n, low)
    ensures Attained(g, st', n, low)
  {
    hide DirectedGraph.Reach;
    var i :| 0 <= i < |st.stack| && st.indices[st.stack[i]] == low && g.Reach(n, st.stack[i]);
    assert st'.stack[i] == st.stack[i];
  }

  lemma ScanChild(g: DirectedGraph, st0: State, st: State, st': State, n: Node, p: nat, i: nat, low: nat, lowTo: nat)
    requires Scanning(g, st0, st, n, p, i, low) && i < |g.out[n]|
    requires g.out[n][i] !in st.indices && ChildDone(g, st, st', g.out[n][i], lowTo)
    ensures n in st'.indices && Scanning(g, st0, st', n, p, i + 1, Min(low, lowTo))
  {
    hide DirectedGraph.Reach, LowReachesHigh, NoBlackToWhite, ReachesGray, ComponentsDone, Attained;
    var to := g.out[n][i];
    assert g.Edge(n, to);
    AttainedLater(g, st, st', n, low);
    if lowTo < low {
      assert OnStack(st', to) by { NewerIndex(g, st, st', n, to); }
      AttainedByParent(g, st', n, to, lowTo);
    }
    MinLow(g, st', n, low, lowTo);
    ChildKeepsBlack(g, st, st', p);
    ChildEdges(g, st, st', p, low, lowTo);
    OwnEdges(g, st, st', n, p, i, low, lowTo);
    hide Attained, EdgesAtLeast, EdgesAtLeast2, OnStack;
  }

  lemma StillVisited(st: State, st': State, v: Node)
    requires Grew(st, st')
    ensures v in st.indices ==> v in st'.indices
  {}

  /** The edges of n itself, the one to the child included, into the stack below n. */
  lemma OwnEdges(g: DirectedGraph, st: State, st': State, n: Node, p: nat, i: nat, low: nat, lowTo: nat)
    requires Shape(g, st) && Shape(g, st') && Grew(st, st') && p < |st.stack| && n in g.out && i < |g.out[n]|
    requires g.out[n][i] !in st.indices && g.out[n][i] in st'.indices
    requires forall t :: 0 <= t < i ==> g.out[n][t] in st.indices
    requires forall t, j :: 0 <= t < i && 0 <= j < p && g.out[n][t] == st.stack[j] ==> low <= st.indices[st.stack[j]]
    ensures forall t :: 0 <= t < i + 1 ==> g.out[n][t] in st'.indices
    ensures forall t, j :: 0 <= t < i + 1 && 0 <= j < p && g.out[n][t] == st'.stack[j] ==>
              Min(low, lowTo) <= st'.indices[st'.stack[j]]
  {
    forall t | 0 <= t < i + 1 ensures g.out[n][t] in st'.indices {
      StillVisited(st, st', g.out[n][t]);
    }
    forall t, j | 0 <= t < i + 1 && 0 <= j < p && g.out[n][t] == st'.stack[j]
      ensures Min(low, lowTo) <= st'.indices[st'.stack[j]]
    {
      assert st'.stack[j] == st.stack[j];
    }
  }

  /** A node visited later has a larger index. */
  lemma NewerIndex(g: DirectedGraph, st: State, st': State, n: Node, to: Node)
    requires Shape(g, st) && n in st.indices && to in st'.indices && to !in st.indices
    requires Grew(st, st')
    ensures st.indices[n] < st'.indices[to]
  {}

  lemma ChildKeepsBlack(g: DirectedGraph, st: State, st': State, p: nat)
    requires Shape(g, st) && Shape(g, st') && Grew(st, st')
    requires forall k :: p < k < |st.stack| ==> st.stack[k] !in st.grays
    ensures forall k :: p < k < |st'.stack| ==> st'.stack[k] !in st'.grays
  {
    forall k: nat | p < k < |st'.stack|
      ensures st'.stack[k] !in st'.grays
    {
      if st'.stack[k] in st.grays {
        var j := GraySlot(g, st, st'.stack[k]);
        SameSlot(g, st', j, k);
      }
    }
  }

  lemma ChildEdges(g: DirectedGraph, st: State, st': State, p: nat, low: nat, lowTo: nat)
    requires Shape(g, st) && Shape(g, st') && Grew(st, st') && p < |st.stack|
    requires EdgesAtLeast2(g, st, p, low) && EdgesAtLeast(g, st', |st.stack|, lowTo)
    ensures EdgesAtLeast2(g, st', p, Min(low, lowTo))
  {
    forall k, j | p < k < |st'.stack| && 0 <= j < p && g.Edge(st'.stack[k], st'.stack[j])
      ensures Min(low, lowTo) <= st'.indices[st'.stack[j]]
    {
      assert st'.stack[j] == st.stack[j];
      if k < |st.stack| { assert st'.stack[k] == st.stack[k]; }
    }
  }

  lemma ScanOnStack(g: DirectedGraph, st0: State, st: State, n: Node, p: nat, i: nat, low: nat)
    requires Scanning(g, st0, st, n, p, i, low) && i < |g.out[n]|
    requires OnStack(st, g.out[n][i])
    ensures g.out[n][i] in st.indices
    ensures Scanning(g, st0, st, n, p, i + 1, Min(low, st.indices[g.out[n][i]]))
  {
    hide DirectedGraph.Reach, LowReachesHigh, NoBlackToWhite, ReachesGray, ComponentsDone;
    var to := g.out[n][i];
    var k :| 0 <= k < |st.stack| && st.stack[k] == to;
    assert g.Edge(n, to);
    g.ReachEdge(n, to);
    assert Attained(g, st, n, st.indices[to]);
    MinLow(g, st, n, low, st.indices[to]);
  }

  lemma ScanSkip(g: DirectedGraph, st0: State, st: State, n: Node, p: nat, i: nat, low: nat)
    requires Scanning(g, st0, st, n, p, i, low) && i < |g.out[n]|
    requires g.out[n][i] in st.indices && !OnStack(st, g.out[n][i])
    ensures Scanning(g, st0, st, n, p, i + 1, low)
  {
    hide DirectedGraph.Reach, LowReachesHigh, NoBlackToWhite, ReachesGray, ComponentsDone, Attained;
    forall j | 0 <= j < p
      ensures g.out[n][i] != st.stack[j]
    {
      assert OnStack(st, st.stack[j]);
    }
  }

  // ------------------------------------------------------------------ what the caller sees

  lemma ScanEnd(g: DirectedGraph, st0: State, st: State, n: Node, p: nat, low: nat)
    requires n in g.out && Scanning(g, st0, st, n, p, |g.out[n]|, low)
    ensures Shape(g, st) && ReadyToLeave(g, st, n, p) && low <= st.indices[n] && Attained(g, st, n, low)
    ensures EdgesAtLeast(g, st, p, low)
  {
    hide DirectedGraph.Reach, LowReachesHigh, NoBlackToWhite, ReachesGray, ComponentsDone, Attained;
    forall w | g.Edge(n, w)
      ensures w in st.indices
    {
      var t :| 0 <= t < |g.out[n]| && g.out[n][t] == w;
    }
    forall k, j | p <= k < |st.stack| && 0 <= j < p && g.Edge(st.stack[k], st.stack[j])
      ensures low <= st.indices[st.stack[j]]
    {
      if k == p {
        var t :| 0 <= t < |g.out[n]| && g.out[n][t] == st.stack[j];
      }
    }
  }

  lemma PopVisited(g: DirectedGraph, st0: State, st: State, n: Node, p: nat)
    requires n in g.out && n in st.indices && Scanning(g, st0, st, n, p, |g.out[n]|, st.indices[n])
    requires Inv(g, Popped(st, n, p)) && Inv(g, st0)
    ensures ChildDone(g, st0, Popped(st, n, p), n, st.indices[n])
  {
    hide DirectedGraph.Reach, LowReachesHigh, NoBlackToWhite, ReachesGray, Attained;
    var st' := Popped(st, n, p);
    assert st'.stack == st0.stack;
    assert OnStack(st, n) by { assert st.stack[p] == n; }
    if n in st.components { OffItsOwnComponent(g, st, n); }
    assert !OnStack(st', n);
    assert st'.grays == st0.grays;
  }

  lemma OffItsOwnComponent(g: DirectedGraph, st: State, n: Node)
    requires ComponentsDone(g, st) && n in st.components
    ensures !OnStack(st, n)
  {}

  lemma BlackenVisited(g: DirectedGraph, st0: State, st: State, n: Node, p: nat, low: nat)
    requires n in g.out && Scanning(g, st0, st, n, p, |g.out[n]|, low) && low < st.indices[n]
    requires Inv(g, Blackened(st, n)) && EdgesAtLeast(g, st, p, low)
    ensures ChildDone(g, st0, Blackened(st, n), n, low)
  {
    hide DirectedGraph.Reach, LowReachesHigh, NoBlackToWhite, ReachesGray, ComponentsDone;
    var st' := Blackened(st, n);
    assert OnStack(st', n) by { assert st'.stack[p] == n; }
    assert st'.grays == st0.grays;
    assert Attained(g, st', n, low);
  }

  // ------------------------------------------------------------------ the result

  /** A division of all nodes into parts, each named by one of its members. */
  ghost predicate Partition(g: DirectedGraph, components: map<Node, set<Node>>) {
    && (forall r :: r in components ==> r in components[r])
    && (forall r, n :: r in components && n in components[r] ==> n in g.out)
    && (forall n :: n in g.out ==> exists r :: r in components && n in components[r])
    && (forall r, q, n :: r in components && q in components && n in components[r] && n in components[q] ==> r == q)
  }

  ghost predicate Together(components: map<Node, set<Node>>, a: Node, b: Node) {
    exists r :: r in components && a in components[r] && b in components[r]
  }

  /** tarjan_scc: two nodes share a component exactly when each reaches the other. */
  method StronglyConnectedComponents(g: DirectedGraph) returns (components: map<Node, set<Node>>)
    requires g.Valid()
    ensures Partition(g, components)
    ensures forall a, b :: a in g.out && b in g.out ==> (Together(components, a, b) <==> g.Mutual(a, b))
  {
    hide Inv, EdgesAtLeast, Attained, Partition, Together, DirectedGraph.Mutual, DirectedGraph.Valid;
    var t := new Tarjan(g);
    for i := 0 to |g.nodes|
      invariant t.Valid() && t.grays == {} && t.g == g
      invariant forall j :: 0 <= j < i ==> g.nodes[j] in t.indices
    {
      var node := g.nodes[i];
      NodeInGraph(g, i);
      if node !in t.indices {
        ghost var st := t.Now();
        t.Helper(node);
        GrewKeys(st, t.Now());
      }
    }
    components := t.components;
    AllFinished(g, t.Now());
  }

  lemma NodeInGraph(g: DirectedGraph, i: nat)
    requires g.Valid() && i < |g.nodes|
    ensures g.nodes[i] in g.out
  {
    var n := g.nodes[i];
    assert n in g.nodes;
  }

  lemma AllFinished(g: DirectedGraph, st: State)
    requires Inv(g, st) && st.grays == {}
    requires forall j :: 0 <= j < |g.nodes| ==> g.nodes[j] in st.indices
    ensures Partition(g, st.components)
    ensures forall a, b :: a in g.out && b in g.out ==> (Together(st.components, a, b) <==> g.Mutual(a, b))
  {
    hide DirectedGraph.Reach, LowReachesHigh, NoBlackToWhite;
    if st.stack != [] {
      var i := GrayBelow(g, st, 0);
    }
    forall n | n in g.out
      ensures InSome(st, n)
    {
      assert n in g.nodes;
      assert n in st.indices && !OnStack(st, n);
    }
    forall a, b | a in g.out && b in g.out
      ensures Together(st.components, a, b) <==> g.Mutual(a, b)
    {
      assert InSome(st, a);
      var r :| r in st.components && a in st.components[r];
      assert b in st.components[r] <==> g.Mutual(a, b);
    }
  }
}
