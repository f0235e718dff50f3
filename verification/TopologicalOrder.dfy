/** Depth-first topological sorting: topological_order and its helper in
    compiler/include/alaska/Graph.h. */
module TopologicalOrder {
  import opened Common
  import opened Graphs

  /** A walk of at least one edge from a to b. */
  ghost predicate Leads(g: DirectedGraph, a: Node, b: Node) {
    exists m :: g.Edge(a, m) && g.Reach(m, b)
  }

  ghost predicate HasCycle(g: DirectedGraph) {
    exists n :: Leads(g, n, n)
  }

  lemma LeadsOn(g: DirectedGraph, a: Node, b: Node, c: Node)
    requires (a == b || Leads(g, a, b)) && g.Edge(b, c)
    ensures Leads(g, a, c)
  {
    g.ReachSelf(c);
    g.ReachEdge(b, c);
    if a != b {
      var m :| g.Edge(a, m) && g.Reach(m, b);
      g.ReachTrans(m, b, c);
    }
  }

  /** Every edge out of s[j] leads to a node before s[j]. */
  ghost predicate SinksFirst(g: DirectedGraph, s: seq<Node>) {
    forall j, w :: 0 <= j < |s| && g.Edge(s[j], w) ==> w in s[..j]
  }

  /** Every node once, and every edge forward. */
  ghost predicate Topological(g: DirectedGraph, s: seq<Node>) {
    && Distinct(s)
    && (forall n :: n in g.out <==> n in s)
    && (forall i, j :: 0 <= i < |s| && 0 <= j < |s| && g.Edge(s[i], s[j]) ==> i < j)
  }

  lemma SamePlace(s: seq<Node>, i: nat, j: nat)
    requires Distinct(s) && i < |s| && j < |s| && s[i] == s[j]
    ensures i == j
  {}

  /** Walks go forward in a topological order. */
  lemma {:induction false} WalksForward(g: DirectedGraph, s: seq<Node>, i: nat, p: seq<Node>, j: nat)
    requires g.Valid() && Topological(g, s) && i < |s| && j < |s| && g.Path(s[i], p, s[j])
    ensures i <= j
    decreases p
  {
    if p == [] {
      SamePlace(s, i, j);
    } else {
      assert p[0] in g.out;
      var k: nat :| k < |s| && s[k] == p[0];
      WalksForward(g, s, k, p[1..], j);
    }
  }

  lemma NoCycle(g: DirectedGraph, s: seq<Node>)
    requires g.Valid() && Topological(g, s)
    ensures !HasCycle(g)
  {
    if HasCycle(g) {
      var n :| Leads(g, n, n);
      var m :| g.Edge(n, m) && g.Reach(m, n);
      var p :| g.Path(m, p, n);
      var i: nat :| i < |s| && s[i] == n;
      var j: nat :| j < |s| && s[j] == m;
      WalksForward(g, s, j, p, i);
    }
  }

  class Sorter {
    const g: DirectedGraph
    var order: seq<Node>
    var permanentMark: set<Node>
    var temporaryMark: set<Node>

    ghost predicate Valid()
      reads this
    {
      && g.Valid()
      && Distinct(order) && SinksFirst(g, order)
      && (forall n :: n in permanentMark <==> n in order)
      && (forall n :: n in permanentMark ==> n in g.out && n !in temporaryMark)
    }

    constructor (g: DirectedGraph)
      requires g.Valid()
      ensures Valid() && this.g == g && permanentMark == {} && temporaryMark == {}
    {
      this.g := g;
      order, permanentMark, temporaryMark := [], {}, {};
    }

    /** topological_order_helper: false means that a node on the current path was met again. */
    method Helper(node: Node) returns (ok: bool)
      requires Valid() && node in g.out
      requires forall t :: t in temporaryMark ==> Leads(g, t, node)
      modifies this
      ensures ok ==> Valid() && node in permanentMark && temporaryMark == old(temporaryMark)
      ensures ok ==> old(order) <= order && old(permanentMark) <= permanentMark
      ensures !ok ==> HasCycle(g)
      decreases g.out.Keys - permanentMark - temporaryMark
    {
      if node in permanentMark {
        return true;
      }
      if node in temporaryMark {
        return false;
      }
      temporaryMark := temporaryMark + {node};
      var outs := g.out[node];
      for i := 0 to |outs|
        invariant Valid() && temporaryMark == old(temporaryMark) + {node}
        invariant old(order) <= order && old(permanentMark) <= permanentMark
        invariant forall j :: 0 <= j < i ==> outs[j] in permanentMark
      {
        var out := outs[i];
        forall t | t in temporaryMark
          ensures Leads(g, t, out)
        {
          LeadsOn(g, t, node, out);
        }
        var good := Helper(out);
        if !good {
          return false;
        }
      }
      temporaryMark := temporaryMark - {node};
      PushSink(g, order, node);
      permanentMark := permanentMark + {node};
      order := order + [node];
      return true;
    }
  }

  lemma PushSink(g: DirectedGraph, s: seq<Node>, n: Node)
    requires Distinct(s) && SinksFirst(g, s) && n !in s
    requires forall w :: g.Edge(n, w) ==> w in s
    ensures Distinct(s + [n]) && SinksFirst(g, s + [n])
  {
    var t := s + [n];
    forall j, w | 0 <= j < |t| && g.Edge(t[j], w)
      ensures w in t[..j]
    {
      assert t[..|s|] == s;
      if j < |s| { assert t[..j] == s[..j]; }
    }
  }

  function Reversed(s: seq<Node>): seq<Node> {
    seq(|s|, i requires 0 <= i < |s| => s[|s| - 1 - i])
  }

  /** A finished order with sinks first is a topological order backwards. */
  lemma ReversedIsTopological(g: DirectedGraph, s: seq<Node>)
    requires Distinct(s) && SinksFirst(g, s) && forall n :: n in g.out <==> n in s
    ensures Topological(g, Reversed(s))
  {
    var r := Reversed(s);
    var n := |s|;
    forall v
      ensures v in s <==> v in r
    {
      if v in s {
        var i :| 0 <= i < n && s[i] == v;
        assert r[n - 1 - i] == v;
      }
    }
    forall i, j | 0 <= i < n && 0 <= j < n && g.Edge(r[i], r[j])
      ensures i < j
    {
      assert r[j] in s[..n - 1 - i];
      var k :| 0 <= k < n - 1 - i && s[k] == r[j];
      assert s[n - 1 - j] == s[k];
    }
  }

  /** topological_order: an order in which every edge goes forward, or nothing exactly when the graph
      has a cycle. */
  method Sort(g: DirectedGraph) returns (r: Option<seq<Node>>)
    requires g.Valid()
    ensures r.Some? ==> Topological(g, r.value)
    ensures r.None? <==> HasCycle(g)
  {
    var t := new Sorter(g);
    for i := 0 to |g.nodes|
      invariant t.Valid() && t.g == g && t.temporaryMark == {}
      invariant forall j :: 0 <= j < i ==> g.nodes[j] in t.permanentMark
    {
      var node := g.nodes[i];
      if node !in t.permanentMark {
        var ok := t.Helper(node);
        if !ok {
          return None;
        }
      }
    }
    assert forall n :: n in g.out <==> n in t.order by {
      forall n | n in g.out ensures n in t.order { assert n in g.nodes; }
    }
    ReversedIsTopological(g, t.order);
    NoCycle(g, Reversed(t.order));
    return Some(Reversed(t.order));
  }
}
