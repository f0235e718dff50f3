/** Finite directed graphs and reachability in them. */
module Graphs {
  type Node = int

  /** The nodes in iteration order and the out-neighbours of each, in iteration order. */
  datatype DirectedGraph = DirectedGraph(nodes: seq<Node>, out: map<Node, seq<Node>>) {
    ghost predicate Valid() {
      && (forall n :: n in nodes <==> n in out)
      && (forall n, m :: n in out && m in out[n] ==> m in out)
    }

    predicate Edge(a: Node, b: Node) {
      a in out && b in out[a]
    }

    /** p lists the nodes after a on a walk from a to b. */
    ghost predicate Path(a: Node, p: seq<Node>, b: Node)
      decreases p
    {
      if p == [] then a == b else Edge(a, p[0]) && Path(p[0], p[1..], b)
    }

    ghost predicate Reach(a: Node, b: Node) {
      exists p :: Path(a, p, b)
    }

    /** a and b lie on a common cycle, or are equal. */
    ghost predicate Mutual(a: Node, b: Node) {
      Reach(a, b) && Reach(b, a)
    }

    lemma ReachSelf(a: Node)
      ensures Reach(a, a)
    {
      assert Path(a, [], a);
    }

    lemma ReachEdge(a: Node, b: Node)
      requires Edge(a, b)
      ensures Reach(a, b)
    {
      assert Path(b, [], b);
      assert [b][1..] == [];
      assert Path(a, [b], b);
    }

    lemma {:induction false} PathAppend(a: Node, p: seq<Node>, b: Node, q: seq<Node>, c: Node)
      requires Path(a, p, b) && Path(b, q, c)
      ensures Path(a, p + q, c)
      decreases p
    {
      if p == [] {
        assert p + q == q;
      } else {
        PathAppend(p[0], p[1..], b, q, c);
        assert (p + q)[1..] == p[1..] + q;
      }
    }

    lemma ReachTrans(a: Node, b: Node, c: Node)
      requires Reach(a, b) && Reach(b, c)
      ensures Reach(a, c)
    {
      var p :| Path(a, p, b);
      var q :| Path(b, q, c);
      PathAppend(a, p, b, q, c);
    }

    /** Walking out of a set A whose edges lead only into A or U means passing through U. */
    lemma {:induction false} LeavesThrough(A: set<Node>, U: set<Node>, a: Node, p: seq<Node>, z: Node) returns (w: Node)
      requires a in A && Path(a, p, z) && z !in A
      requires forall u, v :: u in A && Edge(u, v) ==> v in A || v in U
      ensures w in U && Reach(a, w) && Reach(w, z)
      decreases p
    {
      var b := p[0];
      ReachEdge(a, b);
      if b in A {
        w := LeavesThrough(A, U, b, p[1..], z);
        ReachTrans(a, b, w);
      } else {
        w := b;
        assert Path(b, p[1..], z);
      }
    }

    lemma {:induction false} ReachStaysInGraph(a: Node, p: seq<Node>, b: Node)
      requires Valid() && a in out && Path(a, p, b)
      ensures b in out
      decreases p
    {
      if p != [] { ReachStaysInGraph(p[0], p[1..], b); }
    }
  }
}
