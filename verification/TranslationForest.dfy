/** Hoisting of handle translation: compiler/lib/TranslationForest.cpp, the lowering of its markers in
    compiler/passes/Lower.cpp, and the translation they call, runtime/core/translate.cpp. */
module TranslationForest {
  import opened Common

  // ------------------------------------------------------------------ translation

  const WORD: nat := 0x1_0000_0000_0000_0000

  /** 2 to the power ALASKA_SIZE_BITS, 24 by default, and that less ALASKA_SQUEEZE_BITS, 3. */
  const OFFSETS: nat := 0x100_0000
  const SLOT: nat := 0x20_0000

  /** Memory, byte by byte. */
  type Memory = nat -> Byte

  /** The little-endian word at address a. */
  function Word(m: Memory, a: nat): (w: nat)
    ensures w < WORD
  {
    m(a) + 0x100 * m(a + 1) + 0x1_0000 * m(a + 2) + 0x100_0000 * m(a + 3)
    + 0x1_0000_0000 * m(a + 4) + 0x100_0000_0000 * m(a + 5)
    + 0x1_0000_0000_0000 * m(a + 6) + 0x100_0000_0000_0000 * m(a + 7)
  }

  /** The top bit is set, and the pointer is not -1. */
  predicate IsHandle(p: nat) {
    WORD / 2 <= p < WORD - 1
  }

  /** alaska_translate: the mapping's word plus the low bits. The address of the mapping is the handle
      shifted by three bits less than the offset is wide. */
  function Translate(m: Memory, p: nat): (r: nat)
    ensures p < WORD ==> r < WORD
  {
    if IsHandle(p) then (Word(m, p / SLOT) + p % OFFSETS) % WORD else p
  }

  function Plus(p: nat, offset: int): (r: nat)
    ensures r < WORD
  {
    (p + offset) % WORD
  }

  // ------------------------------------------------------------------ the forest

  /** What a node of the pointer flow graph is: an address computation, or a load or store. */
  datatype Kind = Gep(offset: int) | Access

  /** A node; top-level nodes have the source itself as parent. `share` is a dominating sibling, if any. */
  datatype Node = Node(kind: Kind, parent: Option<nat>, children: seq<nat>, share: Option<nat>)

  /** Values the pass creates: the source pointer under a root marker, a translate call made for a
      top-level node, and derive markers. */
  datatype Value = RootMarker | TranslateCall(owner: nat, pointer: Value) | DeriveCall(base: Value, offset: int)

  /** Values after lowering: root markers are replaced by the pointer, derive markers by an address
      computation on the base. */
  datatype Lowered = Source | Translated(pointer: Lowered) | Offset(base: Lowered, bytes: int)

  function Lower(v: Value): Lowered {
    match v
    case RootMarker => Source
    case TranslateCall(_, p) => Translated(Lower(p))
    case DeriveCall(base, offset) => Offset(Lower(base), offset)
  }

  /** What a lowered value is when the source pointer is `root`; the memory, and so every mapping, is
      the same at each translation and use. */
  function Eval(m: Memory, root: nat, v: Lowered): nat {
    match v
    case Source => root
    case Translated(p) => Translate(m, Eval(m, root, p))
    case Offset(base, offset) => Plus(Eval(m, root, base), offset)
  }

  /** The node whose translate call a value comes from. */
  function Caller(v: Value): Option<nat> {
    match v
    case RootMarker => None
    case TranslateCall(owner, _) => Some(owner)
    case DeriveCall(base, _) => Caller(base)
  }

  datatype Tree = Tree(nodes: seq<Node>, tops: seq<nat>, rank: seq<nat>) {

    /** Nodes are numbered so that parents come first. Sharing follows dominance between siblings,
        which `rank` orders. */
    ghost predicate Valid() {
      && |rank| == |nodes|
      && (forall i: nat :: i < |nodes| && nodes[i].parent.Some? ==>
           nodes[i].parent.value < i && nodes[nodes[i].parent.value].kind.Gep?)
      && (forall i: nat, c: nat :: i < |nodes| && c in nodes[i].children ==> c < |nodes|)
      && (forall c: nat, i: nat :: c < |nodes| && i < |nodes| ==>
           (c in nodes[i].children <==> nodes[c].parent == Some(i)))
      && (forall c: nat :: c in tops <==> c < |nodes| && nodes[c].parent == None)
      && (forall i: nat :: i < |nodes| && nodes[i].share.Some? ==> Shares(i, nodes[i].share.value))
    }

    predicate Shares(i: nat, s: nat)
      requires |rank| == |nodes| && i < |nodes|
    {
      s < |nodes| && nodes[s].parent == nodes[i].parent && rank[s] < rank[i]
    }

    /** The node whose translation node i uses: the end of its chain of sharing. */
    function Owner(i: nat): (o: nat)
      requires Valid() && i < |nodes|
      ensures o < |nodes| && nodes[o].share.None? && nodes[o].parent == nodes[i].parent
      decreases rank[i]
    {
      if nodes[i].share.None? then i
      else
        assert Shares(i, nodes[i].share.value);
        Owner(nodes[i].share.value)
    }

    /** p is the chain of sharing of node i: it starts at i, each next node is the one the last shares with,
        and it ends at a node that shares with none. */
    ghost predicate Chain(p: seq<nat>, i: nat) {
      && p != [] && p[0] == i && (forall k: nat :: k < |p| ==> p[k] < |nodes|)
      && (forall k: nat :: k + 1 < |p| ==> nodes[p[k]].share == Some(p[k + 1]))
      && nodes[p[|p| - 1]].share.None?
    }

    lemma {:induction false} ChainOf(i: nat) returns (p: seq<nat>)
      requires Valid() && i < |nodes|
      ensures Chain(p, i) && p[|p| - 1] == Owner(i)
      decreases rank[i]
    {
      if nodes[i].share.None? {
        p := [i];
      } else {
        assert Shares(i, nodes[i].share.value);
        var rest := ChainOf(nodes[i].share.value);
        p := [i] + rest;
        forall k: nat | k + 1 < |p| ensures nodes[p[k]].share == Some(p[k + 1]) {
          if k > 0 { assert nodes[rest[k - 1]].share == Some(rest[k - 1 + 1]); }
        }
      }
    }

    /** There is one chain for each node, and its owner is where that ends. */
    lemma {:induction false} OwnerEndsChain(i: nat, p: seq<nat>)
      requires Valid() && i < |nodes| && Chain(p, i)
      ensures p[|p| - 1] == Owner(i) && (|p| == 1 <==> nodes[i].share.None?)
      decreases |p|
    {
      if |p| > 1 {
        var rest := p[1..];
        assert nodes[p[0]].share == Some(p[0 + 1]);
        forall k: nat | k + 1 < |rest| ensures nodes[rest[k]].share == Some(rest[k + 1]) {
          assert nodes[p[k + 1]].share == Some(p[k + 1 + 1]);
        }
        assert Shares(i, nodes[i].share.value);
        OwnerEndsChain(rest[0], rest);
      }
    }

    /** The translated value that reaches node i, and the one it makes. */
    function Incoming(i: nat): Value
      requires Valid() && i < |nodes|
      decreases i, 0
    {
      match nodes[i].parent
      case None => TranslateCall(Owner(i), RootMarker)
      case Some(p) => DeriveCall(Incoming(p), nodes[p].kind.offset)
    }

    /** The pointer the program itself computes on the way to node i, from the source pointer. */
    function Pointer(root: nat, i: nat): nat
      requires Valid() && i < |nodes|
      decreases i
    {
      match nodes[i].parent
      case None => root
      case Some(p) => Plus(Pointer(root, p), nodes[p].kind.offset)
    }

    /** The sum of the offsets above node i. */
    function OffsetSum(i: nat): int
      requires Valid() && i < |nodes|
      decreases i
    {
      match nodes[i].parent
      case None => 0
      case Some(p) => OffsetSum(p) + nodes[p].kind.offset
    }

    /** The top-level node above node i. */
    function Top(i: nat): (t: nat)
      requires Valid() && i < |nodes|
      ensures t < |nodes| && nodes[t].parent.None?
      decreases i
    {
      match nodes[i].parent
      case None => i
      case Some(p) => Top(p)
    }

    /** v comes from the translate call made for the end of the chain of node i's top-level node. */
    ghost predicate FromOwnChain(v: Value, i: nat)
      requires Valid() && i < |nodes|
    {
      exists p :: Chain(p, Top(i)) && Caller(v) == Some(p[|p| - 1])
    }

    lemma {:induction false} IncomingFromOwnChain(i: nat)
      requires Valid() && i < |nodes|
      ensures Caller(Incoming(i)) == Some(Owner(Top(i))) && FromOwnChain(Incoming(i), i)
      decreases i
    {
      var p := ChainOf(Top(i));
      match nodes[i].parent
      case None =>
      case Some(q) => IncomingFromOwnChain(q);
    }

    /** A reflexive and transitive relation that holds along sharing, as dominance between siblings does by
        construction, and from a node to those below it, as from a value to its uses. */
    ghost predicate Dominance(dom: (nat, nat) -> bool) {
      && (forall a, b, c :: dom(a, b) && dom(b, c) ==> dom(a, c))
      && (forall i: nat :: i < |nodes| ==> dom(i, i))
      && (forall i: nat :: i < |nodes| && nodes[i].share.Some? ==> dom(nodes[i].share.value, i))
      && (forall i: nat :: i < |nodes| && nodes[i].parent.Some? ==> dom(nodes[i].parent.value, i))
    }

    lemma {:induction false} OwnerDominates(dom: (nat, nat) -> bool, i: nat)
      requires Valid() && Dominance(dom) && i < |nodes|
      ensures dom(Owner(i), i)
      decreases rank[i]
    {
      if nodes[i].share.Some? {
        assert Shares(i, nodes[i].share.value);
        OwnerDominates(dom, nodes[i].share.value);
      }
    }

    lemma {:induction false} TopDominates(dom: (nat, nat) -> bool, i: nat)
      requires Valid() && Dominance(dom) && i < |nodes|
      ensures dom(Top(i), i)
      decreases i
    {
      if nodes[i].parent.Some? {
        TopDominates(dom, nodes[i].parent.value);
      }
    }

    /** So a value from a node's own chain is translated where it dominates the node that uses it. */
    lemma CallDominatesUse(dom: (nat, nat) -> bool, v: Value, i: nat)
      requires Valid() && Dominance(dom) && i < |nodes| && FromOwnChain(v, i)
      ensures Caller(v).Some? && Caller(v).value < |nodes| && nodes[Caller(v).value].share.None?
      ensures dom(Caller(v).value, i)
    {
      var p :| Chain(p, Top(i)) && Caller(v) == Some(p[|p| - 1]);
      OwnerEndsChain(Top(i), p);
      OwnerDominates(dom, Top(i));
      TopDominates(dom, i);
    }

    predicate Subtree(i: nat, j: nat)
      requires Valid() && j < |nodes|
      decreases j
    {
      j == i || (nodes[j].parent.Some? && Subtree(i, nodes[j].parent.value))
    }

    lemma {:induction false} ThroughChild(i: nat, j: nat) returns (c: nat)
      requires Valid() && i < |nodes| && j < |nodes| && Subtree(i, j) && i != j
      ensures c < |nodes| && c in nodes[i].children && Subtree(c, j)
      decreases j
    {
      var p := nodes[j].parent.value;
      if p == i {
        c := j;
      } else {
        c := ThroughChild(i, p);
      }
    }

    lemma {:induction false} UnderATop(j: nat) returns (t: nat)
      requires Valid() && j < |nodes|
      ensures t in tops && t < |nodes| && Subtree(t, j)
      decreases j
    {
      if nodes[j].parent.None? {
        t := j;
      } else {
        t := UnderATop(nodes[j].parent.value);
      }
    }
  }

  class Forest {
    const tree: Tree
    const incoming: array<Option<Value>>
    const translated: array<Option<Value>>
    const operand: array<Option<Value>>

    ghost predicate Valid() {
      && tree.Valid()
      && incoming.Length == translated.Length == operand.Length == |tree.nodes|
      && incoming != translated && incoming != operand && translated != operand
    }

    constructor (tree: Tree)
      requires tree.Valid()
      ensures Valid() && this.tree == tree && fresh(incoming) && fresh(translated) && fresh(operand)
      ensures forall i :: 0 <= i < |tree.nodes| ==> incoming[i] == None
    {
      this.tree := tree;
      incoming := new Option<Value>[|tree.nodes|](_ => None);
      translated := new Option<Value>[|tree.nodes|](_ => None);
      operand := new Option<Value>[|tree.nodes|](_ => None);
    }

    /** Node i has been rewritten: an address computation has its translated counterpart, a load or
        store its translated operand. */
    predicate Done(i: nat)
      requires Valid() && i < |tree.nodes|
      reads translated, operand
    {
      match tree.nodes[i].kind
      case Gep(offset) => translated[i] == Some(DeriveCall(tree.Incoming(i), offset))
      case Access => operand[i] == Some(tree.Incoming(i))
    }

    /** The value node i has been given, or the one it makes, comes from its own chain. */
    ghost predicate FromOwn(i: nat)
      requires Valid() && i < |tree.nodes|
      reads translated, operand
    {
      match tree.nodes[i].kind
      case Gep(_) => translated[i].Some? && tree.FromOwnChain(translated[i].value, i)
      case Access => operand[i].Some? && tree.FromOwnChain(operand[i].value, i)
    }

    lemma DoneIsFromOwn(i: nat)
      requires Valid() && i < |tree.nodes| && Done(i)
      ensures FromOwn(i)
    {
      tree.IncomingFromOwnChain(i);
      var p: seq<nat> :| tree.Chain(p, tree.Top(i)) && Caller(tree.Incoming(i)) == Some(p[|p| - 1]);
      hide Tree.Chain, Tree.Valid, Tree.Incoming;
    }

    /** Every top-level node that shares with no other holds its own translate call. */
    predicate Seeded()
      requires Valid()
      reads incoming
    {
      forall i: nat :: i < |tree.nodes| ==>
        incoming[i] ==
        if tree.nodes[i].parent.None? && tree.nodes[i].share.None? then Some(TranslateCall(i, RootMarker)) else None
    }

    method ComputeShared(i: nat) returns (shared: Option<nat>)
      requires Valid() && i < |tree.nodes|
      ensures exists p :: tree.Chain(p, i) && shared == if |p| == 1 then None else Some(p[|p| - 1])
      ensures shared == if tree.nodes[i].share.None? then None else Some(tree.Owner(i))
      decreases tree.rank[i]
    {
      ghost var p := tree.ChainOf(i);
      tree.OwnerEndsChain(i, p);
      if tree.nodes[i].share.None? {
        return None;
      }
      var next := tree.nodes[i].share.value;
      assert tree.Shares(i, next);
      shared := ComputeShared(next);
      if shared.None? {
        shared := Some(next);
      }
    }

    method IncomingTranslated(i: nat) returns (v: Value)
      requires Valid() && Seeded() && i < |tree.nodes|
      requires tree.nodes[i].parent.Some? ==> Done(tree.nodes[i].parent.value)
      ensures v == tree.Incoming(i)
    {
      if incoming[i].Some? {
        return incoming[i].value;
      }
      if tree.nodes[i].parent.None? {
        var shared := ComputeShared(i);
        assert incoming[shared.value].Some?;
        return incoming[shared.value].value;
      }
      v := translated[tree.nodes[i].parent.value].value;
    }

    /** Rewriting node i and then everything below it. */
    method ApplyNode(i: nat)
      requires Valid() && Seeded() && i < |tree.nodes|
      requires tree.nodes[i].parent.Some? ==> Done(tree.nodes[i].parent.value)
      modifies translated, operand
      ensures forall j: nat :: j < |tree.nodes| && (tree.Subtree(i, j) || old(Done(j))) ==> Done(j)
      decreases |tree.nodes| - i
    {
      var t := IncomingTranslated(i);
      if tree.nodes[i].kind.Gep? {
        translated[i] := Some(DeriveCall(t, tree.nodes[i].kind.offset));
      } else {
        operand[i] := Some(t);
      }
      for k := 0 to |tree.nodes[i].children|
        invariant Done(i) && Seeded()
        invariant forall j: nat :: j < |tree.nodes| && old(Done(j)) ==> Done(j)
        invariant forall l: nat, j: nat :: l < k && j < |tree.nodes| && tree.Subtree(tree.nodes[i].children[l], j) ==>
                    Done(j)
      {
        var c := tree.nodes[i].children[k];
        assert c in tree.nodes[i].children && tree.nodes[c].parent == Some(i);
        ApplyNode(c);
      }
      forall j: nat | j < |tree.nodes| && tree.Subtree(i, j) ensures Done(j) {
        if j != i {
          var c := tree.ThroughChild(i, j);
          var l: nat :| l < |tree.nodes[i].children| && tree.nodes[i].children[l] == c;
        }
      }
    }

    /** Translate calls for the top-level nodes that share with no other. */
    method Seed()
      requires Valid() && forall i :: 0 <= i < |tree.nodes| ==> incoming[i] == None
      modifies incoming
      ensures Seeded()
    {
      for k := 0 to |tree.tops|
        invariant forall i: nat :: i < |tree.nodes| ==>
          incoming[i] ==
          if i in tree.tops[..k] && tree.nodes[i].share.None? then Some(TranslateCall(i, RootMarker)) else None
      {
        var c := tree.tops[k];
        assert c in tree.tops;
        if tree.nodes[c].share.None? {
          incoming[c] := Some(TranslateCall(c, RootMarker));
        }
      }
      assert tree.tops[..|tree.tops|] == tree.tops;
    }

    lemma TopsHaveNoParent()
      requires Valid()
      ensures forall k :: 0 <= k < |tree.tops| ==>
                tree.tops[k] < |tree.nodes| && tree.nodes[tree.tops[k]].parent.None?
    {
      assert forall k :: 0 <= k < |tree.tops| ==> tree.tops[k] in tree.tops;
    }

    /** The rewriting of every tree. */
    method ApplyTrees()
      requires Valid() && Seeded()
      modifies translated, operand
      ensures forall k: nat, j: nat :: k < |tree.tops| && j < |tree.nodes| && tree.Subtree(tree.tops[k], j) ==> Done(j)
    {
      TopsHaveNoParent();
      hide Done, Seeded, Tree.Valid, Tree.Subtree;
      for k := 0 to |tree.tops|
        invariant Seeded()
        invariant forall l: nat, j: nat :: l < k && j < |tree.nodes| && tree.Subtree(tree.tops[l], j) ==> Done(j)
      {
        ApplyNode(tree.tops[k]);
      }
    }

    /** The last part of apply. */
    method Apply()
      requires Valid() && forall i :: 0 <= i < |tree.nodes| ==> incoming[i] == None
      modifies incoming, translated, operand
      ensures forall j: nat :: j < |tree.nodes| ==> Done(j) && FromOwn(j)
    {
      hide Done, FromOwn, Seeded, Tree.Valid, Tree.Subtree;
      Seed();
      ApplyTrees();
      forall j: nat | j < |tree.nodes| ensures Done(j) && FromOwn(j) {
        var t := tree.UnderATop(j);
        var l: nat :| l < |tree.tops| && tree.tops[l] == t;
        DoneIsFromOwn(j);
      }
    }
  }

  // ------------------------------------------------------------------ meaning

  /** The address the hoisted form uses at node i, and the one that translating right there gives. */
  function Hoisted(t: Tree, m: Memory, root: nat, i: nat): nat
    requires t.Valid() && i < |t.nodes|
  {
    Eval(m, root, Lower(t.Incoming(i)))
  }

  function Conservative(t: Tree, m: Memory, root: nat, i: nat): nat
    requires t.Valid() && i < |t.nodes|
  {
    Translate(m, t.Pointer(root, i))
  }

  lemma PlusPlus(p: nat, a: int, b: int)
    ensures Plus(Plus(p, a), b) == Plus(p, a + b)
  {
    var q := (p + a) / WORD;
    assert p + a == q * WORD + (p + a) % WORD;
    ModMoves((p + a) % WORD + b, q);
  }

  lemma ModMoves(x: int, q: int)
    ensures (x + q * WORD) % WORD == x % WORD
  {
    var y := x + q * WORD;
    assert x == x / WORD * WORD + x % WORD;
    assert y == (x / WORD + q) * WORD + x % WORD;
  }

  /** Both sides in closed form: the hoisted address is the translated source plus the offsets, the
      program's pointer is the source plus the offsets. */
  lemma {:induction false} Closed(t: Tree, m: Memory, root: nat, i: nat)
    requires t.Valid() && i < |t.nodes| && root < WORD
    ensures Hoisted(t, m, root, i) == Plus(Translate(m, root), t.OffsetSum(i))
    ensures t.Pointer(root, i) == Plus(root, t.OffsetSum(i))
    decreases i
  {
    PlusZero(Translate(m, root), root);
    hide Translate, Plus;
    match t.nodes[i].parent
    case None =>
      EvalTranslateCall(m, root, t.Owner(i));
    case Some(p) =>
      var offset := t.nodes[p].kind.offset;
      Closed(t, m, root, p);
      PlusPlus(Translate(m, root), t.OffsetSum(p), offset);
      PlusPlus(root, t.OffsetSum(p), offset);
      assert Lower(t.Incoming(i)) == Offset(Lower(t.Incoming(p)), offset);
  }

  lemma PlusZero(p: nat, q: nat)
    requires p < WORD && q < WORD
    ensures Plus(p, 0) == p && Plus(q, 0) == q
  {}

  lemma EvalTranslateCall(m: Memory, root: nat, owner: nat)
    ensures Eval(m, root, Lower(TranslateCall(owner, RootMarker))) == Translate(m, root)
  {
    assert Lower(RootMarker) == Source;
  }

  /** The program's pointer still names the object the source names: for a handle, it selects the same
      mapping word; otherwise it has not become a handle. */
  predicate SameObject(root: nat, p: nat) {
    if IsHandle(root) then IsHandle(p) && p / SLOT == root / SLOT else !IsHandle(p)
  }

  /** Hoisting preserves the address of an access, whatever memory holds, exactly when the access stays
      within its object. */
  lemma HoistingPreservesIff(t: Tree, root: nat, i: nat)
    requires t.Valid() && i < |t.nodes| && root < WORD
    ensures (forall m: Memory :: Hoisted(t, m, root, i) == Conservative(t, m, root, i)) <==>
            SameObject(root, t.Pointer(root, i))
  {
    var p, sum := t.Pointer(root, i), t.OffsetSum(i);
    Closed(t, _ => 0, root, i);
    if SameObject(root, p) {
      forall m: Memory ensures Hoisted(t, m, root, i) == Conservative(t, m, root, i) {
        Closed(t, m, root, i);
        StaysPut(m, root, p, sum);
      }
    } else {
      var m := Distinguish(root, p, sum);
      Closed(t, m, root, i);
      assert Hoisted(t, m, root, i) != Conservative(t, m, root, i);
    }
  }

  /** For a handle, that is an offset sum that neither underflows the low 21 bits nor overflows them.
      Handles of regular objects, below 64 KB, have room to spare. */
  lemma InRangeIsSameObject(root: nat, sum: int)
    requires IsHandle(root) && 0 <= root + sum < WORD - 1
    ensures SameObject(root, Plus(root, sum)) <==> 0 <= root % SLOT + sum < SLOT
  {
    var p := root + sum;
    assert root == root / SLOT * SLOT + root % SLOT;
    assert p == p / SLOT * SLOT + p % SLOT;
    if 0 <= root % SLOT + sum < SLOT {
      assert p / SLOT == root / SLOT;
    }
  }

  lemma StaysPut(m: Memory, root: nat, p: nat, sum: int)
    requires root < WORD && p == Plus(root, sum) && SameObject(root, p)
    ensures Plus(Translate(m, root), sum) == Translate(m, p)
  {
    if IsHandle(root) {
      var w := Word(m, root / SLOT);
      LowBits(root, p);
      PlusPlus(w, root % OFFSETS, sum);
      var q := (root + sum) / WORD;
      assert root + sum == q * WORD + p;
      assert w + (root % OFFSETS + sum) == w + p % OFFSETS + q * WORD;
      ModMoves(w + p % OFFSETS, q);
    }
  }

  lemma LowBits(root: nat, p: nat)
    requires p / SLOT == root / SLOT
    ensures p % OFFSETS - root % OFFSETS == p - root
  {
    LowBitsOf(root);
    LowBitsOf(p);
  }

  lemma LowBitsOf(x: nat)
    ensures x % OFFSETS == x - x / SLOT / 8 * OFFSETS
  {
    assert x == x / SLOT * SLOT + x % SLOT;
    assert x / SLOT == x / SLOT / 8 * 8 + x / SLOT % 8;
    assert x == x / SLOT / 8 * OFFSETS + (x / SLOT % 8 * SLOT + x % SLOT);
    RemainderIs(x, x / SLOT / 8, x / SLOT % 8 * SLOT + x % SLOT);
  }

  lemma RemainderIs(x: nat, q: nat, r: nat)
    requires x == q * OFFSETS + r && r < OFFSETS
    ensures x % OFFSETS == r
  {}

  /** Memory all zero, and memory zero but for a one at address a. */
  ghost predicate Zero(m: Memory) {
    forall x: nat :: m(x) == 0
  }

  ghost predicate OneAt(m: Memory, a: nat) {
    forall x: nat :: m(x) == if x == a then 1 else 0
  }

  /** Outside, one of two memories tells the difference. */
  lemma Distinguish(root: nat, p: nat, sum: int) returns (m: Memory)
    requires root < WORD && p == Plus(root, sum) && !SameObject(root, p)
    ensures Plus(Translate(m, root), sum) != Translate(m, p)
  {
    var zero: Memory := _ => 0;
    var one: Memory := x => if x == root / SLOT then 1 else 0;
    assert Zero(zero) && OneAt(one, root / SLOT);
    if !IsHandle(root) {
      m := zero;
      PlainPointer(zero, root, p, sum);
    } else if Plus(Translate(zero, root), sum) != Translate(zero, p) {
      m := zero;
    } else {
      m := one;
      FromHandle(zero, one, root, p, sum);
    }
  }

  /** Outside, from any handle: 2 MB on, an offset of 22 bits, the address of the mapping has moved by one
      byte, and some memory tells the difference. */
  lemma OffsetLeavesObject(root: nat) returns (m: Memory)
    requires IsHandle(root) && root + SLOT < WORD - 1
    ensures SLOT < OFFSETS && IsHandle(Plus(root, SLOT)) && Plus(root, SLOT) / SLOT == root / SLOT + 1
    ensures !SameObject(root, Plus(root, SLOT))
    ensures Plus(Translate(m, root), SLOT) != Translate(m, Plus(root, SLOT))
  {
    assert Plus(root, SLOT) == root + SLOT;
    m := Distinguish(root, root + SLOT, SLOT);
  }

  /** A plain pointer that has become a handle is told apart by memory all zero. */
  lemma PlainPointer(zero: Memory, root: nat, p: nat, sum: int)
    requires p == Plus(root, sum) && Zero(zero) && IsHandle(p)
    ensures Translate(zero, p) != Plus(root, sum)
  {
    WordsOf(zero, zero, p / SLOT);
  }

  lemma FromHandle(zero: Memory, one: Memory, root: nat, p: nat, sum: int)
    requires root < WORD && p == Plus(root, sum) && IsHandle(root) && !SameObject(root, p) && Zero(zero)
             && OneAt(one, root / SLOT)
    requires Plus(Translate(zero, root), sum) == Translate(zero, p)
    ensures Plus(Translate(one, root), sum) != Translate(one, p)
  {
    var low := root % OFFSETS;
    WordsOf(zero, one, root / SLOT);
    LowAndSum(root, sum);
    assert Translate(zero, root) == Plus(0, low) && Translate(one, root) == Plus(1, low) by { hide Word; }
    if IsHandle(p) {
      OtherWord(one, root / SLOT, p / SLOT);
      WordsOf(zero, one, p / SLOT);
      hide Word;
      HandleDiffers(root, p, sum, Word(one, p / SLOT));
      hide Plus;
    } else {
      hide Word;
    }
  }

  lemma WordsOf(zero: Memory, one: Memory, a: nat)
    ensures Zero(zero) ==> Word(zero, a) == 0
    ensures OneAt(one, a) ==> Word(one, a) == 1
  {}

  lemma LowAndSum(root: nat, sum: int)
    ensures Plus(Plus(0, root % OFFSETS), sum) == Plus(0, root % OFFSETS + sum)
    ensures Plus(Plus(1, root % OFFSETS), sum) == Plus(Plus(0, root % OFFSETS + sum), 1)
  {
    PlusPlus(0, root % OFFSETS, sum);
    PlusPlus(1, root % OFFSETS, sum);
    PlusPlus(0, root % OFFSETS + sum, 1);
  }

  /** With zero words the two addresses agreed; a one in the source's word and none in the lowest byte
      of the other's sets them apart. */
  lemma HandleDiffers(root: nat, p: nat, sum: int, w: nat)
    requires p < WORD && w < WORD && w % 0x100 == 0
    requires Plus(0, root % OFFSETS + sum) == p % OFFSETS
    ensures Plus(Plus(0, root % OFFSETS + sum), 1) != (w + p % OFFSETS) % WORD
  {}

  /** Only the word at a itself has lowest byte one. */
  lemma OtherWord(m: Memory, a: nat, b: nat)
    requires a != b && OneAt(m, a)
    ensures Word(m, b) % 0x100 == 0 && Word(m, a) == 1
  {}
}
