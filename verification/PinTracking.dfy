/** The assignment of pin cells: the greedy colouring in compiler/passes/PinTracking.cpp. */
module PinCells {
  import opened Common
  import opened TranslationLiveness

  /** Translations s and t, with the blocks each is live in, share a block. */
  predicate Interferes(live: seq<set<nat>>, s: nat, t: nat)
    requires s < |live| && t < |live|
  {
    live[s] * live[t] != {}
  }

  /** The translations to track, in the order the pass's containers iterate them, each once. */
  ghost predicate Tracks(live: seq<set<nat>>, must: seq<nat>) {
    && (forall i: nat :: i < |must| ==> must[i] < |live|)
    && (forall i: nat, j: nat :: i < j < |must| ==> must[i] != must[j])
  }

  // ------------------------------------------------------------------ interference

  type Edges = map<nat, set<nat>>

  /** operator[] of the map: an absent key means the empty set. */
  function Get(edges: Edges, t: nat): set<nat> {
    if t in edges then edges[t] else {}
  }

  function Add(edges: Edges, t: nat, s: nat): Edges {
    edges[t := Get(edges, t) + {s}]
  }

  /** s and t are `first` and another tracked translation that is live in block b. */
  ghost predicate PairAt(live: seq<set<nat>>, must: seq<nat>, first: nat, b: nat, s: nat, t: nat)
    requires Tracks(live, must)
  {
    s != t && ((t == first && s in must && b in live[s]) || (s == first && t in must && b in live[t]))
  }

  method AddBlock(live: seq<set<nat>>, must: seq<nat>, edges: Edges, first: nat, b: nat) returns (edges': Edges)
    requires Tracks(live, must) && first in must
    ensures forall s, t :: s in Get(edges', t) <==> s in Get(edges, t) || PairAt(live, must, first, b, s, t)
  {
    edges' := edges;
    for i := 0 to |must|
      invariant forall s, t :: s in Get(edges', t) <==> s in Get(edges, t) || PairAt(live, must[..i], first, b, s, t)
    {
      var second := must[i];
      if second != first && b in live[second] {
        edges' := Add(edges', first, second);
        edges' := Add(edges', second, first);
      }
      assert forall s :: s in must[..i + 1] <==> s in must[..i] || s == second;
    }
    assert must[..|must|] == must;
  }

  /** s and t are `first` and a tracked translation that interferes with it, or both `first`. */
  ghost predicate PairOf(live: seq<set<nat>>, must: seq<nat>, first: nat, s: nat, t: nat)
    requires Tracks(live, must) && first < |live|
  {
    || (s == t == first)
    || (s != t && ((t == first && s in must && Interferes(live, s, first))
      || (s == first && t in must && Interferes(live, first, t))))
  }

  method AddFirst(live: seq<set<nat>>, must: seq<nat>, edges: Edges, first: nat) returns (edges': Edges)
    requires Tracks(live, must) && first in must
    ensures forall s, t :: s in Get(edges', t) <==> s in Get(edges, t) || PairOf(live, must, first, s, t)
  {
    edges' := Add(edges, first, first);
    ghost var start := edges';
    var todo := live[first];
    while todo != {}
      invariant todo <= live[first]
      invariant forall s, t :: s in Get(edges', t) <==>
                s in Get(start, t) || exists b :: b in live[first] - todo && PairAt(live, must, first, b, s, t)
    {
      var b: nat :| b in todo;
      ghost var before, oldTodo := edges', todo;
      edges' := AddBlock(live, must, edges', first, b);
      todo := todo - {b};
      forall s, t
        ensures s in Get(edges', t) <==>
                s in Get(start, t) || exists c :: c in live[first] - todo && PairAt(live, must, first, c, s, t)
      {
        if exists c :: c in live[first] - oldTodo && PairAt(live, must, first, c, s, t) {
          var c: nat :| c in live[first] - oldTodo && PairAt(live, must, first, c, s, t);
          assert c in live[first] - todo;
        }
        if PairAt(live, must, first, b, s, t) {
          assert b in live[first] - todo;
        }
      }
    }
    forall s, t ensures s in Get(edges', t) <==> s in Get(edges, t) || PairOf(live, must, first, s, t) {
      PairsOfBlocks(live, must, first, s, t);
    }
  }

  lemma PairsOfBlocks(live: seq<set<nat>>, must: seq<nat>, first: nat, s: nat, t: nat)
    requires Tracks(live, must) && first in must
    ensures PairOf(live, must, first, s, t) <==>
            s == t == first || exists b :: b in live[first] && PairAt(live, must, first, b, s, t)
  {
    if s != t && PairOf(live, must, first, s, t) {
      var b: nat :| b in live[s] * live[t];
      assert PairAt(live, must, first, b, s, t);
    }
    if exists b :: b in live[first] && PairAt(live, must, first, b, s, t) {
      var b: nat :| b in live[first] && PairAt(live, must, first, b, s, t);
      assert b in live[s] * live[t];
    }
  }

  /** The finished map: everything a tracked translation shares a block with, itself included. */
  ghost predicate Interference(live: seq<set<nat>>, must: seq<nat>, edges: Edges)
    requires Tracks(live, must)
  {
    forall s, t :: s in Get(edges, t) <==> s in must && t in must && (s == t || Interferes(live, s, t))
  }

  method Interferences(live: seq<set<nat>>, must: seq<nat>) returns (edges: Edges)
    requires Tracks(live, must)
    ensures Interference(live, must, edges)
  {
    edges := map[];
    for i := 0 to |must|
      invariant forall s, t :: s in Get(edges, t) <==> exists k: nat :: k < i && PairOf(live, must, must[k], s, t)
    {
      ghost var before := edges;
      edges := AddFirst(live, must, edges, must[i]);
      forall s, t ensures s in Get(edges, t) <==> exists k: nat :: k < i + 1 && PairOf(live, must, must[k], s, t) {
        if PairOf(live, must, must[i], s, t) {
        } else if exists k: nat :: k < i && PairOf(live, must, must[k], s, t) {
          var k: nat :| k < i && PairOf(live, must, must[k], s, t);
        }
      }
    }
    forall s, t ensures s in Get(edges, t) <==> s in must && t in must && (s == t || Interferes(live, s, t)) {
      if s in must && t in must && (s == t || Interferes(live, s, t)) {
        var k: nat :| k < |must| && must[k] == t;
        assert PairOf(live, must, must[k], s, t);
      }
    }
  }

  // ------------------------------------------------------------------ the greedy colouring

  /** The first cell not taken; there are no more below it than there are taken cells. */
  method FirstFree(unavail: set<nat>) returns (cell: nat)
    ensures cell !in unavail && cell <= |unavail|
    ensures forall c: nat :: c < cell ==> c in unavail
  {
    cell := 0;
    SubsetSize(Below(0), unavail);
    while cell in unavail
      invariant forall c: nat :: c < cell ==> c in unavail
      invariant cell <= |unavail|
      decreases |unavail| - cell
    {
      cell := cell + 1;
      SubsetSize(Below(cell), unavail);
      if cell == |unavail| {
        assert Below(cell) == unavail;
      }
    }
  }

  /** Given cells (-1: none yet), the cells of the translations in s. */
  ghost function CellsOf(cells: map<nat, int>, s: set<nat>): set<nat>
    requires forall t :: t in s ==> t in cells
  {
    set t | t in s && cells[t] >= 0 :: cells[t] as nat
  }

  method Taken(cells: map<nat, int>, others: set<nat>) returns (unavail: set<nat>)
    requires forall t :: t in others ==> t in cells && cells[t] >= -1
    ensures unavail == CellsOf(cells, others)
  {
    unavail := {};
    var todo := others;
    while todo != {}
      invariant todo <= others && unavail == CellsOf(cells, others - todo)
    {
      var t: nat :| t in todo;
      todo := todo - {t};
      assert others - todo == others - todo - {t} + {t};
      if cells[t] != -1 {
        unavail := unavail + {cells[t] as nat};
      }
    }
    assert others - todo == others;
  }

  /** The first n translations have cells below n, those that interfere different ones, and each has
      the first cell that its predecessors left free. */
  ghost predicate Coloured(live: seq<set<nat>>, must: seq<nat>, cells: map<nat, int>, n: nat)
    requires Tracks(live, must) && n <= |must|
  {
    && (forall t :: t in must ==> t in cells)
    && (forall i: nat :: i < n ==> 0 <= cells[must[i]] <= i)
    && (forall i: nat :: n <= i < |must| ==> cells[must[i]] == -1)
    && (forall i: nat, j: nat :: i < j < n && Interferes(live, must[i], must[j]) ==> cells[must[i]] != cells[must[j]])
    && (forall j: nat :: j < n ==> FirstFit(live, must, cells, j))
  }

  ghost predicate FirstFit(live: seq<set<nat>>, must: seq<nat>, cells: map<nat, int>, j: nat)
    requires Tracks(live, must) && j < |must| && forall t :: t in must ==> t in cells
  {
    forall c: int :: 0 <= c < cells[must[j]] ==> TakenBefore(live, must, cells, j, c)
  }

  ghost predicate TakenBefore(live: seq<set<nat>>, must: seq<nat>, cells: map<nat, int>, j: nat, c: int)
    requires Tracks(live, must) && j < |must| && forall t :: t in must ==> t in cells
  {
    exists i: nat :: i < j && Interferes(live, must[i], must[j]) && cells[must[i]] == c
  }

  method AssignCells(live: seq<set<nat>>, must: seq<nat>) returns (cells: map<nat, int>)
    requires Tracks(live, must)
    ensures Coloured(live, must, cells, |must|)
  {
    var edges := Interferences(live, must);
    cells := map t | t in must :: -1;
    for n := 0 to |must|
      invariant Coloured(live, must, cells, n)
    {
      var tr := must[n];
      FewTaken(live, must, cells, edges, n);
      var unavail := Taken(cells, Get(edges, tr));
      var cell := FirstFree(unavail);
      OneMoreColoured(live, must, cells, edges, n, cell);
      cells := cells[tr := cell];
    }
  }

  /** Where an interfering translation stands in the order. */
  lemma Place(live: seq<set<nat>>, must: seq<nat>, edges: Edges, t: nat, n: nat) returns (i: nat)
    requires Tracks(live, must) && Interference(live, must, edges) && n < |must| && t in Get(edges, must[n])
    ensures i < |must| && must[i] == t && (i != n ==> Interferes(live, must[i], must[n]))
  {
    assert t in must;
    i :| i < |must| && must[i] == t;
  }

  lemma FewTaken(live: seq<set<nat>>, must: seq<nat>, cells: map<nat, int>, edges: Edges, n: nat)
    requires Tracks(live, must) && Interference(live, must, edges) && n < |must| && Coloured(live, must, cells, n)
    ensures forall t :: t in Get(edges, must[n]) ==> t in cells && cells[t] >= -1
    ensures |CellsOf(cells, Get(edges, must[n]))| <= n
  {
    forall t | t in Get(edges, must[n]) ensures t in cells && cells[t] >= -1 {
      var i := Place(live, must, edges, t, n);
    }
    forall c | c in CellsOf(cells, Get(edges, must[n])) ensures c in Below(n) {
      var t :| t in Get(edges, must[n]) && cells[t] >= 0 && cells[t] as nat == c;
      var i := Place(live, must, edges, t, n);
    }
    SubsetSize(CellsOf(cells, Get(edges, must[n])), Below(n));
  }

  lemma OneMoreColoured(live: seq<set<nat>>, must: seq<nat>, cells: map<nat, int>, edges: Edges, n: nat, cell: nat)
    requires Tracks(live, must) && Interference(live, must, edges) && n < |must| && Coloured(live, must, cells, n)
    requires forall t :: t in Get(edges, must[n]) ==> t in cells
    requires var unavail := CellsOf(cells, Get(edges, must[n]));
             cell !in unavail && cell <= n && forall c: nat :: c < cell ==> c in unavail
    ensures Coloured(live, must, cells[must[n] := cell], n + 1)
  {
    var cells', tr := cells[must[n] := cell], must[n];
    forall i: nat | i < n && Interferes(live, must[i], tr) ensures cells[must[i]] != cell {
      assert must[i] in Get(edges, tr);
      assert cells[must[i]] as nat in CellsOf(cells, Get(edges, tr));
    }
    hide FirstFit;
    forall j: nat | j < n + 1 ensures FirstFit(live, must, cells', j) {
      if j < n {
        FirstFitKept(live, must, cells, n, cell, j);
      } else {
        FirstFitNew(live, must, cells, edges, n, cell);
      }
    }
  }

  lemma FirstFitKept(live: seq<set<nat>>, must: seq<nat>, cells: map<nat, int>, n: nat, cell: nat, j: nat)
    requires Tracks(live, must) && j < n < |must| && (forall t :: t in must ==> t in cells)
             && FirstFit(live, must, cells, j)
    ensures FirstFit(live, must, cells[must[n] := cell], j)
  {
    var cells' := cells[must[n] := cell];
    forall c: int | 0 <= c < cells'[must[j]] ensures TakenBefore(live, must, cells', j, c) {
      assert TakenBefore(live, must, cells, j, c);
      var i: nat :| i < j && Interferes(live, must[i], must[j]) && cells[must[i]] == c;
      assert cells'[must[i]] == c;
    }
  }

  lemma FirstFitNew(live: seq<set<nat>>, must: seq<nat>, cells: map<nat, int>, edges: Edges, n: nat, cell: nat)
    requires Tracks(live, must) && Interference(live, must, edges) && n < |must|
             && (forall t :: t in must ==> t in cells)
    requires (forall i: nat :: n <= i < |must| ==> cells[must[i]] == -1) && forall t :: t in Get(edges, must[n]) ==>
               t in cells
    requires forall c: nat :: c < cell ==> c in CellsOf(cells, Get(edges, must[n]))
    ensures FirstFit(live, must, cells[must[n] := cell], n)
  {
    var cells', tr := cells[must[n] := cell], must[n];
    forall c: int | 0 <= c < cells'[tr] ensures TakenBefore(live, must, cells', n, c) {
      assert c as nat in CellsOf(cells, Get(edges, tr));
      var t :| t in Get(edges, tr) && cells[t] >= 0 && cells[t] as nat == c;
      var i := Place(live, must, edges, t, n);
      assert cells'[must[i]] == c;
    }
  }

  // ------------------------------------------------------------------ with the liveness analysis

  /** liveBlocks: where the translation is made, where it is released, and where it is live in. */
  ghost function LiveBlocks(f: Flow, ins: seq<set<nat>>, t: nat): set<nat>
    requires f.Valid() && |ins| == |f.succs|
  {
    set b: nat | b < |f.succs| && (t in f.kill[b] || t in f.gen[b] || t in ins[b])
  }

  /** A translation that is live into a block, or made or released in it. */
  ghost predicate HeldIn(f: Flow, b: nat, x: nat)
    requires f.Valid()
  {
    b < |f.succs| && (LiveIn(f, b, x) || x in f.kill[b] || x in f.gen[b])
  }

  lemma LiveBlocksAre(f: Flow, ins: seq<set<nat>>, outs: seq<set<nat>>, x: nat, b: nat)
    requires f.Valid() && f.Least(ins, outs)
    ensures b in LiveBlocks(f, ins, x) <==> HeldIn(f, b, x)
  {
    if b < |f.succs| { LeastIsPaths(f, ins, outs, b, x); }
  }

  /** Two tracked translations that are both held in a block never share a pin cell, whether they are live
      into it or only made or released there. */
  lemma LiveTogetherApart(f: Flow, ins: seq<set<nat>>, outs: seq<set<nat>>, live: seq<set<nat>>, must: seq<nat>,
                          cells: map<nat, int>,
                          i: nat, j: nat, b: nat)
    requires f.Valid() && f.Least(ins, outs) && (forall t: nat :: t < |live| ==> live[t] == LiveBlocks(f, ins, t))
    requires Tracks(live, must) && Coloured(live, must, cells, |must|)
    requires i < j < |must| && HeldIn(f, b, must[i]) && HeldIn(f, b, must[j])
    ensures cells[must[i]] != cells[must[j]] && 0 <= cells[must[i]] < |must| && 0 <= cells[must[j]] < |must|
  {
    LiveBlocksAre(f, ins, outs, must[i], b);
    LiveBlocksAre(f, ins, outs, must[j], b);
    assert b in live[must[i]] * live[must[j]];
  }

  /** An instruction: its block and its place there. */
  datatype Site = Site(block: nat, place: nat)

  /** isLive on an instruction: of a translation made at `made` and released at `releases`, in the order the
      set iterates them, with its live blocks. */
  predicate IsLiveAt(live: set<nat>, made: Site, releases: seq<Site>, inst: Site) {
    inst.block in live &&
    (inst == made || ((inst.block == made.block ==> made.place < inst.place) && NotReleased(releases, inst)))
  }

  /** The first release that is the instruction or in its block decides. */
  predicate NotReleased(releases: seq<Site>, inst: Site) {
    releases == [] || inst == releases[0] ||
    if inst.block == releases[0].block then inst.place < releases[0].place else NotReleased(releases[1..], inst)
  }

  /** With the live blocks of the analysis: a translation is live at an instruction exactly when it is held in
      its block, and made before it and not released before it as far as that happens there. */
  lemma LiveAtMeans(f: Flow, ins: seq<set<nat>>, outs: seq<set<nat>>, x: nat, made: Site, releases: seq<Site>,
                    inst: Site)
    requires f.Valid() && f.Least(ins, outs)
    ensures IsLiveAt(LiveBlocks(f, ins, x), made, releases, inst) <==>
            && HeldIn(f, inst.block, x)
            && (inst == made || ((inst.block == made.block ==> made.place < inst.place) && NotReleased(releases, inst)))
  {
    LiveBlocksAre(f, ins, outs, x, inst.block);
  }

  /** Two tracked translations that are live at the same instruction never share a pin cell, whether their
      live ranges meet at a block's entry or only inside it. */
  lemma LiveAtInstructionApart(live: seq<set<nat>>, must: seq<nat>, cells: map<nat, int>, i: nat, j: nat,
                               made: map<nat, Site>, releases: map<nat, seq<Site>>, inst: Site)
    requires Tracks(live, must) && Coloured(live, must, cells, |must|) && i < j < |must|
    requires must[i] in made && must[j] in made && must[i] in releases && must[j] in releases
    requires IsLiveAt(live[must[i]], made[must[i]], releases[must[i]], inst)
    requires IsLiveAt(live[must[j]], made[must[j]], releases[must[j]], inst)
    ensures cells[must[i]] != cells[must[j]] && 0 <= cells[must[i]] < |must| && 0 <= cells[must[j]] < |must|
  {
    assert inst.block in live[must[i]] * live[must[j]];
  }
}
