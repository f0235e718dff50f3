/** The block-level liveness of handle translations: compiler/lib/Translations.cpp. */
module TranslationLiveness {
  import opened Common

  /** Basic blocks are numbered; kill[b] are the translations made in block b, gen[b] those released in it. */
  datatype Flow = Flow(succs: seq<seq<nat>>, gen: seq<set<nat>>, kill: seq<set<nat>>) {
    ghost predicate Valid() {
      && |succs| == |gen| == |kill|
      && forall b: nat, k: nat :: b < |succs| && k < |succs[b]| ==> succs[b][k] < |succs|
    }

    predicate Edge(b: nat, c: nat) {
      b < |succs| && c in succs[b]
    }

    function Transfer(b: nat, out: set<nat>): set<nat>
      requires b < |gen| == |kill|
    {
      (gen[b] + out) - kill[b]
    }

    /** The union of ins over the successors of b. */
    ghost function Joined(ins: seq<set<nat>>, b: nat): set<nat>
      requires Valid() && |ins| == |succs| && b < |succs|
    {
      UnionOf(ins, succs[b])
    }

    /** IN = (GEN + OUT) - KILL at block b. */
    ghost predicate InHolds(ins: seq<set<nat>>, outs: seq<set<nat>>, b: nat)
      requires Valid() && |ins| == |outs| == |succs| && b < |succs|
    {
      ins[b] == Transfer(b, outs[b])
    }

    /** OUT = the union of the successors' IN at block b. */
    ghost predicate OutHolds(ins: seq<set<nat>>, outs: seq<set<nat>>, b: nat)
      requires Valid() && |ins| == |outs| == |succs| && b < |succs|
    {
      outs[b] == Joined(ins, b)
    }

    ghost predicate Solution(ins: seq<set<nat>>, outs: seq<set<nat>>)
      requires Valid()
    {
      && |ins| == |outs| == |succs|
      && forall b: nat :: b < |succs| ==> InHolds(ins, outs, b) && OutHolds(ins, outs, b)
    }

    ghost predicate Least(ins: seq<set<nat>>, outs: seq<set<nat>>)
      requires Valid()
    {
      Solution(ins, outs) && forall ins': seq<set<nat>>, outs' :: Solution(ins', outs') ==>
        IncludedIn(ins, ins') && IncludedIn(outs, outs')
    }
  }

  ghost function UnionOf(ins: seq<set<nat>>, blocks: seq<nat>): (u: set<nat>)
    requires forall k: nat :: k < |blocks| ==> blocks[k] < |ins|
    ensures forall x :: x in u <==> exists k: nat :: k < |blocks| && x in ins[blocks[k]]
  {
    if blocks == [] then {} else UnionOf(ins, blocks[..|blocks| - 1]) + ins[blocks[|blocks| - 1]]
  }

  /** Block by block, a is included in b. */
  ghost predicate IncludedIn(a: seq<set<nat>>, b: seq<set<nat>>) {
    |a| == |b| && forall k: nat :: k < |a| ==> a[k] <= b[k]
  }

  // ------------------------------------------------------------------ what every step keeps

  /** The equations hold wherever the worklist does not say otherwise; both maps only grow towards
      them, and stay below any solution. */
  ghost predicate Inv(f: Flow, ins: seq<set<nat>>, outs: seq<set<nat>>, worklist: set<nat>)
    requires f.Valid()
  {
    && |ins| == |outs| == |f.succs|
    && (forall b :: b in worklist ==> b < |f.succs|)
    && (forall b: nat :: b < |f.succs| ==> ins[b] <= f.Transfer(b, outs[b]) && outs[b] <= f.Joined(ins, b))
    && (forall b: nat :: b < |f.succs| && b !in worklist ==> f.InHolds(ins, outs, b) && f.OutHolds(ins, outs, b))
    && (forall ins': seq<set<nat>>, outs' :: f.Solution(ins', outs') ==>
         IncludedIn(ins, ins') && IncludedIn(outs, outs'))
  }

  lemma JoinedGrows(f: Flow, ins: seq<set<nat>>, ins': seq<set<nat>>, b: nat)
    requires f.Valid() && |ins| == |f.succs| && IncludedIn(ins, ins') && b < |f.succs|
    ensures f.Joined(ins, b) <= f.Joined(ins', b)
  {
    forall x | x in f.Joined(ins, b) ensures x in f.Joined(ins', b) {
      var k: nat :| k < |f.succs[b]| && x in ins[f.succs[b][k]];
      assert x in ins'[f.succs[b][k]];
    }
  }

  lemma JoinedSame(f: Flow, ins: seq<set<nat>>, ins': seq<set<nat>>, b: nat, c: nat)
    requires f.Valid() && |ins| == |ins'| == |f.succs| && b < |f.succs| && !f.Edge(b, c)
    requires forall d: nat :: d < |ins| && d != c ==> ins'[d] == ins[d]
    ensures f.Joined(ins', b) == f.Joined(ins, b)
  {
    forall x ensures x in f.Joined(ins', b) <==> x in f.Joined(ins, b) {
      assert forall k: nat :: k < |f.succs[b]| ==> f.succs[b][k] != c;
      if x in f.Joined(ins, b) {
        var k: nat :| k < |f.succs[b]| && x in ins[f.succs[b][k]];
        assert x in ins'[f.succs[b][k]];
      }
      if x in f.Joined(ins', b) {
        var k: nat :| k < |f.succs[b]| && x in ins'[f.succs[b][k]];
        assert x in ins[f.succs[b][k]];
      }
    }
  }

  /** Processing block b: its IN from the old OUT, then its OUT from the new INs; b and its
      predecessors go back on the worklist if either changed. */
  lemma StepKeepsInv(f: Flow, ins: seq<set<nat>>, outs: seq<set<nat>>, worklist: set<nat>, b: nat, worklist': set<nat>)
    requires f.Valid() && Inv(f, ins, outs, worklist) && b in worklist
    requires forall c :: c in worklist' ==> c < |f.succs|
    requires worklist - {b} <= worklist'
    ensures var ins' := ins[b := f.Transfer(b, outs[b])];
            |ins'| == |f.succs| && IncludedIn(ins, ins') && IncludedIn(outs, outs[b := f.Joined(ins', b)])
    ensures var ins' := ins[b := f.Transfer(b, outs[b])];
            var outs' := outs[b := f.Joined(ins', b)];
            (ins'[b] != ins[b] || outs'[b] != outs[b] ==> b in worklist' && forall p: nat :: f.Edge(p, b) ==>
              p in worklist')
            ==> Inv(f, ins', outs', worklist')
  {
    var ins' := ins[b := f.Transfer(b, outs[b])];
    var outs' := outs[b := f.Joined(ins', b)];
    assert IncludedIn(ins, ins');
    JoinedGrows(f, ins, ins', b);
    assert IncludedIn(outs, outs');
    StepBelow(f, ins, outs, worklist, b);
    if ins'[b] != ins[b] || outs'[b] != outs[b] ==> b in worklist' && forall p: nat :: f.Edge(p, b) ==> p in worklist' {
      forall c: nat | c < |f.succs|
        ensures ins'[c] <= f.Transfer(c, outs'[c]) && outs'[c] <= f.Joined(ins', c)
        ensures c !in worklist' ==> f.InHolds(ins', outs', c) && f.OutHolds(ins', outs', c)
      {
        JoinedGrows(f, ins, ins', c);
        if c !in worklist' {
          if ins'[b] == ins[b] {
            assert ins' == ins;
          } else {
            JoinedSame(f, ins, ins', c, b);
          }
        }
      }
    }
  }

  lemma StepBelow(f: Flow, ins: seq<set<nat>>, outs: seq<set<nat>>, worklist: set<nat>, b: nat)
    requires f.Valid() && Inv(f, ins, outs, worklist) && b < |f.succs|
    ensures var ins' := ins[b := f.Transfer(b, outs[b])];
            |ins'| == |f.succs| &&
            forall i: seq<set<nat>>, o :: f.Solution(i, o) ==>
              IncludedIn(ins', i) && IncludedIn(outs[b := f.Joined(ins', b)], o)
  {
    var ins' := ins[b := f.Transfer(b, outs[b])];
    forall i: seq<set<nat>>, o | f.Solution(i, o)
      ensures IncludedIn(ins', i) && IncludedIn(outs[b := f.Joined(ins', b)], o)
    {
      assert IncludedIn(ins, i) && IncludedIn(outs, o) && f.InHolds(i, o, b) && f.OutHolds(i, o, b);
      JoinedGrows(f, ins', i, b);
    }
  }

  // ------------------------------------------------------------------ termination

  ghost function Total(sets: seq<set<nat>>): nat {
    if sets == [] then 0 else Total(sets[..|sets| - 1]) + |sets[|sets| - 1]|
  }

  /** n times u. */
  ghost function Times(n: nat, u: nat): nat {
    if n == 0 then 0 else Times(n - 1, u) + u
  }

  ghost function Universe(sets: seq<set<nat>>): (u: set<nat>)
    ensures forall k: nat :: k < |sets| ==> sets[k] <= u
  {
    if sets == [] then {} else Universe(sets[..|sets| - 1]) + sets[|sets| - 1]
  }

  lemma {:induction false} TotalGrows(a: seq<set<nat>>, b: seq<set<nat>>)
    requires IncludedIn(a, b)
    ensures Total(a) <= Total(b) && (Total(a) == Total(b) ==> a == b)
  {
    if a != [] {
      var n := |a| - 1;
      TotalGrows(a[..n], b[..n]);
      SubsetSize(a[n], b[n]);
      assert a == a[..n] + [a[n]] && b == b[..n] + [b[n]];
    }
  }

  lemma {:induction false} TotalBounded(sets: seq<set<nat>>, u: set<nat>)
    requires forall k: nat :: k < |sets| ==> sets[k] <= u
    ensures Total(sets) <= Times(|sets|, |u|)
  {
    if sets != [] {
      TotalBounded(sets[..|sets| - 1], u);
      SubsetSize(sets[|sets| - 1], u);
    }
  }

  /** Only translations released somewhere are ever added, so the sets cannot grow for ever. */
  ghost predicate Bounded(f: Flow, ins: seq<set<nat>>, outs: seq<set<nat>>)
    requires f.Valid()
  {
    |ins| == |outs| == |f.succs| &&
    forall b: nat :: b < |f.succs| ==> ins[b] <= Universe(f.gen) && outs[b] <= Universe(f.gen)
  }

  ghost function Slack(f: Flow, ins: seq<set<nat>>, outs: seq<set<nat>>): int {
    Times(|f.succs|, |Universe(f.gen)|) - Total(ins) + Times(|f.succs|, |Universe(f.gen)|) - Total(outs)
  }

  lemma SlackShrinks(f: Flow, ins: seq<set<nat>>, outs: seq<set<nat>>, ins': seq<set<nat>>, outs': seq<set<nat>>)
    requires f.Valid() && Bounded(f, ins, outs) && Bounded(f, ins', outs') && IncludedIn(ins, ins')
             && IncludedIn(outs, outs')
    ensures 0 <= Slack(f, ins', outs') <= Slack(f, ins, outs)
    ensures ins' != ins || outs' != outs ==> Slack(f, ins', outs') < Slack(f, ins, outs)
  {
    TotalGrows(ins, ins');
    TotalGrows(outs, outs');
    TotalBounded(ins', Universe(f.gen));
    TotalBounded(outs', Universe(f.gen));
  }

  // ------------------------------------------------------------------ the worklist

  method Join(f: Flow, ins: seq<set<nat>>, b: nat) returns (out: set<nat>)
    requires f.Valid() && |ins| == |f.succs| && b < |f.succs|
    ensures out == f.Joined(ins, b)
  {
    out := {};
    for k := 0 to |f.succs[b]|
      invariant out == UnionOf(ins, f.succs[b][..k])
    {
      assert f.succs[b][..k + 1][..k] == f.succs[b][..k];
      out := out + ins[f.succs[b][k]];
    }
    assert f.succs[b][..|f.succs[b]|] == f.succs[b];
  }

  function Preds(f: Flow, b: nat): (preds: set<nat>)
    ensures forall p :: p in preds <==> f.Edge(p, b)
  {
    set p: nat | p < |f.succs| && b in f.succs[p]
  }

  lemma InitInv(f: Flow, empty: seq<set<nat>>, all: set<nat>)
    requires f.Valid() && |empty| == |f.succs| && (forall b: nat :: b < |empty| ==> empty[b] == {})
    requires forall b: nat :: b in all <==> b < |f.succs|
    ensures Inv(f, empty, empty, all) && Bounded(f, empty, empty)
  {}

  lemma StepBounded(f: Flow, ins: seq<set<nat>>, outs: seq<set<nat>>, b: nat)
    requires f.Valid() && Bounded(f, ins, outs) && b < |f.succs|
    ensures var ins' := ins[b := f.Transfer(b, outs[b])];
            |ins'| == |f.succs| && Bounded(f, ins', outs[b := f.Joined(ins', b)])
  {
    var ins' := ins[b := f.Transfer(b, outs[b])];
    forall x | x in f.Joined(ins', b) ensures x in Universe(f.gen) {
      var k: nat :| k < |f.succs[b]| && x in ins'[f.succs[b][k]];
    }
  }

  /** One turn of the loop, worklist included. */
  lemma Turn(f: Flow, ins: seq<set<nat>>, outs: seq<set<nat>>, worklist: set<nat>, b: nat)
    requires f.Valid() && Inv(f, ins, outs, worklist) && Bounded(f, ins, outs) && b in worklist
    ensures b < |ins| == |outs| == |f.succs|
    ensures var ins' := ins[b := f.Transfer(b, outs[b])];
            var outs' := outs[b := f.Joined(ins', b)];
            var changed := outs'[b] != outs[b] || ins'[b] != ins[b];
            var worklist' := worklist - {b} + if changed then {b} + Preds(f, b) else {};
            && Inv(f, ins', outs', worklist') && Bounded(f, ins', outs')
            && (if changed then 0 <= Slack(f, ins', outs') < Slack(f, ins, outs) else ins' == ins && outs' == outs)
  {
    var ins' := ins[b := f.Transfer(b, outs[b])];
    var outs' := outs[b := f.Joined(ins', b)];
    var changed := outs'[b] != outs[b] || ins'[b] != ins[b];
    var worklist' := worklist - {b} + if changed then {b} + Preds(f, b) else {};
    StepKeepsInv(f, ins, outs, worklist, b, worklist');
    StepBounded(f, ins, outs, b);
    SlackShrinks(f, ins, outs, ins', outs');
    if !changed {
      assert ins' == ins && outs' == outs;
    }
  }

  /** Taking one block off the worklist. */
  method Process(f: Flow, ins: seq<set<nat>>, outs: seq<set<nat>>, worklist: set<nat>)
    returns (ins': seq<set<nat>>, outs': seq<set<nat>>, worklist': set<nat>)
    requires f.Valid() && Inv(f, ins, outs, worklist) && Bounded(f, ins, outs) && worklist != {}
    ensures Inv(f, ins', outs', worklist') && Bounded(f, ins', outs')
    ensures 0 <= Slack(f, ins', outs') < Slack(f, ins, outs) || (ins' == ins && outs' == outs && worklist' < worklist)
  {
    hide Inv, Bounded, Slack, Preds, Flow.Joined, Flow.Transfer;
    var b: nat :| b in worklist;
    Turn(f, ins, outs, worklist, b);
    worklist' := worklist - {b};
    ins' := ins[b := f.Transfer(b, outs[b])];
    var out := Join(f, ins', b);
    outs' := outs[b := out];
    if outs[b] != outs'[b] || ins[b] != ins'[b] {
      worklist' := worklist' + ({b} + Preds(f, b));
    } else {
      assert worklist' + {} == worklist';
    }
  }

  lemma Done(f: Flow, ins: seq<set<nat>>, outs: seq<set<nat>>)
    requires f.Valid() && Inv(f, ins, outs, {})
    ensures f.Least(ins, outs)
  {}

  /** The worklist ends, in whatever order blocks are taken from it, at the least solution. */
  method Solve(f: Flow) returns (ins: seq<set<nat>>, outs: seq<set<nat>>)
    requires f.Valid()
    ensures f.Least(ins, outs)
  {
    var n := |f.succs|;
    ins, outs := seq(n, _ => {}), seq(n, _ => {});
    var worklist := Below(n);
    InitInv(f, ins, worklist);
    hide Inv, Bounded, Slack, Flow.Least;
    while worklist != {}
      invariant Inv(f, ins, outs, worklist) && Bounded(f, ins, outs)
      decreases Slack(f, ins, outs), worklist
    {
      ins, outs, worklist := Process(f, ins, outs, worklist);
    }
    Done(f, ins, outs);
  }

  // ------------------------------------------------------------------ what the least solution is

  /** A path in the flow graph from its first block to its last. */
  ghost predicate Path(f: Flow, path: seq<nat>) {
    path != [] && (forall k: nat :: k < |path| ==> path[k] < |f.succs|) && forall k: nat :: k + 1 < |path| ==>
      f.Edge(path[k], path[k + 1])
  }

  /** Along the path translation x is made nowhere, and at its end it is released. */
  ghost predicate Reaches(f: Flow, path: seq<nat>, x: nat)
    requires f.Valid()
  {
    Path(f, path) && x in f.gen[path[|path| - 1]] && forall k: nat :: k < |path| ==> x !in f.kill[path[k]]
  }

  ghost predicate LiveIn(f: Flow, b: nat, x: nat)
    requires f.Valid()
  {
    exists path: seq<nat> :: path != [] && path[0] == b && Reaches(f, path, x)
  }

  lemma TailReaches(f: Flow, path: seq<nat>, x: nat)
    requires f.Valid() && Reaches(f, path, x) && |path| > 1
    ensures Reaches(f, path[1..], x) && f.Edge(path[0], path[1])
  {
    var rest := path[1..];
    assert f.Edge(path[0], path[0 + 1]);
    forall k: nat | k + 1 < |rest| ensures f.Edge(rest[k], rest[k + 1]) {
      assert f.Edge(path[k + 1], path[k + 1 + 1]);
    }
  }

  lemma {:induction false} PathIsIn(f: Flow, ins: seq<set<nat>>, outs: seq<set<nat>>, path: seq<nat>, x: nat)
    requires f.Valid() && f.Solution(ins, outs) && Reaches(f, path, x)
    ensures x in ins[path[0]]
  {
    var b := path[0];
    assert f.InHolds(ins, outs, b) && f.OutHolds(ins, outs, b);
    if |path| > 1 {
      var rest := path[1..];
      TailReaches(f, path, x);
      PathIsIn(f, ins, outs, rest, x);
      var k: nat :| k < |f.succs[b]| && f.succs[b][k] == rest[0];
      assert x in ins[f.succs[b][k]];
    }
  }

  /** The live-in sets by paths are themselves a solution. */
  ghost function PathIns(f: Flow): seq<set<nat>>
    requires f.Valid()
  {
    seq(|f.succs|, b requires 0 <= b => set x | x in Universe(f.gen) && LiveIn(f, b, x))
  }

  ghost function PathOuts(f: Flow): seq<set<nat>>
    requires f.Valid()
  {
    seq(|f.succs|, b requires 0 <= b < |f.succs| => f.Joined(PathIns(f), b))
  }

  lemma PathInsStep(f: Flow, b: nat, x: nat)
    requires f.Valid() && b < |f.succs|
    ensures LiveIn(f, b, x) <==> x !in f.kill[b] && (x in f.gen[b] || exists c: nat :: f.Edge(b, c) && LiveIn(f, c, x))
  {
    if LiveIn(f, b, x) {
      var path: seq<nat> :| path != [] && path[0] == b && Reaches(f, path, x);
      if |path| > 1 {
        var rest := path[1..];
        TailReaches(f, path, x);
        assert LiveIn(f, rest[0], x);
      }
    }
    if x !in f.kill[b] && x in f.gen[b] {
      assert Reaches(f, [b], x);
    }
    if x !in f.kill[b] && exists c: nat :: f.Edge(b, c) && LiveIn(f, c, x) {
      var c: nat :| f.Edge(b, c) && LiveIn(f, c, x);
      var rest: seq<nat> :| rest != [] && rest[0] == c && Reaches(f, rest, x);
      LongerReaches(f, b, rest, x);
    }
  }

  lemma LongerReaches(f: Flow, b: nat, rest: seq<nat>, x: nat)
    requires f.Valid() && b < |f.succs| && x !in f.kill[b] && Reaches(f, rest, x) && f.Edge(b, rest[0])
    ensures Reaches(f, [b] + rest, x) && LiveIn(f, b, x)
  {
    var path := [b] + rest;
    forall k: nat | k + 1 < |path| ensures f.Edge(path[k], path[k + 1]) {
      assert k > 0 ==> f.Edge(rest[k - 1], rest[k - 1 + 1]);
    }
    assert Reaches(f, path, x) && path[0] == b;
  }

  lemma LiveInUniverse(f: Flow, b: nat, x: nat)
    requires f.Valid() && LiveIn(f, b, x)
    ensures x in Universe(f.gen) && b < |f.succs|
  {
    var path: seq<nat> :| path != [] && path[0] == b && Reaches(f, path, x);
    assert f.gen[path[|path| - 1]] <= Universe(f.gen);
  }

  lemma PathsSolve(f: Flow)
    requires f.Valid()
    ensures f.Solution(PathIns(f), PathOuts(f))
  {
    var ins, outs := PathIns(f), PathOuts(f);
    forall b: nat | b < |f.succs| ensures f.InHolds(ins, outs, b) && f.OutHolds(ins, outs, b) {
      forall x ensures x in ins[b] <==> x in f.Transfer(b, outs[b]) {
        PathInsStep(f, b, x);
        forall c: nat | f.Edge(b, c) && LiveIn(f, c, x) ensures x in f.Joined(ins, b) {
          LiveInUniverse(f, c, x);
          var k: nat :| k < |f.succs[b]| && f.succs[b][k] == c;
          assert x in ins[f.succs[b][k]];
        }
        if x in f.Joined(ins, b) {
          var k: nat :| k < |f.succs[b]| && x in ins[f.succs[b][k]];
          assert f.Edge(b, f.succs[b][k]);
        }
        if LiveIn(f, b, x) { LiveInUniverse(f, b, x); }
      }
    }
  }

  /** What the analysis means: translation x is live into block b exactly when some path from b reaches
      a release of x without passing a block that makes x, its end included. */
  lemma LeastIsPaths(f: Flow, ins: seq<set<nat>>, outs: seq<set<nat>>, b: nat, x: nat)
    requires f.Valid() && f.Least(ins, outs) && b < |f.succs|
    ensures x in ins[b] <==> LiveIn(f, b, x)
  {
    PathsSolve(f);
    assert IncludedIn(ins, PathIns(f));
    if LiveIn(f, b, x) {
      var path: seq<nat> :| path != [] && path[0] == b && Reaches(f, path, x);
      PathIsIn(f, ins, outs, path, x);
    }
  }
}
