/** The bit matrix of compiler/lib/noelle/BitMatrix.cpp and its worklist transitive closure. */
module BitMatrices {

  type Relation = set<(nat, nat)>

  /** A walk i -> p[0] -> p[1] -> ... of at least one step. */
  ghost predicate Walk(r: Relation, i: nat, p: seq<nat>, k: nat)
    decreases p
  {
    p != [] && (i, p[0]) in r && (if |p| == 1 then p[0] == k else Walk(r, p[0], p[1..], k))
  }

  /** k can be reached from i in one or more steps. */
  ghost predicate Connected(r: Relation, i: nat, k: nat) {
    exists p :: Walk(r, i, p, k)
  }

  lemma ConnectedEdge(r: Relation, i: nat, k: nat)
    requires (i, k) in r
    ensures Connected(r, i, k)
  {
    assert Walk(r, i, [k], k);
  }

  lemma {:induction false} WalkAppend(r: Relation, i: nat, p: seq<nat>, j: nat, q: seq<nat>, k: nat)
    requires Walk(r, i, p, j) && Walk(r, j, q, k)
    ensures Walk(r, i, p + q, k)
    decreases p
  {
    assert (p + q)[1..] == p[1..] + q;
    if |p| > 1 {
      WalkAppend(r, p[0], p[1..], j, q, k);
    } else {
      assert p[1..] + q == q;
    }
  }

  lemma ConnectedTrans(r: Relation, i: nat, j: nat, k: nat)
    requires Connected(r, i, j) && Connected(r, j, k)
    ensures Connected(r, i, k)
  {
    var p :| Walk(r, i, p, j);
    var q :| Walk(r, j, q, k);
    WalkAppend(r, i, p, j, q, k);
  }

  /** Row j is contained in row i. */
  ghost predicate RowWithin(r: Relation, j: nat, i: nat) {
    forall k :: (j, k) in r ==> (i, k) in r
  }

  /** If every edge of `orig` hands its target's row on, walks of `orig` are entries of `r`. */
  lemma {:induction false} RowsAbsorbWalks(orig: Relation, r: Relation, i: nat, p: seq<nat>, k: nat)
    requires orig <= r && forall a: nat, b: nat :: (a, b) in orig ==> RowWithin(r, b, a)
    requires Walk(orig, i, p, k)
    ensures (i, k) in r
    decreases p
  {
    if |p| > 1 {
      RowsAbsorbWalks(orig, r, p[0], p[1..], k);
      assert RowWithin(r, p[0], i);
    }
  }

  lemma EntryForWalk(orig: Relation, r: Relation, i: nat, k: nat)
    requires orig <= r && forall a: nat, b: nat :: (a, b) in orig ==> RowWithin(r, b, a)
    requires Sound(orig, r)
    ensures (i, k) in r <==> Connected(orig, i, k)
  {
    if Connected(orig, i, k) {
      var p :| Walk(orig, i, p, k);
      RowsAbsorbWalks(orig, r, i, p, k);
    }
  }

  // ------------------------------------------------------------------ the matrix

  /** The bit that stands for (row, col) in an n by n matrix: row * n + col, added up row by row. */
  function Cell(n: nat, row: nat, col: nat): nat {
    if row == 0 then col else n + Cell(n, row - 1, col)
  }

  lemma {:induction false} CellIndex(n: nat, row: nat, col: nat)
    ensures Cell(n, row, col) == row * n + col
  {
    if row > 0 {
      CellIndex(n, row - 1, col);
      assert row * n == (row - 1) * n + n;
    }
  }

  lemma {:induction false} CellBelow(n: nat, row: nat, col: nat, rows: nat)
    requires row < rows && col < n
    ensures Cell(n, row, col) < Cell(n, rows, 0)
    decreases rows
  {
    if row > 0 {
      CellBelow(n, row - 1, col, rows - 1);
    }
  }

  lemma CellInside(n: nat, row: nat, col: nat)
    requires row < n && col < n
    ensures Cell(n, row, col) < n * n
  {
    CellBelow(n, row, col, n);
    CellIndex(n, n, 0);
  }

  lemma {:induction false} SameCell(n: nat, row: nat, col: nat, row': nat, col': nat)
    requires col < n && col' < n && Cell(n, row, col) == Cell(n, row', col')
    ensures row == row' && col == col'
  {
    if row > 0 && row' > 0 { SameCell(n, row - 1, col, row' - 1, col'); }
  }

  class BitMatrix {
    const N: nat
    const bv: array<bool>
    ghost var R: Relation

    /** R lists the set bits. */
    ghost predicate Valid()
      reads this, bv
    {
      && bv.Length == N * N
      && (forall i, j :: (i, j) in R ==> i < N && j < N)
      && (forall i: nat, j: nat :: i < N && j < N ==> Cell(N, i, j) < bv.Length && (bv[Cell(N, i, j)] <==> (i, j) in R))
    }

    /** All bits clear. */
    constructor (n: nat)
      ensures Valid() && N == n && R == {} && fresh(bv)
    {
      var size := n * n;
      N := n;
      bv := new bool[size](_ => false);
      R := {};
      new;
      forall i: nat, j: nat | i < n && j < n
        ensures Cell(n, i, j) < size
      {
        CellInside(n, i, j);
      }
    }

    method Set(row: nat, col: nat)
      requires Valid() && row < N && col < N
      modifies this, bv
      ensures Valid() && R == old(R) + {(row, col)}
    {
      CellIndex(N, row, col);
      bv[row * N + col] := true;
      R := R + {(row, col)};
      forall i: nat, j: nat | i < N && j < N
        ensures Cell(N, i, j) < bv.Length && (bv[Cell(N, i, j)] <==> (i, j) in R)
      {
        if Cell(N, i, j) == Cell(N, row, col) { SameCell(N, i, j, row, col); }
      }
    }

    method Test(row: nat, col: nat) returns (b: bool)
      requires Valid() && row < N && col < N
      ensures b <==> (row, col) in R
    {
      CellIndex(N, row, col);
      b := bv[row * N + col];
    }

    /** BitVector::find_next (find_first is the same from -1): the first set bit after prev, or -1. */
    method FindNext(prev: int) returns (next: int)
      requires -1 <= prev
      ensures next == -1 || (prev < next < bv.Length && bv[next])
      ensures forall x :: prev < x < (if next == -1 then bv.Length else next) ==> !bv[x]
    {
      next := prev + 1;
      while next < bv.Length
        invariant prev < next
        invariant forall x :: prev < x < next && x < bv.Length ==> !bv[x]
      {
        if bv[next] {
          return;
        }
        next := next + 1;
      }
      next := -1;
    }

    method RowBegin(row: nat) returns (begin: nat)
      ensures forall k: nat :: Cell(N, row, k) == begin + k
    {
      begin := N * row;
      forall k: nat ensures Cell(N, row, k) == begin + k {
        CellIndex(N, row, k);
      }
    }

    /** The first column set in a row after column prev, or -1. */
    method SuccessorAfter(row: nat, prev: int) returns (c: int)
      requires Valid() && row < N && -1 <= prev < N
      ensures c == -1 || (prev < c < N && (row, c) in R)
      ensures forall k: nat :: prev < k < (if c == -1 then N else c) ==> (row, k) !in R
    {
      var rowBegin := RowBegin(row);
      var next := FindNext(rowBegin + prev);
      if next == -1 || next >= rowBegin + N {
        return -1;
      }
      c := next - rowBegin;
    }

    method FirstSuccessor(row: nat) returns (c: int)
      requires Valid() && row < N
      ensures c == -1 || (0 <= c < N && (row, c) in R)
      ensures forall k: nat :: k < (if c == -1 then N else c) ==> (row, k) !in R
    {
      c := SuccessorAfter(row, -1);
    }

    method NextSuccessor(row: nat, prev: nat) returns (c: int)
      requires Valid() && row < N && prev < N
      ensures c == -1 || (prev < c < N && (row, c) in R)
      ensures forall k: nat :: prev < k < (if c == -1 then N else c) ==> (row, k) !in R
    {
      c := SuccessorAfter(row, prev);
    }

    lemma InBounds()
      requires Valid()
      ensures R <= AllPairs(N)
      ensures forall i, j :: (i, j) in R ==> i < N && j < N
    {
      forall e | e in R ensures e in AllPairs(N) {
        assert e == (e.0, e.1);
      }
    }

    /** row[i] |= row[j], bit by bit; says whether a bit was added. */
    method MergeRow(i: nat, j: nat) returns (changed: bool)
      requires Valid() && i < N && j < N
      modifies this, bv
      ensures Valid() && Merged(old(R), R, i, j)
      ensures changed <==> R != old(R)
    {
      hide Valid;
      ghost var r0 := R;
      changed := false;
      var k := FirstSuccessor(j);
      ghost var done := 0;
      while k != -1
        invariant Valid() && -1 <= k < N
        invariant k != -1 ==> (j, k) in R && done <= k
        invariant forall c: nat :: done <= c < (if k == -1 then N else k) ==> (j, c) !in R
        invariant r0 <= R && forall e :: e in R && e !in r0 ==> e.0 == i && (j, e.1) in r0
        invariant forall c: nat :: c < done && (j, c) in R ==> (i, c) in R
        invariant changed <==> R != r0
        decreases if k == -1 then 0 else N - k
      {
        var has := Test(i, k);
        if !has {
          changed := true;
          Set(i, k);
        }
        done := k + 1;
        k := NextSuccessor(j, k);
      }
      InBounds();
    }

    /** The loop over the successors of i, which may find bits it has itself added. */
    method ScanRow(i: nat, ghost orig: Relation) returns (changed: bool)
      requires Valid() && i < N && Sound(orig, R)
      modifies this, bv
      ensures Valid() && old(R) <= R && Sound(orig, R)
      ensures forall e :: e in R && e !in old(R) ==> e.0 == i
      ensures forall j: nat :: (i, j) in old(R) ==> RowWithin(R, j, i)
      ensures changed <==> R != old(R)
    {
      hide Valid, Sound, Merged;
      ghost var r0 := R;
      changed := false;
      var j := FirstSuccessor(i);
      ghost var done := 0;
      while j != -1
        invariant Valid() && -1 <= j < N
        invariant j != -1 ==> (i, j) in R && done <= j
        invariant forall c: nat :: done <= c < (if j == -1 then N else j) ==> (i, c) !in R
        invariant r0 <= R && Sound(orig, R) && forall e :: e in R && e !in r0 ==> e.0 == i
        invariant forall c: nat :: c < done && (i, c) in r0 ==> RowWithin(R, c, i)
        invariant changed <==> R != r0
        decreases if j == -1 then 0 else N - j
      {
        ghost var r := R;
        var more := MergeRow(i, j);
        MergeSound(orig, r, R, i, j);
        MergedRows(r, R, i, j);
        forall c: nat | c < done && (i, c) in r0 ensures RowWithin(R, c, i) {
          RowStaysWithin(r, R, c, i);
        }
        changed := changed || more;
        done := j + 1;
        j := NextSuccessor(i, j);
      }
      InBounds();
    }

    /** Queues the rows that have i as a successor, unless they are queued already. */
    method QueuePredecessors(i: nat, worklist0: seq<nat>) returns (worklist: seq<nat>)
      requires Valid() && i < N
      ensures worklist0 <= worklist
      ensures forall p: nat :: (p, i) in R ==> p in worklist
      ensures forall p :: p in worklist ==> p in worklist0 || p < N
    {
      worklist := worklist0;
      for p := 0 to N
        invariant worklist0 <= worklist
        invariant forall q: nat :: q < p && (q, i) in R ==> q in worklist
        invariant forall q :: q in worklist ==> q in worklist0 || q < N
      {
        var has := Test(p, i);
        if has {
          if p !in worklist {
            worklist := worklist + [p];
          }
        }
      }
    }

    /** The initial worklist. */
    method AllRows() returns (worklist: seq<nat>)
      requires Valid()
      ensures forall t :: t in worklist ==> t < N
      ensures KeyInvariant(R, R, worklist)
    {
      worklist := [];
      for i := 0 to N
        invariant |worklist| == i && forall t :: 0 <= t < i ==> worklist[t] == t
      {
        worklist := worklist + [i];
      }
      forall a: nat, b: nat | (a, b) in R ensures Queued(R, worklist, a, b) {
        assert worklist[a] == a;
      }
    }

    /** Adds an entry for every walk. */
    method TransitiveClosure()
      requires Valid()
      modifies this, bv
      ensures Valid()
      ensures forall i: nat, k: nat :: (i, k) in R <==> Connected(old(R), i, k)
    {
      hide Valid, Sound, Queued, Walk;
      ghost var orig := R;
      var worklist: seq<nat> := AllRows();
      SoundStart(orig);
      while worklist != []
        invariant Valid() && orig <= R && Sound(orig, R)
        invariant forall t :: t in worklist ==> t < N
        invariant KeyInvariant(orig, R, worklist)
        decreases AllPairs(N) - R, |worklist|
      {
        ghost var r0: Relation, w0: seq<nat> := R, worklist;
        var i := worklist[0];
        assert i in w0;
        worklist := worklist[1..];
        assert forall t :: t in worklist ==> t in w0;
        var changed := ScanRow(i, orig);
        if changed {
          worklist := QueuePredecessors(i, worklist);
          InBounds();
        }
        RoundKeepsInvariant(orig, r0, R, w0, worklist, i);
      }
      RowsTakenOver(orig, R);
      forall i: nat, k: nat
        ensures (i, k) in R <==> Connected(orig, i, k)
      {
        EntryForWalk(orig, R, i, k);
      }
    }
  }

  /** Row a waits in the worklist, or has taken over row b. */
  ghost predicate Queued(r: Relation, worklist: seq<nat>, a: nat, b: nat) {
    a in worklist || RowWithin(r, b, a)
  }

  /** Every entry stands for a walk. */
  ghost predicate Sound(orig: Relation, r: Relation) {
    forall i: nat, k: nat :: (i, k) in r ==> Connected(orig, i, k)
  }

  lemma SoundStart(orig: Relation)
    ensures Sound(orig, orig)
  {
    forall i: nat, k: nat | (i, k) in orig ensures Connected(orig, i, k) {
      ConnectedEdge(orig, i, k);
    }
  }

  lemma MergeSound(orig: Relation, r0: Relation, r: Relation, i: nat, j: nat)
    requires Sound(orig, r0) && Merged(r0, r, i, j) && (i, j) in r0
    ensures Sound(orig, r)
  {
    forall a: nat, k: nat | (a, k) in r ensures Connected(orig, a, k) {
      if (a, k) !in r0 {
        ConnectedTrans(orig, i, j, k);
      }
    }
  }

  lemma MergedRows(r0: Relation, r: Relation, i: nat, j: nat)
    requires Merged(r0, r, i, j)
    ensures r0 <= r && RowWithin(r, j, i) && forall e :: e in r && e !in r0 ==> e.0 == i
  {}

  /** A row taken over stays taken over while only row i grows. */
  lemma RowStaysWithin(r0: Relation, r: Relation, j: nat, i: nat)
    requires RowWithin(r0, j, i) && r0 <= r && forall e :: e in r && e !in r0 ==> e.0 == i
    ensures RowWithin(r, j, i)
  {
    forall k | (j, k) in r ensures (i, k) in r {
      if j != i && (j, k) !in r0 {}
    }
  }

  /** For every original edge (a, b), row a waits or has taken over row b. */
  ghost predicate KeyInvariant(orig: Relation, r: Relation, worklist: seq<nat>) {
    forall a: nat, b: nat :: (a, b) in orig ==> Queued(r, worklist, a, b)
  }

  lemma RowsTakenOver(orig: Relation, r: Relation)
    requires KeyInvariant(orig, r, [])
    ensures forall a: nat, b: nat :: (a, b) in orig ==> RowWithin(r, b, a)
  {
    forall a: nat, b: nat | (a, b) in orig ensures RowWithin(r, b, a) {
      assert Queued(r, [], a, b);
    }
  }

  lemma RoundKeepsInvariant(orig: Relation, r0: Relation, r: Relation, w0: seq<nat>, w: seq<nat>, i: nat)
    requires orig <= r0 <= r && KeyInvariant(orig, r0, w0)
    requires w0 != [] && w0[0] == i && w0[1..] <= w
    requires forall e :: e in r && e !in r0 ==> e.0 == i
    requires forall j: nat :: (i, j) in r0 ==> RowWithin(r, j, i)
    requires r == r0 || forall p: nat :: (p, i) in r ==> p in w
    ensures KeyInvariant(orig, r, w)
  {
    forall a: nat, b: nat | (a, b) in orig ensures Queued(r, w, a, b) {
      RoundDone(orig, r0, r, w0, w, i, a, b);
    }
  }

  /** The key invariant for one edge after row i has been taken from the worklist w0, scanned, and its
      predecessors queued if it changed. */
  lemma RoundDone(orig: Relation, r0: Relation, r: Relation, w0: seq<nat>, w: seq<nat>, i: nat, a: nat, b: nat)
    requires orig <= r0 <= r && (a, b) in orig && Queued(r0, w0, a, b)
    requires w0 != [] && w0[0] == i && w0[1..] <= w
    requires forall e :: e in r && e !in r0 ==> e.0 == i
    requires forall j: nat :: (i, j) in r0 ==> RowWithin(r, j, i)
    requires r == r0 || forall p: nat :: (p, i) in r ==> p in w
    ensures Queued(r, w, a, b)
  {
    if a == i {
      assert RowWithin(r, b, i);
    } else if a in w0 {
      assert a in w0[1..];
    } else if b == i && r != r0 {
      assert (a, i) in r;
    } else {
      forall k | (b, k) in r ensures (a, k) in r {
        if (b, k) !in r0 {}
      }
    }
  }

  ghost function AllPairs(n: nat): Relation {
    set i: nat, j: nat | i < n && j < n :: (i, j)
  }

  /** r after the bits of row j of r0 have been added to row i. */
  ghost predicate Merged(r0: Relation, r: Relation, i: nat, j: nat) {
    && r0 <= r
    && (forall e :: e in r && e !in r0 ==> e.0 == i && (j, e.1) in r0)
    && RowWithin(r, j, i)
  }
}
