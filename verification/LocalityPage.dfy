/** Variable-size pages: runtime/core/LocalityPage.cpp. Addresses in a locality page are byte offsets
    from its first byte. */
module LocalityPages {
  import opened Common
  import opened Handles

  const PAGE_SIZE: nat := 0x200000
  const WORD_64: nat := 0x1_0000_0000_0000_0000

  /** The metadata of a block, 16 bytes. A live block's address is in its mapping, a hole's in the metadata. */
  datatype Meta = Object(mapping: nat, size: nat) | Hole(at: nat, size: nat)

  function Aligned(size: nat): (r: nat)
    ensures size <= r < size + 16 && r % 16 == 0
  {
    (size + 15) / 16 * 16
  }

  /** The bytes with `data` written at offset `at`. */
  function Written(bytes: seq<Byte>, at: nat, data: seq<Byte>): (r: seq<Byte>)
    requires at + |data| <= |bytes|
    ensures |r| == |bytes|
  {
    bytes[..at] + data + bytes[at + |data|..]
  }

  lemma ReadWritten(bytes: seq<Byte>, at: nat, data: seq<Byte>, lo: nat, hi: nat)
    requires at + |data| <= |bytes| && lo <= hi <= |bytes|
    ensures at == lo && hi == lo + |data| ==> Written(bytes, at, data)[lo..hi] == data
    ensures hi <= at || at + |data| <= lo ==> Written(bytes, at, data)[lo..hi] == bytes[lo..hi]
  {}

  /** The total size of the holes. */
  function Freed(metas: seq<Meta>): nat {
    if metas == [] then 0
    else Freed(metas[..|metas| - 1]) + if metas[|metas| - 1].Hole? then metas[|metas| - 1].size else 0
  }

  /** How many holes there are. */
  function Holes(metas: seq<Meta>): nat {
    if metas == [] then 0
    else Holes(metas[..|metas| - 1]) + if metas[|metas| - 1].Hole? then 1 else 0
  }

  /** The pairs of a hole and a live block behind it. */
  function Inversions(metas: seq<Meta>): nat {
    if metas == [] then 0
    else Inversions(metas[..|metas| - 1]) + if metas[|metas| - 1].Hole? then 0 else Holes(metas[..|metas| - 1])
  }

  /** A page and the handle table, as values. */
  datatype Page = Page(id: nat, metas: seq<Meta>, bump: nat, bytes: seq<Byte>, table: seq<Mapping>) {

    predicate Bound(i: nat)
      requires i < |metas|
    {
      metas[i].size > 0 &&
      (metas[i].Object? ==>
        metas[i].mapping < |table| && !table[metas[i].mapping].free && table[metas[i].mapping].ptr.page == id)
    }

    /** get_data. */
    function Start(i: nat): nat
      requires i < |metas|
    {
      if metas[i].Hole? then metas[i].at
      else if metas[i].mapping < |table| then table[metas[i].mapping].ptr.slot
      else 0
    }

    function End(i: nat): nat
      requires i < |metas|
    {
      Start(i) + metas[i].size
    }

    /** Block i starts where the block before it ends, the first at offset 0. */
    predicate Chained(i: nat)
      requires i < |metas|
    {
      Bound(i) && Start(i) == if i == 0 then 0 else End(i - 1)
    }

    /** The blocks tile [0, bump) in metadata order. */
    ghost predicate Tiled() {
      && (forall i: nat :: i < |metas| ==> Chained(i))
      && bump == if metas == [] then 0 else End(|metas| - 1)
    }

    /** The distance from the bump pointer to where the next metadata goes. */
    function Room(): int {
      PAGE_SIZE - 16 * (|metas| + 1) - bump
    }

    /** get_free_space: an unsigned 64-bit difference of the two pointers. */
    function FreeSpace(): nat {
      Room() % WORD_64
    }

    /** The blocks tile the used range, which ends below the metadata of the blocks. */
    ghost predicate Valid() {
      |bytes| == PAGE_SIZE && Tiled() && Room() + 16 >= 0
    }

    lemma {:induction false} Before(i: nat, j: nat)
      requires Tiled() && i < j < |metas|
      ensures Bound(i) && Bound(j) && End(i) <= Start(j)
      decreases j
    {
      assert Chained(i) && Chained(j);
      if i + 1 < j {
        Before(i, j - 1);
      }
    }

    lemma InPage(i: nat)
      requires Valid() && i < |metas|
      ensures Bound(i) && End(i) <= bump <= |bytes|
    {
      assert Chained(i) && Chained(|metas| - 1) && bump == End(|metas| - 1);
      if i + 1 < |metas| {
        Before(i, |metas| - 1);
      }
    }

    /** No two blocks share a mapping. */
    lemma OneBlock(i: nat, j: nat)
      requires Tiled() && i < j < |metas| && metas[i].Object? && metas[j].Object?
      ensures metas[i].mapping != metas[j].mapping
    {
      Before(i, j);
    }

    ghost function Data(i: nat): seq<Byte>
      requires Valid() && i < |metas|
    {
      InPage(i);
      bytes[Start(i)..End(i)]
    }

    /** Mapping m is live here and reads as `data`. */
    ghost predicate Stores(m: nat, data: seq<Byte>)
      requires Valid()
    {
      exists i: nat :: i < |metas| && metas[i] == Object(m, |data|) && Data(i) == data
    }

    /** Exchanging the hole i with the live block behind it. */
    ghost function Swapped(i: nat): Page
      requires Valid() && i + 1 < |metas| && metas[i].Hole? && metas[i + 1].Object?
    {
      InPage(i + 1);
      Before(i, i + 1);
      var dst, m := Start(i), metas[i + 1].mapping;
      this.(metas := metas[i := Object(m, metas[i + 1].size)][i + 1 := Hole(dst + metas[i + 1].size, metas[i].size)],
            bytes := Written(bytes, dst, Data(i + 1)),
            table := table[m := table[m].SetPointer(Address(id, dst))])
    }

    /** The page after the last block, a hole, is dropped. */
    ghost function Pruned(): Page
      requires Valid() && metas != []
    {
      assert Chained(|metas| - 1);
      this.(metas := metas[..|metas| - 1], bump := Start(|metas| - 1))
    }

    /** The page after block i, live, becomes a hole. */
    ghost function Released(i: nat): Page
      requires Valid() && i < |metas|
    {
      assert Chained(i);
      this.(metas := metas[i := Hole(Start(i), metas[i].size)])
    }

    /** The page after `data` is bump allocated for mapping m. */
    ghost function Placed(m: nat, data: seq<Byte>): Page
      requires m < |table| && bump + |data| <= |bytes|
    {
      this.(metas := metas + [Object(m, Aligned(|data|))],
            bump := bump + Aligned(|data|),
            bytes := Written(bytes, bump, data),
            table := table[m := table[m].SetPointer(Address(id, bump))])
    }
  }

  /** No object is lost and no byte of one changes; no entry of the table changes but the pointers of
      unpinned objects of this page. */
  ghost predicate SameObjects(p: Page, q: Page)
    requires p.Valid() && q.Valid()
  {
    && q.id == p.id
    && (forall m: nat, data: seq<Byte> :: p.Stores(m, data) <==> q.Stores(m, data))
    && OnlyMoves(p.id, p.table, q.table)
  }

  /** An entry keeps its flags; its pointer changes only within page id, and only when unpinned. */
  ghost predicate OnlyMoves(id: nat, table: seq<Mapping>, table': seq<Mapping>) {
    && |table'| == |table|
    && forall m :: 0 <= m < |table| ==>
         table'[m] == table[m] ||
         (!table[m].pinned && !table[m].free && table[m].ptr.page == id
           && table'[m] == table[m].SetPointer(table'[m].ptr) && table'[m].ptr.page == id)
  }

  lemma OnlyMovesTrans(id: nat, a: seq<Mapping>, b: seq<Mapping>, c: seq<Mapping>)
    requires OnlyMoves(id, a, b) && OnlyMoves(id, b, c)
    ensures OnlyMoves(id, a, c)
  {
    forall m | 0 <= m < |a|
      ensures c[m] == a[m] || (!a[m].pinned && !a[m].free && a[m].ptr.page == id && c[m] == a[m].SetPointer(c[m].ptr)
              && c[m].ptr.page == id)
    {
      assert c[m] == b[m] || c[m] == b[m].SetPointer(c[m].ptr);
    }
  }

  predicate Movable(p: Page, i: nat)
    requires i < |p.metas|
  {
    p.metas[i].Object? && p.metas[i].mapping < |p.table| && !p.table[p.metas[i].mapping].pinned
  }

  // ------------------------------------------------------------------ one swap

  lemma SwapElsewhere(p: Page, i: nat, k: nat)
    requires p.Valid() && i + 1 < |p.metas| && p.metas[i].Hole? && p.metas[i + 1].Object?
    requires k < |p.metas| && k != i && k != i + 1
    ensures p.Bound(k) && p.End(k) <= |p.bytes|
    ensures var q := p.Swapped(i); q.metas[k] == p.metas[k] && q.Bound(k) && q.Start(k) == p.Start(k)
    ensures p.Swapped(i).bytes[p.Start(k)..p.End(k)] == p.Data(k)
  {
    p.InPage(i + 1);
    p.InPage(k);
    p.Before(i, i + 1);
    if k < i { p.Before(k, i); } else { p.Before(i + 1, k); }
    ReadWritten(p.bytes, p.Start(i), p.Data(i + 1), p.Start(k), p.End(k));
  }

  lemma SwapHere(p: Page, i: nat)
    requires p.Valid() && i + 1 < |p.metas| && p.metas[i].Hole? && p.metas[i + 1].Object?
    ensures p.Bound(i) && p.Bound(i + 1)
    ensures var q, m, size := p.Swapped(i), p.metas[i + 1].mapping, p.metas[i + 1].size;
      && q.metas[i] == Object(m, size) && q.Bound(i) && q.Start(i) == p.Start(i)
      && q.metas[i + 1].Hole? && q.Bound(i + 1) && q.Start(i + 1) == q.End(i) && q.End(i + 1) == p.End(i + 1)
      && q.End(i) <= |q.bytes| && q.bytes[q.Start(i)..q.End(i)] == p.Data(i + 1)
  {
    p.InPage(i + 1);
    assert p.Chained(i) && p.Chained(i + 1);
    ReadWritten(p.bytes, p.Start(i), p.Data(i + 1), p.Start(i), p.Start(i) + p.metas[i + 1].size);
  }

  /** Where block k ends up: nothing but the boundary between the two blocks moves. */
  lemma SwapBlock(p: Page, i: nat, k: nat)
    requires p.Valid() && i + 1 < |p.metas| && p.metas[i].Hole? && p.metas[i + 1].Object?
    requires k < |p.metas|
    ensures |p.Swapped(i).metas| == |p.metas| && p.Bound(k) && p.Swapped(i).Bound(k)
    ensures p.Swapped(i).Start(k) == if k == i + 1 then p.Start(i) + p.metas[i + 1].size else p.Start(k)
    ensures p.Swapped(i).End(k) == if k == i then p.Start(i) + p.metas[i + 1].size else p.End(k)
  {
    hide Written;
    if k == i || k == i + 1 {
      SwapHere(p, i);
    } else {
      SwapElsewhere(p, i, k);
    }
  }

  lemma SwapTiles(p: Page, i: nat)
    requires p.Valid() && i + 1 < |p.metas| && p.metas[i].Hole? && p.metas[i + 1].Object?
    ensures p.Swapped(i).Valid()
  {
    hide Written;
    var q := p.Swapped(i);
    assert |q.metas| == |p.metas| && q.bump == p.bump && |q.bytes| == |p.bytes|;
    hide Page.Swapped;
    forall k: nat | k < |q.metas|
      ensures q.Chained(k) && (k == |q.metas| - 1 ==> q.End(k) == q.bump)
    {
      assert p.Chained(k);
      SwapBlock(p, i, k);
      if k > 0 { SwapBlock(p, i, k - 1); }
    }
  }

  lemma SwapSafe(p: Page, i: nat)
    requires p.Valid() && i + 1 < |p.metas| && p.metas[i].Hole? && Movable(p, i + 1)
    ensures p.Swapped(i).Valid() && SameObjects(p, p.Swapped(i))
  {
    hide Page.Tiled, Written;
    var q := p.Swapped(i);
    SwapTiles(p, i);
    SwapHere(p, i);
    forall m: nat, data: seq<Byte> ensures p.Stores(m, data) <==> q.Stores(m, data) {
      if p.Stores(m, data) {
        var k: nat :| k < |p.metas| && p.metas[k] == Object(m, |data|) && p.Data(k) == data;
        if k != i + 1 { SwapElsewhere(p, i, k); }
        assert q.Data(if k == i + 1 then i else k) == data;
      }
      if q.Stores(m, data) {
        var k: nat :| k < |q.metas| && q.metas[k] == Object(m, |data|) && q.Data(k) == data;
        if k != i { SwapElsewhere(p, i, k); }
        assert p.Data(if k == i then i + 1 else k) == data;
      }
    }
  }

  // ------------------------------------------------------------------ the other steps

  lemma PruneTiles(p: Page)
    requires p.Valid() && p.metas != [] && p.metas[|p.metas| - 1].Hole?
    ensures p.Pruned().Valid()
  {
    var q, n := p.Pruned(), |p.metas|;
    forall k: nat | k < n - 1 ensures q.Chained(k) {
      assert p.Chained(k);
    }
    assert p.Chained(n - 1);
  }

  lemma SameData(p: Page, q: Page, k: nat)
    requires p.Valid() && q.Valid() && q.bytes == p.bytes && k < |p.metas| && k < |q.metas|
    requires q.Start(k) == p.Start(k) && q.End(k) == p.End(k)
    ensures q.Data(k) == p.Data(k)
  {}

  lemma PruneSafe(p: Page)
    requires p.Valid() && p.metas != [] && p.metas[|p.metas| - 1].Hole?
    ensures p.Pruned().Valid() && SameObjects(p, p.Pruned())
    ensures Freed(p.Pruned().metas) + p.metas[|p.metas| - 1].size == Freed(p.metas)
    ensures Inversions(p.Pruned().metas) == Inversions(p.metas)
  {
    PruneTiles(p);
    var q, n := p.Pruned(), |p.metas|;
    assert q.metas == p.metas[..n - 1] && q.table == p.table && q.id == p.id;
    forall k: nat | k < n - 1 ensures q.Data(k) == p.Data(k) {
      SameData(p, q, k);
    }
    hide Page.Tiled, Page.Pruned, Page.Data, Page.Valid;
    forall m: nat, data: seq<Byte> ensures p.Stores(m, data) <==> q.Stores(m, data) {
      if p.Stores(m, data) {
        var k: nat :| k < n && p.metas[k] == Object(m, |data|) && p.Data(k) == data;
        assert q.Data(k) == data;
      }
      if q.Stores(m, data) {
        var k: nat :| k < n - 1 && q.metas[k] == Object(m, |data|) && q.Data(k) == data;
        assert p.Data(k) == data;
      }
    }
  }

  lemma ReleaseTiles(p: Page, i: nat)
    requires p.Valid() && i < |p.metas| && p.metas[i].Object?
    ensures p.Released(i).Valid()
  {
    var q := p.Released(i);
    forall k: nat | k < |p.metas| ensures q.Chained(k) {
      assert p.Chained(k);
    }
  }

  /** Freeing block i: its mapping is gone, every other object stays as it is. */
  lemma ReleaseSafe(p: Page, i: nat)
    requires p.Valid() && i < |p.metas| && p.metas[i].Object?
    ensures p.Released(i).Valid()
    ensures forall m: nat, data: seq<Byte> :: p.Released(i).Stores(m, data) <==>
            p.Stores(m, data) && m != p.metas[i].mapping
    ensures Freed(p.Released(i).metas) == Freed(p.metas) + p.metas[i].size
  {
    ReleaseTiles(p, i);
    FreedUpdate(p.metas, i, p.Start(i));
    var q := p.Released(i);
    forall k: nat | k < |p.metas| ensures q.Data(k) == p.Data(k) {
      SameData(p, q, k);
    }
    hide Page.Tiled, Page.Data, Page.Valid;
    forall m: nat, data: seq<Byte> ensures q.Stores(m, data) <==> p.Stores(m, data) && m != p.metas[i].mapping {
      if q.Stores(m, data) {
        var k: nat :| k < |q.metas| && q.metas[k] == Object(m, |data|) && q.Data(k) == data;
        OtherMapping(p, i, k);
        assert p.Data(k) == data;
      }
      if p.Stores(m, data) && m != p.metas[i].mapping {
        var k: nat :| k < |p.metas| && p.metas[k] == Object(m, |data|) && p.Data(k) == data;
        assert q.Data(k) == data;
      }
    }
  }

  lemma OtherMapping(p: Page, i: nat, k: nat)
    requires p.Valid() && i < |p.metas| && k < |p.metas| && p.metas[i].Object? && p.metas[k].Object? && i != k
    ensures p.metas[i].mapping != p.metas[k].mapping
  {
    if i < k { p.OneBlock(i, k); } else { p.OneBlock(k, i); }
  }

  lemma {:induction false} FreedUpdate(metas: seq<Meta>, i: nat, at: nat)
    requires i < |metas| && metas[i].Object?
    ensures Freed(metas[i := Hole(at, metas[i].size)]) == Freed(metas) + metas[i].size
  {
    var metas' := metas[i := Hole(at, metas[i].size)];
    var n := |metas| - 1;
    if i < n {
      FreedUpdate(metas[..n], i, at);
      assert metas'[..n] == metas[..n][i := Hole(at, metas[i].size)];
    } else {
      assert metas'[..n] == metas[..n];
    }
  }

  /** One swap removes exactly one inversion and frees no byte. */
  lemma {:induction false} SwapCounts(metas: seq<Meta>, i: nat, a: Meta, b: Meta)
    requires i + 1 < |metas| && metas[i].Hole? && metas[i + 1].Object?
    requires a.Object? && b.Hole? && a.size == metas[i + 1].size && b.size == metas[i].size
    ensures var metas' := metas[i := a][i + 1 := b];
      Inversions(metas') + 1 == Inversions(metas) && Freed(metas') == Freed(metas) && Holes(metas') == Holes(metas)
  {
    var metas', n := metas[i := a][i + 1 := b], |metas| - 1;
    if i + 1 < n {
      SwapCounts(metas[..n], i, a, b);
      assert metas'[..n] == metas[..n][i := a][i + 1 := b];
    } else {
      assert metas'[..n] == metas[..i] + [a] && metas[..n] == metas[..i] + [metas[i]];
      assert metas'[..n][..i] == metas[..i] == metas[..n][..i];
    }
  }

  lemma PlaceBlock(p: Page, m: nat, data: seq<Byte>, k: nat)
    requires p.Valid() && m < |p.table| && p.table[m].ptr.page != p.id && 0 < Aligned(|data|) <= p.Room()
    requires k <= |p.metas|
    ensures p.bump + |data| <= |p.bytes|
    ensures |p.Placed(m, data).metas| == |p.metas| + 1 && p.Placed(m, data).Bound(k)
    ensures k < |p.metas| ==>
              p.Bound(k) && p.Placed(m, data).Start(k) == p.Start(k) && p.Placed(m, data).End(k) == p.End(k)
    ensures k == |p.metas| ==>
              p.Placed(m, data).Start(k) == p.bump && p.Placed(m, data).End(k) == p.Placed(m, data).bump
  {
    hide Written, Aligned;
    if k < |p.metas| {
      assert p.Chained(k);
    }
  }

  lemma PlaceTiles(p: Page, m: nat, data: seq<Byte>)
    requires p.Valid() && m < |p.table| && p.table[m].ptr.page != p.id && 0 < Aligned(|data|) <= p.Room()
    ensures p.Placed(m, data).Valid()
    ensures forall k: nat :: k < |p.metas| ==>
              p.Placed(m, data).Start(k) == p.Start(k) && p.Placed(m, data).End(k) == p.End(k)
  {
    var q, n := p.Placed(m, data), |p.metas|;
    PlaceBlock(p, m, data, n);
    assert |q.bytes| == |p.bytes| && q.Room() + 16 >= 0;
    forall k: nat | k <= n
      ensures q.Chained(k) && (k < n ==> q.Start(k) == p.Start(k) && q.End(k) == p.End(k))
    {
      hide Page.Placed;
      PlaceBlock(p, m, data, k);
      if k > 0 {
        PlaceBlock(p, m, data, k - 1);
      }
      if k < n { assert p.Chained(k); }
    }
  }

  /** Placing an object in a page with room for it: the object can be read back, the others are as
      they were, and no data runs into metadata. The mapping must not be one of this page's. */
  lemma PlaceSafe(p: Page, m: nat, data: seq<Byte>)
    requires p.Valid() && m < |p.table| && p.table[m].ptr.page != p.id && 0 < Aligned(|data|) <= p.Room()
    ensures p.bump + |data| <= |p.bytes|
    ensures var q := p.Placed(m, data);
      && q.Valid() && OnlyOthers(p, q)
      && q.metas == p.metas + [Object(m, Aligned(|data|))]
      && q.table[m] == Mapping(Address(p.id, p.bump), false, false)
      && q.bytes[p.bump..p.bump + |data|] == data
    ensures Freed(p.Placed(m, data).metas) == Freed(p.metas)
  {
    PlaceTiles(p, m, data);
    var q, n := p.Placed(m, data), |p.metas|;
    assert q.metas[..n] == p.metas;
    forall k: nat | k < n ensures q.metas[k] == p.metas[k] && q.Data(k) == p.Data(k) {
      p.InPage(k);
      ReadWritten(p.bytes, p.bump, data, p.Start(k), p.End(k));
    }
    ReadWritten(p.bytes, p.bump, data, p.bump, p.bump + |data|);
  }

  /** Blocks of p are blocks of q with the same bytes. */
  ghost predicate OnlyOthers(p: Page, q: Page)
    requires p.Valid() && q.Valid()
  {
    |p.metas| <= |q.metas| && forall k: nat :: k < |p.metas| ==> q.metas[k] == p.metas[k] && q.Data(k) == p.Data(k)
  }

  /** The guard of alloc tells whether the object fits only while the free space has not gone below
      zero; when it has, the unsigned difference passes for almost 2^64 bytes. */
  lemma GuardIsRightIff(p: Page, size: nat)
    requires p.Valid() && 0 < size <= PAGE_SIZE
    ensures (p.FreeSpace() >= size <==> p.Room() >= size) <==> p.Room() >= 0
  {
    if p.Room() < 0 {
      assert p.FreeSpace() == p.Room() + WORD_64;
    } else {
      assert p.FreeSpace() == p.Room();
    }
  }

  lemma NoWrap(p: Page)
    requires p.Valid() && p.Room() >= 0
    ensures p.FreeSpace() == p.Room()
  {}

  /** And it goes below zero exactly when an object leaves fewer than 16 bytes for the next metadata. */
  lemma RoomAfterPlacing(p: Page, m: nat, data: seq<Byte>)
    requires p.Valid() && m < |p.table| && p.bump + |data| <= |p.bytes|
    ensures p.Placed(m, data).Room() >= 0 <==> p.Room() >= Aligned(|data|) + 16
  {}

  /** localize keeps room for it: it allocates from its page when that has twice the size besides one
      metadata entry, and otherwise from a page got with 32 bytes more than the size. */
  lemma LocalizeKeepsRoom(p: Page, m: nat, data: seq<Byte>)
    requires p.Valid() && p.Room() >= 16 && m < |p.table| && 0 < |data| && |data| % 16 == 0
    requires p.Room() - 16 >= 2 * |data| || p.Room() - 16 >= |data| + 32
    ensures p.bump + |data| <= |p.bytes| && p.Placed(m, data).Room() >= 16
  {
  }

  /** A page as it is made. */
  function NewPage(id: nat, table: seq<Mapping>): Page {
    Page(id, [], 0, seq(PAGE_SIZE, _ => 0), table)
  }

  lemma NewPageValid(id: nat, table: seq<Mapping>)
    ensures NewPage(id, table).Valid() && NewPage(id, table).Room() == PAGE_SIZE - 16
  {}

  /** An input where the guard is wrong: an object that fills a new page to its metadata is accepted, and
      after it any object of any size. */
  lemma GuardFails(id: nat, table: seq<Mapping>, m: nat, data: seq<Byte>)
    requires m < |table| && table[m].ptr.page != id && |data| == PAGE_SIZE - 16
    ensures NewPage(id, table).Valid() && NewPage(id, table).FreeSpace() >= Aligned(|data|)
    ensures var p := NewPage(id, table).Placed(m, data);
            p.Valid() && p.Room() < 0 && forall size :: 0 < size <= PAGE_SIZE ==> p.FreeSpace() >= Aligned(size)
  {
    NewPageValid(id, table);
    PlaceSafe(NewPage(id, table), m, data);
    var p := NewPage(id, table).Placed(m, data);
    assert p.Room() == -16 && p.FreeSpace() == WORD_64 - 16;
  }

  /** An input with no block for the pruning loop to stop at: one object placed and freed. */
  lemma NothingToStopAt(id: nat, table: seq<Mapping>, m: nat, data: seq<Byte>)
    requires m < |table| && table[m].ptr.page != id && 0 < |data| <= PAGE_SIZE - 32
    ensures NewPage(id, table).Valid() && NewPage(id, table).Placed(m, data).Valid()
    ensures NewPage(id, table).Placed(m, data).metas != []
    ensures var p := NewPage(id, table).Placed(m, data).Released(0); p.Valid() && !HasObject(p.metas)
  {
    NewPageValid(id, table);
    PlaceSafe(NewPage(id, table), m, data);
    ReleaseSafe(NewPage(id, table).Placed(m, data), 0);
  }

  // ------------------------------------------------------------------ searching

  /** What a metadata search comes to: a block, nothing, or a read of metadata that is not there. */
  datatype Found = Block(index: nat) | Missing | Wild

  /** Where the search for ptr ends up when it starts at block `guess`. Going right it stops at the
      first block that starts at or after ptr; going left, at the last that starts at or before it. */
  ghost predicate Walked(p: Page, guess: nat, ptr: nat, r: Found)
    requires guess < |p.metas|
  {
    if ptr > p.Start(guess) then
      match r
      case Block(j) => guess < j < |p.metas| && p.Start(j - 1) < ptr <= p.Start(j)
      case Missing => false
      case Wild => p.Start(|p.metas| - 1) < ptr
    else
      r.Block? && r.index <= guess && p.Start(r.index) <= ptr && (r.index < guess ==> ptr < p.Start(r.index + 1))
  }

  /** A pointer into block k finds k exactly when it is the block's first byte or the guess was a later
      block. In particular a block's own address finds it from any guess. */
  lemma FoundIff(p: Page, guess: nat, ptr: nat, r: Found, k: nat)
    requires p.Valid() && guess < |p.metas| && Walked(p, guess, ptr, r)
    requires k < |p.metas| && p.Start(k) <= ptr < p.End(k)
    ensures r == Block(k) <==> ptr == p.Start(k) || k < guess
  {
    StartsOrdered(p, k, guess);
    StartsOrdered(p, k, |p.metas| - 1);
    if r.Block? {
      StartsOrdered(p, k, r.index);
      if r.index > 0 { StartsOrdered(p, k, r.index - 1); }
      if r.index + 1 < |p.metas| { StartsOrdered(p, k, r.index + 1); }
    }
  }

  /** The index the pointer would have if all blocks had the average size. */
  function Guess(bump: nat, blocks: nat, ptr: nat): (guess: nat)
    requires 0 < blocks <= bump
    ensures guess < blocks
  {
    var scale := bump / blocks;
    if ptr / scale >= blocks then blocks - 1 else ptr / scale
  }

  /** An input where the search misses: a pointer into the first of two blocks of 32 bytes finds the second. */
  lemma InnerPointerMissed(id: nat, table: seq<Mapping>, m: nat, n: nat, a: seq<Byte>, b: seq<Byte>, r: Found)
    requires m < |table| && n < |table| && m != n && table[m].ptr.page != id && table[n].ptr.page != id
    requires |a| == |b| == 32
    ensures NewPage(id, table).Valid() && NewPage(id, table).Placed(m, a).Valid()
    ensures var p := NewPage(id, table).Placed(m, a).Placed(n, b);
            && p.Valid() && |p.metas| == 2 && p.bump == 64 && Guess(64, 2, 8) == 0
            && p.Bound(0) && p.Start(0) < 8 < p.End(0) && (Walked(p, 0, 8, r) ==> r == Block(1))
  {
    NewPageValid(id, table);
    PlaceSafe(NewPage(id, table), m, a);
    var q := NewPage(id, table).Placed(m, a);
    PlaceSafe(q, n, b);
    var p := q.Placed(n, b);
    assert p.Chained(0) && p.Chained(1);
    hide Page.Valid, Written;
    assert p.Start(0) == 0 && p.Start(1) == 32;
  }

  lemma StartsOrdered(p: Page, i: nat, j: nat)
    requires p.Valid() && i < |p.metas| && j < |p.metas|
    ensures p.Bound(i) && p.Bound(j)
    ensures i < j ==> p.End(i) <= p.Start(j)
    ensures j < i ==> p.End(j) <= p.Start(i)
  {
    assert p.Chained(i) && p.Chained(j);
    if i < j { p.Before(i, j); }
    if j < i { p.Before(j, i); }
  }

  /** The average block is at least a byte, so the guess does not divide by zero. */
  lemma {:induction false} BytesPerBlock(p: Page, n: nat)
    requires p.Valid() && 0 < n <= |p.metas|
    ensures p.End(n - 1) >= n
  {
    assert p.Chained(n - 1);
    if n > 1 {
      BytesPerBlock(p, n - 1);
    }
  }

  // ------------------------------------------------------------------ stable pages

  /** No live block that may move lies right behind a hole. */
  ghost predicate Stable(p: Page) {
    forall k: nat :: k + 1 < |p.metas| && p.metas[k].Hole? ==> !Movable(p, k + 1)
  }

  /** In a stable page whose last block is live, every hole lies, with nothing but holes between, before
      a pinned block. */
  lemma {:induction false} HolesBeforePinned(p: Page, k: nat) returns (j: nat)
    requires p.Valid() && Stable(p) && k < |p.metas| && p.metas[k].Hole? && EndsLive(p.metas)
    ensures k < j < |p.metas| && p.metas[j].Object? && p.metas[j].mapping < |p.table|
            && p.table[p.metas[j].mapping].pinned
    ensures forall i: nat :: k <= i < j ==> p.metas[i].Hole?
    decreases |p.metas| - k
  {
    assert p.Chained(k + 1);
    if p.metas[k + 1].Hole? {
      j := HolesBeforePinned(p, k + 1);
    } else {
      j := k + 1;
      assert !Movable(p, k + 1);
    }
  }

  /** So without pins repeated compaction leaves no free byte in the used range. */
  lemma StableUnpinnedIsFull(p: Page)
    requires p.Valid() && Stable(p) && EndsLive(p.metas)
    requires forall i: nat :: i < |p.metas| && p.metas[i].Object? && p.metas[i].mapping < |p.table| ==>
               !p.table[p.metas[i].mapping].pinned
    ensures Freed(p.metas) == 0 && Holes(p.metas) == 0
  {
    forall k: nat | k < |p.metas| ensures p.metas[k].Object? {
      if p.metas[k].Hole? {
        var j := HolesBeforePinned(p, k);
      }
    }
    NoHoles(p.metas);
  }

  lemma {:induction false} NoHoles(metas: seq<Meta>)
    requires forall k: nat :: k < |metas| ==> metas[k].Object?
    ensures Freed(metas) == 0 && Holes(metas) == 0
  {
    if metas != [] {
      NoHoles(metas[..|metas| - 1]);
    }
  }

  predicate EndsLive(metas: seq<Meta>) {
    |metas| > 0 && metas[|metas| - 1].Object?
  }

  ghost predicate HasObject(metas: seq<Meta>) {
    exists i: nat :: i < |metas| && metas[i].Object?
  }

  // ------------------------------------------------------------------ the page object

  class LocalityPage {
    const id: nat
    const bytes: array<Byte>
    const table: array<Mapping>
    var metas: seq<Meta>
    var bumpNext: nat
    var bytesFreed: int

    ghost function Now(): Page
      reads this, bytes, table
    {
      Page(id, metas, bumpNext, bytes[..], table[..])
    }

    ghost predicate Valid()
      reads this, bytes, table
    {
      Now().Valid() && bytesFreed == Freed(metas)
    }

    constructor (id: nat, table: array<Mapping>)
      ensures Valid() && fresh(bytes) && this.id == id && this.table == table && Now() == NewPage(id, table[..])
    {
      this.id, this.table := id, table;
      bytes := new Byte[PAGE_SIZE](_ => 0);
      metas, bumpNext, bytesFreed := [], 0, 0;
      new;
      assert bytes[..] == NewPage(id, table[..]).bytes;
    }

    /** The new block's mapping still points wherever it did: the caller stores the address. */
    method Alloc(m: nat, size: nat) returns (data: Option<nat>)
      modifies this
      ensures data == if old(Now().FreeSpace()) < Aligned(size) then None else Some(old(bumpNext))
      ensures data.None? ==> metas == old(metas) && bumpNext == old(bumpNext)
      ensures data.Some? ==>
                metas == old(metas) + [Object(m, Aligned(size))] && bumpNext == old(bumpNext) + Aligned(size)
      ensures bytesFreed == old(bytesFreed)
    {
      var freeSpace := (PAGE_SIZE - 16 * (|metas| + 1) - bumpNext) % WORD_64;
      if freeSpace < Aligned(size) {
        return None;
      }
      data := Some(bumpNext);
      bumpNext := bumpNext + Aligned(size);
      metas := metas + [Object(m, Aligned(size))];
    }

    /** Allocating, copying the object in and storing its address, as localize does. */
    method Place(m: nat, data: seq<Byte>) returns (placed: bool)
      requires Valid() && Now().Room() >= 0 && 0 < |data| && m < table.Length && table[m].ptr.page != id
      modifies this, bytes, table
      ensures Valid()
      ensures placed <==> Aligned(|data|) <= old(Now().Room())
      ensures placed ==> Now() == old(Now()).Placed(m, data)
      ensures !placed ==> Now() == old(Now())
    {
      ghost var before := Now();
      NoWrap(before);
      hide Page.FreeSpace, Page.Room, Page.Valid, Written, OnlyOthers, Aligned, Freed;
      var at := Alloc(m, |data|);
      placed := at.Some?;
      if placed {
        PlaceSafe(before, m, data);
        Fill(m, data, at.value);
        assert Now() == before.Placed(m, data);
      } else {
        assert Now() == before;
      }
    }

    method Fill(m: nat, data: seq<Byte>, at: nat)
      requires at + |data| <= bytes.Length && m < table.Length
      modifies bytes, table
      ensures Now() == old(Now()).(bytes := Written(old(bytes[..]), at, data),
              table := old(table[..])[m := old(table[m]).SetPointer(Address(id, at))])
    {
      CopyIn(at, data);
      StorePointer(m, at);
    }

    method StorePointer(m: nat, at: nat)
      requires m < table.Length
      modifies table
      ensures table[..] == old(table[..])[m := old(table[m]).SetPointer(Address(id, at))]
    {
      table[m] := table[m].SetPointer(Address(id, at));
    }

    method CopyIn(at: nat, data: seq<Byte>)
      requires at + |data| <= bytes.Length
      modifies bytes
      ensures bytes[..] == Written(old(bytes[..]), at, data)
    {
      forall k | 0 <= k < |data| {
        bytes[at + k] := data[k];
      }
    }

    /** The ranges may overlap. */
    method Memmove(dst: nat, src: nat, size: nat)
      requires dst + size <= bytes.Length && src + size <= bytes.Length
      modifies bytes
      ensures bytes[..] == Written(old(bytes[..]), dst, old(bytes[src..src + size]))
    {
      forall k | 0 <= k < size {
        bytes[dst + k] := bytes[src + k];
      }
    }

    method Walk(start: nat, ptr: nat) returns (r: Found)
      requires Valid() && start < |metas|
      ensures Walked(Now(), start, ptr, r)
    {
      var guess: nat := start;
      assert Now().Chained(0) && Now().Chained(guess);
      if ptr > GetPtr(guess) {
        while ptr > GetPtr(guess)
          invariant start <= guess < |metas| && Now().Bound(guess)
          invariant guess > start ==> Now().Start(guess - 1) < ptr
          invariant ptr > Now().Start(start)
          decreases |metas| - guess
        {
          guess := guess + 1;
          if guess == |metas| {
            return Wild;
          }
          assert Now().Chained(guess);
        }
      } else {
        while ptr < GetPtr(guess)
          invariant guess <= start && Now().Bound(guess)
          invariant guess < start ==> ptr < Now().Start(guess + 1)
          invariant ptr <= Now().Start(start)
          decreases guess
        {
          assert Now().Chained(0);
          guess := guess - 1;
          assert Now().Chained(guess);
        }
      }
      r := Block(guess);
    }

    function GetPtr(i: nat): nat
      requires i < |metas|
      reads this, table
      requires metas[i].Object? ==> metas[i].mapping < table.Length
    {
      if metas[i].Object? then table[metas[i].mapping].ptr.slot else metas[i].at
    }

    /** The address of a block finds the block. */
    method FindMd(ptr: nat) returns (r: Found)
      requires Valid()
      ensures ptr > bumpNext ==> r == Missing
      ensures ptr <= bumpNext && metas == [] ==> r == Wild
      ensures ptr <= bumpNext && metas != [] ==>
                |metas| <= bumpNext && Walked(Now(), Guess(bumpNext, |metas|, ptr), ptr, r)
      ensures forall k: nat :: k < |metas| && Now().Start(k) == ptr ==> r == Block(k)
    {
      if ptr > bumpNext {
        forall k: nat | k < |metas| ensures Now().Start(k) != ptr { Now().InPage(k); }
        return Missing;
      }
      if |metas| == 0 {
        return Wild;
      }
      BytesPerBlock(Now(), |metas|);
      var guess := Guess(bumpNext, |metas|, ptr);
      r := Walk(guess, ptr);
      forall k: nat | k < |metas| && Now().Start(k) == ptr ensures r == Block(k) {
        assert Now().Chained(k);
        FoundIff(Now(), guess, ptr, r, k);
      }
    }

    /** release_local on the address of the live block i. */
    method Release(ptr: nat, ghost i: nat)
      requires Valid() && i < |metas| && metas[i].Object? && Now().Start(i) == ptr
      modifies this
      ensures Valid() && Now() == old(Now()).Released(i)
      ensures bytesFreed == old(bytesFreed) + old(metas[i].size)
    {
      ghost var before := Now();
      before.InPage(i);
      var md := FindMd(ptr);
      ReleaseSafe(before, i);
      bytesFreed := bytesFreed + metas[md.index].size;
      metas := metas[md.index := Hole(ptr, metas[md.index].size)];
    }

    method Swap(i: nat)
      requires Valid() && i + 1 < |metas| && metas[i].Hole? && Movable(Now(), i + 1)
      modifies this`metas, bytes, table
      ensures Valid() && Now() == old(Now()).Swapped(i)
    {
      ghost var before := Now();
      hide Written, Page.Valid, SameObjects, Inversions, Freed, HasObject, Stable;
      SwapStep(before, i);
      SwapBounds(before, i);
      var dst, src, size, m := GetPtr(i), GetPtr(i + 1), metas[i + 1].size, metas[i + 1].mapping;
      Memmove(dst, src, size);
      metas := metas[i := Object(m, size)][i + 1 := Hole(dst + size, metas[i].size)];
      StorePointer(m, dst);
    }

    /** Dropping the holes at the end. With no live block the loop runs off the page: inPage is false. */
    method Prune() returns (inPage: bool)
      requires Valid()
      modifies this`metas, this`bumpNext, this`bytesFreed
      ensures inPage <==> old(HasObject(metas))
      ensures inPage ==> Valid() && SameObjects(old(Now()), Now()) && EndsLive(metas)
      ensures inPage ==> metas <= old(metas) && Inversions(metas) == Inversions(old(metas))
    {
      ghost var before := Now();
      ghost var page := before;
      SameObjectsSelf(before);
      var pruned := 0;
      while |metas| > 0 && metas[|metas| - 1].Hole?
        invariant page.Valid() && SameObjects(before, page) && page.metas == metas && page.bytes == bytes[..]
        invariant table[..] == page.table
        invariant metas <= before.metas && Inversions(metas) == Inversions(before.metas) && bytesFreed == Freed(metas)
        invariant HasObject(metas) <==> HasObject(before.metas)
        invariant bumpNext == before.bump && (pruned == 0 ==> page == before)
        decreases |metas|
      {
        hide Page.Valid, SameObjects, Inversions, HasObject, Freed;
        PruneStep(before, page);
        page := page.Pruned();
        bytesFreed := bytesFreed - metas[|metas| - 1].size;
        metas := metas[..|metas| - 1];
        pruned := pruned + 1;
      }
      hide Page.Valid, SameObjects, Inversions, Freed;
      inPage := |metas| > 0;
      if inPage && pruned > 0 {
        BumpIsEnd(page);
        bumpNext := GetPtr(|metas| - 1) + metas[|metas| - 1].size;
      }
    }

    /** One pass: each hole is carried right until it meets another hole or a pinned object, and each object it
        passes is lower by its size afterwards; no other table entry changes. */
    method Compact() returns (moved: nat, inPage: bool)
      requires Valid()
      modifies this, bytes, table
      ensures inPage <==> old(HasObject(metas))
      ensures inPage ==> Valid() && SameObjects(old(Now()), Now()) && EndsLive(metas)
      ensures inPage ==> Inversions(metas) + moved == Inversions(old(metas))
      ensures Passed(old(Now()), table[..]) && moved == Moves(old(Now()), |old(metas)|)
      ensures moved == 0 <==> Stable(old(Now()))
      ensures inPage && moved == 0 ==> Stable(Now())
    {
      hide Page.Valid, SameObjects, Inversions, Stable, Freed, Passed, Moves, HasObject;
      ghost var before := Now();
      moved := Slide();
      ghost var swapped := Now();
      inPage := Prune();
      if inPage {
        SameObjectsTrans(before, swapped, Now());
        if moved == 0 {
          PrunedStable(swapped, Now());
        }
      }
    }

    /** The loop over pairs of neighbouring blocks. */
    method Slide() returns (moved: nat)
      requires Valid()
      modifies this, bytes, table
      ensures Valid() && SameObjects(old(Now()), Now()) && (HasObject(metas) <==> HasObject(old(metas)))
      ensures Inversions(metas) + moved == Inversions(old(metas))
      ensures Passed(old(Now()), table[..]) && moved == Moves(old(Now()), |old(metas)|)
      ensures moved == 0 <==> Stable(old(Now()))
      ensures moved == 0 ==> Now() == old(Now())
    {
      hide Passed, Moves, PassAt;
      ghost var before := Now();
      SameObjectsSelf(before);
      moved := 0;
      var i: nat := 0;
      PassStart(before);
      while i + 1 < |metas|
        invariant Valid() && SameObjects(before, Now()) && |metas| == |before.metas|
        invariant PassAt(before, Now(), i, moved)
        invariant Inversions(metas) + moved == Inversions(before.metas)
        invariant HasObject(metas) <==> HasObject(before.metas)
        invariant moved == 0 ==> Now() == before && StableUpTo(before, i)
        invariant moved > 0 ==> !Stable(before)
        decreases |metas| - i
      {
        hide Page.Valid, SameObjects, Inversions, HasObject, Stable, Freed;
        ghost var now := Now();
        Known(now, i + 1);
        PassStep(before, now, i, moved);
        if metas[i].Hole? && metas[i + 1].Object? && !table[metas[i + 1].mapping].pinned {
          SwapStep(now, i);
          SameObjectsTrans(before, now, now.Swapped(i));
          Swap(i);
          moved := moved + 1;
        } else {
          StableStep(now, i);
        }
        i := i + 1;
      }
      PassEnd(before, Now(), i, moved);
    }

    /** compact_locality_pages: the loop ends, since every swap removes an inversion. */
    method CompactUntilStable()
      requires Valid() && HasObject(metas)
      modifies this, bytes, table
      ensures Valid() && SameObjects(old(Now()), Now()) && Stable(Now()) && EndsLive(metas)
    {
      ghost var before := Now();
      SameObjectsSelf(before);
      var moved: nat, inPage := Compact();
      while moved != 0
        invariant Valid() && SameObjects(before, Now()) && EndsLive(metas)
        invariant moved == 0 ==> Stable(Now())
        decreases Inversions(metas) + moved
      {
        hide Page.Valid, SameObjects, Inversions, Stable;
        ghost var now := Now();
        assert HasObject(metas);
        moved, inPage := Compact();
        SameObjectsTrans(before, now, Now());
      }
    }
  }

  // ------------------------------------------------------------------ one pass

  /** Hole j is carried over block k: only movable blocks are behind it up to there. */
  ghost predicate Carried(p: Page, j: nat, k: nat) {
    j < k < |p.metas| && p.metas[j].Hole? && forall i: nat :: j < i <= k ==> Movable(p, i)
  }

  /** The size of the hole that a pass has in hand when it has looked at block k, 0 if it has none. */
  function InHand(p: Page, k: nat): nat
    requires k < |p.metas|
  {
    if p.metas[k].Hole? then p.metas[k].size
    else if k > 0 && Movable(p, k) then InHand(p, k - 1)
    else 0
  }

  /** How far a pass moves block k down. */
  function Drop(p: Page, k: nat): nat
    requires k < |p.metas|
  {
    if k > 0 && Movable(p, k) then InHand(p, k - 1) else 0
  }

  /** That is the size of the hole carried over it, if there is one. */
  lemma {:induction false} DropIs(p: Page, k: nat)
    requires p.Valid() && k < |p.metas|
    ensures forall j: nat :: Carried(p, j, k) ==> Drop(p, k) == p.metas[j].size > 0
    ensures Drop(p, k) > 0 ==> exists j: nat :: Carried(p, j, k)
  {
    if k > 0 && Movable(p, k) {
      DropIs(p, k - 1);
      p.InPage(k - 1);
      forall j: nat | Carried(p, j, k) ensures Drop(p, k) == p.metas[j].size > 0 {
        assert Movable(p, k);
        if j < k - 1 {
          assert Movable(p, k - 1);
          assert Carried(p, j, k - 1);
        }
      }
      if p.metas[k - 1].Hole? {
        assert Carried(p, k - 1, k);
      } else if Drop(p, k) > 0 {
        var j: nat :| Carried(p, j, k - 1);
        assert Carried(p, j, k);
      }
    } else {
      forall j: nat ensures !Carried(p, j, k) {
        if j < k { assert !Movable(p, k); }
      }
    }
  }

  /** How many of the first n blocks a pass moves. */
  function Moves(p: Page, n: nat): nat
    requires n <= |p.metas|
  {
    if n == 0 then 0
    else Moves(p, n - 1) + if p.metas[n - 1].Object? && Drop(p, n - 1) > 0 then 1 else 0
  }

  /** Where a pass over the first n blocks has left the table: each object that far down, nothing else
      changed. */
  ghost predicate PassedUpTo(b: Page, table: seq<Mapping>, n: nat) {
    && |table| == |b.table|
    && (forall k: nat :: k < n && k < |b.metas| && b.metas[k].Object? ==> LowerBy(b, table, k, Drop(b, k)))
    && (forall m: nat :: m < |table| ==> table[m] == b.table[m] || MovedBlock(b, n, m))
  }

  ghost predicate LowerBy(b: Page, table: seq<Mapping>, k: nat, drop: nat)
    requires k < |b.metas| && b.metas[k].Object?
  {
    var m := b.metas[k].mapping;
    m < |table| && table[m].ptr.page == b.id && table[m].ptr.slot + drop == b.Start(k)
  }

  ghost predicate MovedBlock(b: Page, n: nat, m: nat) {
    exists k: nat :: k < n && k < |b.metas| && b.metas[k] == Object(m, b.metas[k].size) && Drop(b, k) > 0
  }

  ghost predicate Passed(b: Page, table: seq<Mapping>) {
    PassedUpTo(b, table, |b.metas|)
  }

  /** The state of a pass that is about to compare blocks i and i + 1. */
  ghost predicate PassAt(b: Page, p: Page, i: nat, moved: nat) {
    && |p.metas| == |b.metas| && p.id == b.id && |p.table| == |b.table|
    && (b.metas == [] ==> i == 0 && moved == 0 && p.table == b.table)
    && (b.metas != [] ==>
          && i < |b.metas| && (forall k: nat :: i < k < |b.metas| ==> p.metas[k] == b.metas[k])
          && (p.metas[i].Hole? <==> InHand(b, i) > 0) && (p.metas[i].Hole? ==> p.metas[i].size == InHand(b, i))
          && PassedUpTo(b, p.table, i + 1) && moved == Moves(b, i + 1))
  }

  /** Dropping holes at the end keeps a page stable. */
  lemma PrunedStable(p: Page, q: Page)
    requires q.metas <= p.metas && q.table == p.table && Stable(p)
    ensures Stable(q)
  {}

  lemma PassStart(b: Page)
    requires b.Valid()
    ensures PassAt(b, b, 0, 0)
  {
    if b.metas != [] {
      b.InPage(0);
      assert Moves(b, 1) == Moves(b, 0);
      assert b.metas[0].Object? ==> LowerBy(b, b.table, 0, 0);
    }
  }

  lemma PassEnd(b: Page, p: Page, i: nat, moved: nat)
    requires PassAt(b, p, i, moved) && i + 1 >= |b.metas|
    ensures Passed(b, p.table) && moved == Moves(b, |b.metas|)
  {}

  lemma PassStep(b: Page, p: Page, i: nat, moved: nat)
    requires b.Valid() && p.Valid() && SameObjects(b, p) && PassAt(b, p, i, moved) && i + 1 < |p.metas|
    ensures p.metas[i].Hole? && Movable(p, i + 1) ==> PassAt(b, p.Swapped(i), i + 1, moved + 1)
    ensures !(p.metas[i].Hole? && Movable(p, i + 1)) ==> PassAt(b, p, i + 1, moved)
  {
    SameMovable(b, p, i + 1);
    NextUntouched(b, p, i, moved);
    b.InPage(i + 1);
    if p.metas[i].Hole? && Movable(p, i + 1) {
      SwapPasses(b, p, i, moved);
    } else {
      SkipPasses(b, p, i, moved);
    }
  }

  /** Pins do not change during a pass. */
  lemma SameMovable(b: Page, p: Page, k: nat)
    requires b.Valid() && p.Valid() && SameObjects(b, p) && k < |b.metas| && k < |p.metas| && p.metas[k] == b.metas[k]
    ensures Movable(p, k) <==> Movable(b, k)
  {}

  /** The next block is where it was. */
  lemma NextUntouched(b: Page, p: Page, i: nat, moved: nat)
    requires b.Valid() && p.Valid() && PassAt(b, p, i, moved) && i + 1 < |p.metas|
    ensures p.metas[i + 1] == b.metas[i + 1] && b.Bound(i + 1) && p.Start(i + 1) == b.Start(i + 1)
    ensures b.metas[i + 1].Object? ==> p.table[b.metas[i + 1].mapping] == b.table[b.metas[i + 1].mapping]
  {
    b.InPage(i + 1);
    if b.metas[i + 1].Object? {
      var m := b.metas[i + 1].mapping;
      if p.table[m] != b.table[m] {
        var k: nat :| k < i + 1 && k < |b.metas| && b.metas[k] == Object(m, b.metas[k].size) && Drop(b, k) > 0;
        b.OneBlock(k, i + 1);
        assert false;
      }
    }
  }

  lemma SkipPasses(b: Page, p: Page, i: nat, moved: nat)
    requires b.Valid() && PassAt(b, p, i, moved) && i + 1 < |p.metas| && b.Bound(i + 1)
    requires p.metas[i + 1] == b.metas[i + 1] && !(p.metas[i].Hole? && Movable(b, i + 1))
    requires b.metas[i + 1].Object? ==>
               b.metas[i + 1].mapping < |p.table| && p.table[b.metas[i + 1].mapping] == b.table[b.metas[i + 1].mapping]
    ensures PassAt(b, p, i + 1, moved)
  {
    assert Drop(b, i + 1) == 0;
    assert b.metas[i + 1].Object? ==> LowerBy(b, p.table, i + 1, 0);
    MoreMoved(b, i + 1, i + 2);
    hide Page.Valid, LowerBy, MovedBlock;
  }

  lemma MoreMoved(b: Page, n: nat, n': nat)
    requires n <= n'
    ensures forall m: nat :: MovedBlock(b, n, m) ==> MovedBlock(b, n', m)
  {}

  lemma SwapPasses(b: Page, p: Page, i: nat, moved: nat)
    requires b.Valid() && p.Valid() && PassAt(b, p, i, moved) && i + 1 < |p.metas|
    requires p.metas[i].Hole? && Movable(p, i + 1) && Movable(b, i + 1)
    requires p.metas[i + 1] == b.metas[i + 1] && p.Start(i + 1) == b.Start(i + 1)
    ensures PassAt(b, p.Swapped(i), i + 1, moved + 1)
  {
    var q, m := p.Swapped(i), b.metas[i + 1].mapping;
    assert p.Chained(i + 1);
    assert Drop(b, i + 1) == InHand(b, i) == InHand(b, i + 1) > 0;
    assert q.table == p.table[m := p.table[m].SetPointer(Address(p.id, p.Start(i)))];
    assert LowerBy(b, q.table, i + 1, Drop(b, i + 1));
    forall k: nat | k < i + 1 && b.metas[k].Object? ensures LowerBy(b, q.table, k, Drop(b, k)) {
      b.OneBlock(k, i + 1);
      assert LowerBy(b, p.table, k, Drop(b, k));
    }
    MoreMoved(b, i + 1, i + 2);
    assert b.metas[i + 1] == Object(m, b.metas[i + 1].size);
    assert MovedBlock(b, i + 2, m);
    assert q.metas[i + 1].Hole? && q.metas[i + 1].size == p.metas[i].size;
    hide Page.Valid, LowerBy, MovedBlock, Page.Swapped, Movable;
  }

  lemma SameObjectsSelf(p: Page)
    requires p.Valid()
    ensures SameObjects(p, p)
  {}

  lemma SameObjectsTrans(p: Page, q: Page, r: Page)
    requires p.Valid() && q.Valid() && r.Valid() && SameObjects(p, q) && SameObjects(q, r)
    ensures SameObjects(p, r)
  {
    hide Page.Valid, Page.Stores;
    OnlyMovesTrans(p.id, p.table, q.table, r.table);
  }

  lemma LastIsHole(metas: seq<Meta>)
    requires metas != [] && metas[|metas| - 1].Hole?
    ensures HasObject(metas[..|metas| - 1]) <==> HasObject(metas)
  {
    if HasObject(metas) {
      var i: nat :| i < |metas| && metas[i].Object?;
      assert metas[..|metas| - 1][i].Object?;
    }
  }

  /** No movable block is behind one of the first i blocks. */
  ghost predicate StableUpTo(p: Page, i: nat) {
    forall k: nat :: k < i && k + 1 < |p.metas| && p.metas[k].Hole? ==> !Movable(p, k + 1)
  }

  lemma Known(p: Page, i: nat)
    requires p.Valid() && i < |p.metas|
    ensures p.metas[i].Object? ==> p.metas[i].mapping < |p.table|
  {
    assert p.Chained(i);
  }

  lemma StableStep(p: Page, i: nat)
    requires i + 1 < |p.metas| && !(p.metas[i].Hole? && Movable(p, i + 1))
    ensures StableUpTo(p, i) ==> StableUpTo(p, i + 1)
  {}

  lemma SwapBounds(p: Page, i: nat)
    requires p.Valid() && i + 1 < |p.metas| && p.metas[i].Hole? && Movable(p, i + 1)
    ensures p.Bound(i + 1) && p.Start(i) <= p.Start(i + 1) && p.End(i + 1) <= |p.bytes|
    ensures p.Data(i + 1) == p.bytes[p.Start(i + 1)..p.End(i + 1)]
  {
    p.InPage(i + 1);
    p.Before(i, i + 1);
  }

  lemma PruneStep(before: Page, p: Page)
    requires before.Valid() && p.Valid() && SameObjects(before, p) && p.metas != [] && p.metas[|p.metas| - 1].Hole?
    ensures var q := p.Pruned();
      && q.Valid() && SameObjects(before, q) && q.metas == p.metas[..|p.metas| - 1] && q.bytes == p.bytes
        && q.table == p.table
      && q.id == p.id && Freed(q.metas) == Freed(p.metas) - p.metas[|p.metas| - 1].size
      && Inversions(q.metas) == Inversions(p.metas) && (HasObject(q.metas) <==> HasObject(p.metas))
  {
    PruneSafe(p);
    SameObjectsTrans(before, p, p.Pruned());
    LastIsHole(p.metas);
  }

  lemma BumpIsEnd(p: Page)
    requires p.Valid() && p.metas != []
    ensures p.Bound(|p.metas| - 1) && p.bump == p.End(|p.metas| - 1)
  {
    assert p.Chained(|p.metas| - 1);
  }

  lemma SwapStep(p: Page, i: nat)
    requires p.Valid() && i + 1 < |p.metas| && p.metas[i].Hole? && Movable(p, i + 1)
    ensures var q := p.Swapped(i);
      && q.Valid() && SameObjects(p, q) && |q.metas| == |p.metas| && Freed(q.metas) == Freed(p.metas)
      && Inversions(q.metas) + 1 == Inversions(p.metas) && (HasObject(q.metas) <==> HasObject(p.metas)) && !Stable(p)
  {
    SwapSafe(p, i);
    hide Page.Tiled, SameObjects, Written;
    var q := p.Swapped(i);
    SwapCounts(p.metas, i, q.metas[i], q.metas[i + 1]);
    assert p.metas[i + 1].Object? && q.metas[i].Object?;
  }
}
