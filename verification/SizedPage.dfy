/** A page of equally sized objects: runtime/core/SizedPage.cpp over the allocator of
    runtime/include/alaska/SizedAllocator.hpp and ShardedFreeList.hpp. */
module SizedPages {
  import opened Common
  import opened Handles

  /** The header of a slot: the mapping of the object in it, if any, and the unused part of it. */
  datatype Header = Header(mapping: Option<nat>, slack: nat)

  const FREE: Header := Header(None, 0)

  /** What the memory of a slot holds: an object's bytes, or the link to the next free slot. */
  datatype Slot = Object(data: seq<Byte>) | Block(next: Option<nat>)

  const POISON: Byte := 0xF0

  /** The bytes of an object and the slack recorded for it. */
  datatype Content = Content(data: seq<Byte>, slack: nat)

  /** The state a page and the handle table are in, as values. */
  datatype Page = Page(id: nat, size: nat, headers: seq<Header>, slots: seq<Slot>, table: seq<Mapping>) {

    /** A live slot holds object_size bytes, its slack among them, and its mapping points back at it. */
    predicate Bound(i: nat)
      requires i < |headers| == |slots|
    {
      headers[i].mapping.Some? ==>
        var m := headers[i].mapping.value;
        && m < |table| && !table[m].free && table[m].ptr == Address(id, i)
        && slots[i].Object? && |slots[i].data| == size && headers[i].slack <= size
    }

    predicate PinnedAt(i: nat)
      requires i < |headers| == |slots| && Bound(i) && headers[i].mapping.Some?
    {
      table[headers[i].mapping.value].pinned
    }

    ghost predicate Valid() {
      |headers| == |slots| && forall i: nat :: i < |headers| ==> Bound(i)
    }

    /** The mappings with an object in this page. */
    ghost function Live(): set<nat> {
      set i | 0 <= i < |headers| && headers[i].mapping.Some? :: headers[i].mapping.value
    }

    lemma LiveSlot(m: nat)
      requires Valid() && m in Live()
      ensures m < |table| && table[m].ptr.page == id && table[m].ptr.slot < |headers|
      ensures headers[table[m].ptr.slot].mapping == Some(m) && slots[table[m].ptr.slot].Object?
    {
      var i :| 0 <= i < |headers| && headers[i].mapping.Some? && headers[i].mapping.value == m;
      assert Bound(i);
    }

    /** What the program sees through a live mapping. */
    ghost function Read(m: nat): Content
      requires Valid() && m in Live()
    {
      LiveSlot(m);
      Content(slots[table[m].ptr.slot].data, headers[table[m].ptr.slot].slack)
    }

    /** Moving the object in slot `from` to the free slot `to`, poisoning where it was. */
    ghost function Moved(from: nat, to: nat): Page
      requires Valid() && from < |headers| && to < |headers| && headers[from].mapping.Some?
    {
      var m := headers[from].mapping.value;
      assert Bound(from);
      this.(headers := headers[to := headers[from]][from := FREE],
            slots := slots[to := slots[from]][from := Object(seq(size, _ => POISON))],
            table := table[m := table[m].SetPointer(Address(id, to))])
    }

    /** Exchanging the objects in two slots. */
    ghost function Swapped(left: nat, right: nat): Page
      requires Valid() && left < |headers| && right < |headers| && headers[left].mapping.Some?
               && headers[right].mapping.Some?
    {
      var l, r := headers[left].mapping.value, headers[right].mapping.value;
      assert Bound(left) && Bound(right);
      this.(headers := headers[left := headers[right]][right := headers[left]],
            slots := slots[left := slots[right]][right := slots[left]],
            table := table[r := table[r].SetPointer(Address(id, left))][l := table[l].SetPointer(Address(id, right))])
    }
  }

  /** No object is lost, no byte of one changes, pin bits stay, and pinned objects stay in place. */
  ghost predicate SameObjects(p: Page, q: Page)
    requires p.Valid() && q.Valid()
  {
    && |p.table| == |q.table|
    && q.Live() == p.Live()
    && (forall m :: m in p.Live() ==> q.Read(m) == p.Read(m) && SameMapping(p, q, m))
    && (forall m :: 0 <= m < |p.table| && m !in p.Live() ==> q.table[m] == p.table[m])
  }

  predicate SameMapping(p: Page, q: Page, m: nat) {
    m < |p.table| && m < |q.table| && q.table[m].pinned == p.table[m].pinned && !q.table[m].free &&
    (p.table[m].pinned ==> q.table[m] == p.table[m])
  }

  lemma SameObjectsSelf(p: Page)
    requires p.Valid()
    ensures SameObjects(p, p)
  {
    forall m | m in p.Live() ensures SameMapping(p, p, m) {
      p.LiveSlot(m);
      assert p.Bound(p.table[m].ptr.slot);
    }
  }

  lemma SameObjectsTrans(p: Page, q: Page, r: Page)
    requires p.Valid() && q.Valid() && r.Valid() && SameObjects(p, q) && SameObjects(q, r)
    ensures SameObjects(p, r)
  {
    forall m | m in p.Live()
      ensures r.Read(m) == p.Read(m) && SameMapping(p, r, m)
    {
      assert q.Read(m) == p.Read(m) && SameMapping(p, q, m) && SameMapping(q, r, m);
    }
  }

  /** A move and a swap only permute slots: slot i of q holds what slot From(i) of p held. */
  ghost predicate Rearranged(p: Page, q: Page, from: nat -> nat)
    requires p.Valid() && q.Valid()
  {
    && |q.headers| == |p.headers| && |q.table| == |p.table| && q.id == p.id
    && (forall i: nat :: i < |q.headers| && q.headers[i].mapping.Some? ==>
         from(i) < |p.headers| && q.headers[i] == p.headers[from(i)] && q.slots[i] == p.slots[from(i)])
    && (forall m: nat :: m < |p.table| ==>
         q.table[m] == p.table[m] || (m in p.Live() && !p.table[m].pinned && !q.table[m].pinned && !q.table[m].free))
    && p.Live() <= q.Live()
  }

  lemma RearrangedSame(p: Page, q: Page, from: nat -> nat)
    requires p.Valid() && q.Valid() && Rearranged(p, q, from)
    ensures SameObjects(p, q)
  {
    forall m | m in q.Live()
      ensures m in p.Live()
    {
      q.LiveSlot(m);
      var i := q.table[m].ptr.slot;
      assert p.headers[from(i)].mapping == Some(m);
    }
    forall m | m in p.Live()
      ensures q.Read(m) == p.Read(m) && SameMapping(p, q, m)
    {
      p.LiveSlot(m);
      q.LiveSlot(m);
      var i := q.table[m].ptr.slot;
      assert p.Bound(from(i)) && q.Bound(i);
    }
  }

  lemma MoveSafe(p: Page, from: nat, to: nat)
    requires p.Valid() && from < |p.headers| && to < |p.headers|
    requires p.headers[to].mapping.None? && p.headers[from].mapping.Some? && p.Bound(from) && !p.PinnedAt(from)
    ensures p.Moved(from, to).Valid() && SameObjects(p, p.Moved(from, to))
  {
    var q, m := p.Moved(from, to), p.headers[from].mapping.value;
    forall i: nat | i < |q.headers| ensures q.Bound(i) {
      assert p.Bound(i) && p.Bound(from);
    }
    forall x | x in p.Live() ensures x in q.Live() {
      p.LiveSlot(x);
      assert q.headers[if x == m then to else p.table[x].ptr.slot].mapping == Some(x);
    }
    assert p.headers[from].mapping == Some(m);
    RearrangedSame(p, q, i => if i == to then from else i);
  }

  lemma SwapSafe(p: Page, left: nat, right: nat)
    requires p.Valid() && left < right < |p.headers| && p.headers[left].mapping.Some? && p.headers[right].mapping.Some?
    requires p.Bound(left) && p.Bound(right) && !p.PinnedAt(left) && !p.PinnedAt(right)
    ensures p.Swapped(left, right).Valid() && SameObjects(p, p.Swapped(left, right))
  {
    var q := p.Swapped(left, right);
    var l, r := p.headers[left].mapping.value, p.headers[right].mapping.value;
    forall i: nat | i < |q.headers| ensures q.Bound(i) {
      assert p.Bound(i);
    }
    forall x | x in p.Live() ensures x in q.Live() {
      p.LiveSlot(x);
      assert q.headers[if x == l then right else if x == r then left else p.table[x].ptr.slot].mapping == Some(x);
    }
    assert p.headers[left].mapping == Some(l) && p.headers[right].mapping == Some(r);
    RearrangedSame(p, q, i => if i == left then right else if i == right then left else i);
  }

  // ------------------------------------------------------------------ the free lists

  function First(list: seq<nat>): Option<nat> {
    if list == [] then None else Some(list[0])
  }

  /** Following the links from `head` through the slots gives `list`, each slot once. */
  ghost predicate Linked(slots: seq<Slot>, head: Option<nat>, list: seq<nat>) {
    && head == First(list)
    && Distinct(list)
    && forall k {:trigger list[k]} :: 0 <= k < |list| ==>
         list[k] < |slots| && slots[list[k]] == Block(First(list[k + 1..]))
  }

  lemma PushLinked(slots: seq<Slot>, head: Option<nat>, list: seq<nat>, i: nat)
    requires Linked(slots, head, list) && i < |slots| && i !in list
    ensures Linked(slots[i := Block(head)], Some(i), [i] + list)
  {
    var l := [i] + list;
    assert l[1..] == list;
    forall k | 0 <= k < |l|
      ensures l[k] < |slots| && slots[i := Block(head)][l[k]] == Block(First(l[k + 1..]))
    {
      if k > 0 {
        assert l[k] == list[k - 1];
        assert l[k + 1..] == list[k..];
      }
    }
  }

  lemma PopLinked(slots: seq<Slot>, head: Option<nat>, list: seq<nat>)
    requires Linked(slots, head, list) && head.Some?
    ensures list != [] && head.value == list[0] < |slots| && slots[list[0]] == Block(First(list[1..]))
    ensures Linked(slots, First(list[1..]), list[1..]) && list[0] !in list[1..]
  {
    var l := list[1..];
    assert list[0] == list[0];
    forall k | 0 <= k < |l|
      ensures l[k] < |slots| && slots[l[k]] == Block(First(l[k + 1..]))
    {
      assert l[k] == list[k + 1];
      assert l[k + 1..] == list[k + 2..];
    }
  }

  /** Slots that are not on the list may change freely. */
  lemma LinkedFrame(slots: seq<Slot>, slots': seq<Slot>, head: Option<nat>, list: seq<nat>)
    requires Linked(slots, head, list) && |slots'| == |slots|
    requires forall i :: 0 <= i < |slots| && i in list ==> slots'[i] == slots[i]
    ensures Linked(slots', head, list)
  {}

  /** The allocator of a page: two linked lists of free slots below the bump index, nothing at or
      above it. */
  ghost predicate Allocator(p: Page, bump: nat, localFree: Option<nat>, local: seq<nat>, remoteFree: Option<nat>,
                            remote: seq<nat>)
    requires |p.headers| == |p.slots|
  {
    && Linked(p.slots, localFree, local) && Linked(p.slots, remoteFree, remote)
    && bump <= |p.headers|
    && (forall i :: i in local ==> i !in remote)
    && (forall i: nat :: i in local || i in remote ==> i < bump && p.headers[i].mapping.None?)
    && (forall i: nat :: bump <= i < |p.headers| ==> p.headers[i].mapping.None?)
  }

  lemma PopAllocator(p: Page, bump: nat, localFree: Option<nat>, local: seq<nat>, remoteFree: Option<nat>,
                     remote: seq<nat>)
    requires |p.headers| == |p.slots| && Allocator(p, bump, localFree, local, remoteFree, remote) && localFree.Some?
    ensures var i := localFree.value;
      && i < |p.slots| && p.slots[i].Block? && local != [] && local == [i] + local[1..]
      && Allocator(p, bump, p.slots[i].next, local[1..], remoteFree, remote)
      && i !in local[1..] && i !in remote && i < bump && p.headers[i].mapping.None?
  {
    PopLinked(p.slots, localFree, local);
    assert local[0] in local;
    assert forall i :: i in local[1..] ==> i in local;
  }

  /** The remote list becomes the local one. */
  lemma TakeRemote(p: Page, bump: nat, localFree: Option<nat>, local: seq<nat>, remoteFree: Option<nat>,
                   remote: seq<nat>)
    requires |p.headers| == |p.slots| && Allocator(p, bump, localFree, local, remoteFree, remote) && local == []
    ensures Allocator(p, bump, remoteFree, remote, None, [])
  {}

  /** Freeing slot i onto either list. */
  lemma ReleaseLocal(p: Page, bump: nat, localFree: Option<nat>, local: seq<nat>, remoteFree: Option<nat>,
                     remote: seq<nat>, i: nat)
    requires i < |p.headers| == |p.slots| && p.headers[i].mapping.Some?
             && Allocator(p, bump, localFree, local, remoteFree, remote)
    ensures Allocator(p.(headers := p.headers[i := FREE], slots := p.slots[i := Block(localFree)]), bump, Some(i),
            [i] + local, remoteFree, remote)
  {
    assert i !in local && i !in remote && i < bump;
    LinkedFrame(p.slots, p.slots[i := Block(localFree)], remoteFree, remote);
    PushLinked(p.slots, localFree, local, i);
    hide Linked;
  }

  lemma ReleaseRemote(p: Page, bump: nat, localFree: Option<nat>, local: seq<nat>, remoteFree: Option<nat>,
                      remote: seq<nat>, i: nat)
    requires i < |p.headers| == |p.slots| && p.headers[i].mapping.Some?
             && Allocator(p, bump, localFree, local, remoteFree, remote)
    ensures Allocator(p.(headers := p.headers[i := FREE], slots := p.slots[i := Block(remoteFree)]), bump, localFree,
            local, Some(i), [i] + remote)
  {
    assert i !in local && i !in remote && i < bump;
    LinkedFrame(p.slots, p.slots[i := Block(remoteFree)], localFree, local);
    PushLinked(p.slots, remoteFree, remote, i);
    hide Linked;
  }

  lemma EmptyAllocator(p: Page, bump: nat, localFree: Option<nat>, local: seq<nat>, remoteFree: Option<nat>,
                       remote: seq<nat>)
    requires |p.headers| == |p.slots| && Allocator(p, bump, localFree, local, remoteFree, remote)
    ensures localFree.None? <==> local == []
  {}

  /** The slots from lo up to hi, in order. */
  function Upward(lo: nat, hi: nat): seq<nat>
    requires lo <= hi
  {
    seq(hi - lo, k requires 0 <= k => lo + k)
  }

  lemma UpwardNone(n: nat, list: seq<nat>)
    ensures Upward(n, n) + list == list
  {}

  lemma UpwardPush(lo: nat, hi: nat, list: seq<nat>)
    requires lo < hi
    ensures [lo] + (Upward(lo + 1, hi) + list) == Upward(lo, hi) + list
  {
    UpwardLonger(lo, hi);
    hide Upward;
    assert [lo] + (Upward(lo + 1, hi) + list) == [lo] + Upward(lo + 1, hi) + list;
  }

  lemma UpwardHas(lo: nat, hi: nat)
    requires lo <= hi
    ensures forall i: nat :: i in Upward(lo, hi) <==> lo <= i < hi
  {
    forall i: nat ensures i in Upward(lo, hi) <==> lo <= i < hi {
      if lo <= i < hi { assert Upward(lo, hi)[i - lo] == i; }
    }
  }

  /** The slots from lo up to hi are on neither list. */
  ghost predicate Outside(local: seq<nat>, remote: seq<nat>, lo: nat, hi: nat) {
    forall i: nat :: i in local || i in remote ==> i < lo || hi <= i
  }

  lemma OutsideAll(local: seq<nat>, remote: seq<nat>, lo: nat, hi: nat)
    requires forall i: nat :: i in local || i in remote ==> i < lo
    ensures Outside(local, remote, lo, hi)
  {}

  lemma OutsidePush(local: seq<nat>, remote: seq<nat>, lo: nat, hi: nat)
    requires Outside(local, remote, lo, hi) && lo < hi
    ensures Outside([hi - 1] + local, remote, lo, hi - 1)
  {}

  /** Slots in use keep what they hold. */
  ghost predicate KeepsUsed(headers: seq<Header>, slots: seq<Slot>, slots': seq<Slot>) {
    |slots'| == |slots| == |headers| &&
    forall j: nat :: j < |headers| && headers[j].mapping.Some? ==> slots'[j] == slots[j]
  }

  lemma KeepsAll(headers: seq<Header>, slots: seq<Slot>)
    requires |slots| == |headers|
    ensures KeepsUsed(headers, slots, slots)
  {}

  lemma KeepsTrans(headers: seq<Header>, a: seq<Slot>, b: seq<Slot>, c: seq<Slot>)
    requires KeepsUsed(headers, a, b) && KeepsUsed(headers, b, c)
    ensures KeepsUsed(headers, a, c)
  {}

  lemma KeptUsed(headers: seq<Header>, slots: seq<Slot>, slots': seq<Slot>)
    requires KeepsUsed(headers, slots, slots')
    ensures |slots'| == |slots| == |headers|
    ensures forall j: nat :: j < |headers| && headers[j].mapping.Some? ==> slots'[j] == slots[j]
  {}

  lemma RaiseBump(p: Page, bump: nat, bump': nat, localFree: Option<nat>, local: seq<nat>, remoteFree: Option<nat>,
                  remote: seq<nat>)
    requires |p.headers| == |p.slots| && Allocator(p, bump, localFree, local, remoteFree, remote)
    requires bump <= bump' <= |p.headers|
    ensures Allocator(p, bump', localFree, local, remoteFree, remote)
  {}

  lemma UpwardLonger(lo: nat, hi: nat)
    requires lo < hi
    ensures Upward(lo, hi) == [lo] + Upward(lo + 1, hi)
  {}

  /** What an allocation does to the lists and the bump index: it takes the head of the local list; if that is
      empty, of up to 128 slots above the bump index in order; if there are none, of the remote list, which
      becomes the local one. */
  ghost predicate Taken(local: seq<nat>, remote: seq<nat>, bump: nat, capacity: nat, o: Option<nat>,
                        local': seq<nat>, remote': seq<nat>, bump': nat)
    requires bump <= capacity
  {
    if local != [] then
      o == Some(local[0]) && local' == local[1..] && remote' == remote && bump' == bump
    else if bump < capacity then
      && bump' == bump + Min(128, capacity - bump) && o == Some(bump)
      && local' == Upward(bump + 1, bump') && remote' == remote
    else
      && bump' == bump && remote' == []
      && (if remote != [] then o == Some(remote[0]) && local' == remote[1..] else o == None && local' == [])
  }

  /** The free slots that no allocation will find: below the bump index and on neither list. */
  ghost function Lost(p: Page, bump: nat, local: seq<nat>, remote: seq<nat>): set<nat> {
    set i: nat | i < |p.headers| && i < bump && p.headers[i].mapping.None? && i !in local && i !in remote
  }

  /** An allocation loses none, and when it fails no other slot is free. */
  lemma TakenLosesNone(p: Page, local: seq<nat>, remote: seq<nat>, bump: nat, o: Option<nat>,
                       local': seq<nat>, remote': seq<nat>, bump': nat)
    requires |p.headers| == |p.slots| && bump <= |p.headers|
    requires Taken(local, remote, bump, |p.headers|, o, local', remote', bump')
    requires (forall i: nat :: i in local || i in remote ==> i < bump && p.headers[i].mapping.None?)
    requires (forall i: nat :: bump <= i < |p.headers| ==> p.headers[i].mapping.None?)
    requires o.Some? ==> o.value !in local' && o.value !in remote'
    ensures o.Some? ==> Lost(p, bump', local', remote') == Lost(p, bump, local, remote) + {o.value}
    ensures o.Some? ==> o.value !in Lost(p, bump, local, remote)
    ensures o.None? ==> Lost(p, bump', local', remote') == Lost(p, bump, local, remote)
    ensures o.None? ==>
              forall i: nat :: i < |p.headers| && p.headers[i].mapping.None? ==> i in Lost(p, bump, local, remote)
  {
    if local != [] {
      assert forall i: nat :: i in local <==> i == local[0] || i in local[1..];
    } else if bump < |p.headers| {
      UpwardHas(bump + 1, bump');
    } else if remote != [] {
      assert forall i: nat :: i in remote <==> i == remote[0] || i in remote[1..];
    }
  }

  lemma AllocatorSlots(p: Page, bump: nat, localFree: Option<nat>, local: seq<nat>, remoteFree: Option<nat>,
                       remote: seq<nat>)
    requires |p.headers| == |p.slots| && Allocator(p, bump, localFree, local, remoteFree, remote)
    ensures bump <= |p.headers|
    ensures (forall i: nat :: i in local || i in remote ==> i < bump && p.headers[i].mapping.None?)
    ensures (forall i: nat :: bump <= i < |p.headers| ==> p.headers[i].mapping.None?)
  {}

  lemma SameLost(p: Page, q: Page, bump: nat, local: seq<nat>, remote: seq<nat>)
    requires q.headers == p.headers
    ensures Lost(q, bump, local, remote) == Lost(p, bump, local, remote)
  {}

  /** Using a lost slot, and giving one back to a list. */
  lemma LostUsed(p: Page, q: Page, bump: nat, local: seq<nat>, remote: seq<nat>, i: nat, h: Header)
    requires i < |p.headers| && q.headers == p.headers[i := h]
    ensures h.mapping.Some? ==> Lost(q, bump, local, remote) == Lost(p, bump, local, remote) - {i}
    ensures h.mapping.None? && p.headers[i].mapping.Some? ==>
              Lost(q, bump, [i] + local, remote) == Lost(q, bump, local, [i] + remote) == Lost(p, bump, local, remote)
  {
    assert forall j: nat :: j in [i] + local <==> j == i || j in local;
    assert forall j: nat :: j in [i] + remote <==> j == i || j in remote;
  }

  // ------------------------------------------------------------------ the page

  class SizedPage {
    const id: nat
    const objectSize: nat
    const capacity: nat
    const headers: array<Header>
    const slots: array<Slot>
    const table: array<Mapping>
    var liveObjects: int
    var bumpNext: nat
    var localFree: Option<nat>
    var remoteFree: Option<nat>
    ghost var local: seq<nat>
    ghost var remote: seq<nat>

    ghost function Now(): Page
      reads headers, slots, table
    {
      Page(id, objectSize, headers[..], slots[..], table[..])
    }

    ghost predicate Shape()
      reads this
    {
      headers.Length == slots.Length == capacity && liveObjects == 0
    }

    ghost predicate Valid()
      reads this, headers, slots, table
    {
      && Shape()
      && Now().Valid()
      && Allocator(Now(), bumpNext, localFree, local, remoteFree, remote)
    }

    /** set_size_class: every header clear, nothing on the lists, the bump index at the start. */
    constructor (id: nat, objectSize: nat, capacity: nat, table: array<Mapping>)
      ensures Valid() && fresh(headers) && fresh(slots) && this.table == table
      ensures Now().Live() == {} && bumpNext == 0 && this.capacity == capacity && this.id == id
              && this.objectSize == objectSize
      ensures forall i :: 0 <= i < capacity ==> headers[i] == FREE
    {
      this.id, this.objectSize, this.capacity, this.table := id, objectSize, capacity, table;
      headers := new Header[capacity](_ => FREE);
      slots := new Slot[capacity](_ => Block(None));
      liveObjects, bumpNext, localFree, remoteFree, local, remote := 0, 0, None, None, [], [];
    }

    /** free_local on a free slot: it becomes the head of the local list. */
    method FreeLocal(i: nat)
      requires Shape() && i < capacity && headers[i].mapping.None? && i !in local
      requires Linked(slots[..], localFree, local)
      modifies this`localFree, this`local, slots
      ensures slots[..] == old(slots[..])[i := Block(old(localFree))]
      ensures local == [i] + old(local) && Linked(slots[..], localFree, local)
    {
      PushLinked(slots[..], localFree, local, i);
      slots[i] := Block(localFree);
      localFree := Some(i);
      local := [i] + local;
    }

    /** Two fingers: free slots from the left are filled with unpinned objects from the right.
        `meet` is where the fingers meet. */
    method Compact() returns (moved: nat, ghost meet: nat)
      requires Valid()
      modifies this, headers, slots, table
      ensures Valid() && SameObjects(old(Now()), Now())
      ensures moved == |Relocated(old(Now()), Now())|
      ensures capacity > 0 ==> Compacted(Now(), bumpNext, local, meet) && remote == []
    {
      hide Page.Valid, Page.Moved, SameObjects, Compacted, Allocator, Relocated, Midway;
      moved, meet := 0, 0;
      ghost var before := Now();
      SameObjectsSelf(before);
      NothingMoved(before);
      if liveObjects == capacity {
        return;
      }
      localFree, remoteFree, local, remote := None, None, [], [];
      var last: Option<nat> := None;
      var left: nat, right: nat := 0, capacity - 1;
      StartMidway(before);
      while right > left
        invariant Shape() && left <= right < capacity
        invariant Midway(before, Now(), left, right, last, localFree, local, moved)
        invariant remote == [] && remoteFree == None
        decreases right - left, if headers[left].mapping.None? then 1 else 0
      {
        MidwayStep(before, Now(), left, right, last, localFree, local, moved);
        if headers[left].mapping.Some? {
          left := left + 1;
        } else if headers[right].mapping.None? {
          if last.Some? {
            FreeLocal(right);
          }
          right := right - 1;
        } else {
          var m := headers[right].mapping.value;
          if table[m].pinned {
            if last.None? {
              last := Some(right);
            }
            right := right - 1;
          } else {
            MidwayMove(before, Now(), left, right, last, localFree, local, moved);
            Move(right, left, m);
            moved := moved + 1;
          }
        }
      }
      MidwayMet(before, Now(), right, last, localFree, local, moved);
      if last.None? {
        last := Some(right);
      }
      bumpNext := last.value + 1;
      meet := right;
    }

    /** Swaps every unpinned object from the left with one from the right. */
    method Jumble() returns (swapped: nat)
      requires Valid()
      modifies headers, slots, table
      ensures Valid() && SameObjects(old(Now()), Now())
      ensures |Relocated(old(Now()), Now())| == 2 * swapped
      ensures swapped == Unpinned(old(Now()), 0, capacity) / 2
    {
      hide Page.Valid, Page.Swapped, SameObjects, Allocator, Relocated, Untouched, Unpinned, Movable;
      var left: nat, right: int := 0, capacity - 1;
      swapped := 0;
      SameObjectsSelf(Now());
      NothingMoved(Now());
      NothingSwapped(Now());
      while right > left
        invariant Shape() && Now().Valid() && SameObjects(old(Now()), Now())
        invariant Untouched(old(Now()), Now(), left, right) && |Relocated(old(Now()), Now())| == 2 * swapped
        invariant Allocator(Now(), bumpNext, localFree, local, remoteFree, remote)
        invariant left <= right + 1 <= capacity
        invariant 2 * swapped + Unpinned(old(Now()), left, right + 1) == Unpinned(old(Now()), 0, capacity)
        decreases right - left
      {
        LiveIndex(Now(), left);
        LiveIndex(Now(), right);
        StillMovable(old(Now()), Now(), left, right);
        UnpinnedEnds(old(Now()), left, right + 1);
        UntouchedShrinks(old(Now()), Now(), left, right);
        if headers[right].mapping.None? || table[headers[right].mapping.value].pinned {
          right := right - 1;
        } else if headers[left].mapping.None? || table[headers[left].mapping.value].pinned {
          left := left + 1;
        } else {
          SwapSafe(Now(), left, right);
          SameObjectsTrans(old(Now()), Now(), Now().Swapped(left, right));
          TwoMoreMoved(old(Now()), Now(), left, right);
          SwapAllocator(Now(), left, right, bumpNext, localFree, local, remoteFree, remote);
          Swap(left, right);
          left, right := left + 1, right - 1;
          swapped := swapped + 1;
        }
      }
      UnpinnedEnds(old(Now()), left, right + 1);
    }

    /** Exchanges two objects, their headers and where their mappings point. */
    method Swap(left: nat, right: nat)
      requires Shape() && Now().Valid() && left < right < capacity
      requires headers[left].mapping.Some? && headers[right].mapping.Some?
      modifies headers, slots, table
      ensures Now() == old(Now().Swapped(left, right))
    {
      LiveIndex(Now(), left);
      LiveIndex(Now(), right);
      var lm, rm := headers[left].mapping.value, headers[right].mapping.value;
      var buf := slots[left];
      slots[left] := slots[right];
      slots[right] := buf;
      var lss, rss := headers[left].slack, headers[right].slack;
      table[rm] := table[rm].SetPointer(Address(id, left));
      headers[right] := Header(Some(lm), lss);
      table[lm] := table[lm].SetPointer(Address(id, right));
      headers[left] := Header(Some(rm), rss);
    }

    // ---------------------------------------------------------------- allocation

    ghost predicate AllocatorOk()
      reads this, headers, slots, table
    {
      Shape() && Allocator(Now(), bumpNext, localFree, local, remoteFree, remote)
    }

    /** No slot is left for the allocator to find. */
    ghost predicate Full()
      reads this
    {
      local == [] && remote == [] && bumpNext == capacity
    }

    /** Takes the head of the local list. */
    method Pop() returns (o: Option<nat>)
      requires AllocatorOk()
      modifies this`localFree, this`local
      ensures AllocatorOk()
      ensures o.None? <==> old(local) == []
      ensures o.None? ==> local == []
      ensures o.Some? ==> old(local) == [o.value] + local && o.value !in local && o.value !in remote
      ensures o.Some? ==> o.value < bumpNext && headers[o.value].mapping.None?
    {
      hide Allocator;
      o := localFree;
      if o.Some? {
        PopAllocator(Now(), bumpNext, localFree, local, remoteFree, remote);
        localFree := slots[o.value].next;
        local := local[1..];
      } else {
        EmptyAllocator(Now(), bumpNext, localFree, local, remoteFree, remote);
      }
    }

    /** Moves up to `count` slots from above the bump index onto the local list, lowest on top. */
    method Extend(count: nat) returns (extended: nat)
      requires AllocatorOk()
      modifies this`bumpNext, this`localFree, this`local, slots
      ensures AllocatorOk()
      ensures extended == Min(count, capacity - old(bumpNext)) && bumpNext == old(bumpNext) + extended
      ensures local == Upward(old(bumpNext), bumpNext) + old(local)
      ensures forall j: nat :: j < capacity && headers[j].mapping.Some? ==> slots[j] == old(slots[j])
    {
      AllocatorSlots(Now(), bumpNext, localFree, local, remoteFree, remote);
      extended := Min(count, capacity - bumpNext);
      var start := bumpNext;
      RaiseBump(Now(), start, start + extended, localFree, local, remoteFree, remote);
      OutsideAll(local, remote, start, start + extended);
      bumpNext := start + extended;
      hide Allocator, Upward, Outside, KeepsUsed;
      PushDown(start);
      KeptUsed(headers[..], old(slots[..]), slots[..]);
    }

    /** The slots from `start` up to the bump index, highest first. */
    method PushDown(start: nat)
      requires AllocatorOk() && start <= bumpNext <= capacity && Outside(local, remote, start, bumpNext)
      requires forall i: nat :: start <= i < capacity ==> headers[i].mapping.None?
      modifies this`localFree, this`local, slots
      ensures AllocatorOk() && local == Upward(start, bumpNext) + old(local)
      ensures KeepsUsed(headers[..], old(slots[..]), slots[..])
    {
      hide Allocator, Upward, Outside, KeepsUsed;
      var o := bumpNext;
      ghost var list, was := local, slots[..];
      UpwardNone(o, local);
      KeepsAll(headers[..], was);
      while o > start
        invariant start <= o <= bumpNext && AllocatorOk() && Outside(local, remote, start, o)
        invariant local == Upward(o, bumpNext) + list
        invariant KeepsUsed(headers[..], was, slots[..])
      {
        UpwardPush(o - 1, bumpNext, list);
        OutsidePush(local, remote, start, o);
        ghost var now := slots[..];
        o := o - 1;
        PushSlot(o, start);
        KeepsTrans(headers[..], was, now, slots[..]);
      }
    }

    /** One of these slots. */
    method PushSlot(o: nat, ghost start: nat)
      requires AllocatorOk() && start <= o < bumpNext <= capacity && Outside(local, remote, start, o + 1)
      requires forall i: nat :: start <= i < capacity ==> headers[i].mapping.None?
      modifies this`localFree, this`local, slots
      ensures AllocatorOk() && local == [o] + old(local)
      ensures KeepsUsed(headers[..], old(slots[..]), slots[..])
    {
      LinkedFrame(slots[..], slots[..][o := Block(localFree)], remoteFree, remote);
      FreeLocal(o);
    }

    /** The allocator's alloc: the local list, else 128 more slots, else the remote list. */
    method AllocSlot() returns (o: Option<nat>)
      requires AllocatorOk()
      modifies this`bumpNext, this`localFree, this`local, this`remoteFree, this`remote, slots
      ensures AllocatorOk() && old(bumpNext) <= capacity
      ensures o.None? <==> old(Full())
      ensures Taken(old(local), old(remote), old(bumpNext), capacity, o, local, remote, bumpNext)
      ensures o.Some? ==>
                o.value < bumpNext && headers[o.value].mapping.None? && o.value !in local && o.value !in remote
      ensures LostNow() == old(LostNow()) + (if o.Some? then {o.value} else {})
      ensures o.Some? ==> o.value !in old(LostNow())
      ensures o.None? ==> forall i: nat :: i < capacity && headers[i].mapping.None? ==> i in LostNow()
      ensures forall j: nat :: j < capacity && headers[j].mapping.Some? ==> slots[j] == old(slots[j])
    {
      AllocatorSlots(Now(), bumpNext, localFree, local, remoteFree, remote);
      hide Allocator, Lost, Upward;
      o := Pop();
      if o.None? {
        o := AllocSlow();
      }
      TakenLosesNone(old(Now()), old(local), old(remote), old(bumpNext), o, local, remote, bumpNext);
      SameLost(old(Now()), Now(), bumpNext, local, remote);
    }

    /** alloc_slow. */
    method AllocSlow() returns (o: Option<nat>)
      requires AllocatorOk() && local == [] && bumpNext <= capacity
      modifies this`bumpNext, this`localFree, this`local, this`remoteFree, this`remote, slots
      ensures AllocatorOk()
      ensures Taken([], old(remote), old(bumpNext), capacity, o, local, remote, bumpNext)
      ensures o.Some? ==>
                o.value < bumpNext && headers[o.value].mapping.None? && o.value !in local && o.value !in remote
      ensures forall j: nat :: j < capacity && headers[j].mapping.Some? ==> slots[j] == old(slots[j])
    {
      hide Allocator, Upward;
      var extended := Extend(128);
      if extended == 0 {
        UpwardNone(bumpNext, []);
        TakeRemote(Now(), bumpNext, localFree, local, remoteFree, remote);
        localFree, remoteFree, local, remote := remoteFree, None, remote, [];
      } else {
        UpwardPush(old(bumpNext), bumpNext, []);
        assert local == [old(bumpNext)] + Upward(old(bumpNext) + 1, bumpNext);
      }
      ghost var list := local;
      o := Pop();
      assert o.Some? ==> list[1..] == local && list[0] == o.value;
    }

    /** The free slots that are lost. */
    ghost function LostNow(): set<nat>
      reads this, headers, slots, table
    {
      Lost(Now(), bumpNext, local, remote)
    }

    /** Gives a slot to the object of mapping m; its memory holds whatever was there. */
    method Alloc(m: nat, size: nat) returns (o: Option<nat>)
      requires AllocatorOk() && size <= objectSize
      modifies this`bumpNext, this`localFree, this`local, this`remoteFree, this`remote, slots, headers
      ensures AllocatorOk() && old(bumpNext) <= capacity
      ensures o.None? <==> old(Full())
      ensures Taken(old(local), old(remote), old(bumpNext), capacity, o, local, remote, bumpNext)
      ensures LostNow() == old(LostNow())
      ensures o.None? ==> forall i: nat :: i < capacity && headers[i].mapping.None? ==> i in LostNow()
      ensures o.None? ==> headers[..] == old(headers[..])
      ensures o.Some? ==> o.value < capacity && old(headers[o.value].mapping).None?
      ensures o.Some? ==> headers[..] == old(headers[..])[o.value := Header(Some(m), objectSize - size)]
      ensures o.Some? ==> slots[o.value].Object? && |slots[o.value].data| == objectSize
      ensures forall j: nat :: j < capacity && old(headers[j].mapping).Some? ==> slots[j] == old(slots[j])
    {
      hide Lost, Taken;
      o := AllocSlot();
      if o.Some? {
        ghost var before := Now();
        ghost var some: seq<Byte> := seq(objectSize, _ => POISON);
        assert |some| == objectSize;
        var garbage: seq<Byte> :| |garbage| == objectSize;
        UseSlot(Now(), o.value, m, objectSize - size, garbage, bumpNext, localFree, local, remoteFree, remote);
        slots[o.value] := Object(garbage);
        headers[o.value] := Header(Some(m), objectSize - size);
        LostUsed(before, Now(), bumpNext, local, remote, o.value, Header(Some(m), objectSize - size));
      }
    }

    /** Frees the slot of an object: release_local and release_remote differ in the list they use. */
    method Release(i: nat, remotely: bool)
      requires AllocatorOk() && i < capacity && headers[i].mapping.Some?
      modifies this`localFree, this`local, this`remoteFree, this`remote, slots, headers
      ensures AllocatorOk()
      ensures headers[..] == old(headers[..])[i := FREE]
      ensures slots[..] == old(slots[..])[i := slots[i]]
      ensures (if remotely then remote else local) == [i] + old(if remotely then remote else local)
      ensures (if remotely then local else remote) == old(if remotely then local else remote)
      ensures LostNow() == old(LostNow())
    {
      hide Allocator, Linked, Lost;
      ghost var before := Now();
      ReleaseLocal(Now(), bumpNext, localFree, local, remoteFree, remote, i);
      ReleaseRemote(Now(), bumpNext, localFree, local, remoteFree, remote, i);
      headers[i] := FREE;
      if remotely {
        slots[i] := Block(remoteFree);
        remoteFree, remote := Some(i), [i] + remote;
      } else {
        slots[i] := Block(localFree);
        localFree, local := Some(i), [i] + local;
      }
      LostUsed(before, Now(), bumpNext, old(local), old(remote), i, FREE);
    }

    /** memmove and memset of one object, and the header and mapping updates that go with it. */
    method Move(from: nat, to: nat, m: nat)
      requires Shape() && Now().Valid() && from < capacity && to < capacity && from != to
      requires headers[from].mapping == Some(m) && m < table.Length
      modifies headers, slots, table
      ensures Now() == old(Now().Moved(from, to))
    {
      slots[to] := slots[from];
      slots[from] := Object(seq(objectSize, _ => POISON));
      table[m] := table[m].SetPointer(Address(id, to));
      headers[to] := headers[from];
      headers[from] := FREE;
    }
  }

  lemma LiveIndex(p: Page, i: nat)
    requires p.Valid() && i < |p.headers|
    ensures |p.headers| == |p.slots| && p.Bound(i)
    ensures p.headers[i].mapping.Some? ==> p.headers[i].mapping.value < |p.table|
  {
    assert p.Bound(i);
  }

  lemma SwapAllocator(p: Page, left: nat, right: nat, bump: nat, localFree: Option<nat>, local: seq<nat>,
                      remoteFree: Option<nat>, remote: seq<nat>)
    requires p.Valid() && left < right < |p.headers| && p.headers[left].mapping.Some? && p.headers[right].mapping.Some?
    requires Allocator(p, bump, localFree, local, remoteFree, remote)
    ensures Allocator(p.Swapped(left, right), bump, localFree, local, remoteFree, remote)
  {
    var q := p.Swapped(left, right);
    assert forall i: nat :: i < |p.headers| ==> (q.headers[i].mapping.None? <==> p.headers[i].mapping.None?);
    LinkedFrame(p.slots, q.slots, localFree, local);
    LinkedFrame(p.slots, q.slots, remoteFree, remote);
  }

  lemma UseSlot(p: Page, i: nat, m: nat, slack: nat, data: seq<Byte>, bump: nat, localFree: Option<nat>,
                local: seq<nat>, remoteFree: Option<nat>, remote: seq<nat>)
    requires |p.headers| == |p.slots| && i < bump && i !in local && i !in remote
    requires Allocator(p, bump, localFree, local, remoteFree, remote)
    ensures Allocator(p.(headers := p.headers[i := Header(Some(m), slack)], slots := p.slots[i := Object(data)]), bump,
            localFree, local, remoteFree, remote)
  {
    LinkedFrame(p.slots, p.slots[i := Object(data)], localFree, local);
    LinkedFrame(p.slots, p.slots[i := Object(data)], remoteFree, remote);
  }

  /** The invariant of the two-finger loop: everything left of `left` is allocated; right of `right`
      there are only free slots and pinned objects, the last of them in slot `last`, and the free
      slots before it are on the local list. */
  ghost predicate Fingers(p: Page, left: nat, right: nat, last: Option<nat>, localFree: Option<nat>, local: seq<nat>)
    requires p.Valid()
  {
    && left <= right < |p.headers|
    && Linked(p.slots, localFree, local) && Ascending(local)
    && (forall i: nat :: i < left ==> p.headers[i].mapping.Some?)
    && (last.None? ==> local == [] && forall i: nat :: right < i < |p.headers| ==> p.headers[i].mapping.None?)
    && (last.Some? ==> right < last.value < |p.headers| && PinnedObject(p, last.value))
    && (forall i: nat {:trigger RightSide(p, last, local, i)} {:trigger p.headers[i]} :: right < i < |p.headers| ==>
         RightSide(p, last, local, i))
    && (forall i: nat :: i in local ==>
         right < i < |p.headers| && p.headers[i].mapping.None? && last.Some? && i < last.value)
  }

  ghost predicate Ascending(list: seq<nat>) {
    forall a: nat, b: nat :: a < b < |list| ==> list[a] < list[b]
  }

  ghost predicate PinnedObject(p: Page, i: nat)
    requires p.Valid() && i < |p.headers|
  {
    p.Bound(i) && p.headers[i].mapping.Some? && p.PinnedAt(i)
  }

  ghost predicate RightSide(p: Page, last: Option<nat>, local: seq<nat>, i: nat)
    requires p.Valid() && i < |p.headers|
  {
    if last.None? || last.value < i then p.headers[i].mapping.None?
    else if p.headers[i].mapping.None? then i in local
    else PinnedObject(p, i)
  }

  /** The heap after compaction: allocated slots up to where the fingers met, only pinned objects
      beyond, and every free slot on the list, in order, or at or above the bump index, except the meeting
      slot when it is free. */
  ghost predicate Compacted(p: Page, bump: nat, local: seq<nat>, meet: nat) {
    && p.Valid() && meet < |p.headers|
    && (forall i: nat :: i < meet ==> p.headers[i].mapping.Some?)
    && (forall i: nat :: meet < i < |p.headers| ==> p.headers[i].mapping.None? || PinnedObject(p, i))
    && (forall i: nat :: i < |p.headers| && p.headers[i].mapping.None? ==> (i !in local && i < bump <==> i == meet))
    && Ascending(local)
  }

  /** The objects that are no longer where they were. */
  ghost function Relocated(p: Page, q: Page): set<nat>
    requires |q.table| == |p.table| && p.Valid()
  {
    set m | m in p.Live() && m < |p.table| && q.table[m].ptr != p.table[m].ptr
  }

  /** Between the fingers nothing has been put. */
  ghost predicate Between(p: Page, q: Page, left: nat, right: nat) {
    && |q.headers| == |p.headers| && |q.table| == |p.table| && q.id == p.id
    && forall i: nat :: left < i <= right && i < |q.headers| && q.headers[i].mapping.Some? ==>
         q.headers[i] == p.headers[i]
  }

  lemma NothingMoved(p: Page)
    requires p.Valid()
    ensures Relocated(p, p) == {} && forall left: nat, right: nat :: Between(p, p, left, right)
  {}

  lemma BetweenShrinks(p: Page, q: Page, left: nat, right: nat)
    requires Between(p, q, left, right)
    ensures Between(p, q, left + 1, right) && (right > 0 ==> Between(p, q, left, right - 1))
  {}

  lemma SamePlaces(p: Page, q: Page, r: Page, left: nat, right: nat)
    requires p.Valid() && Between(p, q, left, right)
    requires r.headers == q.headers && r.table == q.table && r.id == q.id
    ensures Between(p, r, left, right) && Relocated(p, r) == Relocated(p, q)
    ensures right > 0 ==> Between(p, r, left, right - 1)
  {}

  lemma OneMoreMoved(p: Page, q: Page, left: nat, right: nat)
    requires p.Valid() && q.Valid() && SameObjects(p, q) && Between(p, q, left, right)
    requires left < right < |q.headers| && q.headers[right].mapping.Some?
    ensures Between(p, q.Moved(right, left), left, right)
    ensures |Relocated(p, q.Moved(right, left))| == |Relocated(p, q)| + 1
  {
    var m := q.headers[right].mapping.value;
    assert p.Bound(right) && q.Bound(right);
    assert p.headers[right].mapping == Some(m);
    assert m in p.Live();
    assert m !in Relocated(p, q);
    assert Relocated(p, q.Moved(right, left)) == Relocated(p, q) + {m};
  }

  /** From one finger of jumble to the other nothing has been swapped. */
  ghost predicate Untouched(p: Page, q: Page, left: nat, right: int) {
    && |q.headers| == |p.headers| && |q.table| == |p.table| && q.id == p.id
    && forall i: nat :: left <= i <= right && i < |q.headers| ==> q.headers[i] == p.headers[i]
  }

  lemma NothingSwapped(p: Page)
    ensures forall left: nat, right: int :: Untouched(p, p, left, right)
  {}

  lemma UntouchedShrinks(p: Page, q: Page, left: nat, right: int)
    requires Untouched(p, q, left, right)
    ensures Untouched(p, q, left + 1, right) && Untouched(p, q, left, right - 1)
  {}

  /** The object in slot i may be moved. */
  predicate Movable(p: Page, i: nat) {
    i < |p.headers| && p.headers[i].mapping.Some? && p.headers[i].mapping.value < |p.table|
    && !p.table[p.headers[i].mapping.value].pinned
  }

  /** How many of the slots from lo up to hi hold such an object. */
  function Unpinned(p: Page, lo: nat, hi: nat): nat {
    if lo >= hi then 0 else Unpinned(p, lo, hi - 1) + if Movable(p, hi - 1) then 1 else 0
  }

  lemma {:induction false} UnpinnedFirst(p: Page, lo: nat, hi: nat)
    requires lo < hi
    ensures Unpinned(p, lo, hi) == Unpinned(p, lo + 1, hi) + if Movable(p, lo) then 1 else 0
  {
    if lo + 1 < hi { UnpinnedFirst(p, lo, hi - 1); }
  }

  lemma UnpinnedEnds(p: Page, lo: nat, hi: nat)
    ensures lo >= hi ==> Unpinned(p, lo, hi) == 0
    ensures lo < hi ==> Unpinned(p, lo, hi) == Unpinned(p, lo, hi - 1) + if Movable(p, hi - 1) then 1 else 0
    ensures lo < hi ==> Unpinned(p, lo, hi) == Unpinned(p, lo + 1, hi) + if Movable(p, lo) then 1 else 0
    ensures lo + 1 < hi ==>
              Unpinned(p, lo, hi) ==
              Unpinned(p, lo + 1, hi - 1) + (if Movable(p, lo) then 1 else 0) + if Movable(p, hi - 1) then 1 else 0
    ensures lo + 1 == hi ==> Unpinned(p, lo, hi) <= 1
  {
    if lo < hi {
      UnpinnedFirst(p, lo, hi);
      if lo < hi - 1 { UnpinnedFirst(p, lo, hi - 1); }
    }
  }

  /** What jumble finds at its fingers is what was there. */
  lemma StillMovable(p: Page, q: Page, left: nat, right: nat)
    requires p.Valid() && q.Valid() && SameObjects(p, q) && Untouched(p, q, left, right) && left < right < |q.headers|
    ensures Movable(p, left) <==> q.headers[left].mapping.Some? && Movable(q, left)
    ensures Movable(p, right) <==> q.headers[right].mapping.Some? && Movable(q, right)
    ensures Movable(q, left) <==>
              q.headers[left].mapping.Some? && q.headers[left].mapping.value < |q.table|
              && !q.table[q.headers[left].mapping.value].pinned
    ensures Movable(q, right) <==>
              q.headers[right].mapping.Some? && q.headers[right].mapping.value < |q.table|
              && !q.table[q.headers[right].mapping.value].pinned
  {
    assert p.Bound(left) && p.Bound(right) && q.Bound(left) && q.Bound(right);
    if q.headers[left].mapping.Some? {
      assert p.headers[left].mapping.Some?;
      assert SameMapping(p, q, p.headers[left].mapping.value);
    }
    if q.headers[right].mapping.Some? {
      assert p.headers[right].mapping.Some?;
      assert SameMapping(p, q, p.headers[right].mapping.value);
    }
  }

  lemma TwoMoreMoved(p: Page, q: Page, left: nat, right: nat)
    requires p.Valid() && q.Valid() && Untouched(p, q, left, right) && left < right < |q.headers|
    requires q.headers[left].mapping.Some? && q.headers[right].mapping.Some?
    ensures Untouched(p, q.Swapped(left, right), left + 1, right - 1)
    ensures |Relocated(p, q.Swapped(left, right))| == |Relocated(p, q)| + 2
  {
    var l, r := q.headers[left].mapping.value, q.headers[right].mapping.value;
    assert p.Bound(left) && p.Bound(right) && q.Bound(left) && q.Bound(right);
    assert p.headers[left].mapping == Some(l) && p.headers[right].mapping == Some(r);
    assert l in p.Live() && r in p.Live() && l != r;
    assert l !in Relocated(p, q) && r !in Relocated(p, q);
    assert Relocated(p, q.Swapped(left, right)) == Relocated(p, q) + {l, r};
  }

  lemma StartFingers(p: Page)
    requires p.Valid() && |p.headers| > 0
    ensures Fingers(p, 0, |p.headers| - 1, None, None, [])
  {}

  /** A finger step that moves nothing. */
  lemma FingersStep(p: Page, left: nat, right: nat, last: Option<nat>, localFree: Option<nat>, local: seq<nat>)
    requires p.Valid() && Fingers(p, left, right, last, localFree, local) && left < right
    ensures |p.headers| == |p.slots| && right !in local && Linked(p.slots, localFree, local)
    ensures p.headers[left].mapping.Some? ==> Fingers(p, left + 1, right, last, localFree, local)
    ensures p.headers[right].mapping.None? && last.None? ==> Fingers(p, left, right - 1, last, localFree, local)
    ensures p.headers[right].mapping.Some? ==> p.Bound(right) && p.headers[right].mapping.value < |p.table|
    ensures p.headers[right].mapping.Some? && p.PinnedAt(right) ==>
              Fingers(p, left, right - 1, if last.None? then Some(right) else last, localFree, local)
  {
    assert p.Bound(right);
    var last' := if last.None? then Some(right) else last;
    forall i: nat | right - 1 < i < |p.headers|
      ensures p.headers[right].mapping.None? && last.None? ==> RightSide(p, last, local, i)
      ensures p.headers[right].mapping.Some? && p.PinnedAt(right) ==> RightSide(p, last', local, i)
    {
      if i > right { assert RightSide(p, last, local, i); }
    }
  }

  ghost function Freed(p: Page, i: nat, localFree: Option<nat>): Page
    requires i < |p.slots|
  {
    p.(slots := p.slots[i := Block(localFree)])
  }

  /** Putting a free slot on a list changes no object. */
  lemma FreedSame(p: Page, i: nat, localFree: Option<nat>)
    requires p.Valid() && i < |p.slots| && p.headers[i].mapping.None?
    ensures Freed(p, i, localFree).Valid() && SameObjects(p, Freed(p, i, localFree))
  {
    var q := Freed(p, i, localFree);
    forall k: nat | k < |q.headers| ensures q.Bound(k) {
      assert p.Bound(k);
    }
    assert q.Live() == p.Live();
    RearrangedSame(p, q, k => k);
  }

  lemma FreeAtFinger(p: Page, left: nat, right: nat, last: Option<nat>, localFree: Option<nat>, local: seq<nat>)
    requires p.Valid() && Fingers(p, left, right, last, localFree, local) && left < right
    requires last.Some? && p.headers[right].mapping.None?
    ensures var q := Freed(p, right, localFree);
            q.Valid() && SameObjects(p, q) && Fingers(q, left, right - 1, last, Some(right), [right] + local)
  {
    var q := Freed(p, right, localFree);
    FreedSame(p, right, localFree);
    PushLinked(p.slots, localFree, local, right);
    PushAscending(local, right);
    SamePins(p, q);
    hide Ascending, Linked;
    forall i: nat | i < |q.headers|
      ensures q.headers[i] == p.headers[i]
      ensures right - 1 < i ==> RightSide(q, last, [right] + local, i)
    {
      if i > right { assert RightSide(p, last, local, i); }
    }
  }

  lemma PushAscending(list: seq<nat>, i: nat)
    requires Ascending(list) && forall j :: j in list ==> i < j
    ensures Ascending([i] + list)
  {
    var l := [i] + list;
    forall a: nat, b: nat | a < b < |l| ensures l[a] < l[b] {
      assert l[b] == list[b - 1] && list[b - 1] in list;
    }
  }

  lemma SamePins(p: Page, q: Page)
    requires p.Valid() && q.Valid() && q.headers == p.headers && q.table == p.table && q.id == p.id
    ensures forall i: nat :: i < |p.headers| && PinnedObject(p, i) ==> PinnedObject(q, i)
  {
    forall i: nat | i < |p.headers| && PinnedObject(p, i) ensures PinnedObject(q, i) {
      assert q.Bound(i);
    }
  }

  lemma MovedHeaders(p: Page, from: nat, to: nat)
    requires p.Valid() && from < |p.headers| && to < |p.headers| && p.headers[from].mapping.Some? && from != to
    ensures p.Moved(from, to).headers == p.headers[to := p.headers[from]][from := FREE]
  {}

  lemma MoveAtFinger(p: Page, left: nat, right: nat, last: Option<nat>, localFree: Option<nat>, local: seq<nat>)
    requires p.Valid() && Fingers(p, left, right, last, localFree, local) && left < right
    requires p.headers[left].mapping.None? && p.headers[right].mapping.Some? && !PinnedObject(p, right)
             && p.Moved(right, left).Valid()
    ensures Fingers(p.Moved(right, left), left, right, last, localFree, local)
  {
    var q := p.Moved(right, left);
    LinkedFrame(p.slots, q.slots, localFree, local);
    assert p.Bound(right);
    forall i: nat | i < |q.headers|
      ensures i != left && i != right ==> q.headers[i] == p.headers[i]
      ensures i < left ==> q.headers[i].mapping.Some?
      ensures right < i && PinnedObject(p, i) ==> PinnedObject(q, i)
    {
      assert q.Bound(i) && p.Bound(i);
    }
    forall i: nat | right < i < |q.headers| ensures RightSide(q, last, local, i) {
      assert RightSide(p, last, local, i);
    }
  }

  lemma FingersMet(p: Page, right: nat, last: Option<nat>, localFree: Option<nat>, local: seq<nat>)
    requires p.Valid() && Fingers(p, right, right, last, localFree, local)
    ensures var bump := (if last.Some? then last.value else right) + 1;
            Allocator(p, bump, localFree, local, None, []) && Compacted(p, bump, local, right)
  {
    var bump := (if last.Some? then last.value else right) + 1;
    forall i: nat | right < i < |p.headers|
      ensures p.headers[i].mapping.None? || PinnedObject(p, i)
      ensures i >= bump ==> p.headers[i].mapping.None?
      ensures i < bump && p.headers[i].mapping.None? ==> i in local
    {
      assert RightSide(p, last, local, i);
    }
  }

  /** The whole invariant of the two-finger loop, started on page b and now at page p. */
  ghost predicate Midway(b: Page, p: Page, left: nat, right: nat, last: Option<nat>, localFree: Option<nat>,
                         local: seq<nat>, moved: nat) {
    && b.Valid() && p.Valid() && SameObjects(b, p)
    && Fingers(p, left, right, last, localFree, local)
    && Between(b, p, left, right) && moved == |Relocated(b, p)|
  }

  lemma StartMidway(p: Page)
    requires p.Valid() && |p.headers| > 0
    ensures Midway(p, p, 0, |p.headers| - 1, None, None, [], 0)
  {
    SameObjectsSelf(p);
    NothingMoved(p);
    StartFingers(p);
  }

  /** The steps that move nothing. */
  lemma MidwayStep(b: Page, p: Page, left: nat, right: nat, last: Option<nat>, localFree: Option<nat>, local: seq<nat>,
                   moved: nat)
    requires Midway(b, p, left, right, last, localFree, local, moved) && left < right
    ensures right < |p.headers| == |p.slots| && right !in local && Linked(p.slots, localFree, local)
    ensures p.headers[left].mapping.Some? ==> Midway(b, p, left + 1, right, last, localFree, local, moved)
    ensures p.headers[right].mapping.None? && last.None? ==>
              Midway(b, p, left, right - 1, last, localFree, local, moved)
    ensures p.headers[right].mapping.None? && last.Some? ==>
              Midway(b, Freed(p, right, localFree), left, right - 1, last, Some(right), [right] + local, moved)
    ensures p.headers[right].mapping.Some? ==> p.headers[right].mapping.value < |p.table|
    ensures p.headers[right].mapping.Some? && p.table[p.headers[right].mapping.value].pinned ==>
              Midway(b, p, left, right - 1, if last.None? then Some(right) else last, localFree, local, moved)
  {
    FingersStep(p, left, right, last, localFree, local);
    BetweenShrinks(b, p, left, right);
    if p.headers[right].mapping.None? && last.Some? {
      MidwayFree(b, p, left, right, last, localFree, local, moved);
    }
    hide Page.Valid, SameObjects, Fingers, Between, Relocated;
  }

  lemma MidwayFree(b: Page, p: Page, left: nat, right: nat, last: Option<nat>, localFree: Option<nat>, local: seq<nat>,
                   moved: nat)
    requires Midway(b, p, left, right, last, localFree, local, moved) && left < right && right < |p.slots|
    requires right < |p.headers| && p.headers[right].mapping.None? && last.Some?
    ensures Midway(b, Freed(p, right, localFree), left, right - 1, last, Some(right), [right] + local, moved)
  {
    FreeAtFinger(p, left, right, last, localFree, local);
    SameObjectsTrans(b, p, Freed(p, right, localFree));
    SamePlaces(b, p, Freed(p, right, localFree), left, right);
  }

  lemma MidwayMove(b: Page, p: Page, left: nat, right: nat, last: Option<nat>, localFree: Option<nat>, local: seq<nat>,
                   moved: nat)
    requires Midway(b, p, left, right, last, localFree, local, moved) && left < right < |p.headers|
    requires p.headers[left].mapping.None? && p.headers[right].mapping.Some?
    requires p.headers[right].mapping.value < |p.table| && !p.table[p.headers[right].mapping.value].pinned
    ensures p.Valid() && Midway(b, p.Moved(right, left), left, right, last, localFree, local, moved + 1)
    ensures p.Moved(right, left).headers == p.headers[left := p.headers[right]][right := FREE]
  {
    assert p.Bound(right);
    MoveSafe(p, right, left);
    SameObjectsTrans(b, p, p.Moved(right, left));
    MoveAtFinger(p, left, right, last, localFree, local);
    MovedHeaders(p, right, left);
    OneMoreMoved(b, p, left, right);
    hide Page.Valid, SameObjects, Fingers, Between, Relocated, Page.Moved;
  }

  lemma MidwayMet(b: Page, p: Page, right: nat, last: Option<nat>, localFree: Option<nat>, local: seq<nat>, moved: nat)
    requires Midway(b, p, right, right, last, localFree, local, moved)
    ensures |p.headers| == |p.slots| && b.Valid() && p.Valid() && SameObjects(b, p) && |p.table| == |b.table|
            && moved == |Relocated(b, p)|
    ensures var bump := (if last.Some? then last.value else right) + 1;
            Allocator(p, bump, localFree, local, None, []) && Compacted(p, bump, local, right)
  {
    FingersMet(p, right, last, localFree, local);
  }
}
