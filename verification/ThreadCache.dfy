/** The handle operations above the sized pages: runtime/core/ThreadCache.cpp. */
module ThreadCaches {
  import opened Common
  import opened Handles
  import opened SizedPages
  import SizeClasses
  import LocalityPages

  // ------------------------------------------------------------------ the heap as a value

  /** The slots of one page. */
  datatype Slots = Slots(size: nat, headers: seq<Header>, slots: seq<Slot>)

  /** All sized pages, and the handle table they share. */
  datatype Heap = Heap(pages: seq<Slots>, table: seq<Mapping>) {

    predicate InRange(p: nat, i: nat) {
      p < |pages| && i < |pages[p].headers| && i < |pages[p].slots|
    }

    /** What slot i of page p holds: the object of a handle, or nothing. */
    function Cell(p: nat, i: nat): Option<(nat, Content)>
      requires InRange(p, i)
    {
      if pages[p].headers[i].mapping.Some? && pages[p].slots[i].Object?
      then Some((pages[p].headers[i].mapping.value, Content(pages[p].slots[i].data, pages[p].headers[i].slack)))
      else None
    }

    ghost function AsPage(p: nat): Page
      requires p < |pages|
    {
      Page(p, pages[p].size, pages[p].headers, pages[p].slots, table)
    }

    ghost predicate Valid() {
      forall p: nat :: p < |pages| ==> AsPage(p).Valid()
    }

    /** Handle m is live and its object is c. */
    ghost predicate Holds(m: nat, c: Content) {
      exists p: nat, i: nat :: InRange(p, i) && Cell(p, i) == Some((m, c))
    }

    ghost predicate Live(m: nat) {
      exists c :: Holds(m, c)
    }

    /** A valid heap has the object of m where the table says, and there only. */
    lemma CellIsBound(p: nat, i: nat)
      requires Valid() && InRange(p, i)
      ensures pages[p].headers[i].mapping.Some? <==> Cell(p, i).Some?
      ensures Cell(p, i).Some? ==>
                var (m, c) := Cell(p, i).value;
                m < |table| && !table[m].free && table[m].ptr == Address(p, i) && c.slack <= |c.data| == pages[p].size
    {
      assert AsPage(p).Bound(i);
    }

    lemma HoldsAt(m: nat, c: Content)
      requires Valid() && Holds(m, c)
      ensures m < |table| && !table[m].free && InRange(table[m].ptr.page, table[m].ptr.slot)
      ensures Cell(table[m].ptr.page, table[m].ptr.slot) == Some((m, c)) && c.slack <= |c.data|
    {
      var p: nat, i: nat :| InRange(p, i) && Cell(p, i) == Some((m, c));
      CellIsBound(p, i);
    }
  }

  /** Same pages, same slots in each. */
  ghost predicate SameShape(h: Heap, h': Heap) {
    && |h'.pages| == |h.pages|
    && forall p: nat :: p < |h.pages| ==>
         h'.pages[p].size == h.pages[p].size && |h'.pages[p].headers| == |h.pages[p].headers|
           && |h'.pages[p].slots| == |h.pages[p].slots|
  }

  /** Every header that names a mapping is on a slot with an object of the page's size, and its slack is
      part of it. */
  ghost predicate Filled(h: Heap) {
    forall p: nat :: p < |h.pages| ==> FilledPage(h.pages[p])
  }

  ghost predicate FilledPage(s: Slots) {
    |s.headers| == |s.slots| &&
    forall i: nat :: i < |s.headers| && s.headers[i].mapping.Some? ==>
      s.slots[i].Object? && s.headers[i].slack <= |s.slots[i].data| == s.size
  }

  /** The cell of slot (q, j) once m's object is c at `place`, or nowhere. */
  ghost function NewCell(h: Heap, m: nat, place: Option<(nat, nat)>, c: Content, q: nat, j: nat): Option<(nat, Content)>
    requires h.InRange(q, j)
  {
    if place == Some((q, j)) then Some((m, c))
    else if h.Cell(q, j).Some? && h.Cell(q, j).value.0 == m then None
    else h.Cell(q, j)
  }

  /** From h to h' the object of m becomes c at `place`, and is nowhere else; nothing else changes. */
  ghost predicate Moved(h: Heap, h': Heap, m: nat, place: Option<(nat, nat)>, c: Content) {
    && SameShape(h, h') && Filled(h') && m < |h.table|
    && (forall q: nat, j: nat :: h.InRange(q, j) ==> h'.Cell(q, j) == NewCell(h, m, place, c, q, j))
    && (place.Some? ==>
          h.InRange(place.value.0, place.value.1)
            && h'.table == h.table[m := h.table[m].SetPointer(Address(place.value.0, place.value.1))])
    && (place.None? ==> |h'.table| == |h.table| && h'.table == h.table[m := h'.table[m]])
  }

  /** Then the heap stays valid, m reads c if it was placed, and no other handle's object changes. */
  lemma MovedKeeps(h: Heap, h': Heap, m: nat, place: Option<(nat, nat)>, c: Content)
    requires h.Valid() && Moved(h, h', m, place, c)
    requires place.Some? ==>
               h.Cell(place.value.0, place.value.1).None? || h.Cell(place.value.0, place.value.1).value.0 == m
    ensures h'.Valid()
    ensures forall k: nat, d :: h'.Holds(k, d) <==> if k == m then place.Some? && d == c else h.Holds(k, d)
  {
    forall p: nat | p < |h'.pages| ensures h'.AsPage(p).Valid() {
      forall i: nat | i < |h'.pages[p].headers| ensures h'.AsPage(p).Bound(i) {
        assert h.InRange(p, i) && h'.Cell(p, i) == NewCell(h, m, place, c, p, i);
        h.CellIsBound(p, i);
      }
    }
    forall k: nat, d ensures h'.Holds(k, d) <==> if k == m then place.Some? && d == c else h.Holds(k, d) {
      MovedHolds(h, h', m, place, c, k, d);
    }
  }

  lemma MovedHolds(h: Heap, h': Heap, m: nat, place: Option<(nat, nat)>, c: Content, k: nat, d: Content)
    requires h.Valid() && Moved(h, h', m, place, c)
    requires place.Some? ==>
               h.Cell(place.value.0, place.value.1).None? || h.Cell(place.value.0, place.value.1).value.0 == m
    ensures h'.Holds(k, d) <==> if k == m then place.Some? && d == c else h.Holds(k, d)
  {
    hide Heap.Valid, Heap.Cell;
    if h'.Holds(k, d) {
      var q: nat, j: nat :| h'.InRange(q, j) && h'.Cell(q, j) == Some((k, d));
      assert h.InRange(q, j) && h'.Cell(q, j) == NewCell(h, m, place, c, q, j);
    }
    if k == m && place.Some? && d == c {
      var (p, i) := place.value;
      assert h'.InRange(p, i) && h'.Cell(p, i) == NewCell(h, m, place, c, p, i);
    }
    if k != m && h.Holds(k, d) {
      var q: nat, j: nat :| h.InRange(q, j) && h.Cell(q, j) == Some((k, d));
      assert h'.InRange(q, j) && h'.Cell(q, j) == NewCell(h, m, place, c, q, j);
    }
  }

  /** Compacting or jumbling page p moves its objects about; through the handles nothing changes. */
  lemma CompactionKeeps(h: Heap, p: nat, q: Page)
    requires h.Valid() && p < |h.pages| && q.Valid() && q.id == p && SameObjects(h.AsPage(p), q)
    ensures h.(pages := h.pages[p := Slots(q.size, q.headers, q.slots)], table := q.table).Valid()
    ensures var h' := h.(pages := h.pages[p := Slots(q.size, q.headers, q.slots)], table := q.table);
            forall k: nat, d :: h'.Holds(k, d) <==> h.Holds(k, d)
  {
    var h' := h.(pages := h.pages[p := Slots(q.size, q.headers, q.slots)], table := q.table);
    forall r: nat | r < |h'.pages| ensures h'.AsPage(r).Valid() {
      if r == p {
        assert h'.AsPage(p) == q;
      } else {
        OtherPageValid(h, p, q, r);
      }
    }
    forall k: nat, d ensures h'.Holds(k, d) <==> h.Holds(k, d) {
      if h.Holds(k, d) { CompactedHolds(h, h', p, q, k, d); }
      if h'.Holds(k, d) { CompactedHeld(h, h', p, q, k, d); }
    }
  }

  lemma OtherPageValid(h: Heap, p: nat, q: Page, r: nat)
    requires h.Valid() && p < |h.pages| && r < |h.pages| && r != p && q.Valid() && SameObjects(h.AsPage(p), q)
    ensures h.AsPage(r).(table := q.table).Valid()
  {
    forall i: nat | i < |h.pages[r].headers| ensures h.AsPage(r).(table := q.table).Bound(i) {
      assert h.AsPage(r).Bound(i);
      if h.pages[r].headers[i].mapping.Some? {
        var m := h.pages[r].headers[i].mapping.value;
        if m in h.AsPage(p).Live() {
          h.AsPage(p).LiveSlot(m);
          assert false;
        }
      }
    }
  }

  lemma LiveIsHeld(h: Heap, p: nat, i: nat, k: nat, d: Content)
    requires h.Valid() && h.InRange(p, i) && h.Cell(p, i) == Some((k, d))
    ensures k in h.AsPage(p).Live() && h.AsPage(p).Read(k) == d
  {
    h.CellIsBound(p, i);
    assert h.pages[p].headers[i].mapping.value == k;
    assert h.AsPage(p).headers[i].mapping.Some?;
    h.AsPage(p).LiveSlot(k);
  }

  lemma HeldIsLive(h: Heap, p: nat, k: nat)
    requires h.Valid() && p < |h.pages| && k in h.AsPage(p).Live()
    ensures h.Holds(k, h.AsPage(p).Read(k))
  {
    h.AsPage(p).LiveSlot(k);
    var i := h.table[k].ptr.slot;
    assert h.InRange(p, i) && h.Cell(p, i) == Some((k, h.AsPage(p).Read(k)));
  }

  lemma CompactedHolds(h: Heap, h': Heap, p: nat, q: Page, k: nat, d: Content)
    requires h.Valid() && p < |h.pages| && q.Valid() && q.id == p && SameObjects(h.AsPage(p), q)
    requires h' == h.(pages := h.pages[p := Slots(q.size, q.headers, q.slots)], table := q.table) && h'.Valid()
    requires h.Holds(k, d)
    ensures h'.Holds(k, d)
  {
    var r: nat, i: nat :| h.InRange(r, i) && h.Cell(r, i) == Some((k, d));
    if r == p {
      LiveIsHeld(h, p, i, k, d);
      assert h'.AsPage(p) == q;
      HeldIsLive(h', p, k);
    } else {
      assert h'.InRange(r, i) && h'.Cell(r, i) == Some((k, d));
    }
  }

  lemma CompactedHeld(h: Heap, h': Heap, p: nat, q: Page, k: nat, d: Content)
    requires h.Valid() && p < |h.pages| && q.Valid() && q.id == p && SameObjects(h.AsPage(p), q)
    requires h' == h.(pages := h.pages[p := Slots(q.size, q.headers, q.slots)], table := q.table) && h'.Valid()
    requires h'.Holds(k, d)
    ensures h.Holds(k, d)
  {
    var r: nat, i: nat :| h'.InRange(r, i) && h'.Cell(r, i) == Some((k, d));
    if r == p {
      LiveIsHeld(h', p, i, k, d);
      assert h'.AsPage(p) == q;
      HeldIsLive(h, p, k);
    } else {
      assert h.InRange(r, i) && h.Cell(r, i) == Some((k, d));
    }
  }

  /** A page with no objects added at the end. */
  ghost function Extended(h: Heap, s: Slots): Heap {
    h.(pages := h.pages + [s])
  }

  lemma ExtendedKeeps(h: Heap, s: Slots)
    requires h.Valid() && |s.headers| == |s.slots| && forall i :: 0 <= i < |s.headers| ==> s.headers[i].mapping.None?
    ensures Extended(h, s).Valid()
    ensures forall k: nat, d :: Extended(h, s).Holds(k, d) <==> h.Holds(k, d)
  {
    var h' := Extended(h, s);
    forall p: nat | p < |h'.pages| ensures h'.AsPage(p).Valid() {
      if p < |h.pages| { assert h'.AsPage(p) == h.AsPage(p); }
    }
    forall k: nat, d ensures h'.Holds(k, d) <==> h.Holds(k, d) {
      if h.Holds(k, d) {
        var p: nat, i: nat :| h.InRange(p, i) && h.Cell(p, i) == Some((k, d));
        assert h'.InRange(p, i) && h'.Cell(p, i) == Some((k, d));
      }
      if h'.Holds(k, d) {
        var p: nat, i: nat :| h'.InRange(p, i) && h'.Cell(p, i) == Some((k, d));
        assert h.InRange(p, i) && h.Cell(p, i) == Some((k, d));
      }
    }
  }

  // ------------------------------------------------------------------ steps of an operation

  /** Slot i of page p, free before, has been given to m; free slots may hold anything. */
  ghost predicate Reserved(h: Heap, h': Heap, m: nat, p: nat, i: nat, slack: nat) {
    && h.InRange(p, i) && h'.table == h.table && |h'.pages| == |h.pages|
    && h' == h.(pages := h.pages[p := h'.pages[p]])
    && ReservedIn(h.pages[p], h'.pages[p], m, i, slack)
  }

  ghost predicate ReservedIn(s: Slots, s': Slots, m: nat, i: nat, slack: nat) {
    && i < |s.headers| == |s.slots| && s'.size == s.size && s.headers[i].mapping.None?
    && s'.headers == s.headers[i := Header(Some(m), slack)] && |s'.slots| == |s.slots|
    && s'.slots[i].Object? && slack <= |s'.slots[i].data| == s.size
    && forall j: nat :: j < |s.headers| && s.headers[j].mapping.Some? ==> s'.slots[j] == s.slots[j]
  }

  /** Bytes written to slot i of page p. */
  ghost function Wrote(h: Heap, p: nat, i: nat, data: seq<Byte>): Heap
    requires h.InRange(p, i)
  {
    h.(pages := h.pages[p := h.pages[p].(slots := h.pages[p].slots[i := Object(data)])])
  }

  /** Slot i of page p given back; its memory becomes a free-list link. */
  ghost function GivenBack(h: Heap, p: nat, i: nat, link: Slot): Heap
    requires h.InRange(p, i)
  {
    h.(pages := h.pages[p := h.pages[p].(headers := h.pages[p].headers[i := FREE],
      slots := h.pages[p].slots[i := link])])
  }

  ghost function Mapped(h: Heap, m: nat, e: Mapping): Heap
    requires m < |h.table|
  {
    h.(table := h.table[m := e])
  }

  /** Reserve, write, point the mapping there: the object of a handle that had none. */
  lemma Placed(h: Heap, h': Heap, m: nat, p: nat, i: nat, slack: nat, data: seq<Byte>)
    requires h.Valid() && m < |h.table| && h.table[m].free && Reserved(h, h', m, p, i, slack)
    requires |data| == h.pages[p].size
    ensures h'.InRange(p, i)
    ensures var h'' := Mapped(Wrote(h', p, i, data), m, h.table[m].SetPointer(Address(p, i)));
      h''.Valid() && forall k: nat, d :: h''.Holds(k, d) <==>
        if k == m then d == Content(data, slack) else h.Holds(k, d)
  {
    var h'', c := Mapped(Wrote(h', p, i, data), m, h.table[m].SetPointer(Address(p, i))), Content(data, slack);
    forall q: nat, j: nat | h.InRange(q, j) ensures h''.Cell(q, j) == NewCell(h, m, Some((p, i)), c, q, j) {
      h.CellIsBound(q, j);
    }
    PlacedFilled(h, h', m, p, i, slack, data);
    MovedKeeps(h, h'', m, Some((p, i)), c);
  }

  lemma PlacedFilled(h: Heap, h': Heap, m: nat, p: nat, i: nat, slack: nat, data: seq<Byte>)
    requires h.Valid() && Reserved(h, h', m, p, i, slack) && |data| == h.pages[p].size
    ensures h'.InRange(p, i) && SameShape(h, Wrote(h', p, i, data)) && Filled(Wrote(h', p, i, data))
  {
    var h'' := Wrote(h', p, i, data);
    forall q: nat | q < |h''.pages| ensures FilledPage(h''.pages[q]) {
      assert h.AsPage(q).Valid();
      forall j: nat | j < |h''.pages[q].headers| && h''.pages[q].headers[j].mapping.Some?
        ensures h''.pages[q].slots[j].Object?
        ensures h''.pages[q].headers[j].slack <= |h''.pages[q].slots[j].data| == h''.pages[q].size
      {
        if (q, j) != (p, i) {
          assert h.AsPage(q).Bound(j);
        }
      }
    }
  }

  /** The same for a handle that has an object, whose old slot is then given back. */
  lemma Replaced(h: Heap, h': Heap, m: nat, p: nat, i: nat, slack: nat, data: seq<Byte>, q: nat, j: nat, link: Slot)
    requires h.Valid() && m < |h.table| && Reserved(h, h', m, p, i, slack) && |data| == h.pages[p].size
    requires h.InRange(q, j) && h.Cell(q, j).Some? && h.Cell(q, j).value.0 == m
    ensures h'.InRange(p, i) && h'.InRange(q, j) && (q, j) != (p, i)
    ensures var h'' := Mapped(GivenBack(Wrote(h', p, i, data), q, j, link), m, h.table[m].SetPointer(Address(p, i)));
      h''.Valid() && forall k: nat, d :: h''.Holds(k, d) <==>
        if k == m then d == Content(data, slack) else h.Holds(k, d)
  {
    var w := Wrote(h', p, i, data);
    PlacedFilled(h, h', m, p, i, slack, data);
    h.CellIsBound(q, j);
    var h'', c := Mapped(GivenBack(w, q, j, link), m, h.table[m].SetPointer(Address(p, i))), Content(data, slack);
    forall a: nat, b: nat | h.InRange(a, b) ensures h''.Cell(a, b) == NewCell(h, m, Some((p, i)), c, a, b) {
      h.CellIsBound(a, b);
    }
    GivenBackFilled(h, w, q, j, link);
    MovedKeeps(h, h'', m, Some((p, i)), c);
  }

  lemma GivenBackFilled(h: Heap, w: Heap, q: nat, j: nat, link: Slot)
    requires SameShape(h, w) && Filled(w) && w.InRange(q, j)
    ensures SameShape(h, GivenBack(w, q, j, link)) && Filled(GivenBack(w, q, j, link))
  {
    var h' := GivenBack(w, q, j, link);
    forall a: nat | a < |h'.pages| ensures FilledPage(h'.pages[a]) {
      assert FilledPage(w.pages[a]);
    }
  }

  /** Giving back the slot of a handle and the handle itself. */
  lemma Dropped(h: Heap, m: nat, q: nat, j: nat, link: Slot, e: Mapping)
    requires h.Valid() && m < |h.table| && h.InRange(q, j) && h.Cell(q, j).Some? && h.Cell(q, j).value.0 == m
    ensures var h'' := Mapped(GivenBack(h, q, j, link), m, e);
      h''.Valid() && forall k: nat, d :: h''.Holds(k, d) <==> k != m && h.Holds(k, d)
  {
    var h'', c := Mapped(GivenBack(h, q, j, link), m, e), h.Cell(q, j).value.1;
    h.CellIsBound(q, j);
    forall a: nat, b: nat | h.InRange(a, b) ensures h''.Cell(a, b) == NewCell(h, m, None, c, a, b) {
      h.CellIsBound(a, b);
    }
    ValidIsFilled(h);
    GivenBackFilled(h, h, q, j, link);
    MovedKeeps(h, h'', m, None, c);
  }

  lemma ValidIsFilled(h: Heap)
    requires h.Valid()
    ensures Filled(h)
  {
    forall p: nat | p < |h.pages| ensures FilledPage(h.pages[p]) {
      assert h.AsPage(p).Valid();
      forall i: nat | i < |h.pages[p].headers| && h.pages[p].headers[i].mapping.Some?
        ensures h.pages[p].slots[i].Object?
        ensures h.pages[p].headers[i].slack <= |h.pages[p].slots[i].data| == h.pages[p].size
      {
        assert h.AsPage(p).Bound(i);
      }
    }
  }

  /** Free slots may hold anything. */
  lemma QuietKeeps(h: Heap, h': Heap, p: nat)
    requires h.Valid() && p < |h.pages| == |h'.pages| && h' == h.(pages := h.pages[p := h'.pages[p]])
    requires h'.pages[p].size == h.pages[p].size && h'.pages[p].headers == h.pages[p].headers
             && |h'.pages[p].slots| == |h.pages[p].slots|
    requires forall j: nat :: h.InRange(p, j) && h.pages[p].headers[j].mapping.Some? ==>
               h'.pages[p].slots[j] == h.pages[p].slots[j]
    ensures h'.Valid() && SameContents(h, h')
  {
    forall q: nat | q < |h'.pages| ensures h'.AsPage(q).Valid() {
      assert h.AsPage(q).Valid();
      forall i: nat | i < |h'.pages[q].headers| ensures h'.AsPage(q).Bound(i) {
        assert h.AsPage(q).Bound(i) && h.InRange(q, i);
      }
    }
    forall k: nat, d ensures h'.Holds(k, d) <==> h.Holds(k, d) {
      if h.Holds(k, d) {
        var q: nat, i: nat :| h.InRange(q, i) && h.Cell(q, i) == Some((k, d));
        assert h'.InRange(q, i) && h'.Cell(q, i) == Some((k, d));
      }
      if h'.Holds(k, d) {
        var q: nat, i: nat :| h'.InRange(q, i) && h'.Cell(q, i) == Some((k, d));
        assert h.InRange(q, i) && h.Cell(q, i) == Some((k, d));
      }
    }
  }

  /** Through the handles nothing has changed. */
  ghost predicate SameContents(h: Heap, h': Heap) {
    forall k: nat, d :: h'.Holds(k, d) <==> h.Holds(k, d)
  }

  /** The slack of an object of the given size. */
  function Slack(size: nat): int
    requires SizeClasses.Regular(size)
  {
    SizeClasses.LeastClass(size, 0);
    SizeClasses.ClassToSize(SizeClasses.SizeToClass(size)) - LocalityPages.Aligned(size)
  }

  lemma AlignedFits(size: nat)
    requires SizeClasses.Regular(size)
    ensures SizeClasses.SizeToClass(size) < SizeClasses.HUGE
    ensures LocalityPages.Aligned(size) <= SizeClasses.ClassToSize(SizeClasses.SizeToClass(size))
  {
    SizeClasses.LeastClass(size, 0);
    var words := SizeClasses.ClassWords(SizeClasses.SizeToClass(size));
    assert size <= words * 16;
    assert (size + 15) / 16 <= words;
  }

  const HUGE_THRESHOLD: nat := 0xFFFF

  /** What halloc and hrealloc return; a huge object comes with the bytes copied to its start. */
  datatype Result = Null | Handle(m: nat) | Huge(start: seq<Byte>)

  /** The bytes of an object without the slack of its slot: size_of many. In a valid heap the slack is
      never more than the slot. */
  function Bytes(c: Content): seq<Byte> {
    c.data[..if c.slack <= |c.data| then |c.data| - c.slack else 0]
  }

  /** Handle m reads c and every other handle what it read before. */
  ghost predicate NowReads(h: Heap, h': Heap, m: nat, c: Content) {
    forall k: nat, d :: h'.Holds(k, d) <==> if k == m then d == c else h.Holds(k, d)
  }

  /** From `before` on: the handles read in h what they read before, and from h to h' slot i of page p has
      been reserved for an object of m with the given slack. */
  ghost predicate Backed(before: Heap, h: Heap, h': Heap, m: nat, p: nat, i: nat, slack: int, aligned: nat) {
    && h.Valid() && SameContents(before, h) && h.table == before.table && slack >= 0
    && Reserved(h, h', m, p, i, slack) && h.pages[p].size == aligned + slack
  }

  lemma BackedLater(a: Heap, b: Heap, h: Heap, h': Heap, m: nat, p: nat, i: nat, slack: int, aligned: nat)
    requires SameContents(a, b) && b.table == a.table && Backed(b, h, h', m, p, i, slack, aligned)
    ensures Backed(a, h, h', m, p, i, slack, aligned)
  {
    ContentsTrans(a, b, h);
  }

  lemma BackedNow(before: Heap, h: Heap, h': Heap, m: nat, p: nat, i: nat, slack: int, aligned: nat)
    requires h.Valid() && SameContents(before, h) && h.table == before.table && slack >= 0
    requires Reserved(h, h', m, p, i, slack) && h.pages[p].size == aligned + slack
    ensures Backed(before, h, h', m, p, i, slack, aligned)
  {}

  lemma ReservedCell(h: Heap, h': Heap, m: nat, p: nat, i: nat, slack: nat)
    requires Reserved(h, h', m, p, i, slack)
    ensures h'.InRange(p, i) && h'.Cell(p, i).Some? && h'.Cell(p, i).value.0 == m
    ensures h'.Cell(p, i).value.1.slack == slack && |h'.Cell(p, i).value.1.data| == h.pages[p].size
  {}

  lemma BackedCell(before: Heap, h: Heap, h': Heap, m: nat, p: nat, i: nat, slack: int, aligned: nat)
    requires Backed(before, h, h', m, p, i, slack, aligned)
    ensures h'.InRange(p, i) && h'.Cell(p, i).Some? && h'.Cell(p, i).value.0 == m && slack >= 0
    ensures h'.Cell(p, i).value.1.slack == slack && |h'.Cell(p, i).value.1.data| == aligned + slack
    ensures h.Valid() && SameContents(before, h) && h.table == before.table == h'.table
            && Reserved(h, h', m, p, i, slack)
    ensures h.pages[p].size == aligned + slack
  {
    ReservedCell(h, h', m, p, i, slack);
  }

  lemma PlacedReads(before: Heap, h: Heap, h': Heap, m: nat, p: nat, i: nat, slack: nat, data: seq<Byte>)
    requires h.Valid() && SameContents(before, h) && m < |h.table| && h.table[m].free && Reserved(h, h', m, p, i, slack)
    requires |data| == h.pages[p].size
    ensures h'.InRange(p, i)
    ensures var h'' := Mapped(Wrote(h', p, i, data), m, h.table[m].SetPointer(Address(p, i)));
      h''.Valid() && NowReads(before, h'', m, Content(data, slack))
  {
    Placed(h, h', m, p, i, slack, data);
  }

  /** Handle m is no longer live; every other handle reads what it read before. */
  ghost predicate NoLonger(h: Heap, h': Heap, m: nat) {
    forall k: nat, d :: h'.Holds(k, d) <==> k != m && h.Holds(k, d)
  }

  /** No pinned mapping changes. */
  ghost predicate PinsStay(h: Heap, h': Heap) {
    |h'.table| == |h.table| && forall k :: 0 <= k < |h.table| && h.table[k].pinned ==> h'.table[k] == h.table[k]
  }

  /** The handles of page p whose object is no longer where it was. */
  ghost function Relocations(h: Heap, h': Heap, p: nat): set<nat>
    requires p < |h.pages|
  {
    set m | m in h.AsPage(p).Live() && m < |h.table| && m < |h'.table| && h'.table[m].ptr != h.table[m].ptr
  }

  lemma RelocationsAre(h: Heap, h': Heap, p: nat, q: Page)
    requires p < |h.pages| && h.AsPage(p).Valid() && |q.table| == |h.table| && h'.table == q.table
    ensures Relocations(h, h', p) == Relocated(h.AsPage(p), q)
  {}

  lemma CompactionReads(h: Heap, p: nat, q: Page)
    requires h.Valid() && p < |h.pages| && q.Valid() && q.id == p && SameObjects(h.AsPage(p), q)
    ensures var h' := h.(pages := h.pages[p := Slots(q.size, q.headers, q.slots)], table := q.table);
      h'.Valid() && SameContents(h, h') && PinsStay(h, h')
  {
    CompactionKeeps(h, p, q);
    forall k | 0 <= k < |h.table| && h.table[k].pinned ensures q.table[k] == h.table[k] {
      if k in h.AsPage(p).Live() {
        assert SameMapping(h.AsPage(p), q, k);
      }
    }
  }

  /** The bytes that survive a realloc: the first ones, up to the smaller of the old and the new size. */
  function Kept(bytes: seq<Byte>, newSize: nat): seq<Byte> {
    bytes[..Min(|bytes|, newSize)]
  }

  /** The new object has the new size and starts with the bytes that survive. */
  ghost predicate Resized(b: seq<Byte>, b': seq<Byte>, newSize: nat) {
    |b'| == LocalityPages.Aligned(newSize) && Kept(b, newSize) <= b'
  }

  /** The new object has the size asked for and is cleared if that was asked for. */
  ghost predicate Made(b: seq<Byte>, size: nat, zero: bool) {
    |b| == LocalityPages.Aligned(size) && (zero ==> forall k :: 0 <= k < size ==> b[k] == 0)
  }

  lemma ResizedBy(c: Content, c': Content, newSize: nat, copySize: nat)
    requires c.slack <= |c.data| && copySize == Min(|c.data| - c.slack, newSize)
    requires c'.slack <= |c'.data| == LocalityPages.Aligned(newSize) + c'.slack
    requires copySize <= |c'.data| && c'.data[..copySize] == c.data[..copySize]
    ensures Resized(Bytes(c), Bytes(c'), newSize)
  {
    assert Kept(Bytes(c), newSize) == c.data[..copySize];
  }

  /** The old object is where it was after a slot for the new one has been reserved and written. */
  lemma StillThere(before: Heap, h: Heap, h': Heap, m: nat, p: nat, i: nat, slack: nat, q: nat, j: nat, c: Content)
    requires before.Valid() && before.Holds(m, c) && SameContents(before, h) && h.Valid() && h.table == before.table
    requires m < |before.table| && before.table[m].ptr == Address(q, j) && Reserved(h, h', m, p, i, slack)
    ensures h.InRange(q, j) && h.Cell(q, j) == Some((m, c)) && h'.InRange(q, j) && (q, j) != (p, i)
    ensures h'.pages[q].headers[j].mapping == Some(m)
  {
    h.HoldsAt(m, c);
  }

  lemma ReplacedReads(before: Heap, h: Heap, h': Heap, m: nat, p: nat, i: nat, slack: nat, data: seq<Byte>, q: nat,
                      j: nat, c: Content, link: Slot)
    requires h.Valid() && SameContents(before, h) && m < |h.table| && Reserved(h, h', m, p, i, slack)
             && |data| == h.pages[p].size
    requires h.InRange(q, j) && h.Cell(q, j) == Some((m, c))
    ensures h'.InRange(p, i) && h'.InRange(q, j)
    ensures var h'' := Mapped(GivenBack(Wrote(h', p, i, data), q, j, link), m, h.table[m].SetPointer(Address(p, i)));
      h''.Valid() && NowReads(before, h'', m, Content(data, slack))
  {
    Replaced(h, h', m, p, i, slack, data, q, j, link);
  }

  lemma DroppedReads(h: Heap, m: nat, q: nat, j: nat, link: Slot, e: Mapping)
    requires h.Valid() && m < |h.table| && h.InRange(q, j) && h.Cell(q, j).Some? && h.Cell(q, j).value.0 == m
    ensures var h'' := Mapped(GivenBack(h, q, j, link), m, e); h''.Valid() && NoLonger(h, h'', m)
  {
    Dropped(h, m, q, j, link, e);
  }

  // ------------------------------------------------------------------ the pages as objects

  ghost function PageSlots(page: SizedPage): Slots
    reads page.headers, page.slots
  {
    Slots(page.objectSize, page.headers[..], page.slots[..])
  }

  ghost function AllSlots(pages: seq<SizedPage>): (all: seq<Slots>)
    reads set p | p in pages :: p.headers
    reads set p | p in pages :: p.slots
    ensures |all| == |pages| && forall k :: 0 <= k < |pages| ==> all[k] == PageSlots(pages[k])
  {
    if pages == [] then [] else AllSlots(pages[..|pages| - 1]) + [PageSlots(pages[|pages| - 1])]
  }

  /** The page's own allocator is in order; it does not look at the table. */
  ghost predicate Ok(page: SizedPage)
    reads page, page.headers, page.slots
  {
    page.Shape() &&
    Allocator(Page(page.id, page.objectSize, page.headers[..], page.slots[..], []), page.bumpNext, page.localFree,
      page.local, page.remoteFree, page.remote)
  }

  lemma OkIsAllocatorOk(page: SizedPage)
    ensures Ok(page) <==> page.AllocatorOk()
  {}

  /** The pages are numbered by their ids, share the handle table and nothing else. */
  ghost predicate PagesOk(pages: seq<SizedPage>, table: array<Mapping>)
    reads set p | p in pages
    reads set p | p in pages :: p.headers
    reads set p | p in pages :: p.slots
  {
    && (forall p: nat :: p < |pages| ==> pages[p].table == table && pages[p].id == p && Ok(pages[p]))
    && Separate(pages)
  }

  ghost predicate Separate(pages: seq<SizedPage>) {
    forall p: nat, q: nat :: p < q < |pages| ==>
      pages[p] != pages[q] && pages[p].headers != pages[q].headers && pages[p].slots != pages[q].slots
  }

  lemma AllSlotsAppend(pages: seq<SizedPage>, page: SizedPage)
    ensures AllSlots(pages + [page]) == AllSlots(pages) + [PageSlots(page)]
  {
    hide PageSlots;
    assert (pages + [page])[..|pages|] == pages;
  }

  lemma SeparateAppend(pages: seq<SizedPage>, page: SizedPage)
    requires Separate(pages) && forall k: nat :: k < |pages| ==>
               pages[k] != page && pages[k].headers != page.headers && pages[k].slots != page.slots
    ensures Separate(pages + [page])
  {}

  lemma PagesOkAppend(pages: seq<SizedPage>, page: SizedPage, table: array<Mapping>)
    requires PagesOk(pages, table) && page.table == table && page.id == |pages| && Ok(page)
    requires forall k: nat :: k < |pages| ==>
               pages[k] != page && pages[k].headers != page.headers && pages[k].slots != page.slots
    ensures PagesOk(pages + [page], table)
  {
    SeparateAppend(pages, page);
    hide Ok, Separate;
  }

  /** All pages but page p, as objects and as values. */
  ghost predicate OthersOk(pages: seq<SizedPage>, table: array<Mapping>, p: nat)
    reads set k | 0 <= k < |pages| && k != p :: pages[k]
    reads set k | 0 <= k < |pages| && k != p :: pages[k].headers
    reads set k | 0 <= k < |pages| && k != p :: pages[k].slots
  {
    && (forall k: nat :: k < |pages| ==> pages[k].table == table && pages[k].id == k)
    && (forall k: nat :: k < |pages| && k != p ==> Ok(pages[k]))
  }

  ghost function OtherSlots(pages: seq<SizedPage>, p: nat): (all: seq<Slots>)
    reads set k | 0 <= k < |pages| && k != p :: pages[k].headers
    reads set k | 0 <= k < |pages| && k != p :: pages[k].slots
    ensures |all| == |pages| && forall k: nat :: k < |pages| && k != p ==> all[k] == PageSlots(pages[k])
    decreases |pages|
  {
    if pages == [] then []
    else
      var n := |pages| - 1;
      OtherSlots(pages[..n], p) + [if n == p then Slots(0, [], []) else PageSlots(pages[n])]
  }

  lemma TakeOut(pages: seq<SizedPage>, table: array<Mapping>, p: nat)
    requires PagesOk(pages, table) && p < |pages|
    ensures OthersOk(pages, table, p) && Ok(pages[p]) && Separate(pages)
    ensures pages[p].table == table && pages[p].id == p
  {}

  lemma PutBack(pages: seq<SizedPage>, table: array<Mapping>, p: nat)
    requires OthersOk(pages, table, p) && p < |pages| && Ok(pages[p]) && Separate(pages)
    ensures PagesOk(pages, table)
  {}

  lemma SlotsSplit(pages: seq<SizedPage>, p: nat)
    requires p < |pages|
    ensures AllSlots(pages) == OtherSlots(pages, p)[p := PageSlots(pages[p])]
  {}

  class ThreadCache {
    const table: array<Mapping>
    var pages: seq<SizedPage>
    var sizeClasses: map<nat, nat>

    ghost function Now(): Heap
      reads this, table
      reads set p | p in pages :: p.headers
      reads set p | p in pages :: p.slots
    {
      Heap(AllSlots(pages), table[..])
    }

    /** Each page a class uses is the right size for it. */
    ghost predicate Shape()
      reads this
      reads set p | p in pages
      reads set p | p in pages :: p.headers
      reads set p | p in pages :: p.slots
    {
      PagesOk(pages, table) && forall cls :: cls in sizeClasses ==> ClassPage(cls)
    }

    predicate ClassPage(cls: nat)
      requires cls in sizeClasses
      reads this
    {
      cls < SizeClasses.HUGE && sizeClasses[cls] < |pages|
        && pages[sizeClasses[cls]].objectSize == SizeClasses.ClassToSize(cls)
    }

    ghost predicate Valid()
      reads this, table
      reads set p | p in pages
      reads set p | p in pages :: p.headers
      reads set p | p in pages :: p.slots
    {
      Shape() && Now().Valid()
    }

    constructor (table: array<Mapping>)
      ensures Valid() && pages == [] && this.table == table && Initial(Now())
    {
      this.table, pages, sizeClasses := table, [], map[];
    }

    /** A new page of class cls, now the cache's page of that class; `slots` is how many objects fit. */
    method NewSizedPage(cls: nat, slots: nat) returns (page: SizedPage)
      requires Shape() && cls < SizeClasses.HUGE && slots > 0
      modifies this`pages, this`sizeClasses
      ensures Shape() && pages == old(pages) + [page] && sizeClasses == old(sizeClasses)[cls := |old(pages)|]
      ensures fresh(page) && fresh(page.headers) && fresh(page.slots)
      ensures page.capacity == slots && page.bumpNext == 0 && page.headers.Length == page.slots.Length == slots
      ensures Now() == Extended(old(Now()), PageSlots(page))
      ensures forall i :: 0 <= i < slots ==> page.headers[i] == FREE
    {
      hide Allocator, Page.Valid, PagesOk, AllSlots, SizeClasses.ClassToSize;
      page := new SizedPage(|pages|, SizeClasses.ClassToSize(cls), slots, table);
      OkIsAllocatorOk(page);
      assert PagesOk(pages, table);
      PagesOkAppend(pages, page, table);
      AllSlotsAppend(pages, page);
      pages := pages + [page];
      sizeClasses := sizeClasses[cls := |pages| - 1];
    }

    /** The pages are those of `was` and new ones. */
    twostate predicate OldOrFresh(was: seq<SizedPage>)
      reads this
    {
      was <= pages && forall page :: page in pages ==>
        page in was || (fresh(page) && fresh(page.headers) && fresh(page.slots))
    }

    /** Page p alone has changed. */
    ghost predicate OnlyPage(h: Heap, p: nat)
      reads this, table
      reads set p | p in pages :: p.headers
      reads set p | p in pages :: p.slots
    {
      p < |pages| == |h.pages| && Now() == h.(pages := h.pages[p := PageSlots(pages[p])])
    }

    /** SizedPage.Alloc on page p. */
    method AllocFrom(p: nat, m: nat, size: nat) returns (o: Option<nat>)
      requires Shape() && p < |pages| && size <= pages[p].objectSize
      modifies pages[p], pages[p].headers, pages[p].slots
      ensures Shape() && OnlyPage(old(Now()), p)
      ensures pages[p].headers.Length == pages[p].slots.Length == pages[p].capacity
      ensures o.None? ==> pages[p].headers[..] == old(pages[p].headers[..])
      ensures o.None? <==> old(pages[p].Full())
      ensures o.Some? ==> o.value < pages[p].capacity && old(pages[p].headers[o.value].mapping).None?
      ensures o.Some? ==>
                pages[p].headers[..] ==
                old(pages[p].headers[..])[o.value := Header(Some(m), pages[p].objectSize - size)]
      ensures o.Some? ==> pages[p].slots[o.value].Object? && |pages[p].slots[o.value].data| == pages[p].objectSize
      ensures forall j: nat :: j < pages[p].capacity && old(pages[p].headers[j].mapping).Some? ==>
                pages[p].slots[j] == old(pages[p].slots[j])
    {
      hide Allocator, AllSlots, PagesOk, OthersOk, OtherSlots, Ok;
      TakeOut(pages, table, p);
      SlotsSplit(pages, p);
      OkIsAllocatorOk(pages[p]);
      o := pages[p].Alloc(m, size);
      OkIsAllocatorOk(pages[p]);
      PutBack(pages, table, p);
      SlotsSplit(pages, p);
    }

    /** memcpy or memset of a whole slot that is in use. */
    method WriteSlot(p: nat, i: nat, data: seq<Byte>)
      requires Shape() && p < |pages| && i < pages[p].capacity
      requires i < pages[p].headers.Length && pages[p].headers[i].mapping.Some?
      modifies pages[p].slots
      ensures Shape() && Now().InRange(p, i) && old(Now().InRange(p, i))
      ensures Now() == Wrote(old(Now()), p, i, data)
    {
      hide Allocator, AllSlots, PagesOk, OthersOk, OtherSlots;
      TakeOut(pages, table, p);
      SlotsSplit(pages, p);
      WriteInUse(pages[p], i, data);
      ghost var before := PageSlots(pages[p]);
      pages[p].slots[i] := Object(data);
      assert PageSlots(pages[p]) == before.(slots := before.slots[i := Object(data)]);
      PutBack(pages, table, p);
      SlotsSplit(pages, p);
    }

    /** SizedPage.Release on page p. */
    method ReleaseTo(p: nat, i: nat, remotely: bool) returns (ghost link: Slot)
      requires Shape() && p < |pages| && i < pages[p].headers.Length && pages[p].headers[i].mapping.Some?
      modifies pages[p], pages[p].headers, pages[p].slots
      ensures Shape() && old(Now().InRange(p, i)) && Now() == GivenBack(old(Now()), p, i, link)
    {
      hide Allocator, AllSlots, PagesOk, OthersOk, OtherSlots;
      TakeOut(pages, table, p);
      SlotsSplit(pages, p);
      OkIsAllocatorOk(pages[p]);
      ghost var before := PageSlots(pages[p]);
      pages[p].Release(i, remotely);
      OkIsAllocatorOk(pages[p]);
      link := pages[p].slots[i];
      assert PageSlots(pages[p]) == before.(headers := before.headers[i := FREE], slots := before.slots[i := link]);
      PutBack(pages, table, p);
      SlotsSplit(pages, p);
    }

    method SetMapping(m: nat, e: Mapping)
      requires Shape() && m < table.Length
      modifies table
      ensures Shape() && m < |old(Now()).table| && Now() == Mapped(old(Now()), m, e) && table[m] == e
    {
      hide PagesOk, AllSlots;
      table[m] := e;
    }

    /** new_sized_page on a heap in order. */
    method AddPage(cls: nat, slots: nat) returns (ghost h: Heap)
      requires Valid() && cls < SizeClasses.HUGE && slots > 0
      modifies this`pages, this`sizeClasses
      ensures Valid() && h == Now() && SameContents(old(Now()), h) && h.table == old(Now()).table
      ensures sizeClasses == old(sizeClasses)[cls := |old(pages)|] && |pages| == |old(pages)| + 1
              && old(pages) <= pages
      ensures var page := pages[|old(pages)|];
              fresh(page) && fresh(page.headers) && fresh(page.slots) && page.bumpNext == 0 < page.capacity
    {
      hide PagesOk, AllSlots, Heap.Valid, PageSlots;
      ghost var before := Now();
      var page := NewSizedPage(cls, slots);
      h := Now();
      assert PageSlots(page).headers == page.headers[..] && |PageSlots(page).slots| == |PageSlots(page).headers|
        by { PageSlotsAre(page); }
      ExtendedKeeps(before, PageSlots(page));
    }

    /** Allocating from page p: a slot, or nothing but free slots changed. */
    method TryPage(p: nat, m: nat, size: nat) returns (o: Option<nat>)
      requires Valid() && p < |pages| && size <= pages[p].objectSize
      modifies pages[p], pages[p].headers, pages[p].slots
      ensures Shape()
      ensures o.None? ==> Now().Valid() && SameContents(old(Now()), Now()) && Now().table == old(Now()).table
      ensures o.None? <==> old(pages[p].Full())
      ensures o.Some? ==> Reserved(old(Now()), Now(), m, p, o.value, pages[p].objectSize - size)
      ensures o.Some? ==> InUseBy(p, o.value, m)
    {
      hide PagesOk, AllSlots, Heap.Valid, SameContents;
      ghost var before := Now();
      o := AllocFrom(p, m, size);
      ghost var now := Now();
      if o.None? {
        QuietKeeps(before, now, p);
      }
    }

    /** Allocating from a new page, which has room. */
    method FromNewPage(cls: nat, m: nat, size: nat, slots: nat) returns (p: nat, i: nat, ghost h: Heap)
      requires Valid() && cls < SizeClasses.HUGE && size <= SizeClasses.ClassToSize(cls) && slots > 0
      modifies this`pages, this`sizeClasses
      ensures Shape() && Backed(old(Now()), h, Now(), m, p, i, SizeClasses.ClassToSize(cls) - size, size)
      ensures InUseBy(p, i, m) && OldOrFresh(old(pages))
      ensures PageChosen(cls, p, |old(pages)|, old(sizeClasses), true)
    {
      hide PagesOk, AllSlots, Heap.Valid, SizeClasses.ClassToSize, SameContents, ReservedIn, Backed;
      ghost var before := Now();
      h := AddPage(cls, slots);
      p := sizeClasses[cls];
      assert ClassPage(cls);
      assert h.pages[p].size == pages[p].objectSize;
      var o := TryPage(p, m, size);
      i := o.value;
      BackedNow(before, h, Now(), m, p, i, SizeClasses.ClassToSize(cls) - size, size);
    }

    /** Slot i of page p is the object of m, or about to be. */
    predicate InUseBy(p: nat, i: nat, m: nat)
      reads this
      reads set p | p in pages :: p.headers
    {
      p < |pages| && i < pages[p].capacity == pages[p].headers.Length && pages[p].headers[i].mapping == Some(m)
    }

    /** The cache's page of class cls, made if there is none. */
    method PageFor(cls: nat, slots: nat) returns (p: nat)
      requires Valid() && cls < SizeClasses.HUGE && slots > 0
      modifies this`pages, this`sizeClasses
      ensures Valid() && SameContents(old(Now()), Now()) && Now().table == old(Now()).table && OldOrFresh(old(pages))
      ensures p < |pages| && pages[p].objectSize == SizeClasses.ClassToSize(cls)
      ensures sizeClasses == old(sizeClasses)[cls := p]
      ensures cls in old(sizeClasses) ==> pages == old(pages) && p == old(sizeClasses)[cls]
      ensures cls !in old(sizeClasses) ==> p == |old(pages)| && |pages| == |old(pages)| + 1 && !pages[p].Full()
    {
      hide PagesOk, AllSlots, Heap.Valid, SizeClasses.ClassToSize, SameContents;
      ContentsSelf(Now());
      if cls !in sizeClasses {
        ghost var h := AddPage(cls, slots);
      }
      assert ClassPage(cls);
      p := sizeClasses[cls];
    }

    /** The page is the cache's own of class cls, if it has one with a slot left, and otherwise a new one,
        which is the cache's own from then on. */
    predicate PageChosen(cls: nat, p: nat, count: nat, was: map<nat, nat>, full: bool)
      reads this
    {
      var kept := cls in was && !full;
      && sizeClasses == was[cls := p]
      && p == (if kept then was[cls] else count) && |pages| == count + if kept then 0 else 1
    }

    /** The cache has a page of class cls, and no slot is left in it. */
    ghost predicate OwnFull(cls: nat)
      reads this
      reads set p | p in pages
    {
      cls in sizeClasses && sizeClasses[cls] < |pages| && pages[sizeClasses[cls]].Full()
    }

    /** Allocating from the cache's page of class cls; None when it is full. */
    method FromOwnPage(cls: nat, m: nat, size: nat, slots: nat) returns (o: Option<nat>, p: nat, ghost h: Heap)
      requires Valid() && cls < SizeClasses.HUGE && size <= SizeClasses.ClassToSize(cls) && slots > 0
      modifies this`pages, this`sizeClasses
      modifies set p | p in pages
      modifies set p | p in pages :: p.headers
      modifies set p | p in pages :: p.slots
      ensures Shape() && OldOrFresh(old(pages))
      ensures o.None? <==> old(OwnFull(cls))
      ensures o.None? ==> |pages| == |old(pages)| && sizeClasses == old(sizeClasses)
      ensures o.Some? ==> PageChosen(cls, p, |old(pages)|, old(sizeClasses), false)
      ensures o.None? ==> Valid() && SameContents(old(Now()), Now()) && Now().table == old(Now()).table
      ensures o.Some? ==> InUseBy(p, o.value, m)
      ensures o.Some? ==> Backed(old(Now()), h, Now(), m, p, o.value, SizeClasses.ClassToSize(cls) - size, size)
    {
      hide PagesOk, AllSlots, Heap.Valid, SizeClasses.ClassToSize, SameContents, Reserved, Backed;
      ghost var before := Now();
      p := PageFor(cls, slots);
      h := Now();
      assert h.pages[p].size == pages[p].objectSize;
      o := TryPage(p, m, size);
      if o.Some? {
        BackedNow(before, h, Now(), m, p, o.value, SizeClasses.ClassToSize(cls) - size, size);
      } else {
        ContentsTrans(before, h, Now());
      }
    }

    /** A slot for m in a page of class cls: the cache's own, or a new one with room for `slots` objects.
        The heap is then what it was at `h`, but for that slot. */
    method AllocateInClass(cls: nat, m: nat, size: nat, slots: nat) returns (p: nat, i: nat, ghost h: Heap)
      requires Valid() && cls < SizeClasses.HUGE && size <= SizeClasses.ClassToSize(cls) && slots > 0
      modifies this`pages, this`sizeClasses
      modifies set p | p in pages
      modifies set p | p in pages :: p.headers
      modifies set p | p in pages :: p.slots
      ensures Shape() && Backed(old(Now()), h, Now(), m, p, i, SizeClasses.ClassToSize(cls) - size, size)
      ensures InUseBy(p, i, m) && OldOrFresh(old(pages))
      ensures PageChosen(cls, p, |old(pages)|, old(sizeClasses), old(OwnFull(cls)))
    {
      hide PagesOk, AllSlots, Heap.Valid, SizeClasses.ClassToSize, SameContents, Backed, PageChosen, OwnFull;
      ghost var before := Now();
      var o;
      o, p, h := FromOwnPage(cls, m, size, slots);
      if o.Some? {
        i := o.value;
      } else {
        ghost var tried := Now();
        p, i, h := FromNewPage(cls, m, size, slots);
        BackedLater(before, tried, h, Now(), m, p, i, SizeClasses.ClassToSize(cls) - size, size);
      }
    }

    /** A slot of the class of `size`, and so with the slack of the aligned size. */
    method AllocateBackingData(m: nat, size: nat, slots: nat) returns (p: nat, i: nat, ghost h: Heap)
      requires Valid() && SizeClasses.Regular(size) && slots > 0
      modifies this`pages, this`sizeClasses
      modifies set p | p in pages
      modifies set p | p in pages :: p.headers
      modifies set p | p in pages :: p.slots
      ensures Shape() && Backed(old(Now()), h, Now(), m, p, i, Slack(size), LocalityPages.Aligned(size))
      ensures InUseBy(p, i, m) && OldOrFresh(old(pages))
      ensures PageChosen(SizeClasses.SizeToClass(size), p, |old(pages)|, old(sizeClasses),
                         old(OwnFull(SizeClasses.SizeToClass(size))))
    {
      hide PagesOk, AllSlots, Heap.Valid, SizeClasses.ClassToSize, SizeClasses.SizeToClass, LocalityPages.Aligned,
        SameContents, Backed, PageChosen, OwnFull;
      AlignedFits(size);
      p, i, h := AllocateInClass(SizeClasses.SizeToClass(size), m, LocalityPages.Aligned(size), slots);
    }

    // ---------------------------------------------------------------- the operations

    /** Header and memory of a slot in use. */
    method Look(q: nat, j: nat) returns (slack: nat, data: seq<Byte>)
      requires Shape() && Now().InRange(q, j) && Now().Cell(q, j).Some?
      ensures Now().Cell(q, j).value.1 == Content(data, slack)
      ensures q < |pages| && j < pages[q].headers.Length && pages[q].headers[j].mapping.Some?
    {
      hide PagesOk;
      slack := pages[q].headers[j].slack;
      data := pages[q].slots[j].data;
    }

    /** Clearing the new object if asked, and pointing the handle at it. */
    method FillNew(m: nat, p: nat, i: nat, size: nat, zero: bool, ghost h: Heap, ghost before: Heap, ghost slack: int,
                   ghost aligned: nat)
      returns (ghost c: Content)
      requires Shape() && Backed(before, h, Now(), m, p, i, slack, aligned) && InUseBy(p, i, m) && size <= aligned
      requires m < table.Length && table[m].free
      modifies table, pages[p].slots
      ensures Valid() && NowReads(before, Now(), m, c) && |Bytes(c)| == aligned
      ensures zero ==> forall k :: 0 <= k < size ==> Bytes(c)[k] == 0
    {
      hide PagesOk, AllSlots, Heap.Valid, SameContents, Reserved, Backed, NowReads, Wrote, Mapped;
      ghost var reserved := Now();
      BackedCell(before, h, reserved, m, p, i, slack, aligned);
      var newSlack, data := Look(p, i);
      if zero {
        data := seq(size, _ => 0) + data[size..];
      }
      WriteSlot(p, i, data);
      c := Content(data, newSlack);
      PlacedReads(before, h, reserved, m, p, i, newSlack, data);
      SetMapping(m, table[m].SetPointer(Address(p, i)));
    }

    /** m is the mapping that the handle slab gives out. */
    method Halloc(m: nat, size: nat, zero: bool, slots: nat) returns (r: Result, ghost c: Content)
      requires Valid() && m < table.Length && table[m].free && slots > 0
      modifies this`pages, this`sizeClasses, table
      modifies set p | p in pages
      modifies set p | p in pages :: p.headers
      modifies set p | p in pages :: p.slots
      ensures r == if size == 0 then Null else if size >= HUGE_THRESHOLD then Huge([]) else Handle(m)
      ensures Valid() && OldOrFresh(old(pages))
      ensures !r.Handle? ==> Now() == old(Now())
      ensures r.Handle? ==> NowReads(old(Now()), Now(), m, c) && Made(Bytes(c), size, zero)
      ensures OpDid(old(Now()), Now(), Op.Halloc(m, size, zero), r)
    {
      hide PagesOk, AllSlots, Heap.Valid, Backed, NowReads, Slack, LocalityPages.Aligned, Bytes, PageChosen, OwnFull;
      c := Content([], 0);
      if size == 0 {
        return Null, c;
      }
      if size >= HUGE_THRESHOLD {
        return Huge([]), c;
      }
      ghost var before := Now();
      var p, i; ghost var h;
      p, i, h := AllocateBackingData(m, size, slots);
      BackedCell(before, h, Now(), m, p, i, Slack(size), LocalityPages.Aligned(size));
      assert Touchable(old(pages), p);
      c := FillNew(m, p, i, size, zero, h, before, Slack(size), LocalityPages.Aligned(size));
      r := Handle(m);
    }

    /** The slot of a live handle. */
    method Find(m: nat, ghost c: Content) returns (q: nat, j: nat, slack: nat, data: seq<Byte>)
      requires Valid() && Now().Holds(m, c)
      ensures m < table.Length && Address(q, j) == table[m].ptr && c == Content(data, slack) && slack <= |data|
      ensures Now().InRange(q, j) && Now().Cell(q, j) == Some((m, c))
    {
      Now().HoldsAt(m, c);
      hide PagesOk, Heap.Valid;
      q, j := table[m].ptr.page, table[m].ptr.slot;
      slack, data := Look(q, j);
    }

    /** memcpy into the new slot, the old slot given back, the handle pointed at the new one. */
    method Switch(m: nat, p: nat, i: nat, data: seq<Byte>, q: nat, j: nat, remotely: bool, ghost h: Heap)
        returns (ghost link: Slot)
      requires Shape() && h == Now() && h.InRange(p, i) && h.InRange(q, j) && m < table.Length && p < |pages|
               && q < |pages| && (p, i) != (q, j)
      requires i < pages[p].capacity == pages[p].headers.Length && pages[p].headers[i].mapping.Some?
      requires j < pages[q].headers.Length && pages[q].headers[j].mapping.Some?
      modifies table, pages[p].slots, pages[q], pages[q].headers, pages[q].slots
      ensures Shape() && m < |h.table|
      ensures Now() == Mapped(GivenBack(Wrote(h, p, i, data), q, j, link), m, h.table[m].SetPointer(Address(p, i)))
    {
      hide PagesOk, AllSlots;
      WriteSlot(p, i, data);
      InRangeStill(q, j);
      link := ReleaseTo(q, j, remotely);
      SetMapping(m, table[m].SetPointer(Address(p, i)));
    }

    lemma InRangeStill(q: nat, j: nat)
      requires Shape() && q < |pages| && j < pages[q].headers.Length
      ensures Now().InRange(q, j)
    {}

    /** The rest of it once a slot for the new object is reserved. */
    method Refill(m: nat, p: nat, i: nat, q: nat, j: nat, oldData: seq<Byte>, copySize: nat, remotely: bool,
                  ghost h: Heap, ghost before: Heap, ghost c: Content, ghost slack: nat, ghost aligned: nat)
      returns (ghost c': Content)
      requires Shape() && m < table.Length && before.Valid() && Backed(before, h, Now(), m, p, i, slack, aligned)
      requires copySize <= |oldData| && copySize <= aligned
      requires before.Holds(m, c) && table[m].ptr == Address(q, j) && InUseBy(p, i, m) && q < |pages|
      modifies table, pages[p].slots, pages[q], pages[q].headers, pages[q].slots
      ensures Valid() && NowReads(before, Now(), m, c')
      ensures c'.slack == slack && |c'.data| == aligned + slack && c'.data[..copySize] == oldData[..copySize]
    {
      hide PagesOk, AllSlots, Heap.Valid, SameContents, Reserved, Backed, NowReads, Wrote, Mapped, GivenBack,
        Heap.Holds;
      ghost var reserved := Now();
      BackedCell(before, h, reserved, m, p, i, slack, aligned);
      var newSlack, data := Look(p, i);
      data := oldData[..copySize] + data[copySize..];
      c' := Content(data, newSlack);
      StillThere(before, h, reserved, m, p, i, newSlack, q, j, c);
      NowPages(q);
      ghost var link := Switch(m, p, i, data, q, j, remotely, reserved);
      ReplacedReads(before, h, reserved, m, p, i, newSlack, data, q, j, c, link);
    }

    method Reallocate(m: nat, newSize: nat, remotely: bool, slots: nat, ghost c: Content) returns (ghost c': Content)
      requires Valid() && Now().Holds(m, c) && slots > 0 && newSize < HUGE_THRESHOLD
      modifies this`pages, this`sizeClasses, table
      modifies set p | p in pages
      modifies set p | p in pages :: p.headers
      modifies set p | p in pages :: p.slots
      ensures Valid() && OldOrFresh(old(pages)) && NowReads(old(Now()), Now(), m, c')
      ensures Resized(Bytes(c), Bytes(c'), newSize)
    {
      hide PagesOk, AllSlots, Heap.Valid, Backed, LocalityPages.Aligned, NowReads, Resized, Heap.Holds, Heap.Cell;
      hide PageChosen, OwnFull;
      var q, j, slack, oldData := Find(m, c);
      ghost var before := Now();
      var copySize := if |oldData| - slack > newSize then newSize else |oldData| - slack;
      var p, i; ghost var h;
      p, i, h := AllocateBackingData(m, newSize, slots);
      assert Touchable(old(pages), p) && Touchable(old(pages), q);
      BackedCell(before, h, Now(), m, p, i, Slack(newSize), LocalityPages.Aligned(newSize));
      hide Slack;
      c' := Refill(m, p, i, q, j, oldData, copySize, remotely, h, before, c, Slack(newSize),
        LocalityPages.Aligned(newSize));
      ResizedBy(c, c', newSize, copySize);
    }

    /** Page k was there before or is new. */
    twostate predicate Touchable(was: seq<SizedPage>, k: nat)
      reads this
    {
      k < |pages| && (pages[k] in was || (fresh(pages[k]) && fresh(pages[k].headers) && fresh(pages[k].slots)))
    }

    lemma NowPages(q: nat)
      requires q < |pages|
      ensures Now().pages[q] == PageSlots(pages[q])
    {}

    /** The handle keeps its name and the first bytes of its object, up to the smaller of the two sizes.
        When the new size is huge the bytes move to a huge object and the handle is freed. */
    method Hrealloc(m: nat, newSize: nat, remotely: bool, slots: nat, ghost c: Content)
        returns (r: Result, ghost c': Content)
      requires Valid() && Now().Holds(m, c) && slots > 0
      modifies this`pages, this`sizeClasses, table
      modifies set p | p in pages
      modifies set p | p in pages :: p.headers
      modifies set p | p in pages :: p.slots
      ensures Valid() && OldOrFresh(old(pages))
      ensures newSize >= HUGE_THRESHOLD ==> r == Huge(Kept(Bytes(c), newSize)) && NoLonger(old(Now()), Now(), m)
      ensures newSize < HUGE_THRESHOLD ==>
                r == Handle(m) && NowReads(old(Now()), Now(), m, c') && Resized(Bytes(c), Bytes(c'), newSize)
      ensures OpDid(old(Now()), Now(), Op.Hrealloc(m, newSize), r)
    {
      hide PagesOk, AllSlots, Heap.Valid, NowReads, NoLonger, Resized, Heap.Holds;
      c' := c;
      if newSize >= HUGE_THRESHOLD {
        var q, j, slack, oldData := Find(m, c);
        var copySize := if |oldData| - slack > newSize then newSize else |oldData| - slack;
        Hfree(m, remotely, c);
        assert oldData[..copySize] == Kept(Bytes(c), newSize);
        r := Huge(oldData[..copySize]);
      } else {
        c' := Reallocate(m, newSize, remotely, slots, c);
        r := Handle(m);
      }
    }

    /** The object goes back to its page and the handle to the table. */
    method Hfree(m: nat, remotely: bool, ghost c: Content)
      requires Valid() && Now().Holds(m, c)
      modifies table
      modifies set p | p in pages
      modifies set p | p in pages :: p.headers
      modifies set p | p in pages :: p.slots
      ensures Valid() && NoLonger(old(Now()), Now(), m) && m < table.Length && table[m].free
      ensures OpDid(old(Now()), Now(), Op.Hfree(m), Null)
    {
      hide PagesOk, AllSlots, Heap.Valid, NoLonger, Mapped, GivenBack, Heap.Holds;
      var q, j, slack, data := Find(m, c);
      ghost var before := Now();
      InUse(q, j);
      ghost var link := ReleaseTo(q, j, remotely);
      DroppedReads(before, m, q, j, link, Mapping(Address(0, 0), false, true));
      SetMapping(m, Mapping(Address(0, 0), false, true));
    }

    /** Compacting page p: every handle still reads what it read, and pinned ones keep their address. */
    method CompactPage(p: nat) returns (moved: nat)
      requires Valid() && p < |pages|
      modifies table, pages[p], pages[p].headers, pages[p].slots
      ensures |Relocations(old(Now()), Now(), p)| == moved
      ensures Valid() && SameContents(old(Now()), Now()) && PinsStay(old(Now()), Now())
      ensures OpDid(old(Now()), Now(), Op.Compact, Null)
    {
      hide PagesOk, AllSlots, OthersOk, OtherSlots, Ok, Heap.Valid, SameContents, PinsStay, SameObjects, Allocator;
      hide Relocated, Relocations;
      ghost var before := Now();
      TakeOut(pages, table, p);
      SlotsSplit(pages, p);
      PageIsValid(p);
      ghost var meet;
      moved, meet := pages[p].Compact();
      OkIsAllocatorOk(pages[p]);
      PutBack(pages, table, p);
      SlotsSplit(pages, p);
      ghost var q := pages[p].Now();
      CompactionReads(before, p, q);
      assert Now() == before.(pages := before.pages[p := Slots(q.size, q.headers, q.slots)], table := q.table);
      RelocationsAre(before, Now(), p, q);
    }

    /** The same for jumbling. */
    method JumblePage(p: nat) returns (swapped: nat)
      requires Valid() && p < |pages|
      modifies table, pages[p], pages[p].headers, pages[p].slots
      ensures |Relocations(old(Now()), Now(), p)| == 2 * swapped
      ensures Valid() && SameContents(old(Now()), Now()) && PinsStay(old(Now()), Now())
      ensures OpDid(old(Now()), Now(), Op.Compact, Null)
    {
      hide PagesOk, AllSlots, OthersOk, OtherSlots, Ok, Heap.Valid, SameContents, PinsStay, SameObjects, Allocator;
      hide Relocated, Relocations;
      ghost var before := Now();
      TakeOut(pages, table, p);
      SlotsSplit(pages, p);
      PageIsValid(p);
      swapped := pages[p].Jumble();
      OkIsAllocatorOk(pages[p]);
      PutBack(pages, table, p);
      SlotsSplit(pages, p);
      ghost var q := pages[p].Now();
      CompactionReads(before, p, q);
      assert Now() == before.(pages := before.pages[p := Slots(q.size, q.headers, q.slots)], table := q.table);
      RelocationsAre(before, Now(), p, q);
    }

    lemma PageIsValid(p: nat)
      requires Valid() && p < |pages|
      ensures pages[p].Valid() && pages[p].Now() == Now().AsPage(p)
    {
      TakeOut(pages, table, p);
      OkIsAllocatorOk(pages[p]);
      hide PagesOk, OthersOk, Allocator, Page.Valid;
      assert Now().pages[p] == PageSlots(pages[p]);
      assert Now().AsPage(p).Valid();
    }

    lemma InUse(q: nat, j: nat)
      requires Shape() && Now().InRange(q, j) && Now().Cell(q, j).Some?
      ensures q < |pages| && j < pages[q].headers.Length && pages[q].headers[j].mapping.Some?
    {
      hide PagesOk;
    }
  }

  lemma WriteInUse(page: SizedPage, i: nat, data: seq<Byte>)
    requires Ok(page) && i < page.headers.Length && page.headers[i].mapping.Some?
    ensures page.Shape()
            && Allocator(Page(page.id, page.objectSize, page.headers[..], page.slots[..][i := Object(data)], []),
                      page.bumpNext, page.localFree, page.local, page.remoteFree, page.remote)
  {
    var slots, slots' := page.slots[..], page.slots[..][i := Object(data)];
    LinkedFrame(slots, slots', page.localFree, page.local);
    LinkedFrame(slots, slots', page.remoteFree, page.remote);
  }

  lemma PageSlotsAre(page: SizedPage)
    ensures PageSlots(page) == Slots(page.objectSize, page.headers[..], page.slots[..])
  {}

  lemma ContentsSelf(h: Heap)
    ensures SameContents(h, h)
  {}

  lemma ContentsTrans(a: Heap, b: Heap, c: Heap)
    requires SameContents(a, b) && SameContents(b, c)
    ensures SameContents(a, c)
  {}

  // ------------------------------------------------------------------ whole runs

  /** The operations; compacting and jumbling a page count as one. */
  datatype Op = Halloc(m: nat, size: nat, zero: bool) | Hrealloc(m: nat, newSize: nat) | Hfree(m: nat) | Compact

  /** From the valid heap h, an operation called as it may be leaves the valid heap h' and returns r. */
  ghost predicate OpDid(h: Heap, h': Heap, op: Op, r: Result) {
    h.Valid() && h'.Valid() &&
    match op
    case Halloc(m, size, zero) =>
      && m < |h.table| && h.table[m].free
      && r == (if size == 0 then Null else if size >= HUGE_THRESHOLD then Huge([]) else Handle(m))
      && (if r.Handle? then exists c :: NowReads(h, h', m, c) && Made(Bytes(c), size, zero) else h' == h)
    case Hrealloc(m, newSize) =>
      exists c :: h.Holds(m, c) && Reallocated(h, h', m, c, newSize, r)
    case Hfree(m) => h.Live(m) && NoLonger(h, h', m)
    case Compact => SameContents(h, h') && PinsStay(h, h')
  }

  ghost predicate Reallocated(h: Heap, h': Heap, m: nat, c: Content, newSize: nat, r: Result) {
    if newSize >= HUGE_THRESHOLD then r == Huge(Kept(Bytes(c), newSize)) && NoLonger(h, h', m)
    else r == Handle(m) && exists c' :: NowReads(h, h', m, c') && Resized(Bytes(c), Bytes(c'), newSize)
  }

  /** The heap as a program sees it: the bytes behind each handle. */
  type View = map<nat, seq<Byte>>

  /** What the operation means on that view. */
  ghost predicate Step(a: View, a': View, op: Op, r: Result) {
    match op
    case Halloc(m, size, zero) =>
      && m !in a
      && (if size == 0 then r == Null && a' == a
          else if size >= HUGE_THRESHOLD then r == Huge([]) && a' == a
          else r == Handle(m) && m in a' && a' == a[m := a'[m]] && Made(a'[m], size, zero))
    case Hrealloc(m, newSize) =>
      && m in a
      && (if newSize >= HUGE_THRESHOLD then r == Huge(Kept(a[m], newSize)) && a' == a - {m}
          else r == Handle(m) && m in a' && a' == a[m := a'[m]] && Resized(a[m], a'[m], newSize))
    case Hfree(m) => m in a && a' == a - {m}
    case Compact => a' == a
  }

  /** The handles read exactly the bytes the view says. */
  ghost predicate ReadsAs(h: Heap, a: View) {
    && (forall k: nat, c :: h.Holds(k, c) ==> k in a && a[k] == Bytes(c))
    && (forall k: nat :: k in a ==> h.Live(k))
  }

  /** A handle reads one thing at a time, and none that is free to be given out. */
  lemma ReadsOneThing(h: Heap, k: nat, c: Content)
    requires h.Valid() && h.Holds(k, c)
    ensures k < |h.table| && !h.table[k].free
    ensures forall d :: h.Holds(k, d) ==> d == c
  {
    h.HoldsAt(k, c);
    forall d | h.Holds(k, d) ensures d == c { h.HoldsAt(k, d); }
  }

  lemma ReadsAfterSet(h: Heap, h': Heap, a: View, m: nat, c: Content)
    requires ReadsAs(h, a) && NowReads(h, h', m, c)
    ensures ReadsAs(h', a[m := Bytes(c)])
  {
    hide Heap.Holds;
    forall k: nat | k in a[m := Bytes(c)] ensures h'.Live(k) {
      if k == m {
        assert h'.Holds(m, c);
      } else {
        var d :| h.Holds(k, d);
        assert h'.Holds(k, d);
      }
    }
  }

  lemma ReadsAfterDrop(h: Heap, h': Heap, a: View, m: nat)
    requires ReadsAs(h, a) && NoLonger(h, h', m)
    ensures ReadsAs(h', a - {m})
  {
    hide Heap.Holds;
    forall k: nat | k in a - {m} ensures h'.Live(k) {
      var d :| h.Holds(k, d);
      assert h'.Holds(k, d);
    }
  }

  lemma ReadsAfterMoving(h: Heap, h': Heap, a: View)
    requires ReadsAs(h, a) && SameContents(h, h')
    ensures ReadsAs(h', a)
  {
    hide Heap.Holds;
    forall k: nat | k in a ensures h'.Live(k) {
      var d :| h.Holds(k, d);
      assert h'.Holds(k, d);
    }
  }

  /** Each operation does to the bytes behind the handles what it means. */
  lemma OpRefines(h: Heap, h': Heap, a: View, op: Op, r: Result) returns (a': View)
    requires OpDid(h, h', op, r) && ReadsAs(h, a)
    ensures Step(a, a', op, r) && ReadsAs(h', a')
  {
    hide Heap.Holds, Heap.Valid, NowReads, NoLonger, SameContents, PinsStay, Made, Resized, Bytes, Kept;
    a' := a;
    match op
    case Halloc(m, size, zero) =>
      if m in a {
        var d :| h.Holds(m, d);
        ReadsOneThing(h, m, d);
        assert false;
      }
      if r.Handle? {
        var c :| NowReads(h, h', m, c) && Made(Bytes(c), size, zero);
        ReadsAfterSet(h, h', a, m, c);
        a' := a[m := Bytes(c)];
      }
    case Hrealloc(m, newSize) =>
      var c :| h.Holds(m, c) && Reallocated(h, h', m, c, newSize, r);
      if newSize >= HUGE_THRESHOLD {
        ReadsAfterDrop(h, h', a, m);
        a' := a - {m};
      } else {
        var c' :| NowReads(h, h', m, c') && Resized(Bytes(c), Bytes(c'), newSize);
        ReadsAfterSet(h, h', a, m, c');
        a' := a[m := Bytes(c')];
      }
    case Hfree(m) =>
      var c :| h.Holds(m, c);
      ReadsAfterDrop(h, h', a, m);
      a' := a - {m};
    case Compact =>
      ReadsAfterMoving(h, h', a);
  }

  /** The heap a cache starts with. */
  ghost predicate Initial(h: Heap) {
    h.pages == []
  }

  /** Operation n takes heap n to heap n + 1 and returns result n. */
  ghost predicate Run(heaps: seq<Heap>, ops: seq<Op>, results: seq<Result>) {
    && |heaps| == |ops| + 1 == |results| + 1
    && Initial(heaps[0])
    && forall n: nat :: n < |ops| ==> OpDid(heaps[n], heaps[n + 1], ops[n], results[n])
  }

  /** The same run on the bytes behind the handles. */
  ghost predicate ViewRun(views: seq<View>, ops: seq<Op>, results: seq<Result>) {
    && |views| == |ops| + 1 == |results| + 1
    && views[0] == map[]
    && forall n: nat :: n < |ops| ==> Step(views[n], views[n + 1], ops[n], results[n])
  }

  lemma InitialReads(h: Heap)
    requires Initial(h)
    ensures h.Valid() && ReadsAs(h, map[])
  {}

  /** Any run of the operations from the empty heap, compaction anywhere between them, is a run on the
      plain map from handles to bytes, and at every moment the handles read what the map says. */
  lemma {:induction false} RunRefines(heaps: seq<Heap>, ops: seq<Op>, results: seq<Result>) returns (views: seq<View>)
    requires Run(heaps, ops, results)
    ensures ViewRun(views, ops, results)
    ensures forall n: nat :: n < |heaps| ==> heaps[n].Valid() && ReadsAs(heaps[n], views[n])
  {
    hide OpDid, Step, ReadsAs, Heap.Valid;
    if ops == [] {
      InitialReads(heaps[0]);
      views := [map[]];
    } else {
      var n := |ops| - 1;
      var before := RunRefines(heaps[..n + 1], ops[..n], results[..n]);
      assert heaps[..n + 1][n] == heaps[n];
      assert OpDid(heaps[n], heaps[n + 1], ops[n], results[n]);
      var a := OpRefines(heaps[n], heaps[n + 1], before[n], ops[n], results[n]);
      views := before + [a];
      OpKeepsValid(heaps[n], heaps[n + 1], ops[n], results[n]);
    }
  }

  lemma OpKeepsValid(h: Heap, h': Heap, op: Op, r: Result)
    requires OpDid(h, h', op, r)
    ensures h'.Valid()
  {}
}
