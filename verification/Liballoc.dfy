/** The first-fit list allocator of runtime/core/liballoc.c. */
module Liballoc {
  import opened Common
  import opened LiballocHeap

  /** The region the system offers at `at` overlaps no major. */
  ghost predicate Offered(h: Heap, at: nat, size: nat) {
    forall i: nat :: i < |h.majors| ==> Apart(h.majors[i], NewMajor(at, size))
  }

  ghost predicate NoGapAnywhere(majors: seq<Major>, space: nat) {
    forall i: nat :: i < |majors| ==> majors[i].NoGap(space)
  }

  /** The bytes of a minor for a request: room to align. */
  function Padded(req: nat): nat { req + ALIGNMENT + ALIGN_INFO }

  /** What the hook answers when asked for pages: their address, or NULL, as it is documented to say that
      there are none. What mmap says then is MAP_FAILED, and the hook passes it on. */
  datatype Answer = Pages(at: nat) | NoMemory | MapFailed

  /** What malloc comes to: a block or NULL; or it writes a major's header through MAP_FAILED, puts a block
      past the end of a region (a new one or one of 4 GB), or has its padded size wrap around. The model
      stops at those. */
  datatype Allocated = Block(p: nat) | Null | WildWrite | Oversized | Overrun | Wrapped

  /** What becomes of a request that needs a new major and does not get a large enough one. */
  function Refusal(answer: Answer): Allocated {
    match answer
    case NoMemory => Null
    case MapFailed => WildWrite
    case Pages(_) => Oversized
  }

  /** The new major that holds a block of the given size, if the answer makes one. */
  function Region(answer: Answer, size: nat): Option<nat> {
    if answer.Pages? && size + HEADER + HEADER < WORD_32 then Some(answer.at) else None
  }

  /** The first major from i on that takes a block. */
  ghost function TakerFrom(majors: seq<Major>, i: nat, space: nat): (t: Option<nat>)
    ensures t.Some? ==> i <= t.value < |majors| && majors[t.value].Takes(space)
    ensures t.None? ==> forall j: nat :: i <= j < |majors| ==> !majors[j].Takes(space)
    decreases |majors| - i
  {
    if i >= |majors| then None
    else if majors[i].Takes(space) then Some(i)
    else TakerFrom(majors, i + 1, space)
  }

  /** The same for a search that, if it started at the best bet, goes on from the root. */
  ghost function Rest(majors: seq<Major>, i: nat, startedBet: bool, space: nat): (t: Option<nat>)
    ensures t.Some? ==> t.value < |majors| && majors[t.value].Takes(space)
    ensures t.None? && (i == 0 || startedBet) ==> forall j: nat :: j < |majors| ==> !majors[j].Takes(space)
  {
    var t := TakerFrom(majors, i, space);
    if t.None? && startedBet then TakerFrom(majors, 0, space) else t
  }

  /** The best bet, when it has more free than is needed: the search starts there. */
  ghost function StartBet(h: Heap, size: nat): (b: Option<nat>)
    ensures b.Some? ==> b.value < |h.majors|
  {
    if h.bestBet.Some? && BetListed(h) && h.majors[IndexOf(h.majors, h.bestBet.value)].Unused() > size + HEADER
    then Some(IndexOf(h.majors, h.bestBet.value))
    else None
  }

  ghost predicate BetListed(h: Heap)
    requires h.bestBet.Some?
  {
    exists i: nat :: i < |h.majors| && h.majors[i].at == h.bestBet.value
  }

  /** The major that malloc puts a block of the given size into, if any does. */
  ghost function Taker(h: Heap, size: nat): (t: Option<nat>)
    ensures t.Some? ==> t.value < |h.majors| && h.majors[t.value].Takes(size + HEADER)
    ensures t.None? ==> forall j: nat :: j < |h.majors| ==> !h.majors[j].Takes(size + HEADER)
  {
    var b := StartBet(h, size);
    Rest(h.majors, if b.Some? then b.value else 0, b.Some?, size + HEADER)
  }

  /** A request is served when the major that takes it has a gap, or when none takes it and there is a new
      one that holds it. */
  ghost predicate Served(h: Heap, req: nat, answer: Answer) {
    var t := Taker(h, Padded(req));
    if t.Some? then !h.majors[t.value].NoGap(Padded(req) + HEADER) else Region(answer, Padded(req)).Some?
  }

  /** What becomes of one that is not served. */
  ghost function Failure(h: Heap, req: nat, answer: Answer): Allocated {
    if Padded(req) >= WORD_64 then Wrapped
    else if Taker(h, Padded(req)).Some? then Overrun
    else Refusal(answer)
  }

  /** The search of malloc has surely looked at major j. */
  ghost predicate LookedAt(h: Heap, size: nat, j: nat) {
    j < |h.majors| &&
    var t := Taker(h, size);
    t.None? || j == t.value || (j < t.value && StartBet(h, size).None?)
  }

  /** The major at `bet` has at least x free; with x == 0 there need be none. */
  ghost predicate BetHolds(majors: seq<Major>, bet: Option<nat>, x: nat) {
    x == 0 || (bet.Some? && exists i: nat :: i < |majors| && majors[i].at == bet.value && majors[i].Unused() >= x)
  }

  /** The majors there are during the search: the old ones and the new one, if there is one. */
  function Candidates(h: Heap, size: nat, answer: Answer): seq<Major> {
    h.majors + if Region(answer, size).Some? then [NewMajor(answer.at, size)] else []
  }

  /** After malloc no major it has looked at had more free than the best bet had. */
  ghost predicate BestOfSeen(h: Heap, size: nat, answer: Answer, bet: Option<nat>) {
    forall j: nat :: LookedAt(h, size, j) ==> BetHolds(Candidates(h, size, answer), bet, h.majors[j].Unused())
  }

  ghost predicate AllOrdinary(majors: seq<Major>) {
    forall i: nat :: i < |majors| ==> majors[i].Ordinary()
  }

  /** With ordinary majors only, a request is served exactly when there is a gap for it or a new region that
      holds it, and no block ever overruns its region. */
  lemma OrdinaryServed(h: Heap, req: nat, answer: Answer)
    requires h.Valid() && AllOrdinary(h.majors)
    ensures Served(h, req, answer) <==>
            !NoGapAnywhere(h.majors, Padded(req) + HEADER) || Region(answer, Padded(req)).Some?
    ensures !Served(h, req, answer) ==> !Failure(h, req, answer).Overrun?
  {
    var space := Padded(req) + HEADER;
    forall i: nat | i < |h.majors| ensures h.majors[i].Takes(space) <==> !h.majors[i].NoGap(space) {
      OrdinaryTakes(h.majors[i], space);
    }
    hide Major.Takes, Major.NoGap, Heap.Core;
  }

  lemma OrdinaryTakes(M: Major, space: nat)
    requires M.Valid() && M.minors != [] && M.Ordinary() && space > 0
    ensures M.Takes(space) <==> !M.NoGap(space)
  {
    hide Major.Valid, Major.Seems, Major.Gap, Major.Unused, Major.Ordinary;
    if M.Takes(space) {
      var k: nat :| k <= |M.minors| && M.Seems(k, space);
      SeemsIff(M, k, space);
    }
    if !M.NoGap(space) {
      var k: nat :| k <= |M.minors| && M.Gap(k, space);
      GapNeedsFree(M, k, space);
      SeemsIff(M, k, space);
    }
  }

  lemma GapNeedsFree(M: Major, k: nat, space: nat)
    requires M.Valid() && k <= |M.minors| && M.Gap(k, space)
    ensures space <= M.Unused()
  {
    GapWithinFree(M, k);
  }

  /** M' is M with a block of req bytes at p in the first place that malloc takes. */
  ghost predicate PutIn(M: Major, M': Major, req: nat, p: nat) {
    exists k: nat :: M.IsFirst(k, Padded(req) + HEADER) && PutAt(M, M', k, req, p)
  }

  predicate PutAt(M: Major, M': Major, k: nat, req: nat, p: nat) {
    k <= |M.minors| &&
    var m := Minor(M.Lo(k), Padded(req), req);
    M' == M.Inserted(k, m) && p == m.Pointer()
  }

  /** The list of majors after a request has been served. */
  ghost predicate PlacedBy(h: Heap, majors: seq<Major>, req: nat, answer: Answer, p: nat) {
    var t, n := Taker(h, Padded(req)), |h.majors|;
    if t.Some? then
      |majors| == n && majors == h.majors[t.value := majors[t.value]]
      && PutIn(h.majors[t.value], majors[t.value], req, p)
    else
      answer.Pages? && |majors| == n + 1 && majors[..n] == h.majors
      && PutIn(NewMajor(answer.at, Padded(req)), majors[n], req, p)
  }

  /** The list of majors after minor k of major i is freed. */
  function Dropped(majors: seq<Major>, i: nat, k: nat): seq<Major>
    requires i < |majors| && k < |majors[i].minors|
  {
    var M := majors[i].Removed(k);
    if M.minors == [] then majors[..i] + majors[i + 1..] else majors[i := M]
  }

  /** The bytes by address. */
  type Memory = nat -> Byte

  function At(memory: Memory, x: nat): Byte { memory(x) }

  /** The n bytes from p on. */
  function Contents(memory: Memory, p: nat, n: nat): seq<Byte> {
    seq<Byte>(n, i requires 0 <= i => At(memory, p + i))
  }

  /** Every live block but the one at p has the bytes it had. */
  ghost predicate OthersKeepBytes(h: Heap, p: nat, memory: Memory, memory': Memory) {
    forall q: nat, r: nat :: h.Live(q, r) && q != p ==> Contents(memory', q, r) == Contents(memory, q, r)
  }

  /** Where memory' differs from memory: the n bytes at src have been copied to dst. */
  ghost predicate Copied(memory: Memory, memory': Memory, src: nat, dst: nat, n: nat) {
    forall x: nat :: At(memory', x) == At(memory, if dst <= x < dst + n then src + (x - dst) else x)
  }

  lemma CopyNothing(memory: Memory, src: nat, dst: nat)
    ensures Copied(memory, memory, src, dst, 0)
  {}

  /** The memory after the next `width` bytes have been copied over. */
  function Stored(memory: Memory, src: nat, dst: nat, width: nat): Memory {
    (x: nat) => At(memory, if dst <= x < dst + width then src + (x - dst) else x)
  }

  lemma CopyMore(memory: Memory, now: Memory, src: nat, dst: nat, i: nat, width: nat)
    requires Copied(memory, now, src, dst, i)
    requires dst + i + width <= src || src + i + width <= dst
    ensures Copied(memory, Stored(now, src + i, dst + i, width), src, dst, i + width)
  {
    var memory' := Stored(now, src + i, dst + i, width);
    assert forall x: nat :: At(memory', x) ==
                            At(now, if dst + i <= x < dst + i + width then src + i + (x - (dst + i)) else x);
  }

  /** Copying a block's bytes to the start of a new one touches no other block. */
  lemma CopyKeeps(h: Heap, h': Heap, src: nat, n: nat, dst: nat, size: nat, memory: Memory, memory': Memory)
    requires h'.Core() && Gained(h, h', dst, size) && n <= size
    requires Copied(memory, memory', src, dst, n)
    ensures Contents(memory', dst, n) == Contents(memory, src, n)
    ensures OthersKeepBytes(h, src, memory, memory')
  {
    hide Heap.Core, Heap.Live;
    forall q: nat, r: nat | h.Live(q, r) ensures Contents(memory', q, r) == Contents(memory, q, r) {
      LiveBlocksApart(h', q, r, dst, size);
      forall i | 0 <= i < r ensures Contents(memory', q, r)[i] == Contents(memory, q, r)[i] {
        assert At(memory', q + i) == At(memory, q + i);
      }
    }
    forall i | 0 <= i < n ensures Contents(memory', dst, n)[i] == Contents(memory, src, n)[i] {
      assert At(memory', dst + i) == At(memory, src + i);
    }
  }

  class Allocator {
    var majors: seq<Major>
    var bestBet: Option<nat>
    var inuse: int
    var mapped: int
    var warnings: nat
    var errors: nat

    /** The bytes of the blocks; the headers of majors and minors are in the lists. */
    var memory: Memory

    ghost function Now(): Heap
      reads this
    {
      Heap(majors, bestBet, inuse, mapped)
    }

    ghost predicate Valid()
      reads this
    {
      Now().Valid()
    }

    constructor ()
      ensures Valid() && majors == []
    {
      majors, bestBet, inuse, mapped, warnings, errors := [], None, 0, 0, 0, 0;
      memory := _ => 0;
    }

    /** Cases 3 and 4: the first place in major i that looks large enough. */
    method FirstGap(i: nat, space: nat) returns (k: Option<nat>)
      requires i < |majors| && majors[i].minors != []
      ensures k.Some? ==> majors[i].IsFirst(k.value, space)
      ensures k.None? ==> forall j: nat :: j <= |majors[i].minors| ==> !majors[i].Seems(j, space)
    {
      var M := majors[i];
      var j: nat := 0;
      while j < |M.minors|
        invariant j <= |M.minors|
        invariant forall l: nat :: l < j ==> !M.Seems(l, space)
      {
        if M.Lo(j) + space <= M.Hi(j) {
          return Some(j);
        }
        j := j + 1;
      }
      k := if (M.at + M.size - M.Lo(j)) % WORD_64 >= space then Some(j) else None;
    }

    /** Placing a block in major i, whose counters have room: at the start of an empty major, else where
        FirstGap says. None if it finds nothing. */
    method Place(i: nat, req: nat) returns (o: Option<Allocated>)
      requires Now().Core() && i < |majors| && Padded(req) + HEADER <= majors[i].Unused()
      requires majors[i].minors == [] ==> majors[i].Gap(0, Padded(req) + HEADER)
      modifies this`majors, this`inuse
      ensures o.None? ==> Now() == old(Now()) && !majors[i].Takes(Padded(req) + HEADER)
      ensures o.Some? ==> o.value.Block? || o.value.Overrun?
      ensures o.Some? ==> old(majors[i].Takes(Padded(req) + HEADER))
      ensures o == Some(Overrun) ==> Now() == old(Now()) && majors[i].minors != []
      ensures o.Some? ==> (o.value.Overrun? <==> old(majors[i].NoGap(Padded(req) + HEADER)))
      ensures o.Some? && o.value.Block? ==> Placed(old(Now()), Now(), i, o.value.p, req)
    {
      hide Major.Seems, Major.Valid, Major.Unused;
      var k: Option<nat> := Some(0);
      if |majors[i].minors| > 0 {
        k := FirstGap(i, Padded(req) + HEADER);
        if k.None? {
          return None;
        }
        FirstIsGapIff(majors[i], k.value, Padded(req) + HEADER);
      } else {
        EmptyTakes(majors[i], Padded(req) + HEADER);
      }
      if !majors[i].Gap(k.value, Padded(req) + HEADER) {
        return Some(Overrun);
      }
      var m := Minor(majors[i].Lo(k.value), Padded(req), req);
      ghost var before := Now();
      PlacedAt(before, i, k.value, req);
      majors := majors[i := majors[i].Inserted(k.value, m)];
      inuse := inuse + m.size;
      o := Some(Block(m.Pointer()));
    }

    /** allocate_new_page, linked in behind the last major. */
    method AddMajor(size: nat, at: nat)
      requires Now().Core() && Offered(Now(), at, size) && size + HEADER + HEADER < WORD_32
      modifies this`majors, this`mapped
      ensures Now() == old(Now()).Append(NewMajor(at, size)) && Now().Core()
      ensures SameBlocks(old(Now()), Now())
    {
      NewMajorValid(at, size);
      AppendKeeps(Now(), NewMajor(at, size));
      majors := majors + [NewMajor(at, size)];
      mapped := mapped + NewMajor(at, size).size;
    }

    /** Asking for the pages of a new major that is to hold a block of the given size. */
    method NewPage(size: nat, answer: Answer) returns (ok: bool)
      modifies this`warnings
      ensures ok <==> Region(answer, size).Some?
      ensures warnings == old(warnings) + if answer.NoMemory? then 1 else 0
    {
      if answer.NoMemory? {
        warnings := warnings + 1;
      }
      ok := answer.Pages? && size + HEADER + HEADER < WORD_32;
    }

    /** No major takes the block and there is no new one for it: the heap is what it was. */
    ghost predicate Refused(before: Heap, answer: Answer, size: nat)
      reads this
    {
      && Region(answer, size).None? && Taker(before, size).None? && Valid()
      && majors == before.majors && inuse == before.inuse && mapped == before.mapped
    }

    /** Major i does not take the block: go on to the next one, back to the root if the search started at
        the best bet, or else to a new major. */
    method Advance(i: nat, startedBet: bool, answer: Answer, size: nat, ghost before: Heap, ghost added: bool)
        returns (go: Go)
      requires Search(before, Now(), i, startedBet, added, Region(answer, size), size)
      requires !majors[i].Takes(size + HEADER)
      modifies this`majors, this`mapped, this`warnings
      ensures !added && !go.Found? && !go.Past? && (go.Added? || Now() == old(Now()))
      ensures go.Next? ==>
                i + 1 < |before.majors| && Search(before, Now(), i + 1, startedBet, false, Region(answer, size), size)
      ensures go.Restart? ==> startedBet && Search(before, Now(), 0, false, false, Region(answer, size), size)
      ensures go.Added? ==> i + 1 == |before.majors| && !startedBet
      ensures go.Added? ==> Search(before, Now(), i + 1, false, true, Region(answer, size), size)
      ensures go.Refused? ==> Refused(before, answer, size) && TakenAt(before, i, startedBet, size)
      ensures old(majors) <= majors
      ensures warnings == old(warnings) + if go.Refused? && answer.NoMemory? then 1 else 0
    {
      ghost var region := Region(answer, size);
      SearchIndex(before, Now(), i, startedBet, added, region, size);
      SearchNotNew(before, Now(), i, startedBet, added, region, size);
      hide Search, Heap.Core, Heap.Valid, Major.Takes, Taker, Heap.Append, NewMajor, Offered;
      if i + 1 < |majors| {
        SearchNext(before, Now(), i, startedBet, added, region, size);
        return Next;
      }
      if startedBet {
        SearchRestart(before, Now(), i, added, region, size);
        return Restart;
      }
      SearchEnd(before, Now(), i, added, region, size);
      var ok := NewPage(size, answer);
      if !ok {
        return Go.Refused;
      }
      SearchAdded(before, Now(), answer.at, size);
      AddMajor(size, answer.at);
      return Added;
    }

    /** Where the search starts: at the best bet when that has more than the space needed free. */
    method StartAt(region: Option<nat>, size: nat, ghost before: Heap, ghost added: bool)
        returns (i: nat, startedBet: bool, bestSize: int)
      requires if added then Search(before, Now(), 0, false, true, region, size) && bestBet.None?
               else Now() == before && before.Valid() && before.majors != []
      requires region.Some? ==> Offered(before, region.value, size) && size + HEADER + HEADER < WORD_32
      ensures Search(before, Now(), i, startedBet, added, region, size)
      ensures startedBet ==> StartBet(before, size).Some?
      ensures BetIs(Now(), bestSize) && (startedBet || SeenBelow(before, i, bestSize))
    {
      i, startedBet, bestSize := 0, false, 0;
      if bestBet.Some? {
        BestBetListed(before);
        var b := IndexOf(majors, bestBet.value);
        bestSize := majors[b].Unused();
        if bestSize > size + HEADER {
          i, startedBet := b, true;
        }
      }
    }

    /** The first major, if there is none. */
    method Root(answer: Answer, size: nat) returns (ok: bool, ghost added: bool)
      requires Valid() && (answer.Pages? ==> Offered(Now(), answer.at, size))
      modifies this`majors, this`mapped, this`warnings
      ensures !ok ==> Refused(old(Now()), answer, size) && old(majors) == []
      ensures ok && !added ==> Now() == old(Now()) && majors != []
      ensures ok && added ==> Search(old(Now()), Now(), 0, false, true, Region(answer, size), size) && bestBet.None?
      ensures warnings == old(warnings) + if !ok && answer.NoMemory? then 1 else 0
    {
      added := false;
      if |majors| > 0 {
        return true, false;
      }
      ok := NewPage(size, answer);
      SearchRoot(Now(), size);
      if ok {
        SearchAdded(Now(), Now(), answer.at, size);
        AddMajor(size, answer.at);
        added := true;
      }
    }

    /** `answer` is what the hook says if it is asked for pages. */
    method Malloc(req: nat, answer: Answer) returns (r: Allocated, ghost restarts: nat)
      requires Valid() && (answer.Pages? ==> Offered(Now(), answer.at, Padded(req)))
      modifies this
      ensures Valid() && errors == old(errors) && memory == old(memory)
      ensures r.Block? <==> Served(old(Now()), req, answer)
      ensures r.Block? ==> Gained(old(Now()), Now(), r.p, req)
      ensures r.Block? ==> PlacedBy(old(Now()), majors, req, answer, r.p)
      ensures !r.Block? ==> r == Failure(old(Now()), req, answer)
      ensures !r.Block? ==> majors == old(majors) && inuse == old(inuse) && mapped == old(mapped)
      ensures AllOrdinary(old(majors)) && Padded(req) <= MAX_SIZE ==> AllOrdinary(majors)
      ensures warnings == old(warnings) + if r.Null? then 1 else 0
      ensures !r.Wrapped? ==> BestOfSeen(old(Now()), Padded(req), answer, bestBet)
      ensures restarts <= 1
    {
      hide Search, Heap.Core, Heap.Valid, Heap.Live, Major.NoGap, Taker, Gained, Placed, NewMajor, Offered, Padded;
      hide Refused, Region, Served, Failure, FoundFor, PlacedBy, AllOrdinary, BestOfSeen, StartBet, BetIs, SeenBelow;
      ghost var before := Now();
      var size := Padded(req);
      restarts := 0;
      if size >= WORD_64 {
        WrappedMeans(before, req, answer);
        return Wrapped, 0;
      }
      var ok; ghost var added;
      ok, added := Root(answer, size);
      if !ok {
        RefusedMeans(before, req, answer);
        NoneSeen(before, size, answer, bestBet);
        return Refusal(answer), 0;
      }
      RegionIsOffered(before, size, answer);
      var i: nat, startedBet, bestSize := StartAt(Region(answer, size), size, before, added);
      while true
        invariant Search(before, Now(), i, startedBet, added, Region(answer, size), size)
        invariant errors == old(errors) && warnings == old(warnings) && memory == old(memory)
        invariant restarts + (if startedBet then 1 else 0) <= 1
        invariant startedBet ==> StartBet(before, size).Some?
        invariant BetIs(Now(), bestSize) && (startedBet || SeenBelow(before, i, bestSize))
        decreases startedBet, |before.majors| - i
      {
        bestSize := Remember(i, bestSize, before, startedBet, added, Region(answer, size), size);
        ghost var now := Now();
        var go := Turn(i, startedBet, req, answer, before, added);
        match go
        case Found(p) =>
          FoundMeans(before, p, req, answer);
          SeenAll(before, now, i, startedBet, added, answer, size, bestSize);
          return Block(p), restarts;
        case Past =>
          SeenAll(before, now, i, startedBet, added, answer, size, bestSize);
          return Overrun, restarts;
        case Refused =>
          RefusedMeans(before, req, answer);
          SeenAll(before, now, i, startedBet, added, answer, size, bestSize);
          return Refusal(answer), restarts;
        case Restart =>
          BetStays(now, Now(), bestSize);
          SeenNone(before, bestSize);
          i, startedBet, restarts := 0, false, restarts + 1;
        case _ =>
          BetStays(now, Now(), bestSize);
          added := go.Added?;
          i := i + 1;
      }
    }

    /** The major looked at becomes the best bet when it has more free than any before. */
    method Remember(i: nat, bestSize: int, ghost before: Heap, ghost startedBet: bool, ghost added: bool,
                    ghost region: Option<nat>, ghost size: nat)
        returns (bestSize': int)
      requires Search(before, Now(), i, startedBet, added, region, size) && BetIs(Now(), bestSize)
      modifies this`bestBet
      ensures Search(before, Now(), i, startedBet, added, region, size)
      ensures BetIs(Now(), bestSize') && majors[i].Unused() <= bestSize' && bestSize <= bestSize'
      ensures bestSize' == bestSize ==> bestBet == old(bestBet)
      ensures i < |before.majors| ==> before.majors[i].Unused() <= bestSize'
      ensures SeenBelow(before, i, bestSize) ==> SeenBelow(before, i + 1, bestSize')
    {
      SearchIndex(before, Now(), i, startedBet, added, region, size);
      SearchRemember(before, Now(), i, startedBet, added, region, size);
      SearchMajor(before, Now(), i, startedBet, added, region, size);
      hide Search, BetIs, SeenBelow, Heap.Core, Major.Unused, Offered;
      RememberedBet(Now(), i, bestSize);
      bestSize' := bestSize;
      if bestSize < majors[i].Unused() {
        bestBet := Some(majors[i].at);
        bestSize' := majors[i].Unused();
      }
      SeenMore(before, i, bestSize, bestSize');
    }

    /** One turn of the search, at major i: a block in the first place it seems to have, unless its counters
        say that there is not enough or no place is large enough. A major just made is looked at at once. */
    method Turn(i: nat, startedBet: bool, req: nat, answer: Answer, ghost before: Heap, ghost added: bool)
        returns (go: Go)
      requires Padded(req) < WORD_64
      requires Search(before, Now(), i, startedBet, added, Region(answer, Padded(req)), Padded(req))
      modifies this`majors, this`inuse, this`mapped, this`warnings
      ensures go.Found? || !added
      ensures go.Found? ==> FoundFor(before, go.p, req, answer)
      ensures go.Past? ==> !Served(before, req, answer) && Failure(before, req, answer) == Overrun && Valid()
      ensures go.Past? ==> majors == before.majors && inuse == before.inuse && mapped == before.mapped
      ensures go.Next? ==> i + 1 < |before.majors|
      ensures go.Next? ==> Search(before, Now(), i + 1, startedBet, false, Region(answer, Padded(req)), Padded(req))
      ensures go.Restart? ==>
                startedBet && Search(before, Now(), 0, false, false, Region(answer, Padded(req)), Padded(req))
      ensures go.Added? ==> i + 1 == |before.majors| && !startedBet
      ensures go.Added? ==> Search(before, Now(), i + 1, false, true, Region(answer, Padded(req)), Padded(req))
      ensures go.Refused? ==> Refused(before, answer, Padded(req))
      ensures !go.Found? ==> old(majors) <= majors
      ensures go.Found? && !added ==> TakenAt(before, i, startedBet, Padded(req))
      ensures go.Past? || go.Refused? ==> TakenAt(before, i, startedBet, Padded(req))
      ensures warnings == old(warnings) + if go.Refused? && answer.NoMemory? then 1 else 0
    {
      hide Search, Heap.Core, Heap.Valid, Heap.Live, Major.NoGap, Taker, Gained, Placed, Padded, Region, TakenAt;
      hide Refused, FoundFor, Served, Failure;
      var size := Padded(req);
      var j, isNew := i, added;
      SearchIndex(before, Now(), i, startedBet, added, Region(answer, size), size);
      if majors[i].Unused() < size + HEADER {
        go := Advance(i, startedBet, answer, size, before, added);
        if !go.Added? {
          return;
        }
        AddedIsLast(before, Now(), i, startedBet, Region(answer, size), size);
        j, isNew := i + 1, true;
        SearchIndex(before, Now(), j, startedBet, isNew, Region(answer, size), size);
      }
      hide Major.Takes;
      SearchFits(before, Now(), j, startedBet, isNew, Region(answer, size), size);
      ghost var now := Now();
      var o := Place(j, req);
      if o.Some? {
        if !isNew {
          TakenHere(before, now, i, startedBet, Region(answer, size), size);
        }
        if o.value.Overrun? {
          SearchPast(before, now, j, startedBet, isNew, answer, req);
          return Past;
        }
        SearchFound(before, now, Now(), j, startedBet, isNew, answer, req, o.value.p);
        FoundIs(before, o.value.p, req, answer);
        return Found(o.value.p);
      }
      SearchNotNew(before, Now(), j, startedBet, isNew, Region(answer, size), size);
      go := Advance(j, startedBet, answer, size, before, isNew);
    }

    /** What the search ends with. */
    ghost predicate FoundFor(before: Heap, p: nat, req: nat, answer: Answer)
      reads this
    {
      && Valid() && Gained(before, Now(), p, req) && Served(before, req, answer)
      && PlacedBy(before, majors, req, answer, p)
    }

    lemma FoundIs(before: Heap, p: nat, req: nat, answer: Answer)
      requires Valid() && Gained(before, Now(), p, req) && Served(before, req, answer)
      requires PlacedBy(before, majors, req, answer, p)
      ensures FoundFor(before, p, req, answer)
    {}

    lemma FoundMeans(before: Heap, p: nat, req: nat, answer: Answer)
      requires FoundFor(before, p, req, answer)
      ensures Valid() && Gained(before, Now(), p, req) && Served(before, req, answer)
      ensures PlacedBy(before, majors, req, answer, p)
      ensures AllOrdinary(before.majors) && Padded(req) <= MAX_SIZE ==> AllOrdinary(majors)
    {
      OrdinaryStays(before, majors, req, answer, p);
    }

    lemma RefusedMeans(before: Heap, req: nat, answer: Answer)
      requires Refused(before, answer, Padded(req)) && Padded(req) < WORD_64
      ensures Valid() && majors == before.majors && inuse == before.inuse && mapped == before.mapped
      ensures !Served(before, req, answer) && Failure(before, req, answer) == Refusal(answer)
    {}

    /** liballoc_memcpy: words of four bytes, then the rest. */
    method CopyBytes(dst: nat, src: nat, n: nat)
      requires dst + n <= src || src + n <= dst
      modifies this`memory
      ensures Copied(old(memory), memory, src, dst, n)
    {
      hide Copied, Stored;
      CopyNothing(memory, src, dst);
      var i: nat := 0;
      while n - i >= 4
        invariant i <= n && Copied(old(memory), memory, src, dst, i)
      {
        CopyMore(old(memory), memory, src, dst, i, 4);
        memory := Stored(memory, src + i, dst + i, 4);
        i := i + 4;
      }
      while i < n
        invariant i <= n && Copied(old(memory), memory, src, dst, i)
      {
        CopyMore(old(memory), memory, src, dst, i, 1);
        memory := Stored(memory, src + i, dst + i, 1);
        i := i + 1;
      }
    }

    method Free(ptr: Option<nat>)
      requires Valid()
      modifies this
      ensures Valid() && memory == old(memory)
      ensures ptr.None? ==> Now() == old(Now()) && warnings == old(warnings) + 1 && errors == old(errors)
      ensures ptr.Some? ==> Lost(old(Now()), Now(), ptr.value) && warnings == old(warnings)
      ensures ptr.Some? ==> errors == old(errors) + if old(exists r: nat :: Now().Live(ptr.value, r)) then 0 else 1
      ensures ptr.Some? && errors != old(errors) ==> Now() == old(Now())
      ensures ptr.Some? ==> FreedFrom(old(Now()), majors, ptr.value)
      ensures AllOrdinary(old(majors)) ==> AllOrdinary(majors)
    {
      hide Heap.Core, Heap.Remove, Heap.Unlink, Align, Used, InUse, Major.Valid, Heap.Live, Heap.IsMinor;
      hide AllOrdinary, FreedFrom;
      if ptr.None? {
        warnings := warnings + 1;
        return;
      }
      ghost var before := Now();
      var found := Find(Heap(majors, bestBet, inuse, mapped), |majors|, ptr.value);
      FindDecides(before, ptr.value);
      FreedIs(before, ptr.value);
      if found.None? {
        errors := errors + 1;
        return;
      }
      var i, k := found.value.0, found.value.1;
      DroppedOrdinary(majors, i, k);
      RemoveKeeps(before, i, k);
      inuse := inuse - majors[i].minors[k].size;
      majors := majors[i := majors[i].Removed(k)];
      RemovedMajors(before, i, k);
      Settle(i);
    }

    /** After a minor of major i is gone: an empty major is unmapped, another one may be the new best bet. */
    method Settle(i: nat)
      requires Now().Core() && i < |majors| && forall j: nat :: j < |majors| && j != i ==> majors[j].minors != []
      modifies this`majors, this`mapped, this`bestBet
      ensures Valid() && SameBlocks(old(Now()), Now())
      ensures old(majors[i].minors) == [] ==>
                bestBet == if old(bestBet) == Some(old(majors[i].at)) then None else old(bestBet)
      ensures old(majors[i].minors) != [] ==> BestAsInt(old(majors), i, old(bestBet), bestBet)
      ensures majors == if old(majors[i].minors) == [] then old(majors[..i] + majors[i + 1..]) else old(majors)
    {
      hide Heap.Core, Heap.Unlink, Heap.Live;
      ghost var before := Now();
      if |majors[i].minors| == 0 {
        UnlinkKeeps(before, i);
        UnlinkedMajors(before, i);
        if bestBet == Some(majors[i].at) {
          bestBet := None;
        }
        mapped := mapped - majors[i].size;
        majors := majors[..i] + majors[i + 1..];
      } else {
        Reconsider(i);
      }
    }

    /** A major with more free than the best bet, as signed ints, replaces it. */
    method Reconsider(i: nat)
      requires Now().Core() && i < |majors|
      modifies this`bestBet
      ensures Now().Core() && SameBlocks(old(Now()), Now())
      ensures BestAsInt(majors, i, old(bestBet), bestBet)
    {
      hide Heap.Core;
      if bestBet.Some? {
        BestBetListed(Now());
        var b := IndexOf(majors, bestBet.value);
        if AsInt(majors[i].size - majors[i].usage) > AsInt(majors[b].size - majors[b].usage) {
          BestBetCore(Now(), i);
          bestBet := Some(majors[i].at);
        }
      }
    }

    method Realloc(p: Option<nat>, size: nat, answer: Answer) returns (r: Realloced)
      requires Valid() && (answer.Pages? ==> Offered(Now(), answer.at, Padded(size)))
      modifies this
      ensures Valid()
      ensures size == 0 ==> r == Returned(None)
      ensures size == 0 ==> if p.Some? then Lost(old(Now()), Now(), p.value) else Now() == old(Now())
      ensures size > 0 && p.None? && r.Returned? && r.p.Some? ==> Gained(old(Now()), Now(), r.p.value, size)
      ensures size > 0 && p.None? && r == Returned(None) ==>
                majors == old(majors) && Failure(old(Now()), size, answer) == Null
      ensures size > 0 && p.Some? ==> Resized(old(Now()), Now(), p.value, size, r)
      ensures r == NullCopy <==>
              p.Some? && old(Lacks(Now(), p, size, answer)) && Failure(old(Now()), size, answer) == Null
      ensures r.Stopped? <==> old(Lacks(Now(), p, size, answer)) && Failure(old(Now()), size, answer) != Null
      ensures r.Stopped? ==> r.how == Failure(old(Now()), size, answer)
      ensures AllOrdinary(old(majors)) && Padded(size) <= MAX_SIZE ==> AllOrdinary(majors)
      ensures p.Some? ==> OthersKeepBytes(old(Now()), p.value, old(memory), memory)
      ensures p.None? || !r.Returned? || r.p.None? || r.p == p ==> memory == old(memory)
      ensures size > 0 && p.Some? && r.Returned? && r.p.Some? ==>
                forall n: nat :: old(Now()).Live(p.value, n) ==>
                  Contents(memory, r.p.value, Min(n, size)) == Contents(old(memory), p.value, Min(n, size))
    {
      hide Heap.Core, Heap.Valid, Heap.SetReq, Align, Used, InUse, Served, Offered, Contents, Failure, NoGapAnywhere;
      hide Heap.Live, Resized, Lost, Gained, OthersKeepBytes, Copied;
      ghost var before := Now();
      BytesStay(before, memory);
      if size == 0 {
        Free(p);
        return Returned(None);
      }
      if p.None? {
        var q; ghost var restarts;
        q, restarts := Malloc(size, answer);
        return if q.Block? then Returned(Some(q.p)) else if q.Null? then Returned(None) else Stopped(q);
      }
      var found := Find(Heap(majors, bestBet, inuse, mapped), |majors|, p.value);
      FindDecides(before, p.value);
      if found.None? {
        errors := errors + 1;
        NotLiveResized(before, p.value, size);
        return Returned(None);
      }
      var i, k := found.value.0, found.value.1;
      var realSize := majors[i].minors[k].req;
      if realSize >= size {
        ShrinkKeeps(before, i, k, size);
        majors := majors[i := majors[i].(minors := majors[i].minors[k := majors[i].minors[k].(req := size)])];
        ShrunkResized(before, Now(), p.value, realSize, size);
        return Returned(p);
      }
      r := Grow(p.value, realSize, size, answer);
    }

    /** A live block grows by moving. */
    method Grow(p: nat, realSize: nat, size: nat, answer: Answer) returns (r: Realloced)
      requires Valid() && (answer.Pages? ==> Offered(Now(), answer.at, Padded(size)))
      requires realSize < size && forall n: nat :: Now().Live(p, n) <==> n == realSize
      modifies this
      ensures Valid() && Resized(old(Now()), Now(), p, size, r)
      ensures r == NullCopy <==> !Served(old(Now()), size, answer) && Failure(old(Now()), size, answer) == Null
      ensures r.Stopped? <==> !Served(old(Now()), size, answer) && Failure(old(Now()), size, answer) != Null
      ensures r.Stopped? ==> r.how == Failure(old(Now()), size, answer)
      ensures r.Returned? <==> Served(old(Now()), size, answer)
      ensures AllOrdinary(old(majors)) && Padded(size) <= MAX_SIZE ==> AllOrdinary(majors)
      ensures OthersKeepBytes(old(Now()), p, old(memory), memory)
      ensures r.Returned? ==> r.p.Some? && r.p.value != p
      ensures r.Returned? ==> Contents(memory, r.p.value, realSize) == Contents(old(memory), p, realSize)
      ensures !r.Returned? ==> memory == old(memory)
    {
      hide Heap.Core, Heap.Valid, Align, Used, InUse, Served, Offered, Contents, Failure, NoGapAnywhere;
      hide Heap.Live, Lost, OthersKeepBytes, Copied;
      ghost var before := Now();
      BytesStay(before, memory);
      var q; ghost var restarts;
      q, restarts := Malloc(size, answer);
      if !q.Block? {
        SameMajors(before, Now());
        return if q.Null? then NullCopy else Stopped(q);
      }
      ghost var now := Now();
      assert before.Live(p, realSize);
      ValidIsCore(now);
      LiveBlocksApart(now, p, realSize, q.p, size);
      CopyBytes(q.p, p, realSize);
      CopyKeeps(before, now, p, realSize, q.p, size, old(memory), memory);
      Free(Some(p));
      MovedResized(before, now, Now(), p, realSize, size, q.p);
      r := Returned(Some(q.p));
    }
  }

  /** Inputs on which realloc copies through NULL or the system's refusal is written through: a block of one
      byte that is to grow beyond any gap when there are no pages. */
  method GrowInVain(at: nat, answer: Answer) returns (r: Realloced)
    requires !answer.Pages?
    ensures r == if answer.NoMemory? then NullCopy else Stopped(WildWrite)
  {
    hide Taker, PlacedBy, Heap.Core, Offered;
    var a := new Allocator();
    EmptyServes(a.Now(), 1, at);
    var q, restarts := a.Malloc(1, Pages(at));
    assert a.Now().Live(q.p, 1);
    WrappedMeans(a.Now(), WORD_32, answer);
    r := a.Realloc(Some(q.p), WORD_32, answer);
  }

  lemma EmptyServes(h: Heap, req: nat, at: nat)
    requires h.majors == []
    ensures Taker(h, Padded(req)).None? && Offered(h, at, Padded(req))
    ensures Served(h, req, Pages(at)) <==> Padded(req) + HEADER + HEADER < WORD_32
  {}

  /** An input that is too large for its new region: 16 pages for a block of 4 GB. */
  lemma FirstTooLarge(h: Heap, at: nat)
    requires h.majors == []
    ensures var req := WORD_32 - HEADER - HEADER - ALIGNMENT - ALIGN_INFO;
            && PagesAsked(Padded(req)) == PAGE_COUNT
            && !Served(h, req, Pages(at)) && Failure(h, req, Pages(at)) == Oversized
  {
    EmptyServes(h, WORD_32 - HEADER - HEADER - ALIGNMENT - ALIGN_INFO, at);
    hide Taker;
  }

  // ------------------------------------------------------------------ a fragmented region of 4 GB

  const A_REQ: nat := MAX_SIZE + 1 - ALIGNMENT - ALIGN_INFO

  function A(at: nat): Minor { Minor(at + HEADER, Padded(A_REQ), A_REQ) }
  function B(at: nat): Minor { Minor(A(at).End(), Padded(1000), 1000) }
  function C(at: nat): Minor { Minor(B(at).End(), Padded(1000), 1000) }

  /** A region of 4 GB, whose recorded size is zero. */
  function Giant(at: nat, minors: seq<Minor>): Major {
    Major(at, MAX_PAGES, 0, (HEADER + Used(minors)) % WORD_32, minors)
  }

  lemma UsedThree(a: Minor, b: Minor, c: Minor)
    ensures Used([a]) == a.size + HEADER
    ensures Used([a, b]) == a.size + b.size + HEADER + HEADER
    ensures Used([a, b, c]) == a.size + b.size + c.size + HEADER + HEADER + HEADER
  {
    assert [a][..0] == [] && [a, b][..1] == [a] && [a, b, c][..2] == [a, b];
  }

  lemma AFirst(at: nat)
    ensures NewMajor(at, Padded(A_REQ)).IsFirst(0, Padded(A_REQ) + HEADER)
    ensures NewMajor(at, Padded(A_REQ)).Inserted(0, A(at)) == Giant(at, [A(at)])
  {
    UsedThree(A(at), A(at), A(at));
    NewPageFitsIff(Padded(A_REQ));
    assert NewMajor(at, Padded(A_REQ)).Seems(0, Padded(A_REQ) + HEADER);
  }

  lemma BNext(at: nat)
    ensures var M := Giant(at, [A(at)]);
            && M.Unused() >= Padded(1000) + HEADER && M.IsFirst(1, Padded(1000) + HEADER)
            && M.Gap(1, Padded(1000) + HEADER) && M.Lo(1) == B(at).at
            && M.Inserted(1, B(at)) == Giant(at, [A(at), B(at)])
  {
    UsedThree(A(at), B(at), B(at));
    assert [A(at)][..1] + [B(at)] + [A(at)][1..] == [A(at), B(at)];
  }

  lemma CNext(at: nat)
    ensures var M := Giant(at, [A(at), B(at)]);
            && M.Unused() >= Padded(1000) + HEADER && M.IsFirst(2, Padded(1000) + HEADER)
            && M.Gap(2, Padded(1000) + HEADER) && M.Lo(2) == C(at).at
            && M.Inserted(2, C(at)) == Giant(at, [A(at), B(at), C(at)])
  {
    UsedThree(A(at), B(at), C(at));
    var minors := [A(at), B(at)];
    assert minors[..2] + [C(at)] + minors[2..] == [A(at), B(at), C(at)];
  }

  lemma BFreed(at: nat)
    ensures Giant(at, [A(at), B(at), C(at)]).Removed(1) == Giant(at, [A(at), C(at)])
  {
    UsedThree(A(at), B(at), C(at));
    UsedThree(A(at), C(at), C(at));
    var minors := [A(at), B(at), C(at)];
    assert minors[..1] + minors[2..] == [A(at), C(at)];
  }

  lemma NoPlaceForD(at: nat)
    ensures var M := Giant(at, [A(at), C(at)]); M.Takes(3000) && M.NoGap(3000)
  {
    UsedThree(A(at), C(at), C(at));
    var M := Giant(at, [A(at), C(at)]);
    assert M.Seems(2, 3000);
    forall k: nat | k <= 2 ensures !M.Gap(k, 3000) {
      assert k == 0 || k == 1 || k == 2;
    }
  }

  /** One major, and the place in it that malloc takes. */
  lemma OneMajorServes(h: Heap, M: Major, k: nat, req: nat, answer: Answer)
    requires h.majors == [M] && Padded(req) + HEADER <= M.Unused() && M.IsFirst(k, Padded(req) + HEADER)
    requires M.Gap(k, Padded(req) + HEADER)
    ensures Served(h, req, answer)
    ensures forall majors, p :: PlacedBy(h, majors, req, answer, p) ==>
              var m := Minor(M.Lo(k), Padded(req), req); majors == [M.Inserted(k, m)] && p == m.Pointer()
  {
    hide Taker, Align;
    var t := Taker(h, Padded(req));
    assert M.Takes(Padded(req) + HEADER) && h.majors[0] == M;
    assert t == Some(0);
    forall majors, p | PlacedBy(h, majors, req, answer, p)
      ensures var m := Minor(M.Lo(k), Padded(req), req); majors == [M.Inserted(k, m)] && p == m.Pointer()
    {
      FirstIsOne(M, majors[0], k, req, p);
      assert majors == [majors[0]];
    }
  }

  lemma FirstIsOne(M: Major, M': Major, k: nat, req: nat, p: nat)
    requires PutIn(M, M', req, p) && M.IsFirst(k, Padded(req) + HEADER)
    ensures PutAt(M, M', k, req, p)
  {
    hide Major.Seems, PutAt;
    var j: nat :| M.IsFirst(j, Padded(req) + HEADER) && PutAt(M, M', j, req, p);
    assert j == k;
  }

  lemma FirstMajorIs(h: Heap, majors: seq<Major>, at: nat, p: nat)
    requires h.majors == [] && PlacedBy(h, majors, A_REQ, Pages(at), p)
    ensures majors == [Giant(at, [A(at)])]
  {
    hide Align;
    AFirst(at);
    FirstIsOne(NewMajor(at, Padded(A_REQ)), majors[0], 0, A_REQ, p);
    assert majors == [majors[0]];
  }

  lemma BIsFreed(h: Heap, majors: seq<Major>, at: nat)
    requires h.majors == [Giant(at, [A(at), B(at), C(at)])] && FreedFrom(h, majors, B(at).Pointer())
    ensures majors == [Giant(at, [A(at), C(at)])]
  {
    hide Align;
    BFreed(at);
    assert h.IsMinor(0, 1, B(at).Pointer(), 1000);
    hide Giant, Used;
    assert h.majors[0 := Giant(at, [A(at), C(at)])] == [Giant(at, [A(at), C(at)])];
  }

  lemma DOverruns(h: Heap, at: nat, answer: Answer)
    requires h.majors == [Giant(at, [A(at), C(at)])]
    ensures var req := 3000 - HEADER - ALIGNMENT - ALIGN_INFO;
            !Served(h, req, answer) && Failure(h, req, answer) == Overrun
  {
    NoPlaceForD(at);
    hide Giant, Taker, Major.Takes, Major.NoGap;
    assert h.majors[0].Takes(3000);
    assert Taker(h, 3000 - HEADER) == Some(0);
  }

  /** A run in which a block ends up past its region: three blocks in a region of 4 GB, the second freed, and
      a fourth as large as what is free in all, which no gap holds. malloc takes the end for it, computed from
      the recorded size zero. */
  method FragmentedOverrun(at: nat) returns (r: Allocated)
    ensures r == Overrun
  {
    hide Taker, PlacedBy, Served, Failure, Giant, Offered, FreedFrom, Used, Align;
    var a := new Allocator();
    EmptyServes(a.Now(), A_REQ, at);
    AServed(a.Now(), at);
    ghost var h := a.Now();
    var q, restarts := a.Malloc(A_REQ, Pages(at));
    FirstMajorIs(h, a.majors, at, q.p);
    BNext(at);
    h := a.Now();
    OneMajorServes(h, Giant(at, [A(at)]), 1, 1000, NoMemory);
    q, restarts := a.Malloc(1000, NoMemory);
    var b := q.p;
    CNext(at);
    h := a.Now();
    OneMajorServes(h, Giant(at, [A(at), B(at)]), 2, 1000, NoMemory);
    q, restarts := a.Malloc(1000, NoMemory);
    h := a.Now();
    a.Free(Some(b));
    BIsFreed(h, a.majors, at);
    DOverruns(a.Now(), at, NoMemory);
    r, restarts := a.Malloc(3000 - HEADER - ALIGNMENT - ALIGN_INFO, NoMemory);
  }

  lemma AServed(h: Heap, at: nat)
    requires h.majors == []
    ensures Served(h, A_REQ, Pages(at))
  {
    EmptyServes(h, A_REQ, at);
  }

  /** The minor that p points to is dropped. */
  ghost predicate FreedFrom(h: Heap, majors: seq<Major>, p: nat) {
    forall i: nat, k: nat, r: nat :: h.IsMinor(i, k, p, r) ==> majors == Dropped(h.majors, i, k)
  }

  /** What a major has free, as a signed int. */
  function FreeInt(M: Major): int { AsInt(M.size - M.usage) }

  /** A major with more free than the best bet replaces it; without a best bet there is none after. */
  ghost predicate BestAsInt(majors: seq<Major>, i: nat, bet: Option<nat>, bet': Option<nat>)
    requires i < |majors|
  {
    if bet.None? then bet'.None?
    else
      exists b: nat :: b < |majors| && majors[b].at == bet.value &&
                       bet' == if FreeInt(majors[i]) > FreeInt(majors[b]) then Some(majors[i].at) else bet
  }

  lemma FreedIs(h: Heap, p: nat)
    requires h.Valid()
    ensures var found := Find(h, |h.majors|, p);
            if found.None? then forall majors :: FreedFrom(h, majors, p)
            else FreedFrom(h, Dropped(h.majors, found.value.0, found.value.1), p)
  {
    hide Heap.Core, Align, Dropped;
    var found := Find(h, |h.majors|, p);
    if found.Some? {
      var (i, k) := found.value;
      assert h.IsMinor(i, k, p, h.majors[i].minors[k].req);
      forall a: nat, b: nat, r: nat | h.IsMinor(a, b, p, r) ensures (a, b) == (i, k) {
        OnePointer(h, i, k, a, b, p, h.majors[i].minors[k].req, r);
      }
    }
  }

  lemma DroppedOrdinary(majors: seq<Major>, i: nat, k: nat)
    requires i < |majors| && k < |majors[i].minors|
    ensures AllOrdinary(majors) ==> AllOrdinary(Dropped(majors, i, k))
  {}

  /** Pointer p is no longer live; all other live blocks are what they were. */
  ghost predicate Lost(h: Heap, h': Heap, p: nat) {
    forall q: nat, r: nat :: h'.Live(q, r) <==> h.Live(q, r) && q != p
  }

  /** Realloc needs a new block and is not served: for no pointer, or for a live block that is to grow. */
  ghost predicate Lacks(h: Heap, p: Option<nat>, size: nat, answer: Answer) {
    size > 0 && !Served(h, size, answer) && (p.Some? ==> exists n: nat :: h.Live(p.value, n) && n < size)
  }

  /** What realloc does with a pointer and a positive size. A block grows by moving; when malloc gives NULL
      for that, the failure is noticed only by the copy. */
  ghost predicate Resized(h: Heap, h': Heap, p: nat, size: nat, res: Realloced) {
    if forall r: nat :: !h.Live(p, r) then h' == h && res == Returned(None)
    else if exists r: nat :: h.Live(p, r) && r >= size then
      res == Returned(Some(p)) && h'.inuse == h.inuse
      && forall q: nat, r: nat :: h'.Live(q, r) <==> if q == p then r == size else h.Live(q, r)
    else if !res.Returned? then SameBlocks(h, h')
    else
      res.p.Some? && res.p.value % ALIGNMENT == 0 && (forall r: nat :: !h.Live(res.p.value, r))
      && forall q: nat, r: nat :: h'.Live(q, r) <==> (h.Live(q, r) && q != p) || (q == res.p.value && r == size)
  }

  lemma NotLiveResized(h: Heap, p: nat, size: nat)
    requires forall r: nat :: !h.Live(p, r)
    ensures Resized(h, h, p, size, Returned(None))
  {}

  lemma ShrunkResized(h: Heap, h': Heap, p: nat, realSize: nat, size: nat)
    requires h.Live(p, realSize) && realSize >= size && h'.inuse == h.inuse
    requires forall q: nat, r: nat :: h'.Live(q, r) <==> if q == p then r == size else h.Live(q, r)
    ensures Resized(h, h', p, size, Returned(Some(p)))
  {
    hide Heap.Live;
  }

  lemma MovedResized(h: Heap, now: Heap, h': Heap, p: nat, realSize: nat, size: nat, p': nat)
    requires realSize < size && (forall n: nat :: h.Live(p, n) <==> n == realSize)
    requires Gained(h, now, p', size) && Lost(now, h', p)
    ensures Resized(h, h', p, size, Returned(Some(p'))) && p' != p
  {
    hide Heap.Live;
    assert h.Live(p, realSize);
  }

  lemma ValidIsCore(h: Heap)
    requires h.Valid()
    ensures h.Core()
  {}

  lemma BytesStay(h: Heap, memory: Memory)
    ensures forall p: nat :: OthersKeepBytes(h, p, memory, memory)
  {}

  /** A request whose padded size wraps around, or is too large for a new region, is not served. */
  lemma WrappedMeans(h: Heap, req: nat, answer: Answer)
    requires h.Valid() && Padded(req) + HEADER + HEADER >= WORD_32
    ensures !Served(h, req, answer) && Taker(h, Padded(req)).None?
    ensures Padded(req) >= WORD_64 ==> Failure(h, req, answer) == Wrapped
    ensures Padded(req) < WORD_64 ==> Failure(h, req, answer) == Refusal(answer)
  {
    forall i: nat | i < |h.majors| ensures !h.majors[i].Takes(Padded(req) + HEADER) {
      NotTakenBeyond(h.majors[i], Padded(req));
    }
    hide Major.Takes, Heap.Core;
  }

  lemma RegionIsOffered(h: Heap, size: nat, answer: Answer)
    requires answer.Pages? ==> Offered(h, answer.at, size)
    ensures Region(answer, size).Some? ==>
              Offered(h, Region(answer, size).value, size) && size + HEADER + HEADER < WORD_32
  {}

  lemma OrdinaryStays(h: Heap, majors: seq<Major>, req: nat, answer: Answer, p: nat)
    requires PlacedBy(h, majors, req, answer, p)
    ensures AllOrdinary(h.majors) && Padded(req) <= MAX_SIZE ==> AllOrdinary(majors)
  {
    var t := Taker(h, Padded(req));
    hide Taker, Major.IsFirst;
    if AllOrdinary(h.majors) && Padded(req) <= MAX_SIZE && t.None? {
      NewPageFitsIff(Padded(req));
      NewRegionHoldsIff(Padded(req));
      assert majors[|h.majors|].Ordinary();
      forall i: nat | i < |majors| ensures majors[i].Ordinary() {
        if i < |h.majors| { assert majors[i] == majors[..|h.majors|][i]; }
      }
    }
  }

  lemma EmptyTakes(M: Major, space: nat)
    requires M.minors == [] && space <= M.Unused()
    ensures M.Takes(space) && M.IsFirst(0, space)
  {
    assert M.Seems(0, space);
  }

  /** Placing a block at gap k of major i, the first place malloc takes. */
  lemma PlacedAt(h: Heap, i: nat, k: nat, req: nat)
    requires h.Core() && i < |h.majors| && h.majors[i].IsFirst(k, Padded(req) + HEADER)
    requires h.majors[i].Gap(k, Padded(req) + HEADER)
    ensures var m := Minor(h.majors[i].Lo(k), Padded(req), req);
            h.Insert(i, k, m) == h.(majors := h.majors[i := h.majors[i].Inserted(k, m)], inuse := h.inuse + m.size)
            && Placed(h, h.Insert(i, k, m), i, m.Pointer(), req)
  {
    var m := Minor(h.majors[i].Lo(k), Padded(req), req);
    InsertKeeps(h, i, k, m);
    AlignRoundTrip(m.at + HEADER, req);
    assert PutAt(h.majors[i], h.majors[i].Inserted(k, m), k, req, m.Pointer());
    hide Heap.Core, Heap.Live, Major.Seems, Align;
  }

  /** The lookup finds a block exactly when the pointer is live, and then its only size. */
  lemma FindDecides(h: Heap, p: nat)
    requires h.Valid()
    ensures Find(h, |h.majors|, p).None? <==> forall r: nat :: !h.Live(p, r)
    ensures var found := Find(h, |h.majors|, p);
            found.Some? ==> forall r: nat :: h.Live(p, r) <==> r == h.majors[found.value.0].minors[found.value.1].req
  {
    hide Heap.Core, Align;
    var found := Find(h, |h.majors|, p);
    forall r: nat | h.Live(p, r) ensures found.Some? {
      var a: nat, b: nat :| h.IsMinor(a, b, p, r);
    }
    if found.Some? {
      var (i, k) := found.value;
      var req := h.majors[i].minors[k].req;
      assert h.IsMinor(i, k, p, req);
      assert h.Live(p, req);
      forall r: nat ensures h.Live(p, r) <==> r == req {
        if h.Live(p, r) {
          var a: nat, b: nat :| h.IsMinor(a, b, p, r);
          OnePointer(h, i, k, a, b, p, req, r);
        }
      }
    }
  }

  lemma RemovedMajors(h: Heap, i: nat, k: nat)
    requires h.Valid() && i < |h.majors| && k < |h.majors[i].minors|
    ensures var majors := h.majors[i := h.majors[i].Removed(k)];
            && h.Remove(i, k) == h.(majors := majors, inuse := h.inuse - h.majors[i].minors[k].size)
            && (forall j: nat :: j < |majors| && (j != i || majors[i].minors != []) ==> majors[j].minors != [])
  {}

  lemma UnlinkedMajors(h: Heap, i: nat)
    requires i < |h.majors| && (forall j: nat :: j < |h.majors| && j != i ==> h.majors[j].minors != [])
    ensures h.Unlink(i).majors == h.majors[..i] + h.majors[i + 1..]
    ensures h.Unlink(i) == Heap(h.majors[..i] + h.majors[i + 1..],
                                if h.bestBet == Some(h.majors[i].at) then None else h.bestBet,
                                h.inuse,
                                h.mapped - h.majors[i].size)
    ensures forall j: nat :: j < |h.Unlink(i).majors| ==> h.Unlink(i).majors[j].minors != []
  {}

  lemma ShrinkKeeps(h: Heap, i: nat, k: nat, size: nat)
    requires h.Valid() && i < |h.majors| && k < |h.majors[i].minors| && size <= h.majors[i].minors[k].req
    ensures var M := h.majors[i];
            h.SetReq(i, k, size) ==
            h.(majors := h.majors[i := M.(minors := M.minors[k := M.minors[k].(req := size)])])
    ensures h.SetReq(i, k, size).Valid()
    ensures forall q: nat, r: nat :: h.SetReq(i, k, size).Live(q, r) <==>
              if q == h.majors[i].minors[k].Pointer() then r == size else h.Live(q, r)
  {
    SetReqKeeps(h, i, k, size);
    hide Heap.Core, Align;
  }

  lemma SameMajors(h: Heap, h': Heap)
    requires h'.majors == h.majors
    ensures SameBlocks(h, h')
  {
    forall q: nat, r: nat { SameLive(h, h', q, r); }
  }

  /** realloc returns a pointer (None for NULL), copies through the NULL that malloc gave it, or never gets
      past malloc. */
  datatype Realloced = Returned(p: Option<nat>) | NullCopy | Stopped(how: Allocated)

  datatype Go = Found(p: nat) | Past | Next | Restart | Added | Refused

  /** The search of malloc, in heap h, entered in heap b: it is about to look at major i. Once a major has
      been added it is the one to look at; before that, the major that will take the block is the first from
      here on that does. */
  ghost predicate Search(b: Heap, h: Heap, i: nat, startedBet: bool, added: bool, region: Option<nat>, size: nat) {
    && b.Valid() && h.Core() && i < |h.majors| && SameBlocks(b, h) && h.inuse == b.inuse
    && (region.Some? ==> Offered(b, region.value, size) && size + HEADER + HEADER < WORD_32)
    && (if added then
          && !startedBet && region.Some? && h.majors == b.majors + [NewMajor(region.value, size)]
          && Taker(b, size).None? && i == |b.majors|
        else
          h.majors == b.majors && h.mapped == b.mapped
          && Rest(b.majors, i, startedBet, size + HEADER) == Taker(b, size))
  }

  /** bestSize is what the best bet has free. */
  ghost predicate BetIs(h: Heap, size: int) {
    size >= 0 &&
    (size > 0 ==> h.bestBet.Some? &&
                  exists i: nat :: i < |h.majors| && h.majors[i].at == h.bestBet.value && h.majors[i].Unused() == size)
  }

  ghost predicate SeenBelow(b: Heap, n: nat, size: int) {
    forall j: nat :: j < n && j < |b.majors| ==> b.majors[j].Unused() <= size
  }

  /** The search ends at major i: it takes the block, or it is the last and none does. */
  ghost predicate TakenAt(b: Heap, i: nat, startedBet: bool, size: nat) {
    Taker(b, size) == Some(i) || (Taker(b, size).None? && !startedBet && i + 1 >= |b.majors|)
  }

  lemma RememberedBet(h: Heap, i: nat, size: int)
    requires BetIs(h, size) && i < |h.majors|
    ensures size < h.majors[i].Unused() ==>
              BetIs(h.(bestBet := Some(h.majors[i].at)), h.majors[i].Unused())
  {
    hide Major.Unused;
  }

  lemma SeenMore(b: Heap, i: nat, size: int, size': int)
    requires size <= size' && (i < |b.majors| ==> b.majors[i].Unused() <= size')
    ensures SeenBelow(b, i, size) ==> SeenBelow(b, i + 1, size')
  {
    hide Major.Unused;
  }

  lemma SeenNone(b: Heap, size: int)
    ensures SeenBelow(b, 0, size)
  {}

  lemma NoneSeen(b: Heap, size: nat, answer: Answer, bet: Option<nat>)
    requires b.majors == []
    ensures BestOfSeen(b, size, answer, bet)
  {}

  lemma BetStays(h: Heap, h': Heap, size: int)
    requires BetIs(h, size) && h.majors <= h'.majors && h'.bestBet == h.bestBet
    ensures BetIs(h', size)
  {}

  lemma TakenHere(b: Heap, h: Heap, i: nat, startedBet: bool, region: Option<nat>, size: nat)
    requires Search(b, h, i, startedBet, false, region, size) && h.majors[i].Takes(size + HEADER)
    ensures TakenAt(b, i, startedBet, size)
  {
    SearchTakes(b, h, i, startedBet, region, size);
  }

  lemma AddedIsLast(b: Heap, h: Heap, i: nat, startedBet: bool, region: Option<nat>, size: nat)
    requires Search(b, h, i + 1, false, true, region, size) && !startedBet
    ensures TakenAt(b, i, startedBet, size)
  {}

  lemma SearchMajor(b: Heap, h: Heap, i: nat, startedBet: bool, added: bool, region: Option<nat>, size: nat)
    requires Search(b, h, i, startedBet, added, region, size)
    ensures i < |h.majors| && (i < |b.majors| ==> h.majors[i] == b.majors[i])
  {
    hide Heap.Core, Heap.Valid, Taker, Rest;
  }

  /** When the search ends, what it has seen bounds every major it has looked at. */
  lemma SeenAll(b: Heap, h: Heap, i: nat, startedBet: bool, added: bool, answer: Answer, size: nat, best: int)
    requires Search(b, h, i, startedBet, added, Region(answer, size), size) && BetIs(h, best)
    requires startedBet ==> StartBet(b, size).Some?
    requires !added ==> TakenAt(b, i, startedBet, size)
    requires startedBet || SeenBelow(b, i + 1, best)
    requires i < |b.majors| ==> b.majors[i].Unused() <= best
    ensures BestOfSeen(b, size, answer, h.bestBet)
  {
    SearchCandidates(b, h, i, startedBet, added, answer, size);
    hide Search, Taker, StartBet, Region, NewMajor;
    forall j: nat | LookedAt(b, size, j)
      ensures BetHolds(Candidates(b, size, answer), h.bestBet, b.majors[j].Unused())
    {
      assert b.majors[j].Unused() <= best;
      if best > 0 {
        var k: nat :| k < |h.majors| && h.majors[k].at == h.bestBet.value && h.majors[k].Unused() == best;
        assert Candidates(b, size, answer)[k] == h.majors[k];
      }
    }
  }

  lemma SearchCandidates(b: Heap, h: Heap, i: nat, startedBet: bool, added: bool, answer: Answer, size: nat)
    requires Search(b, h, i, startedBet, added, Region(answer, size), size)
    ensures h.majors <= Candidates(b, size, answer)
    ensures added ==> Taker(b, size).None? && !startedBet && i == |b.majors|
  {
    hide Heap.Core, Heap.Valid, Taker, Rest;
  }

  lemma SearchRoot(b: Heap, size: nat)
    requires b.Valid() && b.majors == []
    ensures b.bestBet.None? && Taker(b, size).None?
  {}

  lemma SearchAdded(b: Heap, h: Heap, at: nat, size: nat)
    requires b.Valid() && h.Core() && h.majors == b.majors && h.inuse == b.inuse && Offered(b, at, size)
    requires size + HEADER + HEADER < WORD_32 && Taker(b, size).None?
    ensures Offered(h, at, size)
    ensures Search(b, h.Append(NewMajor(at, size)), |b.majors|, false, true, Some(at), size)
  {
    hide Heap.Core, Align, Apart, Taker;
    var M := NewMajor(at, size);
    NewMajorValid(at, size);
    AppendKeeps(h, M);
    forall q: nat, r: nat { SameLive(b, h, q, r); }
  }

  lemma SearchIndex(b: Heap, h: Heap, i: nat, startedBet: bool, added: bool, region: Option<nat>, size: nat)
    requires Search(b, h, i, startedBet, added, region, size)
    ensures i < |h.majors| && h.Core() && (if added then i == |b.majors| else |h.majors| == |b.majors|)
    ensures region.Some? ==> Offered(b, region.value, size) && size + HEADER + HEADER < WORD_32
    ensures |h.majors| >= |b.majors|
  {}

  lemma SearchRemember(b: Heap, h: Heap, i: nat, startedBet: bool, added: bool, region: Option<nat>, size: nat)
    requires Search(b, h, i, startedBet, added, region, size)
    ensures i < |h.majors| && Search(b, h.(bestBet := Some(h.majors[i].at)), i, startedBet, added, region, size)
  {
    BestBetCore(h, i);
    hide Heap.Core, Heap.Valid, Taker, Rest;
  }

  /** The major looked at is not the new one if it did not take the block. */
  lemma SearchNotNew(b: Heap, h: Heap, i: nat, startedBet: bool, added: bool, region: Option<nat>, size: nat)
    requires Search(b, h, i, startedBet, added, region, size) && !h.majors[i].Takes(size + HEADER)
    ensures !added
  {
    hide Heap.Core, Heap.Valid, Taker, Rest;
    if added { FreshMajorFits(h, i, region.value, size); }
  }

  lemma SearchNext(b: Heap, h: Heap, i: nat, startedBet: bool, added: bool, region: Option<nat>, size: nat)
    requires Search(b, h, i, startedBet, added, region, size) && !h.majors[i].Takes(size + HEADER)
    requires i + 1 < |h.majors|
    ensures Search(b, h, i + 1, startedBet, added, region, size) && !added
  {
    SearchNotNew(b, h, i, startedBet, added, region, size);
    hide Heap.Core, Heap.Valid, Taker, Major.Takes;
  }

  lemma SearchRestart(b: Heap, h: Heap, i: nat, added: bool, region: Option<nat>, size: nat)
    requires Search(b, h, i, true, added, region, size) && !h.majors[i].Takes(size + HEADER) && i + 1 == |h.majors|
    ensures Search(b, h, 0, false, added, region, size)
  {
    SearchNotNew(b, h, i, true, added, region, size);
    hide Heap.Core, Heap.Valid, Taker, Major.Takes;
    assert TakerFrom(b.majors, i + 1, size + HEADER).None?;
  }

  /** At the last major, having come from the root, all majors have been looked at. */
  lemma SearchEnd(b: Heap, h: Heap, i: nat, added: bool, region: Option<nat>, size: nat)
    requires Search(b, h, i, false, added, region, size) && !h.majors[i].Takes(size + HEADER) && i + 1 == |h.majors|
    ensures !added && b.Valid() && h.Valid() && h.majors == b.majors && h.inuse == b.inuse && h.mapped == b.mapped
    ensures Taker(b, size).None?
  {
    SearchNotNew(b, h, i, false, added, region, size);
    hide Heap.Core, Taker, Major.Takes;
    assert TakerFrom(b.majors, i + 1, size + HEADER).None?;
  }

  lemma SearchFits(b: Heap, h: Heap, i: nat, startedBet: bool, added: bool, region: Option<nat>, size: nat)
    requires Search(b, h, i, startedBet, added, region, size)
    ensures h.Core() && i < |h.majors| && (h.majors[i].minors == [] ==> h.majors[i].Gap(0, size + HEADER))
    ensures added ==> size + HEADER <= h.majors[i].Unused() && h.majors[i].minors == []
  {
    hide Heap.Core, Taker, Rest;
    if added { FreshMajorFits(h, i, region.value, size); }
  }

  /** The major that takes the block is the one looked at. */
  lemma SearchTakes(b: Heap, h: Heap, i: nat, startedBet: bool, region: Option<nat>, size: nat)
    requires Search(b, h, i, startedBet, false, region, size) && h.majors[i].Takes(size + HEADER)
    ensures Taker(b, size) == Some(i) && b.Valid() && h.Core() && h.majors == b.majors && h.inuse == b.inuse
    ensures h.mapped == b.mapped
  {
    hide Heap.Core, Heap.Valid, Taker, Major.Takes;
  }

  lemma SearchPast(b: Heap, h: Heap, i: nat, startedBet: bool, added: bool, answer: Answer, req: nat)
    requires Search(b, h, i, startedBet, added, Region(answer, Padded(req)), Padded(req)) && Padded(req) < WORD_64
    requires h.majors[i].Takes(Padded(req) + HEADER) && h.majors[i].NoGap(Padded(req) + HEADER)
    requires h.majors[i].minors != []
    ensures !added && !Served(b, req, answer) && Failure(b, req, answer) == Overrun
    ensures h.Valid() && h.majors == b.majors && h.inuse == b.inuse && h.mapped == b.mapped
  {
    SearchFits(b, h, i, startedBet, added, Region(answer, Padded(req)), Padded(req));
    SearchTakes(b, h, i, startedBet, Region(answer, Padded(req)), Padded(req));
    hide Heap.Core, Taker, Major.Takes, Major.NoGap, Search;
  }

  lemma SearchFound(b: Heap, h: Heap, h': Heap, i: nat, startedBet: bool, added: bool, answer: Answer, req: nat, p: nat)
    requires Search(b, h, i, startedBet, added, Region(answer, Padded(req)), Padded(req))
    requires Placed(h, h', i, p, req) && !h.majors[i].NoGap(Padded(req) + HEADER)
    requires h.majors[i].Takes(Padded(req) + HEADER)
    ensures h'.Valid() && Gained(b, h', p, req)
    ensures Served(b, req, answer) && PlacedBy(b, h'.majors, req, answer, p)
  {
    hide Heap.Core, Taker, Rest, Major.Takes, Major.NoGap, PutIn, Heap.Live, Offered, Served, PlacedBy;
    FoundIn(b, h, h', i, startedBet, added, answer, req, p);
    forall j: nat | j < |h'.majors| ensures h'.majors[j].minors != [] {
      assert j != i ==> h'.majors[j] == h.majors[j];
    }
  }

  lemma FoundIn(b: Heap, h: Heap, h': Heap, i: nat, startedBet: bool, added: bool, answer: Answer, req: nat, p: nat)
    requires Search(b, h, i, startedBet, added, Region(answer, Padded(req)), Padded(req))
    requires Placed(h, h', i, p, req) && !h.majors[i].NoGap(Padded(req) + HEADER)
    requires h.majors[i].Takes(Padded(req) + HEADER)
    ensures Served(b, req, answer) && PlacedBy(b, h'.majors, req, answer, p)
  {
    hide Served, PlacedBy, PutIn, Major.NoGap, Major.Takes, Taker;
    if added {
      InNewMajor(b, h, h', answer, req, p);
    } else {
      SearchTakes(b, h, i, startedBet, Region(answer, Padded(req)), Padded(req));
      InOldMajor(b, h, h', i, answer, req, p);
    }
  }

  lemma InNewMajor(b: Heap, h: Heap, h': Heap, answer: Answer, req: nat, p: nat)
    requires Region(answer, Padded(req)).Some? && Taker(b, Padded(req)).None?
    requires h.majors == b.majors + [NewMajor(answer.at, Padded(req))] && |h'.majors| == |h.majors|
    requires forall j: nat :: j < |b.majors| ==> h'.majors[j] == h.majors[j]
    requires PutIn(h.majors[|b.majors|], h'.majors[|b.majors|], req, p)
    ensures Served(b, req, answer) && PlacedBy(b, h'.majors, req, answer, p)
  {
    hide Taker, PutIn, NewMajor;
    assert h'.majors[..|b.majors|] == b.majors;
  }

  lemma InOldMajor(b: Heap, h: Heap, h': Heap, i: nat, answer: Answer, req: nat, p: nat)
    requires Taker(b, Padded(req)) == Some(i) && h.majors == b.majors && |h'.majors| == |h.majors| && i < |h.majors|
    requires forall j: nat :: j < |h.majors| && j != i ==> h'.majors[j] == h.majors[j]
    requires PutIn(h.majors[i], h'.majors[i], req, p) && !h.majors[i].NoGap(Padded(req) + HEADER)
    ensures Served(b, req, answer) && PlacedBy(b, h'.majors, req, answer, p)
  {
    hide Taker, PutIn, Major.NoGap;
    assert h'.majors == h.majors[i := h'.majors[i]];
  }

  ghost predicate SameBlocks(h: Heap, h': Heap) {
    forall q: nat, r: nat :: h'.Live(q, r) <==> h.Live(q, r)
  }

  lemma NewMajorValid(at: nat, size: nat)
    requires size + HEADER + HEADER < WORD_32
    ensures NewMajor(at, size).Valid() && NewMajor(at, size).Gap(0, size + HEADER)
    ensures size + HEADER <= NewMajor(at, size).Unused()
  {
    NewRegionHoldsIff(size);
    WrappedDifference(NewMajor(at, size).Mapped(), HEADER);
  }

  lemma BestBetListed(h: Heap)
    requires h.Core() && h.bestBet.Some?
    ensures exists i: nat :: i < |h.majors| && h.majors[i].at == h.bestBet.value
  {}

  lemma BestBetCore(h: Heap, i: nat)
    requires h.Core() && i < |h.majors|
    ensures h.(bestBet := Some(h.majors[i].at)).Core()
    ensures SameBlocks(h, h.(bestBet := Some(h.majors[i].at)))
  {
    forall q: nat, r: nat {
      SameLive(h, h.(bestBet := Some(h.majors[i].at)), q, r);
    }
  }

  lemma FreshMajorFits(h: Heap, i: nat, at: nat, size: nat)
    requires i < |h.majors| && h.majors[i] == NewMajor(at, size) && size + HEADER + HEADER < WORD_32
    ensures h.majors[i].Gap(0, size + HEADER) && h.majors[i].Takes(size + HEADER)
    ensures !h.majors[i].NoGap(size + HEADER) && size + HEADER <= h.majors[i].Unused()
  {
    NewMajorValid(at, size);
    EmptyTakes(h.majors[i], size + HEADER);
  }

  /** Pointer p is new and is now live for req bytes; all other live blocks are what they were. */
  ghost predicate Gained(h: Heap, h': Heap, p: nat, req: nat) {
    && p % ALIGNMENT == 0
    && (forall r: nat :: !h.Live(p, r))
    && (forall q: nat, r: nat :: h'.Live(q, r) <==> h.Live(q, r) || (q == p && r == req))
  }

  /** What placing a block in major i does. */
  ghost predicate Placed(h: Heap, h': Heap, i: nat, p: nat, req: nat) {
    && h'.Core() && Gained(h, h', p, req)
    && |h'.majors| == |h.majors| && h'.bestBet == h.bestBet && h'.mapped == h.mapped
    && (forall j: nat :: j < |h.majors| && j != i ==> h'.majors[j] == h.majors[j])
    && i < |h.majors| && h'.majors[i].minors != [] && PutIn(h.majors[i], h'.majors[i], req, p)
  }
}
