/** The majors and minors of runtime/core/liballoc.c, and the heap they make up. */
module LiballocHeap {
  import opened Common

  const ALIGNMENT: nat := 16
  const ALIGN_INFO: nat := 16

  /** sizeof(struct liballoc_major) and sizeof(struct liballoc_minor). */
  const HEADER: nat := 40

  const PAGE: nat := 4096
  const PAGE_COUNT: nat := 16
  const MAX_PAGES: nat := 0x10_0000
  const WORD_32: nat := 0x1_0000_0000
  const WORD_64: nat := 0x1_0000_0000_0000_0000

  // ------------------------------------------------------------------ alignment

  /** ALIGN: the pointer handed out for raw pointer p, and the distance stored in front of it. */
  function Align(p: nat): (r: (nat, nat))
    ensures r.0 % ALIGNMENT == 0 && r.0 == p + r.1 && ALIGN_INFO <= r.1 < ALIGN_INFO + ALIGNMENT
  {
    var diff := (p + ALIGN_INFO) % ALIGNMENT;
    if diff != 0 then (p + ALIGN_INFO + (ALIGNMENT - diff), ALIGNMENT - diff + ALIGN_INFO)
    else (p + ALIGN_INFO, ALIGN_INFO)
  }

  /** UNALIGN, given the distance it reads in front of ptr. */
  function Unalign(ptr: nat, diff: nat): nat
    requires diff <= ptr
  {
    if diff < ALIGNMENT + ALIGN_INFO then ptr - diff else ptr
  }

  /** UNALIGN undoes ALIGN, and the 32 bytes added to a request make room for both the distance and the
      requested bytes. */
  lemma AlignRoundTrip(p: nat, req: nat)
    ensures var (ptr, diff) := Align(p);
            && Unalign(ptr, diff) == p
            && p <= ptr - ALIGN_INFO && ptr + req <= p + req + ALIGNMENT + ALIGN_INFO
  {}

  // ------------------------------------------------------------------ one major

  /** A minor: its header is at `at`; `size` bytes follow, of which `req` were asked for. */
  datatype Minor = Minor(at: nat, size: nat, req: nat) {
    function End(): nat { at + HEADER + size }

    /** The pointer malloc returned for it. */
    function Pointer(): nat { Align(at + HEADER).0 }
  }

  /** A region acquired from the system, with its minors in list order. `size` and `usage` are the 32-bit
      fields; the region has `pages` pages. */
  datatype Major = Major(at: nat, pages: nat, size: nat, usage: nat, minors: seq<Minor>) {

    /** The bytes of the region. */
    function Mapped(): nat { pages * PAGE }

    /** The gap before minor k, or after the last minor, is [Lo(k), Hi(k)). */
    function Lo(k: nat): nat
      requires k <= |minors|
    {
      if k == 0 then at + HEADER else minors[k - 1].End()
    }

    function Hi(k: nat): nat
      requires k <= |minors|
    {
      if k == |minors| then at + Mapped() else minors[k].at
    }

    /** The minors are sorted by address, disjoint, and inside the region. */
    ghost predicate Laid() {
      forall k: nat :: k <= |minors| ==> Lo(k) <= Hi(k)
    }

    /** The recorded size is that of the region but for wrapping around: at 4 GB it is zero. */
    predicate Recorded() {
      pages <= MAX_PAGES && size == Mapped() % WORD_32
    }

    /** So is the recorded usage that of the minors. */
    predicate Counted() {
      usage == (HEADER + Used(minors)) % WORD_32
    }

    predicate Ordinary() {
      size == Mapped()
    }

    ghost predicate Valid() {
      && Laid() && Counted() && Recorded()
      && forall k: nat :: k < |minors| ==> minors[k].req + ALIGNMENT + ALIGN_INFO <= minors[k].size
    }

    /** What the counters say is free, in 32-bit arithmetic. */
    function Unused(): nat { (size - usage) % WORD_32 }

    predicate Gap(k: nat, space: nat)
      requires k <= |minors|
    {
      Lo(k) + space <= Hi(k)
    }

    ghost predicate NoGap(space: nat) {
      forall k: nat :: k <= |minors| ==> !Gap(k, space)
    }

    /** Cases 2 to 4: malloc takes gap k. An empty major is not asked; behind the last minor the space is
        computed from the recorded size, in 64-bit arithmetic. */
    predicate Seems(k: nat, space: nat)
      requires k <= |minors|
    {
      if k < |minors| then Gap(k, space)
      else k == 0 || (at + size - Lo(k)) % WORD_64 >= space
    }

    ghost predicate IsFirst(k: nat, space: nat) {
      k <= |minors| && Seems(k, space) && forall j: nat :: j < k ==> !Seems(j, space)
    }

    /** malloc puts a block that needs `space` bytes into this major. */
    ghost predicate Takes(space: nat) {
      space <= Unused() && exists k: nat :: k <= |minors| && Seems(k, space)
    }

    function Inserted(k: nat, m: Minor): Major
      requires k <= |minors|
    {
      this.(minors := minors[..k] + [m] + minors[k..], usage := (usage + m.size + HEADER) % WORD_32)
    }

    /** Minor k unlinked. */
    function Removed(k: nat): Major
      requires k < |minors|
    {
      this.(minors := minors[..k] + minors[k + 1..], usage := (usage - (minors[k].size + HEADER)) % WORD_32)
    }
  }

  /** The bytes taken by the minors, headers included. */
  function Used(minors: seq<Minor>): nat {
    if minors == [] then 0 else Used(minors[..|minors| - 1]) + minors[|minors| - 1].size + HEADER
  }

  /** The bytes handed out. */
  function InUse(minors: seq<Minor>): nat {
    if minors == [] then 0 else InUse(minors[..|minors| - 1]) + minors[|minors| - 1].size
  }

  lemma {:induction false} SumsSplit(a: seq<Minor>, b: seq<Minor>)
    ensures Used(a + b) == Used(a) + Used(b) && InUse(a + b) == InUse(a) + InUse(b)
  {
    if b == [] {
      assert a + b == a;
    } else {
      var n := |b| - 1;
      SumsSplit(a, b[..n]);
      assert (a + b)[..|a + b| - 1] == a + b[..n];
    }
  }

  lemma SumsInsert(minors: seq<Minor>, k: nat, m: Minor)
    requires k <= |minors|
    ensures Used(minors[..k] + [m] + minors[k..]) == Used(minors) + m.size + HEADER
    ensures InUse(minors[..k] + [m] + minors[k..]) == InUse(minors) + m.size
  {
    SumsSplit(minors[..k], minors[k..]);
    SumsSplit(minors[..k], [m]);
    SumsSplit(minors[..k] + [m], minors[k..]);
    assert minors == minors[..k] + minors[k..];
    assert Used([m]) == Used([]) + m.size + HEADER && InUse([m]) == InUse([]) + m.size by { assert [m][..0] == []; }
  }

  lemma {:induction false} SpanCoversUse(M: Major, i: nat, j: nat)
    requires M.Laid() && i <= j <= |M.minors|
    ensures M.Lo(i) + Used(M.minors[i..j]) <= M.Lo(j)
    decreases j - i
  {
    if i < j {
      SpanCoversUse(M, i, j - 1);
      assert M.minors[i..j][..j - i - 1] == M.minors[i..j - 1];
      assert M.Lo(j - 1) <= M.Hi(j - 1);
    }
  }

  lemma UsedAround(minors: seq<Minor>, k: nat)
    requires k <= |minors|
    ensures Used(minors) ==
            Used(minors[..k]) + if k < |minors| then minors[k].size + HEADER + Used(minors[k + 1..]) else 0
  {
    hide Used, InUse;
    if k < |minors| {
      SumsInsert(minors[..k] + minors[k + 1..], k, minors[k]);
      SumsSplit(minors[..k], minors[k + 1..]);
      var rest := minors[..k] + minors[k + 1..];
      assert rest[..k] + [minors[k]] + rest[k..] == minors;
    } else {
      assert minors[..k] == minors;
    }
  }

  lemma Slices(minors: seq<Minor>, k: nat)
    requires k <= |minors|
    ensures minors[0..k] == minors[..k] && minors[k..|minors|] == minors[k..]
  {}

  /** Before anything wraps around, no gap is larger than what the minors leave free. */
  lemma GapWithinRegion(M: Major, k: nat)
    requires M.Valid() && k <= |M.minors|
    ensures HEADER + Used(M.minors) <= M.Mapped()
    ensures M.Lo(k) <= M.Hi(k) && M.Hi(k) - M.Lo(k) <= M.Mapped() - HEADER - Used(M.minors)
  {
    var n := |M.minors|;
    SpanCoversUse(M, 0, k);
    UsedAround(M.minors, k);
    Slices(M.minors, k);
    if k < n {
      SpanCoversUse(M, k + 1, n);
      Slices(M.minors, k + 1);
    }
    hide Used, Major.Recorded;
    assert M.Lo(k) <= M.Hi(k) && M.Lo(n) <= M.Hi(n);
  }

  /** The 32-bit difference of the counters is exactly what is free, whatever wrapped around in them. So no
      gap exceeds it, and skipping a major on its counters alone misses none. */
  lemma GapWithinFree(M: Major, k: nat)
    requires M.Valid() && k <= |M.minors|
    ensures M.Unused() == M.Mapped() - HEADER - Used(M.minors)
    ensures M.Lo(k) <= M.Hi(k) && M.Hi(k) - M.Lo(k) <= M.Unused()
  {
    GapWithinRegion(M, k);
    hide Used;
    WrappedDifference(M.Mapped(), HEADER + Used(M.minors));
  }

  lemma WrappedDifference(x: nat, y: nat)
    requires 0 < y <= x <= WORD_32
    ensures (x % WORD_32 - y % WORD_32) % WORD_32 == x - y
  {}

  /** In an ordinary major what malloc takes is a gap; in one of 4 GB it takes the end whether it fits or
      not. */
  lemma SeemsIff(M: Major, k: nat, space: nat)
    requires M.Valid() && M.minors != [] && k <= |M.minors| && space <= M.Unused()
    ensures M.Seems(k, space) <==> M.Gap(k, space) || (k == |M.minors| && !M.Ordinary())
  {
    GapWithinFree(M, k);
    SpanCoversUse(M, 0, k);
    UsedPositive(M.minors[0..k]);
    hide Used, Major.Counted, Major.Laid;
    if k == |M.minors| {
      EndSpace(M.at, M.Mapped(), M.size, M.Lo(k), space);
    }
  }

  lemma UsedPositive(minors: seq<Minor>)
    ensures Used(minors) > 0 <==> minors != []
  {}

  /** The space behind the last minor, computed from the recorded size. */
  lemma EndSpace(at: nat, mapped: nat, size: nat, lo: nat, space: nat)
    requires at < lo <= at + mapped && mapped <= WORD_32 && size == mapped % WORD_32 && space < WORD_32
    ensures (at + size - lo) % WORD_64 >= space <==> lo + space <= at + mapped || size != mapped
  {}

  /** So the first place malloc takes is a gap if there is one at all. */
  lemma FirstIsGapIff(M: Major, k: nat, space: nat)
    requires M.Valid() && M.minors != [] && space <= M.Unused() && M.IsFirst(k, space)
    ensures M.Gap(k, space) <==> !M.NoGap(space)
  {
    hide Major.Valid, Major.Seems, Major.Gap, Major.Unused, Major.Ordinary;
    if !M.NoGap(space) {
      var j: nat :| j <= |M.minors| && M.Gap(j, space);
      SeemsIff(M, j, space);
      SeemsIff(M, k, space);
    }
  }

  predicate SamePlace(M: Major, N: Major) {
    M.at == N.at && M.pages == N.pages && M.size == N.size
  }

  lemma RecordedSame(M: Major, N: Major)
    requires SamePlace(M, N)
    ensures M.Recorded() <==> N.Recorded()
  {}

  lemma CountedMore(M: Major, N: Major, more: int)
    requires M.Counted() && Used(N.minors) == Used(M.minors) + more && N.usage == (M.usage + more) % WORD_32
    ensures N.Counted()
  {
    WrappedSum(M.usage, HEADER + Used(M.minors), more);
  }

  lemma WrappedSum(usage: nat, used: nat, more: int)
    requires usage == used % WORD_32
    ensures (usage + more) % WORD_32 == (used + more) % WORD_32
  {}

  lemma InsertSafe(M: Major, k: nat, m: Minor)
    requires M.Valid() && k <= |M.minors| && M.Gap(k, m.size + HEADER) && m.at == M.Lo(k)
    requires m.req + ALIGNMENT + ALIGN_INFO <= m.size
    ensures M.Inserted(k, m).Valid()
  {
    var N := M.Inserted(k, m);
    SumsInsert(M.minors, k, m);
    CountedMore(M, N, m.size + HEADER);
    RecordedSame(M, N);
    hide Used, Major.Recorded, Major.Counted;
    forall i: nat | i <= |N.minors| ensures N.Lo(i) <= N.Hi(i) {
      if i <= k { assert M.Lo(i) <= M.Hi(i); } else { assert M.Lo(i - 1) <= M.Hi(i - 1); }
    }
  }

  lemma RemoveSafe(M: Major, k: nat)
    requires M.Valid() && k < |M.minors|
    ensures M.Removed(k).Valid()
    ensures InUse(M.Removed(k).minors) + M.minors[k].size == InUse(M.minors)
  {
    hide Used, InUse, Major.Recorded, Major.Counted;
    var rest := M.minors[..k] + M.minors[k + 1..];
    SumsInsert(rest, k, M.minors[k]);
    assert rest[..k] + [M.minors[k]] + rest[k..] == M.minors;
    var N := M.Removed(k);
    CountedMore(M, N, -(M.minors[k].size + HEADER));
    RecordedSame(M, N);
    forall i: nat | i <= |N.minors| ensures N.Lo(i) <= N.Hi(i) {
      assert M.Lo(k) <= M.Hi(k) && M.Lo(k + 1) <= M.Hi(k + 1);
      if i < k { assert M.Lo(i) <= M.Hi(i); } else { assert M.Lo(i + 1) <= M.Hi(i + 1); }
    }
  }

  /** Two minors of a major do not overlap, and both lie behind its header and inside it. */
  lemma {:induction false} MinorsApart(M: Major, i: nat, j: nat)
    requires M.Valid() && i < j <= |M.minors|
    ensures M.at + HEADER <= M.minors[i].at && M.minors[i].End() <= M.Hi(j) <= M.at + M.Mapped()
    decreases |M.minors| - i, j - i
  {
    SpanCoversUse(M, 0, i);
    SpanCoversUse(M, i + 1, j);
    assert M.Lo(i) <= M.Hi(i) && M.Lo(j) <= M.Hi(j);
    if j < |M.minors| {
      MinorsApart(M, j, |M.minors|);
    }
  }

  // ------------------------------------------------------------------ new majors

  /** The pages allocate_new_page asks for, in 32-bit arithmetic. */
  function PagesAsked(size: nat): nat {
    var st := (size % WORD_32 + HEADER + HEADER) % WORD_32;
    var pages := if st % PAGE == 0 then st / PAGE else st / PAGE + 1;
    if pages < PAGE_COUNT then PAGE_COUNT else pages
  }

  /** What allocate_new_page makes of the region at `at`. */
  function NewMajor(at: nat, size: nat): Major {
    Major(at, PagesAsked(size), PagesAsked(size) * PAGE % WORD_32, HEADER, [])
  }

  const MAX_SIZE: nat := WORD_32 - PAGE - HEADER - HEADER

  /** The region holds the request it is made for exactly when both headers and the request stay below
      4 GB. */
  lemma NewRegionHoldsIff(size: nat)
    ensures HEADER + HEADER + size <= PagesAsked(size) * PAGE <==> size + HEADER + HEADER < WORD_32
    ensures PAGE_COUNT <= PagesAsked(size) <= MAX_PAGES
  {
    if size + HEADER + HEADER < WORD_32 {
      var st := size + HEADER + HEADER;
      assert size % WORD_32 == size && st % WORD_32 == st;
    }
  }

  /** Its recorded size does so up to a page less. */
  lemma NewPageFitsIff(size: nat)
    ensures HEADER + HEADER + size <= NewMajor(0, size).size <==> size <= MAX_SIZE
    ensures MAX_SIZE < size && size + HEADER + HEADER < WORD_32 ==>
              NewMajor(0, size).size == 0 && PagesAsked(size) == MAX_PAGES
  {
    NewRegionHoldsIff(size);
    if size + HEADER + HEADER < WORD_32 {
      var st := size + HEADER + HEADER;
      assert size % WORD_32 == size && st % WORD_32 == st;
      if size > MAX_SIZE {
        assert st / PAGE == MAX_PAGES - 1 && st % PAGE != 0;
      }
    }
  }

  /** Between the two limits the block is good all the same: it lies in the region of 4 GB, with the major's
      recorded size zero and its recorded usage more than that. */
  lemma GoodBeyondRecorded(at: nat, size: nat, req: nat)
    requires MAX_SIZE < size && size + HEADER + HEADER < WORD_32 && req + ALIGNMENT + ALIGN_INFO <= size
    ensures var M := NewMajor(at, size).Inserted(0, Minor(at + HEADER, size, req));
            M.Valid() && M.size == 0 < M.usage && M.minors[0].End() <= M.at + M.Mapped()
  {
    NewRegionHoldsIff(size);
    NewPageFitsIff(size);
    var m, N := Minor(at + HEADER, size, req), NewMajor(at, size);
    assert N.Valid() && N.Gap(0, size + HEADER);
    InsertSafe(N, 0, m);
    assert N.usage + size + HEADER == size + HEADER + HEADER;
  }

  /** A request that is too large for a new region is not put into any other major either. */
  lemma NotTakenBeyond(M: Major, size: nat)
    requires M.Valid() && M.minors != [] && size + HEADER + HEADER >= WORD_32
    ensures !M.Takes(size + HEADER)
  {
    GapWithinFree(M, 0);
    assert Used(M.minors) >= HEADER;
  }

  // ------------------------------------------------------------------ the heap

  function TotalSize(majors: seq<Major>): nat {
    if majors == [] then 0 else TotalSize(majors[..|majors| - 1]) + majors[|majors| - 1].size
  }

  function TotalInUse(majors: seq<Major>): nat {
    if majors == [] then 0 else TotalInUse(majors[..|majors| - 1]) + InUse(majors[|majors| - 1].minors)
  }

  predicate Apart(M: Major, N: Major) {
    M.at + M.Mapped() <= N.at || N.at + N.Mapped() <= M.at
  }

  /** The list of majors from l_memRoot on, l_bestBet by its address, l_inuse and l_allocated. */
  datatype Heap = Heap(majors: seq<Major>, bestBet: Option<nat>, inuse: int, mapped: int) {

    ghost predicate Core() {
      && (forall i: nat :: i < |majors| ==> majors[i].Valid())
      && (forall i: nat, j: nat :: i < j < |majors| ==> Apart(majors[i], majors[j]))
      && (bestBet.Some? ==> exists i: nat :: i < |majors| && majors[i].at == bestBet.value)
      && inuse == TotalInUse(majors) && mapped == TotalSize(majors)
    }

    /** Between calls no major is empty. */
    ghost predicate Valid() {
      Core() && forall i: nat :: i < |majors| ==> majors[i].minors != []
    }

    /** Pointer p was handed out for req bytes and not freed since. */
    ghost predicate Live(p: nat, req: nat) {
      exists i: nat, k: nat :: IsMinor(i, k, p, req)
    }

    predicate IsMinor(i: nat, k: nat, p: nat, req: nat) {
      && i < |majors| && k < |majors[i].minors|
      && majors[i].minors[k].Pointer() == p && majors[i].minors[k].req == req
    }

    function Insert(i: nat, k: nat, m: Minor): Heap
      requires i < |majors| && k <= |majors[i].minors|
    {
      this.(majors := majors[i := majors[i].Inserted(k, m)], inuse := inuse + m.size)
    }

    function Remove(i: nat, k: nat): Heap
      requires i < |majors| && k < |majors[i].minors|
    {
      this.(majors := majors[i := majors[i].Removed(k)], inuse := inuse - majors[i].minors[k].size)
    }

    function SetReq(i: nat, k: nat, req: nat): Heap
      requires i < |majors| && k < |majors[i].minors|
    {
      this.(majors := majors[i := majors[i].(minors := majors[i].minors[k := majors[i].minors[k].(req := req)])])
    }

    function Append(M: Major): Heap {
      this.(majors := majors + [M], mapped := mapped + M.size)
    }

    /** Unlinking major i; the best bet is forgotten if it was this one. */
    function Unlink(i: nat): Heap
      requires i < |majors|
    {
      Heap(majors[..i] + majors[i + 1..],
           if bestBet == Some(majors[i].at) then None else bestBet,
           inuse,
           mapped - majors[i].size)
    }
  }

  lemma {:induction false} TotalsUpdate(majors: seq<Major>, i: nat, M: Major)
    requires i < |majors|
    ensures TotalInUse(majors[i := M]) - InUse(M.minors) == TotalInUse(majors) - InUse(majors[i].minors)
    ensures TotalSize(majors[i := M]) - M.size == TotalSize(majors) - majors[i].size
  {
    var n := |majors| - 1;
    if i < n {
      TotalsUpdate(majors[..n], i, M);
      assert majors[i := M][..n] == majors[..n][i := M];
    } else {
      assert majors[i := M][..n] == majors[..n];
    }
  }

  lemma {:induction false} TotalsRemove(majors: seq<Major>, i: nat)
    requires i < |majors|
    ensures var rest := majors[..i] + majors[i + 1..];
            TotalInUse(rest) == TotalInUse(majors) - InUse(majors[i].minors)
              && TotalSize(rest) == TotalSize(majors) - majors[i].size
  {
    hide InUse;
    var n := |majors| - 1;
    var rest, front := majors[..i] + majors[i + 1..], majors[..n];
    if i < n {
      TotalsRemove(front, i);
      var rest' := front[..i] + front[i + 1..];
      assert rest == rest' + [majors[n]];
      assert rest[..n - 1] == rest';
    } else {
      assert rest == front;
    }
  }

  // ------------------------------------------------------------------ pointers of a heap

  /** A minor's pointer and requested bytes lie in its own payload, and two minors of the heap share no
      byte. So no two live blocks overlap, and a pointer names one minor. */
  lemma BlocksApart(h: Heap, i: nat, k: nat, j: nat, l: nat)
    requires h.Core() && i < |h.majors| && k < |h.majors[i].minors| && j < |h.majors| && l < |h.majors[j].minors|
    requires (i, k) != (j, l)
    ensures var m, n := h.majors[i].minors[k], h.majors[j].minors[l];
            (m.End() <= n.at || n.End() <= m.at) && m.Pointer() != n.Pointer()
            && (m.Pointer() + m.req <= n.Pointer() || n.Pointer() + n.req <= m.Pointer())
  {
    var M, N := h.majors[i], h.majors[j];
    PointerInside(h, i, k);
    PointerInside(h, j, l);
    if i == j {
      if k < l { MinorsApart(M, k, l); } else { MinorsApart(M, l, k); }
    } else if i < j {
      assert Apart(M, N);
    } else {
      assert Apart(N, M);
    }
  }

  /** So no two live blocks share a byte, and every one starts on a 16-byte boundary. */
  lemma LiveBlocksApart(h: Heap, p: nat, r: nat, q: nat, s: nat)
    requires h.Core() && h.Live(p, r) && h.Live(q, s)
    ensures p % ALIGNMENT == 0
    ensures if p == q then r == s else p + r <= q || q + s <= p
  {
    hide Heap.Core, Align;
    var i: nat, k: nat :| h.IsMinor(i, k, p, r);
    var j: nat, l: nat :| h.IsMinor(j, l, q, s);
    PointerInside(h, i, k);
    if (i, k) != (j, l) {
      BlocksApart(h, i, k, j, l);
    }
  }

  lemma PointerInside(h: Heap, i: nat, k: nat)
    requires h.Core() && i < |h.majors| && k < |h.majors[i].minors|
    ensures var M, m := h.majors[i], h.majors[i].minors[k];
            && M.at + HEADER <= m.at && m.End() <= M.at + M.Mapped() && m.Pointer() % ALIGNMENT == 0
            && m.at + HEADER + ALIGN_INFO <= m.Pointer() && m.Pointer() + m.req <= m.End()
  {
    MinorsApart(h.majors[i], k, |h.majors[i].minors|);
    AlignRoundTrip(h.majors[i].minors[k].at + HEADER, h.majors[i].minors[k].req);
  }

  /** Changing the minors of one major, and l_inuse along with them, keeps the heap in order. */
  lemma ReplaceCore(h: Heap, i: nat, M: Major)
    requires h.Core() && i < |h.majors| && M.Valid() && SamePlace(M, h.majors[i])
    ensures h.(majors := h.majors[i := M], inuse := h.inuse - InUse(h.majors[i].minors) + InUse(M.minors)).Core()
  {
    TotalsUpdate(h.majors, i, M);
    var majors := h.majors[i := M];
    forall a: nat, b: nat | a < b < |majors| ensures Apart(majors[a], majors[b]) {
      assert Apart(h.majors[a], h.majors[b]);
    }
    if h.bestBet.Some? {
      var b: nat :| b < |h.majors| && h.majors[b].at == h.bestBet.value;
      assert majors[b].at == h.bestBet.value;
    }
  }

  /** Where minor (a, b) is found after a minor is put in at (i, k), and where it was before. */
  function Shifted(i: nat, k: nat, a: nat, b: nat): nat {
    if a == i && b >= k then b + 1 else b
  }

  function Unshifted(i: nat, k: nat, a: nat, b: nat): nat {
    if a == i && b > k then b - 1 else b
  }

  lemma InsertOne(h: Heap, i: nat, k: nat, m: Minor, a: nat, b: nat, q: nat, r: nat)
    requires i < |h.majors| && k <= |h.majors[i].minors|
    ensures h.IsMinor(a, b, q, r) ==> h.Insert(i, k, m).IsMinor(a, Shifted(i, k, a, b), q, r)
    ensures h.Insert(i, k, m).IsMinor(a, b, q, r) && (a, b) != (i, k) ==> h.IsMinor(a, Unshifted(i, k, a, b), q, r)
    ensures h.Insert(i, k, m).IsMinor(i, k, q, r) <==> q == m.Pointer() && r == m.req
  {
    hide Align;
    var minors := h.majors[i].minors[..k] + [m] + h.majors[i].minors[k..];
    assert h.Insert(i, k, m).majors[i].minors == minors && minors[k] == m;
  }

  lemma InsertMoves(h: Heap, i: nat, k: nat, m: Minor, q: nat, r: nat)
    requires i < |h.majors| && k <= |h.majors[i].minors|
    ensures h.Insert(i, k, m).Live(q, r) <==> h.Live(q, r) || (q == m.Pointer() && r == m.req)
  {
    hide Align, Heap.Insert, Heap.IsMinor, Shifted, Unshifted;
    var h' := h.Insert(i, k, m);
    InsertOne(h, i, k, m, i, k, q, r);
    if h.Live(q, r) {
      var a: nat, b: nat :| h.IsMinor(a, b, q, r);
      InsertOne(h, i, k, m, a, b, q, r);
    }
    if h'.Live(q, r) {
      var a: nat, b: nat :| h'.IsMinor(a, b, q, r);
      InsertOne(h, i, k, m, a, b, q, r);
    }
  }

  lemma OnePointer(h: Heap, i: nat, k: nat, j: nat, l: nat, q: nat, r: nat, r': nat)
    requires h.Core() && h.IsMinor(i, k, q, r) && h.IsMinor(j, l, q, r')
    ensures (i, k) == (j, l)
  {
    if (i, k) != (j, l) {
      BlocksApart(h, i, k, j, l);
    }
  }

  lemma InsertCore(h: Heap, i: nat, k: nat, m: Minor)
    requires h.Core() && i < |h.majors| && k <= |h.majors[i].minors|
    requires h.majors[i].Gap(k, m.size + HEADER) && m.at == h.majors[i].Lo(k)
             && m.req + ALIGNMENT + ALIGN_INFO <= m.size
    ensures h.Insert(i, k, m).Core()
  {
    var M := h.majors[i];
    InsertSafe(M, k, m);
    SumsInsert(M.minors, k, m);
    ReplaceCore(h, i, M.Inserted(k, m));
  }

  /** The new block is the one live block more, and its pointer was not live before. */
  lemma InsertKeeps(h: Heap, i: nat, k: nat, m: Minor)
    requires h.Core() && i < |h.majors| && k <= |h.majors[i].minors|
    requires h.majors[i].Gap(k, m.size + HEADER) && m.at == h.majors[i].Lo(k)
             && m.req + ALIGNMENT + ALIGN_INFO <= m.size
    ensures h.Insert(i, k, m).Core()
    ensures forall q: nat, r: nat :: h.Insert(i, k, m).Live(q, r) <==> h.Live(q, r) || (q == m.Pointer() && r == m.req)
    ensures forall r: nat :: !h.Live(m.Pointer(), r)
  {
    InsertCore(h, i, k, m);
    hide Heap.Core, Heap.Insert, Heap.IsMinor, Heap.Live, Align;
    var h', p := h.Insert(i, k, m), m.Pointer();
    forall q: nat, r: nat ensures h'.Live(q, r) <==> h.Live(q, r) || (q == p && r == m.req) {
      InsertMoves(h, i, k, m, q, r);
    }
    forall r: nat ensures !h.Live(p, r) {
      if h.Live(p, r) {
        NotLive(h, i, k, m, r);
      }
    }
  }

  lemma NotLive(h: Heap, i: nat, k: nat, m: Minor, r: nat)
    requires i < |h.majors| && k <= |h.majors[i].minors| && h.Insert(i, k, m).Core()
    ensures !h.Live(m.Pointer(), r)
  {
    hide Heap.Core, Heap.Insert, Heap.IsMinor, Align;
    if h.Live(m.Pointer(), r) {
      var a: nat, b: nat :| h.IsMinor(a, b, m.Pointer(), r);
      InsertOne(h, i, k, m, a, b, m.Pointer(), r);
      InsertOne(h, i, k, m, i, k, m.Pointer(), m.req);
      OnePointer(h.Insert(i, k, m), i, k, a, Shifted(i, k, a, b), m.Pointer(), m.req, r);
    }
  }

  lemma RemoveUndone(h: Heap, i: nat, k: nat)
    requires h.Core() && i < |h.majors| && k < |h.majors[i].minors|
    ensures h.Remove(i, k).Insert(i, k, h.majors[i].minors[k]).majors == h.majors
  {
    var M := h.majors[i];
    var rest := M.minors[..k] + M.minors[k + 1..];
    assert rest[..k] + [M.minors[k]] + rest[k..] == M.minors;
    assert M.Removed(k).Inserted(k, M.minors[k]) == M;
  }

  lemma RemoveCore(h: Heap, i: nat, k: nat)
    requires h.Core() && i < |h.majors| && k < |h.majors[i].minors|
    ensures h.Remove(i, k).Core() && h.Remove(i, k).Insert(i, k, h.majors[i].minors[k]).majors == h.majors
  {
    hide Used, InUse, Major.Laid;
    RemoveSafe(h.majors[i], k);
    RemoveUndone(h, i, k);
    ReplaceCore(h, i, h.majors[i].Removed(k));
  }

  /** Freeing one block leaves all others live, and that one not. */
  lemma RemoveKeeps(h: Heap, i: nat, k: nat)
    requires h.Core() && i < |h.majors| && k < |h.majors[i].minors|
    ensures h.Remove(i, k).Core()
    ensures forall q: nat, r: nat :: h.Remove(i, k).Live(q, r) <==> h.Live(q, r) && q != h.majors[i].minors[k].Pointer()
  {
    RemoveCore(h, i, k);
    var h', m := h.Remove(i, k), h.majors[i].minors[k];
    assert i < |h'.majors| && k <= |h'.majors[i].minors|;
    hide Heap.Core, Heap.Insert, Heap.Remove, Heap.IsMinor, Align;
    forall q: nat, r: nat ensures h'.Live(q, r) <==> h.Live(q, r) && q != m.Pointer() {
      InsertMoves(h', i, k, m, q, r);
      SameLive(h'.Insert(i, k, m), h, q, r);
      if h'.Live(q, r) && q == m.Pointer() {
        NotLive(h', i, k, m, r);
      }
    }
  }

  lemma SameLive(g: Heap, h: Heap, q: nat, r: nat)
    requires g.majors == h.majors
    ensures g.Live(q, r) <==> h.Live(q, r)
  {
    if g.Live(q, r) {
      var a: nat, b: nat :| g.IsMinor(a, b, q, r);
      assert h.IsMinor(a, b, q, r);
    }
    if h.Live(q, r) {
      var a: nat, b: nat :| h.IsMinor(a, b, q, r);
      assert g.IsMinor(a, b, q, r);
    }
  }

  lemma {:induction false} SameSizes(a: seq<Minor>, b: seq<Minor>)
    requires |a| == |b| && forall k: nat :: k < |a| ==> a[k].size == b[k].size
    ensures Used(a) == Used(b) && InUse(a) == InUse(b)
  {
    if a != [] {
      SameSizes(a[..|a| - 1], b[..|b| - 1]);
    }
  }

  lemma SetReqCore(h: Heap, i: nat, k: nat, req: nat)
    requires h.Core() && i < |h.majors| && k < |h.majors[i].minors| && req <= h.majors[i].minors[k].req
    ensures h.SetReq(i, k, req).Core()
  {
    var M := h.majors[i];
    var N := M.(minors := M.minors[k := M.minors[k].(req := req)]);
    SameSizes(M.minors, N.minors);
    CountedMore(M, N, 0);
    RecordedSame(M, N);
    hide Used, InUse, Major.Recorded, Major.Counted;
    forall j: nat | j <= |N.minors| ensures N.Lo(j) <= N.Hi(j) {
      assert M.Lo(j) <= M.Hi(j);
    }
    ReplaceCore(h, i, N);
  }

  /** Shrinking in place changes the requested size of one block and nothing else. */
  lemma SetReqKeeps(h: Heap, i: nat, k: nat, req: nat)
    requires h.Core() && i < |h.majors| && k < |h.majors[i].minors| && req <= h.majors[i].minors[k].req
    ensures h.SetReq(i, k, req).Core()
    ensures forall q: nat, r: nat :: h.SetReq(i, k, req).Live(q, r) <==>
              if q == h.majors[i].minors[k].Pointer() then r == req else h.Live(q, r)
  {
    SetReqCore(h, i, k, req);
    var h', p := h.SetReq(i, k, req), h.majors[i].minors[k].Pointer();
    assert h.IsMinor(i, k, p, h.majors[i].minors[k].req);
    hide Heap.Core, Heap.SetReq, Heap.IsMinor, Align;
    forall q: nat, r: nat ensures h'.Live(q, r) <==> if q == p then r == req else h.Live(q, r) {
      SetReqOne(h, i, k, req, i, k, q, r);
      if h.Live(q, r) {
        var a: nat, b: nat :| h.IsMinor(a, b, q, r);
        SetReqOne(h, i, k, req, a, b, q, r);
      }
      if h'.Live(q, r) {
        var a: nat, b: nat :| h'.IsMinor(a, b, q, r);
        SetReqOne(h, i, k, req, a, b, q, r);
        if (a, b) != (i, k) && q == p {
          OnePointer(h, i, k, a, b, q, h.majors[i].minors[k].req, r);
        }
      }
    }
  }

  lemma SetReqOne(h: Heap, i: nat, k: nat, req: nat, a: nat, b: nat, q: nat, r: nat)
    requires i < |h.majors| && k < |h.majors[i].minors|
    ensures (a, b) != (i, k) ==> (h.SetReq(i, k, req).IsMinor(a, b, q, r) <==> h.IsMinor(a, b, q, r))
    ensures h.SetReq(i, k, req).IsMinor(i, k, q, r) <==> q == h.majors[i].minors[k].Pointer() && r == req
    ensures h.IsMinor(i, k, q, r) ==> q == h.majors[i].minors[k].Pointer()
  {
    hide Align;
  }

  lemma AppendKeeps(h: Heap, M: Major)
    requires h.Core() && M.Valid() && M.minors == [] && forall i: nat :: i < |h.majors| ==> Apart(h.majors[i], M)
    ensures h.Append(M).Core()
    ensures forall q: nat, r: nat :: h.Append(M).Live(q, r) <==> h.Live(q, r)
  {
    var h' := h.Append(M);
    assert h'.majors[..|h.majors|] == h.majors;
    assert h'.Core() by {
      if h.bestBet.Some? {
        var b: nat :| b < |h.majors| && h.majors[b].at == h.bestBet.value;
        assert h'.majors[b].at == h.bestBet.value;
      }
    }
    hide Heap.Core, Align;
    forall q: nat, r: nat ensures h'.Live(q, r) <==> h.Live(q, r) {
      if h.Live(q, r) {
        var a: nat, b: nat :| h.IsMinor(a, b, q, r);
        assert h'.IsMinor(a, b, q, r);
      }
      if h'.Live(q, r) {
        var a: nat, b: nat :| h'.IsMinor(a, b, q, r);
        assert h.IsMinor(a, b, q, r);
      }
    }
  }

  lemma UnlinkApart(h: Heap, i: nat)
    requires h.Core() && i < |h.majors|
    ensures var majors := h.Unlink(i).majors;
            (forall a: nat :: a < |majors| ==> majors[a].Valid()) &&
            (forall a: nat, b: nat :: a < b < |majors| ==> Apart(majors[a], majors[b]))
  {
    hide Major.Valid, Apart;
    var h' := h.Unlink(i);
    forall a: nat, b: nat | a < b < |h'.majors| ensures Apart(h'.majors[a], h'.majors[b]) {
      assert Apart(h.majors[if a < i then a else a + 1], h.majors[if b < i then b else b + 1]);
    }
  }

  lemma UnlinkCore(h: Heap, i: nat)
    requires h.Core() && i < |h.majors| && h.majors[i].minors == []
    ensures h.Unlink(i).Core()
  {
    hide Major.Valid, Apart;
    var h' := h.Unlink(i);
    TotalsRemove(h.majors, i);
    UnlinkApart(h, i);
    if h'.bestBet.Some? {
      var b: nat :| b < |h.majors| && h.majors[b].at == h.bestBet.value;
      assert h'.majors[if b < i then b else b - 1].at == h.bestBet.value;
    }
  }

  lemma UnlinkKeeps(h: Heap, i: nat)
    requires h.Core() && i < |h.majors| && h.majors[i].minors == []
    ensures h.Unlink(i).Core()
    ensures forall q: nat, r: nat :: h.Unlink(i).Live(q, r) <==> h.Live(q, r)
  {
    UnlinkCore(h, i);
    hide Heap.Core, Heap.Unlink, Heap.IsMinor, Align;
    var h' := h.Unlink(i);
    forall q: nat, r: nat ensures h'.Live(q, r) <==> h.Live(q, r) {
      if h.Live(q, r) {
        var a: nat, b: nat :| h.IsMinor(a, b, q, r);
        UnlinkOne(h, i, a, b, q, r);
      }
      if h'.Live(q, r) {
        var a: nat, b: nat :| h'.IsMinor(a, b, q, r);
        UnlinkOne(h, i, a, b, q, r);
      }
    }
  }

  lemma UnlinkOne(h: Heap, i: nat, a: nat, b: nat, q: nat, r: nat)
    requires i < |h.majors| && h.majors[i].minors == []
    ensures h.IsMinor(a, b, q, r) && a < i ==> h.Unlink(i).IsMinor(a, b, q, r)
    ensures h.IsMinor(a, b, q, r) && a >= i ==> a > i && h.Unlink(i).IsMinor(a - 1, b, q, r)
    ensures h.Unlink(i).IsMinor(a, b, q, r) ==> h.IsMinor(if a < i then a else a + 1, b, q, r)
  {
    hide Align;
  }

  // ------------------------------------------------------------------ lookups by address

  function IndexOf(majors: seq<Major>, at: nat): (i: nat)
    requires exists i: nat :: i < |majors| && majors[i].at == at
    ensures i < |majors| && majors[i].at == at
  {
    if majors[0].at == at then 0
    else
      assert exists i: nat :: i < |majors[1..]| && majors[1..][i].at == at by {
        var i: nat :| i < |majors| && majors[i].at == at;
        assert majors[1..][i - 1].at == at;
      }
      IndexOf(majors[1..], at) + 1
  }

  function FindMinor(minors: seq<Minor>, ptr: nat): (k: Option<nat>)
    ensures k.Some? ==> k.value < |minors| && minors[k.value].Pointer() == ptr
    ensures k.None? ==> forall i: nat :: i < |minors| ==> minors[i].Pointer() != ptr
  {
    if minors == [] then None
    else if minors[|minors| - 1].Pointer() == ptr then Some(|minors| - 1)
    else FindMinor(minors[..|minors| - 1], ptr)
  }

  /** The live minor whose pointer is ptr, among the first n majors: where UNALIGN leads to a header
      with the right magic. */
  function Find(h: Heap, n: nat, ptr: nat): (found: Option<(nat, nat)>)
    requires n <= |h.majors|
    ensures found.Some? ==> found.value.0 < n && found.value.1 < |h.majors[found.value.0].minors|
    ensures found.Some? ==> h.majors[found.value.0].minors[found.value.1].Pointer() == ptr
    ensures found.None? ==> forall i: nat, k: nat, r: nat :: i < n ==> !h.IsMinor(i, k, ptr, r)
  {
    hide Align;
    if n == 0 then None
    else
      var k := FindMinor(h.majors[n - 1].minors, ptr);
      if k.Some? then Some((n - 1, k.value)) else Find(h, n - 1, ptr)
  }

  /** A 32-bit difference read as a signed int. */
  function AsInt(x: int): int {
    var w := x % WORD_32;
    if w < WORD_32 / 2 then w else w - WORD_32
  }
}
