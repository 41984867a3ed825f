/** Page table entries (kernel/include/MM/Paging.h), shared by the kernel allocator and the page walk. */
module PageEntries {
  import opened Words

  /** The x86 entry: the three flags the kernel uses, the remaining flag bits, and the frame number.
      Directory entries have the same shape; there the frame is that of a page table. */
  datatype Entry = Entry(Present: bool, Writable: bool, User: bool, Other: nat, PhysAddress: nat)

  /** KernelPageTables: one entry for each page from KERNEL_BASE to the end of the address space. */
  const KERNEL_PAGES: nat := 131072
  const KERNEL_BASE: nat := 0xE000_0000
}

/** The kernel virtual page allocator (kernel/src/MM/VirtualMemory.c): a first-fit search over
    KernelPageTables, each page backed by a frame of its own. */
module VirtualMemory {
  import opened Words
  import opened PageEntries
  import opened PhysicalMemory

  // ----- First fit -----

  /** n pages from s on, all non-present. */
  ghost predicate FreeRun(entries: seq<Entry>, s: nat, n: nat) {
    s + n <= |entries| && forall k :: s <= k < s + n ==> !entries[k].Present
  }

  /** s is what first fit promises: entry 0 is never used, and no run of the size starts earlier. */
  ghost predicate IsFirstFit(entries: seq<Entry>, n: nat, s: nat) {
    && n >= 1 && s >= 1 && FreeRun(entries, s, n)
    && forall t :: 1 <= t < s ==> !FreeRun(entries, t, n)
  }

  ghost predicate NoFit(entries: seq<Entry>, n: nat) {
    n == 0 || forall t :: t >= 1 ==> !FreeRun(entries, t, n)
  }

  lemma FirstFitIsUnique(entries: seq<Entry>, n: nat, s: nat, t: nat)
    requires IsFirstFit(entries, n, s) && IsFirstFit(entries, n, t)
    ensures s == t
  {
  }

  /** The search looks at nothing but the present bits. */
  lemma FirstFitReadsPresentBits(e1: seq<Entry>, e2: seq<Entry>, n: nat, s: nat)
    requires |e1| == |e2| && forall k :: 0 <= k < |e1| ==> e1[k].Present == e2[k].Present
    requires IsFirstFit(e1, n, s)
    ensures IsFirstFit(e2, n, s)
  {
    forall t: nat ensures FreeRun(e1, t, n) <==> FreeRun(e2, t, n) {
    }
  }

  // ----- Backing pages with frames -----

  datatype Pages = Pages(entries: seq<Entry>, frames: Frames)

  /** Maps page s. When the frames run out the kernel panics with the entry half written: present,
      but with a stale frame number. */
  function MapPage(mask: Mask, p: Pages, s: nat): (r: (Pages, bool))
    requires s < |p.entries|
    ensures |r.0.entries| == |p.entries| && |r.0.frames.bits| == |p.frames.bits|
    ensures r.0.frames.top >= p.frames.top
    ensures forall k :: 0 <= k < |p.entries| && k != s ==> r.0.entries[k] == p.entries[k]
    ensures r.1 ==> p.frames.top <= r.0.entries[s].PhysAddress < r.0.frames.top
  {
    var e := p.entries[s].(Present := true, User := false, Writable := true);
    match Allocate(mask, p.frames)
    case None => (p.(entries := p.entries[s := e]), false)
    case Some((f, frames)) => (Pages(p.entries[s := e.(PhysAddress := f)], frames), true)
  }

  /** Maps n pages from s on, up to the first panic. */
  function MapRun(mask: Mask, p: Pages, s: nat, n: nat): (r: (Pages, bool))
    requires s + n <= |p.entries|
    ensures |r.0.entries| == |p.entries| && |r.0.frames.bits| == |p.frames.bits|
    decreases n
  {
    if n == 0 then (p, true)
    else
      var (q, ok) := MapPage(mask, p, s);
      if ok then MapRun(mask, q, s + 1, n - 1) else (q, false)
  }

  /** Exactly the n entries become present, supervisor and writable, with strictly increasing frames
      taken from between the old hint and the new one. */
  ghost predicate Mapped(before: Pages, after: Pages, s: nat, n: nat) {
    && |after.entries| == |before.entries| && s + n <= |before.entries|
    && before.frames.top <= after.frames.top
    && (forall k :: 0 <= k < |before.entries| && !(s <= k < s + n) ==> after.entries[k] == before.entries[k])
    && (forall k :: s <= k < s + n ==>
          && after.entries[k].Present && after.entries[k].Writable && !after.entries[k].User
          && after.entries[k].Other == before.entries[k].Other
          && before.frames.top <= after.entries[k].PhysAddress < after.frames.top)
    && (forall j, k :: s <= j < k < s + n ==> after.entries[j].PhysAddress < after.entries[k].PhysAddress)
  }

  lemma {:induction false} MapRunMaps(mask: Mask, p: Pages, s: nat, n: nat)
    requires s + n <= |p.entries|
    requires MapRun(mask, p, s, n).1
    ensures Mapped(p, MapRun(mask, p, s, n).0, s, n)
    decreases n
  {
    hide Allocate;
    if n > 0 {
      MapRunMaps(mask, MapPage(mask, p, s).0, s + 1, n - 1);
    }
  }

  /** A panic cuts the run short at the first page for which no frame is left: that entry is present with its old
      frame number, and those behind it are untouched. */
  lemma {:induction false} PanicCutsRun(mask: Mask, p: Pages, s: nat, n: nat) returns (m: nat)
    requires s + n <= |p.entries| && !MapRun(mask, p, s, n).1
    ensures m < n && MapRun(mask, p, s, m).1
    ensures var (q, e) := (MapRun(mask, p, s, m).0, p.entries[s + m]);
      && !q.frames.HasFree()
      && MapRun(mask, p, s, n).0 == q.(entries := q.entries[s + m := Entry(true, true, false, e.Other, e.PhysAddress)])
    decreases n
  {
    hide MapPage, MapRun;
    PageOrPanic(mask, p, s, n);
    m := 0;
    if MapPage(mask, p, s).1 {
      var k := PanicCutsRun(mask, MapPage(mask, p, s).0, s + 1, n - 1);
      m := k + 1;
      PageOrPanic(mask, p, s, m);
    }
  }

  /** A run is its first page and the rest, unless there is no frame for that page. */
  lemma PageOrPanic(mask: Mask, p: Pages, s: nat, n: nat)
    requires s + n <= |p.entries|
    ensures MapRun(mask, p, s, 0) == (p, true)
    ensures n > 0 && MapPage(mask, p, s).1 ==>
      MapRun(mask, p, s, n) == MapRun(mask, MapPage(mask, p, s).0, s + 1, n - 1)
    ensures n > 0 && !MapPage(mask, p, s).1 ==>
      var e := p.entries[s];
      && !p.frames.HasFree()
      && MapRun(mask, p, s, n)
         == (p.(entries := p.entries[s := Entry(true, true, false, e.Other, e.PhysAddress)]), false)
  {
  }

  /** Frame f backs one of the n pages from s on. */
  ghost predicate Backs(p: Pages, s: nat, n: nat, f: nat)
    requires s + n <= |p.entries|
  {
    exists k :: s <= k < s + n && p.entries[k].PhysAddress == f
  }

  /** A frame of byte b of the map backs one of them. */
  ghost predicate InByte(p: Pages, s: nat, n: nat, b: nat)
    requires s + n <= |p.entries|
  {
    exists k :: s <= k < s + n && p.entries[k].PhysAddress / 4 == b
  }

  /** Whether a run takes frame f, of those between the old hint and the new one: if it reads as free, and as
      written also if the run took its neighbour in the same byte. */
  ghost predicate TakesFrame(mask: Mask, p: Pages, q: Pages, s: nat, n: nat, f: nat)
    requires s + n <= |q.entries|
  {
    Backs(q, s, n, f) <==>
      p.frames.IsFree(f) || (mask.AsWritten? && f % 4 != 0 && p.frames.top < f && Backs(q, s, n, f - 1))
  }

  /** How frame f reads after a run: with the complemented mask the frames taken are used; as written only the last
      one taken in its byte is, and the rest of that byte is free. */
  ghost predicate MarksFrame(mask: Mask, p: Pages, q: Pages, s: nat, n: nat, f: nat)
    requires s + n <= |q.entries| && |q.frames.bits| == |p.frames.bits| && f < 4 * |p.frames.bits|
  {
    Get(q.frames.bits, f) ==
      if Backs(q, s, n, f) && (mask.Complemented? || f % 4 == 3 || !Backs(q, s, n, f + 1)) then PAGE_USED
      else if mask.AsWritten? && InByte(q, s, n, f / 4) then PAGE_FREE
      else Get(p.frames.bits, f)
  }

  ghost predicate TakesFrames(mask: Mask, p: Pages, q: Pages, s: nat, n: nat)
    requires s + n <= |q.entries|
  {
    forall f: nat :: p.frames.top <= f < q.frames.top ==> TakesFrame(mask, p, q, s, n, f)
  }

  ghost predicate MarksFrames(mask: Mask, p: Pages, q: Pages, s: nat, n: nat)
    requires s + n <= |q.entries| && |q.frames.bits| == |p.frames.bits|
  {
    forall f: nat :: f < 4 * |p.frames.bits| ==> MarksFrame(mask, p, q, s, n, f)
  }

  lemma {:induction false} RunTakesFrames(mask: Mask, p: Pages, s: nat, n: nat)
    requires s + n <= |p.entries| && MapRun(mask, p, s, n).1
    ensures var q := MapRun(mask, p, s, n).0;
      && TakesFrames(mask, p, q, s, n) && MarksFrames(mask, p, q, s, n)
      && q.frames.top == if n == 0 then p.frames.top else q.entries[s + n - 1].PhysAddress + 1
    decreases n
  {
    hide MapPage, MapRun, Allocate, TakesFrames, MarksFrames, FrameTaken;
    PageOrPanic(mask, p, s, n);
    if n > 0 {
      var p1 := MapPage(mask, p, s).0;
      var q := MapRun(mask, p, s, n).0;
      PageTakesFrame(mask, p, s);
      RunTakesFrames(mask, p1, s + 1, n - 1);
      MapRunMaps(mask, p1, s + 1, n - 1);
      MapRunFrame(mask, p1, s + 1, n - 1);
      TopAfter(mask, p, p1, q, s);
      TakesOneMore(mask, p, p1, q, s, n);
      MarksOneMore(mask, p, p1, q, s, n);
    } else {
      NothingTaken(mask, p, s);
    }
  }

  lemma TopAfter(mask: Mask, p: Pages, p1: Pages, q: Pages, s: nat)
    requires s < |q.entries| && FrameTaken(mask, p.frames, p1.frames, q.entries[s].PhysAddress)
    ensures p1.frames.top == q.entries[s].PhysAddress + 1
  {
  }

  lemma NothingTaken(mask: Mask, p: Pages, s: nat)
    requires s <= |p.entries|
    ensures TakesFrames(mask, p, p, s, 0) && MarksFrames(mask, p, p, s, 0)
  {
  }

  lemma FreshByteIsFree(mask: Mask, p: Frames, q: Frames, f: nat, g: nat)
    requires FrameTaken(mask, p, q, f) && mask.AsWritten? && g / 4 == f / 4 && g != f
    ensures q.IsFree(g)
  {
    assert f / 4 < |p.bits|;
    assert g < 4 * |p.bits|;
  }

  lemma PageTakesFrame(mask: Mask, p: Pages, s: nat)
    requires s < |p.entries| && MapPage(mask, p, s).1
    ensures var q := MapPage(mask, p, s).0; FrameTaken(mask, p.frames, q.frames, q.entries[s].PhysAddress)
  {
    AllocateMarks(mask, p.frames);
  }

  /** The frames of a run are that of its first page and those of the rest, which are larger. */
  lemma BacksSplits(p1: Pages, q: Pages, s: nat, n: nat, f: nat)
    requires n > 0 && s + n <= |q.entries| && Mapped(p1, q, s + 1, n - 1)
    ensures Backs(q, s, n, f) <==> f == q.entries[s].PhysAddress || Backs(q, s + 1, n - 1, f)
    ensures Backs(q, s + 1, n - 1, f) ==> p1.frames.top <= f < q.frames.top
    ensures InByte(q, s, n, f / 4) <==> q.entries[s].PhysAddress / 4 == f / 4 || InByte(q, s + 1, n - 1, f / 4)
  {
  }

  /** If a later page has a frame in the byte of the first page's frame, so does the frame next to that. */
  lemma NeighbourTaken(mask: Mask, p: Pages, p1: Pages, q: Pages, s: nat, n: nat)
    requires n > 0 && s + n <= |q.entries| && Mapped(p1, q, s + 1, n - 1) && TakesFrames(mask, p1, q, s + 1, n - 1)
    requires FrameTaken(mask, p.frames, p1.frames, q.entries[s].PhysAddress) && mask.AsWritten?
    ensures var f := q.entries[s].PhysAddress;
      InByte(q, s + 1, n - 1, f / 4) <==> f % 4 != 3 && Backs(q, s + 1, n - 1, f + 1)
  {
    var f := q.entries[s].PhysAddress;
    if InByte(q, s + 1, n - 1, f / 4) {
      var k :| s + 1 <= k < s + n && q.entries[k].PhysAddress / 4 == f / 4;
      assert f + 1 <= q.entries[k].PhysAddress < q.frames.top;
      assert f % 4 != 3 && (f + 1) / 4 == f / 4;
      FreshByteIsFree(mask, p.frames, p1.frames, f, f + 1);
      assert TakesFrame(mask, p1, q, s + 1, n - 1, f + 1);
    }
  }

  lemma TakesOneMore(mask: Mask, p: Pages, p1: Pages, q: Pages, s: nat, n: nat)
    requires n > 0 && s + n <= |q.entries| && Mapped(p1, q, s + 1, n - 1) && TakesFrames(mask, p1, q, s + 1, n - 1)
    requires FrameTaken(mask, p.frames, p1.frames, q.entries[s].PhysAddress)
    ensures TakesFrames(mask, p, q, s, n)
  {
    hide Mapped, Backs, Get;
    forall f: nat | p.frames.top <= f < q.frames.top ensures TakesFrame(mask, p, q, s, n, f) {
      TakesOneFrame(mask, p, p1, q, s, n, f);
    }
  }

  lemma TakesOneFrame(mask: Mask, p: Pages, p1: Pages, q: Pages, s: nat, n: nat, f: nat)
    requires n > 0 && s + n <= |q.entries| && Mapped(p1, q, s + 1, n - 1) && TakesFrames(mask, p1, q, s + 1, n - 1)
    requires FrameTaken(mask, p.frames, p1.frames, q.entries[s].PhysAddress) && p.frames.top <= f < q.frames.top
    ensures TakesFrame(mask, p, q, s, n, f)
  {
    hide Mapped, Backs, Get;
    var first := q.entries[s].PhysAddress;
    BacksSplits(p1, q, s, n, f);
    if f > p.frames.top {
      BacksSplits(p1, q, s, n, f - 1);
    }
    if f > first {
      assert TakesFrame(mask, p1, q, s + 1, n - 1, f);
      if mask.AsWritten? && f / 4 == first / 4 {
        FreshByteIsFree(mask, p.frames, p1.frames, first, f);
        if f - 1 > first {
          FreshByteIsFree(mask, p.frames, p1.frames, first, f - 1);
          assert TakesFrame(mask, p1, q, s + 1, n - 1, f - 1);
        }
      }
    }
  }

  lemma MarksOneMore(mask: Mask, p: Pages, p1: Pages, q: Pages, s: nat, n: nat)
    requires n > 0 && s + n <= |q.entries| && Mapped(p1, q, s + 1, n - 1) && |q.frames.bits| == |p.frames.bits|
    requires |p1.frames.bits| == |p.frames.bits| && FrameTaken(mask, p.frames, p1.frames, q.entries[s].PhysAddress)
    requires TakesFrames(mask, p1, q, s + 1, n - 1) && MarksFrames(mask, p1, q, s + 1, n - 1)
    ensures MarksFrames(mask, p, q, s, n)
  {
    var first := q.entries[s].PhysAddress;
    if mask.AsWritten? {
      NeighbourTaken(mask, p, p1, q, s, n);
    }
    hide Mapped, Backs, InByte, TakesFrames;
    BacksSplits(p1, q, s, n, first);
    forall f: nat | f < 4 * |p.frames.bits| ensures MarksFrame(mask, p, q, s, n, f) {
      BacksSplits(p1, q, s, n, f);
      BacksSplits(p1, q, s, n, f + 1);
      assert MarksFrame(mask, p1, q, s + 1, n - 1, f);
    }
  }

  // ----- Ownership over runs -----

  /** The entries filled by the allocator and not released since. */
  type Owned = set<nat>

  ghost function Range(s: nat, n: nat): (r: Owned)
    ensures forall k :: k in r <==> s <= k < s + n
    decreases n
  {
    if n == 0 then {} else {s} + Range(s + 1, n - 1)
  }

  /** Every owned entry is present and holds a frame no other owned entry holds. */
  ghost predicate Exclusive(p: Pages, owned: Owned) {
    && (forall k :: k in owned ==>
          k < |p.entries| && p.entries[k].Present && p.entries[k].PhysAddress < p.frames.top)
    && (forall j, k :: j in owned && k in owned && j != k ==>
          p.entries[j].PhysAddress != p.entries[k].PhysAddress)
  }

  lemma MappingKeepsExclusive(before: Pages, after: Pages, s: nat, n: nat, owned: Owned)
    requires Exclusive(before, owned) && FreeRun(before.entries, s, n) && Mapped(before, after, s, n)
    ensures Exclusive(after, owned + Range(s, n)) && owned !! Range(s, n)
  {
    forall j, k | j in owned + Range(s, n) && k in owned + Range(s, n) && j != k
      ensures after.entries[j].PhysAddress != after.entries[k].PhysAddress
    {
      if j in Range(s, n) && k in Range(s, n) {
        if j < k {
        } else {
          assert after.entries[k].PhysAddress < after.entries[j].PhysAddress;
        }
      }
    }
  }

  /** Mapping a run, even one cut short by a panic, changes no entry outside it and never lowers the hint. */
  lemma {:induction false} MapRunFrame(mask: Mask, p: Pages, s: nat, n: nat)
    requires s + n <= |p.entries|
    ensures var q := MapRun(mask, p, s, n).0;
      && p.frames.top <= q.frames.top
      && forall k :: 0 <= k < |p.entries| && !(s <= k < s + n) ==> q.entries[k] == p.entries[k]
    decreases n
  {
    hide MapPage;
    if n > 0 && MapPage(mask, p, s).1 {
      MapRunFrame(mask, MapPage(mask, p, s).0, s + 1, n - 1);
    }
  }

  lemma PanicKeepsExclusive(mask: Mask, p: Pages, s: nat, n: nat, owned: Owned)
    requires Exclusive(p, owned) && FreeRun(p.entries, s, n)
    ensures Exclusive(MapRun(mask, p, s, n).0, owned)
  {
    MapRunFrame(mask, p, s, n);
  }

  function Unmap(p: Pages, s: nat, n: nat): (r: Pages)
    requires s + n <= |p.entries|
    ensures |r.entries| == |p.entries|
  {
    p.(entries := seq(|p.entries|, k requires 0 <= k < |p.entries| =>
      if s <= k < s + n then p.entries[k].(Present := false, PhysAddress := 0) else p.entries[k]))
  }

  lemma UnmappingKeepsExclusive(p: Pages, s: nat, n: nat, owned: Owned)
    requires Exclusive(p, owned) && s + n <= |p.entries|
    ensures Exclusive(Unmap(p, s, n), owned - Range(s, n))
  {
    var q := Unmap(p, s, n);
    forall k | k in owned - Range(s, n) ensures k < |q.entries| && q.entries[k] == p.entries[k] {
    }
  }

  /** Releasing an allocated run makes the present bits what they were, so the same request is granted
      at the same place. Its entries lose their frames and keep their flags; the frames are not returned. */
  lemma UnmapUndoesMap(before: Pages, after: Pages, s: nat, n: nat)
    requires IsFirstFit(before.entries, n, s) && Mapped(before, after, s, n)
    ensures var q := Unmap(after, s, n);
      && |q.entries| == |before.entries| && q.frames == after.frames
      && (forall k :: 0 <= k < |before.entries| ==> q.entries[k].Present == before.entries[k].Present)
      && (forall k :: 0 <= k < |before.entries| ==>
            q.entries[k] == if s <= k < s + n then Entry(false, true, false, before.entries[k].Other, 0)
                            else before.entries[k])
      && IsFirstFit(q.entries, n, s)
  {
    var q := Unmap(after, s, n);
    FirstFitReadsPresentBits(before.entries, q.entries, n, s);
  }

  datatype Op = Alloc(n: nat) | Release(s: nat, n: nat)

  /** One completed operation and the owned entries after it. */
  ghost predicate Step(mask: Mask, op: Op, p: Pages, owned: Owned, p': Pages, owned': Owned) {
    match op
    case Alloc(n) =>
      exists s ::
        && IsFirstFit(p.entries, n, s)
        && MapRun(mask, p, s, n) == (p', true)
        && owned' == owned + Range(s, n)
    case Release(s, n) =>
      && s + n <= |p.entries|
      && p' == Unmap(p, s, n)
      && owned' == owned - Range(s, n)
  }

  ghost predicate Runs(mask: Mask, ops: seq<Op>, p: Pages, owned: Owned, p': Pages, owned': Owned) {
    if ops == [] then p' == p && owned' == owned
    else exists q, o :: Step(mask, ops[0], p, owned, q, o) && Runs(mask, ops[1..], q, o, p', owned')
  }

  /** Over every run, frames stay exclusive: they only ever come out from above the hint, so the
      neighbours' marks the setter destroys do not matter. */
  lemma {:induction false} RunsKeepExclusive(mask: Mask, ops: seq<Op>, p: Pages, owned: Owned, p': Pages, owned': Owned)
    requires Exclusive(p, owned) && Runs(mask, ops, p, owned, p', owned')
    ensures Exclusive(p', owned')
  {
    if ops != [] {
      var q, o :| Step(mask, ops[0], p, owned, q, o) && Runs(mask, ops[1..], q, o, p', owned');
      match ops[0] {
        case Alloc(n) =>
          var s :| IsFirstFit(p.entries, n, s) && MapRun(mask, p, s, n) == (q, true) && o == owned + Range(s, n);
          MapRunMaps(mask, p, s, n);
          MappingKeepsExclusive(p, q, s, n, owned);
        case Release(s, n) =>
          UnmappingKeepsExclusive(p, s, n, owned);
      }
      RunsKeepExclusive(mask, ops[1..], q, o, p', owned');
    }
  }

  // ----- Addresses -----

  /** The address MmVmAllocate returns for page s: the source adds to the address of the variable
      VirtualAddress, `base` here. */
  function PageAddress(base: nat, s: nat): nat {
    Wrap32(base + s * PAGE_SIZE)
  }

  /** The addresses of n pages from s on do not run over the end of the address space. Only a base above
      KERNEL_BASE has such runs, at the end of KernelPageTables. */
  predicate Unbroken(base: nat, s: nat, n: nat) {
    PageAddress(base, s) + n * PAGE_SIZE <= WORD
  }

  lemma OnlyHighBasesBreak(base: nat, s: nat, n: nat)
    requires base <= KERNEL_BASE && n >= 1 && s + n <= KERNEL_PAGES
    ensures Unbroken(base, s, n)
  {
  }

  /** Runs of different pages have different addresses, wherever the base is. */
  lemma RunsApart(base: nat, s: nat, n: nat, t: nat, m: nat)
    requires base < WORD && n >= 1 && m >= 1 && s + n <= t && t + m <= KERNEL_PAGES
    requires Unbroken(base, s, n) && Unbroken(base, t, m)
    ensures var a, b := PageAddress(base, s), PageAddress(base, t);
      a + n * PAGE_SIZE <= b || b + m * PAGE_SIZE <= a
  {
    WrapOnce(base, s);
    WrapOnce(base, t);
  }

  /** Inside such a run addresses go up with the pages. */
  lemma PageInRun(base: nat, s: nat, n: nat, p: nat)
    requires base < WORD && s <= p < s + n <= KERNEL_PAGES && Unbroken(base, s, n)
    ensures PageAddress(base, p) == PageAddress(base, s) + (p - s) * PAGE_SIZE
  {
    WrapOnce(base, s);
    WrapOnce(base, p);
  }

  lemma WrapOnce(base: nat, s: nat)
    requires base < WORD && s < KERNEL_PAGES
    ensures var x := base + s * PAGE_SIZE;
      PageAddress(base, s) == if x < WORD then x else x - WORD
  {
  }

  /** What a request for n pages comes to. The address 0 stands for a panic, with no run large enough or with the
      frames used up, and is taken for one when the pages happen to begin there. */
  ghost predicate PageAnswer(mask: Mask, base: nat, before: Pages, after: Pages, n: nat, addr: nat) {
    if addr == 0 then
      || (NoFit(before.entries, n) && after == before)
      || (exists s: nat ::
            && IsFirstFit(before.entries, n, s) && MapRun(mask, before, s, n).0 == after
            && (!MapRun(mask, before, s, n).1 || PageAddress(base, s) == 0))
    else
      exists s: nat ::
        && IsFirstFit(before.entries, n, s) && MapRun(mask, before, s, n) == (after, true)
        && addr == PageAddress(base, s)
  }

  /** The same for a call that asks only under a condition. */
  ghost predicate Answered(asked: bool, mask: Mask, base: nat, before: Pages, after: Pages, n: nat, addr: nat) {
    if asked then PageAnswer(mask, base, before, after, n, addr) else addr == 0 && after == before
  }

  /** The entry MmVmFree starts at: the source subtracts the value of VirtualAddress. */
  function PageIndex(kernelBase: nat, virt: nat): nat {
    Wrap32(virt - virt % PAGE_SIZE - kernelBase) / PAGE_SIZE
  }

  /** The index computed from an allocated address is the allocated one exactly when the two bases
      agree up to the page offset. */
  lemma IndexInvertsAddress(base: nat, kernelBase: nat, s: nat)
    requires base < WORD && kernelBase < WORD && kernelBase % PAGE_SIZE == 0 && s < FRAMES
    ensures PageIndex(kernelBase, PageAddress(base, s)) == s <==> base - base % PAGE_SIZE == kernelBase
  {
    var b, f, o := base / PAGE_SIZE, kernelBase / PAGE_SIZE, base % PAGE_SIZE;
    WrapPages(b + s, o);
    assert base + s * PAGE_SIZE == (b + s) * PAGE_SIZE + o;
    WrapPages((b + s) % FRAMES - f, 0);
    assert PageAddress(base, s) - o == (b + s) % FRAMES * PAGE_SIZE;
    assert PageIndex(kernelBase, PageAddress(base, s)) == ((b + s) % FRAMES - f) % FRAMES;
    ModCancels(s, b, f);
  }

  lemma WrapPages(p: int, o: nat)
    requires o < PAGE_SIZE
    ensures Wrap32(p * PAGE_SIZE + o) == p % FRAMES * PAGE_SIZE + o
  {
    var q, r := p / FRAMES, p % FRAMES;
    assert p * PAGE_SIZE + o == q * WORD + (r * PAGE_SIZE + o);
  }

  lemma ModCancels(s: nat, b: nat, f: nat)
    requires s < FRAMES && b < FRAMES && f < FRAMES
    ensures ((b + s) % FRAMES - f) % FRAMES == s <==> b == f
  {
    var x := if b + s < FRAMES then b + s else b + s - FRAMES;
    assert (b + s) % FRAMES == x;
    assert (x - f) % FRAMES == if x >= f then x - f else x - f + FRAMES;
  }

  // ----- The allocator object -----

  class KernelPages {
    const pm: FrameAllocator
    const KernelPageTables: array<Entry>
    /** The address of the variable VirtualAddress, and its value. */
    const allocBase: nat
    const freeBase: nat

    function State(): Pages
      reads KernelPageTables, pm, pm.bitmap
    {
      Pages(KernelPageTables[..], pm.State())
    }

    ghost predicate Valid()
      reads pm
    {
      && pm.Valid() && KernelPageTables.Length == KERNEL_PAGES
      && allocBase < WORD && freeBase < WORD
    }

    constructor (pm: FrameAllocator, tables: array<Entry>, allocBase: nat, freeBase: nat)
      requires pm.Valid() && tables.Length == KERNEL_PAGES && allocBase < WORD && freeBase < WORD
      ensures Valid() && this.pm == pm && KernelPageTables == tables
      ensures this.allocBase == allocBase && this.freeBase == freeBase
    {
      this.pm, KernelPageTables := pm, tables;
      this.allocBase, this.freeBase := allocBase, freeBase;
    }

    /** The search loop of MmVmAllocate, with page 0 as the "no start yet" mark. */
    method FindPages(pages: nat) returns (r: Option<nat>)
      requires Valid()
      ensures r.Some? ==> IsFirstFit(KernelPageTables[..], pages, r.value)
      ensures r.None? ==> NoFit(KernelPageTables[..], pages)
    {
      var i, startingPage, pageCounter := 0, 0, 0;
      ghost var es := KernelPageTables[..];
      while i < KERNEL_PAGES
        invariant i <= KERNEL_PAGES && startingPage <= i
        invariant startingPage == 0 ==> i <= 1 || es[i - 1].Present
        invariant startingPage > 0 ==> startingPage == 1 || es[startingPage - 1].Present
        invariant startingPage > 0 ==> pageCounter == i - startingPage > 0 && FreeRun(es, startingPage, pageCounter)
        invariant pages > 0 && startingPage > 0 ==> pageCounter < pages
        invariant pages > 0 ==> forall t :: 1 <= t && t + pages <= i ==> !FreeRun(es, t, pages)
      {
        if KernelPageTables[i].Present {
          startingPage, pageCounter := 0, 0;
        } else if startingPage == 0 {
          startingPage, pageCounter := i, 1;
        } else {
          pageCounter := pageCounter + 1;
        }
        if startingPage != 0 && pageCounter == pages {
          return Some(startingPage);
        }
        if pages > 0 {
          forall t | 1 <= t && t + pages == i + 1 ensures !FreeRun(es, t, pages) {
            if startingPage == 0 {
              assert es[i].Present || i == 0;
              assert t <= i < t + pages;
            } else if startingPage > 1 {
              assert es[startingPage - 1].Present;
            }
          }
        }
        i := i + 1;
      }
      if pages > 0 {
        forall t: nat | t >= 1 ensures !FreeRun(es, t, pages) {
        }
      }
      return None;
    }

    /** MmVmAllocate. None is the kernel panic: no run of that size, or no frame left to back it.
        On success the address and, as a ghost, the first page. */
    method MmVmAllocate(pages: nat) returns (r: Option<nat>, ghost start: nat)
      requires Valid()
      modifies KernelPageTables, pm`top, pm.bitmap
      ensures r.Some? ==> IsFirstFit(old(KernelPageTables[..]), pages, start)
      ensures r.Some? ==> MapRun(pm.mask, old(State()), start, pages) == (State(), true)
      ensures r.Some? ==> Mapped(old(State()), State(), start, pages)
      ensures r.Some? ==> r.value == PageAddress(allocBase, start)
      ensures r.None? ==>
        || (NoFit(old(KernelPageTables[..]), pages) && State() == old(State()))
        || (IsFirstFit(old(KernelPageTables[..]), pages, start)
            && MapRun(pm.mask, old(State()), start, pages) == (State(), false))
    {
      start := 0;
      var found := FindPages(pages);
      if found.None? {
        return None, start;
      }
      start := found.value;
      var backed := MapPages(found.value, pages);
      if !backed {
        return None, start;
      }
      MapRunMaps(pm.mask, old(State()), start, pages);
      return Some(PageAddress(allocBase, found.value)), start;
    }

    /** The filling loop of MmVmAllocate. */
    method MapPages(startingPage: nat, pages: nat) returns (ok: bool)
      requires Valid() && startingPage + pages <= KERNEL_PAGES
      modifies KernelPageTables, pm`top, pm.bitmap
      ensures MapRun(pm.mask, old(State()), startingPage, pages) == (State(), ok)
    {
      hide MapPage;
      var i := startingPage;
      while i < startingPage + pages
        invariant startingPage <= i <= startingPage + pages
        invariant MapRun(pm.mask, old(State()), startingPage, pages)
          == MapRun(pm.mask, State(), i, startingPage + pages - i)
      {
        var mapped := BackPage(i);
        if !mapped {
          return false;
        }
        i := i + 1;
      }
      return true;
    }

    method BackPage(i: nat) returns (ok: bool)
      requires Valid() && i < KERNEL_PAGES
      modifies KernelPageTables, pm`top, pm.bitmap
      ensures (State(), ok) == MapPage(pm.mask, old(State()), i)
    {
      SetFlags(i);
      ghost var flagged := KernelPageTables[..];
      var f := pm.MmPmAllocate();
      assert KernelPageTables[..] == flagged;
      if f.None? {
        return false;
      }
      KernelPageTables[i] := KernelPageTables[i].(PhysAddress := f.value);
      assert KernelPageTables[..] == old(KernelPageTables[..])[i := flagged[i].(PhysAddress := f.value)];
      return true;
    }

    method SetFlags(i: nat)
      requires Valid() && i < KERNEL_PAGES
      modifies KernelPageTables
      ensures KernelPageTables[..] == old(KernelPageTables[..])[i :=
        old(KernelPageTables[i]).(Present := true, User := false, Writable := true)]
    {
      KernelPageTables[i] := KernelPageTables[i].(Present := true);
      KernelPageTables[i] := KernelPageTables[i].(User := false);
      KernelPageTables[i] := KernelPageTables[i].(Writable := true);
    }

    /** MmVmFree, given that the run it computes lies inside the table (the source does not check). */
    method MmVmFree(virt: nat, pages: nat)
      requires Valid() && PageIndex(freeBase, virt) + pages <= KERNEL_PAGES
      modifies KernelPageTables
      ensures State() == Unmap(old(State()), PageIndex(freeBase, virt), pages)
      ensures forall k :: 0 <= k < KERNEL_PAGES ==>
        var e := old(KernelPageTables[k]);
        KernelPageTables[k] == if 0 <= k - PageIndex(freeBase, virt) < pages
                               then Entry(false, e.Writable, e.User, e.Other, 0) else e
    {
      var s := PageIndex(freeBase, virt);
      for i := 0 to pages
        invariant forall k :: 0 <= k < KERNEL_PAGES ==>
          KernelPageTables[k] == if s <= k < s + i
            then old(KernelPageTables[k]).(Present := false, PhysAddress := 0)
            else old(KernelPageTables[k])
      {
        KernelPageTables[s + i] := KernelPageTables[s + i].(Present := false);
        KernelPageTables[s + i] := KernelPageTables[s + i].(PhysAddress := 0);
      }
      assert KernelPageTables[..] == Unmap(old(State()), s, pages).entries;
    }
  }
}
