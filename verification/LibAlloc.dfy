/** The heap's code (kernel/src/MM/LibAlloc.c, kernel/src/MM/LibAllocStubs.c), proved against HeapCalls.
    A pointer to a header is its address, 0 is NULL, and reading or writing a field of a header is reading
    or writing that field's map at the address. */
module LibAlloc {
  import opened Words
  import opened PageEntries
  import opened PhysicalMemory
  import opened VirtualMemory
  import opened HeapModel
  import opened HeapCalls
  import opened HeapMemory
  import opened Bytes
  import Lists = AddressLists

  // ----- Alignment bytes -----

  /** The allocation holds its request and the room for aligning it. */
  predicate Roomy(c: Config, m: Minor) {
    if c.alignment > 1 then m.req + c.alignment + ALIGN_INFO <= m.size else m.req <= m.size
  }

  /** The address ALIGN stamps for the minor. */
  function StampAddress(c: Config, m: Minor): int
    requires c.Good()
  {
    AlignUp(c, m.addr + MINOR_HEADER) - ALIGN_INFO
  }

  ghost predicate StampOk(c: Config, mem: seq<Byte>, m: Minor)
    requires c.Good()
  {
    && Roomy(c, m)
    && (c.alignment > 1 ==>
          0 <= StampAddress(c, m) < |mem| && mem[StampAddress(c, m)] == AlignByte(c, m.addr + MINOR_HEADER))
  }

  /** Every live allocation is roomy and has its alignment byte in place. */
  ghost predicate Stamped(c: Config, mem: seq<Byte>, h: Heap)
    requires c.Good()
  {
    forall m :: IsLive(h, m) ==> StampOk(c, mem, m)
  }

  lemma StampInsideMinor(c: Config, m: Minor)
    requires c.Good() && c.alignment > 1 && Roomy(c, m)
    ensures m.addr + MINOR_HEADER <= StampAddress(c, m)
    ensures StampAddress(c, m) + ALIGN_INFO + m.req <= m.End()
  {
    AlignedPointer(c, m.addr + MINOR_HEADER);
  }

  /** Memory after ALIGN stamped the new minor. */
  function Stamp(c: Config, mem: seq<Byte>, m: Minor): seq<Byte>
    requires c.Good()
  {
    if c.alignment > 1 && 0 <= StampAddress(c, m) < |mem|
    then mem[StampAddress(c, m) := AlignByte(c, m.addr + MINOR_HEADER)]
    else mem
  }

  lemma StampFits(c: Config, h: Heap, i: nat, j: nat)
    requires c.Good() && WellFormed(h) && i < |h.majors| && j < |h.majors[i].minors| && Roomy(c, h.majors[i].minors[j])
    ensures c.alignment > 1 ==> 0 <= StampAddress(c, h.majors[i].minors[j]) < WORD
  {
    if c.alignment > 1 {
      StampInsideMinor(c, h.majors[i].minors[j]);
      MinorInside(h.majors[i], j);
    }
  }

  /** Stamping one minor leaves the bytes of the others alone. */
  lemma StampKeepsOther(c: Config, mem: seq<Byte>, m: Minor, n: Minor)
    requires c.Good() && StampOk(c, mem, n) && Roomy(c, m)
    requires m.End() <= n.addr || n.End() <= m.addr
    ensures StampOk(c, Stamp(c, mem, m), n)
  {
    if c.alignment > 1 {
      StampInsideMinor(c, m);
      StampInsideMinor(c, n);
    }
  }

  lemma StampKeepsStamped(c: Config, mem: seq<Byte>, h: Heap, i: nat, j: nat, size: nat, req: nat)
    requires c.Good() && WellFormed(h) && Stamped(c, mem, h) && |mem| == WORD
    requires i < |h.majors| && j <= |h.majors[i].minors| && h.majors[i].Gap(j) >= size + MINOR_HEADER
    requires Roomy(c, Minor(0, size, req))
    ensures var m := Minor(h.majors[i].Lo(j), size, req);
      && (c.alignment > 1 ==> 0 <= StampAddress(c, m) < WORD)
      && Stamped(c, Stamp(c, mem, m), Inserted(h, i, j, size, req))
  {
    var h' := Inserted(h, i, j, size, req);
    var m := Minor(h.majors[i].Lo(j), size, req);
    InsertKeepsWellFormed(h, i, j, size, req);
    assert h'.majors[i].minors[j] == m;
    StampFits(c, h', i, j);
    forall n | IsLive(h', n) ensures StampOk(c, Stamp(c, mem, m), n) {
      InsertAddsOneLive(h.majors, i, j, size, req, n);
      if n != m {
        LiveIsApart(h', i, j, n);
        StampKeepsOther(c, mem, m, n);
      }
    }
  }

  lemma LiveIsApart(h: Heap, i: nat, j: nat, n: Minor)
    requires WellFormed(h) && i < |h.majors| && j < |h.majors[i].minors| && IsLive(h, n) && n != h.majors[i].minors[j]
    ensures var m := h.majors[i].minors[j]; m.End() <= n.addr || n.End() <= m.addr
  {
    var k, l :| 0 <= k < |h.majors| && 0 <= l < |h.majors[k].minors| && h.majors[k].minors[l] == n;
    LiveMinorsApart(h, i, j, k, l);
  }

  /** The pointer malloc returns for the minor. */
  function PointerOf(c: Config, m: Minor): nat
    requires c.Good()
  {
    AlignUp(c, m.addr + MINOR_HEADER)
  }

  lemma PointerInsideMinor(c: Config, m: Minor)
    requires c.Good() && Roomy(c, m)
    ensures m.addr + MINOR_HEADER <= PointerOf(c, m) && PointerOf(c, m) + m.req <= m.End()
    ensures c.alignment > 1 ==> m.addr + MINOR_HEADER + ALIGN_INFO <= PointerOf(c, m)
  {
    AlignedPointer(c, m.addr + MINOR_HEADER);
  }

  /** A caller that writes only inside what it was given leaves every alignment byte alone. */
  lemma PayloadWriteKeepsStamped(c: Config, mem: seq<Byte>, mem': seq<Byte>, h: Heap, i: nat, j: nat, len: nat)
    requires c.Good() && WellFormed(h) && Stamped(c, mem, h) && |mem| == |mem'|
    requires i < |h.majors| && j < |h.majors[i].minors| && len <= h.majors[i].minors[j].req
    requires var p := PointerOf(c, h.majors[i].minors[j]);
      forall a :: 0 <= a < |mem| && !(p <= a < p + len) ==> mem'[a] == mem[a]
    ensures Stamped(c, mem', h)
  {
    var m := h.majors[i].minors[j];
    assert IsLive(h, m);
    forall n | IsLive(h, n) ensures StampOk(c, mem', n) {
      assert StampOk(c, mem, n) && StampOk(c, mem, m);
      if c.alignment > 1 {
        PointerInsideMinor(c, m);
        StampInsideMinor(c, n);
        if n != m {
          LiveIsApart(h, i, j, n);
        }
      }
    }
  }

  /** A new minor is clear of every minor that was there before. */
  lemma NewMinorIsApart(c: Config, h: Heap, size: nat, req: nat, grant: nat, h': Heap, i: nat, j: nat, m: Minor)
    requires WellFormed(h') && Made(c, h, size, req, grant, h', i, j) && IsLive(h, m)
    ensures var n := h'.majors[i].minors[j]; m.End() <= n.addr || n.End() <= m.addr
  {
    hide WellFormed;
    var k, l :| 0 <= k < |h.majors| && 0 <= l < |h.majors[k].minors| && h.majors[k].minors[l] == m;
    var bs := Candidates(c, h, size, grant);
    assert bs[k] == h.majors[k];
    var l' := if k == i && l >= j then l + 1 else l;
    assert h'.majors[k].minors[l'] == m;
    LiveMinorsApart(h', i, j, k, l');
  }

  /** No live header stands strictly inside an allocation. */
  lemma NoHeaderInside(h: Heap, i: nat, j: nat, a: nat, k: nat, l: nat)
    requires WellFormed(h) && i < |h.majors| && j < |h.majors[i].minors| && HeaderAt(h, k, l, a)
    requires h.majors[i].minors[j].addr < a
    ensures a >= h.majors[i].minors[j].End()
  {
    LiveMinorsApart(h, i, j, k, l);
  }

  // ----- Pages under the blocks -----

  /** Each block lies on pages filled by the page allocator, from its first page on. */
  ghost predicate Backed(base: nat, bs: seq<Major>, firstPage: seq<nat>, owned: Owned) {
    && |firstPage| == |bs|
    && forall i :: 0 <= i < |bs| ==>
         && firstPage[i] + bs[i].pages <= KERNEL_PAGES
         && bs[i].addr == PageAddress(base, firstPage[i])
         && forall k :: firstPage[i] <= k < firstPage[i] + bs[i].pages ==> k in owned
  }

  /** A run of pages the allocator did not own is a block clear of all others exactly when its addresses do not
      run over the end of the address space (address 0 is taken for a refusal). */
  lemma FreshPagesGrantableIff(base: nat, h: Heap, firstPage: seq<nat>, owned: Owned, start: nat, size: nat)
    requires WellFormed(h) && Backed(base, h.majors, firstPage, owned) && base < WORD
    requires start >= 1 && start + PagesFor(size) <= KERNEL_PAGES && PageAddress(base, start) > 0
    requires forall k :: start <= k < start + PagesFor(size) ==> k !in owned
    ensures Grantable(h, size, PageAddress(base, start)) <==> Unbroken(base, start, PagesFor(size))
  {
    var b := NewBlock(PageAddress(base, start), size);
    if Unbroken(base, start, PagesFor(size)) {
      forall i | 0 <= i < |h.majors| ensures Apart(h.majors[i], b) {
        BlockHasPages(h.majors[i]);
        var s, n := firstPage[i], h.majors[i].pages;
        assert start < s + n && s < start + PagesFor(size) ==> (if s < start then start else s) in owned;
        if s + n <= start {
          RunsApart(base, s, n, start, PagesFor(size));
        } else {
          RunsApart(base, start, PagesFor(size), s, n);
        }
      }
    }
  }

  /** Everything the heap's code sees, as a value. */
  datatype Image = Image(root: nat, bestBet: nat, inuse: int, total: int, m: Headers, mem: seq<Byte>, pages: Pages)

  /** What the proofs know about it: the heap value, where its blocks lie, and the entries filled for it. */
  datatype Ghosts = Ghosts(model: Heap, firstPage: seq<nat>, owned: Owned)

  ghost predicate Rooted(s: Image, h: Heap) {
    && s.root == Lists.At(MajorAddrs(h.majors), 0)
    && s.bestBet == (if h.best.Some? then Lists.At(MajorAddrs(h.majors), h.best.value) else 0)
    && s.inuse == h.inuse && s.total == h.acquired
  }

  /** The statics and headers store a well-formed heap with its alignment bytes in place. */
  ghost predicate HeapPart(c: Config, s: Image, h: Heap)
    requires c.Good()
  {
    WellFormed(h) && Rooted(s, h) && Stored(s.m, h) && |s.mem| == WORD && Stamped(c, s.mem, h)
  }

  /** The blocks lie on pages filled for the heap, each page with a frame of its own. */
  ghost predicate PagesPart(base: nat, p: Pages, g: Ghosts) {
    |p.entries| == KERNEL_PAGES && Exclusive(p, g.owned) && Backed(base, g.model.majors, g.firstPage, g.owned)
  }

  /** The invariant of the heap's code. */
  ghost predicate Consistent(c: Config, base: nat, s: Image, g: Ghosts)
    requires c.Good()
  {
    HeapPart(c, s, g.model) && PagesPart(base, s.pages, g)
  }

  /** What a placement writes, given the pointers it works with. */
  function Placed(c: Config, s: Image, maj: nat, before: nat, after: nat, addr: nat, size: nat, req: nat): Image
    requires c.Good() && maj in s.m.majUsage
  {
    s.(inuse := s.inuse + size,
       m := LinkMinor(s.m, maj, before, after, addr, size, req),
       mem := Stamp(c, s.mem, Minor(addr, size, req)))
  }

  function InsertedImage(c: Config, s: Image, h: Heap, i: nat, j: nat, size: nat, req: nat): Image
    requires c.Good() && i < |h.majors| && j <= |h.majors[i].minors| && h.majors[i].addr in s.m.majUsage
  {
    var b := h.majors[i];
    Placed(c, s, b.addr, Before(b, j), After(b, j), b.Lo(j), size, req)
  }

  lemma UpdateKeepsBacked(base: nat, bs: seq<Major>, i: nat, b: Major, firstPage: seq<nat>, owned: Owned)
    requires Backed(base, bs, firstPage, owned) && i < |bs| && b.addr == bs[i].addr && b.pages == bs[i].pages
    ensures Backed(base, bs[i := b], firstPage, owned)
  {
  }

  lemma HeapHasUsage(c: Config, s: Image, h: Heap, i: nat)
    requires c.Good() && HeapPart(c, s, h) && i < |h.majors|
    ensures h.majors[i].addr in s.m.majUsage
  {
    assert BlockStored(s.m, h.majors[i]);
  }

  lemma InsertKeepsHeap(c: Config, s: Image, h: Heap, i: nat, j: nat, size: nat, req: nat)
    requires c.Good() && HeapPart(c, s, h) && i < |h.majors| && j <= |h.majors[i].minors|
    requires h.majors[i].Gap(j) >= size + MINOR_HEADER && Roomy(c, Minor(0, size, req))
    ensures h.majors[i].addr in s.m.majUsage
    ensures HeapPart(c, InsertedImage(c, s, h, i, j, size, req), Inserted(h, i, j, size, req))
    ensures c.alignment > 1 ==> 0 <= StampAddress(c, Minor(h.majors[i].Lo(j), size, req)) < WORD
  {
    hide BlocksStored, NoStrays, Stamped, WellFormed;
    HeapHasUsage(c, s, h, i);
    LinkMinorStores(s.m, h, i, j, size, req);
    InsertKeepsWellFormed(h, i, j, size, req);
    StampKeepsStamped(c, s.mem, h, i, j, size, req);
    UpdatedMajorAddrs(h.majors, i, h.majors[i].Insert(j, size, req));
  }

  lemma InsertKeepsConsistent(c: Config, base: nat, s: Image, g: Ghosts, i: nat, j: nat, size: nat, req: nat)
    requires c.Good() && Consistent(c, base, s, g) && i < |g.model.majors| && j <= |g.model.majors[i].minors|
    requires g.model.majors[i].Gap(j) >= size + MINOR_HEADER && Roomy(c, Minor(0, size, req))
    ensures g.model.majors[i].addr in s.m.majUsage
    ensures Consistent(c, base, InsertedImage(c, s, g.model, i, j, size, req),
                       g.(model := Inserted(g.model, i, j, size, req)))
    ensures c.alignment > 1 ==> 0 <= StampAddress(c, Minor(g.model.majors[i].Lo(j), size, req)) < WORD
  {
    InsertKeepsHeap(c, s, g.model, i, j, size, req);
    UpdateKeepsBacked(base, g.model.majors, i, g.model.majors[i].Insert(j, size, req), g.firstPage, g.owned);
  }

  /** What the code reads from the header of block i. */
  ghost predicate BlockRead(m: Headers, bs: seq<Major>, i: nat)
    requires i < |bs|
  {
    var b := bs[i];
    && b.addr > 0 && b.addr in m.majInfo && b.addr in m.majUsage && b.addr in m.majFirst && b.addr in m.majNext
    && m.majInfo[b.addr].size == b.Size() && m.majUsage[b.addr] == b.usage && b.usage <= b.Size()
    && m.majFirst[b.addr] == Lists.At(MinorAddrs(b.minors), 0)
    && (b.minors != [] ==> m.majFirst[b.addr] > 0)
    && m.majNext[b.addr] == (if i + 1 < |bs| then bs[i + 1].addr else 0)
    && (i + 1 < |bs| ==> bs[i + 1].addr > 0)
    && b.Valid()
  }

  lemma ReadBlock(c: Config, base: nat, s: Image, g: Ghosts, i: nat)
    requires c.Good() && Consistent(c, base, s, g) && i < |g.model.majors|
    ensures BlockRead(s.m, g.model.majors, i)
    ensures i + 1 == |g.model.majors| ==> Last(g.model) == g.model.majors[i].addr
  {
    var bs := g.model.majors;
    MajorsNoRepeat(g.model);
    assert i + 1 < |bs| ==> MajorAddrs(bs)[i + 1] == bs[i + 1].addr;
    assert BlockStored(s.m, bs[i]);
    assert MajorAddrs(bs)[i] == bs[i].addr;
    GapWithinFree(bs[i], 0);
    if bs[i].minors != [] {
      MinorInside(bs[i], 0);
    }
  }

  /** What it reads from the header of minor j of a block. */
  ghost predicate MinorRead(m: Headers, b: Major, j: nat)
    requires j < |b.minors|
  {
    var a := b.minors[j].addr;
    && a > 0 && a in m.minNext && a in m.minPrev && a in m.minInfo && a in m.minReq
    && m.minNext[a] == Lists.At(MinorAddrs(b.minors), j + 1)
    && m.minPrev[a] == Lists.At(MinorAddrs(b.minors), j - 1)
    && m.minInfo[a] == MinorInfo(b.addr, b.minors[j].size)
    && m.minReq[a] == b.minors[j].req
    && (j + 1 < |b.minors| <==> m.minNext[a] > 0)
    && (j > 0 <==> m.minPrev[a] > 0)
  }

  lemma ReadMinor(c: Config, base: nat, s: Image, g: Ghosts, i: nat, j: nat)
    requires c.Good() && Consistent(c, base, s, g) && i < |g.model.majors| && j < |g.model.majors[i].minors|
    ensures MinorRead(s.m, g.model.majors[i], j)
  {
    assert BlockStored(s.m, g.model.majors[i]);
    MinorsNoRepeat(g.model, i);
    MinorReadStored(s.m, g.model.majors[i], j);
  }

  lemma MinorReadStored(m: Headers, b: Major, j: nat)
    requires MinorsStored(m, b) && j < |b.minors| && forall l :: 0 <= l < |b.minors| ==> b.minors[l].addr > 0
    ensures MinorRead(m, b, j)
  {
    var addrs := MinorAddrs(b.minors);
    assert addrs[j] == b.minors[j].addr;
    assert j + 1 < |addrs| ==> addrs[j + 1] == b.minors[j + 1].addr;
    assert j > 0 ==> addrs[j - 1] == b.minors[j - 1].addr;
  }

  /** The roots, and where the hint points. */
  lemma ReadRoots(c: Config, base: nat, s: Image, g: Ghosts)
    requires c.Good() && Consistent(c, base, s, g)
    ensures s.root == Lists.At(MajorAddrs(g.model.majors), 0)
    ensures s.root == 0 <==> g.model.majors == []
    ensures s.bestBet == 0 <==> g.model.best.None?
    ensures g.model.best.Some? ==>
      g.model.best.value < |g.model.majors| && s.bestBet == g.model.majors[g.model.best.value].addr
  {
    MajorsNoRepeat(g.model);
    assert g.model.majors != [] ==> MajorAddrs(g.model.majors)[0] == g.model.majors[0].addr;
  }

  lemma HintKeepsConsistent(c: Config, base: nat, s: Image, g: Ghosts, i: nat)
    requires c.Good() && Consistent(c, base, s, g) && i < |g.model.majors|
    ensures Consistent(c, base, s.(bestBet := g.model.majors[i].addr), g.(model := g.model.(best := Some(i))))
  {
    var h' := g.model.(best := Some(i));
    assert forall m :: IsLive(h', m) <==> IsLive(g.model, m);
    assert NoStrays(s.m, h') by {
      forall a | a in s.m.minInfo ensures exists k: nat, l: nat :: HeaderAt(h', k, l, a) {
        var k: nat, l: nat :| HeaderAt(g.model, k, l, a);
        assert HeaderAt(h', k, l, a);
      }
    }
  }

  /** Where malloc's loop stands: still walking the blocks it found, or, after CASE 5 or the very first
      call appended a block, about to visit that one. */
  ghost predicate Looking(c: Config, h0: Heap, size: nat, h: Heap, i: nat, started: bool, appended: bool, grant: nat) {
    if appended then
      && i == |h0.majors| && !started && grant > 0 && Grantable(h0, size, grant)
      && Search(c, h0, size).0.None? && VisitsNewBlock(h0, size)
      && h == Append(h0.(best := Search(c, h0, size).1), grant, size)
    else
      && grant == 0 && h == h0.(best := h.best) && i <= |h0.majors|
      && Search(c, h0, size) == Rest(c, h0.majors, size, i, h.best, started)
  }

  /** The same in the middle of an iteration, when block i has been compared with the hint. */
  ghost predicate Compared(c: Config, h0: Heap, size: nat, h: Heap, i: nat, started: bool, appended: bool, grant: nat) {
    if appended then
      && i == |h0.majors| && grant > 0 && Grantable(h0, size, grant)
      && Search(c, h0, size).0.None?
      && h == Extended(h0.(best := Search(c, h0, size).1), grant, size)
    else
      && grant == 0 && h == h0.(best := h.best) && i < |h0.majors|
      && Search(c, h0, size) ==
           if FirstSlot(c, h0.majors[i], size).Some? then (Some(i), h.best)
           else Rest(c, h0.majors, size, i + 1, h.best, started)
  }

  lemma LookAtHint(c: Config, h: Heap, size: nat)
    requires h.majors != [] && (h.best.Some? ==> h.best.value < |h.majors|)
    ensures StartsAtBest(h, size) ==> Looking(c, h, size, h, h.best.value, true, false, 0)
    ensures !StartsAtBest(h, size) ==> Looking(c, h, size, h, 0, false, false, 0)
    ensures StartsAtBest(h, size) <==> h.best.Some? && BestFree(h.majors, h.best) > size + MINOR_HEADER
  {
    RestAtStart(c, h, size);
  }

  lemma LookAtFirstBlock(c: Config, h: Heap, size: nat, grant: nat)
    requires h.majors == [] && h.best.None?
    ensures Search(c, h, size) == (None, h.best)
    ensures Append(h, grant, size).majors == [NewBlock(grant, size)] && Append(h, grant, size).best.None?
    ensures grant > 0 && Grantable(h, size, grant) ==>
      Looking(c, h, size, Append(h, grant, size), 0, false, true, grant)
  {
    assert h == h.(best := Search(c, h, size).1);
  }

  /** A missed search appends a block; the loop either visits it or places into it at once (CASE 1). */
  lemma LookAtNewBlock(c: Config, h0: Heap, size: nat, h: Heap, grant: nat)
    requires Search(c, h0, size) == (None, h.best) && h == h0.(best := h.best)
    requires h.best.Some? ==> h.best.value < |h0.majors|
    requires grant > 0 && Grantable(h, size, grant) && h0.majors != [] && Serviceable(size)
    ensures var h1 := Append(h, grant, size);
      && |h1.majors| == |h0.majors| + 1
      && h1.majors[|h0.majors|] == NewBlock(grant, size)
      && (forall k :: 0 <= k < |h0.majors| ==> h1.majors[k] == h0.majors[k])
      && NewBlock(grant, size).Gap(0) >= size + MINOR_HEADER
      && BestFree(h1.majors, h1.best) == BestFree(h.majors, h.best)
      && (VisitsNewBlock(h0, size) ==> Looking(c, h0, size, h1, |h0.majors|, false, true, grant))
      && (!VisitsNewBlock(h0, size) ==> Compared(c, h0, size, h1, |h0.majors|, false, true, grant))
  {
    NewBlockHasSlot(c, grant, size);
  }

  lemma EmptyBlockGap(b: Major)
    requires b.Valid() && b.minors == []
    ensures b.Gap(0) == b.Free()
  {
  }

  /** Requests whose size arithmetic does not wrap, and those it wraps to exactly zero. The others get a
      minor too small for their request (ResultIsInsideMinor, BlockHoldsRequest). */
  predicate Askable(c: Config, req: nat) {
    && Answerable(c, req)
    && (c.alignment == 1 || Adjusted(c, req) == 0 || req + c.alignment + ALIGN_INFO < WORD)
  }

  lemma OpenIsWellFormed(c: Config, base: nat, s: Image, g: Ghosts)
    requires c.Good() && Consistent(c, base, s, g)
    ensures WellFormed(g.model)
  {
  }

  lemma NoneEmptyAfter(c: Config, h0: Heap, size: nat, req: nat, grant: nat, h: Heap, p: nat)
    requires c.Good() && WellFormed(h0) && NoneEmpty(h0) && Serviceable(size)
    requires GotAnswer(c, h0, size, req, grant, h, p)
    ensures NoneEmpty(h) && (p == 0 <==> Asks(c, h0, size) && grant == 0)
  {
    var i, j := MallocKeepsWellFormed(c, h0, size, req, grant);
    if p != 0 {
      MallocKeepsNoneEmpty(c, h0, size, req, grant, h, i, j);
    }
  }

  /** The minor behind a pointer malloc returned: it records the request, and every earlier allocation is
      still there and clear of it. */
  lemma NewPayload(c: Config, h0: Heap, req: nat, grant: nat, h: Heap, p: nat) returns (i: nat, j: nat)
    requires c.Good() && WellFormed(h0) && Answerable(c, req) && Grantable(h0, Adjusted(c, Effective(c, req)), grant)
    requires (h, p) == HeapCalls.Malloc(c, h0, req, grant) && p != 0
    ensures WellFormed(h) && i < |h.majors| && j < |h.majors[i].minors|
    ensures var n := h.majors[i].minors[j];
      && n.req == Effective(c, req) && n.size == Adjusted(c, n.req) && p == PointerOf(c, n)
      && forall m :: IsLive(h0, m) ==> IsLive(h, m) && (m.End() <= n.addr || n.End() <= m.addr)
  {
    EffectiveIsServiceable(c, req);
    var e := Effective(c, req);
    var size := Adjusted(c, e);
    i, j := MallocKeepsWellFormed(c, h0, size, e, grant);
    assert h.majors[i].minors[j] == Minor(Candidates(c, h0, size, grant)[i].Lo(j), size, e);
    forall m | IsLive(h0, m) ensures
      IsLive(h, m) && (m.End() <= h.majors[i].minors[j].addr || h.majors[i].minors[j].End() <= m.addr)
    {
      NewMinorIsApart(c, h0, size, e, grant, h, i, j, m);
      MallocAddsOneLive(c, h0, size, e, grant, h, i, j, m);
    }
  }

  /** A call's result has room for all the bytes asked for exactly when the size arithmetic does not wrap. The
      request that wraps to size zero, served as malloc(1), is among those that get too little. */
  lemma ResultFitsIff(c: Config, h0: Heap, req: nat, grant: nat, h: Heap, p: nat) returns (i: nat, j: nat)
    requires c.Good() && WellFormed(h0) && req < WORD && Answerable(c, req)
    requires Grantable(h0, Adjusted(c, Effective(c, req)), grant)
    requires (h, p) == HeapCalls.Malloc(c, h0, req, grant) && p != 0
    ensures i < |h.majors| && j < |h.majors[i].minors| && p == PointerOf(c, h.majors[i].minors[j])
    ensures var m := h.majors[i].minors[j];
      && m.req == (if req == (if c.alignment > 1 then WORD - c.alignment - 16 else 0) then 1 else req)
      && m.size == (if c.alignment > 1 then Wrap32(m.req + c.alignment + 16) else m.req)
      && (p + req <= m.End() <==> c.alignment == 1 || req + c.alignment + ALIGN_INFO < WORD)
      && (c.alignment > 1 ==> (p - ALIGN_INFO < m.End() <==> Padding(c, m.addr + MINOR_HEADER) < m.size))
  {
    hide HeapCalls.Malloc, WellFormed, Grantable;
    i, j := NewPayload(c, h0, req, grant, h, p);
    var m := h.majors[i].minors[j];
    FitsIff(c, req, m);
    hide Effective, Adjusted, AlignUp, Padding, Minor.End;
  }

  lemma FitsIff(c: Config, req: nat, m: Minor)
    requires c.Good() && req < WORD && m.req == Effective(c, req) && m.size == Adjusted(c, m.req)
    ensures var p := PointerOf(c, m);
      && m.req == (if req == (if c.alignment > 1 then WORD - c.alignment - 16 else 0) then 1 else req)
      && m.size == (if c.alignment > 1 then Wrap32(m.req + c.alignment + 16) else m.req)
      && (p + req <= m.End() <==> c.alignment == 1 || req + c.alignment + ALIGN_INFO < WORD)
      && (c.alignment > 1 ==> (p - ALIGN_INFO < m.End() <==> Padding(c, m.addr + MINOR_HEADER) < m.size))
  {
    ResultIsInsideMinor(c, m.req, m);
    AlignedPointer(c, m.addr + MINOR_HEADER);
  }

  lemma NewPointerFits(c: Config, req: nat, h: Heap, i: nat, j: nat)
    requires c.Good() && WellFormed(h) && i < |h.majors| && j < |h.majors[i].minors| && Fits(c, req)
    requires var n := h.majors[i].minors[j]; n.req == req && n.size == Adjusted(c, req)
    ensures Roomy(c, h.majors[i].minors[j])
    ensures PointerOf(c, h.majors[i].minors[j]) + req <= h.majors[i].minors[j].End() <= WORD
  {
    PointerInsideMinor(c, h.majors[i].minors[j]);
    MinorInside(h.majors[i], j);
  }

  /** UNALIGN leads back to the header: the skipped distance fits its byte. */
  predicate Reaches(c: Config, m: Minor)
    requires c.Good()
  {
    c.alignment == 1 || Padding(c, m.addr + MINOR_HEADER) + ALIGN_INFO < 256
  }

  /** In the shipped build realloc accepts the pointers malloc returned if and only if the variable the page
      allocator counts from stands more than 3792 and at most 4032 bytes into its page. */
  lemma ShippedReallocIff(base: nat, s: Image, g: Ghosts, i: nat)
    requires Consistent(SHIPPED, base, s, g) && OneEach(g.model) && i < |g.model.majors|
    ensures Reaches(SHIPPED, g.model.majors[i].minors[0]) <==> 3792 < base % PAGE_SIZE <= 4032
  {
    BlockAddress(SHIPPED, base, s, g, i);
    var b := g.model.majors[i];
    SameOffsetInPage(base, g.firstPage[i]);
    ShippedUnalignIff(b.addr);
    UnalignInvertsAlign(SHIPPED, b.addr + MAJOR_HEADER + MINOR_HEADER);
  }

  lemma SameOffsetInPage(base: nat, s: nat)
    ensures PageAddress(base, s) % PAGE_SIZE == base % PAGE_SIZE
  {
    var x := base + s * PAGE_SIZE;
    assert x == x / WORD * WORD + PageAddress(base, s);
    assert PageAddress(base, s) == base + (s - x / WORD * FRAMES) * PAGE_SIZE;
  }

  /** UNALIGN on the byte ALIGN stored: back at the header, or at an address inside the allocation. */
  lemma UnalignedHeader(c: Config, m: Minor)
    requires c.Good() && Roomy(c, m)
    ensures var hdr := Unalign(c, PointerOf(c, m), AlignByte(c, m.addr + MINOR_HEADER)) - MINOR_HEADER;
      if Reaches(c, m) then hdr == m.addr else m.addr < hdr < m.End()
  {
    PointerInsideMinor(c, m);
  }

  lemma LiveIsStamped(c: Config, s: Image, h: Heap, i: nat, j: nat)
    requires c.Good() && HeapPart(c, s, h) && i < |h.majors| && j < |h.majors[i].minors|
    ensures |s.mem| == WORD && h.majors[i].Valid()
    ensures IsLive(h, h.majors[i].minors[j]) && StampOk(c, s.mem, h.majors[i].minors[j])
  {
    hide Stored, Rooted, StampOk;
    assert IsLive(h, h.majors[i].minors[j]);
  }

  lemma LivePointer(c: Config, base: nat, s: Image, g: Ghosts, i: nat, j: nat)
    requires c.Good() && Consistent(c, base, s, g) && i < |g.model.majors| && j < |g.model.majors[i].minors|
    ensures var m := g.model.majors[i].minors[j];
      && Roomy(c, m) && IsLive(g.model, m)
      && 0 < PointerOf(c, m) && PointerOf(c, m) + m.req <= m.End() <= WORD
      && (c.alignment > 1 ==>
            && ALIGN_INFO <= PointerOf(c, m)
            && s.mem[PointerOf(c, m) - ALIGN_INFO] == AlignByte(c, m.addr + MINOR_HEADER))
  {
    hide HeapPart, PagesPart, IsLive;
    var m := g.model.majors[i].minors[j];
    LiveIsStamped(c, s, g.model, i, j);
    PointerInsideMinor(c, m);
    MinorInside(g.model.majors[i], j);
  }

  lemma NoHeaderStoredInside(c: Config, base: nat, s: Image, g: Ghosts, i: nat, j: nat, a: nat)
    requires c.Good() && Consistent(c, base, s, g) && i < |g.model.majors| && j < |g.model.majors[i].minors|
    requires g.model.majors[i].minors[j].addr < a < g.model.majors[i].minors[j].End()
    ensures a !in s.m.minInfo
  {
    if a in s.m.minInfo {
      var k: nat, l: nat :| HeaderAt(g.model, k, l, a);
      NoHeaderInside(g.model, i, j, a, k, l);
    }
  }

  /** The header address computed from a live pointer: the minor's own, or one where no header stands. */
  lemma HeaderFromPointer(c: Config, base: nat, s: Image, g: Ghosts, i: nat, j: nat)
    requires c.Good() && Consistent(c, base, s, g) && i < |g.model.majors| && j < |g.model.majors[i].minors|
    ensures var m := g.model.majors[i].minors[j];
      var p := PointerOf(c, m);
      && Roomy(c, m) && IsLive(g.model, m)
      && 0 < p && p + m.req <= m.End() <= WORD
      && (c.alignment > 1 ==> ALIGN_INFO <= p)
      && var hdr := Unalign(c, p, if c.alignment > 1 then s.mem[p - ALIGN_INFO] else 0) - MINOR_HEADER;
         && hdr >= 0
         && (Reaches(c, m) ==> hdr == m.addr && hdr in s.m.minInfo && hdr in s.m.minReq && s.m.minReq[hdr] == m.req)
         && (!Reaches(c, m) ==> hdr !in s.m.minInfo)
  {
    hide Consistent;
    var m := g.model.majors[i].minors[j];
    LivePointer(c, base, s, g, i, j);
    ReadMinor(c, base, s, g, i, j);
    UnalignedHeader(c, m);
    if !Reaches(c, m) {
      NoHeaderStoredInside(c, base, s, g, i, j,
        Unalign(c, PointerOf(c, m), AlignByte(c, m.addr + MINOR_HEADER)) - MINOR_HEADER);
    }
  }

  lemma RoomBetween(c: Config, h: Heap, i: nat, j: nat, n: Minor)
    requires c.Good() && i < |h.majors| && j < |h.majors[i].minors|
    requires Roomy(c, n) && Roomy(c, h.majors[i].minors[j])
    requires h.majors[i].minors[j].End() <= n.addr || n.End() <= h.majors[i].minors[j].addr
    ensures var m := h.majors[i].minors[j];
      var p, r := PointerOf(c, m), PointerOf(c, n);
      && (p + m.req <= r || r + n.req <= p)
      && (c.alignment > 1 ==> p + m.req <= r - ALIGN_INFO || r - ALIGN_INFO < p)
  {
    PointerInsideMinor(c, h.majors[i].minors[j]);
    PointerInsideMinor(c, n);
  }

  /** Requests that neither wrap nor take the zero branch. */
  predicate Fits(c: Config, req: nat) {
    Askable(c, req) && Adjusted(c, req) > 0
  }

  /** A call on heap value h0 came to heap value h and result p. */
  ghost predicate GotAnswer(c: Config, h0: Heap, size: nat, req: nat, grant: nat, h: Heap, p: nat)
    requires c.Good() && Serviceable(size)
  {
    Grantable(h0, size, grant) && (h, p) == HeapCalls.MallocSized(c, h0, size, req, grant)
  }

  lemma GiveUp(c: Config, h0: Heap, size: nat, req: nat, h: Heap)
    requires c.Good() && Serviceable(size)
    requires Search(c, h0, size) == (None, h.best) && h == h0.(best := h.best)
    ensures GotAnswer(c, h0, size, req, 0, h, 0)
  {
    SearchMisses(c, h0, size, req, 0, h.best);
  }

  lemma Compare(c: Config, h0: Heap, size: nat, h: Heap, i: nat, started: bool, appended: bool, grant: nat)
    requires Looking(c, h0, size, h, i, started, appended, grant) && i < |h.majors|
    ensures Compared(c, h0, size, h.(best := Better(h.majors, h.best, i)), i, started, appended, grant)
  {
    if !appended {
      RestStep(c, h0.majors, size, i, h.best, started);
    }
  }

  /** The new block always has the slot, so only an old block sends the search on. */
  lemma MoveOn(c: Config, h0: Heap, size: nat, h: Heap, i: nat, started: bool, appended: bool, grant: nat)
    requires Compared(c, h0, size, h, i, started, appended, grant) && Serviceable(size)
    requires i < |h.majors| && FirstSlot(c, h.majors[i], size).None?
    ensures !appended
    ensures i + 1 < |h.majors| ==> Looking(c, h0, size, h, i + 1, started, false, grant)
    ensures i + 1 == |h.majors| && started ==> Looking(c, h0, size, h, 0, false, false, grant)
    ensures i + 1 == |h.majors| && !started ==>
      && Search(c, h0, size) == (None, h.best) && h == h0.(best := h.best)
      && (VisitsNewBlock(h0, size) <==> h.majors[i].Free() >= size + MINOR_HEADER)
  {
    if appended {
      NewBlockHasSlot(c, grant, size);
    } else {
      RestStep(c, h0.majors, size, i, h.best, started);
    }
  }

  /** Filling the slot found is the outcome. */
  lemma Found(c: Config, h0: Heap, size: nat, req: nat, h: Heap, i: nat, started: bool, appended: bool,
              grant: nat, j: nat)
    requires c.Good() && Compared(c, h0, size, h, i, started, appended, grant) && Serviceable(size)
    requires i < |h.majors| && FirstSlot(c, h.majors[i], size) == Some(j)
    ensures GotAnswer(c, h0, size, req, grant, Inserted(h, i, j, size, req),
                      AlignUp(c, h.majors[i].Lo(j) + MINOR_HEADER))
    ensures appended <==> Search(c, h0, size).0.None?
  {
    if appended {
      NewBlockHasSlot(c, grant, size);
      assert h.majors[i] == NewBlock(grant, size);
      SearchMisses(c, h0, size, req, grant, Search(c, h0, size).1);
    } else {
      SearchHits(c, h0, size, req, grant, i, h.best, j);
    }
  }

  // ----- Another request size -----

  lemma WithReqLive(h: Heap, i: nat, j: nat, req: nat, n: Minor)
    requires i < |h.majors| && j < |h.majors[i].minors| && IsLive(WithReq(h, i, j, req), n)
    ensures IsLive(h, n) || n == h.majors[i].minors[j].(req := req)
  {
    var h' := WithReq(h, i, j, req);
    var k, l :| 0 <= k < |h'.majors| && 0 <= l < |h'.majors[k].minors| && h'.majors[k].minors[l] == n;
    if (k, l) != (i, j) {
      assert h.majors[k].minors[l] == n;
    }
  }

  lemma WithReqKeepsStored(m: Headers, h: Heap, i: nat, j: nat, req: nat)
    requires WellFormed(h) && Stored(m, h) && i < |h.majors| && j < |h.majors[i].minors|
    ensures Stored(m.(minReq := m.minReq[h.majors[i].minors[j].addr := req]), WithReq(h, i, j, req))
  {
    var a, h' := h.majors[i].minors[j].addr, WithReq(h, i, j, req);
    var m' := m.(minReq := m.minReq[a := req]);
    UpdatedMajorAddrs(h.majors, i, h'.majors[i]);
    hide WellFormed, BlockStored, NoStrays;
    forall k | 0 <= k < |h'.majors| ensures BlockStored(m', h'.majors[k]) {
      assert BlockStored(m, h.majors[k]);
      WithReqStoredAt(m, h, i, j, req, k);
    }
    WithReqKeepsStrays(m, h, i, j, req);
  }

  lemma WithReqKeepsStrays(m: Headers, h: Heap, i: nat, j: nat, req: nat)
    requires NoStrays(m, h) && i < |h.majors| && j < |h.majors[i].minors|
    ensures NoStrays(m.(minReq := m.minReq[h.majors[i].minors[j].addr := req]), WithReq(h, i, j, req))
  {
    forall x | x in m.minInfo ensures exists k: nat, l: nat :: HeaderAt(WithReq(h, i, j, req), k, l, x) {
      var k: nat, l: nat :| HeaderAt(h, k, l, x);
      assert HeaderAt(WithReq(h, i, j, req), k, l, x);
    }
  }

  lemma WithReqStoredAt(m: Headers, h: Heap, i: nat, j: nat, req: nat, k: nat)
    requires WellFormed(h) && i < |h.majors| && j < |h.majors[i].minors| && k < |h.majors|
    requires BlockStored(m, h.majors[k])
    ensures BlockStored(m.(minReq := m.minReq[h.majors[i].minors[j].addr := req]), WithReq(h, i, j, req).majors[k])
  {
    var b, b' := h.majors[k], WithReq(h, i, j, req).majors[k];
    assert MinorAddrs(b'.minors) == MinorAddrs(b.minors);
    forall l | 0 <= l < |b.minors| && (k, l) != (i, j) ensures b.minors[l].addr != h.majors[i].minors[j].addr {
      LiveMinorsApart(h, k, l, i, j);
    }
  }

  lemma ShrinkKeepsConsistent(c: Config, base: nat, s: Image, g: Ghosts, i: nat, j: nat, req: nat)
    requires c.Good() && Consistent(c, base, s, g) && i < |g.model.majors| && j < |g.model.majors[i].minors|
    requires req <= g.model.majors[i].minors[j].req
    ensures var a := g.model.majors[i].minors[j].addr;
      Consistent(c, base, s.(m := s.m.(minReq := s.m.minReq[a := req])), g.(model := WithReq(g.model, i, j, req)))
  {
    var h, h' := g.model, WithReq(g.model, i, j, req);
    WithReqKeepsWellFormed(h, i, j, req);
    WithReqKeepsStored(s.m, h, i, j, req);
    UpdatedMajorAddrs(h.majors, i, h'.majors[i]);
    WithReqKeepsStamped(c, s.mem, h, i, j, req);
    UpdateKeepsBacked(base, h.majors, i, h'.majors[i], g.firstPage, g.owned);
    hide Stored, Stamped, WellFormed, Exclusive, Backed;
  }

  lemma WithReqKeepsStamped(c: Config, mem: seq<Byte>, h: Heap, i: nat, j: nat, req: nat)
    requires c.Good() && Stamped(c, mem, h) && i < |h.majors| && j < |h.majors[i].minors|
    requires req <= h.majors[i].minors[j].req
    ensures Stamped(c, mem, WithReq(h, i, j, req))
  {
    var m := h.majors[i].minors[j];
    assert IsLive(h, m) && StampOk(c, mem, m);
    forall n | IsLive(WithReq(h, i, j, req), n) ensures StampOk(c, mem, n) {
      WithReqLive(h, i, j, req, n);
    }
  }

  lemma PayloadWriteKeepsConsistent(c: Config, base: nat, s: Image, g: Ghosts, i: nat, j: nat, len: nat, mem: seq<Byte>)
    requires c.Good() && Consistent(c, base, s, g) && i < |g.model.majors| && j < |g.model.majors[i].minors|
    requires len <= g.model.majors[i].minors[j].req && |mem| == WORD
    requires var p := PointerOf(c, g.model.majors[i].minors[j]);
      forall a :: 0 <= a < WORD && !(p <= a < p + len) ==> mem[a] == s.mem[a]
    ensures Consistent(c, base, s.(mem := mem), g)
  {
    PayloadWriteKeepsStamped(c, s.mem, mem, g.model, i, j, len);
  }

  // ----- Releasing a minor -----

  function UnlinkedImage(s: Image, h: Heap, i: nat, j: nat): Image
    requires i < |h.majors| && j < |h.majors[i].minors|
    requires h.majors[i].minors[j].size + MINOR_HEADER <= h.majors[i].usage
  {
    var b := h.majors[i];
    s.(inuse := s.inuse - b.minors[j].size,
       m := UnlinkMinor(s.m, b.addr, Before(b, j), After(b, j + 1), b.minors[j].addr, b.Remove(j).usage))
  }

  lemma UnlinkKeepsConsistent(c: Config, base: nat, s: Image, g: Ghosts, i: nat, j: nat)
    requires c.Good() && Consistent(c, base, s, g) && i < |g.model.majors| && j < |g.model.majors[i].minors|
    ensures g.model.majors[i].minors[j].size + MINOR_HEADER <= g.model.majors[i].usage
    ensures Consistent(c, base, UnlinkedImage(s, g.model, i, j), g.(model := Removed(g.model, i, j)))
  {
    hide Stored, Stamped, WellFormed, Exclusive, Backed, UnlinkMinor, Before, After;
    var h := g.model;
    RemovedKeepsWellFormed(h, i, j);
    var h' := Removed(h, i, j);
    UnlinkMinorStores(s.m, h, i, j);
    UpdatedMajorAddrs(h.majors, i, h'.majors[i]);
    RemovedKeepsStamped(c, s.mem, h, i, j);
    UpdateKeepsBacked(base, h.majors, i, h'.majors[i], g.firstPage, g.owned);
  }

  lemma RemovedKeepsStamped(c: Config, mem: seq<Byte>, h: Heap, i: nat, j: nat)
    requires c.Good() && Stamped(c, mem, h) && i < |h.majors| && j < |h.majors[i].minors|
    requires h.majors[i].minors[j].size + MINOR_HEADER <= h.majors[i].usage
    ensures Stamped(c, mem, Removed(h, i, j))
  {
    var h' := Removed(h, i, j);
    forall n | IsLive(h', n) ensures StampOk(c, mem, n) {
      var k, l :| 0 <= k < |h'.majors| && 0 <= l < |h'.majors[k].minors| && h'.majors[k].minors[l] == n;
      assert h.majors[k].minors[if k == i && l >= j then l + 1 else l] == n;
    }
  }

  lemma RemovedBlock(h: Heap, i: nat, j: nat)
    requires i < |h.majors| && j < |h.majors[i].minors|
    requires h.majors[i].minors[j].size + MINOR_HEADER <= h.majors[i].usage
    ensures var b := Removed(h, i, j).majors[i];
      b.pages == h.majors[i].pages && (b.minors == [] <==> |h.majors[i].minors| == 1)
  {
  }

  // ----- Releasing a block -----

  function DroppedImage(s: Image, h: Heap, i: nat, pages: Pages): Image
    requires i < |h.majors|
  {
    var addrs := MajorAddrs(h.majors);
    var maj := h.majors[i].addr;
    s.(root := if s.root == maj then Lists.At(addrs, i + 1) else s.root,
       bestBet := if s.bestBet == maj then 0 else s.bestBet,
       total := s.total - h.majors[i].Size(),
       m := UnlinkMajor(s.m, Lists.At(addrs, i - 1), Lists.At(addrs, i + 1)),
       pages := pages)
  }

  ghost function DroppedGhosts(g: Ghosts, i: nat): Ghosts
    requires i < |g.model.majors| && |g.firstPage| == |g.model.majors|
  {
    Ghosts(WithoutBlock(g.model, i), Lists.Dropped(g.firstPage, i),
           g.owned - Range(g.firstPage[i], g.model.majors[i].pages))
  }

  lemma DropKeepsConsistent(c: Config, base: nat, s: Image, g: Ghosts, i: nat)
    requires c.Good() && Consistent(c, base, s, g) && i < |g.model.majors| && g.model.majors[i].minors == []
    requires base < WORD
    ensures |g.firstPage| == |g.model.majors|
    ensures g.firstPage[i] + g.model.majors[i].pages <= |s.pages.entries|
    ensures var pages := Unmap(s.pages, g.firstPage[i], g.model.majors[i].pages);
      Consistent(c, base, DroppedImage(s, g.model, i, pages), DroppedGhosts(g, i))
  {
    hide Stored, Stamped, Exclusive, Rooted;
    var h, n := g.model, g.model.majors[i].pages;
    var h', g' := WithoutBlock(h, i), DroppedGhosts(g, i);
    var pages := Unmap(s.pages, g.firstPage[i], n);
    MajorsNoRepeat(h);
    WithoutBlockKeepsWellFormed(h, i);
    UnlinkMajorStores(s.m, h, h', i);
    DropKeepsRoots(s, h, i, pages);
    DropKeepsStamped(c, s.mem, h, i);
    UnmappingKeepsExclusive(s.pages, g.firstPage[i], n, g.owned);
    DropKeepsBacked(base, h, g.firstPage, g.owned, i);
    hide WellFormed, Backed;
  }

  lemma DropKeepsRoots(s: Image, h: Heap, i: nat, pages: Pages)
    requires Rooted(s, h) && i < |h.majors| && (h.best.Some? ==> h.best.value < |h.majors|)
    requires NoRepeat(MajorAddrs(h.majors)) && forall k :: 0 <= k < |h.majors| ==> h.majors[k].addr > 0
    ensures Rooted(DroppedImage(s, h, i, pages), WithoutBlock(h, i))
  {
    var addrs := MajorAddrs(h.majors);
    DroppedMajorAddrs(h.majors, i);
    assert addrs[i] == h.majors[i].addr;
    assert h.best.Some? ==> addrs[h.best.value] == h.majors[h.best.value].addr;
    assert WithoutBlock(h, i).majors == Lists.Dropped(h.majors, i);
  }

  lemma DropKeepsStamped(c: Config, mem: seq<Byte>, h: Heap, i: nat)
    requires c.Good() && Stamped(c, mem, h) && i < |h.majors|
    ensures Stamped(c, mem, WithoutBlock(h, i))
  {
    var h' := WithoutBlock(h, i);
    forall n | IsLive(h', n) ensures StampOk(c, mem, n) {
      var k, l :| 0 <= k < |h'.majors| && 0 <= l < |h'.majors[k].minors| && h'.majors[k].minors[l] == n;
      assert h.majors[if k < i then k else k + 1].minors[l] == n;
    }
  }

  lemma DropKeepsBacked(base: nat, h: Heap, firstPage: seq<nat>, owned: Owned, i: nat)
    requires WellFormed(h) && Backed(base, h.majors, firstPage, owned) && i < |h.majors| && base < WORD
    ensures Backed(base, WithoutBlock(h, i).majors, Lists.Dropped(firstPage, i),
                   owned - Range(firstPage[i], h.majors[i].pages))
  {
    var bs, fs := WithoutBlock(h, i).majors, Lists.Dropped(firstPage, i);
    var s, n := firstPage[i], h.majors[i].pages;
    forall k, p | 0 <= k < |bs| && fs[k] <= p < fs[k] + bs[k].pages ensures p in owned - Range(s, n) {
      var k' := if k < i then k else k + 1;
      assert bs[k] == h.majors[k'] && fs[k] == firstPage[k'];
      PagesApart(base, h, firstPage, owned, i, k', p);
    }
  }

  /** No page belongs to two blocks. */
  lemma PagesApart(base: nat, h: Heap, firstPage: seq<nat>, owned: Owned, i: nat, k: nat, p: nat)
    requires WellFormed(h) && Backed(base, h.majors, firstPage, owned) && base < WORD
    requires i < |h.majors| && k < |h.majors| && i != k
    requires firstPage[k] <= p < firstPage[k] + h.majors[k].pages
    ensures !(firstPage[i] <= p < firstPage[i] + h.majors[i].pages)
  {
    var a, b := h.majors[i], h.majors[k];
    assert if i < k then Apart(a, b) else Apart(b, a);
    PageInRun(base, firstPage[k], b.pages, p);
    if firstPage[i] <= p < firstPage[i] + a.pages {
      PageInRun(base, firstPage[i], a.pages, p);
    }
  }

  lemma StoredHeader(c: Config, base: nat, s: Image, g: Ghosts, a: nat) returns (i: nat, j: nat)
    requires c.Good() && Consistent(c, base, s, g) && a in s.m.minInfo
    ensures HeaderAt(g.model, i, j, a)
  {
    i, j :| HeaderAt(g.model, i, j, a);
  }

  lemma BlockAddress(c: Config, base: nat, s: Image, g: Ghosts, i: nat)
    requires c.Good() && Consistent(c, base, s, g) && i < |g.model.majors|
    ensures |g.firstPage| == |g.model.majors|
    ensures g.model.majors[i].addr == PageAddress(base, g.firstPage[i])
    ensures g.firstPage[i] + g.model.majors[i].pages <= KERNEL_PAGES < FRAMES && g.firstPage[i] < FRAMES
    ensures g.model.majors[i].addr in s.m.majInfo
    ensures s.m.majInfo[g.model.majors[i].addr].pages == g.model.majors[i].pages
  {
    hide Stamped, Exclusive, Rooted, PageAddress;
    assert BlockStored(s.m, g.model.majors[i]);
    BlockHasPages(g.model.majors[i]);
  }

  lemma BlockHasPages(b: Major)
    requires b.Valid()
    ensures b.pages >= 1
  {
    GapWithinFree(b, 0);
  }

  lemma ReadPrevious(c: Config, base: nat, s: Image, g: Ghosts, i: nat)
    requires c.Good() && Consistent(c, base, s, g) && i < |g.model.majors|
    ensures var a := g.model.majors[i].addr;
      && a in s.m.majPrev && s.m.majPrev[a] == Lists.At(MajorAddrs(g.model.majors), i - 1)
      && a in s.m.majNext && s.m.majNext[a] == Lists.At(MajorAddrs(g.model.majors), i + 1)
  {
    assert MajorAddrs(g.model.majors)[i] == g.model.majors[i].addr;
  }

  // ----- A new block -----

  function AppendedImage(s: Image, last: nat, addr: nat, size: nat, pages: Pages): Image {
    s.(root := if last == 0 then addr else s.root,
       total := s.total + PagesFor(size) * PAGE_SIZE,
       m := LinkMajor(s.m, last, addr, PagesFor(size)),
       pages := pages)
  }

  ghost function AppendedGhosts(g: Ghosts, addr: nat, size: nat, start: nat): Ghosts {
    Ghosts(Append(g.model, addr, size), g.firstPage + [start], g.owned + Range(start, PagesFor(size)))
  }

  lemma AppendKeepsConsistent(c: Config, base: nat, s: Image, g: Ghosts, size: nat, start: nat, pages: Pages)
    requires c.Good() && Consistent(c, base, s, g) && Serviceable(size) && base < WORD
    requires IsFirstFit(s.pages.entries, PagesFor(size), start) && Mapped(s.pages, pages, start, PagesFor(size))
    requires PageAddress(base, start) > 0 && Unbroken(base, start, PagesFor(size))
    ensures var addr := PageAddress(base, start);
      && Grantable(g.model, size, addr)
      && Consistent(c, base, AppendedImage(s, Last(g.model), addr, size, pages), AppendedGhosts(g, addr, size, start))
  {
    hide PageAddress, Unbroken;
    var addr, n := PageAddress(base, start), PagesFor(size);
    assert start + n <= KERNEL_PAGES && |pages.entries| == KERNEL_PAGES;
    assert forall k :: start <= k < start + n ==> k !in g.owned;
    hide Exclusive, Backed, HeapPart, Mapped, Grantable, PagesFor;
    GrantedHeapPart(c, base, s, g, size, start, pages);
    MappingKeepsExclusive(s.pages, pages, start, n, g.owned);
    AppendKeepsBacked(base, g.model.majors, NewBlock(addr, size), g.firstPage, g.owned, start, Range(start, n));
  }

  lemma GrantedHeapPart(c: Config, base: nat, s: Image, g: Ghosts, size: nat, start: nat, pages: Pages)
    requires c.Good() && HeapPart(c, s, g.model) && Backed(base, g.model.majors, g.firstPage, g.owned)
    requires Serviceable(size) && base < WORD && start >= 1 && start + PagesFor(size) <= KERNEL_PAGES
    requires PageAddress(base, start) > 0 && Unbroken(base, start, PagesFor(size))
    requires forall k :: start <= k < start + PagesFor(size) ==> k !in g.owned
    ensures var addr := PageAddress(base, start);
      && Grantable(g.model, size, addr)
      && HeapPart(c, AppendedImage(s, Last(g.model), addr, size, pages), Append(g.model, addr, size))
  {
    hide PageAddress, Unbroken, Backed, Grantable, PagesFor, Stored, Rooted, Stamped;
    FreshPagesGrantableIff(base, g.model, g.firstPage, g.owned, start, size);
    AppendKeepsHeap(c, s, g.model, PageAddress(base, start), size, pages);
  }

  lemma AppendKeepsHeap(c: Config, s: Image, h: Heap, addr: nat, size: nat, pages: Pages)
    requires c.Good() && HeapPart(c, s, h) && Serviceable(size) && addr > 0 && Grantable(h, size, addr)
    ensures HeapPart(c, AppendedImage(s, Last(h), addr, size, pages), Append(h, addr, size))
  {
    MajorsNoRepeat(h);
    hide Stored, Rooted, Stamped;
    AppendKeepsWellFormed(h, addr, size);
    WellFormedAppend(h, addr, size);
    LinkMajorStores(s.m, h, addr, size);
    AppendKeepsRoots(s, h, addr, size, pages);
    AppendKeepsStamped(c, s.mem, h, addr, size);
  }

  lemma AppendKeepsRoots(s: Image, h: Heap, addr: nat, size: nat, pages: Pages)
    requires Rooted(s, h) && addr > 0 && forall k :: 0 <= k < |h.majors| ==> h.majors[k].addr > 0
    requires h.best.Some? ==> h.best.value < |h.majors|
    ensures Rooted(AppendedImage(s, Last(h), addr, size, pages), Append(h, addr, size))
  {
    assert MajorAddrs(h.majors + [NewBlock(addr, size)]) == MajorAddrs(h.majors) + [addr];
  }

  lemma AppendKeepsStamped(c: Config, mem: seq<Byte>, h: Heap, addr: nat, size: nat)
    requires c.Good() && Stamped(c, mem, h)
    ensures Stamped(c, mem, Append(h, addr, size))
  {
    forall m | IsLive(Append(h, addr, size), m) ensures StampOk(c, mem, m) {
      EmptyBlockAddsNoLive(h.majors, NewBlock(addr, size), m);
    }
  }

  lemma AppendKeepsBacked(base: nat, bs: seq<Major>, b: Major, firstPage: seq<nat>, owned: Owned, start: nat,
                          more: Owned)
    requires Backed(base, bs, firstPage, owned) && start + b.pages <= KERNEL_PAGES
    requires b.addr == PageAddress(base, start) && forall k :: start <= k < start + b.pages ==> k in more
    ensures Backed(base, bs + [b], firstPage + [start], owned + more)
  {
  }

  /** A panic of the page allocator leaves the heap as it was. */
  lemma PanicKeepsConsistent(c: Config, base: nat, s: Image, g: Ghosts, mask: Mask, start: nat, n: nat)
    requires c.Good() && Consistent(c, base, s, g) && IsFirstFit(s.pages.entries, n, start)
    ensures start + n <= |s.pages.entries|
    ensures Consistent(c, base, s.(pages := MapRun(mask, s.pages, start, n).0), g)
  {
    PanicKeepsExclusive(mask, s.pages, start, n, g.owned);
  }

  /** The heap's statics, its headers and the bytes of the address space. */
  class Liballoc {
    const cfg: Config
    const vm: KernelPages
    const mem: array<Byte>

    var l_memRoot: nat
    var l_bestBet: nat
    var l_inuse: int
    var l_allocated: int
    var locked: bool
    var m: Headers

    ghost var g: Ghosts

    function State(): Image
      reads this, mem, vm.KernelPageTables, vm.pm, vm.pm.bitmap
    {
      Image(l_memRoot, l_bestBet, l_inuse, l_allocated, m, mem[..], vm.State())
    }

    /** The byte memory is not one of the page allocator's tables. */
    ghost predicate Separate() {
      mem as object != vm.KernelPageTables && mem as object != vm.pm.bitmap
    }

    /** What holds in the middle of a call too, when a new block may still be empty. */
    ghost predicate Open()
      reads this, mem, vm.KernelPageTables, vm.pm, vm.pm.bitmap
    {
      && cfg.Good() && mem.Length == WORD && Separate() && vm.Valid()
      && Consistent(cfg, vm.allocBase, State(), g)
    }

    ghost predicate Valid()
      reads this, mem, vm.KernelPageTables, vm.pm, vm.pm.bitmap
    {
      Open() && NoneEmpty(g.model)
    }

    constructor (cfg: Config, vm: KernelPages, mem: array<Byte>)
      requires cfg.Good() && vm.Valid() && mem.Length == WORD
      requires mem as object != vm.KernelPageTables && mem as object != vm.pm.bitmap
      ensures Valid() && g.model == EMPTY && !locked
      ensures this.cfg == cfg && this.vm == vm && this.mem == mem
    {
      this.cfg, this.vm, this.mem := cfg, vm, mem;
      l_memRoot, l_bestBet, l_inuse, l_allocated, locked := 0, 0, 0, 0, false;
      m := NO_HEADERS;
      g := Ghosts(EMPTY, [], {});
    }

    // ----- LibAllocStubs.c -----

    /** liballoc_lock. The source waits forever for a lock that is held, so asking for it then is an error. */
    method Lock()
      requires !locked
      modifies this`locked
      ensures locked
    {
      locked := true;
    }

    method Unlock()
      modifies this`locked
      ensures !locked
    {
      locked := false;
    }

    // ----- Placing a minor -----

    /** ALIGN on a pointer p. */
    method Align(p: nat) returns (r: nat)
      requires cfg.Good() && mem.Length == WORD
      requires cfg.alignment > 1 ==> ALIGN_INFO <= AlignUp(cfg, p) < WORD + ALIGN_INFO
      modifies mem
      ensures r == AlignUp(cfg, p)
      ensures mem[..] == if cfg.alignment > 1 then old(mem[..])[r - ALIGN_INFO := AlignByte(cfg, p)] else old(mem[..])
    {
      r := p;
      if cfg.alignment > 1 {
        r := r + ALIGN_INFO;
        var diff := r % cfg.alignment;
        if diff != 0 {
          diff := cfg.alignment - diff;
          r := r + diff;
        }
        mem[r - ALIGN_INFO] := (diff + ALIGN_INFO) % 256;
      }
    }

    /** The statements the placement cases share: the new header, the links around it, and the counters. */
    method WriteMinor(maj: nat, before: nat, after: nat, addr: nat, size: nat, req: nat)
      requires maj in m.majUsage
      modifies this`m, this`l_inuse
      ensures m == LinkMinor(old(m), maj, before, after, addr, size, req)
      ensures l_inuse == old(l_inuse) + size
    {
      m := m.(minPrev := m.minPrev[addr := before]);
      m := m.(minNext := m.minNext[addr := after]);
      m := m.(minInfo := m.minInfo[addr := MinorInfo(maj, size)]);
      m := m.(minReq := m.minReq[addr := req]);
      if before != 0 {
        m := m.(minNext := m.minNext[before := addr]);
      } else {
        m := m.(majFirst := m.majFirst[maj := addr]);
      }
      if after != 0 {
        m := m.(minPrev := m.minPrev[after := addr]);
      }
      m := m.(majUsage := m.majUsage[maj := m.majUsage[maj] + size + MINOR_HEADER]);
      l_inuse := l_inuse + size;
    }

    /** The whole placement: header, counters, and the alignment byte under the returned pointer. */
    method PlaceMinor(maj: nat, before: nat, after: nat, addr: nat, size: nat, req: nat)
      returns (p: nat)
      requires cfg.Good() && mem.Length == WORD && Separate() && maj in m.majUsage
      requires cfg.alignment > 1 ==> 0 <= StampAddress(cfg, Minor(addr, size, req)) < WORD
      modifies this`m, this`l_inuse, mem
      ensures p == AlignUp(cfg, addr + MINOR_HEADER)
      ensures State() == Placed(cfg, old(State()), maj, before, after, addr, size, req)
    {
      WriteMinor(maj, before, after, addr, size, req);
      p := Align(addr + MINOR_HEADER);
    }

    /** Fills a gap with a minor and returns its aligned payload. */
    method InsertMinor(maj: nat, before: nat, after: nat, addr: nat, size: nat, req: nat, ghost i: nat, ghost j: nat)
      returns (p: nat)
      requires Open() && i < |g.model.majors| && j <= |g.model.majors[i].minors|
      requires maj == g.model.majors[i].addr && addr == g.model.majors[i].Lo(j)
      requires before == Before(g.model.majors[i], j) && after == After(g.model.majors[i], j)
      requires g.model.majors[i].Gap(j) >= size + MINOR_HEADER && Roomy(cfg, Minor(0, size, req))
      modifies this`m, this`l_inuse, this`g, mem
      ensures Open() && g == old(g).(model := Inserted(old(g).model, i, j, size, req))
      ensures p == AlignUp(cfg, addr + MINOR_HEADER)
      ensures mem[..] == Stamp(cfg, old(mem[..]), Minor(addr, size, req))
    {
      hide Consistent;
      InsertKeepsConsistent(cfg, vm.allocBase, State(), g, i, j, size, req);
      ghost var s' := Placed(cfg, State(), maj, before, after, addr, size, req);
      assert s' == InsertedImage(cfg, State(), g.model, i, j, size, req);
      p := PlaceMinor(maj, before, after, addr, size, req);
      g := g.(model := Inserted(g.model, i, j, size, req));
      assert Consistent(cfg, vm.allocBase, s', g);
    }

    // ----- Asking for pages -----

    /** The pages the page source would give for a block of this size do not run over the end of the address space. */
    ghost predicate RunUnbroken(size: nat)
      reads vm.KernelPageTables
    {
      forall s :: IsFirstFit(vm.KernelPageTables[..], PagesFor(size), s) ==>
        Unbroken(vm.allocBase, s, PagesFor(size))
    }

    static method PagesNeeded(size: nat) returns (st: nat)
      ensures st == PagesFor(size)
    {
      st := Wrap32(size + MAJOR_HEADER);
      st := Wrap32(st + MINOR_HEADER);
      if st % PAGE_SIZE == 0 {
        st := st / PAGE_SIZE;
      } else {
        st := st / PAGE_SIZE + 1;
      }
      if st < PAGE_COUNT {
        st := PAGE_COUNT;
      }
    }

    /** What happened to the pages since the call: nothing, or what the page source does for a block of this size. */
    twostate predicate PagesAnswered(asked: bool, size: nat, grant: nat)
      reads vm.KernelPageTables, vm.pm, vm.pm.bitmap
    {
      Answered(asked, vm.pm.mask, vm.allocBase, old(vm.State()), vm.State(), PagesFor(size), grant)
    }

    /** allocate_new_page, and linking its block behind the last one (or as the root). The result is the answer of
        the page source. */
    method AppendBlock(last: nat, size: nat) returns (addr: nat)
      requires Open() && Serviceable(size) && last == Last(g.model) && RunUnbroken(size)
      modifies this`m, this`l_memRoot, this`l_allocated, this`g, vm.KernelPageTables, vm.pm`top, vm.pm.bitmap
      ensures Open() && mem[..] == old(mem[..])
      ensures PagesAnswered(true, size, addr)
      ensures addr == 0 ==> g == old(g)
      ensures addr != 0 ==> Grantable(old(g).model, size, addr) && g.model == Append(old(g).model, addr, size)
    {
      hide Consistent, MapRun, Mapped, IsFirstFit, NoFit, PagesFor, Append, Grantable, PageAddress, Unbroken;
      ghost var s := State();
      var st := PagesNeeded(size);
      var r, start := vm.MmVmAllocate(st);
      assert mem[..] == old(mem[..]);
      if r.None? {
        if State() != s {
          PanicKeepsConsistent(cfg, vm.allocBase, s, g, vm.pm.mask, start, st);
          assert State() == s.(pages := MapRun(vm.pm.mask, s.pages, start, st).0);
        }
        return 0;
      }
      addr := r.value;
      if addr == 0 {
        PanicKeepsConsistent(cfg, vm.allocBase, s, g, vm.pm.mask, start, st);
        assert State() == s.(pages := MapRun(vm.pm.mask, s.pages, start, st).0);
        return;
      }
      AppendKeepsConsistent(cfg, vm.allocBase, s, g, size, start, vm.State());
      WriteMajor(last, addr, st);
      g := AppendedGhosts(g, addr, size, start);
      assert State() == AppendedImage(s, last, addr, size, vm.State());
    }

    method WriteMajor(last: nat, addr: nat, pages: nat)
      modifies this`m, this`l_memRoot, this`l_allocated
      ensures m == LinkMajor(old(m), last, addr, pages)
      ensures l_memRoot == (if last == 0 then addr else old(l_memRoot))
      ensures l_allocated == old(l_allocated) + pages * PAGE_SIZE
    {
      m := m.(majPrev := m.majPrev[addr := 0]);
      m := m.(majNext := m.majNext[addr := 0]);
      m := m.(majInfo := m.majInfo[addr := MajorInfo(pages, pages * PAGE_SIZE)]);
      m := m.(majUsage := m.majUsage[addr := MAJOR_HEADER]);
      m := m.(majFirst := m.majFirst[addr := 0]);
      l_allocated := l_allocated + pages * PAGE_SIZE;
      if last == 0 {
        l_memRoot := addr;
      } else {
        m := m.(majNext := m.majNext[last := addr]);
        m := m.(majPrev := m.majPrev[addr := last]);
      }
    }

    // ----- malloc -----

    /** The hint statements: block i becomes the hint if it has more free bytes. */
    method Remember(maj: nat, bestSize: nat, diff: nat, ghost i: nat) returns (newSize: nat)
      requires Open() && i < |g.model.majors| && maj == g.model.majors[i].addr && diff == g.model.majors[i].Free()
      requires bestSize == BestFree(g.model.majors, g.model.best)
      modifies this`l_bestBet, this`g
      ensures Open() && g == old(g).(model := old(g).model.(best := Better(old(g).model.majors, old(g).model.best, i)))
      ensures newSize == BestFree(g.model.majors, g.model.best)
    {
      hide Consistent;
      newSize := bestSize;
      if bestSize < diff {
        HintKeepsConsistent(cfg, vm.allocBase, State(), g, i);
        l_bestBet := maj;
        newSize := diff;
        g := g.(model := g.model.(best := Some(i)));
      }
    }

    /** CASE 4: the gaps behind the minors of block i, in order. The result is 0 when none is large enough. */
    method InsertBetween(maj: nat, size: nat, req: nat, ghost i: nat) returns (p: nat)
      requires Open() && i < |g.model.majors| && maj == g.model.majors[i].addr
      requires g.model.majors[i].minors != [] && Roomy(cfg, Minor(0, size, req))
      modifies this`m, this`l_inuse, this`g, mem
      ensures Open()
      ensures var slot := SlotFrom(old(g).model.majors[i], size, 1);
        if slot.None? then p == 0 && g == old(g) && mem[..] == old(mem[..])
        else
          var b := old(g).model.majors[i];
          && g == old(g).(model := Inserted(old(g).model, i, slot.value, size, req))
          && p == AlignUp(cfg, b.Lo(slot.value) + MINOR_HEADER) && p > 0
      ensures OnlyStamp(p)
    {
      hide Consistent, Inserted, WellFormed, AlignUp, Roomy, SlotFrom;
      ghost var b := g.model.majors[i];
      ReadBlock(cfg, vm.allocBase, State(), g, i);
      var min := m.majFirst[maj];
      ghost var j := 0;
      while min != 0
        invariant Open() && g == old(g) && mem[..] == old(mem[..])
        invariant j <= |b.minors| && min == Lists.At(MinorAddrs(b.minors), j) && (min == 0 <==> j == |b.minors|)
        invariant SlotFrom(b, size, 1) == SlotFrom(b, size, j + 1)
        decreases |b.minors| - j
      {
        ReadBlock(cfg, vm.allocBase, State(), g, i);
        ReadMinor(cfg, vm.allocBase, State(), g, i, j);
        assert min == b.minors[j].addr;
        var end := min + MINOR_HEADER + m.minInfo[min].size;
        var after := m.minNext[min];
        var limit := if after == 0 then maj + m.majInfo[maj].size else after;
        assert end == b.Lo(j + 1) && limit == b.Hi(j + 1) by {
          assert after > 0 ==> after == b.minors[j + 1].addr;
        }
        var diff := limit - end;
        SlotStep(b, size, j + 1);
        if diff >= size + MINOR_HEADER {
          AlignedPointer(cfg, end + MINOR_HEADER);
          p := InsertMinor(maj, min, after, end, size, req, i, j + 1);
          return;
        }
        min := after;
        j := j + 1;
      }
      SlotEnd(b, size);
      p := 0;
    }

    /** The bytes a call may have changed: the alignment byte of the pointer it returned. */
    twostate predicate OnlyStamp(p: nat)
      reads mem
    {
      forall a :: 0 <= a < mem.Length && !(p > 0 && cfg.alignment > 1 && a == p - ALIGN_INFO) ==> mem[a] == old(mem[a])
    }

    /** CASE 2 and CASE 3: in front of the first minor of block i, or into the empty block. */
    method InsertFirst(maj: nat, size: nat, req: nat, ghost i: nat) returns (p: nat)
      requires Open() && i < |g.model.majors| && maj == g.model.majors[i].addr
      requires g.model.majors[i].Gap(0) >= size + MINOR_HEADER && Roomy(cfg, Minor(0, size, req))
      modifies this`m, this`l_inuse, this`g, mem
      ensures Open() && g == old(g).(model := Inserted(old(g).model, i, 0, size, req))
      ensures p == AlignUp(cfg, old(g).model.majors[i].Lo(0) + MINOR_HEADER) && p > 0
      ensures OnlyStamp(p)
    {
      hide Consistent;
      ReadBlock(cfg, vm.allocBase, State(), g, i);
      AlignedPointer(cfg, maj + MAJOR_HEADER + MINOR_HEADER);
      p := InsertMinor(maj, 0, m.majFirst[maj], maj + MAJOR_HEADER, size, req, i, 0);
    }

    /** CASE 2, 3 and 4 for one block. The result is 0 when it has no slot. */
    method TryBlock(maj: nat, size: nat, req: nat, ghost i: nat) returns (p: nat)
      requires Open() && i < |g.model.majors| && maj == g.model.majors[i].addr
      requires g.model.majors[i].minors == [] ==> g.model.majors[i].Gap(0) >= size + MINOR_HEADER
      requires Roomy(cfg, Minor(0, size, req))
      modifies this`m, this`l_inuse, this`g, mem
      ensures Open() && OnlyStamp(p)
      ensures var b := old(g).model.majors[i];
        var slot := FirstSlot(cfg, b, size);
        if slot.None? then p == 0 && g == old(g)
        else
          && p == AlignUp(cfg, b.Lo(slot.value) + MINOR_HEADER) && p > 0
          && g == old(g).(model := Inserted(old(g).model, i, slot.value, size, req))
    {
      hide Consistent, SlotFrom;
      ReadBlock(cfg, vm.allocBase, State(), g, i);
      if m.majFirst[maj] == 0 {
        p := InsertFirst(maj, size, req, i);
        return;
      }
      assert m.majFirst[maj] == g.model.majors[i].minors[0].addr;
      assert g.model.majors[i].Lo(0) <= g.model.majors[i].Hi(0);
      var diff := m.majFirst[maj] - maj - MAJOR_HEADER;
      if diff >= size + MINOR_HEADER {
        p := InsertFirst(maj, size, req, i);
        return;
      }
      p := 0;
      if cfg.useCase4 {
        p := InsertBetween(maj, size, req, i);
      }
    }

    /** The statements CASE 1 and CASE 5 share: on to the next block, or back to the root if the search
        started at the hint, or a new block. The result is 0 when the page source gave nothing. */
    method Advance(maj: nat, startedBet: bool, size: nat, ghost h0: Heap, ghost i: nat)
      returns (next: nat, started: bool, isNew: bool, ghost i': nat)
      requires Open() && i < |g.model.majors| && maj == g.model.majors[i].addr && Serviceable(size) && h0.majors != []
      requires HeapCalls.Search(cfg, h0, size).0.None? ==> RunUnbroken(size)
      requires i + 1 < |g.model.majors| ==> Looking(cfg, h0, size, g.model, i + 1, startedBet, false, 0)
      requires i + 1 == |g.model.majors| && startedBet ==> Looking(cfg, h0, size, g.model, 0, false, false, 0)
      requires i + 1 == |g.model.majors| && !startedBet ==>
        HeapCalls.Search(cfg, h0, size) == (None, g.model.best) && g.model == h0.(best := g.model.best)
      modifies this`m, this`l_memRoot, this`l_allocated, this`g, vm.KernelPageTables, vm.pm`top, vm.pm.bitmap
      ensures Open() && mem[..] == old(mem[..])
      ensures next == 0 ==>
        && HeapCalls.Search(cfg, h0, size) == (None, g.model.best) && g.model == h0.(best := g.model.best)
      ensures next != 0 ==> i' < |g.model.majors| && next == g.model.majors[i'].addr
      ensures PagesAnswered(next == 0 || isNew, size, if isNew then next else 0)
      ensures next != 0 && !isNew ==>
        && g == old(g)
        && Looking(cfg, h0, size, g.model, i', started, false, 0)
        && (if i' == i + 1 then started == startedBet else startedBet && !started)
      ensures isNew ==>
        && next != 0 && i + 1 == i' && !started && i' == |h0.majors| && |g.model.majors| == i' + 1
        && g.model.majors[i'] == NewBlock(next, size)
        && g.model.majors[i'].Gap(0) >= size + MINOR_HEADER
        && BestFree(g.model.majors, g.model.best) == old(BestFree(g.model.majors, g.model.best))
        && (VisitsNewBlock(h0, size) ==> Looking(cfg, h0, size, g.model, i', false, true, next))
        && (!VisitsNewBlock(h0, size) ==> Compared(cfg, h0, size, g.model, i', false, true, next))
    {
      hide Consistent, HeapCalls.Search, Looking, Compared, Append, Grantable, PageAnswer, PagesFor;
      ReadBlock(cfg, vm.allocBase, State(), g, i);
      ReadRoots(cfg, vm.allocBase, State(), g);
      isNew := false;
      if m.majNext[maj] != 0 {
        next, started, i' := m.majNext[maj], startedBet, i + 1;
      } else if startedBet {
        next, started, i' := l_memRoot, false, 0;
      } else {
        ghost var h := g.model;
        next := AppendBlock(maj, size);
        started, i', isNew := false, i + 1, next != 0;
        if next != 0 {
          LookAtNewBlock(cfg, h0, size, h, next);
        }
      }
    }

    /** malloc up to its loop: the first block if there is none, then the hint or the root to start from. */
    method Begin(size: nat) returns (maj: nat, startedBet: bool, bestSize: nat, ghost i: nat, ghost appended: bool)
      requires Open() && Serviceable(size)
      requires HeapCalls.Search(cfg, g.model, size).0.None? ==> RunUnbroken(size)
      modifies this`m, this`l_memRoot, this`l_allocated, this`g, vm.KernelPageTables, vm.pm`top, vm.pm.bitmap
      ensures Open() && mem[..] == old(mem[..])
      ensures PagesAnswered(maj == 0 || appended, size, if appended then maj else 0)
      ensures maj == 0 ==> g == old(g) && HeapCalls.Search(cfg, g.model, size) == (None, g.model.best)
      ensures maj != 0 ==>
        && i < |g.model.majors| && maj == g.model.majors[i].addr
        && bestSize == BestFree(g.model.majors, g.model.best)
        && old(g).model.majors == (if appended then [] else g.model.majors)
        && Looking(cfg, old(g).model, size, g.model, i, startedBet, appended, if appended then maj else 0)
    {
      hide Consistent, HeapCalls.Search, Append, Grantable, Looking, PageAnswer, PagesFor;
      ghost var h0 := g.model;
      startedBet, bestSize, i, appended := false, 0, 0, false;
      ReadRoots(cfg, vm.allocBase, State(), g);
      if l_memRoot == 0 {
        LookAtFirstBlock(cfg, h0, size, 0);
        maj := AppendBlock(0, size);
        LookAtFirstBlock(cfg, h0, size, maj);
        if maj == 0 {
          return;
        }
        appended := true;
        ReadRoots(cfg, vm.allocBase, State(), g);
      } else {
        LookAtHint(cfg, h0, size);
      }
      maj := l_memRoot;
      if l_bestBet != 0 {
        ReadBlock(cfg, vm.allocBase, State(), g, g.model.best.value);
        bestSize := m.majInfo[l_bestBet].size - m.majUsage[l_bestBet];
        if bestSize > size + MINOR_HEADER {
          maj, startedBet := l_bestBet, true;
          i := g.model.best.value;
        }
      }
    }

    /** The start of an iteration: the block's free bytes, and the hint. */
    method CompareWithHint(maj: nat, bestSize: nat, size: nat, ghost h0: Heap, ghost i: nat, ghost started: bool,
                           ghost appended: bool, ghost grant: nat)
      returns (diff: nat, newSize: nat)
      requires Open() && i < |g.model.majors| && maj == g.model.majors[i].addr && Serviceable(size)
      requires bestSize == BestFree(g.model.majors, g.model.best)
      requires Looking(cfg, h0, size, g.model, i, started, appended, grant)
      modifies this`l_bestBet, this`g
      ensures Open() && g == old(g).(model := old(g).model.(best := g.model.best))
      ensures diff == g.model.majors[i].Free() && newSize == BestFree(g.model.majors, g.model.best)
      ensures Compared(cfg, h0, size, g.model, i, started, appended, grant)
      ensures diff < size + MINOR_HEADER ==> FirstSlot(cfg, g.model.majors[i], size).None?
      ensures diff >= size + MINOR_HEADER && g.model.majors[i].minors == [] ==>
        g.model.majors[i].Gap(0) >= size + MINOR_HEADER
    {
      hide Consistent, Looking, Compared, FirstSlot;
      ReadBlock(cfg, vm.allocBase, State(), g, i);
      diff := m.majInfo[maj].size - m.majUsage[maj];
      Compare(cfg, h0, size, g.model, i, started, appended, grant);
      newSize := Remember(maj, bestSize, diff, i);
      if diff < size + MINOR_HEADER {
        TooFull(cfg, g.model.majors[i], size);
      } else if g.model.majors[i].minors == [] {
        EmptyBlockGap(g.model.majors[i]);
      }
    }

    /** The body of malloc between taking and releasing the lock. */
    method Search(size: nat, req: nat) returns (p: nat, ghost grant: nat)
      requires Valid() && locked && Serviceable(size) && Roomy(cfg, Minor(0, size, req))
      requires HeapCalls.Search(cfg, g.model, size).0.None? ==> RunUnbroken(size)
      modifies this, vm.KernelPageTables, vm.pm`top, vm.pm.bitmap, mem
      ensures Open() && locked && OnlyStamp(p)
      ensures GotAnswer(cfg, old(g).model, size, req, grant, g.model, p)
      ensures PagesAnswered(HeapCalls.Search(cfg, old(g).model, size).0.None?, size, grant)
    {
      hide Consistent, HeapCalls.Search, Scan, Rest, FirstSlot, HeapCalls.MallocSized, Extended, Append, Grantable,
        Better, Looking, Compared, GotAnswer, PageAnswer, PagesFor;
      ghost var h0 := g.model;
      p := 0;
      var maj, startedBet, bestSize;
      ghost var i: nat, appended;
      maj, startedBet, bestSize, i, appended := Begin(size);
      grant := if appended then maj else 0;
      if maj == 0 {
        GiveUp(cfg, h0, size, req, g.model);
        return p, 0;
      }
      while maj != 0
        invariant Open() && locked && p == 0 && OnlyStamp(0)
        invariant maj != 0 && i < |g.model.majors| && maj == g.model.majors[i].addr
        invariant bestSize == BestFree(g.model.majors, g.model.best)
        invariant Looking(cfg, h0, size, g.model, i, startedBet, appended, grant)
        invariant PagesAnswered(appended, size, grant)
        decreases if appended then 0 else 1, if startedBet then 1 else 0, |g.model.majors| - i
      {
        var diff, isNew;
        diff, bestSize := CompareWithHint(maj, bestSize, size, h0, i, startedBet, appended, grant);
        ghost var h := g.model;
        if diff < size + MINOR_HEADER {
          MoveOn(cfg, h0, size, h, i, startedBet, appended, grant);
          maj, startedBet, isNew, i := Advance(maj, startedBet, size, h0, i);
          if maj == 0 {
            GiveUp(cfg, h0, size, req, g.model);
            return 0, 0;
          }
          if !isNew {
            continue;
          }
          grant, appended, h := maj, true, g.model;
        }
        p := TryBlock(maj, size, req, i);
        if p != 0 {
          Found(cfg, h0, size, req, h, i, startedBet, appended, grant, FirstSlot(cfg, h.majors[i], size).value);
          return;
        }
        MoveOn(cfg, h0, size, h, i, startedBet, appended, grant);
        maj, startedBet, isNew, i := Advance(maj, startedBet, size, h0, i);
        if maj == 0 {
          GiveUp(cfg, h0, size, req, g.model);
          return 0, 0;
        }
        if isNew {
          grant, appended := maj, true;
        }
      }
    }

    /** If malloc has to ask for pages, those it gets do not run over the end of the address space. */
    ghost predicate PagesReach(req: nat)
      reads this, vm.KernelPageTables
    {
      Asks(cfg, g.model, Adjusted(cfg, Effective(cfg, req))) ==> RunUnbroken(Adjusted(cfg, Effective(cfg, req)))
    }

    /** What a call of malloc did to the pages: it asks for some exactly when no block has a slot. */
    twostate predicate MallocAnswered(req: nat, grant: nat)
      reads this, vm.KernelPageTables, vm.pm, vm.pm.bitmap
    {
      var size := Adjusted(cfg, Effective(cfg, req));
      PagesAnswered(Asks(cfg, old(g).model, size), size, grant)
    }

    /** malloc. The answer of the page source, 0 if it was not asked, is a ghost result. */
    method Malloc(req: nat) returns (p: nat, ghost grant: nat)
      requires Valid() && !locked && req < WORD && Askable(cfg, req) && PagesReach(req)
      modifies this, vm.KernelPageTables, vm.pm`top, vm.pm.bitmap, mem
      ensures Valid() && !locked && OnlyStamp(p)
      ensures Grantable(old(g).model, Adjusted(cfg, Effective(cfg, req)), grant)
      ensures (g.model, p) == HeapCalls.Malloc(cfg, old(g).model, req, grant)
      ensures MallocAnswered(req, grant)
      ensures p == 0 <==> Asks(cfg, old(g).model, Adjusted(cfg, Effective(cfg, req))) && grant == 0
      decreases if Adjusted(cfg, req) == 0 then 1 else 0
    {
      hide Consistent, HeapCalls.MallocSized, HeapCalls.Search, Grantable, WellFormed, RunUnbroken, PageAnswer,
        PagesFor;
      ghost var h0 := g.model;
      OpenIsWellFormed(cfg, vm.allocBase, State(), g);
      var size := req;
      if cfg.alignment > 1 {
        size := Wrap32(size + (cfg.alignment + ALIGN_INFO));
      }
      Lock();
      if size == 0 {
        Unlock();
        p, grant := Malloc(1);
        return;
      }
      EffectiveIsServiceable(cfg, req);
      SearchIsExhaustive(cfg, h0, size);
      p, grant := Search(size, req);
      NoneEmptyAfter(cfg, h0, size, req, grant, g.model, p);
      Unlock();
    }

    /** The bytes a call may have changed: the first n behind the pointer, and the alignment byte. */
    twostate predicate OnlyWritten(p: nat, n: nat)
      reads mem
    {
      forall a :: 0 <= a < mem.Length && !(p <= a < p + n) && !(p > 0 && cfg.alignment > 1 && a == p - ALIGN_INFO) ==>
        mem[a] == old(mem[a])
    }

    // ----- calloc -----

    /** calloc. The product is computed in 32 bits. Without memory the source clears the bytes at NULL. */
    method Calloc(nobj: nat, size: nat) returns (p: nat, ghost grant: nat)
      requires Valid() && !locked && Fits(cfg, Wrap32(nobj * size)) && PagesReach(Wrap32(nobj * size))
      modifies this, vm.KernelPageTables, vm.pm`top, vm.pm.bitmap, mem
      ensures !locked && Grantable(old(g).model, Adjusted(cfg, Wrap32(nobj * size)), grant)
      ensures (g.model, p) == HeapCalls.Malloc(cfg, old(g).model, Wrap32(nobj * size), grant)
      ensures MallocAnswered(Wrap32(nobj * size), grant)
      ensures p != 0 ==> Valid()
      ensures p + Wrap32(nobj * size) <= WORD && forall a :: p <= a < p + Wrap32(nobj * size) ==> mem[a] == 0
      ensures OnlyWritten(p, Wrap32(nobj * size))
    {
      hide Consistent, HeapCalls.Malloc, Grantable, WellFormed, PageAnswer, PagesFor;
      ghost var h0 := g.model;
      var realSize := Wrap32(nobj * size);
      OpenIsWellFormed(cfg, vm.allocBase, State(), g);
      p, grant := Malloc(realSize);
      ghost var s := State();
      if p != 0 {
        ghost var i, j := NewPayload(cfg, h0, realSize, grant, g.model, p);
        NewPointerFits(cfg, realSize, g.model, i, j);
        MemSet(mem, p, 0, realSize);
        PayloadWriteKeepsConsistent(cfg, vm.allocBase, s, g, i, j, realSize, mem[..]);
        assert State() == s.(mem := mem[..]);
      } else {
        MemSet(mem, p, 0, realSize);
      }
    }

    // ----- realloc -----

    /** UNALIGN, and the step to the header. */
    method HeaderOf(p: nat) returns (hdr: int)
      requires cfg.Good() && mem.Length == WORD && (cfg.alignment > 1 ==> ALIGN_INFO <= p < WORD + ALIGN_INFO)
      ensures hdr == Unalign(cfg, p, if cfg.alignment > 1 then mem[p - ALIGN_INFO] else 0) - MINOR_HEADER
    {
      var ptr: int := p;
      if cfg.alignment > 1 {
        var diff := mem[p - ALIGN_INFO];
        if diff < cfg.alignment + ALIGN_INFO {
          ptr := ptr - diff;
        }
      }
      hdr := ptr - MINOR_HEADER;
    }

    /** realloc of NULL or of the pointer to live minor j of block i. An unknown header is refused. */
    method Realloc(p: nat, size: nat, ghost i: nat, ghost j: nat) returns (r: nat, ghost grant: nat)
      requires Valid() && !locked && (size != 0 ==> Fits(cfg, size) && PagesReach(size))
      requires p != 0 ==>
        && i < |g.model.majors| && j < |g.model.majors[i].minors| && p == PointerOf(cfg, g.model.majors[i].minors[j])
      modifies this, vm.KernelPageTables, vm.pm`top, vm.pm.bitmap, mem
      ensures !locked
      ensures size == 0 ==> r == 0 && State() == old(State()) && g == old(g)
      ensures size != 0 && p == 0 ==>
        && Valid() && OnlyStamp(r) && (g.model, r) == HeapCalls.Malloc(cfg, old(g).model, size, grant)
        && MallocAnswered(size, grant)
      ensures size != 0 && p != 0 ==>
        var min := old(g).model.majors[i].minors[j];
        if !Reaches(cfg, min) then r == 0 && State() == old(State()) && g == old(g)
        else if size <= min.req then
          && Valid() && r == p && g.model == WithReq(old(g).model, i, j, size) && OnlyWritten(0, 0)
          && vm.State() == old(vm.State())
        else
          && (g.model, r) == HeapCalls.Malloc(cfg, old(g).model, size, grant)
          && MallocAnswered(size, grant)
          && (r != 0 ==> Valid())
          && r + min.req <= WORD && p + min.req <= WORD
          && mem[r..r + min.req] == old(mem[p..p + min.req])
          && OnlyWritten(r, min.req)
    {
      hide Consistent, HeapCalls.Malloc, Grantable, WellFormed, Unalign, PointerOf, Reaches, PageAnswer, PagesFor;
      grant := 0;
      if size == 0 {
        return 0, 0;
      }
      if p == 0 {
        r, grant := Malloc(size);
        return;
      }
      r, grant := Resize(p, size, i, j);
    }

    /** realloc of a live pointer: the header, if UNALIGN finds it, and then in place or not. */
    method Resize(p: nat, size: nat, ghost i: nat, ghost j: nat) returns (r: nat, ghost grant: nat)
      requires Valid() && !locked && size != 0 && Fits(cfg, size) && PagesReach(size)
      requires i < |g.model.majors| && j < |g.model.majors[i].minors|
      requires p == PointerOf(cfg, g.model.majors[i].minors[j])
      modifies this, vm.KernelPageTables, vm.pm`top, vm.pm.bitmap, mem
      ensures !locked
      ensures var min := old(g).model.majors[i].minors[j];
        if !Reaches(cfg, min) then r == 0 && State() == old(State()) && g == old(g)
        else if size <= min.req then
          && Valid() && r == p && g.model == WithReq(old(g).model, i, j, size) && OnlyWritten(0, 0)
          && vm.State() == old(vm.State())
        else
          && (g.model, r) == HeapCalls.Malloc(cfg, old(g).model, size, grant)
          && MallocAnswered(size, grant)
          && (r != 0 ==> Valid())
          && r + min.req <= WORD && p + min.req <= WORD
          && mem[r..r + min.req] == old(mem[p..p + min.req])
          && OnlyWritten(r, min.req)
    {
      hide Consistent, HeapCalls.Malloc, Grantable, WellFormed, Unalign, PointerOf, Roomy, PageAnswer, PagesFor,
        Asks, RunUnbroken, Answered, NoneEmpty;
      HeaderFromPointer(cfg, vm.allocBase, State(), g, i, j);
      var hdr := HeaderOf(p);
      Lock();
      if hdr !in m.minInfo {
        Unlock();
        return 0, 0;
      }
      var realSize := m.minReq[hdr];
      if realSize >= size {
        Shrink(hdr, size, i, j);
        Unlock();
        return p, 0;
      }
      Unlock();
      r, grant := GrowCopy(p, size, realSize, i, j);
    }

    /** A smaller request is only recorded. */
    method Shrink(hdr: nat, size: nat, ghost i: nat, ghost j: nat)
      requires Valid() && HeaderAt(g.model, i, j, hdr) && size <= g.model.majors[i].minors[j].req
      modifies this`m, this`g
      ensures Valid() && g.model == WithReq(old(g).model, i, j, size)
    {
      hide Consistent;
      ShrinkKeepsConsistent(cfg, vm.allocBase, State(), g, i, j, size);
      m := m.(minReq := m.minReq[hdr := size]);
      g := g.(model := WithReq(g.model, i, j, size));
    }

    /** The end of realloc: a larger block, and the old request's bytes. Without memory the source copies
        to NULL. */
    method GrowCopy(p: nat, size: nat, realSize: nat, ghost i: nat, ghost j: nat) returns (r: nat, ghost grant: nat)
      requires Valid() && !locked && Fits(cfg, size) && PagesReach(size) && realSize < size
      requires i < |g.model.majors| && j < |g.model.majors[i].minors|
      requires p == PointerOf(cfg, g.model.majors[i].minors[j]) && realSize == g.model.majors[i].minors[j].req
      modifies this, vm.KernelPageTables, vm.pm`top, vm.pm.bitmap, mem
      ensures !locked && (r != 0 ==> Valid())
      ensures (g.model, r) == HeapCalls.Malloc(cfg, old(g).model, size, grant)
      ensures MallocAnswered(size, grant)
      ensures r + realSize <= WORD && p + realSize <= WORD
      ensures mem[r..r + realSize] == old(mem[p..p + realSize])
      ensures OnlyWritten(r, realSize)
    {
      hide Consistent, HeapCalls.Malloc, Grantable, WellFormed, Unalign, PointerOf, Roomy, PageAnswer, PagesFor,
        Asks, RunUnbroken, Answered, NoneEmpty;
      ghost var h0 := g.model;
      HeaderFromPointer(cfg, vm.allocBase, State(), g, i, j);
      OpenIsWellFormed(cfg, vm.allocBase, State(), g);
      r, grant := Malloc(size);
      ghost var i', j' := 0, 0;
      if r != 0 {
        i', j' := NewPayload(cfg, h0, size, grant, g.model, r);
        NewPointerFits(cfg, size, g.model, i', j');
        RoomBetween(cfg, h0, i, j, g.model.majors[i'].minors[j']);
      }
      assert mem[p..p + realSize] == old(mem[p..p + realSize]);
      CopyPayload(r, p, realSize, i', j');
    }

    /** The copy of realloc, into a payload or, without memory, to NULL. */
    method CopyPayload(r: nat, p: nat, n: nat, ghost i: nat, ghost j: nat)
      requires Valid() && r + n <= WORD && p + n <= WORD && (r <= p || p + n <= r)
      requires r != 0 ==>
        && i < |g.model.majors| && j < |g.model.majors[i].minors|
        && r == PointerOf(cfg, g.model.majors[i].minors[j]) && n <= g.model.majors[i].minors[j].req
      modifies mem
      ensures r != 0 ==> Valid()
      ensures mem[r..r + n] == old(mem[p..p + n]) && vm.State() == old(vm.State())
      ensures forall a :: 0 <= a < mem.Length && !(r <= a < r + n) ==> mem[a] == old(mem[a])
    {
      hide Consistent, PointerOf;
      ghost var s := State();
      MemCpy(mem, r, p, n);
      assert State() == s.(mem := mem[..]);
      if r != 0 {
        PayloadWriteKeepsConsistent(cfg, vm.allocBase, s, g, i, j, n, mem[..]);
      }
    }

    // ----- free (commented out in the source) -----

    /** free's writes around a minor. */
    method WriteUnlinkMinor(maj: nat, before: nat, after: nat, addr: nat, size: nat)
      requires maj in m.majUsage && size + MINOR_HEADER <= m.majUsage[maj]
      modifies this`m, this`l_inuse
      ensures m == UnlinkMinor(old(m), maj, before, after, addr, old(m).majUsage[maj] - size - MINOR_HEADER)
      ensures l_inuse == old(l_inuse) - size
    {
      l_inuse := l_inuse - size;
      m := m.(majUsage := m.majUsage[maj := m.majUsage[maj] - (size + MINOR_HEADER)]);
      m := m.(minInfo := m.minInfo - {addr});
      if after != 0 {
        m := m.(minPrev := m.minPrev[after := before]);
      }
      if before != 0 {
        m := m.(minNext := m.minNext[before := after]);
      }
      if before == 0 {
        m := m.(majFirst := m.majFirst[maj := after]);
      }
    }

    /** Takes minor j out of block i, which may leave the block empty. */
    method RemoveMinor(min: nat, ghost i: nat, ghost j: nat) returns (maj: nat)
      requires Open() && HeaderAt(g.model, i, j, min)
      modifies this`m, this`l_inuse, this`g
      ensures old(g).model.majors[i].minors[j].size + MINOR_HEADER <= old(g).model.majors[i].usage
      ensures Open() && g == old(g).(model := Removed(old(g).model, i, j))
      ensures i < |g.model.majors| && maj == g.model.majors[i].addr
    {
      hide Consistent, UnlinkMinor;
      ReadBlock(cfg, vm.allocBase, State(), g, i);
      ReadMinor(cfg, vm.allocBase, State(), g, i, j);
      UnlinkKeepsConsistent(cfg, vm.allocBase, State(), g, i, j);
      ghost var s := State();
      maj := m.minInfo[min].block;
      WriteUnlinkMinor(maj, m.minPrev[min], m.minNext[min], min, m.minInfo[min].size);
      assert State() == UnlinkedImage(s, g.model, i, j);
      g := g.(model := Removed(g.model, i, j));
    }

    /** The two uses of VirtualAddress agree, which is what releasing the right pages takes
        (IndexInvertsAddress). */
    predicate BasesAgree() {
      vm.freeBase % PAGE_SIZE == 0 && vm.allocBase - vm.allocBase % PAGE_SIZE == vm.freeBase
    }

    /** Exactly the pages of block i became free. */
    ghost predicate ReleasedBlock(before: Pages, g0: Ghosts, i: nat, after: Pages) {
      && i < |g0.model.majors| && i < |g0.firstPage|
      && g0.firstPage[i] + g0.model.majors[i].pages <= |before.entries|
      && after == VirtualMemory.Unmap(before, g0.firstPage[i], g0.model.majors[i].pages)
    }

    /** Takes the empty block i out of the list and gives its pages back. */
    method DropBlock(maj: nat, ghost i: nat)
      requires Open() && i < |g.model.majors| && maj == g.model.majors[i].addr && g.model.majors[i].minors == []
      requires BasesAgree()
      modifies this`m, this`l_memRoot, this`l_bestBet, this`l_allocated, this`g, vm.KernelPageTables
      ensures Open() && g.model == WithoutBlock(old(g).model, i) && mem[..] == old(mem[..])
      ensures ReleasedBlock(old(vm.State()), old(g), i, vm.State())
    {
      hide Consistent;
      DropKeepsConsistent(cfg, vm.allocBase, State(), g, i);
      BlockAddress(cfg, vm.allocBase, State(), g, i);
      ReadBlock(cfg, vm.allocBase, State(), g, i);
      ReadPrevious(cfg, vm.allocBase, State(), g, i);
      ghost var s := State();
      var pages := m.majInfo[maj].pages;
      WriteUnlinkMajor(maj);
      IndexInvertsAddress(vm.allocBase, vm.freeBase, g.firstPage[i]);
      hide PageAddress, PageIndex;
      vm.MmVmFree(maj, pages);
      assert State() == DroppedImage(s, g.model, i, Unmap(s.pages, g.firstPage[i], g.model.majors[i].pages));
      g := DroppedGhosts(g, i);
    }

    /** free's writes around an emptied block. */
    method WriteUnlinkMajor(maj: nat)
      requires maj in m.majPrev && maj in m.majNext && maj in m.majInfo
      modifies this`m, this`l_memRoot, this`l_bestBet, this`l_allocated
      ensures m == UnlinkMajor(old(m), old(m).majPrev[maj], old(m).majNext[maj])
      ensures l_memRoot == (if old(l_memRoot) == maj then old(m).majNext[maj] else old(l_memRoot))
      ensures l_bestBet == (if old(l_bestBet) == maj then 0 else old(l_bestBet))
      ensures l_allocated == old(l_allocated) - old(m).majInfo[maj].size
    {
      var before, after := m.majPrev[maj], m.majNext[maj];
      if l_memRoot == maj {
        l_memRoot := after;
      }
      if l_bestBet == maj {
        l_bestBet := 0;
      }
      if before != 0 {
        m := m.(majNext := m.majNext[before := after]);
      }
      if after != 0 {
        m := m.(majPrev := m.majPrev[after := before]);
      }
      l_allocated := l_allocated - m.majInfo[maj].size;
    }

    /** The hint statements at the end of free, which compare in signed 32-bit variables. */
    method HintFreed(maj: nat, ghost i: nat)
      requires Open() && i < |g.model.majors| && maj == g.model.majors[i].addr
      modifies this`l_bestBet, this`g
      ensures Open() && mem[..] == old(mem[..])
      ensures g == old(g).(model := old(g).model.(best := HintAfterFree(old(g).model.majors, old(g).model.best, i)))
    {
      hide Consistent;
      ReadRoots(cfg, vm.allocBase, State(), g);
      if l_bestBet != 0 {
        ghost var k := g.model.best.value;
        ReadBlock(cfg, vm.allocBase, State(), g, k);
        ReadBlock(cfg, vm.allocBase, State(), g, i);
        var bestSize := AsSigned32(Wrap32(m.majInfo[l_bestBet].size - m.majUsage[l_bestBet]));
        var majSize := AsSigned32(Wrap32(m.majInfo[maj].size - m.majUsage[maj]));
        if majSize > bestSize {
          HintKeepsConsistent(cfg, vm.allocBase, State(), g, i);
          l_bestBet := maj;
          g := g.(model := g.model.(best := Some(i)));
        }
      }
    }

    /** free behind its checks: the minor, and its block with its pages if that was the last one. */
    method Release(min: nat, ghost i: nat, ghost j: nat)
      requires Valid() && HeaderAt(g.model, i, j, min) && BasesAgree()
      modifies this`m, this`l_memRoot, this`l_bestBet, this`l_inuse, this`l_allocated, this`g, vm.KernelPageTables
      ensures old(g).model.majors[i].minors[j].size + MINOR_HEADER <= old(g).model.majors[i].usage
      ensures Valid() && g.model == FreeAt(old(g).model, i, j) && mem[..] == old(mem[..])
      ensures if |old(g).model.majors[i].minors| == 1 then ReleasedBlock(old(vm.State()), old(g), i, vm.State())
              else vm.State() == old(vm.State())
    {
      hide Consistent, FreeAt, Removed;
      ghost var h0 := g.model;
      var maj := RemoveMinor(min, i, j);
      FreeInTwoSteps(h0, i, j);
      FreeKeepsNoneEmpty(h0, i, j);
      RemovedBlock(h0, i, j);
      ReadBlock(cfg, vm.allocBase, State(), g, i);
      if m.majFirst[maj] == 0 {
        DropBlock(maj, i);
      } else {
        HintFreed(maj, i);
      }
    }

    /** free. An address behind which no live header stands is refused; the page release needs the two
        uses of VirtualAddress to agree (IndexInvertsAddress). */
    method Free(ptr: nat) returns (ghost i: nat, ghost j: nat)
      requires Valid() && !locked && BasesAgree()
      requires ptr != 0 && cfg.alignment > 1 ==> ALIGN_INFO <= ptr < WORD + ALIGN_INFO
      modifies this, vm.KernelPageTables
      ensures Valid() && !locked && mem[..] == old(mem[..])
      ensures ptr == 0 ==> g == old(g) && State() == old(State())
      ensures ptr != 0 ==>
        var hdr := Unalign(cfg, ptr, if cfg.alignment > 1 then mem[ptr - ALIGN_INFO] else 0) - MINOR_HEADER;
        if hdr >= 0 && old(hdr in m.minInfo) then
          && HeaderAt(old(g).model, i, j, hdr)
          && old(g).model.majors[i].minors[j].size + MINOR_HEADER <= old(g).model.majors[i].usage
          && g.model == FreeAt(old(g).model, i, j)
          && (if |old(g).model.majors[i].minors| == 1 then ReleasedBlock(old(vm.State()), old(g), i, vm.State())
              else vm.State() == old(vm.State()))
        else g == old(g) && State() == old(State())
    {
      hide Consistent, Unalign, FreeAt;
      i, j := 0, 0;
      if ptr == 0 {
        return;
      }
      var hdr := HeaderOf(ptr);
      Lock();
      if hdr < 0 || hdr !in m.minInfo {
        Unlock();
        return;
      }
      i, j := StoredHeader(cfg, vm.allocBase, State(), g, hdr);
      Release(hdr, i, j);
      Unlock();
    }
  }
}
