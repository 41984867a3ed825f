/** From malloc down to physical memory: the heap, the page allocator, the frame allocator and the page
    walk together. */
module KernelMemory {
  import opened Words
  import opened PageEntries
  import opened PhysicalMemory
  import opened VirtualMemory
  import opened HeapModel
  import opened HeapCalls
  import opened HeapMemory
  import opened LibAlloc
  import P = Paging

  // ----- Addresses and pages -----

  /** The page the allocator filled for address a, when it adds to `base`. */
  function OwnPage(base: nat, a: nat): nat {
    Wrap32(a - base) / PAGE_SIZE
  }

  /** The page the processor uses for a kernel address. */
  function WalkedPage(a: nat): nat
    requires KERNEL_BASE <= a
  {
    (a - KERNEL_BASE) / PAGE_SIZE
  }

  /** Where the byte at address a lies when page table entry 0 belongs to the address `base`. */
  function PhysicalByte(p: Pages, base: nat, a: nat): nat
    requires OwnPage(base, a) < |p.entries|
  {
    p.entries[OwnPage(base, a)].PhysAddress * PAGE_SIZE + Wrap32(a - base) % PAGE_SIZE
  }

  /** The processor finds address a in the run of n pages from s on. */
  predicate InRunOf(s: nat, n: nat, a: nat) {
    KERNEL_BASE <= a && s <= WalkedPage(a) < s + n
  }

  /** Every address MmVmAllocate returns pages for is backed by those pages if and only if it adds to the start of
      kernel space. It adds to the address of a variable in .data, which lies above. */
  lemma RunIsBackedIff(base: nat, s: nat, n: nat)
    requires base < WORD && n >= 1 && s + n <= KERNEL_PAGES && Unbroken(base, s, n)
    ensures (forall a: nat :: PageAddress(base, s) <= a < PageAddress(base, s) + n * PAGE_SIZE ==> InRunOf(s, n, a))
      <==> base == KERNEL_BASE
  {
    var first := PageAddress(base, s);
    var last := first + n * PAGE_SIZE - 1;
    WrapOnce(base, s);
    if base != KERNEL_BASE {
      PageBounds(s, n, first);
      PageBounds(s, n, last);
      assert !InRunOf(s, n, first) || !InRunOf(s, n, last);
    } else {
      forall a: nat | first <= a < first + n * PAGE_SIZE ensures InRunOf(s, n, a) {
        PageBounds(s, n, a);
      }
    }
  }

  lemma PageBounds(s: nat, n: nat, a: nat)
    ensures InRunOf(s, n, a) <==> KERNEL_BASE + s * PAGE_SIZE <= a < KERNEL_BASE + (s + n) * PAGE_SIZE
  {
  }

  /** An instance: with the variable at 0xE0005004, the last byte of the 16 pages from page 256 on is looked for
      on the sixth page behind them. */
  lemma WrittenBaseInstance(base: nat, a: nat)
    requires base == 0xE000_5004 && a == PageAddress(base, 256) + 16 * PAGE_SIZE - 1
    ensures KERNEL_BASE <= a && WalkedPage(a) == 277 && OwnPage(base, a) == 271
  {
  }

  /** Which bytes of a run are backed by its pages as written: those below the run's end as the processor counts. */
  lemma BytesBackedIff(base: nat, s: nat, n: nat, a: nat)
    requires KERNEL_BASE <= base && base + (s + n) * PAGE_SIZE <= WORD
    requires PageAddress(base, s) <= a < PageAddress(base, s) + n * PAGE_SIZE
    ensures InRunOf(s, n, a) <==> a < KERNEL_BASE + (s + n) * PAGE_SIZE
  {
    assert PageAddress(base, s) == base + s * PAGE_SIZE;
    PageBounds(s, n, a);
  }

  /** And as written every fresh run ends in a fault: where nothing is mapped behind it yet, its last byte has no
      page, for every base above the start of kernel space. */
  lemma WrittenBaseFaults(base: nat, s: nat, n: nat, t: P.Tables, d: nat, kernel: nat, identity: nat,
                          entries: seq<Entry>)
    requires KERNEL_BASE < base < WORD && n >= 1 && base + (s + n) * PAGE_SIZE <= WORD
    requires P.Built(t, d, kernel, identity) && P.KernelView(t, kernel, entries)
    requires forall i :: s + n <= i < KERNEL_PAGES ==> !entries[i].Present
    ensures var a := PageAddress(base, s) + n * PAGE_SIZE - 1;
      P.Walkable(t, d, a) && P.Lookup(t, d, a).Some? && !P.Lookup(t, d, a).value.Present
  {
    var a := PageAddress(base, s) + n * PAGE_SIZE - 1;
    WrapOnce(base, s);
    P.KernelWalk(t, d, kernel, identity, entries, a);
    PageBounds(s + n, KERNEL_PAGES, a);
  }

  // ----- What malloc does to the tables -----

  /** The tables with other entries in the kernel's. */
  function WithEntries(t: P.Tables, kernel: nat, entries: seq<Entry>): P.Tables
    requires |entries| == KERNEL_PAGES
  {
    map f | f in t ::
      if P.IsKernelTable(kernel, f)
      then entries[(f - kernel) * P.TABLE_SIZE..(f - kernel + 1) * P.TABLE_SIZE]
      else t[f]
  }

  /** A successful malloc changes the tables as MmMap and MmAllocPageDirectory take it to: from what it says of the
      pages (Liballoc.MallocAnswered), with grant != 0 if it asked. */
  lemma MallocLeavesTables(t: P.Tables, kernel: nat, asked: bool, mask: Mask, base: nat, before: Pages, after: Pages,
                           size: nat, grant: nat) returns (start: nat, n: nat)
    requires Answered(asked, mask, base, before, after, PagesFor(size), grant) && (asked ==> grant != 0)
    requires P.KernelView(t, kernel, before.entries)
    ensures |after.entries| == KERNEL_PAGES
    ensures P.AfterMalloc(t, WithEntries(t, kernel, after.entries), kernel, before, after, start, n)
    ensures n == if asked then PagesFor(size) else 0
    ensures asked ==> IsFirstFit(before.entries, n, start) && grant == PageAddress(base, start)
  {
    start, n := 0, 0;
    if asked {
      n := PagesFor(size);
      start :| IsFirstFit(before.entries, n, start) && MapRun(mask, before, start, n) == (after, true)
               && grant == PageAddress(base, start);
      MapRunMaps(mask, before, start, n);
    }
    var t1 := WithEntries(t, kernel, after.entries);
    forall f, k | kernel <= f < kernel + P.KERNEL_TABLES && 0 <= k < P.TABLE_SIZE
      ensures t1[f][k] == after.entries[(f - kernel) * P.TABLE_SIZE + k]
    {
    }
  }

  // ----- The heap's bytes -----

  /** The address is in some block of the heap: in a header or in an allocation's payload. */
  ghost predicate InBlock(h: Heap, i: nat, a: nat) {
    i < |h.majors| && h.majors[i].addr <= a < h.majors[i].End()
  }

  /** Every byte of a block is on a page the allocator filled for the heap. */
  lemma BlockByteIsBacked(base: nat, h: Heap, firstPage: seq<nat>, owned: Owned, i: nat, a: nat)
    requires Backed(base, h.majors, firstPage, owned) && InBlock(h, i, a) && base < WORD && h.majors[i].End() <= WORD
    ensures OwnPage(base, a) < KERNEL_PAGES && OwnPage(base, a) in owned
  {
    var b, s := h.majors[i], firstPage[i];
    WrapOnce(base, s);
    assert Wrap32(a - base) == s * PAGE_SIZE + (a - b.addr);
    assert s <= OwnPage(base, a) < s + b.pages;
  }

  /** Any two different bytes of the heap's blocks are meant for different places of physical memory, whatever
      the base. */
  lemma HeapBytesHaveOwnPlaces(c: Config, base: nat, s: Image, g: Ghosts, i: nat, a: nat, k: nat, b: nat)
    requires c.Good() && Consistent(c, base, s, g) && base < WORD
    requires InBlock(g.model, i, a) && InBlock(g.model, k, b) && a != b
    ensures OwnPage(base, a) < |s.pages.entries| && OwnPage(base, b) < |s.pages.entries|
    ensures s.pages.entries[OwnPage(base, a)].Present && s.pages.entries[OwnPage(base, b)].Present
    ensures PhysicalByte(s.pages, base, a) != PhysicalByte(s.pages, base, b)
  {
    BlockByteIsBacked(base, g.model, g.firstPage, g.owned, i, a);
    BlockByteIsBacked(base, g.model, g.firstPage, g.owned, k, b);
    BlockEnds(c, s, g.model, i);
    BlockEnds(c, s, g.model, k);
    OffsetsDiffer(base, a, b);
    hide Consistent, HeapPart, Backed, OwnPage;
    FramesDiffer(s.pages, OwnPage(base, a), OwnPage(base, b),
                 Wrap32(a - base) % PAGE_SIZE, Wrap32(b - base) % PAGE_SIZE, g.owned);
  }

  lemma BlockEnds(c: Config, s: Image, h: Heap, i: nat)
    requires c.Good() && HeapPart(c, s, h) && i < |h.majors|
    ensures h.majors[i].Valid() && h.majors[i].End() <= WORD
  {
  }

  lemma OffsetsDiffer(base: nat, a: nat, b: nat)
    requires base < WORD && a < WORD && b < WORD && a != b
    ensures OwnPage(base, a) != OwnPage(base, b) || Wrap32(a - base) % PAGE_SIZE != Wrap32(b - base) % PAGE_SIZE
  {
    assert Wrap32(a - base) == if a >= base then a - base else a - base + WORD;
    assert Wrap32(b - base) == if b >= base then b - base else b - base + WORD;
  }

  lemma FramesDiffer(p: Pages, m: nat, n: nat, x: nat, y: nat, owned: Owned)
    requires Exclusive(p, owned) && m in owned && n in owned && x < PAGE_SIZE && y < PAGE_SIZE
    requires m != n || x != y
    ensures p.entries[m].PhysAddress * PAGE_SIZE + x != p.entries[n].PhysAddress * PAGE_SIZE + y
  {
  }

  /** The bytes of a block are all found on their own pages if and only if the allocator adds to the start of
      kernel space. */
  lemma BlockTranslatesIff(c: Config, base: nat, s: Image, g: Ghosts, i: nat)
    requires c.Good() && Consistent(c, base, s, g) && base < WORD && i < |g.model.majors|
    ensures (forall a: nat :: InBlock(g.model, i, a) ==> OnOwnPage(base, a)) <==> base == KERNEL_BASE
  {
    hide Exclusive, Stored, Rooted, Stamped;
    var b, first := g.model.majors[i], g.firstPage[i];
    BlockHasPages(b);
    if base == KERNEL_BASE {
      forall a: nat | InBlock(g.model, i, a) ensures OnOwnPage(base, a) {
        StartOfKernelSpace(a, first);
      }
    } else if forall a: nat :: InBlock(g.model, i, a) ==> OnOwnPage(base, a) {
      RunIsBackedIff(base, first, b.pages);
      forall a: nat | b.addr <= a < b.End() ensures InRunOf(first, b.pages, a) {
        assert InBlock(g.model, i, a) && OnOwnPage(base, a);
        PageOfBlockByte(base, first, b.pages, a);
      }
    }
  }

  ghost predicate OnOwnPage(base: nat, a: nat) {
    KERNEL_BASE <= a && WalkedPage(a) == OwnPage(base, a)
  }

  lemma StartOfKernelSpace(a: nat, s: nat)
    requires PageAddress(KERNEL_BASE, s) <= a < WORD && s < KERNEL_PAGES
    ensures OnOwnPage(KERNEL_BASE, a)
  {
    WrapOnce(KERNEL_BASE, s);
  }

  lemma PageOfBlockByte(base: nat, s: nat, n: nat, a: nat)
    requires base < WORD && n >= 1 && s + n <= KERNEL_PAGES && Unbroken(base, s, n)
    requires PageAddress(base, s) <= a < PageAddress(base, s) + n * PAGE_SIZE
    ensures s <= OwnPage(base, a) < s + n
  {
    WrapOnce(base, s);
    assert Wrap32(a - base) == s * PAGE_SIZE + (a - PageAddress(base, s));
  }

  /** With that base every byte of a block is found on a page of the heap, its own. */
  lemma HeapByteIsOwned(c: Config, s: Image, g: Ghosts, i: nat, a: nat)
    requires c.Good() && Consistent(c, KERNEL_BASE, s, g) && InBlock(g.model, i, a)
    ensures a < WORD && OnOwnPage(KERNEL_BASE, a) && WalkedPage(a) < |s.pages.entries| && WalkedPage(a) in g.owned
    ensures s.pages.entries[WalkedPage(a)].Present
  {
    hide Stored, Rooted, Stamped;
    BlockEnds(c, s, g.model, i);
    BlockByteIsBacked(KERNEL_BASE, g.model, g.firstPage, g.owned, i, a);
    BlockHasPages(g.model.majors[i]);
    StartOfKernelSpace(a, g.firstPage[i]);
  }

  /** The place meant for it is what the page walk finds, in every directory MmAllocPageDirectory filled. */
  lemma HeapByteTranslates(c: Config, s: Image, g: Ghosts, i: nat, a: nat,
                           t: P.Tables, d: nat, kernel: nat, identity: nat)
    requires c.Good() && Consistent(c, KERNEL_BASE, s, g) && InBlock(g.model, i, a)
    requires P.Built(t, d, kernel, identity) && P.KernelView(t, kernel, s.pages.entries)
    ensures KERNEL_BASE <= a && OwnPage(KERNEL_BASE, a) < |s.pages.entries|
    ensures P.Walkable(t, d, a) && P.VirtToPhys(t, d, a) == PhysicalByte(s.pages, KERNEL_BASE, a)
    ensures P.Lookup(t, d, a).Some? && P.Lookup(t, d, a).value.Present
  {
    hide P.Built, P.KernelView, Consistent, InBlock, P.Lookup, P.Walkable, OwnPage, Wrap32;
    HeapByteIsOwned(c, s, g, i, a);
    SameOffset(a);
    P.KernelWalk(t, d, kernel, identity, s.pages.entries, a);
  }

  lemma SameOffset(a: nat)
    requires KERNEL_BASE <= a < WORD
    ensures Wrap32(a - KERNEL_BASE) % PAGE_SIZE == a % PAGE_SIZE
  {
  }

  /** The ownership theorem: the bytes of two live allocations, reached through any two directories, are
      different bytes of physical memory, whenever the pages they are found on belong to the heap. */
  lemma AllocationsOwnTheirMemory(c: Config, base: nat, s: Image, g: Ghosts,
                                  i: nat, j: nat, a: nat, k: nat, l: nat, b: nat,
                                  t: P.Tables, d: nat, d': nat, kernel: nat, identity: nat)
    requires c.Good() && Consistent(c, base, s, g)
    requires i < |g.model.majors| && j < |g.model.majors[i].minors|
    requires k < |g.model.majors| && l < |g.model.majors[k].minors| && (i, j) != (k, l)
    requires var m := g.model.majors[i].minors[j]; m.addr <= a < m.End()
    requires var n := g.model.majors[k].minors[l]; n.addr <= b < n.End()
    requires P.Built(t, d, kernel, identity) && P.Built(t, d', kernel, identity)
    requires P.KernelView(t, kernel, s.pages.entries)
    requires KERNEL_BASE <= a && KERNEL_BASE <= b && WalkedPage(a) in g.owned && WalkedPage(b) in g.owned
    ensures P.Walkable(t, d, a) && P.Walkable(t, d', b)
    ensures P.VirtToPhys(t, d, a) != P.VirtToPhys(t, d', b)
  {
    MinorInside(g.model.majors[i], j);
    MinorInside(g.model.majors[k], l);
    BlockEnds(c, s, g.model, i);
    BlockEnds(c, s, g.model, k);
    LiveMinorsApart(g.model, i, j, k, l);
    P.KernelWalk(t, d, kernel, identity, s.pages.entries, a);
    P.KernelWalk(t, d', kernel, identity, s.pages.entries, b);
    assert Exclusive(s.pages, g.owned);
    hide Consistent, HeapPart, P.Built, P.KernelView, Exclusive;
    SamePageOtherOffset(a, b);
    FramesDiffer(s.pages, WalkedPage(a), WalkedPage(b), a % PAGE_SIZE, b % PAGE_SIZE, g.owned);
  }

  lemma SamePageOtherOffset(a: nat, b: nat)
    requires KERNEL_BASE <= a && KERNEL_BASE <= b && a != b
    ensures WalkedPage(a) != WalkedPage(b) || a % PAGE_SIZE != b % PAGE_SIZE
  {
  }

  /** With the intended base that is every byte of every allocation. */
  lemma IntendedBaseOwns(c: Config, s: Image, g: Ghosts, i: nat, j: nat, a: nat)
    requires c.Good() && Consistent(c, KERNEL_BASE, s, g)
    requires i < |g.model.majors| && j < |g.model.majors[i].minors|
    requires var m := g.model.majors[i].minors[j]; m.addr <= a < m.End()
    ensures KERNEL_BASE <= a && WalkedPage(a) in g.owned
  {
    MinorOfBlock(c, s, g.model, i, j);
    HeapByteIsOwned(c, s, g, i, a);
  }

  lemma MinorOfBlock(c: Config, s: Image, h: Heap, i: nat, j: nat)
    requires c.Good() && HeapPart(c, s, h) && i < |h.majors| && j < |h.majors[i].minors|
    ensures h.majors[i].addr <= h.majors[i].minors[j].addr && h.majors[i].minors[j].End() <= h.majors[i].End()
  {
    MinorInside(h.majors[i], j);
  }
}
