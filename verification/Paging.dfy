/** Two-level x86 paging (kernel/src/MM/Paging.c; Intel SDM Vol. 3A, section 4.3). Directories and tables
    are named by the physical frame they occupy, so two directory entries with one frame share a table. */
module Paging {
  import opened Words
  import opened PageEntries
  import VM = VirtualMemory

  const TABLE_SIZE: nat := 1024
  const KERNEL_SLOT: nat := 896
  const KERNEL_TABLES: nat := 128

  /** The frames that hold directories and tables. */
  type Tables = map<nat, seq<Entry>>

  ghost predicate IsTable(t: Tables, f: nat) {
    f in t && |t[f]| == TABLE_SIZE
  }

  /** Slot k of directory d is either empty or names a table; nothing is said of the other slots, which
      MmAllocPageDirectory leaves as it finds them. MmKernelPhysToVirt is taken to find the table a frame
      number names, as its declaration says; WrittenTableIff says when the code does. */
  ghost predicate SlotOk(t: Tables, d: nat, k: nat) {
    IsTable(t, d) && k < TABLE_SIZE && (t[d][k].Present ==> IsTable(t, t[d][k].PhysAddress))
  }

  /** The walk of virt through d is defined. */
  ghost predicate Walkable(t: Tables, d: nat, virt: nat) {
    virt < WORD && SlotOk(t, d, Slot(virt))
  }

  function Slot(virt: nat): nat { virt / 0x40_0000 }

  function Index(virt: nat): nat { virt / PAGE_SIZE % TABLE_SIZE }

  lemma PageSplits(virt: nat)
    ensures virt / PAGE_SIZE == Slot(virt) * TABLE_SIZE + Index(virt)
    ensures virt < WORD ==> Slot(virt) < TABLE_SIZE
  {
  }

  /** MmGetTable. */
  function GetTable(t: Tables, d: nat, k: nat): Option<nat>
    requires SlotOk(t, d, k)
  {
    if t[d][k].Present then Some(t[d][k].PhysAddress) else None
  }

  /** MmGetTableEntry: the place of the entry an address is translated by. */
  function GetTableEntry(t: Tables, d: nat, virt: nat): Option<(nat, nat)>
    requires Walkable(t, d, virt)
  {
    match GetTable(t, d, Slot(virt))
    case None => None
    case Some(f) => Some((f, Index(virt)))
  }

  /** What that entry holds. */
  function Lookup(t: Tables, d: nat, virt: nat): Option<Entry>
    requires Walkable(t, d, virt)
  {
    match GetTableEntry(t, d, virt)
    case None => None
    case Some((f, k)) => Some(t[f][k])
  }

  /** MmVirtToPhys: 0 without a table, and the frame even of a non-present page. */
  function VirtToPhys(t: Tables, d: nat, virt: nat): nat
    requires Walkable(t, d, virt)
  {
    match Lookup(t, d, virt)
    case None => 0
    case Some(e) => e.PhysAddress * PAGE_SIZE + virt % PAGE_SIZE
  }

  // ----- Changing one entry -----

  function Store(t: Tables, f: nat, k: nat, e: Entry): Tables
    requires f in t && k < |t[f]|
  {
    t[f := t[f][k := e]]
  }

  /** Exactly one entry differs, if any. */
  ghost predicate OnlyAt(t: Tables, t': Tables, f: nat, k: nat) {
    && t'.Keys == t.Keys
    && forall g :: g in t ==>
         |t'[g]| == |t[g]| && forall i :: 0 <= i < |t[g]| && !(g == f && i == k) ==> t'[g][i] == t[g][i]
  }

  lemma StoreTwice(t: Tables, f: nat, k: nat, e: Entry, e': Entry)
    requires f in t && k < |t[f]|
    ensures Store(Store(t, f, k, e), f, k, e') == Store(t, f, k, e')
  {
    assert t[f][k := e][k := e'] == t[f][k := e'];
  }

  /** The table slot k names is named by no other slot. */
  ghost predicate OwnTable(t: Tables, d: nat, k: nat)
    requires SlotOk(t, d, k)
  {
    forall l :: 0 <= l < TABLE_SIZE && l != k && t[d][l].Present && t[d][k].Present ==>
      t[d][l].PhysAddress != t[d][k].PhysAddress
  }

  /** Slot k does not name the directory itself. */
  ghost predicate NotRecursive(t: Tables, d: nat, k: nat)
    requires SlotOk(t, d, k)
  {
    t[d][k].Present ==> t[d][k].PhysAddress != d
  }

  /** Writing the entry of one address changes the lookup of exactly the addresses translated by the same
      place. */
  lemma StoreChangesPlace(t: Tables, d: nat, virt: nat, e: Entry, other: nat)
    requires Walkable(t, d, virt) && NotRecursive(t, d, Slot(virt)) && Walkable(t, d, other)
    requires GetTableEntry(t, d, virt).Some?
    ensures var (f, k) := GetTableEntry(t, d, virt).value;
      var t' := Store(t, f, k, e);
      && Walkable(t', d, other) && t'[d] == t[d]
      && GetTableEntry(t', d, other) == GetTableEntry(t, d, other)
      && Lookup(t', d, other) == if GetTableEntry(t, d, other) == Some((f, k)) then Some(e) else Lookup(t, d, other)
  {
  }

  /** Writing e as virt's entry leaves the page of another address alone. */
  ghost predicate Keeps(t: Tables, d: nat, virt: nat, e: Entry, other: nat)
    requires Walkable(t, d, virt) && GetTableEntry(t, d, virt).Some?
  {
    var (f, k) := GetTableEntry(t, d, virt).value;
    Walkable(t, d, other) && other / PAGE_SIZE != virt / PAGE_SIZE ==>
      Walkable(Store(t, f, k, e), d, other) && Lookup(Store(t, f, k, e), d, other) == Lookup(t, d, other)
  }

  /** Pages other than the written one keep their entries, whatever is written, exactly when no other
      directory entry names the same table. */
  lemma OthersKeptIff(t: Tables, d: nat, virt: nat)
    requires Walkable(t, d, virt) && NotRecursive(t, d, Slot(virt)) && GetTableEntry(t, d, virt).Some?
    ensures (forall e, other: nat :: Keeps(t, d, virt, e, other)) <==> OwnTable(t, d, Slot(virt))
  {
    var (f, k) := GetTableEntry(t, d, virt).value;
    if OwnTable(t, d, Slot(virt)) {
      forall e, other: nat ensures Keeps(t, d, virt, e, other) {
        if Walkable(t, d, other) && other / PAGE_SIZE != virt / PAGE_SIZE {
          OwnPlace(t, d, virt, other);
          StoreChangesPlace(t, d, virt, e, other);
        }
      }
    } else {
      var l :| 0 <= l < TABLE_SIZE && l != Slot(virt) && t[d][l].Present && t[d][l].PhysAddress == f;
      var other := l * 0x40_0000 + k * PAGE_SIZE;
      AddressOf(l, k);
      var e := t[f][k].(Present := !t[f][k].Present);
      PageSplits(virt);
      PageSplits(other);
      StoreChangesPlace(t, d, virt, e, other);
      assert !Keeps(t, d, virt, e, other);
    }
  }

  lemma AddressOf(l: nat, k: nat)
    requires l < TABLE_SIZE && k < TABLE_SIZE
    ensures var v := l * 0x40_0000 + k * PAGE_SIZE; v < WORD && Slot(v) == l && Index(v) == k
  {
    var v := l * 0x40_0000 + k * PAGE_SIZE;
    assert v / PAGE_SIZE == l * TABLE_SIZE + k;
  }

  lemma OwnPlace(t: Tables, d: nat, virt: nat, other: nat)
    requires Walkable(t, d, virt) && Walkable(t, d, other) && GetTableEntry(t, d, virt).Some?
    requires OwnTable(t, d, Slot(virt)) && other / PAGE_SIZE != virt / PAGE_SIZE
    ensures GetTableEntry(t, d, other) != GetTableEntry(t, d, virt)
  {
    PageSplits(virt);
    PageSplits(other);
  }

  // ----- Mapping and unmapping -----

  /** The entry MmMap writes. */
  function MappedEntry(e: Entry, phys: nat, user: bool, writable: bool): Entry {
    e.(PhysAddress := phys / PAGE_SIZE, Present := true, User := user, Writable := writable)
  }

  function UnmappedEntry(e: Entry): Entry {
    e.(PhysAddress := 0, Present := false, User := false, Writable := false)
  }

  /** The directory entry MmMap writes for a new table. */
  function TableEntryFor(f: nat, user: bool, writable: bool): Entry {
    Entry(true, writable, user, 0, f)
  }

  /** MmMap into an existing table. */
  function MapInto(t: Tables, d: nat, phys: nat, virt: nat, user: bool, writable: bool): Tables
    requires Walkable(t, d, virt) && GetTableEntry(t, d, virt).Some?
  {
    var (f, k) := GetTableEntry(t, d, virt).value;
    Store(t, f, k, MappedEntry(t[f][k], phys, user, writable))
  }

  /** MmMap that creates a table in frame `spare`, on the tables as malloc left them. The table keeps whatever the
      memory held before: the source does not clear it. */
  function MapNew(t: Tables, d: nat, phys: nat, virt: nat, user: bool, writable: bool, spare: nat,
                  stale: seq<Entry>): Tables
    requires Walkable(t, d, virt) && GetTableEntry(t, d, virt).None? && spare !in t && |stale| == TABLE_SIZE
  {
    var t1 := t[d := t[d][Slot(virt) := TableEntryFor(spare, user, writable)]][spare := stale];
    Store(t1, spare, Index(virt), MappedEntry(stale[Index(virt)], phys, user, writable))
  }

  /** MmUnmap, with its result. */
  function Unmap(t: Tables, d: nat, virt: nat): (Tables, bool)
    requires Walkable(t, d, virt)
  {
    match GetTableEntry(t, d, virt)
    case Some((f, k)) => (Store(t, f, k, UnmappedEntry(t[f][k])), true)
    case None => (t, false)
  }

  /** A mapped page translates to its frame at every offset, with the flags it was given and the other flag bits
      its entry had. */
  ghost predicate Translates(t: Tables, d: nat, page: nat, frame: nat, user: bool, writable: bool, other: nat) {
    forall v: nat :: v < WORD && v / PAGE_SIZE == page ==>
      && Walkable(t, d, v)
      && VirtToPhys(t, d, v) == frame * PAGE_SIZE + v % PAGE_SIZE
      && Lookup(t, d, v) == Some(Entry(true, writable, user, other, frame))
  }

  lemma SamePage(t: Tables, d: nat, virt: nat, v: nat)
    requires Walkable(t, d, virt) && v < WORD && v / PAGE_SIZE == virt / PAGE_SIZE
    ensures Walkable(t, d, v) && GetTableEntry(t, d, v) == GetTableEntry(t, d, virt) && Slot(v) == Slot(virt)
  {
    PageSplits(virt);
    PageSplits(v);
  }

  /** MmMap into an existing table: the whole page translates, every other page keeps its entry, and the
      directory is untouched. */
  lemma MapUpdatesPage(t: Tables, d: nat, phys: nat, virt: nat, user: bool, writable: bool, other: nat)
    requires Walkable(t, d, virt) && NotRecursive(t, d, Slot(virt))
    requires GetTableEntry(t, d, virt).Some? && OwnTable(t, d, Slot(virt))
    requires Walkable(t, d, other) && other / PAGE_SIZE != virt / PAGE_SIZE
    ensures var t' := MapInto(t, d, phys, virt, user, writable);
      && Walkable(t', d, other) && t'[d] == t[d]
      && Translates(t', d, virt / PAGE_SIZE, phys / PAGE_SIZE, user, writable, Lookup(t, d, virt).value.Other)
      && Lookup(t', d, other) == Lookup(t, d, other)
  {
    var (f, k) := GetTableEntry(t, d, virt).value;
    var e := MappedEntry(t[f][k], phys, user, writable);
    var t' := Store(t, f, k, e);
    StoreChangesPlace(t, d, virt, e, other);
    OwnPlace(t, d, virt, other);
    forall v: nat | v < WORD && v / PAGE_SIZE == virt / PAGE_SIZE
      ensures Walkable(t', d, v) && Lookup(t', d, v) == Some(e)
    {
      SamePage(t, d, virt, v);
      StoreChangesPlace(t, d, virt, e, v);
    }
  }

  /** MmUnmap: the page's entry is cleared but for the other flag bits, every other page keeps its own. */
  lemma UnmapClearsPage(t: Tables, d: nat, virt: nat, other: nat)
    requires Walkable(t, d, virt) && NotRecursive(t, d, Slot(virt))
    requires GetTableEntry(t, d, virt).Some? && OwnTable(t, d, Slot(virt))
    requires Walkable(t, d, other) && other / PAGE_SIZE != virt / PAGE_SIZE
    ensures var (t', ok) := Unmap(t, d, virt);
      && ok && Walkable(t', d, other) && t'[d] == t[d]
      && Lookup(t', d, other) == Lookup(t, d, other)
      && forall v: nat :: v < WORD && v / PAGE_SIZE == virt / PAGE_SIZE ==>
           && Walkable(t', d, v)
           && Lookup(t', d, v) == Some(Entry(false, false, false, Lookup(t, d, virt).value.Other, 0))
           && VirtToPhys(t', d, v) == v % PAGE_SIZE
  {
    var (f, k) := GetTableEntry(t, d, virt).value;
    var e := UnmappedEntry(t[f][k]);
    var t' := Store(t, f, k, e);
    StoreChangesPlace(t, d, virt, e, other);
    OwnPlace(t, d, virt, other);
    forall v: nat | v < WORD && v / PAGE_SIZE == virt / PAGE_SIZE
      ensures Walkable(t', d, v) && Lookup(t', d, v) == Some(e)
    {
      SamePage(t, d, virt, v);
      StoreChangesPlace(t, d, virt, e, v);
    }
  }

  // ----- Memory for new tables -----

  /** The kernel's tables hold KernelPageTables. */
  ghost predicate KernelView(t: Tables, kernel: nat, entries: seq<Entry>) {
    && |entries| == KERNEL_PAGES
    && (forall f :: kernel <= f < kernel + KERNEL_TABLES ==> f in t && |t[f]| == TABLE_SIZE)
    && forall f, k :: kernel <= f < kernel + KERNEL_TABLES && 0 <= k < TABLE_SIZE ==>
         t[f][k] == entries[(f - kernel) * TABLE_SIZE + k]
  }

  /** Frame f is one of the kernel's tables. */
  predicate IsKernelTable(kernel: nat, f: nat) {
    kernel <= f < kernel + KERNEL_TABLES
  }

  /** What a call of malloc does to the tables: n kernel entries from start on are filled, none if the heap had
      room, and everything else stays. */
  ghost predicate AfterMalloc(t: Tables, t1: Tables, kernel: nat, before: VM.Pages, after: VM.Pages,
                              start: nat, n: nat) {
    && KernelView(t, kernel, before.entries) && KernelView(t1, kernel, after.entries)
    && VM.Mapped(before, after, start, n)
    && t1.Keys == t.Keys && forall f :: f in t && !IsKernelTable(kernel, f) ==> t1[f] == t[f]
  }

  /** The place is one of those entries. */
  predicate InRun(place: (nat, nat), kernel: nat, start: nat, n: nat) {
    && IsKernelTable(kernel, place.0) && place.1 < TABLE_SIZE
    && start <= (place.0 - kernel) * TABLE_SIZE + place.1 < start + n
  }

  /** After malloc an address translates as before unless its entry is one of those filled, and then as those
      were filled. */
  lemma MallocChangesRun(t: Tables, t1: Tables, kernel: nat, before: VM.Pages, after: VM.Pages, start: nat, n: nat,
                         d: nat, other: nat)
    requires AfterMalloc(t, t1, kernel, before, after, start, n) && Walkable(t, d, other) && !IsKernelTable(kernel, d)
    ensures Walkable(t1, d, other) && t1[d] == t[d]
    ensures GetTableEntry(t1, d, other) == GetTableEntry(t, d, other)
    ensures match GetTableEntry(t, d, other)
            case None => Lookup(t1, d, other) == Lookup(t, d, other) == None
            case Some((f, k)) =>
              if InRun((f, k), kernel, start, n)
              then Lookup(t1, d, other) == Some(after.entries[(f - kernel) * TABLE_SIZE + k])
              else Lookup(t1, d, other) == Lookup(t, d, other)
  {
    match GetTableEntry(t, d, other)
    case None =>
    case Some((f, k)) =>
      if IsKernelTable(kernel, f) {
        var i := (f - kernel) * TABLE_SIZE + k;
        assert t[f][k] == before.entries[i] && t1[f][k] == after.entries[i];
      }
  }

  /** MmMap that creates a table, malloc's own effect included: outside the 4 MiB of its slot nothing changes
      but the kernel entries malloc filled, and inside only the mapped page is as asked; the rest is what the
      memory held. The slot gets the frame and the same two flags. The new table is the slot's own unless a stale
      slot happens to name its frame, and an address that reads the directory itself as a table sees the new slot. */
  lemma MapCreatesTable(t: Tables, t1: Tables, kernel: nat, before: VM.Pages, after: VM.Pages, start: nat, n: nat,
                        d: nat, phys: nat, virt: nat, user: bool, writable: bool, spare: nat, stale: seq<Entry>,
                        other: nat)
    requires AfterMalloc(t, t1, kernel, before, after, start, n) && !IsKernelTable(kernel, d)
    requires Walkable(t, d, virt) && GetTableEntry(t, d, virt).None?
    requires spare !in t && |stale| == TABLE_SIZE
    requires Walkable(t, d, other) && other / PAGE_SIZE != virt / PAGE_SIZE
    ensures Walkable(t1, d, virt) && GetTableEntry(t1, d, virt).None? && Walkable(t1, d, other)
    ensures var t' := MapNew(t1, d, phys, virt, user, writable, spare, stale);
      && Walkable(t', d, virt) && NotRecursive(t', d, Slot(virt)) && Walkable(t', d, other)
      && t'[d][Slot(virt)] == Entry(true, writable, user, 0, spare)
      && Translates(t', d, virt / PAGE_SIZE, phys / PAGE_SIZE, user, writable, stale[Index(virt)].Other)
      && (OwnTable(t', d, Slot(virt)) <==>
            forall l :: 0 <= l < TABLE_SIZE && l != Slot(virt) && t[d][l].Present ==> t[d][l].PhysAddress != spare)
      && if Slot(other) == Slot(virt) then Lookup(t', d, other) == Some(stale[Index(other)])
         else if GetTableEntry(t, d, other) == Some((d, Slot(virt)))
         then Lookup(t', d, other) == Some(Entry(true, writable, user, 0, spare))
         else if GetTableEntry(t, d, other).Some? && InRun(GetTableEntry(t, d, other).value, kernel, start, n)
         then
           var (f, k) := GetTableEntry(t, d, other).value;
           Lookup(t', d, other) == Some(after.entries[(f - kernel) * TABLE_SIZE + k])
         else Lookup(t', d, other) == Lookup(t, d, other)
  {
    MallocChangesRun(t, t1, kernel, before, after, start, n, d, virt);
    MallocChangesRun(t, t1, kernel, before, after, start, n, d, other);
    NewTableAppears(t1, d, phys, virt, user, writable, spare, stale, other);
    var k := Slot(virt);
    assert forall l :: 0 <= l < TABLE_SIZE && l != k ==> t1[d][k := TableEntryFor(spare, user, writable)][l] == t[d][l];
  }

  lemma NewTableAppears(t: Tables, d: nat, phys: nat, virt: nat, user: bool, writable: bool, spare: nat,
                        stale: seq<Entry>, other: nat)
    requires Walkable(t, d, virt) && GetTableEntry(t, d, virt).None? && spare !in t && |stale| == TABLE_SIZE
    requires Walkable(t, d, other) && other / PAGE_SIZE != virt / PAGE_SIZE
    ensures var t' := MapNew(t, d, phys, virt, user, writable, spare, stale);
      && Walkable(t', d, virt) && NotRecursive(t', d, Slot(virt)) && Walkable(t', d, other)
      && t'[d] == t[d][Slot(virt) := Entry(true, writable, user, 0, spare)]
      && Translates(t', d, virt / PAGE_SIZE, phys / PAGE_SIZE, user, writable, stale[Index(virt)].Other)
      && Lookup(t', d, other) ==
           if Slot(other) == Slot(virt) then Some(stale[Index(other)])
           else if GetTableEntry(t, d, other) == Some((d, Slot(virt))) then Some(Entry(true, writable, user, 0, spare))
           else Lookup(t, d, other)
  {
    var t' := MapNew(t, d, phys, virt, user, writable, spare, stale);
    PageSplits(virt);
    PageSplits(other);
    assert t'[d] == t[d][Slot(virt) := TableEntryFor(spare, user, writable)];
    forall v: nat | v < WORD && v / PAGE_SIZE == virt / PAGE_SIZE
      ensures Walkable(t', d, v) && Lookup(t', d, v) == Some(MappedEntry(stale[Index(virt)], phys, user, writable))
    {
      PageSplits(v);
    }
  }

  // ----- Directories for processes -----

  /** The directory MmAllocPageDirectory fills: kernel tables in the last 128 slots, the identity table in
      slot 0. Slots 1 to 895 keep what the memory held. */
  ghost predicate Built(t: Tables, d: nat, kernel: nat, identity: nat) {
    && d in t && |t[d]| == TABLE_SIZE
    && (forall k :: KERNEL_SLOT <= k < TABLE_SIZE ==>
          t[d][k] == Entry(true, true, false, 0, kernel + (k - KERNEL_SLOT)))
    && t[d][0] == Entry(true, true, false, 0, identity)
  }

  /** The walk of a kernel address ends in the KernelPageTables entry of its page, in every directory the
      allocator filled, whatever its other slots hold. */
  lemma KernelWalk(t: Tables, d: nat, kernel: nat, identity: nat, entries: seq<Entry>, v: nat)
    requires Built(t, d, kernel, identity) && KernelView(t, kernel, entries)
    requires KERNEL_BASE <= v < WORD
    ensures Walkable(t, d, v) && (v - KERNEL_BASE) / PAGE_SIZE < KERNEL_PAGES
    ensures var i := (v - KERNEL_BASE) / PAGE_SIZE;
      GetTableEntry(t, d, v) == Some((kernel + i / TABLE_SIZE, i % TABLE_SIZE)) && Lookup(t, d, v) == Some(entries[i])
  {
    PageSplits(v);
    var i := Slot(v) - KERNEL_SLOT;
    assert 0 <= i < KERNEL_TABLES;
    assert (v - KERNEL_BASE) / PAGE_SIZE == i * TABLE_SIZE + Index(v);
    assert t[d][Slot(v)].PhysAddress == kernel + i;
  }

  /** So a context switch between such directories never changes the translation of a kernel address. */
  lemma KernelTranslationIsShared(t: Tables, d: nat, d': nat, kernel: nat, identity: nat, entries: seq<Entry>, v: nat)
    requires Built(t, d, kernel, identity) && Built(t, d', kernel, identity)
    requires KernelView(t, kernel, entries) && KERNEL_BASE <= v < WORD
    ensures Walkable(t, d, v) && Walkable(t, d', v)
    ensures VirtToPhys(t, d, v) == VirtToPhys(t, d', v)
      == entries[(v - KERNEL_BASE) / PAGE_SIZE].PhysAddress * PAGE_SIZE + v % PAGE_SIZE
  {
    KernelWalk(t, d, kernel, identity, entries, v);
    KernelWalk(t, d', kernel, identity, entries, v);
  }

  /** A write through a directory keeps the kernel's tables exactly when it does not go to one of them. */
  lemma KernelViewKeptIff(t: Tables, kernel: nat, entries: seq<Entry>, f: nat, k: nat)
    requires KernelView(t, kernel, entries) && f in t && k < |t[f]|
    ensures (forall e :: KernelView(Store(t, f, k, e), kernel, entries)) <==> !IsKernelTable(kernel, f)
  {
    if IsKernelTable(kernel, f) {
      var e := t[f][k].(Present := !t[f][k].Present);
      var i := f - kernel;
      assert i * TABLE_SIZE + k < KERNEL_PAGES && t[f][k] == entries[i * TABLE_SIZE + k];
      assert Store(t, f, k, e)[f][k] != entries[i * TABLE_SIZE + k];
      assert !KernelView(Store(t, f, k, e), kernel, entries);
    }
  }

  /** The paging code's state: physical memory as far as it holds tables, and the current directory, by its
      virtual address and by the physical one the processor uses. */
  class Mmu {
    const kernel: nat
    const identity: nat
    var tables: Tables
    var CurrentPageDirectory: nat
    var CurrentPageDirectoryPhys: nat

    constructor (kernel: nat, identity: nat, tables: Tables, directory: nat, directoryPhys: nat)
      ensures this.kernel == kernel && this.identity == identity && this.tables == tables
      ensures CurrentPageDirectory == directory && CurrentPageDirectoryPhys == directoryPhys
    {
      this.kernel, this.identity, this.tables := kernel, identity, tables;
      CurrentPageDirectory, CurrentPageDirectoryPhys := directory, directoryPhys;
    }

    /** The frame of the current directory. */
    function Dir(): nat
      reads this
    {
      CurrentPageDirectoryPhys / PAGE_SIZE
    }

    /** MmGetTableEntry on the current directory. */
    method FindEntry(virt: nat) returns (r: Option<(nat, nat)>)
      requires Walkable(tables, Dir(), virt)
      ensures r == GetTableEntry(tables, Dir(), virt)
    {
      var slot := virt / 0x40_0000;
      var pde := tables[Dir()][slot];
      if !pde.Present {
        return None;
      }
      return Some((pde.PhysAddress, virt / PAGE_SIZE % TABLE_SIZE));
    }

    method MmVirtToPhys(virt: nat) returns (r: nat)
      requires Walkable(tables, Dir(), virt)
      ensures r == VirtToPhys(tables, Dir(), virt)
      ensures r == match Lookup(tables, Dir(), virt)
                   case None => 0
                   case Some(e) => e.PhysAddress * PAGE_SIZE + virt % PAGE_SIZE
    {
      var pte := FindEntry(virt);
      if pte.None? {
        return 0;
      }
      return tables[pte.value.0][pte.value.1].PhysAddress * PAGE_SIZE + virt % PAGE_SIZE;
    }

    /** MmIsPresent, MmIsWritable and MmIsUser. */
    method MmFlags(virt: nat) returns (present: bool, writable: bool, user: bool)
      requires Walkable(tables, Dir(), virt)
      ensures var e := Lookup(tables, Dir(), virt);
        && (present <==> e.Some? && e.value.Present)
        && (writable <==> e.Some? && e.value.Writable)
        && (user <==> e.Some? && e.value.User)
    {
      var pte := FindEntry(virt);
      if pte.None? {
        return false, false, false;
      }
      var e := tables[pte.value.0][pte.value.1];
      return e.Present, e.Writable, e.User;
    }

    /** MmMap. If it needs a table, malloc leaves the tables as `grown` and returns p, in memory that held
        `stale`; before, after, start and n describe the pages malloc took. */
    method MmMap(phys: nat, virt: nat, user: bool, writable: bool, grown: Tables, p: nat, stale: seq<Entry>,
                 ghost before: VM.Pages, ghost after: VM.Pages, ghost start: nat, ghost n: nat)
      requires Walkable(tables, Dir(), virt)
      requires GetTableEntry(tables, Dir(), virt).None? ==>
        && |stale| == TABLE_SIZE && !IsKernelTable(kernel, Dir())
        && AfterMalloc(tables, grown, kernel, before, after, start, n)
        && Walkable(grown, Dir(), p) && VirtToPhys(grown, Dir(), p) / PAGE_SIZE !in grown
      modifies this`tables
      ensures old(GetTableEntry(tables, Dir(), virt)).Some? ==>
        var (f, k) := old(GetTableEntry(tables, Dir(), virt)).value;
        && tables == MapInto(old(tables), Dir(), phys, virt, user, writable)
        && OnlyAt(old(tables), tables, f, k)
        && tables[f][k] == Entry(true, writable, user, old(tables)[f][k].Other, phys / PAGE_SIZE)
      ensures old(GetTableEntry(tables, Dir(), virt)).None? ==>
        && Walkable(grown, Dir(), virt) && GetTableEntry(grown, Dir(), virt).None?
        && tables == MapNew(grown, Dir(), phys, virt, user, writable, VirtToPhys(grown, Dir(), p) / PAGE_SIZE, stale)
        && tables[Dir()][Slot(virt)] == Entry(true, writable, user, 0, VirtToPhys(grown, Dir(), p) / PAGE_SIZE)
    {
      var pde := Dir();
      var pte := FindEntry(virt);
      if pte.None? {
        MallocChangesRun(tables, grown, kernel, before, after, start, n, pde, virt);
        tables := grown;
        var raw := MmVirtToPhys(p);
        var spare := raw / PAGE_SIZE;
        var slot := virt / 0x40_0000;
        tables := tables[pde := tables[pde][slot := TableEntryFor(spare, user, writable)]];
        tables := tables[spare := stale];
        pte := Some((spare, virt / PAGE_SIZE % TABLE_SIZE));
      }
      var (f, k) := pte.value;
      ghost var e := tables[f][k];
      WriteEntry(f, k, phys / PAGE_SIZE, true, user, writable);
      assert tables[f][k] == MappedEntry(e, phys, user, writable);
    }

    method MmUnmap(virt: nat) returns (ok: bool)
      requires Walkable(tables, Dir(), virt)
      modifies this`tables
      ensures (tables, ok) == Unmap(old(tables), Dir(), virt)
      ensures ok <==> old(GetTableEntry(tables, Dir(), virt)).Some?
      ensures ok ==>
        var (f, k) := old(GetTableEntry(tables, Dir(), virt)).value;
        && OnlyAt(old(tables), tables, f, k)
        && tables[f][k] == Entry(false, false, false, old(tables)[f][k].Other, 0)
      ensures !ok ==> tables == old(tables)
    {
      var pte := FindEntry(virt);
      if pte.None? {
        return false;
      }
      var (f, k) := pte.value;
      WriteEntry(f, k, 0, false, false, false);
      return true;
    }

    /** The four field assignments MmMap and MmUnmap end with. */
    method WriteEntry(f: nat, k: nat, frame: nat, present: bool, user: bool, writable: bool)
      requires f in tables && k < |tables[f]|
      modifies this`tables
      ensures tables == Store(old(tables), f, k,
        old(tables)[f][k].(PhysAddress := frame, Present := present, User := user, Writable := writable))
    {
      ghost var t, e := tables, tables[f][k];
      tables := Store(tables, f, k, tables[f][k].(PhysAddress := frame));
      tables := Store(tables, f, k, tables[f][k].(Present := present));
      StoreTwice(t, f, k, e.(PhysAddress := frame), tables[f][k]);
      tables := Store(tables, f, k, tables[f][k].(User := user));
      StoreTwice(t, f, k, e.(PhysAddress := frame, Present := present), tables[f][k]);
      tables := Store(tables, f, k, tables[f][k].(Writable := writable));
      StoreTwice(t, f, k, e.(PhysAddress := frame, Present := present, User := user), tables[f][k]);
    }

    /** MmAllocPageDirectory. malloc leaves the tables as `grown` and returns p, which translates to memory with stale
        contents, or NULL and no change. */
    method MmAllocPageDirectory(p: nat, grown: Tables, stale: seq<Entry>,
                                ghost before: VM.Pages, ghost after: VM.Pages, ghost start: nat, ghost n: nat)
      returns (result: nat)
      requires |stale| == TABLE_SIZE
      requires p != 0 ==>
        && AfterMalloc(tables, grown, kernel, before, after, start, n)
        && Walkable(grown, Dir(), p) && VirtToPhys(grown, Dir(), p) / PAGE_SIZE !in grown
      modifies this`tables
      ensures result == p
      ensures p == 0 ==> tables == old(tables)
      ensures p != 0 ==>
        var d := VirtToPhys(grown, Dir(), p) / PAGE_SIZE;
        && Built(tables, d, kernel, identity)
        && (forall k :: 1 <= k < KERNEL_SLOT ==> tables[d][k] == stale[k])
        && tables.Keys == old(tables).Keys + {d}
        && KernelView(tables, kernel, after.entries)
        && forall f :: f in old(tables) && !IsKernelTable(kernel, f) ==> tables[f] == old(tables)[f]
    {
      if p == 0 {
        return 0;
      }
      tables := grown;
      var dir := stale;
      for i := 0 to KERNEL_TABLES
        invariant |dir| == TABLE_SIZE
        invariant forall k :: 0 <= k < TABLE_SIZE ==>
          dir[k] == if KERNEL_SLOT <= k < KERNEL_SLOT + i
                    then Entry(true, true, false, 0, kernel + (k - KERNEL_SLOT)) else stale[k]
      {
        dir := dir[KERNEL_SLOT + i := Entry(true, true, false, 0, kernel + i)];
      }
      dir := dir[0 := Entry(true, true, false, 0, identity)];
      var place := MmVirtToPhys(p);
      tables := tables[place / PAGE_SIZE := dir];
      return p;
    }

    /** SwitchPageDirectory. */
    method SwitchPageDirectory(pd: nat)
      requires Walkable(tables, Dir(), pd)
      modifies this`CurrentPageDirectory, this`CurrentPageDirectoryPhys
      ensures CurrentPageDirectoryPhys == VirtToPhys(tables, old(Dir()), pd) && CurrentPageDirectory == pd
    {
      CurrentPageDirectoryPhys := MmVirtToPhys(pd);
      CurrentPageDirectory := pd;
    }
  }

  // ----- The lookup of tables as written -----

  /** Some kernel page is backed by frame f. */
  ghost predicate Hit(entries: seq<Entry>, f: nat) {
    exists i :: 0 <= i < |entries| && entries[i].PhysAddress == f
  }

  /** MmKernelPhysToVirt as written returns the physical address it was given whenever the frame is mapped
      in the kernel at all, 0 otherwise. */
  method MmKernelPhysToVirt(entries: seq<Entry>, phys: nat) returns (r: nat)
    requires |entries| == KERNEL_PAGES
    ensures r == if Hit(entries, phys / PAGE_SIZE) then phys else 0
  {
    var i := 0;
    while i < KERNEL_PAGES
      invariant i <= KERNEL_PAGES && forall k :: 0 <= k < i ==> entries[k].PhysAddress != phys / PAGE_SIZE
    {
      if entries[i].PhysAddress == phys / PAGE_SIZE {
        return entries[i].PhysAddress * PAGE_SIZE + phys % PAGE_SIZE;
      }
      i := i + 1;
    }
    return 0;
  }

  /** The identity page maps the first 4 MiB of the address space to themselves. */
  ghost predicate IdentityView(t: Tables, identity: nat) {
    && IsTable(t, identity)
    && forall k :: 0 <= k < TABLE_SIZE ==> t[identity][k].Present && t[identity][k].PhysAddress == k
  }

  /** The page at physical address f * PAGE_SIZE is mapped to itself: through the identity page, in kernel space,
      or in the slots in between, which belong to the process. */
  ghost predicate MapsItself(t: Tables, d: nat, entries: seq<Entry>, f: nat)
    requires |entries| == KERNEL_PAGES && Walkable(t, d, f * PAGE_SIZE)
  {
    var v := f * PAGE_SIZE;
    if f < TABLE_SIZE then true
    else if v >= KERNEL_BASE then
      var e := entries[f - KERNEL_BASE / PAGE_SIZE];
      e.Present && e.PhysAddress == f
    else Lookup(t, d, v).Some? && Lookup(t, d, v).value.Present && Lookup(t, d, v).value.PhysAddress == f
  }

  /** The physical address it returns is a virtual address of that physical byte exactly when the page is mapped
      to itself. */
  lemma ReturnedAddressReaches(t: Tables, d: nat, kernel: nat, identity: nat, entries: seq<Entry>, f: nat, o: nat)
    requires Built(t, d, kernel, identity) && KernelView(t, kernel, entries) && IdentityView(t, identity)
    requires f < FRAMES && o < PAGE_SIZE && Walkable(t, d, f * PAGE_SIZE)
    ensures Walkable(t, d, f * PAGE_SIZE + o)
    ensures var e := Lookup(t, d, f * PAGE_SIZE + o);
      (e.Some? && e.value.Present && VirtToPhys(t, d, f * PAGE_SIZE + o) == f * PAGE_SIZE + o)
      <==> MapsItself(t, d, entries, f)
  {
    var v := f * PAGE_SIZE;
    assert (v + o) / PAGE_SIZE == f && v / PAGE_SIZE == f && (v + o) % PAGE_SIZE == o;
    SamePage(t, d, v, v + o);
    PageSplits(v);
    if v >= KERNEL_BASE {
      KernelWalk(t, d, kernel, identity, entries, v);
      assert (v - KERNEL_BASE) / PAGE_SIZE == f - KERNEL_BASE / PAGE_SIZE;
    } else if f < TABLE_SIZE {
      assert Slot(v) == 0 && Index(v) == f;
    }
  }

  /** What using the pointer MmGetTable returns comes to. */
  datatype Reached = Null | Fault | Frame(f: nat)

  /** MmGetTable as written: the physical address of the table, taken for a virtual one in directory d. */
  ghost function WrittenTable(t: Tables, d: nat, entries: seq<Entry>, k: nat): Reached
    requires SlotOk(t, d, k) && (t[d][k].Present ==> Walkable(t, d, t[d][k].PhysAddress * PAGE_SIZE))
  {
    match GetTable(t, d, k)
    case None => Null
    case Some(f) =>
      if f == 0 || !Hit(entries, f) then Null
      else match Lookup(t, d, f * PAGE_SIZE)
        case None => Fault
        case Some(e) => if e.Present then Frame(e.PhysAddress) else Fault
  }

  /** It reaches the table the directory entry names exactly when that frame is not 0, is mapped somewhere in the
      kernel, and its page is mapped to itself; below 4 MiB the identity page sees to the last. */
  lemma WrittenTableIff(t: Tables, d: nat, kernel: nat, identity: nat, entries: seq<Entry>, k: nat)
    requires Built(t, d, kernel, identity) && KernelView(t, kernel, entries) && IdentityView(t, identity)
    requires SlotOk(t, d, k) && t[d][k].Present
    requires t[d][k].PhysAddress < FRAMES && Walkable(t, d, t[d][k].PhysAddress * PAGE_SIZE)
    ensures var f := t[d][k].PhysAddress;
      WrittenTable(t, d, entries, k) == Frame(f) <==> f > 0 && Hit(entries, f) && MapsItself(t, d, entries, f)
  {
    hide KernelView, Built, IdentityView, MapsItself;
    ReturnedAddressReaches(t, d, kernel, identity, entries, t[d][k].PhysAddress, 0);
  }

  /** So for kernel addresses the code as written is right when the kernel's tables lie where the boot code puts
      them, in the part of the kernel image below 4 MiB, which is mapped in the kernel. */
  lemma WrittenKernelWalk(t: Tables, d: nat, kernel: nat, identity: nat, entries: seq<Entry>, v: nat)
    requires Built(t, d, kernel, identity) && KernelView(t, kernel, entries) && IdentityView(t, identity)
    requires KERNEL_BASE <= v < WORD && 0 < kernel && kernel + KERNEL_TABLES <= TABLE_SIZE
    requires forall f :: kernel <= f < kernel + KERNEL_TABLES ==> Hit(entries, f)
    ensures SlotOk(t, d, Slot(v)) && t[d][Slot(v)].Present && Walkable(t, d, t[d][Slot(v)].PhysAddress * PAGE_SIZE)
    ensures WrittenTable(t, d, entries, Slot(v)) == Frame(GetTable(t, d, Slot(v)).value)
  {
    KernelWalk(t, d, kernel, identity, entries, v);
    PageSplits(v);
    var f := t[d][Slot(v)].PhysAddress;
    assert f == kernel + (Slot(v) - KERNEL_SLOT);
    assert Slot(f * PAGE_SIZE) == 0;
    WrittenTableIff(t, d, kernel, identity, entries, Slot(v));
  }
}
