/** Doubly linked lists of addresses, one map for each link field, with 0 for NULL. */
module AddressLists {
  import opened Words

  function At(s: seq<nat>, k: int): nat {
    if 0 <= k < |s| then s[k] else 0
  }

  ghost predicate NextOk(next: map<nat, nat>, s: seq<nat>) {
    forall k :: 0 <= k < |s| ==> s[k] in next && next[s[k]] == At(s, k + 1)
  }

  ghost predicate PrevOk(prev: map<nat, nat>, s: seq<nat>) {
    forall k :: 0 <= k < |s| ==> s[k] in prev && prev[s[k]] == At(s, k - 1)
  }

  function Inserted<T>(s: seq<T>, j: nat, a: T): (r: seq<T>)
    requires j <= |s|
    ensures |r| == |s| + 1
    ensures forall k :: 0 <= k < |r| ==> r[k] == if k < j then s[k] else if k == j then a else s[k - 1]
  {
    s[..j] + [a] + s[j..]
  }

  function Dropped<T>(s: seq<T>, j: nat): (r: seq<T>)
    requires j < |s|
    ensures |r| == |s| - 1
    ensures forall k :: 0 <= k < |r| ==> r[k] == if k < j then s[k] else s[k + 1]
  {
    s[..j] + s[j + 1..]
  }

  lemma AtInserted(s: seq<nat>, j: nat, a: nat, k: int)
    requires j <= |s|
    ensures At(Inserted(s, j, a), k) == if k < j then At(s, k) else if k == j then a else At(s, k - 1)
  {
  }

  lemma AtDropped(s: seq<nat>, j: nat, k: int)
    requires j < |s|
    ensures At(Dropped(s, j), k) == if k < j then At(s, k) else At(s, k + 1)
  {
  }

  /** The assignments that insert node a at position j: its own link, and its predecessor's. */
  lemma NextInsert(next: map<nat, nat>, s: seq<nat>, j: nat, a: nat)
    requires NextOk(next, s) && NoRepeat(s) && j <= |s| && a !in s
    ensures var next1 := next[a := At(s, j)];
      NextOk(if j > 0 then next1[s[j - 1] := a] else next1, Inserted(s, j, a))
  {
    hide At;
    var t := Inserted(s, j, a);
    var next1 := next[a := At(s, j)];
    var next2 := if j > 0 then next1[s[j - 1] := a] else next1;
    forall k | 0 <= k < |t| ensures t[k] in next2 && next2[t[k]] == At(t, k + 1) {
      AtInserted(s, j, a, k + 1);
    }
  }

  lemma PrevInsert(prev: map<nat, nat>, s: seq<nat>, j: nat, a: nat)
    requires PrevOk(prev, s) && NoRepeat(s) && j <= |s| && a !in s
    ensures var prev1 := prev[a := At(s, j - 1)];
      PrevOk(if j < |s| then prev1[s[j] := a] else prev1, Inserted(s, j, a))
  {
    hide At;
    var t := Inserted(s, j, a);
    var prev1 := prev[a := At(s, j - 1)];
    var prev2 := if j < |s| then prev1[s[j] := a] else prev1;
    forall k | 0 <= k < |t| ensures t[k] in prev2 && prev2[t[k]] == At(t, k - 1) {
      AtInserted(s, j, a, k - 1);
    }
  }

  /** The assignments that unlink the node at position j. */
  lemma NextDrop(next: map<nat, nat>, s: seq<nat>, j: nat)
    requires NextOk(next, s) && NoRepeat(s) && j < |s|
    ensures NextOk(if j > 0 then next[s[j - 1] := At(s, j + 1)] else next, Dropped(s, j))
  {
    hide At;
    var t := Dropped(s, j);
    var next1 := if j > 0 then next[s[j - 1] := At(s, j + 1)] else next;
    forall k | 0 <= k < |t| ensures t[k] in next1 && next1[t[k]] == At(t, k + 1) {
      AtDropped(s, j, k + 1);
    }
  }

  lemma PrevDrop(prev: map<nat, nat>, s: seq<nat>, j: nat)
    requires PrevOk(prev, s) && NoRepeat(s) && j < |s|
    ensures PrevOk(if j + 1 < |s| then prev[s[j + 1] := At(s, j - 1)] else prev, Dropped(s, j))
  {
    hide At;
    var t := Dropped(s, j);
    var prev1 := if j + 1 < |s| then prev[s[j + 1] := At(s, j - 1)] else prev;
    forall k | 0 <= k < |t| ensures t[k] in prev1 && prev1[t[k]] == At(t, k - 1) {
      AtDropped(s, j, k - 1);
    }
  }
}

/** The headers of the heap in memory: each field of struct liballoc_major and struct liballoc_minor is a
    map from the header's address. A header's magic word is modelled by its presence. */
module HeapMemory {
  import opened Words
  import opened HeapModel
  import opened HeapCalls
  import Lists = AddressLists

  datatype MajorInfo = MajorInfo(pages: nat, size: nat)
  datatype MinorInfo = MinorInfo(block: nat, size: nat)

  datatype Headers = Headers(
    majPrev: map<nat, nat>, majNext: map<nat, nat>, majInfo: map<nat, MajorInfo>,
    majUsage: map<nat, nat>, majFirst: map<nat, nat>,
    minPrev: map<nat, nat>, minNext: map<nat, nat>, minInfo: map<nat, MinorInfo>, minReq: map<nat, nat>)

  const NO_HEADERS := Headers(map[], map[], map[], map[], map[], map[], map[], map[], map[])

  // ----- What a heap value looks like in memory -----

  function MajorAddrs(bs: seq<Major>): seq<nat> {
    seq(|bs|, i requires 0 <= i < |bs| => bs[i].addr)
  }

  function MinorAddrs(ms: seq<Minor>): seq<nat> {
    seq(|ms|, j requires 0 <= j < |ms| => ms[j].addr)
  }

  ghost predicate MinorsStored(m: Headers, b: Major) {
    && Lists.NextOk(m.minNext, MinorAddrs(b.minors))
    && Lists.PrevOk(m.minPrev, MinorAddrs(b.minors))
    && forall j :: 0 <= j < |b.minors| ==>
         && b.minors[j].addr in m.minInfo && m.minInfo[b.minors[j].addr] == MinorInfo(b.addr, b.minors[j].size)
         && b.minors[j].addr in m.minReq && m.minReq[b.minors[j].addr] == b.minors[j].req
  }

  ghost predicate MajorStored(m: Headers, b: Major) {
    && b.addr in m.majInfo && m.majInfo[b.addr] == MajorInfo(b.pages, b.Size())
    && b.addr in m.majUsage && m.majUsage[b.addr] == b.usage
    && b.addr in m.majFirst && m.majFirst[b.addr] == Lists.At(MinorAddrs(b.minors), 0)
  }

  ghost predicate BlockStored(m: Headers, b: Major) {
    MajorStored(m, b) && MinorsStored(m, b)
  }

  ghost predicate BlocksStored(m: Headers, bs: seq<Major>) {
    forall i :: 0 <= i < |bs| ==> BlockStored(m, bs[i])
  }

  ghost predicate ListStored(m: Headers, bs: seq<Major>) {
    Lists.NextOk(m.majNext, MajorAddrs(bs)) && Lists.PrevOk(m.majPrev, MajorAddrs(bs))
  }

  ghost predicate NoStrays(m: Headers, h: Heap) {
    forall a :: a in m.minInfo ==> exists i: nat, j: nat :: HeaderAt(h, i, j, a)
  }

  /** Every header is stored where it belongs with the right links, and no live header stands elsewhere. */
  ghost predicate Stored(m: Headers, h: Heap) {
    ListStored(m, h.majors) && BlocksStored(m, h.majors) && NoStrays(m, h)
  }

  // ----- Addresses name headers -----

  lemma MajorsNoRepeat(h: Heap)
    requires WellFormed(h)
    ensures NoRepeat(MajorAddrs(h.majors))
    ensures forall i :: 0 <= i < |h.majors| ==> h.majors[i].addr > 0
  {
    forall i, k | 0 <= i < k < |h.majors| ensures h.majors[i].addr != h.majors[k].addr {
      GapWithinFree(h.majors[i], 0);
      GapWithinFree(h.majors[k], 0);
    }
  }

  lemma MinorsNoRepeat(h: Heap, i: nat)
    requires WellFormed(h) && i < |h.majors|
    ensures NoRepeat(MinorAddrs(h.majors[i].minors))
    ensures forall j :: 0 <= j < |h.majors[i].minors| ==> h.majors[i].minors[j].addr > 0
  {
    forall j, l | 0 <= j < l < |h.majors[i].minors|
      ensures h.majors[i].minors[j].addr != h.majors[i].minors[l].addr
    {
      LiveMinorsApart(h, i, j, i, l);
    }
    forall j | 0 <= j < |h.majors[i].minors| ensures h.majors[i].minors[j].addr > 0 {
      MinorInside(h.majors[i], j);
    }
  }

  /** No other block has a minor at the address of one of block i's. */
  lemma MinorsElsewhere(h: Heap, i: nat, k: nat, changed: set<nat>)
    requires WellFormed(h) && i < |h.majors| && k < |h.majors| && i != k
    requires forall a :: a in changed ==> a in MinorAddrs(h.majors[i].minors)
    ensures forall l :: 0 <= l < |h.majors[k].minors| ==> h.majors[k].minors[l].addr !in changed
  {
    forall l | 0 <= l < |h.majors[k].minors| ensures h.majors[k].minors[l].addr !in changed {
      var a := h.majors[k].minors[l].addr;
      if a in changed {
        var j :| 0 <= j < |h.majors[i].minors| && MinorAddrs(h.majors[i].minors)[j] == a;
        LiveMinorsApart(h, i, j, k, l);
      }
    }
  }

  /** The minor fields agree except at the given addresses. */
  ghost predicate SameMinorsBut(m: Headers, m': Headers, changed: set<nat>) {
    && (forall a :: a in m.minNext && a !in changed ==> a in m'.minNext && m'.minNext[a] == m.minNext[a])
    && (forall a :: a in m.minPrev && a !in changed ==> a in m'.minPrev && m'.minPrev[a] == m.minPrev[a])
    && (forall a :: a in m.minInfo && a !in changed ==> a in m'.minInfo && m'.minInfo[a] == m.minInfo[a])
    && (forall a :: a in m.minReq && a !in changed ==> a in m'.minReq && m'.minReq[a] == m.minReq[a])
  }

  ghost predicate SameMajorsBut(m: Headers, m': Headers, maj: nat) {
    && m'.majInfo == m.majInfo
    && (forall a :: a in m.majUsage && a != maj ==> a in m'.majUsage && m'.majUsage[a] == m.majUsage[a])
    && (forall a :: a in m.majFirst && a != maj ==> a in m'.majFirst && m'.majFirst[a] == m.majFirst[a])
  }

  lemma BlockKept(m: Headers, m': Headers, b: Major, changed: set<nat>, maj: nat)
    requires BlockStored(m, b) && SameMinorsBut(m, m', changed) && SameMajorsBut(m, m', maj)
    requires b.addr != maj && forall l :: 0 <= l < |b.minors| ==> b.minors[l].addr !in changed
    ensures BlockStored(m', b)
  {
    var s := MinorAddrs(b.minors);
    assert forall l :: 0 <= l < |s| ==> s[l] == b.minors[l].addr;
  }

  // ----- Linking a minor -----

  /** The writes the placement cases share: the header at `addr`, its neighbours' links, or the block's
      first pointer, and the block's usage. */
  function LinkMinor(m: Headers, maj: nat, before: nat, after: nat, addr: nat, size: nat, req: nat): Headers
    requires maj in m.majUsage
  {
    var next := m.minNext[addr := after];
    var prev := m.minPrev[addr := before];
    m.(minNext := if before != 0 then next[before := addr] else next,
       minPrev := if after != 0 then prev[after := addr] else prev,
       minInfo := m.minInfo[addr := MinorInfo(maj, size)],
       minReq := m.minReq[addr := req],
       majFirst := if before == 0 then m.majFirst[maj := addr] else m.majFirst,
       majUsage := m.majUsage[maj := m.majUsage[maj] + size + MINOR_HEADER])
  }

  function Before(b: Major, j: nat): nat {
    Lists.At(MinorAddrs(b.minors), j - 1)
  }

  function After(b: Major, j: nat): nat {
    Lists.At(MinorAddrs(b.minors), j)
  }

  /** The shared writes store the heap with the minor inserted. */
  lemma LinkMinorStores(m: Headers, h: Heap, i: nat, j: nat, size: nat, req: nat)
    requires WellFormed(h) && Stored(m, h) && i < |h.majors| && j <= |h.majors[i].minors|
    requires h.majors[i].Gap(j) >= size + MINOR_HEADER && h.majors[i].addr in m.majUsage
    ensures var b := h.majors[i];
      Stored(LinkMinor(m, b.addr, Before(b, j), After(b, j), b.Lo(j), size, req), Inserted(h, i, j, size, req))
  {
    UpdatedMajorAddrs(h.majors, i, h.majors[i].Insert(j, size, req));
    hide WellFormed, BlocksStored, NoStrays;
    LinkMinorBlocks(m, h, i, j, size, req);
    LinkMinorStrays(m, h, i, j, size, req);
  }

  lemma LinkMinorBlocks(m: Headers, h: Heap, i: nat, j: nat, size: nat, req: nat)
    requires WellFormed(h) && BlocksStored(m, h.majors) && i < |h.majors| && j <= |h.majors[i].minors|
    requires h.majors[i].Gap(j) >= size + MINOR_HEADER && h.majors[i].addr in m.majUsage
    ensures var b := h.majors[i];
      BlocksStored(LinkMinor(m, b.addr, Before(b, j), After(b, j), b.Lo(j), size, req),
                   Inserted(h, i, j, size, req).majors)
  {
    hide WellFormed, LinkMinor, BlockStored;
    var b, h' := h.majors[i], Inserted(h, i, j, size, req);
    var m' := LinkMinor(m, b.addr, Before(b, j), After(b, j), b.Lo(j), size, req);
    LinkMinorInBlock(m, h, i, j, size, req);
    forall k | 0 <= k < |h'.majors| && k != i ensures BlockStored(m', h'.majors[k]) {
      LinkMinorElsewhere(m, h, i, j, size, req, k);
    }
  }

  lemma LinkMinorStrays(m: Headers, h: Heap, i: nat, j: nat, size: nat, req: nat)
    requires NoStrays(m, h) && i < |h.majors| && j <= |h.majors[i].minors| && h.majors[i].addr in m.majUsage
    ensures var b := h.majors[i];
      NoStrays(LinkMinor(m, b.addr, Before(b, j), After(b, j), b.Lo(j), size, req), Inserted(h, i, j, size, req))
  {
    var b := h.majors[i];
    var m' := LinkMinor(m, b.addr, Before(b, j), After(b, j), b.Lo(j), size, req);
    forall a | a in m'.minInfo ensures exists k: nat, l: nat :: HeaderAt(Inserted(h, i, j, size, req), k, l, a) {
      HeaderKept(h, i, j, size, req, a, m);
    }
  }

  lemma InsertedAddrs(b: Major, j: nat, size: nat, req: nat)
    requires j <= |b.minors|
    ensures MinorAddrs(b.Insert(j, size, req).minors) == Lists.Inserted(MinorAddrs(b.minors), j, b.Lo(j))
  {
  }

  lemma LinkMinorInBlock(m: Headers, h: Heap, i: nat, j: nat, size: nat, req: nat)
    requires WellFormed(h) && i < |h.majors| && j <= |h.majors[i].minors| && BlockStored(m, h.majors[i])
    requires h.majors[i].Gap(j) >= size + MINOR_HEADER
    ensures var b := h.majors[i];
      BlockStored(LinkMinor(m, b.addr, Before(b, j), After(b, j), b.Lo(j), size, req), b.Insert(j, size, req))
  {
    var b, b' := h.majors[i], h.majors[i].Insert(j, size, req);
    var s, addr := MinorAddrs(b.minors), b.Lo(j);
    MinorsNoRepeat(h, i);
    assert addr !in s by {
      forall l | 0 <= l < |s| ensures s[l] != addr {
        GapStartIsFresh(h, i, j, size, i, l);
      }
    }
    InsertedAddrs(b, j, size, req);
    Lists.NextInsert(m.minNext, s, j, addr);
    Lists.PrevInsert(m.minPrev, s, j, addr);
    LinkMinorFields(m, b, j, size, req);
  }

  lemma LinkMinorFields(m: Headers, b: Major, j: nat, size: nat, req: nat)
    requires j <= |b.minors| && BlockStored(m, b) && b.Lo(j) !in MinorAddrs(b.minors)
    ensures var b' := b.Insert(j, size, req);
      var m' := LinkMinor(m, b.addr, Before(b, j), After(b, j), b.Lo(j), size, req);
      forall l :: 0 <= l < |b'.minors| ==>
        && b'.minors[l].addr in m'.minInfo && m'.minInfo[b'.minors[l].addr] == MinorInfo(b'.addr, b'.minors[l].size)
        && b'.minors[l].addr in m'.minReq && m'.minReq[b'.minors[l].addr] == b'.minors[l].req
  {
    var b' := b.Insert(j, size, req);
    var s := MinorAddrs(b.minors);
    forall l | 0 <= l < |b'.minors| && l != j
      ensures b'.minors[l] == b.minors[if l < j then l else l - 1] && b'.minors[l].addr != b.Lo(j)
    {
      assert s[if l < j then l else l - 1] != b.Lo(j);
    }
  }

  lemma LinkMinorElsewhere(m: Headers, h: Heap, i: nat, j: nat, size: nat, req: nat, k: nat)
    requires WellFormed(h) && BlocksStored(m, h.majors) && i < |h.majors| && j <= |h.majors[i].minors|
    requires h.majors[i].Gap(j) >= size + MINOR_HEADER && h.majors[i].addr in m.majUsage
    requires k < |h.majors| && k != i
    ensures var b := h.majors[i];
      BlockStored(LinkMinor(m, b.addr, Before(b, j), After(b, j), b.Lo(j), size, req), h.majors[k])
  {
    hide WellFormed, BlockStored;
    var b, h' := h.majors[i], Inserted(h, i, j, size, req);
    InsertKeepsWellFormed(h, i, j, size, req);
    MajorsApart(h, i, k);
    var changed := ChangedAddrs(h', i, j);
    InsertedAddrs(b, j, size, req);
    MinorsElsewhere(h', i, k, changed);
    assert h'.majors[k] == h.majors[k] && BlockStored(m, h.majors[k]);
    LinkMinorChanges(m, b, j, size, req, changed);
    BlockKept(m, LinkMinor(m, b.addr, Before(b, j), After(b, j), b.Lo(j), size, req), h.majors[k], changed, b.addr);
  }

  /** The shared writes go to the new header, its neighbours and the block. */
  lemma LinkMinorChanges(m: Headers, b: Major, j: nat, size: nat, req: nat, changed: set<nat>)
    requires j <= |b.minors| && b.addr in m.majUsage
    requires var s := Lists.Inserted(MinorAddrs(b.minors), j, b.Lo(j));
      s[j] in changed && (j > 0 ==> s[j - 1] in changed) && (j + 1 < |s| ==> s[j + 1] in changed)
    ensures var m' := LinkMinor(m, b.addr, Before(b, j), After(b, j), b.Lo(j), size, req);
      SameMinorsBut(m, m', changed) && SameMajorsBut(m, m', b.addr)
  {
  }

  lemma MajorsApart(h: Heap, i: nat, k: nat)
    requires WellFormed(h) && i < |h.majors| && k < |h.majors| && i != k
    ensures h.majors[i].addr != h.majors[k].addr
  {
    MajorsNoRepeat(h);
    var s := MajorAddrs(h.majors);
    assert s[i] != s[k];
  }

  /** The addresses of minor j of block i and of its neighbours. */
  ghost function ChangedAddrs(h: Heap, i: nat, j: nat): (r: set<nat>)
    requires i < |h.majors| && j < |h.majors[i].minors|
    ensures forall a :: a in r ==> a in MinorAddrs(h.majors[i].minors)
    ensures var s := MinorAddrs(h.majors[i].minors);
      s[j] in r && (j > 0 ==> s[j - 1] in r) && (j + 1 < |s| ==> s[j + 1] in r)
  {
    var s := MinorAddrs(h.majors[i].minors);
    (if j > 0 then {s[j - 1]} else {}) + {s[j]} + (if j + 1 < |s| then {s[j + 1]} else {})
  }

  lemma HeaderKept(h: Heap, i: nat, j: nat, size: nat, req: nat, a: nat, m: Headers)
    requires i < |h.majors| && j <= |h.majors[i].minors| && NoStrays(m, h)
    requires a in m.minInfo || a == h.majors[i].Lo(j)
    ensures exists k: nat, l: nat :: HeaderAt(Inserted(h, i, j, size, req), k, l, a)
  {
    if a == h.majors[i].Lo(j) {
      assert HeaderAt(Inserted(h, i, j, size, req), i, j, a);
    } else {
      var k: nat, l: nat :| HeaderAt(h, k, l, a);
      assert HeaderAt(Inserted(h, i, j, size, req), k, if k == i && l >= j then l + 1 else l, a);
    }
  }

  // ----- Linking a block -----

  /** allocate_new_page's header, linked behind the last block. */
  function LinkMajor(m: Headers, last: nat, addr: nat, pages: nat): Headers {
    var next := m.majNext[addr := 0];
    m.(majNext := if last != 0 then next[last := addr] else next,
       majPrev := m.majPrev[addr := last],
       majInfo := m.majInfo[addr := MajorInfo(pages, pages * PAGE_SIZE)],
       majUsage := m.majUsage[addr := MAJOR_HEADER],
       majFirst := m.majFirst[addr := 0])
  }

  function Last(h: Heap): nat {
    Lists.At(MajorAddrs(h.majors), |h.majors| - 1)
  }

  lemma LinkMajorStores(m: Headers, h: Heap, addr: nat, size: nat)
    requires WellFormed(h) && Stored(m, h) && Serviceable(size) && addr > 0 && Grantable(h, size, addr)
    ensures Stored(LinkMajor(m, Last(h), addr, PagesFor(size)), Append(h, addr, size))
  {
    MajorsNoRepeat(h);
    NewAddressIsFresh(h, addr, size);
    hide WellFormed, BlocksStored, NoStrays, ListStored;
    LinkMajorList(m, h.majors, NewBlock(addr, size));
    LinkMajorBlocks(m, Last(h), h.majors, addr, size);
    LinkMajorStrays(m, h, addr, size);
  }

  lemma LinkMajorBlocks(m: Headers, last: nat, bs: seq<Major>, addr: nat, size: nat)
    requires BlocksStored(m, bs) && addr !in MajorAddrs(bs)
    ensures BlocksStored(LinkMajor(m, last, addr, PagesFor(size)), bs + [NewBlock(addr, size)])
  {
    var s, m' := MajorAddrs(bs), LinkMajor(m, last, addr, PagesFor(size));
    NewBlockStored(m, last, addr, size);
    forall k | 0 <= k < |bs| ensures BlockStored(m', bs[k]) {
      assert s[k] != addr && BlockStored(m, bs[k]);
    }
  }

  lemma LinkMajorStrays(m: Headers, h: Heap, addr: nat, size: nat)
    requires NoStrays(m, h)
    ensures NoStrays(LinkMajor(m, Last(h), addr, PagesFor(size)), Append(h, addr, size))
  {
    forall a | a in m.minInfo ensures exists k: nat, l: nat :: HeaderAt(Append(h, addr, size), k, l, a) {
      var k: nat, l: nat :| HeaderAt(h, k, l, a);
      assert HeaderAt(Append(h, addr, size), k, l, a);
    }
  }

  lemma NewBlockStored(m: Headers, last: nat, addr: nat, size: nat)
    ensures BlockStored(LinkMajor(m, last, addr, PagesFor(size)), NewBlock(addr, size))
  {
  }

  lemma LinkMajorList(m: Headers, bs: seq<Major>, b: Major)
    requires NoRepeat(MajorAddrs(bs)) && forall k :: 0 <= k < |bs| ==> bs[k].addr > 0
    requires ListStored(m, bs) && b.addr !in MajorAddrs(bs)
    ensures ListStored(LinkMajor(m, Lists.At(MajorAddrs(bs), |bs| - 1), b.addr, b.pages), bs + [b])
  {
    var s := MajorAddrs(bs);
    Lists.NextInsert(m.majNext, s, |s|, b.addr);
    Lists.PrevInsert(m.majPrev, s, |s|, b.addr);
    assert MajorAddrs(bs + [b]) == Lists.Inserted(s, |s|, b.addr);
  }

  lemma NewAddressIsFresh(h: Heap, addr: nat, size: nat)
    requires WellFormed(h) && addr > 0 && Grantable(h, size, addr)
    ensures addr !in MajorAddrs(h.majors)
  {
    forall k | 0 <= k < |h.majors| ensures h.majors[k].addr != addr {
      GapWithinFree(h.majors[k], 0);
      assert PagesFor(size) > 0;
    }
  }

  // ----- Unlinking a minor -----

  /** free's writes around the minor it releases. */
  function UnlinkMinor(m: Headers, maj: nat, before: nat, after: nat, addr: nat, usage: nat): Headers {
    m.(minNext := if before != 0 then m.minNext[before := after] else m.minNext,
       minPrev := if after != 0 then m.minPrev[after := before] else m.minPrev,
       minInfo := m.minInfo - {addr},
       majFirst := if before == 0 then m.majFirst[maj := after] else m.majFirst,
       majUsage := m.majUsage[maj := usage])
  }

  lemma UnlinkMinorStores(m: Headers, h: Heap, i: nat, j: nat)
    requires WellFormed(h) && Stored(m, h) && i < |h.majors| && j < |h.majors[i].minors|
    requires h.majors[i].minors[j].size + MINOR_HEADER <= h.majors[i].usage
    ensures var b, h' := h.majors[i], Removed(h, i, j);
      Stored(UnlinkMinor(m, b.addr, Before(b, j), After(b, j + 1), b.minors[j].addr, h'.majors[i].usage), h')
  {
    UpdatedMajorAddrs(h.majors, i, Removed(h, i, j).majors[i]);
    UnlinkMinorBlocks(m, h, i, j);
    UnlinkMinorStrays(m, h, i, j);
  }

  lemma UpdatedMajorAddrs(bs: seq<Major>, i: nat, b: Major)
    requires i < |bs| && b.addr == bs[i].addr
    ensures MajorAddrs(bs[i := b]) == MajorAddrs(bs)
  {
  }

  lemma UnlinkMinorBlocks(m: Headers, h: Heap, i: nat, j: nat)
    requires WellFormed(h) && BlocksStored(m, h.majors) && i < |h.majors| && j < |h.majors[i].minors|
    requires h.majors[i].minors[j].size + MINOR_HEADER <= h.majors[i].usage
    ensures var b, h' := h.majors[i], Removed(h, i, j);
      BlocksStored(UnlinkMinor(m, b.addr, Before(b, j), After(b, j + 1), b.minors[j].addr, h'.majors[i].usage),
                   h'.majors)
  {
    var b, h' := h.majors[i], Removed(h, i, j);
    var m' := UnlinkMinor(m, b.addr, Before(b, j), After(b, j + 1), b.minors[j].addr, h'.majors[i].usage);
    assert BlockStored(m, b);
    UnlinkMinorInBlock(m, h, i, j);
    forall k | 0 <= k < |h'.majors| && k != i ensures BlockStored(m', h'.majors[k]) {
      UnlinkMinorElsewhere(m, h, i, j, k);
    }
  }

  lemma UnlinkMinorElsewhere(m: Headers, h: Heap, i: nat, j: nat, k: nat)
    requires WellFormed(h) && BlocksStored(m, h.majors) && i < |h.majors| && j < |h.majors[i].minors|
    requires h.majors[i].minors[j].size + MINOR_HEADER <= h.majors[i].usage
    requires k < |h.majors| && k != i
    ensures var b, b' := h.majors[i], h.majors[i].Remove(j);
      BlockStored(UnlinkMinor(m, b.addr, Before(b, j), After(b, j + 1), b.minors[j].addr, b'.usage), h.majors[k])
  {
    var b, b' := h.majors[i], h.majors[i].Remove(j);
    var m' := UnlinkMinor(m, b.addr, Before(b, j), After(b, j + 1), b.minors[j].addr, b'.usage);
    MajorsApart(h, i, k);
    MinorsElsewhere(h, i, k, ChangedAddrs(h, i, j));
    assert BlockStored(m, h.majors[k]);
    BlockKept(m, m', h.majors[k], ChangedAddrs(h, i, j), b.addr);
  }

  lemma RemovedAddrs(b: Major, j: nat)
    requires j < |b.minors| && b.minors[j].size + MINOR_HEADER <= b.usage
    ensures MinorAddrs(b.Remove(j).minors) == Lists.Dropped(MinorAddrs(b.minors), j)
  {
  }

  lemma UnlinkMinorInBlock(m: Headers, h: Heap, i: nat, j: nat)
    requires WellFormed(h) && i < |h.majors| && j < |h.majors[i].minors| && BlockStored(m, h.majors[i])
    requires h.majors[i].minors[j].size + MINOR_HEADER <= h.majors[i].usage
    ensures var b, b' := h.majors[i], h.majors[i].Remove(j);
      BlockStored(UnlinkMinor(m, b.addr, Before(b, j), After(b, j + 1), b.minors[j].addr, b'.usage), b')
  {
    var s := MinorAddrs(h.majors[i].minors);
    MinorsNoRepeat(h, i);
    RemovedAddrs(h.majors[i], j);
    Lists.NextDrop(m.minNext, s, j);
    Lists.PrevDrop(m.minPrev, s, j);
    UnlinkMinorFields(m, h.majors[i], j);
  }

  lemma UnlinkMinorFields(m: Headers, b: Major, j: nat)
    requires j < |b.minors| && b.minors[j].size + MINOR_HEADER <= b.usage
    requires MinorsStored(m, b) && NoRepeat(MinorAddrs(b.minors))
    ensures var b' := b.Remove(j);
      forall l :: 0 <= l < |b'.minors| ==>
        && b'.minors[l].addr in m.minInfo - {b.minors[j].addr}
        && m.minInfo[b'.minors[l].addr] == MinorInfo(b'.addr, b'.minors[l].size)
        && b'.minors[l].addr in m.minReq && m.minReq[b'.minors[l].addr] == b'.minors[l].req
  {
    var b' := b.Remove(j);
    var s := MinorAddrs(b.minors);
    forall l | 0 <= l < |b'.minors|
      ensures b'.minors[l] == b.minors[if l < j then l else l + 1] && b'.minors[l].addr != b.minors[j].addr
    {
      assert s[if l < j then l else l + 1] != s[j];
    }
  }

  lemma UnlinkMinorStrays(m: Headers, h: Heap, i: nat, j: nat)
    requires NoStrays(m, h) && i < |h.majors| && j < |h.majors[i].minors|
    requires h.majors[i].minors[j].size + MINOR_HEADER <= h.majors[i].usage
    ensures var b, h' := h.majors[i], Removed(h, i, j);
      NoStrays(UnlinkMinor(m, b.addr, Before(b, j), After(b, j + 1), b.minors[j].addr, h'.majors[i].usage), h')
  {
    var h' := Removed(h, i, j);
    forall a | a in m.minInfo && a != h.majors[i].minors[j].addr
      ensures exists k: nat, l: nat :: HeaderAt(h', k, l, a)
    {
      var k: nat, l: nat :| HeaderAt(h, k, l, a);
      assert HeaderAt(h', k, if k == i && l > j then l - 1 else l, a);
    }
  }

  // ----- Unlinking a block -----

  /** free's writes around a block it gives back. */
  function UnlinkMajor(m: Headers, before: nat, after: nat): Headers {
    m.(majNext := if before != 0 then m.majNext[before := after] else m.majNext,
       majPrev := if after != 0 then m.majPrev[after := before] else m.majPrev)
  }

  lemma UnlinkMajorStores(m: Headers, h: Heap, h': Heap, i: nat)
    requires NoRepeat(MajorAddrs(h.majors)) && forall k :: 0 <= k < |h.majors| ==> h.majors[k].addr > 0
    requires Stored(m, h) && i < |h.majors| && h.majors[i].minors == []
    requires h'.majors == Lists.Dropped(h.majors, i)
    ensures var s := MajorAddrs(h.majors);
      Stored(UnlinkMajor(m, Lists.At(s, i - 1), Lists.At(s, i + 1)), h')
  {
    var s := MajorAddrs(h.majors);
    var m' := UnlinkMajor(m, Lists.At(s, i - 1), Lists.At(s, i + 1));
    UnlinkMajorList(m, h.majors, i);
    forall k | 0 <= k < |h'.majors| ensures BlockStored(m', h'.majors[k]) {
      assert h'.majors[k] == h.majors[if k < i then k else k + 1];
      assert BlockStored(m, h'.majors[k]);
    }
    forall a | a in m'.minInfo ensures exists k: nat, l: nat :: HeaderAt(h', k, l, a) {
      HeaderKeptOnDrop(m, h, h', i, a);
    }
  }

  lemma UnlinkMajorList(m: Headers, bs: seq<Major>, i: nat)
    requires NoRepeat(MajorAddrs(bs)) && forall k :: 0 <= k < |bs| ==> bs[k].addr > 0
    requires ListStored(m, bs) && i < |bs|
    ensures var s := MajorAddrs(bs);
      ListStored(UnlinkMajor(m, Lists.At(s, i - 1), Lists.At(s, i + 1)), Lists.Dropped(bs, i))
  {
    var s := MajorAddrs(bs);
    hide Lists.NextOk, Lists.PrevOk, NoRepeat, Lists.Dropped;
    assert forall k :: 0 <= k < |s| ==> s[k] > 0;
    assert Lists.At(s, i - 1) != 0 <==> i > 0;
    assert Lists.At(s, i + 1) != 0 <==> i + 1 < |s|;
    hide MajorAddrs, Lists.At;
    DroppedMajorAddrs(bs, i);
    Lists.NextDrop(m.majNext, s, i);
    Lists.PrevDrop(m.majPrev, s, i);
  }

  lemma DroppedMajorAddrs(bs: seq<Major>, i: nat)
    requires i < |bs|
    ensures MajorAddrs(Lists.Dropped(bs, i)) == Lists.Dropped(MajorAddrs(bs), i)
  {
  }

  lemma HeaderKeptOnDrop(m: Headers, h: Heap, h': Heap, i: nat, a: nat)
    requires NoStrays(m, h) && i < |h.majors| && h.majors[i].minors == [] && a in m.minInfo
    requires h'.majors == Lists.Dropped(h.majors, i)
    ensures exists k: nat, l: nat :: HeaderAt(h', k, l, a)
  {
    var k: nat, l: nat :| HeaderAt(h, k, l, a);
    assert HeaderAt(h', if k < i then k else k - 1, l, a);
  }
}
