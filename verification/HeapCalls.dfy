/** malloc and free on the heap value, and what single calls and whole runs of them keep. */
module HeapCalls {
  import opened Words
  import opened HeapModel

  /** l_memRoot's list in order, l_bestBet as an index into it, l_inuse and l_allocated. */
  datatype Heap = Heap(majors: seq<Major>, best: Option<nat>, inuse: int, acquired: int)

  const EMPTY := Heap([], None, 0, 0)

  function SizeOf(b: Major): int { b.Size() }

  function PayloadOf(b: Major): int { Used(b.minors) - MINOR_HEADER * |b.minors| }

  function Total(f: Major -> int, bs: seq<Major>): int {
    if bs == [] then 0 else Total(f, bs[..|bs| - 1]) + f(bs[|bs| - 1])
  }

  lemma {:induction false} TotalUpdate(f: Major -> int, bs: seq<Major>, i: nat, b: Major)
    requires i < |bs|
    ensures Total(f, bs[i := b]) == Total(f, bs) - f(bs[i]) + f(b)
    decreases |bs|
  {
    var n := |bs| - 1;
    if i == n {
      assert bs[i := b][..n] == bs[..n];
    } else {
      assert bs[i := b][..n] == bs[..n][i := b];
      TotalUpdate(f, bs[..n], i, b);
    }
  }

  lemma {:induction false} TotalRemove(f: Major -> int, bs: seq<Major>, i: nat)
    requires i < |bs|
    ensures Total(f, bs[..i] + bs[i + 1..]) == Total(f, bs) - f(bs[i])
    decreases |bs|
  {
    var n := |bs| - 1;
    if i == n {
      assert bs[..i] + bs[i + 1..] == bs[..n];
    } else {
      assert (bs[..i] + bs[i + 1..])[..n - 1] == bs[..n][..i] + bs[..n][i + 1..];
      TotalRemove(f, bs[..n], i);
    }
  }

  lemma TotalAppend(f: Major -> int, bs: seq<Major>, b: Major)
    ensures Total(f, bs + [b]) == Total(f, bs) + f(b)
  {
    assert (bs + [b])[..|bs|] == bs;
  }

  predicate Apart(a: Major, b: Major) {
    a.End() <= b.addr || b.End() <= a.addr
  }

  /** Blocks are well formed and disjoint, the hint names a listed block, and the counters are the sums. */
  ghost predicate WellFormed(h: Heap) {
    && (forall i :: 0 <= i < |h.majors| ==> h.majors[i].Valid())
    && (forall i, j :: 0 <= i < j < |h.majors| ==> Apart(h.majors[i], h.majors[j]))
    && (h.best.Some? ==> h.best.value < |h.majors|)
    && h.inuse == Total(PayloadOf, h.majors)
    && h.acquired == Total(SizeOf, h.majors)
  }

  /** Between calls no block is empty. */
  ghost predicate NoneEmpty(h: Heap) {
    forall i :: 0 <= i < |h.majors| ==> h.majors[i].minors != []
  }

  ghost predicate LiveIn(bs: seq<Major>, m: Minor) {
    exists i, j :: 0 <= i < |bs| && 0 <= j < |bs[i].minors| && bs[i].minors[j] == m
  }

  /** m is one of the heap's allocations. */
  ghost predicate IsLive(h: Heap, m: Minor) {
    LiveIn(h.majors, m)
  }

  // ----- The search -----

  /** bestSize: the free bytes of the hinted block, zero without a hint. */
  function BestFree(bs: seq<Major>, best: Option<nat>): int {
    if best.Some? && best.value < |bs| then bs[best.value].Free() else 0
  }

  function Better(bs: seq<Major>, best: Option<nat>, i: nat): (r: Option<nat>)
    requires i < |bs|
    ensures r == best || r == Some(i)
    ensures r == best <==> best == Some(i) || bs[i].Free() <= BestFree(bs, best)
    ensures BestFree(bs, r) >= BestFree(bs, best) && BestFree(bs, r) >= bs[i].Free()
  {
    if BestFree(bs, best) < bs[i].Free() then Some(i) else best
  }

  /** One walk along the list from block i: the first block with a slot, and the hint by then. */
  function Scan(c: Config, bs: seq<Major>, size: nat, i: nat, best: Option<nat>): (r: (Option<nat>, Option<nat>))
    requires i <= |bs|
    ensures r.0.Some? ==> i <= r.0.value < |bs| && FirstSlot(c, bs[r.0.value], size).Some?
    ensures forall k :: i <= k < (if r.0.Some? then r.0.value else |bs|) ==> FirstSlot(c, bs[k], size).None?
    ensures r.1.Some? ==> r.1.value < |bs| || r.1 == best
    ensures BestFree(bs, r.1) >= BestFree(bs, best)
    ensures forall k :: i <= k < (if r.0.Some? then r.0.value else |bs|) ==> BestFree(bs, r.1) >= bs[k].Free()
    decreases |bs| - i
  {
    if i == |bs| then (None, best)
    else
      var best' := Better(bs, best, i);
      if FirstSlot(c, bs[i], size).Some? then (Some(i), best') else Scan(c, bs, size, i + 1, best')
  }

  predicate StartsAtBest(h: Heap, size: nat) {
    h.best.Some? && h.best.value < |h.majors| && BestFree(h.majors, h.best) > size + MINOR_HEADER
  }

  /** The search starts at the hinted block when that looks large enough, and then goes over the whole
      list again before giving up. */
  function Search(c: Config, h: Heap, size: nat): (r: (Option<nat>, Option<nat>)) {
    if StartsAtBest(h, size) then
      var first := Scan(c, h.majors, size, h.best.value, h.best);
      if first.0.Some? then first else Scan(c, h.majors, size, 0, first.1)
    else Scan(c, h.majors, size, 0, h.best)
  }

  /** The search gives up only when no block at all has a slot, and then the hint is the roomiest block. */
  lemma SearchIsExhaustive(c: Config, h: Heap, size: nat)
    ensures var (hit, best) := Search(c, h, size);
      && (hit.None? <==> forall k :: 0 <= k < |h.majors| ==> FirstSlot(c, h.majors[k], size).None?)
      && (hit.Some? ==> hit.value < |h.majors| && FirstSlot(c, h.majors[hit.value], size).Some?)
      && (best.Some? ==> best.value < |h.majors| || best == h.best)
      && (hit.None? ==> forall k :: 0 <= k < |h.majors| ==> h.majors[k].Free() <= BestFree(h.majors, best))
  {
    var r := Search(c, h, size);
    if r.0.Some? {
      assert FirstSlot(c, h.majors[r.0.value], size).Some?;
    }
  }

  /** The turn at which the search meets block k: from the block it starts at, and then from the root on. */
  function WalkTurn(h: Heap, size: nat, k: nat): nat {
    if StartsAtBest(h, size) then if k >= h.best.value then k - h.best.value else k + |h.majors| - h.best.value
    else k
  }

  /** The search comes to block k. */
  ghost predicate Met(c: Config, h: Heap, size: nat, k: nat) {
    var hit := Search(c, h, size).0;
    k < |h.majors| && (hit.None? || WalkTurn(h, size, k) <= WalkTurn(h, size, hit.value))
  }

  /** The order of the search: it starts at the hint if that has more room than the request needs, and else at the
      root, and takes the first block with a slot. */
  lemma SearchFindsFirst(c: Config, h: Heap, size: nat)
    requires h.best.Some? ==> h.best.value < |h.majors|
    ensures StartsAtBest(h, size) <==> h.best.Some? && h.majors[h.best.value].Free() > size + MINOR_HEADER
    ensures var hit := Search(c, h, size).0;
      hit.Some? ==>
        forall k: nat :: k < |h.majors| && WalkTurn(h, size, k) < WalkTurn(h, size, hit.value) ==>
          FirstSlot(c, h.majors[k], size).None?
  {
  }

  /** best is the hint, or the first of the roomiest blocks the search met if that has more room. */
  ghost predicate HintMoved(c: Config, h: Heap, size: nat, best: Option<nat>) {
    && (best == h.best ==> forall k: nat :: Met(c, h, size, k) ==> h.majors[k].Free() <= BestFree(h.majors, h.best))
    && (best != h.best ==>
          && best.Some? && Met(c, h, size, best.value)
          && h.majors[best.value].Free() > BestFree(h.majors, h.best)
          && forall k: nat :: Met(c, h, size, k) ==>
               if WalkTurn(h, size, k) < WalkTurn(h, size, best.value)
               then h.majors[k].Free() < h.majors[best.value].Free()
               else h.majors[k].Free() <= h.majors[best.value].Free())
  }

  /** The hint goes to the roomiest block the search met, the first of them, exactly if that has more room. */
  lemma SearchMovesHint(c: Config, h: Heap, size: nat)
    requires h.best.Some? ==> h.best.value < |h.majors|
    ensures HintMoved(c, h, size, Search(c, h, size).1)
  {
    hide FirstSlot, Scan, HintMoved;
    if !StartsAtBest(h, size) {
      HintFromRoot(c, h, size);
    } else if Scan(c, h.majors, size, h.best.value, h.best).0.Some? {
      HintFromHint(c, h, size);
    } else {
      HintAfterRestart(c, h, size);
    }
  }

  lemma HintFromRoot(c: Config, h: Heap, size: nat)
    requires (h.best.Some? ==> h.best.value < |h.majors|) && !StartsAtBest(h, size)
    ensures HintMoved(c, h, size, Search(c, h, size).1)
  {
    hide FirstSlot, Scan;
    ScanHint(c, h.majors, size, 0, h.best);
  }

  lemma HintFromHint(c: Config, h: Heap, size: nat)
    requires (h.best.Some? ==> h.best.value < |h.majors|) && StartsAtBest(h, size)
    requires Scan(c, h.majors, size, h.best.value, h.best).0.Some?
    ensures HintMoved(c, h, size, Search(c, h, size).1)
  {
    hide FirstSlot, Scan;
    ScanHint(c, h.majors, size, h.best.value, h.best);
  }

  lemma HintAfterRestart(c: Config, h: Heap, size: nat)
    requires (h.best.Some? ==> h.best.value < |h.majors|) && StartsAtBest(h, size)
    requires Scan(c, h.majors, size, h.best.value, h.best).0.None?
    ensures HintMoved(c, h, size, Search(c, h, size).1)
  {
    hide FirstSlot, Scan;
    ScanHint(c, h.majors, size, h.best.value, h.best);
    ScanHint(c, h.majors, size, 0, Scan(c, h.majors, size, h.best.value, h.best).1);
  }

  /** The hint after one walk: the first of the roomiest blocks it met, if that has more room. */
  lemma {:induction false} ScanHint(c: Config, bs: seq<Major>, size: nat, i: nat, best: Option<nat>)
    requires i <= |bs|
    ensures var (hit, best') := Scan(c, bs, size, i, best);
      && (forall k :: i <= k < |bs| && (hit.Some? ==> k <= hit.value) ==> bs[k].Free() <= BestFree(bs, best'))
      && (best' != best ==>
            && best'.Some? && i <= best'.value < |bs| && (hit.Some? ==> best'.value <= hit.value)
            && BestFree(bs, best) < bs[best'.value].Free()
            && forall k :: i <= k < best'.value ==> bs[k].Free() < bs[best'.value].Free())
    decreases |bs| - i
  {
    hide FirstSlot, Better;
    if i < |bs| && FirstSlot(c, bs[i], size).None? {
      ScanHint(c, bs, size, i + 1, Better(bs, best, i));
    }
  }

  /** What is left of the search at block i: the rest of this walk, and the walk from the root if the
      search started at the hint. */
  function Rest(c: Config, bs: seq<Major>, size: nat, i: nat, best: Option<nat>, started: bool):
    (Option<nat>, Option<nat>)
    requires i <= |bs|
  {
    var r := Scan(c, bs, size, i, best);
    if r.0.None? && started then Scan(c, bs, size, 0, r.1) else r
  }

  lemma RestAtStart(c: Config, h: Heap, size: nat)
    requires h.best.Some? ==> h.best.value < |h.majors|
    ensures Search(c, h, size) ==
      if StartsAtBest(h, size) then Rest(c, h.majors, size, h.best.value, h.best, true)
      else Rest(c, h.majors, size, 0, h.best, false)
  {
  }

  lemma RestStep(c: Config, bs: seq<Major>, size: nat, i: nat, best: Option<nat>, started: bool)
    requires i < |bs|
    ensures var best' := Better(bs, best, i);
      Rest(c, bs, size, i, best, started) ==
        if FirstSlot(c, bs[i], size).Some? then (Some(i), best')
        else Rest(c, bs, size, i + 1, best', started)
    ensures Rest(c, bs, size, |bs|, best, true) == Rest(c, bs, size, 0, best, false)
    ensures Rest(c, bs, size, |bs|, best, false) == (None, best)
  {
  }

  /** CASE 1: a block without enough free bytes has no slot. */
  lemma TooFull(c: Config, b: Major, size: nat)
    requires b.Valid() && b.Free() < size + MINOR_HEADER
    ensures FirstSlot(c, b, size).None?
  {
    if FirstSlot(c, b, size).Some? {
      GapWithinFree(b, FirstSlot(c, b, size).value);
    }
  }

  // ----- malloc -----

  function Place(c: Config, h: Heap, i: nat, size: nat, req: nat): (Heap, nat)
    requires c.Good() && i < |h.majors| && FirstSlot(c, h.majors[i], size).Some?
  {
    var j := FirstSlot(c, h.majors[i], size).value;
    (Inserted(h, i, j, size, req), AlignUp(c, h.majors[i].Lo(j) + MINOR_HEADER))
  }

  function Inserted(h: Heap, i: nat, j: nat, size: nat, req: nat): Heap
    requires i < |h.majors| && j <= |h.majors[i].minors|
  {
    h.(majors := h.majors[i := h.majors[i].Insert(j, size, req)], inuse := h.inuse + size)
  }

  function NewBlock(addr: nat, size: nat): Major {
    Major(addr, PagesFor(size), MAJOR_HEADER, [])
  }

  function Append(h: Heap, addr: nat, size: nat): Heap {
    h.(majors := h.majors + [NewBlock(addr, size)], acquired := h.acquired + PagesFor(size) * PAGE_SIZE)
  }

  lemma NewBlockHasSlot(c: Config, addr: nat, size: nat)
    requires Serviceable(size)
    ensures FirstSlot(c, NewBlock(addr, size), size) == Some(0)
    ensures NewBlock(addr, size).Free() == NewBlock(addr, size).Gap(0) >= size + MINOR_HEADER
  {
    BlockHoldsRequest(size);
  }

  /** The last block had enough free bytes but no gap (CASE 5), or there was no block at all: then the
      loop visits the new block, and the hint may move to it before it is filled. */
  predicate VisitsNewBlock(h: Heap, size: nat) {
    |h.majors| == 0 || h.majors[|h.majors| - 1].Free() >= size + MINOR_HEADER
  }

  function Extended(h: Heap, addr: nat, size: nat): Heap {
    var h1 := Append(h, addr, size);
    if VisitsNewBlock(h, size) then h1.(best := Better(h1.majors, h.best, |h.majors|)) else h1
  }

  /** `grant` is the answer of the page source, zero for none, in case it is asked. */
  function MallocSized(c: Config, h: Heap, size: nat, req: nat, grant: nat): (Heap, nat)
    requires c.Good() && Serviceable(size)
  {
    SearchIsExhaustive(c, h, size);
    NewBlockHasSlot(c, grant, size);
    var (hit, best) := Search(c, h, size);
    var h0 := h.(best := best);
    if hit.Some? then Place(c, h0, hit.value, size, req)
    else if grant == 0 then (h0, 0)
    else Place(c, Extended(h0, grant, size), |h.majors|, size, req)
  }

  /** The outcome in terms of where the search ended. */
  lemma SearchHits(c: Config, h: Heap, size: nat, req: nat, grant: nat, i: nat, best: Option<nat>, j: nat)
    requires c.Good() && Serviceable(size) && Search(c, h, size) == (Some(i), best)
    requires i < |h.majors| && FirstSlot(c, h.majors[i], size) == Some(j)
    ensures MallocSized(c, h, size, req, grant) ==
      (Inserted(h.(best := best), i, j, size, req), AlignUp(c, h.majors[i].Lo(j) + MINOR_HEADER))
  {
    assert Place(c, h.(best := best), i, size, req) == MallocSized(c, h, size, req, grant);
  }

  lemma SearchMisses(c: Config, h: Heap, size: nat, req: nat, grant: nat, best: Option<nat>)
    requires c.Good() && Serviceable(size) && Search(c, h, size) == (None, best)
    ensures MallocSized(c, h, size, req, grant) ==
      if grant == 0 then (h.(best := best), 0)
      else (Inserted(Extended(h.(best := best), grant, size), |h.majors|, 0, size, req),
            AlignUp(c, grant + MAJOR_HEADER + MINOR_HEADER))
  {
    NewBlockHasSlot(c, grant, size);
    if grant > 0 {
      var h2 := Extended(h.(best := best), grant, size);
      assert h2.majors[|h.majors|] == NewBlock(grant, size);
      assert Place(c, h2, |h.majors|, size, req) == MallocSized(c, h, size, req, grant);
    }
  }

  predicate Answerable(c: Config, req: nat) {
    Adjusted(c, req) == 0 || Serviceable(Adjusted(c, req))
  }

  /** A request whose adjusted size is zero is served as malloc(1). */
  function Effective(c: Config, req: nat): nat {
    if Adjusted(c, req) == 0 then 1 else req
  }

  lemma EffectiveIsServiceable(c: Config, req: nat)
    requires c.Good() && Answerable(c, req)
    ensures Serviceable(Adjusted(c, Effective(c, req))) && Adjusted(c, Effective(c, req)) > 0
  {
  }

  function Malloc(c: Config, h: Heap, req: nat, grant: nat): (Heap, nat)
    requires c.Good() && Answerable(c, req)
  {
    EffectiveIsServiceable(c, req);
    var e := Effective(c, req);
    MallocSized(c, h, Adjusted(c, e), e, grant)
  }

  /** What a page source may answer: nothing, or pages inside the address space clear of every block. */
  ghost predicate Grantable(h: Heap, size: nat, grant: nat) {
    grant > 0 ==>
      && NewBlock(grant, size).End() <= WORD
      && forall i :: 0 <= i < |h.majors| ==> Apart(h.majors[i], NewBlock(grant, size))
  }

  lemma InsertKeepsWellFormed(h: Heap, i: nat, j: nat, size: nat, req: nat)
    requires WellFormed(h) && i < |h.majors| && j <= |h.majors[i].minors|
    requires h.majors[i].Gap(j) >= size + MINOR_HEADER
    ensures WellFormed(Inserted(h, i, j, size, req))
  {
    var b := h.majors[i];
    var b' := b.Insert(j, size, req);
    InsertKeepsMajor(b, j, size, req);
    UsedInsert(b.minors, j, Minor(b.Lo(j), size, req));
    TotalUpdate(SizeOf, h.majors, i, b');
    TotalUpdate(PayloadOf, h.majors, i, b');
  }

  /** No live header stands at the start of a gap that fits a minor. */
  lemma GapStartIsFresh(h: Heap, i: nat, j: nat, size: nat, k: nat, l: nat)
    requires WellFormed(h) && i < |h.majors| && j <= |h.majors[i].minors|
    requires h.majors[i].Gap(j) >= size + MINOR_HEADER
    requires k < |h.majors| && l < |h.majors[k].minors|
    ensures h.majors[k].minors[l].addr != h.majors[i].Lo(j)
  {
    var h' := Inserted(h, i, j, size, 0);
    InsertKeepsWellFormed(h, i, j, size, 0);
    assert h'.majors[i].minors[j].addr == h.majors[i].Lo(j);
    var l' := if k == i && l >= j then l + 1 else l;
    assert h'.majors[k].minors[l'] == h.majors[k].minors[l];
    LiveMinorsApart(h', i, j, k, l');
  }

  lemma AppendKeepsWellFormed(h: Heap, addr: nat, size: nat)
    requires WellFormed(h) && Serviceable(size) && addr > 0 && Grantable(h, size, addr)
    ensures WellFormed(Extended(h, addr, size))
    ensures Extended(h, addr, size).majors == h.majors + [NewBlock(addr, size)]
  {
    hide PagesFor, Serviceable;
    var b := NewBlock(addr, size);
    NewBlockIsValid(addr, size);
    assert PayloadOf(b) == 0;
    TotalAppend(SizeOf, h.majors, b);
    TotalAppend(PayloadOf, h.majors, b);
  }

  lemma WellFormedAppend(h: Heap, addr: nat, size: nat)
    requires WellFormed(Extended(h, addr, size)) && WellFormed(h)
    ensures WellFormed(Append(h, addr, size))
  {
  }

  lemma NewBlockIsValid(addr: nat, size: nat)
    requires Serviceable(size) && addr > 0 && NewBlock(addr, size).End() <= WORD
    ensures NewBlock(addr, size).Valid()
  {
    BlockHoldsRequest(size);
  }

  lemma SearchKeepsWellFormed(c: Config, h: Heap, size: nat)
    requires WellFormed(h)
    ensures WellFormed(h.(best := Search(c, h, size).1))
  {
    SearchIsExhaustive(c, h, size);
  }

  /** Whether the page source decides: no block has a slot. */
  ghost predicate Asks(c: Config, h: Heap, size: nat) {
    forall k :: 0 <= k < |h.majors| ==> FirstSlot(c, h.majors[k], size).None?
  }

  /** The blocks a call places its minor into: the old ones, and a new last one when none has a slot. */
  ghost function Candidates(c: Config, h: Heap, size: nat, grant: nat): seq<Major> {
    if Asks(c, h, size) then h.majors + [NewBlock(grant, size)] else h.majors
  }

  /** Everything a successful call does to the blocks and counters: one minor goes into the first slot of
      one block, which is the new block if there is one. */
  ghost predicate Made(c: Config, h: Heap, size: nat, req: nat, grant: nat, h': Heap, i: nat, j: nat) {
    var bs := Candidates(c, h, size, grant);
    && i < |bs| && (Asks(c, h, size) ==> i == |h.majors|)
    && IsFirstSlot(c, bs[i], size, j)
    && h'.majors == bs[i := bs[i].Insert(j, size, req)]
    && h'.inuse == h.inuse + size
    && h'.acquired == h.acquired + if Asks(c, h, size) then PagesFor(size) * PAGE_SIZE else 0
  }

  /** malloc keeps the heap well formed and fails only when it needed pages and got none. A success makes
      one minor and returns its aligned payload; a failure changes no block. */
  lemma MallocKeepsWellFormed(c: Config, h: Heap, size: nat, req: nat, grant: nat) returns (i: nat, j: nat)
    requires c.Good() && WellFormed(h) && Serviceable(size) && Grantable(h, size, grant)
    ensures var (h', p) := MallocSized(c, h, size, req, grant);
      && WellFormed(h')
      && (p == 0 <==> Asks(c, h, size) && grant == 0)
      && (p == 0 ==> h' == h.(best := h'.best))
      && (p != 0 ==>
            && Made(c, h, size, req, grant, h', i, j)
            && p == AlignUp(c, h'.majors[i].minors[j].addr + MINOR_HEADER))
  {
    hide WellFormed, Search, MallocSized, Made, Grantable, FirstSlot;
    SearchIsExhaustive(c, h, size);
    SearchKeepsWellFormed(c, h, size);
    var (hit, best) := Search(c, h, size);
    i, j := 0, 0;
    if hit.Some? {
      i, j := PlaceMakes(c, h, hit.value, best, size, req, grant);
    } else if grant != 0 {
      i := AppendMakes(c, h, best, size, req, grant);
    } else {
      SearchMisses(c, h, size, req, grant, best);
    }
  }

  lemma PlaceMakes(c: Config, h: Heap, hit: nat, best: Option<nat>, size: nat, req: nat, grant: nat)
    returns (i: nat, j: nat)
    requires c.Good() && WellFormed(h) && Serviceable(size)
    requires Search(c, h, size) == (Some(hit), best) && WellFormed(h.(best := best))
    requires hit < |h.majors| && FirstSlot(c, h.majors[hit], size).Some?
    ensures var (h', p) := MallocSized(c, h, size, req, grant);
      && !Asks(c, h, size)
      && WellFormed(h') && p != 0
      && Made(c, h, size, req, grant, h', i, j)
      && p == AlignUp(c, h'.majors[i].minors[j].addr + MINOR_HEADER)
  {
    j := FirstSlot(c, h.majors[hit], size).value;
    i := hit;
    SearchHits(c, h, size, req, grant, hit, best, j);
    InsertKeepsWellFormed(h.(best := best), i, j, size, req);
  }

  lemma AppendMakes(c: Config, h: Heap, best: Option<nat>, size: nat, req: nat, grant: nat) returns (i: nat)
    requires c.Good() && WellFormed(h) && Serviceable(size) && Grantable(h, size, grant) && grant > 0
    requires Search(c, h, size) == (None, best) && Asks(c, h, size) && WellFormed(h.(best := best))
    ensures var (h', p) := MallocSized(c, h, size, req, grant);
      && WellFormed(h') && p != 0
      && Made(c, h, size, req, grant, h', i, 0)
      && p == AlignUp(c, h'.majors[i].minors[0].addr + MINOR_HEADER)
  {
    var h2 := Extended(h.(best := best), grant, size);
    i := |h.majors|;
    AppendKeepsWellFormed(h.(best := best), grant, size);
    NewBlockHasSlot(c, grant, size);
    InsertKeepsWellFormed(h2, i, 0, size, req);
    assert Place(c, h2, i, size, req) == MallocSized(c, h, size, req, grant);
  }

  lemma MallocKeepsNoneEmpty(c: Config, h: Heap, size: nat, req: nat, grant: nat, h': Heap, i: nat, j: nat)
    requires NoneEmpty(h) && Made(c, h, size, req, grant, h', i, j)
    ensures NoneEmpty(h')
  {
    var bs := Candidates(c, h, size, grant);
    forall k | 0 <= k < |h'.majors| ensures h'.majors[k].minors != [] {
      if k != i {
        assert h'.majors[k] == bs[k] == h.majors[k];
      }
    }
  }

  /** The payload range a caller may use, and what surrounds it. */
  lemma ResultIsInsideMinor(c: Config, req: nat, m: Minor)
    requires c.Good() && req < WORD && m.size == Adjusted(c, req)
    ensures var p := AlignUp(c, m.addr + MINOR_HEADER);
      && p % c.alignment == 0
      && m.addr + MINOR_HEADER <= p
      && (c.alignment > 1 ==>
            && m.addr + MINOR_HEADER <= p - ALIGN_INFO
            && (p - ALIGN_INFO < m.End() <==> Padding(c, m.addr + MINOR_HEADER) < m.size))
      && (p + req <= m.End() <==> c.alignment == 1 || req + c.alignment + ALIGN_INFO < WORD)
  {
    AlignedPointer(c, m.addr + MINOR_HEADER);
    if c.alignment > 1 && req + c.alignment + ALIGN_INFO >= WORD {
      assert Adjusted(c, req) == req + c.alignment + ALIGN_INFO - WORD;
    }
  }

  /** An instance where the alignment byte is written behind the minor: a request of the shipped build whose size
      wraps to one, with its payload on a page boundary. */
  lemma AlignByteCanMiss(m: Minor)
    requires m.size == Adjusted(SHIPPED, WORD - 4111) && (m.addr + MINOR_HEADER) % PAGE_SIZE == 0
    ensures m.size == 1 && AlignUp(SHIPPED, m.addr + MINOR_HEADER) - ALIGN_INFO == m.End() + 4079
  {
    var q := m.addr + MINOR_HEADER;
    assert (q + ALIGN_INFO) % 4096 == 16;
    assert Padding(SHIPPED, q) == 4080;
  }

  /** Live minors are disjoint from each other and from the header of every block. */
  lemma LiveMinorsApart(h: Heap, i: nat, j: nat, k: nat, l: nat)
    requires WellFormed(h)
    requires i < |h.majors| && j < |h.majors[i].minors|
    requires k < |h.majors| && l < |h.majors[k].minors|
    ensures var m, n := h.majors[i].minors[j], h.majors[k].minors[l];
      && ((i == k && j == l) || m.End() <= n.addr || n.End() <= m.addr)
      && (m.End() <= h.majors[k].addr || h.majors[k].addr + MAJOR_HEADER <= m.addr)
  {
    MinorInside(h.majors[i], j);
    MinorInside(h.majors[k], l);
    if i == k {
      if j < l {
        MinorsInOrder(h.majors[i], j, l);
      } else if l < j {
        MinorsInOrder(h.majors[i], l, j);
      }
    } else if i < k {
      assert Apart(h.majors[i], h.majors[k]);
    } else {
      assert Apart(h.majors[k], h.majors[i]);
    }
  }

  lemma InsertAddsOneLive(bs: seq<Major>, i: nat, j: nat, size: nat, req: nat, m: Minor)
    requires i < |bs| && j <= |bs[i].minors|
    ensures LiveIn(bs[i := bs[i].Insert(j, size, req)], m) <==> LiveIn(bs, m) || m == Minor(bs[i].Lo(j), size, req)
  {
    var b, b' := bs[i], bs[i].Insert(j, size, req);
    var bs' := bs[i := b'];
    assert bs'[i].minors[j] == Minor(b.Lo(j), size, req);
    if LiveIn(bs, m) {
      var k, l :| 0 <= k < |bs| && 0 <= l < |bs[k].minors| && bs[k].minors[l] == m;
      if k == i {
        assert bs'[i].minors[if l < j then l else l + 1] == m;
      } else {
        assert bs'[k].minors[l] == m;
      }
    }
    if LiveIn(bs', m) {
      var k, l :| 0 <= k < |bs'| && 0 <= l < |bs'[k].minors| && bs'[k].minors[l] == m;
      if k != i {
        assert bs[k].minors[l] == m;
      } else if l != j {
        assert b.minors[if l < j then l else l - 1] == m;
      }
    }
  }

  lemma EmptyBlockAddsNoLive(bs: seq<Major>, b: Major, m: Minor)
    requires b.minors == []
    ensures LiveIn(bs + [b], m) <==> LiveIn(bs, m)
  {
    if LiveIn(bs, m) {
      var k, l :| 0 <= k < |bs| && 0 <= l < |bs[k].minors| && bs[k].minors[l] == m;
      assert (bs + [b])[k].minors[l] == m;
    }
  }

  /** The other allocations stay exactly as they were. */
  lemma MallocAddsOneLive(c: Config, h: Heap, size: nat, req: nat, grant: nat, h': Heap, i: nat, j: nat, m: Minor)
    requires Made(c, h, size, req, grant, h', i, j)
    ensures IsLive(h', m) <==> IsLive(h, m) || m == h'.majors[i].minors[j]
  {
    InsertAddsOneLive(Candidates(c, h, size, grant), i, j, size, req, m);
    EmptyBlockAddsNoLive(h.majors, NewBlock(grant, size), m);
  }

  // ----- The hint -----

  /** The room of an empty new block. */
  function Room(size: nat): int {
    PagesFor(size) * PAGE_SIZE - MAJOR_HEADER
  }

  /** After appending to a non-empty list the hint is the roomiest of the earlier blocks, except when the
      new block took the hint while still empty and, filled, has less room than one of them. */
  lemma HintAfterAppend(c: Config, h: Heap, size: nat, req: nat, grant: nat)
    requires c.Good() && WellFormed(h) && Serviceable(size) && Grantable(h, size, grant)
    requires h.majors != [] && grant > 0 && Asks(c, h, size)
    ensures var h' := MallocSized(c, h, size, req, grant).0;
      (forall k :: 0 <= k < |h.majors| ==> h.majors[k].Free() <= BestFree(h'.majors, h'.best))
      <==>
      (|| h.majors[|h.majors| - 1].Free() < size + MINOR_HEADER
       || (exists k :: 0 <= k < |h.majors| && Room(size) <= h.majors[k].Free())
       || (forall k :: 0 <= k < |h.majors| ==> h.majors[k].Free() <= Room(size) - size - MINOR_HEADER))
  {
    var bs := h.majors;
    var h' := MallocSized(c, h, size, req, grant).0;
    var best := Search(c, h, size).1;
    HintMovesOrStays(c, h, size, req, grant);
    var k := Roomiest(h, best);
    if VisitsNewBlock(h, size) && bs[k].Free() < Room(size) {
      assert BestFree(h'.majors, h'.best) == Room(size) - size - MINOR_HEADER;
    } else {
      assert BestFree(h'.majors, h'.best) == bs[k].Free();
    }
  }

  /** A hint that is at least as roomy as every block is as roomy as one of them. */
  lemma Roomiest(h: Heap, best: Option<nat>) returns (k: nat)
    requires WellFormed(h) && h.majors != [] && (best.Some? ==> best.value < |h.majors|)
    requires forall k :: 0 <= k < |h.majors| ==> h.majors[k].Free() <= BestFree(h.majors, best)
    ensures k < |h.majors| && h.majors[k].Free() == BestFree(h.majors, best)
  {
    if best.Some? {
      k := best.value;
    } else {
      k := 0;
      GapWithinFree(h.majors[0], 0);
    }
  }

  /** The hint after malloc is the one the search left, unless a new block was visited and was roomier. */
  lemma HintMovesOrStays(c: Config, h: Heap, size: nat, req: nat, grant: nat)
    requires c.Good() && (h.best.Some? ==> h.best.value < |h.majors|) && Serviceable(size)
    requires grant > 0 && Asks(c, h, size)
    ensures var h' := MallocSized(c, h, size, req, grant).0;
      h'.best == if h.majors == [] || (h.majors[|h.majors| - 1].Free() >= size + MINOR_HEADER
                                       && BestFree(h.majors, Search(c, h, size).1) < Room(size))
                 then Some(|h.majors|) else Search(c, h, size).1
    ensures var h' := MallocSized(c, h, size, req, grant).0;
      var best := Search(c, h, size).1;
      var most := BestFree(h.majors, best);
      && (best.Some? ==> best.value < |h.majors|)
      && (forall k :: 0 <= k < |h.majors| ==> h.majors[k].Free() <= most)
      && BestFree(h'.majors, h'.best) ==
           if VisitsNewBlock(h, size) && most < Room(size) then Room(size) - size - MINOR_HEADER else most
  {
    SearchIsExhaustive(c, h, size);
    NewBlockHasSlot(c, grant, size);
    var best := Search(c, h, size).1;
    var h2 := Extended(h.(best := best), grant, size);
    var h' := MallocSized(c, h, size, req, grant).0;
    var n := |h.majors|;
    assert h' == Place(c, h2, n, size, req).0;
    assert h2.majors[n].Free() == Room(size);
    assert h'.majors[n].Free() == Room(size) - size - MINOR_HEADER;
    assert forall k :: 0 <= k < n ==> h'.majors[k] == h.majors[k] == h2.majors[k];
    assert BestFree(h2.majors, best) == BestFree(h.majors, best);
  }

  lemma HintWithoutAppend(c: Config, h: Heap, size: nat, req: nat, grant: nat)
    requires c.Good() && (h.best.Some? ==> h.best.value < |h.majors|) && Serviceable(size)
    requires !Asks(c, h, size) || grant == 0
    ensures MallocSized(c, h, size, req, grant).0.best == Search(c, h, size).1
  {
    SearchIsExhaustive(c, h, size);
    var (hit, best) := Search(c, h, size);
    if hit.Some? {
      SearchHits(c, h, size, req, grant, hit.value, best, FirstSlot(c, h.majors[hit.value], size).value);
    }
  }

  /** The block the shipped build's first malloc(1) makes of 16 pages at a. */
  function FirstBlock(a: nat): Major {
    Major(a, 16, 4161, [Minor(a + MAJOR_HEADER, 4113, 1)])
  }

  lemma FirstCall(a: nat)
    requires a > 0
    ensures Malloc(SHIPPED, EMPTY, 1, a).0 == Heap([FirstBlock(a)], Some(0), 4113, 65536)
  {
    var size := Adjusted(SHIPPED, 1);
    NewBlockHasSlot(SHIPPED, a, size);
    assert size == 4113 && PagesFor(size) == 16;
    assert NewBlock(a, size).Insert(0, size, 1) == FirstBlock(a);
  }

  /** So the exception is real: in the shipped build, whatever run of pages a the first call gets in kernel
      space and b the second, after malloc(1) and malloc(10000) the hint is the smaller block. */
  lemma HintCanMiss(a: nat, b: nat)
    requires 0xE000_0000 <= a && a + 65536 <= WORD && 0xE000_0000 <= b && b + 65536 <= WORD
    requires a + 65536 <= b || b + 65536 <= a
    ensures Answerable(SHIPPED, 1) && Grantable(EMPTY, Adjusted(SHIPPED, 1), a)
    ensures var h := Malloc(SHIPPED, EMPTY, 1, a).0;
      && Answerable(SHIPPED, 10000) && Grantable(h, Adjusted(SHIPPED, 10000), b)
      && var h' := Malloc(SHIPPED, h, 10000, b).0;
         |h'.majors| == 2 && BestFree(h'.majors, h'.best) < h'.majors[0].Free()
  {
    FirstCall(a);
    var h, size := Malloc(SHIPPED, EMPTY, 1, a).0, Adjusted(SHIPPED, 10000);
    assert size == 14112 && PagesFor(size) == 16 && PagesFor(Adjusted(SHIPPED, 1)) == 16;
    assert FirstBlock(a).Gap(0) == 0 && FirstBlock(a).Free() == 61375;
    SmallerTakesHint(h, a, b);
  }

  lemma SmallerTakesHint(h: Heap, a: nat, b: nat)
    requires h == Heap([FirstBlock(a)], Some(0), 4113, 65536) && b > 0
    ensures var h' := MallocSized(SHIPPED, h, 14112, 10000, b).0;
      && |h'.majors| == 2 && h'.majors[0] == FirstBlock(a)
      && BestFree(h'.majors, h'.best) < FirstBlock(a).Free()
  {
    assert PagesFor(14112) == 16;
    assert FirstBlock(a).Gap(0) == 0 && FirstBlock(a).Free() == 61375;
    HintMovesOrStays(SHIPPED, h, 14112, 10000, b);
    SearchMisses(SHIPPED, h, 14112, 10000, b, Search(SHIPPED, h, 14112).1);
  }

  // ----- free (the commented-out implementation) -----

  /** The heap after minor j of block i left its list and the counters, but before the clean-up. */
  function Removed(h: Heap, i: nat, j: nat): Heap
    requires i < |h.majors| && j < |h.majors[i].minors|
    requires h.majors[i].minors[j].size + MINOR_HEADER <= h.majors[i].usage
  {
    h.(majors := h.majors[i := h.majors[i].Remove(j)], inuse := h.inuse - h.majors[i].minors[j].size)
  }

  /** Releases minor j of block i; an emptied block leaves the list. */
  function FreeAt(h: Heap, i: nat, j: nat): Heap
    requires i < |h.majors| && j < |h.majors[i].minors|
    requires h.majors[i].minors[j].size + MINOR_HEADER <= h.majors[i].usage
  {
    var r := Removed(h, i, j);
    if r.majors[i].minors == [] then
      Heap(h.majors[..i] + h.majors[i + 1..], HintWithout(h.best, i), r.inuse, h.acquired - h.majors[i].Size())
    else r.(best := HintAfterFree(r.majors, h.best, i))
  }

  function HintWithout(best: Option<nat>, i: nat): Option<nat> {
    match best
    case None => None
    case Some(k) => if k == i then None else if k < i then Some(k) else Some(k - 1)
  }

  /** The source compares the free sizes in signed 32-bit variables. */
  function HintAfterFree(bs: seq<Major>, best: Option<nat>, i: nat): Option<nat>
    requires i < |bs|
  {
    if best.Some? && best.value < |bs|
      && AsSigned32(Wrap32(bs[i].Free())) > AsSigned32(Wrap32(bs[best.value].Free()))
    then Some(i) else best
  }

  lemma RemovedKeepsWellFormed(h: Heap, i: nat, j: nat)
    requires WellFormed(h) && i < |h.majors| && j < |h.majors[i].minors|
    ensures h.majors[i].minors[j].size + MINOR_HEADER <= h.majors[i].usage
    ensures WellFormed(Removed(h, i, j))
  {
    RemoveKeepsMajor(h.majors[i], j);
    UsedRemove(h.majors[i].minors, j);
    var b := h.majors[i].Remove(j);
    TotalUpdate(SizeOf, h.majors, i, b);
    TotalUpdate(PayloadOf, h.majors, i, b);
  }

  /** The heap without its empty block i. */
  function WithoutBlock(h: Heap, i: nat): Heap
    requires i < |h.majors|
  {
    Heap(h.majors[..i] + h.majors[i + 1..], HintWithout(h.best, i), h.inuse, h.acquired - h.majors[i].Size())
  }

  lemma WithoutBlockKeepsWellFormed(h: Heap, i: nat)
    requires WellFormed(h) && i < |h.majors| && h.majors[i].minors == []
    ensures WellFormed(WithoutBlock(h, i))
  {
    TotalRemove(SizeOf, h.majors, i);
    TotalRemove(PayloadOf, h.majors, i);
  }

  lemma FreeInTwoSteps(h: Heap, i: nat, j: nat)
    requires i < |h.majors| && j < |h.majors[i].minors|
    requires h.majors[i].minors[j].size + MINOR_HEADER <= h.majors[i].usage
    ensures var r := Removed(h, i, j);
      FreeAt(h, i, j) ==
        if r.majors[i].minors == [] then WithoutBlock(r, i) else r.(best := HintAfterFree(r.majors, r.best, i))
  {
    var r := Removed(h, i, j);
    assert h.majors[..i] + h.majors[i + 1..] == r.majors[..i] + r.majors[i + 1..];
  }

  lemma FreeKeepsWellFormed(h: Heap, i: nat, j: nat)
    requires WellFormed(h) && i < |h.majors| && j < |h.majors[i].minors|
    ensures h.majors[i].minors[j].size + MINOR_HEADER <= h.majors[i].usage
    ensures WellFormed(FreeAt(h, i, j))
  {
    RemovedKeepsWellFormed(h, i, j);
    FreeInTwoSteps(h, i, j);
    if Removed(h, i, j).majors[i].minors == [] {
      WithoutBlockKeepsWellFormed(Removed(h, i, j), i);
    }
  }

  lemma FreeKeepsNoneEmpty(h: Heap, i: nat, j: nat)
    requires NoneEmpty(h) && i < |h.majors| && j < |h.majors[i].minors|
    requires h.majors[i].minors[j].size + MINOR_HEADER <= h.majors[i].usage
    ensures NoneEmpty(FreeAt(h, i, j))
  {
  }

  /** The hint after free. It stays on its block, which moves down in the list when an earlier block leaves it, and is
      lost with its block; and a block with a minor left takes it when it then has more room, where sizes of 2 GiB
      and more count as negative. */
  lemma HintAfterRelease(h: Heap, i: nat, j: nat)
    requires WellFormed(h) && i < |h.majors| && j < |h.majors[i].minors|
    ensures h.majors[i].minors[j].size + MINOR_HEADER <= h.majors[i].usage
    ensures var h' := FreeAt(h, i, j);
      if h.best.None? then h'.best.None?
      else if |h.majors[i].minors| == 1 then
        && (h'.best.None? <==> h.best.value == i)
        && (h'.best.Some? ==>
              h'.best.value < |h'.majors| && h'.majors[h'.best.value] == h.majors[h.best.value]
              && (h'.best.value == h.best.value <==> h.best.value < i))
      else
        var room, most := h.majors[i].Free() + h.majors[i].minors[j].size + MINOR_HEADER, h.majors[h.best.value].Free();
        h'.best == if h.best.value != i && (room > most <==> (room < 0x8000_0000 <==> most < 0x8000_0000))
                   then Some(i) else h.best
  {
    RemovedKeepsWellFormed(h, i, j);
    FreeInTwoSteps(h, i, j);
    if |h.majors[i].minors| > 1 && h.best.Some? {
      var r := Removed(h, i, j);
      FreeIsWord(r.majors[i]);
      FreeIsWord(r.majors[h.best.value]);
    }
    hide WellFormed, FreeAt, Major.Valid;
  }

  lemma FreeIsWord(b: Major)
    requires b.Valid()
    ensures 0 <= b.Free() < WORD && Wrap32(b.Free()) == b.Free()
  {
    GapWithinFree(b, 0);
  }

  /** Freeing takes away that allocation and no other. */
  lemma FreeTakesOneLive(h: Heap, i: nat, j: nat, m: Minor)
    requires WellFormed(h) && i < |h.majors| && j < |h.majors[i].minors|
    requires h.majors[i].minors[j].size + MINOR_HEADER <= h.majors[i].usage
    ensures IsLive(FreeAt(h, i, j), m) <==> IsLive(h, m) && m != h.majors[i].minors[j]
  {
    if IsLive(h, m) && m != h.majors[i].minors[j] {
      FreeKeepsOthers(h, i, j, m);
    }
    if IsLive(FreeAt(h, i, j), m) {
      FreeAddsNone(h, i, j, m);
    }
  }

  lemma FreeKeepsOthers(h: Heap, i: nat, j: nat, m: Minor)
    requires i < |h.majors| && j < |h.majors[i].minors|
    requires h.majors[i].minors[j].size + MINOR_HEADER <= h.majors[i].usage
    requires IsLive(h, m) && m != h.majors[i].minors[j]
    ensures IsLive(FreeAt(h, i, j), m)
  {
    var bs := FreeAt(h, i, j).majors;
    var b := h.majors[i].Remove(j);
    var k, l :| 0 <= k < |h.majors| && 0 <= l < |h.majors[k].minors| && h.majors[k].minors[l] == m;
    if k == i {
      assert b.minors[if l < j then l else l - 1] == m;
      assert bs[i] == b;
    } else {
      assert bs[if b.minors == [] && k > i then k - 1 else k] == h.majors[k];
    }
  }

  lemma FreeAddsNone(h: Heap, i: nat, j: nat, m: Minor)
    requires WellFormed(h) && i < |h.majors| && j < |h.majors[i].minors|
    requires h.majors[i].minors[j].size + MINOR_HEADER <= h.majors[i].usage
    requires IsLive(FreeAt(h, i, j), m)
    ensures IsLive(h, m) && m != h.majors[i].minors[j]
  {
    hide WellFormed;
    var bs := FreeAt(h, i, j).majors;
    var b := h.majors[i].Remove(j);
    var k, l :| 0 <= k < |bs| && 0 <= l < |bs[k].minors| && bs[k].minors[l] == m;
    if b.minors != [] && k == i {
      var l' := if l < j then l else l + 1;
      assert h.majors[i].minors[l'] == m;
      LiveMinorsApart(h, i, l', i, j);
    } else {
      var k' := if b.minors == [] && k >= i then k + 1 else k;
      assert bs[k] == h.majors[k'];
      LiveMinorsApart(h, k', l, i, j);
    }
  }

  lemma RemoveUndoesInsert(b: Major, j: nat, size: nat, req: nat)
    requires j <= |b.minors|
    ensures b.Insert(j, size, req).minors[j] == Minor(b.Lo(j), size, req)
    ensures b.Insert(j, size, req).Remove(j) == b
  {
    assert b.Insert(j, size, req).Remove(j).minors == b.minors;
  }

  /** Freeing what malloc just made restores every block and both counters. */
  lemma FreeUndoesMalloc(c: Config, h: Heap, size: nat, req: nat, grant: nat, h': Heap, i: nat, j: nat)
    requires c.Good() && WellFormed(h) && NoneEmpty(h) && Serviceable(size) && Grantable(h, size, grant)
    requires WellFormed(h') && Made(c, h, size, req, grant, h', i, j)
    ensures h'.majors[i].minors[j].size + MINOR_HEADER <= h'.majors[i].usage
    ensures var h'' := FreeAt(h', i, j);
      h''.majors == h.majors && h''.inuse == h.inuse && h''.acquired == h.acquired
  {
    FreeKeepsWellFormed(h', i, j);
    var bs := Candidates(c, h, size, grant);
    var b := bs[i];
    RemoveUndoesInsert(b, j, size, req);
    if Asks(c, h, size) {
      assert h'.majors[..i] + h'.majors[i + 1..] == h.majors;
    } else {
      assert h'.majors[i := b] == h.majors;
    }
  }

  // ----- realloc in place -----

  /** The heap with another request size recorded for minor j of block i. */
  function WithReq(h: Heap, i: nat, j: nat, req: nat): Heap
    requires i < |h.majors| && j < |h.majors[i].minors|
  {
    var b := h.majors[i];
    h.(majors := h.majors[i := b.(minors := b.minors[j := b.minors[j].(req := req)])])
  }

  lemma UsedIgnoresReq(ms: seq<Minor>, j: nat, req: nat)
    requires j < |ms|
    ensures Used(ms[j := ms[j].(req := req)]) == Used(ms)
  {
    var ms' := ms[j := ms[j].(req := req)];
    UsedRemove(ms, j);
    UsedRemove(ms', j);
    assert ms'[..j] + ms'[j + 1..] == ms[..j] + ms[j + 1..];
  }

  lemma WithReqKeepsWellFormed(h: Heap, i: nat, j: nat, req: nat)
    requires WellFormed(h) && i < |h.majors| && j < |h.majors[i].minors|
    ensures WellFormed(WithReq(h, i, j, req))
    ensures var h' := WithReq(h, i, j, req);
      && |h'.majors| == |h.majors| && h'.best == h.best && h'.inuse == h.inuse && h'.acquired == h.acquired
      && forall k :: 0 <= k < |h.majors| ==>
           && h'.majors[k].addr == h.majors[k].addr && h'.majors[k].pages == h.majors[k].pages
           && h'.majors[k].usage == h.majors[k].usage && |h'.majors[k].minors| == |h.majors[k].minors|
           && forall l :: 0 <= l < |h.majors[k].minors| ==>
                var m := h.majors[k].minors[l];
                h'.majors[k].minors[l] == Minor(m.addr, m.size, if k == i && l == j then req else m.req)
  {
    hide Used;
    var b' := WithReq(h, i, j, req).majors[i];
    UsedIgnoresReq(h.majors[i].minors, j, req);
    WithReqKeepsMajor(h.majors[i], j, req);
    TotalUpdate(SizeOf, h.majors, i, b');
    TotalUpdate(PayloadOf, h.majors, i, b');
  }

  lemma WithReqKeepsMajor(b: Major, j: nat, req: nat)
    requires b.Valid() && j < |b.minors|
    ensures b.(minors := b.minors[j := b.minors[j].(req := req)]).Valid()
  {
    hide Used;
    var b' := b.(minors := b.minors[j := b.minors[j].(req := req)]);
    UsedIgnoresReq(b.minors, j, req);
    forall k | 0 <= k <= |b.minors| ensures b'.Lo(k) == b.Lo(k) && b'.Hi(k) == b.Hi(k) {
    }
  }

  // ----- Runs -----

  datatype Op = MallocOp(req: nat, grant: nat) | FreeOp(header: nat)

  ghost predicate HeaderAt(h: Heap, i: nat, j: nat, header: nat) {
    i < |h.majors| && j < |h.majors[i].minors| && h.majors[i].minors[j].addr == header
  }

  /** One call. free of an address that is no live header changes nothing. */
  ghost predicate Step(c: Config, op: Op, h: Heap, h': Heap)
    requires c.Good()
  {
    match op
    case MallocOp(req, grant) =>
      && Answerable(c, req)
      && Grantable(h, Adjusted(c, Effective(c, req)), grant)
      && h' == Malloc(c, h, req, grant).0
    case FreeOp(header) =>
      || (h' == h && !exists i: nat, j: nat :: HeaderAt(h, i, j, header))
      || (exists i: nat, j: nat ::
            && HeaderAt(h, i, j, header)
            && h.majors[i].minors[j].size + MINOR_HEADER <= h.majors[i].usage
            && h' == FreeAt(h, i, j))
  }

  ghost predicate Runs(c: Config, ops: seq<Op>, h: Heap, h': Heap)
    requires c.Good()
  {
    if ops == [] then h' == h
    else exists q :: Step(c, ops[0], h, q) && Runs(c, ops[1..], q, h')
  }

  lemma StepKeepsWellFormed(c: Config, op: Op, h: Heap, h': Heap)
    requires c.Good() && WellFormed(h) && NoneEmpty(h) && Step(c, op, h, h')
    ensures WellFormed(h') && NoneEmpty(h')
  {
    match op
    case MallocOp(req, grant) =>
      var e := Effective(c, req);
      EffectiveIsServiceable(c, req);
      var i, j := MallocKeepsWellFormed(c, h, Adjusted(c, e), e, grant);
      if Malloc(c, h, req, grant).1 != 0 {
        MallocKeepsNoneEmpty(c, h, Adjusted(c, e), e, grant, h', i, j);
      }
    case FreeOp(header) =>
      if exists i: nat, j: nat :: HeaderAt(h, i, j, header) {
        var i: nat, j: nat :| HeaderAt(h, i, j, header)
          && h.majors[i].minors[j].size + MINOR_HEADER <= h.majors[i].usage && h' == FreeAt(h, i, j);
        FreeKeepsWellFormed(h, i, j);
        FreeKeepsNoneEmpty(h, i, j);
      }
  }

  /** Any interleaving of malloc and free keeps the heap well formed: blocks and allocations disjoint,
      the hint a listed block, l_inuse and l_allocated the sums, and no empty block left in the list. */
  lemma {:induction false} RunsKeepWellFormed(c: Config, ops: seq<Op>, h: Heap, h': Heap)
    requires c.Good() && WellFormed(h) && NoneEmpty(h) && Runs(c, ops, h, h')
    ensures WellFormed(h') && NoneEmpty(h')
  {
    if ops != [] {
      var q :| Step(c, ops[0], h, q) && Runs(c, ops[1..], q, h');
      StepKeepsWellFormed(c, ops[0], h, q);
      RunsKeepWellFormed(c, ops[1..], q, h');
    }
  }

  // ----- The shipped configuration -----

  /** One minor in each block, right behind the block's header. */
  ghost predicate OneEach(h: Heap) {
    forall i :: 0 <= i < |h.majors| ==>
      |h.majors[i].minors| == 1 && h.majors[i].minors[0].addr == h.majors[i].addr + MAJOR_HEADER
  }

  ghost predicate OnlyMallocs(ops: seq<Op>) {
    forall k :: 0 <= k < |ops| ==> ops[k].MallocOp?
  }

  /** Without CASE 4 and free, no block is ever used twice: each successful call takes a block of its own
      (so CASE 3 never applies), of at least 16 pages. */
  lemma ShippedStep(c: Config, op: Op, h: Heap, h': Heap)
    requires c.Good() && !c.useCase4 && op.MallocOp?
    requires WellFormed(h) && OneEach(h) && Step(c, op, h, h')
    ensures WellFormed(h') && OneEach(h')
    ensures Asks(c, h, Adjusted(c, Effective(c, op.req)))
    ensures |h'.majors| == |h.majors| + if op.grant != 0 then 1 else 0
    ensures h'.acquired >= h.acquired + if op.grant != 0 then PAGE_COUNT * PAGE_SIZE else 0
  {
    var e := Effective(c, op.req);
    var size := Adjusted(c, e);
    EffectiveIsServiceable(c, op.req);
    BlockHoldsRequest(size);
    var i, j := MallocKeepsWellFormed(c, h, size, e, op.grant);
    assert forall k :: 0 <= k < |h.majors| ==> h.majors[k].Gap(0) == 0;
    if op.grant != 0 {
      forall k | 0 <= k < |h'.majors| ensures |h'.majors[k].minors| == 1
        && h'.majors[k].minors[0].addr == h'.majors[k].addr + MAJOR_HEADER
      {
        if k < |h.majors| {
          assert h'.majors[k] == h.majors[k];
        }
      }
    }
  }

  /** The number of calls a run's page source answered, which is the number of successful ones. */
  function Granted(ops: seq<Op>): nat {
    if ops == [] then 0
    else (if ops[0].MallocOp? && ops[0].grant != 0 then 1 else 0) + Granted(ops[1..])
  }

  lemma {:induction false} ShippedRuns(c: Config, ops: seq<Op>, h: Heap, h': Heap)
    requires c.Good() && !c.useCase4 && OnlyMallocs(ops)
    requires WellFormed(h) && OneEach(h) && Runs(c, ops, h, h')
    ensures WellFormed(h') && OneEach(h')
    ensures |h'.majors| == |h.majors| + Granted(ops)
    ensures h'.acquired >= h.acquired + PAGE_COUNT * PAGE_SIZE * Granted(ops)
  {
    if ops != [] {
      var q :| Step(c, ops[0], h, q) && Runs(c, ops[1..], q, h');
      ShippedStep(c, ops[0], h, q);
      ShippedRuns(c, ops[1..], q, h');
    }
  }
}
