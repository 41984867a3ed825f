/** The liballoc heap (kernel/src/MM/LibAlloc.c) as a value: what each call does to the blocks, and
    what that keeps. LibAlloc.dfy proves the pointer code against these functions. */
module HeapModel {
  import opened Words

  const MAJOR_HEADER: nat := 24
  const MINOR_HEADER: nat := 24
  const ALIGN_INFO: nat := 16
  const PAGE_COUNT: nat := 16

  /** ALIGNMENT and USE_CASE4; the shipped build has 4096 and false. */
  datatype Config = Config(alignment: nat, useCase4: bool) {
    predicate Good() {
      1 <= alignment <= PAGE_SIZE
    }
  }

  const SHIPPED := Config(4096, false)

  // ----- Sizes and alignment -----

  /** The size malloc works with, in a 32-bit variable. */
  function Adjusted(c: Config, req: nat): nat {
    if c.alignment > 1 then Wrap32(req + c.alignment + ALIGN_INFO) else req
  }

  /** The bytes ALIGN skips beyond ALIGN_INFO. For a power of two the source's mask is this remainder. */
  function Padding(c: Config, p: nat): (r: nat)
    requires c.Good()
    ensures r < c.alignment
  {
    var diff := (p + ALIGN_INFO) % c.alignment;
    if diff != 0 then c.alignment - diff else 0
  }

  function AlignUp(c: Config, p: nat): nat
    requires c.Good()
  {
    if c.alignment > 1 then p + ALIGN_INFO + Padding(c, p) else p
  }

  /** The byte ALIGN stores ALIGN_INFO bytes below the pointer: the skipped distance, cut to eight bits. */
  function AlignByte(c: Config, p: nat): nat
    requires c.Good()
  {
    (Padding(c, p) + ALIGN_INFO) % 256
  }

  /** UNALIGN, given the byte it reads. The bound is true of every byte. */
  function Unalign(c: Config, p: int, byte: nat): int {
    if c.alignment > 1 && byte < c.alignment + ALIGN_INFO then p - byte else p
  }

  lemma AlignedPointer(c: Config, p: nat)
    requires c.Good()
    ensures AlignUp(c, p) % c.alignment == 0
    ensures p <= AlignUp(c, p)
    ensures c.alignment > 1 ==> p + ALIGN_INFO <= AlignUp(c, p) < p + ALIGN_INFO + c.alignment
  {
    var a := c.alignment;
    if a > 1 {
      var q := p + ALIGN_INFO;
      assert q == q / a * a + q % a;
      if q % a != 0 {
        assert AlignUp(c, p) == (q / a + 1) * a;
        ModIsUnique(AlignUp(c, p), a, q / a + 1, 0);
      } else {
        ModIsUnique(AlignUp(c, p), a, q / a, 0);
      }
    }
  }

  /** UNALIGN finds the pointer ALIGN started from exactly when the skipped distance fits a byte, and otherwise
      stops 256 bytes behind it for each time the distance overflows the byte. */
  lemma UnalignInvertsAlign(c: Config, p: nat)
    requires c.Good() && c.alignment > 1
    ensures AlignByte(c, p) < 256
    ensures Unalign(c, AlignUp(c, p), AlignByte(c, p)) == p + (AlignUp(c, p) - p) / 256 * 256
    ensures Unalign(c, AlignUp(c, p), AlignByte(c, p)) == p <==> Padding(c, p) + ALIGN_INFO < 256
  {
  }

  /** On a byte that ALIGN did not store UNALIGN moves the pointer by it exactly if ALIGN could have stored it, for
      some pointer, uncut; smaller bytes than ALIGN ever stores are believed too. */
  lemma UnalignBelieves(c: Config, p: nat, byte: nat)
    requires c.Good() && byte < 256
    ensures Unalign(c, p, byte) == if c.alignment > 1 && Believed(c, byte) then p - byte else p
  {
    if c.alignment > 1 && ALIGN_INFO <= byte < c.alignment + ALIGN_INFO {
      var q := (ALIGN_INFO + 2) * c.alignment - byte;
      PaddingTo(c, q, byte - ALIGN_INFO);
      assert AlignUp(c, q) - q == byte;
    }
  }

  ghost predicate Believed(c: Config, byte: nat)
    requires c.Good()
  {
    byte < ALIGN_INFO || exists q: nat :: AlignUp(c, q) - q == byte
  }

  /** The padding in front of a multiple of the alignment. */
  lemma PaddingTo(c: Config, q: nat, d: nat)
    requires c.Good() && c.alignment > 1 && d < c.alignment
    requires q + ALIGN_INFO + d == (ALIGN_INFO + 2) * c.alignment
    ensures Padding(c, q) == d
  {
    if d > 0 {
      ModIsUnique(q + ALIGN_INFO, c.alignment, ALIGN_INFO + 1, c.alignment - d);
    } else {
      ModIsUnique(q + ALIGN_INFO, c.alignment, ALIGN_INFO + 2, 0);
    }
  }

  ghost predicate IsPowerOfTwo(n: nat) {
    n == 1 || (n > 1 && n % 2 == 0 && IsPowerOfTwo(n / 2))
  }

  /** So the byte is wide enough for every pointer exactly up to an alignment of 128. */
  lemma ByteSufficesForAlignment(c: Config)
    requires c.Good() && c.alignment > 1 && IsPowerOfTwo(c.alignment)
    ensures (forall p: nat :: Unalign(c, AlignUp(c, p), AlignByte(c, p)) == p) <==> c.alignment <= 128
  {
    if c.alignment <= 128 {
      forall p: nat ensures Unalign(c, AlignUp(c, p), AlignByte(c, p)) == p {
        UnalignInvertsAlign(c, p);
      }
    } else {
      assert IsPowerOfTwo(128) by {
        assert IsPowerOfTwo(2) && IsPowerOfTwo(8) && IsPowerOfTwo(32);
      }
      PowersDouble(c.alignment, 128);
      var p := c.alignment - ALIGN_INFO + 1;
      assert (c.alignment + 1) % c.alignment == 1 by {
        ModIsUnique(c.alignment + 1, c.alignment, 1, 1);
      }
      assert Padding(c, p) == c.alignment - 1;
      UnalignInvertsAlign(c, p);
    }
  }

  /** The next power of two is twice as large. */
  lemma {:induction false} PowersDouble(n: nat, b: nat)
    requires IsPowerOfTwo(n) && IsPowerOfTwo(b) && n > b
    ensures n >= 2 * b
  {
    if b > 1 {
      PowersDouble(n / 2, b / 2);
    }
  }

  /** In the shipped build UNALIGN finds the first allocation of a block exactly when the block's address stands
      more than 3792 and at most 4032 bytes into its page. */
  lemma ShippedUnalignIff(addr: nat)
    ensures var q := addr + MAJOR_HEADER + MINOR_HEADER;
      Unalign(SHIPPED, AlignUp(SHIPPED, q), AlignByte(SHIPPED, q)) == q
      <==> 3792 < addr % PAGE_SIZE <= 4032
  {
    var q := addr + MAJOR_HEADER + MINOR_HEADER;
    var o := addr % PAGE_SIZE;
    assert (q + ALIGN_INFO) % 4096 == if o < 4032 then o + 64 else o - 4032;
    assert Padding(SHIPPED, q) == if o <= 4032 then 4032 - o else 8128 - o;
    UnalignInvertsAlign(SHIPPED, q);
  }

  /** On a page boundary it misses the start of the payload by 3840. */
  lemma ShippedUnalignMisses(addr: nat)
    requires addr % PAGE_SIZE == 0
    ensures var q := addr + MAJOR_HEADER + MINOR_HEADER;
      Unalign(SHIPPED, AlignUp(SHIPPED, q), AlignByte(SHIPPED, q)) == q + 3840
  {
    var q := addr + MAJOR_HEADER + MINOR_HEADER;
    assert (q + ALIGN_INFO) % 4096 == 64;
    assert Padding(SHIPPED, q) == 4032;
  }

  /** The pages allocate_new_page asks for, in 32-bit arithmetic. */
  function PagesFor(size: nat): nat {
    var st := Wrap32(Wrap32(size + MAJOR_HEADER) + MINOR_HEADER);
    var pages := if st % PAGE_SIZE == 0 then st / PAGE_SIZE else st / PAGE_SIZE + 1;
    if pages < PAGE_COUNT then PAGE_COUNT else pages
  }

  /** Sizes for which none of that arithmetic wraps. */
  predicate Serviceable(size: nat) {
    size + MAJOR_HEADER + MINOR_HEADER <= WORD - PAGE_SIZE
  }

  /** A new block holds the request it was made for exactly for those sizes, and then no smaller one of at least 16
      pages does. */
  lemma BlockHoldsRequest(size: nat)
    requires size < WORD
    ensures Wrap32(PagesFor(size) * PAGE_SIZE) >= size + MAJOR_HEADER + MINOR_HEADER <==> Serviceable(size)
    ensures Serviceable(size) ==> 16 <= PagesFor(size) && PagesFor(size) * PAGE_SIZE < WORD
    ensures Serviceable(size) ==>
      PagesFor(size) == 16 || (PagesFor(size) - 1) * PAGE_SIZE < size + MAJOR_HEADER + MINOR_HEADER
  {
    var s := size + MAJOR_HEADER + MINOR_HEADER;
    if s < WORD {
      assert Wrap32(Wrap32(size + MAJOR_HEADER) + MINOR_HEADER) == s;
      if Serviceable(size) {
      } else {
        assert PagesFor(size) == FRAMES;
        assert Wrap32(FRAMES * PAGE_SIZE) == 0;
      }
    } else {
      assert Wrap32(Wrap32(size + MAJOR_HEADER) + MINOR_HEADER) == s - WORD < 48;
      assert PagesFor(size) == PAGE_COUNT;
    }
  }

  // ----- Blocks -----

  /** A minor: an allocation's header at addr, followed by its size bytes. */
  datatype Minor = Minor(addr: nat, size: nat, req: nat) {
    function End(): nat {
      addr + MINOR_HEADER + size
    }
  }

  /** A major: a run of pages from addr on, with its minors in list order. */
  datatype Major = Major(addr: nat, pages: nat, usage: nat, minors: seq<Minor>) {
    function Size(): nat {
      pages * PAGE_SIZE
    }

    function End(): nat {
      addr + Size()
    }

    function Free(): int {
      Size() - usage
    }

    /** Start and end of the gap before minor j; the last gap ends with the block. */
    function Lo(j: nat): nat
      requires j <= |minors|
    {
      if j == 0 then addr + MAJOR_HEADER else minors[j - 1].End()
    }

    function Hi(j: nat): nat
      requires j <= |minors|
    {
      if j == |minors| then End() else minors[j].addr
    }

    function Gap(j: nat): int
      requires j <= |minors|
    {
      Hi(j) - Lo(j)
    }

    /** The minors lie in order inside the block without overlapping, and usage counts them. */
    ghost predicate Valid() {
      && addr > 0 && End() <= WORD
      && (forall j :: 0 <= j <= |minors| ==> Lo(j) <= Hi(j))
      && usage == MAJOR_HEADER + Used(minors)
    }

    function Insert(j: nat, size: nat, req: nat): Major
      requires j <= |minors|
    {
      this.(usage := usage + size + MINOR_HEADER,
            minors := minors[..j] + [Minor(Lo(j), size, req)] + minors[j..])
    }

    function Remove(j: nat): Major
      requires j < |minors| && minors[j].size + MINOR_HEADER <= usage
    {
      this.(usage := usage - minors[j].size - MINOR_HEADER,
            minors := minors[..j] + minors[j + 1..])
    }
  }

  /** Bytes taken by minors, headers included. */
  function Used(ms: seq<Minor>): nat {
    if ms == [] then 0 else Used(ms[..|ms| - 1]) + ms[|ms| - 1].size + MINOR_HEADER
  }

  lemma {:induction false} UsedConcat(a: seq<Minor>, b: seq<Minor>)
    ensures Used(a + b) == Used(a) + Used(b)
    decreases |b|
  {
    if b == [] {
      assert a + b == a;
    } else {
      assert (a + b)[..|a + b| - 1] == a + b[..|b| - 1];
      UsedConcat(a, b[..|b| - 1]);
    }
  }

  lemma UsedOne(m: Minor)
    ensures Used([m]) == m.size + MINOR_HEADER
  {
    assert [m][..0] == [];
  }

  lemma UsedInsert(ms: seq<Minor>, j: nat, m: Minor)
    requires j <= |ms|
    ensures Used(ms[..j] + [m] + ms[j..]) == Used(ms) + m.size + MINOR_HEADER
  {
    UsedConcat(ms[..j] + [m], ms[j..]);
    UsedConcat(ms[..j], [m]);
    UsedOne(m);
    UsedConcat(ms[..j], ms[j..]);
    assert ms[..j] + ms[j..] == ms;
  }

  lemma UsedRemove(ms: seq<Minor>, j: nat)
    requires j < |ms|
    ensures Used(ms) == Used(ms[..j] + ms[j + 1..]) + ms[j].size + MINOR_HEADER
  {
    hide Used;
    UsedConcat(ms[..j], ms[j + 1..]);
    UsedConcat(ms[..j] + [ms[j]], ms[j + 1..]);
    UsedConcat(ms[..j], [ms[j]]);
    UsedOne(ms[j]);
    assert ms[..j] + [ms[j]] + ms[j + 1..] == ms;
  }

  /** The minors before gap j fill at most the space before it. */
  lemma {:induction false} UsedBelow(b: Major, j: nat)
    requires b.Valid() && j <= |b.minors|
    ensures b.addr + MAJOR_HEADER + Used(b.minors[..j]) <= b.Lo(j)
  {
    if j > 0 {
      UsedBelow(b, j - 1);
      assert b.minors[..j][..j - 1] == b.minors[..j - 1];
      assert b.Lo(j - 1) <= b.Hi(j - 1);
    }
  }

  lemma {:induction false} UsedAbove(b: Major, j: nat)
    requires b.Valid() && j <= |b.minors|
    ensures b.Hi(j) + Used(b.minors[j..]) <= b.End()
    decreases |b.minors| - j
  {
    if j < |b.minors| {
      UsedAbove(b, j + 1);
      assert b.minors[j..] == [b.minors[j]] + b.minors[j + 1..];
      UsedConcat([b.minors[j]], b.minors[j + 1..]);
      UsedOne(b.minors[j]);
      assert b.Lo(j + 1) <= b.Hi(j + 1);
    }
  }

  /** No gap is larger than the free byte count, so the count never rejects a block wrongly (CASE 1),
      and the count never exceeds the block. */
  lemma GapWithinFree(b: Major, j: nat)
    requires b.Valid() && j <= |b.minors|
    ensures 0 <= b.Gap(j) <= b.Free()
  {
    UsedBelow(b, j);
    UsedAbove(b, j);
    UsedConcat(b.minors[..j], b.minors[j..]);
    assert b.minors[..j] + b.minors[j..] == b.minors;
  }

  lemma {:induction false} MinorsInOrder(b: Major, i: nat, j: nat)
    requires b.Valid() && i < j < |b.minors|
    ensures b.minors[i].End() <= b.minors[j].addr
    decreases j
  {
    assert b.Lo(j) <= b.Hi(j);
    if i < j - 1 {
      MinorsInOrder(b, i, j - 1);
    }
  }

  lemma MinorInside(b: Major, j: nat)
    requires b.Valid() && j < |b.minors|
    ensures b.addr + MAJOR_HEADER <= b.minors[j].addr && b.minors[j].End() <= b.End()
  {
    UsedBelow(b, j);
    UsedAbove(b, j + 1);
    assert b.Lo(j) <= b.Hi(j) && b.Lo(j + 1) <= b.Hi(j + 1);
  }

  lemma InsertKeepsMajor(b: Major, j: nat, size: nat, req: nat)
    requires b.Valid() && j <= |b.minors| && b.Gap(j) >= size + MINOR_HEADER
    ensures b.Insert(j, size, req).Valid()
  {
    var b' := b.Insert(j, size, req);
    UsedInsert(b.minors, j, Minor(b.Lo(j), size, req));
    forall k | 0 <= k <= |b'.minors| ensures b'.Lo(k) <= b'.Hi(k) {
      if k < j {
        assert b'.Lo(k) == b.Lo(k) && b'.Hi(k) == b.Hi(k);
      } else if k > j + 1 {
        assert b'.Lo(k) == b.Lo(k - 1) && b'.Hi(k) == b.Hi(k - 1);
      } else if k == j {
        assert b'.Lo(k) == b.Lo(j) == b'.Hi(k);
      } else {
        assert b'.Hi(k) == b.Hi(j);
      }
    }
  }

  lemma RemoveKeepsMajor(b: Major, j: nat)
    requires b.Valid() && j < |b.minors|
    ensures b.minors[j].size + MINOR_HEADER <= b.usage
    ensures b.Remove(j).Valid()
  {
    UsedRemove(b.minors, j);
    var b' := b.Remove(j);
    forall k | 0 <= k <= |b'.minors| ensures b'.Lo(k) <= b'.Hi(k) {
      if k < j {
        assert b'.Lo(k) == b.Lo(k) && b'.Hi(k) == b.Hi(k);
      } else if k > j {
        assert b'.Lo(k) == b.Lo(k + 1) && b'.Hi(k) == b.Hi(k + 1);
      } else {
        assert b'.Lo(k) == b.Lo(j) <= b.Hi(j);
        assert b'.Hi(k) == b.Hi(j + 1) >= b.Lo(j + 1);
      }
    }
  }

  /** Where malloc puts size bytes in a block: the first gap that holds them, of which the shipped
      build looks only at the one in front (CASE 2 and CASE 3; CASE 4 looks at the rest). */
  function FirstSlot(c: Config, b: Major, size: nat): (r: Option<nat>)
    ensures r.Some? ==> IsFirstSlot(c, b, size, r.value)
    ensures r.None? ==> NoSlot(c, b, size)
  {
    if b.Gap(0) >= size + MINOR_HEADER then Some(0)
    else if c.useCase4 then SlotFrom(b, size, 1)
    else None
  }

  ghost predicate IsFirstSlot(c: Config, b: Major, size: nat, j: nat) {
    && j <= |b.minors| && (j > 0 ==> c.useCase4)
    && b.Gap(j) >= size + MINOR_HEADER
    && forall k :: 0 <= k < j ==> b.Gap(k) < size + MINOR_HEADER
  }

  ghost predicate NoSlot(c: Config, b: Major, size: nat) {
    && b.Gap(0) < size + MINOR_HEADER
    && (c.useCase4 ==> forall k :: 0 <= k <= |b.minors| ==> b.Gap(k) < size + MINOR_HEADER)
  }

  function SlotFrom(b: Major, size: nat, j: nat): (r: Option<nat>)
    ensures r.Some? ==> j <= r.value <= |b.minors| && b.Gap(r.value) >= size + MINOR_HEADER
    ensures r.Some? ==> forall k :: j <= k < r.value ==> b.Gap(k) < size + MINOR_HEADER
    ensures r.None? ==> forall k :: j <= k <= |b.minors| ==> b.Gap(k) < size + MINOR_HEADER
    decreases |b.minors| + 1 - j
  {
    if j > |b.minors| then None
    else if b.Gap(j) >= size + MINOR_HEADER then Some(j)
    else SlotFrom(b, size, j + 1)
  }

  lemma SlotStep(b: Major, size: nat, j: nat)
    requires j <= |b.minors|
    ensures SlotFrom(b, size, j) ==
      if b.Hi(j) - b.Lo(j) >= size + MINOR_HEADER then Some(j) else SlotFrom(b, size, j + 1)
  {
  }

  lemma SlotEnd(b: Major, size: nat)
    ensures SlotFrom(b, size, |b.minors| + 1) == None
  {
  }
}
