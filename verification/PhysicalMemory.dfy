/** The physical frame allocator (kernel/src/MM/PhysicalMemory.c): a map of two bits per frame,
    packed four frames to a byte, and a search hint.

    Two details of the source are parameters, so that the code as written and the evidently
    intended code are instances of one model: whether the setter's mask is complemented, and how
    many bytes of physical address make up one map index in MmPmFree (1024 as written, since the
    address is shifted by 10; 4096 as intended). */
module PhysicalMemory {
  import opened Words

  const MM_BITMAP_SIZE: nat := 1048576

  const PAGE_FREE: bv8 := 0
  const PAGE_USED: bv8 := 1
  const PAGE_UNUSABLE: bv8 := 2

  datatype Mask = AsWritten | Complemented

  // ----- The packed map -----

  function ShiftUp(v: bv8, k: nat): bv8
    requires k < 4
  {
    if k == 0 then v else if k == 1 then v << 2 else if k == 2 then v << 4 else v << 6
  }

  function ShiftDown(v: bv8, k: nat): bv8
    requires k < 4
  {
    if k == 0 then v else if k == 1 then v >> 2 else if k == 2 then v >> 4 else v >> 6
  }

  /** The byte after the setter ran on its slot k. */
  function SetSlot(mask: Mask, b: bv8, k: nat, v: bv8): bv8
    requires k < 4
  {
    var kept := MaskSlot(mask, b, k);
    if v > 0 then RaiseSlot(kept, k, v) else kept
  }

  function MaskSlot(mask: Mask, b: bv8, k: nat): bv8
    requires k < 4
  {
    if mask.AsWritten? then b & ShiftUp(3, k) else b & !ShiftUp(3, k)
  }

  function RaiseSlot(b: bv8, k: nat, v: bv8): bv8
    requires k < 4
  {
    b | ShiftUp(v, k)
  }

  function GetSlot(b: bv8, k: nat): bv8
    requires k < 4
  {
    ShiftDown(b, k) & 3
  }

  function Get(bits: seq<bv8>, i: nat): bv8
    requires i < 4 * |bits|
  {
    GetSlot(bits[i / 4], i % 4)
  }

  function Set(mask: Mask, bits: seq<bv8>, i: nat, v: bv8): (r: seq<bv8>)
    requires i < 4 * |bits|
    ensures |r| == |bits|
  {
    bits[i / 4 := SetSlot(mask, bits[i / 4], i % 4, v)]
  }

  lemma SlotAfterSet(mask: Mask, b: bv8, k: nat, v: bv8, j: nat)
    requires k < 4 && j < 4 && v <= 3
    ensures GetSlot(SetSlot(mask, b, k, v), j) ==
      if j == k then (if mask.AsWritten? then GetSlot(b, k) | v else v)
      else if mask.AsWritten? then 0 else GetSlot(b, j)
  {
    if k == 0 {
    } else if k == 1 {
    } else if k == 2 {
    } else {
      assert k == 3;
    }
  }

  /** As written, setting a slot ors the value in, clears the other three slots of its byte and
      leaves every other byte alone; with the complemented mask the map is an array. */
  lemma GetAfterSet(mask: Mask, bits: seq<bv8>, i: nat, v: bv8, j: nat)
    requires i < 4 * |bits| && j < 4 * |bits| && v <= 3
    ensures Get(Set(mask, bits, i, v), j) ==
      if j == i then (if mask.AsWritten? then Get(bits, i) | v else v)
      else if mask.AsWritten? && j / 4 == i / 4 then PAGE_FREE
      else Get(bits, j)
  {
    if j / 4 == i / 4 {
      SlotAfterSet(mask, bits[i / 4], i % 4, v, j % 4);
    }
  }

  lemma SlotRestored(b: bv8, k: nat)
    requires k < 4 && GetSlot(b, k) == PAGE_FREE
    ensures SetSlot(Complemented, SetSlot(Complemented, b, k, PAGE_USED), k, PAGE_FREE) == b
  {
    if k == 0 {
    } else if k == 1 {
    } else if k == 2 {
    } else {
      assert k == 3;
    }
  }

  // ----- Allocation and release -----

  datatype Frames = Frames(bits: seq<bv8>, top: nat) {
    /** Some frame at or above the hint reads as free. */
    ghost predicate HasFree() {
      exists i :: IsFree(i) && top <= i
    }

    ghost predicate IsFree(i: nat) {
      i < 4 * |bits| && Get(bits, i) == PAGE_FREE
    }

    /** The hint's evident purpose: nothing below it is free. */
    ghost predicate HintHolds() {
      forall i :: IsFree(i) ==> top <= i
    }
  }

  /** The least free index at or above `from`. */
  function FirstFree(bits: seq<bv8>, from: nat): (r: Option<nat>)
    ensures r.Some? ==> from <= r.value < 4 * |bits| && Get(bits, r.value) == PAGE_FREE
    ensures r.Some? ==> forall j :: from <= j < r.value ==> Get(bits, j) != PAGE_FREE
    ensures r.None? ==> forall j :: from <= j < 4 * |bits| ==> Get(bits, j) != PAGE_FREE
    decreases 4 * |bits| - from
  {
    if from >= 4 * |bits| then None
    else if Get(bits, from) == PAGE_FREE then Some(from)
    else FirstFree(bits, from + 1)
  }

  /** None is the kernel panic. */
  function Allocate(mask: Mask, p: Frames): (r: Option<(nat, Frames)>)
    ensures r.Some? <==> p.HasFree()
    ensures r.Some? ==> p.top <= r.value.0 < 4 * |p.bits|
    ensures r.Some? ==> r.value.1.top == r.value.0 + 1 && |r.value.1.bits| == |p.bits|
  {
    match FirstFree(p.bits, p.top)
    case None => None
    case Some(i) =>
      assert p.IsFree(i);
      Some((i, Frames(Set(mask, p.bits, i, PAGE_USED), i + 1)))
  }

  /** None is the kernel panic on a page that does not read as used. */
  function Free(mask: Mask, unit: nat, p: Frames, phys: nat): (r: Option<Frames>)
    requires unit > 0 && phys / unit < 4 * |p.bits|
    ensures r.Some? <==> Get(p.bits, phys / unit) == PAGE_USED
    ensures r.Some? ==> |r.value.bits| == |p.bits|
  {
    var i := phys / unit;
    if Get(p.bits, i) != PAGE_USED then None
    else Some(Frames(Set(mask, p.bits, i, PAGE_FREE), if p.top > i then i else p.top))
  }

  /** As written, the frame after an allocated one is handed out next, whatever the map said about it,
      until the byte is used up: the setter has cleared its mark. */
  lemma WrittenSetterLosesMarks(p: Frames)
    requires p.HasFree()
    ensures var (i, q) := Allocate(AsWritten, p).value;
      (i + 1) % 4 != 0 ==>
        && Allocate(AsWritten, q).Some?
        && Allocate(AsWritten, q).value.0 == i + 1
  {
    var (i, q) := Allocate(AsWritten, p).value;
    if (i + 1) % 4 != 0 {
      assert i + 1 < 4 * |p.bits| && (i + 1) / 4 == i / 4;
      GetAfterSet(AsWritten, p.bits, i, PAGE_USED, i + 1);
      assert q.IsFree(i + 1);
    }
  }

  /** With the intended mask a second allocation never returns a frame that was not free at the start;
      as written it does so exactly when the neighbour in the same byte was marked. */
  lemma {:induction false} SecondFrameWasFree(mask: Mask, p: Frames)
    requires p.HasFree() && Allocate(mask, p).value.1.HasFree()
    ensures var (i, q) := Allocate(mask, p).value;
      p.IsFree(Allocate(mask, q).value.0) <==>
        (mask.Complemented? || (i + 1) % 4 == 0 || p.IsFree(i + 1))
  {
    var (i, q) := Allocate(mask, p).value;
    var k := Allocate(mask, q).value.0;
    GetAfterSet(mask, p.bits, i, PAGE_USED, k);
    if mask.AsWritten? && (i + 1) % 4 != 0 {
      WrittenSetterLosesMarks(p);
    }
  }

  /** From p to q frame f was taken: the first from the hint on that reads as free. It then reads as used, and as
      written the others of its byte as free. */
  ghost predicate FrameTaken(mask: Mask, p: Frames, q: Frames, f: nat) {
    && p.top <= f && p.IsFree(f) && (forall k :: p.top <= k < f ==> !p.IsFree(k))
    && q.top == f + 1 && |q.bits| == |p.bits|
    && forall j :: 0 <= j < 4 * |p.bits| ==>
         Get(q.bits, j) ==
           if j == f then PAGE_USED else if mask.AsWritten? && j / 4 == f / 4 then PAGE_FREE else Get(p.bits, j)
  }

  lemma AllocateMarks(mask: Mask, p: Frames)
    requires p.HasFree()
    ensures FrameTaken(mask, p, Allocate(mask, p).value.1, Allocate(mask, p).value.0)
  {
    var (i, q) := Allocate(mask, p).value;
    forall j | 0 <= j < 4 * |p.bits|
      ensures Get(q.bits, j) ==
        if j == i then PAGE_USED else if mask.AsWritten? && j / 4 == i / 4 then PAGE_FREE else Get(p.bits, j)
    {
      GetAfterSet(mask, p.bits, i, PAGE_USED, j);
    }
  }

  lemma AllocateTakesOne(p: Frames, j: nat)
    requires p.HasFree()
    ensures var (i, q) := Allocate(Complemented, p).value;
      q.IsFree(j) <==> p.IsFree(j) && j != i
  {
    if j < 4 * |p.bits| {
      AllocateMarks(Complemented, p);
    }
  }

  /** With the intended mask and the hint in order, allocation returns the least free frame, takes
      exactly that one, and keeps the hint in order. */
  lemma AllocateReturnsLeast(p: Frames)
    requires p.HintHolds() && p.HasFree()
    ensures var (i, q) := Allocate(Complemented, p).value;
      && p.IsFree(i) && (forall j :: p.IsFree(j) ==> i <= j)
      && q.HintHolds()
      && (forall j :: q.IsFree(j) <==> p.IsFree(j) && j != i)
  {
    var (i, q) := Allocate(Complemented, p).value;
    forall j: nat ensures q.IsFree(j) <==> p.IsFree(j) && j != i {
      AllocateTakesOne(p, j);
    }
  }

  /** Releasing an address of frame i, with the intended mask and shift, frees exactly that frame and
      keeps the hint in order. */
  lemma FreeKeepsHint(p: Frames, phys: nat)
    requires p.HintHolds() && phys / PAGE_SIZE < 4 * |p.bits|
    requires Free(Complemented, PAGE_SIZE, p, phys).Some?
    ensures var q := Free(Complemented, PAGE_SIZE, p, phys).value;
      && q.HintHolds()
      && (forall j :: q.IsFree(j) <==> p.IsFree(j) || j == phys / PAGE_SIZE)
  {
    var q := Free(Complemented, PAGE_SIZE, p, phys).value;
    var i := phys / PAGE_SIZE;
    forall j: nat ensures q.IsFree(j) <==> p.IsFree(j) || j == i {
      if j < 4 * |p.bits| {
        GetAfterSet(Complemented, p.bits, i, PAGE_FREE, j);
      }
    }
    forall j: nat | q.IsFree(j) ensures q.top <= j {
      assert p.IsFree(j) || j == i;
    }
  }

  /** Whether releasing a just-allocated frame's address reaches that frame's slot: always with the
      intended shift, and only for frame 0 with the shift as written. */
  lemma FreeReachesFrame(i: nat, written: bool)
    ensures i * PAGE_SIZE / (if written then 1024 else PAGE_SIZE) == i <==> !written || i == 0
  {
    assert i * PAGE_SIZE / 1024 == 4 * i;
  }

  /** Release undoes allocation: the map is bit for bit what it was, and the same frame is the next
      one handed out. */
  lemma FreeUndoesAllocate(p: Frames)
    requires p.HasFree()
    ensures var (i, q) := Allocate(Complemented, p).value;
      && Free(Complemented, PAGE_SIZE, q, i * PAGE_SIZE) == Some(Frames(p.bits, i))
      && Allocate(Complemented, Frames(p.bits, i)) == Some((i, q))
  {
    var (i, q) := Allocate(Complemented, p).value;
    GetAfterSet(Complemented, p.bits, i, PAGE_USED, i);
    SlotRestored(p.bits[i / 4], i % 4);
    assert Set(Complemented, q.bits, i, PAGE_FREE) == p.bits;
  }

  // ----- Runs -----

  datatype Op = Alloc | Release(phys: nat)

  /** Operations the kernel panics on end the run. */
  ghost predicate Runs(mask: Mask, unit: nat, p: Frames, ops: seq<Op>, q: Frames)
    requires unit > 0
    decreases |ops|
  {
    if ops == [] then q == p
    else match ops[0]
      case Alloc =>
        && Allocate(mask, p).Some?
        && Runs(mask, unit, Allocate(mask, p).value.1, ops[1..], q)
      case Release(phys) =>
        && phys / unit < 4 * |p.bits|
        && Free(mask, unit, p, phys).Some?
        && Runs(mask, unit, Free(mask, unit, p, phys).value, ops[1..], q)
  }

  /** The hint stays in order over every run of the intended code, so every allocation of the run
      returns the least free frame (AllocateReturnsLeast). */
  lemma {:induction false} HintSurvivesRuns(p: Frames, ops: seq<Op>, q: Frames)
    requires p.HintHolds() && Runs(Complemented, PAGE_SIZE, p, ops, q)
    ensures q.HintHolds()
    decreases |ops|
  {
    if ops != [] {
      match ops[0]
      case Alloc =>
        AllocateReturnsLeast(p);
        HintSurvivesRuns(Allocate(Complemented, p).value.1, ops[1..], q);
      case Release(phys) =>
        FreeKeepsHint(p, phys);
        HintSurvivesRuns(Free(Complemented, PAGE_SIZE, p, phys).value, ops[1..], q);
    }
  }

  /** As written an allocation keeps the hint in order exactly when the first free frame from the hint on is the
      first of its byte: taking any other clears the marks of its neighbours below. */
  lemma WrittenHintKeptIff(p: Frames)
    requires p.HintHolds() && p.HasFree()
    ensures FirstFree(p.bits, p.top).Some?
    ensures Allocate(AsWritten, p).value.1.HintHolds() <==> FirstFree(p.bits, p.top).value % 4 == 0
  {
    var (i, q) := Allocate(AsWritten, p).value;
    if i % 4 != 0 {
      GetAfterSet(AsWritten, p.bits, i, PAGE_USED, i - 1);
      assert q.IsFree(i - 1);
    } else {
      forall j: nat | q.IsFree(j) ensures q.top <= j {
        GetAfterSet(AsWritten, p.bits, i, PAGE_USED, j);
        assert j < i ==> p.IsFree(j);
      }
    }
  }

  /** A whole map in order, with every frame below 4 n used and every other free: as written its first
      allocation keeps the hint and its second breaks it, with the first frame in use and marked free. */
  lemma WrittenHintBreaks(bits: seq<bv8>, n: nat)
    requires |bits| == MM_BITMAP_SIZE / 4 && n < |bits|
    requires forall i :: 0 <= i < MM_BITMAP_SIZE ==> Get(bits, i) == if i < 4 * n then PAGE_USED else PAGE_FREE
    ensures var p := Frames(bits, 4 * n);
      && p.HintHolds() && p.HasFree()
      && var (i, q) := Allocate(AsWritten, p).value;
         && i == 4 * n && q.HintHolds() && q.HasFree()
         && var (j, r) := Allocate(AsWritten, q).value;
            j == i + 1 && !r.HintHolds() && r.IsFree(i)
  {
    var p := Frames(bits, 4 * n);
    assert p.IsFree(4 * n);
    WrittenHintKeptIff(p);
    var (i, q) := Allocate(AsWritten, p).value;
    WrittenSetterLosesMarks(p);
    WrittenHintKeptIff(q);
    GetAfterSet(AsWritten, q.bits, i + 1, PAGE_USED, i);
  }

  /** The map and the hint after a release: with the complemented mask exactly the slot is free; with the mask as
      written it stays used, and the three others of its byte are cleared instead. */
  lemma ReleaseFreesSlot(mask: Mask, unit: nat, p: Frames, phys: nat, j: nat)
    requires unit > 0 && phys / unit < 4 * |p.bits| && Free(mask, unit, p, phys).Some? && j < 4 * |p.bits|
    ensures var (i, q) := (phys / unit, Free(mask, unit, p, phys).value);
      && (q.IsFree(i) <==> mask.Complemented?)
      && (q.top <= i && q.top <= p.top && (q.top == i || q.top == p.top))
      && Get(q.bits, j) ==
           if j == i then (if mask.AsWritten? then PAGE_USED else PAGE_FREE)
           else if mask.AsWritten? && j / 4 == i / 4 then PAGE_FREE
           else Get(p.bits, j)
  {
    var i := phys / unit;
    GetAfterSet(mask, p.bits, i, PAGE_FREE, i);
    GetAfterSet(mask, p.bits, i, PAGE_FREE, j);
  }

  // ----- The initial map -----

  /** The map MmPmInitAllocator leaves for a kernel image of n pages: the fills count bytes where slots are
      meant, so only the first slot of each byte is marked. */
  ghost predicate IsInitialMap(bits: seq<bv8>, n: nat) {
    && |bits| == MM_BITMAP_SIZE / 4 && 64 + n <= MM_BITMAP_SIZE / 4
    && forall i :: 0 <= i < MM_BITMAP_SIZE ==>
         Get(bits, i) ==
           if i % 4 != 0 || i / 4 >= 64 + n then PAGE_FREE
           else if i / 4 < 64 then PAGE_UNUSABLE
           else PAGE_USED
  }

  /** What the initial map protects: of the first 256 frames and of the kernel image at frame 256 on,
      only each fourth one. Every frame of an image of n pages is marked used exactly when n is at most 1. */
  lemma InitProtectsImage(bits: seq<bv8>, n: nat)
    requires IsInitialMap(bits, n)
    ensures (forall i :: 256 <= i < 256 + n ==> Get(bits, i) == PAGE_USED) <==> n <= 1
  {
    if n > 1 {
      assert Get(bits, 257) == PAGE_FREE;
    } else if n == 1 {
      assert Get(bits, 256) == PAGE_USED;
    }
  }

  /** The initial hint is never in order: frame 1 reads as free below it, whatever the image's size. */
  lemma InitialHintFails(bits: seq<bv8>, n: nat)
    requires IsInitialMap(bits, n)
    ensures !Frames(bits, 64 + n).HintHolds()
  {
    assert Get(bits, 1) == PAGE_FREE;
    assert Frames(bits, 64 + n).IsFree(1);
  }

  /** Allocating over and over comes to frame j. */
  ghost predicate HandsOut(mask: Mask, p: Frames, j: nat)
    decreases 4 * |p.bits| - p.top
  {
    p.HasFree() && (var (i, q) := Allocate(mask, p).value; i == j || HandsOut(mask, q, j))
  }

  /** A frame that reads as free at or above the hint is handed out some time. */
  lemma {:induction false} FreeIsHandedOut(mask: Mask, p: Frames, j: nat)
    requires p.IsFree(j) && p.top <= j
    ensures HandsOut(mask, p, j)
    decreases j - p.top
  {
    assert p.HasFree();
    var (i, q) := Allocate(mask, p).value;
    if i != j {
      GetAfterSet(mask, p.bits, i, PAGE_USED, j);
      assert i < j;
      FreeIsHandedOut(mask, q, j);
    }
  }

  /** The first frame of a byte is not handed out while it is marked: no allocation below it is in its byte. */
  lemma {:induction false} MarkedIsKept(mask: Mask, p: Frames, j: nat)
    requires j % 4 == 0 && j < 4 * |p.bits| && (Get(p.bits, j) != PAGE_FREE || p.top > j)
    ensures !HandsOut(mask, p, j)
    decreases 4 * |p.bits| - p.top
  {
    if p.HasFree() {
      var (i, q) := Allocate(mask, p).value;
      GetAfterSet(mask, p.bits, i, PAGE_USED, j);
      MarkedIsKept(mask, q, j);
    }
  }

  /** Frame j holds a page of the kernel image, which is loaded at 1 MiB. */
  predicate InImage(n: nat, j: nat) {
    256 <= j < 256 + n
  }

  /** From the initial state the allocator hands out frames of the kernel image itself exactly when the image
      has more than one page. */
  lemma ImageIsHandedOut(bits: seq<bv8>, n: nat)
    requires IsInitialMap(bits, n)
    ensures (exists j: nat :: InImage(n, j) && HandsOut(AsWritten, Frames(bits, 64 + n), j)) <==> n >= 2
  {
    var p := Frames(bits, 64 + n);
    if n >= 2 {
      var j: nat := if 64 + n <= 257 then 257 else if n % 4 == 0 then 65 + n else 64 + n;
      assert p.IsFree(j);
      FreeIsHandedOut(AsWritten, p, j);
      assert InImage(n, j);
    } else if n == 1 {
      assert Get(bits, 256) == PAGE_USED;
      MarkedIsKept(AsWritten, p, 256);
    }
  }

  // ----- The allocator object -----

  class FrameAllocator {
    const mask: Mask
    const unit: nat
    const bitmap: array<bv8>
    var top: nat

    /** The state the functions above speak about. */
    function State(): Frames
      reads this, bitmap
    {
      Frames(bitmap[..], top)
    }

    ghost predicate Valid()
      reads this
    {
      bitmap.Length == MM_BITMAP_SIZE / 4 && unit > 0
    }

    /** MmPmInitAllocator. The byte fills take slot counts for byte counts, as in the source. */
    constructor (mask: Mask, unit: nat, kernelSizePages: nat)
      requires unit > 0 && 64 + kernelSizePages <= MM_BITMAP_SIZE / 4
      ensures Valid() && fresh(bitmap) && this.mask == mask && this.unit == unit
      ensures top == 64 + kernelSizePages && IsInitialMap(bitmap[..], kernelSizePages)
    {
      this.mask := mask;
      this.unit := unit;
      bitmap := new bv8[MM_BITMAP_SIZE / 4];
      top := 64 + kernelSizePages;
      new;
      Fill(bitmap, 0, MM_BITMAP_SIZE / 4, PAGE_FREE);
      Fill(bitmap, 0, 64, PAGE_UNUSABLE);
      Fill(bitmap, 64, kernelSizePages, PAGE_USED);
      forall i | 0 <= i < MM_BITMAP_SIZE
        ensures Get(bitmap[..], i) ==
          if i % 4 != 0 || i / 4 >= 64 + kernelSizePages then PAGE_FREE
          else if i / 4 < 64 then PAGE_UNUSABLE
          else PAGE_USED
      {
        assert bitmap[i / 4] ==
          if i / 4 < 64 then PAGE_UNUSABLE
          else if i / 4 < 64 + kernelSizePages then PAGE_USED
          else PAGE_FREE;
      }
    }

    /** memset on a part of the map. */
    static method Fill(a: array<bv8>, from: nat, count: nat, v: bv8)
      requires from + count <= a.Length
      modifies a
      ensures forall k :: 0 <= k < a.Length ==> a[k] == if from <= k < from + count then v else old(a[k])
    {
      for i := 0 to count
        invariant forall k :: 0 <= k < a.Length ==> a[k] == if from <= k < from + i then v else old(a[k])
      {
        a[from + i] := v;
      }
    }

    /** MmPmAllocate; the result is a frame number (the source returns it shifted to an address). */
    method MmPmAllocate() returns (r: Option<nat>)
      requires Valid()
      modifies this`top, bitmap
      ensures r.Some? <==> Allocate(mask, old(State())).Some?
      ensures r.Some? ==> (r.value, State()) == Allocate(mask, old(State())).value
      ensures r.Some? ==> FrameTaken(mask, old(State()), State(), r.value)
      ensures r.None? ==> State() == old(State())
    {
      hide FrameTaken, Allocate;
      var i := top;
      var foundPage := false;
      while i < MM_BITMAP_SIZE
        invariant top <= i && bitmap[..] == old(bitmap[..]) && top == old(top)
        invariant FirstFree(bitmap[..], top) == FirstFree(bitmap[..], i)
        invariant !foundPage
        decreases MM_BITMAP_SIZE - i
      {
        var b := bitmap[i / 4];
        if GetSlot(b, i % 4) == PAGE_FREE {
          foundPage := true;
          break;
        }
        i := i + 1;
      }
      if !foundPage {
        return None;
      }
      Take(i);
      return Some(i);
    }

    /** The hint and the mark for the frame the search found. */
    method Take(i: nat)
      requires Valid() && FirstFree(bitmap[..], top) == Some(i)
      modifies this`top, bitmap
      ensures Allocate(mask, old(State())) == Some((i, State()))
      ensures FrameTaken(mask, old(State()), State(), i)
    {
      hide FrameTaken;
      assert State().IsFree(i);
      AllocateMarks(mask, State());
      top := i + 1;
      SetBitmapValue(i, PAGE_USED);
    }

    /** MmPmFree. As written an address can index past the map, where C's behaviour is undefined. */
    method MmPmFree(phys: nat) returns (ok: bool)
      requires Valid() && phys / unit < MM_BITMAP_SIZE
      modifies this`top, bitmap
      ensures ok <==> Free(mask, unit, old(State()), phys).Some?
      ensures ok ==> State() == Free(mask, unit, old(State()), phys).value
      ensures !ok ==> State() == old(State())
    {
      var pageIndex := phys / unit;
      var b := bitmap[pageIndex / 4];
      if GetSlot(b, pageIndex % 4) != PAGE_USED {
        return false;
      }
      SetBitmapValue(pageIndex, PAGE_FREE);
      if top > pageIndex {
        top := pageIndex;
      }
      return true;
    }

    /** MmPmSetBitmapValue. */
    method SetBitmapValue(index: nat, value: bv8)
      requires Valid() && index < MM_BITMAP_SIZE
      modifies bitmap
      ensures bitmap[..] == Set(mask, old(bitmap[..]), index, value)
    {
      UpdateByte(index / 4, index % 4, value);
    }

    method UpdateByte(byte: nat, slot: nat, value: bv8)
      requires byte < bitmap.Length && slot < 4
      modifies bitmap
      ensures bitmap[..] == old(bitmap[..])[byte := SetSlot(mask, old(bitmap[byte]), slot, value)]
    {
      var kept := MaskSlot(mask, bitmap[byte], slot);
      bitmap[byte] := kept;
      if value > 0 {
        var raised := RaiseSlot(kept, slot, value);
        bitmap[byte] := raised;
      }
    }
  }
}
