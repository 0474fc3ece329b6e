/**
 From raw regions to frames in use: what mm::init sets up and what every later
 sequence of allocations and frees keeps (src/mm/mod.rs, src/mm/region.rs,
 src/mm/bootalloc.rs, src/mm/frame.rs).
*/
module MemorySafety {
  import opened Machine
  import opened Wrappers
  import opened Layout
  import opened RegionModel
  import opened MemoryMaps
  import opened BootAlloc
  import opened FrameModel
  import opened Frames
  import opened Boot

  /** The pages the frame allocator starts with. */
  ghost predicate StartsWith(m: seq<Region>, lo: u64, hi: u64, count: nat, free: set<nat>) {
    free == set i | 0 <= i < count && UsablePage(m, i) && !TouchesPage(lo, hi, i)
  }

  /** Every byte of frame i is usable RAM by the raw regions and outside what the boot allocator handed out. */
  ghost predicate SafeFrame(raw: seq<Region>, lo: u64, hi: u64, i: nat) {
    forall a: nat :: i * PAGE_SIZE <= a < (i + 1) * PAGE_SIZE ==>
      KindAt(raw, a) == Some(UsableRam) && !(lo <= a < hi)
  }

  /** The bitmap, at its address, lies wholly in usable RAM of the map. */
  ghost predicate BitmapInUsable(m: seq<Region>, paddr: u64, bytes: nat) {
    forall a: nat :: paddr <= a < paddr + bytes ==> InUsable(m, a)
  }

  /** What starting the frame allocator on map m achieves, with the bitmap at the aligned address start. */
  ghost predicate Started(m: seq<Region>, start: u64, f: FrameAllocator, lo: u64, hi: u64)
    reads f, f.bitmap
  {
    && f.Valid() && f.frameCount == HighestEnd(m) / PAGE_SIZE && StartsWith(m, lo, hi, f.frameCount, f.FreeFrames())
    && (forall i: nat :: UsablePage(m, i) ==> i < f.frameCount)
    && lo == start && hi == lo + BitmapBytes(m) == lo + 8 * f.bitmap.Length <= TWO64 - PAGE_SIZE
    && (BitmapInUsable(m, lo, BitmapBytes(m)) <==> InUsable(m, start))
  }

  /**
   Chooses the boot window above the kernel, places the bitmap in it and frees
   the usable pages. Without usable RAM initialisation stops there; otherwise
   the allocator starts exactly when the bitmap fits the window.
  */
  method StartFrames(norm: NormalizedMap, kernelEnd: u64)
    returns (stopped: bool, frames: Option<FrameAllocator>, ghost end: u64, ghost lo: u64, ghost hi: u64)
    requires norm.Valid() && PageAligned(norm.View())
    ensures norm.Valid() && norm.View() == old(norm.View())
    ensures stopped <==> NoUsable(norm.View())
    ensures WindowEnd(norm.View(), AlignUp(kernelEnd, PAGE_SIZE), end)
    ensures frames.Some? <==> BitmapFits(norm.View(), AlignUp(kernelEnd, PAGE_SIZE), end)
    ensures frames.Some? ==> Started(norm.View(), AlignUp(kernelEnd, PAGE_SIZE), frames.value, lo, hi)
    ensures frames.Some? ==> fresh(frames.value) && fresh(frames.value.bitmap)
  {
    lo, hi := 0, 0;
    ghost var m := norm.View();
    var bootStart := AlignUp(kernelEnd, PAGE_SIZE);
    var bootEnd := ChooseWindow(norm, bootStart);
    end := bootEnd;
    WindowEndIsUsable(m, bootStart, bootEnd);
    if bootEnd == 0 {
      return true, None, 0, 0, 0;
    }
    stopped := false;
    AlignedTwice(kernelEnd);
    var boot := new BootAllocator(bootStart, bootEnd);
    var bitmapPaddr;
    frames, bitmapPaddr := FrameInit(norm, boot);
    if frames.Some? {
      lo, hi := boot.start, boot.current;
      BitmapPlacement(m, bootStart, bootEnd, BitmapBytes(m));
    }
  }

  method InitMemory(table: MemoryMap, info: KernelPhysInfo, dtb: Option<Blob>, board: Board)
    returns (norm: NormalizedMap, stopped: bool, frames: Option<FrameAllocator>, ghost end: u64, ghost lo: u64,
        ghost hi: u64)
    requires table.Valid()
    requires NoLateStart(AddedAll(table.View(), BootOffers(info, dtb, board)))
    modifies table, table.regions
    ensures table.Valid() && table.View() == AddedAll(old(table.View()), BootOffers(info, dtb, board))
    ensures norm.Valid() && IsNormalised(table.View(), norm.View())
    ensures stopped <==> NoUsable(norm.View())
    ensures WindowEnd(norm.View(), AlignUp(info.kernelEnd, PAGE_SIZE), end)
    ensures frames.Some? <==> BitmapFits(norm.View(), AlignUp(info.kernelEnd, PAGE_SIZE), end)
    ensures frames.Some? ==> Started(norm.View(), AlignUp(info.kernelEnd, PAGE_SIZE), frames.value, lo, hi)
    ensures frames.Some? ==> fresh(frames.value) && fresh(frames.value.bitmap)
  {
    AssembleMap(table, info, dtb, board);
    norm := table.Normalize();
    NormalisedFacts(table.View(), norm.View());
    stopped, frames, end, lo, hi := StartFrames(norm, info.kernelEnd);
  }

  lemma {:induction false} AlignedTwice(v: u64)
    ensures var p := AlignUp(v, PAGE_SIZE); p % PAGE_SIZE == 0 && AlignUp(p, PAGE_SIZE) == p
  {
    FloorMod((v + (PAGE_SIZE - 1)) % TWO64, PAGE_SIZE);
    var p := AlignUp(v, PAGE_SIZE);
    AlignUpIs(p, PAGE_SIZE);
  }

  lemma {:induction false} NormalisedFacts(raw: seq<Region>, m: seq<Region>)
    requires IsNormalised(raw, m) && NoLateStart(raw)
    ensures SoundMap(raw, m) && PageAligned(m)
  {
    var b :| SweepOrder(raw, b) && m == Normalised(raw, b);
    NormalisedSound(raw, b);
  }

  /** The window is empty exactly when there is no usable RAM, else it ends with a usable region. */
  lemma {:induction false} WindowEndIsUsable(m: seq<Region>, start: nat, end: nat)
    requires WindowEnd(m, start, end) && PageAligned(m)
    ensures end == 0 <==> NoUsable(m)
    ensures end != 0 ==> EndsUsable(m, end)
  {
  }

  /**
   The boot window holds the bitmap in usable RAM exactly when some usable
   region contains the page after the kernel; the fallback keeps that start
   with the end of another region.
  */
  lemma {:induction false} BitmapPlacement(m: seq<Region>, start: u64, end: u64, bytes: nat)
    requires WindowEnd(m, start, end) && 0 < bytes && start + bytes <= end
    ensures BitmapInUsable(m, start, bytes) <==> InUsable(m, start)
  {
    if InUsable(m, start) {
      assert !NoUsable(m);
      var i :| 0 <= i < |m| && FirstHolding(m, i, start) && m[i].end == end;
      forall a: nat | start <= a < start + bytes
        ensures InUsable(m, a)
      {
        assert Covers(m[i], a);
      }
    }
  }

  /** A free page is safe: usable by the raw regions, and clear of the bitmap. */
  lemma {:induction false} FreePageIsSafe(raw: seq<Region>, m: seq<Region>, lo: u64, hi: u64, i: nat)
    requires SoundMap(raw, m) && hi <= TWO64 - PAGE_SIZE && UsablePage(m, i) && !TouchesPage(lo, hi, i)
    ensures SafeFrame(raw, lo, hi, i)
  {
    var r :| 0 <= r < |m| && m[r].kind == UsableRam && m[r].start <= i * PAGE_SIZE && (i + 1) * PAGE_SIZE <= m[r].end;
    AlignUpIs(hi, PAGE_SIZE);
    forall a: nat | i * PAGE_SIZE <= a < (i + 1) * PAGE_SIZE
      ensures KindAt(raw, a) == Some(UsableRam) && !(lo <= a < hi)
    {
      assert Covers(m[r], a) && Says(m, a, UsableRam);
    }
  }

  /** Usable RAM is what no region of another kind claims. */
  lemma {:induction false} UsableMeansUnclaimed(raw: seq<Region>, a: nat)
    requires KindAt(raw, a) == Some(UsableRam)
    ensures forall i :: 0 <= i < |raw| && raw[i].kind != UsableRam ==> !Covers(raw[i], a)
  {
  }

  /**
   End to end. Start the frame allocator on the normalised map of any raw
   regions, whether or not spans were dropped, and let any allocations and
   frees of held frames follow. A frame just handed out lies wholly where the
   highest-priority raw region is usable RAM; no kernel, stack, device tree,
   reserved or MMIO region meets it, nor does the boot bitmap; and nobody
   holds it already.
  */
  lemma {:induction false} HandedOutFramesAreSafe(raw: seq<Region>, m: seq<Region>, lo: u64, hi: u64, count: nat,
        l: Ledger, frame: nat)
    requires IsNormalised(raw, m) && NoLateStart(raw) && hi <= TWO64 - PAGE_SIZE
    requires l.Valid(count) && StartsWith(m, lo, hi, count, l.Initial())
    requires l.Entry? && l.request.Alloc? && l.request.result.Some?
    requires frame in FrameRange(l.request.result.value, l.request.pages)
    ensures SafeFrame(raw, lo, hi, frame)
    ensures forall a, i ::
      frame * PAGE_SIZE <= a < (frame + 1) * PAGE_SIZE && 0 <= i < |raw| && raw[i].kind != UsableRam ==>
        !Covers(raw[i], a)
    ensures frame !in l.before.Held()
  {
    NormalisedFacts(raw, m);
    HandedOutFresh(l, count, frame);
    FreePageIsSafe(raw, m, lo, hi, frame);
    forall a, i | frame * PAGE_SIZE <= a < (frame + 1) * PAGE_SIZE && 0 <= i < |raw| && raw[i].kind != UsableRam
      ensures !Covers(raw[i], a)
    {
      UsableMeansUnclaimed(raw, a);
    }
  }

  /** No usable memory is lost: a whole page of usable RAM that the bitmap does not touch is free at the start. */
  lemma {:induction false} UsablePagesAreFree(raw: seq<Region>, b: seq<u64>, lo: u64, hi: u64, count: nat,
        free: set<nat>, i: nat)
    requires SweepOrder(raw, b) && NoLateStart(raw) && |Spans(raw, b, 0)| <= MAX_REGIONS
    requires StartsWith(Normalised(raw, b), lo, hi, count, free)
    requires forall j: nat :: UsablePage(Normalised(raw, b), j) ==> j < count
    requires forall a: nat :: i * PAGE_SIZE <= a < (i + 1) * PAGE_SIZE ==> KindAt(raw, a) == Some(UsableRam)
    requires !TouchesPage(lo, hi, i)
    ensures i in free
  {
    var m := MergedMap(raw, b);
    NormalisationPreservesMeaning(raw, b);
    NormalisedSound(raw, b);
    MergedMapSound(raw, b);
    var r := HoldingRegion(m, i);
    AlignedPageStays(m, Normalised(raw, b), r, i);
  }

  lemma {:induction false} HoldingRegion(m: seq<Region>, i: nat) returns (r: nat)
    requires SortedDisjoint(m) && Maximal(m)
    requires forall a: nat :: i * PAGE_SIZE <= a < (i + 1) * PAGE_SIZE ==> Says(m, a, UsableRam)
    ensures r < |m| && m[r].kind == UsableRam && HasPage(m[r], i * PAGE_SIZE)
  {
    var first := i * PAGE_SIZE;
    assert Says(m, first, UsableRam);
    r :| 0 <= r < |m| && Covers(m[r], first) && m[r].kind == UsableRam;
    RegionHoldsPage(m, r, first, first + PAGE_SIZE);
  }

  /** In a map without touching neighbours of one kind, a region's kind stops at its end. */
  lemma {:induction false} KindStops(m: seq<Region>, r: nat)
    requires SortedDisjoint(m) && Maximal(m) && r < |m|
    ensures !Says(m, m[r].end, m[r].kind)
  {
    forall s | 0 <= s < |m| && m[s].kind == m[r].kind
      ensures !Covers(m[s], m[r].end)
    {
      if s > r + 1 {
        assert m[r].end <= m[r + 1].start < m[r + 1].end <= m[s].start;
      }
    }
  }

  /** So a stretch of usable bytes lies in one region. */
  lemma {:induction false} RegionHoldsPage(m: seq<Region>, r: nat, from: nat, to: nat)
    requires SortedDisjoint(m) && Maximal(m) && r < |m| && Covers(m[r], from) && m[r].kind == UsableRam
    requires forall a: nat :: from <= a < to ==> Says(m, a, UsableRam)
    ensures to <= m[r].end
  {
    KindStops(m, r);
  }

  lemma {:induction false} AlignedPageStays(m: seq<Region>, out: seq<Region>, r: nat, i: nat)
    requires AlignedFrom(m, out) && r < |m| && m[r].kind == UsableRam && HasPage(m[r], i * PAGE_SIZE)
    ensures UsablePage(out, i)
  {
    assert HasPage(out[r], i * PAGE_SIZE);
    assert out[r].kind == UsableRam;
  }
}
