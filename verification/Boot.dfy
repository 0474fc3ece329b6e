/** Memory initialisation across the components (src/mm/mod.rs, src/mm/frame.rs). */
module Boot {
  import opened Machine
  import opened Wrappers
  import opened Layout
  import opened RegionModel
  import opened MemoryMaps
  import opened BootAlloc
  import opened FrameModel
  import opened Frames

  datatype Board = Rpi5 | Qemu

  const PERIPHERAL_BASE: nat := 0x3F00_0000
  const PERIPHERAL_SIZE: nat := 0x0100_0000
  const QEMU_RAM_SIZE: nat := 8 * 1024 * 1024 * 1024
  const SOC_BASE: nat := 0x10_7c00_0000
  const SOC_MMIO_SIZE: nat := 0x8000_0000

  /** Linker-provided physical addresses. */
  datatype KernelPhysInfo =
    KernelPhysInfo(kernelStart: u64, kernelEnd: u64, stackStart: u64, stackEnd: u64, bootEnd: u64)

  /** Address and size of the device tree blob. */
  datatype Blob = Blob(paddr: u64, size: u32)

  function SaturatingSub(a: nat, b: nat): nat { if a > b then a - b else 0 }

  function KernelOffers(info: KernelPhysInfo): seq<Offer> {
    (if info.bootEnd > KERNEL_PHYS_BASE
     then [Offer(KERNEL_PHYS_BASE, SaturatingSub(info.bootEnd, KERNEL_PHYS_BASE), KernelImage)] else []) +
    [Offer(info.kernelStart, SaturatingSub(info.kernelEnd, info.kernelStart), KernelImage),
     Offer(info.stackStart, SaturatingSub(info.stackEnd, info.stackStart), BootStack)]
  }

  function PlatformOffers(dtb: Option<Blob>, board: Board): seq<Offer> {
    (if dtb.Some? then [Offer(dtb.value.paddr, dtb.value.size, BootInfo)]
     else if board == Qemu then [Offer(0, QEMU_RAM_SIZE, UsableRam)]
     else []) +
    [if board == Qemu then Offer(PERIPHERAL_BASE, PERIPHERAL_SIZE, Mmio) else Offer(SOC_BASE, SOC_MMIO_SIZE, Mmio)]
  }

  /** The regions added after the device tree has been read. */
  function BootOffers(info: KernelPhysInfo, dtb: Option<Blob>, board: Board): seq<Offer> {
    KernelOffers(info) + PlatformOffers(dtb, board)
  }

  lemma {:induction false} AddedAllOne(raw: seq<Region>, o: Offer)
    ensures AddedAll(raw, [o]) == Added(raw, o.start, o.size, o.kind)
  {
    assert [o][..0] == [];
  }

  lemma {:induction false} AddedAllConcat(raw: seq<Region>, a: seq<Offer>, b: seq<Offer>)
    ensures AddedAll(raw, a + b) == AddedAll(AddedAll(raw, a), b)
  {
    if b == [] {
      assert a + b == a;
    } else {
      assert (a + b)[..|a + b| - 1] == a + b[..|b| - 1];
      AddedAllConcat(raw, a, b[..|b| - 1]);
    }
  }

  method AddOffer(table: MemoryMap, ghost raw: seq<Region>, ghost done: seq<Offer>, o: Offer)
    requires table.Valid() && table.View() == AddedAll(raw, done)
    modifies table, table.regions
    ensures table.Valid() && table.View() == AddedAll(raw, done + [o])
  {
    AddedAllConcat(raw, done, [o]);
    AddedAllOne(AddedAll(raw, done), o);
    table.AddRegion(o.start, o.size, o.kind);
  }

  method AddKernelRegions(table: MemoryMap, info: KernelPhysInfo)
    requires table.Valid()
    modifies table, table.regions
    ensures table.Valid() && table.View() == AddedAll(old(table.View()), KernelOffers(info))
  {
    ghost var raw := table.View();
    ghost var done: seq<Offer> := [];
    if info.bootEnd > KERNEL_PHYS_BASE {
      var o := Offer(KERNEL_PHYS_BASE, SaturatingSub(info.bootEnd, KERNEL_PHYS_BASE), KernelImage);
      AddOffer(table, raw, done, o);
      done := done + [o];
    }
    var kernel := Offer(info.kernelStart, SaturatingSub(info.kernelEnd, info.kernelStart), KernelImage);
    AddOffer(table, raw, done, kernel);
    done := done + [kernel];
    var stack := Offer(info.stackStart, SaturatingSub(info.stackEnd, info.stackStart), BootStack);
    AddOffer(table, raw, done, stack);
    assert done + [stack] == KernelOffers(info);
  }

  method AddPlatformRegions(table: MemoryMap, dtb: Option<Blob>, board: Board)
    requires table.Valid()
    modifies table, table.regions
    ensures table.Valid() && table.View() == AddedAll(old(table.View()), PlatformOffers(dtb, board))
  {
    ghost var raw := table.View();
    ghost var done: seq<Offer> := [];
    if dtb.Some? {
      var o := Offer(dtb.value.paddr, dtb.value.size, BootInfo);
      AddOffer(table, raw, done, o);
      done := done + [o];
    } else if board == Qemu {
      var o := Offer(0, QEMU_RAM_SIZE, UsableRam);
      AddOffer(table, raw, done, o);
      done := done + [o];
    }
    var mmio := if board == Qemu then Offer(PERIPHERAL_BASE, PERIPHERAL_SIZE, Mmio)
                else Offer(SOC_BASE, SOC_MMIO_SIZE, Mmio);
    AddOffer(table, raw, done, mmio);
    assert done + [mmio] == PlatformOffers(dtb, board);
  }

  /** The part of mm::init that completes the raw map. */
  method AssembleMap(table: MemoryMap, info: KernelPhysInfo, dtb: Option<Blob>, board: Board)
    requires table.Valid()
    modifies table, table.regions
    ensures table.Valid()
    ensures table.View() == AddedAll(old(table.View()), BootOffers(info, dtb, board))
  {
    AddedAllConcat(table.View(), KernelOffers(info), PlatformOffers(dtb, board));
    AddKernelRegions(table, info);
    AddPlatformRegions(table, dtb, board);
  }

  // ---- The window of the boot allocator ------------------------------------

  /** A usable region of the map contains the address. */
  ghost predicate InUsable(m: seq<Region>, a: nat) {
    Says(m, a, UsableRam)
  }

  predicate Holding(r: Region, a: nat) {
    r.kind == UsableRam && Covers(r, a)
  }

  ghost predicate FirstHolding(m: seq<Region>, i: nat, a: nat)
    requires i < |m|
  {
    Holding(m[i], a) && forall j :: 0 <= j < i ==> !Holding(m[j], a)
  }

  ghost predicate FirstUsable(m: seq<Region>, i: nat)
    requires i < |m|
  {
    m[i].kind == UsableRam && forall j :: 0 <= j < i ==> m[j].kind != UsableRam
  }

  /** The window ends with the usable region holding its start, else with the first usable region, else it is 0. */
  ghost predicate WindowEnd(m: seq<Region>, start: nat, end: nat) {
    || (exists i :: 0 <= i < |m| && FirstHolding(m, i, start) && m[i].end == end)
    || (!InUsable(m, start) && exists i :: 0 <= i < |m| && FirstUsable(m, i) && m[i].end == end)
    || (end == 0 && NoUsable(m))
  }

  ghost predicate NoUsable(m: seq<Region>) {
    forall i :: 0 <= i < |m| ==> m[i].kind != UsableRam
  }

  lemma {:induction false} HoldingIsInUsable(m: seq<Region>, i: nat, a: nat)
    requires i < |m| && Holding(m[i], a)
    ensures InUsable(m, a) && !NoUsable(m)
  {
  }

  /** A map and a start have one window. */
  lemma {:induction false} WindowEndIsUnique(m: seq<Region>, start: nat, end: nat, end': nat)
    requires WindowEnd(m, start, end) && WindowEnd(m, start, end')
    ensures end == end'
  {
    forall i | 0 <= i < |m| && Holding(m[i], start)
      ensures InUsable(m, start) && !NoUsable(m)
    {
      HoldingIsInUsable(m, i, start);
    }
  }

  method ChooseWindow(table: NormalizedMap, start: u64) returns (end: u64)
    requires table.Valid()
    ensures WindowEnd(table.View(), start, end)
  {
    ghost var m := table.View();
    end := 0;
    for i := 0 to table.len
      invariant end == 0
      invariant forall j :: 0 <= j < i ==> !Holding(m[j], start)
    {
      var region := table.regions[i];
      if region.kind == UsableRam && region.start <= start && start < region.end {
        assert m[i] == region && FirstHolding(m, i, start);
        return region.end;
      }
    }
    assert !InUsable(m, start);
    for i := 0 to table.len
      invariant end == 0
      invariant forall j :: 0 <= j < i ==> m[j].kind != UsableRam
    {
      if table.regions[i].kind == UsableRam {
        assert m[i] == table.regions[i] && FirstUsable(m, i);
        return table.regions[i].end;
      }
    }
  }

  // ---- The frame allocator over the map ------------------------------------

  /** Page i lies wholly inside a usable region of the map. */
  ghost predicate UsablePage(m: seq<Region>, i: nat) {
    exists r :: 0 <= r < |m| && m[r].kind == UsableRam && m[r].start <= i * PAGE_SIZE && (i + 1) * PAGE_SIZE <= m[r].end
  }

  ghost predicate PageAligned(m: seq<Region>) {
    forall r :: 0 <= r < |m| && m[r].kind == UsableRam ==>
      m[r].start < m[r].end && m[r].start % PAGE_SIZE == 0 && m[r].end % PAGE_SIZE == 0
  }

  function EndIfUsable(r: Region): nat { if r.kind == UsableRam then r.end else 0 }

  /** The end of usable RAM. */
  function HighestEnd(m: seq<Region>): nat {
    if m == [] then 0 else Max(HighestEnd(m[..|m| - 1]), EndIfUsable(m[|m| - 1]))
  }

  /** Size of the bitmap: one bit per frame below the end of usable RAM, in 64-bit words. */
  function BitmapBytes(m: seq<Region>): nat { (HighestEnd(m) / PAGE_SIZE + 63) / 64 * 8 }

  /** The bitmap fits the boot window. */
  predicate BitmapFits(m: seq<Region>, start: nat, end: nat) {
    start != 0 && start + BitmapBytes(m) <= end
  }

  method MaxUsableEnd(table: NormalizedMap) returns (maxEnd: u64)
    requires table.Valid()
    ensures maxEnd == HighestEnd(table.View())
    ensures forall r :: 0 <= r < |table.View()| && table.View()[r].kind == UsableRam ==> table.View()[r].end <= maxEnd
    ensures maxEnd == 0 || EndsUsable(table.View(), maxEnd)
  {
    ghost var m := table.View();
    maxEnd := 0;
    for i := 0 to table.len
      invariant maxEnd == HighestEnd(m[..i])
      invariant forall r :: 0 <= r < i && m[r].kind == UsableRam ==> m[r].end <= maxEnd
      invariant maxEnd == 0 || exists r :: 0 <= r < i && m[r].kind == UsableRam && m[r].end == maxEnd
    {
      assert m[..i + 1][..i] == m[..i];
      if table.regions[i].kind == UsableRam && table.regions[i].end > maxEnd {
        maxEnd := table.regions[i].end;
        assert m[i].end == maxEnd;
      }
    }
    assert m[..table.len] == m;
  }

  lemma {:induction false} PageInRegion(r: Region, i: nat)
    requires r.start % PAGE_SIZE == 0 && r.end % PAGE_SIZE == 0
    ensures r.start <= i * PAGE_SIZE && (i + 1) * PAGE_SIZE <= r.end <==> r.start / PAGE_SIZE <= i < r.end / PAGE_SIZE
  {
  }

  /** Clears the bits of every usable region. */
  method FreeUsable(table: NormalizedMap, frames: FrameAllocator, maxEnd: u64)
    requires table.Valid() && frames.Valid() && frames.bitmap as object != table.regions && PageAligned(table.View())
    requires forall r :: 0 <= r < |table.View()| && table.View()[r].kind == UsableRam ==> table.View()[r].end <= maxEnd
    requires frames.frameCount == maxEnd / PAGE_SIZE
    requires forall j :: 0 <= j < 64 * frames.bitmap.Length ==> frames.Used(j)
    modifies frames.bitmap
    ensures forall j :: 0 <= j < 64 * frames.bitmap.Length ==> (frames.Used(j) <==> !UsablePage(table.View(), j))
  {
    ghost var m := table.View();
    for i := 0 to table.len
      invariant forall j :: 0 <= j < 64 * frames.bitmap.Length ==> (frames.Used(j) <==> !UsablePage(m[..i], j))
    {
      assert m[..i + 1] == m[..i] + [m[i]];
      var region := table.regions[i];
      assert region == m[i];
      label before:
      if region.kind == UsableRam {
        frames.MarkFree(region.start, region.end);
      }
      forall j | 0 <= j < 64 * frames.bitmap.Length
        ensures frames.Used(j) <==> !UsablePage(m[..i + 1], j)
      {
        UsablePageSnoc(m[..i], m[i], j);
        if region.kind == UsableRam {
          PageInRegion(region, j);
        }
      }
    }
    assert m[..table.len] == m;
  }

  lemma {:induction false} UsablePageSnoc(m: seq<Region>, r: Region, i: nat)
    ensures UsablePage(m + [r], i) <==>
      UsablePage(m, i) || (r.kind == UsableRam && r.start <= i * PAGE_SIZE && (i + 1) * PAGE_SIZE <= r.end)
  {
    var n := m + [r];
    assert n[|m|] == r && (forall k :: 0 <= k < |m| ==> n[k] == m[k]);
  }

  /** The bytes from lo to hi touch page i, counted in whole pages. */
  predicate TouchesPage(lo: u64, hi: u64, i: nat) {
    lo / PAGE_SIZE <= i < AlignUp(hi, PAGE_SIZE) / PAGE_SIZE
  }

  /** One bit per frame in 64-bit words. */
  method BitmapSize(maxEnd: u64, ghost m: seq<Region>) returns (frameCount: nat, bytes: nat)
    requires maxEnd == HighestEnd(m) && maxEnd % PAGE_SIZE == 0
    ensures frameCount == maxEnd / PAGE_SIZE && bytes == BitmapBytes(m)
  {
    AlignedEnd(maxEnd);
    frameCount := AlignUp(maxEnd, PAGE_SIZE) / PAGE_SIZE;
    var words := (frameCount + 63) / 64;
    bytes := words * 8;
  }

  /** A first chunk, at the start of the window if it fits. */
  method PlaceBitmap(boot: BootAllocator, bytes: nat) returns (chunk: Option<u64>)
    requires boot.end < U64_MAX && boot.start % PAGE_SIZE == 0 && boot.start == boot.current
    modifies boot
    ensures boot.start == old(boot.start) && boot.end == old(boot.end)
    ensures chunk.Some? <==> boot.start != 0 && boot.start + bytes <= boot.end
    ensures chunk.Some? ==> chunk.value == boot.start && boot.start + bytes == boot.current <= boot.end
  {
    BitmapRequest(boot.start, bytes, boot.end);
    chunk := boot.Alloc(bytes, 8);
  }

  /** An aligned request is granted at the position itself. */
  lemma {:induction false} BitmapRequest(at: u64, bytes: nat, end: u64)
    requires at % PAGE_SIZE == 0 && end < U64_MAX
    ensures AlignUp(at, 8) == at && (Min(at + bytes, U64_MAX) > end <==> at + bytes > end)
  {
    AlignedForWords(at);
  }

  /** All frames start used; the usable pages become free, the boot allocator's pages used again. */
  method FillBitmap(table: NormalizedMap, boot: BootAllocator, frameCount: nat, maxEnd: u64) returns (f: FrameAllocator)
    requires table.Valid() && PageAligned(table.View()) && frameCount == maxEnd / PAGE_SIZE && maxEnd % PAGE_SIZE == 0
    requires forall r :: 0 <= r < |table.View()| && table.View()[r].kind == UsableRam ==> table.View()[r].end <= maxEnd
    requires boot.current <= maxEnd
    ensures f.Valid() && fresh(f) && fresh(f.bitmap) && f.frameCount == frameCount
    ensures f.FreeFrames() ==
      set i | 0 <= i < frameCount && UsablePage(table.View(), i) && !TouchesPage(boot.start, boot.current, i)
  {
    f := new FrameAllocator(frameCount);
    FreeUsable(table, f, maxEnd);
    var from, to := boot.UsedRange();
    UsedPagesFit(to, maxEnd, f.bitmap.Length);
    f.MarkUsed(from, to);
  }

  /**
   frame::init. An allocator starts exactly when the bitmap fits the window.
   Its free frames are the usable pages that the boot allocator has not
   touched; the bitmap itself lies in what that handed out.
  */
  method FrameInit(table: NormalizedMap, boot: BootAllocator) returns (frames: Option<FrameAllocator>, bitmapPaddr: u64)
    requires table.Valid() && PageAligned(table.View())
    requires boot.start % PAGE_SIZE == 0 && boot.start == boot.current
    requires NoUsable(table.View()) || EndsUsable(table.View(), boot.end)
    modifies boot
    ensures boot.start == old(boot.start) && boot.end == old(boot.end)
    ensures frames.Some? <==> !NoUsable(table.View()) && BitmapFits(table.View(), boot.start, boot.end)
    ensures frames.Some? ==>
      var f, m := frames.value, table.View();
      && f.Valid() && fresh(f) && fresh(f.bitmap)
      && boot.start == bitmapPaddr && bitmapPaddr + BitmapBytes(m) == boot.current <= boot.end <= TWO64 - PAGE_SIZE
      && f.frameCount == HighestEnd(m) / PAGE_SIZE && 0 < BitmapBytes(m)
      && f.FreeFrames() == (set i | 0 <= i < f.frameCount && UsablePage(m, i) &&
        !TouchesPage(boot.start, boot.current, i))
      && (forall i: nat :: UsablePage(m, i) ==> i < f.frameCount)
  {
    var maxEnd := MaxUsableEnd(table);
    if maxEnd == 0 {
      NoUsableEnd(table.View());
      return None, 0;
    }
    UsableEnds(table.View(), boot.end, maxEnd);
    var frameCount, bytes := BitmapSize(maxEnd, table.View());
    var chunk := PlaceBitmap(boot, bytes);
    if chunk.None? {
      return None, 0;
    }
    bitmapPaddr := chunk.value;
    var f := FillBitmap(table, boot, frameCount, maxEnd);
    frames := Some(f);
    forall i: nat | UsablePage(table.View(), i)
      ensures i < frameCount
    {
      UsablePageBelow(table.View(), i, maxEnd);
    }
  }

  ghost predicate EndsUsable(m: seq<Region>, end: nat) {
    exists r :: 0 <= r < |m| && m[r].kind == UsableRam && m[r].end == end
  }

  lemma {:induction false} NoUsableEnd(m: seq<Region>)
    requires PageAligned(m) && forall r :: 0 <= r < |m| && m[r].kind == UsableRam ==> m[r].end <= 0
    ensures NoUsable(m)
  {
  }

  /** What the end of usable RAM is, and that a window ending with a usable region lies below it. */
  lemma {:induction false} UsableEnds(m: seq<Region>, end: u64, maxEnd: u64)
    requires PageAligned(m) && (NoUsable(m) || EndsUsable(m, end))
    requires forall r :: 0 <= r < |m| && m[r].kind == UsableRam ==> m[r].end <= maxEnd
    requires maxEnd != 0 && EndsUsable(m, maxEnd)
    ensures !NoUsable(m) && 0 < end <= maxEnd <= TWO64 - PAGE_SIZE && maxEnd % PAGE_SIZE == 0
    ensures (maxEnd / PAGE_SIZE + 63) / 64 * 8 > 0
  {
    AlignedEnd(maxEnd);
  }

  lemma {:induction false} AlignedEnd(e: u64)
    requires e % PAGE_SIZE == 0
    ensures e <= TWO64 - PAGE_SIZE && AlignUp(e, PAGE_SIZE) == e
  {
    AlignUpIs(e, PAGE_SIZE);
  }

  /** A page-aligned position is already aligned for the bitmap. */
  lemma {:induction false} AlignedForWords(p: u64)
    requires p % PAGE_SIZE == 0
    ensures AlignUp(p, 8) == p
  {
    AlignUpIs(p, 8);
  }

  lemma {:induction false} UsablePageBelow(m: seq<Region>, i: nat, maxEnd: u64)
    requires UsablePage(m, i) && (forall r :: 0 <= r < |m| && m[r].kind == UsableRam ==> m[r].end <= maxEnd)
    ensures i < maxEnd / PAGE_SIZE
  {
  }

  lemma {:induction false} UsedPagesFit(to: u64, maxEnd: u64, words: nat)
    requires to <= maxEnd && maxEnd % PAGE_SIZE == 0 && words == (maxEnd / PAGE_SIZE + 63) / 64
    requires to <= TWO64 - PAGE_SIZE
    ensures AlignUp(to, PAGE_SIZE) / PAGE_SIZE <= maxEnd / PAGE_SIZE <= 64 * words
  {
    AlignUpIs(to, PAGE_SIZE);
  }
}
