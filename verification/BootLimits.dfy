/**
 Boots that show the limits of memory initialisation: a map that is truncated,
 a boot window that misses usable RAM, RAM that is handed out but not mapped,
 and a table too full to protect the kernel. The kernel is any that linker.ld
 can produce.
*/
module BootLimits {
  import opened Machine
  import opened Wrappers
  import opened Layout
  import opened RegionModel
  import opened OfferModel
  import opened MemoryMaps
  import opened Boot
  import opened PagingModel
  import opened AddressSpace
  import opened AddressMap
  import opened MemorySafety
  import opened Frames
  import opened KernelBoot
  import opened DtbRegions
  import opened DtbLimits
  import Fdt

  // ---- A map that is truncated ---------------------------------------------

  /** Every other page from page 2 k + 1 on, n pages in all. */
  function Holes(k: nat, n: nat): (r: seq<Offer>)
    requires k <= n <= MAX_REGIONS
    ensures |r| == n - k
    decreases n - k
  {
    if k == n then [] else [Offer((2 * k + 1) * PAGE_SIZE, PAGE_SIZE, Reserved)] + Holes(k + 1, n)
  }

  lemma {:induction false} HoleAt(k: nat, n: nat, i: nat)
    requires k <= i < n <= MAX_REGIONS
    ensures Holes(k, n)[i - k] == Offer((2 * i + 1) * PAGE_SIZE, PAGE_SIZE, Reserved)
    decreases n - k
  {
    if k < i {
      HoleAt(k + 1, n, i);
    }
  }

  /** 129 pages of RAM with 64 reserved pages in it. */
  function Crowded(): seq<Offer> { [Offer(0, 129 * PAGE_SIZE, UsableRam)] + Holes(0, 64) }

  function HoleExtents(k: nat, n: nat): seq<Extent>
    requires k <= n <= MAX_REGIONS
    decreases n - k
  {
    if k == n then [] else [Extent((2 * k + 1) * PAGE_SIZE, PAGE_SIZE)] + HoleExtents(k + 1, n)
  }

  lemma {:induction false} HolesAreOffered(k: nat, n: nat)
    requires k <= n <= MAX_REGIONS
    ensures OffersOf(RESERVED, HoleExtents(k, n)) == Holes(k, n)
    decreases n - k
  {
    if k < n {
      HolesAreOffered(k + 1, n);
      assert HoleExtents(k, n)[1..] == HoleExtents(k + 1, n);
    }
  }

  /** A device tree describes the crowded memory. */
  lemma {:induction false} CrowdedComesFromATree()
    ensures DtbRegions.Walk(MemoryTree([Extent(0, 129 * PAGE_SIZE)], HoleExtents(0, 64)), Strings(), false, ROOT) ==
      Outcome(Crowded(), false)
  {
    MemoryTreeOffers([Extent(0, 129 * PAGE_SIZE)], HoleExtents(0, 64));
    OneExtent(MEMORY, 0, 129 * PAGE_SIZE);
    HolesAreOffered(0, 64);
  }

  lemma {:induction false} CrowdedAt(offers: seq<Offer>, o: nat)
    requires Crowded() <= offers && o < 65
    ensures offers[o] == if o == 0 then Offer(0, 129 * PAGE_SIZE, UsableRam)
      else Offer((2 * o - 1) * PAGE_SIZE, PAGE_SIZE, Reserved)
  {
    assert offers[o] == Crowded()[o];
    if o > 0 {
      HoleAt(0, 64, o - 1);
    }
  }

  /** Which of the crowded offers has a bound at page k. */
  function AtPage(k: nat): (o: nat)
    requires k <= 129
    ensures o < 65 && (o == 0 <==> k == 0 || k == 129) && (o > 0 ==> k == 2 * o - 1 || k == 2 * o)
  {
    if k == 129 then 0 else (k + 1) / 2
  }

  lemma {:induction false} CrowdedBound(offers: seq<Offer>, k: nat) returns (r: Region)
    requires |NonEmpty(offers)| <= MAX_REGIONS && Crowded() <= offers && k <= 129
    ensures r in AddedAll([], offers) && (r.start == k * PAGE_SIZE || r.end == k * PAGE_SIZE)
  {
    var o := AtPage(k);
    CrowdedAt(offers, o);
    var i := RegionOfOffer(offers, o);
    r := AddedAll([], offers)[i];
  }

  lemma {:induction false} BoundInSweep(raw: seq<Region>, b: seq<u64>, r: Region)
    requires SweepOrder(raw, b) && r in raw
    ensures r.start in b && r.end in b
  {
    var i :| 0 <= i < |raw| && raw[i] == r;
    SweepContains(raw, b, i);
  }

  predicate BoundAt(b: seq<u64>, k: nat) { k * PAGE_SIZE in b }

  /** All addresses below top have a kind and every page boundary up to it is a region boundary. */
  ghost predicate Striped(raw: seq<Region>, b: seq<u64>, pages: nat) {
    && (forall a: nat :: a < pages * PAGE_SIZE ==> KindAt(raw, a).Some?)
    && (forall k: nat :: k <= pages ==> BoundAt(b, k))
  }

  lemma {:induction false} NextBound(b: seq<u64>, i: nat, pages: nat)
    requires Sorted(b) && i < |b| && b[i] < pages * PAGE_SIZE && (forall k: nat :: k <= pages ==> BoundAt(b, k))
    ensures i + 1 < |b| && b[i + 1] <= b[i] + PAGE_SIZE
  {
    var k := b[i] / PAGE_SIZE + 1;
    assert BoundAt(b, k);
    var s :| 0 <= s < |b| && b[s] == k * PAGE_SIZE;
    assert s > i;
    assert s > i + 1 ==> b[i + 1] <= b[s];
  }

  /** The sweep yields one span a page or more. */
  lemma {:induction false} StripesMakeSpans(raw: seq<Region>, b: seq<u64>, i: nat, pages: nat)
    requires SweepOrder(raw, b) && Striped(raw, b, pages) && i < |b|
    ensures b[i] + PAGE_SIZE * |Spans(raw, b, i)| >= pages * PAGE_SIZE
    decreases |b| - i
  {
    if b[i] < pages * PAGE_SIZE {
      NextBound(b, i, pages);
      StripesMakeSpans(raw, b, i + 1, pages);
      if b[i] != b[i + 1] {
        SpanMeaning(raw, b, i, b[i]);
      }
    }
  }

  lemma {:induction false} CrowdedIsStriped(offers: seq<Offer>, b: seq<u64>)
    requires |NonEmpty(offers)| <= MAX_REGIONS && Crowded() <= offers && SweepOrder(AddedAll([], offers), b)
    ensures Striped(AddedAll([], offers), b, 129) && |b| > 0 && b[0] == 0
  {
    var raw := AddedAll([], offers);
    forall k: nat | k <= 129
      ensures BoundAt(b, k)
    {
      var r := CrowdedBound(offers, k);
      BoundInSweep(raw, b, r);
    }
    CrowdedAt(offers, 0);
    var ram := RegionOfOffer(offers, 0);
    assert forall a: nat :: a < 129 * PAGE_SIZE ==> Covers(raw[ram], a);
    assert BoundAt(b, 0);
    var first :| 0 <= first < |b| && b[first] == 0 * PAGE_SIZE;
    assert b[0] <= b[first];
  }

  /**
   With the crowded memory, whatever the kernel, the blob and the board add,
   at most 70 regions are collected, and the sweep still yields more than 128
   spans, so that the map says nothing of some address that has a kind.
  */
  lemma {:induction false} CrowdedMapIsTruncated(info: KernelPhysInfo, dtb: Option<Blob>, board: Board, b: seq<u64>)
    requires SweepOrder(RawMap(Crowded(), info, dtb, board), b)
    ensures var raw := RawMap(Crowded(), info, dtb, board);
      |raw| <= 70 && |Spans(raw, b, 0)| > MAX_REGIONS && !Exact(raw, MergedMap(raw, b))
  {
    var offers := Crowded() + BootOffers(info, dtb, board);
    var raw := RawMap(Crowded(), info, dtb, board);
    RawMapOfOffers(Crowded(), info, dtb, board);
    TableHoldsOffers(offers);
    NonEmptyIsShort(offers);
    CrowdedIsStriped(offers, b);
    StripesMakeSpans(raw, b, 0, 129);
    NormalisationPreservesMeaning(raw, b);
  }

  // ---- Boots by the linker script ------------------------------------------

  /**
   Where a kernel linked by linker.ld can end: it starts at 2 MiB, and its bss
   holds 64 process stacks of 512 KiB and two table pools of 4 MiB.
  */
  predicate LinkedEnd(e: nat) { 0x2A0_0000 <= e <= 0x800_0000 }

  /** The last 64 KiB are the stack. */
  function Linked(e: u64): KernelPhysInfo
    requires LinkedEnd(e)
  {
    KernelPhysInfo(0x20_0000, e, e - 0x1_0000, e, 0x20_0000)
  }

  function MmioOffer(board: Board): Offer {
    if board == Qemu then Offer(PERIPHERAL_BASE, PERIPHERAL_SIZE, Mmio) else Offer(SOC_BASE, SOC_MMIO_SIZE, Mmio)
  }

  /** A kernel, RAM from an address on, reserved memory from 0 on or none, and 64 KiB of blob. */
  datatype Setup = Setup(kernelEnd: u64, from: u64, ram: u64, reserved: u64, blob: u64, board: Board)

  predicate Real(s: Setup) {
    LinkedEnd(s.kernelEnd) && s.from + s.ram < SLOT_SIZE && s.reserved < SLOT_SIZE && s.blob < SLOT_SIZE
  }

  /** Everything offered at boot. */
  function Booting(s: Setup): seq<Offer>
    requires Real(s)
  {
    [Offer(s.from, s.ram, UsableRam), Offer(0, s.reserved, Reserved), Offer(0x8_0000, 0x18_0000, KernelImage),
     Offer(0x20_0000, s.kernelEnd - 0x20_0000, KernelImage), Offer(s.kernelEnd - 0x1_0000, 0x1_0000, BootStack),
     Offer(s.blob, 0x1_0000, BootInfo), MmioOffer(s.board)]
  }

  ghost function BootedWith(s: Setup): seq<Region>
    requires Real(s)
  {
    RawMap([Offer(s.from, s.ram, UsableRam), Offer(0, s.reserved, Reserved)], Linked(s.kernelEnd),
      Some(Blob(s.blob, 0x1_0000)), s.board)
  }

  /** A device tree describes the memory, whatever its sizes. */
  lemma {:induction false} BootedFromATree(from: u64, ram: u64, reserved: u64)
    ensures DtbRegions.Walk(MemoryTree([Extent(from, ram)], [Extent(0, reserved)]), Strings(), false, ROOT) ==
      Outcome([Offer(from, ram, UsableRam), Offer(0, reserved, Reserved)], false)
  {
    MemoryTreeOffers([Extent(from, ram)], [Extent(0, reserved)]);
    OneExtent(MEMORY, from, ram);
    OneExtent(RESERVED, 0, reserved);
  }

  lemma {:induction false} BootedIs(s: Setup)
    requires Real(s)
    ensures BootedWith(s) == AddedAll([], Booting(s)) && |BootedWith(s)| <= |NonEmpty(Booting(s))| <= 7
  {
    var tree, dtb := [Offer(s.from, s.ram, UsableRam), Offer(0, s.reserved, Reserved)], Some(Blob(s.blob, 0x1_0000));
    RawMapOfOffers(tree, Linked(s.kernelEnd), dtb, s.board);
    assert tree + BootOffers(Linked(s.kernelEnd), dtb, s.board) == Booting(s);
    TableHoldsOffers(Booting(s));
    NonEmptyIsShort(Booting(s));
  }

  /** The regions that are not plain RAM, all of higher priority. */
  predicate Taken(s: Setup, a: nat) {
    a < s.reserved || 0x8_0000 <= a < s.kernelEnd || s.blob <= a < s.blob + 0x1_0000
  }

  predicate InMmio(board: Board, a: nat) { Offers(MmioOffer(board), a) }

  lemma {:induction false} WhichMemory(s: Setup, a: nat)
    requires Real(s)
    ensures var all := Booting(s);
      && (Offers(all[0], a) <==> s.from <= a < s.from + s.ram) && (Offers(all[1], a) <==> a < s.reserved)
      && (Offers(all[5], a) <==> s.blob <= a < s.blob + 0x1_0000)
  {
  }

  lemma {:induction false} WhichOffers(s: Setup, a: nat)
    requires Real(s)
    ensures var all := Booting(s);
      && (Offers(all[0], a) <==> s.from <= a < s.from + s.ram) && (Offers(all[1], a) <==> a < s.reserved)
      && (Offers(all[2], a) <==> 0x8_0000 <= a < 0x20_0000) && (Offers(all[3], a) <==> 0x20_0000 <= a < s.kernelEnd)
      && (Offers(all[4], a) ==> 0x20_0000 <= a < s.kernelEnd) &&
        (Offers(all[5], a) <==> s.blob <= a < s.blob + 0x1_0000)
  {
    WhichMemory(s, a);
  }

  lemma {:induction false} KindsOffered(s: Setup, k: nat)
    requires Real(s) && k < 7
    ensures Booting(s)[k].kind == UsableRam <==> k == 0
    ensures Booting(s)[k].kind == Mmio <==> k == 6
  {
  }

  lemma {:induction false} OfferIsTaken(s: Setup, a: nat, k: nat)
    requires Real(s) && k < 7 && Offers(Booting(s)[k], a)
    ensures k == 0 || k == 6 || Taken(s, a)
  {
    WhichOffers(s, a);
  }

  lemma {:induction false} TakenIsOffered(s: Setup, a: nat) returns (k: nat)
    requires Real(s) && (Taken(s, a) || InMmio(s.board, a))
    ensures 0 < k < 7 && Offers(Booting(s)[k], a)
  {
    WhichOffers(s, a);
    k := if a < s.reserved then 1 else if 0x8_0000 <= a < 0x20_0000 then 2 else if 0x20_0000 <= a < s.kernelEnd then 3
      else if s.blob <= a < s.blob + 0x1_0000 then 5 else 6;
  }

  lemma {:induction false} UsableIsPlain(s: Setup, a: nat)
    requires Real(s) && KindAt(BootedWith(s), a) == Some(UsableRam)
    ensures s.from <= a < s.from + s.ram && !Taken(s, a) && !InMmio(s.board, a)
  {
    BootedIs(s);
    UsableIsPlainRam(Booting(s), a);
    var k :| 0 <= k < |Booting(s)| && Offers(Booting(s)[k], a);
    KindsOffered(s, k);
    WhichOffers(s, a);
    if Taken(s, a) || InMmio(s.board, a) {
      var j := TakenIsOffered(s, a);
      KindsOffered(s, j);
    }
  }

  lemma {:induction false} PlainIsUsable(s: Setup, a: nat)
    requires Real(s) && s.from <= a < s.from + s.ram && !Taken(s, a) && !InMmio(s.board, a)
    ensures KindAt(BootedWith(s), a) == Some(UsableRam)
  {
    BootedIs(s);
    WhichOffers(s, a);
    KindOfOffers(Booting(s), a, 0);
  }

  lemma {:induction false} UsableExactly(s: Setup, a: nat)
    requires Real(s)
    ensures KindAt(BootedWith(s), a) == Some(UsableRam) <==>
      s.from <= a < s.from + s.ram && !Taken(s, a) && !InMmio(s.board, a)
  {
    if KindAt(BootedWith(s), a) == Some(UsableRam) {
      UsableIsPlain(s, a);
    } else if s.from <= a < s.from + s.ram && !Taken(s, a) && !InMmio(s.board, a) {
      PlainIsUsable(s, a);
    }
  }

  lemma {:induction false} OtherKindsAreTaken(s: Setup, a: nat, kind: Kind)
    requires Real(s) && KindAt(BootedWith(s), a) == Some(kind) && kind != UsableRam && kind != Mmio
    ensures Taken(s, a)
  {
    BootedIs(s);
    var k := OffersOfKind(Booting(s), a, kind);
    KindsOffered(s, k);
    OfferIsTaken(s, a, k);
  }

  // ---- Facts about the normalised map --------------------------------------

  lemma {:induction false} SpansAreFew(raw: seq<Region>, b: seq<u64>, i: nat)
    requires i <= |b|
    ensures |Spans(raw, b, i)| <= |b| - i
    decreases |b| - i
  {
    if i + 1 < |b| {
      SpansAreFew(raw, b, i + 1);
    }
  }

  lemma {:induction false} SweepLength(raw: seq<Region>, b: seq<u64>)
    requires SweepOrder(raw, b)
    ensures |b| == 2 * |raw|
  {
    assert |multiset(b)| == |multiset(Bounds(raw))|;
  }

  /** In a small map every whole page of usable RAM stays usable. */
  lemma {:induction false} PageKept(raw: seq<Region>, m: seq<Region>, i: nat)
    requires IsNormalised(raw, m) && NoLateStart(raw) && 2 * |raw| <= MAX_REGIONS
    requires forall a: nat :: i * PAGE_SIZE <= a < (i + 1) * PAGE_SIZE ==> KindAt(raw, a) == Some(UsableRam)
    ensures UsablePage(m, i)
  {
    var b :| SweepOrder(raw, b) && m == Normalised(raw, b);
    SweepLength(raw, b);
    SpansAreFew(raw, b, 0);
    NormalisationPreservesMeaning(raw, b);
    MergedPageStays(raw, b, i);
  }

  /** A page that the merged map calls usable stays so when the map is aligned. */
  lemma {:induction false} MergedPageStays(raw: seq<Region>, b: seq<u64>, i: nat)
    requires SweepOrder(raw, b) && NoLateStart(raw)
    requires forall a: nat :: i * PAGE_SIZE <= a < (i + 1) * PAGE_SIZE ==> Says(MergedMap(raw, b), a, UsableRam)
    ensures UsablePage(Normalised(raw, b), i)
  {
    NormalisedSound(raw, b);
    MergedMapSound(raw, b);
    var r := HoldingRegion(MergedMap(raw, b), i);
    AlignedPageStays(MergedMap(raw, b), Normalised(raw, b), r, i);
  }

  lemma {:induction false} LastByteIsUsable(raw: seq<Region>, m: seq<Region>, i: nat)
    requires SoundMap(raw, m) && i < |m| && m[i].kind == UsableRam
    ensures m[i].start < m[i].end && KindAt(raw, m[i].end - 1) == Some(UsableRam)
  {
    assert Covers(m[i], m[i].end - 1) && Says(m, m[i].end - 1, UsableRam);
  }

  lemma {:induction false} HighestIsBelow(m: seq<Region>, top: nat)
    requires forall i :: 0 <= i < |m| && m[i].kind == UsableRam ==> m[i].end <= top
    ensures HighestEnd(m) <= top
  {
    if m != [] {
      HighestIsBelow(m[..|m| - 1], top);
    }
  }

  ghost predicate UsableWithin(raw: seq<Region>, floor: nat, top: nat) {
    forall a: nat :: KindAt(raw, a) == Some(UsableRam) ==> floor <= a < top
  }

  /** When the start is not usable, the window ends with the first usable region. */
  lemma {:induction false} Fallback(raw: seq<Region>, m: seq<Region>, start: u64, end: u64, floor: nat, top: nat)
    requires SoundMap(raw, m) && WindowEnd(m, start, end) && UsableWithin(raw, floor, top)
    requires KindAt(raw, start) != Some(UsableRam) && !NoUsable(m)
    ensures !InUsable(m, start) && floor < end <= top && HighestEnd(m) <= top
    ensures exists i :: 0 <= i < |m| && FirstUsable(m, i) && m[i].end == end
  {
    forall i | 0 <= i < |m| && m[i].kind == UsableRam
      ensures floor < m[i].end <= top
    {
      LastByteIsUsable(raw, m, i);
    }
    HighestIsBelow(m, top);
    assert !InUsable(m, start);
  }

  // ---- A boot window outside usable RAM -------------------------------------

  lemma {:induction false} UsableFrom(m: seq<Region>, raw: seq<Region>, page: nat)
    requires IsNormalised(raw, m) && NoLateStart(raw) && 2 * |raw| <= MAX_REGIONS
    requires forall a: nat :: page * PAGE_SIZE <= a < (page + 1) * PAGE_SIZE ==> KindAt(raw, a) == Some(UsableRam)
    ensures SoundMap(raw, m) && PageAligned(m) && UsablePage(m, page) && !NoUsable(m)
  {
    NormalisedFacts(raw, m);
    PageKept(raw, m, page);
  }

  /** The page after the kernel. */
  function WindowStart(e: u64): u64
    requires LinkedEnd(e)
  {
    AlignUp(e, PAGE_SIZE)
  }

  lemma {:induction false} WindowStartIs(e: u64)
    requires LinkedEnd(e)
    ensures e <= WindowStart(e) < e + PAGE_SIZE
  {
    AlignUpIs(e, PAGE_SIZE);
  }

  /** A bitmap for memory below 1 GiB takes at most 32 KiB. */
  lemma {:induction false} BitmapIsSmall(m: seq<Region>)
    requires HighestEnd(m) <= 0x4000_0000
    ensures BitmapBytes(m) <= 0x8000
  {
  }

  /**
   1 GiB of RAM whose first 256 MiB, the kernel's memory included, are reserved
   by the tree; the blob is at 512 MiB.
  */
  function ReservedLow(e: u64): Setup { Setup(e, 0, 0x4000_0000, 0x1000_0000, 0x2000_0000, Rpi5) }

  lemma {:induction false} ReservedLowKinds(e: u64)
    requires LinkedEnd(e)
    ensures UsableWithin(BootedWith(ReservedLow(e)), 0x1000_0000, 0x4000_0000) &&
      NoLateStart(BootedWith(ReservedLow(e)))
    ensures forall a: nat :: 0x1000_0000 <= a < 0x2000_0000 ==> KindAt(BootedWith(ReservedLow(e)), a) == Some(UsableRam)
  {
    forall a: nat
      ensures KindAt(BootedWith(ReservedLow(e)), a) == Some(UsableRam) ==> 0x1000_0000 <= a < 0x4000_0000
      ensures 0x1000_0000 <= a < 0x2000_0000 ==> KindAt(BootedWith(ReservedLow(e)), a) == Some(UsableRam)
    {
      UsableExactly(ReservedLow(e), a);
    }
  }

  lemma {:induction false} ReservedAfterKernel(e: u64, a: nat)
    requires LinkedEnd(e) && e <= a < 0x1000_0000
    ensures KindAt(BootedWith(ReservedLow(e)), a) == Some(Reserved)
  {
    BootedIs(ReservedLow(e));
    WhichOffers(ReservedLow(e), a);
    KindOfOffers(Booting(ReservedLow(e)), a, 1);
  }

  lemma {:induction false} ReservedLowMap(e: u64, m: seq<Region>)
    requires LinkedEnd(e) && IsNormalised(BootedWith(ReservedLow(e)), m)
    ensures SoundMap(BootedWith(ReservedLow(e)), m) && !NoUsable(m)
  {
    BootedIs(ReservedLow(e));
    ReservedLowKinds(e);
    UsableFrom(m, BootedWith(ReservedLow(e)), 0x1_0000);
  }

  /**
   The bitmap fits the window and the allocator starts, with every byte of the
   bitmap in memory that the tree reserves.
  */
  lemma {:induction false} BitmapInReservedMemory(e: u64, m: seq<Region>, end: u64)
    requires LinkedEnd(e) && IsNormalised(BootedWith(ReservedLow(e)), m) && WindowEnd(m, WindowStart(e), end)
    ensures BitmapFits(m, WindowStart(e), end) && 0 < BitmapBytes(m)
    ensures forall a: nat :: WindowStart(e) <= a < WindowStart(e) + BitmapBytes(m) ==>
      KindAt(BootedWith(ReservedLow(e)), a) == Some(Reserved)
  {
    var raw, start := BootedWith(ReservedLow(e)), WindowStart(e);
    ReservedLowKinds(e);
    ReservedLowMap(e, m);
    WindowStartIs(e);
    ReservedAfterKernel(e, start);
    Fallback(raw, m, start, end, 0x1000_0000, 0x4000_0000);
    BitmapIsSmall(m);
    UsableHasBitmap(m);
    forall a: nat | start <= a < 0x1000_0000
      ensures KindAt(raw, a) == Some(Reserved)
    {
      ReservedAfterKernel(e, a);
    }
  }

  lemma {:induction false} HighestIsAbove(m: seq<Region>, i: nat)
    requires i < |m| && m[i].kind == UsableRam
    ensures HighestEnd(m) >= m[i].end
  {
    if i < |m| - 1 {
      HighestIsAbove(m[..|m| - 1], i);
    }
  }

  lemma {:induction false} UsableHasBitmap(m: seq<Region>)
    requires (exists i :: 0 <= i < |m| && m[i].kind == UsableRam && m[i].end >= PAGE_SIZE)
    ensures 0 < BitmapBytes(m)
  {
    var i :| 0 <= i < |m| && m[i].kind == UsableRam && m[i].end >= PAGE_SIZE;
    HighestIsAbove(m, i);
  }

  /** 1 GiB of RAM with the blob on the page after the kernel. */
  function BlobAfterKernel(e: u64): Setup
    requires LinkedEnd(e)
  {
    Setup(e, 0, 0x4000_0000, 0, WindowStart(e), Rpi5)
  }

  lemma {:induction false} BlobAfterKernelReal(e: u64)
    requires LinkedEnd(e)
    ensures Real(BlobAfterKernel(e)) && WindowStart(e) < 0x801_0000
  {
    WindowStartIs(e);
  }

  ghost function BlobAfterKernelRaw(e: u64): seq<Region>
    requires LinkedEnd(e)
  {
    BlobAfterKernelReal(e);
    BootedWith(BlobAfterKernel(e))
  }

  lemma {:induction false} BlobAfterKernelKinds(e: u64)
    requires LinkedEnd(e)
    ensures UsableWithin(BlobAfterKernelRaw(e), 0, 0x4000_0000) && NoLateStart(BlobAfterKernelRaw(e))
    ensures forall a: nat :: a < 0x8_0000 || 0x1000_0000 <= a < 0x4000_0000 ==>
      KindAt(BlobAfterKernelRaw(e), a) == Some(UsableRam)
    ensures KindAt(BlobAfterKernelRaw(e), 0x8_0000) != Some(UsableRam)
    ensures KindAt(BlobAfterKernelRaw(e), WindowStart(e)) != Some(UsableRam)
  {
    BlobAfterKernelReal(e);
    forall a: nat
      ensures KindAt(BlobAfterKernelRaw(e), a) == Some(UsableRam) <==> a < 0x4000_0000 && !Taken(BlobAfterKernel(e), a)
    {
      UsableExactly(BlobAfterKernel(e), a);
    }
  }

  /** The first usable region of a map in which address 0 is usable and address stop is not. */
  lemma {:induction false} FirstRegionEnds(raw: seq<Region>, m: seq<Region>, i: nat, stop: nat)
    requires SoundMap(raw, m) && UsablePage(m, 0) && i < |m| && FirstUsable(m, i) &&
      KindAt(raw, stop) != Some(UsableRam)
    ensures m[i].end <= stop
  {
    var r :| 0 <= r < |m| && m[r].kind == UsableRam && m[r].start <= 0 * PAGE_SIZE && (0 + 1) * PAGE_SIZE <= m[r].end;
    assert i == r;
    forall a: nat | Covers(m[i], a)
      ensures KindAt(raw, a) == Some(UsableRam)
    {
      assert Says(m, a, UsableRam);
    }
    assert Covers(m[i], stop) ==> KindAt(raw, stop) == Some(UsableRam);
  }

  lemma {:induction false} BlobAfterKernelMap(e: u64, m: seq<Region>)
    requires LinkedEnd(e) && IsNormalised(BlobAfterKernelRaw(e), m)
    ensures SoundMap(BlobAfterKernelRaw(e), m) && UsablePage(m, 0) && UsablePage(m, 0x1_0000) && !NoUsable(m)
  {
    BlobAfterKernelReal(e);
    BootedIs(BlobAfterKernel(e));
    BlobAfterKernelKinds(e);
    UsableFrom(m, BlobAfterKernelRaw(e), 0);
    UsableFrom(m, BlobAfterKernelRaw(e), 0x1_0000);
  }

  /** Although most of 1 GiB is usable, the window ends below its start and no allocator starts. */
  lemma {:induction false} NoAllocatorBehindTheBlob(e: u64, m: seq<Region>, end: u64)
    requires LinkedEnd(e) && IsNormalised(BlobAfterKernelRaw(e), m) && WindowEnd(m, WindowStart(e), end)
    ensures UsablePage(m, 0x1_0000) && !BitmapFits(m, WindowStart(e), end)
  {
    BlobAfterKernelKinds(e);
    BlobAfterKernelMap(e, m);
    WindowStartIs(e);
    Fallback(BlobAfterKernelRaw(e), m, WindowStart(e), end, 0, 0x4000_0000);
    var i :| 0 <= i < |m| && FirstUsable(m, i) && m[i].end == end;
    FirstRegionEnds(BlobAfterKernelRaw(e), m, i, 0x8_0000);
  }

  // ---- RAM that is handed out but not mapped --------------------------------

  /** 4 GiB of RAM, nothing reserved, the blob at 256 MiB. */
  function FourGiBSetup(e: u64): Setup { Setup(e, 0, 0x1_0000_0000, 0, 0x1000_0000, Rpi5) }

  ghost function FourGiB(e: u64): seq<Region>
    requires LinkedEnd(e)
  {
    BootedWith(FourGiBSetup(e))
  }

  lemma {:induction false} FourGiBKinds(e: u64)
    requires LinkedEnd(e)
    ensures forall a: nat :: 0x1001_0000 <= a < 0x1_0000_0000 ==> KindAt(FourGiB(e), a) == Some(UsableRam)
    ensures UsableWithin(FourGiB(e), 0, 0x1_0000_0000) && NoLateStart(FourGiB(e))
    ensures forall s: nat :: UsableStart(FourGiB(e), s) ==> s <= 0x1001_0000
  {
    forall a: nat
      ensures KindAt(FourGiB(e), a) == Some(UsableRam) ==> a < 0x1_0000_0000
      ensures 0x1001_0000 <= a < 0x1_0000_0000 ==> KindAt(FourGiB(e), a) == Some(UsableRam)
    {
      UsableExactly(FourGiBSetup(e), a);
    }
    forall s: nat | s > 0x1001_0000
      ensures KindAt(FourGiB(e), s) == Some(UsableRam) ==> KindAt(FourGiB(e), s - 1) == Some(UsableRam)
    {
    }
  }

  lemma {:induction false} AlignedStart(r: Region)
    requires r.kind == Aligned(r).kind == UsableRam && r.start <= TWO64 - PAGE_SIZE
    ensures Aligned(r).start < r.start + PAGE_SIZE
  {
    AlignUpIs(r.start, PAGE_SIZE);
  }

  /** A usable region starts at most a page above where usable memory does. */
  lemma {:induction false} UsableRegionsStart(raw: seq<Region>, m: seq<Region>, i: nat) returns (s: nat)
    requires IsNormalised(raw, m) && NoLateStart(raw) && i < |m| && m[i].kind == UsableRam
    ensures UsableStart(raw, s) && m[i].start < s + PAGE_SIZE
  {
    var b :| SweepOrder(raw, b) && m == Normalised(raw, b);
    var r := MergedMap(raw, b)[i];
    s := r.start;
    assert m[i] == Aligned(r) && r.kind == UsableRam;
    MapStarts(raw, b, i);
    AlignedStart(r);
  }

  lemma {:induction false} NoRegionNear(e: u64, m: seq<Region>, i: nat)
    requires LinkedEnd(e) && IsNormalised(FourGiB(e), m) && i < |m|
    ensures !RegionTouches(m[i], Rpi5, 0x600)
  {
    FourGiBKinds(e);
    if m[i].kind == UsableRam {
      var s := UsableRegionsStart(FourGiB(e), m, i);
      CapIsFar(m[i]);
    } else if m[i].kind != Mmio {
      NormalisedFacts(FourGiB(e), m);
      if m[i].start < m[i].end {
        OtherRegionsAreLow(e, m, i);
      }
      LowIsFar(m[i]);
    }
  }

  lemma {:induction false} LowIsFar(r: Region)
    requires r.start < r.end ==> r.end <= 0x1001_0000
    requires r.kind != UsableRam
    ensures !RegionTouches(r, Rpi5, 0x600)
  {
  }

  lemma {:induction false} OtherRegionsAreLow(e: u64, m: seq<Region>, i: nat)
    requires LinkedEnd(e) && SoundMap(FourGiB(e), m) && i < |m|
    requires m[i].kind != UsableRam && m[i].kind != Mmio && m[i].start < m[i].end
    ensures m[i].end <= 0x1001_0000
  {
    var a := m[i].end - 1;
    assert Covers(m[i], a) && Says(m, a, m[i].kind);
    OtherKindsAreTaken(FourGiBSetup(e), a, m[i].kind);
  }

  lemma {:induction false} CapIsFar(r: Region)
    requires r.kind == UsableRam && r.start < 0x1001_0000 + PAGE_SIZE
    ensures !RegionTouches(r, Rpi5, 0x600)
  {
  }

  lemma {:induction false} NoDeviceNear()
    ensures LastCall(MmioCalls(Rpi5, 0, 0), 0x600) == None
  {
    var calls := MmioCalls(Rpi5, 0, 0);
    LastCallIs(calls, 0x600);
    forall k | 0 <= k < |calls|
      ensures !Touches(calls[k], 0x600)
    {
    }
  }

  lemma {:induction false} NothingNear(e: u64, m: seq<Region>)
    requires LinkedEnd(e) && IsNormalised(FourGiB(e), m)
    ensures !SomeRegionTouches(m, |m|, Rpi5, 0x600)
  {
    forall i | 0 <= i < |m|
      ensures !RegionTouches(m[i], Rpi5, 0x600)
    {
      NoRegionNear(e, m, i);
    }
    SomeRegionTouchesIs(m, |m|, Rpi5, 0x600);
  }

  lemma {:induction false} FourGiBIsSmall(e: u64)
    requires LinkedEnd(e)
    ensures 2 * |FourGiB(e)| <= MAX_REGIONS
  {
    BootedIs(FourGiBSetup(e));
  }

  lemma {:induction false} PageIsUsable(e: u64, m: seq<Region>)
    requires LinkedEnd(e) && IsNormalised(FourGiB(e), m)
    ensures UsablePage(m, 0xC_0000)
  {
    FourGiBIsSmall(e);
    FourGiBKinds(e);
    PageKept(FourGiB(e), m, 0xC_0000);
  }

  lemma {:induction false} Unreached(user: Tree, kernel: Tree, m: seq<Region>, board: Board, extraBase: u64,
        extraSize: u64, a: nat, b: nat)
    requires Finished(user, kernel, m, board, extraBase, extraSize) && a < SLOT_SIZE && b == a / BLOCK_SIZE
    requires !SomeRegionTouches(m, |m|, board, b) && LastCall(MmioCalls(board, extraBase, extraSize), b) == None
    ensures Translate(user, kernel, PhysToVirt(a)) == Fault && Translate(user, kernel, a) == Fault
  {
    MappedExactly(user, kernel, m, board, extraBase, extraSize, a);
  }

  /** The page at 3 GiB is usable, and so is handed out, but the kernel cannot reach it. */
  lemma {:induction false} CappedRamIsUnmapped(e: u64, m: seq<Region>, user: Tree, kernel: Tree)
    requires LinkedEnd(e) && IsNormalised(FourGiB(e), m) && Finished(user, kernel, m, Rpi5, 0, 0)
    ensures UsablePage(m, 0xC_0000) && Translate(user, kernel, PhysToVirt(0xC000_0000)) == Fault
  {
    PageIsUsable(e, m);
    NothingNear(e, m);
    NoDeviceNear();
    Unreached(user, kernel, m, Rpi5, 0, 0, 0xC000_0000, 0x600);
  }

  // ---- A bitmap that is out of reach -----------------------------------------

  const END: u64 := 0x400_0000

  /** RAM from 1 GiB to 2 GiB alone, and a kernel that ends with a block, at 64 MiB. */
  function FarRam(): Setup { Setup(END, 0x4000_0000, 0x4000_0000, 0, 0x5000_0000, Rpi5) }

  lemma {:induction false} FarRamKinds(s: Setup)
    requires s == FarRam()
    ensures UsableWithin(BootedWith(s), 0x4000_0000, 0x8000_0000) && NoLateStart(BootedWith(s))
    ensures forall a: nat :: 0x6000_0000 <= a < 0x8000_0000 ==> KindAt(BootedWith(s), a) == Some(UsableRam)
    ensures KindAt(BootedWith(s), END) != Some(UsableRam)
  {
    forall a: nat
      ensures KindAt(BootedWith(s), a) == Some(UsableRam) ==> 0x4000_0000 <= a < 0x8000_0000
      ensures 0x6000_0000 <= a < 0x8000_0000 ==> KindAt(BootedWith(s), a) == Some(UsableRam)
    {
      UsableExactly(s, a);
    }
  }

  /** Nothing but MMIO is known between the kernel and the RAM. */
  lemma {:induction false} FarRamGap(s: Setup, a: nat, kind: Kind)
    requires s == FarRam() && END <= a < 0x4000_0000 && KindAt(BootedWith(s), a) == Some(kind)
    ensures kind == Mmio
  {
    UsableExactly(s, a);
    if kind != UsableRam && kind != Mmio {
      OtherKindsAreTaken(s, a, kind);
    }
  }

  lemma {:induction false} FarRamRegion(s: Setup, m: seq<Region>, i: nat)
    requires s == FarRam() && SoundMap(BootedWith(s), m) && i < |m|
    ensures !RegionTouches(m[i], Rpi5, 0x20)
  {
    var r := m[i];
    if r.kind != Mmio && r.start < r.end {
      forall a: nat | Covers(r, a)
        ensures KindAt(BootedWith(s), a) == Some(r.kind)
      {
        assert Says(m, a, r.kind);
      }
      if Covers(r, END) {
        FarRamGap(s, END, r.kind);
      }
      if END <= r.start < 0x4000_0000 {
        FarRamGap(s, r.start, r.kind);
      }
    }
    FarFromBlock(r);
  }

  lemma {:induction false} FarFromBlock(r: Region)
    requires r.kind == Mmio || r.start >= r.end || r.end <= END || r.start >= 0x4000_0000
    ensures !RegionTouches(r, Rpi5, 0x20)
  {
  }

  lemma {:induction false} NoDeviceAtTheBitmap()
    ensures LastCall(MmioCalls(Rpi5, 0, 0), 0x20) == None
  {
    var calls := MmioCalls(Rpi5, 0, 0);
    LastCallIs(calls, 0x20);
    forall k | 0 <= k < |calls|
      ensures !Touches(calls[k], 0x20)
    {
    }
  }

  lemma {:induction false} FarRamMap(s: Setup, m: seq<Region>)
    requires s == FarRam() && IsNormalised(BootedWith(s), m)
    ensures SoundMap(BootedWith(s), m) && !NoUsable(m) && !SomeRegionTouches(m, |m|, Rpi5, 0x20)
  {
    BootedIs(s);
    FarRamKinds(s);
    UsableFrom(m, BootedWith(s), 0x6_0000);
    forall i | 0 <= i < |m|
      ensures !RegionTouches(m[i], Rpi5, 0x20)
    {
      FarRamRegion(s, m, i);
    }
    SomeRegionTouchesIs(m, |m|, Rpi5, 0x20);
  }

  lemma {:induction false} BitmapIsModest(m: seq<Region>)
    requires HighestEnd(m) <= 0x8000_0000
    ensures BitmapBytes(m) <= 0x1_0000
  {
  }

  lemma {:induction false} FarRamFits(s: Setup, m: seq<Region>, end: u64)
    requires s == FarRam() && IsNormalised(BootedWith(s), m) && WindowEnd(m, END, end)
    ensures BitmapFits(m, END, end)
  {
    FarRamKinds(s);
    FarRamMap(s, m);
    Fallback(BootedWith(s), m, END, end, 0x4000_0000, 0x8000_0000);
    BitmapIsModest(m);
  }

  lemma {:induction false} FarRamFaults(s: Setup, m: seq<Region>, start: u64, user: Tree, kernel: Tree)
    requires s == FarRam() && IsNormalised(BootedWith(s), m) && start == END && Finished(user, kernel, m, Rpi5, 0, 0)
    ensures Translate(user, kernel, start) == Fault
  {
    FarRamMap(s, m);
    NoDeviceAtTheBitmap();
    Unreached(user, kernel, m, Rpi5, 0, 0, start, 0x20);
  }

  lemma {:induction false} EndIsAligned(start: u64)
    requires start == END
    ensures LinkedEnd(start) && WindowStart(start) == start
  {
    Boot.AlignedEnd(start);
  }

  /** The bitmap fits the window and the allocator starts, but where it lies nothing is mapped. */
  lemma {:induction false} BitmapOutOfReach(s: Setup, m: seq<Region>, start: u64, end: u64, user: Tree, kernel: Tree)
    requires s == FarRam() && IsNormalised(BootedWith(s), m) && start == END && WindowEnd(m, start, end)
    requires Finished(user, kernel, m, Rpi5, 0, 0)
    ensures LinkedEnd(start) && start == WindowStart(start) && start == s.kernelEnd
    ensures BitmapFits(m, start, end) && Translate(user, kernel, start) == Fault
  {
    EndIsAligned(start);
    FarRamFits(s, m, end);
    FarRamFaults(s, m, start, user, kernel);
  }

  // ---- A table that is full before the kernel is added ----------------------

  const HOLES_FROM: nat := 0x1000_0000

  /** Reserved pages from 256 MiB on. */
  function PageExtents(k: nat, n: nat): (r: seq<Extent>)
    requires k <= n <= MAX_REGIONS
    ensures |r| == n - k
    decreases n - k
  {
    if k == n then [] else [Extent(HOLES_FROM + k * PAGE_SIZE, PAGE_SIZE)] + PageExtents(k + 1, n)
  }

  /** 1 GiB of RAM and 127 reserved pages: as many regions as the table holds. */
  function Overfull(): seq<Offer> {
    OffersOf(MEMORY, [Extent(0, 0x4000_0000)]) + OffersOf(RESERVED, PageExtents(0, 127))
  }

  lemma {:induction false} OverfullComesFromATree()
    ensures DtbRegions.Walk(MemoryTree([Extent(0, 0x4000_0000)], PageExtents(0, 127)), Strings(), false, ROOT) ==
      Outcome(Overfull(), false)
    ensures IsOverfull(Overfull())
  {
    OverfullIs();
    MemoryTreeOffers([Extent(0, 0x4000_0000)], PageExtents(0, 127));
  }

  predicate HighPage(o: Offer) {
    HOLES_FROM <= o.start < TWO32 && 0 < o.size <= PAGE_SIZE && o.kind == Reserved
  }

  lemma {:induction false} PagesOffered(k: nat, n: nat)
    requires k <= n <= MAX_REGIONS
    ensures |OffersOf(RESERVED, PageExtents(k, n))| == n - k
    ensures forall o :: o in OffersOf(RESERVED, PageExtents(k, n)) ==> HighPage(o)
    decreases n - k
  {
    if k < n {
      PagesOffered(k + 1, n);
      assert PageExtents(k, n)[1..] == PageExtents(k + 1, n);
    }
  }

  /** 1 GiB of RAM and 127 reserved pages above 256 MiB. */
  predicate IsOverfull(offers: seq<Offer>) {
    && |offers| == MAX_REGIONS && offers[0] == Offer(0, 0x4000_0000, UsableRam)
    && forall k :: 0 < k < MAX_REGIONS ==> HighPage(offers[k])
  }

  lemma {:induction false} OverfullIs()
    ensures IsOverfull(Overfull())
  {
    OneExtent(MEMORY, 0, 0x4000_0000);
    PagesOffered(0, 127);
    var pages := OffersOf(RESERVED, PageExtents(0, 127));
    forall k | 0 < k < MAX_REGIONS
      ensures HighPage(Overfull()[k])
    {
      assert Overfull()[k] == pages[k - 1] && pages[k - 1] in pages;
    }
  }

  lemma {:induction false} NoneIsEmpty(offers: seq<Offer>)
    requires forall k :: 0 <= k < |offers| ==> offers[k].size > 0
    ensures |NonEmpty(offers)| == |offers|
  {
    if offers != [] {
      NoneIsEmpty(offers[..|offers| - 1]);
    }
  }

  /** Whatever the kernel, the blob and the board add is dropped. */
  lemma {:induction false} OverfullDropsTheRest(offers: seq<Offer>, info: KernelPhysInfo, dtb: Option<Blob>,
        board: Board)
    requires IsOverfull(offers)
    ensures RawMap(offers, info, dtb, board) == AddedAll([], offers)
    ensures |NonEmpty(offers)| == |AddedAll([], offers)| == MAX_REGIONS
  {
    NoneIsEmpty(offers);
    TableIsComplete(offers);
    FullTableDrops(AddedAll([], offers), BootOffers(info, dtb, board));
  }

  lemma {:induction false} OverfullRegion(offers: seq<Offer>, i: nat)
    requires IsOverfull(offers) && i < |AddedAll([], offers)|
    ensures var r := AddedAll([], offers)[i];
      || r == Region(0, 0x4000_0000, UsableRam)
      || (HOLES_FROM <= r.start < r.end && r.end < TWO64 - PAGE_SIZE && r.kind == Reserved)
  {
    var k := OfferOfRegion(offers, i);
  }

  /** Below 256 MiB all is usable RAM to the table, the kernel's memory included. */
  lemma {:induction false} OverfullIsUsable(offers: seq<Offer>, a: nat)
    requires IsOverfull(offers) && a < HOLES_FROM
    ensures KindAt(AddedAll([], offers), a) == Some(UsableRam)
  {
    var raw := AddedAll([], offers);
    NoneIsEmpty(offers);
    var i := RegionOfOffer(offers, 0);
    assert Covers(raw[i], a);
    var r :| 0 <= r < |raw| && Covers(raw[r], a) && raw[r].kind == KindAt(raw, a).value;
    OverfullRegion(offers, r);
  }

  lemma {:induction false} OverfullStartsEarly(offers: seq<Offer>)
    requires IsOverfull(offers)
    ensures NoLateStart(AddedAll([], offers))
  {
    var raw := AddedAll([], offers);
    forall a: nat | UsableStart(raw, a)
      ensures a <= TWO64 - PAGE_SIZE
    {
      var r :| 0 <= r < |raw| && Covers(raw[r], a);
      OverfullRegion(offers, r);
    }
  }

  // The span below the lowest hole is the first one, so the sweep keeps it.

  lemma {:induction false} BoundOfRegion(raw: seq<Region>, x: nat)
    requires x in Bounds(raw)
    ensures exists i :: 0 <= i < |raw| && (raw[i].start == x || raw[i].end == x)
  {
    var n := |raw| - 1;
    if x != raw[n].start && x != raw[n].end {
      BoundOfRegion(raw[..n], x);
      var i :| 0 <= i < n && (raw[..n][i].start == x || raw[..n][i].end == x);
      assert raw[i] == raw[..n][i];
    }
  }

  lemma {:induction false} SpanStarts(raw: seq<Region>, b: seq<u64>, i: nat, j: nat)
    requires i <= |b| && j < |Spans(raw, b, i)|
    ensures Spans(raw, b, i)[j].start in b
    decreases |b| - i
  {
    if b[i] == b[i + 1] || SpanKind(raw, b[i], b[i + 1]).None? {
      SpanStarts(raw, b, i + 1, j);
    } else if j > 0 {
      SpanStarts(raw, b, i + 1, j - 1);
    }
  }

  /** When nothing but 0 is a boundary below top, what is said there survives truncation. */
  lemma {:induction false} FirstSpanKept(raw: seq<Region>, b: seq<u64>, top: nat, a: nat, k: Kind)
    requires SweepOrder(raw, b) && a < top && KindAt(raw, a) == Some(k)
    requires forall x :: x in b ==> x == 0 || x >= top
    ensures Says(MergedMap(raw, b), a, k)
  {
    var all := Spans(raw, b, 0);
    SpansSound(raw, b, 0);
    SpansComplete(raw, b, a);
    var j :| 0 <= j < |all| && Covers(all[j], a) && all[j].kind == k;
    SpanStarts(raw, b, 0, j);
    var first := all[0];
    assert first.start < first.end;
    assert j == 0;
    assert Truncated(all)[0] == all[0];
    assert Says(Truncated(all), a, k);
    MergedMeaning(Truncated(all));
  }

  lemma {:induction false} OverfullBounds(offers: seq<Offer>, b: seq<u64>, x: nat)
    requires IsOverfull(offers) && SweepOrder(AddedAll([], offers), b) && x in b
    ensures x == 0 || x >= HOLES_FROM
  {
    var raw := AddedAll([], offers);
    assert x in multiset(b);
    BoundOfRegion(raw, x);
    var i :| 0 <= i < |raw| && (raw[i].start == x || raw[i].end == x);
    OverfullRegion(offers, i);
  }

  lemma {:induction false} OverfullPage(offers: seq<Offer>, m: seq<Region>, page: nat)
    requires IsOverfull(offers) && IsNormalised(AddedAll([], offers), m) && (page + 1) * PAGE_SIZE <= HOLES_FROM
    ensures UsablePage(m, page)
  {
    var raw := AddedAll([], offers);
    var b :| SweepOrder(raw, b) && m == Normalised(raw, b);
    forall x | x in b
      ensures x == 0 || x >= HOLES_FROM
    {
      OverfullBounds(offers, b, x);
    }
    forall a: nat | page * PAGE_SIZE <= a < (page + 1) * PAGE_SIZE
      ensures Says(MergedMap(raw, b), a, UsableRam)
    {
      OverfullIsUsable(offers, a);
      FirstSpanKept(raw, b, HOLES_FROM, a, UsableRam);
    }
    OverfullStartsEarly(offers);
    MergedPageStays(raw, b, page);
  }

  lemma {:induction false} KernelPageIsUntouched(info: KernelPhysInfo, lo: u64, hi: u64, page: nat)
    requires (page + 1) * PAGE_SIZE <= info.kernelEnd <= HOLES_FROM && lo == AlignUp(info.kernelEnd, PAGE_SIZE)
    ensures !TouchesPage(lo, hi, page)
  {
    AlignUpIs(info.kernelEnd, PAGE_SIZE);
  }

  /**
   With such a tree, whatever the kernel, the blob and the board are, the
   allocator starts with every page of the kernel image among its free frames.
  */
  lemma {:induction false} KernelIsHandedOut(offers: seq<Offer>, info: KernelPhysInfo, dtb: Option<Blob>, board: Board,
        m: seq<Region>, f: FrameAllocator, lo: u64, hi: u64, page: nat)
    requires IsOverfull(offers) && IsNormalised(RawMap(offers, info, dtb, board), m)
    requires Started(m, AlignUp(info.kernelEnd, PAGE_SIZE), f, lo, hi)
    requires info.kernelStart <= page * PAGE_SIZE && (page + 1) * PAGE_SIZE <= info.kernelEnd <= HOLES_FROM
    ensures page in f.FreeFrames()
  {
    OverfullDropsTheRest(offers, info, dtb, board);
    OverfullPage(offers, m, page);
    KernelPageIsUntouched(info, lo, hi, page);
  }
}
