/**
 What memory is at boot, address by address, with the addresses of the boards
 written out (src/mm/mod.rs, src/mm/region.rs, src/mm/frame.rs,
 src/platform/board.rs).
*/
module BootSpec {
  import opened Machine
  import opened Wrappers
  import opened Layout
  import opened RegionModel
  import opened OfferModel
  import opened Boot
  import opened MemorySafety
  import opened Descriptors
  import opened PagingModel
  import opened Paging
  import opened AddressSpace
  import opened AddressMap
  import opened AddressSpec
  import opened KernelBoot
  import opened BootLimits
  import Fdt
  import DtbRegions
  import DtbPath

  // ---- What each address is ------------------------------------------------

  /** The boot code is loaded at 512 KiB. */
  predicate InKernel(info: KernelPhysInfo, a: nat) {
    0x8_0000 <= a < info.bootEnd || info.kernelStart <= a < info.kernelEnd
  }

  predicate InStack(info: KernelPhysInfo, a: nat) { info.stackStart <= a < info.stackEnd }

  predicate InBlob(dtb: Option<Blob>, a: nat) {
    dtb.Some? && dtb.value.paddr <= a < dtb.value.paddr + dtb.value.size && a < U64_MAX
  }

  predicate InDevices(board: Board, a: nat) {
    match board
    case Qemu => 0x3F00_0000 <= a < 0x4000_0000
    case Rpi5 => 0x10_7C00_0000 <= a < 0x10_FC00_0000
  }

  /** Without a blob QEMU is taken to have 8 GiB of RAM, and the Raspberry Pi 5 none. */
  predicate InFallback(dtb: Option<Blob>, board: Board, a: nat) {
    dtb.None? && board == Qemu && a < 0x2_0000_0000
  }

  lemma {:induction false} KernelOffersAt(info: KernelPhysInfo, kind: Kind, a: nat)
    ensures OffersKind(KernelOffers(info), kind, a) <==>
      (kind == KernelImage && InKernel(info, a)) || (kind == BootStack && InStack(info, a))
  {
    var offers := KernelOffers(info);
    var n := |offers|;
    assert Offers(offers[n - 2], a) <==> info.kernelStart <= a < info.kernelEnd;
    assert Offers(offers[n - 1], a) <==> InStack(info, a);
    if n == 3 {
      assert Offers(offers[0], a) <==> 0x8_0000 <= a < info.bootEnd;
    }
  }

  lemma {:induction false} PlatformOffersAt(dtb: Option<Blob>, board: Board, kind: Kind, a: nat)
    ensures OffersKind(PlatformOffers(dtb, board), kind, a) <==>
      (kind == BootInfo && InBlob(dtb, a)) || (kind == Mmio && InDevices(board, a)) ||
      (kind == UsableRam && InFallback(dtb, board, a))
  {
    var offers := PlatformOffers(dtb, board);
    var n := |offers|;
    assert Offers(offers[n - 1], a) <==> InDevices(board, a);
    if n == 2 {
      assert Offers(offers[0], a) <==> InBlob(dtb, a) || InFallback(dtb, board, a);
    }
  }

  /** What the kernel and the board offer as this kind. */
  predicate OwnAt(info: KernelPhysInfo, dtb: Option<Blob>, board: Board, kind: Kind, a: nat) {
    match kind
    case KernelImage => InKernel(info, a)
    case BootStack => InStack(info, a)
    case BootInfo => InBlob(dtb, a)
    case Reserved => false
    case Mmio => InDevices(board, a)
    case UsableRam => InFallback(dtb, board, a)
  }

  lemma {:induction false} BootOffersAt(tree: seq<Offer>, info: KernelPhysInfo, dtb: Option<Blob>, board: Board,
        kind: Kind, a: nat)
    ensures OffersKind(tree + BootOffers(info, dtb, board), kind, a) <==>
      OffersKind(tree, kind, a) || OwnAt(info, dtb, board, kind, a)
  {
    OffersKindConcat(tree, BootOffers(info, dtb, board), kind, a);
    OffersKindConcat(KernelOffers(info), PlatformOffers(dtb, board), kind, a);
    KernelOffersAt(info, kind, a);
    PlatformOffersAt(dtb, board, kind, a);
  }

  /** The tree offers memory and reserves some; the rest is the kernel's and the board's. */
  predicate FromTree(tree: seq<Offer>) {
    forall k :: 0 <= k < |tree| ==> tree[k].kind == UsableRam || tree[k].kind == Reserved
  }

  /**
   What every address is at boot: the kernel's image, its stack, the blob,
   what the tree reserves, MMIO, RAM, in this order, or nothing.
  */
  lemma {:induction false} KindsAtBoot(tree: seq<Offer>, info: KernelPhysInfo, dtb: Option<Blob>, board: Board, a: nat)
    requires FromTree(tree) && |NonEmpty(tree + BootOffers(info, dtb, board))| <= 128
    ensures KindAt(RawMap(tree, info, dtb, board), a) ==
      Strongest(InKernel(info, a), InStack(info, a), InBlob(dtb, a), OffersKind(tree, Reserved, a),
        InDevices(board, a), OffersKind(tree, UsableRam, a) || InFallback(dtb, board, a))
  {
    RawMapOfOffers(tree, info, dtb, board);
    KindsInOrder(tree + BootOffers(info, dtb, board), a);
    BootOffersAt(tree, info, dtb, board, KernelImage, a);
    BootOffersAt(tree, info, dtb, board, BootStack, a);
    BootOffersAt(tree, info, dtb, board, BootInfo, a);
    BootOffersAt(tree, info, dtb, board, Reserved, a);
    BootOffersAt(tree, info, dtb, board, Mmio, a);
    BootOffersAt(tree, info, dtb, board, UsableRam, a);
  }

  // ---- What the allocator starts with --------------------------------------

  /** A page is 4 KiB. */
  predicate InPage(i: nat, a: nat) { i * 4096 <= a < (i + 1) * 4096 }

  lemma {:induction false} PageIsUsableExactly(raw: seq<Region>, m: seq<Region>, i: nat)
    requires IsNormalised(raw, m) && NoLateStart(raw) && |raw| <= 64
    ensures UsablePage(m, i) <==> forall a: nat :: InPage(i, a) ==> KindAt(raw, a) == Some(UsableRam)
  {
    if forall a: nat :: InPage(i, a) ==> KindAt(raw, a) == Some(UsableRam) {
      forall a: nat | i * PAGE_SIZE <= a < (i + 1) * PAGE_SIZE
        ensures KindAt(raw, a) == Some(UsableRam)
      {
        assert InPage(i, a);
      }
      PageKept(raw, m, i);
    } else if UsablePage(m, i) {
      NormalisedFacts(raw, m);
      var r :| 0 <= r < |m| && m[r].kind == UsableRam && m[r].start <= i * PAGE_SIZE && (i + 1) * PAGE_SIZE <= m[r].end;
      forall a: nat | InPage(i, a)
        ensures KindAt(raw, a) == Some(UsableRam)
      {
        assert Covers(m[r], a) && Says(m, a, UsableRam);
      }
    }
  }

  lemma {:induction false} TouchesExactly(lo: u64, hi: u64, i: nat)
    requires lo < hi <= TWO64 - PAGE_SIZE
    ensures TouchesPage(lo, hi, i) <==> exists a: nat :: InPage(i, a) && lo <= a < hi
  {
    AlignUpIs(hi, PAGE_SIZE);
    if TouchesPage(lo, hi, i) {
      assert InPage(i, Max(lo, i * 4096)) && lo <= Max(lo, i * 4096) < hi;
    }
  }

  /**
   With no more than 64 regions offered, so that no span is dropped, a frame is
   free at the start exactly when all of it was offered as usable RAM and as
   nothing else, and the bitmap does not meet it.
  */
  lemma {:induction false} FreeFramesExactly(offers: seq<Offer>, m: seq<Region>, lo: u64, hi: u64, count: nat,
        free: set<nat>, i: nat)
    requires |NonEmpty(offers)| <= 64 && IsNormalised(AddedAll([], offers), m) && NoLateStart(AddedAll([], offers))
    requires StartsWith(m, lo, hi, count, free) && (forall j: nat :: UsablePage(m, j) ==> j < count)
    requires lo < hi <= TWO64 - 4096
    ensures i in free <==> forall a: nat :: InPage(i, a) ==> PlainRam(offers, a) && !(lo <= a < hi)
  {
    TableHoldsOffers(offers);
    PageIsUsableExactly(AddedAll([], offers), m, i);
    TouchesExactly(lo, hi, i);
    forall a: nat
      ensures KindAt(AddedAll([], offers), a) == Some(UsableRam) <==> PlainRam(offers, a)
    {
      UsableIsPlainRam(offers, a);
    }
  }

  // ---- Boots without a blob ------------------------------------------------

  lemma {:induction false} MagicIs(mem: Fdt.Bytes)
    requires |mem| >= 40 && DtbRegions.IsFdt(mem)
    ensures mem[..4] == [0xD0, 0x0D, 0xFE, 0xED]
  {
  }

  /** A boot whose blob is at address 0, or does not begin with the magic number, has none. */
  lemma {:induction false} UnreadableBlob(dtbPa: u64, mem: Fdt.Bytes, info: KernelPhysInfo, board: Board)
    requires DtbRegions.Readable(mem) && (dtbPa == 0 || mem[..4] != [0xD0, 0x0D, 0xFE, 0xED])
    ensures BootRaw(dtbPa, mem, info, board) == RawMap([], info, None, board)
  {
    if DtbRegions.IsFdt(mem) {
      MagicIs(mem);
    }
  }

  lemma {:induction false} FewOffers(info: KernelPhysInfo, board: Board)
    ensures |NonEmpty([] + BootOffers(info, None, board))| <= 5
  {
    NonEmptyIsShort([] + BootOffers(info, None, board));
  }

  /** QEMU without a blob: usable are the first 8 GiB outside the kernel, its stack and the peripherals. */
  lemma {:induction false} QemuWithoutBlob(info: KernelPhysInfo, a: nat)
    ensures KindAt(RawMap([], info, None, Qemu), a) == Some(UsableRam) <==>
      a < 0x2_0000_0000 && !InKernel(info, a) && !InStack(info, a) && !(0x3F00_0000 <= a < 0x4000_0000)
  {
    FewOffers(info, Qemu);
    KindsAtBoot([], info, None, Qemu, a);
  }

  /** The Raspberry Pi 5 without a readable blob: nothing is usable and no allocator starts. */
  lemma {:induction false} RaspberryPiWithoutBlob(info: KernelPhysInfo, m: seq<Region>)
    requires IsNormalised(RawMap([], info, None, Rpi5), m)
    ensures NoUsable(m) && !HasRoom(info, m)
  {
    var raw := RawMap([], info, None, Rpi5);
    FewOffers(info, Rpi5);
    forall a: nat
      ensures KindAt(raw, a) != Some(UsableRam)
    {
      KindsAtBoot([], info, None, Rpi5, a);
    }
    NormalisedFacts(raw, m);
    forall i | 0 <= i < |m|
      ensures m[i].kind != UsableRam
    {
      if m[i].kind == UsableRam {
        LastByteIsUsable(raw, m, i);
      }
    }
  }

  /** A page-aligned stretch of usable memory lies in one region of a map from which no span was dropped. */
  lemma {:induction false} StretchKept(raw: seq<Region>, m: seq<Region>, from: nat, to: nat) returns (i: nat)
    requires IsNormalised(raw, m) && NoLateStart(raw) && |raw| <= 64 && from < to
    requires from % PAGE_SIZE == 0 && to % PAGE_SIZE == 0
    requires forall a: nat :: from <= a < to ==> KindAt(raw, a) == Some(UsableRam)
    ensures i < |m| && m[i].kind == UsableRam && m[i].start <= from && to <= m[i].end
  {
    var b :| SweepOrder(raw, b) && m == Normalised(raw, b);
    SweepLength(raw, b);
    SpansAreFew(raw, b, 0);
    NormalisationPreservesMeaning(raw, b);
    NormalisedSound(raw, b);
    MergedMapSound(raw, b);
    var merged := MergedMap(raw, b);
    assert Says(merged, from, UsableRam);
    i :| 0 <= i < |merged| && Covers(merged[i], from) && merged[i].kind == UsableRam;
    RegionHoldsPage(merged, i, from, to);
    AlignedStretch(merged, m, i, from, to);
  }

  lemma {:induction false} AlignedStretch(m: seq<Region>, out: seq<Region>, i: nat, from: nat, to: nat)
    requires AlignedFrom(m, out) && i < |m| && m[i].kind == UsableRam && m[i].start <= from < to <= m[i].end
    requires from % PAGE_SIZE == 0 && to % PAGE_SIZE == 0
    ensures out[i].kind == UsableRam && out[i].start <= from && to <= out[i].end
  {
    assert WholePages(m[i], out[i]);
    assert HasPage(out[i], from) && HasPage(out[i], to - PAGE_SIZE);
  }

  lemma {:induction false} HoldingIsFirst(raw: seq<Region>, m: seq<Region>, i: nat, start: u64)
    requires SoundMap(raw, m) && i < |m| && Holding(m[i], start)
    ensures FirstHolding(m, i, start)
  {
  }

  /** A bitmap for memory below 8 GiB takes at most 256 KiB. */
  lemma {:induction false} BitmapWithin(m: seq<Region>)
    requires HighestEnd(m) <= 0x2_0000_0000
    ensures BitmapBytes(m) <= 0x4_0000
  {
  }

  lemma {:induction false} QemuMap(info: KernelPhysInfo, m: seq<Region>)
    requires IsNormalised(RawMap([], info, None, Qemu), m)
    ensures |RawMap([], info, None, Qemu)| <= 5 && NoLateStart(RawMap([], info, None, Qemu))
    ensures SoundMap(RawMap([], info, None, Qemu), m) && HighestEnd(m) <= 0x2_0000_0000
  {
    var raw := RawMap([], info, None, Qemu);
    FewOffers(info, Qemu);
    RawMapOfOffers([], info, None, Qemu);
    TableHoldsOffers([] + BootOffers(info, None, Qemu));
    forall a: nat | KindAt(raw, a) == Some(UsableRam)
      ensures a < 0x2_0000_0000
    {
      QemuWithoutBlob(info, a);
    }
    NormalisedFacts(raw, m);
    forall i | 0 <= i < |m| && m[i].kind == UsableRam
      ensures m[i].end <= 0x2_0000_0000
    {
      LastByteIsUsable(raw, m, i);
    }
    HighestIsBelow(m, 0x2_0000_0000);
  }

  /** An allocator starts there when 256 KiB of memory follow the kernel clear of its stack and the peripherals. */
  lemma {:induction false} QemuStartsWithoutBlob(info: KernelPhysInfo, m: seq<Region>, start: u64)
    requires IsNormalised(RawMap([], info, None, Qemu), m) && start == AlignUp(info.kernelEnd, PAGE_SIZE) && start > 0
    requires start + 0x4_0000 <= 0x2_0000_0000
    requires forall a: nat :: start <= a < start + 0x4_0000 ==>
      !InKernel(info, a) && !InStack(info, a) && !(0x3F00_0000 <= a < 0x4000_0000)
    ensures HasRoom(info, m)
  {
    QemuMap(info, m);
    AlignedTwice(info.kernelEnd);
    forall a: nat | start <= a < start + 0x4_0000
      ensures KindAt(RawMap([], info, None, Qemu), a) == Some(UsableRam)
    {
      QemuWithoutBlob(info, a);
    }
    RoomInStretch(RawMap([], info, None, Qemu), info, m, start);
  }

  lemma {:induction false} RoomInStretch(raw: seq<Region>, info: KernelPhysInfo, m: seq<Region>, start: u64)
    requires IsNormalised(raw, m) && NoLateStart(raw) && |raw| <= 64 && HighestEnd(m) <= 0x2_0000_0000
    requires start == AlignUp(info.kernelEnd, PAGE_SIZE) && start > 0 && start % PAGE_SIZE == 0
    requires forall a: nat :: start <= a < start + 0x4_0000 ==> KindAt(raw, a) == Some(UsableRam)
    ensures HasRoom(info, m)
  {
    NormalisedFacts(raw, m);
    var i := StretchKept(raw, m, start, start + 0x4_0000);
    HoldingIsFirst(raw, m, i, start);
    BitmapWithin(m);
    assert WindowEnd(m, start, m[i].end) && BitmapFits(m, start, m[i].end);
  }

  /** So it does for every kernel that the linker script places. */
  lemma {:induction false} LinkedKernelStartsOnQemu(e: u64, m: seq<Region>)
    requires LinkedEnd(e) && IsNormalised(RawMap([], Linked(e), None, Qemu), m)
    ensures HasRoom(Linked(e), m)
  {
    WindowStartIs(e);
    QemuStartsWithoutBlob(Linked(e), m, WindowStart(e));
  }

  // ---- The console's window ------------------------------------------------

  lemma {:induction false} NothingNearNothing(a: nat)
    ensures !Near(0, 0, a)
  {
  }

  /** A boot on QEMU maps the peripherals as Normal memory, whatever console its tree names. */
  lemma {:induction false} QemuBootIgnoresConsole(b: Booted, info: KernelPhysInfo, kernel: PageTables,
        user: PageTables, console: Option<DtbPath.UartInfo>, a: nat)
    requires Complete(b) && Describes(b, info, Qemu, kernel, user, console) && 0x3F00_0000 <= a < 0x4000_0000
    ensures Translate(b.user, b.kernel, a) == Mapped(a, Attrs(1, 0, 3, true))
  {
    UserIsPrescribed(b.user, b.kernel, b.m, Qemu, 0, 0, a);
    NothingNearNothing(a);
    assert InBlockOf(a, a);
  }

  /** A boot on the Raspberry Pi 5 maps the 2 MiB around the console's registers as Device memory. */
  lemma {:induction false} RaspberryPiBootMapsConsole(b: Booted, info: KernelPhysInfo, kernel: PageTables,
        user: PageTables, console: DtbPath.UartInfo, a: nat)
    requires Complete(b) && Describes(b, info, Rpi5, kernel, user, Some(console))
    requires console.addr < 0x80_0000_0000 && a / 0x20_0000 == console.addr / 0x20_0000
    ensures Translate(b.user, b.kernel, a) == Mapped(a, Attrs(0, 0, 0, true))
  {
    ConsoleBlockFits(console.addr);
    RaspberryPiDevicesAreDevice(b.user, b.kernel, b.m, b.extraBase, b.extraSize, a);
  }
}
