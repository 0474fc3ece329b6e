/**
 mm::init from the device tree to the page tables (src/mm/mod.rs): what a frame
 handed out later is, as memory and as an address. Contracts compare a
 predicate with true where the verifier should take it as a whole.
*/
module KernelBoot {
  import opened Machine
  import opened Wrappers
  import opened Layout
  import opened RegionModel
  import opened OfferModel
  import opened MemoryMaps
  import opened FrameModel
  import opened FrameRequests
  import opened Frames
  import opened Boot
  import opened Descriptors
  import opened PagingModel
  import opened Paging
  import opened AddressSpace
  import opened AddressMap
  import opened MemorySafety
  import Fdt
  import DtbRegions
  import DtbPath

  /** All memory the board describes lies below 512 GiB. */
  ghost predicate BelowSlot(raw: seq<Region>) {
    forall i :: 0 <= i < |raw| ==> raw[i].end <= SLOT_SIZE
  }

  lemma {:induction false} SoundMapFits(raw: seq<Region>, m: seq<Region>, board: Board)
    requires SoundMap(raw, m) && BelowSlot(raw)
    ensures MapFits(m, board)
  {
    forall i | 0 <= i < |m|
      ensures RegionFits(m[i], board)
    {
      if m[i].start < m[i].end {
        EndIsBelowSlot(raw, m, i);
      }
    }
  }

  lemma {:induction false} EndIsBelowSlot(raw: seq<Region>, m: seq<Region>, i: nat)
    requires SoundMap(raw, m) && BelowSlot(raw) && i < |m| && m[i].start < m[i].end
    ensures m[i].end <= SLOT_SIZE
  {
    var a := m[i].end - 1;
    assert Covers(m[i], a) && Says(m, a, m[i].kind);
    var r :| 0 <= r < |raw| && Covers(raw[r], a);
  }

  /** The raw map at boot: the tree's regions, then the kernel's and the board's, as far as the table holds them. */
  ghost function RawMap(offers: seq<Offer>, info: KernelPhysInfo, dtb: Option<Blob>, board: Board): seq<Region> {
    AddedAll(AddedAll([], offers), BootOffers(info, dtb, board))
  }

  function BlobOf(dtbPa: u64, mem: Fdt.Bytes): Option<Blob>
    requires DtbRegions.Readable(mem)
  {
    if dtbPa == 0 || !DtbRegions.IsFdt(mem) then None else Some(Blob(dtbPa, DtbRegions.ReadHeader(mem).totalSize))
  }

  /** The raw map of a boot. */
  ghost function BootRaw(dtbPa: u64, mem: Fdt.Bytes, info: KernelPhysInfo, board: Board): seq<Region>
    requires DtbRegions.Readable(mem)
  {
    RawMap(DtbRegions.ParsedRegions(dtbPa, mem).offers, info, BlobOf(dtbPa, mem), board)
  }

  /** Everything offered at a boot, by the tree, the kernel and the board. */
  ghost function BootOffered(dtbPa: u64, mem: Fdt.Bytes, info: KernelPhysInfo, board: Board): seq<Offer>
    requires DtbRegions.Readable(mem)
  {
    DtbRegions.ParsedRegions(dtbPa, mem).offers + BootOffers(info, BlobOf(dtbPa, mem), board)
  }

  lemma {:induction false} RawMapOfOffers(offers: seq<Offer>, info: KernelPhysInfo, dtb: Option<Blob>, board: Board)
    ensures RawMap(offers, info, dtb, board) == AddedAll([], offers + BootOffers(info, dtb, board))
  {
    AddedAllConcat([], offers, BootOffers(info, dtb, board));
  }

  /** The map of a boot, the end of its window, and whether an allocator starts: exactly when the bitmap fits. */
  ghost predicate BootMap(raw: seq<Region>, info: KernelPhysInfo, m: seq<Region>, end: u64, started: bool) {
    var start := AlignUp(info.kernelEnd, PAGE_SIZE);
    IsNormalised(raw, m) && WindowEnd(m, start, end) && (started <==> BitmapFits(m, start, end))
  }

  /** The blob's regions in a new table. */
  method ParseBlob(dtbPa: u64, mem: Fdt.Bytes)
    returns (table: MemoryMap, panicked: bool, dtb: Option<Blob>, ghost offers: seq<Offer>)
    requires DtbRegions.Readable(mem)
    ensures fresh(table) && fresh(table.regions) && table.Valid() && table.View() == AddedAll([], offers)
    ensures DtbRegions.ParsedRegions(dtbPa, mem) == DtbRegions.Outcome(offers, panicked)
    ensures !panicked ==> dtb == BlobOf(dtbPa, mem)
  {
    table := new MemoryMap();
    var total;
    total, panicked, offers := DtbRegions.Parse(dtbPa, mem, table);
    dtb := if !panicked && total.Some? then Some(Blob(dtbPa, total.value)) else None;
  }

  /** The extra window: on the Raspberry Pi 5, the block that holds the console found in the tree. */
  function ConsoleBase(board: Board, console: Option<DtbPath.UartInfo>): u64 {
    if board == Rpi5 && console.Some? then AlignDown(console.value.addr, BLOCK_SIZE) else 0
  }

  function ConsoleSize(board: Board, console: Option<DtbPath.UartInfo>): u64 {
    if board == Rpi5 && console.Some? then BLOCK_SIZE else 0
  }

  lemma {:induction false} ConsoleBlockFits(addr: u64)
    requires addr < SLOT_SIZE
    ensures AlignDown(addr, BLOCK_SIZE) <= addr < AlignDown(addr, BLOCK_SIZE) + BLOCK_SIZE <= SLOT_SIZE
  {
  }

  lemma {:induction false} ConsoleFits(board: Board, console: Option<DtbPath.UartInfo>)
    requires board == Rpi5 && console.Some? ==> console.value.addr < SLOT_SIZE
    ensures ConsoleSize(board, console) != 0 ==> ConsoleBase(board, console) + ConsoleSize(board, console) <= SLOT_SIZE
  {
  }

  /**
   A console register ends as Device memory at its own address, in both
   spaces, when it lies in the 2 MiB block of the first one.
  */
  lemma {:induction false} ConsoleIsDevice(user: Tree, kernel: Tree, m: seq<Region>, console: DtbPath.UartInfo, a: nat)
    requires console.addr < SLOT_SIZE
    requires Finished(user, kernel, m, Rpi5, ConsoleBase(Rpi5, Some(console)), ConsoleSize(Rpi5, Some(console)))
    requires console.addr <= a && a / BLOCK_SIZE == console.addr / BLOCK_SIZE
    ensures Translate(user, kernel, PhysToVirt(a)) == Translate(user, kernel, a) == Mapped(a, DEVICE)
  {
    ConsoleBlockFits(console.addr);
    DeviceWindowsEndAsDevice(user, kernel, m, AlignDown(console.addr, BLOCK_SIZE), BLOCK_SIZE, a);
  }

  /** Both address spaces, the console's block included. */
  method MapMemory(m: seq<Region>, board: Board, kernel: PageTables, user: PageTables,
        console: Option<DtbPath.UartInfo>, ghost raw: seq<Region>)
    requires kernel.Valid() && user.Valid() && Separate(kernel, user) && IsNormalised(raw, m) && BelowSlot(raw)
    requires board == Rpi5 && console.Some? ==> console.value.addr < SLOT_SIZE
    modifies kernel`nextL2, kernel.l0, kernel.l1, kernel.pool, user`nextL2, user.l0, user.l1, user.pool
    ensures Finished(user.View(), kernel.View(), m, board, ConsoleBase(board, console), ConsoleSize(board, console))
  {
    NormalisedFits(raw, m, board);
    ConsoleFits(board, console);
    var base, size := ConsoleBase(board, console), ConsoleSize(board, console);
    AddressSpace.Init(kernel, user, m, board, base, size);
  }

  /** The map from the parsed regions, the kernel and the board, and the frame allocator on it. */
  method StartMemory(table: MemoryMap, ghost offers: seq<Offer>, info: KernelPhysInfo, dtb: Option<Blob>, board: Board)
    returns (stopped: bool, m: seq<Region>, frames: Option<FrameAllocator>, ghost end: u64, ghost lo: u64,
        ghost hi: u64)
    requires table.Valid() && table.View() == AddedAll([], offers) && BelowSlot(RawMap(offers, info, dtb, board))
    modifies table, table.regions
    ensures BootMap(RawMap(offers, info, dtb, board), info, m, end, frames.Some?) == true
    ensures stopped <==> NoUsable(m)
    ensures frames.Some? ==> !stopped && Started(m, AlignUp(info.kernelEnd, PAGE_SIZE), frames.value, lo, hi) == true
    ensures frames.Some? ==> fresh(frames.value) && fresh(frames.value.bitmap)
  {
    BelowSlotStartsEarly(RawMap(offers, info, dtb, board));
    var norm;
    norm, stopped, frames, end, lo, hi := InitMemory(table, info, dtb, board);
    m := norm.regions[..norm.len];
    StoppedHasNoFrames(RawMap(offers, info, dtb, board), info, m, end, frames.Some?);
  }

  /** The bitmap is none of the tables. */
  ghost predicate BesideTables(f: FrameAllocator, tables: PageTables)
    reads tables
  {
    var bitmap: object := f.bitmap;
    bitmap != tables.l0 && bitmap != tables.l1 && bitmap != tables.pool
  }

  /**
   From the parsed regions to running memory management. A map without usable
   RAM ends it; otherwise both address spaces are built, and frames is None
   when the bitmap did not fit the boot window.
  */
  method BootParsed(table: MemoryMap, ghost offers: seq<Offer>, info: KernelPhysInfo, dtb: Option<Blob>, board: Board,
        kernel: PageTables, user: PageTables, console: Option<DtbPath.UartInfo>)
    returns (frames: Option<FrameAllocator>, ghost m: seq<Region>, ghost end: u64, ghost lo: u64, ghost hi: u64)
    requires table.Valid() && table.View() == AddedAll([], offers) && BelowSlot(RawMap(offers, info, dtb, board))
    requires kernel.Valid() && user.Valid() && Separate(kernel, user)
    requires board == Rpi5 && console.Some? ==> console.value.addr < SLOT_SIZE
    modifies table, table.regions
    modifies kernel`nextL2, kernel.l0, kernel.l1, kernel.pool, user`nextL2, user.l0, user.l1, user.pool
    ensures BootMap(RawMap(offers, info, dtb, board), info, m, end, frames.Some?) == true
    ensures !NoUsable(m) ==>
      Finished(user.View(), kernel.View(), m, board, ConsoleBase(board, console), ConsoleSize(board, console)) == true
    ensures frames.Some? ==>
      !NoUsable(m) && Started(m, AlignUp(info.kernelEnd, PAGE_SIZE), frames.value, lo, hi) == true
    ensures frames.Some? ==> fresh(frames.value) && fresh(frames.value.bitmap)
    ensures frames.Some? ==> BesideTables(frames.value, kernel) && BesideTables(frames.value, user)
  {
    var stopped, map0;
    stopped, map0, frames, end, lo, hi := StartMemory(table, offers, info, dtb, board);
    m := map0;
    if stopped {
      return;
    }
    assert frames.Some? ==> BesideTables(frames.value, kernel) && BesideTables(frames.value, user);
    MapMemory(map0, board, kernel, user, console, RawMap(offers, info, dtb, board));
  }

  /** From the device tree blob; a parser panic ends it as well. */
  method BootMemory(dtbPa: u64, mem: Fdt.Bytes, info: KernelPhysInfo, board: Board, kernel: PageTables,
        user: PageTables, console: Option<DtbPath.UartInfo>)
    returns (panicked: bool, frames: Option<FrameAllocator>, ghost m: seq<Region>, ghost end: u64, ghost lo: u64,
        ghost hi: u64)
    requires DtbRegions.Readable(mem) && kernel.Valid() && user.Valid() && Separate(kernel, user)
    requires BelowSlot(BootRaw(dtbPa, mem, info, board))
    requires board == Rpi5 && console.Some? ==> console.value.addr < SLOT_SIZE
    modifies kernel`nextL2, kernel.l0, kernel.l1, kernel.pool, user`nextL2, user.l0, user.l1, user.pool
    ensures panicked == DtbRegions.ParsedRegions(dtbPa, mem).panicked && (panicked ==> frames.None?)
    ensures !panicked ==> BootMap(BootRaw(dtbPa, mem, info, board), info, m, end, frames.Some?) == true
    ensures !panicked && !NoUsable(m) ==>
      Finished(user.View(), kernel.View(), m, board, ConsoleBase(board, console), ConsoleSize(board, console)) == true
    ensures frames.Some? ==>
      !NoUsable(m) && Started(m, AlignUp(info.kernelEnd, PAGE_SIZE), frames.value, lo, hi) == true
    ensures frames.Some? ==> fresh(frames.value) && fresh(frames.value.bitmap)
  {
    frames, m, end, lo, hi := None, [], 0, 0, 0;
    var table, dtb;
    ghost var offers;
    table, panicked, dtb, offers := ParseBlob(dtbPa, mem);
    if !panicked {
      frames, m, end, lo, hi := BootParsed(table, offers, info, dtb, board, kernel, user, console);
    }
  }

  lemma {:induction false} StoppedHasNoFrames(raw: seq<Region>, info: KernelPhysInfo, m: seq<Region>, end: u64,
        started: bool)
    requires BelowSlot(raw) && BootMap(raw, info, m, end, started)
    ensures NoUsable(m) ==> !started
  {
    BelowSlotStartsEarly(raw);
    NormalisedFacts(raw, m);
    WindowEndIsUsable(m, AlignUp(info.kernelEnd, PAGE_SIZE), end);
  }

  lemma {:induction false} NormalisedFits(raw: seq<Region>, m: seq<Region>, board: Board)
    requires IsNormalised(raw, m) && BelowSlot(raw)
    ensures MapFits(m, board)
  {
    BelowSlotStartsEarly(raw);
    NormalisedFacts(raw, m);
    SoundMapFits(raw, m, board);
  }

  lemma {:induction false} BelowSlotStartsEarly(raw: seq<Region>)
    requires BelowSlot(raw)
    ensures NoLateStart(raw)
  {
  }

  /**
   End to end, across the map, the boot allocator, the bitmap and the page
   tables. After boot, and after any allocations and frees of held frames, a
   frame just handed out is usable RAM by every region that the table holds,
   is nobody else's, and every byte of it is reached through the kernel's
   physical map. On the Raspberry Pi 5 the last part needs the frame to end
   within the first 1 GiB of its region.
  */
  lemma {:induction false} HandedOutFramesAreSafeAndMapped(raw: seq<Region>, m: seq<Region>, user: Tree, kernel: Tree,
        board: Board, extraBase: u64, extraSize: u64, lo: u64, hi: u64, count: nat, l: Ledger, frame: nat, i: nat)
    requires IsNormalised(raw, m) && BelowSlot(raw) && hi <= TWO64 - PAGE_SIZE
    requires Finished(user, kernel, m, board, extraBase, extraSize)
    requires l.Valid(count) && StartsWith(m, lo, hi, count, l.Initial())
    requires l.Entry? && l.request.Alloc? && l.request.result.Some?
    requires frame in FrameRange(l.request.result.value, l.request.pages)
    requires i < |m| && m[i].kind == UsableRam && m[i].start <= frame * PAGE_SIZE && (frame + 1) * PAGE_SIZE <= m[i].end
    requires board == Rpi5 ==> (frame + 1) * PAGE_SIZE <= m[i].start + RAM_CAP
    ensures SafeFrame(raw, lo, hi, frame) && frame !in l.before.Held()
    ensures forall a: nat :: frame * PAGE_SIZE <= a < (frame + 1) * PAGE_SIZE ==>
      var k := Translate(user, kernel, PhysToVirt(a)); k.Mapped? && k.pa == a
  {
    BelowSlotStartsEarly(raw);
    HandedOutFramesAreSafe(raw, m, lo, hi, count, l, frame);
    RegionBelowSlot(raw, m, i);
    FrameIsMapped(m, user, kernel, board, extraBase, extraSize, frame, i);
  }

  lemma {:induction false} RegionBelowSlot(raw: seq<Region>, m: seq<Region>, i: nat)
    requires IsNormalised(raw, m) && BelowSlot(raw) && i < |m| && m[i].start < m[i].end
    ensures m[i].end <= SLOT_SIZE
  {
    BelowSlotStartsEarly(raw);
    NormalisedFacts(raw, m);
    EndIsBelowSlot(raw, m, i);
  }

  lemma {:induction false} FrameIsMapped(m: seq<Region>, user: Tree, kernel: Tree, board: Board, extraBase: u64,
        extraSize: u64, frame: nat, i: nat)
    requires Finished(user, kernel, m, board, extraBase, extraSize)
    requires i < |m| && m[i].kind == UsableRam && m[i].start <= frame * PAGE_SIZE &&
      (frame + 1) * PAGE_SIZE <= m[i].end <= SLOT_SIZE
    requires board == Rpi5 ==> (frame + 1) * PAGE_SIZE <= m[i].start + RAM_CAP
    ensures forall a: nat :: frame * PAGE_SIZE <= a < (frame + 1) * PAGE_SIZE ==>
      var k := Translate(user, kernel, PhysToVirt(a)); k.Mapped? && k.pa == a
  {
    forall a: nat | frame * PAGE_SIZE <= a < (frame + 1) * PAGE_SIZE
      ensures var k := Translate(user, kernel, PhysToVirt(a)); k.Mapped? && k.pa == a
    {
      UsablePageIsReachable(user, kernel, m, board, extraBase, extraSize, i, frame, a);
    }
  }

  /** Every frame handed out does lie in one usable region of the map. */
  lemma {:induction false} HandedOutFrameHasRegion(m: seq<Region>, lo: u64, hi: u64, count: nat, l: Ledger, frame: nat)
    returns (i: nat)
    requires l.Valid(count) && StartsWith(m, lo, hi, count, l.Initial())
    requires l.Entry? && l.request.Alloc? && l.request.result.Some?
    requires frame in FrameRange(l.request.result.value, l.request.pages)
    ensures i < |m| && m[i].kind == UsableRam && m[i].start <= frame * PAGE_SIZE && (frame + 1) * PAGE_SIZE <= m[i].end
  {
    HandedOutFresh(l, count, frame);
    i :| 0 <= i < |m| && m[i].kind == UsableRam && m[i].start <= frame * PAGE_SIZE &&
      (frame + 1) * PAGE_SIZE <= m[i].end;
  }

  // ---- Boot, then any requests ---------------------------------------------

  /**
   The outcome of a boot: the raw regions, the map, both address spaces with
   their extra window, and what the bitmap takes.
  */
  datatype Booted = Booted(raw: seq<Region>, m: seq<Region>, user: Tree, kernel: Tree, board: Board, extraBase: u64,
    extraSize: u64, lo: u64, hi: u64)

  ghost predicate Complete(b: Booted) {
    && IsNormalised(b.raw, b.m) && BelowSlot(b.raw) && b.hi <= TWO64 - PAGE_SIZE
    && Finished(b.user, b.kernel, b.m, b.board, b.extraBase, b.extraSize)
  }

  /** The kernel reaches the frame's bytes at their own addresses. */
  ghost predicate FrameMapped(b: Booted, frame: nat) {
    && Placed(b.user) && Placed(b.kernel) && (frame + 1) * PAGE_SIZE <= SLOT_SIZE
    && forall a: nat :: frame * PAGE_SIZE <= a < (frame + 1) * PAGE_SIZE ==>
         var k := Translate(b.user, b.kernel, PhysToVirt(a)); k.Mapped? && k.pa == a
  }

  /** The frame lies in a usable region, on the Raspberry Pi 5 within the first 1 GiB of it. */
  predicate InMappedPart(r: Region, board: Board, frame: nat) {
    && r.kind == UsableRam && r.start <= frame * PAGE_SIZE && (frame + 1) * PAGE_SIZE <= r.end
    && (board == Rpi5 ==> (frame + 1) * PAGE_SIZE <= r.start + RAM_CAP)
  }

  ghost predicate WithinCap(m: seq<Region>, board: Board, frame: nat) {
    exists i :: 0 <= i < |m| && InMappedPart(m[i], board, frame)
  }

  lemma {:induction false} OnlyTheRaspberryPiCaps(m: seq<Region>, frame: nat)
    ensures WithinCap(m, Qemu, frame) <==> UsablePage(m, frame)
  {
    assert forall r :: 0 <= r < |m| ==>
      (InMappedPart(m[r], Qemu, frame) <==>
       m[r].kind == UsableRam && m[r].start <= frame * PAGE_SIZE && (frame + 1) * PAGE_SIZE <= m[r].end);
  }

  /** The block that holds a frame. */
  function BlockOf(frame: nat): nat { frame * PAGE_SIZE / BLOCK_SIZE }

  lemma {:induction false} FrameInBlock(frame: nat, a: nat)
    requires frame * PAGE_SIZE <= a < (frame + 1) * PAGE_SIZE
    ensures a / BLOCK_SIZE == BlockOf(frame)
  {
    var q, r := frame / 512, frame % 512;
    DivMod(frame * PAGE_SIZE, BLOCK_SIZE, q, r * PAGE_SIZE);
    DivMod(a, BLOCK_SIZE, q, a - BLOCK_SIZE * q);
  }

  /** The kernel reaches a frame exactly when its block is mapped. */
  lemma {:induction false} FrameMappedExactly(b: Booted, frame: nat)
    requires Complete(b) && (frame + 1) * PAGE_SIZE <= SLOT_SIZE
    ensures FrameMapped(b, frame) <==> BlockMapped(b.m, b.board, b.extraBase, b.extraSize, BlockOf(frame))
  {
    forall a: nat | frame * PAGE_SIZE <= a < (frame + 1) * PAGE_SIZE
      ensures var k := Translate(b.user, b.kernel, PhysToVirt(a));
        && (k.Mapped? <==> BlockMapped(b.m, b.board, b.extraBase, b.extraSize, BlockOf(frame)))
        && (k.Mapped? ==> k.pa == a)
    {
      FrameInBlock(frame, a);
      MappedExactly(b.user, b.kernel, b.m, b.board, b.extraBase, b.extraSize, a);
    }
    if FrameMapped(b, frame) {
      assert Translate(b.user, b.kernel, PhysToVirt(frame * PAGE_SIZE)).Mapped?;
    }
  }

  /** What boot promises about a frame when it is handed out. */
  ghost predicate GoodFrame(b: Booted, before: Ledger, frame: nat) {
    && SafeFrame(b.raw, b.lo, b.hi, frame) && UsablePage(b.m, frame) && frame !in before.Held()
    && (FrameMapped(b, frame) <==> BlockMapped(b.m, b.board, b.extraBase, b.extraSize, BlockOf(frame)))
    && (WithinCap(b.m, b.board, frame) ==> FrameMapped(b, frame))
  }

  /** Every frame the ledger hands out is a good one. */
  ghost predicate HandsOutSafely(b: Booted, l: Ledger) {
    l.Entry? ==>
      && HandsOutSafely(b, l.before)
      && (l.request.Alloc? && l.request.result.Some? ==>
            forall frame :: frame in FrameRange(l.request.result.value, l.request.pages) ==>
              GoodFrame(b, l.before, frame))
  }

  lemma {:induction false} LedgerIsSafe(b: Booted, count: nat, l: Ledger)
    requires Complete(b) && l.Valid(count) && StartsWith(b.m, b.lo, b.hi, count, l.Initial())
    ensures HandsOutSafely(b, l)
    decreases l
  {
    if l.Entry? {
      LedgerIsSafe(b, count, l.before);
      if l.request.Alloc? && l.request.result.Some? {
        forall frame | frame in FrameRange(l.request.result.value, l.request.pages)
          ensures GoodFrame(b, l.before, frame)
        {
          HandOutIsGood(b, count, l, frame);
        }
      }
    }
  }

  lemma {:induction false} HandOutIsGood(b: Booted, count: nat, l: Ledger, frame: nat)
    requires Complete(b) && l.Valid(count) && StartsWith(b.m, b.lo, b.hi, count, l.Initial())
    requires l.Entry? && l.request.Alloc? && l.request.result.Some?
    requires frame in FrameRange(l.request.result.value, l.request.pages)
    ensures GoodFrame(b, l.before, frame)
  {
    BelowSlotStartsEarly(b.raw);
    HandedOutFramesAreSafe(b.raw, b.m, b.lo, b.hi, count, l, frame);
    var i := HandedOutFrameHasRegion(b.m, b.lo, b.hi, count, l, frame);
    RegionBelowSlot(b.raw, b.m, i);
    FrameMappedExactly(b, frame);
    MappedWithinCap(b, frame);
  }

  lemma {:induction false} MappedWithinCap(b: Booted, frame: nat)
    requires Complete(b)
    ensures WithinCap(b.m, b.board, frame) ==> FrameMapped(b, frame)
  {
    if i :| 0 <= i < |b.m| && InMappedPart(b.m[i], b.board, frame) {
      RegionBelowSlot(b.raw, b.m, i);
      FrameIsMapped(b.m, b.user, b.kernel, b.board, b.extraBase, b.extraSize, frame, i);
    }
  }

  /**
   The allocator reads its bitmap at its physical address. Where the window
   starts in usable RAM every byte of it is reached there, on the Raspberry Pi
   5 if it ends within the first 1 GiB of its region; in general a byte is
   reached exactly when its block is mapped (AddressMap.MappedExactly).
  */
  lemma {:induction false} BitmapIsReached(b: Booted, end: u64, i: nat, a: nat)
    requires Complete(b) && i < |b.m| && FirstHolding(b.m, i, b.lo) && b.m[i].end == end && BitmapFits(b.m, b.lo, end)
    requires b.board == Rpi5 ==> b.lo + BitmapBytes(b.m) <= b.m[i].start + RAM_CAP
    requires b.lo <= a < b.lo + BitmapBytes(b.m)
    ensures a < SLOT_SIZE && Translate(b.user, b.kernel, a).Mapped? && Translate(b.user, b.kernel, a).pa == a
  {
    RegionBelowSlot(b.raw, b.m, i);
    UsableByteIsReachable(b.user, b.kernel, b.m, b.board, b.extraBase, b.extraSize, i, a);
  }

  /** The boot window holds the bitmap. */
  ghost predicate HasRoom(info: KernelPhysInfo, m: seq<Region>) {
    exists end ::
      WindowEnd(m, AlignUp(info.kernelEnd, PAGE_SIZE), end) && BitmapFits(m, AlignUp(info.kernelEnd, PAGE_SIZE), end)
  }

  lemma {:induction false} NoOtherWindow(raw: seq<Region>, info: KernelPhysInfo, m: seq<Region>, end: u64)
    requires BootMap(raw, info, m, end, false) == true
    ensures !HasRoom(info, m)
  {
    var start := AlignUp(info.kernelEnd, PAGE_SIZE);
    if e :| WindowEnd(m, start, e) && BitmapFits(m, start, e) {
      WindowEndIsUnique(m, start, end, e);
    }
  }

  /** Every byte of a frame that the ledger hands out was offered as usable RAM and as nothing else. */
  ghost predicate HandsOutPlainRam(offers: seq<Offer>, l: Ledger) {
    l.Entry? ==>
      && HandsOutPlainRam(offers, l.before)
      && (l.request.Alloc? && l.request.result.Some? ==>
            forall frame :: frame in FrameRange(l.request.result.value, l.request.pages) ==> PlainFrame(offers, frame))
  }

  ghost predicate PlainFrame(offers: seq<Offer>, frame: nat) {
    forall a: nat :: frame * PAGE_SIZE <= a < (frame + 1) * PAGE_SIZE ==> PlainRam(offers, a)
  }

  lemma {:induction false} SafeFrameIsPlain(offers: seq<Offer>, lo: u64, hi: u64, frame: nat)
    requires |NonEmpty(offers)| <= MAX_REGIONS && SafeFrame(AddedAll([], offers), lo, hi, frame)
    ensures PlainFrame(offers, frame)
  {
    forall a: nat | frame * PAGE_SIZE <= a < (frame + 1) * PAGE_SIZE
      ensures PlainRam(offers, a)
    {
      UsableIsPlainRam(offers, a);
    }
  }

  lemma {:induction false} SafelyIsPlain(offers: seq<Offer>, b: Booted, l: Ledger)
    requires |NonEmpty(offers)| <= MAX_REGIONS && b.raw == AddedAll([], offers) && HandsOutSafely(b, l)
    ensures HandsOutPlainRam(offers, l)
    decreases l
  {
    if l.Entry? {
      SafelyIsPlain(offers, b, l.before);
      if l.request.Alloc? && l.request.result.Some? {
        forall frame | frame in FrameRange(l.request.result.value, l.request.pages)
          ensures PlainFrame(offers, frame)
        {
          assert GoodFrame(b, l.before, frame);
          SafeFrameIsPlain(offers, b.lo, b.hi, frame);
        }
      }
    }
  }

  /** What a boot promises of the answers to some asks. */
  ghost predicate ServedSafely(offers: seq<Offer>, b: Booted, count: nat, asks: seq<Ask>, l: Ledger) {
    && Complete(b) && b.raw == AddedAll([], offers)
    && Answers(l, asks) && l.Valid(count) && StartsWith(b.m, b.lo, b.hi, count, l.Initial())
    && HandsOutSafely(b, l) && (|NonEmpty(offers)| <= MAX_REGIONS ==> HandsOutPlainRam(offers, l))
  }

  /** Any asks to an allocator that has been started on the map, with both address spaces complete. */
  method ServeSafely(f: FrameAllocator, asks: seq<Ask>, ghost offers: seq<Offer>, ghost start: u64, ghost b: Booted)
    returns (ghost l: Ledger)
    requires Started(b.m, start, f, b.lo, b.hi) == true && Complete(b) == true && b.raw == AddedAll([], offers)
    modifies f.bitmap
    ensures ServedSafely(offers, b, f.frameCount, asks, l) == true
  {
    l := f.ServeAll(asks);
    LedgerIsSafe(b, f.frameCount, l);
    if |NonEmpty(offers)| <= MAX_REGIONS {
      SafelyIsPlain(offers, b, l);
    }
  }

  /** Serving them leaves the page tables alone. */
  method ServeBesideTables(f: FrameAllocator, asks: seq<Ask>, ghost offers: seq<Offer>, ghost start: u64,
        ghost b: Booted, ghost kernel: PageTables, ghost user: PageTables)
    returns (ghost l: Ledger)
    requires Started(b.m, start, f, b.lo, b.hi) == true && Complete(b) == true && b.raw == AddedAll([], offers)
    requires BesideTables(f, kernel) && BesideTables(f, user)
    modifies f.bitmap
    ensures user.View() == old(user.View()) && kernel.View() == old(kernel.View())
    ensures ServedSafely(offers, b, f.frameCount, asks, l) == true
  {
    l := ServeSafely(f, asks, offers, start, b);
  }

  lemma {:induction false} BootIsComplete(b: Booted, info: KernelPhysInfo, end: u64, start: u64, f: FrameAllocator)
    requires BootMap(b.raw, info, b.m, end, true) == true && BelowSlot(b.raw) &&
      Started(b.m, start, f, b.lo, b.hi) == true
    requires Finished(b.user, b.kernel, b.m, b.board, b.extraBase, b.extraSize) == true
    ensures Complete(b) == true && b.lo == start && b.hi == b.lo + BitmapBytes(b.m)
  {
  }

  /** What a boot's outcome has to do with what it was given and what it left in memory. */
  ghost predicate Describes(b: Booted, info: KernelPhysInfo, board: Board, kernel: PageTables, user: PageTables,
        console: Option<DtbPath.UartInfo>)
    reads kernel, kernel.l0, kernel.l1, kernel.pool, user, user.l0, user.l1, user.pool
  {
    && b.user == user.View() && b.kernel == kernel.View() && b.board == board
    && b.extraBase == ConsoleBase(board, console) && b.extraSize == ConsoleSize(board, console)
    && b.lo == AlignUp(info.kernelEnd, PAGE_SIZE) && b.hi == b.lo + BitmapBytes(b.m)
  }

  /** From the parsed regions: boot, then answer any sequence of asks. */
  method ServeParsed(table: MemoryMap, ghost offers: seq<Offer>, info: KernelPhysInfo, dtb: Option<Blob>, board: Board,
        kernel: PageTables, user: PageTables, console: Option<DtbPath.UartInfo>, asks: seq<Ask>)
    returns (frames: Option<FrameAllocator>, ghost b: Booted, ghost l: Ledger)
    requires table.Valid() && table.View() == AddedAll([], offers) && BelowSlot(RawMap(offers, info, dtb, board))
    requires kernel.Valid() && user.Valid() && Separate(kernel, user)
    requires board == Rpi5 && console.Some? ==> console.value.addr < SLOT_SIZE
    modifies table, table.regions
    modifies kernel`nextL2, kernel.l0, kernel.l1, kernel.pool, user`nextL2, user.l0, user.l1, user.pool
    ensures frames.Some? ==> Describes(b, info, board, kernel, user, console) == true
    ensures frames.Some? ==>
      ServedSafely(offers + BootOffers(info, dtb, board), b, frames.value.frameCount, asks, l) == true
    ensures frames.None? <==> !HasRoom(info, b.m)
  {
    ghost var m, end, lo, hi;
    frames, m, end, lo, hi := BootParsed(table, offers, info, dtb, board, kernel, user, console);
    ghost var raw := RawMap(offers, info, dtb, board);
    b := Booted(raw, m, user.View(), kernel.View(), board, ConsoleBase(board, console), ConsoleSize(board, console),
      lo, hi);
    l := Opened({});
    if frames.Some? {
      RawMapOfOffers(offers, info, dtb, board);
      BootIsComplete(b, info, end, AlignUp(info.kernelEnd, PAGE_SIZE), frames.value);
      l := ServeBesideTables(frames.value, asks, offers + BootOffers(info, dtb, board),
        AlignUp(info.kernelEnd, PAGE_SIZE), b,
        kernel, user);
    } else {
      NoOtherWindow(raw, info, m, end);
    }
  }

  /**
   Memory management as a whole: boot from the blob, then answer any sequence
   of asks. Every frame ever handed out is usable RAM by every region that the
   table holds, clear of the bitmap and held by nobody else. When the tree, the
   kernel and the board offer no more than 128 non-empty regions, it meets
   nothing that any of them offered as anything else. The kernel reaches it
   exactly when its block is mapped, as it is where its region is not capped.
  */
  method BootAndServe(dtbPa: u64, mem: Fdt.Bytes, info: KernelPhysInfo, board: Board, kernel: PageTables,
        user: PageTables, console: Option<DtbPath.UartInfo>, asks: seq<Ask>)
    returns (frames: Option<FrameAllocator>, ghost b: Booted, ghost l: Ledger)
    requires DtbRegions.Readable(mem) && kernel.Valid() && user.Valid() && Separate(kernel, user)
    requires BelowSlot(BootRaw(dtbPa, mem, info, board))
    requires board == Rpi5 && console.Some? ==> console.value.addr < SLOT_SIZE
    modifies kernel`nextL2, kernel.l0, kernel.l1, kernel.pool, user`nextL2, user.l0, user.l1, user.pool
    ensures frames.Some? ==> Describes(b, info, board, kernel, user, console) == true
    ensures frames.Some? ==>
      ServedSafely(BootOffered(dtbPa, mem, info, board), b, frames.value.frameCount, asks, l) == true
    ensures frames.None? <==> DtbRegions.ParsedRegions(dtbPa, mem).panicked || !HasRoom(info, b.m)
  {
    var table, panicked, dtb;
    ghost var offers;
    table, panicked, dtb, offers := ParseBlob(dtbPa, mem);
    if panicked {
      frames, l := None, Opened({});
      b := Booted([], [], user.View(), kernel.View(), board, 0, 0, 0, 0);
    } else {
      frames, b, l := ServeParsed(table, offers, info, dtb, board, kernel, user, console, asks);
    }
  }
}
