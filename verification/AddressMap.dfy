/**
 What the finished address spaces contain: RAM at its own addresses, device
 windows as Device memory, and which addresses user code can reach.
*/
module AddressMap {
  import opened Machine
  import opened Wrappers
  import opened Layout
  import opened RegionModel
  import opened Boot
  import opened Descriptors
  import opened PagingModel
  import opened Paging
  import opened AddressSpace

  lemma {:induction false} LastCallConcat(xs: seq<Call>, ys: seq<Call>, b: nat)
    ensures LastCall(xs + ys, b) == if LastCall(ys, b).Some? then LastCall(ys, b) else LastCall(xs, b)
  {
    if ys == [] {
      assert xs + ys == xs;
    } else {
      assert (xs + ys)[..|xs + ys| - 1] == xs + ys[..|ys| - 1];
      LastCallConcat(xs, ys[..|ys| - 1], b);
    }
  }

  /** The finished trees of a map: every call of paging::init has been made. */
  ghost predicate Finished(user: Tree, kernel: Tree, m: seq<Region>, board: Board, extraBase: u64, extraSize: u64) {
    && Built(user, USER_SLOT, AllCalls(m, board, AP_EL0_RW, extraBase, extraSize))
    && Built(kernel, KERNEL_SLOT, AllCalls(m, board, AP_EL1_RW, extraBase, extraSize))
  }

  // ---- RAM -----------------------------------------------------------------

  lemma {:induction false} RegionIsTouched(m: seq<Region>, i: nat, board: Board, ap: Field2, extraBase: u64,
        extraSize: u64, a: nat)
    requires i < |m| && m[i].kind != Mmio && m[i].start <= a < m[i].start + RamSize(m[i], board)
    ensures LastCall(AllCalls(m, board, ap, extraBase, extraSize), a / BLOCK_SIZE).Some?
  {
    var ram, all := RamCalls(m, |m|, board, ap), AllCalls(m, board, ap, extraBase, extraSize);
    var k := RamCallsContain(m, |m|, i, board, ap);
    assert all[k] == ram[k];
    TouchesOwnBytes(ram[k], a);
    LastCallIs(all, a / BLOCK_SIZE);
  }

  lemma {:induction false} TouchesOwnBytes(c: Call, a: nat)
    requires c.start <= a < c.start + c.size
    ensures Touches(c, a / BLOCK_SIZE)
  {
  }

  /**
   Every address of a region that is not MMIO, within the 1 GiB that the
   Raspberry Pi 5 build maps of usable RAM, is mapped in both address spaces,
   to itself.
  */
  lemma {:induction false} RamIsIdentityMapped(user: Tree, kernel: Tree, m: seq<Region>, board: Board, extraBase: u64,
        extraSize: u64, i: nat, a: nat)
    requires Finished(user, kernel, m, board, extraBase, extraSize)
    requires i < |m| && m[i].kind != Mmio && m[i].start <= a < m[i].start + RamSize(m[i], board) && a < SLOT_SIZE
    ensures var k, u := Translate(user, kernel, PhysToVirt(a)), Translate(user, kernel, a);
      k.Mapped? && u.Mapped? && k.pa == u.pa == a
  {
    RegionIsTouched(m, i, board, AP_EL1_RW, extraBase, extraSize, a);
    RegionIsTouched(m, i, board, AP_EL0_RW, extraBase, extraSize, a);
    BothSpacesAreIdentity(user, kernel, AllCalls(m, board, AP_EL0_RW, extraBase, extraSize),
      AllCalls(m, board, AP_EL1_RW, extraBase, extraSize), a);
  }

  /**
   Where no device window reaches, RAM ends as Normal memory: for the kernel
   alone in one space, for user code too in the other.
  */
  lemma {:induction false} RamEndsAsNormalMemory(user: Tree, kernel: Tree, m: seq<Region>, board: Board, extraBase: u64,
        extraSize: u64, i: nat, a: nat)
    requires Finished(user, kernel, m, board, extraBase, extraSize)
    requires i < |m| && m[i].kind != Mmio && m[i].start <= a < m[i].start + RamSize(m[i], board) && a < SLOT_SIZE
    requires LastCall(MmioCalls(board, extraBase, extraSize), a / BLOCK_SIZE) == None
    ensures Translate(user, kernel, PhysToVirt(a)) == Mapped(a, Attrs(ATTR_NORMAL, AP_EL1_RW, SH_INNER, false))
    ensures Translate(user, kernel, a) == Mapped(a, Attrs(ATTR_NORMAL, AP_EL0_RW, SH_INNER, false))
  {
    RamCallAt(m, i, board, AP_EL1_RW, extraBase, extraSize, a);
    RamCallAt(m, i, board, AP_EL0_RW, extraBase, extraSize, a);
    BothSpacesAreIdentity(user, kernel, AllCalls(m, board, AP_EL0_RW, extraBase, extraSize),
      AllCalls(m, board, AP_EL1_RW, extraBase, extraSize), a);
  }

  lemma {:induction false} RamCallAt(m: seq<Region>, i: nat, board: Board, ap: Field2, extraBase: u64, extraSize: u64,
        a: nat)
    requires i < |m| && m[i].kind != Mmio && m[i].start <= a < m[i].start + RamSize(m[i], board)
    requires LastCall(MmioCalls(board, extraBase, extraSize), a / BLOCK_SIZE) == None
    ensures var c := LastCall(AllCalls(m, board, ap, extraBase, extraSize), a / BLOCK_SIZE);
      c.Some? && c.value.attrs == Attrs(ATTR_NORMAL, ap, SH_INNER, false)
  {
    RegionIsTouched(m, i, board, ap, extraBase, extraSize, a);
    LastOfAll(m, board, ap, extraBase, extraSize, a / BLOCK_SIZE);
    RamHasAccess(m, |m|, board, ap, a / BLOCK_SIZE);
  }

  /** The mapped part of a region that is not MMIO reaches into block b. */
  predicate RegionTouches(r: Region, board: Board, b: nat) {
    r.kind != Mmio && Touches(Call(r.start, RamSize(r, board), DEVICE), b)
  }

  /** One of the first n regions does. */
  predicate SomeRegionTouches(m: seq<Region>, n: nat, board: Board, b: nat)
    requires n <= |m|
  {
    n > 0 && (RegionTouches(m[n - 1], board, b) || SomeRegionTouches(m, n - 1, board, b))
  }

  lemma {:induction false} SomeRegionTouchesIs(m: seq<Region>, n: nat, board: Board, b: nat)
    requires n <= |m|
    ensures SomeRegionTouches(m, n, board, b) <==> exists i :: 0 <= i < n && RegionTouches(m[i], board, b)
  {
    if n > 0 {
      SomeRegionTouchesIs(m, n - 1, board, b);
    }
  }

  lemma {:induction false} RamTouchedExactly(m: seq<Region>, n: nat, board: Board, ap: Field2, b: nat)
    requires n <= |m|
    ensures LastCall(RamCalls(m, n, board, ap), b).Some? <==> SomeRegionTouches(m, n, board, b)
  {
    if n > 0 {
      RamTouchedExactly(m, n - 1, board, ap, b);
      RamTouchedStep(m, n, board, ap, b);
    }
  }

  lemma {:induction false} RamTouchedStep(m: seq<Region>, n: nat, board: Board, ap: Field2, b: nat)
    requires 0 < n <= |m|
    ensures LastCall(RamCalls(m, n, board, ap), b).Some? <==>
      LastCall(RamCalls(m, n - 1, board, ap), b).Some? || RegionTouches(m[n - 1], board, b)
  {
    LastCallConcat(RamCalls(m, n - 1, board, ap), RegionCalls(m[n - 1], board, ap), b);
    RegionCallTouches(m[n - 1], board, ap, b);
  }

  lemma {:induction false} RegionCallTouches(r: Region, board: Board, ap: Field2, b: nat)
    ensures LastCall(RegionCalls(r, board, ap), b).Some? <==> RegionTouches(r, board, b)
  {
    var calls := RegionCalls(r, board, ap);
    if calls != [] {
      assert Touches(calls[0], b) <==> RegionTouches(r, board, b);
    }
  }

  /** The mapped part of some region other than MMIO, or a device window, reaches into block b. */
  predicate BlockMapped(m: seq<Region>, board: Board, extraBase: u64, extraSize: u64, b: nat) {
    SomeRegionTouches(m, |m|, board, b) || LastCall(MmioCalls(board, extraBase, extraSize), b).Some?
  }

  lemma {:induction false} BlockHasCall(m: seq<Region>, board: Board, ap: Field2, extraBase: u64, extraSize: u64,
        b: nat)
    ensures LastCall(AllCalls(m, board, ap, extraBase, extraSize), b).Some? <==>
      BlockMapped(m, board, extraBase, extraSize, b)
  {
    RamTouchedExactly(m, |m|, board, ap, b);
    LastOfAll(m, board, ap, extraBase, extraSize, b);
  }

  /**
   Below 512 GiB both spaces hold exactly the mapped blocks, each address at
   itself; all else faults.
  */
  lemma {:induction false} MappedExactly(user: Tree, kernel: Tree, m: seq<Region>, board: Board, extraBase: u64,
        extraSize: u64, a: nat)
    requires Finished(user, kernel, m, board, extraBase, extraSize) && a < SLOT_SIZE
    ensures var k, u := Translate(user, kernel, PhysToVirt(a)), Translate(user, kernel, a);
      && (k.Mapped? <==> BlockMapped(m, board, extraBase, extraSize, a / BLOCK_SIZE))
      && (u.Mapped? <==> BlockMapped(m, board, extraBase, extraSize, a / BLOCK_SIZE))
      && (k.Mapped? ==> k.pa == u.pa == a)
  {
    BlockHasCall(m, board, AP_EL1_RW, extraBase, extraSize, a / BLOCK_SIZE);
    BlockHasCall(m, board, AP_EL0_RW, extraBase, extraSize, a / BLOCK_SIZE);
    BothSpacesAreIdentity(user, kernel, AllCalls(m, board, AP_EL0_RW, extraBase, extraSize),
      AllCalls(m, board, AP_EL1_RW, extraBase, extraSize), a);
  }

  /** A byte of usable RAM, on the Raspberry Pi 5 within the first 1 GiB of its region, is reached in both spaces. */
  lemma {:induction false} UsableByteIsReachable(user: Tree, kernel: Tree, m: seq<Region>, board: Board, extraBase: u64,
        extraSize: u64, i: nat, a: nat)
    requires Finished(user, kernel, m, board, extraBase, extraSize)
    requires i < |m| && m[i].kind == UsableRam && m[i].start <= a < m[i].end <= SLOT_SIZE
    requires board == Rpi5 ==> a < m[i].start + RAM_CAP
    ensures var k, u := Translate(user, kernel, PhysToVirt(a)), Translate(user, kernel, a);
      k.Mapped? && u.Mapped? && k.pa == u.pa == a
  {
    RamIsIdentityMapped(user, kernel, m, board, extraBase, extraSize, i, a);
  }

  /**
   A page of usable RAM, which is all the frame allocator hands out, is
   reachable by the kernel through the physical map. On the Raspberry Pi 5
   this needs the page to end within the first 1 GiB of its region.
  */
  lemma {:induction false} UsablePageIsReachable(user: Tree, kernel: Tree, m: seq<Region>, board: Board, extraBase: u64,
        extraSize: u64, i: nat, frame: nat, a: nat)
    requires Finished(user, kernel, m, board, extraBase, extraSize)
    requires i < |m| && m[i].kind == UsableRam && m[i].start <= frame * PAGE_SIZE && (frame + 1) * PAGE_SIZE <= m[i].end
    requires board == Rpi5 ==> (frame + 1) * PAGE_SIZE <= m[i].start + RAM_CAP
    requires frame * PAGE_SIZE <= a < (frame + 1) * PAGE_SIZE && a < SLOT_SIZE
    ensures var k := Translate(user, kernel, PhysToVirt(a)); k.Mapped? && k.pa == a
  {
    RamIsIdentityMapped(user, kernel, m, board, extraBase, extraSize, i, a);
  }

  // ---- Device windows ------------------------------------------------------

  /** On the Raspberry Pi 5 every call after RAM maps Device memory, so all its windows end as Device. */
  lemma {:induction false} DeviceWindowsEndAsDevice(user: Tree, kernel: Tree, m: seq<Region>, extraBase: u64,
        extraSize: u64, a: nat)
    requires Finished(user, kernel, m, Rpi5, extraBase, extraSize) && a < SLOT_SIZE
    requires SOC_BASE <= a < SOC_BASE + SOC_MMIO_SIZE || RP1_BASE <= a < RP1_BASE + RP1_SIZE ||
             extraBase <= a < extraBase + extraSize
    ensures Translate(user, kernel, PhysToVirt(a)) == Translate(user, kernel, a) == Mapped(a, DEVICE)
  {
    LastIsDevice(extraBase, extraSize, a);
    LastOfAll(m, Rpi5, AP_EL0_RW, extraBase, extraSize, a / BLOCK_SIZE);
    LastOfAll(m, Rpi5, AP_EL1_RW, extraBase, extraSize, a / BLOCK_SIZE);
    BothSpacesAreIdentity(user, kernel, AllCalls(m, Rpi5, AP_EL0_RW, extraBase, extraSize),
      AllCalls(m, Rpi5, AP_EL1_RW, extraBase, extraSize), a);
  }

  lemma {:induction false} LastOfAll(m: seq<Region>, board: Board, ap: Field2, extraBase: u64, extraSize: u64, b: nat)
    ensures var mmio := LastCall(MmioCalls(board, extraBase, extraSize), b);
      mmio.Some? ==> LastCall(AllCalls(m, board, ap, extraBase, extraSize), b) == mmio
    ensures var mmio := LastCall(MmioCalls(board, extraBase, extraSize), b);
      mmio.None? ==>
        LastCall(AllCalls(m, board, ap, extraBase, extraSize), b) == LastCall(RamCalls(m, |m|, board, ap), b)
  {
    LastCallConcat(RamCalls(m, |m|, board, ap), MmioCalls(board, extraBase, extraSize), b);
  }

  lemma {:induction false} LastIsDevice(extraBase: u64, extraSize: u64, a: nat)
    requires SOC_BASE <= a < SOC_BASE + SOC_MMIO_SIZE || RP1_BASE <= a < RP1_BASE + RP1_SIZE ||
             extraBase <= a < extraBase + extraSize
    ensures var c := LastCall(MmioCalls(Rpi5, extraBase, extraSize), a / BLOCK_SIZE); c.Some? && c.value.attrs == DEVICE
  {
    var calls := MmioCalls(Rpi5, extraBase, extraSize);
    assert forall k :: 0 <= k < |calls| ==> calls[k].attrs == DEVICE;
    assert calls[0] == Call(SOC_BASE, SOC_MMIO_SIZE, DEVICE) && calls[1] == Call(RP1_BASE, RP1_SIZE, DEVICE);
    var k := if SOC_BASE <= a < SOC_BASE + SOC_MMIO_SIZE then 0 else if RP1_BASE <= a < RP1_BASE + RP1_SIZE then 1
      else 2;
    TouchesOwnBytes(calls[k], a);
    LastCallIs(calls, a / BLOCK_SIZE);
  }

  /**
   On QEMU the last of the board's calls maps the graphics memory window as
   Normal memory over the peripherals that an earlier call mapped as Device:
   an address of the window, peripherals included, ends as Normal memory
   exactly when the extra window does not touch its block.
  */
  lemma {:induction false} QemuWindowIsNormalMemory(user: Tree, kernel: Tree, m: seq<Region>, extraBase: u64,
        extraSize: u64, a: nat)
    requires Finished(user, kernel, m, Qemu, extraBase, extraSize) && VC_BASE <= a < VC_BASE + VC_SIZE
    ensures Translate(user, kernel, PhysToVirt(a)) == Translate(user, kernel, a)
    ensures Translate(user, kernel, a) == Mapped(a, VC_MEMORY) <==>
      !Touches(Call(extraBase, extraSize, DEVICE), a / BLOCK_SIZE)
    ensures Translate(user, kernel, a) == Mapped(a, DEVICE) <==>
      Touches(Call(extraBase, extraSize, DEVICE), a / BLOCK_SIZE)
  {
    LastInWindow(extraBase, extraSize, a);
    LastOfAll(m, Qemu, AP_EL0_RW, extraBase, extraSize, a / BLOCK_SIZE);
    LastOfAll(m, Qemu, AP_EL1_RW, extraBase, extraSize, a / BLOCK_SIZE);
    BothSpacesAreIdentity(user, kernel, AllCalls(m, Qemu, AP_EL0_RW, extraBase, extraSize),
      AllCalls(m, Qemu, AP_EL1_RW, extraBase, extraSize), a);
  }

  lemma {:induction false} LastInWindow(extraBase: u64, extraSize: u64, a: nat)
    requires VC_BASE <= a < VC_BASE + VC_SIZE
    ensures var extra := Call(extraBase, extraSize, DEVICE);
      LastCall(MmioCalls(Qemu, extraBase, extraSize), a / BLOCK_SIZE) ==
        Some(if Touches(extra, a / BLOCK_SIZE) then extra else Call(VC_BASE, VC_SIZE, VC_MEMORY))
  {
    var board := BoardCalls(Qemu);
    var last := Call(VC_BASE, VC_SIZE, VC_MEMORY);
    TouchesOwnBytes(last, a);
    assert board[2] == last;
    assert LastCall(board, a / BLOCK_SIZE) == Some(last);
    var extra := if extraSize != 0 then [Call(extraBase, extraSize, DEVICE)] else [];
    LastCallConcat(board, extra, a / BLOCK_SIZE);
  }

  /** So with no extra window, as QEMU boots, all peripheral registers end as Normal memory. */
  lemma {:induction false} QemuPeripheralsAreNormalMemory(user: Tree, kernel: Tree, m: seq<Region>, a: nat)
    requires Finished(user, kernel, m, Qemu, 0, 0) && PERIPHERAL_BASE <= a < PERIPHERAL_BASE + PERIPHERAL_SIZE
    ensures Translate(user, kernel, PhysToVirt(a)) == Translate(user, kernel, a) == Mapped(a, VC_MEMORY)
  {
    QemuWindowIsNormalMemory(user, kernel, m, 0, 0, a);
  }

  // ---- What user code can reach --------------------------------------------

  /**
   User code may access a block exactly when the mapped part of a non-MMIO
   region reaches into it and no device call does.
  */
  lemma {:induction false} UserReachesOnlyRam(user: Tree, kernel: Tree, m: seq<Region>, board: Board, extraBase: u64,
        extraSize: u64, a: nat)
    requires Finished(user, kernel, m, board, extraBase, extraSize) && a < SLOT_SIZE
    ensures var o, b := Translate(user, kernel, a), a / BLOCK_SIZE;
      o.Mapped? && o.attrs.ap == AP_EL0_RW <==>
        LastCall(MmioCalls(board, extraBase, extraSize), b) == None && SomeRegionTouches(m, |m|, board, b)
  {
    var b := a / BLOCK_SIZE;
    RamTouchedExactly(m, |m|, board, AP_EL0_RW, b);
    LastOfAll(m, board, AP_EL0_RW, extraBase, extraSize, b);
    MmioIsPrivileged(board, extraBase, extraSize, b);
    RamHasAccess(m, |m|, board, AP_EL0_RW, b);
    UserIsIdentity(user, kernel, AllCalls(m, board, AP_EL0_RW, extraBase, extraSize), a);
  }

  lemma {:induction false} MmioIsPrivileged(board: Board, extraBase: u64, extraSize: u64, b: nat)
    ensures var c := LastCall(MmioCalls(board, extraBase, extraSize), b); c.Some? ==> c.value.attrs.ap == AP_EL1_RW
  {
    var calls := MmioCalls(board, extraBase, extraSize);
    assert forall k :: 0 <= k < |calls| ==> calls[k].attrs.ap == AP_EL1_RW;
    LastCallIs(calls, b);
  }

  lemma {:induction false} RamHasAccess(m: seq<Region>, n: nat, board: Board, ap: Field2, b: nat)
    requires n <= |m|
    ensures var c := LastCall(RamCalls(m, n, board, ap), b);
      c.Some? ==> c.value.attrs == Attrs(ATTR_NORMAL, ap, SH_INNER, false)
  {
    RamCallsAccess(m, n, board, ap);
    LastCallIs(RamCalls(m, n, board, ap), b);
  }

  lemma {:induction false} RamCallsAccess(m: seq<Region>, n: nat, board: Board, ap: Field2)
    requires n <= |m|
    ensures forall k :: 0 <= k < |RamCalls(m, n, board, ap)| ==>
      RamCalls(m, n, board, ap)[k].attrs == Attrs(ATTR_NORMAL, ap, SH_INNER, false)
  {
    if n > 0 {
      RamCallsAccess(m, n - 1, board, ap);
    }
  }

  /** The kernel tree gives user code nothing at all. */
  lemma {:induction false} KernelSpaceIsPrivileged(user: Tree, kernel: Tree, m: seq<Region>, board: Board,
        extraBase: u64, extraSize: u64, a: nat)
    requires Finished(user, kernel, m, board, extraBase, extraSize) && a < SLOT_SIZE
    ensures var o := Translate(user, kernel, PhysToVirt(a)); o.Mapped? ==> o.attrs.ap == AP_EL1_RW
  {
    var b := a / BLOCK_SIZE;
    LastOfAll(m, board, AP_EL1_RW, extraBase, extraSize, b);
    MmioIsPrivileged(board, extraBase, extraSize, b);
    RamHasAccess(m, |m|, board, AP_EL1_RW, b);
    KernelIsIdentity(user, kernel, AllCalls(m, board, AP_EL1_RW, extraBase, extraSize), a);
  }
}
