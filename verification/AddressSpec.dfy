/**
 Both address spaces after boot, without the calls that built them: what an
 address below 512 GiB translates to is read off the memory map and the
 addresses of the board's windows, which are written out here
 (src/mm/paging.rs, src/platform/board.rs).
*/
module AddressSpec {
  import opened Machine
  import opened Wrappers
  import opened Layout
  import opened RegionModel
  import opened Boot
  import opened Descriptors
  import opened PagingModel
  import opened AddressSpace
  import opened AddressMap

  /** Memory is mapped in blocks of 2 MiB. */
  predicate InBlockOf(x: nat, a: nat) { x / 0x20_0000 == a / 0x20_0000 }

  /** The block of a holds an address of the window. */
  ghost predicate Near(base: nat, size: nat, a: nat) {
    exists x: nat :: base <= x < base + size && InBlockOf(x, a)
  }

  /** Everything but MMIO is mapped; of usable RAM the Raspberry Pi 5 maps the first 1 GiB of each region. */
  predicate Backed(r: Region, board: Board, x: nat) {
    r.kind != Mmio && r.start <= x < r.end && (board == Rpi5 && r.kind == UsableRam ==> x < r.start + 0x4000_0000)
  }

  ghost predicate NearRam(m: seq<Region>, board: Board, a: nat) {
    exists i, x: nat :: 0 <= i < |m| && Backed(m[i], board, x) && InBlockOf(x, a)
  }

  /** QEMU's graphics memory, which includes its peripherals. */
  ghost predicate NearGraphics(board: Board, a: nat) {
    board == Qemu && Near(0x3C00_0000, 0x400_0000, a)
  }

  /** The windows of the board's devices, outside the graphics memory. */
  ghost predicate NearDevice(board: Board, a: nat) {
    match board
    case Qemu => Near(0x3F00_0000, 0x100_0000, a) || Near(0x4000_0000, 0x20_0000, a)
    case Rpi5 => Near(0x10_7C00_0000, 0x8000_0000, a) || Near(0x1C_0000_0000, 0x4000_0000, a)
  }

  /**
   The outcome for address a. Device memory is attribute 0, for EL1 alone, not
   shareable and never executed; graphics memory and RAM are attribute 1,
   inner-shareable, and only RAM is executable and, in the user space, open to
   EL0.
  */
  ghost function Prescribed(m: seq<Region>, board: Board, extraBase: u64, extraSize: u64, user: bool, a: nat): Outcome {
    if Near(extraBase, extraSize, a) then Mapped(a, Attrs(0, 0, 0, true))
    else if NearGraphics(board, a) then Mapped(a, Attrs(1, 0, 3, true))
    else if NearDevice(board, a) then Mapped(a, Attrs(0, 0, 0, true))
    else if NearRam(m, board, a) then Mapped(a, Attrs(1, if user then 1 else 0, 3, false))
    else Fault
  }

  lemma {:induction false} TouchesIsNear(c: Call, a: nat)
    ensures Touches(c, a / BLOCK_SIZE) <==> Near(c.start, c.size, a)
  {
    if Touches(c, a / BLOCK_SIZE) {
      var x := Max(c.start, a / BLOCK_SIZE * BLOCK_SIZE);
      assert c.start <= x < c.start + c.size && InBlockOf(x, a);
    }
  }

  lemma {:induction false} SnocCall(calls: seq<Call>, c: Call, b: nat)
    ensures LastCall(calls + [c], b) == if Touches(c, b) then Some(c) else LastCall(calls, b)
  {
    assert (calls + [c])[..|calls|] == calls;
  }

  lemma {:induction false} OneCall(c: Call, b: nat)
    ensures LastCall([c], b) == if Touches(c, b) then Some(c) else None
  {
    SnocCall([], c, b);
    assert [] + [c] == [c];
  }

  lemma {:induction false} BoardCallAt(board: Board, a: nat)
    ensures var c := LastCall(BoardCalls(board), a / BLOCK_SIZE);
      && (NearGraphics(board, a) ==> c.Some? && c.value.attrs == Attrs(1, 0, 3, true))
      && (!NearGraphics(board, a) && NearDevice(board, a) ==> c.Some? && c.value.attrs == Attrs(0, 0, 0, true))
      && (!NearGraphics(board, a) && !NearDevice(board, a) ==> c == None)
  {
    var calls := BoardCalls(board);
    OneCall(calls[0], a / BLOCK_SIZE);
    SnocCall([calls[0]], calls[1], a / BLOCK_SIZE);
    TouchesIsNear(calls[0], a);
    TouchesIsNear(calls[1], a);
    if board == Qemu {
      SnocCall([calls[0], calls[1]], calls[2], a / BLOCK_SIZE);
      TouchesIsNear(calls[2], a);
      assert calls == [calls[0], calls[1]] + [calls[2]];
    }
    assert [calls[0], calls[1]] == [calls[0]] + [calls[1]];
  }

  lemma {:induction false} ExtraCallAt(board: Board, extraBase: u64, extraSize: u64, a: nat)
    ensures var c := LastCall(MmioCalls(board, extraBase, extraSize), a / BLOCK_SIZE);
      if Near(extraBase, extraSize, a) then c.Some? && c.value.attrs == Attrs(0, 0, 0, true)
      else c == LastCall(BoardCalls(board), a / BLOCK_SIZE)
  {
    var extra := Call(extraBase, extraSize, DEVICE);
    TouchesIsNear(extra, a);
    SnocCall(BoardCalls(board), extra, a / BLOCK_SIZE);
    assert BoardCalls(board) + [] == BoardCalls(board);
  }

  lemma {:induction false} RegionTouchesIs(r: Region, board: Board, a: nat)
    ensures RegionTouches(r, board, a / BLOCK_SIZE) <==> exists x: nat :: Backed(r, board, x) && InBlockOf(x, a)
  {
    var c := Call(r.start, RamSize(r, board), DEVICE);
    TouchesIsNear(c, a);
    if r.kind != Mmio {
      assert forall x: nat :: c.start <= x < c.start + c.size <==> Backed(r, board, x);
    }
  }

  lemma {:induction false} NearRamIs(m: seq<Region>, board: Board, a: nat)
    ensures SomeRegionTouches(m, |m|, board, a / BLOCK_SIZE) <==> NearRam(m, board, a)
  {
    SomeRegionTouchesIs(m, |m|, board, a / BLOCK_SIZE);
    forall i | 0 <= i < |m|
      ensures RegionTouches(m[i], board, a / BLOCK_SIZE) <==>
        exists x: nat :: Backed(m[i], board, x) && InBlockOf(x, a)
    {
      RegionTouchesIs(m[i], board, a);
    }
  }

  lemma {:induction false} OutcomeIsPrescribed(m: seq<Region>, board: Board, ap: Field2, extraBase: u64,
        extraSize: u64, user: bool, a: nat)
    requires ap == (if user then AP_EL0_RW else AP_EL1_RW)
    ensures OutcomeOf(AllCalls(m, board, ap, extraBase, extraSize), a) ==
      Prescribed(m, board, extraBase, extraSize, user, a)
  {
    var b := a / BLOCK_SIZE;
    LastOfAll(m, board, ap, extraBase, extraSize, b);
    ExtraCallAt(board, extraBase, extraSize, a);
    BoardCallAt(board, a);
    RamTouchedExactly(m, |m|, board, ap, b);
    RamHasAccess(m, |m|, board, ap, b);
    NearRamIs(m, board, a);
  }

  lemma {:induction false} UserIsPrescribed(user: Tree, kernel: Tree, m: seq<Region>, board: Board, extraBase: u64,
        extraSize: u64, a: nat)
    requires Finished(user, kernel, m, board, extraBase, extraSize) && a < 0x80_0000_0000
    ensures Translate(user, kernel, a) == Prescribed(m, board, extraBase, extraSize, true, a)
  {
    UserIsIdentity(user, kernel, AllCalls(m, board, AP_EL0_RW, extraBase, extraSize), a);
    OutcomeIsPrescribed(m, board, AP_EL0_RW, extraBase, extraSize, true, a);
  }

  lemma {:induction false} KernelImageOf(a: nat)
    requires a < 0x80_0000_0000
    ensures PhysToVirt(a) == 0xFFFF_8000_0000_0000 + a
  {
  }

  lemma {:induction false} KernelIsPrescribed(user: Tree, kernel: Tree, m: seq<Region>, board: Board, extraBase: u64,
        extraSize: u64, a: nat)
    requires Finished(user, kernel, m, board, extraBase, extraSize) && a < 0x80_0000_0000
    ensures Translate(user, kernel, 0xFFFF_8000_0000_0000 + a) ==
      Prescribed(m, board, extraBase, extraSize, false, a)
  {
    KernelImageOf(a);
    KernelIsIdentity(user, kernel, AllCalls(m, board, AP_EL1_RW, extraBase, extraSize), a);
    OutcomeIsPrescribed(m, board, AP_EL1_RW, extraBase, extraSize, false, a);
  }

  /** The address spaces are exactly those: user code sees physical addresses, the kernel sees them 2^64 - 2^47 up. */
  lemma {:induction false} SpacesAreAsPrescribed(user: Tree, kernel: Tree, m: seq<Region>, board: Board,
        extraBase: u64, extraSize: u64, a: nat)
    requires Finished(user, kernel, m, board, extraBase, extraSize) && a < 0x80_0000_0000
    ensures Translate(user, kernel, a) == Prescribed(m, board, extraBase, extraSize, true, a)
    ensures Translate(user, kernel, 0xFFFF_8000_0000_0000 + a) ==
      Prescribed(m, board, extraBase, extraSize, false, a)
  {
    UserIsPrescribed(user, kernel, m, board, extraBase, extraSize, a);
    KernelIsPrescribed(user, kernel, m, board, extraBase, extraSize, a);
  }

  /** So on QEMU the local peripherals of the cores end as Device memory, whatever the map and the extra window. */
  lemma {:induction false} QemuLocalPeripheralsAreDevice(user: Tree, kernel: Tree, m: seq<Region>, extraBase: u64,
        extraSize: u64, a: nat)
    requires Finished(user, kernel, m, Qemu, extraBase, extraSize) && 0x4000_0000 <= a < 0x4020_0000
    ensures Translate(user, kernel, 0xFFFF_8000_0000_0000 + a) == Translate(user, kernel, a) ==
      Mapped(a, Attrs(0, 0, 0, true))
  {
    SpacesAreAsPrescribed(user, kernel, m, Qemu, extraBase, extraSize, a);
    LocalIsDevice(m, extraBase, extraSize, true, a);
    LocalIsDevice(m, extraBase, extraSize, false, a);
  }

  lemma {:induction false} LocalIsDevice(m: seq<Region>, extraBase: u64, extraSize: u64, user: bool, a: nat)
    requires 0x4000_0000 <= a < 0x4020_0000
    ensures Prescribed(m, Qemu, extraBase, extraSize, user, a) == Mapped(a, Attrs(0, 0, 0, true))
  {
    GraphicsEndsBelow(a);
    assert InBlockOf(a, a);
  }

  lemma {:induction false} GraphicsEndsBelow(a: nat)
    requires 0x4000_0000 <= a
    ensures !NearGraphics(Qemu, a)
  {
  }

  /** And on the Raspberry Pi 5 the SoC, RP1 and extra windows do. */
  lemma {:induction false} RaspberryPiDevicesAreDevice(user: Tree, kernel: Tree, m: seq<Region>, extraBase: u64,
        extraSize: u64, a: nat)
    requires Finished(user, kernel, m, Rpi5, extraBase, extraSize)
    requires || 0x10_7C00_0000 <= a < 0x10_FC00_0000 || 0x1C_0000_0000 <= a < 0x1C_4000_0000
             || (extraBase <= a < extraBase + extraSize && a < 0x80_0000_0000)
    ensures Translate(user, kernel, 0xFFFF_8000_0000_0000 + a) == Translate(user, kernel, a) ==
      Mapped(a, Attrs(0, 0, 0, true))
  {
    SpacesAreAsPrescribed(user, kernel, m, Rpi5, extraBase, extraSize, a);
    assert InBlockOf(a, a);
  }
}
