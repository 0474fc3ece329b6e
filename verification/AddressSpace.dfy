/**
 The two address spaces built at boot (src/mm/paging.rs): the kernel tree maps
 physical memory at KERNEL_VIRT_BASE, the user tree maps it at its own addresses.
*/
module AddressSpace {
  import opened Machine
  import opened Wrappers
  import opened Layout
  import opened RegionModel
  import opened Boot
  import opened Descriptors
  import opened PagingModel
  import opened Paging

  const KERNEL_SLOT: nat := 256
  const USER_SLOT: nat := 0
  const RAM_CAP: nat := 0x4000_0000
  const RP1_BASE: nat := 0x1c_0000_0000
  const RP1_SIZE: nat := 0x4000_0000
  const LOCAL_BASE: nat := 0x4000_0000
  const LOCAL_SIZE: nat := 0x0020_0000
  const VC_BASE: nat := 0x3c00_0000
  const VC_SIZE: nat := 0x0400_0000

  const DEVICE: Attrs := Attrs(ATTR_DEVICE, AP_EL1_RW, SH_NONE, true)
  const VC_MEMORY: Attrs := Attrs(ATTR_NORMAL, AP_EL1_RW, SH_INNER, true)

  /** One range call: the physical range and the attributes asked for. */
  datatype Call = Call(start: u64, size: u64, attrs: Attrs)

  /** The call's rounded range contains block b. */
  predicate Touches(c: Call, b: nat) {
    c.size > 0 && c.start / BLOCK_SIZE <= b < (c.start + c.size + (BLOCK_SIZE - 1)) / BLOCK_SIZE
  }

  ghost predicate IsLast(calls: seq<Call>, k: nat, b: nat)
    requires k < |calls|
  {
    Touches(calls[k], b) && forall j :: k < j < |calls| ==> !Touches(calls[j], b)
  }

  function LastCall(calls: seq<Call>, b: nat): Option<Call> {
    if calls == [] then None
    else
      var n := |calls| - 1;
      if Touches(calls[n], b) then Some(calls[n]) else LastCall(calls[..n], b)
  }

  lemma {:induction false} LastCallIs(calls: seq<Call>, b: nat)
    ensures var r := LastCall(calls, b);
      && (r.None? <==> forall k :: 0 <= k < |calls| ==> !Touches(calls[k], b))
      && (r.Some? ==> exists k :: 0 <= k < |calls| && calls[k] == r.value && IsLast(calls, k, b))
  {
    if calls != [] {
      var n := |calls| - 1;
      LastCallIs(calls[..n], b);
      if Touches(calls[n], b) {
        assert IsLast(calls, n, b);
      } else {
        forall k | 0 <= k < n && IsLast(calls[..n], k, b)
          ensures IsLast(calls, k, b)
        {
        }
      }
    }
  }

  // ---- The calls of paging::init -------------------------------------------

  /** Bytes of a region that are mapped; the Raspberry Pi 5 build stops usable RAM after 1 GiB. */
  function RamSize(r: Region, board: Board): u64 {
    var end := if board == Rpi5 && r.kind == UsableRam then Min(r.end, Min(r.start + RAM_CAP, U64_MAX)) else r.end;
    SaturatingSub(end, r.start)
  }

  function RegionCalls(r: Region, board: Board, ap: Field2): seq<Call> {
    if r.kind == Mmio || RamSize(r, board) == 0 then []
    else [Call(r.start, RamSize(r, board), Attrs(ATTR_NORMAL, ap, SH_INNER, false))]
  }

  /** The calls for the first n regions. */
  function RamCalls(m: seq<Region>, n: nat, board: Board, ap: Field2): seq<Call>
    requires n <= |m|
  {
    if n == 0 then [] else RamCalls(m, n - 1, board, ap) + RegionCalls(m[n - 1], board, ap)
  }

  function BoardCalls(board: Board): seq<Call> {
    if board == Qemu then
      [Call(PERIPHERAL_BASE, PERIPHERAL_SIZE, DEVICE), Call(LOCAL_BASE, LOCAL_SIZE, DEVICE),
        Call(VC_BASE, VC_SIZE, VC_MEMORY)]
    else
      [Call(SOC_BASE, SOC_MMIO_SIZE, DEVICE), Call(RP1_BASE, RP1_SIZE, DEVICE)]
  }

  function MmioCalls(board: Board, extraBase: u64, extraSize: u64): seq<Call> {
    BoardCalls(board) + if extraSize != 0 then [Call(extraBase, extraSize, DEVICE)] else []
  }

  function AllCalls(m: seq<Region>, board: Board, ap: Field2, extraBase: u64, extraSize: u64): seq<Call> {
    RamCalls(m, |m|, board, ap) + MmioCalls(board, extraBase, extraSize)
  }

  /** Only one level-0 entry per tree is filled: what is mapped of a region lies below 512 GiB. */
  predicate RegionFits(r: Region, board: Board) {
    r.kind != Mmio && RamSize(r, board) != 0 ==> r.start + RamSize(r, board) <= SLOT_SIZE
  }

  ghost predicate MapFits(m: seq<Region>, board: Board) {
    forall i :: 0 <= i < |m| ==> RegionFits(m[i], board)
  }

  // ---- Trees that result from calls ----------------------------------------

  function Wanted(calls: seq<Call>, b: nat): u64
    requires b < BLOCKS
  {
    match LastCall(calls, b)
    case None => 0
    case Some(c) => BlockDesc(BLOCK_SIZE * b, c.attrs)
  }

  ghost predicate Maps(t: Tree, calls: seq<Call>)
    requires Placed(t)
  {
    forall b :: 0 <= b < BLOCKS ==> Entry(t, b) == Wanted(calls, b)
  }

  ghost predicate Built(t: Tree, slot: nat, calls: seq<Call>) {
    WellFormed(t, slot) && Maps(t, calls)
  }

  lemma {:induction false} RangeOfCall(base: u64, c: Call)
    requires base % SLOT_SIZE == 0 && base + 2 * SLOT_SIZE <= TWO64 && c.size > 0 && c.start + c.size <= SLOT_SIZE
    ensures InSlot(base + c.start, c.size)
    ensures (base + c.start) / BLOCK_SIZE % BLOCKS == c.start / BLOCK_SIZE
    ensures BlockCount(base + c.start, c.size) == BlockCount(c.start, c.size)
    ensures AlignDown(c.start, BLOCK_SIZE) == BLOCK_SIZE * (c.start / BLOCK_SIZE)
  {
    var q := base / SLOT_SIZE;
    assert base == SLOT_SIZE * q;
    DivMod(base + c.start, SLOT_SIZE, q, c.start);
    DivMod((base + c.start) / BLOCK_SIZE, BLOCKS, q, c.start / BLOCK_SIZE);
    Floor(c.start);
  }

  /** One more range call. */
  lemma {:induction false} AfterCall(t: Tree, t': Tree, base: u64, calls: seq<Call>, c: Call)
    requires Placed(t) && Placed(t') && Maps(t, calls)
    requires base % SLOT_SIZE == 0 && base + 2 * SLOT_SIZE <= TWO64 && c.size > 0 && c.start + c.size <= SLOT_SIZE
    requires RangeMapped(t, t', (base + c.start) / BLOCK_SIZE % BLOCKS, AlignDown(c.start, BLOCK_SIZE),
               BlockCount(base + c.start, c.size), c.attrs)
    ensures Maps(t', calls + [c])
  {
    RangeOfCall(base, c);
    var v, n := c.start / BLOCK_SIZE, BlockCount(c.start, c.size);
    assert (calls + [c])[..|calls|] == calls;
    forall b | 0 <= b < BLOCKS
      ensures Entry(t', b) == Wanted(calls + [c], b)
    {
      BlockOfCall(c, b, Entry(t, b));
    }
  }

  lemma {:induction false} BlockOfCall(c: Call, b: nat, before: u64)
    requires b < BLOCKS && c.size > 0
    ensures var v, n := c.start / BLOCK_SIZE, BlockCount(c.start, c.size);
      RangeEntry(before, v, BLOCK_SIZE * v, n, c.attrs, b) == if Touches(c, b) then BlockDesc(BLOCK_SIZE * b, c.attrs)
        else before
  {
    var v, n := c.start / BLOCK_SIZE, BlockCount(c.start, c.size);
    assert Touches(c, b) <==> v <= b < v + n;
    assert v <= b ==> (BLOCK_SIZE * v + BLOCK_SIZE * (b - v)) % TWO64 == BLOCK_SIZE * b;
  }

  /** Two trees with nothing in common. */
  ghost predicate Separate(kernel: PageTables, user: PageTables)
    reads kernel, user
  {
    && kernel != user
    && kernel.l0 !in {user.l0, user.l1, user.pool} && kernel.l1 !in {user.l0, user.l1, user.pool}
    && kernel.pool !in {user.l0, user.l1, user.pool}
  }

  ghost predicate Holds(tables: PageTables, slot: nat, calls: seq<Call>)
    reads tables, tables.l0, tables.l1, tables.pool
  {
    tables.Valid() && Built(tables.View(), slot, calls)
  }

  /**
   Both trees hold what the first n regions ask for. Contracts compare it with
   true where the verifier should take it as a whole.
  */
  ghost predicate RamMapped(kernel: PageTables, user: PageTables, m: seq<Region>, n: nat, board: Board)
    requires n <= |m|
    reads kernel, kernel.l0, kernel.l1, kernel.pool, user, user.l0, user.l1, user.pool
  {
    Holds(kernel, KERNEL_SLOT, RamCalls(m, n, board, AP_EL1_RW)) &&
      Holds(user, USER_SLOT, RamCalls(m, n, board, AP_EL0_RW))
  }

  method MapCall(tables: PageTables, ghost slot: nat, base: u64, ghost calls: seq<Call>, c: Call)
    requires Holds(tables, slot, calls) && base % SLOT_SIZE == 0 && base + 2 * SLOT_SIZE <= TWO64
    requires 0 < c.size && c.start + c.size <= SLOT_SIZE
    modifies tables`nextL2, tables.l1, tables.pool
    ensures Holds(tables, slot, calls + [c])
  {
    RangeOfCall(base, c);
    ghost var t := tables.View();
    tables.MapRange(slot, base + c.start, c.start, c.size, c.attrs);
    AfterCall(t, tables.View(), base, calls, c);
  }

  /** Every range is mapped in both trees. */
  method MapBoth(kernel: PageTables, user: PageTables, ghost kcalls: seq<Call>, ghost ucalls: seq<Call>, kcall: Call,
        ucall: Call)
    requires Separate(kernel, user) && Holds(kernel, KERNEL_SLOT, kcalls) && Holds(user, USER_SLOT, ucalls)
    requires 0 < kcall.size && kcall.start + kcall.size <= SLOT_SIZE
    requires 0 < ucall.size && ucall.start + ucall.size <= SLOT_SIZE
    modifies kernel`nextL2, kernel.l1, kernel.pool, user`nextL2, user.l1, user.pool
    ensures Holds(kernel, KERNEL_SLOT, kcalls + [kcall]) && Holds(user, USER_SLOT, ucalls + [ucall])
  {
    assert KERNEL_VIRT_BASE == SLOT_SIZE * 0x1FF_FF00;
    MapCall(kernel, KERNEL_SLOT, KERNEL_VIRT_BASE, kcalls, kcall);
    MapCall(user, USER_SLOT, 0, ucalls, ucall);
  }

  method MapRegion(kernel: PageTables, user: PageTables, ghost kcalls: seq<Call>, ghost ucalls: seq<Call>,
        region: Region, board: Board)
    requires Separate(kernel, user) && Holds(kernel, KERNEL_SLOT, kcalls) && Holds(user, USER_SLOT, ucalls)
    requires RegionFits(region, board)
    modifies kernel`nextL2, kernel.l1, kernel.pool, user`nextL2, user.l1, user.pool
    ensures Holds(kernel, KERNEL_SLOT, kcalls + RegionCalls(region, board, AP_EL1_RW))
    ensures Holds(user, USER_SLOT, ucalls + RegionCalls(region, board, AP_EL0_RW))
  {
    assert kcalls + [] == kcalls && ucalls + [] == ucalls;
    if region.kind == Mmio {
      return;
    }
    var size := RamSize(region, board);
    if size == 0 {
      return;
    }
    MapBoth(kernel, user, kcalls, ucalls,
      Call(region.start, size, Attrs(ATTR_NORMAL, AP_EL1_RW, SH_INNER, false)),
      Call(region.start, size, Attrs(ATTR_NORMAL, AP_EL0_RW, SH_INNER, false)));
  }

  /** Every region that is not MMIO, in both trees. */
  method MapRam(kernel: PageTables, user: PageTables, m: seq<Region>, board: Board)
    requires Separate(kernel, user) && RamMapped(kernel, user, m, 0, board) && MapFits(m, board)
    modifies kernel`nextL2, kernel.l1, kernel.pool, user`nextL2, user.l1, user.pool
    ensures RamMapped(kernel, user, m, |m|, board) == true
  {
    for i := 0 to |m|
      invariant RamMapped(kernel, user, m, i, board) == true
    {
      MapNextRegion(kernel, user, m, i, board);
    }
  }

  method MapNextRegion(kernel: PageTables, user: PageTables, m: seq<Region>, i: nat, board: Board)
    requires Separate(kernel, user) && i < |m| && MapFits(m, board) && RamMapped(kernel, user, m, i, board) == true
    modifies kernel`nextL2, kernel.l1, kernel.pool, user`nextL2, user.l1, user.pool
    ensures RamMapped(kernel, user, m, i + 1, board) == true
  {
    RamCallsNext(m, i, board, AP_EL1_RW);
    RamCallsNext(m, i, board, AP_EL0_RW);
    MapRegion(kernel, user, RamCalls(m, i, board, AP_EL1_RW), RamCalls(m, i, board, AP_EL0_RW), m[i], board);
  }

  lemma {:induction false} RamCallsNext(m: seq<Region>, i: nat, board: Board, ap: Field2)
    requires i < |m|
    ensures RamCalls(m, i + 1, board, ap) == RamCalls(m, i, board, ap) + RegionCalls(m[i], board, ap)
  {
  }

  lemma {:induction false} RamCallsContain(m: seq<Region>, n: nat, i: nat, board: Board, ap: Field2) returns (k: nat)
    requires i < n <= |m| && RegionCalls(m[i], board, ap) != []
    ensures k < |RamCalls(m, n, board, ap)| && RamCalls(m, n, board, ap)[k] == RegionCalls(m[i], board, ap)[0]
  {
    if i < n - 1 {
      k := RamCallsContain(m, n - 1, i, board, ap);
    } else {
      k := |RamCalls(m, n - 1, board, ap)|;
    }
  }

  /** The device windows, after all RAM. */
  method MapMmio(kernel: PageTables, user: PageTables, board: Board, extraBase: u64, extraSize: u64,
        ghost kcalls: seq<Call>, ghost ucalls: seq<Call>)
    requires Separate(kernel, user) && Holds(kernel, KERNEL_SLOT, kcalls) && Holds(user, USER_SLOT, ucalls)
    requires extraSize != 0 ==> extraBase + extraSize <= SLOT_SIZE
    modifies kernel`nextL2, kernel.l1, kernel.pool, user`nextL2, user.l1, user.pool
    ensures Holds(kernel, KERNEL_SLOT, kcalls + MmioCalls(board, extraBase, extraSize))
    ensures Holds(user, USER_SLOT, ucalls + MmioCalls(board, extraBase, extraSize))
  {
    var calls := BoardCalls(board) + if extraSize != 0 then [Call(extraBase, extraSize, DEVICE)] else [];
    assert kcalls + calls[..0] == kcalls && ucalls + calls[..0] == ucalls;
    for i := 0 to |calls|
      invariant Holds(kernel, KERNEL_SLOT, kcalls + calls[..i]) && Holds(user, USER_SLOT, ucalls + calls[..i])
    {
      assert kcalls + calls[..i + 1] == kcalls + calls[..i] + [calls[i]];
      assert ucalls + calls[..i + 1] == ucalls + calls[..i] + [calls[i]];
      MapBoth(kernel, user, kcalls + calls[..i], ucalls + calls[..i], calls[i], calls[i]);
    }
    assert calls[..|calls|] == calls;
  }

  /** paging::init up to the point where the MMU is switched on. */
  method Init(kernel: PageTables, user: PageTables, m: seq<Region>, board: Board, extraBase: u64, extraSize: u64)
    requires kernel.Valid() && user.Valid() && Separate(kernel, user)
    requires MapFits(m, board) && (extraSize != 0 ==> extraBase + extraSize <= SLOT_SIZE)
    modifies kernel`nextL2, kernel.l0, kernel.l1, kernel.pool, user`nextL2, user.l0, user.l1, user.pool
    ensures Holds(kernel, KERNEL_SLOT, AllCalls(m, board, AP_EL1_RW, extraBase, extraSize))
    ensures Holds(user, USER_SLOT, AllCalls(m, board, AP_EL0_RW, extraBase, extraSize))
  {
    kernel.Reset(KERNEL_SLOT);
    user.Reset(USER_SLOT);
    MapRam(kernel, user, m, board);
    MapMmio(kernel, user, board, extraBase, extraSize, RamCalls(m, |m|, board, AP_EL1_RW),
      RamCalls(m, |m|, board, AP_EL0_RW));
  }

  // ---- What the address spaces mean ----------------------------------------

  /**
   The outcome of translating the image of physical address a: a itself with the
   attributes of the last call covering it.
  */
  function OutcomeOf(calls: seq<Call>, a: nat): Outcome {
    match LastCall(calls, a / BLOCK_SIZE)
    case None => Fault
    case Some(c) => Mapped(a, c.attrs)
  }

  lemma {:induction false} WalkOfBuilt(t: Tree, slot: nat, calls: seq<Call>, va: u64, a: nat)
    requires Built(t, slot, calls) && va / SLOT_SIZE % ENTRIES == slot && va % SLOT_SIZE == a
    ensures Walk(t, t.l0Pa, 0, va) == OutcomeOf(calls, a)
  {
    BlockOfAddress(va);
    var b := a / BLOCK_SIZE;
    assert Entry(t, b) == Wanted(calls, b);
    match LastCall(calls, b)
    case None =>
      WalkEmpty(t, slot, va);
    case Some(c) =>
      WalkBlock(t, slot, va, b, c.attrs);
  }

  lemma {:induction false} WalkBlock(t: Tree, slot: nat, va: u64, b: nat, attrs: Attrs)
    requires WellFormed(t, slot) && va / SLOT_SIZE % ENTRIES == slot && b < BLOCKS
    requires va / BLOCK_SIZE % BLOCKS == b && Entry(t, b) == BlockDesc(BLOCK_SIZE * b, attrs)
    ensures Walk(t, t.l0Pa, 0, va) == Mapped(BLOCK_SIZE * b + va % BLOCK_SIZE, attrs)
  {
    WalkReadsEntry(t, slot, va);
    BlockNumberTranslates(b, attrs, va);
  }

  lemma {:induction false} BlockNumberTranslates(b: nat, attrs: Attrs, va: u64)
    requires b < BLOCKS
    ensures LeafAt(BlockDesc(BLOCK_SIZE * b, attrs), va) == Mapped(BLOCK_SIZE * b + va % BLOCK_SIZE, attrs)
  {
    BlockTranslates(BLOCK_SIZE * b, attrs, va);
  }

  lemma {:induction false} BlockOfAddress(va: u64)
    ensures var a := va % SLOT_SIZE;
      va / BLOCK_SIZE % BLOCKS == a / BLOCK_SIZE < BLOCKS && va % BLOCK_SIZE == a % BLOCK_SIZE
  {
    var q, a := va / SLOT_SIZE, va % SLOT_SIZE;
    assert va == SLOT_SIZE * q + a;
    DivMod(va, BLOCK_SIZE, BLOCKS * q + a / BLOCK_SIZE, a % BLOCK_SIZE);
    DivMod(va / BLOCK_SIZE, BLOCKS, q, a / BLOCK_SIZE);
  }

  lemma {:induction false} WalkEmpty(t: Tree, slot: nat, va: u64)
    requires WellFormed(t, slot) && va / SLOT_SIZE % ENTRIES == slot && Entry(t, va / BLOCK_SIZE % BLOCKS) == 0
    ensures Walk(t, t.l0Pa, 0, va) == Fault
  {
    WalkReadsEntry(t, slot, va);
  }

  /**
   The paging theorem. With both trees built, the kernel address of a and the
   user address a translate to a itself, each with the attributes of the last
   range call whose blocks cover a, and fault exactly when no call does.
  */
  lemma {:induction false} BothSpacesAreIdentity(user: Tree, kernel: Tree, ucalls: seq<Call>, kcalls: seq<Call>, a: nat)
    requires Built(user, USER_SLOT, ucalls) && Built(kernel, KERNEL_SLOT, kcalls) && a < SLOT_SIZE
    ensures Translate(user, kernel, a) == OutcomeOf(ucalls, a)
    ensures Translate(user, kernel, PhysToVirt(a)) == OutcomeOf(kcalls, a)
  {
    UserIsIdentity(user, kernel, ucalls, a);
    KernelIsIdentity(user, kernel, kcalls, a);
  }

  lemma {:induction false} UserIsIdentity(user: Tree, kernel: Tree, ucalls: seq<Call>, a: nat)
    requires Built(user, USER_SLOT, ucalls) && Placed(kernel) && a < SLOT_SIZE
    ensures Translate(user, kernel, a) == OutcomeOf(ucalls, a)
  {
    UserAddress(a);
    WalkOfBuilt(user, USER_SLOT, ucalls, a, a);
  }

  lemma {:induction false} UserAddress(a: nat)
    requires a < SLOT_SIZE
    ensures a < PA_LIMIT && a / SLOT_SIZE % ENTRIES == USER_SLOT && a % SLOT_SIZE == a
  {
  }

  lemma {:induction false} KernelIsIdentity(user: Tree, kernel: Tree, kcalls: seq<Call>, a: nat)
    requires Placed(user) && Built(kernel, KERNEL_SLOT, kcalls) && a < SLOT_SIZE
    ensures Translate(user, kernel, PhysToVirt(a)) == OutcomeOf(kcalls, a)
  {
    KernelAddress(a);
    WalkOfBuilt(kernel, KERNEL_SLOT, kcalls, PhysToVirt(a), a);
  }

  lemma {:induction false} KernelAddress(a: nat)
    requires a < SLOT_SIZE
    ensures var va := PhysToVirt(a);
      va >= TWO64 - PA_LIMIT && va >= PA_LIMIT && va / SLOT_SIZE % ENTRIES == KERNEL_SLOT && va % SLOT_SIZE == a
  {
    assert PhysToVirt(a) == SLOT_SIZE * 0x1FF_FF00 + a;
    DivMod(PhysToVirt(a), SLOT_SIZE, 0x1FF_FF00, a);
  }
}
