/** Device trees that show where the parser departs from what their authors mean (src/mm/dtb.rs, parse). */
module DtbLimits {
  import opened Machine
  import opened Wrappers
  import opened RegionModel
  import opened Fdt
  import opened Cells
  import opened DtbRegions
  import opened DtbSpec

  const REG: u32 := 0
  const DEVICE_TYPE: u32 := 4

  /** A strings block with two names. */
  function Strings(): Bytes { Ascii("reg") + [0] + Ascii("device_type") + [0] }

  const MEMORY: Ctx := Ctx(2, 2, false, true)
  const RESERVED: Ctx := Ctx(2, 2, true, false)

  lemma {:induction false} NameAt(head: Bytes, name: Bytes, tail: Bytes)
    requires 0 !in name
    ensures GetString(head + name + [0] + tail, |head|) == name
  {
    var s := head + name + [0] + tail;
    assert s[|head|..|head| + |name| + 1] == name + [0];
    ZeroAfter(s, |head|, name);
    assert s[|head|..|head| + |name|] == name;
  }

  lemma {:induction false} NamesOfStrings()
    ensures GetString(Strings(), REG) == Ascii("reg") && GetString(Strings(), DEVICE_TYPE) == Ascii("device_type")
  {
    var reg, device := Ascii("reg"), Ascii("device_type");
    assert Strings() == [] + reg + [0] + (device + [0]);
    NameAt([], reg, device + [0]);
    assert Strings() == (reg + [0]) + device + [0] + [];
    NameAt(reg + [0], device, []);
  }

  lemma {:induction false} NodeNames()
    ensures Entered(ROOT, []) == ROOT && Entered(ROOT, Ascii("memory")) == MEMORY
    ensures Entered(ROOT, Ascii("reserved-memory")) == RESERVED && Entered(RESERVED, Ascii("buffer")) == RESERVED
    ensures Entered(RESERVED, Ascii("memory")) == RESERVED.(isMemory := true)
  {
    assert Ascii("memory")[0] == 109 && Ascii("buffer")[0] == 98 && Ascii("reserved-memory")[0] == 114;
  }

  /** Reading back a reg property that has been written with the cells of its context. */
  lemma {:induction false} WalkReg(ctx: Ctx, xs: seq<Extent>)
    requires 0 < ctx.addrCells + ctx.sizeCells < TWO32 && FitsReg(ctx, xs)
    ensures Walk(Prop(REG, RegBytes(ctx, xs), Done), Strings(), true, ctx) == Outcome(OffersOf(ctx, xs), false)
  {
    NamesOfStrings();
    NamesDiffer();
    RegRoundTrip(ctx, xs);
    ThenAssociates(RegOffers(ctx, RegBytes(ctx, xs)), NOTHING, NOTHING);
  }

  lemma {:induction false} OneExtent(ctx: Ctx, addr: u64, size: u64)
    ensures OffersOf(ctx, [Extent(addr, size)]) == EntryOffers(ctx, addr, size)
    ensures RegBytes(ctx, [Extent(addr, size)]) == EntryBytes(ctx, Extent(addr, size))
  {
    assert [Extent(addr, size)][1..] == [];
    assert EntryOffers(ctx, addr, size) + [] == EntryOffers(ctx, addr, size);
    assert EntryBytes(ctx, Extent(addr, size)) + [] == EntryBytes(ctx, Extent(addr, size));
  }

  /** A node alone in its parent. */
  lemma {:induction false} OnlyChild(name: Bytes, body: Items, inNode: bool, ctx: Ctx)
    ensures Walk(Child(name, body, Done), Strings(), inNode, ctx) == Walk(body, Strings(), true, Entered(ctx, name))
  {
    ThenAssociates(Walk(body, Strings(), true, Entered(ctx, name)), NOTHING, NOTHING);
    assert Walk(Done, Strings(), inNode, ctx) == NOTHING;
  }

  function RegOf(ctx: Ctx, addr: u64, size: u64): Items { Prop(REG, RegBytes(ctx, [Extent(addr, size)]), Done) }

  /** A buffer below reserved-memory with a device_type that begins with "memory". */
  function TypedBuffer(addr: u64, size: u64): Items {
    Child([], Child(Ascii("reserved-memory"), Child(Ascii("buffer"),
      Prop(DEVICE_TYPE, Ascii("memory") + [0], RegOf(RESERVED, addr, size)), Done), Done), Done)
  }

  /** It is offered as usable RAM. */
  lemma {:induction false} DeviceTypeExposes(addr: u64, size: u64)
    ensures Walk(TypedBuffer(addr, size), Strings(), false, ROOT) == Outcome([Offer(addr, size, UsableRam)], false)
  {
    var marked := RESERVED.(isMemory := true);
    var device := Ascii("memory") + [0];
    var buffer := Prop(DEVICE_TYPE, device, RegOf(RESERVED, addr, size));
    NodeNames();
    NamesOfStrings();
    NamesDiffer();
    OnlyChild([], Child(Ascii("reserved-memory"), Child(Ascii("buffer"), buffer, Done), Done), false, ROOT);
    OnlyChild(Ascii("reserved-memory"), Child(Ascii("buffer"), buffer, Done), true, ROOT);
    OnlyChild(Ascii("buffer"), buffer, true, RESERVED);
    assert device[..|Ascii("memory")|] == Ascii("memory");
    OneExtent(RESERVED, addr, size);
    OneExtent(marked, addr, size);
    WalkReg(marked, [Extent(addr, size)]);
    ThenAssociates(Walk(RegOf(RESERVED, addr, size), Strings(), true, marked), NOTHING, NOTHING);
  }

  /** A node below reserved-memory whose name begins with "memory". */
  function NamedBuffer(addr: u64, size: u64): Items {
    Child([], Child(Ascii("reserved-memory"), Child(Ascii("memory"), RegOf(RESERVED, addr, size), Done), Done), Done)
  }

  /** So is that one. */
  lemma {:induction false} NameExposes(addr: u64, size: u64)
    ensures Walk(NamedBuffer(addr, size), Strings(), false, ROOT) == Outcome([Offer(addr, size, UsableRam)], false)
  {
    var marked := RESERVED.(isMemory := true);
    NodeNames();
    OnlyChild([], Child(Ascii("reserved-memory"), Child(Ascii("memory"), RegOf(RESERVED, addr, size), Done), Done),
      false, ROOT);
    OnlyChild(Ascii("reserved-memory"), Child(Ascii("memory"), RegOf(RESERVED, addr, size), Done), true, ROOT);
    OnlyChild(Ascii("memory"), RegOf(RESERVED, addr, size), true, RESERVED);
    OneExtent(RESERVED, addr, size);
    OneExtent(marked, addr, size);
    WalkReg(marked, [Extent(addr, size)]);
  }

  const SPEC_MEMORY: Ctx := Ctx(2, 1, false, true)

  /** A memory node below a root that declares no cells: by section 2.3.5 an address has two and a size one. */
  function DefaultMemory(addr: u64, size: u64): Items {
    Child(Ascii("memory"), RegOf(SPEC_MEMORY, addr, size), Done)
  }

  /** The specification finds the memory, the code finds none: it starts with two cells for a size. */
  lemma {:induction false} DefaultCellsDiffer(addr: u64, size: u32)
    ensures Walk(Child([], DefaultMemory(addr, size), Done), Strings(), false, ROOT) == NOTHING
    ensures SpecWalk(DefaultMemory(addr, size), Strings(), ROOT, CellPair(2, 2),
              Declared(DefaultMemory(addr, size), Strings(), SPEC_DEFAULT)) ==
                Outcome([Offer(addr, size, UsableRam)], false)
    ensures !MeetsSpec([], DefaultMemory(addr, size), Strings())
  {
    NodeNames();
    NamesOfStrings();
    NamesDiffer();
    OneExtent(SPEC_MEMORY, addr, size);
    OnlyChild([], DefaultMemory(addr, size), false, ROOT);
    OnlyChild(Ascii("memory"), RegOf(SPEC_MEMORY, addr, size), true, ROOT);
    TooShort(MEMORY, RegBytes(SPEC_MEMORY, [Extent(addr, size)]));
    RegRoundTrip(SPEC_MEMORY, [Extent(addr, size)]);
    SpecReadsDefault(addr, size);
  }

  lemma {:induction false} SpecReadsDefault(addr: u64, size: u32)
    ensures SpecWalk(DefaultMemory(addr, size), Strings(), ROOT, CellPair(2, 2),
              Declared(DefaultMemory(addr, size), Strings(), SPEC_DEFAULT)) ==
                Outcome([Offer(addr, size, UsableRam)], false)
  {
    var value := RegBytes(SPEC_MEMORY, [Extent(addr, size)]);
    var reg := RegOf(SPEC_MEMORY, addr, size);
    NodeNames();
    NamesOfStrings();
    NamesDiffer();
    OneExtent(SPEC_MEMORY, addr, size);
    RegRoundTrip(SPEC_MEMORY, [Extent(addr, size)]);
    assert Declared(DefaultMemory(addr, size), Strings(), SPEC_DEFAULT) == SPEC_DEFAULT;
    assert InCells(MEMORY, SPEC_DEFAULT) == SPEC_MEMORY;
    ThenAssociates(RegOffers(SPEC_MEMORY, value), NOTHING, NOTHING);
    assert SpecWalk(reg, Strings(), MEMORY, SPEC_DEFAULT, Declared(reg, Strings(), SPEC_DEFAULT)) ==
      RegOffers(SPEC_MEMORY, value);
  }

  // ---- Any memory and any reservations -------------------------------------

  function ReservedMemory(taken: seq<Extent>): Items {
    Child(Ascii("reserved-memory"), Child(Ascii("buffer"), Prop(REG, RegBytes(RESERVED, taken), Done), Done), Done)
  }

  /** A tree with these extents of memory, and these reserved. */
  function MemoryTree(ram: seq<Extent>, taken: seq<Extent>): Items {
    Child([], Child(Ascii("memory"), Prop(REG, RegBytes(MEMORY, ram), Done), ReservedMemory(taken)), Done)
  }

  lemma {:induction false} TwoCellsFit(ctx: Ctx, xs: seq<Extent>)
    requires ctx.addrCells == ctx.sizeCells == 2
    ensures FitsReg(ctx, xs)
  {
  }

  lemma {:induction false} MemoryTreeOffers(ram: seq<Extent>, taken: seq<Extent>)
    ensures Walk(MemoryTree(ram, taken), Strings(), false, ROOT) ==
      Outcome(OffersOf(MEMORY, ram) + OffersOf(RESERVED, taken), false)
  {
    NodeNames();
    TwoCellsFit(MEMORY, ram);
    TwoCellsFit(RESERVED, taken);
    WalkReg(MEMORY, ram);
    WalkReg(RESERVED, taken);
    OnlyChild([], Child(Ascii("memory"), Prop(REG, RegBytes(MEMORY, ram), Done), ReservedMemory(taken)), false, ROOT);
    OnlyChild(Ascii("reserved-memory"), Child(Ascii("buffer"), Prop(REG, RegBytes(RESERVED, taken), Done), Done), true,
      ROOT);
    OnlyChild(Ascii("buffer"), Prop(REG, RegBytes(RESERVED, taken), Done), true, RESERVED);
  }
}
