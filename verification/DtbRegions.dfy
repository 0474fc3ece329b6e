/** Memory regions from the device tree (src/mm/dtb.rs, parse). */
module DtbRegions {
  import opened Machine
  import opened Wrappers
  import opened RegionModel
  import opened MemoryMaps
  import opened Boot
  import opened Fdt
  import opened Cells

  /** What the parser remembers of an open node. */
  datatype Ctx = Ctx(addrCells: u32, sizeCells: u32, inReserved: bool, isMemory: bool)

  const ROOT: Ctx := Ctx(2, 2, false, false)

  /** The regions offered to the map, in order, and whether a slice bound stopped the kernel after them. */
  datatype Outcome = Outcome(offers: seq<Offer>, panicked: bool)

  const NOTHING: Outcome := Outcome([], false)

  function Then(a: Outcome, b: Outcome): Outcome {
    if a.panicked then a else Outcome(a.offers + b.offers, b.panicked)
  }

  lemma {:induction false} ThenAssociates(a: Outcome, b: Outcome, c: Outcome)
    ensures Then(Then(a, b), c) == Then(a, Then(b, c))
    ensures Then(NOTHING, a) == a && Then(a, NOTHING) == a
  {
    assert a.offers + b.offers + c.offers == a.offers + (b.offers + c.offers);
    assert [] + a.offers == a.offers && a.offers + [] == a.offers;
  }

  // ---- One property --------------------------------------------------------

  /** Cells per reg entry, in 32-bit arithmetic. */
  function TupleCells(ctx: Ctx): u32 { (ctx.addrCells + ctx.sizeCells) % TWO32 }

  function EntryOffers(ctx: Ctx, addr: u64, size: u64): seq<Offer> {
    if ctx.isMemory then [Offer(addr, size, UsableRam)]
    else if ctx.inReserved then [Offer(addr, size, Reserved)]
    else []
  }

  /** Room for one entry at pos, with the address before the size. */
  predicate EntryAt(ctx: Ctx, value: Bytes, pos: nat) {
    ctx.addrCells <= TupleCells(ctx) && pos + 4 * TupleCells(ctx) <= |value|
  }

  function EntryAddr(ctx: Ctx, value: Bytes, pos: nat): u64
    requires EntryAt(ctx, value, pos)
  {
    CellsRead(value[pos..pos + 4 * ctx.addrCells], ctx.addrCells)
  }

  function EntrySize(ctx: Ctx, value: Bytes, pos: nat): u64
    requires EntryAt(ctx, value, pos)
  {
    CellsRead(value[pos + 4 * ctx.addrCells..pos + 4 * TupleCells(ctx)], ctx.sizeCells)
  }

  /** The reg entries from pos on; when the cell counts wrap, slicing an entry panics. */
  function RegEntries(ctx: Ctx, value: Bytes, pos: nat): Outcome
    requires TupleCells(ctx) > 0
    decreases |value| - pos
  {
    if pos + 4 * TupleCells(ctx) > |value| then NOTHING
    else if ctx.addrCells > TupleCells(ctx) then Outcome([], true)
    else
      Then(Outcome(EntryOffers(ctx, EntryAddr(ctx, value, pos), EntrySize(ctx, value, pos)), false),
           RegEntries(ctx, value, pos + 4 * TupleCells(ctx)))
  }

  function RegOffers(ctx: Ctx, value: Bytes): Outcome {
    if TupleCells(ctx) == 0 then NOTHING else RegEntries(ctx, value, 0)
  }

  /** A reg property panics exactly when its cell counts wrap to a non-zero sum and one entry of that size fits. */
  lemma {:induction false} RegPanicsExactly(ctx: Ctx, value: Bytes)
    ensures RegOffers(ctx, value).panicked <==>
      TWO32 < ctx.addrCells + ctx.sizeCells && 4 * (ctx.addrCells + ctx.sizeCells - TWO32) <= |value|
  {
    if TupleCells(ctx) > 0 {
      if ctx.addrCells + ctx.sizeCells < TWO32 {
        EntriesFit(ctx, value, 0);
      }
    }
  }

  lemma {:induction false} EntriesUnfold(ctx: Ctx, value: Bytes, pos: nat, next: nat)
    requires TupleCells(ctx) > 0 && EntryAt(ctx, value, pos) && next == pos + 4 * TupleCells(ctx)
    ensures RegEntries(ctx, value, pos) ==
      Then(Outcome(EntryOffers(ctx, EntryAddr(ctx, value, pos), EntrySize(ctx, value, pos)), false),
           RegEntries(ctx, value, next))
  {
  }

  lemma {:induction false} TupleCellsIs(ctx: Ctx)
    requires ctx.addrCells + ctx.sizeCells < TWO32
    ensures TupleCells(ctx) == ctx.addrCells + ctx.sizeCells
  {
  }

  lemma {:induction false} EntriesFit(ctx: Ctx, value: Bytes, pos: nat)
    requires TupleCells(ctx) > 0 && ctx.addrCells + ctx.sizeCells < TWO32
    ensures !RegEntries(ctx, value, pos).panicked
    decreases |value| - pos
  {
    var next := pos + 4 * TupleCells(ctx);
    TupleCellsIs(ctx);
    if next <= |value| {
      EntriesUnfold(ctx, value, pos, next);
      EntriesFit(ctx, value, next);
    }
  }

  // ---- Writing a reg property ------------------------------------------------

  datatype Extent = Extent(addr: u64, size: u64)

  predicate FitsReg(ctx: Ctx, xs: seq<Extent>) {
    forall k :: 0 <= k < |xs| ==> FitsCells(xs[k].addr, ctx.addrCells) && FitsCells(xs[k].size, ctx.sizeCells)
  }

  function EntryBytes(ctx: Ctx, x: Extent): (r: Bytes)
    ensures |r| == 4 * (ctx.addrCells + ctx.sizeCells)
  {
    CellsOf(x.addr, ctx.addrCells) + CellsOf(x.size, ctx.sizeCells)
  }

  function RegBytes(ctx: Ctx, xs: seq<Extent>): Bytes {
    if xs == [] then [] else EntryBytes(ctx, xs[0]) + RegBytes(ctx, xs[1..])
  }

  function OffersOf(ctx: Ctx, xs: seq<Extent>): seq<Offer> {
    if xs == [] then [] else EntryOffers(ctx, xs[0].addr, xs[0].size) + OffersOf(ctx, xs[1..])
  }

  lemma {:induction false} Regroup(head: Bytes, a: Bytes, b: Bytes, rest: Bytes)
    ensures head + (a + b) + rest == head + a + (b + rest) == head + a + b + rest
  {
  }

  lemma {:induction false} ReadWrittenEntry(ctx: Ctx, value: Bytes, head: Bytes, x: Extent, rest: Bytes, pos: nat)
    requires ctx.addrCells + ctx.sizeCells < TWO32
    requires FitsCells(x.addr, ctx.addrCells) && FitsCells(x.size, ctx.sizeCells)
    requires value == head + EntryBytes(ctx, x) + rest && pos == |head|
    ensures EntryAt(ctx, value, pos) && EntryAddr(ctx, value, pos) == x.addr && EntrySize(ctx, value, pos) == x.size
  {
    var addr, size := CellsOf(x.addr, ctx.addrCells), CellsOf(x.size, ctx.sizeCells);
    TupleCellsIs(ctx);
    Regroup(head, addr, size, rest);
    ReadField(value, head, x.addr, ctx.addrCells, size + rest, pos, pos + 4 * ctx.addrCells);
    ReadField(value, head + addr, x.size, ctx.sizeCells, rest, pos + 4 * ctx.addrCells, pos + 4 * TupleCells(ctx));
  }

  lemma {:induction false} RegStep(ctx: Ctx, value: Bytes, x: Extent, pos: nat, next: nat)
    requires TupleCells(ctx) > 0 && next == pos + 4 * TupleCells(ctx)
    requires EntryAt(ctx, value, pos) && EntryAddr(ctx, value, pos) == x.addr && EntrySize(ctx, value, pos) == x.size
    ensures RegEntries(ctx, value, pos) ==
      Then(Outcome(EntryOffers(ctx, x.addr, x.size), false), RegEntries(ctx, value, next))
  {
  }

  lemma {:induction false} EntriesRoundTrip(ctx: Ctx, value: Bytes, head: Bytes, xs: seq<Extent>, pos: nat)
    requires 0 < ctx.addrCells + ctx.sizeCells < TWO32 && FitsReg(ctx, xs)
    requires value == head + RegBytes(ctx, xs) && pos == |head|
    ensures TupleCells(ctx) > 0 && RegEntries(ctx, value, pos) == Outcome(OffersOf(ctx, xs), false)
    decreases |xs|
  {
    TupleCellsIs(ctx);
    if xs != [] {
      var entry, rest, next := EntryBytes(ctx, xs[0]), RegBytes(ctx, xs[1..]), pos + 4 * TupleCells(ctx);
      assert value == head + entry + rest;
      ReadWrittenEntry(ctx, value, head, xs[0], rest, pos);
      RegStep(ctx, value, xs[0], pos, next);
      EntriesRoundTrip(ctx, value, head + entry, xs[1..], next);
    }
  }

  /** Writing addresses and sizes as cells and reading the property offers exactly those, in order. */
  lemma {:induction false} RegRoundTrip(ctx: Ctx, xs: seq<Extent>)
    requires 0 < ctx.addrCells + ctx.sizeCells < TWO32 && FitsReg(ctx, xs)
    ensures RegOffers(ctx, RegBytes(ctx, xs)) == Outcome(OffersOf(ctx, xs), false)
  {
    EntriesRoundTrip(ctx, RegBytes(ctx, xs), [], xs, 0);
  }

  predicate StartsWith(name: Bytes, prefix: Bytes) {
    |prefix| <= |name| && name[..|prefix|] == prefix
  }

  /** A node inherits everything from its parent and may add flags by its name. */
  function Entered(parent: Ctx, name: Bytes): Ctx {
    parent.(inReserved := parent.inReserved || StartsWith(name, Ascii("reserved-memory")),
            isMemory := parent.isMemory || StartsWith(name, Ascii("memory")))
  }

  function WithCells(ctx: Ctx, name: Bytes, value: Bytes): Ctx {
    if name == Ascii("#address-cells") then if |value| >= 4 then ctx.(addrCells := ReadBe32(value, 0)) else ctx
    else if name == Ascii("#size-cells") then if |value| >= 4 then ctx.(sizeCells := ReadBe32(value, 0)) else ctx
    else ctx
  }

  predicate IsCells(name: Bytes) { name == Ascii("#address-cells") || name == Ascii("#size-cells") }

  /** The context after a property. */
  function CtxAfter(ctx: Ctx, name: Bytes, value: Bytes): Ctx {
    if IsCells(name) then WithCells(ctx, name, value)
    else if name == Ascii("device_type") then ctx.(isMemory := ctx.isMemory || StartsWith(value, Ascii("memory")))
    else ctx
  }

  /** The regions of a property. */
  function PropOffers(ctx: Ctx, name: Bytes, value: Bytes): Outcome {
    if !IsCells(name) && name != Ascii("device_type") && name == Ascii("reg") then RegOffers(ctx, value) else NOTHING
  }

  // ---- The scan: events and a stack of open nodes ---------------------------

  function Regions(events: Events, strings: Bytes, open: seq<Ctx>): Outcome {
    match events
    case Nil => NOTHING
    case Cons(BeginNode(name), rest) =>
      Regions(rest, strings, if |open| < MAX_DEPTH then open + [Entered(Top(open, ROOT), name)] else open)
    case Cons(EndNode, rest) =>
      Regions(rest, strings, if |open| > 0 then open[..|open| - 1] else open)
    case Cons(Property(nameoff, value), rest) =>
      if open == [] then Regions(rest, strings, open)
      else
        var name := GetString(strings, nameoff);
        Then(PropOffers(Top(open, ROOT), name, value),
          Regions(rest, strings, WithTop(open, CtxAfter(Top(open, ROOT), name, value))))
  }

  // ---- The tree walk --------------------------------------------------------

  /** Visits the items of a node, or those above the root, with the node's context. */
  function Walk(t: Items, strings: Bytes, inNode: bool, ctx: Ctx): Outcome {
    match t
    case Done => NOTHING
    case Nop(rest) => Walk(rest, strings, inNode, ctx)
    case Prop(nameoff, value, rest) =>
      if !inNode then Walk(rest, strings, inNode, ctx)
      else
        var name := GetString(strings, nameoff);
        Then(PropOffers(ctx, name, value), Walk(rest, strings, inNode, CtxAfter(ctx, name, value)))
    case Child(name, body, rest) =>
      Then(Walk(body, strings, true, Entered(ctx, name)), Walk(rest, strings, inNode, ctx))
  }

  /** The context once the items have been visited. */
  function After(t: Items, strings: Bytes, inNode: bool, ctx: Ctx): Ctx {
    match t
    case Done => ctx
    case Nop(rest) => After(rest, strings, inNode, ctx)
    case Prop(nameoff, value, rest) =>
      After(rest, strings, inNode, if inNode then CtxAfter(ctx, GetString(strings, nameoff), value) else ctx)
    case Child(_, _, rest) => After(rest, strings, inNode, ctx)
  }

  lemma {:induction false} TopOfPushed(open: seq<Ctx>, ctx: Ctx, ctx': Ctx)
    ensures Top(open + [ctx], ROOT) == ctx && WithTop(open + [ctx], ctx') == open + [ctx']
    ensures (open + [ctx])[..|open|] == open
  {
    assert (open + [ctx])[..|open|] == open;
  }

  lemma {:induction false} TopOfReplaced(open: seq<Ctx>, ctx: Ctx, ctx': Ctx)
    requires open != []
    ensures WithTop(open, ctx) != [] && |WithTop(open, ctx)| == |open|
    ensures Top(WithTop(open, ctx), ROOT) == ctx && WithTop(WithTop(open, ctx), ctx') == WithTop(open, ctx')
  {
    TopOfPushed(open[..|open| - 1], ctx, ctx');
  }

  /** Scanning the events of a tree is walking it, for every tree that does not overflow the stack. */
  lemma {:induction false} RegionsOfTree(t: Items, k: Events, strings: Bytes, open: seq<Ctx>)
    requires |open| + Depth(t) <= MAX_DEPTH
    ensures Regions(EventsOf(t, k), strings, open) ==
      Then(Walk(t, strings, open != [], Top(open, ROOT)),
           Regions(k, strings, WithTop(open, After(t, strings, open != [], Top(open, ROOT)))))
    decreases t
  {
    match t
    case Done =>
      SameTop(open);
      ThenAssociates(Regions(k, strings, open), NOTHING, NOTHING);
    case Nop(rest) =>
      RegionsOfTree(rest, k, strings, open);
    case Prop(nameoff, value, rest) =>
      if open == [] {
        RegionsOfTree(rest, k, strings, open);
      } else {
        PropCase(nameoff, value, rest, k, strings, open);
      }
    case Child(name, body, rest) =>
      ChildCase(name, body, rest, k, strings, open);
  }

  lemma {:induction false} SameTop(open: seq<Ctx>)
    ensures WithTop(open, Top(open, ROOT)) == open
  {
  }

  lemma {:induction false} PropCase(nameoff: u32, value: Bytes, rest: Items, k: Events, strings: Bytes, open: seq<Ctx>)
    requires |open| + Depth(rest) <= MAX_DEPTH && open != []
    ensures Regions(EventsOf(Prop(nameoff, value, rest), k), strings, open) ==
      Then(Walk(Prop(nameoff, value, rest), strings, true, Top(open, ROOT)),
           Regions(k, strings, WithTop(open, After(Prop(nameoff, value, rest), strings, true, Top(open, ROOT)))))
    decreases Prop(nameoff, value, rest), 0
  {
    var name := GetString(strings, nameoff);
    var ctx := CtxAfter(Top(open, ROOT), name, value);
    var end := After(rest, strings, true, ctx);
    TopOfReplaced(open, ctx, end);
    RegionsOfTree(rest, k, strings, WithTop(open, ctx));
    ThenAssociates(PropOffers(Top(open, ROOT), name, value), Walk(rest, strings, true, ctx),
      Regions(k, strings, WithTop(open, end)));
  }

  lemma {:induction false} ChildCase(name: Bytes, body: Items, rest: Items, k: Events, strings: Bytes, open: seq<Ctx>)
    requires |open| + Depth(Child(name, body, rest)) <= MAX_DEPTH
    ensures Regions(EventsOf(Child(name, body, rest), k), strings, open) ==
      Then(Walk(Child(name, body, rest), strings, open != [], Top(open, ROOT)),
           Regions(k, strings, WithTop(open, After(Child(name, body, rest), strings, open != [], Top(open, ROOT)))))
    decreases Child(name, body, rest), 0
  {
    var ctx := Entered(Top(open, ROOT), name);
    var after := EventsOf(rest, k);
    var end := After(body, strings, true, ctx);
    TopOfPushed(open, ctx, end);
    RegionsOfTree(body, Cons(EndNode, after), strings, open + [ctx]);
    TopOfPushed(open, end, end);
    RegionsOfTree(rest, k, strings, open);
    ThenAssociates(Walk(body, strings, true, ctx), Walk(rest, strings, open != [], Top(open, ROOT)),
      Regions(k, strings, WithTop(open, After(rest, strings, open != [], Top(open, ROOT)))));
  }

  /**
   The round trip. For every tree at most 32 levels deep, with NOPs anywhere,
   scanning its structure block offers exactly the regions of the tree walk,
   in order, and panics exactly when the walk does.
  */
  lemma {:induction false} ScanIsWalk(t: Items, trailing: Bytes, strings: Bytes)
    requires WellFormed(t) && Depth(t) <= MAX_DEPTH
    ensures Regions(Tokens(StructBlock(t, trailing), 0), strings, []) == Walk(t, strings, false, ROOT)
  {
    RoundTrip(t, trailing);
    RegionsOfTree(t, Nil, strings, []);
    ThenAssociates(Walk(t, strings, false, ROOT), NOTHING, NOTHING);
  }

  // ---- The scanning loop ----------------------------------------------------

  method AddEntry(table: MemoryMap, ghost raw: seq<Region>, ghost done: seq<Offer>, ctx: Ctx, addr: u64, size: u64)
    requires table.Valid() && table.View() == AddedAll(raw, done)
    modifies table, table.regions
    ensures table.Valid() && table.View() == AddedAll(raw, done + EntryOffers(ctx, addr, size))
  {
    if ctx.isMemory {
      AddOffer(table, raw, done, Offer(addr, size, UsableRam));
    } else if ctx.inReserved {
      AddOffer(table, raw, done, Offer(addr, size, Reserved));
    } else {
      assert done + [] == done;
    }
  }

  method ReadEntry(ctx: Ctx, value: Bytes, pos: nat) returns (addr: u64, size: u64)
    requires EntryAt(ctx, value, pos)
    ensures addr == EntryAddr(ctx, value, pos) && size == EntrySize(ctx, value, pos)
  {
    addr := ReadCells(value[pos..pos + 4 * ctx.addrCells], ctx.addrCells);
    size := ReadCells(value[pos + 4 * ctx.addrCells..pos + 4 * TupleCells(ctx)], ctx.sizeCells);
  }

  /** One more entry read. */
  lemma {:induction false} EntryStep(ctx: Ctx, value: Bytes, pos: nat, next: nat, done: seq<Offer>, offers: seq<Offer>,
        more: seq<Offer>)
    requires TupleCells(ctx) > 0 && EntryAt(ctx, value, pos) && next == pos + 4 * TupleCells(ctx)
    requires more == EntryOffers(ctx, EntryAddr(ctx, value, pos), EntrySize(ctx, value, pos))
    ensures Then(Outcome(offers, false), RegEntries(ctx, value, pos)) ==
      Then(Outcome(offers + more, false), RegEntries(ctx, value, next))
    ensures done + offers + more == done + (offers + more)
  {
    EntriesUnfold(ctx, value, pos, next);
    ThenAssociates(Outcome(offers, false), Outcome(more, false), RegEntries(ctx, value, next));
  }

  /** The reg property: one region per entry. */
  method AddReg(table: MemoryMap, ghost raw: seq<Region>, ghost done: seq<Offer>, ctx: Ctx, value: Bytes)
    returns (panicked: bool, ghost offers: seq<Offer>)
    requires table.Valid() && table.View() == AddedAll(raw, done)
    modifies table, table.regions
    ensures Outcome(offers, panicked) == RegOffers(ctx, value)
    ensures table.Valid() && table.View() == AddedAll(raw, done + offers)
  {
    offers := [];
    assert done + [] == done;
    if TupleCells(ctx) == 0 {
      return false, [];
    }
    var pos: nat := 0;
    ThenAssociates(RegOffers(ctx, value), NOTHING, NOTHING);
    while pos + 4 * TupleCells(ctx) <= |value|
      invariant table.Valid() && table.View() == AddedAll(raw, done + offers)
      invariant RegOffers(ctx, value) == Then(Outcome(offers, false), RegEntries(ctx, value, pos))
      decreases |value| - pos
    {
      if ctx.addrCells > TupleCells(ctx) {
        assert offers + [] == offers;
        return true, offers;
      }
      var addr, size := ReadEntry(ctx, value, pos);
      ghost var more := EntryOffers(ctx, addr, size);
      var next := pos + 4 * TupleCells(ctx);
      EntryStep(ctx, value, pos, next, done, offers, more);
      AddEntry(table, raw, done + offers, ctx, addr, size);
      offers := offers + more;
      pos := next;
    }
    panicked := false;
    assert offers + [] == offers;
  }

  method HasPrefix(name: Bytes, prefix: Bytes) returns (r: bool)
    ensures r == StartsWith(name, prefix)
  {
    if |name| < |prefix| {
      return false;
    }
    return name[..|prefix|] == prefix;
  }

  /** A property of an open node: it may change the node's context or offer regions. */
  method ReadProp(table: MemoryMap, ghost raw: seq<Region>, ghost done: seq<Offer>, ctx: Ctx, name: Bytes, value: Bytes)
    returns (ctx': Ctx, panicked: bool, ghost offers: seq<Offer>)
    requires table.Valid() && table.View() == AddedAll(raw, done)
    modifies table, table.regions
    ensures ctx' == CtxAfter(ctx, name, value) && Outcome(offers, panicked) == PropOffers(ctx, name, value)
    ensures table.Valid() && table.View() == AddedAll(raw, done + offers)
  {
    ctx', panicked, offers := ctx, false, [];
    assert done + [] == done;
    if name == Ascii("#address-cells") {
      if |value| >= 4 {
        ctx' := ctx.(addrCells := ReadBe32(value, 0));
      }
    } else if name == Ascii("#size-cells") {
      if |value| >= 4 {
        ctx' := ctx.(sizeCells := ReadBe32(value, 0));
      }
    } else if name == Ascii("device_type") {
      var memory := HasPrefix(value, Ascii("memory"));
      if memory {
        ctx' := ctx.(isMemory := true);
      }
    } else if name == Ascii("reg") {
      panicked, offers := AddReg(table, raw, done, ctx, value);
    }
  }

  method Enter(parent: Ctx, name: Bytes) returns (ctx: Ctx)
    ensures ctx == Entered(parent, name)
  {
    ctx := parent;
    var reserved := HasPrefix(name, Ascii("reserved-memory"));
    if reserved {
      ctx := ctx.(inReserved := true);
    }
    var memory := HasPrefix(name, Ascii("memory"));
    if memory {
      ctx := ctx.(isMemory := true);
    }
  }

  method HandleProperty(stack: array<Ctx>, depth: nat, ghost strings: Bytes, ghost nameoff: u32, name: Bytes,
        value: Bytes, table: MemoryMap, ghost raw: seq<Region>, ghost offers: seq<Offer>, ghost rest: Events)
    returns (panicked: bool, ghost more: seq<Offer>)
    requires stack.Length == MAX_DEPTH && 0 < depth <= MAX_DEPTH && name == GetString(strings, nameoff)
    requires table.Valid() && table.View() == AddedAll(raw, offers)
    modifies stack, table, table.regions
    ensures table.Valid() && table.View() == AddedAll(raw, offers + more)
    ensures Then(Outcome(offers, false), Regions(Cons(Property(nameoff, value), rest), strings, old(stack[..depth]))) ==
      if panicked then Outcome(offers + more, true)
      else Then(Outcome(offers + more, false), Regions(rest, strings, stack[..depth]))
  {
    ghost var open := stack[..depth];
    var ctx;
    ctx, panicked, more := ReadProp(table, raw, offers, stack[depth - 1], name, value);
    PropStep(offers, more, panicked, name, value, nameoff, strings, open, rest);
    stack[depth - 1] := ctx;
    assert stack[..depth] == WithTop(open, ctx);
  }

  /** Entering a node: its context goes on the stack while there is room. */
  method HandleBegin(stack: array<Ctx>, depth: nat, name: Bytes) returns (depth': nat)
    requires stack.Length == MAX_DEPTH && depth <= MAX_DEPTH
    modifies stack
    ensures depth' <= MAX_DEPTH
    ensures var open := old(stack[..depth]);
      stack[..depth'] == if depth < MAX_DEPTH then open + [Entered(Top(open, ROOT), name)] else open
  {
    ghost var open := stack[..depth];
    depth' := depth;
    var parent := if depth == 0 then ROOT else stack[depth - 1];
    var ctx := Enter(parent, name);
    if depth < MAX_DEPTH {
      stack[depth] := ctx;
      depth' := depth + 1;
      assert stack[..depth'] == open + [ctx];
    }
  }

  method HandleEnd(stack: array<Ctx>, depth: nat) returns (depth': nat)
    requires stack.Length == MAX_DEPTH && depth <= MAX_DEPTH
    ensures depth' <= depth
    ensures var open := stack[..depth]; stack[..depth'] == if depth > 0 then open[..|open| - 1] else open
  {
    depth' := if depth > 0 then depth - 1 else depth;
  }

  /** One event: the stack of open nodes is stack[..depth]; rest is what follows the event. */
  method HandleEvent(stack: array<Ctx>, depth: nat, strings: Bytes, event: Event, table: MemoryMap,
        ghost raw: seq<Region>, ghost offers: seq<Offer>, ghost rest: Events)
    returns (depth': nat, panicked: bool, ghost more: seq<Offer>)
    requires stack.Length == MAX_DEPTH && depth <= MAX_DEPTH
    requires table.Valid() && table.View() == AddedAll(raw, offers)
    modifies stack, table, table.regions
    ensures depth' <= MAX_DEPTH && table.Valid() && table.View() == AddedAll(raw, offers + more)
    ensures Then(Outcome(offers, false), Regions(Cons(event, rest), strings, old(stack[..depth]))) ==
      if panicked then Outcome(offers + more, true)
      else Then(Outcome(offers + more, false), Regions(rest, strings, stack[..depth']))
  {
    depth', panicked, more := depth, false, [];
    assert offers + [] == offers;
    match event
    case BeginNode(name) => depth' := HandleBegin(stack, depth, name);
    case EndNode => depth' := HandleEnd(stack, depth);
    case Property(nameoff, value) =>
      var name := StringAt(strings, nameoff);
      if depth > 0 {
        panicked, more := HandleProperty(stack, depth, strings, nameoff, name, value, table, raw, offers, rest);
      }
  }

  /** The loop of parse over the structure block. */
  method ScanRegions(s: Bytes, strings: Bytes, table: MemoryMap) returns (panicked: bool, ghost offers: seq<Offer>)
    requires table.Valid()
    modifies table, table.regions
    ensures Outcome(offers, panicked) == Regions(Tokens(s, 0), strings, [])
    ensures table.Valid() && table.View() == AddedAll(old(table.View()), offers)
  {
    ghost var raw := table.View();
    ghost var all := Regions(Tokens(s, 0), strings, []);
    var stack := new Ctx[MAX_DEPTH](_ => ROOT);
    var depth: nat, offset: nat := 0, 0;
    offers, panicked := [], false;
    ThenAssociates(all, NOTHING, NOTHING);
    var t := NextToken(s, offset);
    while !t.Stop?
      invariant depth <= MAX_DEPTH && t == TokenAt(s, offset) && table.Valid() && table.View() == AddedAll(raw, offers)
      invariant all == Then(Outcome(offers, false), Regions(Tokens(s, offset), strings, stack[..depth]))
      decreases |s| - offset
    {
      TokensStep(s, offset);
      if t.Item? {
        ghost var more;
        depth, panicked, more := HandleEvent(stack, depth, strings, t.event, table, raw, offers, Tokens(s, t.next));
        offers := offers + more;
        if panicked {
          return;
        }
      }
      offset := t.next;
      t := NextToken(s, offset);
    }
    TokensStep(s, offset);
    assert offers + [] == offers;
  }

  lemma {:induction false} PropStep(offers: seq<Offer>, more: seq<Offer>, stop: bool, name: Bytes, value: Bytes,
        nameoff: u32, strings: Bytes, open: seq<Ctx>, rest: Events)
    requires open != [] && name == GetString(strings, nameoff) &&
      Outcome(more, stop) == PropOffers(Top(open, ROOT), name, value)
    ensures Then(Outcome(offers, false), Regions(Cons(Property(nameoff, value), rest), strings, open)) ==
      if stop then Outcome(offers + more, true)
      else Then(Outcome(offers + more, false),
        Regions(rest, strings, WithTop(open, CtxAfter(Top(open, ROOT), name, value))))
  {
    ThenAssociates(Outcome(offers, false), Outcome(more, stop),
      Regions(rest, strings, WithTop(open, CtxAfter(Top(open, ROOT), name, value))));
  }

  // ---- The blob -------------------------------------------------------------

  const FDT_MAGIC: u32 := 0xD00D_FEED

  /** The header fields the parser uses (Devicetree Specification, section 5.2). */
  datatype Header = Header(totalSize: u32, structAt: u32, stringsAt: u32, stringsSize: u32, structSize: u32)

  function ReadHeader(mem: Bytes): Header
    requires |mem| >= 40
  {
    Header(ReadBe32(mem, 4), ReadBe32(mem, 8), ReadBe32(mem, 12), ReadBe32(mem, 32), ReadBe32(mem, 36))
  }

  predicate IsFdt(mem: Bytes)
    requires |mem| >= 40
  {
    ReadBe32(mem, 0) == FDT_MAGIC
  }

  /** The memory from the blob's address on reaches to the end of both blocks; the original reads it unchecked. */
  predicate Readable(mem: Bytes) {
    && |mem| >= 40
    && (IsFdt(mem) ==>
          var h := ReadHeader(mem); h.structAt + h.structSize <= |mem| && h.stringsAt + h.stringsSize <= |mem|)
  }

  function StructOf(mem: Bytes): Bytes
    requires Readable(mem) && IsFdt(mem)
  {
    var h := ReadHeader(mem); mem[h.structAt..h.structAt + h.structSize]
  }

  function StringsOf(mem: Bytes): Bytes
    requires Readable(mem) && IsFdt(mem)
  {
    var h := ReadHeader(mem); mem[h.stringsAt..h.stringsAt + h.stringsSize]
  }

  /** What parse makes of the memory at an address. */
  function ParsedRegions(dtbPa: u64, mem: Bytes): Outcome
    requires Readable(mem)
  {
    if dtbPa == 0 || !IsFdt(mem) then NOTHING else Regions(Tokens(StructOf(mem), 0), StringsOf(mem), [])
  }

  method Blocks(mem: Bytes) returns (structBlock: Bytes, strings: Bytes)
    requires Readable(mem) && IsFdt(mem)
    ensures structBlock == StructOf(mem) && strings == StringsOf(mem)
  {
    var h := ReadHeader(mem);
    structBlock, strings := mem[h.structAt..h.structAt + h.structSize], mem[h.stringsAt..h.stringsAt + h.stringsSize];
  }

  method Parse(dtbPa: u64, mem: Bytes, table: MemoryMap)
    returns (total: Option<u32>, panicked: bool, ghost offers: seq<Offer>)
    requires Readable(mem) && table.Valid()
    modifies table, table.regions
    ensures Outcome(offers, panicked) == ParsedRegions(dtbPa, mem)
    ensures table.Valid() && table.View() == AddedAll(old(table.View()), offers)
    ensures !panicked ==> total == if dtbPa == 0 || !IsFdt(mem) then None else Some(ReadHeader(mem).totalSize)
  {
    if dtbPa == 0 || ReadBe32(mem, 0) != FDT_MAGIC {
      return None, false, [];
    }
    var structBlock, strings := Blocks(mem);
    panicked, offers := ScanRegions(structBlock, strings, table);
    total := Some(ReadHeader(mem).totalSize);
  }

  /** A blob whose structure block is that of a tree, wherever its blocks stand, is parsed into the tree's regions. */
  lemma {:induction false} BlobYieldsWalk(dtbPa: u64, mem: Bytes, t: Items, trailing: Bytes)
    requires dtbPa != 0 && Readable(mem) && IsFdt(mem)
    requires WellFormed(t) && Depth(t) <= MAX_DEPTH && StructOf(mem) == StructBlock(t, trailing)
    ensures ParsedRegions(dtbPa, mem) == Walk(t, StringsOf(mem), false, ROOT)
  {
    ScanIsWalk(t, trailing, StringsOf(mem));
  }
}
