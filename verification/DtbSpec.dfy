/**
 What the regions read from a device tree mean: which property each comes from,
 when memory below reserved-memory stays reserved, and when the parser reads
 what the Devicetree Specification prescribes (src/mm/dtb.rs, parse).
*/
module DtbSpec {
  import opened Machine
  import opened Wrappers
  import opened RegionModel
  import opened Fdt
  import opened Cells
  import opened DtbRegions

  lemma {:induction false} NamesDiffer()
    ensures Ascii("#address-cells") != Ascii("#size-cells") && Ascii("reg") != Ascii("device_type")
    ensures !IsCells(Ascii("reg")) && !IsCells(Ascii("device_type"))
  {
    assert |Ascii("#address-cells")| == 14 && |Ascii("#size-cells")| == 11;
    assert |Ascii("reg")| == 3 && |Ascii("device_type")| == 11;
    assert Ascii("#size-cells")[0] == 35 && Ascii("device_type")[0] == 100;
  }

  // ---- The Devicetree Specification -----------------------------------------

  /**
   The cell counts a node declares for its children: the last of each property,
   2 and 1 by default (section 2.3.5).
  */
  datatype CellPair = CellPair(addr: u32, size: u32)

  const SPEC_DEFAULT: CellPair := CellPair(2, 1)

  function Declares(cells: CellPair, name: Bytes, value: Bytes): CellPair {
    if |value| < 4 then cells
    else if name == Ascii("#address-cells") then cells.(addr := ReadBe32(value, 0))
    else if name == Ascii("#size-cells") then cells.(size := ReadBe32(value, 0))
    else cells
  }

  function Declared(t: Items, strings: Bytes, cells: CellPair): CellPair {
    match t
    case Done => cells
    case Nop(rest) => Declared(rest, strings, cells)
    case Prop(nameoff, value, rest) => Declared(rest, strings, Declares(cells, GetString(strings, nameoff), value))
    case Child(_, _, rest) => Declared(rest, strings, cells)
  }

  function InCells(ctx: Ctx, cells: CellPair): Ctx {
    ctx.(addrCells := cells.addr, sizeCells := cells.size)
  }

  /**
   The walk as section 2.3.6 describes it: reg is read with the cells that the
   parent declares, anywhere in the parent, and nothing is inherited further
   down. The flags are as in the code; outer are the parent's cells, own what
   this node declares for its children.
  */
  function SpecWalk(t: Items, strings: Bytes, flags: Ctx, outer: CellPair, own: CellPair): Outcome {
    match t
    case Done => NOTHING
    case Nop(rest) => SpecWalk(rest, strings, flags, outer, own)
    case Prop(nameoff, value, rest) =>
      var name := GetString(strings, nameoff);
      Then(PropOffers(InCells(flags, outer), name, value),
           SpecWalk(rest, strings, if IsCells(name) then flags else CtxAfter(flags, name, value), outer, own))
    case Child(name, body, rest) =>
      Then(SpecWalk(body, strings, Entered(flags, name), own, Declared(body, strings, SPEC_DEFAULT)),
           SpecWalk(rest, strings, flags, outer, own))
  }

  /** Both cell properties come before the first child, and no reg of the node comes after either of them. */
  predicate Orderly(t: Items, strings: Bytes, addrSet: bool, sizeSet: bool, closed: bool) {
    match t
    case Done => true
    case Nop(rest) => Orderly(rest, strings, addrSet, sizeSet, closed)
    case Prop(nameoff, value, rest) =>
      var name := GetString(strings, nameoff);
      if IsCells(name) then
        !closed && |value| >= 4 &&
        Orderly(rest, strings, addrSet || name == Ascii("#address-cells"), sizeSet ||
          name == Ascii("#size-cells"), closed)
      else
        (name == Ascii("reg") ==> !addrSet && !sizeSet) && Orderly(rest, strings, addrSet, sizeSet, closed)
    case Child(_, body, rest) =>
      addrSet && sizeSet && Orderly(body, strings, false, false, false) &&
        Orderly(rest, strings, addrSet, sizeSet, true)
  }

  lemma {:induction false} DeclaredIsFixed(t: Items, strings: Bytes, cells: CellPair)
    requires Orderly(t, strings, true, true, true)
    ensures Declared(t, strings, cells) == cells
  {
    match t
    case Done =>
    case Nop(rest) => DeclaredIsFixed(rest, strings, cells);
    case Prop(_, _, rest) => DeclaredIsFixed(rest, strings, cells);
    case Child(_, _, rest) => DeclaredIsFixed(rest, strings, cells);
  }

  /** Which cells the code holds while it is inside a node: the parent's until the node sets its own. */
  ghost predicate Holding(ctx: Ctx, outer: CellPair, cells: CellPair, addrSet: bool, sizeSet: bool) {
    && ctx.addrCells == (if addrSet then cells.addr else outer.addr)
    && ctx.sizeCells == (if sizeSet then cells.size else outer.size)
  }

  lemma {:induction false} WalkMeetsSpec(t: Items, strings: Bytes, ctx: Ctx, flags: Ctx, outer: CellPair,
        cells: CellPair, addrSet: bool, sizeSet: bool, closed: bool)
    requires Orderly(t, strings, addrSet, sizeSet, closed) && Holding(ctx, outer, cells, addrSet, sizeSet)
    requires ctx.inReserved == flags.inReserved && ctx.isMemory == flags.isMemory
    requires closed ==> addrSet && sizeSet
    ensures Walk(t, strings, true, ctx) == SpecWalk(t, strings, flags, outer, Declared(t, strings, cells))
    decreases t
  {
    match t
    case Done =>
    case Nop(rest) => WalkMeetsSpec(rest, strings, ctx, flags, outer, cells, addrSet, sizeSet, closed);
    case Prop(nameoff, value, rest) =>
      var name := GetString(strings, nameoff);
      PropMeetsSpec(name, value, ctx, flags, outer, cells, addrSet, sizeSet);
      WalkMeetsSpec(rest, strings, CtxAfter(ctx, name, value), if IsCells(name) then flags
        else CtxAfter(flags, name, value),
        outer, Declares(cells, name, value), addrSet || name == Ascii("#address-cells"),
        sizeSet || name == Ascii("#size-cells"), closed);
    case Child(name, body, rest) =>
      DeclaredIsFixed(rest, strings, cells);
      WalkMeetsSpec(body, strings, Entered(ctx, name), Entered(flags, name), cells, SPEC_DEFAULT, false, false, false);
      WalkMeetsSpec(rest, strings, ctx, flags, outer, cells, true, true, true);
  }

  lemma {:induction false} PropMeetsSpec(name: Bytes, value: Bytes, ctx: Ctx, flags: Ctx, outer: CellPair,
        cells: CellPair, addrSet: bool, sizeSet: bool)
    requires Holding(ctx, outer, cells, addrSet, sizeSet)
    requires ctx.inReserved == flags.inReserved && ctx.isMemory == flags.isMemory
    requires IsCells(name) ==> |value| >= 4
    requires name == Ascii("reg") ==> !addrSet && !sizeSet
    ensures PropOffers(ctx, name, value) == PropOffers(InCells(flags, outer), name, value)
    ensures Holding(CtxAfter(ctx, name, value), outer, Declares(cells, name, value),
              addrSet || name == Ascii("#address-cells"), sizeSet || name == Ascii("#size-cells"))
    ensures var flags' := if IsCells(name) then flags else CtxAfter(flags, name, value);
      && CtxAfter(ctx, name, value).inReserved == flags'.inReserved &&
        CtxAfter(ctx, name, value).isMemory == flags'.isMemory
  {
    NamesDiffer();
    if name == Ascii("reg") {
      assert ctx == InCells(flags, outer);
    }
  }

  /**
   For a tree whose nodes set both cell properties before their children and
   after their own reg, the code reads what the specification prescribes. The
   root has no parent; its own reg, if any, is read with two cells each.
  */
  lemma {:induction false} OrderlyTreesMeetSpec(name: Bytes, body: Items, strings: Bytes)
    requires Orderly(body, strings, false, false, false)
    ensures Walk(Child(name, body, Done), strings, false, ROOT) ==
      SpecWalk(body, strings, Entered(ROOT, name), CellPair(2, 2), Declared(body, strings, SPEC_DEFAULT))
  {
    var ctx := Entered(ROOT, name);
    WalkMeetsSpec(body, strings, ctx, ctx, CellPair(2, 2), SPEC_DEFAULT, false, false, false);
    ThenAssociates(Walk(body, strings, true, ctx), NOTHING, NOTHING);
  }

  // ---- The reg properties of a tree ----------------------------------------

  /**
   A reg property as the walk meets it: the context held there, the cells that
   the parent declares, and the marks so far: the names of the enclosing nodes
   and the device types set in them before it.
  */
  datatype Reading = Reading(held: Ctx, declared: CellPair, marks: seq<Bytes>, value: Bytes)

  /** The context to read it in: the one held, or the one of the specification. */
  function CtxOf(r: Reading, spec: bool): Ctx { if spec then InCells(r.held, r.declared) else r.held }

  function Readings(t: Items, strings: Bytes, ctx: Ctx, marks: seq<Bytes>, outer: CellPair, own: CellPair): seq<Reading>
  {
    match t
    case Done => []
    case Nop(rest) => Readings(rest, strings, ctx, marks, outer, own)
    case Prop(nameoff, value, rest) =>
      var name := GetString(strings, nameoff);
      if name == Ascii("reg") then [Reading(ctx, outer, marks, value)] + Readings(rest, strings, ctx, marks, outer, own)
      else
        Readings(rest, strings, CtxAfter(ctx, name, value), if name == Ascii("device_type") then marks + [value]
          else marks,
          outer, own)
    case Child(name, body, rest) =>
      Readings(body, strings, Entered(ctx, name), marks + [name], own, Declared(body, strings, SPEC_DEFAULT)) +
      Readings(rest, strings, ctx, marks, outer, own)
  }

  /** The regions of some reg properties, in order. */
  function InOrder(rs: seq<Reading>, spec: bool): Outcome {
    if rs == [] then NOTHING else Then(RegOffers(CtxOf(rs[0], spec), rs[0].value), InOrder(rs[1..], spec))
  }

  lemma {:induction false} InOrderConcat(a: seq<Reading>, b: seq<Reading>, spec: bool)
    ensures InOrder(a + b, spec) == Then(InOrder(a, spec), InOrder(b, spec))
  {
    if a == [] {
      assert a + b == b;
      ThenAssociates(InOrder(b, spec), NOTHING, NOTHING);
    } else {
      assert (a + b)[1..] == a[1..] + b;
      InOrderConcat(a[1..], b, spec);
      ThenAssociates(RegOffers(CtxOf(a[0], spec), a[0].value), InOrder(a[1..], spec), InOrder(b, spec));
    }
  }

  lemma {:induction false} OneMore(r: Reading, rest: seq<Reading>, spec: bool)
    ensures InOrder([r] + rest, spec) == Then(RegOffers(CtxOf(r, spec), r.value), InOrder(rest, spec))
  {
    assert ([r] + rest)[1..] == rest;
  }

  /** The walk is its reg properties in order, each read in the context held there. */
  lemma {:induction false} WalkIsReadings(t: Items, strings: Bytes, ctx: Ctx, marks: seq<Bytes>, outer: CellPair,
        own: CellPair)
    ensures Walk(t, strings, true, ctx) == InOrder(Readings(t, strings, ctx, marks, outer, own), false)
    decreases t
  {
    match t
    case Done =>
    case Nop(rest) => WalkIsReadings(rest, strings, ctx, marks, outer, own);
    case Prop(nameoff, value, rest) =>
      var name := GetString(strings, nameoff);
      NamesDiffer();
      if name == Ascii("reg") {
        WalkIsReadings(rest, strings, ctx, marks, outer, own);
        OneMore(Reading(ctx, outer, marks, value), Readings(rest, strings, ctx, marks, outer, own), false);
      } else {
        var marks' := if name == Ascii("device_type") then marks + [value] else marks;
        WalkIsReadings(rest, strings, CtxAfter(ctx, name, value), marks', outer, own);
        ThenAssociates(Walk(rest, strings, true, CtxAfter(ctx, name, value)), NOTHING, NOTHING);
      }
    case Child(name, body, rest) =>
      var inner := Declared(body, strings, SPEC_DEFAULT);
      WalkIsReadings(body, strings, Entered(ctx, name), marks + [name], own, inner);
      WalkIsReadings(rest, strings, ctx, marks, outer, own);
      InOrderConcat(Readings(body, strings, Entered(ctx, name), marks + [name], own, inner),
        Readings(rest, strings, ctx, marks, outer, own), false);
  }

  predicate SameFlags(a: Ctx, b: Ctx) { a.inReserved == b.inReserved && a.isMemory == b.isMemory }

  /** So is the walk of the specification, each read with the parent's cells. */
  lemma {:induction false} SpecWalkIsReadings(t: Items, strings: Bytes, ctx: Ctx, flags: Ctx, marks: seq<Bytes>,
        outer: CellPair, own: CellPair)
    requires SameFlags(ctx, flags)
    ensures SpecWalk(t, strings, flags, outer, own) == InOrder(Readings(t, strings, ctx, marks, outer, own), true)
    decreases t
  {
    match t
    case Done =>
    case Nop(rest) => SpecWalkIsReadings(rest, strings, ctx, flags, marks, outer, own);
    case Prop(nameoff, value, rest) =>
      var name := GetString(strings, nameoff);
      NamesDiffer();
      if name == Ascii("reg") {
        SpecWalkIsReadings(rest, strings, ctx, flags, marks, outer, own);
        OneMore(Reading(ctx, outer, marks, value), Readings(rest, strings, ctx, marks, outer, own), true);
      } else {
        var marks' := if name == Ascii("device_type") then marks + [value] else marks;
        var flags' := if IsCells(name) then flags else CtxAfter(flags, name, value);
        SpecWalkIsReadings(rest, strings, CtxAfter(ctx, name, value), flags', marks', outer, own);
        ThenAssociates(SpecWalk(rest, strings, flags', outer, own), NOTHING, NOTHING);
      }
    case Child(name, body, rest) =>
      var inner := Declared(body, strings, SPEC_DEFAULT);
      SpecWalkIsReadings(body, strings, Entered(ctx, name), Entered(flags, name), marks + [name], own, inner);
      SpecWalkIsReadings(rest, strings, ctx, flags, marks, outer, own);
      InOrderConcat(Readings(body, strings, Entered(ctx, name), marks + [name], own, inner),
        Readings(rest, strings, ctx, marks, outer, own), true);
  }

  // ---- What one reg property comes to --------------------------------------

  /** Reading such a property: nothing ever, a panic as soon as so many cells are there, or entries. */
  datatype Behaviour = Silent | Halting(cells: nat) | Entries(addr: nat, size: nat)

  /** The cell counts decide it; a property value is shorter than 2^32 bytes. */
  function BehaviourOf(ctx: Ctx): Behaviour {
    var n := TupleCells(ctx);
    if n == 0 || 4 * n >= TWO32 then Silent
    else if ctx.addrCells + ctx.sizeCells > n then Halting(n)
    else Entries(ctx.addrCells, ctx.sizeCells)
  }

  predicate Flagged(ctx: Ctx) { ctx.inReserved || ctx.isMemory }

  lemma {:induction false} SilentOffers(ctx: Ctx, value: Bytes)
    requires BehaviourOf(ctx).Silent? && |value| < TWO32
    ensures RegOffers(ctx, value) == NOTHING
  {
  }

  lemma {:induction false} HaltingOffers(ctx: Ctx, value: Bytes)
    requires BehaviourOf(ctx).Halting?
    ensures RegOffers(ctx, value) == if |value| >= 4 * BehaviourOf(ctx).cells then Outcome([], true) else NOTHING
  {
  }

  lemma {:induction false} TooShort(ctx: Ctx, value: Bytes)
    requires TupleCells(ctx) > 0 && |value| < 4 * TupleCells(ctx)
    ensures RegOffers(ctx, value) == NOTHING
  {
  }

  function KindOf(ctx: Ctx): Kind { if ctx.isMemory then UsableRam else Reserved }

  /** Entries never panic; each offers one region when a flag is set and none otherwise. */
  lemma {:induction false} EntryKinds(ctx: Ctx, value: Bytes, pos: nat)
    requires TupleCells(ctx) > 0 && ctx.addrCells + ctx.sizeCells < TWO32
    ensures !RegEntries(ctx, value, pos).panicked
    ensures !Flagged(ctx) ==> RegEntries(ctx, value, pos).offers == []
    ensures forall o :: o in RegEntries(ctx, value, pos).offers ==> o.kind == KindOf(ctx)
    ensures Flagged(ctx) && pos + 4 * TupleCells(ctx) <= |value| ==> RegEntries(ctx, value, pos).offers != []
    decreases |value| - pos
  {
    var next := pos + 4 * TupleCells(ctx);
    if next <= |value| {
      EntryKinds(ctx, value, next);
    }
  }

  lemma {:induction false} OneEntry(ctx: Ctx, value: Bytes)
    requires BehaviourOf(ctx).Entries? && |value| == 4 * TupleCells(ctx)
    ensures ctx.addrCells <= TupleCells(ctx)
    ensures RegOffers(ctx, value) == Outcome(EntryOffers(ctx, CellsRead(value[..4 * ctx.addrCells], ctx.addrCells),
      CellsRead(value[4 * ctx.addrCells..], ctx.sizeCells)), false)
  {
    var tuple := TupleCells(ctx);
    assert value[0..4 * ctx.addrCells] == value[..4 * ctx.addrCells];
    assert value[4 * ctx.addrCells..4 * tuple] == value[4 * ctx.addrCells..];
    var more := EntryOffers(ctx, EntryAddr(ctx, value, 0), EntrySize(ctx, value, 0));
    assert RegEntries(ctx, value, 4 * tuple) == NOTHING;
    assert more + [] == more;
  }

  // ---- When reserved memory stays reserved ---------------------------------

  ghost predicate Marked(marks: seq<Bytes>) {
    exists i :: 0 <= i < |marks| && StartsWith(marks[i], Ascii("memory"))
  }

  /** The property holds at least one entry. */
  predicate Yields(r: Reading) {
    var n := r.held.addrCells + r.held.sizeCells; 0 < n < TWO32 && 4 * n <= |r.value|
  }

  /** Reading it panics: the cell counts wrap, and an entry of the wrapped size fits. */
  predicate Halts(r: Reading) {
    var n := r.held.addrCells + r.held.sizeCells; TWO32 < n && 4 * (n - TWO32) <= |r.value|
  }

  /** The k-th reg property is reached, holds an entry, and stands under a mark that begins with "memory". */
  ghost predicate ExposedAt(rs: seq<Reading>, k: nat)
    requires k < |rs|
  {
    Yields(rs[k]) && Marked(rs[k].marks) && forall j :: 0 <= j < k ==> !Halts(rs[j])
  }

  predicate AllReserved(offers: seq<Offer>) {
    forall o :: o in offers ==> o.kind == Reserved
  }

  lemma {:induction false} MarkedSnoc(marks: seq<Bytes>, mark: Bytes)
    ensures Marked(marks + [mark]) <==> Marked(marks) || StartsWith(mark, Ascii("memory"))
  {
    var all := marks + [mark];
    assert all[|marks|] == mark && forall i :: 0 <= i < |marks| ==> all[i] == marks[i];
  }

  /** The flags follow the marks. */
  ghost predicate Follows(r: Reading) { r.held.inReserved && (r.held.isMemory <==> Marked(r.marks)) }

  lemma {:induction false} ReadingsFollow(t: Items, strings: Bytes, ctx: Ctx, marks: seq<Bytes>, outer: CellPair,
        own: CellPair)
    requires ctx.inReserved && (ctx.isMemory <==> Marked(marks))
    ensures forall r :: r in Readings(t, strings, ctx, marks, outer, own) ==> Follows(r)
    decreases t
  {
    match t
    case Done =>
    case Nop(rest) => ReadingsFollow(rest, strings, ctx, marks, outer, own);
    case Prop(nameoff, value, rest) =>
      var name := GetString(strings, nameoff);
      NamesDiffer();
      if name == Ascii("device_type") {
        MarkedSnoc(marks, value);
        ReadingsFollow(rest, strings, CtxAfter(ctx, name, value), marks + [value], outer, own);
      } else {
        ReadingsFollow(rest, strings, CtxAfter(ctx, name, value), marks, outer, own);
      }
    case Child(name, body, rest) =>
      MarkedSnoc(marks, name);
      ReadingsFollow(body, strings, Entered(ctx, name), marks + [name], own, Declared(body, strings, SPEC_DEFAULT));
      ReadingsFollow(rest, strings, ctx, marks, outer, own);
  }

  lemma {:induction false} KindsOfEntries(ctx: Ctx, value: Bytes)
    requires TupleCells(ctx) > 0 && ctx.addrCells + ctx.sizeCells < TWO32 && ctx.inReserved
    ensures !RegOffers(ctx, value).panicked
    ensures AllReserved(RegOffers(ctx, value).offers) <==> !(4 * TupleCells(ctx) <= |value| && ctx.isMemory)
  {
    EntryKinds(ctx, value, 0);
    var offers := RegEntries(ctx, value, 0).offers;
    if 4 * TupleCells(ctx) <= |value| {
      assert offers[0] in offers;
    } else {
      TooShort(ctx, value);
    }
  }

  lemma {:induction false} WrappingReading(ctx: Ctx, value: Bytes)
    requires TWO32 <= ctx.addrCells + ctx.sizeCells
    ensures RegOffers(ctx, value).offers == []
  {
  }

  lemma {:induction false} EmptyReading(ctx: Ctx, value: Bytes)
    requires ctx.addrCells + ctx.sizeCells == 0
    ensures RegOffers(ctx, value) == NOTHING
  {
  }

  /** One property: a panic without regions, nothing, or one region or more of the kind of its flags. */
  lemma {:induction false} OneReading(r: Reading)
    requires Follows(r)
    ensures RegOffers(r.held, r.value).panicked <==> Halts(r)
    ensures AllReserved(RegOffers(r.held, r.value).offers) <==> !(Yields(r) && Marked(r.marks))
  {
    RegPanicsExactly(r.held, r.value);
    var n := r.held.addrCells + r.held.sizeCells;
    if n >= TWO32 {
      WrappingReading(r.held, r.value);
    } else if n == 0 {
      EmptyReading(r.held, r.value);
    } else {
      assert TupleCells(r.held) == n;
      KindsOfEntries(r.held, r.value);
    }
  }

  lemma {:induction false} ExposedLater(rs: seq<Reading>, k: nat)
    requires 0 < k < |rs|
    ensures ExposedAt(rs, k) <==> !Halts(rs[0]) && ExposedAt(rs[1..], k - 1)
  {
    assert forall j :: 0 < j < |rs| ==> rs[j] == rs[1..][j - 1];
    if !Halts(rs[0]) && ExposedAt(rs[1..], k - 1) {
      forall j | 0 <= j < k
        ensures !Halts(rs[j])
      {
        assert j > 0 ==> !Halts(rs[1..][j - 1]);
      }
    }
    if ExposedAt(rs, k) {
      forall j | 0 <= j < k - 1
        ensures !Halts(rs[1..][j])
      {
        assert !Halts(rs[j + 1]);
      }
    }
  }

  lemma {:induction false} ReservedInOrder(rs: seq<Reading>)
    requires forall r :: r in rs ==> Follows(r)
    ensures AllReserved(InOrder(rs, false).offers) <==> forall k :: 0 <= k < |rs| ==> !ExposedAt(rs, k)
  {
    if rs != [] {
      var first, rest := RegOffers(rs[0].held, rs[0].value), InOrder(rs[1..], false);
      OneReading(rs[0]);
      ReservedInOrder(rs[1..]);
      AllReservedThen(first, rest);
      assert ExposedAt(rs, 0) <==> Yields(rs[0]) && Marked(rs[0].marks);
      forall k | 0 < k < |rs|
        ensures ExposedAt(rs, k) <==> !Halts(rs[0]) && ExposedAt(rs[1..], k - 1)
      {
        ExposedLater(rs, k);
      }
      if k :| 0 <= k < |rs[1..]| && ExposedAt(rs[1..], k) {
        ExposedLater(rs, k + 1);
      }
    }
  }

  lemma {:induction false} AllReservedThen(a: Outcome, b: Outcome)
    ensures AllReserved(Then(a, b).offers) <==> AllReserved(a.offers) && (a.panicked || AllReserved(b.offers))
  {
    assert forall o :: o in a.offers + b.offers <==> o in a.offers || o in b.offers;
  }

  /**
   Inside a reserved node that is not memory itself, all regions are reserved
   exactly when no reg property that is reached and holds an entry stands under
   a node whose name begins with "memory", or after a device_type that does.
  */
  lemma {:induction false} ReservedExactly(t: Items, strings: Bytes, ctx: Ctx)
    requires ctx.inReserved && !ctx.isMemory
    ensures var rs := Readings(t, strings, ctx, [], SPEC_DEFAULT, SPEC_DEFAULT);
      AllReserved(Walk(t, strings, true, ctx).offers) <==> forall k :: 0 <= k < |rs| ==> !ExposedAt(rs, k)
  {
    WalkIsReadings(t, strings, ctx, [], SPEC_DEFAULT, SPEC_DEFAULT);
    ReadingsFollow(t, strings, ctx, [], SPEC_DEFAULT, SPEC_DEFAULT);
    ReservedInOrder(Readings(t, strings, ctx, [], SPEC_DEFAULT, SPEC_DEFAULT));
  }

  // ---- The same tree with other reg values ----------------------------------

  function RegCount(t: Items, strings: Bytes): nat {
    match t
    case Done => 0
    case Nop(rest) => RegCount(rest, strings)
    case Prop(nameoff, _, rest) => (if GetString(strings, nameoff) == Ascii("reg") then 1 else 0) +
      RegCount(rest, strings)
    case Child(_, body, rest) => RegCount(body, strings) + RegCount(rest, strings)
  }

  /** The tree with these values in its reg properties, in order. */
  function Refilled(t: Items, strings: Bytes, values: seq<Bytes>): Items
    requires |values| == RegCount(t, strings)
  {
    match t
    case Done => Done
    case Nop(rest) => Nop(Refilled(rest, strings, values))
    case Prop(nameoff, value, rest) =>
      if GetString(strings, nameoff) == Ascii("reg") then Prop(nameoff, values[0], Refilled(rest, strings, values[1..]))
      else Prop(nameoff, value, Refilled(rest, strings, values))
    case Child(name, body, rest) =>
      var n := RegCount(body, strings);
      Child(name, Refilled(body, strings, values[..n]), Refilled(rest, strings, values[n..]))
  }

  lemma {:induction false} RefilledDeclares(t: Items, strings: Bytes, values: seq<Bytes>, cells: CellPair)
    requires |values| == RegCount(t, strings)
    ensures Declared(Refilled(t, strings, values), strings, cells) == Declared(t, strings, cells)
  {
    match t
    case Done =>
    case Nop(rest) => RefilledDeclares(rest, strings, values, cells);
    case Prop(nameoff, value, rest) =>
      NamesDiffer();
      if GetString(strings, nameoff) == Ascii("reg") {
        RefilledDeclares(rest, strings, values[1..], cells);
      } else {
        RefilledDeclares(rest, strings, values, Declares(cells, GetString(strings, nameoff), value));
      }
    case Child(_, body, rest) => RefilledDeclares(rest, strings, values[RegCount(body, strings)..], cells);
  }

  /** Two lists of readings that differ in their values alone. */
  ghost predicate Refills(rs: seq<Reading>, values: seq<Bytes>, rs': seq<Reading>) {
    |rs| == |values| == |rs'| && forall k :: 0 <= k < |rs| ==> rs'[k] == rs[k].(value := values[k])
  }

  lemma {:induction false} RefillsCons(r: Reading, rs: seq<Reading>, values: seq<Bytes>, rs': seq<Reading>)
    requires values != [] && Refills(rs, values[1..], rs')
    ensures Refills([r] + rs, values, [r.(value := values[0])] + rs')
  {
  }

  lemma {:induction false} RefillsConcat(a: seq<Reading>, b: seq<Reading>, values: seq<Bytes>, n: nat, a': seq<Reading>,
        b': seq<Reading>)
    requires n <= |values| && Refills(a, values[..n], a') && Refills(b, values[n..], b')
    ensures Refills(a + b, values, a' + b')
  {
    forall k | 0 <= k < |a + b|
      ensures (a' + b')[k] == (a + b)[k].(value := values[k])
    {
      RefillsAt(a, b, values, n, a', b', k);
    }
  }

  lemma {:induction false} RefillsAt(a: seq<Reading>, b: seq<Reading>, values: seq<Bytes>, n: nat, a': seq<Reading>,
        b': seq<Reading>, k: nat)
    requires n <= |values| && Refills(a, values[..n], a') && Refills(b, values[n..], b') && k < |a + b|
    ensures k < |a' + b'| && (a' + b')[k] == (a + b)[k].(value := values[k])
  {
    if k < n {
      assert values[..n][k] == values[k] && a'[k] == a[k].(value := values[..n][k]);
    } else {
      assert values[n..][k - n] == values[k] && b'[k - n] == b[k - n].(value := values[n..][k - n]);
    }
  }

  lemma {:induction false} ReadingsRefilled(t: Items, strings: Bytes, values: seq<Bytes>, ctx: Ctx, marks: seq<Bytes>,
        outer: CellPair, own: CellPair)
    requires |values| == RegCount(t, strings)
    ensures Refills(Readings(t, strings, ctx, marks, outer, own), values,
              Readings(Refilled(t, strings, values), strings, ctx, marks, outer, own))
    decreases t
  {
    match t
    case Done =>
    case Nop(rest) => ReadingsRefilled(rest, strings, values, ctx, marks, outer, own);
    case Prop(nameoff, value, rest) =>
      var name := GetString(strings, nameoff);
      if name == Ascii("reg") {
        ReadingsRefilled(rest, strings, values[1..], ctx, marks, outer, own);
        RefillsCons(Reading(ctx, outer, marks, value), Readings(rest, strings, ctx, marks, outer, own), values,
          Readings(Refilled(rest, strings, values[1..]), strings, ctx, marks, outer, own));
      } else {
        var marks' := if name == Ascii("device_type") then marks + [value] else marks;
        ReadingsRefilled(rest, strings, values, CtxAfter(ctx, name, value), marks', outer, own);
      }
    case Child(name, body, rest) =>
      var n, inner := RegCount(body, strings), Declared(body, strings, SPEC_DEFAULT);
      RefilledDeclares(body, strings, values[..n], SPEC_DEFAULT);
      ReadingsRefilled(body, strings, values[..n], Entered(ctx, name), marks + [name], own, inner);
      ReadingsRefilled(rest, strings, values[n..], ctx, marks, outer, own);
      RefillsConcat(Readings(body, strings, Entered(ctx, name), marks + [name], own, inner),
        Readings(rest, strings, ctx, marks, outer, own), values, n,
        Readings(Refilled(body, strings, values[..n]), strings, Entered(ctx, name), marks + [name], own, inner),
        Readings(Refilled(rest, strings, values[n..]), strings, ctx, marks, outer, own));
  }

  // ---- Exactly when the code reads as the specification prescribes ----------

  /** Both readings come to the same for every value: without flags only a panic can tell them apart. */
  predicate Alike(r: Reading) {
    var held, declared := BehaviourOf(r.held), BehaviourOf(CtxOf(r, true));
    held == declared || (!Flagged(r.held) && !held.Halting? && !declared.Halting?)
  }

  /** With ordinary cell counts that is: the held cells are the declared ones, wherever a flag is set. */
  lemma {:induction false} OrdinaryAlike(r: Reading)
    requires 0 < r.held.addrCells + r.held.sizeCells < TWO32 / 4 && 0 < r.declared.addr + r.declared.size < TWO32 / 4
    ensures Alike(r) <==>
      !Flagged(r.held) || (r.held.addrCells == r.declared.addr && r.held.sizeCells == r.declared.size)
  {
  }

  lemma {:induction false} AlikeOffers(c: Ctx, d: Ctx, value: Bytes)
    requires SameFlags(c, d) && |value| < TWO32
    requires BehaviourOf(c) == BehaviourOf(d) || (!Flagged(c) && !BehaviourOf(c).Halting? && !BehaviourOf(d).Halting?)
    ensures RegOffers(c, value) == RegOffers(d, value)
  {
    if BehaviourOf(c) == BehaviourOf(d) && BehaviourOf(c).Entries? {
      assert c == d;
    } else if BehaviourOf(c).Halting? {
      HaltingOffers(c, value);
      HaltingOffers(d, value);
    } else {
      NoOffers(c, value);
      NoOffers(d, value);
    }
  }

  lemma {:induction false} NoOffers(c: Ctx, value: Bytes)
    requires |value| < TWO32 && (BehaviourOf(c).Silent? || (BehaviourOf(c).Entries? && !Flagged(c)))
    ensures RegOffers(c, value) == NOTHING
  {
    if BehaviourOf(c).Silent? {
      SilentOffers(c, value);
    } else {
      EntryKinds(c, value, 0);
    }
  }

  // A value that tells two readings apart: all zero bytes, or a single one.

  lemma {:induction false} ZeroCells(value: Bytes, n: nat)
    requires 4 * n <= |value| && forall i :: 0 <= i < 4 * n ==> value[i] == 0
    ensures CellsValue(value, n) == 0
  {
    if n > 0 {
      ZeroCells(value, n - 1);
    }
  }

  function OneAt(n: nat, length: nat): (r: Bytes)
    requires 0 < n <= length
    ensures |r| == 4 * length
  {
    Zeros(4 * n - 1) + [1] + Zeros(4 * (length - n))
  }

  lemma {:induction false} ReadOneAt(n: nat, length: nat, a: u32)
    requires 0 < n <= length && a <= length
    ensures a < n ==> CellsRead(OneAt(n, length)[..4 * a], a) == 0
    ensures a == n ==> CellsRead(OneAt(n, length)[..4 * a], a) == 1
  {
    var v := OneAt(n, length)[..4 * a];
    if a < n {
      ZeroCells(v, a);
    } else if a == n {
      ZeroCells(v, a - 1);
    }
  }

  /** One entry in c's cells, none or another in d's. */
  lemma {:induction false} EntriesDiffer(c: Ctx, d: Ctx) returns (value: Bytes)
    requires SameFlags(c, d) && Flagged(c) && BehaviourOf(c).Entries?
    requires BehaviourOf(d).Silent? || (BehaviourOf(d).Entries? && (TupleCells(c) < TupleCells(d) ||
               (TupleCells(c) == TupleCells(d) && c.addrCells < d.addrCells)))
    ensures |value| < TWO32 && RegOffers(c, value) != RegOffers(d, value)
  {
    var n := TupleCells(c);
    if BehaviourOf(d).Entries? && n == TupleCells(d) {
      value := OneAt(d.addrCells, n);
      OneEntry(c, value);
      OneEntry(d, value);
      ReadOneAt(d.addrCells, n, c.addrCells);
      ReadOneAt(d.addrCells, n, d.addrCells);
      AddressTells(c, 0, CellsRead(value[4 * c.addrCells..], c.sizeCells), d, 1,
        CellsRead(value[4 * d.addrCells..], d.sizeCells));
    } else {
      value := Zeros(4 * n);
      EntryKinds(c, value, 0);
      if BehaviourOf(d).Silent? {
        SilentOffers(d, value);
      } else {
        TooShort(d, value);
      }
    }
  }

  lemma {:induction false} AddressTells(c: Ctx, addr: u64, size: u64, d: Ctx, addr': u64, size': u64)
    requires SameFlags(c, d) && Flagged(c) && addr != addr'
    ensures EntryOffers(c, addr, size) != EntryOffers(d, addr', size')
  {
    assert EntryOffers(c, addr, size)[0].start == addr && EntryOffers(d, addr', size')[0].start == addr';
  }

  /** A panic in c's cells, none or a later one in d's. */
  lemma {:induction false} PanicsDiffer(c: Ctx, d: Ctx) returns (value: Bytes)
    requires BehaviourOf(c).Halting?
    requires BehaviourOf(d).Halting? ==> BehaviourOf(c).cells < BehaviourOf(d).cells
    ensures |value| < TWO32 && RegOffers(c, value) != RegOffers(d, value)
  {
    value := Zeros(4 * BehaviourOf(c).cells);
    HaltingOffers(c, value);
    if BehaviourOf(d).Halting? {
      HaltingOffers(d, value);
    } else {
      RegPanicsExactly(d, value);
    }
  }

  lemma {:induction false} UnlikeDiffers(c: Ctx, d: Ctx) returns (value: Bytes)
    requires SameFlags(c, d) && BehaviourOf(c) != BehaviourOf(d)
    requires Flagged(c) || BehaviourOf(c).Halting? || BehaviourOf(d).Halting?
    ensures |value| < TWO32 && RegOffers(c, value) != RegOffers(d, value)
  {
    var p, q := BehaviourOf(c), BehaviourOf(d);
    if p.Halting? && (q.Halting? ==> p.cells < q.cells) {
      value := PanicsDiffer(c, d);
    } else if q.Halting? {
      value := PanicsDiffer(d, c);
    } else if p.Entries? && (q.Silent? || TupleCells(c) < TupleCells(d) ||
                             (TupleCells(c) == TupleCells(d) && c.addrCells < d.addrCells)) {
      value := EntriesDiffer(c, d);
    } else {
      value := EntriesDiffer(d, c);
    }
  }

  lemma {:induction false} AlikeInOrder(rs: seq<Reading>)
    requires forall k :: 0 <= k < |rs| ==> Alike(rs[k]) && |rs[k].value| < TWO32
    ensures InOrder(rs, false) == InOrder(rs, true)
  {
    if rs != [] {
      AlikeOffers(rs[0].held, CtxOf(rs[0], true), rs[0].value);
      AlikeInOrder(rs[1..]);
    }
  }

  /** When all other values are empty, only one property counts. */
  lemma {:induction false} OnlyOneCounts(rs: seq<Reading>, k: nat, spec: bool)
    requires k < |rs| && forall j :: 0 <= j < |rs| && j != k ==> rs[j].value == []
    ensures InOrder(rs, spec) == RegOffers(CtxOf(rs[k], spec), rs[k].value)
  {
    var ctx := CtxOf(rs[0], spec);
    ThenAssociates(RegOffers(ctx, rs[0].value), NOTHING, NOTHING);
    if k == 0 {
      NoneCount(rs[1..], spec);
    } else {
      EmptyOffers(ctx);
      OnlyOneCounts(rs[1..], k - 1, spec);
      ThenAssociates(InOrder(rs[1..], spec), NOTHING, NOTHING);
    }
  }

  lemma {:induction false} EmptyOffers(ctx: Ctx)
    ensures RegOffers(ctx, []) == NOTHING
  {
  }

  lemma {:induction false} NoneCount(rs: seq<Reading>, spec: bool)
    requires forall j :: 0 <= j < |rs| ==> rs[j].value == []
    ensures InOrder(rs, spec) == NOTHING
  {
    if rs != [] {
      EmptyOffers(CtxOf(rs[0], spec));
      NoneCount(rs[1..], spec);
    }
  }

  /** The reg properties below a root with this name; the root has no parent and is read with two cells each. */
  function RootReadings(name: Bytes, body: Items, strings: Bytes): seq<Reading> {
    Readings(body, strings, Entered(ROOT, name), [], CellPair(2, 2), Declared(body, strings, SPEC_DEFAULT))
  }

  /** The code reads the tree as the specification prescribes. */
  predicate MeetsSpec(name: Bytes, body: Items, strings: Bytes) {
    Walk(Child(name, body, Done), strings, false, ROOT) ==
      SpecWalk(body, strings, Entered(ROOT, name), CellPair(2, 2), Declared(body, strings, SPEC_DEFAULT))
  }

  lemma {:induction false} MeetsSpecIs(name: Bytes, body: Items, strings: Bytes)
    ensures MeetsSpec(name, body, strings) <==>
      InOrder(RootReadings(name, body, strings), false) == InOrder(RootReadings(name, body, strings), true)
  {
    var ctx, own := Entered(ROOT, name), Declared(body, strings, SPEC_DEFAULT);
    WalkIsReadings(body, strings, ctx, [], CellPair(2, 2), own);
    SpecWalkIsReadings(body, strings, ctx, ctx, [], CellPair(2, 2), own);
    ThenAssociates(Walk(body, strings, true, ctx), NOTHING, NOTHING);
    assert Walk(Child(name, body, Done), strings, false, ROOT) ==
      Then(Walk(body, strings, true, ctx), Walk(Done, strings, false, ROOT));
  }

  /** Values for all reg properties of the tree, each of a length that a property can have. */
  ghost predicate Values(t: Items, strings: Bytes, values: seq<Bytes>) {
    |values| == RegCount(t, strings) && forall k :: 0 <= k < |values| ==> |values[k]| < TWO32
  }

  lemma {:induction false} RootRefilled(name: Bytes, body: Items, strings: Bytes, values: seq<Bytes>)
    requires Values(body, strings, values)
    ensures Refills(RootReadings(name, body, strings), values,
      RootReadings(name, Refilled(body, strings, values), strings))
  {
    RefilledDeclares(body, strings, values, SPEC_DEFAULT);
    ReadingsRefilled(body, strings, values, Entered(ROOT, name), [], CellPair(2, 2),
      Declared(body, strings, SPEC_DEFAULT));
  }

  lemma {:induction false} AlikeMeetsSpec(name: Bytes, body: Items, strings: Bytes, values: seq<Bytes>)
    requires Values(body, strings, values)
    requires forall k :: 0 <= k < |RootReadings(name, body, strings)| ==> Alike(RootReadings(name, body, strings)[k])
    ensures MeetsSpec(name, Refilled(body, strings, values), strings)
  {
    var t := Refilled(body, strings, values);
    RootRefilled(name, body, strings, values);
    AlikeInOrder(RootReadings(name, t, strings));
    MeetsSpecIs(name, t, strings);
  }

  /** All values empty but the k-th. */
  function Only(n: nat, k: nat, value: Bytes): (r: seq<Bytes>)
    ensures |r| == n && forall i :: 0 <= i < n ==> r[i] == if i == k then value else []
  {
    seq(n, i => if i == k then value else [])
  }

  lemma {:induction false} UnlikeMissesSpec(name: Bytes, body: Items, strings: Bytes, k: nat)
    returns (values: seq<Bytes>)
    requires k < |RootReadings(name, body, strings)| && !Alike(RootReadings(name, body, strings)[k])
    ensures Values(body, strings, values) && !MeetsSpec(name, Refilled(body, strings, values), strings)
  {
    var r := RootReadings(name, body, strings)[k];
    var value := UnlikeDiffers(r.held, CtxOf(r, true));
    values := Only(RegCount(body, strings), k, value);
    RootRefilled(name, body, strings, values);
    var t := Refilled(body, strings, values);
    MeetsSpecIs(name, t, strings);
    OnlyOneCounts(RootReadings(name, t, strings), k, false);
    OnlyOneCounts(RootReadings(name, t, strings), k, true);
  }

  /**
   Whatever its reg properties hold, the code reads a tree of this shape as
   the specification prescribes exactly when at each of them the cells held
   come to the same as those the parent declares.
  */
  lemma {:induction false} MeetsSpecExactly(name: Bytes, body: Items, strings: Bytes)
    ensures (forall values :: Values(body, strings, values) ==>
      MeetsSpec(name, Refilled(body, strings, values), strings)) <==>
      forall k :: 0 <= k < |RootReadings(name, body, strings)| ==> Alike(RootReadings(name, body, strings)[k])
  {
    if k :| 0 <= k < |RootReadings(name, body, strings)| && !Alike(RootReadings(name, body, strings)[k]) {
      var values := UnlikeMissesSpec(name, body, strings, k);
    } else {
      forall values | Values(body, strings, values)
        ensures MeetsSpec(name, Refilled(body, strings, values), strings)
      {
        AlikeMeetsSpec(name, body, strings, values);
      }
    }
  }

  // ---- What is no memory -----------------------------------------------------

  /** No node is named like memory or reserved memory, and no device_type says memory. */
  predicate Plain(t: Items, strings: Bytes) {
    match t
    case Done => true
    case Nop(rest) => Plain(rest, strings)
    case Prop(nameoff, value, rest) =>
      && (GetString(strings, nameoff) == Ascii("device_type") ==> !(Ascii("memory") <= value))
      && Plain(rest, strings)
    case Child(name, body, rest) =>
      && !(Ascii("memory") <= name) && !(Ascii("reserved-memory") <= name)
      && Plain(body, strings) && Plain(rest, strings)
  }

  lemma {:induction false} PlainProp(ctx: Ctx, name: Bytes, value: Bytes)
    requires !Flagged(ctx) && (name == Ascii("device_type") ==> !(Ascii("memory") <= value))
    ensures PropOffers(ctx, name, value).offers == [] && !Flagged(CtxAfter(ctx, name, value))
  {
    if TupleCells(ctx) > 0 {
      UnflaggedEntries(ctx, value, 0);
    }
  }

  /** Entries of a register without flags offer nothing, even in cells that make it panic. */
  lemma {:induction false} UnflaggedEntries(ctx: Ctx, value: Bytes, pos: nat)
    requires TupleCells(ctx) > 0 && !Flagged(ctx)
    ensures RegEntries(ctx, value, pos).offers == []
    decreases |value| - pos
  {
    var next := pos + 4 * TupleCells(ctx);
    if next <= |value| && ctx.addrCells <= TupleCells(ctx) {
      EntriesUnfold(ctx, value, pos, next);
      UnflaggedEntries(ctx, value, next);
    }
  }

  /** So nothing in it is offered, whatever its registers hold. */
  lemma {:induction false} PlainTreesOfferNothing(t: Items, strings: Bytes, inNode: bool, ctx: Ctx)
    requires Plain(t, strings) && !Flagged(ctx)
    ensures Walk(t, strings, inNode, ctx).offers == []
    decreases t
  {
    match t
    case Done =>
    case Nop(rest) => PlainTreesOfferNothing(rest, strings, inNode, ctx);
    case Prop(nameoff, value, rest) =>
      if !inNode {
        PlainTreesOfferNothing(rest, strings, inNode, ctx);
      } else {
        PlainProp(ctx, GetString(strings, nameoff), value);
        PlainTreesOfferNothing(rest, strings, inNode, CtxAfter(ctx, GetString(strings, nameoff), value));
      }
    case Child(name, body, rest) =>
      PlainTreesOfferNothing(body, strings, true, Entered(ctx, name));
      PlainTreesOfferNothing(rest, strings, inNode, ctx);
  }
}
