/**
 When the search by path reads what the Devicetree Specification prescribes:
 the register of the target with the cells its parent declares, and each bus
 window with the cells that the bus and its parent declare (src/mm/dtb.rs,
 find_reg_by_path; sections 2.3.5, 2.3.6 and 2.3.8).
*/
module PathSpec {
  import opened Machine
  import opened Wrappers
  import opened Fdt
  import opened Cells
  import opened BusRanges
  import opened BusSpec
  import opened DtbPath
  import R = DtbRegions
  import S = DtbSpec

  // ---- The register ---------------------------------------------------------

  /** What the first entry of a reg property comes to. */
  datatype First = Missing | Halt | Entry(addr: u64, size: u64)

  function FirstEntry(cells: S.CellPair, value: Bytes): First {
    var n := (cells.addr + cells.size) % TWO32;
    if n == 0 || |value| < 4 * n then Missing
    else if cells.addr > n then Halt
    else Entry(CellsRead(value[..4 * cells.addr], cells.addr), CellsRead(value[4 * cells.addr..4 * n], cells.size))
  }

  /** The cells the code holds for the innermost open node. */
  function Held(open: seq<RegNode>): S.CellPair {
    S.CellPair(Top(open, ROOT_NODE).addrCells, Top(open, ROOT_NODE).sizeCells)
  }

  /** The search reads the register with the cells held for the node itself. */
  lemma {:induction false} RegisterIsFirstEntry(open: seq<RegNode>, path: Bytes, settings: Settings, value: Bytes)
    ensures OnReg(open, path, settings, value) ==
      match FirstEntry(Held(open), value)
      case Missing => Next(Top(open, ROOT_NODE), settings)
      case Halt => Ends(Crash)
      case Entry(addr, size) =>
        match Physical(open, path, addr)
        case None => Ends(Reply(None))
        case Some(phys) => Ends(Reply(Some(UartInfo(phys, size, settings))))
  {
  }

  function BehaviourOf(cells: S.CellPair): S.Behaviour { S.BehaviourOf(R.Ctx(cells.addr, cells.size, false, false)) }

  /** Cells in an entry, where there can be one. */
  function Needed(b: S.Behaviour): nat
    requires !b.Silent?
  {
    match b
    case Halting(n) => n
    case Entries(a, s) => a + s
  }

  lemma {:induction false} NeededIs(cells: S.CellPair)
    requires !BehaviourOf(cells).Silent?
    ensures Needed(BehaviourOf(cells)) == (cells.addr + cells.size) % TWO32 > 0 &&
      4 * Needed(BehaviourOf(cells)) < TWO32
    ensures BehaviourOf(cells).Halting? <==> cells.addr > Needed(BehaviourOf(cells))
    ensures BehaviourOf(cells).Entries? ==> BehaviourOf(cells) == S.Entries(cells.addr, cells.size)
  {
  }

  lemma {:induction false} FirstOf(cells: S.CellPair, value: Bytes)
    requires |value| < TWO32
    ensures var b := BehaviourOf(cells);
      && (b.Silent? || |value| < 4 * Needed(b) ==> FirstEntry(cells, value).Missing?)
      && (b.Halting? && |value| >= 4 * Needed(b) ==> FirstEntry(cells, value).Halt?)
      && (b.Entries? && |value| >= 4 * Needed(b) ==> FirstEntry(cells, value).Entry?)
  {
    if !BehaviourOf(cells).Silent? {
      NeededIs(cells);
    }
  }

  lemma {:induction false} FirstAddress(cells: S.CellPair, n: nat, at: nat)
    requires BehaviourOf(cells).Entries? && n == Needed(BehaviourOf(cells)) && 0 < at <= n && cells.addr <= at
    ensures FirstEntry(cells, S.OneAt(at, n)).Entry?
    ensures FirstEntry(cells, S.OneAt(at, n)).addr == if cells.addr == at then 1 else 0
  {
    NeededIs(cells);
    S.ReadOneAt(at, n, cells.addr);
  }

  /** A value on which two readings differ. */
  lemma {:induction false} TellsApart(c: S.CellPair, d: S.CellPair) returns (value: Bytes)
    requires BehaviourOf(c) != BehaviourOf(d) && !BehaviourOf(c).Silent?
    requires BehaviourOf(d).Silent? || Needed(BehaviourOf(c)) < Needed(BehaviourOf(d)) ||
      (Needed(BehaviourOf(c)) == Needed(BehaviourOf(d)) &&
       (BehaviourOf(c).Halting? || BehaviourOf(d).Halting? || c.addr < d.addr))
    ensures |value| < TWO32 && FirstEntry(c, value) != FirstEntry(d, value)
  {
    var n := Needed(BehaviourOf(c));
    NeededIs(c);
    if BehaviourOf(c).Entries? && BehaviourOf(d).Entries? && Needed(BehaviourOf(d)) == n {
      NeededIs(d);
      value := S.OneAt(d.addr, n);
      FirstAddress(c, n, d.addr);
      FirstAddress(d, n, d.addr);
    } else {
      value := Zeros(4 * n);
      FirstOf(c, value);
      FirstOf(d, value);
    }
  }

  lemma {:induction false} SameFirst(c: S.CellPair, d: S.CellPair, value: Bytes)
    requires BehaviourOf(c) == BehaviourOf(d) && |value| < TWO32
    ensures FirstEntry(c, value) == FirstEntry(d, value)
  {
    FirstOf(c, value);
    FirstOf(d, value);
    if BehaviourOf(c).Entries? {
      NeededIs(c);
      NeededIs(d);
    }
  }

  lemma {:induction false} BehavioursDiffer(c: S.CellPair, d: S.CellPair) returns (value: Bytes)
    requires BehaviourOf(c) != BehaviourOf(d)
    ensures |value| < TWO32 && FirstEntry(c, value) != FirstEntry(d, value)
  {
    var p, q := BehaviourOf(c), BehaviourOf(d);
    BothEntries(c, d);
    if q.Silent? || (!p.Silent? && Needed(p) < Needed(q)) {
      value := TellsApart(c, d);
    } else if p.Silent? || Needed(q) < Needed(p) || p.Halting? || q.Halting? {
      value := TellsApart(d, c);
    } else if c.addr < d.addr {
      value := TellsApart(c, d);
    } else {
      value := TellsApart(d, c);
    }
  }

  /** A register is read as with the declared cells, whatever it holds, exactly when the two read alike. */
  lemma {:induction false} RegisterReadExactly(held: S.CellPair, declared: S.CellPair)
    ensures (forall value: Bytes :: |value| < TWO32 ==> FirstEntry(held, value) == FirstEntry(declared, value)) <==>
      BehaviourOf(held) == BehaviourOf(declared)
  {
    if BehaviourOf(held) == BehaviourOf(declared) {
      forall value: Bytes | |value| < TWO32
        ensures FirstEntry(held, value) == FirstEntry(declared, value)
      {
        SameFirst(held, declared, value);
      }
    } else {
      var value := BehavioursDiffer(held, declared);
    }
  }

  lemma {:induction false} BothEntries(c: S.CellPair, d: S.CellPair)
    requires BehaviourOf(c) != BehaviourOf(d)
    ensures BehaviourOf(c).Entries? && BehaviourOf(d).Entries? && Needed(BehaviourOf(c)) == Needed(BehaviourOf(d)) ==>
      c.addr != d.addr
  {
  }

  // ---- A bus's windows --------------------------------------------------------

  /** The cells of an entry of ranges: the child's address, the parent's, the size. */
  datatype Shape = Shape(child: u32, parent: u32, size: u32)

  function Windows(sh: Shape, value: Bytes): Option<seq<Range>> {
    DecodedRanges(value, sh.child, sh.parent, sh.size, [])
  }

  function CellsIn(sh: Shape): u32 { EntryCells(sh.child, sh.parent, sh.size) }

  /** Decoding windows of a shape: never any, a panic as soon as so many cells are there, or three fields. */
  datatype Decoding = Never | Faults(cells: nat) | Fields(child: nat, parent: nat, size: nat)

  function DecodingOf(sh: Shape): Decoding {
    var n := CellsIn(sh);
    if n == 0 || 4 * n >= TWO32 then Never
    else if !Sliceable(sh.child, sh.parent, sh.size) then Faults(n)
    else Fields(sh.child, sh.parent, sh.size)
  }

  function Wanted(d: Decoding): nat
    requires !d.Never?
  {
    match d
    case Faults(n) => n
    case Fields(a, p, s) => a + p + s
  }

  lemma {:induction false} WantedIs(sh: Shape)
    requires !DecodingOf(sh).Never?
    ensures 0 < Wanted(DecodingOf(sh)) == CellsIn(sh) && 4 * CellsIn(sh) < TWO32
  {
    if DecodingOf(sh).Fields? {
      FieldSizes(sh.child, sh.parent, sh.size);
    }
  }

  lemma {:induction false} NoWindows(sh: Shape, value: Bytes)
    requires |value| < TWO32 && (DecodingOf(sh).Never? || |value| < 4 * Wanted(DecodingOf(sh)))
    ensures Windows(sh, value) == Some([])
  {
    if !DecodingOf(sh).Never? {
      WantedIs(sh);
    }
  }

  lemma {:induction false} WindowsFault(sh: Shape, value: Bytes)
    requires DecodingOf(sh).Faults? && |value| >= 4 * Wanted(DecodingOf(sh))
    ensures Windows(sh, value) == None
  {
  }

  lemma {:induction false} OneWindowRead(sh: Shape, value: Bytes, bytes: nat)
    requires DecodingOf(sh).Fields? && |value| == bytes == 4 * CellsIn(sh)
    ensures Windows(sh, value) == Some([EntryRange(value, 0, bytes, sh.child, sh.parent, sh.size)])
  {
    EntriesUnfold(value, 0, bytes, bytes, sh.child, sh.parent, sh.size, []);
    assert [] + [EntryRange(value, 0, bytes, sh.child, sh.parent, sh.size)] ==
      [EntryRange(value, 0, bytes, sh.child, sh.parent, sh.size)];
  }

  lemma {:induction false} ChildBaseOfOne(sh: Shape, n: nat, at: nat)
    requires DecodingOf(sh).Fields? && n == CellsIn(sh) && 0 < at <= n && sh.child <= at
    ensures EntryRange(S.OneAt(at, n), 0, 4 * n, sh.child, sh.parent, sh.size).childBase ==
      if sh.child == at then 1 else 0
  {
    FieldSizes(sh.child, sh.parent, sh.size);
    S.ReadOneAt(at, n, sh.child);
    assert S.OneAt(at, n)[0..4 * sh.child] == S.OneAt(at, n)[..4 * sh.child];
  }

  lemma {:induction false} FieldOfOne(field: Bytes, at: nat, n: nat, from: nat, p: u32)
    requires 0 < at <= n && from + p <= at && field == S.OneAt(at, n)[4 * from..4 * (from + p)]
    ensures CellsRead(field, p) == if from + p == at && p > 0 then 1 else 0
  {
    if from + p < at || p == 0 {
      S.ZeroCells(field, p);
    } else {
      S.ZeroCells(field, p - 1);
    }
  }

  lemma {:induction false} ParentBaseOfOne(sh: Shape, n: nat, at: nat)
    requires DecodingOf(sh).Fields? && n == CellsIn(sh) && sh.child < at && sh.child + sh.parent <= at <= n
    ensures EntryRange(S.OneAt(at, n), 0, 4 * n, sh.child, sh.parent, sh.size).parentBase ==
      if sh.child + sh.parent == at then 1 else 0
  {
    FieldSizes(sh.child, sh.parent, sh.size);
    var field := S.OneAt(at, n)[4 * sh.child..4 * (sh.child + sh.parent)];
    assert field == S.OneAt(at, n)[4 * sh.child..4 * ParentEnd(sh.child, sh.parent)];
    FieldOfOne(field, at, n, sh.child, sh.parent);
  }

  lemma {:induction false} WindowsTell(c: Shape, d: Shape, value: Bytes, bytes: nat)
    requires DecodingOf(c).Fields? && DecodingOf(d).Fields? && |value| == bytes == 4 * CellsIn(c) == 4 * CellsIn(d)
    requires EntryRange(value, 0, bytes, c.child, c.parent, c.size) !=
      EntryRange(value, 0, bytes, d.child, d.parent, d.size)
    ensures Windows(c, value) != Windows(d, value)
  {
    OneWindowRead(c, value, bytes);
    OneWindowRead(d, value, bytes);
    SinglesDiffer(EntryRange(value, 0, bytes, c.child, c.parent, c.size),
      EntryRange(value, 0, bytes, d.child, d.parent, d.size));
  }

  lemma {:induction false} ChildSplitDiffers(c: Shape, d: Shape, n: nat)
    requires DecodingOf(c).Fields? && DecodingOf(d).Fields? && n == CellsIn(c) == CellsIn(d) && c.child < d.child <= n
    ensures Windows(c, S.OneAt(d.child, n)) != Windows(d, S.OneAt(d.child, n))
  {
    ChildBaseOfOne(c, n, d.child);
    ChildBaseOfOne(d, n, d.child);
    WindowsTell(c, d, S.OneAt(d.child, n), 4 * n);
  }

  lemma {:induction false} ParentSplitDiffers(c: Shape, d: Shape, n: nat, at: nat)
    requires DecodingOf(c).Fields? && DecodingOf(d).Fields? && n == CellsIn(c) == CellsIn(d)
    requires c.child == d.child && c.parent < d.parent && at == d.child + d.parent <= n
    ensures Windows(c, S.OneAt(at, n)) != Windows(d, S.OneAt(at, n))
  {
    ParentBaseOfOne(c, n, at);
    ParentBaseOfOne(d, n, at);
    WindowsTell(c, d, S.OneAt(at, n), 4 * n);
  }

  /** Both decode fields, in as many cells, but split differently. */
  lemma {:induction false} SplitsDiffer(c: Shape, d: Shape) returns (value: Bytes)
    requires DecodingOf(c).Fields? && DecodingOf(d).Fields? && CellsIn(c) == CellsIn(d)
    requires c.child < d.child || (c.child == d.child && c.parent < d.parent)
    ensures |value| < TWO32 && Windows(c, value) != Windows(d, value)
  {
    var n := CellsIn(c);
    WantedIs(c);
    FieldSizes(d.child, d.parent, d.size);
    if c.child < d.child {
      value := S.OneAt(d.child, n);
      ChildSplitDiffers(c, d, n);
    } else {
      value := S.OneAt(d.child + d.parent, n);
      ParentSplitDiffers(c, d, n, d.child + d.parent);
    }
  }

  lemma {:induction false} SinglesDiffer(r: Range, r': Range)
    requires r != r'
    ensures Some([r]) != Some([r'])
  {
    assert [r][0] != [r'][0];
  }

  lemma {:induction false} SizesDiffer(c: Shape, d: Shape) returns (value: Bytes)
    requires !DecodingOf(c).Never?
    requires DecodingOf(d).Never? || Wanted(DecodingOf(c)) < Wanted(DecodingOf(d)) ||
      (Wanted(DecodingOf(c)) == Wanted(DecodingOf(d)) && (DecodingOf(c).Faults? <==> !DecodingOf(d).Faults?))
    ensures |value| < TWO32 && Windows(c, value) != Windows(d, value)
  {
    WantedIs(c);
    value := Zeros(4 * Wanted(DecodingOf(c)));
    AtSize(c, value);
    if DecodingOf(d).Never? || Wanted(DecodingOf(c)) < Wanted(DecodingOf(d)) {
      NoWindows(d, value);
    } else {
      AtSize(d, value);
    }
  }

  lemma {:induction false} AtSize(sh: Shape, value: Bytes)
    requires !DecodingOf(sh).Never? && |value| == 4 * Wanted(DecodingOf(sh))
    ensures DecodingOf(sh).Faults? <==> Windows(sh, value).None?
    ensures Windows(sh, value) != Some([])
  {
    WantedIs(sh);
    if DecodingOf(sh).Faults? {
      WindowsFault(sh, value);
    } else {
      OneWindowRead(sh, value, |value|);
    }
  }

  lemma {:induction false} SameWindows(c: Shape, d: Shape, value: Bytes)
    requires DecodingOf(c) == DecodingOf(d) && |value| < TWO32
    ensures Windows(c, value) == Windows(d, value)
  {
    if DecodingOf(c).Never? || |value| < 4 * Wanted(DecodingOf(c)) {
      NoWindows(c, value);
      NoWindows(d, value);
    } else if DecodingOf(c).Faults? {
      WindowsFault(c, value);
      WindowsFault(d, value);
    }
  }

  lemma {:induction false} DecodingsDiffer(c: Shape, d: Shape) returns (value: Bytes)
    requires DecodingOf(c) != DecodingOf(d)
    ensures |value| < TWO32 && Windows(c, value) != Windows(d, value)
  {
    var p, q := DecodingOf(c), DecodingOf(d);
    if q.Never? || (!p.Never? && Wanted(p) < Wanted(q)) {
      value := SizesDiffer(c, d);
    } else if p.Never? || Wanted(q) < Wanted(p) || p.Faults? || q.Faults? {
      value := SizesDiffer(d, c);
    } else {
      WantedIs(c);
      WantedIs(d);
      if c.child < d.child || (c.child == d.child && c.parent < d.parent) {
        value := SplitsDiffer(c, d);
      } else {
        FieldSizes(c.child, c.parent, c.size);
        FieldSizes(d.child, d.parent, d.size);
        value := SplitsDiffer(d, c);
      }
    }
  }

  /** A ranges property is decoded as with the declared cells, whatever it holds, exactly when the two decode alike. */
  lemma {:induction false} WindowsReadExactly(held: Shape, declared: Shape)
    ensures (forall value: Bytes :: |value| < TWO32 ==> Windows(held, value) == Windows(declared, value)) <==>
      DecodingOf(held) == DecodingOf(declared)
  {
    if DecodingOf(held) == DecodingOf(declared) {
      forall value: Bytes | |value| < TWO32
        ensures Windows(held, value) == Windows(declared, value)
      {
        SameWindows(held, declared, value);
      }
    } else {
      var value := DecodingsDiffer(held, declared);
    }
  }

  // ---- Where a search arrives -------------------------------------------------

  /**
   An open node by what its tree says: the cells it declares for its children,
   those its parent declares, its ranges property, the last if it has several,
   and the last one read so far with the cells held then.
  */
  datatype Level = Level(own: S.CellPair, outer: S.CellPair, property: Option<Bytes>, seen: Option<Windowed>)

  datatype Windowed = Windowed(shape: Shape, value: Bytes)

  function RangesOf(t: Items, strings: Bytes, before: Option<Bytes>): Option<Bytes> {
    match t
    case Done => before
    case Nop(rest) => RangesOf(rest, strings, before)
    case Prop(nameoff, value, rest) =>
      RangesOf(rest, strings, if GetString(strings, nameoff) == Ascii("ranges") then Some(value) else before)
    case Child(_, _, rest) => RangesOf(rest, strings, before)
  }

  /** The cells held for decoding a ranges property of the innermost open node. */
  function HeldShape(open: seq<RegNode>): Shape {
    Shape(Top(open, ROOT_NODE).addrCells, ParentCells(open), Top(open, ROOT_NODE).sizeCells)
  }

  function DeclaredShape(l: Level): Shape { Shape(l.own.addr, l.outer.addr, l.own.size) }

  function Opened(body: Items, strings: Bytes, levels: seq<Level>): Level {
    Level(S.Declared(body, strings, S.SPEC_DEFAULT),
      if levels == [] then S.CellPair(2, 2) else levels[|levels| - 1].own,
      RangesOf(body, strings, None), None)
  }

  /** A ranges property is read, unless an entry of it would have no cells. */
  function Noted(levels: seq<Level>, open: seq<RegNode>, name: Bytes, value: Bytes): seq<Level> {
    if levels == [] || name != Ascii("ranges") || CellsIn(HeldShape(open)) == 0 then levels
    else levels[..|levels| - 1] + [levels[|levels| - 1].(seen := Some(Windowed(HeldShape(open), value)))]
  }

  /** Reaches, with the levels that are open at the place. */
  predicate Arrives(t: Items, strings: Bytes, target: Bytes, open: seq<RegNode>, names: seq<Bytes>, settings: Settings,
        levels: seq<Level>, at: Place, found: seq<Level>)
  {
    match t
    case Done => false
    case Nop(rest) => Arrives(rest, strings, target, open, names, settings, levels, at, found)
    case Prop(nameoff, value, rest) =>
      if open == [] then Arrives(rest, strings, target, open, names, settings, levels, at, found)
      else
        var name := GetString(strings, nameoff);
        var next := OnProp(open, Joined(names), target, settings, name, value);
        || (name == Ascii("reg") && Joined(names) == target && at == Place(names, open, settings, value) &&
          found == levels)
        || (next.Next? && Arrives(rest, strings, target, WithTop(open, next.node), names, next.settings,
              Noted(levels, open, name, value), at, found))
    case Child(name, body, rest) =>
      var v := FindWalk(body, strings, target, open + [Inherited(open)], names + [name], settings);
      || Arrives(body, strings, target, open + [Inherited(open)], names + [name], settings,
           levels + [Opened(body, strings, levels)], at, found)
      || (v.Visited? && Arrives(rest, strings, target, open, names, v.settings, levels, at, found))
  }

  /** The windows that a node on the stack holds are those of the last property read. */
  predicate Holds(node: RegNode, l: Level) {
    match l.seen
    case None => node.ranges == []
    case Some(w) => Windows(w.shape, w.value) == Some(node.ranges)
  }

  ghost predicate AllHold(open: seq<RegNode>, levels: seq<Level>) {
    |open| == |levels| && forall k :: 0 <= k < |open| ==> Holds(open[k], levels[k])
  }

  lemma {:induction false} NotedHolds(open: seq<RegNode>, levels: seq<Level>, path: Bytes, target: Bytes,
        settings: Settings, name: Bytes, value: Bytes)
    requires AllHold(open, levels) && open != [] && OnProp(open, path, target, settings, name, value).Next?
    ensures AllHold(WithTop(open, OnProp(open, path, target, settings, name, value).node),
      Noted(levels, open, name, value))
  {
    var n, node := |open| - 1, OnProp(open, path, target, settings, name, value).node;
    assert Holds(open[n], levels[n]);
    TopHolds(open, levels[n], path, target, settings, name, value);
  }

  lemma {:induction false} RangesIsNotCells()
    ensures Ascii("ranges") != Ascii("#address-cells") && Ascii("ranges") != Ascii("#size-cells")
  {
    assert |Ascii("ranges")| == 6 && |Ascii("#address-cells")| == 14 && |Ascii("#size-cells")| == 11;
  }

  lemma {:induction false} TopHolds(open: seq<RegNode>, l: Level, path: Bytes, target: Bytes, settings: Settings,
        name: Bytes, value: Bytes)
    requires open != [] && Holds(open[|open| - 1], l) && OnProp(open, path, target, settings, name, value).Next?
    ensures var node := OnProp(open, path, target, settings, name, value).node;
      if name == Ascii("ranges") && CellsIn(HeldShape(open)) != 0 then
        Windows(HeldShape(open), value) == Some(node.ranges)
      else Holds(node, l)
  {
    RangesIsNotCells();
  }

  /** Every place that the search reaches has its levels, and their windows are what was last read. */
  lemma {:induction false} PlaceHasLevels(t: Items, strings: Bytes, target: Bytes, open: seq<RegNode>,
        names: seq<Bytes>, settings: Settings, levels: seq<Level>, at: Place)
    returns (found: seq<Level>)
    requires Reaches(t, strings, target, open, names, settings, at) && AllHold(open, levels)
    ensures Arrives(t, strings, target, open, names, settings, levels, at, found) && AllHold(at.open, found)
    decreases t
  {
    match t
    case Nop(rest) => found := PlaceHasLevels(rest, strings, target, open, names, settings, levels, at);
    case Prop(nameoff, value, rest) =>
      if open == [] {
        found := PlaceHasLevels(rest, strings, target, open, names, settings, levels, at);
      } else {
        var name := GetString(strings, nameoff);
        var next := OnProp(open, Joined(names), target, settings, name, value);
        if name == Ascii("reg") && Joined(names) == target && at == Place(names, open, settings, value) {
          found := levels;
        } else {
          NotedHolds(open, levels, Joined(names), target, settings, name, value);
          found := PlaceHasLevels(rest, strings, target, WithTop(open, next.node), names, next.settings,
            Noted(levels, open, name, value), at);
        }
      }
    case Child(name, body, rest) =>
      if Reaches(body, strings, target, open + [Inherited(open)], names + [name], settings, at) {
        found := PlaceHasLevels(body, strings, target, open + [Inherited(open)], names + [name], settings,
          levels + [Opened(body, strings, levels)], at);
      } else {
        var v := FindWalk(body, strings, target, open + [Inherited(open)], names + [name], settings);
        found := PlaceHasLevels(rest, strings, target, open, names, v.settings, levels, at);
      }
  }

  // ---- When the place is read as prescribed ------------------------------------

  /** All windows of a property, decoded with cells of this shape. */
  function AllWindows(sh: Shape, value: Bytes, pos: nat, bytes: nat): seq<Range>
    requires DecodingOf(sh).Fields? && bytes == 4 * CellsIn(sh)
    decreases |value| - pos
  {
    if pos + bytes > |value| then []
    else
      [EntryRange(value, pos, bytes, sh.child, sh.parent, sh.size)] + AllWindows(sh, value, pos + bytes, bytes)
  }

  /** The bus of a level as section 2.3.8 has it: its property with the declared cells. */
  function BusOf(l: Level): Bus
    requires l.property.Some? ==> DecodingOf(DeclaredShape(l)).Fields?
  {
    match l.property
    case None => Absent
    case Some(value) => Present(AllWindows(DeclaredShape(l), value, 0, 4 * CellsIn(DeclaredShape(l))))
  }

  /** The level's property, if any, has been read, with cells that decode like the declared ones. */
  predicate Faithful(l: Level) {
    match l.property
    case None => l.seen == None
    case Some(value) =>
      |value| < TWO32 && DecodingOf(DeclaredShape(l)).Fields? && l.seen.Some? && l.seen.value.value == value &&
      DecodingOf(l.seen.value.shape) == DecodingOf(DeclaredShape(l))
  }

  lemma {:induction false} CodeStops(sh: Shape, value: Bytes, pos: nat, bytes: nat, done: seq<Range>, all: seq<Range>)
    requires DecodingOf(sh).Fields? && bytes == 4 * CellsIn(sh) && |done| <= MAX_RANGES && done <= all
    requires (pos + bytes > |value| && all == done) || |done| == MAX_RANGES
    ensures Entries(value, pos, bytes, sh.child, sh.parent, sh.size, done) == Some(FirstFour(all))
  {
    assert FirstFour(all) == done;
  }

  lemma {:induction false} AllWindowsUnfold(sh: Shape, value: Bytes, pos: nat, next: nat, bytes: nat)
    requires DecodingOf(sh).Fields? && bytes == 4 * CellsIn(sh) && next == pos + bytes <= |value|
    ensures AllWindows(sh, value, pos, bytes) ==
      [EntryRange(value, pos, bytes, sh.child, sh.parent, sh.size)] + AllWindows(sh, value, next, bytes)
  {
  }

  lemma {:induction false} Regrouped(done: seq<Range>, r: Range, rest: seq<Range>)
    ensures done + ([r] + rest) == done + [r] + rest
  {
  }

  lemma {:induction false} AllWindowsStep(sh: Shape, value: Bytes, pos: nat, next: nat, bytes: nat, r: Range,
        done: seq<Range>)
    requires DecodingOf(sh).Fields? && bytes == 4 * CellsIn(sh) && next == pos + bytes <= |value|
    requires r == EntryRange(value, pos, bytes, sh.child, sh.parent, sh.size)
    ensures done + AllWindows(sh, value, pos, bytes) == done + [r] + AllWindows(sh, value, next, bytes)
  {
    AllWindowsUnfold(sh, value, pos, next, bytes);
    Regrouped(done, r, AllWindows(sh, value, next, bytes));
  }

  lemma {:induction false} CodeReadsFour(sh: Shape, value: Bytes, pos: nat, bytes: nat, done: seq<Range>,
        all: seq<Range>)
    requires DecodingOf(sh).Fields? && bytes == 4 * CellsIn(sh) && |done| <= MAX_RANGES
    requires all == done + AllWindows(sh, value, pos, bytes)
    ensures Entries(value, pos, bytes, sh.child, sh.parent, sh.size, done) == Some(FirstFour(all))
    decreases |value| - pos
  {
    if pos + bytes > |value| || |done| == MAX_RANGES {
      CodeStops(sh, value, pos, bytes, done, all);
    } else {
      var next, r := pos + bytes, EntryRange(value, pos, bytes, sh.child, sh.parent, sh.size);
      var longer := done + [r];
      AllWindowsStep(sh, value, pos, next, bytes, r, done);
      CodeReadsFour(sh, value, next, bytes, longer, all);
      EntryStep(value, pos, next, bytes, sh.child, sh.parent, sh.size, done, longer, r);
    }
  }

  lemma {:induction false} FaithfulIsSeen(node: RegNode, l: Level)
    requires Holds(node, l) && Faithful(l)
    ensures node.ranges == Seen(BusOf(l))
  {
    if l.property.Some? {
      var sh, value := DeclaredShape(l), l.property.value;
      SameWindows(l.seen.value.shape, sh, value);
      CodeReadsFour(sh, value, 0, 4 * CellsIn(sh), [], AllWindows(sh, value, 0, 4 * CellsIn(sh)));
    }
  }

  predicate AllFaithful(levels: seq<Level>) { forall k :: 0 <= k < |levels| ==> Faithful(levels[k]) }

  function Buses(levels: seq<Level>): seq<Bus>
    requires AllFaithful(levels)
  {
    if levels == [] then []
    else
      assert Faithful(levels[|levels| - 1]);
      Buses(levels[..|levels| - 1]) + [BusOf(levels[|levels| - 1])]
  }

  lemma {:induction false} FaithfulLevelsAreSeen(open: seq<RegNode>, levels: seq<Level>)
    requires AllHold(open, levels) && AllFaithful(levels)
    ensures Sees(open, Buses(levels))
    decreases |levels|
  {
    if levels != [] {
      var n := |levels| - 1;
      FaithfulLevelsAreSeen(open[..n], levels[..n]);
      FaithfulIsSeen(open[n], levels[n]);
    }
  }

  /**
   A register that the search reports: at its place every level's windows are
   those of the property read there. Where the levels between the root and the
   node decode as declared, they are the ones the specification sees, so that
   BusSpec.TranslationMeetsSpecExactly decides the translation; and the entry
   itself is read as with the parent's declared cells, whatever it holds,
   exactly when the held cells read alike.
  */
  lemma {:induction false} RegisterMeetsSpec(t: Items, strings: Bytes, target: Bytes, at: Place)
    returns (found: seq<Level>)
    requires Reaches(t, strings, target, [], [], DEFAULTS, at)
    ensures Arrives(t, strings, target, [], [], DEFAULTS, [], at, found) && |found| == |at.open| > 0
    ensures var n := |found| - 1;
      n >= 1 && AllFaithful(found[1..n]) ==> Sees(Between(at.open), Buses(found[1..n]))
    ensures (forall value: Bytes :: |value| < TWO32 ==>
        FirstEntry(Held(at.open), value) == FirstEntry(found[|found| - 1].outer, value)) <==>
      BehaviourOf(Held(at.open)) == BehaviourOf(found[|found| - 1].outer)
  {
    ReachedIsTarget(t, strings, target, [], [], DEFAULTS, at);
    found := PlaceHasLevels(t, strings, target, [], [], DEFAULTS, [], at);
    var n := |found| - 1;
    RegisterReadExactly(Held(at.open), found[n].outer);
    if n >= 1 && AllFaithful(found[1..n]) {
      assert forall k :: 0 <= k < n - 1 ==> found[1..n][k] == found[k + 1] && Between(at.open)[k] == at.open[k + 1];
      FaithfulLevelsAreSeen(Between(at.open), found[1..n]);
    }
  }
}
