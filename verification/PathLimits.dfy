/** Device trees in which the search by path departs from the specification (src/mm/dtb.rs, find_reg_by_path). */
module PathLimits {
  import opened Machine
  import opened Wrappers
  import opened Fdt
  import opened Cells
  import opened BusRanges
  import opened BusSpec
  import opened DtbPath
  import opened PathSpec
  import R = DtbRegions
  import S = DtbSpec
  import DtbLimits

  const REG: u32 := 0
  const RANGES: u32 := 4
  const ADDRESS_CELLS: u32 := 11
  const SIZE_CELLS: u32 := 26

  function Head(): Bytes { Ascii("reg") + [0] + Ascii("ranges") + [0] }

  function Strings(): Bytes { Head() + Ascii("#address-cells") + [0] + Ascii("#size-cells") + [0] }

  lemma {:induction false} NamesOfHead(tail: Bytes)
    ensures GetString(Head() + tail, REG) == Ascii("reg") && GetString(Head() + tail, RANGES) == Ascii("ranges")
  {
    var reg, ranges := Ascii("reg"), Ascii("ranges");
    assert Head() + tail == [] + reg + [0] + (ranges + [0] + tail);
    DtbLimits.NameAt([], reg, ranges + [0] + tail);
    assert Head() + tail == (reg + [0]) + ranges + [0] + tail;
    DtbLimits.NameAt(reg + [0], ranges, tail);
  }

  lemma {:induction false} NamesOfCells(head: Bytes)
    requires |head| == ADDRESS_CELLS
    ensures var s := head + Ascii("#address-cells") + [0] + Ascii("#size-cells") + [0];
      GetString(s, ADDRESS_CELLS) == Ascii("#address-cells") && GetString(s, SIZE_CELLS) == Ascii("#size-cells")
  {
    var addr, size := Ascii("#address-cells"), Ascii("#size-cells");
    var s := head + addr + [0] + size + [0];
    assert s == head + addr + [0] + (size + [0]);
    DtbLimits.NameAt(head, addr, size + [0]);
    assert s == (head + addr + [0]) + size + [0] + [];
    DtbLimits.NameAt(head + addr + [0], size, []);
  }

  lemma {:induction false} NamesOfStrings()
    ensures GetString(Strings(), REG) == Ascii("reg") && GetString(Strings(), RANGES) == Ascii("ranges")
    ensures GetString(Strings(), ADDRESS_CELLS) == Ascii("#address-cells")
    ensures GetString(Strings(), SIZE_CELLS) == Ascii("#size-cells")
  {
    var tail := Ascii("#address-cells") + [0] + Ascii("#size-cells") + [0];
    assert Strings() == Head() + tail;
    NamesOfHead(tail);
    NamesOfCells(Head());
  }

  lemma {:induction false} NamesDiffer()
    ensures IsNodeName(Ascii("ranges")) && IsNodeName(Ascii("#address-cells")) && IsNodeName(Ascii("#size-cells"))
    ensures !IsNodeName(Ascii("reg")) && Ascii("#size-cells") != Ascii("#address-cells")
    ensures Ascii("ranges") != Ascii("#address-cells") && Ascii("ranges") != Ascii("#size-cells")
  {
    assert |Ascii("ranges")| == 6 && |Ascii("#address-cells")| == 14 && |Ascii("#size-cells")| == 11 &&
      |Ascii("reg")| == 3;
  }

  // ---- A register read with the wrong cells -----------------------------------

  function Uart(): Bytes { Ascii("uart") }

  function UartPath(): Bytes { [SLASH] + Uart() }

  /** A device below a root without cell properties: its register has two cells of address and one of size. */
  function DefaultUart(addr: u64, size: u64): Items {
    Child([], Child(Uart(), Prop(REG, CellsOf(addr, 2) + CellsOf(size, 1), Done), Done), Done)
  }

  lemma {:induction false} PathOfUart()
    ensures Joined([[], Uart()]) == UartPath()
  {
    assert [[], Uart()][..1] == [[]];
    assert Joined([[]]) == [];
    assert [] + [SLASH] + Uart() == UartPath();
  }

  lemma {:induction false} RegisterFits(addr: u64, size: u32)
    ensures FirstEntry(S.CellPair(2, 1), CellsOf(addr, 2) + CellsOf(size, 1)) == Entry(addr, size)
    ensures FirstEntry(S.CellPair(2, 2), CellsOf(addr, 2) + CellsOf(size, 1)) == Missing
  {
    var value := CellsOf(addr, 2) + CellsOf(size, 1);
    assert value[..8] == CellsOf(addr, 2) && value[8..12] == CellsOf(size, 1);
    CellsRoundTrip(addr, 2);
    CellsRoundTrip(size, 1);
  }

  /** A node alone in its parent. */
  lemma {:induction false} OnlyChild(name: Bytes, body: Items, target: Bytes, open: seq<RegNode>, names: seq<Bytes>,
        inner: seq<RegNode>, path: seq<Bytes>)
    requires inner == open + [Inherited(open)] && path == names + [name]
    ensures FindWalk(Child(name, body, Done), Strings(), target, open, names, DEFAULTS) ==
      match FindWalk(body, Strings(), target, inner, path, DEFAULTS)
      case Found(answer) => Found(answer)
      case Visited(_, settings) => Visited(open, settings)
  {
  }

  /** A property of an open node. */
  lemma {:induction false} OneProp(nameoff: u32, value: Bytes, rest: Items, target: Bytes, open: seq<RegNode>,
        names: seq<Bytes>, name: Bytes)
    requires open != [] && GetString(Strings(), nameoff) == name
    ensures FindWalk(Prop(nameoff, value, rest), Strings(), target, open, names, DEFAULTS) ==
      match OnProp(open, Joined(names), target, DEFAULTS, name, value)
      case Ends(answer) => Found(answer)
      case Next(node, settings) => FindWalk(rest, Strings(), target, WithTop(open, node), names, settings)
  {
  }

  /** The nodes open below a root, and below a node in it, that set no cells. */
  lemma {:induction false} PlainNodes(name: Bytes)
    ensures [ROOT_NODE] == [] + [Inherited([])] && [ROOT_NODE, ROOT_NODE] == [ROOT_NODE] + [Inherited([ROOT_NODE])]
    ensures var none: seq<Bytes> := []; [[]] == none + [[]] && [[], name] == [[]] + [name]
  {
  }

  /** By the specification the register is there, but the search finds nothing: it holds two cells for a size. */
  lemma {:induction false} DefaultRegisterIsMissed(addr: u64, size: u32)
    ensures FindWalk(DefaultUart(addr, size), Strings(), UartPath(), [], [], DEFAULTS) == Visited([], DEFAULTS)
    ensures FirstEntry(S.SPEC_DEFAULT, CellsOf(addr, 2) + CellsOf(size, 1)) == Entry(addr, size)
  {
    var value := CellsOf(addr, 2) + CellsOf(size, 1);
    var open := [ROOT_NODE, ROOT_NODE];
    var uart := Prop(REG, value, Done);
    RegisterFits(addr, size);
    RegisterIsFirstEntry(open, UartPath(), DEFAULTS, value);
    UartIsVisited(addr, size, value, open);
    PlainNodes(Uart());
    OnlyChild([], Child(Uart(), uart, Done), UartPath(), [], [], [ROOT_NODE], [[]]);
    OnlyChild(Uart(), uart, UartPath(), [ROOT_NODE], [[]], open, [[], Uart()]);
  }

  lemma {:induction false} UartIsVisited(addr: u64, size: u32, value: Bytes, open: seq<RegNode>)
    requires open == [ROOT_NODE, ROOT_NODE] && value == CellsOf(addr, 2) + CellsOf(size, 1)
    requires OnReg(open, UartPath(), DEFAULTS, value) == Next(ROOT_NODE, DEFAULTS)
    ensures FindWalk(Prop(REG, value, Done), Strings(), UartPath(), open, [[], Uart()], DEFAULTS) ==
      Visited(open, DEFAULTS)
  {
    NamesOfStrings();
    NamesDiffer();
    PathOfUart();
    OneProp(REG, value, Done, UartPath(), open, [[], Uart()], Ascii("reg"));
    assert WithTop(open, ROOT_NODE) == open;
  }

  // ---- Windows read with the wrong cells --------------------------------------

  function Soc(): Bytes { Ascii("soc") }

  function SocPath(): Bytes { [SLASH] + Soc() + [SLASH] + Uart() }

  function UartReg(addr: u64, size: u64): Bytes { CellsOf(addr, 1) + CellsOf(size, 1) }

  function SocUart(addr: u64, size: u64): Items { Child(Uart(), Prop(REG, UartReg(addr, size), Done), Done) }

  /** A bus whose ranges property stands before its cell properties. */
  function EarlyRanges(r: Range, addr: u64, size: u64): Items {
    Child([], Child(Soc(), Prop(RANGES, RangeBytes(r, 1, 2, 1), SocCells(addr, size)), Done), Done)
  }

  function SocCells(addr: u64, size: u64): Items {
    Prop(ADDRESS_CELLS, Be32(1), Prop(SIZE_CELLS, Be32(1), SocUart(addr, size)))
  }

  lemma {:induction false} PathOfSoc()
    ensures Joined([[], Soc(), Uart()]) == SocPath() && !IsRp1Path(SocPath())
  {
    assert [[], Soc(), Uart()][..2] == [[], Soc()] && [[], Soc()][..1] == [[]];
    assert Joined([[]]) == [];
    assert [] + [SLASH] + Soc() == [SLASH] + Soc();
    assert |SocPath()| == 9 && |Ascii("/axi/pcie@1000120000/rp1/")| == 25;
  }

  lemma {:induction false} RangesMissed(r: Range)
    ensures OnNode([ROOT_NODE, ROOT_NODE], Ascii("ranges"), RangeBytes(r, 1, 2, 1)) == Some(ROOT_NODE)
  {
    NamesDiffer();
    NoWindows(Shape(2, 2, 2), RangeBytes(r, 1, 2, 1));
  }

  lemma {:induction false} CellsSet()
    ensures ReadBe32(Be32(1), 0) == 1
  {
    Be32RoundTrip(1);
  }

  lemma {:induction false} SocRegister(addr: u32, size: u32)
    ensures FirstEntry(S.CellPair(1, 1), UartReg(addr, size)) == Entry(addr, size)
  {
    var value := UartReg(addr, size);
    assert value[..4] == CellsOf(addr, 1) && value[4..8] == CellsOf(size, 1);
    CellsRoundTrip(addr, 1);
    CellsRoundTrip(size, 1);
  }

  lemma {:induction false} NothingTranslates(a: RegNode, b: RegNode, c: RegNode, addr: u64)
    requires a.ranges == b.ranges == []
    ensures TranslateAddr(addr, [a, b, c]) == Some(addr)
  {
    assert [a, b, c][1..2] == [b];
    TranslatesBetween([a, b, c], addr);
    OneLevel(b, addr);
  }

  const BUS: RegNode := RegNode(1, 1, [])

  lemma {:induction false} RegOnBus(addr: u32, size: u32, inner: seq<RegNode>)
    requires inner == [ROOT_NODE, BUS, BUS]
    ensures OnReg(inner, SocPath(), DEFAULTS, UartReg(addr, size)) == Ends(Reply(Some(UartInfo(addr, size, DEFAULTS))))
  {
    PathOfSoc();
    SocRegister(addr, size);
    NothingTranslates(ROOT_NODE, BUS, BUS, addr);
    RegisterIsFirstEntry(inner, SocPath(), DEFAULTS, UartReg(addr, size));
  }

  /** The nodes open on the bus, and what its cell properties make of them. */
  lemma {:induction false} BusNodes(half: seq<RegNode>, names: seq<Bytes>)
    requires half == [ROOT_NODE, ROOT_NODE.(addrCells := 1)] && names == [[], Soc()]
    ensures WithTop([ROOT_NODE, ROOT_NODE], half[1]) == half && WithTop(half, BUS) == [ROOT_NODE, BUS]
    ensures [ROOT_NODE, BUS, BUS] == [ROOT_NODE, BUS] + [Inherited([ROOT_NODE, BUS])]
    ensures [[], Soc(), Uart()] == names + [Uart()]
  {
  }

  lemma {:induction false} UartOnBus(addr: u32, size: u32, open: seq<RegNode>)
    requires open == [ROOT_NODE, BUS]
    ensures FindWalk(SocUart(addr, size), Strings(), SocPath(), open, [[], Soc()], DEFAULTS) ==
      Found(Reply(Some(UartInfo(addr, size, DEFAULTS))))
  {
    var inner, names: seq<Bytes> := [ROOT_NODE, BUS, BUS], [[], Soc(), Uart()];
    NamesOfStrings();
    NamesDiffer();
    PathOfSoc();
    RegOnBus(addr, size, inner);
    BusNodes([ROOT_NODE, ROOT_NODE.(addrCells := 1)], [[], Soc()]);
    OneProp(REG, UartReg(addr, size), Done, SocPath(), inner, names, Ascii("reg"));
    OnlyChild(Uart(), Prop(REG, UartReg(addr, size), Done), SocPath(), open, [[], Soc()], inner, names);
  }

  lemma {:induction false} CellsProps(open: seq<RegNode>, path: Bytes, target: Bytes)
    requires open != []
    ensures var node := Top(open, ROOT_NODE);
      && OnProp(open, path, target, DEFAULTS, Ascii("#address-cells"), Be32(1)) == Next(node.(addrCells := 1), DEFAULTS)
      && OnProp(open, path, target, DEFAULTS, Ascii("#size-cells"), Be32(1)) == Next(node.(sizeCells := 1), DEFAULTS)
  {
    NamesDiffer();
    CellsSet();
  }

  lemma {:induction false} CellsOnBus(addr: u32, size: u32, open: seq<RegNode>)
    requires open == [ROOT_NODE, ROOT_NODE]
    ensures FindWalk(SocCells(addr, size), Strings(), SocPath(), open, [[], Soc()], DEFAULTS) ==
      Found(Reply(Some(UartInfo(addr, size, DEFAULTS))))
  {
    var half, names: seq<Bytes> := [ROOT_NODE, ROOT_NODE.(addrCells := 1)], [[], Soc()];
    NamesOfStrings();
    CellsProps(open, Joined(names), SocPath());
    CellsProps(half, Joined(names), SocPath());
    var rest := Prop(SIZE_CELLS, Be32(1), SocUart(addr, size));
    OneProp(ADDRESS_CELLS, Be32(1), rest, SocPath(), open, names, Ascii("#address-cells"));
    OneProp(SIZE_CELLS, Be32(1), SocUart(addr, size), SocPath(), half, names, Ascii("#size-cells"));
    BusNodes(half, names);
    UartOnBus(addr, size, [ROOT_NODE, BUS]);
  }

  lemma {:induction false} SearchOnBus(r: Range, addr: u32, size: u32)
    ensures FindWalk(EarlyRanges(r, addr, size), Strings(), SocPath(), [], [], DEFAULTS) ==
      Found(Reply(Some(UartInfo(addr, size, DEFAULTS))))
  {
    var open := [ROOT_NODE, ROOT_NODE];
    var soc := Prop(RANGES, RangeBytes(r, 1, 2, 1), SocCells(addr, size));
    SocIsRead(r, addr, size, open);
    CellsOnBus(addr, size, open);
    PlainNodes(Soc());
    OnlyChild([], Child(Soc(), soc, Done), SocPath(), [], [], [ROOT_NODE], [[]]);
    OnlyChild(Soc(), soc, SocPath(), [ROOT_NODE], [[]], open, [[], Soc()]);
  }

  lemma {:induction false} SocIsRead(r: Range, addr: u32, size: u32, open: seq<RegNode>)
    requires open == [ROOT_NODE, ROOT_NODE]
    ensures var soc, names: seq<Bytes> := Prop(RANGES, RangeBytes(r, 1, 2, 1), SocCells(addr, size)), [[], Soc()];
      FindWalk(soc, Strings(), SocPath(), open, names, DEFAULTS) ==
      FindWalk(SocCells(addr, size), Strings(), SocPath(), open, names, DEFAULTS)
  {
    NamesOfStrings();
    NamesDiffer();
    RangesMissed(r);
    OneProp(RANGES, RangeBytes(r, 1, 2, 1), SocCells(addr, size), SocPath(), open, [[], Soc()], Ascii("ranges"));
    assert WithTop(open, ROOT_NODE) == open;
  }

  lemma {:induction false} DeclaredWindow(r: Range)
    requires FitsRange(r, 1, 2, 1)
    ensures Windows(Shape(1, 2, 1), RangeBytes(r, 1, 2, 1)) == Some([r])
    ensures DecodingOf(Shape(2, 2, 2)) != DecodingOf(Shape(1, 2, 1))
  {
    RangesRoundTrip([r], 1, 2, 1, []);
    assert [r][1..] == [];
    assert RangeBytes(r, 1, 2, 1) + [] == RangeBytes(r, 1, 2, 1);
    assert AllRangeBytes([r], 1, 2, 1) == RangeBytes(r, 1, 2, 1) && FirstFour([r]) == [r];
  }

  /**
   The bus declares one window, and by the specification the register appears
   through it; the search reads the property with the cells it holds then,
   finds no window in it, and reports the untranslated address.
  */
  lemma {:induction false} EarlyRangesAreMissed(r: Range, addr: u32, size: u32)
    requires FitsRange(r, 1, 2, 1) && Within(r, addr)
    ensures Windows(Shape(1, 2, 1), RangeBytes(r, 1, 2, 1)) == Some([r])
    ensures SpecUp([Present([r])], addr) == Some((r.parentBase + (addr - r.childBase)) % TWO64)
    ensures FindWalk(EarlyRanges(r, addr, size), Strings(), SocPath(), [], [], DEFAULTS) ==
      Found(Reply(Some(UartInfo(addr, size, DEFAULTS))))
  {
    DeclaredWindow(r);
    ThroughTheWindow(r, addr);
    SearchOnBus(r, addr, size);
  }

  lemma {:induction false} ThroughTheWindow(r: Range, addr: u64)
    requires Within(r, addr)
    ensures SpecUp([Present([r])], addr) == Some((r.parentBase + (addr - r.childBase)) % TWO64)
  {
    OneSpecLevel(Present([r]), addr);
  }

  // ---- Paths longer than the buffer --------------------------------------------

  /** A device in a root without cell properties, with a register of two cells each. */
  function LongUart(name: Bytes, value: Bytes): Items { Child([], Child(name, Prop(REG, value, Done), Done), Done) }

  function CutPath(name: Bytes): Bytes
    requires |name| >= 256
  {
    [SLASH] + name[..255]
  }

  lemma {:induction false} LongEvents(name: Bytes, value: Bytes)
    ensures EventsOf(LongUart(name, value), Nil) == Cons(BeginNode([]), Cons(BeginNode(name),
              Cons(Property(REG, value), Cons(EndNode, Cons(EndNode, Nil)))))
  {
    var reg := Prop(REG, value, Done);
    var inner := Cons(EndNode, Cons(EndNode, Nil));
    assert EventsOf(reg, inner) == Cons(Property(REG, value), inner);
    assert EventsOf(Child(name, reg, Done), Cons(EndNode, Nil)) == Cons(BeginNode(name), EventsOf(reg, inner));
  }

  lemma {:induction false} WideEntry(addr: u64, size: u64)
    ensures FirstEntry(S.CellPair(2, 2), CellsOf(addr, 2) + CellsOf(size, 2)) == Entry(addr, size)
  {
    var a, b := CellsOf(addr, 2), CellsOf(size, 2);
    Halves(a, b);
    CellsRoundTrip(addr, 2);
    CellsRoundTrip(size, 2);
    EntryOfHalves(a, b);
  }

  lemma {:induction false} Halves(a: Bytes, b: Bytes)
    requires |a| == |b| == 8
    ensures (a + b)[..8] == a && (a + b)[8..16] == b
  {
  }

  lemma {:induction false} EntryOfHalves(a: Bytes, b: Bytes)
    requires |a| == |b| == 8
    ensures FirstEntry(S.CellPair(2, 2), a + b) == Entry(CellsRead(a, 2), CellsRead(b, 2))
  {
    Halves(a, b);
  }

  lemma {:induction false} WideRegister(addr: u64, size: u64, value: Bytes, open: seq<RegNode>, path: Bytes)
    requires value == CellsOf(addr, 2) + CellsOf(size, 2) && open == [ROOT_NODE, ROOT_NODE] && !IsRp1Path(path)
    ensures OnReg(open, path, DEFAULTS, value) == Ends(Reply(Some(UartInfo(addr, size, DEFAULTS))))
  {
    WideEntry(addr, size);
    RegisterIsFirstEntry(open, path, DEFAULTS, value);
    TranslatesBetween(open, addr);
    assert Between(open) == [];
  }

  /** The scan after it has entered both nodes: its buffer holds the first 256 bytes of the path. */
  lemma {:induction false} CutScan(name: Bytes, root: Scan, inner: Scan)
    requires |name| >= 256 && root == Begun(START, []) && inner == Begun(root, name)
    ensures inner.path == CutPath(name) && inner.open == [ROOT_NODE, ROOT_NODE] && inner.settings == DEFAULTS
  {
    assert [] + [Inherited([])] == [ROOT_NODE] && [ROOT_NODE] + [Inherited([ROOT_NODE])] == [ROOT_NODE, ROOT_NODE];
    assert ([] + [SLASH] + name)[..256] == CutPath(name);
  }

  /**
   A node whose path takes more than 256 bytes is not found by it, and is
   found by the first 256 bytes, which are no node's path.
  */
  lemma {:induction false} LongPathsAreCut(name: Bytes, addr: u64, size: u64, trailing: Bytes)
    requires |name| >= 256 && 0 !in name && !IsRp1Path(CutPath(name))
    ensures var t := LongUart(name, CellsOf(addr, 2) + CellsOf(size, 2));
      && WellFormed(t) && !HasPath(t, [], CutPath(name)) && HasPath(t, [], [SLASH] + name)
      && Find(Tokens(StructBlock(t, trailing), 0), Strings(), CutPath(name), START) ==
         Reply(Some(UartInfo(addr, size, DEFAULTS)))
      && Find(Tokens(StructBlock(t, trailing), 0), Strings(), [SLASH] + name, START) == Reply(None)
  {
    var value := CellsOf(addr, 2) + CellsOf(size, 2);
    var root := Begun(START, []);
    var inner := Begun(root, name);
    LongShape(name, value);
    RoundTrip(LongUart(name, value), trailing);
    LongEvents(name, value);
    CutScan(name, root, inner);
    FindEnters(name, value, CutPath(name), root, inner);
    FindEnters(name, value, [SLASH] + name, root, inner);
    WideRegister(addr, size, value, inner.open, CutPath(name));
    FindsAtCut(value, CutPath(name), inner);
    MissesAtCut(value, [SLASH] + name, inner);
  }

  lemma {:induction false} LongShape(name: Bytes, value: Bytes)
    requires |name| >= 256 && 0 !in name && |value| < TWO32
    ensures WellFormed(LongUart(name, value))
    ensures !HasPath(LongUart(name, value), [], CutPath(name)) && HasPath(LongUart(name, value), [], [SLASH] + name)
  {
    var none: seq<Bytes> := [];
    var child := Child(name, Prop(REG, value, Done), Done);
    assert none + [[]] == [[]] && [[]] + [name] == [[], name];
    assert [[], name][..1] == [[]] && Joined([[]]) == [];
    assert [] + [SLASH] + name == [SLASH] + name;
    assert Joined([[], name]) == [SLASH] + name;
    assert WellFormed(child);
    HasPathChild(child, name, value, CutPath(name));
    HasPathChild(child, name, value, [SLASH] + name);
  }

  lemma {:induction false} HasPathChild(child: Items, name: Bytes, value: Bytes, target: Bytes)
    requires child == Child(name, Prop(REG, value, Done), Done) && target != []
    ensures HasPath(Child([], child, Done), [], target) <==> Joined([[], name]) == target
  {
    var none: seq<Bytes> := [];
    var root: seq<Bytes> := [[]];
    assert none + [[]] == root && root + [name] == [[], name];
    assert Joined(root) == [];
    NoPathInside(value, target, [[], name]);
    assert HasPath(child, root, target) <==> Joined([[], name]) == target;
  }

  lemma {:induction false} NoPathInside(value: Bytes, target: Bytes, names: seq<Bytes>)
    ensures !HasPath(Prop(REG, value, Done), names, target) && !HasPath(Done, names, target)
  {
    assert !HasPath(Done, names, target);
  }

  lemma {:induction false} FindEnters(name: Bytes, value: Bytes, target: Bytes, root: Scan, inner: Scan)
    requires root == Begun(START, []) && inner == Begun(root, name)
    ensures var rest := Cons(Property(REG, value), Cons(EndNode, Cons(EndNode, Nil)));
      Find(Cons(BeginNode([]), Cons(BeginNode(name), rest)), Strings(), target, START) ==
      Find(rest, Strings(), target, inner)
  {
  }

  lemma {:induction false} FindsAtCut(value: Bytes, target: Bytes, inner: Scan)
    requires inner.path == target && inner.open != [] && inner.settings == DEFAULTS
    requires OnReg(inner.open, target, DEFAULTS, value).Ends?
    ensures Find(Cons(Property(REG, value), Cons(EndNode, Cons(EndNode, Nil))), Strings(), target, inner) ==
      OnReg(inner.open, target, DEFAULTS, value).answer
  {
    NamesOfStrings();
    NamesDiffer();
  }

  lemma {:induction false} MissesAtCut(value: Bytes, target: Bytes, inner: Scan)
    requires inner.path != target && inner.open != []
    ensures Find(Cons(Property(REG, value), Cons(EndNode, Cons(EndNode, Nil))), Strings(), target, inner) == Reply(None)
  {
    NamesOfStrings();
    NamesDiffer();
    var node := Top(inner.open, ROOT_NODE);
    assert OnProp(inner.open, inner.path, target, inner.settings, Ascii("reg"), value) == Next(node, inner.settings);
    EndsWithout(target, inner.(open := WithTop(inner.open, node)));
  }

  lemma {:induction false} EndsWithout(target: Bytes, st: Scan)
    ensures Find(Cons(EndNode, Cons(EndNode, Nil)), Strings(), target, st) == Reply(None)
  {
    assert Find(Cons(EndNode, Nil), Strings(), target, Ended(st)) == Reply(None);
  }
}
