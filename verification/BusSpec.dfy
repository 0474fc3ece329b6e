/** Bus translation as the Devicetree Specification describes it (section 2.3.8), and when the code agrees. */
module BusSpec {
  import opened Machine
  import opened Wrappers
  import opened Fdt
  import opened BusRanges

  /** A level's ranges property: absent, or present with any number of windows. */
  datatype Bus = Absent | Present(windows: seq<Range>)

  predicate Within(r: Range, addr: u64) { r.childBase <= addr < r.childBase + r.size }

  function FirstWithin(ws: seq<Range>, addr: u64): (i: nat)
    ensures i <= |ws|
    ensures i < |ws| ==> Within(ws[i], addr)
    ensures forall j :: 0 <= j < i ==> !Within(ws[j], addr)
  {
    if ws == [] || Within(ws[0], addr) then 0 else 1 + FirstWithin(ws[1..], addr)
  }

  /** Without the property nothing passes; with an empty one the address stays; else it passes through a window. */
  function SpecLevel(bus: Bus, addr: u64): Option<u64> {
    match bus
    case Absent => None
    case Present(ws) =>
      if ws == [] then Some(addr)
      else
        var i := FirstWithin(ws, addr);
        if i < |ws| then Some((ws[i].parentBase + (addr - ws[i].childBase)) % TWO64) else None
  }

  /** From a child of the last level up to the address space of the first. */
  function SpecUp(levels: seq<Bus>, addr: u64): Option<u64> {
    if levels == [] then Some(addr)
    else
      match SpecLevel(levels[|levels| - 1], addr)
      case None => None
      case Some(x) => SpecUp(levels[..|levels| - 1], x)
  }

  // ---- When an address has no translation ----------------------------------

  function SpecAndThen(x: Option<u64>, levels: seq<Bus>): Option<u64> {
    match x
    case None => None
    case Some(a) => SpecUp(levels, a)
  }

  lemma {:induction false} SpecComposes(outer: seq<Bus>, inner: seq<Bus>, addr: u64)
    ensures SpecUp(outer + inner, addr) == SpecAndThen(SpecUp(inner, addr), outer)
    decreases |inner|
  {
    if inner == [] {
      assert outer + inner == outer;
    } else {
      var n := |inner| - 1;
      assert (outer + inner)[..|outer + inner| - 1] == outer + inner[..n];
      var x := SpecLevel(inner[n], addr);
      if x.Some? {
        SpecComposes(outer, inner[..n], x.value);
      }
    }
  }

  /** An address arrives at level k and the level does not let it through. */
  ghost predicate SpecBlockedAt(levels: seq<Bus>, k: nat, addr: u64)
    requires k < |levels|
  {
    var x := SpecUp(levels[k + 1..], addr);
    x.Some? && (levels[k].Absent? ||
      (levels[k].windows != [] && forall i :: 0 <= i < |levels[k].windows| ==> !Within(levels[k].windows[i], x.value)))
  }

  lemma {:induction false} SpecBlockedMeansNone(levels: seq<Bus>, k: nat, addr: u64)
    requires k < |levels| && SpecBlockedAt(levels, k, addr)
    ensures SpecUp(levels, addr) == None
  {
    assert levels == levels[..k + 1] + levels[k + 1..];
    SpecComposes(levels[..k + 1], levels[k + 1..], addr);
    assert levels[..k + 1][k] == levels[k];
  }

  lemma {:induction false} OneSpecLevel(bus: Bus, addr: u64)
    ensures SpecUp([bus], addr) == SpecLevel(bus, addr)
  {
    assert [bus][..0] == [];
  }

  lemma {:induction false} SpecNoneMeansBlocked(levels: seq<Bus>, addr: u64) returns (k: nat)
    requires SpecUp(levels, addr) == None
    ensures k < |levels| && SpecBlockedAt(levels, k, addr)
    decreases |levels|
  {
    var n := |levels| - 1;
    var x := SpecLevel(levels[n], addr);
    if x.None? {
      k := n;
      assert levels[n + 1..] == [];
    } else {
      k := SpecNoneMeansBlocked(levels[..n], x.value);
      assert levels[k + 1..] == levels[..n][k + 1..] + [levels[n]];
      SpecComposes(levels[..n][k + 1..], [levels[n]], addr);
      OneSpecLevel(levels[n], addr);
      assert levels[..n][k] == levels[k];
    }
  }

  // ---- When the code agrees ------------------------------------------------

  /** What the code keeps of the property: an absent one is like an empty one, and only four windows are read. */
  function Seen(bus: Bus): seq<Range> {
    match bus
    case Absent => []
    case Present(ws) => FirstFour(ws)
  }

  /** The nodes on the scanner's stack hold what it has kept of these levels. */
  ghost predicate Sees(nodes: seq<RegNode>, levels: seq<Bus>) {
    |nodes| == |levels| && forall k :: 0 <= k < |nodes| ==> nodes[k].ranges == Seen(levels[k])
  }

  /**
   The level treats the address as prescribed: the property is present, and a
   window for the address, if there is one, is among the first four and does
   not have to hold the last address of all.
  */
  predicate Kept(bus: Bus, addr: u64) {
    bus.Present? && (bus.windows == [] || var i := FirstWithin(bus.windows, addr);
      i == |bus.windows| || (i < MAX_RANGES && addr < U64_MAX))
  }

  /** Every level that the address reaches does. */
  predicate AllKept(levels: seq<Bus>, addr: u64)
    decreases |levels|
  {
    levels == [] ||
    var n := |levels| - 1;
    Kept(levels[n], addr) &&
    match SpecLevel(levels[n], addr)
    case None => true
    case Some(x) => AllKept(levels[..n], x)
  }

  lemma {:induction false} WindowIsWithin(r: Range, addr: u64)
    ensures InWindow(r, addr) <==> Within(r, addr) && addr < U64_MAX
  {
  }

  lemma {:induction false} SameWindows(ws: seq<Range>, addr: u64, k: nat)
    requires k < |FirstFour(ws)|
    ensures FirstFour(ws)[k] == ws[k] && (InWindow(FirstFour(ws)[k], addr) <==> Within(ws[k], addr) && addr < U64_MAX)
  {
    WindowIsWithin(ws[k], addr);
  }

  lemma {:induction false} NearWindow(ws: seq<Range>, addr: u64)
    requires FirstWithin(ws, addr) < |FirstFour(ws)| && addr < U64_MAX
    ensures FirstWindow(FirstFour(ws), addr) == FirstWithin(ws, addr)
  {
    var j := FirstWindow(FirstFour(ws), addr);
    SameWindows(ws, addr, FirstWithin(ws, addr));
    if j < |FirstFour(ws)| {
      SameWindows(ws, addr, j);
    }
  }

  lemma {:induction false} NoNearWindow(ws: seq<Range>, addr: u64)
    requires FirstWithin(ws, addr) >= |FirstFour(ws)| || addr == U64_MAX
    ensures FirstWindow(FirstFour(ws), addr) == |FirstFour(ws)|
  {
    var j := FirstWindow(FirstFour(ws), addr);
    if j < |FirstFour(ws)| {
      SameWindows(ws, addr, j);
    }
  }

  lemma {:induction false} FourWindows(ws: seq<Range>, addr: u64)
    ensures var i, j := FirstWithin(ws, addr), FirstWindow(FirstFour(ws), addr);
      if i < MAX_RANGES && i < |ws| && addr < U64_MAX then j == i else j == |FirstFour(ws)|
  {
    if FirstWithin(ws, addr) < |FirstFour(ws)| && addr < U64_MAX {
      NearWindow(ws, addr);
    } else {
      NoNearWindow(ws, addr);
    }
  }

  lemma {:induction false} KeptLevel(bus: Bus, addr: u64)
    requires Kept(bus, addr)
    ensures Level(Seen(bus), addr) == SpecLevel(bus, addr)
  {
    FourWindows(bus.windows, addr);
  }

  /** Otherwise exactly one of the two lets the address through. */
  lemma {:induction false} LostLevel(bus: Bus, addr: u64)
    requires !Kept(bus, addr)
    ensures SpecLevel(bus, addr).None? <==> bus.Absent?
    ensures Level(Seen(bus), addr).None? <==> bus.Present?
  {
    if bus.Present? {
      FourWindows(bus.windows, addr);
    }
  }

  lemma {:induction false} SeesInit(nodes: seq<RegNode>, levels: seq<Bus>)
    requires Sees(nodes, levels) && nodes != []
    ensures var n := |nodes| - 1; Sees(nodes[..n], levels[..n]) && nodes[n].ranges == Seen(levels[n])
  {
  }

  lemma {:induction false} KeptAgrees(nodes: seq<RegNode>, levels: seq<Bus>, addr: u64)
    requires Sees(nodes, levels)
    ensures AllKept(levels, addr) ==> SpecUp(levels, addr) == Upwards(nodes, addr)
    ensures !AllKept(levels, addr) && SpecUp(levels, addr) == Upwards(nodes, addr) ==> SpecUp(levels, addr) == None
    decreases |levels|
  {
    if levels != [] {
      var n := |levels| - 1;
      SeesInit(nodes, levels);
      if Kept(levels[n], addr) {
        KeptLevel(levels[n], addr);
        var x := SpecLevel(levels[n], addr);
        if x.Some? {
          KeptAgrees(nodes[..n], levels[..n], x.value);
        }
      } else {
        LostLevel(levels[n], addr);
      }
    }
  }

  /**
   The code translates an address as section 2.3.8 prescribes exactly when all
   the levels it reaches treat it as prescribed, or when some level blocks it
   in the code and some level blocks it by the specification.
  */
  lemma {:induction false} AgreesExactly(nodes: seq<RegNode>, levels: seq<Bus>, addr: u64)
    requires Sees(nodes, levels)
    ensures Upwards(nodes, addr) == SpecUp(levels, addr) <==>
      AllKept(levels, addr) ||
      ((exists k :: 0 <= k < |nodes| && BlockedAt(nodes, k, addr)) &&
       (exists k :: 0 <= k < |levels| && SpecBlockedAt(levels, k, addr)))
  {
    KeptAgrees(nodes, levels, addr);
    AbsentExactlyWhenBlocked(nodes, addr);
    SpecAbsentExactlyWhenBlocked(levels, addr);
  }

  /** The levels between the root, whose address space is the CPU's, and the node itself. */
  function Between(open: seq<RegNode>): seq<RegNode>
    requires |open| >= 2
  {
    open[1..|open| - 1]
  }

  lemma {:induction false} TranslatesBetween(open: seq<RegNode>, addr: u64)
    requires |open| >= 2 && open[0].ranges == []
    ensures TranslateAddr(addr, open) == Upwards(Between(open), addr)
  {
    assert open[..|open| - 1] == [open[0]] + Between(open);
    TranslationComposes([open[0]], Between(open), addr);
    var x := Upwards(Between(open), addr);
    if x.Some? {
      OneLevel(open[0], x.value);
    }
  }

  /** So for a register of a node below a root, which has no bus above it and so no windows of its own. */
  lemma {:induction false} TranslationMeetsSpecExactly(open: seq<RegNode>, levels: seq<Bus>, addr: u64)
    requires |open| >= 2 && open[0].ranges == [] && Sees(Between(open), levels)
    ensures TranslateAddr(addr, open) == SpecUp(levels, addr) <==>
      AllKept(levels, addr) ||
      ((exists k :: 0 <= k < |levels| && BlockedAt(Between(open), k, addr)) &&
       (exists k :: 0 <= k < |levels| && SpecBlockedAt(levels, k, addr)))
  {
    TranslatesBetween(open, addr);
    AgreesExactly(Between(open), levels, addr);
  }

  lemma {:induction false} SpecAbsentExactlyWhenBlocked(levels: seq<Bus>, addr: u64)
    ensures SpecUp(levels, addr) == None <==> exists k :: 0 <= k < |levels| && SpecBlockedAt(levels, k, addr)
  {
    if SpecUp(levels, addr) == None {
      var k := SpecNoneMeansBlocked(levels, addr);
    }
    if k :| 0 <= k < |levels| && SpecBlockedAt(levels, k, addr) {
      SpecBlockedMeansNone(levels, k, addr);
    }
  }

  // ---- Where it does not ---------------------------------------------------

  /** Through a bus without the property no address passes, but the code passes every one. */
  lemma {:induction false} AbsentPasses(addr: u64)
    ensures var open := [ROOT_NODE, ROOT_NODE, ROOT_NODE];
      Sees(Between(open), [Absent]) && SpecUp([Absent], addr) == None && TranslateAddr(addr, open) == Some(addr)
  {
    var open := [ROOT_NODE, ROOT_NODE, ROOT_NODE];
    assert Between(open) == [ROOT_NODE];
    OneSpecLevel(Absent, addr);
    OneLevel(ROOT_NODE, addr);
    TranslatesBetween(open, addr);
  }

  /** A window for each of five pages. */
  function FivePages(): seq<Range> {
    [Range(0, 0x1_0000, 0x1000), Range(0x1000, 0x2_0000, 0x1000), Range(0x2000, 0x3_0000, 0x1000),
     Range(0x3000, 0x4_0000, 0x1000), Range(0x4000, 0x5_0000, 0x1000)]
  }

  /** The fourth window is read, the fifth is not. */
  lemma {:induction false} FifthWindowIsLost()
    ensures var node := ROOT_NODE.(ranges := FirstFour(FivePages()));
      && Sees([node], [Present(FivePages())]) && Upwards([node], 0x3000) == Some(0x4_0000)
      && SpecUp([Present(FivePages())], 0x4000) == Some(0x5_0000) && Upwards([node], 0x4000) == None
  {
    var ws := FivePages();
    FourWindows(ws, 0x4000);
    assert !Within(ws[0], 0x4000) && !Within(ws[1], 0x4000) && !Within(ws[2], 0x4000) && !Within(ws[3], 0x4000);
    assert Within(ws[4], 0x4000) && FirstWithin(ws, 0x4000) == 4;
    OneSpecLevel(Present(ws), 0x4000);
    OneLevel(ROOT_NODE.(ranges := FirstFour(ws)), 0x4000);
    FourthWindow(ws);
  }

  lemma {:induction false} FourthWindow(ws: seq<Range>)
    requires ws == FivePages()
    ensures Upwards([ROOT_NODE.(ranges := FirstFour(ws))], 0x3000) == Some(0x4_0000)
  {
    var seen := FirstFour(ws);
    assert |seen| == 4 && seen[3] == ws[3] && InWindow(seen[3], 0x3000);
    assert !InWindow(seen[0], 0x3000) && !InWindow(seen[1], 0x3000) && !InWindow(seen[2], 0x3000);
    assert FirstWindow(seen, 0x3000) == 3;
    OneLevel(ROOT_NODE.(ranges := seen), 0x3000);
  }

  /** The window that ends with the address space does not hold the last address. */
  lemma {:induction false} LastAddressIsLost()
    ensures var top := Range(U64_MAX - 0xFFF, 0, 0x1000); var node := ROOT_NODE.(ranges := [top]);
      && Sees([node], [Present([top])])
      && SpecUp([Present([top])], U64_MAX) == Some(0xFFF) && Upwards([node], U64_MAX) == None
  {
    var top := Range(U64_MAX - 0xFFF, 0, 0x1000);
    assert FirstFour([top]) == [top];
    FourWindows([top], U64_MAX);
    OneSpecLevel(Present([top]), U64_MAX);
    OneLevel(ROOT_NODE.(ranges := [top]), U64_MAX);
  }
}
