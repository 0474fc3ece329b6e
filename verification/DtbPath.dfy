/** Finding a device's registers by path in the device tree (src/mm/dtb.rs, find_reg_by_path). */
module DtbPath {
  import opened Machine
  import opened Wrappers
  import opened Fdt
  import opened Cells
  import opened BusRanges

  const PATH_BYTES: nat := 256
  const SLASH: byte := 47
  const RP1_CHILD_BASE: u64 := 0xC0_4000_0000
  const RP1_PHYS_BASE: u64 := 0x1C_0000_0000

  datatype Settings = Settings(regShift: u32, regIoWidth: u32, clock: Option<u32>, skipInit: bool)

  const DEFAULTS: Settings := Settings(0, 4, None, false)

  datatype UartInfo = UartInfo(addr: u64, size: u64, settings: Settings)

  /** What the search comes to: an answer, or a slice out of bounds that stops the kernel. */
  datatype Answer = Crash | Reply(info: Option<UartInfo>)

  // ---- One property --------------------------------------------------------

  predicate IsRp1Path(path: Bytes) {
    var prefix := Ascii("/axi/pcie@1000120000/rp1/");
    |path| >= |prefix| && path[..|prefix|] == prefix
  }

  function Rp1Fixup(addr: u64): u64 {
    if addr >= RP1_CHILD_BASE then RP1_PHYS_BASE + (addr - RP1_CHILD_BASE) else RP1_PHYS_BASE + addr
  }

  /** The physical address reported for a register at a bus address. */
  function Physical(open: seq<RegNode>, path: Bytes, addr: u64): Option<u64> {
    var translated := TranslateAddr(addr, open);
    var phys := if translated.None? && IsRp1Path(path) then Some(Rp1Fixup(addr)) else translated;
    if phys.Some? && IsRp1Path(path) && phys.value < TWO32 then Some(Rp1Fixup(addr)) else phys
  }

  /**
   Below the RP1 bridge there is always an answer, and never one in the first 4
   GiB: the translation when there is one above, else the place in the bridge's
   window at 0x1C_0000_0000. Elsewhere the answer is the translation.
  */
  lemma {:induction false} PhysicalIs(open: seq<RegNode>, path: Bytes, addr: u64)
    ensures IsRp1Path(path) <==> Ascii("/axi/pcie@1000120000/rp1/") <= path
    ensures IsRp1Path(path) ==> Physical(open, path, addr).Some? && Physical(open, path, addr).value >= 0x1_0000_0000
    ensures var x, r := TranslateAddr(addr, open), Physical(open, path, addr);
      IsRp1Path(path) ==>
        if x.Some? && x.value >= 0x1_0000_0000 then r == x
        else r == Some(0x1C_0000_0000 + if addr >= 0xC0_4000_0000 then addr - 0xC0_4000_0000 else addr)
    ensures !IsRp1Path(path) ==> Physical(open, path, addr) == TranslateAddr(addr, open)
  {
  }

  /** What a property does: it changes the node and the settings, or it ends the search. */
  datatype Effect = Next(node: RegNode, settings: Settings) | Ends(answer: Answer)

  function ParentCells(open: seq<RegNode>): u32 {
    if |open| >= 2 then open[|open| - 2].addrCells else 0
  }

  function OnReg(open: seq<RegNode>, path: Bytes, settings: Settings, value: Bytes): Effect {
    var node := Top(open, ROOT_NODE);
    var tuple := (node.addrCells + node.sizeCells) % TWO32;
    if tuple == 0 || |value| < 4 * tuple then Next(node, settings)
    else if node.addrCells > tuple then Ends(Crash)
    else
      var addr := CellsRead(value[..4 * node.addrCells], node.addrCells);
      var size := CellsRead(value[4 * node.addrCells..4 * tuple], node.sizeCells);
      match Physical(open, path, addr)
      case None => Ends(Reply(None))
      case Some(phys) => Ends(Reply(Some(UartInfo(phys, size, settings))))
  }

  /** Properties of the node whatever its path. */
  function OnNode(open: seq<RegNode>, name: Bytes, value: Bytes): Option<RegNode> {
    var node := Top(open, ROOT_NODE);
    if name == Ascii("#address-cells") then Some(if |value| >= 4 then node.(addrCells := ReadBe32(value, 0)) else node)
    else if name == Ascii("#size-cells") then
      Some(if |value| >= 4 then node.(sizeCells := ReadBe32(value, 0)) else node)
    else if name == Ascii("ranges") then
      match DecodedRanges(value, node.addrCells, ParentCells(open), node.sizeCells, node.ranges)
      case None => None
      case Some(ranges) => Some(node.(ranges := ranges))
    else Some(node)
  }

  /** Properties that only count at the target. */
  function OnTarget(settings: Settings, name: Bytes, value: Bytes): Settings {
    if name == Ascii("reg-shift") then if |value| >= 4 then settings.(regShift := ReadBe32(value, 0)) else settings
    else if name == Ascii("reg-io-width") then if |value| >= 4 then settings.(regIoWidth := ReadBe32(value, 0))
      else settings
    else if name == Ascii("clock-frequency") then if |value| >= 4 then settings.(clock := Some(ReadBe32(value, 0)))
      else settings
    else if name == Ascii("skip-init") then settings.(skipInit := true)
    else settings
  }

  predicate IsNodeName(name: Bytes) {
    name == Ascii("#address-cells") || name == Ascii("#size-cells") || name == Ascii("ranges")
  }

  function OnProp(open: seq<RegNode>, path: Bytes, target: Bytes, settings: Settings, name: Bytes, value: Bytes): Effect
  {
    if IsNodeName(name) then
      match OnNode(open, name, value)
      case None => Ends(Crash)
      case Some(node) => Next(node, settings)
    else if path != target then Next(Top(open, ROOT_NODE), settings)
    else if name == Ascii("reg") then OnReg(open, path, settings, value)
    else Next(Top(open, ROOT_NODE), OnTarget(settings, name, value))
  }

  // ---- The scan: a path buffer and the lengths to return to -----------------

  datatype Scan = Scan(open: seq<RegNode>, lens: seq<nat>, path: Bytes, settings: Settings)

  const START: Scan := Scan([], [], [], DEFAULTS)

  /** A slash and a name, as far as the buffer holds them. */
  function Extended(path: Bytes, name: Bytes): Bytes {
    var p := path + [SLASH] + name;
    if |p| > PATH_BYTES then p[..PATH_BYTES] else p
  }

  /** A child starts with its parent's cells and no windows. */
  function Inherited(open: seq<RegNode>): RegNode { Top(open, ROOT_NODE).(ranges := []) }

  function Begun(st: Scan, name: Bytes): Scan {
    var path := if st.open == [] && name == [] then st.path else Extended(st.path, name);
    if |st.open| < MAX_DEPTH then Scan(st.open + [Inherited(st.open)], st.lens + [|st.path|], path, st.settings)
    else st.(path := path)
  }

  function Ended(st: Scan): Scan {
    var n := |st.open| - 1;
    if n < 0 || |st.lens| != |st.open| then st
    else Scan(st.open[..n], st.lens[..n], st.path[..Min(st.lens[n], |st.path|)], st.settings)
  }

  function Find(events: Events, strings: Bytes, target: Bytes, st: Scan): Answer {
    match events
    case Nil => Reply(None)
    case Cons(BeginNode(name), rest) => Find(rest, strings, target, Begun(st, name))
    case Cons(EndNode, rest) => Find(rest, strings, target, Ended(st))
    case Cons(Property(nameoff, value), rest) =>
      if st.open == [] then Find(rest, strings, target, st)
      else
        match OnProp(st.open, st.path, target, st.settings, GetString(strings, nameoff), value)
        case Ends(answer) => answer
        case Next(node, settings) => Find(rest, strings, target,
          st.(open := WithTop(st.open, node), settings := settings))
  }

  // ---- The tree walk: names of the open nodes instead of a buffer -----------

  /** The slash-joined names of the open nodes; a root without a name adds nothing. */
  function Joined(names: seq<Bytes>): Bytes {
    if names == [] then []
    else
      var n := |names| - 1;
      if n == 0 && names[0] == [] then [] else Joined(names[..n]) + [SLASH] + names[n]
  }

  datatype Visit = Found(answer: Answer) | Visited(open: seq<RegNode>, settings: Settings)

  function FindWalk(t: Items, strings: Bytes, target: Bytes, open: seq<RegNode>, names: seq<Bytes>,
        settings: Settings): (v: Visit)
    ensures v.Visited? ==> |v.open| == |open| && (open != [] ==> v.open[..|open| - 1] == open[..|open| - 1])
  {
    match t
    case Done => Visited(open, settings)
    case Nop(rest) => FindWalk(rest, strings, target, open, names, settings)
    case Prop(nameoff, value, rest) =>
      if open == [] then FindWalk(rest, strings, target, open, names, settings)
      else (
        match OnProp(open, Joined(names), target, settings, GetString(strings, nameoff), value)
        case Ends(answer) => Found(answer)
        case Next(node, settings') => FindWalk(rest, strings, target, WithTop(open, node), names, settings')
      )
    case Child(name, body, rest) =>
      match FindWalk(body, strings, target, open + [Inherited(open)], names + [name], settings)
      case Found(answer) => Found(answer)
      case Visited(_, settings') => FindWalk(rest, strings, target, open, names, settings')
  }

  // ---- Path tracking -------------------------------------------------------

  /** The buffer holds the joined names of the open nodes, and each saved length is that of the path before the node. */
  ghost predicate Tracked(st: Scan, names: seq<Bytes>) {
    && |st.open| == |st.lens| == |names|
    && st.path == Joined(names)
    && forall i :: 0 <= i < |names| ==> st.lens[i] == |Joined(names[..i])|
  }

  lemma {:induction false} JoinedSnoc(names: seq<Bytes>, name: Bytes)
    ensures Joined(names + [name]) == if names == [] && name == [] then [] else Joined(names) + [SLASH] + name
  {
    assert (names + [name])[..|names|] == names;
  }

  /** Entering a node keeps the path tracked while it fits the buffer and the stack. */
  lemma {:induction false} BeginTracks(st: Scan, names: seq<Bytes>, name: Bytes)
    requires Tracked(st, names) && |names| < MAX_DEPTH && |Joined(names + [name])| <= PATH_BYTES
    ensures Tracked(Begun(st, name), names + [name])
  {
    JoinedSnoc(names, name);
    var all := names + [name];
    forall i | 0 <= i < |all|
      ensures Begun(st, name).lens[i] == |Joined(all[..i])|
    {
      assert i < |names| ==> all[..i] == names[..i];
      assert i == |names| ==> all[..i] == names;
    }
  }

  /** Leaving it returns exactly to the parent's path. */
  lemma {:induction false} EndTracks(st: Scan, names: seq<Bytes>, name: Bytes)
    requires Tracked(st, names + [name])
    ensures Tracked(Ended(st), names)
  {
    var all := names + [name];
    assert all[..|names|] == names;
    JoinedSnoc(names, name);
    assert Joined(names) <= st.path;
    forall i | 0 <= i < |names|
      ensures Ended(st).lens[i] == |Joined(names[..i])|
    {
      assert all[..i] == names[..i];
    }
  }

  /** Every path in the tree fits the buffer. */
  predicate PathsFit(t: Items, names: seq<Bytes>) {
    match t
    case Done => true
    case Nop(rest) => PathsFit(rest, names)
    case Prop(_, _, rest) => PathsFit(rest, names)
    case Child(name, body, rest) =>
      |Joined(names + [name])| <= 256 && PathsFit(body, names + [name]) && PathsFit(rest, names)
  }

  // ---- The scan is the walk -------------------------------------------------

  /** The answer of the scan once a part of the tree has been visited. */
  function Resumed(v: Visit, k: Events, strings: Bytes, target: Bytes, st: Scan): Answer {
    match v
    case Found(answer) => answer
    case Visited(open, settings) => Find(k, strings, target, st.(open := open, settings := settings))
  }

  lemma {:induction false} FindOfTree(t: Items, k: Events, strings: Bytes, target: Bytes, st: Scan, names: seq<Bytes>)
    requires Tracked(st, names) && |names| + Depth(t) <= MAX_DEPTH && PathsFit(t, names)
    ensures Find(EventsOf(t, k), strings, target, st) ==
      Resumed(FindWalk(t, strings, target, st.open, names, st.settings), k, strings, target, st)
    decreases t
  {
    match t
    case Done =>
    case Nop(rest) => FindOfTree(rest, k, strings, target, st, names);
    case Prop(nameoff, value, rest) =>
      if st.open == [] {
        FindOfTree(rest, k, strings, target, st, names);
      } else {
        match OnProp(st.open, st.path, target, st.settings, GetString(strings, nameoff), value)
        case Ends(answer) =>
        case Next(node, settings) =>
          FindOfTree(rest, k, strings, target, st.(open := WithTop(st.open, node), settings := settings), names);
      }
    case Child(name, body, rest) =>
      ChildCase(name, body, rest, k, strings, target, st, names);
  }

  lemma {:induction false} ChildCase(name: Bytes, body: Items, rest: Items, k: Events, strings: Bytes, target: Bytes,
        st: Scan, names: seq<Bytes>)
    requires Tracked(st, names) && |names| + Depth(Child(name, body, rest)) <= MAX_DEPTH
    requires PathsFit(Child(name, body, rest), names)
    ensures Find(EventsOf(Child(name, body, rest), k), strings, target, st) ==
      Resumed(FindWalk(Child(name, body, rest), strings, target, st.open, names, st.settings), k, strings, target, st)
    decreases Child(name, body, rest), 0
  {
    var after := EventsOf(rest, k);
    var inner := Begun(st, name);
    BeginTracks(st, names, name);
    FindOfTree(body, Cons(EndNode, after), strings, target, inner, names + [name]);
    var v := FindWalk(body, strings, target, inner.open, names + [name], st.settings);
    if v.Visited? {
      EndCase(st, names, name, v, after, strings, target);
      FindOfTree(rest, k, strings, target, st.(settings := v.settings), names);
    }
  }

  lemma {:induction false} EndCase(st: Scan, names: seq<Bytes>, name: Bytes, v: Visit, after: Events, strings: Bytes,
        target: Bytes)
    requires Tracked(st, names) && |names| < MAX_DEPTH && |Joined(names + [name])| <= PATH_BYTES
    requires v.Visited? && |v.open| == |st.open| + 1 && v.open[..|st.open|] == st.open
    ensures Resumed(v, Cons(EndNode, after), strings, target, Begun(st, name)) ==
      Find(after, strings, target, st.(settings := v.settings))
  {
    Returned(st, names, name, v.open, v.settings);
  }

  /** After a child has been visited the scan is where it was, but for the settings. */
  lemma {:induction false} Returned(st: Scan, names: seq<Bytes>, name: Bytes, open: seq<RegNode>, settings: Settings)
    requires Tracked(st, names) && |names| < MAX_DEPTH && |Joined(names + [name])| <= PATH_BYTES
    requires |open| == |st.open| + 1 && open[..|st.open|] == st.open
    ensures Ended(Begun(st, name).(open := open, settings := settings)) == st.(settings := settings)
  {
    JoinedSnoc(names, name);
    var inner := Begun(st, name);
    assert (st.lens + [|st.path|])[..|st.lens|] == st.lens;
    assert inner.path[..|st.path|] == st.path;
  }

  /**
   Searching the structure block of a tree at most 32 levels deep, with paths
   of at most 256 bytes, is the recursive walk that compares full paths.
  */
  lemma {:induction false} SearchIsWalk(t: Items, trailing: Bytes, strings: Bytes, target: Bytes)
    requires WellFormed(t) && Depth(t) <= MAX_DEPTH && PathsFit(t, [])
    ensures Find(Tokens(StructBlock(t, trailing), 0), strings, target, START) ==
      Resumed(FindWalk(t, strings, target, [], [], DEFAULTS), Nil, strings, target, START)
  {
    RoundTrip(t, trailing);
    FindOfTree(t, Nil, strings, target, START, []);
  }

  /** Some node of the tree has the target as its full path. */
  predicate HasPath(t: Items, names: seq<Bytes>, target: Bytes) {
    match t
    case Done => false
    case Nop(rest) => HasPath(rest, names, target)
    case Prop(_, _, rest) => HasPath(rest, names, target)
    case Child(name, body, rest) =>
      Joined(names + [name]) == target || HasPath(body, names + [name], target) || HasPath(rest, names, target)
  }

  /** Away from the target the walk neither answers nor changes the settings. */
  lemma {:induction false} NoAnswerElsewhere(t: Items, strings: Bytes, target: Bytes, open: seq<RegNode>,
        names: seq<Bytes>, settings: Settings)
    requires !HasPath(t, names, target) && (open != [] ==> Joined(names) != target)
    ensures match FindWalk(t, strings, target, open, names, settings)
      case Found(answer) => answer == Crash
      case Visited(_, settings') => settings' == settings
    decreases t
  {
    match t
    case Done =>
    case Nop(rest) => NoAnswerElsewhere(rest, strings, target, open, names, settings);
    case Prop(nameoff, value, rest) =>
      if open == [] {
        NoAnswerElsewhere(rest, strings, target, open, names, settings);
      } else {
        match OnProp(open, Joined(names), target, settings, GetString(strings, nameoff), value)
        case Ends(answer) =>
        case Next(node, settings') => NoAnswerElsewhere(rest, strings, target, WithTop(open, node), names, settings');
      }
    case Child(name, body, rest) =>
      NoAnswerElsewhere(body, strings, target, open + [Inherited(open)], names + [name], settings);
      match FindWalk(body, strings, target, open + [Inherited(open)], names + [name], settings)
      case Found(answer) =>
      case Visited(_, settings') => NoAnswerElsewhere(rest, strings, target, open, names, settings');
  }

  /** A reg property as the walk meets it: the names and nodes open there, the settings so far and its value. */
  datatype Place = Place(names: seq<Bytes>, open: seq<RegNode>, settings: Settings, value: Bytes)

  /** The walk of these items arrives at that reg property, directly in a node with the target as its full path. */
  predicate Reaches(t: Items, strings: Bytes, target: Bytes, open: seq<RegNode>, names: seq<Bytes>, settings: Settings,
        at: Place)
  {
    match t
    case Done => false
    case Nop(rest) => Reaches(rest, strings, target, open, names, settings, at)
    case Prop(nameoff, value, rest) =>
      if open == [] then Reaches(rest, strings, target, open, names, settings, at)
      else
        var name := GetString(strings, nameoff);
        var next := OnProp(open, Joined(names), target, settings, name, value);
        || (name == Ascii("reg") && Joined(names) == target && at == Place(names, open, settings, value))
        || (next.Next? && Reaches(rest, strings, target, WithTop(open, next.node), names, next.settings, at))
    case Child(name, body, rest) =>
      var v := FindWalk(body, strings, target, open + [Inherited(open)], names + [name], settings);
      || Reaches(body, strings, target, open + [Inherited(open)], names + [name], settings, at)
      || (v.Visited? && Reaches(rest, strings, target, open, names, v.settings, at))
  }

  /** A place that is reached is a node of the tree at the target path, with one open node per name. */
  lemma {:induction false} ReachedIsTarget(t: Items, strings: Bytes, target: Bytes, open: seq<RegNode>,
        names: seq<Bytes>, settings: Settings, at: Place)
    requires Reaches(t, strings, target, open, names, settings, at) && |open| == |names|
    ensures Joined(at.names) == target && |at.open| == |at.names| && names <= at.names && at.names != []
    ensures names == at.names || HasPath(t, names, target)
    decreases t
  {
    match t
    case Nop(rest) => ReachedIsTarget(rest, strings, target, open, names, settings, at);
    case Prop(nameoff, value, rest) =>
      if open == [] {
        ReachedIsTarget(rest, strings, target, open, names, settings, at);
      } else {
        var next := OnProp(open, Joined(names), target, settings, GetString(strings, nameoff), value);
        if next.Next? && Reaches(rest, strings, target, WithTop(open, next.node), names, next.settings, at) {
          ReachedIsTarget(rest, strings, target, WithTop(open, next.node), names, next.settings, at);
        }
      }
    case Child(name, body, rest) =>
      if Reaches(body, strings, target, open + [Inherited(open)], names + [name], settings, at) {
        ReachedIsTarget(body, strings, target, open + [Inherited(open)], names + [name], settings, at);
      } else {
        var v := FindWalk(body, strings, target, open + [Inherited(open)], names + [name], settings);
        ReachedIsTarget(rest, strings, target, open, names, v.settings, at);
      }
  }

  lemma {:induction false} OnlyRegReplies(open: seq<RegNode>, path: Bytes, target: Bytes, settings: Settings,
        name: Bytes, value: Bytes)
    requires var e := OnProp(open, path, target, settings, name, value); e.Ends? && e.answer.Reply?
    ensures name == Ascii("reg") && path == target
    ensures OnProp(open, path, target, settings, name, value) == OnReg(open, target, settings, value)
  {
  }

  /** Every reply of the walk is what a reg property that it reaches at the target path comes to. */
  lemma {:induction false} ReplyHasPlace(t: Items, strings: Bytes, target: Bytes, open: seq<RegNode>, names: seq<Bytes>,
        settings: Settings)
    returns (at: Place)
    requires var v := FindWalk(t, strings, target, open, names, settings); v.Found? && v.answer.Reply?
    ensures Reaches(t, strings, target, open, names, settings, at)
    ensures Ends(FindWalk(t, strings, target, open, names, settings).answer) ==
      OnReg(at.open, target, at.settings, at.value)
    decreases t
  {
    match t
    case Nop(rest) => at := ReplyHasPlace(rest, strings, target, open, names, settings);
    case Prop(nameoff, value, rest) =>
      if open == [] {
        at := ReplyHasPlace(rest, strings, target, open, names, settings);
      } else {
        match OnProp(open, Joined(names), target, settings, GetString(strings, nameoff), value)
        case Ends(answer) =>
          OnlyRegReplies(open, Joined(names), target, settings, GetString(strings, nameoff), value);
          at := Place(names, open, settings, value);
        case Next(node, settings') => at := ReplyHasPlace(rest, strings, target, WithTop(open, node), names, settings');
      }
    case Child(name, body, rest) =>
      match FindWalk(body, strings, target, open + [Inherited(open)], names + [name], settings)
      case Found(answer) => at := ReplyHasPlace(body, strings, target, open + [Inherited(open)], names + [name],
        settings);
      case Visited(_, settings') => at := ReplyHasPlace(rest, strings, target, open, names, settings');
  }

  /**
   A register that the search reports was read from a reg property directly in
   a node whose full path is the target, with the nodes open there and the
   settings collected up to it.
  */
  lemma {:induction false} RegisterComesFromTarget(t: Items, trailing: Bytes, strings: Bytes, target: Bytes)
    returns (at: Place)
    requires WellFormed(t) && Depth(t) <= MAX_DEPTH && PathsFit(t, [])
    requires var a := Find(Tokens(StructBlock(t, trailing), 0), strings, target, START); a.Reply? && a.info.Some?
    ensures Reaches(t, strings, target, [], [], DEFAULTS, at)
    ensures Joined(at.names) == target && |at.open| == |at.names| && HasPath(t, [], target)
    ensures OnReg(at.open, target, at.settings, at.value) ==
      Ends(Find(Tokens(StructBlock(t, trailing), 0), strings, target, START))
  {
    SearchIsWalk(t, trailing, strings, target);
    at := ReplyHasPlace(t, strings, target, [], [], DEFAULTS);
    ReachedIsTarget(t, strings, target, [], [], DEFAULTS, at);
  }
}
