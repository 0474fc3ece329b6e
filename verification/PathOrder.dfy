/**
 Trees in the usual order, for which the search by path reads what the
 Devicetree Specification prescribes (src/mm/dtb.rs, find_reg_by_path): every
 node has its reg before its cell properties, these before its ranges, and all
 of them before its children.
*/
module PathOrder {
  import opened Machine
  import opened Wrappers
  import opened Fdt
  import opened BusRanges
  import opened BusSpec
  import opened DtbPath
  import opened PathSpec
  import S = DtbSpec

  predicate IsCells(name: Bytes) { name == Ascii("#address-cells") || name == Ascii("#size-cells") }

  /** Which cell properties, and whether ranges and a child, came before these items. */
  datatype Stage = Stage(addrSet: bool, sizeSet: bool, ranged: bool, closed: bool)

  const OPENING: Stage := Stage(false, false, false, false)

  function Later(st: Stage, name: Bytes): Stage {
    Stage(st.addrSet || name == Ascii("#address-cells"), st.sizeSet || name == Ascii("#size-cells"),
      st.ranged || name == Ascii("ranges"), st.closed)
  }

  predicate InPlace(st: Stage, name: Bytes, value: Bytes) {
    && (IsCells(name) ==> !st.ranged && !st.closed && |value| >= 4)
    && (name == Ascii("ranges") ==> st.addrSet && st.sizeSet && !st.closed)
    && (name == Ascii("reg") ==> !st.addrSet && !st.sizeSet)
  }

  predicate Arranged(t: Items, strings: Bytes, st: Stage) {
    match t
    case Done => true
    case Nop(rest) => Arranged(rest, strings, st)
    case Prop(nameoff, value, rest) =>
      var name := GetString(strings, nameoff);
      InPlace(st, name, value) && Arranged(rest, strings, Later(st, name))
    case Child(_, body, rest) =>
      st.addrSet && st.sizeSet && Arranged(body, strings, OPENING) && Arranged(rest, strings, st.(closed := true))
  }

  predicate Sane(st: Stage) { st.ranged || st.closed ==> st.addrSet && st.sizeSet }

  lemma {:induction false} CellsAreFixed(t: Items, strings: Bytes, st: Stage, cells: S.CellPair)
    requires Arranged(t, strings, st) && (st.ranged || st.closed)
    ensures S.Declared(t, strings, cells) == cells
    decreases t
  {
    match t
    case Done =>
    case Nop(rest) => CellsAreFixed(rest, strings, st, cells);
    case Prop(nameoff, _, rest) => CellsAreFixed(rest, strings, Later(st, GetString(strings, nameoff)), cells);
    case Child(_, _, rest) => CellsAreFixed(rest, strings, st.(closed := true), cells);
  }

  lemma {:induction false} RangesAreFixed(t: Items, strings: Bytes, st: Stage, before: Option<Bytes>)
    requires Arranged(t, strings, st) && st.closed
    ensures RangesOf(t, strings, before) == before
    decreases t
  {
    match t
    case Done =>
    case Nop(rest) => RangesAreFixed(rest, strings, st, before);
    case Prop(nameoff, _, rest) => RangesAreFixed(rest, strings, Later(st, GetString(strings, nameoff)), before);
    case Child(_, _, rest) => RangesAreFixed(rest, strings, st, before);
  }

  // ---- What the search holds -------------------------------------------------

  function CellsOfNode(node: RegNode): S.CellPair { S.CellPair(node.addrCells, node.sizeCells) }

  /** The property has been read with the declared cells, unless an entry of it would have none. */
  predicate ReadAs(l: Level, property: Option<Bytes>) {
    match property
    case None => l.seen == None
    case Some(value) => CellsIn(DeclaredShape(l)) == 0 || l.seen == Some(Windowed(DeclaredShape(l), value))
  }

  /** Below the root, whose windows are no bus's. */
  predicate Settled(levels: seq<Level>, k: nat, property: Option<Bytes>)
    requires k < |levels|
  {
    (k == 0 && property.Some?) || ReadAs(levels[k], property)
  }

  /** The nodes around the innermost one hold their own cells and windows. */
  predicate Around(open: seq<RegNode>, levels: seq<Level>, k: nat)
    requires k < |open| == |levels|
  {
    CellsOfNode(open[k]) == levels[k].own && Settled(levels, k, levels[k].property)
  }

  predicate Linked(levels: seq<Level>, k: nat)
    requires k < |levels|
  {
    levels[k].outer == if k == 0 then S.CellPair(2, 2) else levels[k - 1].own
  }

  ghost predicate Ready(open: seq<RegNode>, levels: seq<Level>) {
    && |open| == |levels| > 0
    && (forall k :: 0 <= k < |open| - 1 ==> Around(open, levels, k))
    && (forall k :: 0 <= k < |open| ==> Linked(levels, k))
  }

  /** The innermost node holds its parent's cells until it sets its own. */
  predicate TopIs(node: RegNode, l: Level, cells: S.CellPair, st: Stage) {
    && node.addrCells == (if st.addrSet then cells.addr else l.outer.addr)
    && node.sizeCells == (if st.sizeSet then cells.size else l.outer.size)
  }

  /** What is known in front of the items t of the innermost node. */
  ghost predicate Tracks(t: Items, strings: Bytes, st: Stage, cells: S.CellPair, before: Option<Bytes>,
        open: seq<RegNode>, levels: seq<Level>)
  {
    && Sane(st) && Arranged(t, strings, st) && Ready(open, levels)
    && var l := levels[|levels| - 1];
       && TopIs(open[|open| - 1], l, cells, st) && l.own == S.Declared(t, strings, cells)
       && l.property == RangesOf(t, strings, before) && Settled(levels, |levels| - 1, before)
  }

  lemma {:induction false} NamesDiffer()
    ensures Ascii("ranges") != Ascii("#address-cells") && Ascii("ranges") != Ascii("#size-cells")
    ensures Ascii("ranges") != Ascii("reg") && Ascii("#address-cells") != Ascii("#size-cells")
    ensures Ascii("reg") != Ascii("#address-cells") && Ascii("reg") != Ascii("#size-cells")
  {
    assert |Ascii("ranges")| == 6 && |Ascii("#address-cells")| == 14 && |Ascii("#size-cells")| == 11;
    assert |Ascii("reg")| == 3;
  }

  /** The node after a property that does not end the search. */
  lemma {:induction false} NodeAfter(open: seq<RegNode>, path: Bytes, target: Bytes, settings: Settings, name: Bytes,
        value: Bytes, l: Level, cells: S.CellPair, st: Stage)
    requires open != [] && OnProp(open, path, target, settings, name, value).Next?
    requires TopIs(open[|open| - 1], l, cells, st) && InPlace(st, name, value)
    ensures TopIs(OnProp(open, path, target, settings, name, value).node, l, S.Declares(cells, name, value),
      Later(st, name))
  {
    NamesDiffer();
  }

  lemma {:induction false} HeldIsDeclared(open: seq<RegNode>, levels: seq<Level>, cells: S.CellPair, st: Stage)
    requires Ready(open, levels) && |levels| >= 2 && st.addrSet && st.sizeSet
    requires TopIs(open[|open| - 1], levels[|levels| - 1], cells, st) && levels[|levels| - 1].own == cells
    ensures HeldShape(open) == DeclaredShape(levels[|levels| - 1])
  {
    var n := |open| - 1;
    assert Around(open, levels, n - 1) && Linked(levels, n);
  }

  lemma {:induction false} NotedIs(levels: seq<Level>, open: seq<RegNode>, name: Bytes, value: Bytes)
    requires levels != []
    ensures var noted, n := Noted(levels, open, name, value), |levels| - 1;
      && |noted| == |levels| && noted[..n] == levels[..n]
      && noted[n] == levels[n].(seen := if name == Ascii("ranges") && CellsIn(HeldShape(open)) != 0
                                        then Some(Windowed(HeldShape(open), value)) else levels[n].seen)
  {
  }

  lemma {:induction false} ReadyAfter(open: seq<RegNode>, levels: seq<Level>, node: RegNode, noted: seq<Level>)
    requires Ready(open, levels) && |noted| == |levels| && noted[..|levels| - 1] == levels[..|levels| - 1]
    requires noted[|levels| - 1] == levels[|levels| - 1].(seen := noted[|levels| - 1].seen)
    ensures Ready(WithTop(open, node), noted)
  {
    forall k | 0 <= k < |open|
      ensures k < |open| - 1 ==> Around(WithTop(open, node), noted, k)
      ensures Linked(noted, k)
    {
      assert Linked(levels, k);
      if k < |open| - 1 {
        assert Around(open, levels, k);
        assert noted[k] == noted[..|levels| - 1][k] && levels[k] == levels[..|levels| - 1][k];
      }
      if k > 0 {
        assert noted[k - 1] == noted[..|levels| - 1][k - 1] && levels[k - 1] == levels[..|levels| - 1][k - 1];
      }
    }
  }

  function RangesAfter(name: Bytes, value: Bytes, before: Option<Bytes>): Option<Bytes> {
    if name == Ascii("ranges") then Some(value) else before
  }

  /** The property's windows are noted with the declared cells. */
  lemma {:induction false} SettledAfter(open: seq<RegNode>, levels: seq<Level>, name: Bytes, value: Bytes,
        before: Option<Bytes>, cells: S.CellPair, st: Stage)
    requires Ready(open, levels) && Settled(levels, |levels| - 1, before)
    requires TopIs(open[|open| - 1], levels[|levels| - 1], cells, st)
    requires name == Ascii("ranges") ==> st.addrSet && st.sizeSet && levels[|levels| - 1].own == cells
    ensures |Noted(levels, open, name, value)| == |levels|
    ensures Settled(Noted(levels, open, name, value), |levels| - 1, RangesAfter(name, value, before))
  {
    NotedIs(levels, open, name, value);
    if name == Ascii("ranges") && |levels| >= 2 {
      HeldIsDeclared(open, levels, cells, st);
    }
  }

  /** The cells declared, once a ranges property is met, are those set so far. */
  lemma {:induction false} OwnAtRanges(nameoff: u32, value: Bytes, rest: Items, strings: Bytes, st: Stage,
        cells: S.CellPair)
    requires Arranged(Prop(nameoff, value, rest), strings, st) && GetString(strings, nameoff) == Ascii("ranges")
    ensures S.Declared(Prop(nameoff, value, rest), strings, cells) == cells
  {
    NamesDiffer();
    CellsAreFixed(rest, strings, Later(st, Ascii("ranges")), cells);
  }

  /** A property keeps what is known. */
  lemma {:induction false} PropTracks(nameoff: u32, value: Bytes, rest: Items, strings: Bytes, st: Stage,
        cells: S.CellPair, before: Option<Bytes>, open: seq<RegNode>, levels: seq<Level>, path: Bytes, target: Bytes,
        settings: Settings, name: Bytes, node: RegNode)
    requires Tracks(Prop(nameoff, value, rest), strings, st, cells, before, open, levels) == true
    requires name == GetString(strings, nameoff) && OnProp(open, path, target, settings, name, value).Next?
    requires node == OnProp(open, path, target, settings, name, value).node
    ensures Tracks(rest, strings, Later(st, name), S.Declares(cells, name, value), RangesAfter(name, value, before),
      WithTop(open, node), Noted(levels, open, name, value)) == true
  {
    var n, noted := |open| - 1, Noted(levels, open, name, value);
    if name == Ascii("ranges") {
      OwnAtRanges(nameoff, value, rest, strings, st, cells);
    }
    SettledAfter(open, levels, name, value, before, cells, st);
    NotedIs(levels, open, name, value);
    NodeAfter(open, path, target, settings, name, value, levels[n], cells, st);
    ReadyAfter(open, levels, node, noted);
    SaneLater(st, name, value);
    TracksRest(nameoff, value, rest, strings, st, cells, before, name);
  }

  lemma {:induction false} SaneLater(st: Stage, name: Bytes, value: Bytes)
    requires Sane(st) && InPlace(st, name, value)
    ensures Sane(Later(st, name))
  {
  }

  lemma {:induction false} TracksRest(nameoff: u32, value: Bytes, rest: Items, strings: Bytes, st: Stage,
        cells: S.CellPair, before: Option<Bytes>, name: Bytes)
    requires Arranged(Prop(nameoff, value, rest), strings, st) && name == GetString(strings, nameoff)
    ensures Arranged(rest, strings, Later(st, name))
    ensures S.Declared(Prop(nameoff, value, rest), strings, cells) ==
      S.Declared(rest, strings, S.Declares(cells, name, value))
    ensures RangesOf(Prop(nameoff, value, rest), strings, before) ==
      RangesOf(rest, strings, RangesAfter(name, value, before))
  {
  }

  lemma {:induction false} ChildTracks(name: Bytes, body: Items, rest: Items, strings: Bytes, st: Stage,
        cells: S.CellPair, before: Option<Bytes>, open: seq<RegNode>, levels: seq<Level>)
    requires Tracks(Child(name, body, rest), strings, st, cells, before, open, levels) == true
    ensures Tracks(body, strings, OPENING, S.SPEC_DEFAULT, None, open + [Inherited(open)],
      levels + [Opened(body, strings, levels)]) == true
    ensures Tracks(rest, strings, st.(closed := true), cells, before, open, levels) == true
  {
    var n := |open| - 1;
    var inner, inside := open + [Inherited(open)], levels + [Opened(body, strings, levels)];
    CellsAreFixed(rest, strings, st.(closed := true), cells);
    RangesAreFixed(rest, strings, st.(closed := true), before);
    forall k | 0 <= k < |inner|
      ensures k < |inner| - 1 ==> Around(inner, inside, k)
      ensures Linked(inside, k)
    {
      assert k <= n ==> Linked(levels, k);
      assert k < n ==> Around(open, levels, k);
    }
  }

  /** The innermost node holds the cells that its parent declares. */
  ghost predicate ReadyToRead(open: seq<RegNode>, levels: seq<Level>) {
    Ready(open, levels) && Held(open) == levels[|levels| - 1].outer
  }

  lemma {:induction false} RegIsReady(value: Bytes, nameoff: u32, rest: Items, strings: Bytes, st: Stage,
        cells: S.CellPair, before: Option<Bytes>, open: seq<RegNode>, levels: seq<Level>)
    requires Tracks(Prop(nameoff, value, rest), strings, st, cells, before, open, levels) == true
    requires GetString(strings, nameoff) == Ascii("reg")
    ensures ReadyToRead(open, levels) == true
  {
  }

  /** Where the search arrives in an arranged node. */
  lemma {:induction false} ArrangedPlace(t: Items, strings: Bytes, target: Bytes, open: seq<RegNode>,
        names: seq<Bytes>, settings: Settings, levels: seq<Level>, at: Place, st: Stage, cells: S.CellPair,
        before: Option<Bytes>)
    returns (found: seq<Level>)
    requires Tracks(t, strings, st, cells, before, open, levels) == true
    requires Reaches(t, strings, target, open, names, settings, at)
    ensures Arrives(t, strings, target, open, names, settings, levels, at, found)
    ensures ReadyToRead(at.open, found) == true
    decreases t
  {
    match t
    case Nop(rest) =>
      found := ArrangedPlace(rest, strings, target, open, names, settings, levels, at, st, cells, before);
    case Prop(nameoff, value, rest) =>
      var name := GetString(strings, nameoff);
      if name == Ascii("reg") && Joined(names) == target && at == Place(names, open, settings, value) {
        RegIsReady(value, nameoff, rest, strings, st, cells, before, open, levels);
        found := levels;
      } else {
        var next := OnProp(open, Joined(names), target, settings, name, value);
        PropTracks(nameoff, value, rest, strings, st, cells, before, open, levels, Joined(names), target, settings,
          name, next.node);
        found := ArrangedPlace(rest, strings, target, WithTop(open, next.node), names, next.settings,
          Noted(levels, open, name, value), at, Later(st, name), S.Declares(cells, name, value),
          RangesAfter(name, value, before));
      }
    case Child(name, body, rest) =>
      found := ArrangedChild(name, body, rest, strings, target, open, names, settings, levels, at, st, cells, before);
  }

  lemma {:induction false} ArrangedChild(name: Bytes, body: Items, rest: Items, strings: Bytes, target: Bytes,
        open: seq<RegNode>, names: seq<Bytes>, settings: Settings, levels: seq<Level>, at: Place, st: Stage,
        cells: S.CellPair, before: Option<Bytes>)
    returns (found: seq<Level>)
    requires Tracks(Child(name, body, rest), strings, st, cells, before, open, levels) == true
    requires Reaches(Child(name, body, rest), strings, target, open, names, settings, at)
    ensures Arrives(Child(name, body, rest), strings, target, open, names, settings, levels, at, found)
    ensures ReadyToRead(at.open, found) == true
    decreases Child(name, body, rest), 0
  {
    var inner, inside := open + [Inherited(open)], levels + [Opened(body, strings, levels)];
    ChildTracks(name, body, rest, strings, st, cells, before, open, levels);
    if Reaches(body, strings, target, inner, names + [name], settings, at) {
      found := ArrangedPlace(body, strings, target, inner, names + [name], settings, inside, at, OPENING,
        S.SPEC_DEFAULT, None);
    } else {
      var v := FindWalk(body, strings, target, inner, names + [name], settings);
      found := ArrangedPlace(rest, strings, target, open, names, v.settings, levels, at, st.(closed := true), cells,
        before);
    }
  }

  lemma {:induction false} ArrivalHolds(t: Items, strings: Bytes, target: Bytes, open: seq<RegNode>,
        names: seq<Bytes>, settings: Settings, levels: seq<Level>, at: Place, found: seq<Level>)
    requires Arrives(t, strings, target, open, names, settings, levels, at, found) && AllHold(open, levels)
    ensures AllHold(at.open, found)
    decreases t
  {
    match t
    case Nop(rest) => ArrivalHolds(rest, strings, target, open, names, settings, levels, at, found);
    case Prop(nameoff, value, rest) =>
      if open == [] {
        ArrivalHolds(rest, strings, target, open, names, settings, levels, at, found);
      } else {
        var name := GetString(strings, nameoff);
        var next := OnProp(open, Joined(names), target, settings, name, value);
        var noted := Noted(levels, open, name, value);
        if next.Next? {
          var stack := WithTop(open, next.node);
          if Arrives(rest, strings, target, stack, names, next.settings, noted, at, found) {
            NotedHolds(open, levels, Joined(names), target, settings, name, value);
            ArrivalHolds(rest, strings, target, stack, names, next.settings, noted, at, found);
          }
        }
      }
    case Child(name, body, rest) =>
      var inner, inside := open + [Inherited(open)], levels + [Opened(body, strings, levels)];
      var v := FindWalk(body, strings, target, inner, names + [name], settings);
      if Arrives(body, strings, target, inner, names + [name], settings, inside, at, found) {
        ArrivalHolds(body, strings, target, inner, names + [name], settings, inside, at, found);
      } else {
        ArrivalHolds(rest, strings, target, open, names, v.settings, levels, at, found);
      }
  }

  // ---- What it reads ---------------------------------------------------------

  /** The cells that the bus and its parent declare decode its property, if it has one. */
  predicate Decodable(l: Level) {
    l.property.Some? ==> |l.property.value| < TWO32 && DecodingOf(DeclaredShape(l)).Fields?
  }

  lemma {:induction false} SettledIsFaithful(levels: seq<Level>, k: nat)
    requires 0 < k < |levels| && Settled(levels, k, levels[k].property) && Decodable(levels[k])
    ensures Faithful(levels[k])
  {
  }

  /**
   In an arranged tree the search reads every register with the cells that the
   parent of its node declares, and sees every bus on the way as the
   specification does, if its windows can be decoded at all.
  */
  lemma {:induction false} ArrangedTreesMeetSpec(name: Bytes, body: Items, strings: Bytes, target: Bytes, at: Place)
    returns (found: seq<Level>)
    requires Arranged(body, strings, OPENING)
    requires Reaches(Child(name, body, Done), strings, target, [], [], DEFAULTS, at)
    ensures Arrives(Child(name, body, Done), strings, target, [], [], DEFAULTS, [], at, found)
    ensures |found| == |at.open| > 0 && Held(at.open) == found[|found| - 1].outer
    ensures |found| >= 2 && found[0].property == None ==> at.open[0].ranges == []
    ensures var n := |found| - 1;
      n >= 1 && (forall k :: 1 <= k < n ==> Decodable(found[k])) ==>
        AllFaithful(found[1..n]) && Sees(Between(at.open), Buses(found[1..n]))
  {
    RootReaches(name, body, strings, target, at);
    RootTracks(body, strings, [Inherited([])], [Opened(body, strings, [])]);
    found := ArrangedPlace(body, strings, target, [Inherited([])], [name], DEFAULTS, [Opened(body, strings, [])], at,
      OPENING, S.SPEC_DEFAULT, None);
    RootArrives(name, body, strings, target, at, found);
    ArrivalHolds(Child(name, body, Done), strings, target, [], [], DEFAULTS, [], at, found);
    assert PathSpec.Holds(at.open[0], found[0]);
    if |found| >= 2 {
      RootIsSettled(at.open, found);
    }
    var n := |found| - 1;
    if n >= 1 && (forall k :: 1 <= k < n ==> Decodable(found[k])) {
      BusesAreSeen(at.open, found);
    }
  }

  lemma {:induction false} RootReaches(name: Bytes, body: Items, strings: Bytes, target: Bytes, at: Place)
    requires Reaches(Child(name, body, Done), strings, target, [], [], DEFAULTS, at)
    ensures Reaches(body, strings, target, [Inherited([])], [name], DEFAULTS, at)
  {
    var none: seq<Bytes> := [];
    assert [] + [Inherited([])] == [Inherited([])] && none + [name] == [name];
  }

  lemma {:induction false} RootTracks(body: Items, strings: Bytes, open: seq<RegNode>, levels: seq<Level>)
    requires Arranged(body, strings, OPENING) && open == [ROOT_NODE] && levels == [Opened(body, strings, [])]
    ensures Tracks(body, strings, OPENING, S.SPEC_DEFAULT, None, open, levels) == true
  {
  }

  lemma {:induction false} RootArrives(name: Bytes, body: Items, strings: Bytes, target: Bytes, at: Place,
        found: seq<Level>)
    requires Arrives(body, strings, target, [Inherited([])], [name], DEFAULTS, [Opened(body, strings, [])], at, found)
    ensures Arrives(Child(name, body, Done), strings, target, [], [], DEFAULTS, [], at, found)
  {
    var none: seq<Bytes> := [];
    assert [] + [Inherited([])] == [Inherited([])] && none + [name] == [name];
    assert [] + [Opened(body, strings, [])] == [Opened(body, strings, [])];
  }

  lemma {:induction false} RootIsSettled(open: seq<RegNode>, levels: seq<Level>)
    requires Ready(open, levels) && |open| >= 2
    ensures levels[0].property == None ==> levels[0].seen == None
  {
    assert Around(open, levels, 0);
  }

  lemma {:induction false} BusesAreSeen(open: seq<RegNode>, levels: seq<Level>)
    requires Ready(open, levels) && AllHold(open, levels) && |levels| >= 2
    requires forall k :: 1 <= k < |levels| - 1 ==> Decodable(levels[k])
    ensures AllFaithful(levels[1..|levels| - 1])
    ensures Sees(Between(open), Buses(levels[1..|levels| - 1]))
  {
    var n := |levels| - 1;
    forall k | 1 <= k < n
      ensures Faithful(levels[k])
    {
      assert Around(open, levels, k);
      SettledIsFaithful(levels, k);
    }
    assert forall k :: 0 <= k < n - 1 ==> levels[1..n][k] == levels[k + 1] && Between(open)[k] == open[k + 1];
    FaithfulLevelsAreSeen(Between(open), levels[1..n]);
  }
}
