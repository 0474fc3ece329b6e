/** A device tree deeper than the parser's stack of 32 nodes (src/mm/dtb.rs, parse). */
module DtbDepth {
  import opened Machine
  import opened Wrappers
  import opened RegionModel
  import opened Fdt
  import opened DtbRegions
  import opened DtbSpec
  import opened DtbLimits

  /** Items inside so many nested nodes without names. */
  function Nested(n: nat, t: Items): Items {
    if n == 0 then t else Child([], Nested(n - 1, t), Done)
  }

  function Closings(n: nat, k: Events): Events { if n == 0 then k else Cons(EndNode, Closings(n - 1, k)) }

  function Roots(n: nat): (r: seq<Ctx>)
    ensures |r| == n && forall i :: 0 <= i < n ==> r[i] == ROOT
  {
    seq(n, _ => ROOT)
  }

  lemma {:induction false} NestedDepth(n: nat, t: Items)
    ensures Depth(Nested(n, t)) == n + Depth(t)
    ensures WellFormed(t) ==> WellFormed(Nested(n, t))
  {
    if n > 0 {
      NestedDepth(n - 1, t);
    }
  }

  function Openings(n: nat, rest: Events): Events {
    if n == 0 then rest else Cons(BeginNode([]), Openings(n - 1, rest))
  }

  lemma {:induction false} NestedEvents(n: nat, t: Items, k: Events)
    ensures EventsOf(Nested(n, t), k) == Openings(n, EventsOf(t, Closings(n, k)))
    decreases n
  {
    if n > 0 {
      NestedEvents(n - 1, t, Cons(EndNode, k));
      ClosingsSnoc(n - 1, k);
    }
  }

  /** Scanning from here with m nodes open comes to scanning from there with n. */
  predicate SameScan(strings: Bytes, here: Events, m: nat, there: Events, n: nat) {
    Regions(here, strings, Roots(m)) == Regions(there, strings, Roots(n))
  }

  lemma {:induction false} EntersRoot(rest: Events, strings: Bytes, m: nat)
    requires m < MAX_DEPTH
    ensures SameScan(strings, Cons(BeginNode([]), rest), m, rest, m + 1) == true
  {
    NodeNames();
    assert Top(Roots(m), ROOT) == ROOT;
    assert Roots(m) + [ROOT] == Roots(m + 1);
  }

  lemma {:induction false} SameScanTrans(strings: Bytes, a: Events, m: nat, b: Events, n: nat, c: Events, k: nat)
    requires SameScan(strings, a, m, b, n) == true && SameScan(strings, b, n, c, k) == true
    ensures SameScan(strings, a, m, c, k) == true
  {
  }

  lemma {:induction false} OpeningsScan(n: nat, rest: Events, strings: Bytes, m: nat)
    requires m + n <= MAX_DEPTH
    ensures SameScan(strings, Openings(n, rest), m, rest, m + n) == true
    decreases n
  {
    if n > 0 {
      var inner := Openings(n - 1, rest);
      EntersRoot(inner, strings, m);
      OpeningsScan(n - 1, rest, strings, m + 1);
      SameScanTrans(strings, Openings(n, rest), m, inner, m + 1, rest, m + n);
    }
  }

  lemma {:induction false} ClosingsSnoc(n: nat, k: Events)
    ensures Closings(n, Cons(EndNode, k)) == Closings(n + 1, k)
  {
    if n > 0 {
      ClosingsSnoc(n - 1, k);
    }
  }

  lemma {:induction false} ClosingsOfferNothing(n: nat, strings: Bytes, open: seq<Ctx>)
    ensures Regions(Closings(n, Nil), strings, open) == NOTHING
    decreases n
  {
    if n > 0 {
      ClosingsOfferNothing(n - 1, strings, if |open| > 0 then open[..|open| - 1] else open);
    }
  }

  lemma {:induction false} NestedWalk(n: nat, t: Items, inNode: bool)
    requires n > 0
    ensures Walk(Nested(n, t), Strings(), inNode, ROOT) == Walk(t, Strings(), true, ROOT)
    decreases n
  {
    NodeNames();
    OnlyChild([], Nested(n - 1, t), inNode, ROOT);
    if n > 1 {
      NestedWalk(n - 1, t, true);
    }
  }

  /** Reserved memory with a node before the buffer that is reserved. */
  function Spaced(value: Bytes): Items {
    Child(Ascii("reserved-memory"), Child([], Done, Child(Ascii("buffer"), Prop(REG, value, Done), Done)), Done)
  }

  lemma {:induction false} SpacedEvents(value: Bytes, k: Events, buffer: Events)
    requires buffer ==
      Cons(BeginNode(Ascii("buffer")), Cons(Property(REG, value), Cons(EndNode, Cons(EndNode, k))))
    ensures EventsOf(Spaced(value), k) ==
      Cons(BeginNode(Ascii("reserved-memory")), Cons(BeginNode([]), Cons(EndNode, buffer)))
  {
    var reg := Prop(REG, value, Done);
    var node := Child(Ascii("buffer"), reg, Done);
    assert EventsOf(reg, Cons(EndNode, Cons(EndNode, k))) ==
      Cons(Property(REG, value), Cons(EndNode, Cons(EndNode, k)));
    assert EventsOf(node, Cons(EndNode, k)) == buffer;
    assert EventsOf(Child([], Done, node), Cons(EndNode, k)) == Cons(BeginNode([]), Cons(EndNode, buffer));
  }

  /** With reserved-memory on the last level that fits, leaving its first child leaves it too. */
  lemma {:induction false} LeavesTwice(rest: Events, open: seq<Ctx>, inner: seq<Ctx>)
    requires open == Roots(31) && inner == open + [RESERVED]
    ensures Regions(Cons(BeginNode(Ascii("reserved-memory")), Cons(BeginNode([]), Cons(EndNode, rest))), Strings(),
      open) == Regions(rest, Strings(), open)
  {
    NodeNames();
    assert inner[..31] == open && Top(open, ROOT) == ROOT;
    assert Regions(Cons(EndNode, rest), Strings(), inner) == Regions(rest, Strings(), open);
    assert Regions(Cons(BeginNode([]), Cons(EndNode, rest)), Strings(), inner) ==
      Regions(Cons(EndNode, rest), Strings(), inner);
  }

  lemma {:induction false} SpacedScan(value: Bytes, k: Events, open: seq<Ctx>)
    requires open == Roots(31)
    ensures Regions(EventsOf(Spaced(value), k), Strings(), open) ==
      Then(NOTHING, Regions(Cons(EndNode, Cons(EndNode, k)), Strings(), open + [ROOT]))
  {
    var property := Cons(Property(REG, value), Cons(EndNode, Cons(EndNode, k)));
    var buffer := Cons(BeginNode(Ascii("buffer")), property);
    SpacedEvents(value, k, buffer);
    LeavesTwice(buffer, open, open + [RESERVED]);
    PlainBuffer(property, open);
    PlainReg(value, Cons(EndNode, Cons(EndNode, k)), open + [ROOT]);
  }

  lemma {:induction false} PlainBuffer(rest: Events, open: seq<Ctx>)
    requires open == Roots(31)
    ensures Regions(Cons(BeginNode(Ascii("buffer")), rest), Strings(), open) ==
      Regions(rest, Strings(), open + [ROOT])
  {
    assert Ascii("buffer")[0] == 98 && Ascii("memory")[0] == 109 && Ascii("reserved-memory")[0] == 114;
    assert Top(open, ROOT) == ROOT && Entered(ROOT, Ascii("buffer")) == ROOT;
  }

  /** A reg outside memory and reserved memory offers nothing. */
  lemma {:induction false} PlainReg(value: Bytes, rest: Events, open: seq<Ctx>)
    requires open != [] && open[|open| - 1] == ROOT
    ensures Regions(Cons(Property(REG, value), rest), Strings(), open) == Then(NOTHING, Regions(rest, Strings(), open))
  {
    NamesOfStrings();
    PlainProperty(value);
    assert WithTop(open, ROOT) == open;
  }

  lemma {:induction false} PlainProperty(value: Bytes)
    ensures PropOffers(ROOT, Ascii("reg"), value) == NOTHING && CtxAfter(ROOT, Ascii("reg"), value) == ROOT
  {
    NamesDiffer();
    PlainEntries(value, 0);
  }

  lemma {:induction false} PlainEntries(value: Bytes, pos: nat)
    ensures RegEntries(ROOT, value, pos) == NOTHING
    decreases |value| - pos
  {
    if pos + 16 <= |value| {
      PlainEntries(value, pos + 16);
    }
  }

  /**
   The bound of 32 levels is exact: 31 levels down, memory that is reserved
   behind another child of reserved-memory is lost, for it is read at level 32.
  */
  lemma {:induction false} DeeperTreesLoseReservations(addr: u64, size: u64, trailing: Bytes)
    ensures var t := Nested(31, Spaced(RegBytes(RESERVED, [Extent(addr, size)])));
      && Depth(t) == 33 && WellFormed(t)
      && Walk(t, Strings(), false, ROOT) == Outcome([Offer(addr, size, Reserved)], false)
      && Regions(Tokens(StructBlock(t, trailing), 0), Strings(), []) == NOTHING
  {
    var value := RegBytes(RESERVED, [Extent(addr, size)]);
    SpacedIs(value, addr, size);
    NestedDepth(31, Spaced(value));
    NestedWalk(31, Spaced(value), false);
    DeepScan(value, trailing, Spaced(value));
  }

  lemma {:induction false} DeepScan(value: Bytes, trailing: Bytes, t: Items)
    requires t == Spaced(value) && WellFormed(Nested(31, t))
    ensures Regions(Tokens(StructBlock(Nested(31, t), trailing), 0), Strings(), []) == NOTHING
  {
    var k := Closings(31, Nil);
    RoundTrip(Nested(31, t), trailing);
    NestedEvents(31, t, Nil);
    OpeningsScan(31, EventsOf(t, k), Strings(), 0);
    assert Roots(0) == [];
    SpacedScan(value, k, Roots(31));
    EndsOfferNothing(k, Roots(31) + [ROOT]);
  }

  lemma {:induction false} EndsOfferNothing(k: Events, open: seq<Ctx>)
    requires k == Closings(31, Nil)
    ensures Regions(Cons(EndNode, Cons(EndNode, k)), Strings(), open) == NOTHING
  {
    ClosingsOfferNothing(33, Strings(), open);
    assert Closings(33, Nil) == Cons(EndNode, Closings(32, Nil)) == Cons(EndNode, Cons(EndNode, k));
  }

  lemma {:induction false} SpacedShape(value: Bytes, buffer: Items)
    requires |value| < TWO32 && buffer == Child(Ascii("buffer"), Prop(REG, value, Done), Done)
    ensures WellFormed(Spaced(value)) && Depth(Spaced(value)) == 2
  {
    assert 0 !in Ascii("buffer") && 0 !in Ascii("reserved-memory");
    assert WellFormed(buffer) && Depth(buffer) == 1;
    assert WellFormed(Child([], Done, buffer)) && Depth(Child([], Done, buffer)) == 1;
  }

  lemma {:induction false} SpacedIs(value: Bytes, addr: u64, size: u64)
    requires value == RegBytes(RESERVED, [Extent(addr, size)])
    ensures WellFormed(Spaced(value)) && Depth(Spaced(value)) == 2
    ensures Walk(Spaced(value), Strings(), true, ROOT) == Outcome([Offer(addr, size, Reserved)], false)
  {
    var buffer := Child(Ascii("buffer"), Prop(REG, value, Done), Done);
    OneExtent(RESERVED, addr, size);
    SpacedShape(value, buffer);
    BufferWalk(value, addr, size, buffer);
    SpacedWalk(buffer);
  }

  lemma {:induction false} BufferWalk(value: Bytes, addr: u64, size: u64, buffer: Items)
    requires value == RegBytes(RESERVED, [Extent(addr, size)])
    requires buffer == Child(Ascii("buffer"), Prop(REG, value, Done), Done)
    ensures Walk(buffer, Strings(), true, RESERVED) == Outcome([Offer(addr, size, Reserved)], false)
  {
    NodeNames();
    OneExtent(RESERVED, addr, size);
    WalkReg(RESERVED, [Extent(addr, size)]);
    OnlyChild(Ascii("buffer"), Prop(REG, value, Done), true, RESERVED);
  }

  lemma {:induction false} SpacedWalk(buffer: Items)
    ensures Walk(Child(Ascii("reserved-memory"), Child([], Done, buffer), Done), Strings(), true, ROOT) ==
      Walk(buffer, Strings(), true, RESERVED)
  {
    NodeNames();
    OnlyChild(Ascii("reserved-memory"), Child([], Done, buffer), true, ROOT);
    ThenAssociates(NOTHING, Walk(buffer, Strings(), true, RESERVED), NOTHING);
    assert Walk(Done, Strings(), true, Entered(RESERVED, [])) == NOTHING;
  }
}
