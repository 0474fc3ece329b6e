/** Bus address translation through ranges properties (src/mm/dtb.rs; Devicetree Specification, section 2.3.8). */
module BusRanges {
  import opened Machine
  import opened Wrappers
  import opened Fdt
  import opened Cells

  const MAX_RANGES: nat := 4

  /** A window of child addresses and where it appears in the parent's address space. */
  datatype Range = Range(childBase: u64, parentBase: u64, size: u64)

  /** An open node: its cell counts and the windows of its ranges property, if it has one. */
  datatype RegNode = RegNode(addrCells: u32, sizeCells: u32, ranges: seq<Range>)

  const ROOT_NODE: RegNode := RegNode(2, 2, [])

  // ---- Translation ---------------------------------------------------------

  /** The window's end saturates at the top of the address space. */
  predicate InWindow(r: Range, addr: u64) {
    r.childBase <= addr < Min(r.childBase + r.size, U64_MAX)
  }

  /** The first window that contains the address; |ranges| when none does. */
  function FirstWindow(ranges: seq<Range>, addr: u64): (i: nat)
    ensures i <= |ranges|
    ensures i < |ranges| ==> InWindow(ranges[i], addr)
    ensures forall j :: 0 <= j < i ==> !InWindow(ranges[j], addr)
  {
    if ranges == [] || InWindow(ranges[0], addr) then 0 else 1 + FirstWindow(ranges[1..], addr)
  }

  function Through(r: Range, addr: u64): u64
    requires InWindow(r, addr)
  {
    (r.parentBase + (addr - r.childBase)) % TWO64
  }

  /** One level: the identity when the node has no windows. */
  function Level(ranges: seq<Range>, addr: u64): Option<u64> {
    if ranges == [] then Some(addr)
    else
      var i := FirstWindow(ranges, addr);
      if i < |ranges| then Some(Through(ranges[i], addr)) else None
  }

  /** From a child of the last node of levels up to the address space of the first. */
  function Upwards(levels: seq<RegNode>, addr: u64): Option<u64> {
    if levels == [] then Some(addr)
    else
      var n := |levels| - 1;
      match Level(levels[n].ranges, addr)
      case None => None
      case Some(x) => Upwards(levels[..n], x)
  }

  /** translate_addr: the node itself is the last of open, its own ranges do not apply. */
  function TranslateAddr(addr: u64, open: seq<RegNode>): Option<u64> {
    if open == [] then Some(addr) else Upwards(open[..|open| - 1], addr)
  }

  method FindWindow(ranges: seq<Range>, addr: u64) returns (r: Option<u64>)
    requires ranges != []
    ensures r == Level(ranges, addr)
  {
    var i := 0;
    while i < |ranges|
      invariant i <= FirstWindow(ranges, addr)
    {
      if InWindow(ranges[i], addr) {
        return Some((ranges[i].parentBase + (addr - ranges[i].childBase)) % TWO64);
      }
      i := i + 1;
    }
    return None;
  }

  method Translate(addr: u64, open: seq<RegNode>) returns (r: Option<u64>)
    ensures r == TranslateAddr(addr, open)
  {
    var cur := addr;
    if open == [] {
      return Some(cur);
    }
    var idx := |open| - 1;
    while idx > 0
      invariant 0 <= idx < |open| && Upwards(open[..idx], cur) == TranslateAddr(addr, open)
    {
      var parent := open[idx - 1];
      assert open[..idx][..idx - 1] == open[..idx - 1];
      if parent.ranges != [] {
        var mapped := FindWindow(parent.ranges, cur);
        if mapped.None? {
          return None;
        }
        cur := mapped.value;
      }
      idx := idx - 1;
    }
    return Some(cur);
  }

  function AndThen(x: Option<u64>, levels: seq<RegNode>): Option<u64> {
    match x
    case None => None
    case Some(a) => Upwards(levels, a)
  }

  /** Translation is the composition of the per-level maps, from parent to root. */
  lemma {:induction false} TranslationComposes(outer: seq<RegNode>, inner: seq<RegNode>, addr: u64)
    ensures Upwards(outer + inner, addr) == AndThen(Upwards(inner, addr), outer)
    decreases |inner|
  {
    if inner == [] {
      assert outer + inner == outer;
    } else {
      var n := |inner| - 1;
      assert (outer + inner)[..|outer + inner| - 1] == outer + inner[..n];
      var x := Level(inner[n].ranges, addr);
      if x.Some? {
        TranslationComposes(outer, inner[..n], x.value);
      }
    }
  }

  /** A level without windows is the identity: it may be left out anywhere. */
  lemma {:induction false} NoRangesIsIdentity(outer: seq<RegNode>, node: RegNode, inner: seq<RegNode>, addr: u64)
    requires node.ranges == []
    ensures Upwards(outer + [node] + inner, addr) == Upwards(outer + inner, addr)
  {
    TranslationComposes(outer + [node], inner, addr);
    TranslationComposes(outer, inner, addr);
    var x := Upwards(inner, addr);
    if x.Some? {
      TranslationComposes(outer, [node], x.value);
      OneLevel(node, x.value);
    }
  }

  /** The translation is blocked at level k: the level has windows and none holds the address that arrives there. */
  ghost predicate BlockedAt(levels: seq<RegNode>, k: nat, addr: u64)
    requires k < |levels|
  {
    var x := Upwards(levels[k + 1..], addr);
    x.Some? && levels[k].ranges != [] && forall i :: 0 <= i < |levels[k].ranges| ==>
      !InWindow(levels[k].ranges[i], x.value)
  }

  lemma {:induction false} BlockedMeansNone(levels: seq<RegNode>, k: nat, addr: u64)
    requires k < |levels| && BlockedAt(levels, k, addr)
    ensures Upwards(levels, addr) == None
  {
    assert levels == levels[..k + 1] + levels[k + 1..];
    TranslationComposes(levels[..k + 1], levels[k + 1..], addr);
    assert levels[..k + 1][k] == levels[k];
  }

  lemma {:induction false} NoneMeansBlocked(levels: seq<RegNode>, addr: u64) returns (k: nat)
    requires Upwards(levels, addr) == None
    ensures k < |levels| && BlockedAt(levels, k, addr)
    decreases |levels|
  {
    var n := |levels| - 1;
    var x := Level(levels[n].ranges, addr);
    if x.None? {
      k := n;
      assert levels[n + 1..] == [];
    } else {
      k := NoneMeansBlocked(levels[..n], x.value);
      assert levels[k + 1..] == levels[..n][k + 1..] + [levels[n]];
      TranslationComposes(levels[..n][k + 1..], [levels[n]], addr);
      OneLevel(levels[n], addr);
      assert levels[..n][k] == levels[k];
    }
  }

  lemma {:induction false} OneLevel(node: RegNode, addr: u64)
    ensures Upwards([node], addr) == Level(node.ranges, addr)
  {
    assert [node][..0] == [];
  }

  /** An address has no translation exactly when some level has windows and none for what arrives there. */
  lemma {:induction false} AbsentExactlyWhenBlocked(levels: seq<RegNode>, addr: u64)
    ensures Upwards(levels, addr) == None <==> exists k :: 0 <= k < |levels| && BlockedAt(levels, k, addr)
  {
    if Upwards(levels, addr) == None {
      var k := NoneMeansBlocked(levels, addr);
    }
    if k :| 0 <= k < |levels| && BlockedAt(levels, k, addr) {
      BlockedMeansNone(levels, k, addr);
    }
  }

  /** Both addresses go through the same window at every level that has windows. */
  ghost predicate SameWindows(levels: seq<RegNode>, x: u64, y: u64)
    decreases |levels|
  {
    levels == [] ||
    var n := |levels| - 1;
    var ranges := levels[n].ranges;
    var i := FirstWindow(ranges, x);
    if ranges == [] then SameWindows(levels[..n], x, y)
    else
      i < |ranges| && i == FirstWindow(ranges, y) &&
      SameWindows(levels[..n], Through(ranges[i], x), Through(ranges[i], y))
  }

  /** Inside the chosen windows the translation preserves distances. */
  lemma {:induction false} OffsetsArePreserved(levels: seq<RegNode>, x: u64, y: u64, d: nat)
    requires SameWindows(levels, x, y) && y == (x + d) % TWO64
    ensures Upwards(levels, x).Some? && Upwards(levels, y) == Some((Upwards(levels, x).value + d) % TWO64)
    decreases |levels|
  {
    if levels != [] {
      var n := |levels| - 1;
      var ranges := levels[n].ranges;
      if ranges == [] {
        OffsetsArePreserved(levels[..n], x, y, d);
      } else {
        var i := FirstWindow(ranges, x);
        OneWindow(ranges[i], x, y, d);
        OffsetsArePreserved(levels[..n], Through(ranges[i], x), Through(ranges[i], y), d);
      }
    }
  }

  lemma {:induction false} OneWindow(r: Range, x: u64, y: u64, d: nat)
    requires InWindow(r, x) && InWindow(r, y) && y == (x + d) % TWO64
    ensures Through(r, y) == (Through(r, x) + d) % TWO64
  {
    var q := (x + d) / TWO64;
    assert x + d == TWO64 * q + y;
    var p := r.parentBase + (x - r.childBase);
    assert p + d == TWO64 * q + (r.parentBase + (y - r.childBase));
  }

  // ---- Decoding a ranges property ------------------------------------------

  /** Cells per entry, and up to the end of the parent address, in 32-bit arithmetic. */
  function EntryCells(a: u32, p: u32, s: u32): u32 { (a + p + s) % TWO32 }

  function ParentEnd(a: u32, p: u32): u32 { (a + p) % TWO32 }

  /** The entry's three fields can be sliced: neither sum has wrapped. */
  predicate Sliceable(a: u32, p: u32, s: u32) {
    a <= ParentEnd(a, p) <= EntryCells(a, p, s)
  }

  lemma {:induction false} SliceableIs(a: u32, p: u32, s: u32)
    ensures Sliceable(a, p, s) <==> a + p + s < TWO32
  {
  }

  lemma {:induction false} FieldSizes(a: u32, p: u32, s: u32)
    requires Sliceable(a, p, s)
    ensures ParentEnd(a, p) == a + p && EntryCells(a, p, s) == a + p + s
  {
  }

  function EntryRange(value: Bytes, pos: nat, bytes: nat, a: u32, p: u32, s: u32): Range
    requires Sliceable(a, p, s) && bytes == 4 * EntryCells(a, p, s) && pos + bytes <= |value|
  {
    var m, e := pos + 4 * a, pos + 4 * ParentEnd(a, p);
    Range(CellsRead(value[pos..m], a), CellsRead(value[m..e], p), CellsRead(value[e..pos + bytes], s))
  }

  /** At most four entries from pos on, after those already read; None when slicing panics. */
  function Entries(value: Bytes, pos: nat, bytes: nat, a: u32, p: u32, s: u32, done: seq<Range>): Option<seq<Range>>
    requires 0 < bytes == 4 * EntryCells(a, p, s)
    decreases |value| - pos
  {
    if pos + bytes > |value| || |done| >= MAX_RANGES then Some(done)
    else if !Sliceable(a, p, s) then None
    else Entries(value, pos + bytes, bytes, a, p, s, done + [EntryRange(value, pos, bytes, a, p, s)])
  }

  /** The windows after a ranges property; the old ones stay when an entry would have no cells. */
  function DecodedRanges(value: Bytes, a: u32, p: u32, s: u32, before: seq<Range>): Option<seq<Range>> {
    var cells := EntryCells(a, p, s);
    if cells == 0 then Some(before) else Entries(value, 0, 4 * cells, a, p, s, [])
  }

  lemma {:induction false} EntriesUnfold(value: Bytes, pos: nat, next: nat, bytes: nat, a: u32, p: u32, s: u32,
        done: seq<Range>)
    requires Sliceable(a, p, s) && 0 < bytes == 4 * EntryCells(a, p, s) && next == pos + bytes <= |value| &&
      |done| < MAX_RANGES
    ensures Entries(value, pos, bytes, a, p, s, done) ==
      Entries(value, next, bytes, a, p, s, done + [EntryRange(value, pos, bytes, a, p, s)])
  {
  }

  lemma {:induction false} EntryStep(value: Bytes, pos: nat, next: nat, bytes: nat, a: u32, p: u32, s: u32,
        done: seq<Range>, longer: seq<Range>, r: Range)
    requires Sliceable(a, p, s) && 0 < bytes == 4 * EntryCells(a, p, s) && next == pos + bytes <= |value|
    requires EntryRange(value, pos, bytes, a, p, s) == r && |done| < MAX_RANGES && longer == done + [r]
    ensures Entries(value, pos, bytes, a, p, s, done) == Entries(value, next, bytes, a, p, s, longer)
  {
    assert longer == done + [EntryRange(value, pos, bytes, a, p, s)];
    EntriesUnfold(value, pos, next, bytes, a, p, s, done);
  }

  lemma {:induction false} FieldBounds(pos: nat, bytes: nat, a: u32, p: u32, s: u32)
    requires Sliceable(a, p, s) && bytes == 4 * EntryCells(a, p, s)
    ensures pos + 4 * ParentEnd(a, p) == pos + 4 * a + 4 * p && pos + bytes == pos + 4 * ParentEnd(a, p) + 4 * s
  {
    FieldSizes(a, p, s);
  }

  method ReadRange(value: Bytes, pos: nat, bytes: nat, a: u32, p: u32, s: u32) returns (r: Range)
    requires Sliceable(a, p, s) && bytes == 4 * EntryCells(a, p, s) && pos + bytes <= |value|
    ensures r == EntryRange(value, pos, bytes, a, p, s)
  {
    var m, e := pos + 4 * a, pos + 4 * ParentEnd(a, p);
    FieldBounds(pos, bytes, a, p, s);
    var childBase := ReadAddrCells(value[pos..m], a);
    var parentBase := ReadCellsTrunc(value[m..e], p);
    var size := ReadCells(value[e..pos + bytes], s);
    r := Range(childBase, parentBase, size);
  }

  method ReadRanges(value: Bytes, a: u32, p: u32, s: u32, before: seq<Range>) returns (r: Option<seq<Range>>)
    ensures r == DecodedRanges(value, a, p, s, before)
  {
    var cells: nat := EntryCells(a, p, s);
    if cells == 0 {
      return Some(before);
    }
    var bytes := 4 * cells;
    var pos: nat := 0;
    var ranges: seq<Range> := [];
    while pos + bytes <= |value| && |ranges| < MAX_RANGES
      invariant Entries(value, pos, bytes, a, p, s, ranges) == DecodedRanges(value, a, p, s, before)
      decreases |value| - pos
    {
      if !Sliceable(a, p, s) {
        return None;
      }
      var range := ReadRange(value, pos, bytes, a, p, s);
      var next, longer := pos + bytes, ranges + [range];
      EntryStep(value, pos, next, bytes, a, p, s, ranges, longer, range);
      ranges, pos := longer, next;
    }
    return Some(ranges);
  }

  // ---- Writing a ranges property --------------------------------------------

  predicate FitsRange(r: Range, a: u32, p: u32, s: u32) {
    FitsCells(r.childBase, a) && FitsCells(r.parentBase, p) && FitsCells(r.size, s)
  }

  function RangeBytes(r: Range, a: u32, p: u32, s: u32): (b: Bytes)
    ensures |b| == 4 * (a + p + s)
  {
    CellsOf(r.childBase, a) + CellsOf(r.parentBase, p) + CellsOf(r.size, s)
  }

  function AllRangeBytes(rs: seq<Range>, a: u32, p: u32, s: u32): Bytes {
    if rs == [] then [] else RangeBytes(rs[0], a, p, s) + AllRangeBytes(rs[1..], a, p, s)
  }

  lemma {:induction false} RegroupThree(head: Bytes, c: Bytes, q: Bytes, z: Bytes, rest: Bytes)
    ensures head + (c + q + z) + rest == head + c + (q + z + rest) == head + c + q + (z + rest) ==
      head + c + q + z + rest
  {
  }

  lemma {:induction false} ReadWrittenRange(value: Bytes, head: Bytes, r: Range, rest: Bytes, a: u32, p: u32, s: u32,
        pos: nat, bytes: nat)
    requires Sliceable(a, p, s) && bytes == 4 * EntryCells(a, p, s) && FitsRange(r, a, p, s)
    requires value == head + RangeBytes(r, a, p, s) + rest && pos == |head|
    ensures pos + bytes <= |value| && EntryRange(value, pos, bytes, a, p, s) == r
  {
    var c, q, z := CellsOf(r.childBase, a), CellsOf(r.parentBase, p), CellsOf(r.size, s);
    FieldSizes(a, p, s);
    RegroupThree(head, c, q, z, rest);
    var m, e := pos + 4 * a, pos + 4 * ParentEnd(a, p);
    ReadField(value, head, r.childBase, a, q + z + rest, pos, m);
    ReadField(value, head + c, r.parentBase, p, z + rest, m, e);
    ReadField(value, head + c + q, r.size, s, rest, e, pos + bytes);
  }

  predicate FitAll(rs: seq<Range>, a: u32, p: u32, s: u32) {
    forall k :: 0 <= k < |rs| ==> FitsRange(rs[k], a, p, s)
  }

  function FirstFour(rs: seq<Range>): seq<Range> { rs[..Min(MAX_RANGES, |rs|)] }

  lemma {:induction false} EntriesEnd(value: Bytes, pos: nat, bytes: nat, rs: seq<Range>, a: u32, p: u32, s: u32,
        done: seq<Range>)
    requires 0 < bytes == 4 * EntryCells(a, p, s) && |done| <= MAX_RANGES
    requires (rs == [] && pos == |value|) || |done| == MAX_RANGES
    ensures Entries(value, pos, bytes, a, p, s, done) == Some(FirstFour(done + rs))
  {
    assert FirstFour(done + rs) == done;
  }

  lemma {:induction false} MovedOver(done: seq<Range>, rs: seq<Range>)
    requires rs != []
    ensures done + [rs[0]] + rs[1..] == done + rs
  {
  }

  lemma {:induction false} EntriesRoundTrip(value: Bytes, head: Bytes, rs: seq<Range>, a: u32, p: u32, s: u32,
        done: seq<Range>, all: seq<Range>, pos: nat, bytes: nat)
    requires Sliceable(a, p, s) && 0 < bytes == 4 * EntryCells(a, p, s) && FitAll(rs, a, p, s)
    requires value == head + AllRangeBytes(rs, a, p, s) && pos == |head|
    requires all == done + rs && |done| <= MAX_RANGES
    ensures Entries(value, pos, bytes, a, p, s, done) == Some(FirstFour(all))
    decreases |rs|
  {
    if rs == [] || |done| == MAX_RANGES {
      EntriesEnd(value, pos, bytes, rs, a, p, s, done);
    } else {
      FieldSizes(a, p, s);
      EntriesWritten(value, head, rs, a, p, s, pos, bytes);
      MovedOver(done, rs);
      var longer, next := done + [rs[0]], pos + bytes;
      EntriesRoundTrip(value, head + RangeBytes(rs[0], a, p, s), rs[1..], a, p, s, longer, all, next, bytes);
      EntryStep(value, pos, next, bytes, a, p, s, done, longer, rs[0]);
    }
  }

  lemma {:induction false} EntriesWritten(value: Bytes, head: Bytes, rs: seq<Range>, a: u32, p: u32, s: u32, pos: nat,
        bytes: nat)
    requires Sliceable(a, p, s) && bytes == 4 * EntryCells(a, p, s) && FitAll(rs, a, p, s) && rs != []
    requires value == head + AllRangeBytes(rs, a, p, s) && pos == |head|
    ensures value == head + RangeBytes(rs[0], a, p, s) + AllRangeBytes(rs[1..], a, p, s)
    ensures pos + bytes <= |value| && EntryRange(value, pos, bytes, a, p, s) == rs[0]
  {
    var rest := AllRangeBytes(rs[1..], a, p, s);
    assert value == head + RangeBytes(rs[0], a, p, s) + rest;
    ReadWrittenRange(value, head, rs[0], rest, a, p, s, pos, bytes);
  }

  /** Writing windows as cells and reading the property gives the first four of them, each field in its place. */
  lemma {:induction false} RangesRoundTrip(rs: seq<Range>, a: u32, p: u32, s: u32, before: seq<Range>)
    requires 0 < a + p + s < TWO32 && FitAll(rs, a, p, s)
    ensures DecodedRanges(AllRangeBytes(rs, a, p, s), a, p, s, before) == Some(FirstFour(rs))
  {
    SliceableIs(a, p, s);
    FieldSizes(a, p, s);
    EntriesRoundTrip(AllRangeBytes(rs, a, p, s), [], rs, a, p, s, [], rs, 0, 4 * EntryCells(a, p, s));
    assert [] + rs == rs;
  }
}
