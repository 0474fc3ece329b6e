/**
 Translation tables (src/mm/paging.rs): descriptor encoding, the hardware walk
 over the tables (VMSAv8-64 with a 4 KiB granule and 48-bit addresses, Arm
 Architecture Reference Manual DDI 0487, section D8.3) and the table builder.
*/
module Descriptors {
  import opened Machine
  import opened Layout

  const PA_LIMIT: nat := 0x1_0000_0000_0000
  const DESC_BLOCK: nat := 1
  const DESC_TABLE: nat := 3
  const AF_BIT: nat := 0x400
  const XN_BITS: nat := 0x60_0000_0000_0000

  const ATTR_DEVICE: nat := 0
  const ATTR_NORMAL: nat := 1
  const AP_EL1_RW: nat := 0
  const AP_EL0_RW: nat := 1
  const SH_NONE: nat := 0
  const SH_INNER: nat := 3

  type Field2 = n: nat | n < 4
  type Field3 = n: nat | n < 8

  /** Memory attributes of a mapping; xn forbids execution at both exception levels. */
  datatype Attrs = Attrs(attr: Field3, ap: Field2, sh: Field2, xn: bool)

  /** Bits 47 to 12, and bits 47 to 21: the address parts of table and block descriptors. */
  function PageField(w: u64): u64 { w % PA_LIMIT / PAGE_SIZE * PAGE_SIZE }

  function BlockField(w: u64): u64 { w % PA_LIMIT / BLOCK_SIZE * BLOCK_SIZE }

  function TableDesc(pa: u64): u64 { PageField(pa) + DESC_TABLE }

  function BlockDesc(pa: u64, a: Attrs): u64 {
    DESC_BLOCK + 4 * a.attr + 64 * a.ap + 256 * a.sh + AF_BIT + BlockField(pa) + if a.xn then XN_BITS else 0
  }

  predicate IsTable(d: u64) { d % 4 == DESC_TABLE }

  predicate IsBlock(d: u64) { d % 4 == DESC_BLOCK }

  predicate Accessed(d: u64) { d / AF_BIT % 2 == 1 }

  function AttrsOf(d: u64): Attrs {
    Attrs(d / 4 % 8, d / 64 % 4, d / 256 % 4, d / 0x40_0000_0000_0000 % 2 == 1)
  }

  predicate PrivilegedNever(d: u64) { d / 0x20_0000_0000_0000 % 2 == 1 }

  /** Encoding is inverse to the hardware's reading, field by field. */
  lemma {:induction false} TableDescDecodes(pa: u64)
    ensures IsTable(TableDesc(pa))
    ensures pa % PAGE_SIZE == 0 && pa < PA_LIMIT ==> PageField(TableDesc(pa)) == pa
  {
    var d, w := TableDesc(pa), pa % PA_LIMIT;
    var q := w / PAGE_SIZE;
    Quotient(w, PAGE_SIZE, 0x10_0000_0000);
    DivMod(d, 4, 0x400 * q, 3);
    DivMod(d, PAGE_SIZE, q, 3);
    DivMod(d, PA_LIMIT, 0, d);
  }

  lemma {:induction false} BlockDescAddress(pa: u64, a: Attrs)
    ensures var d := BlockDesc(pa, a);
      && IsBlock(d) && Accessed(d)
      && BlockField(d) == BlockField(pa)
      && (pa % BLOCK_SIZE == 0 && pa < PA_LIMIT ==> BlockField(d) == pa)
  {
    var d, low := BlockDesc(pa, a), DESC_BLOCK + 4 * a.attr + 64 * a.ap + 256 * a.sh + AF_BIT;
    BlockDescParts(pa, a);
    LowFlags(d, low, a);
  }

  lemma {:induction false} LowFlags(d: u64, low: nat, a: Attrs)
    requires low == DESC_BLOCK + 4 * a.attr + 64 * a.ap + 256 * a.sh + AF_BIT && d % BLOCK_SIZE == low
    ensures IsBlock(d) && Accessed(d)
  {
    var q := d / BLOCK_SIZE;
    assert d == 0x20_0000 * q + low;
    DivMod(d, 4, 0x8_0000 * q + 256 + 64 * a.sh + 16 * a.ap + a.attr, 1);
    DivMod(d, AF_BIT, 0x800 * q + 1, low - AF_BIT);
    DivMod(d / AF_BIT, 2, 0x400 * q, 1);
  }

  lemma {:induction false} BlockDescAttrs(pa: u64, a: Attrs)
    ensures var d := BlockDesc(pa, a); AttrsOf(d) == a && PrivilegedNever(d) == a.xn
  {
    var d, low := BlockDesc(pa, a), DESC_BLOCK + 4 * a.attr + 64 * a.ap + 256 * a.sh + AF_BIT;
    BlockDescParts(pa, a);
    LowAttrs(d, low, a);
    HighAttrs(d, a.xn);
  }

  lemma {:induction false} LowAttrs(d: u64, low: nat, a: Attrs)
    requires low == DESC_BLOCK + 4 * a.attr + 64 * a.ap + 256 * a.sh + AF_BIT && d % BLOCK_SIZE == low
    ensures d / 4 % 8 == a.attr && d / 64 % 4 == a.ap && d / 256 % 4 == a.sh
  {
    var q := d / BLOCK_SIZE;
    assert d == 0x20_0000 * q + low;
    DivMod(d, 4, 0x8_0000 * q + 256 + 64 * a.sh + 16 * a.ap + a.attr, 1);
    DivMod(d / 4, 8, 0x1_0000 * q + 32 + 8 * a.sh + 2 * a.ap, a.attr);
    DivMod(d, 64, 0x8000 * q + 16 + 4 * a.sh + a.ap, 1 + 4 * a.attr);
    DivMod(d / 64, 4, 0x2000 * q + 4 + a.sh, a.ap);
    DivMod(d, 256, 0x2000 * q + 4 + a.sh, 1 + 4 * a.attr + 64 * a.ap);
    DivMod(d / 256, 4, 0x800 * q + 1, a.sh);
  }

  lemma {:induction false} HighAttrs(d: u64, xn: bool)
    requires d / PA_LIMIT == if xn then 0x60 else 0
    ensures d / 0x40_0000_0000_0000 == d / 0x20_0000_0000_0000 / 2 == if xn then 1 else 0
    ensures d / 0x20_0000_0000_0000 == if xn then 3 else 0
  {
  }

  /** A block descriptor as low attribute bits, a block number and the execute-never bits. */
  lemma {:induction false} BlockDescParts(pa: u64, a: Attrs)
    ensures var d, low := BlockDesc(pa, a), DESC_BLOCK + 4 * a.attr + 64 * a.ap + 256 * a.sh + AF_BIT;
      && d % BLOCK_SIZE == low
      && d % PA_LIMIT == low + BlockField(pa)
      && d / PA_LIMIT == if a.xn then 0x60 else 0
  {
    var d, low := BlockDesc(pa, a), DESC_BLOCK + 4 * a.attr + 64 * a.ap + 256 * a.sh + AF_BIT;
    var q := pa % PA_LIMIT / BLOCK_SIZE;
    Quotient(pa % PA_LIMIT, BLOCK_SIZE, 0x800_0000);
    var x := if a.xn then 0x60 else 0;
    DivMod(d, PA_LIMIT, x, BLOCK_SIZE * q + low);
    DivMod(d, BLOCK_SIZE, 0x800_0000 * x + q, low);
  }

  // ---- The source's bit formulas -------------------------------------------

  function Or(x: bv64, y: bv64): bv64 { x | y }

  function AttrBits(attr: bv64): bv64 { (attr & 7) << 2 }

  function ApBits(ap: bv64): bv64 { (ap & 3) << 6 }

  function ShBits(sh: bv64): bv64 { (sh & 3) << 8 }

  function BlockBits(pa: bv64): bv64 { pa & 0x0000_FFFF_FFE0_0000 }

  function XnBits(xn: bool): bv64 { if xn then (1 << 54) | (1 << 53) else 0 }

  function LowBits(attr: bv64, ap: bv64, sh: bv64): bv64 {
    Or(Or(Or(1, AttrBits(attr)), ApBits(ap)), ShBits(sh))
  }

  function SourceBlockDesc(pa: bv64, attr: bv64, ap: bv64, sh: bv64, xn: bool): bv64 {
    Or(Or(Or(LowBits(attr, ap, sh), 1 << 10), BlockBits(pa)), XnBits(xn))
  }

  lemma {:induction false} FieldsAreProducts(pa: bv64, attr: bv64, ap: bv64, sh: bv64, xn: bool)
    ensures AttrBits(attr) == 4 * (attr % 8) && ApBits(ap) == 64 * (ap % 4) && ShBits(sh) == 256 * (sh % 4)
    ensures BlockBits(pa) == pa % 0x1_0000_0000_0000 / 0x20_0000 * 0x20_0000
    ensures XnBits(xn) == if xn then 0x60_0000_0000_0000 else 0
  {
  }

  /** The ors of the source are the sum that BlockDesc is, with each field cut to its width. */
  lemma {:induction false} SourceBlockDescIsSum(pa: bv64, attr: bv64, ap: bv64, sh: bv64)
    ensures SourceBlockDesc(pa, attr, ap, sh, false) ==
      1 + 4 * (attr % 8) + 64 * (ap % 4) + 256 * (sh % 4) + 0x400 + pa % 0x1_0000_0000_0000 / 0x20_0000 * 0x20_0000
    ensures SourceBlockDesc(pa, attr, ap, sh, true) == SourceBlockDesc(pa, attr, ap, sh, false) + 0x60_0000_0000_0000
  {
  }

  lemma {:induction false} SourceTableDescIsSum(pa: bv64)
    ensures (pa & 0x0000_FFFF_FFFF_F000) | 3 == pa % 0x1_0000_0000_0000 / 0x1000 * 0x1000 + 3
    ensures pa & 3 == pa % 4
  {
  }
}

/** The tables of one tree as a value, and what the hardware makes of them. */
module PagingModel {
  import opened Machine
  import opened Layout
  import opened Descriptors

  const ENTRIES: nat := 512
  const L2_TABLES: nat := 1024
  const TABLE_BYTES: nat := 4096
  const POOL_BYTES: nat := L2_TABLES * TABLE_BYTES

  /** Blocks below one level-0 entry, and the bytes they span. */
  const BLOCKS: nat := ENTRIES * ENTRIES
  const SLOT_SIZE: nat := BLOCKS * BLOCK_SIZE

  /** A level-0 and a level-1 table and the pool of level-2 tables, with their physical addresses. */
  datatype Tree = Tree(l0Pa: u64, l1Pa: u64, poolPa: u64, l0: seq<u64>, l1: seq<u64>, pool: seq<u64>, next: nat)

  /** Where the linker puts the tables: page aligned, below 2^48, apart from each other. */
  predicate Placed(t: Tree) {
    && |t.l0| == |t.l1| == ENTRIES && |t.pool| == L2_TABLES * ENTRIES
    && t.l0Pa % PAGE_SIZE == 0 && t.l1Pa % PAGE_SIZE == 0 && t.poolPa % PAGE_SIZE == 0
    && t.l0Pa + TABLE_BYTES <= PA_LIMIT && t.l1Pa + TABLE_BYTES <= PA_LIMIT && t.poolPa + POOL_BYTES <= PA_LIMIT
    && Apart(t.l0Pa, TABLE_BYTES, t.l1Pa, TABLE_BYTES)
    && Apart(t.l0Pa, TABLE_BYTES, t.poolPa, POOL_BYTES)
    && Apart(t.l1Pa, TABLE_BYTES, t.poolPa, POOL_BYTES)
  }

  predicate Apart(p: nat, n: nat, q: nat, m: nat) { p + n <= q || q + m <= p }

  // ---- The hardware --------------------------------------------------------

  datatype Outcome = Fault | Mapped(pa: nat, attrs: Attrs)

  /** The descriptor the hardware reads at a physical address; 0 outside the tables. */
  function ReadWord(t: Tree, pa: nat): u64
    requires Placed(t)
  {
    if t.l0Pa <= pa < t.l0Pa + TABLE_BYTES then t.l0[(pa - t.l0Pa) / 8]
    else if t.l1Pa <= pa < t.l1Pa + TABLE_BYTES then t.l1[(pa - t.l1Pa) / 8]
    else if t.poolPa <= pa < t.poolPa + POOL_BYTES then t.pool[(pa - t.poolPa) / 8]
    else 0
  }

  /** Bytes translated by one entry of a level. */
  function Span(level: nat): nat {
    if level == 0 then SLOT_SIZE else if level == 1 then ENTRIES * BLOCK_SIZE else if level == 2 then BLOCK_SIZE
      else PAGE_SIZE
  }

  /** A block or page descriptor whose access flag is clear faults. */
  function Leaf(d: u64, base: nat, offset: nat): Outcome {
    if Accessed(d) then Mapped(base + offset, AttrsOf(d)) else Fault
  }

  /** The table walk from one level down. */
  function Walk(t: Tree, table: nat, level: nat, va: u64): Outcome
    requires Placed(t)
    decreases 4 - level
  {
    var d := ReadWord(t, table + 8 * (va / Span(level) % ENTRIES));
    if level >= 3 then
      if d % 4 == 3 then Leaf(d, PageField(d), va % PAGE_SIZE) else Fault
    else if IsTable(d) then Walk(t, PageField(d), level + 1, va)
    else if IsBlock(d) && level == 2 then Leaf(d, BlockField(d), va % BLOCK_SIZE)
    else if IsBlock(d) && level == 1 then Leaf(d, d % PA_LIMIT / Span(1) * Span(1), va % Span(1))
    else Fault
  }

  /** TTBR0 translates the lowest 2^48 addresses, TTBR1 the highest. */
  function Translate(user: Tree, kernel: Tree, va: u64): Outcome
    requires Placed(user) && Placed(kernel)
  {
    if va < PA_LIMIT then Walk(user, user.l0Pa, 0, va)
    else if va >= TWO64 - PA_LIMIT then Walk(kernel, kernel.l0Pa, 0, va)
    else Fault
  }

  // ---- The builder's invariant ---------------------------------------------

  /** The pool table a level-1 entry refers to. */
  function TableIndex(poolPa: u64, d: u64): int {
    (PageField(d) - poolPa) / TABLE_BYTES
  }

  function Owner(t: Tree, i: nat): int
    requires i < |t.l1|
  {
    TableIndex(t.poolPa, t.l1[i])
  }

  function Filled(l1: seq<u64>): nat {
    if l1 == [] then 0 else Filled(l1[..|l1| - 1]) + if IsTable(l1[|l1| - 1]) then 1 else 0
  }

  /** A level-1 entry is empty or refers to one of the first n pool tables. */
  predicate LinkOk(d: u64, poolPa: u64, n: nat)
    requires poolPa + POOL_BYTES <= PA_LIMIT && n <= L2_TABLES
  {
    if IsTable(d) then 0 <= TableIndex(poolPa, d) < n && d == TableDesc(poolPa + TABLE_BYTES * TableIndex(poolPa, d))
    else d == 0
  }

  /** No two entries refer to the same table. */
  ghost predicate LinksOk(l1: seq<u64>, poolPa: u64, n: nat)
    requires poolPa + POOL_BYTES <= PA_LIMIT && n <= L2_TABLES
  {
    && (forall i :: 0 <= i < |l1| ==> LinkOk(l1[i], poolPa, n))
    && (forall i, j :: 0 <= i < j < |l1| && IsTable(l1[i]) && IsTable(l1[j]) ==>
          TableIndex(poolPa, l1[i]) != TableIndex(poolPa, l1[j]))
  }

  ghost predicate RootOk(t: Tree, slot: nat)
    requires Placed(t)
  {
    slot < ENTRIES && t.l0[slot] == TableDesc(t.l1Pa) && forall k :: 0 <= k < ENTRIES && k != slot ==> t.l0[k] == 0
  }

  /** The pool tables in use hold blocks, never links to a further level. */
  ghost predicate BlocksOnly(pool: seq<u64>, n: nat) {
    forall x :: 0 <= x < n * ENTRIES && x < |pool| ==> !IsTable(pool[x])
  }

  /** The invariant of every tree under construction; slot is the level-0 entry in use. */
  ghost predicate WellFormed(t: Tree, slot: nat) {
    && Placed(t) && t.next <= L2_TABLES && RootOk(t, slot)
    && LinksOk(t.l1, t.poolPa, t.next) && t.next == Filled(t.l1)
    && BlocksOnly(t.pool, t.next)
  }

  /** The descriptor for block b: what the tables map, as one flat array; 0 where nothing is mapped. */
  function Entry(t: Tree, b: nat): u64
    requires |t.l1| == ENTRIES && |t.pool| == L2_TABLES * ENTRIES && b < BLOCKS
  {
    var i := b / ENTRIES;
    var o := Owner(t, i);
    if IsTable(t.l1[i]) && 0 <= o < L2_TABLES then t.pool[o * ENTRIES + b % ENTRIES] else 0
  }

  // ---- The hardware walk reads the flat array ------------------------------

  function LeafAt(d: u64, va: u64): Outcome {
    if IsBlock(d) then Leaf(d, BlockField(d), va % BLOCK_SIZE) else Fault
  }

  /**
   Walking the tables from the root gives what the descriptor of the
   address's block says, for every address below the filled level-0 entry.
  */
  lemma {:induction false} WalkReadsEntry(t: Tree, slot: nat, va: u64)
    requires WellFormed(t, slot) && va / SLOT_SIZE % ENTRIES == slot
    ensures Walk(t, t.l0Pa, 0, va) == LeafAt(Entry(t, va / BLOCK_SIZE % BLOCKS), va)
  {
    var b := va / BLOCK_SIZE % BLOCKS;
    var i, j := b / ENTRIES, b % ENTRIES;
    Indices(va);
    WalkRoot(t, slot, va);
    WalkLevel1(t, slot, va, i);
    if IsTable(t.l1[i]) {
      WalkLevel2(t, slot, va, i, j);
    }
  }

  lemma {:induction false} Indices(va: u64)
    ensures var b := va / BLOCK_SIZE % BLOCKS;
      va / Span(1) % ENTRIES == b / ENTRIES && va / Span(2) % ENTRIES == b % ENTRIES
  {
    var v := va / BLOCK_SIZE;
    var q, b := v / BLOCKS, v % BLOCKS;
    var i, j := b / ENTRIES, b % ENTRIES;
    assert v == ENTRIES * (ENTRIES * q + i) + j;
    DivMod(v, ENTRIES, ENTRIES * q + i, j);
    DivMod(ENTRIES * q + i, ENTRIES, q, i);
    DivMod(va, Span(1), ENTRIES * q + i, BLOCK_SIZE * j + va % BLOCK_SIZE);
  }

  lemma {:induction false} WalkDown(t: Tree, table: nat, level: nat, va: u64, k: nat, d: u64)
    requires Placed(t) && level < 3 && va / Span(level) % ENTRIES == k && ReadWord(t, table + 8 * k) == d && IsTable(d)
    ensures Walk(t, table, level, va) == Walk(t, PageField(d), level + 1, va)
  {
  }

  lemma {:induction false} WalkStops(t: Tree, table: nat, level: nat, va: u64, k: nat)
    requires Placed(t) && level < 3 && va / Span(level) % ENTRIES == k && ReadWord(t, table + 8 * k) == 0
    ensures Walk(t, table, level, va) == Fault
  {
  }

  lemma {:induction false} WalkLeaf(t: Tree, table: nat, va: u64, k: nat, d: u64)
    requires Placed(t) && va / Span(2) % ENTRIES == k && ReadWord(t, table + 8 * k) == d && !IsTable(d)
    ensures Walk(t, table, 2, va) == LeafAt(d, va)
  {
  }

  lemma {:induction false} WalkRoot(t: Tree, slot: nat, va: u64)
    requires WellFormed(t, slot) && va / SLOT_SIZE % ENTRIES == slot
    ensures Walk(t, t.l0Pa, 0, va) == Walk(t, t.l1Pa, 1, va)
  {
    TableDescDecodes(t.l1Pa);
    RootWord(t, slot);
    WalkDown(t, t.l0Pa, 0, va, slot, t.l0[slot]);
  }

  lemma {:induction false} WalkLevel1(t: Tree, slot: nat, va: u64, i: nat)
    requires WellFormed(t, slot) && va / Span(1) % ENTRIES == i
    ensures Walk(t, t.l1Pa, 1, va) == if IsTable(t.l1[i]) then Walk(t, PageField(t.l1[i]), 2, va) else Fault
  {
    L1Word(t, i);
    if IsTable(t.l1[i]) {
      WalkDown(t, t.l1Pa, 1, va, i, t.l1[i]);
    } else {
      assert LinkOk(t.l1[i], t.poolPa, t.next);
      WalkStops(t, t.l1Pa, 1, va, i);
    }
  }

  lemma {:induction false} L1Word(t: Tree, i: nat)
    requires Placed(t) && i < ENTRIES
    ensures ReadWord(t, t.l1Pa + 8 * i) == t.l1[i]
  {
  }

  lemma {:induction false} PoolWord(t: Tree, o: nat, j: nat)
    requires Placed(t) && o < L2_TABLES && j < ENTRIES
    ensures ReadWord(t, t.poolPa + TABLE_BYTES * o + 8 * j) == t.pool[o * ENTRIES + j]
  {
    var pa := t.poolPa + TABLE_BYTES * o + 8 * j;
    assert (pa - t.poolPa) / 8 == o * ENTRIES + j;
  }

  /** The address in a filled level-1 entry is that of its pool table. */
  lemma {:induction false} OwnerAddress(t: Tree, slot: nat, i: nat)
    requires WellFormed(t, slot) && i < ENTRIES && IsTable(t.l1[i])
    ensures 0 <= Owner(t, i) < t.next && PageField(t.l1[i]) == t.poolPa + TABLE_BYTES * Owner(t, i)
  {
    assert LinkOk(t.l1[i], t.poolPa, t.next);
    LinkAddress(t.poolPa, TableIndex(t.poolPa, t.l1[i]));
  }

  lemma {:induction false} LinkAddress(poolPa: u64, k: nat)
    requires poolPa % PAGE_SIZE == 0 && poolPa + POOL_BYTES <= PA_LIMIT && k < L2_TABLES
    ensures IsTable(TableDesc(poolPa + TABLE_BYTES * k))
    ensures PageField(TableDesc(poolPa + TABLE_BYTES * k)) == poolPa + TABLE_BYTES * k
  {
    TableDescDecodes(poolPa + TABLE_BYTES * k);
  }

  lemma {:induction false} WalkPool(t: Tree, va: u64, o: nat, j: nat)
    requires Placed(t) && o < L2_TABLES && va / Span(2) % ENTRIES == j
    requires o * ENTRIES + j < |t.pool| && !IsTable(t.pool[o * ENTRIES + j])
    ensures Walk(t, t.poolPa + TABLE_BYTES * o, 2, va) == LeafAt(t.pool[o * ENTRIES + j], va)
  {
    PoolWord(t, o, j);
    WalkLeaf(t, t.poolPa + TABLE_BYTES * o, va, j, t.pool[o * ENTRIES + j]);
  }

  lemma {:induction false} WalkLevel2(t: Tree, slot: nat, va: u64, i: nat, j: nat)
    requires WellFormed(t, slot) && i < ENTRIES && IsTable(t.l1[i]) && va / Span(2) % ENTRIES == j
    ensures 0 <= Owner(t, i) < L2_TABLES
    ensures Walk(t, PageField(t.l1[i]), 2, va) == LeafAt(t.pool[Owner(t, i) * ENTRIES + j], va)
  {
    OwnerAddress(t, slot, i);
    InsideTable(Owner(t, i), j);
    WalkPool(t, va, Owner(t, i), j);
  }

  /** Nothing is mapped under the other level-0 entries. */
  lemma {:induction false} WalkElsewhereFaults(t: Tree, slot: nat, va: u64)
    requires WellFormed(t, slot) && va / SLOT_SIZE % ENTRIES != slot
    ensures Walk(t, t.l0Pa, 0, va) == Fault
  {
    RootWord(t, va / SLOT_SIZE % ENTRIES);
    WalkStops(t, t.l0Pa, 0, va, va / SLOT_SIZE % ENTRIES);
  }

  lemma {:induction false} RootWord(t: Tree, k: nat)
    requires Placed(t) && k < ENTRIES
    ensures ReadWord(t, t.l0Pa + 8 * k) == t.l0[k]
  {
  }

  // ---- The builder's steps -------------------------------------------------

  /** Pool table k filled with zeros. */
  function Zeroed(pool: seq<u64>, k: nat): seq<u64> {
    seq(|pool|, x requires 0 <= x < |pool| => if k * ENTRIES <= x < (k + 1) * ENTRIES then 0 else pool[x])
  }

  /** A fresh pool table for an empty level-1 entry. */
  function WithTable(t: Tree, i: nat): Tree
    requires Placed(t) && i < ENTRIES && t.next < L2_TABLES
  {
    t.(l1 := t.l1[i := TableDesc(t.poolPa + TABLE_BYTES * t.next)], pool := Zeroed(t.pool, t.next), next := t.next + 1)
  }

  lemma {:induction false} FilledUpdate(l1: seq<u64>, i: nat, d: u64)
    requires i < |l1| && !IsTable(l1[i]) && IsTable(d)
    ensures Filled(l1[i := d]) == Filled(l1) + 1
  {
    var n := |l1| - 1;
    if i == n {
      assert l1[i := d][..n] == l1[..n];
    } else {
      assert l1[i := d][..n] == l1[..n][i := d];
      FilledUpdate(l1[..n], i, d);
    }
  }

  lemma {:induction false} FilledBound(l1: seq<u64>)
    ensures Filled(l1) <= |l1|
    ensures (exists i :: 0 <= i < |l1| && !IsTable(l1[i])) ==> Filled(l1) < |l1|
  {
    if l1 != [] {
      var n := |l1| - 1;
      FilledBound(l1[..n]);
      if exists i :: 0 <= i < |l1| && !IsTable(l1[i]) {
        var i :| 0 <= i < |l1| && !IsTable(l1[i]);
        assert i < n ==> l1[..n][i] == l1[i];
      }
    }
  }

  lemma {:induction false} NewLink(poolPa: u64, k: nat)
    requires poolPa % PAGE_SIZE == 0 && poolPa + POOL_BYTES <= PA_LIMIT && k < L2_TABLES
    ensures var d := TableDesc(poolPa + TABLE_BYTES * k);
      IsTable(d) && TableIndex(poolPa, d) == k && LinkOk(d, poolPa, k + 1)
  {
    LinkAddress(poolPa, k);
  }

  lemma {:induction false} LinksGrow(l1: seq<u64>, poolPa: u64, n: nat, i: nat, d: u64)
    requires poolPa + POOL_BYTES <= PA_LIMIT && n < L2_TABLES && LinksOk(l1, poolPa, n)
    requires i < |l1| && IsTable(d) && TableIndex(poolPa, d) == n && LinkOk(d, poolPa, n + 1)
    ensures LinksOk(l1[i := d], poolPa, n + 1)
  {
    forall k | 0 <= k < |l1|
      ensures LinkOk(l1[i := d][k], poolPa, n + 1)
      ensures k != i && IsTable(l1[k]) ==> TableIndex(poolPa, l1[k]) < n
    {
      assert LinkOk(l1[k], poolPa, n);
    }
  }

  lemma {:induction false} ZeroedKeepsBlocks(pool: seq<u64>, n: nat)
    requires BlocksOnly(pool, n)
    ensures BlocksOnly(Zeroed(pool, n), n + 1)
  {
  }

  /** Filling a level-1 entry keeps the invariant and maps nothing new. */
  lemma {:induction false} WithTableKeeps(t: Tree, slot: nat, i: nat)
    requires WellFormed(t, slot) && i < ENTRIES && !IsTable(t.l1[i]) && t.next < L2_TABLES
    ensures WellFormed(WithTable(t, i), slot)
    ensures SameEntries(t, WithTable(t, i))
  {
    var d := TableDesc(t.poolPa + TABLE_BYTES * t.next);
    NewLink(t.poolPa, t.next);
    LinksGrow(t.l1, t.poolPa, t.next, i, d);
    FilledUpdate(t.l1, i, d);
    ZeroedKeepsBlocks(t.pool, t.next);
    NewTableIsEmpty(t, slot, i);
  }

  ghost predicate SameEntries(t: Tree, t': Tree)
    requires Placed(t) && Placed(t')
  {
    forall b :: 0 <= b < BLOCKS ==> Entry(t', b) == Entry(t, b)
  }

  lemma {:induction false} NewTableIsEmpty(t: Tree, slot: nat, i: nat)
    requires WellFormed(t, slot) && i < ENTRIES && !IsTable(t.l1[i]) && t.next < L2_TABLES
    ensures SameEntries(t, WithTable(t, i))
  {
    forall b | 0 <= b < BLOCKS
      ensures Entry(WithTable(t, i), b) == Entry(t, b)
    {
      if b / ENTRIES == i {
        NewEntryIsZero(t, i, b);
      } else {
        OldEntryStays(t, slot, i, b);
      }
    }
  }

  lemma {:induction false} NewEntryIsZero(t: Tree, i: nat, b: nat)
    requires Placed(t) && i < ENTRIES && t.next < L2_TABLES && b < BLOCKS && b / ENTRIES == i
    ensures Entry(WithTable(t, i), b) == 0
  {
    NewLink(t.poolPa, t.next);
    InsideTable(t.next, b % ENTRIES);
  }

  lemma {:induction false} OldEntryStays(t: Tree, slot: nat, i: nat, b: nat)
    requires WellFormed(t, slot) && i < ENTRIES && t.next < L2_TABLES && b < BLOCKS && b / ENTRIES != i
    ensures Entry(WithTable(t, i), b) == Entry(t, b)
  {
    var k := b / ENTRIES;
    assert LinkOk(t.l1[k], t.poolPa, t.next);
    if IsTable(t.l1[k]) {
      OutsideTable(Owner(t, k), t.next, b % ENTRIES);
    }
  }

  lemma {:induction false} OutsideTable(o: nat, k: nat, j: nat)
    requires o < k && j < ENTRIES
    ensures o * ENTRIES + j < k * ENTRIES
  {
  }

  lemma {:induction false} InsideTable(k: nat, j: nat)
    requires k < L2_TABLES && j < ENTRIES
    ensures k * ENTRIES <= k * ENTRIES + j < (k + 1) * ENTRIES <= L2_TABLES * ENTRIES
  {
  }

  /** The descriptor for block b replaced in its pool table. */
  function WithBlock(t: Tree, b: nat, d: u64): Tree
    requires Placed(t) && b < BLOCKS && 0 <= Owner(t, b / ENTRIES) < L2_TABLES
  {
    t.(pool := t.pool[Owner(t, b / ENTRIES) * ENTRIES + b % ENTRIES := d])
  }

  /** Writing one block descriptor changes that block's entry and no other. */
  lemma {:induction false} WithBlockSets(t: Tree, slot: nat, b: nat, d: u64)
    requires WellFormed(t, slot) && b < BLOCKS && IsTable(t.l1[b / ENTRIES]) && !IsTable(d)
    ensures 0 <= Owner(t, b / ENTRIES) < t.next
    ensures WellFormed(WithBlock(t, b, d), slot)
    ensures OneChanged(t, WithBlock(t, b, d), b, d)
  {
    OwnerAddress(t, slot, b / ENTRIES);
    forall c | 0 <= c < BLOCKS
      ensures Entry(WithBlock(t, b, d), c) == if c == b then d else Entry(t, c)
    {
      if IsTable(t.l1[c / ENTRIES]) {
        SameBlock(t, slot, b, c);
      }
    }
  }

  ghost predicate OneChanged(t: Tree, t': Tree, b: nat, d: u64)
    requires Placed(t) && Placed(t')
  {
    forall c :: 0 <= c < BLOCKS ==> Entry(t', c) == if c == b then d else Entry(t, c)
  }

  /** Distinct blocks have distinct words in the pool. */
  lemma {:induction false} SameBlock(t: Tree, slot: nat, b: nat, c: nat)
    requires WellFormed(t, slot) && b < BLOCKS && c < BLOCKS
    requires IsTable(t.l1[b / ENTRIES]) && IsTable(t.l1[c / ENTRIES])
    ensures Owner(t, b / ENTRIES) * ENTRIES + b % ENTRIES == Owner(t, c / ENTRIES) * ENTRIES + c % ENTRIES ==> b == c
  {
    var o, o' := Owner(t, b / ENTRIES), Owner(t, c / ENTRIES);
    assert b / ENTRIES != c / ENTRIES ==> o != o';
    if o * ENTRIES + b % ENTRIES == o' * ENTRIES + c % ENTRIES {
      SameWord(o, b % ENTRIES, o', c % ENTRIES);
    }
  }

  lemma {:induction false} SameWord(o: int, j: nat, o': int, j': nat)
    requires j < ENTRIES && j' < ENTRIES && o * ENTRIES + j == o' * ENTRIES + j'
    ensures o == o' && j == j'
  {
  }
}
