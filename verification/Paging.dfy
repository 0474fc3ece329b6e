/** The table builder (src/mm/paging.rs). */
module Paging {
  import opened Machine
  import opened Layout
  import opened Descriptors
  import opened PagingModel

  /** Block v + k * 2 MiB of the descriptors after a range has been mapped from block number v on. */
  function RangeEntry(before: u64, v: nat, p: u64, n: nat, attrs: Attrs, b: nat): u64 {
    if v <= b < v + n then BlockDesc((p + BLOCK_SIZE * (b - v)) % TWO64, attrs) else before
  }

  /** The first n blocks from v on hold block descriptors for consecutive addresses from p; the others are as before. */
  ghost predicate RangeMapped(t: Tree, t': Tree, v: nat, p: u64, n: nat, attrs: Attrs)
    requires Placed(t) && Placed(t')
  {
    forall b :: 0 <= b < BLOCKS ==> Entry(t', b) == RangeEntry(Entry(t, b), v, p, n, attrs, b)
  }

  /** The blocks a range touches: it is rounded outwards to 2 MiB. */
  function BlockCount(vstart: nat, size: nat): nat
  {
    if size == 0 then 0 else (vstart + size + (BLOCK_SIZE - 1)) / BLOCK_SIZE - vstart / BLOCK_SIZE
  }

  class PageTables {
    var l0: array<u64>
    var l1: array<u64>
    var pool: array<u64>
    var nextL2: nat

    /** Where the linker placed the three tables, as kernel addresses. */
    const l0Va: u64
    const l1Va: u64
    const poolVa: u64

    ghost predicate Valid()
      reads this, l0, l1, pool
    {
      l0 != l1 && l0 != pool && l1 != pool && poolVa + POOL_BYTES <= TWO64 && Placed(View())
    }

    ghost function View(): Tree
      reads this, l0, l1, pool
    {
      Tree(VirtToPhys(l0Va), VirtToPhys(l1Va), VirtToPhys(poolVa), l0[..], l1[..], pool[..], nextL2)
    }

    /** The three tables of the image, anything in them. */
    constructor (l0Va: u64, l1Va: u64, poolVa: u64)
      requires l0Va % PAGE_SIZE == 0 && l1Va % PAGE_SIZE == 0 && poolVa % PAGE_SIZE == 0
      requires VirtToPhys(l0Va) + TABLE_BYTES <= PA_LIMIT && VirtToPhys(l1Va) + TABLE_BYTES <= PA_LIMIT
      requires poolVa + POOL_BYTES <= TWO64 && VirtToPhys(poolVa) + POOL_BYTES <= PA_LIMIT
      requires Apart(VirtToPhys(l0Va), TABLE_BYTES, VirtToPhys(l1Va), TABLE_BYTES)
      requires Apart(VirtToPhys(l0Va), TABLE_BYTES, VirtToPhys(poolVa), POOL_BYTES)
      requires Apart(VirtToPhys(l1Va), TABLE_BYTES, VirtToPhys(poolVa), POOL_BYTES)
      ensures Valid() && fresh(l0) && fresh(l1) && fresh(pool)
    {
      this.l0Va, this.l1Va, this.poolVa := l0Va, l1Va, poolVa;
      l0, l1, pool := new u64[ENTRIES], new u64[ENTRIES], new u64[L2_TABLES * ENTRIES];
      nextL2 := 0;
    }

    /** Clears the tree and links the level-1 table under one level-0 entry; the pool is left as it is. */
    method Reset(slot: nat)
      requires Valid() && slot < ENTRIES
      modifies this`nextL2, l0, l1
      ensures Valid() && WellFormed(View(), slot)
      ensures forall b :: 0 <= b < BLOCKS ==> Entry(View(), b) == 0
    {
      for k := 0 to ENTRIES
        invariant forall x :: 0 <= x < k ==> l0[x] == 0 && l1[x] == 0
      {
        l0[k], l1[k] := 0, 0;
      }
      nextL2 := 0;
      l0[slot] := TableDesc(VirtToPhys(l1Va));
      FilledZero(l1[..]);
    }

    /** The level-2 table of an entry, taken from the pool when the entry is empty. */
    method GetL2Table(ghost slot: nat, l1Idx: nat) returns (table: nat)
      requires Valid() && WellFormed(View(), slot) && l1Idx < ENTRIES
      modifies this`nextL2, l1, pool
      ensures Valid() && WellFormed(View(), slot)
      ensures IsTable(l1[l1Idx]) && table == Owner(View(), l1Idx) && table < nextL2
      ensures SameEntries(old(View()), View())
    {
      ghost var before := View();
      if l1[l1Idx] % 4 == DESC_TABLE {
        OwnerAddress(before, slot, l1Idx);
        var pa := PageField(l1[l1Idx]);
        var va := PhysToVirt(pa);
        RebuiltPointer(poolVa, Owner(before, l1Idx));
        table := (va - poolVa) / TABLE_BYTES;
        return;
      }
      PoolSuffices(before, slot, l1Idx);
      table := TakeTable(slot, l1Idx);
    }

    /** The pool runs out never: the idle loop of the original on that branch cannot be reached. */
    method TakeTable(ghost slot: nat, l1Idx: nat) returns (table: nat)
      requires Valid() && WellFormed(View(), slot) && l1Idx < ENTRIES && !IsTable(l1[l1Idx]) && nextL2 < ENTRIES
      modifies this`nextL2, l1, pool
      ensures Valid() && View() == WithTable(old(View()), l1Idx) && WellFormed(View(), slot)
      ensures IsTable(l1[l1Idx]) && table == old(nextL2) == Owner(View(), l1Idx)
      ensures SameEntries(old(View()), View())
    {
      var idx := nextL2;
      if idx >= L2_TABLES {
        assert false;
      }
      WithTableKeeps(View(), slot, l1Idx);
      NewLink(VirtToPhys(poolVa), idx);
      nextL2 := nextL2 + 1;
      ZeroTable(idx);
      l1[l1Idx] := TableDesc(VirtToPhys(poolVa) + TABLE_BYTES * idx);
      table := idx;
    }

    method ZeroTable(k: nat)
      requires Valid() && k < L2_TABLES
      modifies pool
      ensures Valid() && pool[..] == Zeroed(old(pool[..]), k)
    {
      for x := k * ENTRIES to (k + 1) * ENTRIES
        invariant forall y :: 0 <= y < pool.Length ==> pool[y] == if k * ENTRIES <= y < x then 0 else old(pool[y])
      {
        pool[x] := 0;
      }
    }

    /** Maps one block: its descriptor changes, every other stays. */
    method MapBlock(ghost slot: nat, vaddr: u64, paddr: u64, attrs: Attrs)
      requires Valid() && WellFormed(View(), slot)
      modifies this`nextL2, l1, pool
      ensures Valid() && WellFormed(View(), slot)
      ensures OneChanged(old(View()), View(), vaddr / BLOCK_SIZE % BLOCKS, BlockDesc(paddr, attrs))
    {
      var l1Idx := vaddr / (BLOCK_SIZE * ENTRIES) % ENTRIES;
      var l2Idx := vaddr / BLOCK_SIZE % ENTRIES;
      ghost var b := vaddr / BLOCK_SIZE % BLOCKS;
      Indices(vaddr);
      var table := GetL2Table(slot, l1Idx);
      ghost var mid := View();
      var desc := BlockDesc(paddr, attrs);
      BlockDescAddress(paddr, attrs);
      WithBlockSets(mid, slot, b, desc);
      pool[table * ENTRIES + l2Idx] := desc;
      assert View() == WithBlock(mid, b, desc);
    }

    /** The mapping loop, from a block boundary on. */
    method MapBlocks(ghost slot: nat, vstart: u64, pstart: u64, end: u64, attrs: Attrs, ghost v: nat, ghost n: nat)
      requires Valid() && WellFormed(View(), slot) && Cursor(v, pstart, n, 0, vstart, pstart, end)
      modifies this`nextL2, l1, pool
      ensures Valid() && WellFormed(View(), slot)
      ensures RangeMapped(old(View()), View(), v % BLOCKS, pstart, n, attrs)
    {
      var vaddr, paddr := vstart, pstart;
      ghost var k := 0;
      while vaddr < end
        invariant Cursor(v, pstart, n, k, vaddr, paddr, end)
        invariant Valid() && WellFormed(View(), slot)
        invariant RangeMapped(old(View()), View(), v % BLOCKS, pstart, k, attrs)
        decreases end - vaddr
      {
        ghost var t := View();
        MapBlock(slot, vaddr, paddr, attrs);
        CursorStep(v, pstart, n, k, vaddr, paddr, end);
        OneMore(old(View()), t, View(), v % BLOCKS, pstart, k, attrs);
        vaddr := vaddr + BLOCK_SIZE;
        paddr := (paddr + BLOCK_SIZE) % TWO64;
        k := k + 1;
      }
    }

    /** Maps a range, rounded outwards to blocks. */
    method MapRange(ghost slot: nat, vstart: u64, pstart: u64, size: u64, attrs: Attrs)
      requires Valid() && WellFormed(View(), slot) && InSlot(vstart, size)
      modifies this`nextL2, l1, pool
      ensures Valid() && WellFormed(View(), slot)
      ensures RangeMapped(old(View()), View(), vstart / BLOCK_SIZE % BLOCKS, AlignDown(pstart, BLOCK_SIZE),
                BlockCount(vstart, size), attrs)
    {
      if size == 0 {
        return;
      }
      CursorStart(vstart, pstart, size);
      MapBlocks(slot, AlignDown(vstart, BLOCK_SIZE), AlignDown(pstart, BLOCK_SIZE),
        AlignUp((vstart + size) % TWO64, BLOCK_SIZE), attrs, vstart / BLOCK_SIZE, BlockCount(vstart, size));
    }
  }

  /** The range stays below one level-0 entry and away from the top of the address space. */
  predicate InSlot(vstart: u64, size: u64) {
    vstart % SLOT_SIZE + size <= SLOT_SIZE && vstart + size <= TWO64 - SLOT_SIZE
  }

  /** Where the mapping loop is after k of n blocks, from block number v and address p. */
  predicate Cursor(v: nat, p: u64, n: nat, k: nat, vaddr: int, paddr: int, end: int) {
    && k <= n && vaddr == BLOCK_SIZE * (v + k) && end == BLOCK_SIZE * (v + n) < TWO64
    && paddr == (p + BLOCK_SIZE * k) % TWO64 && v % BLOCKS + n <= BLOCKS
  }

  lemma {:induction false} CursorStep(v: nat, p: u64, n: nat, k: nat, vaddr: u64, paddr: u64, end: u64)
    requires Cursor(v, p, n, k, vaddr, paddr, end) && vaddr < end
    ensures vaddr / BLOCK_SIZE % BLOCKS == v % BLOCKS + k
    ensures Cursor(v, p, n, k + 1, vaddr + BLOCK_SIZE, (paddr + BLOCK_SIZE) % TWO64, end)
  {
    BlockNumber(v, k, n);
    WrapStep(p, k);
  }

  lemma {:induction false} FilledZero(l1: seq<u64>)
    requires forall i :: 0 <= i < |l1| ==> l1[i] == 0
    ensures Filled(l1) == 0
  {
    if l1 != [] {
      FilledZero(l1[..|l1| - 1]);
    }
  }

  /** The pointer rebuilt from a descriptor is that of the pool table stored there. */
  lemma {:induction false} RebuiltPointer(poolVa: u64, o: nat)
    requires poolVa + POOL_BYTES <= TWO64 && VirtToPhys(poolVa) + POOL_BYTES <= PA_LIMIT && o < L2_TABLES
    ensures PhysToVirt(VirtToPhys(poolVa) + TABLE_BYTES * o) == poolVa + TABLE_BYTES * o
  {
  }

  /**
   Distinct level-1 entries lead to distinct pool tables, as many as are in
   use: never more than 512, so a pool of 1024 cannot run out.
  */
  lemma {:induction false} PoolSuffices(t: Tree, slot: nat, i: nat)
    requires WellFormed(t, slot) && i < ENTRIES && !IsTable(t.l1[i])
    ensures t.next < ENTRIES
  {
    FilledBound(t.l1);
  }

  lemma {:induction false} CursorStart(vstart: u64, pstart: u64, size: u64)
    requires 0 < size && InSlot(vstart, size)
    ensures var p, n := AlignDown(pstart, BLOCK_SIZE), BlockCount(vstart, size);
      && n >= 0
      && Cursor(vstart / BLOCK_SIZE, p, n, 0, AlignDown(vstart, BLOCK_SIZE), p,
        AlignUp((vstart + size) % TWO64, BLOCK_SIZE))
  {
    RangeFits(vstart, size);
    Floor(vstart);
    RoundedEnd(vstart + size);
    WrapStep(AlignDown(pstart, BLOCK_SIZE), 0);
  }

  lemma {:induction false} RoundedEnd(e: nat)
    requires e <= TWO64 - SLOT_SIZE
    ensures AlignUp(e % TWO64, BLOCK_SIZE) == BLOCK_SIZE * ((e + (BLOCK_SIZE - 1)) / BLOCK_SIZE) < TWO64
  {
    Floor(e + (BLOCK_SIZE - 1));
  }

  lemma {:induction false} RangeFits(vstart: u64, size: u64)
    requires 0 < size && InSlot(vstart, size)
    ensures BlockCount(vstart, size) >= 0 && vstart / BLOCK_SIZE % BLOCKS + BlockCount(vstart, size) <= BLOCKS
  {
    var q, w := vstart / SLOT_SIZE, vstart % SLOT_SIZE;
    assert vstart == SLOT_SIZE * q + w;
    DivMod(vstart / BLOCK_SIZE, BLOCKS, q, w / BLOCK_SIZE);
    LastBlock(q, w + size);
  }

  lemma {:induction false} LastBlock(q: nat, e: nat)
    requires e <= SLOT_SIZE
    ensures (SLOT_SIZE * q + e + (BLOCK_SIZE - 1)) / BLOCK_SIZE <= BLOCKS * q + BLOCKS
  {
  }

  lemma {:induction false} WrapStep(p: u64, k: nat)
    ensures (p + BLOCK_SIZE * 0) % TWO64 == p
    ensures ((p + BLOCK_SIZE * k) % TWO64 + BLOCK_SIZE) % TWO64 == (p + BLOCK_SIZE * (k + 1)) % TWO64
  {
    var w := p + BLOCK_SIZE * k;
    var q, r := w / TWO64, w % TWO64;
    assert w == TWO64 * q + r;
    if r + BLOCK_SIZE < TWO64 {
      DivMod(w + BLOCK_SIZE, TWO64, q, r + BLOCK_SIZE);
    } else {
      DivMod(w + BLOCK_SIZE, TWO64, q + 1, r + BLOCK_SIZE - TWO64);
    }
  }

  lemma {:induction false} Floor(x: nat)
    ensures x - x % BLOCK_SIZE == BLOCK_SIZE * (x / BLOCK_SIZE)
  {
  }

  lemma {:induction false} BlockNumber(v: nat, k: nat, n: nat)
    requires k < n && v % BLOCKS + n <= BLOCKS
    ensures (BLOCK_SIZE * (v + k)) / BLOCK_SIZE % BLOCKS == v % BLOCKS + k
  {
  }

  lemma {:induction false} OneMore(t: Tree, t': Tree, t'': Tree, v: nat, p: u64, k: nat, attrs: Attrs)
    requires Placed(t) && Placed(t') && Placed(t'')
    requires RangeMapped(t, t', v, p, k, attrs)
    requires OneChanged(t', t'', v + k, BlockDesc((p + BLOCK_SIZE * k) % TWO64, attrs))
    ensures RangeMapped(t, t'', v, p, k + 1, attrs)
  {
  }

  // ---- What mapping calls mean to the hardware ------------------------------

  /**
   The pool is sound in every tree built by these calls: filled level-1
   entries refer to distinct pool tables, the pointer rebuilt from each is
   where that table is, and exactly the first next tables are in use.
  */
  lemma {:induction false} PoolSound(tables: PageTables, slot: nat, i: nat, j: nat)
    requires tables.Valid() && WellFormed(tables.View(), slot) && i < j < ENTRIES
    requires IsTable(tables.l1[i]) && IsTable(tables.l1[j])
    ensures var t := tables.View();
      && PageField(t.l1[i]) != PageField(t.l1[j])
      && 0 <= Owner(t, i) < t.next && PhysToVirt(PageField(t.l1[i])) == tables.poolVa + TABLE_BYTES * Owner(t, i)
      && t.next == Filled(t.l1) <= ENTRIES
  {
    var t := tables.View();
    OwnerAddress(t, slot, i);
    OwnerAddress(t, slot, j);
    RebuiltPointer(tables.poolVa, Owner(t, i));
    FilledBound(t.l1);
    assert TableIndex(t.poolPa, t.l1[i]) != TableIndex(t.poolPa, t.l1[j]);
  }

  /** The descriptor of a mapped block, read back by the hardware. */
  lemma {:induction false} BlockTranslates(pa: u64, attrs: Attrs, va: u64)
    requires pa % BLOCK_SIZE == 0 && pa < PA_LIMIT
    ensures LeafAt(BlockDesc(pa, attrs), va) == Mapped(pa + va % BLOCK_SIZE, attrs)
  {
    BlockDescAddress(pa, attrs);
    BlockDescAttrs(pa, attrs);
  }

  /**
   After a range has been mapped, the walk of an address in its blocks gives
   the rounded physical start plus the distance, with the attributes asked
   for; the walk of every other address below the same level-0 entry is as before.
  */
  lemma {:induction false} WalkAfterRange(t: Tree, t': Tree, slot: nat, v: nat, p: u64, n: nat, attrs: Attrs, va: u64)
    requires WellFormed(t, slot) && WellFormed(t', slot) && RangeMapped(t, t', v, p, n, attrs)
    requires p % BLOCK_SIZE == 0 && p + BLOCK_SIZE * n <= PA_LIMIT && va / SLOT_SIZE % ENTRIES == slot
    ensures var b := va / BLOCK_SIZE % BLOCKS;
      Walk(t', t'.l0Pa, 0, va) ==
        if v <= b < v + n then Mapped(p + BLOCK_SIZE * (b - v) + va % BLOCK_SIZE, attrs) else Walk(t, t.l0Pa, 0, va)
  {
    var b := va / BLOCK_SIZE % BLOCKS;
    if v <= b < v + n {
      WalkMapped(t', slot, va, p, b - v, n, attrs);
    } else {
      WalkSame(t, t', slot, va);
    }
  }

  lemma {:induction false} WalkMapped(t: Tree, slot: nat, va: u64, p: u64, k: nat, n: nat, attrs: Attrs)
    requires WellFormed(t, slot) && va / SLOT_SIZE % ENTRIES == slot
    requires Entry(t, va / BLOCK_SIZE % BLOCKS) == BlockDesc((p + BLOCK_SIZE * k) % TWO64, attrs)
    requires p % BLOCK_SIZE == 0 && p + BLOCK_SIZE * n <= PA_LIMIT && k < n
    ensures Walk(t, t.l0Pa, 0, va) == Mapped(p + BLOCK_SIZE * k + va % BLOCK_SIZE, attrs)
  {
    WalkReadsEntry(t, slot, va);
    RangeLeaf(p, k, n, attrs, va);
  }

  lemma {:induction false} WalkSame(t: Tree, t': Tree, slot: nat, va: u64)
    requires WellFormed(t, slot) && WellFormed(t', slot) && va / SLOT_SIZE % ENTRIES == slot
    requires Entry(t', va / BLOCK_SIZE % BLOCKS) == Entry(t, va / BLOCK_SIZE % BLOCKS)
    ensures Walk(t', t'.l0Pa, 0, va) == Walk(t, t.l0Pa, 0, va)
  {
    WalkReadsEntry(t, slot, va);
    WalkReadsEntry(t', slot, va);
  }

  lemma {:induction false} RangeLeaf(p: u64, k: nat, n: nat, attrs: Attrs, va: u64)
    requires p % BLOCK_SIZE == 0 && p + BLOCK_SIZE * n <= PA_LIMIT && k < n
    ensures LeafAt(BlockDesc((p + BLOCK_SIZE * k) % TWO64, attrs), va) ==
      Mapped(p + BLOCK_SIZE * k + va % BLOCK_SIZE, attrs)
  {
    BlockInRange(p, k, n);
    BlockTranslates(p + BLOCK_SIZE * k, attrs, va);
  }

  lemma {:induction false} BlockInRange(p: u64, k: nat, n: nat)
    requires p % BLOCK_SIZE == 0 && p + BLOCK_SIZE * n <= PA_LIMIT && k < n
    ensures p + BLOCK_SIZE * k < PA_LIMIT && (p + BLOCK_SIZE * k) % TWO64 == p + BLOCK_SIZE * k
    ensures (p + BLOCK_SIZE * k) % BLOCK_SIZE == 0
  {
    DivMod(p + BLOCK_SIZE * k, BLOCK_SIZE, p / BLOCK_SIZE + k, 0);
  }

  /**
   An address o bytes into the range lands o bytes after the physical start,
   shifted by the difference of the two starts within a block: range mapping
   preserves offsets exactly when the starts are congruent modulo 2 MiB.
  */
  lemma {:induction false} OffsetsPreserved(t: Tree, t': Tree, slot: nat, vstart: u64, pstart: u64, size: u64,
        attrs: Attrs, o: nat)
    requires WellFormed(t, slot) && WellFormed(t', slot) && InSlot(vstart, size) && vstart / SLOT_SIZE % ENTRIES == slot
    requires RangeMapped(t, t', vstart / BLOCK_SIZE % BLOCKS, AlignDown(pstart, BLOCK_SIZE), BlockCount(vstart, size),
      attrs)
    requires pstart + size + 2 * BLOCK_SIZE <= PA_LIMIT && o < size
    ensures Walk(t', t'.l0Pa, 0, vstart + o) == Mapped(pstart + o + vstart % BLOCK_SIZE - pstart % BLOCK_SIZE, attrs)
    ensures Walk(t', t'.l0Pa, 0, vstart + o) == Mapped(pstart + o, attrs) <==>
      vstart % BLOCK_SIZE == pstart % BLOCK_SIZE
  {
    var p, n, va := AlignDown(pstart, BLOCK_SIZE), BlockCount(vstart, size), vstart + o;
    RangeFits(vstart, size);
    RangeBytes(vstart, pstart, size);
    AlignDownIs(pstart, BLOCK_SIZE);
    OffsetBlock(vstart, size, o, slot);
    WalkAfterRange(t, t', slot, vstart / BLOCK_SIZE % BLOCKS, p, n, attrs, va);
  }

  lemma {:induction false} RangeBytes(vstart: u64, pstart: u64, size: u64)
    requires 0 < size
    ensures BlockCount(vstart, size) >= 0
    ensures AlignDown(pstart, BLOCK_SIZE) + BLOCK_SIZE * BlockCount(vstart, size) <= pstart + size + 2 * BLOCK_SIZE
  {
  }

  lemma {:induction false} OffsetBlock(vstart: u64, size: u64, o: nat, slot: nat)
    requires InSlot(vstart, size) && o < size && vstart / SLOT_SIZE % ENTRIES == slot
    ensures var va, v := vstart + o, vstart / BLOCK_SIZE % BLOCKS;
      && va < TWO64 && va / SLOT_SIZE % ENTRIES == slot
      && v <= va / BLOCK_SIZE % BLOCKS < v + BlockCount(vstart, size)
      && BLOCK_SIZE * (va / BLOCK_SIZE % BLOCKS - v) + va % BLOCK_SIZE == vstart % BLOCK_SIZE + o
  {
    var q, w := vstart / SLOT_SIZE, vstart % SLOT_SIZE;
    assert vstart == SLOT_SIZE * q + w;
    DivMod(vstart / BLOCK_SIZE, BLOCKS, q, w / BLOCK_SIZE);
    DivMod(vstart + o, SLOT_SIZE, q, w + o);
    DivMod((vstart + o) / BLOCK_SIZE, BLOCKS, q, (w + o) / BLOCK_SIZE);
  }
}
