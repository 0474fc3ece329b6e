/** Address arithmetic (src/mm/layout.rs). */
module Layout {
  import opened Machine

  const PAGE_SIZE: nat := 4096
  const BLOCK_SIZE: nat := 0x20_0000
  const KERNEL_PHYS_BASE: u64 := 0x80000
  const KERNEL_VIRT_BASE: u64 := 0xFFFF_8000_0000_0000
  const PHYS_MAP_BASE: u64 := KERNEL_VIRT_BASE

  /** Alignments are powers of two: the divisors of 2^64. */
  predicate Alignment(align: nat) {
    0 < align < TWO64 && TWO64 % align == 0
  }

  /** (value + align - 1) & !(align - 1) in wrapping 64-bit arithmetic. */
  function AlignUp(value: u64, align: nat): u64
    requires Alignment(align)
  {
    var sum := (value + (align - 1)) % TWO64;
    sum - sum % align
  }

  /** value & !(align - 1) */
  function AlignDown(value: u64, align: nat): u64
    requires Alignment(align)
  {
    value - value % align
  }

  function PhysToVirt(paddr: u64): u64 { (paddr + PHYS_MAP_BASE) % TWO64 }

  function VirtToPhys(vaddr: u64): u64 { (vaddr + (TWO64 - PHYS_MAP_BASE)) % TWO64 }

  lemma {:induction false} PhysVirtInverse(addr: u64)
    ensures VirtToPhys(PhysToVirt(addr)) == addr && PhysToVirt(VirtToPhys(addr)) == addr
  {
  }

  /** The largest multiple not above the value. */
  lemma {:induction false} AlignDownIs(value: u64, align: nat)
    requires Alignment(align)
    ensures var r := AlignDown(value, align); r % align == 0 && r <= value < r + align
  {
    FloorMod(value, align);
  }

  lemma {:induction false} FloorMod(value: nat, align: nat)
    requires align > 0
    ensures (value - value % align) % align == 0
  {
    var q := value / align;
    assert value - value % align == q * align;
    MulMod(q, align);
  }

  lemma {:induction false} MulMod(q: nat, align: nat)
    requires align > 0
    ensures (q * align) % align == 0
  {
    if q > 0 {
      MulMod(q - 1, align);
      assert q * align == (q - 1) * align + align;
      ModAdd((q - 1) * align, align);
    }
  }

  lemma {:induction false} ModAdd(a: nat, align: nat)
    requires align > 0 && a % align == 0
    ensures (a + align) % align == 0
  {
    var q, q', r' := a / align, (a + align) / align, (a + align) % align;
    assert r' == (q + 1 - q') * align;
    SmallMultiple(q + 1 - q', align);
  }

  lemma {:induction false} SmallMultiple(t: int, d: nat)
    requires 0 <= t * d < d
    ensures t == 0
  {
    assert t >= 1 ==> t * d >= d;
    assert t <= -1 ==> t * d <= 0 - d;
  }

  /** Quotient and remainder are unique. */
  lemma {:induction false} DivMod(d: nat, m: nat, q: nat, r: nat)
    requires m > 0 && d == m * q + r && r < m
    ensures d / m == q && d % m == r
  {
    assert m * (d / m - q) == r - d % m;
    SmallMultiple(if d / m >= q then d / m - q else q - d / m, m);
  }

  lemma {:induction false} MulMonotone(m: nat, a: nat, b: nat)
    requires a <= b
    ensures m * a <= m * b
  {
    assert m * (b - a) >= 0;
  }

  lemma {:induction false} CancelLess(m: nat, q: nat, n: nat)
    requires m * q < m * n
    ensures q < n
  {
    assert m * (n - q) > 0;
  }

  lemma {:induction false} Quotient(w: nat, m: nat, n: nat)
    requires m > 0 && w < m * n
    ensures m * (w / m) <= w && w / m < n
  {
    CancelLess(m, w / m, n);
  }

  /** Below the last partial step of the address space AlignUp is the least multiple not below the value. */
  lemma {:induction false} AlignUpIs(value: u64, align: nat)
    requires Alignment(align) && value + (align - 1) < TWO64
    ensures var r := AlignUp(value, align); r % align == 0 && value <= r < value + align
  {
    FloorMod(value + (align - 1), align);
  }

  /** Above it the sum wraps round and the result is 0. */
  lemma {:induction false} AlignUpWraps(value: u64, align: nat)
    requires Alignment(align) && value + (align - 1) >= TWO64
    ensures AlignUp(value, align) == 0
  {
    var sum := value + (align - 1) - TWO64;
    assert (value + (align - 1)) % TWO64 == sum;
    assert sum % align == sum;
  }

  // ---- The bit formulas of the source --------------------------------------

  /**
   The masks, shifts and or-combinations the kernel writes, and the arithmetic
   used for them in this model, agree on every 64-bit word. Both sides are
   64-bit machine arithmetic.
  */
  lemma {:induction false} MaskIsFloor(x: bv64)
    ensures x & !(0x1000 - 1) == x - x % 0x1000
    ensures x & !(0x20_0000 - 1) == x - x % 0x20_0000
  {
  }

  lemma {:induction false} WordMaskIsFloor(x: bv64)
    ensures x & !(8 - 1) == x - x % 8
  {
  }

  lemma {:induction false} FrameMaskIsFloor(x: bv64)
    ensures x & !0xF == x - x % 16
  {
  }

  lemma {:induction false} TokenMaskIsFloor(x: bv64)
    ensures x & !3 == x - x % 4
  {
  }

  lemma {:induction false} ShiftIsDivision(va: bv64)
    ensures (va >> 39) & 0x1ff == va / 0x80_0000_0000 % 512
    ensures (va >> 30) & 0x1ff == va / 0x4000_0000 % 512
    ensures (va >> 21) & 0x1ff == va / 0x20_0000 % 512
  {
  }

  lemma {:induction false} WrappingBase(x: bv64)
    ensures x - 0xFFFF_8000_0000_0000 == x + 0x8000_0000_0000
  {
  }
}
