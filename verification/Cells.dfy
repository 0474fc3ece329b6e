/** Big-endian cell values in device tree properties (src/mm/dtb.rs; Devicetree Specification, section 2.3.5). */
module Cells {
  import opened Machine
  import opened Fdt
  import opened Layout

  /** The first n cells in a 64-bit accumulator: each cell shifts the value left by 32 bits. */
  function CellsValue(buf: Bytes, n: nat): u64
    requires 4 * n <= |buf|
  {
    if n == 0 then 0 else CellsValue(buf, n - 1) % TWO32 * TWO32 + ReadBe32(buf, 4 * (n - 1))
  }

  /** As many cells as are asked for and present. */
  function CellsRead(buf: Bytes, cells: u32): u64 {
    CellsValue(buf, Min(cells, |buf| / 4))
  }

  method ReadCells(buf: Bytes, cells: u32) returns (value: u64)
    ensures value == CellsRead(buf, cells)
  {
    value := 0;
    var i := 0;
    while i < cells
      invariant i <= Min(cells, |buf| / 4) && value == CellsValue(buf, i)
    {
      var start := i * 4;
      if start + 4 > |buf| {
        break;
      }
      value := value % TWO32 * TWO32 + ReadBe32(buf, start);
      i := i + 1;
    }
  }

  /** The shift and or of the original. */
  lemma {:induction false} ShiftInCell(value: bv64, cell: bv64)
    requires cell < 0x1_0000_0000
    ensures (value << 32) | cell == value % 0x1_0000_0000 * 0x1_0000_0000 + cell
  {
  }

  /** The last two of the cells asked for, or as much of them as the buffer holds. */
  method ReadCellsTrunc(buf: Bytes, cells: u32) returns (value: u64)
    ensures cells <= 2 ==> value == CellsRead(buf, cells)
    ensures cells > 2 ==> value == if 4 * (cells - 2) < |buf| then CellsRead(buf[4 * (cells - 2)..], 2) else 0
    ensures |buf| == 4 * cells ==> value == CellsRead(buf, cells)
  {
    if cells <= 2 {
      value := ReadCells(buf, cells);
      return;
    }
    var start := (cells - 2) * 4;
    if start >= |buf| {
      return 0;
    }
    value := ReadCells(buf[start..], 2);
    if |buf| == 4 * cells {
      LastTwoCells(buf, cells);
    }
  }

  method ReadAddrCells(buf: Bytes, cells: u32) returns (value: u64)
    ensures cells <= 2 ==> value == CellsRead(buf, cells)
    ensures cells > 2 ==> value == if 4 * (cells - 2) < |buf| then CellsRead(buf[4 * (cells - 2)..], 2) else 0
    ensures |buf| == 4 * cells ==> value == CellsRead(buf, cells)
  {
    if cells > 2 {
      value := ReadCellsTrunc(buf, cells);
    } else {
      value := ReadCells(buf, cells);
    }
  }

  /** Reading only the last two cells gives the same value: what is shifted out is what is skipped. */
  lemma {:induction false} LastTwoCells(buf: Bytes, n: nat)
    requires n > 2 && |buf| == 4 * n
    ensures CellsValue(buf[4 * (n - 2)..], 2) == CellsValue(buf, n)
  {
    var high, low := ReadBe32(buf, 4 * (n - 2)), ReadBe32(buf, 4 * (n - 1));
    TwoCells(buf, 4 * (n - 2), high, low);
    LowCell(CellsValue(buf, n - 2), high);
    assert CellsValue(buf, n - 1) == CellsValue(buf, n - 2) % TWO32 * TWO32 + high;
  }

  lemma {:induction false} TwoCells(buf: Bytes, at: nat, high: u32, low: u32)
    requires at + 8 == |buf| && high == ReadBe32(buf, at) && low == ReadBe32(buf, at + 4)
    ensures CellsValue(buf[at..], 2) == high * TWO32 + low
  {
    var tail := buf[at..];
    assert ReadBe32(tail, 0) == high && ReadBe32(tail, 4) == low;
    assert CellsValue(tail, 1) == high;
  }

  lemma {:induction false} LowCell(high: nat, low: u32)
    ensures (high % TWO32 * TWO32 + low) % TWO32 == low
  {
  }

  // ---- What the value means ------------------------------------------------

  /** The number a run of bytes spells, most significant byte first. */
  function BigEndian(b: Bytes): nat {
    if b == [] then 0 else 0x100 * BigEndian(b[..|b| - 1]) + b[|b| - 1]
  }

  lemma {:induction false} BigEndianStep(buf: Bytes, n: nat)
    requires n < |buf|
    ensures BigEndian(buf[..n + 1]) == 0x100 * BigEndian(buf[..n]) + buf[n]
  {
    assert buf[..n + 1][..n] == buf[..n];
  }

  lemma {:induction false} BigEndianCell(buf: Bytes, n: nat, next: nat)
    requires next == n + 4 <= |buf|
    ensures BigEndian(buf[..next]) == TWO32 * BigEndian(buf[..n]) + ReadBe32(buf, n)
  {
    BigEndianStep(buf, n);
    BigEndianStep(buf, n + 1);
    BigEndianStep(buf, n + 2);
    BigEndianStep(buf, n + 3);
  }

  /** The cells are read as one big-endian number, modulo 2^64. */
  lemma {:induction false} CellsAreBigEndian(buf: Bytes, n: nat)
    requires 4 * n <= |buf|
    ensures CellsValue(buf, n) == BigEndian(buf[..4 * n]) % TWO64
  {
    if n > 0 {
      CellsAreBigEndian(buf, n - 1);
      BigEndianCell(buf, 4 * (n - 1), 4 * n);
      ShiftModulo(BigEndian(buf[..4 * (n - 1)]), ReadBe32(buf, 4 * (n - 1)));
    }
  }

  lemma {:induction false} ShiftModulo(x: nat, w: u32)
    ensures x % TWO64 % TWO32 * TWO32 + w == (TWO32 * x + w) % TWO64
  {
    var q, r := x / TWO64, x % TWO64;
    var h, t := r / TWO32, r % TWO32;
    assert x == TWO32 * (TWO32 * q + h) + t;
    DivMod(TWO32 * x + w, TWO64, TWO32 * q + h, TWO32 * t + w);
  }

  // ---- Writing cells -------------------------------------------------------

  /** A value as n cells. */
  function CellsOf(v: nat, n: nat): (r: Bytes)
    ensures |r| == 4 * n
  {
    if n == 0 then [] else CellsOf(v / TWO32, n - 1) + Be32(v % TWO32)
  }

  /** The value needs no more than n cells. */
  predicate FitsCells(v: u64, n: nat) {
    if n == 0 then v == 0 else n == 1 ==> v < TWO32
  }

  lemma {:induction false} ReadLastCell(head: Bytes, w: u32)
    ensures ReadBe32(head + Be32(w), |head|) == w
  {
    var b := head + Be32(w);
    assert b[|head|] == Be32(w)[0] && b[|head| + 1] == Be32(w)[1] && b[|head| + 2] == Be32(w)[2] &&
      b[|head| + 3] == Be32(w)[3];
    Be32RoundTrip(w);
  }

  lemma {:induction false} CellsValueOfPrefix(a: Bytes, b: Bytes, n: nat)
    requires 4 * n <= |a|
    ensures CellsValue(a + b, n) == CellsValue(a, n)
  {
    if n > 0 {
      CellsValueOfPrefix(a, b, n - 1);
    }
  }

  /** Reading back a value from as many cells as it needs gives the value. */
  lemma {:induction false} CellsRoundTrip(v: u64, n: nat)
    requires FitsCells(v, n)
    ensures CellsValue(CellsOf(v, n), n) == v
  {
    if n > 0 {
      var high, low := v / TWO32, v % TWO32;
      HighAndLow(v, n);
      CellsRoundTrip(high, n - 1);
      CellsValueOfPrefix(CellsOf(high, n - 1), Be32(low), n - 1);
      ReadLastCell(CellsOf(high, n - 1), low);
    }
  }

  lemma {:induction false} HighAndLow(v: u64, n: nat)
    requires FitsCells(v, n) && n > 0
    ensures v / TWO32 % TWO32 * TWO32 + v % TWO32 == v && FitsCells(v / TWO32, n - 1)
  {
  }

  /** Cells written somewhere in a buffer read back as the value. */
  lemma {:induction false} ReadField(value: Bytes, head: Bytes, v: u64, n: u32, rest: Bytes, from: nat, to: nat)
    requires FitsCells(v, n) && value == head + CellsOf(v, n) + rest
    requires from == |head| && to == from + 4 * n
    ensures to <= |value| && CellsRead(value[from..to], n) == v
  {
    assert value[from..to] == CellsOf(v, n);
    CellsRoundTrip(v, n);
  }
}
