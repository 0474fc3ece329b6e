/**
 Whole blobs: a flattened device tree as section 5 of the Devicetree
 Specification lays it out, and what the parser and the search by path make of
 it (src/mm/dtb.rs). The writer here shares no code with the header reader.
*/
module DtbBlob {
  import opened Machine
  import opened Wrappers
  import opened Fdt
  import opened RegionModel
  import opened Boot
  import opened KernelBoot
  import opened DtbLimits
  import R = DtbRegions
  import P = DtbPath
  import S = DtbSearch

  /** Words in big-endian order. */
  function Words(ws: seq<u32>): (r: Bytes)
    ensures |r| == 4 * |ws|
  {
    if ws == [] then [] else Be32(ws[0]) + Words(ws[1..])
  }

  lemma {:induction false} WordAt(ws: seq<u32>, s: Bytes, i: nat, k: nat)
    requires k < |ws| && Holds(s, i, Words(ws))
    ensures i + 4 * k + 4 <= |s| && ReadBe32(s, i + 4 * k) == ws[k]
  {
    HoldsSplit(s, i, Be32(ws[0]), Words(ws[1..]));
    if k == 0 {
      HoldsBe32(s, i, ws[0]);
    } else {
      WordAt(ws[1..], s, i + 4, k - 1);
    }
  }

  /** The fields of a header that do not follow from the tree. */
  datatype Layout = Layout(total: u32, structAt: u32, stringsAt: u32, reserveAt: u32, version: u32, compatible: u32,
    bootCpu: u32)

  /**
   Section 5.2: magic, total size, the three offsets, two versions, the boot
   CPU, the sizes of the strings and of the structure.
  */
  function HeaderWords(l: Layout, stringsSize: u32, structSize: u32): seq<u32> {
    [0xD00D_FEED, l.total, l.structAt, l.stringsAt, l.reserveAt, l.version, l.compatible, l.bootCpu, stringsSize,
      structSize]
  }

  /** The memory begins with a header and holds a tree's structure block and its strings where that says. */
  predicate IsBlob(mem: Bytes, l: Layout, t: Items, trailing: Bytes, strings: Bytes) {
    && WellFormed(t) && |StructBlock(t, trailing)| < TWO32 && |strings| < TWO32
    && Holds(mem, 0, Words(HeaderWords(l, |strings|, |StructBlock(t, trailing)|)))
    && Holds(mem, l.structAt, StructBlock(t, trailing)) && Holds(mem, l.stringsAt, strings)
  }

  lemma {:induction false} HeaderIsRead(mem: Bytes, ws: seq<u32>)
    requires |ws| == 10 && Holds(mem, 0, Words(ws))
    ensures |mem| >= 40 && ReadBe32(mem, 0) == ws[0]
    ensures R.ReadHeader(mem) == R.Header(ws[1], ws[2], ws[3], ws[8], ws[9])
  {
    WordAt(ws, mem, 0, 0);
    WordAt(ws, mem, 0, 1);
    WordAt(ws, mem, 0, 2);
    WordAt(ws, mem, 0, 3);
    WordAt(ws, mem, 0, 8);
    WordAt(ws, mem, 0, 9);
  }

  lemma {:induction false} BlocksAreFound(mem: Bytes, l: Layout, t: Items, trailing: Bytes, strings: Bytes)
    requires IsBlob(mem, l, t, trailing, strings)
    ensures R.Readable(mem) && R.IsFdt(mem) && R.ReadHeader(mem).totalSize == l.total
    ensures R.StructOf(mem) == StructBlock(t, trailing) && R.StringsOf(mem) == strings
  {
    HeaderIsRead(mem, HeaderWords(l, |strings|, |StructBlock(t, trailing)|));
  }

  /**
   A blob of any tree at most 32 levels deep, with its blocks in any order and
   anything around them, is parsed into the regions of that tree, panics
   included, and the size it reports is the one written.
  */
  lemma {:induction false} BlobIsParsed(dtbPa: u64, mem: Bytes, l: Layout, t: Items, trailing: Bytes, strings: Bytes)
    requires IsBlob(mem, l, t, trailing, strings) && Depth(t) <= 32 && dtbPa != 0
    ensures R.Readable(mem) && R.ParsedRegions(dtbPa, mem) == R.Walk(t, strings, false, R.ROOT)
    ensures BlobOf(dtbPa, mem) == Some(Blob(dtbPa, l.total))
  {
    BlocksAreFound(mem, l, t, trailing, strings);
    R.ScanIsWalk(t, trailing, strings);
  }

  /** And a search by path in it is the walk through that tree that compares full paths. */
  lemma {:induction false} BlobIsSearched(mem: Bytes, l: Layout, t: Items, trailing: Bytes, strings: Bytes,
        target: Bytes)
    requires IsBlob(mem, l, t, trailing, strings) && Depth(t) <= 32 && P.PathsFit(t, [])
    ensures R.Readable(mem)
    ensures S.SearchedBlob(mem, target) == match P.FindWalk(t, strings, target, [], [], P.DEFAULTS)
                                           case Found(answer) => answer
                                           case Visited(_, _) => P.Reply(None)
  {
    BlocksAreFound(mem, l, t, trailing, strings);
    P.SearchIsWalk(t, trailing, strings, target);
  }

  // ---- The blob a compiler of device trees writes ---------------------------

  function StandardLayout(structSize: nat, stringsSize: nat): Layout
    requires 56 + structSize + stringsSize < TWO32
  {
    Layout(56 + structSize + stringsSize, 56, 56 + structSize, 40, 17, 16, 0)
  }

  /** Header, an empty memory reservation block, structure, strings. */
  function Written(t: Items, strings: Bytes): Bytes
    requires WellFormed(t) && 56 + |StructBlock(t, [])| + |strings| < TWO32
  {
    var block := StructBlock(t, []);
    Words(HeaderWords(StandardLayout(|block|, |strings|), |strings|, |block|)) + (Zeros(16) + (block + strings))
  }

  lemma {:induction false} PiecesStand(header: Bytes, gap: Bytes, block: Bytes, strings: Bytes, rest: Bytes)
    ensures var mem := header + (gap + (block + strings)) + rest;
      && Holds(mem, 0, header) && Holds(mem, |header| + |gap|, block)
      && Holds(mem, |header| + |gap| + |block|, strings)
  {
    var mem := header + (gap + (block + strings)) + rest;
    assert mem[..|header|] == header;
    assert mem[|header| + |gap|..|header| + |gap| + |block|] == block;
    assert mem[|header| + |gap| + |block|..][..|strings|] == strings;
  }

  lemma {:induction false} WrittenIsBlob(t: Items, strings: Bytes, rest: Bytes)
    requires WellFormed(t) && 56 + |StructBlock(t, [])| + |strings| < TWO32
    ensures IsBlob(Written(t, strings) + rest, StandardLayout(|StructBlock(t, [])|, |strings|), t, [], strings)
  {
    var block := StructBlock(t, []);
    PiecesStand(Words(HeaderWords(StandardLayout(|block|, |strings|), |strings|, |block|)), Zeros(16), block, strings,
      rest);
  }

  /** A tree written as a blob, whatever follows it in memory, is parsed into its regions, with its length as size. */
  lemma {:induction false} WrittenIsParsed(dtbPa: u64, t: Items, strings: Bytes, rest: Bytes)
    requires dtbPa != 0 && WellFormed(t) && Depth(t) <= 32 && 56 + |StructBlock(t, [])| + |strings| < TWO32
    ensures R.Readable(Written(t, strings) + rest)
    ensures R.ParsedRegions(dtbPa, Written(t, strings) + rest) == R.Walk(t, strings, false, R.ROOT)
    ensures BlobOf(dtbPa, Written(t, strings) + rest) == Some(Blob(dtbPa, |Written(t, strings)|))
  {
    WrittenIsBlob(t, strings, rest);
    WrittenLength(t, strings);
    BlobIsParsed(dtbPa, Written(t, strings) + rest, StandardLayout(|StructBlock(t, [])|, |strings|), t, [], strings);
  }

  lemma {:induction false} WrittenLength(t: Items, strings: Bytes)
    requires WellFormed(t) && 56 + |StructBlock(t, [])| + |strings| < TWO32
    ensures |Written(t, strings)| == StandardLayout(|StructBlock(t, [])|, |strings|).total
  {
  }

  /** So any RAM and any reserved memory that is written is offered as just that. */
  lemma {:induction false} WrittenMemoryIsOffered(dtbPa: u64, ram: seq<R.Extent>, taken: seq<R.Extent>, rest: Bytes)
    requires dtbPa != 0 && WellFormed(MemoryTree(ram, taken))
    requires 56 + |StructBlock(MemoryTree(ram, taken), [])| + |Strings()| < TWO32
    ensures var blob := Written(MemoryTree(ram, taken), Strings());
      R.Readable(blob + rest) && R.ParsedRegions(dtbPa, blob + rest) ==
        R.Outcome(R.OffersOf(MEMORY, ram) + R.OffersOf(RESERVED, taken), false)
  {
    var t := MemoryTree(ram, taken);
    assert Depth(t) <= 32;
    WrittenIsParsed(dtbPa, t, Strings(), rest);
    MemoryTreeOffers(ram, taken);
  }
}
