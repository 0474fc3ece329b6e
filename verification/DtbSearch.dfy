/** The search loop of find_reg_by_path and its path buffer (src/mm/dtb.rs). */
module DtbSearch {
  import opened Machine
  import opened Wrappers
  import opened Fdt
  import opened Cells
  import opened BusRanges
  import opened DtbPath
  import R = DtbRegions

  /** The first position from i on that holds a zero or the stop byte; |src| when none does. */
  function EndOf(src: Bytes, stop: Option<byte>, i: nat): (e: nat)
    requires i <= |src|
    ensures i <= e <= |src|
    ensures forall j :: i <= j < e ==> src[j] != 0 && Some(src[j]) != stop
    ensures e < |src| ==> src[e] == 0 || Some(src[e]) == stop
    decreases |src| - i
  {
    if i == |src| || src[i] == 0 || Some(src[i]) == stop then i else EndOf(src, stop, i + 1)
  }

  class SmallBuf {
    const buf: array<byte>
    var len: nat

    ghost predicate Valid()
      reads this
    {
      buf.Length == PATH_BYTES && len <= PATH_BYTES
    }

    ghost function Contents(): Bytes
      requires Valid()
      reads this, buf
    {
      buf[..len]
    }

    constructor ()
      ensures Valid() && Contents() == [] && fresh(buf)
    {
      buf := new byte[PATH_BYTES](_ => 0);
      len := 0;
    }

    /** The text up to its terminator or the stop byte, as far as the buffer holds it. */
    method SetFrom(src: Bytes, stop: Option<byte>)
      requires Valid()
      modifies this, buf
      ensures Valid() && Contents() == src[..Min(EndOf(src, stop, 0), PATH_BYTES)]
    {
      len := 0;
      var i := 0;
      while i < |src|
        invariant i == len <= |src| && Valid() && Contents() == src[..i]
        invariant EndOf(src, stop, i) == EndOf(src, stop, 0)
        decreases |src| - i
      {
        if src[i] == 0 || Some(src[i]) == stop || len >= PATH_BYTES {
          break;
        }
        buf[len] := src[i];
        len := len + 1;
        i := i + 1;
      }
    }

    /** Appends a byte unless the buffer is full. */
    method Push(b: byte)
      requires Valid()
      modifies this, buf
      ensures Valid() && Contents() == if old(len) < PATH_BYTES then old(Contents()) + [b] else old(Contents())
    {
      if len < PATH_BYTES {
        buf[len] := b;
        len := len + 1;
      }
    }

    /** Appends a slash and a name. */
    method PushName(name: Bytes)
      requires Valid()
      modifies this, buf
      ensures Valid() && Contents() == Extended(old(Contents()), name)
    {
      ghost var all := Contents() + [SLASH] + name;
      Push(SLASH);
      var i := 0;
      while i < |name|
        invariant i <= |name| && Valid()
        invariant Contents() == all[..Min(PATH_BYTES, old(len) + 1 + i)]
      {
        if len >= PATH_BYTES {
          break;
        }
        Push(name[i]);
        i := i + 1;
      }
    }

    method Matches(target: Bytes) returns (r: bool)
      requires Valid()
      ensures r == (Contents() == target)
    {
      return len == |target| && buf[..len] == target;
    }
  }

  // ---- One property --------------------------------------------------------

  method FindPhysical(open: seq<RegNode>, path: Bytes, addr: u64) returns (phys: Option<u64>)
    ensures phys == Physical(open, path, addr)
  {
    phys := Translate(addr, open);
    var rp1 := IsRp1Path(path);
    if phys.None? && rp1 {
      phys := Some(Rp1Fixup(addr));
    }
    if phys.None? {
      return None;
    }
    if rp1 && phys.value < TWO32 {
      phys := Some(Rp1Fixup(addr));
    }
  }

  method ReadReg(open: seq<RegNode>, path: Bytes, settings: Settings, value: Bytes) returns (e: Effect)
    ensures e == OnReg(open, path, settings, value)
  {
    var node := Top(open, ROOT_NODE);
    var tuple: nat := (node.addrCells + node.sizeCells) % TWO32;
    if tuple == 0 || |value| < 4 * tuple {
      return Next(node, settings);
    }
    if node.addrCells > tuple {
      return Ends(Crash);
    }
    var addr := ReadAddrCells(value[..4 * node.addrCells], node.addrCells);
    var size := ReadCells(value[4 * node.addrCells..4 * tuple], node.sizeCells);
    var phys := FindPhysical(open, path, addr);
    if phys.None? {
      return Ends(Reply(None));
    }
    return Ends(Reply(Some(UartInfo(phys.value, size, settings))));
  }

  method ReadProp(open: seq<RegNode>, path: Bytes, target: Bytes, settings: Settings, name: Bytes, value: Bytes)
    returns (e: Effect)
    requires open != []
    ensures e == OnProp(open, path, target, settings, name, value)
  {
    var node := open[|open| - 1];
    var parentCells := if |open| >= 2 then open[|open| - 2].addrCells else 0;
    if name == Ascii("#address-cells") {
      return Next(if |value| >= 4 then node.(addrCells := ReadBe32(value, 0)) else node, settings);
    } else if name == Ascii("#size-cells") {
      return Next(if |value| >= 4 then node.(sizeCells := ReadBe32(value, 0)) else node, settings);
    } else if name == Ascii("ranges") {
      var ranges := ReadRanges(value, node.addrCells, parentCells, node.sizeCells, node.ranges);
      return if ranges.None? then Ends(Crash) else Next(node.(ranges := ranges.value), settings);
    } else if path != target {
      return Next(node, settings);
    } else if name == Ascii("reg") {
      e := ReadReg(open, path, settings, value);
    } else {
      return Next(node, OnTarget(settings, name, value));
    }
  }

  // ---- The loop ------------------------------------------------------------

  /** The arrays and the buffer as the scan's state. */
  ghost function View(stack: array<RegNode>, lens: array<nat>, depth: nat, path: SmallBuf, settings: Settings): Scan
    requires depth <= stack.Length && depth <= lens.Length && path.Valid()
    reads stack, lens, path, path.buf
  {
    Scan(stack[..depth], lens[..depth], path.Contents(), settings)
  }

  /** The saved lengths never exceed the current one. */
  ghost predicate Nested(lens: seq<nat>, len: nat) {
    && (forall i, j :: 0 <= i < j < |lens| ==> lens[i] <= lens[j])
    && (forall i :: 0 <= i < |lens| ==> lens[i] <= len)
  }

  lemma {:induction false} NestedPush(lens: seq<nat>, len: nat, len': nat)
    requires Nested(lens, len) && len <= len'
    ensures Nested(lens, len') && Nested(lens + [len], len')
  {
  }

  method BeginNodeAt(stack: array<RegNode>, lens: array<nat>, depth: nat, path: SmallBuf, name: Bytes,
        ghost settings: Settings)
    returns (depth': nat)
    requires stack.Length == lens.Length == MAX_DEPTH && depth <= MAX_DEPTH
    requires path.Valid() && Nested(lens[..depth], path.len)
    modifies stack, lens, path, path.buf
    ensures depth' <= MAX_DEPTH && path.Valid() && Nested(lens[..depth'], path.len)
    ensures View(stack, lens, depth', path, settings) == Begun(old(View(stack, lens, depth, path, settings)), name)
  {
    ghost var open, saved, was := stack[..depth], lens[..depth], path.Contents();
    var len := path.len;
    if depth < MAX_DEPTH {
      lens[depth] := len;
      assert lens[..depth + 1] == saved + [len];
    }
    if !(depth == 0 && |name| == 0) {
      path.PushName(name);
    }
    NestedPush(saved, len, path.len);
    var node := (if depth == 0 then ROOT_NODE else stack[depth - 1]).(ranges := []);
    depth' := depth;
    if depth < MAX_DEPTH {
      stack[depth] := node;
      depth' := depth + 1;
      assert stack[..depth'] == open + [node];
    }
  }

  method EndNodeAt(stack: array<RegNode>, lens: array<nat>, depth: nat, path: SmallBuf, ghost settings: Settings)
    returns (depth': nat)
    requires stack.Length == lens.Length == MAX_DEPTH && depth <= MAX_DEPTH
    requires path.Valid() && Nested(lens[..depth], path.len)
    modifies path
    ensures depth' <= MAX_DEPTH && path.Valid() && Nested(lens[..depth'], path.len)
    ensures View(stack, lens, depth', path, settings) == Ended(old(View(stack, lens, depth, path, settings)))
  {
    depth' := depth;
    if depth > 0 {
      depth' := depth - 1;
      ghost var all := lens[..depth];
      assert lens[..depth'] == all[..depth'] && stack[..depth'] == stack[..depth][..depth'];
      assert all[depth'] == lens[depth'];
      path.len := lens[depth'];
    }
  }

  method PropAt(stack: array<RegNode>, lens: array<nat>, depth: nat, path: SmallBuf, settings: Settings, target: Bytes,
        ghost strings: Bytes, ghost nameoff: u32, name: Bytes, value: Bytes, ghost rest: Events)
    returns (settings': Settings, answer: Option<Answer>)
    requires stack.Length == lens.Length == MAX_DEPTH && 0 < depth <= MAX_DEPTH && path.Valid()
    requires name == GetString(strings, nameoff)
    modifies stack
    ensures Find(Cons(Property(nameoff, value), rest), strings, target,
      old(View(stack, lens, depth, path, settings))) ==
      if answer.Some? then answer.value else Find(rest, strings, target, View(stack, lens, depth, path, settings'))
  {
    ghost var open := stack[..depth];
    settings', answer := settings, None;
    var e := ReadProp(stack[..depth], path.buf[..path.len], target, settings, name, value);
    if e.Ends? {
      return settings, Some(e.answer);
    }
    stack[depth - 1], settings' := e.node, e.settings;
    assert stack[..depth] == WithTop(open, e.node);
  }

  /** One event of the search. */
  method HandleEvent(stack: array<RegNode>, lens: array<nat>, depth: nat, path: SmallBuf, settings: Settings,
        strings: Bytes, target: Bytes, event: Event, ghost rest: Events)
    returns (depth': nat, settings': Settings, answer: Option<Answer>)
    requires stack.Length == lens.Length == MAX_DEPTH && depth <= MAX_DEPTH && path.Valid() &&
      Nested(lens[..depth], path.len)
    modifies stack, lens, path, path.buf
    ensures depth' <= MAX_DEPTH && path.Valid() && Nested(lens[..depth'], path.len)
    ensures Find(Cons(event, rest), strings, target, old(View(stack, lens, depth, path, settings))) ==
      if answer.Some? then answer.value else Find(rest, strings, target, View(stack, lens, depth', path, settings'))
  {
    depth', settings', answer := depth, settings, None;
    match event
    case BeginNode(name) =>
      depth' := BeginNodeAt(stack, lens, depth, path, name, settings);
    case EndNode =>
      depth' := EndNodeAt(stack, lens, depth, path, settings);
    case Property(nameoff, value) =>
      if depth > 0 {
        var name := StringAt(strings, nameoff);
        settings', answer := PropAt(stack, lens, depth, path, settings, target, strings, nameoff, name, value, rest);
      }
  }

  method FindRegByPath(s: Bytes, strings: Bytes, target: Bytes) returns (answer: Answer)
    ensures answer == Find(Tokens(s, 0), strings, target, START)
  {
    var stack := new RegNode[MAX_DEPTH](_ => ROOT_NODE);
    var lens := new nat[MAX_DEPTH](_ => 0);
    var path := new SmallBuf();
    var settings := DEFAULTS;
    var depth: nat, offset: nat := 0, 0;
    var t := NextToken(s, offset);
    while !t.Stop?
      invariant depth <= MAX_DEPTH && t == TokenAt(s, offset) && path.Valid() && Nested(lens[..depth], path.len)
      invariant Find(Tokens(s, 0), strings, target, START) ==
        Find(Tokens(s, offset), strings, target, View(stack, lens, depth, path, settings))
      decreases |s| - offset
    {
      TokensStep(s, offset);
      if t.Item? {
        var ended: Option<Answer>;
        depth, settings, ended := HandleEvent(stack, lens, depth, path, settings, strings, target, t.event,
          Tokens(s, t.next));
        if ended.Some? {
          return ended.value;
        }
      }
      offset := t.next;
      t := NextToken(s, offset);
    }
    TokensStep(s, offset);
    return Reply(None);
  }

  /** The search in the memory at a blob's address. */
  function SearchedBlob(mem: Bytes, target: Bytes): Answer
    requires R.Readable(mem)
  {
    if !R.IsFdt(mem) then Reply(None) else Find(Tokens(R.StructOf(mem), 0), R.StringsOf(mem), target, START)
  }

  method FindRegInBlob(mem: Bytes, target: Bytes) returns (answer: Answer)
    requires R.Readable(mem)
    ensures answer == SearchedBlob(mem, target)
  {
    if ReadBe32(mem, 0) != R.FDT_MAGIC {
      return Reply(None);
    }
    var s, strings := R.Blocks(mem);
    answer := FindRegByPath(s, strings, target);
  }
}
