/**
 Flattened device tree: tokens, strings and the round trip between a tree and
 its structure block (src/mm/dtb.rs; Devicetree Specification, section 5.4).
*/
module Fdt {
  import opened Machine
  import opened Wrappers

  const FDT_BEGIN_NODE: u32 := 1
  const FDT_END_NODE: u32 := 2
  const FDT_PROP: u32 := 3
  const FDT_NOP: u32 := 4
  const FDT_END: u32 := 9

  /** Entries of the scanners' stacks of open nodes. */
  const MAX_DEPTH: nat := 32

  type Bytes = seq<byte>

  function Ascii(s: string): Bytes {
    seq(|s|, i requires 0 <= i < |s| => s[i] as int % 256)
  }

  /** Four bytes, most significant first. */
  function Be32(v: u32): (r: Bytes)
    ensures |r| == 4
  {
    [v / 0x100_0000, v / 0x1_0000 % 0x100, v / 0x100 % 0x100, v % 0x100]
  }

  function ReadBe32(b: Bytes, i: nat): u32
    requires i + 4 <= |b|
  {
    var b0: nat, b1: nat, b2: nat, b3: nat := b[i], b[i + 1], b[i + 2], b[i + 3];
    0x100_0000 * b0 + 0x1_0000 * b1 + 0x100 * b2 + b3
  }

  lemma {:induction false} Be32RoundTrip(v: u32)
    ensures ReadBe32(Be32(v), 0) == v
  {
    var q := v / 0x100;
    assert v / 0x1_0000 == q / 0x100 && v / 0x100_0000 == q / 0x100 / 0x100;
  }

  /** The original combines the bytes with shifts and ors. */
  lemma {:induction false} OrOfBytes(a: bv32, b: bv32, c: bv32, d: bv32)
    requires a < 256 && b < 256 && c < 256 && d < 256
    ensures (((a << 24) | (b << 16)) | (c << 8)) | d == 0x100_0000 * a + 0x1_0000 * b + 0x100 * c + d
  {
  }

  function Align4(v: nat): nat { (v + 3) / 4 * 4 }

  /** The end of the zero-terminated run of bytes at i; |s| when the terminator is missing. */
  function ZeroAt(s: Bytes, i: nat): (e: nat)
    requires i <= |s|
    ensures i <= e <= |s|
    ensures forall j :: i <= j < e ==> s[j] != 0
    ensures e < |s| ==> s[e] == 0
    decreases |s| - i
  {
    if i == |s| || s[i] == 0 then i else ZeroAt(s, i + 1)
  }

  /** A name in the strings block; empty outside the block. */
  function GetString(strings: Bytes, offset: nat): Bytes {
    if offset >= |strings| then [] else strings[offset..ZeroAt(strings, offset)]
  }

  // ---- Tokens --------------------------------------------------------------

  datatype Event = BeginNode(name: Bytes) | EndNode | Property(nameoff: u32, value: Bytes)

  datatype Token = Item(event: Event, next: nat) | Skip(next: nat) | Stop

  /** The token at an offset: an event, a NOP, or nothing more to read. */
  function TokenAt(s: Bytes, offset: nat): (t: Token)
    ensures !t.Stop? ==> offset + 4 <= |s| && t.next > offset
  {
    if offset + 4 > |s| then Stop
    else
      var token, at := ReadBe32(s, offset), offset + 4;
      if token == FDT_BEGIN_NODE then
        var e := ZeroAt(s, at);
        Item(BeginNode(s[at..e]), Align4(e + 1))
      else if token == FDT_END_NODE then Item(EndNode, at)
      else if token == FDT_PROP then
        if at + 8 > |s| then Stop
        else
          var len := ReadBe32(s, at);
          if at + 8 + len > |s| then Stop
          else Item(Property(ReadBe32(s, at + 4), s[at + 8..at + 8 + len]), Align4(at + 8 + len))
      else if token == FDT_NOP then Skip(at)
      else Stop
  }

  datatype Events = Nil | Cons(head: Event, tail: Events)

  /** Everything the scanning loop sees from an offset on. */
  function Tokens(s: Bytes, offset: nat): Events
    decreases |s| - offset
  {
    match TokenAt(s, offset)
    case Stop => Nil
    case Skip(next) => Tokens(s, next)
    case Item(event, next) => Cons(event, Tokens(s, next))
  }

  lemma {:induction false} TokensStep(s: Bytes, i: nat)
    ensures match TokenAt(s, i)
      case Stop => Tokens(s, i) == Nil
      case Skip(next) => Tokens(s, i) == Tokens(s, next)
      case Item(event, next) => Tokens(s, i) == Cons(event, Tokens(s, next))
  {
  }

  method FindZero(s: Bytes, from: nat) returns (e: nat)
    requires from <= |s|
    ensures e == ZeroAt(s, from)
  {
    e := from;
    while e < |s| && s[e] != 0
      invariant from <= e <= |s| && ZeroAt(s, e) == ZeroAt(s, from)
    {
      e := e + 1;
    }
  }

  /** One turn of the scanning loops, up to where they differ. */
  method NextToken(s: Bytes, offset: nat) returns (t: Token)
    ensures t == TokenAt(s, offset)
  {
    if offset + 4 > |s| {
      return Stop;
    }
    var token, at := ReadBe32(s, offset), offset + 4;
    if token == FDT_BEGIN_NODE {
      var e := FindZero(s, at);
      return Item(BeginNode(s[at..e]), Align4(e + 1));
    } else if token == FDT_END_NODE {
      return Item(EndNode, at);
    } else if token == FDT_PROP {
      if at + 8 > |s| {
        return Stop;
      }
      var len, nameoff := ReadBe32(s, at), ReadBe32(s, at + 4);
      if at + 8 + len > |s| {
        return Stop;
      }
      return Item(Property(nameoff, s[at + 8..at + 8 + len]), Align4(at + 8 + len));
    } else if token == FDT_NOP {
      return Skip(at);
    }
    return Stop;
  }

  method StringAt(strings: Bytes, offset: nat) returns (r: Bytes)
    ensures r == GetString(strings, offset)
  {
    if offset >= |strings| {
      return [];
    }
    var e := FindZero(strings, offset);
    return strings[offset..e];
  }

  // ---- The stack of open nodes ---------------------------------------------

  /** The innermost open node; outside the root, what the scanner starts with. */
  function Top<T>(open: seq<T>, outside: T): T { if open == [] then outside else open[|open| - 1] }

  function WithTop<T>(open: seq<T>, node: T): seq<T> {
    if open == [] then [] else open[..|open| - 1] + [node]
  }

  // ---- Trees and their structure block -------------------------------------

  /** What lies inside a node, in order; NOPs may stand anywhere. */
  datatype Items = Done | Nop(rest: Items) | Prop(nameoff: u32, value: Bytes, rest: Items) |
    Child(name: Bytes, body: Items, rest: Items)

  predicate WellFormed(t: Items) {
    match t
    case Done => true
    case Nop(rest) => WellFormed(rest)
    case Prop(_, value, rest) => |value| < TWO32 && WellFormed(rest)
    case Child(name, body, rest) => 0 !in name && WellFormed(body) && WellFormed(rest)
  }

  function Depth(t: Items): nat {
    match t
    case Done => 0
    case Nop(rest) => Depth(rest)
    case Prop(_, _, rest) => Depth(rest)
    case Child(_, body, rest) => Max(1 + Depth(body), Depth(rest))
  }

  function Zeros(n: nat): Bytes { seq(n, _ => 0) }

  /** The writer, with the tokens of section 5.4.1 of the Devicetree Specification written out. */
  function Padded(b: Bytes): (r: Bytes)
    ensures |r| == Align4(|b|) && |r| % 4 == 0 && b <= r && |r| < |b| + 4
  {
    b + Zeros(Align4(|b|) - |b|)
  }

  /** A run of whole 32-bit words. */
  predicate Whole(b: Bytes) { |b| % 4 == 0 }

  function Join(a: Bytes, b: Bytes): (r: Bytes)
    requires Whole(a) && Whole(b)
    ensures Whole(r) && |r| == |a| + |b|
  {
    a + b
  }

  function BeginBytes(name: Bytes): (r: Bytes)
    ensures Whole(r)
  {
    Join(Be32(1), Padded(name + [0]))
  }

  function PropBytes(nameoff: u32, value: Bytes): (r: Bytes)
    requires |value| < TWO32
    ensures Whole(r) && |r| == 12 + |Padded(value)|
  {
    Join(Be32(3), Join(Be32(|value|), Join(Be32(nameoff), Padded(value))))
  }

  function ChildBytes(name: Bytes, body: Bytes, rest: Bytes): (r: Bytes)
    requires Whole(body) && Whole(rest)
    ensures Whole(r)
  {
    Join(BeginBytes(name), Join(body, Join(Be32(2), rest)))
  }

  function Serialise(t: Items): (r: Bytes)
    requires WellFormed(t)
    ensures Whole(r)
  {
    match t
    case Done => []
    case Nop(rest) => Join(Be32(4), Serialise(rest))
    case Prop(nameoff, value, rest) => Join(PropBytes(nameoff, value), Serialise(rest))
    case Child(name, body, rest) => ChildBytes(name, Serialise(body), Serialise(rest))
  }

  /** The events of a tree in document order, followed by k. */
  function EventsOf(t: Items, k: Events): Events {
    match t
    case Done => k
    case Nop(rest) => EventsOf(rest, k)
    case Prop(nameoff, value, rest) => Cons(Property(nameoff, value), EventsOf(rest, k))
    case Child(name, body, rest) => Cons(BeginNode(name), EventsOf(body, Cons(EndNode, EventsOf(rest, k))))
  }

  // ---- The round trip ------------------------------------------------------

  /** The bytes piece stand at position i of s. */
  predicate Holds(s: Bytes, i: nat, piece: Bytes) {
    i + |piece| <= |s| && s[i..i + |piece|] == piece
  }

  lemma {:induction false} HoldsSplit(s: Bytes, i: nat, a: Bytes, b: Bytes)
    requires Holds(s, i, a + b)
    ensures Holds(s, i, a) && Holds(s, i + |a|, b)
  {
    assert s[i..i + |a|] == (a + b)[..|a|];
    assert s[i + |a|..i + |a| + |b|] == (a + b)[|a|..];
  }

  lemma {:induction false} HoldsJoin(s: Bytes, i: nat, a: Bytes, b: Bytes)
    requires Whole(a) && Whole(b) && i % 4 == 0 && Holds(s, i, Join(a, b))
    ensures Holds(s, i, a) && Holds(s, i + |a|, b) && (i + |a|) % 4 == 0
  {
    HoldsSplit(s, i, a, b);
    WholeWords(i, |a|);
  }

  lemma {:induction false} WholeWords(i: nat, n: nat)
    requires i % 4 == 0 && n % 4 == 0
    ensures (i + n) % 4 == 0
  {
  }

  lemma {:induction false} HoldsBe32(s: Bytes, i: nat, v: u32)
    requires Holds(s, i, Be32(v))
    ensures ReadBe32(s, i) == v
  {
    var p := s[i..i + 4];
    assert p[0] == s[i] && p[1] == s[i + 1] && p[2] == s[i + 2] && p[3] == s[i + 3];
    Be32RoundTrip(v);
  }

  lemma {:induction false} TokenNop(s: Bytes, i: nat)
    requires Holds(s, i, Be32(FDT_NOP))
    ensures TokenAt(s, i) == Skip(i + 4)
  {
    HoldsBe32(s, i, FDT_NOP);
  }

  lemma {:induction false} TokenEndNode(s: Bytes, i: nat)
    requires Holds(s, i, Be32(FDT_END_NODE))
    ensures TokenAt(s, i) == Item(EndNode, i + 4)
  {
    HoldsBe32(s, i, FDT_END_NODE);
  }

  lemma {:induction false} ZeroAfter(s: Bytes, i: nat, name: Bytes)
    requires 0 !in name && Holds(s, i, name + [0])
    ensures ZeroAt(s, i) == i + |name|
    decreases |name|
  {
    if name != [] {
      assert name + [0] == [name[0]] + (name[1..] + [0]);
      HoldsSplit(s, i, [name[0]], name[1..] + [0]);
      assert s[i] == s[i..i + 1][0] == name[0];
      ZeroAfter(s, i + 1, name[1..]);
    } else {
      assert s[i] == s[i..i + 1][0] == 0;
    }
  }

  lemma {:induction false} BeginHead(s: Bytes, i: nat, name: Bytes)
    requires i % 4 == 0 && 0 !in name && Holds(s, i, BeginBytes(name))
    ensures i + 4 + |name| < |s| && ReadBe32(s, i) == FDT_BEGIN_NODE
    ensures ZeroAt(s, i + 4) == i + 4 + |name| && s[i + 4..i + 4 + |name|] == name
  {
    HoldsJoin(s, i, Be32(FDT_BEGIN_NODE), Padded(name + [0]));
    HoldsBe32(s, i, FDT_BEGIN_NODE);
    HoldsSplit(s, i + 4, name + [0], Zeros(Align4(|name + [0]|) - |name + [0]|));
    ZeroAfter(s, i + 4, name);
    HoldsSplit(s, i + 4, name, [0]);
  }

  lemma {:induction false} TokenBeginNode(s: Bytes, i: nat, name: Bytes)
    requires i % 4 == 0 && 0 !in name && Holds(s, i, BeginBytes(name))
    ensures TokenAt(s, i) == Item(BeginNode(name), i + |BeginBytes(name)|)
  {
    BeginHead(s, i, name);
    AlignedEnd(i + 4, |name| + 1);
  }

  lemma {:induction false} AlignedEnd(at: nat, n: nat)
    requires at % 4 == 0
    ensures Align4(at + n) == at + Align4(n)
  {
    var q := at / 4;
    assert at == 4 * q && (at + n + 3) / 4 == q + (n + 3) / 4;
  }

  lemma {:induction false} PropHead(s: Bytes, i: nat, nameoff: u32, value: Bytes)
    requires i % 4 == 0 && |value| < TWO32 && Holds(s, i, PropBytes(nameoff, value))
    ensures i + 12 + |value| <= |s|
    ensures ReadBe32(s, i) == FDT_PROP && ReadBe32(s, i + 4) == |value| && ReadBe32(s, i + 8) == nameoff
    ensures Holds(s, i + 12, value)
  {
    HoldsJoin(s, i, Be32(FDT_PROP), Join(Be32(|value|), Join(Be32(nameoff), Padded(value))));
    HoldsBe32(s, i, FDT_PROP);
    HoldsJoin(s, i + 4, Be32(|value|), Join(Be32(nameoff), Padded(value)));
    HoldsBe32(s, i + 4, |value|);
    HoldsJoin(s, i + 8, Be32(nameoff), Padded(value));
    HoldsBe32(s, i + 8, nameoff);
    HoldsSplit(s, i + 12, value, Zeros(Align4(|value|) - |value|));
  }

  lemma {:induction false} TokenProp(s: Bytes, i: nat, nameoff: u32, value: Bytes)
    requires i % 4 == 0 && |value| < TWO32 && Holds(s, i, PropBytes(nameoff, value))
    ensures TokenAt(s, i) == Item(Property(nameoff, value), i + |PropBytes(nameoff, value)|)
  {
    PropHead(s, i, nameoff, value);
    AlignedEnd(i + 12, |value|);
  }

  lemma {:induction false} HoldsFour(s: Bytes, i: nat, h: Bytes, body: Bytes, m: Bytes, rest: Bytes)
    requires Whole(h) && Whole(body) && Whole(m) && Whole(rest) && i % 4 == 0
    requires Holds(s, i, Join(h, Join(body, Join(m, rest))))
    ensures Holds(s, i, h) && Holds(s, i + |h|, body) && Holds(s, i + |h| + |body|, m)
    ensures Holds(s, i + |h| + |body| + |m|, rest)
    ensures (i + |h|) % 4 == 0 && (i + |h| + |body| + |m|) % 4 == 0
  {
    HoldsJoin(s, i, h, Join(body, Join(m, rest)));
    HoldsJoin(s, i + |h|, body, Join(m, rest));
    HoldsJoin(s, i + |h| + |body|, m, rest);
  }

  /** Reading one event moves the scan to the next token. */
  lemma {:induction false} TokensItem(s: Bytes, i: nat, event: Event, next: nat)
    requires Leads(s, i, event, next)
    ensures Tokens(s, i) == Cons(event, Tokens(s, next))
  {
  }

  lemma {:induction false} TokensStop(s: Bytes, i: nat)
    requires Holds(s, i, Be32(FDT_END))
    ensures Tokens(s, i) == Nil
  {
    HoldsBe32(s, i, FDT_END);
  }

  /** Where the parts of a child node stand. */
  lemma {:induction false} ChildPositions(s: Bytes, i: nat, name: Bytes, body: Bytes, rest: Bytes)
    returns (b: nat, e: nat)
    requires Whole(body) && Whole(rest) && i % 4 == 0
    requires Holds(s, i, ChildBytes(name, body, rest))
    ensures Holds(s, i, BeginBytes(name)) && b == i + |BeginBytes(name)| && b % 4 == 0
    ensures Holds(s, b, body) && e == b + |body| && Holds(s, e, Be32(FDT_END_NODE))
    ensures (e + 4) % 4 == 0 && Holds(s, e + 4, rest)
    ensures e + 4 + |rest| == i + |ChildBytes(name, body, rest)|
  {
    b := i + |BeginBytes(name)|;
    e := b + |body|;
    HoldsFour(s, i, BeginBytes(name), body, Be32(FDT_END_NODE), rest);
  }

  lemma {:induction false} PropPositions(s: Bytes, i: nat, nameoff: u32, value: Bytes, rest: Bytes) returns (b: nat)
    requires |value| < TWO32 && Whole(rest) && i % 4 == 0 && Holds(s, i, Join(PropBytes(nameoff, value), rest))
    ensures TokenAt(s, i) == Item(Property(nameoff, value), b)
    ensures b % 4 == 0 && Holds(s, b, rest) && b + |rest| == i + |Join(PropBytes(nameoff, value), rest)|
  {
    b := i + |PropBytes(nameoff, value)|;
    HoldsJoin(s, i, PropBytes(nameoff, value), rest);
    TokenProp(s, i, nameoff, value);
  }

  lemma {:induction false} NopPositions(s: Bytes, i: nat, rest: Bytes)
    requires Whole(rest) && i % 4 == 0 && Holds(s, i, Join(Be32(FDT_NOP), rest))
    ensures TokenAt(s, i) == Skip(i + 4)
    ensures (i + 4) % 4 == 0 && Holds(s, i + 4, rest) && i + 4 + |rest| == i + |Join(Be32(FDT_NOP), rest)|
  {
    HoldsJoin(s, i, Be32(FDT_NOP), rest);
    TokenNop(s, i);
  }

  /** The token at i is the event and the next token is at next. */
  ghost predicate Leads(s: Bytes, i: nat, event: Event, next: nat) {
    TokenAt(s, i) == Item(event, next)
  }

  /** The tokens of tree t stand in s from i to j. */
  ghost predicate Stands(s: Bytes, i: nat, t: Items, j: nat)
    decreases t
  {
    match t
    case Done => i == j
    case Nop(rest) => TokenAt(s, i) == Skip(i + 4) && Stands(s, i + 4, rest, j)
    case Prop(nameoff, value, rest) =>
      exists b: nat :: Leads(s, i, Property(nameoff, value), b) && Stands(s, b, rest, j)
    case Child(name, body, rest) =>
      exists b: nat, e: nat ::
        Leads(s, i, BeginNode(name), b) && Stands(s, b, body, e) && Leads(s, e, EndNode, e + 4) &&
          Stands(s, e + 4, rest, j)
  }

  lemma {:induction false} SerialisedStands(s: Bytes, i: nat, t: Items, j: nat)
    requires WellFormed(t) && i % 4 == 0 && Holds(s, i, Serialise(t)) && j == i + |Serialise(t)|
    ensures Stands(s, i, t, j)
    decreases t
  {
    match t
    case Done =>
    case Nop(rest) =>
      NopPositions(s, i, Serialise(rest));
      SerialisedStands(s, i + 4, rest, j);
    case Prop(nameoff, value, rest) =>
      var b := PropPositions(s, i, nameoff, value, Serialise(rest));
      SerialisedStands(s, b, rest, j);
      PropStands(s, i, nameoff, value, rest, b, j);
    case Child(name, body, rest) =>
      var b, e := ChildPositions(s, i, name, Serialise(body), Serialise(rest));
      SerialisedStands(s, b, body, e);
      SerialisedStands(s, e + 4, rest, j);
      ChildLeads(s, i, name, b, e);
      ChildStands(s, i, name, body, rest, b, e, j);
  }

  lemma {:induction false} PropStands(s: Bytes, i: nat, nameoff: u32, value: Bytes, rest: Items, b: nat, j: nat)
    requires Leads(s, i, Property(nameoff, value), b) && Stands(s, b, rest, j)
    ensures Stands(s, i, Prop(nameoff, value, rest), j)
  {
  }

  lemma {:induction false} ChildLeads(s: Bytes, i: nat, name: Bytes, b: nat, e: nat)
    requires i % 4 == 0 && 0 !in name && Holds(s, i, BeginBytes(name)) && b == i + |BeginBytes(name)|
    requires Holds(s, e, Be32(FDT_END_NODE))
    ensures Leads(s, i, BeginNode(name), b) && Leads(s, e, EndNode, e + 4)
  {
    TokenBeginNode(s, i, name);
    TokenEndNode(s, e);
  }

  lemma {:induction false} ChildStands(s: Bytes, i: nat, name: Bytes, body: Items, rest: Items, b: nat, e: nat, j: nat)
    requires Leads(s, i, BeginNode(name), b) && Stands(s, b, body, e) && Leads(s, e, EndNode, e + 4) &&
      Stands(s, e + 4, rest, j)
    ensures Stands(s, i, Child(name, body, rest), j)
  {
  }

  /** Scanning a tree that stands somewhere yields its events and then what follows it. */
  lemma {:induction false} TokensOfTree(s: Bytes, i: nat, t: Items, j: nat)
    requires Stands(s, i, t, j)
    ensures Tokens(s, i) == EventsOf(t, Tokens(s, j))
    decreases t
  {
    match t
    case Done =>
    case Nop(rest) =>
      TokensOfTree(s, i + 4, rest, j);
    case Prop(nameoff, value, rest) =>
      var b: nat :| Leads(s, i, Property(nameoff, value), b) && Stands(s, b, rest, j);
      TokensItem(s, i, Property(nameoff, value), b);
      TokensOfTree(s, b, rest, j);
    case Child(name, body, rest) =>
      var b: nat, e: nat :|
        Leads(s, i, BeginNode(name), b) && Stands(s, b, body, e) && Leads(s, e, EndNode, e + 4) &&
          Stands(s, e + 4, rest, j);
      TokensOfTree(s, b, body, e);
      TokensOfTree(s, e + 4, rest, j);
      ChildCase(s, i, name, body, rest, b, e, j);
  }

  lemma {:induction false} ChildCase(s: Bytes, i: nat, name: Bytes, body: Items, rest: Items, b: nat, e: nat, j: nat)
    requires Leads(s, i, BeginNode(name), b) && Leads(s, e, EndNode, e + 4)
    requires Tokens(s, b) == EventsOf(body, Tokens(s, e)) && Tokens(s, e + 4) == EventsOf(rest, Tokens(s, j))
    ensures Tokens(s, i) == EventsOf(Child(name, body, rest), Tokens(s, j))
  {
    TokensItem(s, i, BeginNode(name), b);
    TokensItem(s, e, EndNode, e + 4);
    ChildEvents(Tokens(s, i), Tokens(s, b), Tokens(s, e), Tokens(s, e + 4), name, body, rest, Tokens(s, j));
  }

  lemma {:induction false} ChildEvents(all: Events, inside: Events, end: Events, after: Events, name: Bytes,
        body: Items, rest: Items, k: Events)
    requires all == Cons(BeginNode(name), inside) && inside == EventsOf(body, end)
    requires end == Cons(EndNode, after) && after == EventsOf(rest, k)
    ensures all == EventsOf(Child(name, body, rest), k)
  {
  }

  /** The structure block of a tree; whatever follows FDT_END is not read. */
  function StructBlock(t: Items, trailing: Bytes): Bytes
    requires WellFormed(t)
  {
    Serialise(t) + (Be32(9) + trailing)
  }

  lemma {:induction false} HoldsWhole(a: Bytes, b: Bytes, c: Bytes)
    ensures Holds(a + (b + c), 0, a) && Holds(a + (b + c), |a|, b)
  {
    var s := a + (b + c);
    assert s[0..|s|] == s;
    HoldsSplit(s, 0, a, b + c);
    HoldsSplit(s, |a|, b, c);
  }

  lemma {:induction false} RoundTrip(t: Items, trailing: Bytes)
    requires WellFormed(t)
    ensures Tokens(StructBlock(t, trailing), 0) == EventsOf(t, Nil)
  {
    HoldsWhole(Serialise(t), Be32(FDT_END), trailing);
    SerialisedStands(StructBlock(t, trailing), 0, t, |Serialise(t)|);
    TokensOfTree(StructBlock(t, trailing), 0, t, |Serialise(t)|);
    TokensStop(StructBlock(t, trailing), |Serialise(t)|);
  }

  // ---- Blocks that end early -------------------------------------------------

  /** A block that ends with its items, without FDT_END, is read to its end. */
  lemma {:induction false} RoundTripWithoutEnd(t: Items)
    requires WellFormed(t)
    ensures Tokens(Serialise(t), 0) == EventsOf(t, Nil)
  {
    var s := Serialise(t);
    assert s[0..|s|] == s;
    SerialisedStands(s, 0, t, |s|);
    TokensOfTree(s, 0, t, |s|);
  }

  /** A property at the end of a block is read exactly when none of its value is missing; its padding may be. */
  lemma {:induction false} CutProperty(s: Bytes, i: nat, nameoff: u32, value: Bytes)
    requires i <= |s| && |value| < TWO32 && s[i..] <= Be32(3) + Be32(|value|) + Be32(nameoff) + value
    ensures TokenAt(s, i) ==
      if |s| - i == 12 + |value| then Item(Property(nameoff, value), Align4(|s|)) else Stop
  {
    var all := Be32(3) + Be32(|value|) + Be32(nameoff) + value;
    if |s| - i >= 4 {
      assert s[i..i + 4] == s[i..][..4] == all[..4] == Be32(3);
      HoldsBe32(s, i, 3);
    }
    if |s| - i >= 12 {
      assert s[i + 4..i + 8] == s[i..][4..8] == all[4..8] == Be32(|value|);
      HoldsBe32(s, i + 4, |value|);
      assert s[i + 8..i + 12] == s[i..][8..12] == all[8..12] == Be32(nameoff);
      HoldsBe32(s, i + 8, nameoff);
      if |s| - i == 12 + |value| {
        assert s[i + 12..i + 12 + |value|] == s[i..][12..] == all[12..] == value;
      }
    }
  }

  /** A name without terminator reaches to the end of the block. */
  lemma {:induction false} CutName(s: Bytes, i: nat, name: Bytes)
    requires i <= |s| && s[i..] == Be32(1) + name && 0 !in name
    ensures TokenAt(s, i) == Item(BeginNode(name), Align4(|s| + 1))
  {
    assert s[i..i + 4] == s[i..][..4] == Be32(1);
    assert s[i + 4..|s|] == s[i..][4..] == name;
    HoldsBe32(s, i, 1);
    assert forall j :: i + 4 <= j < |s| ==> s[j] == s[i + 4..|s|][j - i - 4];
    assert ZeroAt(s, i + 4) == |s|;
  }
}
