/**
 Memory regions: collection, normalisation into a sorted disjoint map, merging
 and page alignment (src/mm/region.rs), as functions on sequences.
*/
module RegionModel {
  import opened Machine
  import opened Wrappers
  import opened Layout

  const MAX_REGIONS: nat := 128

  datatype Kind = UsableRam | Reserved | Mmio | KernelImage | BootStack | BootInfo

  datatype Region = Region(start: u64, end: u64, kind: Kind)

  const EMPTY_REGION: Region := Region(0, 0, Reserved)

  function Priority(kind: Kind): nat {
    match kind
    case KernelImage => 6
    case BootStack => 5
    case BootInfo => 4
    case Reserved => 3
    case Mmio => 2
    case UsableRam => 1
  }

  predicate Covers(r: Region, a: nat) {
    r.start <= a < r.end
  }

  // ---- What a set of raw regions means -------------------------------------

  /** The kind of address a: the highest-priority kind among the regions that contain it. */
  function KindAt(raw: seq<Region>, a: nat): (k: Option<Kind>)
    ensures k.None? <==> forall i :: 0 <= i < |raw| ==> !Covers(raw[i], a)
    ensures k.Some? ==> exists i :: 0 <= i < |raw| && Covers(raw[i], a) && raw[i].kind == k.value
    ensures k.Some? ==> forall i :: 0 <= i < |raw| && Covers(raw[i], a) ==> Priority(raw[i].kind) <= Priority(k.value)
  {
    if raw == [] then None
    else
      var n := |raw| - 1;
      var before := KindAt(raw[..n], a);
      if Covers(raw[n], a) && (before.None? || Priority(raw[n].kind) > Priority(before.value)) then Some(raw[n].kind)
      else before
  }

  /** A list of regions says that address a has kind k. */
  ghost predicate Says(m: seq<Region>, a: nat, k: Kind) {
    exists i :: 0 <= i < |m| && Covers(m[i], a) && m[i].kind == k
  }

  ghost predicate SortedDisjoint(m: seq<Region>) {
    && (forall i :: 0 <= i < |m| ==> m[i].start < m[i].end)
    && (forall i, j :: 0 <= i < j < |m| ==> m[i].end <= m[j].start)
  }

  // ---- Collection ----------------------------------------------------------

  /** add_region: empty regions and regions beyond the table are dropped; the end saturates. */
  function Added(raw: seq<Region>, start: u64, size: u64, kind: Kind): seq<Region> {
    if size == 0 || |raw| >= MAX_REGIONS then raw
    else raw + [Region(start, Min(start + size, U64_MAX), kind)]
  }

  /** A region offered to the table. */
  datatype Offer = Offer(start: u64, size: u64, kind: Kind)

  function AddedAll(raw: seq<Region>, offers: seq<Offer>): seq<Region> {
    if offers == [] then raw
    else
      var last := offers[|offers| - 1];
      Added(AddedAll(raw, offers[..|offers| - 1]), last.start, last.size, last.kind)
  }

  function Stored(o: Offer): Region { Region(o.start, Min(o.start + o.size, U64_MAX), o.kind) }

  /** The non-empty offers, as regions. */
  function NonEmpty(offers: seq<Offer>): seq<Region> {
    if offers == [] then []
    else
      var last := offers[|offers| - 1];
      NonEmpty(offers[..|offers| - 1]) + (if last.size == 0 then [] else [Stored(last)])
  }

  /** The table holds exactly the first 128 non-empty offers, in order. */
  lemma {:induction false} TableHoldsOffers(offers: seq<Offer>)
    ensures AddedAll([], offers) == NonEmpty(offers)[..Min(|NonEmpty(offers)|, MAX_REGIONS)]
  {
    if offers != [] {
      var init := offers[..|offers| - 1];
      TableHoldsOffers(init);
      var before := NonEmpty(init);
      assert before[..|before|] == before;
    }
  }

  // ---- Sweep ---------------------------------------------------------------

  function Bounds(raw: seq<Region>): (b: seq<u64>)
    ensures |b| == 2 * |raw|
  {
    if raw == [] then [] else Bounds(raw[..|raw| - 1]) + [raw[|raw| - 1].start, raw[|raw| - 1].end]
  }

  ghost predicate Sorted(b: seq<u64>) {
    forall i, j :: 0 <= i < j < |b| ==> b[i] <= b[j]
  }

  /** The region boundaries in ascending order, with their repetitions. */
  ghost predicate SweepOrder(raw: seq<Region>, b: seq<u64>) {
    Sorted(b) && multiset(b) == multiset(Bounds(raw))
  }

  /** Highest-priority kind among the regions that contain the whole span. */
  function SpanKind(raw: seq<Region>, lo: u64, hi: u64): (k: Option<Kind>)
  {
    if raw == [] then None
    else
      var n := |raw| - 1;
      var before := SpanKind(raw[..n], lo, hi);
      var best := if before.None? then 0 else Priority(before.value);
      if raw[n].start <= lo && raw[n].end >= hi && Priority(raw[n].kind) > best then Some(raw[n].kind) else before
  }

  /** Spans between consecutive boundaries from position i on, with their kinds. */
  function Spans(raw: seq<Region>, b: seq<u64>, i: nat): seq<Region>
    decreases |b| - i
  {
    if i + 1 >= |b| then []
    else if b[i] == b[i + 1] then Spans(raw, b, i + 1)
    else
      match SpanKind(raw, b[i], b[i + 1])
      case None => Spans(raw, b, i + 1)
      case Some(k) => [Region(b[i], b[i + 1], k)] + Spans(raw, b, i + 1)
  }

  /** The map holds at most 128 spans; later ones are dropped silently. */
  function Truncated(m: seq<Region>): seq<Region> {
    if |m| <= MAX_REGIONS then m else m[..MAX_REGIONS]
  }

  // ---- Merge and alignment -------------------------------------------------

  /** Extends the last region of `done` by r when they touch and agree, else appends r. */
  function MergeInto(done: seq<Region>, r: Region): seq<Region> {
    if done != [] && done[|done| - 1].kind == r.kind && done[|done| - 1].end == r.start
    then done[..|done| - 1] + [done[|done| - 1].(end := r.end)]
    else done + [r]
  }

  function Merged(m: seq<Region>): seq<Region> {
    if m == [] then [] else MergeInto(Merged(m[..|m| - 1]), m[|m| - 1])
  }

  function Aligned(r: Region): Region {
    if r.kind != UsableRam then r
    else
      var start := AlignUp(r.start, PAGE_SIZE);
      var end := AlignDown(r.end, PAGE_SIZE);
      if end <= start then EMPTY_REGION else Region(start, end, UsableRam)
  }

  function AlignedAll(m: seq<Region>): (r: seq<Region>)
    ensures |r| == |m| && forall i :: 0 <= i < |m| ==> r[i] == Aligned(m[i])
  {
    if m == [] then [] else AlignedAll(m[..|m| - 1]) + [Aligned(m[|m| - 1])]
  }

  /** The whole of normalize, for boundaries already in order. */
  function Normalised(raw: seq<Region>, b: seq<u64>): seq<Region> {
    AlignedAll(Merged(Truncated(Spans(raw, b, 0))))
  }

  /** The map normalize produces for these raw regions. */
  ghost predicate IsNormalised(raw: seq<Region>, m: seq<Region>) {
    exists b :: SweepOrder(raw, b) && m == Normalised(raw, b)
  }

  lemma {:induction false} NormalisedBy(raw: seq<Region>, b: seq<u64>, swept: seq<Region>, m: seq<Region>)
    requires SweepOrder(raw, b) && swept == Truncated(Spans(raw, b, 0)) && m == AlignedAll(Merged(swept))
    ensures IsNormalised(raw, m)
  {
    assert m == Normalised(raw, b);
  }

  // ---- Normalisation preserves meaning -------------------------------------

  lemma {:induction false} BoundsContain(raw: seq<Region>, i: nat)
    requires i < |raw|
    ensures raw[i].start in Bounds(raw) && raw[i].end in Bounds(raw)
  {
    var n := |raw| - 1;
    if i < n {
      BoundsContain(raw[..n], i);
    } else {
      var b := Bounds(raw);
      assert b[2 * n] == raw[n].start && b[2 * n + 1] == raw[n].end;
    }
  }

  lemma {:induction false} NoBoundInside(b: seq<u64>, i: nat, x: u64)
    requires Sorted(b) && i + 1 < |b| && x in b
    ensures x <= b[i] || x >= b[i + 1]
  {
    var s :| 0 <= s < |b| && b[s] == x;
    assert s < i ==> b[s] <= b[i];
    assert s > i + 1 ==> b[s] >= b[i + 1];
  }

  lemma {:induction false} SweepContains(raw: seq<Region>, b: seq<u64>, r: nat)
    requires SweepOrder(raw, b) && r < |raw|
    ensures raw[r].start in b && raw[r].end in b
  {
    BoundsContain(raw, r);
    assert raw[r].start in multiset(b) && raw[r].end in multiset(b);
  }

  /** No region boundary lies strictly inside a span, so a region contains all of it or none of it. */
  lemma {:induction false} SpanUncut(raw: seq<Region>, b: seq<u64>, i: nat, r: nat, a: nat)
    requires SweepOrder(raw, b) && i + 1 < |b| && r < |raw| && b[i] <= a < b[i + 1]
    ensures Covers(raw[r], a) <==> raw[r].start <= b[i] && raw[r].end >= b[i + 1]
  {
    SweepContains(raw, b, r);
    NoBoundInside(b, i, raw[r].start);
    NoBoundInside(b, i, raw[r].end);
  }

  lemma {:induction false} SpanKindIsKindAt(raw: seq<Region>, lo: u64, hi: u64, a: nat)
    requires forall r :: 0 <= r < |raw| ==> (Covers(raw[r], a) <==> raw[r].start <= lo && raw[r].end >= hi)
    ensures SpanKind(raw, lo, hi) == KindAt(raw, a)
  {
    if raw != [] {
      SpanKindIsKindAt(raw[..|raw| - 1], lo, hi, a);
    }
  }

  lemma {:induction false} SpanMeaning(raw: seq<Region>, b: seq<u64>, i: nat, a: nat)
    requires SweepOrder(raw, b) && i + 1 < |b| && b[i] <= a < b[i + 1]
    ensures SpanKind(raw, b[i], b[i + 1]) == KindAt(raw, a)
  {
    forall r | 0 <= r < |raw|
      ensures Covers(raw[r], a) <==> raw[r].start <= b[i] && raw[r].end >= b[i + 1]
    {
      SpanUncut(raw, b, i, r, a);
    }
    SpanKindIsKindAt(raw, b[i], b[i + 1], a);
  }

  /** The spans are in order, apart from each other, start at lo or later, and say only what the raw regions say. */
  ghost predicate SoundFrom(raw: seq<Region>, m: seq<Region>, lo: nat) {
    && SortedDisjoint(m)
    && (forall j :: 0 <= j < |m| ==> lo <= m[j].start)
    && (forall j, a :: 0 <= j < |m| && Covers(m[j], a) ==> KindAt(raw, a) == Some(m[j].kind))
  }

  lemma {:induction false} PrependSound(raw: seq<Region>, r: Region, rest: seq<Region>)
    requires r.start < r.end && SoundFrom(raw, rest, r.end)
    requires forall a | Covers(r, a) :: KindAt(raw, a) == Some(r.kind)
    ensures SoundFrom(raw, [r] + rest, r.start)
  {
    var m := [r] + rest;
    assert forall j :: 0 < j < |m| ==> m[j] == rest[j - 1];
  }

  lemma {:induction false} SpansSound(raw: seq<Region>, b: seq<u64>, i: nat)
    requires SweepOrder(raw, b)
    ensures SoundFrom(raw, Spans(raw, b, i), if i < |b| then b[i] else 0)
    decreases |b| - i
  {
    if i + 1 < |b| {
      SpansSound(raw, b, i + 1);
      var rest, k := Spans(raw, b, i + 1), SpanKind(raw, b[i], b[i + 1]);
      if b[i] != b[i + 1] && k.Some? {
        var r := Region(b[i], b[i + 1], k.value);
        forall a | Covers(r, a)
          ensures KindAt(raw, a) == Some(r.kind)
        {
          SpanMeaning(raw, b, i, a);
        }
        PrependSound(raw, r, rest);
      }
    }
  }

  lemma {:induction false} SaysPrepend(r: Region, m: seq<Region>, a: nat, k: Kind)
    requires Says(m, a, k) || (Covers(r, a) && r.kind == k)
    ensures Says([r] + m, a, k)
  {
    var all := [r] + m;
    assert all[0] == r && forall j :: 0 <= j < |m| ==> all[j + 1] == m[j];
  }

  lemma {:induction false} SpansCoverFrom(raw: seq<Region>, b: seq<u64>, i: nat, a: nat)
    requires SweepOrder(raw, b) && i < |b| && b[i] <= a < b[|b| - 1] && KindAt(raw, a).Some?
    ensures Says(Spans(raw, b, i), a, KindAt(raw, a).value)
    decreases |b| - i
  {
    var kind := KindAt(raw, a).value;
    var k := SpanKind(raw, b[i], b[i + 1]);
    if a < b[i + 1] {
      SpanMeaning(raw, b, i, a);
    } else {
      SpansCoverFrom(raw, b, i + 1, a);
    }
    if b[i] != b[i + 1] && k.Some? {
      SaysPrepend(Region(b[i], b[i + 1], k.value), Spans(raw, b, i + 1), a, kind);
    }
  }

  /** Nothing is lost: every address with a kind lies in a span of that kind. */
  lemma {:induction false} SpansComplete(raw: seq<Region>, b: seq<u64>, a: nat)
    requires SweepOrder(raw, b) && KindAt(raw, a).Some?
    ensures Says(Spans(raw, b, 0), a, KindAt(raw, a).value)
  {
    var r :| 0 <= r < |raw| && Covers(raw[r], a);
    SweepContains(raw, b, r);
    var s :| 0 <= s < |b| && b[s] == raw[r].start;
    var e :| 0 <= e < |b| && b[e] == raw[r].end;
    SpansCoverFrom(raw, b, 0, a);
  }

  ghost predicate SameMeaning(m: seq<Region>, m': seq<Region>) {
    forall a, k :: Says(m, a, k) <==> Says(m', a, k)
  }

  /** No two neighbours of the same kind touch. */
  ghost predicate Maximal(m: seq<Region>) {
    forall i :: 0 <= i < |m| - 1 ==> m[i].kind != m[i + 1].kind || m[i].end != m[i + 1].start
  }

  lemma {:induction false} SaysSnoc(m: seq<Region>, r: Region, a: nat, k: Kind)
    ensures Says(m + [r], a, k) <==> Says(m, a, k) || (Covers(r, a) && r.kind == k)
  {
    var n := m + [r];
    assert n[|m|] == r && (forall i :: 0 <= i < |m| ==> n[i] == m[i]);
  }

  lemma {:induction false} MergeIntoMeaning(done: seq<Region>, r: Region, a: nat, k: Kind)
    requires SortedDisjoint(done) && r.start < r.end && (done != [] ==> done[|done| - 1].end <= r.start)
    ensures Says(MergeInto(done, r), a, k) <==> Says(done + [r], a, k)
  {
    SaysSnoc(done, r, a, k);
    if done != [] && done[|done| - 1].kind == r.kind && done[|done| - 1].end == r.start {
      var init, last := done[..|done| - 1], done[|done| - 1];
      assert done == init + [last];
      SaysSnoc(init, last, a, k);
      SaysSnoc(init, last.(end := r.end), a, k);
    }
  }

  /** The last merged region ends where the last region does, and has its kind. */
  ghost predicate MergedUpTo(m: seq<Region>, done: seq<Region>) {
    && SortedDisjoint(done) && Maximal(done) && |done| <= |m|
    && (m != [] ==> done != [] && done[|done| - 1].end == m[|m| - 1].end && done[|done| - 1].kind == m[|m| - 1].kind)
  }

  lemma {:induction false} MergeIntoShape(m: seq<Region>, done: seq<Region>, r: Region)
    requires MergedUpTo(m, done) && r.start < r.end && (m != [] ==> m[|m| - 1].end <= r.start) &&
      (m == [] ==> done == [])
    ensures MergedUpTo(m + [r], MergeInto(done, r))
  {
    var n, out := |done|, MergeInto(done, r);
    assert (m + [r])[|m + [r]| - 1] == r;
    if n > 0 && done[n - 1].kind == r.kind && done[n - 1].end == r.start {
      assert |out| == n && out[n - 1] == done[n - 1].(end := r.end);
      assert forall i :: 0 <= i < n - 1 ==> out[i] == done[i];
    } else {
      assert |out| == n + 1 && out[n] == r;
      assert forall i :: 0 <= i < n ==> out[i] == done[i];
      assert forall i :: 0 <= i < n ==> out[i].end <= r.start;
    }
  }

  lemma {:induction false} MergedShape(m: seq<Region>)
    requires SortedDisjoint(m)
    ensures MergedUpTo(m, Merged(m))
  {
    if m != [] {
      var init, r := m[..|m| - 1], m[|m| - 1];
      MergedShape(init);
      assert m == init + [r];
      assert init != [] ==> init[|init| - 1] == m[|m| - 2];
      MergeIntoShape(init, Merged(init), r);
    }
  }

  /** Merging touching regions of one kind changes no address. */
  lemma {:induction false} MergedMeaning(m: seq<Region>)
    requires SortedDisjoint(m)
    ensures SameMeaning(Merged(m), m)
  {
    if m != [] {
      var init, r := m[..|m| - 1], m[|m| - 1];
      MergedMeaning(init);
      MergedShape(init);
      assert m == init + [r];
      assert init != [] ==> init[|init| - 1] == m[|m| - 2];
      forall a, k
        ensures Says(Merged(m), a, k) <==> Says(m, a, k)
      {
        MergeIntoMeaning(Merged(init), r, a, k);
        SaysSnoc(Merged(init), r, a, k);
        SaysSnoc(init, r, a, k);
      }
    }
  }

  /** The normalised map before page alignment. */
  function MergedMap(raw: seq<Region>, b: seq<u64>): seq<Region> {
    Merged(Truncated(Spans(raw, b, 0)))
  }

  /** The map agrees with the raw regions on every address. */
  ghost predicate Exact(raw: seq<Region>, m: seq<Region>) {
    forall a, k :: Says(m, a, k) <==> KindAt(raw, a) == Some(k)
  }

  /** Even when spans were dropped, the map is in order and never contradicts the raw regions. */
  lemma {:induction false} MergedMapSound(raw: seq<Region>, b: seq<u64>)
    requires SweepOrder(raw, b)
    ensures SortedDisjoint(MergedMap(raw, b)) && Maximal(MergedMap(raw, b)) && |MergedMap(raw, b)| <= MAX_REGIONS
    ensures forall a, k :: Says(MergedMap(raw, b), a, k) ==> KindAt(raw, a) == Some(k)
  {
    SpansSound(raw, b, 0);
    var m := Truncated(Spans(raw, b, 0));
    MergedMeaning(m);
    MergedShape(m);
    forall a, k | Says(MergedMap(raw, b), a, k)
      ensures KindAt(raw, a) == Some(k)
    {
      assert Says(m, a, k);
    }
  }

  /**
   Each address of the merged map has exactly the highest-priority kind among
   the raw regions containing it, or none, precisely when the sweep yields no
   more than 128 spans.
  */
  lemma {:induction false} NormalisationPreservesMeaning(raw: seq<Region>, b: seq<u64>)
    requires SweepOrder(raw, b)
    ensures Exact(raw, MergedMap(raw, b)) <==> |Spans(raw, b, 0)| <= MAX_REGIONS
  {
    if |Spans(raw, b, 0)| <= MAX_REGIONS {
      FewSpansAreExact(raw, b);
    } else {
      ManySpansAreNot(raw, b);
    }
  }

  lemma {:induction false} FewSpansAreExact(raw: seq<Region>, b: seq<u64>)
    requires SweepOrder(raw, b) && |Spans(raw, b, 0)| <= MAX_REGIONS
    ensures Exact(raw, MergedMap(raw, b))
  {
    var all := Spans(raw, b, 0);
    SpansSound(raw, b, 0);
    MergedMapSound(raw, b);
    MergedMeaning(Truncated(all));
    forall a, k | KindAt(raw, a) == Some(k)
      ensures Says(MergedMap(raw, b), a, k)
    {
      SpansComplete(raw, b, a);
      assert Says(Truncated(all), a, k);
    }
  }

  lemma {:induction false} ManySpansAreNot(raw: seq<Region>, b: seq<u64>)
    requires SweepOrder(raw, b) && |Spans(raw, b, 0)| > MAX_REGIONS
    ensures !Exact(raw, MergedMap(raw, b))
  {
    var all := Spans(raw, b, 0);
    SpansSound(raw, b, 0);
    MergedMeaning(Truncated(all));
    DroppedSpanIsMissing(raw, all, MAX_REGIONS);
    var lost := all[MAX_REGIONS];
    SpanIsMeant(raw, all, MAX_REGIONS);
    assert !Says(MergedMap(raw, b), lost.start, lost.kind);
  }

  lemma {:induction false} SpanIsMeant(raw: seq<Region>, all: seq<Region>, n: nat)
    requires SoundFrom(raw, all, 0) && n < |all|
    ensures KindAt(raw, all[n].start) == Some(all[n].kind)
  {
    assert Covers(all[n], all[n].start);
  }

  lemma {:induction false} DroppedSpanIsMissing(raw: seq<Region>, all: seq<Region>, n: nat)
    requires SortedDisjoint(all) && n < |all|
    ensures !Says(all[..n], all[n].start, all[n].kind)
  {
  }

  // ---- Page alignment ------------------------------------------------------

  /** Page p, the bytes [p, p + 4096), lies inside the region. */
  predicate HasPage(r: Region, p: nat) {
    r.start <= p && p + PAGE_SIZE <= r.end
  }

  /** `out` consists of exactly the whole pages inside the usable region r. */
  ghost predicate WholePages(r: Region, out: Region) {
    && out.start % PAGE_SIZE == 0 && out.end % PAGE_SIZE == 0
    && (forall p: nat :: p % PAGE_SIZE == 0 ==> (HasPage(out, p) <==> HasPage(r, p)))
  }

  /**
   Alignment keeps exactly the whole pages of a usable region precisely when
   the region starts no higher than 2^64 - 4096. Above that the rounding sum
   wraps and a region in the last page becomes nearly the whole address space.
  */
  lemma {:induction false} AlignedKeepsPages(r: Region)
    requires r.kind == UsableRam && r.start < r.end
    ensures WholePages(r, Aligned(r)) <==> r.start <= TWO64 - PAGE_SIZE
  {
    AlignDownIs(r.end, PAGE_SIZE);
    if r.start <= TWO64 - PAGE_SIZE {
      AlignUpIs(r.start, PAGE_SIZE);
      forall p: nat | p % PAGE_SIZE == 0
        ensures HasPage(Aligned(r), p) <==> HasPage(r, p)
      {
      }
    } else {
      AlignUpWraps(r.start, PAGE_SIZE);
      assert HasPage(Aligned(r), 0) && !HasPage(r, 0);
    }
  }

  /** Usable memory begins at address a: the byte before it is not usable. */
  ghost predicate UsableStart(raw: seq<Region>, a: nat) {
    KindAt(raw, a) == Some(UsableRam) && (a == 0 || KindAt(raw, a - 1) != Some(UsableRam))
  }

  /** No stretch of usable memory begins inside the last page of the address space. */
  ghost predicate NoLateStart(raw: seq<Region>) {
    forall a: nat :: UsableStart(raw, a) ==> a <= TWO64 - PAGE_SIZE
  }

  ghost predicate StartsByLastPage(m: seq<Region>) {
    forall i :: 0 <= i < |m| && m[i].kind == UsableRam ==> m[i].start <= TWO64 - PAGE_SIZE
  }

  /** In a map without touching neighbours of one kind, a region's kind does not reach below its start. */
  lemma {:induction false} KindBegins(m: seq<Region>, i: nat)
    requires SortedDisjoint(m) && Maximal(m) && i < |m| && m[i].start > 0
    ensures !Says(m, m[i].start - 1, m[i].kind)
  {
    forall s | 0 <= s < |m| && m[s].kind == m[i].kind
      ensures !Covers(m[s], m[i].start - 1)
    {
      if s + 1 < i {
        assert m[s].end <= m[i - 1].start < m[i - 1].end <= m[i].start;
      }
    }
  }

  /** The dropped spans are the highest ones: a kept span never loses the byte before it. */
  lemma {:induction false} TruncationDropsTheTop(all: seq<Region>, s: nat, k: Kind)
    requires SortedDisjoint(all) && s > 0 && Says(Truncated(all), s, k) && Says(all, s - 1, k)
    ensures Says(Truncated(all), s - 1, k)
  {
    var t := Truncated(all);
    var i :| 0 <= i < |t| && Covers(t[i], s) && t[i].kind == k;
    var j :| 0 <= j < |all| && Covers(all[j], s - 1) && all[j].kind == k;
    assert j <= i;
    assert t[j] == all[j];
  }

  /** The usable regions of the merged map start where usable memory begins. */
  lemma {:induction false} MapStarts(raw: seq<Region>, b: seq<u64>, i: nat)
    requires SweepOrder(raw, b) && i < |MergedMap(raw, b)| && MergedMap(raw, b)[i].kind == UsableRam
    ensures UsableStart(raw, MergedMap(raw, b)[i].start)
  {
    var m := MergedMap(raw, b);
    MergedMapSound(raw, b);
    assert Covers(m[i], m[i].start) && Says(m, m[i].start, UsableRam);
    if m[i].start > 0 && KindAt(raw, m[i].start - 1) == Some(UsableRam) {
      UsableBelowIsKept(raw, b, m[i].start);
      KindBegins(m, i);
    }
  }

  lemma {:induction false} UsableBelowIsKept(raw: seq<Region>, b: seq<u64>, s: nat)
    requires SweepOrder(raw, b) && s > 0 && KindAt(raw, s - 1) == Some(UsableRam) &&
      Says(MergedMap(raw, b), s, UsableRam)
    ensures Says(MergedMap(raw, b), s - 1, UsableRam)
  {
    SpansSound(raw, b, 0);
    SpansComplete(raw, b, s - 1);
    KeptBelow(Spans(raw, b, 0), s);
  }

  lemma {:induction false} KeptBelow(all: seq<Region>, s: nat)
    requires SortedDisjoint(all) && s > 0 && Says(Merged(Truncated(all)), s, UsableRam) && Says(all, s - 1, UsableRam)
    ensures Says(Merged(Truncated(all)), s - 1, UsableRam)
  {
    MergedMeaning(Truncated(all));
    TruncationDropsTheTop(all, s, UsableRam);
  }

  /** Alignment only shrinks regions, so the non-empty ones stay sorted and disjoint. */
  lemma {:induction false} AlignedShrinks(r: Region)
    requires r.start < r.end && (r.kind == UsableRam ==> r.start <= TWO64 - PAGE_SIZE)
    ensures var out := Aligned(r);
      out == EMPTY_REGION || (r.start <= out.start < out.end <= r.end && out.kind == r.kind)
  {
    AlignDownIs(r.end, PAGE_SIZE);
    if r.kind == UsableRam {
      AlignUpIs(r.start, PAGE_SIZE);
    }
  }

  /** Facts about the final map m' obtained from the merged map m by alignment. */
  ghost predicate AlignedFrom(m: seq<Region>, out: seq<Region>) {
    && |out| == |m|
    && (forall i :: 0 <= i < |out| ==>
          && (m[i].kind != UsableRam ==> out[i] == m[i])
          && (m[i].kind == UsableRam ==> WholePages(m[i], out[i]))
          && (out[i] == EMPTY_REGION || (m[i].start <= out[i].start < out[i].end <= m[i].end &&
            out[i].kind == m[i].kind)))
  }

  lemma {:induction false} AlignedAllFacts(m: seq<Region>)
    requires SortedDisjoint(m) && StartsByLastPage(m)
    ensures AlignedFrom(m, AlignedAll(m))
  {
    forall i | 0 <= i < |m|
      ensures m[i].kind == UsableRam ==> WholePages(m[i], Aligned(m[i]))
      ensures var o := Aligned(m[i]);
        o == EMPTY_REGION || (m[i].start <= o.start < o.end <= m[i].end && o.kind == m[i].kind)
    {
      AlignedShrinks(m[i]);
      if m[i].kind == UsableRam {
        AlignedKeepsPages(m[i]);
      }
    }
  }

  lemma {:induction false} AlignedSays(m: seq<Region>, out: seq<Region>, a: nat, k: Kind)
    requires AlignedFrom(m, out) && Says(out, a, k)
    ensures Says(m, a, k)
  {
    var i :| 0 <= i < |out| && Covers(out[i], a) && out[i].kind == k;
    assert Covers(m[i], a);
  }

  /** What the memory manager relies on. */
  ghost predicate SoundMap(raw: seq<Region>, out: seq<Region>) {
    && (forall i, j :: 0 <= i < j < |out| && out[i].start < out[i].end && out[j].start < out[j].end ==>
          out[i].end <= out[j].start)
    && (forall a, k :: Says(out, a, k) ==> KindAt(raw, a) == Some(k))
    && (forall i :: 0 <= i < |out| && out[i].kind == UsableRam ==>
          out[i].start < out[i].end && out[i].start % PAGE_SIZE == 0 && out[i].end % PAGE_SIZE == 0)
  }

  /**
   The final map: in order, true to the raw regions even when spans were
   dropped, its usable regions exactly the whole pages of the merged ones.
  */
  lemma {:induction false} NormalisedSound(raw: seq<Region>, b: seq<u64>)
    requires SweepOrder(raw, b) && NoLateStart(raw)
    ensures AlignedFrom(MergedMap(raw, b), Normalised(raw, b))
    ensures SoundMap(raw, Normalised(raw, b))
  {
    var m, out := MergedMap(raw, b), Normalised(raw, b);
    MergedMapSound(raw, b);
    forall i | 0 <= i < |m| && m[i].kind == UsableRam
      ensures m[i].start <= TWO64 - PAGE_SIZE
    {
      MapStarts(raw, b, i);
    }
    AlignedAllFacts(m);
    forall a, k | Says(out, a, k)
      ensures KindAt(raw, a) == Some(k)
    {
      AlignedSays(m, out, a, k);
    }
  }
}
