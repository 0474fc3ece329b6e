/** The mutable region tables and their in-place algorithms (src/mm/region.rs). */
module MemoryMaps {
  import opened Machine
  import opened Wrappers
  import opened Layout
  import opened RegionModel

  lemma {:induction false} SwapMultiset(s: seq<u64>, i: nat, j: nat)
    requires i < j < |s|
    ensures multiset(s[i := s[j]][j := s[i]]) == multiset(s)
  {
  }

  /** Every value of the prefix before i is in order and no larger than any later value. */
  ghost predicate SettledUpTo(s: seq<u64>, i: nat) {
    forall k, l :: 0 <= k < i && k < l < |s| ==> s[k] <= s[l]
  }

  lemma {:induction false} SettleStep(s: seq<u64>, i: nat, j: nat)
    requires i < j < |s| && SettledUpTo(s, i) && (forall l :: i < l < j ==> s[i] <= s[l]) && s[j] < s[i]
    ensures var t := s[i := s[j]][j := s[i]]; SettledUpTo(t, i) && (forall l :: i < l <= j ==> t[i] <= t[l])
  {
  }

  /** One comparison of the inner loop. */
  lemma {:induction false} ExchangeStep(s: seq<u64>, i: nat, j: nat, t: seq<u64>)
    requires i < j < |s| && SettledUpTo(s, i) && (forall l :: i < l < j ==> s[i] <= s[l])
    requires t == if s[j] < s[i] then s[i := s[j]][j := s[i]] else s
    ensures SettledUpTo(t, i) && (forall l :: i < l <= j ==> t[i] <= t[l]) && multiset(t) == multiset(s)
  {
    if s[j] < s[i] {
      SettleStep(s, i, j);
      SwapMultiset(s, i, j);
    }
  }

  /** One comparison of the inner loop, on the first len values. */
  method Exchange(values: array<u64>, len: nat, i: nat, j: nat)
    requires i < j < len <= values.Length && SettledUpTo(values[..len], i)
    requires forall l :: i < l < j ==> values[..len][i] <= values[..len][l]
    modifies values
    ensures SettledUpTo(values[..len], i) && (forall l :: i < l <= j ==> values[..len][i] <= values[..len][l])
    ensures multiset(values[..len]) == multiset(old(values[..len])) && values[len..] == old(values[len..])
  {
    ghost var s := values[..len];
    if values[j] < values[i] {
      values[i], values[j] := values[j], values[i];
      assert values[..len] == s[i := s[j]][j := s[i]];
    }
    ExchangeStep(s, i, j, values[..len]);
  }

  /** sort_u64 on the first `len` values: exchange sort in place. */
  method SortU64(values: array<u64>, len: nat)
    requires len <= values.Length
    modifies values
    ensures Sorted(values[..len])
    ensures multiset(values[..len]) == multiset(old(values[..len]))
    ensures values[len..] == old(values[len..])
  {
    var i := 0;
    while i < len
      invariant i <= len
      invariant SettledUpTo(values[..len], i)
      invariant multiset(values[..len]) == multiset(old(values[..len])) && values[len..] == old(values[len..])
    {
      var j := i + 1;
      while j < len
        invariant i < j <= len
        invariant SettledUpTo(values[..len], i)
        invariant forall l :: i < l < j ==> values[..len][i] <= values[..len][l]
        invariant multiset(values[..len]) == multiset(old(values[..len])) && values[len..] == old(values[len..])
      {
        Exchange(values, len, i, j);
        j := j + 1;
      }
      i := i + 1;
    }
  }

  lemma {:induction false} TruncatedSnoc(m: seq<Region>, r: Region)
    ensures Truncated(m + [r]) == if |m| >= MAX_REGIONS then Truncated(m) else Truncated(m) + [r]
  {
    if |m| >= MAX_REGIONS {
      assert (m + [r])[..MAX_REGIONS] == m[..MAX_REGIONS];
    }
  }

  lemma {:induction false} SpansStep(raw: seq<Region>, b: seq<u64>, i: nat, done: seq<Region>)
    requires i + 1 < |b| && b[i] != b[i + 1]
    ensures var k := SpanKind(raw, b[i], b[i + 1]);
      done + Spans(raw, b, i) ==
        (if k.None? then done else done + [Region(b[i], b[i + 1], k.value)]) + Spans(raw, b, i + 1)
  {
  }

  /** Merged, by position: the first r regions merged. */
  function MergedFirst(m: seq<Region>, r: nat): seq<Region>
    requires r <= |m|
  {
    if r == 0 then [] else MergeInto(MergedFirst(m, r - 1), m[r - 1])
  }

  lemma {:induction false} MergedFirstIs(m: seq<Region>, r: nat)
    requires r <= |m|
    ensures MergedFirst(m, r) == Merged(m[..r])
  {
    if r > 0 {
      MergedFirstIs(m, r - 1);
      assert m[..r][..r - 1] == m[..r - 1];
    }
  }

  lemma {:induction false} MergedAll(m: seq<Region>)
    ensures MergedFirst(m, |m|) == Merged(m)
  {
    MergedFirstIs(m, |m|);
    assert m[..|m|] == m;
  }

  lemma {:induction false} MergedNext(m: seq<Region>, r: nat, done: seq<Region>, current: Region)
    requires r < |m| && MergedFirst(m, r) == done + [current]
    ensures MergedFirst(m, r + 1) ==
      if m[r].kind == current.kind && m[r].start == current.end then done + [current.(end := m[r].end)]
      else done + [current] + [m[r]]
  {
    assert (done + [current])[..|done + [current]| - 1] == done;
  }

  class MemoryMap {
    const regions: array<Region>
    var len: nat

    ghost predicate Valid()
      reads this
    {
      regions.Length == MAX_REGIONS && len <= MAX_REGIONS
    }

    ghost function View(): seq<Region>
      requires Valid()
      reads this, regions
    {
      regions[..len]
    }

    constructor ()
      ensures Valid() && View() == [] && fresh(regions)
    {
      regions := new Region[MAX_REGIONS](_ => EMPTY_REGION);
      len := 0;
    }

    method AddRegion(start: u64, size: u64, kind: Kind)
      requires Valid()
      modifies this, regions
      ensures Valid() && View() == Added(old(View()), start, size, kind)
    {
      if size == 0 || len >= MAX_REGIONS {
        return;
      }
      var end := Min(start + size, U64_MAX);
      regions[len] := Region(start, end, kind);
      len := len + 1;
    }

    /** The boundaries of all regions, in the order of the table. */
    method CollectBounds() returns (boundaries: array<u64>, count: nat)
      requires Valid()
      ensures fresh(boundaries) && count <= boundaries.Length
      ensures boundaries[..count] == Bounds(View())
    {
      boundaries := new u64[2 * MAX_REGIONS](_ => 0);
      count := 0;
      for r := 0 to len
        invariant count == 2 * r && boundaries.Length == 2 * MAX_REGIONS
        invariant boundaries[..count] == Bounds(regions[..r])
      {
        assert regions[..r + 1][..r] == regions[..r];
        boundaries[count] := regions[r].start;
        count := count + 1;
        boundaries[count] := regions[r].end;
        count := count + 1;
      }
    }

    /** The highest-priority kind covering the whole span. */
    method BestKind(start: u64, end: u64) returns (kind: Option<Kind>)
      requires Valid()
      ensures kind == SpanKind(View(), start, end)
    {
      kind := None;
      var best := 0;
      for r := 0 to len
        invariant kind == SpanKind(regions[..r], start, end)
        invariant best == if kind.None? then 0 else Priority(kind.value)
      {
        assert regions[..r + 1][..r] == regions[..r];
        if regions[r].start <= start && regions[r].end >= end {
          var prio := Priority(regions[r].kind);
          if prio > best {
            best := prio;
            kind := Some(regions[r].kind);
          }
        }
      }
    }

    method SortedBounds() returns (boundaries: array<u64>, count: nat)
      requires Valid()
      ensures fresh(boundaries) && count <= boundaries.Length
      ensures SweepOrder(View(), boundaries[..count])
    {
      boundaries, count := CollectBounds();
      SortU64(boundaries, count);
    }

    /** The sweep over consecutive boundaries. */
    method Sweep(boundaries: array<u64>, count: nat) returns (out: NormalizedMap)
      requires Valid() && count <= boundaries.Length
      ensures out.Valid() && fresh(out) && fresh(out.regions)
      ensures out.View() == Truncated(Spans(View(), boundaries[..count], 0))
    {
      out := new NormalizedMap();
      ghost var raw, b := View(), boundaries[..count];
      ghost var done: seq<Region> := [];
      var i := 0;
      while i + 1 < count
        invariant out.Valid() && fresh(out) && fresh(out.regions)
        invariant done + Spans(raw, b, i) == Spans(raw, b, 0)
        invariant out.View() == Truncated(done)
        decreases count - i
      {
        var start, end := boundaries[i], boundaries[i + 1];
        if start == end {
          i := i + 1;
          continue;
        }
        var kind := BestKind(start, end);
        SpansStep(raw, b, i, done);
        if kind.Some? {
          var region := Region(start, end, kind.value);
          TruncatedSnoc(done, region);
          out.Push(region);
          done := done + [region];
        }
        i := i + 1;
      }
      assert done + [] == done;
    }

    method Normalize() returns (out: NormalizedMap)
      requires Valid()
      ensures out.Valid() && fresh(out) && fresh(out.regions)
      ensures IsNormalised(View(), out.View())
    {
      var boundaries, count := SortedBounds();
      ghost var raw, b := View(), boundaries[..count];
      out := Sweep(boundaries, count);
      ghost var swept := out.View();
      out.MergeAdjacent();
      out.AlignUsable();
      NormalisedBy(raw, b, swept, out.View());
    }
  }

  class NormalizedMap {
    var regions: array<Region>
    var len: nat

    ghost predicate Valid()
      reads this
    {
      regions.Length == MAX_REGIONS && len <= MAX_REGIONS
    }

    ghost function View(): seq<Region>
      requires Valid()
      reads this, regions
    {
      regions[..len]
    }

    constructor ()
      ensures Valid() && View() == [] && fresh(regions)
    {
      regions := new Region[MAX_REGIONS](_ => EMPTY_REGION);
      len := 0;
    }

    method Push(region: Region)
      requires Valid()
      modifies this`len, regions
      ensures Valid() && regions == old(regions)
      ensures View() == if |old(View())| >= MAX_REGIONS then old(View()) else old(View()) + [region]
    {
      if len >= MAX_REGIONS {
        return;
      }
      regions[len] := region;
      len := len + 1;
    }

    /** The merging loop, into a fresh table. */
    method CollectMerged() returns (out: array<Region>, outLen: nat)
      requires Valid() && len > 0
      ensures fresh(out) && out.Length == MAX_REGIONS && outLen <= MAX_REGIONS
      ensures out[..outLen] == MergedFirst(View(), |View()|)
    {
      ghost var m := View();
      out := new Region[MAX_REGIONS](_ => EMPTY_REGION);
      outLen := 0;
      var current := regions[0];
      ghost var done: seq<Region> := [];
      for r := 1 to len
        invariant outLen == |done| < r && out[..outLen] == done
        invariant MergedFirst(m, r) == done + [current]
      {
        var region := regions[r];
        MergedNext(m, r, done, current);
        if region.kind == current.kind && region.start == current.end {
          current := current.(end := region.end);
        } else {
          out[outLen] := current;
          outLen := outLen + 1;
          done := done + [current];
          current := region;
        }
      }
      out[outLen] := current;
      outLen := outLen + 1;
    }

    method MergeAdjacent()
      requires Valid()
      modifies this
      ensures Valid() && (regions == old(regions) || fresh(regions))
      ensures View() == Merged(old(View()))
    {
      if len == 0 {
        return;
      }
      MergedAll(View());
      regions, len := CollectMerged();
    }

    method AlignUsable()
      requires Valid()
      modifies regions
      ensures Valid()
      ensures View() == AlignedAll(old(View()))
    {
      for r := 0 to len
        invariant forall i :: 0 <= i < r ==> regions[i] == Aligned(old(regions[i]))
        invariant forall i :: r <= i < len ==> regions[i] == old(regions[i])
      {
        var region := regions[r];
        if region.kind != UsableRam {
          continue;
        }
        var start := AlignUp(region.start, PAGE_SIZE);
        var end := AlignDown(region.end, PAGE_SIZE);
        if end <= start {
          regions[r] := Region(0, 0, Reserved);
        } else {
          regions[r] := region.(start := start, end := end);
        }
      }
    }
  }
}
