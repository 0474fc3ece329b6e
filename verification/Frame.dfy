/** The bitmap frame allocator (src/mm/frame.rs). */
module FrameModel {
  import opened Machine
  import opened Wrappers
  import opened Layout

  // ---- One bit of a 64-bit word --------------------------------------------

  function Doubled(x: bv64): bv64 { x << 1 }

  function Common(x: bv64, y: bv64): bv64 { x & y }

  function With(w: bv64, mask: bv64): bv64 { w | mask }

  function WithoutMask(w: bv64, mask: bv64): bv64 { w & !mask }

  /** The mask of one bit, 1u64 << bit. */
  function Mask(bit: nat): bv64
    requires bit < 64
  {
    if bit == 0 then 1 else Doubled(Mask(bit - 1))
  }

  function ByteUp(x: bv64): bv64 { x << 8 }

  lemma {:induction false} EightDoublings(x: bv64)
    ensures Doubled(Doubled(Doubled(Doubled(Doubled(Doubled(Doubled(Doubled(x)))))))) == ByteUp(x)
  {
  }

  lemma {:induction false} MaskByteUp(bit: nat)
    requires bit < 56
    ensures Mask(bit + 8) == ByteUp(Mask(bit))
  {
    EightDoublings(Mask(bit));
    assert Mask(bit + 2) == Doubled(Doubled(Mask(bit)));
    assert Mask(bit + 4) == Doubled(Doubled(Mask(bit + 2)));
    assert Mask(bit + 6) == Doubled(Doubled(Mask(bit + 4)));
  }

  /** The masks of the source, read off at every eighth bit. */
  lemma {:induction false} MaskValues()
    ensures Mask(0) == 0x1 && Mask(8) == 0x100 && Mask(16) == 0x1_0000 && Mask(24) == 0x100_0000
    ensures Mask(32) == 0x1_0000_0000 && Mask(40) == 0x100_0000_0000
    ensures Mask(48) == 0x1_0000_0000_0000 && Mask(56) == 0x100_0000_0000_0000
  {
    MaskByteUp(0);
    MaskByteUp(8);
    MaskByteUp(16);
    MaskByteUp(24);
    MaskByteUp(32);
    MaskByteUp(40);
    MaskByteUp(48);
  }

  lemma {:induction false} DoublesDisjoint(x: bv64, y: bv64)
    requires Common(x, y) == 0
    ensures Common(Doubled(x), Doubled(y)) == 0
  {
  }

  lemma {:induction false} DoubledIsEven(x: bv64)
    ensures Common(1, Doubled(x)) == 0
  {
  }

  lemma {:induction false} CommonCommutes(x: bv64, y: bv64)
    ensures Common(x, y) == Common(y, x)
  {
  }

  /** Masks of different bits share no bit. */
  lemma {:induction false} MasksDisjoint(a: nat, b: nat)
    requires a < b < 64
    ensures Common(Mask(a), Mask(b)) == 0
  {
    if a > 0 {
      MasksDisjoint(a - 1, b - 1);
      DoublesDisjoint(Mask(a - 1), Mask(b - 1));
    } else {
      DoubledIsEven(Mask(b - 1));
    }
  }

  lemma {:induction false} DoubleOfZero(x: bv64)
    requires Doubled(x) != 0
    ensures x != 0
  {
  }

  lemma {:induction false} MaskNonzeroBelow(bit: nat, top: nat)
    requires bit <= top < 64 && Mask(top) != 0
    ensures Mask(bit) != 0
    decreases top - bit
  {
    if bit < top {
      MaskNonzeroBelow(bit + 1, top);
      DoubleOfZero(Mask(bit));
    }
  }

  lemma {:induction false} TopMask()
    ensures Mask(63) == 0x8000_0000_0000_0000
  {
    MaskValues();
    assert Mask(58) == Doubled(Doubled(Mask(56)));
    assert Mask(60) == Doubled(Doubled(Mask(58)));
    assert Mask(62) == Doubled(Doubled(Mask(60)));
  }

  lemma {:induction false} MaskNonzero(bit: nat)
    requires bit < 64
    ensures Mask(bit) != 0
  {
    TopMask();
    MaskNonzeroBelow(bit, 63);
  }

  lemma {:induction false} WordSet(w: bv64, x: bv64, y: bv64)
    requires Common(x, y) == 0
    ensures Common(With(w, x), y) == Common(w, y)
  {
  }

  lemma {:induction false} WordClear(w: bv64, x: bv64, y: bv64)
    requires Common(x, y) == 0
    ensures Common(WithoutMask(w, x), y) == Common(w, y)
  {
  }

  lemma {:induction false} WordUpdateSame(w: bv64, x: bv64)
    requires x != 0
    ensures Common(With(w, x), x) != 0 && Common(WithoutMask(w, x), x) == 0
  {
  }

  predicate BitOf(w: bv64, bit: nat)
    requires bit < 64
  {
    Common(w, Mask(bit)) != 0
  }

  /** Setting or clearing one bit leaves the other 63 alone. */
  lemma {:induction false} WordBits(w: bv64, bit: nat, other: nat)
    requires bit < 64 && other < 64
    ensures BitOf(With(w, Mask(bit)), other) <==> other == bit || BitOf(w, other)
    ensures BitOf(WithoutMask(w, Mask(bit)), other) <==> other != bit && BitOf(w, other)
  {
    if bit == other {
      MaskNonzero(bit);
      WordUpdateSame(w, Mask(bit));
    } else {
      if bit < other {
        MasksDisjoint(bit, other);
      } else {
        MasksDisjoint(other, bit);
        CommonCommutes(Mask(other), Mask(bit));
      }
      WordSet(w, Mask(bit), Mask(other));
      WordClear(w, Mask(bit), Mask(other));
    }
  }

  const ALL_ONES: bv64 := 0xFFFF_FFFF_FFFF_FFFF

  lemma {:induction false} CommonWithOnes(x: bv64)
    ensures Common(ALL_ONES, x) == x
  {
  }

  lemma {:induction false} AllOnes(bit: nat)
    requires bit < 64
    ensures BitOf(ALL_ONES, bit)
  {
    MaskNonzero(bit);
    CommonWithOnes(Mask(bit));
  }

  // ---- What the allocator promises, on sets of free frames -----------------

  function FrameRange(first: nat, pages: nat): (r: set<nat>)
    ensures forall j: nat :: j in r <==> first <= j < first + pages
  {
    if pages == 0 then {} else FrameRange(first, pages - 1) + {first + pages - 1}
  }

  ghost predicate FreeRun(free: set<nat>, first: nat, pages: nat) {
    forall j :: first <= j < first + pages ==> j in free
  }

  lemma {:induction false} RunOfOne(free: set<nat>)
    ensures forall i :: FreeRun(free, i, 1) <==> i in free
  {
    forall i | FreeRun(free, i, 1)
      ensures i in free
    {
      assert i <= i < i + 1;
    }
  }

  lemma {:induction false} RangeOfOne(first: nat)
    ensures FrameRange(first, 1) == {first}
  {
  }

  /** Allocation of a run of frames: the lowest free run, claimed exactly; failure only when there is none. */
  ghost predicate Allocates(free: set<nat>, count: nat, pages: nat, r: Option<nat>, free': set<nat>) {
    match r
    case Some(first) =>
      && pages > 0 && first + pages <= count && FreeRun(free, first, pages)
      && (forall i :: 0 <= i < first ==> !FreeRun(free, i, pages))
      && free' == free - FrameRange(first, pages)
    case None =>
      && free' == free
      && (pages > 0 ==> forall i :: 0 <= i && i + pages <= count ==> !FreeRun(free, i, pages))
  }

  /** free_frame: the frame that contains the address becomes free. */
  function Freed(free: set<nat>, count: nat, paddr: nat): set<nat> {
    if paddr / PAGE_SIZE < count then free + {paddr / PAGE_SIZE} else free
  }

  /** Freeing a frame just allocated restores the set of free frames. */
  lemma {:induction false} FreeUndoesAllocation(free: set<nat>, count: nat, first: nat, free': set<nat>, offset: nat)
    requires Allocates(free, count, 1, Some(first), free') && offset < PAGE_SIZE
    ensures Freed(free', count, first * PAGE_SIZE + offset) == free
  {
    assert first in free;
    assert (first * PAGE_SIZE + offset) / PAGE_SIZE == first;
  }

  // ---- Runs ----------------------------------------------------------------

  datatype Request = Alloc(pages: nat, result: Option<nat>) | Free(paddr: nat)

  /** A history of the allocator: the set of free frames after each request. */
  datatype Ledger = Opened(free: set<nat>) | Entry(before: Ledger, request: Request, free: set<nat>)
  {
    function Initial(): set<nat> {
      match this
      case Opened(f) => f
      case Entry(before, _, _) => before.Initial()
    }

    /** Frames handed out and not yet returned. */
    function Held(): set<nat> {
      match this
      case Opened(_) => {}
      case Entry(before, Alloc(pages, Some(first)), _) => before.Held() + FrameRange(first, pages)
      case Entry(before, Alloc(_, None), _) => before.Held()
      case Entry(before, Free(paddr), _) => before.Held() - {paddr / PAGE_SIZE}
    }

    /** Every request is answered as the allocator does, and only held frames are freed. */
    ghost predicate Valid(count: nat) {
      match this
      case Opened(f) => f <= FrameRange(0, count)
      case Entry(before, Alloc(pages, r), free') => before.Valid(count) &&
        Allocates(before.free, count, pages, r, free')
      case Entry(before, Free(paddr), free') =>
        before.Valid(count) && paddr / PAGE_SIZE in before.Held() && free' == Freed(before.free, count, paddr)
    }
  }

  /** No frame is lost or created: at any time the held and the free frames split the initial ones. */
  lemma {:induction false} FramesConserved(l: Ledger, count: nat)
    requires l.Valid(count)
    ensures l.Held() !! l.free && l.Held() + l.free == l.Initial()
    ensures l.Initial() <= FrameRange(0, count)
  {
    match l
    case Opened(_) =>
    case Entry(before, Alloc(pages, r), _) =>
      FramesConserved(before, count);
    case Entry(before, Free(paddr), _) =>
      FramesConserved(before, count);
      assert paddr / PAGE_SIZE in FrameRange(0, count);
  }

  /** Every frame handed out was initially free and is held by nobody else. */
  lemma {:induction false} HandedOutFresh(l: Ledger, count: nat, frame: nat)
    requires l.Valid(count) && l.Entry? && l.request.Alloc? && l.request.result.Some?
    requires frame in FrameRange(l.request.result.value, l.request.pages)
    ensures frame in l.Initial() && frame !in l.before.Held() && frame in l.Held()
  {
    FramesConserved(l.before, count);
    assert frame in l.before.free;
  }
}

/** What clients may ask for. */
module FrameRequests {
  import opened Machine
  import opened Wrappers
  import opened Layout
  import opened FrameModel

  /** One frame, a run of frames, or the return of a frame. */
  datatype Ask = TakeFrame | TakeRun(pages: nat) | Give(paddr: nat)

  function Pages(ask: Ask): nat
    requires !ask.Give?
  {
    if ask.TakeFrame? then 1 else ask.pages
  }

  /** The ledger answers exactly these asks, in order; a frame that nobody holds is not returned. */
  ghost predicate Answers(l: Ledger, asks: seq<Ask>) {
    if asks == [] then l.Opened?
    else
      var init, last := asks[..|asks| - 1], asks[|asks| - 1];
      if last.Give? then
        || (l.Entry? && l.request == Free(last.paddr) && Answers(l.before, init))
        || (last.paddr / PAGE_SIZE !in l.Held() && Answers(l, init))
      else l.Entry? && l.request.Alloc? && l.request.pages == Pages(last) && Answers(l.before, init)
  }
}

module Frames {
  import opened FrameRequests
  import opened Machine
  import opened Wrappers
  import opened Layout
  import opened FrameModel

  class FrameAllocator {
    const frameCount: nat
    const bitmap: array<bv64>

    ghost predicate Valid() {
      bitmap.Length == (frameCount + 63) / 64
    }

    ghost predicate Used(idx: nat)
      requires idx < 64 * bitmap.Length
      reads bitmap
    {
      BitOf(bitmap[idx / 64], idx % 64)
    }

    /** The frames available for allocation. */
    ghost function FreeFrames(): set<nat>
      requires Valid()
      reads bitmap
    {
      set i | 0 <= i < frameCount && !Used(i)
    }

    /** All frames start out used. */
    constructor (frameCount: nat)
      ensures Valid() && this.frameCount == frameCount && fresh(bitmap)
      ensures forall i :: 0 <= i < 64 * bitmap.Length ==> Used(i)
    {
      this.frameCount := frameCount;
      this.bitmap := new bv64[(frameCount + 63) / 64](_ => ALL_ONES);
      new;
      forall i | 0 <= i < 64 * bitmap.Length
        ensures Used(i)
      {
        AllOnes(i % 64);
      }
    }

    method TestBit(idx: nat) returns (used: bool)
      requires idx < 64 * bitmap.Length
      ensures used == Used(idx)
    {
      var word := idx / 64;
      var bit := idx % 64;
      return Common(bitmap[word], Mask(bit)) != 0;
    }

    method SetBit(idx: nat)
      requires idx < 64 * bitmap.Length
      modifies bitmap
      ensures forall j :: 0 <= j < 64 * bitmap.Length ==> (Used(j) <==> j == idx || old(Used(j)))
    {
      var word := idx / 64;
      var bit := idx % 64;
      ghost var w := bitmap[word];
      bitmap[word] := With(bitmap[word], Mask(bit));
      forall j | 0 <= j < 64 * bitmap.Length
        ensures Used(j) <==> j == idx || old(Used(j))
      {
        WordBits(w, bit, j % 64);
      }
    }

    method ClearBit(idx: nat)
      requires idx < 64 * bitmap.Length
      modifies bitmap
      ensures forall j :: 0 <= j < 64 * bitmap.Length ==> (Used(j) <==> j != idx && old(Used(j)))
    {
      var word := idx / 64;
      var bit := idx % 64;
      ghost var w := bitmap[word];
      bitmap[word] := WithoutMask(bitmap[word], Mask(bit));
      forall j | 0 <= j < 64 * bitmap.Length
        ensures Used(j) <==> j != idx && old(Used(j))
      {
        WordBits(w, bit, j % 64);
      }
    }

    method MarkFree(start: u64, end: u64)
      requires end / PAGE_SIZE <= 64 * bitmap.Length
      modifies bitmap
      ensures forall j :: 0 <= j < 64 * bitmap.Length ==>
        (Used(j) <==> !(start / PAGE_SIZE <= j < end / PAGE_SIZE) && old(Used(j)))
    {
      var first, endIdx := start / PAGE_SIZE, end / PAGE_SIZE;
      var idx := first;
      while idx < endIdx
        invariant first <= idx && (idx <= endIdx || idx == first)
        invariant forall j :: 0 <= j < 64 * bitmap.Length ==> (Used(j) <==> !(first <= j < idx) && old(Used(j)))
      {
        ClearBit(idx);
        idx := idx + 1;
      }
    }

    method MarkUsed(start: u64, end: u64)
      requires AlignUp(end, PAGE_SIZE) / PAGE_SIZE <= 64 * bitmap.Length
      modifies bitmap
      ensures forall j :: 0 <= j < 64 * bitmap.Length ==>
        (Used(j) <==> (start / PAGE_SIZE <= j < AlignUp(end, PAGE_SIZE) / PAGE_SIZE) || old(Used(j)))
    {
      var first, endIdx := start / PAGE_SIZE, AlignUp(end, PAGE_SIZE) / PAGE_SIZE;
      var idx := first;
      while idx < endIdx
        invariant first <= idx && (idx <= endIdx || idx == first)
        invariant forall j :: 0 <= j < 64 * bitmap.Length ==> (Used(j) <==> (first <= j < idx) || old(Used(j)))
      {
        SetBit(idx);
        idx := idx + 1;
      }
    }

    method AllocFrame() returns (r: Option<nat>)
      requires Valid()
      modifies bitmap
      ensures match r
              case None => Allocates(old(FreeFrames()), frameCount, 1, None, FreeFrames())
              case Some(paddr) =>
                && paddr % PAGE_SIZE == 0
                && Allocates(old(FreeFrames()), frameCount, 1, Some(paddr / PAGE_SIZE), FreeFrames())
    {
      ghost var free := FreeFrames();
      RunOfOne(free);
      var idx := 0;
      while idx < frameCount
        invariant idx <= frameCount && FreeFrames() == free
        invariant forall i :: 0 <= i < idx ==> i !in free
      {
        var used := TestBit(idx);
        if !used {
          SetBit(idx);
          RangeOfOne(idx);
          assert FreeFrames() == free - {idx};
          return Some(idx * PAGE_SIZE);
        }
        idx := idx + 1;
      }
      return None;
    }

    /** Are all frames of the candidate run free? */
    method RunIsFree(idx: nat, pages: nat) returns (ok: bool)
      requires Valid() && idx + pages <= frameCount
      ensures ok == FreeRun(FreeFrames(), idx, pages)
    {
      ok := true;
      var check := idx;
      while check < idx + pages
        invariant idx <= check <= idx + pages
        invariant forall j :: idx <= j < check ==> j in FreeFrames()
      {
        var used := TestBit(check);
        if used {
          assert check !in FreeFrames();
          return false;
        }
        check := check + 1;
      }
    }

    method ClaimRun(idx: nat, pages: nat)
      requires Valid() && idx + pages <= frameCount
      modifies bitmap
      ensures FreeFrames() == old(FreeFrames()) - FrameRange(idx, pages)
    {
      for bit := idx to idx + pages
        invariant forall j :: 0 <= j < 64 * bitmap.Length ==> (Used(j) <==> (idx <= j < bit) || old(Used(j)))
      {
        SetBit(bit);
      }
    }

    method AllocContiguous(pages: nat) returns (r: Option<nat>)
      requires Valid()
      modifies bitmap
      ensures match r
              case None => Allocates(old(FreeFrames()), frameCount, pages, None, FreeFrames())
              case Some(paddr) =>
                && paddr % PAGE_SIZE == 0
                && Allocates(old(FreeFrames()), frameCount, pages, Some(paddr / PAGE_SIZE), FreeFrames())
    {
      if pages == 0 {
        return None;
      }
      ghost var free := FreeFrames();
      var idx := 0;
      while idx + pages <= frameCount
        invariant FreeFrames() == free
        invariant forall i :: 0 <= i < idx ==> !FreeRun(free, i, pages)
      {
        var ok := RunIsFree(idx, pages);
        if ok {
          ClaimRun(idx, pages);
          return Some(idx * PAGE_SIZE);
        }
        idx := idx + 1;
      }
      return None;
    }

    method FreeFrame(paddr: nat)
      requires Valid()
      modifies bitmap
      ensures FreeFrames() == Freed(old(FreeFrames()), frameCount, paddr)
    {
      var idx := paddr / PAGE_SIZE;
      if idx < frameCount {
        ClearBit(idx);
      }
    }

    /** Answers one ask; held are the frames handed out and not yet returned. */
    method Serve(ask: Ask, held: set<nat>, ghost l: Ledger) returns (held': set<nat>, ghost l': Ledger)
      requires Valid() && l.Valid(frameCount) && l.free == FreeFrames() && held == l.Held()
      modifies bitmap
      ensures l'.Valid(frameCount) && l'.free == FreeFrames() && held' == l'.Held() && l'.Initial() == l.Initial()
      ensures match ask
        case Give(paddr) => if paddr / PAGE_SIZE in held then l' == Entry(l, Free(paddr), l'.free) else l' == l
        case _ => l'.Entry? && l'.before == l && l'.request.Alloc? && l'.request.pages == Pages(ask)
    {
      match ask
      case Give(paddr) =>
        held', l' := held, l;
        if paddr / PAGE_SIZE in held {
          FreeFrame(paddr);
          held' := held - {paddr / PAGE_SIZE};
          l' := Entry(l, Free(paddr), FreeFrames());
        }
      case TakeFrame =>
        var r := AllocFrame();
        held', l' := Record(held, l, 1, r);
      case TakeRun(pages) =>
        var r := AllocContiguous(pages);
        held', l' := Record(held, l, pages, r);
    }

    method Record(held: set<nat>, ghost l: Ledger, pages: nat, r: Option<nat>)
      returns (held': set<nat>, ghost l': Ledger)
      requires Valid() && l.Valid(frameCount) && held == l.Held()
      requires r.Some? ==> r.value % PAGE_SIZE == 0
      requires Allocates(l.free, frameCount, pages, if r.Some? then Some(r.value / PAGE_SIZE) else None, FreeFrames())
      ensures l'.Valid(frameCount) && l'.free == FreeFrames() && held' == l'.Held() && l'.Initial() == l.Initial()
      ensures l'.Entry? && l'.before == l && l'.request.Alloc? && l'.request.pages == pages
    {
      held' := if r.Some? then held + FrameRange(r.value / PAGE_SIZE, pages) else held;
      l' := Entry(l, Alloc(pages, if r.Some? then Some(r.value / PAGE_SIZE) else None), FreeFrames());
    }

    /** Any sequence of asks makes a valid ledger. */
    method ServeAll(asks: seq<Ask>) returns (ghost l: Ledger)
      requires Valid()
      modifies bitmap
      ensures l.Valid(frameCount) && l.Initial() == old(FreeFrames()) && l.free == FreeFrames() && Answers(l, asks)
    {
      l := Opened(FreeFrames());
      assert forall i :: i in l.free ==> i in FrameRange(0, frameCount);
      var held: set<nat> := {};
      for k := 0 to |asks|
        invariant l.Valid(frameCount) && l.free == FreeFrames() && held == l.Held() && l.Initial() == old(FreeFrames())
        invariant Answers(l, asks[..k])
      {
        assert asks[..k + 1][..k] == asks[..k];
        held, l := Serve(asks[k], held, l);
      }
      assert asks[..|asks|] == asks;
    }
  }
}
