/** The early bump allocator (src/mm/bootalloc.rs). */
module BootAlloc {
  import opened Machine
  import opened Wrappers
  import opened Layout

  class BootAllocator {
    var start: u64
    var current: u64
    var end: u64

    constructor (from: u64, to: u64)
      ensures start == current == AlignUp(from, PAGE_SIZE) && end == to
    {
      var aligned := AlignUp(from, PAGE_SIZE);
      start, current, end := aligned, aligned, to;
    }

    /**
     A chunk is aligned and above everything handed out before. The request
     fails exactly when the position is 0 or the sum, which saturates at the
     top of the address space, passes the end of the window.
    */
    method Alloc(size: nat, align: nat) returns (r: Option<u64>)
      requires Alignment(Max(align, 1))
      modifies this
      ensures start == old(start) && end == old(end)
      ensures r.Some? ==>
        && r.value % Max(align, 1) == 0
        && old(current) <= r.value < old(current) + Max(align, 1)
        && Min(r.value + size, U64_MAX) == current <= end
      ensures r.None? ==> current == old(current)
      ensures r.None? <==>
        var at := AlignUp(old(current), Max(align, 1)); at == 0 || Min(at + size, U64_MAX) > end
    {
      var a := Max(align, 1);
      var at := AlignUp(current, a);
      var next := Min(at + size, U64_MAX);
      if at == 0 || next > end {
        return None;
      }
      if current + (a - 1) >= TWO64 {
        AlignUpWraps(current, a);
      } else {
        AlignUpIs(current, a);
      }
      current := next;
      return Some(at);
    }

    method UsedRange() returns (from: u64, to: u64)
      ensures from == start && to == current
    {
      return start, current;
    }
  }

  /**
   Two chunks are disjoint exactly when the first does not pass the top of the
   address space: a saturated position is handed out again.
  */
  method TwoChunksAreDisjoint(boot: BootAllocator, size: nat, align: nat, size': nat, align': nat)
    returns (r: Option<u64>, r': Option<u64>)
    requires Alignment(Max(align, 1)) && Alignment(Max(align', 1))
    modifies boot
    ensures r.Some? && r'.Some? ==> (r.value + size <= r'.value <==> r.value + size <= U64_MAX)
    ensures r'.Some? ==> (r'.value + size' <= boot.end <==> r'.value + size' <= U64_MAX)
  {
    r := boot.Alloc(size, align);
    r' := boot.Alloc(size', align');
  }
}
