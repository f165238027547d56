/** The checked wrappers as the framework runs them, over the allocator and the region lists
    that they update in place (checked_alloc.c). Every method computes the function of the
    same purpose in Checked.dfy. */
module CheckedHeaps {
  import opened Base
  import opened Blocks
  import opened Spans
  import opened Break
  import opened HeapSpec
  import opened Payloads
  import opened FreeList
  import opened Memlist
  import opened ProgramBreaks
  import opened Overlay
  import opened Allocators
  import C = Checked

  class CheckedHeap {
    const a: Allocators.Allocator
    const allocs: RegionList
    const pool: RegionList
    var fill: nat

    constructor (heap: nat, limit: nat)
      requires heap > 0 && heap % 4096 == 0
      ensures Valid() && View() == C.State(InitHeap(heap, limit), a.mem, [], 0) && C.Agrees(View())
    {
      var tracked := new RegionList();
      var os := new ProgramBreak(heap, limit, tracked);
      InitFrontier(heap, limit);
      a := new Allocators.Allocator(os);
      allocs := tracked;
      pool := new RegionList();
      fill := 0;
    }

    /** Two separate well-linked lists, the tracked one sorted. */
    ghost predicate Books()
      reads allocs, allocs.Repr, pool, pool.Repr
    {
      && allocs != pool && allocs.Repr !! pool.Repr
      && allocs.Valid() && pool.Valid() && Sorted(allocs.Contents())
    }

    /** The tracked list is the one do_brk looks at. */
    ghost predicate Valid()
      reads a, a.Repr, a.os, allocs, allocs.Repr, pool, pool.Repr
    {
      a.os.allocs == allocs && Books() && a.Listed()
    }

    ghost function View(): C.State
      requires allocs.Valid()
      reads this, a, a.os, allocs, allocs.Repr
    {
      C.State(a.View(), a.mem, allocs.Contents(), fill)
    }

    /** region_check_data: the loop over the bytes of one region. */
    method RegionCheckData(region: MemRegion) returns (ok: bool)
      ensures ok <==> C.DataKept(a.mem, region.ToSpan())
    {
      var ptr := region.start;
      while ptr < region.end
        invariant region.start <= ptr && (ptr <= region.end || ptr == region.start)
        invariant forall x: nat | region.start <= x < ptr :: a.mem(x) == region.data
      {
        if a.mem(ptr) != region.data {
          return false;
        }
        ptr := ptr + 1;
      }
      return true;
    }

    /** memlist_check_data: every tracked region still holds its fill byte. */
    method CheckData() returns (ok: bool)
      requires allocs.Valid()
      ensures ok <==> C.AllKept(a.mem, allocs.Contents())
    {
      var region := allocs.head;
      ghost var i := 0;
      while region != null
        invariant 0 <= i <= |allocs.Nodes| && region == Memlist.At(allocs.Nodes, i)
        invariant forall j | 0 <= j < i :: C.DataKept(a.mem, allocs.Contents()[j])
        decreases |allocs.Nodes| - i
      {
        var kept := RegionCheckData(region);
        if !kept {
          assert allocs.Contents()[i] in allocs.Contents();
          return false;
        }
        region := region.next;
        i := i + 1;
      }
      return true;
    }

    /** Lines 100-102: the loop over the bytes of a calloc buffer. */
    method IsCleared(buf: nat, n: nat) returns (ok: bool)
      ensures ok <==> C.Cleared(a.mem, buf, n)
    {
      var i := 0;
      while i < n
        invariant 0 <= i <= n
        invariant forall x: nat | buf <= x < buf + i :: a.mem(x) == 0
      {
        if a.mem(buf + i) != 0 {
          return false;
        }
        i := i + 1;
      }
      return true;
    }

    /** Line 113 or 237, and the fill byte of line 120 or 238. */
    method AddTracked(buf: nat, size: nat) returns (r: Result<nat>)
      requires Books()
      modifies this, allocs, allocs.Repr, pool, pool.Repr
      ensures fill == C.NextFill(old(fill))
      ensures r.Ok? ==> Books()
      ensures r.Ok? ==> C.AddRegion(old(allocs.Contents()), buf, size, fill) == Ok(allocs.Contents())
      ensures r.Err? ==> C.AddRegion(old(allocs.Contents()), buf, size, fill) == Err(r.failure)
    {
      hide RegionList.Valid, Sorted, AnyMeets, C.Inserted, InsertAt;
      fill := C.NextFill(fill);
      ghost var rs := allocs.Contents();
      var added, p := AddRegion(allocs, pool, buf, size);
      match added
      case Invalid => return Err(EmptyRegion);
      case Overlapping =>
        SameBounds(rs, Span(buf, buf + size, 0), Span(buf, buf + size, fill));
        return Err(RegionsOverlap);
      case Added(region) =>
        SetData(region, fill, rs, p);
        SameBounds(rs, Span(buf, buf + size, 0), Span(buf, buf + size, fill));
        PlaceIsPosition(rs, p, Span(buf, buf + size, fill), allocs.Contents());
        return Ok(0);
    }

    /** Lines 121-123 and 239-240. */
    method Write(buf: nat, size: nat) returns (r: Result<nat>)
      requires Valid()
      modifies a`mem, a`live, a`Listing, a.Repr`size
      ensures Valid()
      ensures r.Ok? ==> C.Write(old(a.View()), old(a.mem), allocs.Contents(), buf, size, fill) == Ok((a.View(), a.mem))
      ensures r.Err? ==> C.Write(old(a.View()), old(a.mem), allocs.Contents(), buf, size, fill) == Err(r.failure)
    {
      hide Allocators.Allocator.Listed, C.AllKept, Sorted, Overlay.Fill, RegionList.Valid;
      r := a.Fill(buf, size, fill);
      if r.Ok? {
        var ok := CheckData();
        return if ok then Ok(0) else Err(ContentsChanged);
      }
    }

    /** Lines 113-123 and 237-240: the buffer is tracked, filled, and everything is checked. */
    method Track(buf: nat, size: nat) returns (r: Result<nat>)
      requires Valid()
      modifies this, a`mem, a`live, a`Listing, a.Repr`size, allocs, allocs.Repr, pool, pool.Repr
      ensures r.Ok? ==> Valid() && C.Track(old(View()), buf, size) == Ok(View())
      ensures r.Err? ==> C.Track(old(View()), buf, size) == Err(r.failure)
    {
      hide Allocators.Allocator.Listed, C.AddRegion, C.Write, Sorted, RegionList.Valid;
      r := AddTracked(buf, size);
      if r.Ok? {
        r := Write(buf, size);
      }
    }

    /** Line 177 or 235. */
    method Untrack(alloc: MemRegion, ghost k: nat)
      requires Books() && k < |allocs.Nodes| && allocs.Nodes[k] == alloc
      modifies allocs, allocs.Repr`next, allocs.Repr`prev
      ensures Books() && allocs.Contents() == Without(old(allocs.Contents()), k)
      ensures allocs.Repr <= old(allocs.Repr)
    {
      hide RegionList.Valid, Sorted;
      ghost var rs := allocs.Contents();
      C.WithoutSpan(rs, k);
      allocs.Remove(alloc, k);
      assert allocs.Nodes == Without(old(allocs.Nodes), k);
      assert allocs.Contents() == Without(rs, k);
      assert pool.Valid();
    }

    /** Lines 60-68 for the allocators under test. */
    method Call(nmemb: nat, size: nat, which: C.Allocator) returns (r: Result<nat>)
      requires Valid()
      modifies a, a.Repr, a.os
      ensures C.Call(old(View()), nmemb, size, which) ==
              if r.Ok? then Ok((a.View(), a.mem, r.value)) else Err(r.failure)
      ensures r.Ok? ==> Valid() && fresh(a.Repr - old(a.Repr))
    {
      hide Malloc, Calloc, Realloc, Allocators.Allocator.Listed;
      match which
      case UseMalloc => r := a.Kumalloc(nmemb * size);
      case UseCalloc => r := a.Kucalloc(nmemb, size);
      case UseRealloc => r := a.Kurealloc(0, nmemb * size);
    }

    method FindTracked(ptr: nat) returns (alloc: MemRegion?, ghost k: nat)
      requires Books()
      ensures k == C.Find(allocs.Contents(), ptr)
      ensures alloc == Memlist.At(allocs.Nodes, C.Find(allocs.Contents(), ptr))
    {
      alloc, k := allocs.Find(ptr);
      FirstIs(allocs.Contents(), ptr, k);
    }

    /** Lines 72-93. */
    method AnswerZero(buf: nat) returns (r: Result<nat>)
      requires Valid()
      ensures C.AnswerZero(View(), buf) == if r.Ok? then Ok((View(), r.value)) else Err(r.failure)
    {
      hide Allocators.Allocator.Listed, RegionList.Valid, Sorted, C.AllKept;
      var alloc, k := FindTracked(buf);
      var ok := CheckData();
      return if alloc != null then Err(UnexpectedBuffer) else if ok then Ok(buf) else Err(ContentsChanged);
    }

    /** Lines 96-124. */
    method Accept(n: nat, which: C.Allocator, buf: nat) returns (r: Result<nat>)
      requires Valid()
      modifies this, a`mem, a`live, a`Listing, a.Repr`size, allocs, allocs.Repr, pool, pool.Repr
      ensures r.Ok? ==> Valid() && C.Accept(old(View()), n, which, buf) == Ok((View(), r.value))
      ensures r.Err? ==> C.Accept(old(View()), n, which, buf) == Err(r.failure)
    {
      hide Allocators.Allocator.Listed, C.Track, RegionList.Valid, Sorted, C.Cleared;
      if buf == 0 {
        return Err(NoBuffer);
      }
      var cleared := IsCleared(buf, n);
      if which == C.UseCalloc && !cleared {
        return Err(NotCleared);
      }
      if buf % 8 != 0 {
        return Err(Misaligned);
      }
      if buf < a.os.heap || buf + n > a.os.curBrk {
        return Err(OutsideHeap);
      }
      var tracked := Track(buf, n);
      return if tracked.Ok? then Ok(buf) else tracked;
    }

    /** Lines 46-125. */
    method CheckedAlloc(nmemb: nat, size: nat, which: C.Allocator) returns (r: Result<nat>)
      requires Valid()
      modifies this, a, a.Repr, a.os, allocs, allocs.Repr, pool, pool.Repr
      ensures r.Ok? ==> Valid() && C.CheckedAlloc(old(View()), nmemb, size, which) == Ok((View(), r.value))
      ensures r.Err? ==> C.CheckedAlloc(old(View()), nmemb, size, which) == Err(r.failure)
    {
      hide Allocators.Allocator.Listed, C.Call, C.Accept, C.AnswerZero, RegionList.Valid, Sorted;
      r := Call(nmemb, size, which);
      if r.Ok? {
        if nmemb == 0 || size == 0 {
          r := AnswerZero(r.value);
        } else {
          r := Accept(nmemb * size, which, r.value);
        }
      }
    }

    /** Lines 178-188. */
    method Erase(ptr: nat, n: nat) returns (r: Result<nat>)
      requires Valid() && ptr != 0 && Owned(a.View(), ptr)
      modifies a, a.Repr, a.os
      ensures r.Ok? ==> Valid()
      ensures C.Erase(old(a.View()), old(a.mem), allocs.Contents(), ptr, n) ==
              if r.Ok? then Ok((a.View(), a.mem)) else Err(r.failure)
    {
      hide Allocators.Allocator.Listed, Free, RegionList.Valid, Sorted, Overlay.Fill, Fields;
      r := a.Fill(ptr, n, 255);
      if r.Ok? {
        r := a.Kufree(ptr);
      }
      if r.Ok? {
        a.Publish();
      }
    }

    /** Lines 177-189. */
    method Release(alloc: MemRegion, ghost k: nat) returns (r: Result<nat>)
      requires Valid() && k < |allocs.Nodes| && allocs.Nodes[k] == alloc && alloc.start <= alloc.end
      requires alloc.start != 0 && Owned(a.View(), alloc.start)
      modifies a, a.Repr, a.os, allocs, allocs.Repr`next, allocs.Repr`prev
      ensures r.Ok? ==> Valid() && C.Release(old(View()), alloc.start, k) == Ok(View())
      ensures r.Err? ==> C.Release(old(View()), alloc.start, k) == Err(r.failure)
    {
      hide Allocators.Allocator.Listed, C.Erase, RegionList.Valid, Sorted, C.AllKept;
      Untrack(alloc, k);
      r := Erase(alloc.start, alloc.end - alloc.start);
      if r.Ok? {
        var ok := CheckData();
        return if ok then Ok(0) else Err(ContentsChanged);
      }
    }

    /** Lines 163-189. */
    method CheckedFree(ptr: nat) returns (r: Result<nat>)
      requires Valid() && C.Backed(View(), ptr)
      modifies this, a, a.Repr, a.os, allocs, allocs.Repr, pool, pool.Repr
      ensures r.Ok? ==> Valid() && C.CheckedFree(old(View()), ptr) == Ok(View())
      ensures r.Err? ==> C.CheckedFree(old(View()), ptr) == Err(r.failure)
    {
      hide Allocators.Allocator.Listed, C.Release, RegionList.Valid, Sorted, C.DataKept;
      if ptr == 0 {
        return Ok(0);
      }
      var alloc, k := FindTracked(ptr);
      if alloc == null {
        return Err(UnknownPointer);
      }
      if ptr != alloc.start {
        return Err(MiddleOfRegion);
      }
      var kept := RegionCheckData(alloc);
      if !kept {
        return Err(ContentsChanged);
      }
      r := Release(alloc, k);
    }

    /** Lines 228-232: the loop that compares the bytes kept, as signed characters. */
    method HasBytes(at: nat, n: nat, data: nat) returns (ok: bool)
      ensures ok <==> C.CharsMatch(a.mem, at, n, data)
    {
      var i := 0;
      while i < n
        invariant 0 <= i <= n
        invariant forall x: nat | at <= x < at + i :: C.SignExtended(a.mem(x)) == data
      {
        if C.SignExtended(a.mem(at + i)) != data {
          return false;
        }
        i := i + 1;
      }
      return true;
    }

    /** Lines 220-240. */
    method Resize(alloc: MemRegion, size: nat, ghost k: nat) returns (r: Result<nat>)
      requires Valid() && k < |allocs.Nodes| && allocs.Nodes[k] == alloc && alloc.start <= alloc.end
      requires alloc.start != 0 && Owned(a.View(), alloc.start)
      modifies this, a, a.Repr, a.os, allocs, allocs.Repr, pool, pool.Repr
      ensures r.Ok? ==> Valid() && C.Resize(old(View()), old(alloc.start), size, k) == Ok((View(), r.value))
      ensures r.Err? ==> C.Resize(old(View()), old(alloc.start), size, k) == Err(r.failure)
    {
      hide Allocators.Allocator.Listed, Realloc, C.Track, RegionList.Valid, Sorted, C.CharsMatch;
      var oldSize := alloc.end - alloc.start;
      r := a.Kurealloc(alloc.start, size);
      if r.Err? {
        return r;
      }
      var newptr := r.value;
      var same := HasBytes(newptr, Min(oldSize, size), alloc.data);
      if !same {
        return Err(ContentsLost);
      }
      Untrack(alloc, k);
      var tracked := Track(newptr, size);
      return if tracked.Ok? then Ok(newptr) else tracked;
    }

    /** Lines 198-243. */
    method CheckedRealloc(ptr: nat, size: nat) returns (r: Result<nat>)
      requires Valid() && C.Backed(View(), ptr)
      modifies this, a, a.Repr, a.os, allocs, allocs.Repr, pool, pool.Repr
      ensures r.Ok? ==> Valid() && C.CheckedRealloc(old(View()), ptr, size) == Ok((View(), r.value))
      ensures r.Err? ==> C.CheckedRealloc(old(View()), ptr, size) == Err(r.failure)
    {
      hide Allocators.Allocator.Listed, C.Resize, C.CheckedAlloc, C.CheckedFree;
      hide RegionList.Valid, Sorted, C.DataKept;
      if ptr == 0 {
        r := CheckedAlloc(1, size, C.UseRealloc);
        return r;
      }
      if size == 0 {
        r := CheckedFree(ptr);
        return if r.Ok? then Ok(0) else r;
      }
      var alloc, k := FindTracked(ptr);
      if alloc == null {
        return Err(UnknownPointer);
      }
      if ptr != alloc.start {
        return Err(MiddleOfRegion);
      }
      var kept := RegionCheckData(alloc);
      if !kept {
        return Err(ContentsChanged);
      }
      r := Resize(alloc, size, k);
    }

    method SetData(region: MemRegion, data: nat, ghost rs: seq<Span>, ghost p: nat)
      requires allocs.Valid() && p <= |rs| && |allocs.Nodes| == |rs| + 1 && allocs.Nodes[p] == region
      requires Sorted(allocs.Contents()) && allocs.Contents() == InsertAt(rs, p, region.ToSpan())
      modifies region`data
      ensures allocs.Valid() && Sorted(allocs.Contents())
      ensures allocs.Contents() == InsertAt(rs, p, Span(region.start, region.end, data))
    {
      ghost var ss, s := allocs.Contents(), Span(region.start, region.end, data);
      SortedByBounds(ss, p, s);
      hide Sorted, RegionList.Valid;
      allocs.SetData(region, data, p);
    }
  }

  lemma {:induction false} FirstIs(rs: seq<Span>, x: nat, k: nat)
    requires k <= |rs| && forall j | 0 <= j < k :: !C.Contains(rs[j], x)
    requires k < |rs| ==> C.Contains(rs[k], x)
    ensures C.Find(rs, x) == k
  {
    var f := C.Find(rs, x);
    assert !(f < k) && !(k < f);
  }

  lemma SameBounds(rs: seq<Span>, r: Span, s: Span)
    requires r.start == s.start && r.end == s.end
    ensures AnyMeets(rs, r) == AnyMeets(rs, s)
  {
    assert forall m <- rs :: Meets(m, r) == Meets(m, s);
  }

  lemma SortedByBounds(ss: seq<Span>, p: nat, s: Span)
    requires Sorted(ss) && p < |ss| && ss[p].start == s.start && ss[p].end == s.end
    ensures Sorted(ss[p := s])
  {
  }

  /** On a sorted list the place of a region is determined by its bounds. */
  lemma PlaceIsPosition(rs: seq<Span>, p: nat, s: Span, rs': seq<Span>)
    requires p <= |rs| && rs' == InsertAt(rs, p, s) && Sorted(rs')
    ensures C.Inserted(rs, s) == rs'
  {
    var q := C.Position(rs, s);
    assert rs'[p] == s && s.start < s.end;
    assert forall i | 0 <= i < p :: rs'[i] == rs[i];
    assert forall i | p <= i < |rs| :: rs'[i + 1] == rs[i];
    assert forall i | 0 <= i < p :: rs'[i].end <= rs'[p].start && rs'[i].start < rs'[i].end;
    assert p < |rs| ==> rs'[p].end <= rs'[p + 1].start;
    assert q == p;
  }
}
