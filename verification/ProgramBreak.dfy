/** do_brk and sbrk as the object whose fields they update (intercept.c:18-86). */
module ProgramBreaks {
  import opened Base
  import opened Spans
  import opened Break
  import opened Memlist

  class ProgramBreak {
    const heap: nat
    const limit: nat
    const allocs: RegionList
    var curBrk: nat
    var ups: nat
    var downs: nat
    var pages: set<nat>
    ghost var given: seq<Span>

    constructor (heap: nat, limit: nat, allocs: RegionList)
      ensures this.heap == heap && this.limit == limit && this.allocs == allocs
      ensures View() == InitOs(heap, limit)
    {
      this.heap, this.limit, this.allocs := heap, limit, allocs;
      curBrk, ups, downs, pages, given := heap, 0, 0, {}, [];
    }

    ghost function View(): Os
      reads this
    {
      Os(heap, curBrk, limit, ups, downs, pages, given)
    }

    /** Lines 47-60: the check against the tracked regions, then the pages are protected. */
    method Lower(addr: nat) returns (r: Result<()>)
      requires allocs.Valid() && heap <= addr < curBrk && addr <= heap + limit
      modifies this
      ensures Break.DoBrk(old(View()), allocs.Contents(), addr) == if r.Ok? then Ok(View()) else Err(r.failure)
    {
      hide PageSpan, AlignUp, Spans.FindOverlap;
      var pgCur, pgNew := AlignUp(curBrk), AlignUp(addr);
      var region := new MemRegion();
      region.start, region.end, region.data := addr, curBrk, 0;
      downs := downs + 1;
      var alloc := allocs.FindOverlap(region);
      if alloc != null {
        return Err(StillAllocated);
      }
      if pgNew < pgCur {
        pages := pages - PageSpan(pgNew, pgCur);
      }
      given := given + [Span(addr, curBrk, 0)];
      curBrk := addr;
      return Ok(());
    }

    method DoBrk(addr: int) returns (r: Result<()>)
      requires allocs.Valid()
      modifies this
      ensures Break.DoBrk(old(View()), allocs.Contents(), addr) == if r.Ok? then Ok(View()) else Err(r.failure)
    {
      if addr < heap {
        return Err(BelowHeap);
      }
      if addr > heap + limit {
        return Err(BeyondLimit);
      }
      if addr == curBrk {
        return Ok(());
      }
      if addr > curBrk {
        var pgCur, pgNew := AlignUp(curBrk), AlignUp(addr);
        ups := ups + 1;
        if pgNew > pgCur {
          pages := pages + PageSpan(pgCur, pgNew);
        }
        curBrk := addr;
        return Ok(());
      }
      r := Lower(addr);
    }

    method Sbrk(increment: int) returns (r: Result<nat>)
      requires allocs.Valid()
      modifies this
      ensures Break.DoBrk(old(View()), allocs.Contents(), old(curBrk) + increment) ==
              if r.Ok? then Ok(View()) else Err(r.failure)
      ensures r.Ok? ==> r.value == old(curBrk)
    {
      var oldBrk := curBrk;
      var moved := DoBrk(curBrk + increment);
      if moved.Err? {
        return Err(moved.failure);
      }
      return Ok(oldBrk);
    }

    /** What the page protection of line 45 and line 59 means for an access to `n` bytes. */
    method Touch(lo: nat, n: nat) returns (ok: bool)
      ensures ok <==> Accessible(View(), lo, n)
    {
      var i := 0;
      while i < n
        invariant 0 <= i <= n
        invariant forall x: nat | lo <= x < lo + i :: Readable(View(), x)
      {
        if (lo + i) / 4096 * 4096 !in pages {
          assert !Readable(View(), lo + i);
          return false;
        }
        i := i + 1;
      }
      return true;
    }
  }
}
