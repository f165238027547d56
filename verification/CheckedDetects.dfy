/** What the checked wrappers catch (checked_alloc.c): for any state of heap, memory and books,
    whether the allocator kept its promises or not, which check fires and what holds once all
    of them have passed. */
module CheckedDetects {
  import opened Base
  import opened Blocks
  import opened Spans
  import opened Break
  import opened HeapSpec
  import opened Payloads
  import opened Overlay
  import opened Checked

  /** Some byte of the region does not hold its fill value. */
  ghost predicate Damaged(mem: Memory, r: Span) {
    exists x: nat {:trigger mem(x)} :: r.start <= x < r.end && mem(x) != r.data
  }

  ghost predicate AnyDamaged(mem: Memory, rs: seq<Span>) {
    exists r <- rs :: Damaged(mem, r)
  }

  ghost predicate Overlaps(rs: seq<Span>, at: nat, n: nat) {
    exists m <- rs :: m.start < at + n && at < m.end
  }

  /** Memory as the caller sees it, with the sizes the allocator keeps in it. */
  function Seen(s: State): Memory {
    Stamp(s.mem, Fields(s.h))
  }

  // ---------------------------------------------------------------- tracking a buffer

  lemma OverlapsIs(rs: seq<Span>, at: nat, n: nat, v: nat)
    ensures AnyMeets(rs, Span(at, at + n, v)) <==> Overlaps(rs, at, n)
  {
    var r := Span(at, at + n, v);
    forall m | m in rs ensures Meets(m, r) <==> m.start < at + n && at < m.end {
    }
  }

  lemma KeptIffUndamaged(mem: Memory, rs: seq<Span>)
    ensures AllKept(mem, rs) <==> !AnyDamaged(mem, rs)
  {
    forall r | r in rs ensures DataKept(mem, r) <==> !Damaged(mem, r) {
    }
  }

  /** The fill damages no region that it does not meet. */
  lemma FillDamages(mem: Memory, rs: seq<Span>, at: nat, n: nat, v: nat)
    requires !Overlaps(rs, at, n)
    ensures AnyDamaged(Memset(mem, at, n, v), rs) <==> AnyDamaged(mem, rs)
  {
    var mem' := Memset(mem, at, n, v);
    forall r | r in rs ensures Damaged(mem', r) <==> Damaged(mem, r) {
      assert forall x: nat | r.start <= x < r.end :: mem'(x) == mem(x);
    }
  }

  lemma InsertedDamaged(mem: Memory, rs: seq<Span>, r: Span)
    ensures AnyDamaged(mem, Inserted(rs, r)) <==> Damaged(mem, r) || AnyDamaged(mem, rs)
  {
    hide Damaged, Inserted;
    InsertedMembers(rs, r);
    assert r in Inserted(rs, r);
  }

  /** The books with one more region, filled with the byte that follows the last one. */
  ghost predicate TrackedNow(s: State, buf: nat, size: nat, t: State) {
    && (s.fill <= 254 ==> t.fill == s.fill % 254 + 1)
    && |t.allocs| == |s.allocs| + 1
    && (forall m :: m in t.allocs <==> m == Span(buf, buf + size, t.fill) || m in s.allocs)
    && (Sorted(s.allocs) ==> Sorted(t.allocs))
    && t.h == Reload(s.h, t.mem)
    && (forall x: nat {:trigger t.mem(x)} :: t.mem(x) == if buf <= x < buf + size then t.fill else Seen(s)(x))
    && !AnyDamaged(t.mem, t.allocs)
  }

  lemma WriteIs(s: State, rs: seq<Span>, buf: nat, size: nat, v: nat)
    ensures var r := Write(s.h, s.mem, rs, buf, size, v);
            && (r == Err(PageFault) <==> !Accessible(s.h.os, buf, size))
            && (r == Err(ContentsChanged) <==>
                  Accessible(s.h.os, buf, size) && AnyDamaged(Memset(Seen(s), buf, size, v), rs))
            && (r.Err? ==> r.failure == PageFault || r.failure == ContentsChanged)
            && (r.Ok? ==> r.value.1 == Memset(Seen(s), buf, size, v) && r.value.0 == Reload(s.h, r.value.1))
  {
    hide AllKept, AnyDamaged, Accessible, Stamp, Fields, Reload, Memset;
    KeptIffUndamaged(Filled(s.h, s.mem, buf, size, v), rs);
  }

  /** Tracking a buffer, in any state: which of its checks fails, and when none does. */
  lemma TrackDetects(s: State, buf: nat, size: nat)
    ensures var r := Track(s, buf, size);
            var reached := size > 0 && !Overlaps(s.allocs, buf, size);
            && (r == Err(EmptyRegion) <==> size == 0)
            && (r == Err(RegionsOverlap) <==> size > 0 && Overlaps(s.allocs, buf, size))
            && (r == Err(PageFault) <==> reached && !Accessible(s.h.os, buf, size))
            && (r == Err(ContentsChanged) <==>
                  reached && Accessible(s.h.os, buf, size) && AnyDamaged(Seen(s), s.allocs))
            && (r.Ok? <==> reached && Accessible(s.h.os, buf, size) && !AnyDamaged(Seen(s), s.allocs))
            && (r.Ok? ==> TrackedNow(s, buf, size, r.value))
  {
    hide Accessible, Stamp, Fields, Reload, Seen, Sorted, AnyDamaged, Overlaps, AnyMeets, Inserted, Write, Memset;
    var v := NextFill(s.fill);
    var span := Span(buf, buf + size, v);
    var rs := Inserted(s.allocs, span);
    OverlapsIs(s.allocs, buf, size, v);
    InsertedMembers(s.allocs, span);
    WriteIs(s, rs, buf, size, v);
    if size > 0 && !Overlaps(s.allocs, buf, size) {
      FillDamages(Seen(s), s.allocs, buf, size, v);
      InsertedDamaged(Memset(Seen(s), buf, size, v), s.allocs, span);
      FilledIs(Seen(s), buf, size, v);
      if Sorted(s.allocs) {
        InsertedIsSorted(s.allocs, span);
      }
      InsertedSize(s.allocs, span);
    }
  }

  lemma FilledIs(mem: Memory, at: nat, n: nat, v: nat)
    ensures !Damaged(Memset(mem, at, n, v), Span(at, at + n, v))
    ensures forall x: nat {:trigger Memset(mem, at, n, v)(x)} ::
              Memset(mem, at, n, v)(x) == if at <= x < at + n then v else mem(x)
  {
  }

  lemma InsertedSize(rs: seq<Span>, r: Span)
    ensures |Inserted(rs, r)| == |rs| + 1
  {
  }

  // ---------------------------------------------------------------- the checks on a new buffer

  ghost predicate AllZero(mem: Memory, at: nat, n: nat) {
    forall x: nat {:trigger mem(x)} | at <= x < at + n :: mem(x) == 0
  }

  /** Each check on a new buffer fires exactly when what it checks does not hold, in the order
      of lines 96-113. */
  lemma AcceptDetects(s: State, n: nat, which: Allocator, buf: nat)
    ensures var r := Accept(s, n, which, buf);
            var cleared := which == UseCalloc ==> AllZero(s.mem, buf, n);
            var inside := s.h.os.heap <= buf && buf + n <= s.h.os.cur;
            var fits := buf != 0 && cleared && buf % 8 == 0 && inside;
            && (r == Err(NoBuffer) <==> buf == 0)
            && (r == Err(NotCleared) <==> buf != 0 && !cleared)
            && (r == Err(Misaligned) <==> buf != 0 && cleared && buf % 8 != 0)
            && (r == Err(OutsideHeap) <==> buf != 0 && cleared && buf % 8 == 0 && !inside)
            && (r == Err(RegionsOverlap) <==> fits && n > 0 && Overlaps(s.allocs, buf, n))
            && (r.Ok? <==> fits && n > 0 && !Overlaps(s.allocs, buf, n) && Accessible(s.h.os, buf, n)
                           && !AnyDamaged(Seen(s), s.allocs))
            && (r.Ok? ==> r.value.1 == buf && TrackedNow(s, buf, n, r.value.0))
  {
    hide Accessible, Seen, AnyDamaged, Overlaps, Track, TrackedNow;
    assert Cleared(s.mem, buf, n) <==> AllZero(s.mem, buf, n);
    TrackDetects(s, buf, n);
  }

  /** The answer to a request for zero bytes passes exactly when no region contains it and no
      region is damaged; it leaves everything as it is. */
  lemma AnswerZeroDetects(s: State, buf: nat)
    ensures var r := AnswerZero(s, buf);
            var known := exists m <- s.allocs :: m.start <= buf < m.end;
            && (r == Err(UnexpectedBuffer) <==> known)
            && (r == Err(ContentsChanged) <==> !known && AnyDamaged(s.mem, s.allocs))
            && (r.Ok? <==> !known && !AnyDamaged(s.mem, s.allocs))
            && (r.Ok? ==> r.value == (s, buf))
  {
    hide AllKept, AnyDamaged;
    KeptIffUndamaged(s.mem, s.allocs);
    assert forall m <- s.allocs :: Contains(m, buf) <==> m.start <= buf < m.end;
  }

  // ---------------------------------------------------------------- freeing a buffer

  /** On a sorted list the search says whether a region contains the pointer, and whether it
      starts there. */
  lemma FindIs(rs: seq<Span>, ptr: nat)
    requires Sorted(rs)
    ensures Find(rs, ptr) == |rs| <==> !exists m <- rs :: m.start <= ptr < m.end
    ensures Find(rs, ptr) < |rs| ==>
              && (rs[Find(rs, ptr)].start != ptr <==> exists m <- rs :: m.start < ptr < m.end)
              && (forall m <- rs :: m.start == ptr ==> m == rs[Find(rs, ptr)])
  {
    var k := Find(rs, ptr);
    if k < |rs| {
      assert rs[k] in rs && Contains(rs[k], ptr);
      forall m | m in rs && m.start <= ptr < m.end ensures m == rs[k] {
        var j :| 0 <= j < |rs| && rs[j] == m;
        assert !(j < k) && !(k < j);
      }
    } else {
      assert forall m <- rs :: Contains(m, ptr) <==> m.start <= ptr < m.end;
    }
  }

  /** The only checks inside the allocator are those of do_brk. */
  predicate BreakFails(f: Failure) {
    f == BelowHeap || f == BeyondLimit || f == StillAllocated
  }

  /** The trim touches no live block. */
  lemma {:induction false} TrimKeepsLive(h: Heap, rs: seq<Span>, i: nat)
    requires i <= |h.free|
    ensures var r := TrimFrom(h, rs, i); if r.Ok? then r.value.live == h.live else BreakFails(r.failure)
    decreases |h.free| - i
  {
    hide DoBrk;
    if i < |h.free| {
      var b := h.free[i];
      if b.End() != h.end {
        TrimKeepsLive(h, rs, i + 1);
      } else {
        var os := DoBrk(h.os, rs, h.os.cur - b.size);
        BreakErrors(h.os, rs, h.os.cur - b.size);
        if os.Ok? {
          TrimKeepsLive(h.(free := Without(h.free, i), end := b.addr, os := os.value), rs, i);
        }
      }
    }
  }

  lemma BreakErrors(os: Os, rs: seq<Span>, addr: int)
    ensures var r := DoBrk(os, rs, addr); r.Err? ==> BreakFails(r.failure)
  {
    hide FindOverlap;
  }

  /** Whatever the heap looks like, kufree drops one live block. */
  lemma FreeDrops(h: Heap, rs: seq<Span>, ptr: nat)
    requires ptr != 0 && Owned(h, ptr)
    ensures var r := Free(h, rs, ptr);
            if r.Ok? then r.value.live == h.live - {ptr - 8} else BreakFails(r.failure)
  {
    hide DoBrk, Merge;
    var h0, b := h.(live := h.live - {ptr - 8}), Block(ptr - 8, h.live[ptr - 8]);
    if b.End() == h0.end {
      var os := DoBrk(h0.os, rs, h0.os.cur - b.size);
      BreakErrors(h0.os, rs, h0.os.cur - b.size);
      if os.Ok? {
        TrimKeepsLive(h0.(end := b.addr, os := os.value), rs, 0);
      }
    } else {
      TrimKeepsLive(h0, rs, 0);
    }
  }

  /** The bytes of every size field spell the size the allocator keeps there. */
  ghost predicate SizesWritten(h: Heap, mem: Memory) {
    forall x: nat {:trigger mem(x)} | x / 8 * 8 in Fields(h) :: mem(x) == Digit(Fields(h)[x / 8 * 8], x % 8, 8)
  }

  /** The region at `ptr` is gone, the block is freed, its tracked bytes hold 255 unless the
      allocator now keeps a size there, no other byte changed, and no region is damaged. */
  ghost predicate Released(s: State, ptr: nat, r: Span, t: State)
    requires Owned(s.h, ptr)
  {
    && t.fill == s.fill && r in s.allocs && r.start == ptr
    && |t.allocs| == |s.allocs| - 1
    && (forall m :: m in t.allocs <==> m in s.allocs && m.start != ptr)
    && t.h.live.Keys == s.h.live.Keys - {ptr - 8}
    && (forall x: nat {:trigger t.mem(x)} | x / 8 * 8 !in Fields(t.h) ::
          t.mem(x) == if ptr <= x < r.end then 255 else Seen(s)(x))
    && SizesWritten(t.h, t.mem) && !AnyDamaged(t.mem, t.allocs)
  }

  lemma EraseIs(s: State, rs: seq<Span>, ptr: nat, n: nat)
    requires ptr != 0 && Owned(s.h, ptr)
    ensures match Erase(s.h, s.mem, rs, ptr, n)
            case Ok((h, mem)) =>
              && h.live.Keys == s.h.live.Keys - {ptr - 8} && SizesWritten(h, mem)
              && (forall x: nat {:trigger mem(x)} | x / 8 * 8 !in Fields(h) ::
                    mem(x) == if ptr <= x < ptr + n then 255 else Seen(s)(x))
            case Err(f) => f == PageFault || BreakFails(f)
  {
    hide Free, Fields, Reload, Accessible;
    var filled := Fill(s.h, s.mem, ptr, n, 255);
    if filled.Ok? {
      FreeDrops(filled.value.0, rs, ptr);
    }
  }

  lemma ReleaseIs(s: State, ptr: nat, k: nat)
    requires ptr != 0 && Owned(s.h, ptr) && Sorted(s.allocs)
    requires k < |s.allocs| && s.allocs[k].start == ptr
    ensures s.allocs[k].end >= ptr
    ensures var r := Release(s, ptr, k);
            if r.Ok? then Released(s, ptr, s.allocs[k], r.value)
            else r.failure == ContentsChanged || r.failure == PageFault || BreakFails(r.failure)
  {
    hide Sorted, Erase, AllKept, AnyDamaged, Stamp, Fields, Seen;
    assert s.allocs[k].end >= ptr by {
      NotEmptyAt(s.allocs, k);
    }
    var rs, n := Without(s.allocs, k), s.allocs[k].end - ptr;
    WithoutSpan(s.allocs, k);
    FindIsOnly(s.allocs, k);
    EraseIs(s, rs, ptr, n);
    var e := Erase(s.h, s.mem, rs, ptr, n);
    if e.Ok? {
      KeptIffUndamaged(e.value.1, rs);
    }
  }

  lemma NotEmptyAt(rs: seq<Span>, k: nat)
    requires Sorted(rs) && k < |rs|
    ensures rs[k].start < rs[k].end
  {
  }

  lemma FindIsOnly(rs: seq<Span>, k: nat)
    requires Sorted(rs) && k < |rs|
    ensures forall m <- rs :: m.start == rs[k].start ==> m == rs[k]
  {
    WithoutSpan(rs, k);
  }

  /** A checked free, in any state with sorted books: which check fires, and what has happened
      if none does. */
  lemma FreeDetects(s: State, ptr: nat)
    requires Backed(s, ptr) && Sorted(s.allocs)
    ensures var r := CheckedFree(s, ptr);
            && (ptr == 0 ==> r == Ok(s))
            && (r == Err(UnknownPointer) <==> ptr != 0 && !exists m <- s.allocs :: m.start <= ptr < m.end)
            && (r == Err(MiddleOfRegion) <==> ptr != 0 && exists m <- s.allocs :: m.start < ptr < m.end)
            && (ptr != 0 && (exists m <- s.allocs :: m.start == ptr && Damaged(s.mem, m)) ==>
                  r == Err(ContentsChanged))
            && (r.Ok? && ptr != 0 ==>
                  Owned(s.h, ptr) && exists m <- s.allocs :: !Damaged(s.mem, m) && Released(s, ptr, m, r.value))
  {
    hide Sorted, Release, Find, Released;
    if ptr != 0 {
      FindIs(s.allocs, ptr);
      var k := Find(s.allocs, ptr);
      if k < |s.allocs| {
        var m := s.allocs[k];
        assert m in s.allocs && (DataKept(s.mem, m) <==> !Damaged(s.mem, m));
        if m.start == ptr {
          ReleaseIs(s, ptr, k);
        }
      }
    }
  }

  // ---------------------------------------------------------------- resizing a buffer

  /** Line 230 for a region filled with a byte: the comparison fails for every byte of 128 or
      more, whatever the memory holds. */
  ghost predicate Compares(mem: Memory, at: nat, n: nat, data: nat) {
    n > 0 ==> data < 128 && forall x: nat {:trigger mem(x)} | at <= x < at + n :: mem(x) == data
  }

  lemma ComparesIs(mem: Memory, at: nat, n: nat, data: nat)
    requires data < 256
    ensures CharsMatch(mem, at, n, data) <==> Compares(mem, at, n, data)
  {
    if n > 0 && CharsMatch(mem, at, n, data) {
      assert SignExtended(mem(at)) == data;
      forall x: nat | at <= x < at + n ensures mem(x) == data {
        assert SignExtended(mem(x)) == data;
      }
    }
  }

  /** The region at `ptr` is replaced by one at the answered buffer. */
  ghost predicate Retracked(s: State, ptr: nat, size: nat, h: Heap, mem: Memory, ptr': nat, t: State) {
    && (s.fill <= 254 ==> t.fill == s.fill % 254 + 1) && |t.allocs| == |s.allocs|
    && (forall m :: m in t.allocs <==>
          m == Span(ptr', ptr' + size, t.fill) || (m in s.allocs && m.start != ptr))
    && Sorted(t.allocs) && t.h == Reload(h, t.mem)
    && (forall x: nat {:trigger t.mem(x)} ::
          t.mem(x) == if ptr' <= x < ptr' + size then t.fill else Stamp(mem, Fields(h))(x))
    && !AnyDamaged(t.mem, t.allocs)
  }

  lemma ResizeDetects(s: State, ptr: nat, size: nat, k: nat)
    requires Owned(s.h, ptr) && Sorted(s.allocs) && size > 0
    requires k < |s.allocs| && s.allocs[k].start == ptr && s.allocs[k].data < 256
    ensures s.allocs[k].end >= ptr
    ensures var r, m := Resize(s, ptr, size, k), s.allocs[k];
            match Realloc(s.h, s.mem, s.allocs, ptr, size)
            case Ok((h, mem, ptr')) =>
              && (r == Err(ContentsLost) <==> !Compares(mem, ptr', Min(m.end - ptr, size), m.data))
              && (r == Err(RegionsOverlap) <==>
                    && Compares(mem, ptr', Min(m.end - ptr, size), m.data)
                    && Overlaps(Without(s.allocs, k), ptr', size))
              && (r.Ok? ==> r.value.1 == ptr' && Retracked(s, ptr, size, h, mem, ptr', r.value.0))
            case Err(f) => r == Err(f)
  {
    hide Sorted, Realloc, Track, CharsMatch, Compares, Overlaps, AnyDamaged, Reload, Stamp, Fields, Accessible;
    assert s.allocs[k].end >= ptr by {
      NotEmptyAt(s.allocs, k);
    }
    var rs := Without(s.allocs, k);
    WithoutSpan(s.allocs, k);
    FindIsOnly(s.allocs, k);
    var r := Realloc(s.h, s.mem, s.allocs, ptr, size);
    if r.Ok? {
      var (h, mem, ptr') := r.value;
      ComparesIs(mem, ptr', Min(s.allocs[k].end - ptr, size), s.allocs[k].data);
      TrackDetects(State(h, mem, rs, s.fill), ptr', size);
    }
  }

  /** Fill bytes are bytes. */
  ghost predicate ByteFilled(rs: seq<Span>) {
    forall m <- rs :: m.data < 256
  }

  ghost predicate ResizeOutcome(s: State, ptr: nat, size: nat, m: Span, r: Result<(State, nat)>)
    requires Owned(s.h, ptr) && m.start == ptr && m.end >= ptr
  {
    match Realloc(s.h, s.mem, s.allocs, ptr, size)
    case Ok((h, mem, ptr')) =>
      && (r == Err(ContentsLost) <==> !Compares(mem, ptr', Min(m.end - ptr, size), m.data))
      && (r.Ok? ==> r.value.1 == ptr' && Retracked(s, ptr, size, h, mem, ptr', r.value.0))
    case Err(f) => r == Err(f)
  }

  /** A checked realloc, in any state with sorted books: an unknown pointer, a pointer into the
      middle of a region and a damaged region are reported before the allocator is called; then
      the bytes kept are compared, and the buffer is tracked anew. */
  lemma ReallocDetects(s: State, ptr: nat, size: nat)
    requires Backed(s, ptr) && Sorted(s.allocs) && ByteFilled(s.allocs) && ptr != 0 && size > 0
    ensures var r := CheckedRealloc(s, ptr, size);
            && ((forall m <- s.allocs :: !(m.start <= ptr < m.end)) ==> r == Err(UnknownPointer))
            && ((exists m <- s.allocs :: m.start < ptr < m.end) ==> r == Err(MiddleOfRegion))
            && ((exists m <- s.allocs :: m.start == ptr && Damaged(s.mem, m)) ==> r == Err(ContentsChanged))
            && (forall m <- s.allocs | m.start == ptr && !Damaged(s.mem, m) ::
                  m.end >= ptr && Owned(s.h, ptr) && ResizeOutcome(s, ptr, size, m, r))
  {
    hide Sorted, Resize, Find, ResizeOutcome;
    FindIs(s.allocs, ptr);
    var k := Find(s.allocs, ptr);
    forall m | m in s.allocs && m.start == ptr && !Damaged(s.mem, m)
      ensures m.end >= ptr && Owned(s.h, ptr)
      ensures ResizeOutcome(s, ptr, size, m, CheckedRealloc(s, ptr, size))
    {
      StartIsContained(s.allocs, m);
      assert m == s.allocs[k] && DataKept(s.mem, m);
      ResizeAt(s, ptr, size, k);
    }
    if k < |s.allocs| {
      assert DataKept(s.mem, s.allocs[k]) <==> !Damaged(s.mem, s.allocs[k]);
    }
  }

  lemma StartIsContained(rs: seq<Span>, m: Span)
    requires Sorted(rs) && m in rs
    ensures m.start < m.end
  {
  }

  lemma ResizeAt(s: State, ptr: nat, size: nat, k: nat)
    requires Owned(s.h, ptr) && Sorted(s.allocs) && ByteFilled(s.allocs) && size > 0
    requires k < |s.allocs| && s.allocs[k].start == ptr
    ensures s.allocs[k].end >= ptr && ResizeOutcome(s, ptr, size, s.allocs[k], Resize(s, ptr, size, k))
  {
    hide Sorted, Resize, Compares, Retracked, Realloc, Overlaps;
    ResizeDetects(s, ptr, size, k);
  }

  /** NULL is resized by an allocation, and a resize to zero bytes is a free. */
  lemma ReallocEdgesDetect(s: State, ptr: nat, size: nat)
    requires Backed(s, ptr)
    ensures ptr == 0 ==> CheckedRealloc(s, ptr, size) == CheckedAlloc(s, 1, size, UseRealloc)
    ensures ptr != 0 && size == 0 ==>
              match CheckedFree(s, ptr)
              case Ok(t) => CheckedRealloc(s, ptr, size) == Ok((t, 0))
              case Err(f) => CheckedRealloc(s, ptr, size) == Err(f)
  {
    hide CheckedFree, CheckedAlloc;
  }

  /** A checked allocation, in any state: what the books and the memory hold once it passed. */
  lemma AllocDetects(s: State, nmemb: nat, size: nat, which: Allocator)
    ensures match Call(s, nmemb, size, which)
            case Ok((h, mem, buf)) =>
              var r, t := CheckedAlloc(s, nmemb, size, which), State(h, mem, s.allocs, s.fill);
              && (r.Ok? && nmemb * size > 0 ==>
                    && r.value.1 == buf && TrackedNow(t, buf, nmemb * size, r.value.0)
                    && buf % 8 == 0 && h.os.heap <= buf && buf + nmemb * size <= h.os.cur)
              && (r.Ok? && nmemb * size == 0 ==> r.value == (t, buf))
            case Err(f) => CheckedAlloc(s, nmemb, size, which) == Err(f)
  {
    hide Call, Accept, AnswerZero, TrackedNow;
    assert nmemb * size == 0 <==> nmemb == 0 || size == 0;
    var c := Call(s, nmemb, size, which);
    if c.Ok? {
      var (h, mem, buf) := c.value;
      AcceptDetects(State(h, mem, s.allocs, s.fill), nmemb * size, which, buf);
      AnswerZeroDetects(State(h, mem, s.allocs, s.fill), buf);
    }
  }

  // ---------------------------------------------------------------- any pointer

  lemma AgreesBacked(s: State, ptr: nat)
    requires Agrees(s)
    ensures Backed(s, ptr) && Sorted(s.allocs)
  {
    hide Inv, Sorted;
    forall r | r in s.allocs && r.start == ptr ensures Owned(s.h, ptr) {
      assert Tracked(s.h.live, r);
    }
  }

  /** While the books agree with the heap, a checked free of any pointer at all is answered by
      the books alone: an unknown pointer and a pointer into a buffer are reported and nothing
      else is, and a tracked buffer is freed. */
  lemma AnyPointer(s: State, ptr: nat)
    requires Agrees(s)
    ensures Backed(s, ptr)
    ensures var r := CheckedFree(s, ptr);
            && (r == Err(UnknownPointer) <==> ptr != 0 && !exists m <- s.allocs :: m.start <= ptr < m.end)
            && (r == Err(MiddleOfRegion) <==> ptr != 0 && exists m <- s.allocs :: m.start < ptr < m.end)
            && (r.Ok? <==> ptr == 0 || exists m <- s.allocs :: m.start == ptr)
            && (r.Ok? ==> Agrees(r.value) && GaveBackSafely(s.h.os, r.value.h.os, r.value.allocs))
  {
    hide Agrees, CheckedFree, GaveBackSafely, Sorted, Released;
    AgreesBacked(s, ptr);
    FreeDetects(s, ptr);
    if exists m <- s.allocs :: m.start == ptr {
      CheckedFreeOk(s, ptr);
    } else if ptr == 0 {
      CheckedFreeOk(s, ptr);
    } else if exists m <- s.allocs :: m.start <= ptr < m.end {
      var m :| m in s.allocs && m.start <= ptr < m.end;
      assert m.start < ptr;
    }
  }

  // ---------------------------------------------------------------- the fill bytes of a run

  /** The operation tracks a buffer. */
  predicate Tracks(op: Op) {
    match op
    case DoAlloc(nmemb, size, _) => nmemb > 0 && size > 0
    case DoFree(_) => false
    case DoRealloc(_, size) => size > 0
  }

  function Trackings(ops: seq<Op>): nat {
    if ops == [] then 0 else (if Tracks(ops[0]) then 1 else 0) + Trackings(ops[1..])
  }

  /** The fill byte after `k` buffers: 1, 2, ..., 254, and 1 again. */
  ghost predicate FillAfter(k: nat, fill: nat) {
    fill == if k == 0 then 0 else (k - 1) % 254 + 1
  }

  lemma FillNext(k: nat, fill: nat)
    requires FillAfter(k, fill)
    ensures FillAfter(k + 1, NextFill(fill))
  {
    if k > 0 {
      assert (k - 1) % 254 < 253 ==> k % 254 == (k - 1) % 254 + 1;
    }
  }

  lemma AllocFill(s: State, nmemb: nat, size: nat, which: Allocator)
    ensures var r := CheckedAlloc(s, nmemb, size, which);
            r.Ok? ==> r.value.0.fill == if nmemb > 0 && size > 0 then NextFill(s.fill) else s.fill
  {
    hide Call, AddRegion, Write, Find, AllKept, Cleared;
  }

  lemma FillStep(s: State, op: Op)
    requires LegalOp(s, op)
    ensures var r := Perform(s, op); r.Ok? ==> r.value.fill == if Tracks(op) then NextFill(s.fill) else s.fill
  {
    hide Realloc, AddRegion, Write, Find, AllKept, DataKept, CharsMatch, Erase, CheckedAlloc, NextFill;
    match op
    case DoAlloc(nmemb, size, which) => AllocFill(s, nmemb, size, which);
    case DoFree(ptr) =>
    case DoRealloc(ptr, size) => AllocFill(s, 1, size, UseRealloc);
  }

  lemma {:induction false} FillRun(s: State, ops: seq<Op>, k: nat)
    requires LegalRun(s, ops) && FillAfter(k, s.fill)
    ensures var r := RunChecked(s, ops); r.Ok? ==> FillAfter(k + Trackings(ops), r.value.fill)
    decreases |ops|
  {
    hide Perform, LegalOp, Tracks, FillAfter, NextFill;
    if ops != [] {
      FillStep(s, ops[0]);
      var r := Perform(s, ops[0]);
      if r.Ok? {
        FillNext(k, s.fill);
        FillRun(r.value, ops[1..], if Tracks(ops[0]) then k + 1 else k);
      }
    }
  }

  /** In every run the k-th buffer tracked is filled with the byte (k - 1) % 254 + 1. */
  lemma FillBytes(heap: nat, limit: nat, mem: Memory, ops: seq<Op>)
    requires LegalRun(FreshState(heap, limit, mem), ops)
    ensures var r, k := RunChecked(FreshState(heap, limit, mem), ops), Trackings(ops);
            r.Ok? && k > 0 ==> r.value.fill == (k - 1) % 254 + 1
  {
    hide LegalRun, RunChecked;
    FillRun(FreshState(heap, limit, mem), ops, 0);
  }
}
