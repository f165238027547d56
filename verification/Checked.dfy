/** The checked wrappers of the test framework around the allocator (checked_alloc.c): the
    shadow bookkeeping, its assertions, and when none of them fires. */
module Checked {
  import opened Base
  import opened Blocks
  import opened Spans
  import opened Break
  import opened HeapSpec
  import opened Payloads
  import opened Overlay

  /** `allocs` is the sorted list of tracked regions, `fill` the last fill byte handed out. */
  datatype State = State(h: Heap, mem: Memory, allocs: seq<Span>, fill: nat)

  datatype Allocator = UseMalloc | UseCalloc | UseRealloc

  /** The fill byte cycles through 1..254. */
  function NextFill(fill: nat): (r: nat)
    ensures 1 <= r <= 254
    ensures fill <= 254 ==> r == fill % 254 + 1
  {
    if fill + 1 >= 255 then 1 else fill + 1
  }

  // ---------------------------------------------------------------- region list operations

  ghost predicate Contains(r: Span, x: nat) {
    r.start <= x < r.end
  }

  /** Where a sorted list takes `s`: before the first region that starts at or after its end. */
  function Position(rs: seq<Span>, s: Span): (p: nat)
    ensures p <= |rs|
    ensures forall i | 0 <= i < p :: rs[i].start < s.end
    ensures p < |rs| ==> rs[p].start >= s.end
  {
    if rs == [] || rs[0].start >= s.end then 0 else 1 + Position(rs[1..], s)
  }

  function Inserted(rs: seq<Span>, s: Span): seq<Span> {
    var p := Position(rs, s);
    rs[..p] + [s] + rs[p..]
  }

  ghost function AddRegion(rs: seq<Span>, start: nat, len: nat, data: nat): Result<seq<Span>> {
    var s := Span(start, start + len, data);
    if len == 0 then Err(EmptyRegion)
    else if AnyMeets(rs, s) then Err(RegionsOverlap)
    else Ok(Inserted(rs, s))
  }

  /** The index of the region that contains `x`. */
  ghost function Find(rs: seq<Span>, x: nat): (k: nat)
    ensures k <= |rs|
    ensures forall i | 0 <= i < k :: !Contains(rs[i], x)
    ensures k < |rs| ==> Contains(rs[k], x)
  {
    if rs == [] || Contains(rs[0], x) then 0 else 1 + Find(rs[1..], x)
  }

  ghost predicate DataKept(mem: Memory, r: Span) {
    forall x: nat {:trigger mem(x)} | r.start <= x < r.end :: mem(x) == r.data
  }

  ghost predicate AllKept(mem: Memory, rs: seq<Span>) {
    forall r <- rs :: DataKept(mem, r)
  }

  ghost predicate Cleared(mem: Memory, at: nat, n: nat) {
    forall x: nat {:trigger mem(x)} | at <= x < at + n :: mem(x) == 0
  }

  /** A `char` of value `b` converted to unsigned long, as gcc on x86-64 does it: `char` is
      signed there, so bytes of 128 and above are sign-extended. */
  function SignExtended(b: nat): nat {
    if b < 128 then b else b + 0xFFFF_FFFF_FFFF_FF00
  }

  /** Line 230: the `n` bytes at `at`, read through a `char *`, equal `data`. */
  ghost predicate CharsMatch(mem: Memory, at: nat, n: nat, data: nat) {
    forall x: nat {:trigger mem(x)} | at <= x < at + n :: SignExtended(mem(x)) == data
  }

  // ---------------------------------------------------------------- the wrappers

  ghost function Call(s: State, nmemb: nat, size: nat, which: Allocator): Result<(Heap, Memory, nat)> {
    match which
    case UseMalloc =>
      var (h, ptr) :- Malloc(s.h, s.allocs, nmemb * size);
      Ok((h, s.mem, ptr))
    case UseCalloc => Calloc(s.h, s.mem, s.allocs, nmemb, size)
    case UseRealloc => Realloc(s.h, s.mem, s.allocs, 0, nmemb * size)
  }

  /** Lines 121-123 and 239-240: a buffer is filled and all regions are checked. A fill that
      reaches over the size field of the next block changes that size. */
  ghost function Write(h: Heap, mem: Memory, rs: seq<Span>, buf: nat, size: nat, v: nat): Result<(Heap, Memory)> {
    var (h', mem') :- Fill(h, mem, buf, size, v);
    if !AllKept(mem', rs) then Err(ContentsChanged) else Ok((h', mem'))
  }

  /** Tracks a new buffer and fills it (lines 113-123 and 237-240). */
  ghost function Track(s: State, buf: nat, size: nat): Result<State> {
    var fill := NextFill(s.fill);
    var rs :- AddRegion(s.allocs, buf, size, fill);
    var (h, mem) :- Write(s.h, s.mem, rs, buf, size, fill);
    Ok(State(h, mem, rs, fill))
  }

  /** Lines 72-93: the answer to a request for zero bytes must not be a tracked buffer. */
  ghost function AnswerZero(s: State, buf: nat): Result<(State, nat)> {
    if Find(s.allocs, buf) < |s.allocs| then Err(UnexpectedBuffer)
    else if !AllKept(s.mem, s.allocs) then Err(ContentsChanged)
    else Ok((s, buf))
  }

  /** Lines 96-124: the checks on a buffer of n bytes, then it is tracked. */
  ghost function Accept(s: State, n: nat, which: Allocator, buf: nat): Result<(State, nat)> {
    if buf == 0 then Err(NoBuffer)
    else if which == UseCalloc && !Cleared(s.mem, buf, n) then Err(NotCleared)
    else if buf % 8 != 0 then Err(Misaligned)
    else if buf < s.h.os.heap || buf + n > s.h.os.cur then Err(OutsideHeap)
    else
      var s' :- Track(s, buf, n);
      Ok((s', buf))
  }

  ghost function CheckedAlloc(s: State, nmemb: nat, size: nat, which: Allocator): Result<(State, nat)> {
    var (h, mem, buf) :- Call(s, nmemb, size, which);
    var t := State(h, mem, s.allocs, s.fill);
    if nmemb == 0 || size == 0 then AnswerZero(t, buf) else Accept(t, nmemb * size, which, buf)
  }

  /** Lines 178-188: the buffer is overwritten and freed; the sizes the allocator stores are
      bytes that the check of line 189 sees. */
  function Erase(h: Heap, mem: Memory, rs: seq<Span>, ptr: nat, n: nat): Result<(Heap, Memory)>
    requires ptr != 0 && Owned(h, ptr)
  {
    var (damaged, filled) :- Fill(h, mem, ptr, n, 255);
    var h' :- Free(damaged, rs, ptr);
    Ok((h', Stamp(filled, Fields(h'))))
  }

  /** Lines 177-189: the region at index `k` is dropped, overwritten and freed. */
  ghost function Release(s: State, ptr: nat, k: nat): Result<State>
    requires ptr != 0 && Owned(s.h, ptr) && k < |s.allocs| && s.allocs[k].start == ptr && s.allocs[k].end >= ptr
  {
    var rs := Without(s.allocs, k);
    var (h, mem) :- Erase(s.h, s.mem, rs, ptr, s.allocs[k].end - ptr);
    if !AllKept(mem, rs) then Err(ContentsChanged)
    else Ok(State(h, mem, rs, s.fill))
  }

  /** A tracked region that starts at the pointer is the buffer of a live block, so that the
      allocator may be called for it. */
  ghost predicate Backed(s: State, ptr: nat) {
    forall r <- s.allocs | r.start == ptr && ptr != 0 :: Owned(s.h, ptr)
  }

  ghost function CheckedFree(s: State, ptr: nat): Result<State>
    requires Backed(s, ptr)
  {
    if ptr == 0 then Ok(s)
    else
      var k := Find(s.allocs, ptr);
      if k == |s.allocs| then Err(UnknownPointer)
      else if s.allocs[k].start != ptr then Err(MiddleOfRegion)
      else if !DataKept(s.mem, s.allocs[k]) then Err(ContentsChanged)
      else
        assert s.allocs[k] in s.allocs;
        Release(s, ptr, k)
  }

  /** Lines 220-240: the region at index `k` is resized, its contents compared and tracked
      anew. */
  ghost function Resize(s: State, ptr: nat, size: nat, k: nat): Result<(State, nat)>
    requires Owned(s.h, ptr) && k < |s.allocs| && s.allocs[k].start == ptr && s.allocs[k].end >= ptr
  {
    var r := s.allocs[k];
    var (h, mem, newptr) :- Realloc(s.h, s.mem, s.allocs, ptr, size);
    if !CharsMatch(mem, newptr, Min(r.end - ptr, size), r.data) then Err(ContentsLost)
    else
      var s' :- Track(State(h, mem, Without(s.allocs, k), s.fill), newptr, size);
      Ok((s', newptr))
  }

  ghost function CheckedRealloc(s: State, ptr: nat, size: nat): Result<(State, nat)>
    requires Backed(s, ptr)
  {
    if ptr == 0 then CheckedAlloc(s, 1, size, UseRealloc)
    else if size == 0 then
      var s' :- CheckedFree(s, ptr);
      Ok((s', 0))
    else
      var k := Find(s.allocs, ptr);
      if k == |s.allocs| then Err(UnknownPointer)
      else if s.allocs[k].start != ptr then Err(MiddleOfRegion)
      else if !DataKept(s.mem, s.allocs[k]) then Err(ContentsChanged)
      else
        assert s.allocs[k] in s.allocs;
        Resize(s, ptr, size, k)
  }

  // ---------------------------------------------------------------- the invariant

  /** The region is the front of the payload of a live block. */
  ghost predicate Tracked(live: map<nat, nat>, r: Span) {
    r.start >= 8 && r.start - 8 in live && r.start < r.end <= r.start - 8 + live[r.start - 8]
  }

  /** Allocator and bookkeeping agree: tracked regions are sorted and disjoint, each lies
      inside the payload of its own live block, and each holds its fill byte. */
  ghost predicate Agrees(s: State) {
    && Inv(s.h) && Sorted(s.allocs)
    && (forall r <- s.allocs :: Tracked(s.h.live, r))
    && AllKept(s.mem, s.allocs)
  }

  /** The caller passes back NULL or the start of a tracked buffer. */
  ghost predicate Legal(s: State, ptr: nat) {
    ptr == 0 || (Owned(s.h, ptr) && exists r <- s.allocs :: r.start == ptr)
  }

  // ---------------------------------------------------------------- list lemmas

  lemma InsertedMembers(rs: seq<Span>, s: Span)
    ensures forall r :: r in Inserted(rs, s) <==> r == s || r in rs
  {
    var p := Position(rs, s);
    assert rs == rs[..p] + rs[p..];
  }

  lemma InsertedIsSorted(rs: seq<Span>, s: Span)
    requires Sorted(rs) && s.start < s.end && !AnyMeets(rs, s)
    ensures Sorted(Inserted(rs, s))
  {
    var p := Position(rs, s);
    forall i | 0 <= i < |rs| ensures if i < p then rs[i].end <= s.start else s.end <= rs[i].start {
      assert !Meets(rs[i], s);
      assert i > p ==> rs[p].end <= rs[i].start && rs[p].start < rs[p].end;
    }
  }

  lemma WithoutSpan(rs: seq<Span>, k: nat)
    requires Sorted(rs) && k < |rs|
    ensures Sorted(Without(rs, k))
    ensures forall r :: r in Without(rs, k) <==> r in rs && r != rs[k]
    ensures forall r <- Without(rs, k) :: r.start != rs[k].start
  {
    var t := Without(rs, k);
    forall i, j | 0 <= i < |rs| && 0 <= j < |rs| && i != j ensures rs[i].start != rs[j].start {
      assert i < j ==> rs[i].end <= rs[j].start;
      assert j < i ==> rs[j].end <= rs[i].start;
    }
    forall r | r in rs && r != rs[k] ensures r in t {
      var i :| 0 <= i < |rs| && rs[i] == r;
      assert t[if i < k then i else i - 1] == r;
    }
  }

  /** On a sorted list the search finds the region that starts at the pointer. */
  lemma FindStart(rs: seq<Span>, ptr: nat)
    requires Sorted(rs) && exists r <- rs :: r.start == ptr
    ensures Find(rs, ptr) < |rs| && rs[Find(rs, ptr)].start == ptr
  {
    var i :| 0 <= i < |rs| && rs[i].start == ptr;
    var k := Find(rs, ptr);
    assert Contains(rs[i], ptr);
    assert !(k < i);
  }

  // ---------------------------------------------------------------- tracking a buffer

  /** A block's bytes, and the header of the next one, are free of other tracked regions. */
  lemma TrackedApart(h: Heap, r: Span, buf: nat)
    requires Inv(h) && Tracked(h.live, r) && Owned(h, buf) && r.start != buf
    ensures r.end + 8 <= buf || buf + h.live[buf - 8] <= r.start
  {
    hide Inv;
    LiveApart(h, r.start - 8, buf - 8);
  }

  lemma FillKeepsOthers(mem: Memory, rs: seq<Span>, buf: nat, size: nat, v: nat)
    requires AllKept(mem, rs) && forall r <- rs :: r.end <= buf || buf + size <= r.start
    ensures AllKept(Memset(mem, buf, size, v), rs)
  {
    var mem' := Memset(mem, buf, size, v);
    forall r | r in rs ensures DataKept(mem', r) {
      assert DataKept(mem, r);
      forall x: nat | r.start <= x < r.end ensures mem'(x) == r.data {
        assert mem(x) == r.data;
      }
    }
  }

  /** Size fields stored in memory touch no tracked byte. */
  lemma StampKeeps(h: Heap, mem: Memory, rs: seq<Span>)
    requires Inv(h) && AllKept(mem, rs) && forall r <- rs :: Tracked(h.live, r)
    ensures AllKept(Stamp(mem, Fields(h)), rs)
  {
    hide Inv, Fields;
    var mem' := Stamp(mem, Fields(h));
    forall r | r in rs ensures DataKept(mem', r) {
      assert DataKept(mem, r) && Tracked(h.live, r);
      forall x: nat | r.start <= x < r.end ensures mem'(x) == r.data {
        assert mem(x) == r.data;
        PayloadHasNoField(h, r.start, x);
      }
    }
  }

  /** What the bookkeeping knows before a new buffer is added. */
  ghost predicate Ready(s: State, buf: nat) {
    Agrees(s) && Owned(s.h, buf) && forall r <- s.allocs :: r.start != buf
  }

  /** The new region meets no other, and after the fill every region holds its byte. */
  lemma TrackKeeps(s: State, buf: nat, size: nat, v: nat)
    requires Ready(s, buf) && 0 < size <= s.h.live[buf - 8]
    ensures var r := Span(buf, buf + size, v);
            && !AnyMeets(s.allocs, r) && Sorted(Inserted(s.allocs, r))
            && AllKept(Filled(s.h, s.mem, buf, size, v), Inserted(s.allocs, r))
  {
    hide Inv, Sorted, Stamp, Fields;
    var r := Span(buf, buf + size, v);
    forall m | m in s.allocs ensures m.end <= buf || buf + size <= m.start {
      TrackedApart(s.h, m, buf);
    }
    assert !AnyMeets(s.allocs, r);
    StampKeeps(s.h, s.mem, s.allocs);
    InsertedIsSorted(s.allocs, r);
    InsertedMembers(s.allocs, r);
    FillKeepsOthers(Stamp(s.mem, Fields(s.h)), s.allocs, buf, size, v);
    assert DataKept(Filled(s.h, s.mem, buf, size, v), r);
  }

  /** The books gained the buffer, filled with the next byte. */
  ghost predicate NewlyTracked(s: State, buf: nat, size: nat, t: State) {
    t.fill == NextFill(s.fill) && t.allocs == Inserted(s.allocs, Span(buf, buf + size, t.fill))
  }

  lemma TrackInside(s: State, buf: nat, size: nat)
    requires Ready(s, buf) && 0 < size <= Payload(s.h, buf)
    ensures var t := Track(s, buf, size);
            t.Ok? && t.value.h == s.h && Agrees(t.value) && NewlyTracked(s, buf, size, t.value)
  {
    hide Inv, Sorted, Filled, AllKept, Fill;
    var fill := NextFill(s.fill);
    TrackKeeps(s, buf, size, fill);
    InsertedMembers(s.allocs, Span(buf, buf + size, fill));
    FillInside(s.h, s.mem, buf, size, fill);
  }

  lemma TrackBeyond(s: State, buf: nat, size: nat)
    requires Ready(s, buf) && Payload(s.h, buf) < size <= s.h.live[buf - 8] && 0 < size
    ensures match Track(s, buf, size)
            case Ok(t) =>
              && !Agrees(t) && !AtEdge(s.h, buf) && t.h.os == s.h.os && NewlyTracked(s, buf, size, t)
              && t.mem == Filled(s.h, s.mem, buf, size, t.fill) && t.h == Reload(s.h, t.mem)
              && (Inv(t.h) <==> GapHarmless(s.h, buf, size, NextFill(s.fill)))
            case Err(f) => f == PageFault && AtEdge(s.h, buf)
  {
    hide Inv, Sorted, Filled, AllKept, Fill, GapHarmless, Reload;
    var fill := NextFill(s.fill);
    TrackKeeps(s, buf, size, fill);
    InsertedMembers(s.allocs, Span(buf, buf + size, fill));
    GapFillIff(s.h, s.mem, buf, size, fill);
    OwnHeaderKept(s.h, s.mem, buf, size, fill);
  }

  /** Tracking a buffer of its own block never reports an overlap or a changed byte. It dies
      exactly when the buffer reaches over the end of a block at the edge. The books agree
      afterwards exactly when the payload holds the buffer; if it does not, the heap invariant
      survives exactly when the fill does not change the size behind the block. */
  lemma TrackOk(s: State, buf: nat, size: nat)
    requires Ready(s, buf) && 0 < size <= s.h.live[buf - 8]
    ensures match Track(s, buf, size)
            case Ok(t) =>
              && (Agrees(t) <==> size <= Payload(s.h, buf)) && t.h.os == s.h.os && NewlyTracked(s, buf, size, t)
              && (Agrees(t) ==> t.h == s.h)
              && (!Agrees(t) ==> !AtEdge(s.h, buf) && (Inv(t.h) <==> GapHarmless(s.h, buf, size, NextFill(s.fill))))
            case Err(f) => f == PageFault && AtEdge(s.h, buf) && size > Payload(s.h, buf)
  {
    hide Agrees, Track, GapHarmless, Inv, NewlyTracked;
    if size <= Payload(s.h, buf) {
      TrackInside(s, buf, size);
    } else {
      TrackBeyond(s, buf, size);
    }
  }

  // ---------------------------------------------------------------- the wrappers never fail

  /** Regions stay tracked and filled when one block is added and the others keep their bytes. */
  lemma StaysAgreed(s: State, h: Heap, mem: Memory, rs: seq<Span>, ptr: nat)
    requires Agrees(s) && Inv(h) && Sorted(rs) && forall r <- rs :: r in s.allocs
    requires forall a <- s.h.live :: a in h.live && h.live[a] == s.h.live[a]
    requires OthersKept(s.h, s.mem, mem, ptr) && forall r <- rs :: r.start != ptr
    ensures Agrees(State(h, mem, rs, s.fill))
  {
    hide Inv, Sorted;
    forall r | r in rs ensures DataKept(mem, r) && Tracked(h.live, r) {
      assert Tracked(s.h.live, r) && DataKept(s.mem, r);
      forall x: nat | r.start <= x < r.end ensures mem(x) == r.data {
        assert s.mem(x) == r.data;
        assert r.start - 8 in s.h.live;
      }
    }
  }

  /** What the wrapper may rely on after the allocator answered a request for n bytes. */
  ghost predicate Answered(s: State, n: nat, h: Heap, mem: Memory, buf: nat) {
    && Inv(h) && h.os.heap == s.h.os.heap && h.os.limit == s.h.os.limit && h.os.given == s.h.os.given
    && (buf == 0 <==> n == 0) && (buf == 0 ==> h == s.h && mem == s.mem)
    && (buf != 0 ==>
          && buf % 8 == 0 && Owned(h, buf) && buf - 8 !in s.h.live
          && h.live == s.h.live[buf - 8 := h.live[buf - 8]]
          && n <= Payload(h, buf) && OthersKept(s.h, s.mem, mem, buf))
  }

  lemma MallocAnswers(s: State, n: nat)
    requires Agrees(s)
    ensures match Malloc(s.h, s.allocs, n)
            case Ok((h, buf)) => Answered(s, n, h, s.mem, buf)
            case Err(f) => f == BeyondLimit
  {
    hide Inv, Malloc, SizeAlign, Capacity;
    MallocCorrect(s.h, s.allocs, n);
  }

  ghost predicate CallOutcome(s: State, n: nat, which: Allocator, r: Result<(Heap, Memory, nat)>) {
    match r
    case Ok((h, mem, buf)) => Answered(s, n, h, mem, buf) && (which == UseCalloc ==> Cleared(mem, buf, n))
    case Err(f) => f == BeyondLimit
  }

  lemma CallAnswers(s: State, nmemb: nat, size: nat, which: Allocator)
    requires Agrees(s)
    ensures CallOutcome(s, nmemb * size, which, Call(s, nmemb, size, which))
  {
    hide Inv, Malloc, Calloc, OthersKept;
    MallocAnswers(s, nmemb * size);
    CallocCorrect(s.h, s.mem, s.allocs, nmemb, size);
  }

  lemma NothingAtNull(s: State)
    requires Agrees(s)
    ensures Find(s.allocs, 0) == |s.allocs|
  {
    hide Inv, Sorted;
    var k := Find(s.allocs, 0);
    assert k < |s.allocs| ==> Tracked(s.h.live, s.allocs[k]);
  }

  /** What the wrapper makes of the allocator's answer. */
  ghost predicate AllocOutcome(s: State, n: nat, call: Result<(Heap, Memory, nat)>, r: Result<(State, nat)>) {
    match r
    case Ok((s', buf)) =>
      && Agrees(s') && (buf == 0 <==> n == 0) && s'.h.os.given == s.h.os.given
      && call.Ok? && call.value.0 == s'.h && call.value.2 == buf
      && (buf != 0 ==> NewlyTracked(s, buf, n, s'))
    case Err(f) => f == BeyondLimit && call == Err(f)
  }

  /** A checked allocation of any kind never trips an assertion: it fails only when the
      allocator does, at the heap limit. Otherwise the heap is what the allocator left, the
      buffer is tracked with the next fill byte, and the books agree with the heap. */
  lemma CheckedAllocOk(s: State, nmemb: nat, size: nat, which: Allocator)
    requires Agrees(s)
    ensures AllocOutcome(s, nmemb * size, Call(s, nmemb, size, which), CheckedAlloc(s, nmemb, size, which))
  {
    hide Inv, Sorted, Call, Track, Find, OthersKept;
    CallAnswers(s, nmemb, size, which);
    assert nmemb * size == 0 <==> nmemb == 0 || size == 0;
    match Call(s, nmemb, size, which)
    case Err(_) =>
    case Ok((h, mem, buf)) =>
      if buf == 0 {
        NothingAtNull(s);
      } else {
        LiveApart(h, buf - 8, buf - 8);
        assert h.os.cur >= h.end by {
          BelowBreak(h);
        }
        assert forall r <- s.allocs :: Tracked(s.h.live, r);
        StaysAgreed(s, h, mem, s.allocs, buf);
        TrackOk(State(h, mem, s.allocs, s.fill), buf, nmemb * size);
      }
  }

  lemma RegionsInsideLive(s: State, rs: seq<Span>, live: map<nat, nat>)
    requires forall r <- rs :: Tracked(live, r)
    ensures InsideLive(rs, live)
  {
    forall r | r in rs ensures exists a <- live :: a + 8 <= r.start && r.end <= a + live[a] {
      assert Tracked(live, r) && r.start - 8 in live;
    }
  }

  /** What the search found (line 172 or 216). */
  ghost predicate FoundAt(s: State, ptr: nat, k: nat) {
    && Agrees(s) && Owned(s.h, ptr) && k < |s.allocs| && k == Find(s.allocs, ptr)
    && s.allocs[k].start == ptr && Tracked(s.h.live, s.allocs[k]) && DataKept(s.mem, s.allocs[k])
  }

  lemma OthersInside(s: State, ptr: nat, k: nat)
    requires FoundAt(s, ptr, k)
    ensures var rs, live := Without(s.allocs, k), s.h.live - {ptr - 8};
            && Sorted(rs) && InsideLive(rs, live)
            && (forall m <- rs :: Tracked(live, m) && m in s.allocs && m.start != ptr)
            && s.allocs[k].end - ptr <= Payload(s.h, ptr)
  {
    hide Inv, Sorted, DataKept, AllKept, Find;
    var rs, live := Without(s.allocs, k), s.h.live - {ptr - 8};
    WithoutSpan(s.allocs, k);
    forall m | m in rs ensures Tracked(live, m) {
      assert Tracked(s.h.live, m);
    }
    RegionsInsideLive(s, rs, live);
  }

  lemma ReleaseOk(s: State, ptr: nat, k: nat)
    requires FoundAt(s, ptr, k)
    ensures match Release(s, ptr, k)
            case Ok(s') => Agrees(s') && GaveBackSafely(s.h.os, s'.h.os, s'.allocs)
            case Err(_) => false
  {
    hide Inv, Sorted, Free, Find, GaveBackSafely, Fill, Filled, Stamp, Fields, AllKept, InsideLive, DataKept;
    var rs, n := Without(s.allocs, k), s.allocs[k].end - ptr;
    OthersInside(s, ptr, k);
    FreeCorrect(s.h, rs, ptr);
    ReleaseKeeps(s, ptr, n, rs);
    FillInside(s.h, s.mem, ptr, n, 255);
    match Free(s.h, rs, ptr)
    case Ok(h) => StampKeeps(h, Filled(s.h, s.mem, ptr, n, 255), rs);
  }

  /** A checked free of a tracked buffer never trips an assertion, the check of do_brk
      included: no range given back meets a tracked region, whichever way the list is
      searched. */
  lemma CheckedFreeOk(s: State, ptr: nat)
    requires Agrees(s) && Legal(s, ptr)
    ensures match CheckedFree(s, ptr)
            case Ok(s') => Agrees(s') && GaveBackSafely(s.h.os, s'.h.os, s'.allocs)
            case Err(_) => false
  {
    hide Inv, Sorted, Find, GaveBackSafely, Release, DataKept;
    if ptr == 0 {
      SelfSafe(s.h.os, s.allocs);
    } else {
      FindStart(s.allocs, ptr);
      var k := Find(s.allocs, ptr);
      assert s.allocs[k] in s.allocs;
      ReleaseOk(s, ptr, k);
    }
  }

  lemma ReleaseKeeps(s: State, ptr: nat, n: nat, rs: seq<Span>)
    requires Agrees(s) && Owned(s.h, ptr) && n <= Payload(s.h, ptr)
    requires forall m <- rs :: m in s.allocs && m.start != ptr
    ensures AllKept(Filled(s.h, s.mem, ptr, n, 255), rs)
  {
    hide Inv, Sorted, Stamp, Fields;
    StampKeeps(s.h, s.mem, s.allocs);
    forall m | m in rs ensures m.end <= ptr || ptr + n <= m.start {
      TrackedApart(s.h, m, ptr);
    }
    FillKeepsOthers(Stamp(s.mem, Fields(s.h)), rs, ptr, n, 255);
  }

  /** The tracked buffer at `ptr` was filled with a byte below 128. */
  ghost predicate FilledLow(s: State, ptr: nat) {
    forall r <- s.allocs | r.start == ptr :: r.data < 128
  }

  /** On a sorted list that is the region the search finds. */
  lemma FilledLowIs(s: State, ptr: nat)
    requires Sorted(s.allocs) && Find(s.allocs, ptr) < |s.allocs| && s.allocs[Find(s.allocs, ptr)].start == ptr
    ensures FilledLow(s, ptr) <==> s.allocs[Find(s.allocs, ptr)].data < 128
  {
    var k := Find(s.allocs, ptr);
    assert s.allocs[k] in s.allocs;
    forall r | r in s.allocs && r.start == ptr ensures r == s.allocs[k] {
      WithoutSpan(s.allocs, k);
    }
  }

  /** Fill bytes below 128 survive the conversion of line 230; no other byte does. */
  lemma CharsOfData(mem: Memory, at: nat, n: nat, data: nat)
    requires DataKept(mem, Span(at, at + n, data)) && n > 0
    ensures CharsMatch(mem, at, n, data) <==> data < 128
  {
    assert mem(at) == data;
  }

  lemma CopiedData(mem: Memory, mem': Memory, r: Span, dst: nat, n: nat, m: int)
    requires DataKept(mem, r) && Copied(mem, r.start, mem', dst, m) && n <= m && r.start + n <= r.end
    ensures DataKept(mem', Span(dst, dst + n, r.data))
  {
    forall x: nat | dst <= x < dst + n ensures mem'(x) == r.data {
      assert mem'(x) == mem(x - dst + r.start);
    }
  }

  /** What a checked realloc of a tracked buffer to `size` bytes does. The contents survive
      every move; still the comparison of line 230 fails for a fill byte of 128 or more. */
  ghost predicate ReallocOutcome(s: State, ptr: nat, size: nat, r: Result<(State, nat)>)
    requires Owned(s.h, ptr)
  {
    match r
    case Ok((s', ptr')) =>
      && !OverReads(s.h, ptr, size) && FilledLow(s, ptr)
      && (Agrees(s') <==> !InGap(s.h, ptr, size)) && s'.h.os.given == s.h.os.given
      && (InGap(s.h, ptr, size) ==>
            !AtEdge(s.h, ptr) && (Inv(s'.h) <==> GapHarmless(s.h, ptr, size, NextFill(s.fill))))
    case Err(f) =>
      || (f == PageFault && OverReads(s.h, ptr, size))
      || (f == PageFault && FilledLow(s, ptr) && InGap(s.h, ptr, size) && AtEdge(s.h, ptr))
      || (f == ContentsLost && !OverReads(s.h, ptr, size) && !FilledLow(s, ptr))
      || (f == BeyondLimit && !OverReads(s.h, ptr, size) && s.h.live[ptr - 8] < size)
  }

  /** After the allocator answered, the other regions are as good as before and the bytes kept
      are compared. */
  lemma ResizeReady(s: State, ptr: nat, size: nat, k: nat, h: Heap, mem: Memory, ptr': nat)
    requires FoundAt(s, ptr, k) && size > 0 && Reallocated(s.h, s.mem, ptr, size, h, mem, ptr')
    ensures var r := s.allocs[k];
            && Ready(State(h, mem, Without(s.allocs, k), s.fill), ptr')
            && (r.end - ptr <= Payload(s.h, ptr))
            && (CharsMatch(mem, ptr', Min(r.end - ptr, size), r.data) <==> FilledLow(s, ptr))
  {
    hide Inv, Sorted, OthersKept, Copied, DataKept, CharsMatch, Find;
    var r, rs := s.allocs[k], Without(s.allocs, k);
    WithoutSpan(s.allocs, k);
    FilledLowIs(s, ptr);
    assert forall m <- rs :: Tracked(s.h.live, m);
    StaysAgreed(s, h, mem, rs, ptr');
    CopiedData(s.mem, mem, r, ptr', Min(r.end - ptr, size), Min(Payload(s.h, ptr), size));
    CharsOfData(mem, ptr', Min(r.end - ptr, size), r.data);
  }

  lemma ResizeInPlace(s: State, ptr: nat, size: nat, k: nat)
    requires FoundAt(s, ptr, k) && 0 < size <= s.h.live[ptr - 8]
    ensures ReallocOutcome(s, ptr, size, Resize(s, ptr, size, k))
  {
    hide Inv, Agrees, Realloc, Track, DataKept, CharsMatch, GapHarmless, FilledLow, Find;
    KeptInPlace(s.h, s.mem, s.allocs, ptr, size);
    SameIsReallocated(s, ptr, size);
    ResizeReady(s, ptr, size, k, s.h, s.mem, ptr);
    TrackOk(State(s.h, s.mem, Without(s.allocs, k), s.fill), ptr, size);
  }

  lemma SameIsReallocated(s: State, ptr: nat, size: nat)
    requires Agrees(s) && Owned(s.h, ptr) && 0 < size <= s.h.live[ptr - 8]
    ensures Reallocated(s.h, s.mem, ptr, size, s.h, s.mem, ptr)
  {
    hide Inv, Reallocated;
    KeptInPlace(s.h, s.mem, s.allocs, ptr, size);
    ReallocKeepsContents(s.h, s.mem, s.allocs, ptr, size);
  }

  lemma ResizeMoved(s: State, ptr: nat, size: nat, k: nat)
    requires FoundAt(s, ptr, k) && s.h.live[ptr - 8] < size
    ensures ReallocOutcome(s, ptr, size, Resize(s, ptr, size, k))
  {
    hide Inv, Agrees, Realloc, Track, DataKept, CharsMatch, GapHarmless, FilledLow, Find, OverReads, Reallocated;
    assert Inv(s.h) by {
      AgreesInv(s);
    }
    ReallocKeepsContents(s.h, s.mem, s.allocs, ptr, size);
    ReallocLargeEnoughIff(s.h, s.mem, s.allocs, ptr, size);
    match Realloc(s.h, s.mem, s.allocs, ptr, size)
    case Err(_) =>
    case Ok((h, mem, ptr')) =>
      ResizeReady(s, ptr, size, k, h, mem, ptr');
      TrackOk(State(h, mem, Without(s.allocs, k), s.fill), ptr', size);
      GivenKept(s, ptr, size, h, mem, ptr');
  }

  lemma AgreesInv(s: State)
    requires Agrees(s)
    ensures Inv(s.h)
  {
  }

  lemma GivenKept(s: State, ptr: nat, size: nat, h: Heap, mem: Memory, ptr': nat)
    requires Owned(s.h, ptr) && Reallocated(s.h, s.mem, ptr, size, h, mem, ptr')
    ensures h.os.given == s.h.os.given
  {
  }

  /** A checked realloc keeps the books in agreement with the heap exactly when the request is
      not in the gap of line 369; ReallocOutcome says when it fails instead. */
  lemma CheckedReallocIff(s: State, ptr: nat, size: nat)
    requires Agrees(s) && Legal(s, ptr) && ptr != 0 && size > 0
    ensures ReallocOutcome(s, ptr, size, CheckedRealloc(s, ptr, size))
  {
    hide Inv, Sorted, Find, ReallocOutcome, Resize;
    FindStart(s.allocs, ptr);
    var k := Find(s.allocs, ptr);
    assert s.allocs[k] in s.allocs;
    if s.h.live[ptr - 8] < size {
      ResizeMoved(s, ptr, size, k);
    } else {
      ResizeInPlace(s, ptr, size, k);
    }
  }

  /** In agreement every tracked byte is accessible, so the wrappers' own loops over tracked
      bytes never touch a protected page. */
  lemma TrackedAccessible(s: State, r: Span)
    requires Agrees(s) && r in s.allocs
    ensures Accessible(s.h.os, r.start, r.end - r.start)
  {
    hide Inv, Sorted, AllKept;
    assert Tracked(s.h.live, r);
    PayloadAccessible(s.h, r.start, r.end - r.start);
  }

  // ---------------------------------------------------------------- runs

  datatype Op =
    | DoAlloc(nmemb: nat, size: nat, which: Allocator)
    | DoFree(ptr: nat)
    | DoRealloc(ptr: nat, size: nat)

  ghost predicate LegalOp(s: State, op: Op) {
    match op
    case DoAlloc(_, _, _) => true
    case DoFree(ptr) => Legal(s, ptr)
    case DoRealloc(ptr, _) => Legal(s, ptr)
  }

  /** The caller does not resize a buffer into the last eight bytes counted by line 369, or
      where the copy over-reads, or when its fill byte is 128 or more. */
  ghost predicate Survives(s: State, op: Op)
    requires LegalOp(s, op)
  {
    op.DoRealloc? && op.ptr != 0 && op.size > 0 ==>
      !InGap(s.h, op.ptr, op.size) && !OverReads(s.h, op.ptr, op.size) && FilledLow(s, op.ptr)
  }

  ghost function Perform(s: State, op: Op): Result<State>
    requires LegalOp(s, op)
  {
    match op
    case DoAlloc(nmemb, size, which) =>
      var (s', _) :- CheckedAlloc(s, nmemb, size, which);
      Ok(s')
    case DoFree(ptr) => CheckedFree(s, ptr)
    case DoRealloc(ptr, size) =>
      var (s', _) :- CheckedRealloc(s, ptr, size);
      Ok(s')
  }

  /** Every call of the run passes back what it was handed. */
  ghost predicate LegalRun(s: State, ops: seq<Op>)
    decreases |ops|
  {
    ops == [] ||
    (LegalOp(s, ops[0]) &&
     match Perform(s, ops[0])
     case Ok(s') => LegalRun(s', ops[1..])
     case Err(_) => true)
  }

  /** And every resize is one that survives. */
  ghost predicate GoodRun(s: State, ops: seq<Op>)
    requires LegalRun(s, ops)
    decreases |ops|
  {
    ops == [] ||
    (Survives(s, ops[0]) &&
     match Perform(s, ops[0])
     case Ok(s') => GoodRun(s', ops[1..])
     case Err(_) => true)
  }

  ghost function RunChecked(s: State, ops: seq<Op>): Result<State>
    requires LegalRun(s, ops)
    decreases |ops|
  {
    if ops == [] then Ok(s)
    else
      match Perform(s, ops[0])
      case Ok(s') => RunChecked(s', ops[1..])
      case Err(f) => Err(f)
  }

  /** One surviving call keeps the books in agreement, and no range it gives back meets a
      region that is still tracked. */
  lemma PerformOk(s: State, op: Op)
    requires Agrees(s) && LegalOp(s, op) && Survives(s, op)
    ensures match Perform(s, op)
            case Ok(s') => Agrees(s') && GaveBackSafely(s.h.os, s'.h.os, s'.allocs)
            case Err(f) => f == BeyondLimit
  {
    hide Agrees, CheckedAlloc, CheckedFree, InGap, OverReads, FilledLow;
    match op
    case DoAlloc(nmemb, size, which) => CheckedAllocOk(s, nmemb, size, which);
    case DoFree(ptr) => CheckedFreeOk(s, ptr);
    case DoRealloc(ptr, size) => CheckedReallocOk(s, ptr, size);
  }

  lemma CheckedReallocOk(s: State, ptr: nat, size: nat)
    requires Agrees(s) && Legal(s, ptr)
    requires ptr != 0 && size > 0 ==> !InGap(s.h, ptr, size) && !OverReads(s.h, ptr, size) && FilledLow(s, ptr)
    ensures match CheckedRealloc(s, ptr, size)
            case Ok((s', _)) => Agrees(s') && GaveBackSafely(s.h.os, s'.h.os, s'.allocs)
            case Err(f) => f == BeyondLimit
  {
    hide Agrees, CheckedAlloc, CheckedFree, InGap, OverReads, FilledLow;
    if ptr == 0 {
      CheckedAllocOk(s, 1, size, UseRealloc);
    } else if size == 0 {
      CheckedFreeOk(s, ptr);
    } else {
      hide CheckedRealloc;
      CheckedReallocIff(s, ptr, size);
    }
  }

  lemma {:induction false} RunOk(s: State, ops: seq<Op>)
    requires Agrees(s) && LegalRun(s, ops) && GoodRun(s, ops)
    ensures match RunChecked(s, ops)
            case Ok(s') => Agrees(s')
            case Err(f) => f == BeyondLimit
    decreases |ops|
  {
    hide Agrees, Perform, LegalOp, Survives;
    if ops != [] {
      PerformOk(s, ops[0]);
      match Perform(s, ops[0])
      case Ok(s') => RunOk(s', ops[1..]);
      case Err(_) =>
    }
  }

  function FreshState(heap: nat, limit: nat, mem: Memory): State {
    State(InitHeap(heap, limit), mem, [], 0)
  }

  /** From a fresh heap, in every run of checked allocations, frees and surviving reallocs, of
      any length, no assertion of the wrappers or of do_brk fires except the heap limit and no
      inaccessible page is touched; at the end the tracked regions are disjoint, each inside
      the payload of its own live block, and every tracked byte still holds its fill value. */
  lemma NoAssertionFires(heap: nat, limit: nat, mem: Memory, ops: seq<Op>)
    requires heap > 0 && heap % 4096 == 0
    requires LegalRun(FreshState(heap, limit, mem), ops) && GoodRun(FreshState(heap, limit, mem), ops)
    ensures match RunChecked(FreshState(heap, limit, mem), ops)
            case Err(f) => f == BeyondLimit
            case Ok(s) =>
              && Inv(s.h) && Sorted(s.allocs)
              && (forall r <- s.allocs :: Tracked(s.h.live, r) && DataKept(s.mem, r))
  {
    InitInv(heap, limit);
    hide Inv, LegalRun, GoodRun, RunChecked;
    RunOk(FreshState(heap, limit, mem), ops);
  }
}
