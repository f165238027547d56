/** kucalloc and kurealloc and the bytes they move (alloc.c:146-157, 356-379). */
module Payloads {
  import opened Base
  import opened Blocks
  import opened Spans
  import opened Break
  import opened HeapSpec

  /** Payload bytes by address. */
  type Memory = nat -> nat

  function Memset(mem: Memory, at: nat, n: nat, v: nat): Memory {
    (x: nat) => if at <= x < at + n then v else mem(x)
  }

  function Memcpy(mem: Memory, dst: nat, src: nat, n: nat): Memory {
    (x: nat) => if dst <= x < dst + n then mem(src + (x - dst)) else mem(x)
  }

  /** Line 155, after the allocator answered. */
  function ClearBlock(r: Result<(Heap, nat)>, mem: Memory, total: nat): Result<(Heap, Memory, nat)> {
    var (h', block) :- r;
    if !Accessible(h'.os, block, total) then Err(PageFault)
    else Ok((h', Memset(mem, block, total, 0), block))
  }

  /** Line 377, after the allocator answered. */
  function CopyBlock(r: Result<(Heap, nat)>, mem: Memory, ptr: nat, held: nat): Result<(Heap, Memory, nat)> {
    var (h', block) :- r;
    if !Accessible(h'.os, ptr, held) || !Accessible(h'.os, block, held) then Err(PageFault)
    else Ok((h', Memcpy(mem, block, ptr, held), block))
  }

  function Calloc(h: Heap, mem: Memory, allocs: seq<Span>, nmemb: nat, size: nat): Result<(Heap, Memory, nat)> {
    if size == 0 || nmemb == 0 then Ok((h, mem, 0))
    else
      var total := SizeAlign(nmemb * size);
      ClearBlock(Malloc(h, allocs, total), mem, total)
  }

  /** As the source has it: line 369 compares the request with the block size including the
      header, the copy of line 377 takes that size too and so reads eight bytes behind the old
      block, and the old block is not freed when it moves. */
  function Realloc(h: Heap, mem: Memory, allocs: seq<Span>, ptr: nat, size: nat): Result<(Heap, Memory, nat)>
    requires ptr != 0 ==> Owned(h, ptr)
  {
    if size == 0 && ptr != 0 then
      var h' :- Free(h, allocs, ptr);
      Ok((h', mem, 0))
    else if ptr == 0 then
      var (h', block) :- Malloc(h, allocs, size);
      Ok((h', mem, block))
    else
      var held := h.live[ptr - 8];
      if held >= size then Ok((h, mem, ptr))
      else
        CopyBlock(Malloc(h, allocs, SizeAlign(size + 8)), mem, ptr, held)
  }

  /** Number of payload bytes behind an owned pointer. */
  function Payload(h: Heap, ptr: nat): int
    requires Owned(h, ptr)
  {
    (h.live[ptr - 8] as int) - 8
  }

  /** The request that line 369 answers with a block that is too small. */
  predicate InGap(h: Heap, ptr: nat, size: nat)
    requires Owned(h, ptr)
  {
    Payload(h, ptr) < size <= h.live[ptr - 8]
  }

  /** The block ends where the accessible pages end. */
  predicate AtEdge(h: Heap, ptr: nat)
    requires Owned(h, ptr)
  {
    ptr - 8 + h.live[ptr - 8] == h.end && h.slack == 0 && h.end % 4096 == 0
  }

  /** The copy of line 377 reads an inaccessible page: the block must move, it ends at the
      edge, and a free block is large enough, so that the break does not rise. */
  predicate OverReads(h: Heap, ptr: nat, size: nat)
    requires Owned(h, ptr)
  {
    && h.live[ptr - 8] < size && AtEdge(h, ptr)
    && FirstFit(h.free, SizeAlign(SizeAlign(size + 8) + 8), 0) < |h.free|
  }

  /** Distinct live blocks have disjoint, 8-aligned payloads inside [heap, block_end). */
  lemma LiveApart(h: Heap, a: nat, b: nat)
    requires Inv(h) && a in h.live && b in h.live
    ensures a != b ==> a + h.live[a] <= b || b + h.live[b] <= a
    ensures h.os.heap <= a && a + h.live[a] <= h.end && a % 8 == 0 && h.live[a] % 8 == 0
    ensures 8 <= h.live[a]
  {
    var p, q := Block(a, h.live[a]), Block(b, h.live[b]);
    assert p in SetOf(h.free) + LiveSet(h.live) && q in SetOf(h.free) + LiveSet(h.live);
    assert h.os.heap % 4096 == 0 && (a - h.os.heap) % 8 == 0;
    hide Tiled, Coalesced, Accounted;
    StaysAligned(h.os.heap, a);
  }

  lemma BelowBreak(h: Heap)
    requires Inv(h)
    ensures h.end <= h.os.cur && Frontier(h.os) && h.os.heap > 0
    ensures h.end != 0 ==> h.os.cur == h.end + h.slack && h.Top() == h.end
  {
  }

  /** The payload of a live block is accessible to its last byte. */
  lemma PayloadAccessible(h: Heap, ptr: nat, n: nat)
    requires Inv(h) && Owned(h, ptr) && n <= Payload(h, ptr)
    ensures Accessible(h.os, ptr, n)
  {
    LiveApart(h, ptr - 8, ptr - 8);
    BelowBreak(h);
    hide Inv, Frontier, Readable, Accessible;
    AccessibleIff(h.os, ptr, n);
  }

  lemma EightApart(a: nat, size: nat, end: nat)
    requires a % 8 == 0 && size % 8 == 0 && end % 8 == 0 && a + size < end
    ensures a + size + 8 <= end
  {
  }

  /** The eight bytes behind a block are accessible unless it ends at the edge. */
  lemma BehindBlock(h: Heap, ptr: nat, n: nat)
    requires Inv(h) && Owned(h, ptr) && Payload(h, ptr) < n <= h.live[ptr - 8]
    ensures Accessible(h.os, ptr, n) <==> !AtEdge(h, ptr)
  {
    hide Inv, Frontier, Readable, Accessible, AlignUp;
    LiveApart(h, ptr - 8, ptr - 8);
    BelowBreak(h);
    TopAligned(h);
    AccessibleIff(h.os, ptr, n);
    PastTheEdge(h.end, h.slack);
    if ptr - 8 + h.live[ptr - 8] < h.end {
      EightApart(ptr - 8, h.live[ptr - 8], h.end);
    }
  }

  lemma FitKeepsBreak(h: Heap, allocs: seq<Span>, size: nat)
    requires Inv(h) && size > 0
    ensures match Malloc(h, allocs, size)
            case Ok((h', block)) =>
              if FirstFit(h.free, SizeAlign(size + 8), 0) < |h.free|
              then h'.os == h.os && h'.end == h.end && h'.slack == h.slack
              else h.Top() + 8 <= h'.end
            case Err(_) => true
  {
    hide Tiled, Coalesced, Capacity, Grow, DoBrk;
    GrowAccounted(h, allocs, SizeAlign(size + 8));
  }

  /** Every byte the copy reads is accessible exactly when the old block does not end at the
      edge or the break rises; in terms of addresses, exactly when the source range ends at or
      below the rounded-up break. */
  lemma CopySourceIff(h: Heap, allocs: seq<Span>, ptr: nat, size: nat)
    requires Inv(h) && Owned(h, ptr) && h.live[ptr - 8] < size
    ensures match Malloc(h, allocs, SizeAlign(size + 8))
            case Ok((h', block)) =>
              && (Accessible(h'.os, ptr, h.live[ptr - 8]) <==> !OverReads(h, ptr, size))
              && (Accessible(h'.os, ptr, h.live[ptr - 8]) <==> ptr + h.live[ptr - 8] <= AlignUp(h'.os.cur))
            case Err(_) => true
  {
    var held := h.live[ptr - 8];
    LiveApart(h, ptr - 8, ptr - 8);
    MallocCorrect(h, allocs, SizeAlign(size + 8));
    FitKeepsBreak(h, allocs, SizeAlign(size + 8));
    hide Inv, Malloc, SizeAlign, Capacity, Readable, Accessible, AlignUp;
    BehindBlock(h, ptr, held);
    match Malloc(h, allocs, SizeAlign(size + 8))
    case Err(_) =>
    case Ok((h', block)) =>
      BelowBreak(h');
      AccessibleIff(h'.os, ptr, held);
  }

  /** No byte of a live block other than `ptr`'s changes between `mem` and `mem'`. */
  ghost predicate OthersKept(h: Heap, mem: Memory, mem': Memory, ptr: nat) {
    forall a, x: nat {:trigger h.live[a], mem'(x)} {:trigger a in h.live, mem'(x)} |
      a in h.live && a + 8 != ptr && a <= x < a + h.live[a] :: mem'(x) == mem(x)
  }

  lemma NewBlockKeepsOthers(h: Heap, h': Heap, mem: Memory, mem': Memory, block: nat)
    requires Inv(h') && block in h'.live && block !in h.live
    requires h'.live == h.live[block := h'.live[block]]
    requires forall x: nat {:trigger mem'(x)} :: !(block <= x < block + h'.live[block]) ==> mem'(x) == mem(x)
    ensures OthersKept(h, mem, mem', block + 8)
  {
    hide Inv;
    forall a, x: nat | a in h.live && a <= x < a + h.live[a] ensures mem'(x) == mem(x) {
      LiveApart(h', a, block);
    }
  }

  /** The calloc payload is all zero up to its last byte, and no other live block changes. */
  lemma CallocCorrect(h: Heap, mem: Memory, allocs: seq<Span>, nmemb: nat, size: nat)
    requires Inv(h)
    ensures match Calloc(h, mem, allocs, nmemb, size)
            case Ok((h', mem', ptr)) =>
              && Inv(h') && (ptr == 0 <==> nmemb * size == 0)
              && h'.os.heap == h.os.heap && h'.os.limit == h.os.limit && h'.os.given == h.os.given
              && (ptr == 0 ==> h' == h && mem' == mem)
              && (ptr != 0 ==>
                    && ptr % 8 == 0 && Owned(h', ptr) && ptr - 8 !in h.live
                    && h'.live == h.live[ptr - 8 := h'.live[ptr - 8]]
                    && nmemb * size <= Payload(h', ptr)
                    && (forall x: nat | ptr <= x < ptr + Payload(h', ptr) :: mem'(x) == 0)
                    && OthersKept(h, mem, mem', ptr))
            case Err(f) => f == BeyondLimit
  {
    hide Inv, Malloc, SizeAlign, Capacity, Accessible;
    if size != 0 && nmemb != 0 {
      assert nmemb * size > 0;
      var total := SizeAlign(nmemb * size);
      MallocCorrect(h, allocs, total);
      assert SizeAlign(total + 8) == total + 8;
      match Malloc(h, allocs, total)
      case Err(_) =>
      case Ok((h', ptr)) =>
        PayloadAccessible(h', ptr, total);
        NewBlockKeepsOthers(h, h', mem, Memset(mem, ptr, total, 0), ptr - 8);
    } else {
      assert nmemb * size == 0;
    }
  }

  function Min(a: int, b: int): int {
    if a < b then a else b
  }

  /** The `n` bytes at `dst` in `mem'` are the ones at `src` in `mem`. */
  ghost predicate Copied(mem: Memory, src: nat, mem': Memory, dst: nat, n: int) {
    forall x: nat {:trigger mem'(x)} | dst <= x < dst + n :: mem'(x) == mem(x - dst + src)
  }

  /** What kurealloc promises of the block it answers with. */
  ghost predicate Reallocated(h: Heap, mem: Memory, ptr: nat, size: nat, h': Heap, mem': Memory, ptr': nat)
    requires Owned(h, ptr)
  {
    && Inv(h') && Owned(h', ptr') && ptr' % 8 == 0
    && h'.os.heap == h.os.heap && h'.os.limit == h.os.limit && h'.os.given == h.os.given
    && (ptr' == ptr ==> h' == h && mem' == mem)
    && (ptr' != ptr ==> ptr' - 8 !in h.live && h'.live == h.live[ptr' - 8 := h'.live[ptr' - 8]])
    && Copied(mem, ptr, mem', ptr', Min(Payload(h, ptr), size))
    && OthersKept(h, mem, mem', ptr')
  }

  /** Kept or moved, the block holds the first min(old payload, new size) bytes of the old
      one, and no other live block changes. The heap invariant holds for every request. The
      call fails for a growing request only: on an inaccessible page exactly when the copy
      over-reads, else at the heap limit. */
  lemma ReallocKeepsContents(h: Heap, mem: Memory, allocs: seq<Span>, ptr: nat, size: nat)
    requires Inv(h) && size > 0 && Owned(h, ptr)
    ensures match Realloc(h, mem, allocs, ptr, size)
            case Ok((h', mem', ptr')) => Reallocated(h, mem, ptr, size, h', mem', ptr') && !OverReads(h, ptr, size)
            case Err(f) => h.live[ptr - 8] < size && f == (if OverReads(h, ptr, size) then PageFault else BeyondLimit)
  {
    hide Inv, Malloc, SizeAlign, Capacity, OthersKept, Copied, Memcpy, Accessible;
    KeptContents(h, mem, ptr, size);
    var held := h.live[ptr - 8];
    if held < size {
      var total := SizeAlign(size + 8);
      MallocCorrect(h, allocs, total);
      CopySourceIff(h, allocs, ptr, size);
      if OverReads(h, ptr, size) {
        FitNeverFails(h, allocs, total);
      }
      match Malloc(h, allocs, total)
      case Err(_) =>
      case Ok((h', ptr')) =>
        PayloadAccessible(h', ptr', held);
        MovedContents(h, h', mem, ptr, ptr', Min(Payload(h, ptr), size));
    }
  }

  lemma KeptInPlace(h: Heap, mem: Memory, allocs: seq<Span>, ptr: nat, size: nat)
    requires Owned(h, ptr) && 0 < size <= h.live[ptr - 8]
    ensures Realloc(h, mem, allocs, ptr, size) == Ok((h, mem, ptr))
  {
  }

  lemma FitNeverFails(h: Heap, allocs: seq<Span>, size: nat)
    requires size > 0 && FirstFit(h.free, SizeAlign(size + 8), 0) < |h.free|
    ensures Malloc(h, allocs, size).Ok?
  {
  }

  lemma KeptContents(h: Heap, mem: Memory, ptr: nat, size: nat)
    requires Inv(h) && Owned(h, ptr)
    ensures ptr % 8 == 0 && Copied(mem, ptr, mem, ptr, Min(Payload(h, ptr), size)) && OthersKept(h, mem, mem, ptr)
  {
    hide Inv;
    LiveApart(h, ptr - 8, ptr - 8);
  }

  lemma CopyCopies(mem: Memory, dst: nat, src: nat, held: nat, n: int)
    requires n <= held
    ensures Copied(mem, src, Memcpy(mem, dst, src, held), dst, n)
  {
  }

  lemma CopyKeepsRest(mem: Memory, dst: nat, src: nat, held: nat, size: nat)
    requires held <= size
    ensures var mem' := Memcpy(mem, dst, src, held);
            forall x: nat {:trigger mem'(x)} :: !(dst <= x < dst + size) ==> mem'(x) == mem(x)
  {
  }

  lemma MovedContents(h: Heap, h': Heap, mem: Memory, ptr: nat, ptr': nat, n: int)
    requires Inv(h') && Owned(h, ptr) && Owned(h', ptr') && ptr' - 8 !in h.live && n <= Payload(h, ptr)
    requires h'.live == h.live[ptr' - 8 := h'.live[ptr' - 8]] && h.live[ptr - 8] + 8 <= h'.live[ptr' - 8]
    ensures var mem' := Memcpy(mem, ptr', ptr, h.live[ptr - 8]);
            OthersKept(h, mem, mem', ptr') && Copied(mem, ptr, mem', ptr', n)
  {
    hide Inv, Memcpy, OthersKept, Copied;
    var held := h.live[ptr - 8];
    var mem' := Memcpy(mem, ptr', ptr, held);
    CopyCopies(mem, ptr', ptr, held, n);
    CopyKeepsRest(mem, ptr', ptr, held, h'.live[ptr' - 8] - 8);
    NewBlockKeepsOthers(h, h', mem, mem', ptr' - 8);
  }

  /** `mem'` is `mem` with the `n` bytes at `src` copied to `dst`. */
  ghost predicate CopyOf(mem: Memory, mem': Memory, dst: nat, src: nat, n: nat) {
    forall x: nat {:trigger mem'(x)} :: mem'(x) == if dst <= x < dst + n then mem(src + (x - dst)) else mem(x)
  }

  /** The answer is a new block for `payload` bytes. */
  ghost predicate NewBlock(h: Heap, h': Heap, ptr: nat, payload: nat) {
    ptr >= 8 && ptr - 8 !in h.live && h'.live == h.live[ptr - 8 := payload + 8]
  }

  /** A request up to the block size is answered in place; any other with a new block for the
      request and its header, rounded, to which as many bytes are copied as the old block has,
      header included; no other byte changes. */
  lemma ReallocExact(h: Heap, mem: Memory, allocs: seq<Span>, ptr: nat, size: nat)
    requires Inv(h) && size > 0 && Owned(h, ptr)
    ensures size <= h.live[ptr - 8] ==> Realloc(h, mem, allocs, ptr, size) == Ok((h, mem, ptr))
    ensures size > h.live[ptr - 8] ==>
              match Realloc(h, mem, allocs, ptr, size)
              case Ok((h', mem', ptr')) =>
                NewBlock(h, h', ptr', SizeAlign(size + 8)) && CopyOf(mem, mem', ptr', ptr, h.live[ptr - 8])
              case Err(_) => true
  {
    hide Inv, Malloc, SizeAlign, NewBlock;
    if size > h.live[ptr - 8] {
      AlignedStays(size + 8);
      TakesNewBlock(h, allocs, SizeAlign(size + 8));
      CopyIs(Malloc(h, allocs, SizeAlign(size + 8)), mem, ptr, h.live[ptr - 8]);
      hide CopyBlock, CopyOf;
    }
  }

  lemma TakesNewBlock(h: Heap, allocs: seq<Span>, size: nat)
    requires Inv(h) && size > 0
    ensures match Malloc(h, allocs, size)
            case Ok((h', ptr)) => SizeAlign(size + 8) >= 8 && NewBlock(h, h', ptr, SizeAlign(size + 8) - 8)
            case Err(_) => true
  {
    hide Inv, Malloc, Capacity;
    MallocCorrect(h, allocs, size);
  }

  lemma CopyIs(r: Result<(Heap, nat)>, mem: Memory, ptr: nat, held: nat)
    ensures match CopyBlock(r, mem, ptr, held)
            case Ok((h', mem', ptr')) => r == Ok((h', ptr')) && CopyOf(mem, mem', ptr', ptr, held)
            case Err(_) => true
  {
    hide Accessible;
    var copied := CopyBlock(r, mem, ptr, held);
    match r
    case Err(_) =>
    case Ok((h, block)) => assert copied.Ok? ==> copied.value.0 == h && copied.value.2 == block;
  }

  lemma AlignedStays(n: nat)
    ensures SizeAlign(SizeAlign(n) + 8) == SizeAlign(n) + 8
  {
  }

  /** kurealloc of NULL allocates, and kurealloc to zero bytes frees and answers NULL; neither
      moves a byte. */
  lemma ReallocEdges(h: Heap, mem: Memory, allocs: seq<Span>, ptr: nat, size: nat)
    requires Inv(h) && (ptr != 0 ==> Owned(h, ptr))
    ensures ptr == 0 ==>
              match Realloc(h, mem, allocs, ptr, size)
              case Ok((h', mem', ptr')) =>
                && Inv(h') && mem' == mem && (ptr' == 0 <==> size == 0) && (ptr' == 0 ==> h' == h)
                && (ptr' != 0 ==>
                      ptr' >= 8 && ptr' - 8 !in h.live && h'.live == h.live[ptr' - 8 := SizeAlign(size + 8)])
              case Err(f) => f == BeyondLimit
    ensures ptr != 0 && size == 0 ==>
              match Realloc(h, mem, allocs, ptr, size)
              case Ok((h', mem', ptr')) => Inv(h') && mem' == mem && ptr' == 0 && h'.live == h.live - {ptr - 8}
              case Err(f) => f == StillAllocated
  {
    hide Inv, Malloc, Free, SizeAlign, Capacity, InsideLive, GaveBackSafely;
    MallocCorrect(h, allocs, size);
    FreeCorrect(h, allocs, ptr);
  }

  /** `mem'` is `mem` with the `n` bytes at `at` cleared. */
  ghost predicate ClearOf(mem: Memory, mem': Memory, at: nat, n: nat) {
    forall x: nat {:trigger mem'(x)} :: mem'(x) == if at <= x < at + n then 0 else mem(x)
  }

  /** The calloc block is for the rounded product, and no byte outside it changes. */
  lemma CallocExact(h: Heap, mem: Memory, allocs: seq<Span>, nmemb: nat, size: nat)
    requires Inv(h) && nmemb > 0 && size > 0
    ensures var total := SizeAlign(nmemb * size);
            match Calloc(h, mem, allocs, nmemb, size)
            case Ok((h', mem', ptr)) => NewBlock(h, h', ptr, total) && ClearOf(mem, mem', ptr, total)
            case Err(_) => true
  {
    hide Inv, Malloc, SizeAlign, NewBlock;
    var total := SizeAlign(nmemb * size);
    Positive(nmemb, size);
    AlignedStays(nmemb * size);
    TakesNewBlock(h, allocs, total);
    ClearIs(Malloc(h, allocs, total), mem, total);
    hide ClearBlock, ClearOf;
  }

  lemma Positive(a: nat, b: nat)
    requires a > 0 && b > 0
    ensures a * b > 0
  {
  }

  lemma ClearIs(r: Result<(Heap, nat)>, mem: Memory, total: nat)
    ensures match ClearBlock(r, mem, total)
            case Ok((h', mem', ptr)) => r == Ok((h', ptr)) && ClearOf(mem, mem', ptr, total)
            case Err(_) => true
  {
    hide Accessible;
    var cleared := ClearBlock(r, mem, total);
    match r
    case Err(_) =>
    case Ok((h, block)) => assert cleared.Ok? ==> cleared.value.0 == h && cleared.value.2 == block;
  }

  predicate LargeEnough(h: Heap, ptr: nat, size: nat) {
    Owned(h, ptr) && size <= Payload(h, ptr)
  }

  /** The block holds the request, or fails to by at most its own header. */
  predicate AlmostLargeEnough(h: Heap, ptr: nat, size: nat) {
    Owned(h, ptr) && size <= h.live[ptr - 8]
  }

  /** The result is large enough exactly when the request is not in the gap; in the gap it
      falls short by at most the eight bytes of the header. */
  lemma ReallocLargeEnoughIff(h: Heap, mem: Memory, allocs: seq<Span>, ptr: nat, size: nat)
    requires Inv(h) && size > 0 && Owned(h, ptr)
    ensures match Realloc(h, mem, allocs, ptr, size)
            case Ok((h', _, ptr')) =>
              AlmostLargeEnough(h', ptr', size) && (LargeEnough(h', ptr', size) <==> !InGap(h, ptr, size))
            case Err(_) => !InGap(h, ptr, size)
  {
    hide Inv, Malloc, SizeAlign, Capacity, Memcpy, Accessible;
    if h.live[ptr - 8] < size {
      MallocCorrect(h, allocs, SizeAlign(size + 8));
    }
  }
}
