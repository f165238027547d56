/** The allocator of alloc.c as a state transformer on values: what one call of kumalloc,
    kufree, kucalloc or kurealloc does to the free list, the headers and the break.
    The class in Allocator.dfy computes these functions in place. */
module HeapSpec {
  import opened Base
  import opened Blocks
  import opened Spans
  import opened Break

  /** `free` is the free list in list order, `live` maps the address of an allocated block
      to the size in its header, `end` is block_end (0 before the first growth) and `slack`
      is available_memory. */
  datatype Heap = Heap(free: seq<Block>, live: map<nat, nat>, end: nat, slack: nat, os: Os) {
    function Top(): nat {
      if end == 0 then os.heap else end
    }
  }

  function InitHeap(heap: nat, limit: nat): Heap {
    Heap([], map[], 0, 0, InitOs(heap, limit))
  }

  /** Rounds up to a multiple of sizeof(long). */
  function SizeAlign(n: nat): (r: nat)
    ensures r % 8 == 0 && n <= r < n + 8
  {
    ((n + 8 - 1) / 8) * 8
  }

  /** The amount by which one growth moves the break. */
  function Capacity(total: nat): (c: nat)
    ensures c % 8192 == 0 && total <= c <= total + 8192
    ensures total <= 8192 ==> c == 8192
  {
    if total > 8192 then ((total / 8192) + 1) * 8192 else 8192
  }

  // ---------------------------------------------------------------- kumalloc

  /** Position of the first block of the list, from `i` on, that is large enough. */
  function FirstFit(free: seq<Block>, total: nat, i: nat): (k: nat)
    requires i <= |free|
    ensures i <= k <= |free|
    ensures forall j | i <= j < k :: free[j].size < total
    ensures k < |free| ==> free[k].size >= total
    decreases |free| - i
  {
    if i == |free| || free[i].size >= total then i else FirstFit(free, total, i + 1)
  }

  /** Takes a block from above block_end, growing the heap when the slack is too small. */
  function Grow(h: Heap, allocs: seq<Span>, total: nat): Result<(Heap, nat)> {
    var capacity := Capacity(total);
    if h.slack == 0 then
      var os :- DoBrk(h.os, allocs, h.os.cur + capacity);
      var block := h.os.cur;
      var end := if h.end != 0 then h.end + total else block + total;
      Ok((h.(live := h.live[block := total], end := end, slack := capacity - total, os := os), block))
    else if total <= h.slack then
      Ok((h.(live := h.live[h.end := total], end := h.end + total, slack := h.slack - total), h.end))
    else
      var os :- DoBrk(h.os, allocs, h.os.cur + capacity);
      Ok((h.(live := h.live[h.end := total], end := h.end + total,
             slack := h.slack + capacity - total, os := os), h.end))
  }

  /** Takes free block `k`, leaving the remainder of a split in its list position. */
  function Reuse(h: Heap, k: nat, total: nat): Heap
    requires k < |h.free| && h.free[k].size >= total
  {
    var b := h.free[k];
    h.(live := h.live[b.addr := total],
       free := if b.size > total then h.free[k := Block(b.addr + total, b.size - total)]
               else Without(h.free, k))
  }

  function Malloc(h: Heap, allocs: seq<Span>, size: nat): Result<(Heap, nat)> {
    if size == 0 then Ok((h, 0))
    else
      var total := SizeAlign(size + 8);
      var k := FirstFit(h.free, total, 0);
      if k < |h.free| then Ok((Reuse(h, k, total), h.free[k].addr + 8))
      else
        var (h', block) :- Grow(h, allocs, total);
        Ok((h', block + 8))
  }

  // ---------------------------------------------------------------- kufree

  /** One forward pass over the list from position `i`: every block found to end at
      block_end is unlinked and given back. */
  function TrimFrom(h: Heap, allocs: seq<Span>, i: nat): Result<Heap>
    requires i <= |h.free|
    decreases |h.free| - i
  {
    if i == |h.free| then Ok(h)
    else
      var b := h.free[i];
      if b.End() == h.end then
        var os :- DoBrk(h.os, allocs, h.os.cur - b.size);
        TrimFrom(h.(free := Without(h.free, i), end := b.addr, os := os), allocs, i)
      else TrimFrom(h, allocs, i + 1)
  }

  /** Position of the first listed block, from `i` on, that ends where `b` starts. */
  function LeftOf(free: seq<Block>, b: Block, i: nat): (k: nat)
    requires i <= |free|
    ensures i <= k <= |free|
    ensures forall j | i <= j < k :: free[j].End() != b.addr
    ensures k < |free| ==> free[k].End() == b.addr
    decreases |free| - i
  {
    if i == |free| || free[i].End() == b.addr then i else LeftOf(free, b, i + 1)
  }

  /** Position of the first listed block, from `i` on, that starts where `b` ends. */
  function RightOf(free: seq<Block>, b: Block, i: nat): (k: nat)
    requires i <= |free|
    ensures i <= k <= |free|
    ensures forall j | i <= j < k :: free[j].addr != b.End()
    ensures k < |free| ==> free[k].addr == b.End()
    decreases |free| - i
  {
    if i == |free| || free[i].addr == b.End() then i else RightOf(free, b, i + 1)
  }

  /** Merges `b` with its free neighbours, or pushes it in front when it has none. */
  function Merge(free: seq<Block>, b: Block): seq<Block> {
    var l, r := LeftOf(free, b, 0), RightOf(free, b, 0);
    if l < |free| && r < |free| then
      Without(free[l := Block(free[l].addr, free[l].size + b.size + free[r].size)], r)
    else if l < |free| then
      free[l := Block(free[l].addr, free[l].size + b.size)]
    else if r < |free| then
      free[r := Block(b.addr, b.size + free[r].size)]
    else
      [b] + free
  }

  /** `ptr` was returned by an earlier allocation and not freed since. */
  predicate Owned(h: Heap, ptr: nat) {
    ptr >= 8 && ptr - 8 in h.live
  }

  /** Frees block `b`, which is no longer among the live ones. */
  function FreeBlock(h: Heap, allocs: seq<Span>, b: Block): Result<Heap> {
    if b.End() == h.end then
      var os :- DoBrk(h.os, allocs, h.os.cur - b.size);
      TrimFrom(h.(end := b.addr, os := os), allocs, 0)
    else
      var h' :- TrimFrom(h, allocs, 0);
      Ok(h'.(free := Merge(h'.free, b)))
  }

  function Free(h: Heap, allocs: seq<Span>, ptr: nat): Result<Heap>
    requires ptr != 0 ==> Owned(h, ptr)
  {
    if ptr == 0 then Ok(h)
    else FreeBlock(h.(live := h.live - {ptr - 8}), allocs, Block(ptr - 8, h.live[ptr - 8]))
  }

  // ---------------------------------------------------------------- the invariant

  function LiveSet(live: map<nat, nat>): set<Block> {
    set a | a in live :: Block(a, live[a])
  }

  /** No free block touches another free block or block_end. */
  ghost predicate Coalesced(fs: set<Block>, end: nat) {
    && (forall f <- fs, g <- fs :: f.End() != g.addr)
    && (forall f <- fs :: f.End() != end)
  }

  ghost predicate Tiled(h: Heap) {
    && NoDup(h.free)
    && SetOf(h.free) !! LiveSet(h.live)
    && Tiles(SetOf(h.free) + LiveSet(h.live), h.os.heap, h.Top())
  }

  ghost predicate Accounted(h: Heap) {
    && Frontier(h.os) && h.os.heap > 0
    && h.os.cur == h.Top() + h.slack
    && (h.end == 0 ==> h.slack == 0)
  }

  /** Live and free blocks tile [heap, block_end) exactly, the free blocks are fully
      coalesced, and the break stands `slack` bytes above block_end. */
  ghost predicate Inv(h: Heap) {
    Accounted(h) && Tiled(h) && Coalesced(SetOf(h.free), h.end)
  }

  lemma InitInv(heap: nat, limit: nat)
    requires heap > 0 && heap % 4096 == 0
    ensures Inv(InitHeap(heap, limit))
  {
    InitFrontier(heap, limit);
  }

  lemma LiveAdd(live: map<nat, nat>, a: nat, n: nat)
    requires a !in live
    ensures LiveSet(live[a := n]) == LiveSet(live) + {Block(a, n)}
  {
    var m := live[a := n];
    forall b | b in LiveSet(live) + {Block(a, n)} ensures b in LiveSet(m) {
      assert b.addr in m && m[b.addr] == b.size;
    }
  }

  lemma LiveRemove(live: map<nat, nat>, a: nat)
    requires a in live
    ensures LiveSet(live - {a}) == LiveSet(live) - {Block(a, live[a])}
  {
    var m := live - {a};
    forall b | b in LiveSet(live) - {Block(a, live[a])} ensures b in LiveSet(m) {
      assert b.addr in m && m[b.addr] == b.size;
    }
  }

  /** Nothing lives at block_end. */
  lemma TopIsFresh(h: Heap)
    requires Tiled(h)
    ensures h.Top() !in h.live
  {
    assert forall a | a in h.live :: Block(a, h.live[a]) in SetOf(h.free) + LiveSet(h.live);
  }

  /** Putting a new live block at block_end keeps tiling and coalescing. */
  lemma ExtendTiled(h: Heap, h': Heap, total: nat)
    requires Tiled(h) && Coalesced(SetOf(h.free), h.end) && total > 0 && total % 8 == 0 && h.os.heap > 0
    requires h'.free == h.free && h'.live == h.live[h.Top() := total]
    requires h'.end == h.Top() + total && h'.os.heap == h.os.heap
    ensures Tiled(h') && Coalesced(SetOf(h'.free), h'.end)
  {
    var bs := SetOf(h.free) + LiveSet(h.live);
    var b := Block(h.Top(), total);
    TopIsFresh(h);
    TilesAligned(bs, h.os.heap, h.Top());
    TilesExtend(bs, h.os.heap, h.Top(), b);
    LiveAdd(h.live, h.Top(), total);
    assert SetOf(h'.free) + LiveSet(h'.live) == bs + {b};
    assert forall f <- SetOf(h.free) :: f in bs;
  }

  lemma GrowAccounted(h: Heap, allocs: seq<Span>, total: nat)
    requires Accounted(h) && total > 0
    ensures match Grow(h, allocs, total)
            case Ok((h', block)) =>
              && Accounted(h') && block == h.Top()
              && h'.free == h.free && h'.live == h.live[block := total]
              && h'.end == h.Top() + total && h'.os.heap == h.os.heap && h'.os.limit == h.os.limit
              && h'.os.given == h.os.given
            case Err(f) => f == BeyondLimit && h.os.cur + Capacity(total) > h.os.heap + h.os.limit
  {
    DoBrkKeepsFrontier(h.os, allocs, h.os.cur + Capacity(total));
  }

  lemma StaysAligned(lo: nat, x: nat)
    requires lo % 4096 == 0 && (x - lo) % 8 == 0
    ensures x % 8 == 0
  {
    assert x == 8 * (512 * (lo / 4096) + (x - lo) / 8);
  }

  lemma TopAligned(h: Heap)
    requires Inv(h)
    ensures h.Top() % 8 == 0 && h.os.heap > 0
  {
    var lo, hi := h.os.heap, h.Top();
    assert lo % 4096 == 0;
    hide Tiles, Coalesced, NoDup, Frontier;
    TilesAligned(SetOf(h.free) + LiveSet(h.live), lo, hi);
    StaysAligned(lo, hi);
  }

  lemma GrowInv(h: Heap, allocs: seq<Span>, total: nat)
    requires Inv(h) && total > 0 && total % 8 == 0
    ensures match Grow(h, allocs, total)
            case Ok((h', block)) => Inv(h') && block == h.Top() && block !in h.live && block % 8 == 0
            case Err(_) => true
  {
    GrowAccounted(h, allocs, total);
    TopIsFresh(h);
    TopAligned(h);
    hide Tiled, Coalesced, Accounted, Grow;
    match Grow(h, allocs, total)
    case Ok((h', block)) => ExtendTiled(h, h', total);
    case Err(f) =>
  }

  lemma FreeBlockNotLive(h: Heap, k: nat)
    requires Tiled(h) && k < |h.free|
    ensures h.free[k].addr !in h.live
  {
    assert h.free[k] in SetOf(h.free);
    assert forall a | a in h.live :: Block(a, h.live[a]) in LiveSet(h.live);
  }

  lemma SplitTiled(h: Heap, k: nat, total: nat)
    requires Tiled(h) && 0 < total && total % 8 == 0 && k < |h.free| && h.free[k].size > total
    ensures Tiled(Reuse(h, k, total))
  {
    var b := h.free[k];
    var F, L := SetOf(h.free), LiveSet(h.live);
    var l, r := Block(b.addr, total), Block(b.addr + total, b.size - total);
    FreeBlockNotLive(h, k);
    LiveAdd(h.live, b.addr, total);
    assert b in F + L;
    TilesCut(F + L, h.os.heap, h.Top(), b, l, r);
    assert r !in F + L && l !in F + L by {
      assert !Apart(b, r) && !Apart(b, l);
    }
    UpdateSet(h.free, k, r);
    hide Tiles;
    assert (F - {b} + {r}) + (L + {l}) == F + L - {b} + {l, r};
  }

  lemma SplitCoalesced(h: Heap, k: nat, total: nat)
    requires Inv(h) && 0 < total && k < |h.free| && h.free[k].size > total
    ensures Coalesced(SetOf(Reuse(h, k, total).free), h.end)
  {
    var b := h.free[k];
    var F, L := SetOf(h.free), LiveSet(h.live);
    var r := Block(b.addr + total, b.size - total);
    assert b in F + L && b in F;
    assert r !in h.free by {
      assert !Apart(b, r);
      assert forall f <- F :: f in F + L;
    }
    UpdateSet(h.free, k, r);
    forall f | f in F && f != b ensures f.End() != r.addr && r.End() != f.addr {
      assert f in F + L && Apart(f, b);
    }
  }

  lemma ExactInv(h: Heap, k: nat)
    requires Inv(h) && k < |h.free|
    ensures Inv(Reuse(h, k, h.free[k].size))
  {
    var b := h.free[k];
    var F, L := SetOf(h.free), LiveSet(h.live);
    FreeBlockNotLive(h, k);
    LiveAdd(h.live, b.addr, b.size);
    WithoutSet(h.free, k);
    hide Tiles;
    assert (F - {b}) + (L + {b}) == F + L;
  }

  lemma ReuseInv(h: Heap, k: nat, total: nat)
    requires Inv(h) && total > 0 && total % 8 == 0
    requires k < |h.free| && h.free[k].size >= total
    ensures Inv(Reuse(h, k, total))
    ensures h.free[k].addr !in h.live && h.free[k].addr % 8 == 0
  {
    FreeBlockNotLive(h, k);
    assert h.free[k].addr % 8 == 0 by {
      assert h.free[k] in SetOf(h.free) + LiveSet(h.live);
    }
    hide Tiled, Coalesced;
    if h.free[k].size > total {
      SplitTiled(h, k, total);
      SplitCoalesced(h, k, total);
    } else {
      ExactInv(h, k);
    }
  }

  // ---------------------------------------------------------------- trimming and merging

  ghost predicate NoneTouch(fs: set<Block>) {
    forall f <- fs, g <- fs :: f.End() != g.addr
  }

  /** Every tracked region lies inside the payload of a live block. */
  ghost predicate InsideLive(allocs: seq<Span>, live: map<nat, nat>) {
    forall r <- allocs :: r.start < r.end && exists a <- live :: a + 8 <= r.start && r.end <= a + live[a]
  }

  /** What the pass needs: the free blocks do not touch each other, and those before the
      cursor do not end at block_end. */
  ghost predicate TrimReady(h: Heap, i: nat) {
    && i <= |h.free| && h.end != 0
    && Accounted(h) && Tiled(h) && NoneTouch(SetOf(h.free))
    && (forall k | 0 <= k < i :: h.free[k].End() != h.end)
  }

  lemma DropFreeTiled(h: Heap, k: nat, os: Os)
    requires Tiled(h) && k < |h.free| && h.free[k].End() == h.Top() && h.os.heap > 0
    requires os.heap == h.os.heap
    ensures Tiled(h.(free := Without(h.free, k), end := h.free[k].addr, os := os))
    ensures h.os.heap <= h.free[k].addr
  {
    var b := h.free[k];
    var F, L := SetOf(h.free), LiveSet(h.live);
    assert b in F + L;
    WithoutSet(h.free, k);
    TilesDropLast(F + L, h.os.heap, h.Top(), b);
    assert (F - {b}) + L == F + L - {b};
  }

  /** Live blocks end at or before the start of the block that ends at block_end. */
  lemma LiveBelowLast(h: Heap, b: Block, allocs: seq<Span>)
    requires Tiled(h) && b in SetOf(h.free) + LiveSet(h.live) && b.End() == h.Top()
    requires InsideLive(allocs, if b.addr in h.live then h.live - {b.addr} else h.live)
    ensures !AnyMeets(allocs, Span(b.addr + h.slack, h.Top() + h.slack, 0))
  {
    var bs := SetOf(h.free) + LiveSet(h.live);
    var live := if b.addr in h.live then h.live - {b.addr} else h.live;
    forall r | r in allocs ensures r.end <= b.addr {
      var a :| a in live && a + 8 <= r.start && r.end <= a + live[a];
      assert Block(a, h.live[a]) in LiveSet(h.live);
      assert Block(a, h.live[a]) in bs && Apart(Block(a, h.live[a]), b);
    }
  }

  ghost predicate TrimmedTo(h: Heap, h': Heap, allocs: seq<Span>) {
    && Inv(h') && h'.live == h.live && h'.slack == h.slack && h'.end != 0
    && SetOf(h'.free) <= SetOf(h.free)
    && h'.os.heap == h.os.heap && h'.os.limit == h.os.limit
    && (InsideLive(allocs, h.live) ==> GaveBackSafely(h.os, h'.os, allocs))
  }

  lemma TrimStep(h: Heap, allocs: seq<Span>, i: nat)
    requires TrimReady(h, i) && i < |h.free| && h.free[i].End() == h.end
    ensures match DoBrk(h.os, allocs, h.os.cur - h.free[i].size)
            case Ok(os) =>
              && TrimReady(h.(free := Without(h.free, i), end := h.free[i].addr, os := os), i)
              && SetOf(Without(h.free, i)) <= SetOf(h.free)
              && os.heap == h.os.heap && os.limit == h.os.limit
              && (InsideLive(allocs, h.live) ==> GaveBackSafely(h.os, os, allocs))
            case Err(f) => f == StillAllocated && !InsideLive(allocs, h.live)
  {
    var b := h.free[i];
    var addr := h.os.cur - b.size;
    assert b in SetOf(h.free);
    DropFreeTiled(h, i, h.os);
    DoBrkKeepsFrontier(h.os, allocs, addr);
    WithoutSet(h.free, i);
    if InsideLive(allocs, h.live) {
      FreeBlockNotLive(h, i);
      LiveBelowLast(h, b, allocs);
      LowerSafely(h.os, allocs, addr);
    }
    if DoBrk(h.os, allocs, addr).Ok? {
      DropFreeTiled(h, i, DoBrk(h.os, allocs, addr).value);
    }
  }

  lemma TrimDone(h: Heap, allocs: seq<Span>)
    requires TrimReady(h, |h.free|)
    ensures TrimmedTo(h, h, allocs)
  {
    hide Tiled, Accounted;
  }

  /** One forward pass is enough, whatever the list order: afterwards no free block ends at
      block_end. It never fails when the tracked regions lie inside live blocks. */
  lemma {:induction false} TrimCompletes(h: Heap, allocs: seq<Span>, i: nat)
    requires TrimReady(h, i)
    ensures match TrimFrom(h, allocs, i)
            case Ok(h') => TrimmedTo(h, h', allocs)
            case Err(f) => f == StillAllocated && !InsideLive(allocs, h.live)
    decreases |h.free| - i
  {
    hide Tiled, Accounted, Coalesced, NoneTouch, InsideLive;
    if i == |h.free| {
      TrimDone(h, allocs);
    } else if h.free[i].End() == h.end {
      TrimStep(h, allocs, i);
      match DoBrk(h.os, allocs, h.os.cur - h.free[i].size)
      case Err(_) =>
      case Ok(os) =>
        TrimCompletes(h.(free := Without(h.free, i), end := h.free[i].addr, os := os), allocs, i);
    } else {
      TrimCompletes(h, allocs, i + 1);
    }
  }

  /** Without coalescing one pass is not enough: here it leaves a free block at block_end. */
  lemma TrimNeedsCoalescing()
    ensures exists h: Heap ::
              && Accounted(h) && Tiled(h) && h.end != 0
              && var r := TrimFrom(h, [], 0);
                 r.Ok? && r.value.end != 0 && exists f <- r.value.free :: f.End() == r.value.end
  {
    var os := Os(4096, 4112, 8192, 1, 0, PageSpan(4096, 8192), []);
    var a, b := Block(4096, 8), Block(4104, 8);
    var h := Heap([a, b], map[], 4112, 0, os);
    assert Accounted(h);
    assert Tiled(h) by {
      assert SetOf(h.free) + LiveSet(h.live) == {a, b};
      assert a in {a, b} && b in {a, b};
      forall x: int | 4096 <= x < 4112 ensures Covered({a, b}, x) {
        assert Holds(a, x) || Holds(b, x);
      }
    }
    var os1 := DoBrk(os, [], 4104).value;
    var h1 := h.(free := [a], end := 4104, os := os1);
    calc {
      TrimFrom(h, [], 0);
      TrimFrom(h, [], 1);
      { assert Without(h.free, 1) == [a]; }
      TrimFrom(h1, [], 1);
      Ok(h1);
    }
    assert a in h1.free;
  }

  ghost predicate Touches(f: Block, b: Block) {
    f.End() == b.addr || f.addr == b.End()
  }

  ghost function Neighbours(fs: set<Block>, b: Block): set<Block> {
    set f | f in fs && Touches(f, b)
  }

  /** The free block that takes the place of `b` and its free neighbours. */
  function Merged(free: seq<Block>, b: Block): Block {
    var l, r := LeftOf(free, b, 0), RightOf(free, b, 0);
    var lo := if l < |free| then free[l].addr else b.addr;
    var left, right := (if l < |free| then free[l].size else 0), (if r < |free| then free[r].size else 0);
    Block(lo, left + b.size + right)
  }

  /** A block that can be merged: the free blocks, the others and `b` tile the range. */
  ghost predicate MergeReady(free: seq<Block>, others: set<Block>, b: Block, lo: nat, hi: nat) {
    && NoDup(free) && SetOf(free) !! others && b !in SetOf(free) + others
    && Tiles(SetOf(free) + others + {b}, lo, hi)
    && NoneTouch(SetOf(free))
  }

  /** At most one block ends where `b` starts and at most one starts where it ends. */
  lemma NeighboursAre(free: seq<Block>, others: set<Block>, b: Block, lo: nat, hi: nat)
    requires MergeReady(free, others, b, lo, hi)
    ensures var l, r := LeftOf(free, b, 0), RightOf(free, b, 0);
            Neighbours(SetOf(free), b) ==
            (if l < |free| then {free[l]} else {}) + (if r < |free| then {free[r]} else {})
    ensures var l, r := LeftOf(free, b, 0), RightOf(free, b, 0);
            l < |free| && r < |free| ==> l != r && free[l] != free[r]
  {
    var bs := SetOf(free) + others + {b};
    assert forall f <- free :: f in bs;
    assert b in bs;
    var l, r := LeftOf(free, b, 0), RightOf(free, b, 0);
    forall f | f in free && f.End() == b.addr ensures l < |free| && f == free[l] {
      var i :| 0 <= i < |free| && free[i] == f;
      assert f != free[l] ==> Apart(f, free[l]);
    }
    forall f | f in free && f.addr == b.End() ensures r < |free| && f == free[r] {
      var i :| 0 <= i < |free| && free[i] == f;
      assert f != free[r] ==> Apart(f, free[r]);
    }
  }

  lemma JoinLeft(F: set<Block>, others: set<Block>, b: Block, l: Block, lo: nat, hi: nat)
    requires F !! others && b !in F + others && l in F && l.End() == b.addr
    requires Tiles(F + others + {b}, lo, hi)
    ensures var m := Block(l.addr, l.size + b.size);
            m !in F + others && Tiles(F - {l} + others + {m}, lo, hi)
  {
    var bs, m := F + others + {b}, Block(l.addr, l.size + b.size);
    TilesJoin(bs, lo, hi, l, b);
    assert F - {l} + others + {m} == bs - {l, b} + {m};
  }

  lemma JoinRight(F: set<Block>, others: set<Block>, b: Block, r: Block, lo: nat, hi: nat)
    requires F !! others && b !in F + others && r in F && b.End() == r.addr
    requires Tiles(F + others + {b}, lo, hi)
    ensures var m := Block(b.addr, b.size + r.size);
            m !in F + others && Tiles(F - {r} + others + {m}, lo, hi)
  {
    var bs, m := F + others + {b}, Block(b.addr, b.size + r.size);
    TilesJoin(bs, lo, hi, b, r);
    assert F - {r} + others + {m} == bs - {b, r} + {m};
  }

  lemma JoinBoth(F: set<Block>, others: set<Block>, b: Block, l: Block, r: Block, lo: nat, hi: nat)
    requires F !! others && b !in F + others && l in F && r in F && l != r
    requires l.End() == b.addr && b.End() == r.addr
    requires Tiles(F + others + {b}, lo, hi)
    ensures var m := Block(l.addr, l.size + b.size + r.size);
            m !in F + others && Tiles(F - {l, r} + others + {m}, lo, hi)
  {
    assert b in F + others + {b};
    JoinLeft(F, others, b, l, lo, hi);
    JoinRight(F - {l}, others, Block(l.addr, l.size + b.size), r, lo, hi);
    assert F - {l} - {r} == F - {l, r};
  }

  lemma MergedTiles(free: seq<Block>, others: set<Block>, b: Block, lo: nat, hi: nat)
    requires MergeReady(free, others, b, lo, hi)
    ensures var m, ns := Merged(free, b), Neighbours(SetOf(free), b);
            && (ns != {} ==> m !in SetOf(free)) && m !in others
            && Tiles(SetOf(free) - ns + others + {m}, lo, hi)
  {
    hide Tiles;
    NeighboursAre(free, others, b, lo, hi);
    var F, m, ns := SetOf(free), Merged(free, b), Neighbours(SetOf(free), b);
    var after := F - ns + others + {m};
    var l, r := LeftOf(free, b, 0), RightOf(free, b, 0);
    if l < |free| && r < |free| {
      JoinBoth(F, others, b, free[l], free[r], lo, hi);
      assert after == F - {free[l], free[r]} + others + {m};
    } else if l < |free| {
      JoinLeft(F, others, b, free[l], lo, hi);
      assert after == F - {free[l]} + others + {m};
    } else if r < |free| {
      JoinRight(F, others, b, free[r], lo, hi);
      assert after == F - {free[r]} + others + {m};
    } else {
      assert after == F + others + {b};
    }
  }

  lemma MergeBothSet(free: seq<Block>, l: nat, r: nat, m: Block)
    requires l < |free| && r < |free| && l != r && NoDup(free) && m !in free
    ensures NoDup(Without(free[l := m], r))
    ensures SetOf(Without(free[l := m], r)) == SetOf(free) - {free[l], free[r]} + {m}
  {
    UpdateSet(free, l, m);
    WithoutSet(free[l := m], r);
    assert free[r] in free && free[l := m][r] == free[r];
    assert SetOf(free) - {free[l]} + {m} - {free[r]} == SetOf(free) - {free[l], free[r]} + {m};
  }

  lemma PushSet(free: seq<Block>, b: Block)
    requires NoDup(free) && b !in free
    ensures NoDup([b] + free) && SetOf([b] + free) == SetOf(free) + {b}
  {
    assert forall x :: x in [b] + free <==> x == b || x in free;
  }

  /** Whatever its place in the list, merging replaces exactly `b`'s free neighbours by one
      block that spans them and `b`. */
  lemma MergeSet(free: seq<Block>, others: set<Block>, b: Block, lo: nat, hi: nat)
    requires MergeReady(free, others, b, lo, hi)
    ensures NoDup(Merge(free, b))
    ensures SetOf(Merge(free, b)) == SetOf(free) - Neighbours(SetOf(free), b) + {Merged(free, b)}
  {
    NeighboursAre(free, others, b, lo, hi);
    MergedTiles(free, others, b, lo, hi);
    MergeSetBy(free, b);
  }

  lemma MergeSetBy(free: seq<Block>, b: Block)
    requires NoDup(free) && b !in free
    requires var l, r := LeftOf(free, b, 0), RightOf(free, b, 0);
             && Neighbours(SetOf(free), b) ==
                (if l < |free| then {free[l]} else {}) + (if r < |free| then {free[r]} else {})
             && (l < |free| && r < |free| ==> l != r)
             && (l < |free| || r < |free| ==> Merged(free, b) !in free)
    ensures NoDup(Merge(free, b))
    ensures SetOf(Merge(free, b)) == SetOf(free) - Neighbours(SetOf(free), b) + {Merged(free, b)}
  {
    hide Neighbours, LeftOf, RightOf, NoDup, SetOf;
    var m := Merged(free, b);
    var l, r := LeftOf(free, b, 0), RightOf(free, b, 0);
    if l < |free| && r < |free| {
      MergeBothSet(free, l, r, m);
      assert Neighbours(SetOf(free), b) == {free[l], free[r]};
    } else if l < |free| {
      UpdateSet(free, l, m);
    } else if r < |free| {
      UpdateSet(free, r, m);
    } else {
      PushSet(free, b);
    }
  }

  /** `m` starts where `b` or a free block starts and ends where `b` or a free block ends. */
  ghost predicate Reaches(fs: set<Block>, b: Block, m: Block) {
    && m.size > 0
    && (m.addr == b.addr || exists f <- fs :: f.addr == m.addr)
    && (m.End() == b.End() || exists f <- fs :: f.End() == m.End())
  }

  lemma SpansCoalesce(fs: set<Block>, b: Block, m: Block, hi: nat)
    requires Coalesced(fs, hi) && b.End() != hi && Reaches(fs, b, m)
    ensures Coalesced(fs - Neighbours(fs, b) + {m}, hi)
  {
    forall f | f in fs - Neighbours(fs, b) ensures f.End() != m.addr && m.End() != f.addr {
      assert !Touches(f, b);
    }
  }

  lemma MergedSpans(free: seq<Block>, b: Block)
    requires b.size > 0
    ensures Reaches(SetOf(free), b, Merged(free, b))
  {
    var l, r := LeftOf(free, b, 0), RightOf(free, b, 0);
    assert l < |free| ==> free[l] in SetOf(free);
    assert r < |free| ==> free[r] in SetOf(free);
  }

  lemma MergeCoalesces(free: seq<Block>, others: set<Block>, b: Block, lo: nat, hi: nat)
    requires MergeReady(free, others, b, lo, hi) && b.End() != hi
    requires Coalesced(SetOf(free), hi)
    ensures Coalesced(SetOf(Merge(free, b)), hi)
  {
    assert b in SetOf(free) + others + {b};
    MergedSpans(free, b);
    MergeSet(free, others, b, lo, hi);
    hide Tiles, NoDup, Merge, Merged, Neighbours, Coalesced, Reaches;
    SpansCoalesce(SetOf(free), b, Merged(free, b), hi);
  }

  // ---------------------------------------------------------------- kumalloc and kufree keep the invariant

  /** kumalloc fails only when the heap limit is reached. Otherwise the heap stays tiled and
      coalesced, all live blocks stay, and the result is the aligned payload of a new live
      block that is large enough; NULL answers exactly the request for zero bytes. */
  lemma MallocCorrect(h: Heap, allocs: seq<Span>, size: nat)
    requires Inv(h)
    ensures match Malloc(h, allocs, size)
            case Ok((h', ptr)) =>
              && Inv(h') && (ptr == 0 <==> size == 0) && (size == 0 ==> h' == h)
              && h'.os.heap == h.os.heap && h'.os.limit == h.os.limit && h'.os.given == h.os.given
              && (size > 0 ==>
                    && ptr % 8 == 0 && ptr >= 8 && ptr - 8 !in h.live
                    && h'.live == h.live[ptr - 8 := SizeAlign(size + 8)])
            case Err(f) => f == BeyondLimit && h.os.cur + Capacity(SizeAlign(size + 8)) > h.os.heap + h.os.limit
  {
    hide Tiled, Coalesced, Accounted, Grow;
    if size > 0 {
      var total := SizeAlign(size + 8);
      var k := FirstFit(h.free, total, 0);
      if k < |h.free| {
        ReuseInv(h, k, total);
      } else {
        GrowInv(h, allocs, total);
        GrowAccounted(h, allocs, total);
      }
    }
  }

  lemma {:induction false} TrimNoop(h: Heap, allocs: seq<Span>, i: nat)
    requires i <= |h.free| && forall k | i <= k < |h.free| :: h.free[k].End() != h.end
    ensures TrimFrom(h, allocs, i) == Ok(h)
    decreases |h.free| - i
  {
    if i < |h.free| {
      TrimNoop(h, allocs, i + 1);
    }
  }

  lemma FreeMiddleReady(h: Heap, b: Block)
    requires Inv(h) && b.addr in h.live && b.size == h.live[b.addr]
    ensures LiveSet(h.live - {b.addr}) == LiveSet(h.live) - {b} && h.end != 0
    ensures MergeReady(h.free, LiveSet(h.live) - {b}, b, h.os.heap, h.end)
  {
    var F, L := SetOf(h.free), LiveSet(h.live);
    assert b in L && b in F + L;
    LiveRemove(h.live, b.addr);
    assert F + (L - {b}) + {b} == F + L;
  }

  lemma FreeMiddle(h: Heap, b: Block)
    requires Inv(h) && b.addr in h.live && b.size == h.live[b.addr] && b.End() != h.end
    ensures Inv(h.(live := h.live - {b.addr}, free := Merge(h.free, b)))
  {
    var F, L := SetOf(h.free), LiveSet(h.live) - {b};
    FreeMiddleReady(h, b);
    hide Tiles, Coalesced, Neighbours, Merged, Merge;
    MergeSet(h.free, L, b, h.os.heap, h.end);
    MergedTiles(h.free, L, b, h.os.heap, h.end);
    MergeCoalesces(h.free, L, b, h.os.heap, h.end);
    var ns, m := Neighbours(F, b), Merged(h.free, b);
    assert F - ns + {m} + L == F - ns + L + {m};
  }

  lemma FreeLastReady(h: Heap, b: Block, os: Os)
    requires Inv(h) && b.addr in h.live && b.size == h.live[b.addr] && b.End() == h.end
    requires Frontier(os) && os.heap == h.os.heap && os.cur == h.os.cur - b.size
    ensures h.os.heap <= b.addr && TrimReady(h.(live := h.live - {b.addr}, end := b.addr, os := os), 0)
  {
    var F, L := SetOf(h.free), LiveSet(h.live);
    assert b in F + L;
    LiveRemove(h.live, b.addr);
    TilesDropLast(F + L, h.os.heap, h.Top(), b);
    hide Tiles, Frontier, NoDup;
    assert F + (L - {b}) == F + L - {b};
  }

  lemma FreeLast(h: Heap, allocs: seq<Span>, b: Block)
    requires Inv(h) && b.addr in h.live && b.size == h.live[b.addr] && b.End() == h.end
    ensures match DoBrk(h.os, allocs, h.os.cur - b.size)
            case Ok(os) =>
              && TrimReady(h.(live := h.live - {b.addr}, end := b.addr, os := os), 0)
              && os.heap == h.os.heap && os.limit == h.os.limit
              && (InsideLive(allocs, h.live - {b.addr}) ==> GaveBackSafely(h.os, os, allocs))
            case Err(f) => f == StillAllocated && !InsideLive(allocs, h.live - {b.addr})
  {
    hide Inv, DoBrk, InsideLive, GaveBackSafely, TrimReady, FindOverlap;
    LastInHeap(h, b);
    DoBrkKeepsFrontier(h.os, allocs, h.os.cur - b.size);
    if InsideLive(allocs, h.live - {b.addr}) {
      LastLowersSafely(h, allocs, b);
    }
    if DoBrk(h.os, allocs, h.os.cur - b.size).Ok? {
      FreeLastReady(h, b, DoBrk(h.os, allocs, h.os.cur - b.size).value);
    }
  }

  lemma LastInHeap(h: Heap, b: Block)
    requires Inv(h) && b.addr in h.live && b.size == h.live[b.addr] && b.End() == h.end
    ensures Frontier(h.os) && h.os.cur == h.end + h.slack && h.os.heap <= b.addr
  {
    assert b in SetOf(h.free) + LiveSet(h.live);
  }

  lemma LastLowersSafely(h: Heap, allocs: seq<Span>, b: Block)
    requires Inv(h) && b.addr in h.live && b.size == h.live[b.addr] && b.End() == h.end
    requires InsideLive(allocs, h.live - {b.addr})
    ensures var r := DoBrk(h.os, allocs, h.os.cur - b.size); r.Ok? && GaveBackSafely(h.os, r.value, allocs)
  {
    LastInHeap(h, b);
    LiveBelowLast(h, b, allocs);
    hide Inv, DoBrk, InsideLive, GaveBackSafely;
    LowerSafely(h.os, allocs, h.os.cur - b.size);
  }

  lemma GaveBackTrans(a: Os, b: Os, c: Os, allocs: seq<Span>)
    requires GaveBackSafely(a, b, allocs) && GaveBackSafely(b, c, allocs)
    ensures GaveBackSafely(a, c, allocs)
  {
    forall i | |a.given| <= i < |c.given| ensures !AnyMeets(allocs, c.given[i]) {
      assert i < |b.given| ==> c.given[i] == b.given[i];
    }
  }

  /** kufree keeps the heap tiled and fully coalesced, removes exactly the freed block from
      the live ones and leaves every other header alone. If the tracked regions lie inside
      the remaining live blocks, no range given back meets any of them, so the check in
      do_brk passes at every call. */
  lemma FreeCorrect(h: Heap, allocs: seq<Span>, ptr: nat)
    requires Inv(h) && (ptr != 0 ==> Owned(h, ptr))
    ensures var live := if ptr == 0 then h.live else h.live - {ptr - 8};
            match Free(h, allocs, ptr)
            case Ok(h') =>
              && Inv(h') && h'.live == live && h'.slack == h.slack && (ptr == 0 ==> h' == h)
              && h'.os.heap == h.os.heap && h'.os.limit == h.os.limit
              && (InsideLive(allocs, live) ==> GaveBackSafely(h.os, h'.os, allocs))
            case Err(f) => f == StillAllocated && !InsideLive(allocs, live)
  {
    hide Inv, InsideLive, GaveBackSafely, TrimReady;
    if ptr != 0 {
      var b := Block(ptr - 8, h.live[ptr - 8]);
      var h1 := h.(live := h.live - {b.addr});
      if b.End() == h.end {
        FreeLast(h, allocs, b);
        match DoBrk(h.os, allocs, h.os.cur - b.size)
        case Err(_) =>
        case Ok(os) =>
          var h2 := h1.(end := b.addr, os := os);
          TrimCompletes(h2, allocs, 0);
          match TrimFrom(h2, allocs, 0)
          case Err(_) =>
          case Ok(h') =>
            if InsideLive(allocs, h1.live) {
              GaveBackTrans(h.os, os, h'.os, allocs);
            }
      } else {
        FreeMiddle(h, b);
        NoneEndsAtTop(h);
        TrimNoop(h1, allocs, 0);
        SelfSafe(h.os, allocs);
      }
    } else {
      SelfSafe(h.os, allocs);
    }
  }

  lemma NoneEndsAtTop(h: Heap)
    requires Inv(h)
    ensures forall k | 0 <= k < |h.free| :: h.free[k].End() != h.end
  {
    hide Tiled, Accounted;
    forall k | 0 <= k < |h.free| ensures h.free[k].End() != h.end {
      assert h.free[k] in SetOf(h.free);
    }
  }

  lemma SelfSafe(os: Os, allocs: seq<Span>)
    ensures GaveBackSafely(os, os, allocs)
  {
  }
}
