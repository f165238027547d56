/** Laws of the allocator over single calls. */
module HeapLaws {
  import opened Base
  import opened Blocks
  import opened Spans
  import opened Break
  import opened HeapSpec

  // ---------------------------------------------------------------- conservation of bytes

  /** Every byte below the break is in a live block, in a free block or in the slack. */
  lemma BytesConserved(h: Heap)
    requires Inv(h)
    ensures h.os.cur - h.os.heap == Bytes(LiveSet(h.live)) + Bytes(SetOf(h.free)) + h.slack
    ensures h.end != 0 ==> h.os.cur == h.end + h.slack
  {
    hide Tiles, Coalesced;
    TilesBytes(SetOf(h.free) + LiveSet(h.live), h.os.heap, h.Top());
    BytesUnion(SetOf(h.free), LiveSet(h.live));
  }

  lemma TwoApart(h: Heap, p: Block, q: Block)
    requires Inv(h) && p in SetOf(h.free) + LiveSet(h.live) && q in SetOf(h.free) + LiveSet(h.live)
    ensures p == q || Apart(p, q)
  {
  }

  lemma LiveIsBlock(h: Heap, a: nat)
    requires a in h.live
    ensures Block(a, h.live[a]) in SetOf(h.free) + LiveSet(h.live)
  {
  }

  /** Behind a block another one starts, unless it is the last. */
  lemma NextBlock(h: Heap, b: Block)
    requires Inv(h) && b in SetOf(h.free) + LiveSet(h.live) && b.size > 0
    ensures b.End() == h.end ==> forall c <- SetOf(h.free) + LiveSet(h.live) :: c.addr != h.end
    ensures b.End() != h.end ==> b.End() in h.live || exists k: nat :: k < |h.free| && h.free[k].addr == b.End()
  {
    var bs := SetOf(h.free) + LiveSet(h.live);
    assert b in bs;
    if b.End() != h.end {
      assert Covered(bs, b.End());
      var c :| c in bs && Holds(c, b.End());
      assert Apart(b, c) && c.addr == b.End();
    }
  }

  /** No header can be smaller than the distance to the next block. */
  lemma HeaderReaches(h: Heap, h': Heap, a: nat)
    requires Inv(h) && Inv(h') && h'.free == h.free && h'.live.Keys == h.live.Keys && h'.Top() == h.Top()
    requires a in h.live && h.end != 0
    ensures a in h'.live && h'.live[a] <= h.live[a]
  {
    var b, b' := Block(a, h.live[a]), Block(a, h'.live[a]);
    assert a in h'.live.Keys;
    LiveIsBlock(h, a);
    LiveIsBlock(h', a);
    BlocksInside(h, b);
    BlocksInside(h', b');
    NextBlock(h, b);
    hide Inv;
    if h.live[a] < h'.live[a] {
      var c := if b.End() in h.live then Block(b.End(), h'.live[b.End()]) else FreeAt(h, b.End());
      assert b.End() in h.live ==> b.End() in h'.live.Keys;
      assert c in SetOf(h'.free) + LiveSet(h'.live);
      BlocksInside(h', c);
      TwoApart(h', b', c);
      assert false;
    }
  }

  lemma BlocksInside(h: Heap, b: Block)
    requires Inv(h) && b in SetOf(h.free) + LiveSet(h.live)
    ensures b.size > 0 && b.End() <= h.Top()
  {
  }

  ghost function FreeAt(h: Heap, x: nat): (b: Block)
    requires exists k: nat :: k < |h.free| && h.free[k].addr == x
    ensures b in h.free && b.addr == x
  {
    var k: nat :| k < |h.free| && h.free[k].addr == x;
    h.free[k]
  }

  /** The places of the blocks determine all headers: no header, and no number of them, can
      change without breaking the invariant. */
  lemma HeadersIff(h: Heap, live: map<nat, nat>)
    requires Inv(h) && live.Keys == h.live.Keys
    ensures Inv(h.(live := live)) <==> live == h.live
  {
    var h' := h.(live := live);
    hide Inv;
    if Inv(h') {
      forall a | a in live ensures a in h.live && live[a] == h.live[a] {
        assert a in h.live.Keys;
        LastIsSet(h, a);
        HeaderReaches(h, h', a);
        HeaderReaches(h', h, a);
      }
      assert forall a :: a in live <==> a in live.Keys;
      assert live == h.live;
    }
  }

  lemma LastIsSet(h: Heap, a: nat)
    requires Inv(h) && a in h.live
    ensures h.end != 0
  {
    LiveIsBlock(h, a);
  }

  lemma HeaderIff(h: Heap, a: nat, v: nat)
    requires Inv(h) && a in h.live
    ensures Inv(h.(live := h.live[a := v])) <==> v == h.live[a]
  {
    hide Inv;
    HeadersIff(h, h.live[a := v]);
    assert h.live[a := h.live[a]] == h.live;
  }

  /** Nor can the size of a free block. */
  lemma FreeSizeIff(h: Heap, k: nat, v: nat)
    requires Inv(h) && k < |h.free|
    ensures Inv(h.(free := h.free[k := Block(h.free[k].addr, v)])) <==> v == h.free[k].size
  {
    hide Tiles, Coalesced, Accounted, Bytes;
    var b := Block(h.free[k].addr, v);
    var h' := h.(free := h.free[k := b]);
    assert v == h.free[k].size ==> h' == h;
    if Inv(h') {
      BytesConserved(h);
      BytesConserved(h');
      WithoutSet(h.free, k);
      WithoutSet(h'.free, k);
      assert Without(h'.free, k) == Without(h.free, k);
      assert h.free[k] in SetOf(h.free) && h'.free[k] in SetOf(h'.free);
      BytesRemove(SetOf(h.free), h.free[k]);
      BytesRemove(SetOf(h'.free), b);
    }
  }

  /** What the trim does to block_end and the break when its cursor visits the blocks `bs`,
      whatever links led it there. */
  function Visits(end: nat, os: Os, allocs: seq<Span>, bs: seq<Block>): Result<(nat, Os)>
    decreases |bs|
  {
    if bs == [] then Ok((end, os))
    else if bs[0].End() == end then
      var os' :- DoBrk(os, allocs, os.cur - bs[0].size);
      Visits(bs[0].addr, os', allocs, bs[1..])
    else Visits(end, os, allocs, bs[1..])
  }

  /** The break stays `slack` bytes above block_end whichever blocks are visited, in any order
      and any number of times: links that lead the cursor astray do not harm the accounting. */
  lemma {:induction false} VisitsAccounted(end: nat, os: Os, allocs: seq<Span>, bs: seq<Block>, slack: nat)
    requires Frontier(os) && end != 0 && os.cur == end + slack && forall b <- bs :: b.addr > 0
    ensures match Visits(end, os, allocs, bs)
            case Ok((end', os')) => Frontier(os') && end' != 0 && os'.cur == end' + slack && os'.heap == os.heap
            case Err(_) => true
    decreases |bs|
  {
    hide Frontier;
    if bs != [] {
      var b := bs[0];
      if b.End() == end {
        DoBrkKeepsFrontier(os, allocs, os.cur - b.size);
        match DoBrk(os, allocs, os.cur - b.size)
        case Err(_) =>
        case Ok(os') => VisitsAccounted(b.addr, os', allocs, bs[1..], slack);
      } else {
        VisitsAccounted(end, os, allocs, bs[1..], slack);
      }
    }
  }

  lemma {:induction false} TrimIsVisits(h: Heap, allocs: seq<Span>, i: nat)
    requires i <= |h.free|
    ensures match TrimFrom(h, allocs, i)
            case Ok(h') => Visits(h.end, h.os, allocs, h.free[i..]) == Ok((h'.end, h'.os)) && h'.slack == h.slack
            case Err(f) => Visits(h.end, h.os, allocs, h.free[i..]) == Err(f)
    decreases |h.free| - i
  {
    hide DoBrk;
    if i < |h.free| {
      var b := h.free[i];
      assert h.free[i..][0] == b && h.free[i..][1..] == h.free[i + 1..];
      if b.End() == h.end {
        match DoBrk(h.os, allocs, h.os.cur - b.size)
        case Err(_) =>
        case Ok(os) =>
          assert Without(h.free, i)[i..] == h.free[i + 1..];
          TrimIsVisits(h.(free := Without(h.free, i), end := b.addr, os := os), allocs, i);
      } else {
        TrimIsVisits(h, allocs, i + 1);
      }
    }
  }

  /** The trim of any list, coalesced or not, keeps the break `slack` bytes above block_end. */
  lemma TrimAccounted(h: Heap, allocs: seq<Span>)
    requires Accounted(h) && h.end != 0 && forall b <- h.free :: b.addr > 0
    ensures match TrimFrom(h, allocs, 0)
            case Ok(h') => Accounted(h') && h'.end != 0 && h'.slack == h.slack && h'.os.cur == h'.end + h.slack
            case Err(_) => true
  {
    hide TrimFrom, Visits, Frontier;
    assert h.free[0..] == h.free;
    TrimIsVisits(h, allocs, 0);
    VisitsAccounted(h.end, h.os, allocs, h.free, h.slack);
  }

  // ---------------------------------------------------------------- first fit

  ghost predicate Fits(h: Heap, k: nat, size: nat) {
    k < |h.free| && h.free[k].size >= SizeAlign(size + 8)
  }

  /** The call took free block `k`: block_end, slack and break stay, the other list entries
      keep their places, and a remainder keeps the place of the block it was cut from. */
  ghost predicate TookBlock(h: Heap, h': Heap, ptr: nat, k: nat, size: nat)
    requires Fits(h, k, size)
  {
    && ptr == h.free[k].addr + 8
    && h'.end == h.end && h'.slack == h.slack && h'.os == h.os
    && (if h.free[k].size > SizeAlign(size + 8) then
          && |h'.free| == |h.free|
          && h'.free[k].End() == h.free[k].End()
          && h'.free[k].addr == h.free[k].addr + SizeAlign(size + 8)
          && (forall j | 0 <= j < |h.free| && j != k :: h'.free[j] == h.free[j])
        else
          h'.free == Without(h.free, k))
  }

  /** If any free block fits, the earliest one in list order is used; only if none fits does
      block_end move, by exactly the size of the new block. */
  lemma FirstFitPolicy(h: Heap, allocs: seq<Span>, size: nat, k: nat)
    requires Inv(h) && size > 0
    ensures Fits(h, k, size) && (forall j: nat | j < k :: !Fits(h, j, size)) ==>
              var r := Malloc(h, allocs, size); r.Ok? && TookBlock(h, r.value.0, r.value.1, k, size)
    ensures (forall j: nat :: !Fits(h, j, size)) ==>
              match Malloc(h, allocs, size)
              case Ok((h', ptr)) => ptr == h.Top() + 8 && h'.free == h.free && h'.end == h.Top() + SizeAlign(size + 8)
              case Err(f) => f == BeyondLimit
  {
    hide Tiled, Coalesced, SizeAlign, Capacity, Grow, DoBrk;
    var total := SizeAlign(size + 8);
    var f := FirstFit(h.free, total, 0);
    assert f < |h.free| ==> Fits(h, f, size);
    if Fits(h, k, size) && forall j: nat | j < k :: !Fits(h, j, size) {
      assert f == k;
    }
    GrowAccounted(h, allocs, total);
  }

  // ---------------------------------------------------------------- the break

  /** Some listed block is large enough, or the slack is. */
  ghost predicate Served(h: Heap, size: nat) {
    (exists k: nat :: Fits(h, k, size)) || SizeAlign(size + 8) <= h.slack
  }

  /** When a free block fits or the slack covers the request the break stays. Otherwise it
      rises by 8192 bytes for a block of at most 8192, and else by the next multiple of 8192
      above the block; the call fails exactly when that passes the heap limit. */
  lemma MallocMovesBreak(h: Heap, allocs: seq<Span>, size: nat)
    requires Inv(h) && size > 0
    ensures Served(h, size) ==> var r := Malloc(h, allocs, size); r.Ok? && r.value.0.os == h.os
    ensures !Served(h, size) ==>
              var total := SizeAlign(size + 8);
              var rise := if total <= 8192 then 8192 else 8192 * (total / 8192 + 1);
              match Malloc(h, allocs, size)
              case Ok((h', _)) =>
                && h.os.cur + rise <= h.os.heap + h.os.limit && MovedTo(h.os, h.os.cur + rise, h'.os)
                && h'.slack == h.slack + rise - total
              case Err(f) => f == BeyondLimit && h.os.cur + rise > h.os.heap + h.os.limit
  {
    hide Tiled, Coalesced, SizeAlign, DoBrk, MovedTo, Frontier;
    var total := SizeAlign(size + 8);
    var k := FirstFit(h.free, total, 0);
    assert k < |h.free| ==> Fits(h, k, size);
    GrownSlack(h, allocs, total);
  }

  lemma GrownSlack(h: Heap, allocs: seq<Span>, total: nat)
    requires Accounted(h) && total > 0
    ensures total <= h.slack ==>
              var r := Grow(h, allocs, total); r.Ok? && r.value.0.os == h.os && r.value.0.slack == h.slack - total
    ensures total > h.slack ==>
              match Grow(h, allocs, total)
              case Ok((h', _)) =>
                && MovedTo(h.os, h.os.cur + Capacity(total), h'.os) && h'.slack == h.slack + Capacity(total) - total
                && h.os.cur + Capacity(total) <= h.os.heap + h.os.limit
              case Err(f) => f == BeyondLimit && h.os.cur + Capacity(total) > h.os.heap + h.os.limit
  {
    DoBrkKeepsFrontier(h.os, allocs, h.os.cur + Capacity(total));
    hide DoBrk, MovedTo, Capacity;
  }

  /** Position of the first listed block that ends at `x`. */
  function EndingAt(free: seq<Block>, x: nat): (k: nat)
    ensures k <= |free| && (k < |free| ==> free[k].End() == x)
    ensures forall j | 0 <= j < k :: free[j].End() != x
  {
    LeftOf(free, Block(x, 0), 0)
  }

  /** The pass of lines 183-205 on a coalesced list, where it gives back one node at most. */
  function TrimOne(h: Heap, allocs: seq<Span>): Result<Heap> {
    var k := EndingAt(h.free, h.end);
    if k == |h.free| then Ok(h)
    else
      var os :- DoBrk(h.os, allocs, h.os.cur - h.free[k].size);
      Ok(h.(free := Without(h.free, k), end := h.free[k].addr, os := os))
  }

  lemma {:induction false} TrimSkips(h: Heap, allocs: seq<Span>, i: nat, k: nat)
    requires i <= k <= |h.free| && forall j | i <= j < k :: h.free[j].End() != h.end
    ensures TrimFrom(h, allocs, i) == TrimFrom(h, allocs, k)
    decreases k - i
  {
    if i < k {
      TrimSkips(h, allocs, i + 1, k);
    }
  }

  lemma TrimIsOne(h: Heap, allocs: seq<Span>)
    requires NoneTouch(SetOf(h.free))
    ensures TrimFrom(h, allocs, 0) == TrimOne(h, allocs)
  {
    var k := EndingAt(h.free, h.end);
    TrimSkips(h, allocs, 0, k);
    hide DoBrk, EndingAt;
    if k < |h.free| {
      var b := h.free[k];
      assert b in SetOf(h.free);
      match DoBrk(h.os, allocs, h.os.cur - b.size)
      case Err(_) =>
      case Ok(os) =>
        var h' := h.(free := Without(h.free, k), end := b.addr, os := os);
        forall j | k <= j < |h'.free| ensures h'.free[j].End() != b.addr {
          assert h.free[j + 1] in SetOf(h.free);
        }
        TrimNoop(h', allocs, k);
    }
  }

  /** A free of a block that is not the last leaves break, block_end and slack alone. */
  lemma FreeInsideExact(h: Heap, allocs: seq<Span>, ptr: nat)
    requires Inv(h) && Owned(h, ptr) && ptr - 8 + h.live[ptr - 8] != h.end
    ensures Free(h, allocs, ptr) ==
            Ok(h.(live := h.live - {ptr - 8}, free := Merge(h.free, Block(ptr - 8, h.live[ptr - 8]))))
  {
    NoneEndsAtTop(h);
    hide Inv, Merge;
    TrimNoop(h.(live := h.live - {ptr - 8}), allocs, 0);
  }

  /** Whatever the headers hold: the pass over the list runs before the merge, and a listed
      block that ends at block_end is given back although the block freed is another one. */
  lemma FreeTrimsFirst(h: Heap, allocs: seq<Span>, ptr: nat)
    requires Owned(h, ptr) && ptr - 8 + h.live[ptr - 8] != h.end && EndingAt(h.free, h.end) < |h.free|
    requires forall f <- h.free :: f.End() != h.free[EndingAt(h.free, h.end)].addr
    ensures var k, b := EndingAt(h.free, h.end), Block(ptr - 8, h.live[ptr - 8]);
            match DoBrk(h.os, allocs, h.os.cur - h.free[k].size)
            case Ok(os) => Free(h, allocs, ptr) ==
                           Ok(h.(live := h.live - {ptr - 8}, free := Merge(Without(h.free, k), b),
                                 end := h.free[k].addr, os := os))
            case Err(f) => Free(h, allocs, ptr) == Err(f)
  {
    hide DoBrk, Merge;
    var k, h0 := EndingAt(h.free, h.end), h.(live := h.live - {ptr - 8});
    TrimSkips(h0, allocs, 0, k);
    var moved := DoBrk(h.os, allocs, h.os.cur - h.free[k].size);
    if moved.Ok? {
      var h1 := h0.(free := Without(h.free, k), end := h.free[k].addr, os := moved.value);
      assert forall j | k <= j < |h1.free| :: h1.free[j] == h.free[j + 1] && h.free[j + 1] in h.free;
      TrimNoop(h1, allocs, k);
    }
  }

  /** The heap after the last block was given back, and the free block before it with it. */
  ghost predicate GaveLast(h: Heap, b: Block, h': Heap) {
    var k, n := EndingAt(h.free, b.addr), |h.free|;
    && h'.live == h.live - {b.addr} && h'.slack == h.slack && h'.os.ups == h.os.ups
    && h'.free == (if k < n then Without(h.free, k) else h.free)
    && h'.end == (if k < n then h.free[k].addr else b.addr)
    && h'.os.cur == h'.end + h.slack
    && h'.os.given == h.os.given + [Span(b.addr + h.slack, h.os.cur, 0)] +
                      (if k < n then [Span(h.free[k].addr + h.slack, b.addr + h.slack, 0)] else [])
  }

  /** The search reports one of the ranges that freeing the last block gives back. */
  ghost predicate LastIsTracked(h: Heap, allocs: seq<Span>, b: Block) {
    var k := EndingAt(h.free, b.addr);
    || FindOverlap(allocs, Span(b.addr + h.slack, h.os.cur, 0))
    || (k < |h.free| && FindOverlap(allocs, Span(h.free[k].addr + h.slack, b.addr + h.slack, 0)))
  }

  /** What freeing the last block `b` comes to. */
  ghost predicate LastOutcome(h: Heap, allocs: seq<Span>, b: Block, r: Result<Heap>) {
    match r
    case Ok(h') => GaveLast(h, b, h') && !LastIsTracked(h, allocs, b)
    case Err(f) => f == StillAllocated && LastIsTracked(h, allocs, b)
  }

  /** Freeing the last block gives back its bytes, and those of a free block right before it,
      in one or two lowerings; it fails exactly when the search reports a tracked region in one
      of the ranges. */
  lemma FreeLastExact(h: Heap, allocs: seq<Span>, ptr: nat)
    requires Inv(h) && Owned(h, ptr) && ptr - 8 + h.live[ptr - 8] == h.end
    ensures LastOutcome(h, allocs, Block(ptr - 8, h.live[ptr - 8]), Free(h, allocs, ptr))
  {
    hide Inv, DoBrk, TrimFrom, FindOverlap, Free, LastOutcome, LastMoved;
    var b := Block(ptr - 8, h.live[ptr - 8]);
    LastMoves(h, allocs, b);
    FreeLastUnfolds(h, allocs, ptr);
    var moved := DoBrk(h.os, allocs, h.os.cur - b.size);
    if moved.Err? {
      LastFails(h, allocs, b, moved.failure);
    } else {
      LastTrims(h, allocs, b, moved.value);
    }
  }

  /** The first of the lowerings went through. */
  ghost predicate LastMoved(h: Heap, allocs: seq<Span>, b: Block, os: Os) {
    && TrimReady(h.(live := h.live - {b.addr}, end := b.addr, os := os), 0)
    && os.cur == b.addr + h.slack && os.given == h.os.given + [Span(b.addr + h.slack, h.os.cur, 0)]
    && os.ups == h.os.ups && !FindOverlap(allocs, Span(b.addr + h.slack, h.os.cur, 0))
  }

  lemma LastMoves(h: Heap, allocs: seq<Span>, b: Block)
    requires Inv(h) && b.addr in h.live && b.size == h.live[b.addr] && b.End() == h.end
    ensures match DoBrk(h.os, allocs, h.os.cur - b.size)
            case Ok(os) => LastMoved(h, allocs, b, os)
            case Err(f) => f == StillAllocated && FindOverlap(allocs, Span(b.addr + h.slack, h.os.cur, 0))
  {
    hide Inv, DoBrk, TrimReady, InsideLive, GaveBackSafely, FindOverlap;
    FreeLast(h, allocs, b);
    LastLowers(h, allocs, b);
  }

  lemma LastFails(h: Heap, allocs: seq<Span>, b: Block, f: Failure)
    requires f == StillAllocated && FindOverlap(allocs, Span(b.addr + h.slack, h.os.cur, 0))
    ensures LastOutcome(h, allocs, b, Err(f))
  {
  }

  lemma LastTrims(h: Heap, allocs: seq<Span>, b: Block, os: Os)
    requires LastMoved(h, allocs, b, os)
    ensures LastOutcome(h, allocs, b, TrimFrom(h.(live := h.live - {b.addr}, end := b.addr, os := os), allocs, 0))
  {
    hide TrimReady, TrimFrom, FindOverlap, EndingAt;
    TrimLowers(h.(live := h.live - {b.addr}, end := b.addr, os := os), allocs);
  }

  lemma FreeLastUnfolds(h: Heap, allocs: seq<Span>, ptr: nat)
    requires ptr != 0 && Owned(h, ptr) && ptr - 8 + h.live[ptr - 8] == h.end
    ensures var moved := DoBrk(h.os, allocs, h.os.cur - h.live[ptr - 8]);
            if moved.Err? then Free(h, allocs, ptr) == Err(moved.failure)
            else Free(h, allocs, ptr) ==
                 TrimFrom(h.(live := h.live - {ptr - 8}, end := ptr - 8, os := moved.value), allocs, 0)
  {
    hide DoBrk, TrimFrom;
  }

  lemma LastLowers(h: Heap, allocs: seq<Span>, b: Block)
    requires Inv(h) && b.addr in h.live && b.size == h.live[b.addr] && b.End() == h.end
    ensures match DoBrk(h.os, allocs, h.os.cur - b.size)
            case Ok(os) =>
              && os.cur == b.addr + h.slack && os.given == h.os.given + [Span(b.addr + h.slack, h.os.cur, 0)]
              && os.ups == h.os.ups && !FindOverlap(allocs, Span(b.addr + h.slack, h.os.cur, 0))
            case Err(f) => f == StillAllocated && FindOverlap(allocs, Span(b.addr + h.slack, h.os.cur, 0))
  {
    LiveIsBlock(h, b.addr);
    BlocksInside(h, b);
    AboveHeap(h, b);
    assert h.os.cur == h.end + h.slack;
    hide Tiled, Coalesced, DoBrk, FindOverlap;
    DoBrkKeepsFrontier(h.os, allocs, h.os.cur - b.size);
  }

  lemma AboveHeap(h: Heap, b: Block)
    requires Inv(h) && b in SetOf(h.free) + LiveSet(h.live)
    ensures h.os.heap <= b.addr && Frontier(h.os) && h.os.heap > 0
  {
  }

  lemma TrimLowers(h: Heap, allocs: seq<Span>)
    requires TrimReady(h, 0)
    ensures var k := EndingAt(h.free, h.end);
            match TrimFrom(h, allocs, 0)
            case Ok(h') =>
              if k == |h.free| then h' == h
              else
                && !FindOverlap(allocs, Span(h.free[k].addr + h.slack, h.os.cur, 0))
                && h'.free == Without(h.free, k) && h'.end == h.free[k].addr && h'.live == h.live && h'.slack == h.slack
                && h'.os.cur == h.free[k].addr + h.slack && h'.os.ups == h.os.ups
                && h'.os.given == h.os.given + [Span(h.free[k].addr + h.slack, h.os.cur, 0)]
            case Err(f) =>
              && k < |h.free| && f == StillAllocated
              && FindOverlap(allocs, Span(h.free[k].addr + h.slack, h.os.cur, 0))
  {
    var k := EndingAt(h.free, h.end);
    TrimIsOne(h, allocs);
    if k < |h.free| {
      DropFreeTiled(h, k, h.os);
      assert h.free[k].size > 0 by {
        assert h.free[k] in SetOf(h.free) + LiveSet(h.live);
      }
      hide Tiled, NoneTouch, TrimFrom, EndingAt, DoBrk, FindOverlap;
      DoBrkKeepsFrontier(h.os, allocs, h.os.cur - h.free[k].size);
    }
  }

  // ---------------------------------------------------------------- the place of a merged block

  ghost predicate NoneMeets(fs: seq<Block>, b: Block) {
    forall f <- fs :: !Touches(f, b)
  }

  lemma {:induction false} LeftIsAt(pre: seq<Block>, f: Block, post: seq<Block>, b: Block)
    requires f.End() == b.addr && forall g <- pre :: g.End() != b.addr
    ensures LeftOf(pre + [f] + post, b, 0) == |pre|
  {
    var free, k := pre + [f] + post, LeftOf(pre + [f] + post, b, 0);
    assert free[|pre|] == f;
    assert forall j | 0 <= j < |pre| :: free[j] == pre[j];
  }

  lemma {:induction false} RightIsAt(pre: seq<Block>, f: Block, post: seq<Block>, b: Block)
    requires f.addr == b.End() && forall g <- pre :: g.addr != b.End()
    ensures RightOf(pre + [f] + post, b, 0) == |pre|
  {
    var free, k := pre + [f] + post, RightOf(pre + [f] + post, b, 0);
    assert free[|pre|] == f;
    assert forall j | 0 <= j < |pre| :: free[j] == pre[j];
  }

  /** Between two free blocks: the merged block stands where the left one stood, whichever of
      the two comes first, and the others keep their order. */
  lemma MergePlacesBoth(pre: seq<Block>, l: Block, mid: seq<Block>, r: Block, post: seq<Block>, b: Block)
    requires l.End() == b.addr && r.addr == b.End() && l.size > 0 && b.size > 0 && r.size > 0
    requires NoneMeets(pre, b) && NoneMeets(mid, b) && NoneMeets(post, b)
    ensures var m := Block(l.addr, l.size + b.size + r.size);
            && Merge(pre + [l] + mid + [r] + post, b) == pre + [m] + mid + post
            && Merge(pre + [r] + mid + [l] + post, b) == pre + mid + [m] + post
  {
    BothInOrder(pre, l, mid, r, post, b);
    BothReversed(pre, l, mid, r, post, b);
  }

  lemma BothInOrder(pre: seq<Block>, l: Block, mid: seq<Block>, r: Block, post: seq<Block>, b: Block)
    requires l.End() == b.addr && r.addr == b.End() && l.size > 0 && b.size > 0 && r.size > 0
    requires NoneMeets(pre, b) && NoneMeets(mid, b) && NoneMeets(post, b)
    ensures Merge(pre + [l] + mid + [r] + post, b) == pre + [Block(l.addr, l.size + b.size + r.size)] + mid + post
  {
    var free := pre + [l] + mid + [r] + post;
    assert free == pre + [l] + (mid + [r] + post) && free == (pre + [l] + mid) + [r] + post;
    LeftIsAt(pre, l, mid + [r] + post, b);
    RightIsAt(pre + [l] + mid, r, post, b);
    hide LeftOf, RightOf;
    assert free[|pre|] == l && free[|pre| + 1 + |mid|] == r;
  }

  lemma BothReversed(pre: seq<Block>, l: Block, mid: seq<Block>, r: Block, post: seq<Block>, b: Block)
    requires l.End() == b.addr && r.addr == b.End() && l.size > 0 && b.size > 0 && r.size > 0
    requires NoneMeets(pre, b) && NoneMeets(mid, b) && NoneMeets(post, b)
    ensures Merge(pre + [r] + mid + [l] + post, b) == pre + mid + [Block(l.addr, l.size + b.size + r.size)] + post
  {
    var free := pre + [r] + mid + [l] + post;
    assert free == pre + [r] + (mid + [l] + post) && free == (pre + [r] + mid) + [l] + post;
    RightIsAt(pre, r, mid + [l] + post, b);
    LeftIsAt(pre + [r] + mid, l, post, b);
    hide LeftOf, RightOf;
    assert free[|pre|] == r && free[|pre| + 1 + |mid|] == l;
  }

  lemma NoNeighbour(free: seq<Block>, b: Block)
    ensures (forall f <- free :: f.End() != b.addr) ==> LeftOf(free, b, 0) == |free|
    ensures (forall f <- free :: f.addr != b.End()) ==> RightOf(free, b, 0) == |free|
  {
    var l, r := LeftOf(free, b, 0), RightOf(free, b, 0);
    assert l < |free| ==> free[l] in free;
    assert r < |free| ==> free[r] in free;
  }

  /** With one free neighbour the merged block stands where that one stood. */
  lemma MergePlacesLeft(pre: seq<Block>, l: Block, post: seq<Block>, b: Block)
    requires l.End() == b.addr && l.size > 0 && b.size > 0 && NoneMeets(pre, b) && NoneMeets(post, b)
    ensures Merge(pre + [l] + post, b) == pre + [Block(l.addr, l.size + b.size)] + post
  {
    var free := pre + [l] + post;
    LeftIsAt(pre, l, post, b);
    assert forall f :: f in free ==> f in pre || f == l || f in post;
    NoNeighbour(free, b);
    assert free[|pre|] == l;
    hide LeftOf, RightOf;
  }

  lemma MergePlacesRight(pre: seq<Block>, r: Block, post: seq<Block>, b: Block)
    requires r.addr == b.End() && r.size > 0 && b.size > 0 && NoneMeets(pre, b) && NoneMeets(post, b)
    ensures Merge(pre + [r] + post, b) == pre + [Block(b.addr, b.size + r.size)] + post
  {
    var free := pre + [r] + post;
    RightIsAt(pre, r, post, b);
    assert forall f :: f in free ==> f in pre || f == r || f in post;
    NoNeighbour(free, b);
    assert free[|pre|] == r;
    hide LeftOf, RightOf;
  }

  /** With none the block goes to the front. */
  lemma MergePlacesFront(free: seq<Block>, b: Block)
    requires NoneMeets(free, b)
    ensures Merge(free, b) == [b] + free
  {
    NoNeighbour(free, b);
    hide LeftOf, RightOf;
  }

  // ---------------------------------------------------------------- batching

  function Total(size: nat): nat {
    if size == 0 then 0 else SizeAlign(size + 8)
  }

  function TotalOf(sizes: seq<nat>): nat {
    if sizes == [] then 0 else Total(sizes[0]) + TotalOf(sizes[1..])
  }

  function AllocateAll(h: Heap, sizes: seq<nat>): Result<Heap>
    decreases |sizes|
  {
    if sizes == [] then Ok(h)
    else
      var (h', _) :- Malloc(h, [], sizes[0]);
      AllocateAll(h', sizes[1..])
  }

  /** Nothing was freed yet and the growths add up. */
  ghost predicate Batched(h: Heap) {
    && Accounted(h) && h.free == [] && h.slack < 8192
    && h.os.ups * 8192 == h.Top() - h.os.heap + h.slack
  }

  lemma BatchedStep(h: Heap, size: nat)
    requires Batched(h) && Total(size) <= 8192
    ensures match Malloc(h, [], size)
            case Ok((h', _)) =>
              Batched(h') && h'.os.heap == h.os.heap && h'.Top() == h.Top() + Total(size)
            case Err(_) => true
  {
    if size > 0 {
      GrowAccounted(h, [], Total(size));
    }
  }

  lemma {:induction false} BatchedRun(h: Heap, sizes: seq<nat>)
    requires Batched(h) && forall s <- sizes :: Total(s) <= 8192
    ensures match AllocateAll(h, sizes)
            case Ok(h') => Batched(h') && h'.os.heap == h.os.heap && h'.Top() == h.Top() + TotalOf(sizes)
            case Err(_) => true
    decreases |sizes|
  {
    if sizes != [] {
      BatchedStep(h, sizes[0]);
      match Malloc(h, [], sizes[0])
      case Ok((h', _)) => BatchedRun(h', sizes[1..]);
      case Err(_) =>
    }
  }

  /** A run of allocations of at most 8192 bytes each grows the heap as rarely as growths of
      8192 bytes allow: ceil(bytes / 8192) times, never with 8192 bytes of slack left over. */
  lemma BatchingOptimal(heap: nat, limit: nat, sizes: seq<nat>)
    requires heap > 0 && heap % 4096 == 0 && forall s <- sizes :: Total(s) <= 8192
    ensures match AllocateAll(InitHeap(heap, limit), sizes)
            case Ok(h') => h'.os.ups == (TotalOf(sizes) + 8191) / 8192 && h'.slack < 8192 && h'.os.downs == 0
            case Err(_) => true
  {
    InitInv(heap, limit);
    BatchedRun(InitHeap(heap, limit), sizes);
    NeverLowered(InitHeap(heap, limit), sizes);
  }

  lemma {:induction false} NeverLowered(h: Heap, sizes: seq<nat>)
    ensures match AllocateAll(h, sizes) case Ok(h') => h'.os.downs == h.os.downs case Err(_) => true
    decreases |sizes|
  {
    if sizes != [] {
      match Malloc(h, [], sizes[0])
      case Ok((h', _)) => NeverLowered(h', sizes[1..]);
      case Err(_) =>
    }
  }

  // ---------------------------------------------------------------- freeing behind a damaged header

  lemma {:induction false} TrimOnlyLowers(h: Heap, allocs: seq<Span>, i: nat)
    requires i <= |h.free|
    ensures match TrimFrom(h, allocs, i) case Ok(h') => h'.os.cur <= h.os.cur case Err(_) => true
    decreases |h.free| - i
  {
    if i < |h.free| {
      var b := h.free[i];
      if b.End() == h.end {
        match DoBrk(h.os, allocs, h.os.cur - b.size)
        case Err(_) =>
        case Ok(os) => TrimOnlyLowers(h.(free := Without(h.free, i), end := b.addr, os := os), allocs, i);
      } else {
        TrimOnlyLowers(h, allocs, i + 1);
      }
    }
  }

  /** If the header of the last block holds `v`, kufree lowers the break exactly when `v` is its
      size; with any other value it succeeds, leaves the break alone and lists the block. */
  lemma LastFreeIff(h: Heap, allocs: seq<Span>, a: nat, v: nat)
    requires Inv(h) && a in h.live && a + h.live[a] == h.end
    ensures match Free(h.(live := h.live[a := v]), allocs, a + 8)
            case Ok(h') =>
              && (h'.os == h.os <==> v != h.live[a])
              && (v != h.live[a] ==> h'.free == Merge(h.free, Block(a, v)) && h'.end == h.end)
            case Err(f) => v == h.live[a]
  {
    hide Inv, Merge, TrimFrom;
    var size := h.live[a];
    var damaged := h.(live := h.live[a := v]);
    var rest := damaged.(live := damaged.live - {a});
    NoneEndsAtTop(h);
    LiveIsBlock(h, a);
    BlocksInside(h, Block(a, size));
    if v == size {
      match DoBrk(h.os, allocs, h.os.cur - size)
      case Err(_) =>
      case Ok(os) => TrimOnlyLowers(rest.(end := a, os := os), allocs, 0);
    } else {
      TrimNoop(rest, allocs, 0);
    }
  }

  // ---------------------------------------------------------------- first calls on a fresh heap

  /** A heap at 4096 after its first growth by 8192 bytes. */
  function Grown(free: seq<Block>, live: map<nat, nat>, end: nat, slack: nat): Heap {
    Heap(free, live, end, slack, Os(4096, 12288, 65536, 1, 0, PageSpan(4096, 12288), []))
  }

  lemma GrownLive(free: seq<Block>, live: map<nat, nat>, end: nat, slack: nat)
    ensures Grown(free, live, end, slack).live == live
  {
  }

  lemma FirstGrowth(allocs: seq<Span>, size: nat)
    requires 0 < size && SizeAlign(size + 8) <= 8192
    ensures var total := SizeAlign(size + 8);
            Malloc(InitHeap(4096, 65536), allocs, size) ==
            Ok((Grown([], map[4096 := total], 4096 + total, 8192 - total), 4104))
  {
    assert {} + PageSpan(4096, 12288) == PageSpan(4096, 12288);
    assert AlignUp(4096) == 4096 && AlignUp(12288) == 12288;
  }

  lemma TakenFromSlack(allocs: seq<Span>, live: map<nat, nat>, end: nat, slack: nat, size: nat)
    requires 0 < size && SizeAlign(size + 8) <= slack
    ensures var total := SizeAlign(size + 8);
            Malloc(Grown([], live, end, slack), allocs, size) ==
            Ok((Grown([], live[end := total], end + total, slack - total), end + 8))
  {
    hide SizeAlign, Capacity;
  }

  /** A block without free neighbours, not the last, goes to the front of the list. */
  lemma PushedFree(allocs: seq<Span>, h: Heap, a: nat)
    requires a in h.live && a + h.live[a] != h.end
    requires forall f <- h.free :: f.End() != h.end && f.End() != a && f.addr != a + h.live[a]
    ensures Free(h, allocs, a + 8) == Ok(h.(free := [Block(a, h.live[a])] + h.free, live := h.live - {a}))
  {
    hide DoBrk, TrimFrom;
    TrimNoop(h.(live := h.live - {a}), allocs, 0);
    var b := Block(a, h.live[a]);
    assert LeftOf(h.free, b, 0) == |h.free| && RightOf(h.free, b, 0) == |h.free|;
  }

  lemma FirstFreed(allocs: seq<Span>, live: map<nat, nat>, end: nat, slack: nat, a: nat)
    requires a in live && a + live[a] != end
    ensures Free(Grown([], live, end, slack), allocs, a + 8) ==
            Ok(Grown([Block(a, live[a])], live - {a}, end, slack))
  {
    hide Free;
    PushedFree(allocs, Grown([], live, end, slack), a);
    assert [Block(a, live[a])] + [] == [Block(a, live[a])];
  }
}
