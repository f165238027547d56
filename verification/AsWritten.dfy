/** kumalloc and kufree with the list surgery as the source has it, on values: what each store
    and each access of that code does to a heap whose list is well linked, and exactly when the
    result is the one of HeapSpec.dfy. FreeList.dfy has the surgery itself on linked nodes. */
module AsWritten {
  import opened Base
  import opened Blocks
  import opened Spans
  import opened Break
  import opened HeapSpec
  import opened HeapLaws
  import FreeList

  // ---------------------------------------------------------------- links in small blocks

  function Put(m: map<nat, nat>, on: bool, x: nat, v: nat): map<nat, nat> {
    if on then m[x := v] else m
  }

  /** A list node has `next` at offset 8 and `prev` at offset 16, but a free block may have
      only 8 or 16 bytes: then the link is stored over the header of the block behind it. */
  predicate Overruns(h: Heap, b: Block, offset: nat) {
    b.size == offset && b.End() in h.live
  }

  function LinkStore(h: Heap, b: Block, offset: nat, v: nat): Heap {
    h.(live := Put(h.live, Overruns(h, b, offset), b.End(), v))
  }

  /** The link fits into the block, or the header holds that value already. */
  predicate LinkFits(h: Heap, b: Block, offset: nat, v: nat) {
    Overruns(h, b, offset) ==> h.live[b.End()] == v
  }

  /** The block after a free block is always a live one. */
  lemma FollowerIsLive(h: Heap, k: nat)
    requires Inv(h) && k < |h.free|
    ensures h.free[k].End() in h.live
  {
    var b := h.free[k];
    var bs := SetOf(h.free) + LiveSet(h.live);
    assert b in SetOf(h.free) && b in bs;
    assert Covered(bs, b.End());
    var c :| c in bs && Holds(c, b.End());
    assert Apart(b, c);
    assert c.addr == b.End();
    assert c !in SetOf(h.free);
  }

  lemma LinkFitsIff(h: Heap, b: Block, offset: nat, v: nat)
    ensures LinkStore(h, b, offset, v) == h <==> LinkFits(h, b, offset, v)
  {
    if Overruns(h, b, offset) && h.live[b.End()] == v {
      assert h.live[b.End() := v] == h.live;
    }
  }

  lemma SizesAndAddrs(h: Heap, a: nat, k: nat)
    requires Inv(h) && a in h.live && k < |h.free|
    ensures 0 < h.live[a] <= h.os.limit && h.os.heap <= h.free[k].addr
  {
    assert Block(a, h.live[a]) in SetOf(h.free) + LiveSet(h.live);
    assert h.free[k] in SetOf(h.free) + LiveSet(h.live);
  }

  /** A store to a link of a listed node keeps the heap invariant exactly when the block is
      wide enough for it or the header happens to hold that value; where addresses are larger
      than sizes a pointer or NULL never is that value. */
  lemma LinkStoreIff(h: Heap, k: nat, offset: nat, v: nat)
    requires Inv(h) && k < |h.free|
    ensures h.free[k].End() in h.live
    ensures Inv(LinkStore(h, h.free[k], offset, v)) <==> h.free[k].size != offset || v == h.live[h.free[k].End()]
    ensures h.os.limit < h.os.heap && (v == 0 || v >= h.os.heap) ==>
              (Inv(LinkStore(h, h.free[k], offset, v)) <==> h.free[k].size != offset)
  {
    hide Inv;
    FollowerIsLive(h, k);
    HeaderIff(h, h.free[k].End(), v);
    SizesAndAddrs(h, h.free[k].End(), k);
  }

  // ---------------------------------------------------------------- kumalloc

  /** What the stores of lines 98-126 leave in the eight bytes behind the block taken when the
      remainder is shorter than a list node: the size on an exact fit, `next` behind eight
      bytes, `prev` behind sixteen (which a first block of 16 + 16 bytes lost to line 101). */
  function StoredBehind(h: Heap, k: nat, total: nat): nat
    requires k < |h.free| && h.free[k].size >= total
  {
    var rest := h.free[k].size - total;
    if rest == 0 then 0
    else if rest == 8 then NextAddr(h.free, k)
    else if k > 0 then h.free[k - 1].addr
    else if total == 16 then 16 else 0
  }

  /** The `next` of node `k`. */
  function NextAddr(free: seq<Block>, k: nat): nat {
    if k + 1 < |free| then free[k + 1].addr else 0
  }

  /** Line 125 or 131: the `next` of the node before, which has to be as wide as that. */
  function PredecessorNext(h: Heap, k: nat, total: nat): nat
    requires k < |h.free| && h.free[k].size >= total
  {
    if h.free[k].size > total then h.free[k].addr + total else NextAddr(h.free, k)
  }

  /** Line 113, 124 or 130: the `prev` of the node behind. Line 107 forgets it. */
  function SuccessorPrev(h: Heap, k: nat, total: nat): nat
    requires k < |h.free| && h.free[k].size >= total
  {
    if h.free[k].size > total then h.free[k].addr + total else if k > 0 then h.free[k - 1].addr else 0
  }

  predicate SpillsBehind(h: Heap, k: nat, total: nat)
    requires k < |h.free| && h.free[k].size >= total
  {
    h.free[k].size - total < 24 && h.free[k].End() in h.live
  }

  predicate HitsSuccessor(h: Heap, k: nat, total: nat)
    requires k < |h.free| && h.free[k].size >= total
  {
    k + 1 < |h.free| && (k > 0 || h.free[k].size == total) && Overruns(h, h.free[k + 1], 16)
  }

  predicate HitsPredecessor(h: Heap, k: nat)
    requires k < |h.free|
  {
    0 < k && Overruns(h, h.free[k - 1], 8)
  }

  /** Where the block behind the free block at `i` starts. */
  function Behind(h: Heap, i: int): nat {
    if 0 <= i < |h.free| then h.free[i].End() else 0
  }

  /** The headers after all stores of the reuse. */
  function ReusedHeaders(h: Heap, k: nat, total: nat): map<nat, nat>
    requires k < |h.free| && h.free[k].size >= total
  {
    var live := Reuse(h, k, total).live;
    Put(Put(Put(live,
                SpillsBehind(h, k, total), Behind(h, k), StoredBehind(h, k, total)),
            HitsSuccessor(h, k, total), Behind(h, k + 1), SuccessorPrev(h, k, total)),
        HitsPredecessor(h, k), Behind(h, k - 1), PredecessorNext(h, k, total))
  }

  /** Lines 93-141 as they stand: a last block that is not the first follows a missing
      successor; a remainder that cannot hold a node spills over the header behind it, and so
      do the links stored into small nodes before and behind the block in the list. */
  function ReuseAsWritten(h: Heap, k: nat, total: nat): Result<Heap>
    requires k < |h.free| && h.free[k].size >= total
  {
    if 0 < k == |h.free| - 1 then Err(PageFault)
    else Ok(Reuse(h, k, total).(live := ReusedHeaders(h, k, total)))
  }

  /** No store of the reuse changes a header, apart from the one of the block taken. */
  predicate ReuseHarmless(h: Heap, k: nat, total: nat)
    requires k < |h.free| && h.free[k].size >= total
  {
    && !(0 < k == |h.free| - 1)
    && (SpillsBehind(h, k, total) ==> h.live[Behind(h, k)] == StoredBehind(h, k, total))
    && (HitsSuccessor(h, k, total) ==> h.live[Behind(h, k + 1)] == SuccessorPrev(h, k, total))
    && (HitsPredecessor(h, k) ==> h.live[Behind(h, k - 1)] == PredecessorNext(h, k, total))
  }

  lemma PutThree(m: map<nat, nat>, p: bool, x: nat, u: nat, q: bool, y: nat, v: nat, r: bool, z: nat, w: nat)
    requires (p ==> x in m) && (q ==> y in m) && (r ==> z in m)
    requires (p && q ==> x != y) && (p && r ==> x != z) && (q && r ==> y != z)
    ensures var m' := Put(Put(Put(m, p, x, u), q, y, v), r, z, w);
            m'.Keys == m.Keys && (m' == m <==> (p ==> m[x] == u) && (q ==> m[y] == v) && (r ==> m[z] == w))
  {
    var m' := Put(Put(Put(m, p, x, u), q, y, v), r, z, w);
    assert p ==> m'[x] == u;
    assert q ==> m'[y] == v;
    assert r ==> m'[z] == w;
  }

  lemma EndsDistinct(h: Heap, i: nat, j: nat)
    requires Inv(h) && i < j < |h.free|
    ensures h.free[i].End() != h.free[j].End()
  {
    assert h.free[i] in SetOf(h.free) && h.free[j] in SetOf(h.free);
    TwoApart(h, h.free[i], h.free[j]);
    BlocksInside(h, h.free[i]);
    BlocksInside(h, h.free[j]);
  }

  /** The reuse leaves the headers behind free blocks alone. */
  lemma ReuseKeepsHeader(h: Heap, k: nat, total: nat, a: nat)
    requires Inv(h) && k < |h.free| && 0 < total <= h.free[k].size && a in h.live
    ensures a in Reuse(h, k, total).live && Reuse(h, k, total).live[a] == h.live[a]
  {
    FreeBlockNotLive(h, k);
  }

  lemma ReusedHeadersIff(h: Heap, k: nat, total: nat)
    requires Inv(h) && k < |h.free| && 0 < total <= h.free[k].size && !(0 < k == |h.free| - 1)
    ensures ReusedHeaders(h, k, total).Keys == Reuse(h, k, total).live.Keys
    ensures ReusedHeaders(h, k, total) == Reuse(h, k, total).live <==> ReuseHarmless(h, k, total)
  {
    hide Inv, Reuse, Put, StoredBehind, SuccessorPrev, PredecessorNext;
    FollowerIsLive(h, k);
    ReuseKeepsHeader(h, k, total, Behind(h, k));
    if k + 1 < |h.free| {
      FollowerIsLive(h, k + 1);
      ReuseKeepsHeader(h, k, total, Behind(h, k + 1));
      EndsDistinct(h, k, k + 1);
    }
    if k > 0 {
      FollowerIsLive(h, k - 1);
      ReuseKeepsHeader(h, k, total, Behind(h, k - 1));
      EndsDistinct(h, k - 1, k);
    }
    if 0 < k < |h.free| - 1 {
      EndsDistinct(h, k - 1, k + 1);
    }
    PutThree(Reuse(h, k, total).live,
             SpillsBehind(h, k, total), Behind(h, k), StoredBehind(h, k, total),
             HitsSuccessor(h, k, total), Behind(h, k + 1), SuccessorPrev(h, k, total),
             HitsPredecessor(h, k), Behind(h, k - 1), PredecessorNext(h, k, total));
  }

  /** Reuse as written either dereferences NULL, exactly for a last block that is not first,
      or does what was meant and keeps the heap invariant exactly when every store that misses
      its node happens to store what is there. */
  lemma ReuseAsWrittenIff(h: Heap, k: nat, size: nat)
    requires Inv(h) && size > 0 && Fits(h, k, size)
    ensures match ReuseAsWritten(h, k, SizeAlign(size + 8))
            case Err(_) => 0 < k == |h.free| - 1
            case Ok(h') =>
              && !(0 < k == |h.free| - 1)
              && (h' == Reuse(h, k, SizeAlign(size + 8)) <==> ReuseHarmless(h, k, SizeAlign(size + 8)))
              && (Inv(h') <==> ReuseHarmless(h, k, SizeAlign(size + 8)))
  {
    var total := SizeAlign(size + 8);
    hide Inv, Reuse, ReusedHeaders, ReuseHarmless;
    if !(0 < k == |h.free| - 1) {
      ReuseInv(h, k, total);
      ReusedHeadersIff(h, k, total);
      HeadersIff(Reuse(h, k, total), ReusedHeaders(h, k, total));
      assert ReuseAsWritten(h, k, total) == Ok(Reuse(h, k, total).(live := ReusedHeaders(h, k, total)));
    } else {
      assert ReuseAsWritten(h, k, total) == Err(PageFault);
    }
  }

  // What the headers hold afterwards, in terms of the list alone.

  /** Everything but headers is as the reuse leaves it, and no header appears or vanishes but
      that of the block taken. */
  lemma ReusedRest(h: Heap, k: nat, total: nat)
    requires Inv(h) && k < |h.free| && 0 < total <= h.free[k].size && !(0 < k == |h.free| - 1)
    ensures var r, b := ReuseAsWritten(h, k, total), h.free[k];
            && r.Ok? && r.value.end == h.end && r.value.slack == h.slack && r.value.os == h.os
            && r.value.free == (if b.size > total then h.free[k := Block(b.addr + total, b.size - total)]
                                else Without(h.free, k))
            && r.value.live.Keys == h.live.Keys + {b.addr}
  {
    ReusedHeadersIff(h, k, total);
    hide Inv, ReusedHeaders, ReuseHarmless;
  }

  lemma PutThreeAt(m: map<nat, nat>, p: bool, x: nat, u: nat, q: bool, y: nat, v: nat, r: bool, z: nat, w: nat)
    requires (p ==> x in m) && (q ==> y in m) && (r ==> z in m)
    requires (q ==> x != y) && (r ==> x != z && y != z) && (p ==> y != x && z != x) && (q ==> z != y)
    ensures var m' := Put(Put(Put(m, p, x, u), q, y, v), r, z, w);
            && (x in m ==> x in m' && m'[x] == if p then u else m[x])
            && (y in m ==> y in m' && m'[y] == if q then v else m[y])
            && (z in m ==> z in m' && m'[z] == if r then w else m[z])
            && (forall a <- m | a != x && a != y && a != z :: a in m' && m'[a] == m[a])
  {
  }

  lemma ReusedAt(h: Heap, k: nat, total: nat)
    requires Inv(h) && k < |h.free| && 0 < total <= h.free[k].size && !(0 < k == |h.free| - 1)
    ensures ReuseAsWritten(h, k, total).Ok?
    ensures h.free[k].End() in h.live && h.free[k].End() in ReuseAsWritten(h, k, total).value.live
    ensures var live := ReuseAsWritten(h, k, total).value.live;
            live[h.free[k].End()] ==
            if SpillsBehind(h, k, total) then StoredBehind(h, k, total) else h.live[h.free[k].End()]
    ensures k + 1 < |h.free| ==>
              var e, live := h.free[k + 1].End(), ReuseAsWritten(h, k, total).value.live;
              && e in h.live && e in live
              && live[e] == if HitsSuccessor(h, k, total) then SuccessorPrev(h, k, total) else h.live[e]
    ensures k > 0 ==>
              var e, live := h.free[k - 1].End(), ReuseAsWritten(h, k, total).value.live;
              && e in h.live && e in live
              && live[e] == if HitsPredecessor(h, k) then PredecessorNext(h, k, total) else h.live[e]
  {
    hide Inv, Reuse, Put, StoredBehind, SuccessorPrev, PredecessorNext;
    ReusedPuts(h, k, total);
    FollowerIsLive(h, k);
    ReuseKeepsHeader(h, k, total, Behind(h, k));
    if k + 1 < |h.free| {
      FollowerIsLive(h, k + 1);
      ReuseKeepsHeader(h, k, total, Behind(h, k + 1));
    }
    if k > 0 {
      FollowerIsLive(h, k - 1);
      ReuseKeepsHeader(h, k, total, Behind(h, k - 1));
    }
  }

  lemma ReusedPuts(h: Heap, k: nat, total: nat)
    requires Inv(h) && k < |h.free| && 0 < total <= h.free[k].size && !(0 < k == |h.free| - 1)
    ensures var m, m' := Reuse(h, k, total).live, ReusedHeaders(h, k, total);
            var x, y, z := Behind(h, k), Behind(h, k + 1), Behind(h, k - 1);
            && (x in m ==> x in m' && m'[x] == if SpillsBehind(h, k, total) then StoredBehind(h, k, total) else m[x])
            && (y in m ==> y in m' && m'[y] == if HitsSuccessor(h, k, total) then SuccessorPrev(h, k, total) else m[y])
            && (z in m ==> z in m' && m'[z] == if HitsPredecessor(h, k) then PredecessorNext(h, k, total) else m[z])
            && (forall a <- m | a != x && a != y && a != z :: a in m' && m'[a] == m[a])
  {
    hide Inv, Reuse, Put, StoredBehind, SuccessorPrev, PredecessorNext;
    FlagFacts(h, k, total);
    hide SpillsBehind, HitsSuccessor, HitsPredecessor, Behind;
    PutThreeAt(Reuse(h, k, total).live,
               SpillsBehind(h, k, total), Behind(h, k), StoredBehind(h, k, total),
               HitsSuccessor(h, k, total), Behind(h, k + 1), SuccessorPrev(h, k, total),
               HitsPredecessor(h, k), Behind(h, k - 1), PredecessorNext(h, k, total));
  }

  lemma FlagFacts(h: Heap, k: nat, total: nat)
    requires Inv(h) && k < |h.free| && 0 < total <= h.free[k].size && !(0 < k == |h.free| - 1)
    ensures var m, x, y, z := Reuse(h, k, total).live, Behind(h, k), Behind(h, k + 1), Behind(h, k - 1);
            && x in m && x != y && x != z
            && (HitsSuccessor(h, k, total) ==> y in m && y != z) && (HitsPredecessor(h, k) ==> z in m && y != z)
  {
    EndsPositive(h, k);
    hide Inv, Reuse;
    FollowerIsLive(h, k);
    ReuseKeepsHeader(h, k, total, Behind(h, k));
    if k + 1 < |h.free| {
      FollowerIsLive(h, k + 1);
      ReuseKeepsHeader(h, k, total, Behind(h, k + 1));
      EndsDistinct(h, k, k + 1);
      EndsPositive(h, k + 1);
    }
    if k > 0 {
      FollowerIsLive(h, k - 1);
      ReuseKeepsHeader(h, k, total, Behind(h, k - 1));
      EndsDistinct(h, k - 1, k);
      EndsPositive(h, k - 1);
    }
    if 0 < k < |h.free| - 1 {
      EndsDistinct(h, k - 1, k + 1);
    }
  }

  lemma EndsPositive(h: Heap, k: nat)
    requires Inv(h) && k < |h.free|
    ensures h.free[k].End() > 0
  {
    assert h.free[k] in SetOf(h.free) + LiveSet(h.live);
  }

  lemma HeadersAboveHeap(h: Heap, k: nat, a: nat)
    requires Inv(h) && k < |h.free| && (a == h.free[k].addr || a in h.live)
    ensures a > 0 && h.free[k].addr !in h.live
  {
    FreeBlockNotLive(h, k);
    assert h.free[k] in SetOf(h.free) + LiveSet(h.live);
    if a in h.live {
      LiveIsBlock(h, a);
    }
  }

  lemma ReusedElsewhere(h: Heap, k: nat, total: nat, a: nat)
    requires Inv(h) && k < |h.free| && 0 < total <= h.free[k].size && !(0 < k == |h.free| - 1)
    requires a in Reuse(h, k, total).live && a != 0
    requires a != h.free[k].End() && (k + 1 < |h.free| ==> a != h.free[k + 1].End())
    requires k > 0 ==> a != h.free[k - 1].End()
    ensures var live := ReuseAsWritten(h, k, total).value.live; a in live && live[a] == Reuse(h, k, total).live[a]
  {
    hide Inv, Reuse, Put, StoredBehind, SuccessorPrev, PredecessorNext;
    ReusedPuts(h, k, total);
  }

  /** The header behind the block taken: 0 on an exact fit, the address of the next list entry
      behind a remainder of 8, that of the entry before behind one of 16. */
  lemma HeaderBehind(h: Heap, k: nat, total: nat)
    requires Inv(h) && k < |h.free| && 0 < total <= h.free[k].size && !(0 < k == |h.free| - 1)
    ensures var b, n := h.free[k], |h.free|;
            var live := ReuseAsWritten(h, k, total).value.live;
            && b.End() in h.live && b.End() in live
            && (b.size == total ==> live[b.End()] == 0)
            && (b.size == total + 8 && k + 1 < n ==> live[b.End()] == h.free[k + 1].addr)
            && (b.size == total + 8 && k + 1 == n ==> live[b.End()] == 0)
            && (b.size == total + 16 && k > 0 ==> live[b.End()] == h.free[k - 1].addr)
            && (b.size == total + 16 && k == 0 ==> live[b.End()] == if total == 16 then 16 else 0)
            && (b.size >= total + 24 ==> live[b.End()] == h.live[b.End()])
  {
    hide Inv, Reuse, ReusedHeaders, ReuseAsWritten, HitsSuccessor, HitsPredecessor;
    ReusedAt(h, k, total);
  }

  /** The header behind the next list entry, when that has 16 bytes: the address of what takes
      the place of the block taken, unless line 107 forgets it. */
  lemma HeaderBehindSuccessor(h: Heap, k: nat, total: nat)
    requires Inv(h) && k + 1 < |h.free| && 0 < total <= h.free[k].size
    ensures var b, s := h.free[k], h.free[k + 1];
            var live := ReuseAsWritten(h, k, total).value.live;
            && s.End() in h.live && s.End() in live
            && (s.size == 16 && b.size > total && k > 0 ==> live[s.End()] == b.addr + total)
            && (s.size == 16 && b.size == total && k > 0 ==> live[s.End()] == h.free[k - 1].addr)
            && (s.size == 16 && b.size == total && k == 0 ==> live[s.End()] == 0)
            && (s.size != 16 || (k == 0 && b.size > total) ==> live[s.End()] == h.live[s.End()])
  {
    hide Inv, Reuse, ReusedHeaders, ReuseAsWritten, SpillsBehind, HitsPredecessor, StoredBehind;
    ReusedAt(h, k, total);
  }

  /** The header behind the list entry before, when that has 8 bytes: the address of what
      follows now. */
  lemma HeaderBehindPredecessor(h: Heap, k: nat, total: nat)
    requires Inv(h) && 0 < k < |h.free| - 1 && 0 < total <= h.free[k].size
    ensures var b, p := h.free[k], h.free[k - 1];
            var live := ReuseAsWritten(h, k, total).value.live;
            && p.End() in h.live && p.End() in live
            && (p.size == 8 && b.size > total ==> live[p.End()] == b.addr + total)
            && (p.size == 8 && b.size == total ==> live[p.End()] == h.free[k + 1].addr)
            && (p.size != 8 ==> live[p.End()] == h.live[p.End()])
  {
    hide Inv, Reuse, ReusedHeaders, ReuseAsWritten, SpillsBehind, HitsSuccessor, StoredBehind, SuccessorPrev;
    ReusedAt(h, k, total);
  }

  /** The block taken gets its size, and every other header is kept. */
  lemma OtherHeaders(h: Heap, k: nat, total: nat, a: nat)
    requires Inv(h) && k < |h.free| && 0 < total <= h.free[k].size && !(0 < k == |h.free| - 1)
    requires a == h.free[k].addr || a in h.live
    requires a != h.free[k].End() && (k + 1 < |h.free| ==> a != h.free[k + 1].End())
    requires k > 0 ==> a != h.free[k - 1].End()
    ensures var live := ReuseAsWritten(h, k, total).value.live;
            a in live && live[a] == if a == h.free[k].addr then total else h.live[a]
  {
    hide Inv, ReusedHeaders, ReuseAsWritten, SpillsBehind, HitsSuccessor, HitsPredecessor;
    ReusedAt(h, k, total);
    HeadersAboveHeap(h, k, a);
    ReusedElsewhere(h, k, total, a);
  }

  /** The remainder holds a node, or a first block of 32 bytes is split in half before a block
      of 16. */
  predicate RoomBehind(h: Heap, k: nat, total: nat)
    requires k < |h.free| && h.free[k].size >= total && h.free[k].End() in h.live
  {
    || h.free[k].size - total >= 24
    || (k == 0 && total == 16 && h.free[k].size == 32 && h.live[h.free[k].End()] == 16)
  }

  /** The node behind has room for `prev`, unless line 107 forgets it. */
  predicate RoomInSuccessor(h: Heap, k: nat, total: nat)
    requires k < |h.free|
  {
    k + 1 < |h.free| && (k > 0 || h.free[k].size == total) ==> h.free[k + 1].size != 16
  }

  /** The node before has room for `next`. */
  predicate RoomInPredecessor(h: Heap, k: nat)
    requires k < |h.free|
  {
    k > 0 ==> h.free[k - 1].size != 8
  }

  /** Where addresses are larger than sizes, room for the links is the condition. */
  lemma ReuseAsWrittenCases(h: Heap, k: nat, size: nat)
    requires Inv(h) && size > 0 && Fits(h, k, size) && h.os.limit < h.os.heap
    ensures h.free[k].End() in h.live
    ensures ReuseAsWritten(h, k, SizeAlign(size + 8)) == Ok(Reuse(h, k, SizeAlign(size + 8))) <==>
            && !(0 < k == |h.free| - 1)
            && RoomBehind(h, k, SizeAlign(size + 8))
            && RoomInSuccessor(h, k, SizeAlign(size + 8)) && RoomInPredecessor(h, k)
  {
    var total := SizeAlign(size + 8);
    FollowerIsLive(h, k);
    ReuseAsWrittenIff(h, k, size);
    hide Inv, ReuseAsWritten, SizeAlign, Reuse;
    RoomBehindIff(h, k, size);
    RoomInSuccessorIff(h, k, total);
    RoomInPredecessorIff(h, k, total);
    hide SpillsBehind, HitsSuccessor, HitsPredecessor, RoomBehind, RoomInSuccessor, RoomInPredecessor;
  }

  lemma RoomBehindIff(h: Heap, k: nat, size: nat)
    requires Inv(h) && size > 0 && Fits(h, k, size) && h.os.limit < h.os.heap && h.free[k].End() in h.live
    ensures var total := SizeAlign(size + 8);
            (SpillsBehind(h, k, total) ==> h.live[Behind(h, k)] == StoredBehind(h, k, total)) <==>
            RoomBehind(h, k, total)
  {
    RestIsAligned(h, k, size);
    hide Inv, SizeAlign, StoredBehind;
    if h.free[k].size - SizeAlign(size + 8) < 24 {
      StoredIs(h, k, SizeAlign(size + 8), h.live[h.free[k].End()]);
    }
  }

  lemma RoomInSuccessorIff(h: Heap, k: nat, total: nat)
    requires Inv(h) && k < |h.free| && total <= h.free[k].size && h.os.limit < h.os.heap
    ensures (HitsSuccessor(h, k, total) ==> h.live[Behind(h, k + 1)] == SuccessorPrev(h, k, total)) <==>
            RoomInSuccessor(h, k, total)
  {
    hide Inv, SuccessorPrev, PredecessorNext;
    if k + 1 < |h.free| {
      FollowerIsLive(h, k + 1);
      PointersAreLarge(h, k, total, h.free[k + 1].End());
    }
  }

  lemma RoomInPredecessorIff(h: Heap, k: nat, total: nat)
    requires Inv(h) && k < |h.free| && total <= h.free[k].size && h.os.limit < h.os.heap
    ensures (HitsPredecessor(h, k) ==> h.live[Behind(h, k - 1)] == PredecessorNext(h, k, total)) <==>
            RoomInPredecessor(h, k)
  {
    hide Inv, SuccessorPrev, PredecessorNext;
    if k > 0 {
      FollowerIsLive(h, k - 1);
      PointersAreLarge(h, k, total, h.free[k - 1].End());
    }
  }

  /** A stored link is NULL or larger than any header. */
  lemma PointersAreLarge(h: Heap, k: nat, total: nat, a: nat)
    requires Inv(h) && k < |h.free| && total <= h.free[k].size && h.os.limit < h.os.heap && a in h.live
    ensures SuccessorPrev(h, k, total) != h.live[a] && PredecessorNext(h, k, total) != h.live[a]
  {
    hide Inv;
    SizesAndAddrs(h, a, k);
    if k > 0 {
      SizesAndAddrs(h, a, k - 1);
    }
    if k + 1 < |h.free| {
      SizesAndAddrs(h, a, k + 1);
    }
  }

  lemma StoredIs(h: Heap, k: nat, total: nat, header: nat)
    requires Inv(h) && k < |h.free| && 0 < total <= h.free[k].size && h.os.limit < h.os.heap
    requires h.free[k].End() in h.live && header == h.live[h.free[k].End()]
    requires var rest := h.free[k].size - total; rest == 0 || rest == 8 || rest == 16
    ensures StoredBehind(h, k, total) == header <==>
            k == 0 && total == 16 && h.free[k].size == 32 && header == 16
  {
    hide Inv;
    SizesAndAddrs(h, h.free[k].End(), k);
    if k > 0 {
      SizesAndAddrs(h, h.free[k].End(), k - 1);
    }
    if k + 1 < |h.free| {
      SizesAndAddrs(h, h.free[k].End(), k + 1);
    }
  }

  lemma RestIsAligned(h: Heap, k: nat, size: nat)
    requires Inv(h) && Fits(h, k, size)
    ensures (h.free[k].size - SizeAlign(size + 8)) % 8 == 0
  {
    assert h.free[k] in SetOf(h.free) + LiveSet(h.live);
  }

  function MallocAsWritten(h: Heap, allocs: seq<Span>, size: nat): Result<(Heap, nat)> {
    if size == 0 then Ok((h, 0))
    else
      var total := SizeAlign(size + 8);
      var k := FirstFit(h.free, total, 0);
      if k < |h.free| then
        var h' :- ReuseAsWritten(h, k, total);
        Ok((h', h.free[k].addr + 8))
      else
        var (h', block) :- Grow(h, allocs, total);
        Ok((h', block + 8))
  }

  /** Nothing fits, or the first block that does is reused without harm. */
  predicate MallocHarmless(h: Heap, size: nat) {
    var k := FirstFit(h.free, SizeAlign(size + 8), 0);
    size == 0 || k == |h.free| || ReuseHarmless(h, k, SizeAlign(size + 8))
  }

  /** kumalloc as written is the allocation of HeapSpec exactly then. */
  lemma MallocAsWrittenIff(h: Heap, allocs: seq<Span>, size: nat)
    requires Inv(h)
    ensures MallocAsWritten(h, allocs, size) == Malloc(h, allocs, size) <==> MallocHarmless(h, size)
  {
    var total := SizeAlign(size + 8);
    var k := FirstFit(h.free, total, 0);
    if size > 0 && k < |h.free| {
      ReuseAsWrittenIff(h, k, size);
      NoHarmNoCrash(h, k, total);
      hide *;
      MallocReuses(h, allocs, size);
    }
  }

  lemma MallocReuses(h: Heap, allocs: seq<Span>, size: nat)
    requires size > 0 && FirstFit(h.free, SizeAlign(size + 8), 0) < |h.free|
    ensures var total := SizeAlign(size + 8);
            var k := FirstFit(h.free, total, 0);
            && Malloc(h, allocs, size) == Ok((Reuse(h, k, total), h.free[k].addr + 8))
            && MallocAsWritten(h, allocs, size) ==
               (match ReuseAsWritten(h, k, total)
                case Ok(h') => Ok((h', h.free[k].addr + 8))
                case Err(f) => Err(f))
            && (MallocHarmless(h, size) <==> ReuseHarmless(h, k, total))
  {
    hide SizeAlign, Reuse, ReuseAsWritten, ReuseHarmless;
  }

  lemma NoHarmNoCrash(h: Heap, k: nat, total: nat)
    requires k < |h.free| && h.free[k].size >= total
    ensures ReuseHarmless(h, k, total) ==> !(0 < k == |h.free| - 1)
  {
  }

  // ---------------------------------------------------------------- the reads after the release

  /** After the block of node `b` was given back, lines 198-204 read `next` at offset 8 and,
      unless the node is the first, `prev` at offset 16. */
  predicate NodeReadable(os: Os, b: Block, first: bool) {
    Readable(os, b.addr + 8) && (first || Readable(os, b.addr + 16))
  }

  lemma ReadsIff(os: Os, b: Block, first: bool)
    requires Frontier(os) && os.heap <= b.addr
    ensures NodeReadable(os, b, first) <==> b.addr + (if first then 8 else 16) < AlignUp(os.cur)
  {
    hide Frontier, Readable, AlignUp;
    ReadableIff(os, b.addr + 8);
    ReadableIff(os, b.addr + 16);
  }

  lemma PageStart(x: nat)
    ensures x % 4096 == 0 ==> AlignUp(x) == x
  {
  }

  /** The rounded-up break stays above the last field read of the node at position `i`. */
  predicate ReadsHarmless(h: Heap, i: nat)
    requires i < |h.free|
  {
    h.free[i].addr + (if i == 0 then 8 else 16) < AlignUp(h.free[i].addr + h.slack)
  }

  /** The step that gives back a node's block reads only accessible bytes of it afterwards
      exactly then; with no slack and the block at the start of a page, for instance, it does
      not. */
  lemma ReadAfterReleaseIff(h: Heap, allocs: seq<Span>, i: nat)
    requires TrimReady(h, i) && i < |h.free| && h.free[i].End() == h.end
    ensures var at := h.free[i].addr;
            var last := if i == 0 then at + 8 else at + 16;
            match DoBrk(h.os, allocs, h.os.cur - h.free[i].size)
            case Ok(os) =>
              && (NodeReadable(os, h.free[i], i == 0) <==> last < AlignUp(at + h.slack))
              && (NodeReadable(os, h.free[i], i == 0) <==> ReadsHarmless(h, i))
              && (forall x: nat | at <= x :: Readable(os, x) <==> x < AlignUp(at + h.slack))
            case Err(_) => true
    ensures h.slack == 0 && h.free[i].addr % 4096 == 0 ==> !ReadsHarmless(h, i)
  {
    hide TrimReady, DoBrk, NodeReadable, AlignUp, Frontier, Readable;
    var b := h.free[i];
    ReleasedBreak(h, allocs, i);
    PageStart(b.addr);
    match DoBrk(h.os, allocs, h.os.cur - b.size)
    case Ok(os) =>
      ReadsIff(os, b, i == 0);
      forall x: nat | b.addr <= x ensures Readable(os, x) <==> x < AlignUp(os.cur) {
        ReadableIff(os, x);
      }
    case Err(_) =>
  }

  lemma ReleasedBreak(h: Heap, allocs: seq<Span>, i: nat)
    requires TrimReady(h, i) && i < |h.free| && h.free[i].End() == h.end
    ensures match DoBrk(h.os, allocs, h.os.cur - h.free[i].size)
            case Ok(os) => Frontier(os) && os.heap <= h.free[i].addr && os.cur == h.free[i].addr + h.slack
            case Err(_) => true
  {
    DropFreeTiled(h, i, h.os);
    hide Tiled, NoneTouch, DoBrk, AlignUp;
    DoBrkKeepsFrontier(h.os, allocs, h.os.cur - h.free[i].size);
  }

  // ---------------------------------------------------------------- the trim

  /** The pass with the reads of lines 198-204 and the store of line 201. */
  function TrimAsWritten(h: Heap, allocs: seq<Span>): Result<Heap> {
    var k := EndingAt(h.free, h.end);
    if k == |h.free| then Ok(h)
    else
      var os :- DoBrk(h.os, allocs, h.os.cur - h.free[k].size);
      if !NodeReadable(os, h.free[k], k == 0) then Err(PageFault)
      else
        var h' := h.(free := Without(h.free, k), end := h.free[k].addr, os := os);
        Ok(if k > 0 then LinkStore(h', h.free[k - 1], 8, NextAddr(h.free, k)) else h')
  }

  predicate TrimHarmless(h: Heap) {
    var k := EndingAt(h.free, h.end);
    k < |h.free| ==> ReadsHarmless(h, k) && (k > 0 ==> LinkFits(h, h.free[k - 1], 8, NextAddr(h.free, k)))
  }

  lemma TrimAsWrittenIff(h: Heap, allocs: seq<Span>)
    requires TrimReady(h, 0)
    ensures TrimAsWritten(h, allocs) == TrimFrom(h, allocs, 0) <==> TrimFrom(h, allocs, 0).Err? || TrimHarmless(h)
  {
    TrimIsOne(h, allocs);
    var k := EndingAt(h.free, h.end);
    if k < |h.free| {
      ReadAfterReleaseIff(h, allocs, k);
      hide TrimReady, DoBrk, EndingAt, TrimFrom, NodeReadable, ReadsHarmless, LinkStore;
      match DoBrk(h.os, allocs, h.os.cur - h.free[k].size)
      case Err(_) =>
      case Ok(os) =>
        var h' := h.(free := Without(h.free, k), end := h.free[k].addr, os := os);
        if k > 0 {
          LinkFitsIff(h', h.free[k - 1], 8, NextAddr(h.free, k));
        }
    }
  }

  /** The trim dies exactly on an inaccessible read, and otherwise stores one link: the `next` of
      the node before the one given back. */
  lemma TrimAsWrittenExact(h: Heap, allocs: seq<Span>)
    requires TrimReady(h, 0)
    ensures TrimAsWritten(h, allocs) == Err(PageFault) <==>
            var k := EndingAt(h.free, h.end);
            && TrimFrom(h, allocs, 0).Ok? && k < |h.free|
            && AlignUp(h.free[k].addr + h.slack) <= h.free[k].addr + (if k == 0 then 8 else 16)
    ensures TrimAsWritten(h, allocs).Ok? && EndingAt(h.free, h.end) > 0 && EndingAt(h.free, h.end) < |h.free| ==>
              var k := EndingAt(h.free, h.end);
              && TrimFrom(h, allocs, 0).Ok?
              && TrimAsWritten(h, allocs).value ==
                 TrimFrom(h, allocs, 0).value.(live := TrimAsWritten(h, allocs).value.live)
              && WroteBehind(h.live, h.free[k - 1], 8, if k + 1 < |h.free| then h.free[k + 1].addr else 0,
                             TrimAsWritten(h, allocs).value.live)
  {
    hide TrimReady, DoBrk, EndingAt, TrimFrom, NodeReadable, LinkStore, WroteBehind, AlignUp;
    ReadyTrim(h, allocs);
    BreakFaults(h, allocs);
    var k := EndingAt(h.free, h.end);
    if k < |h.free| {
      var moved := DoBrk(h.os, allocs, h.os.cur - h.free[k].size);
      if moved.Ok? && k > 0 {
        var h' := h.(free := Without(h.free, k), end := h.free[k].addr, os := moved.value);
        LinkStoreWrites(h', h.free[k - 1], 8, NextAddr(h.free, k));
      }
    }
  }

  lemma ReadyTrim(h: Heap, allocs: seq<Span>)
    requires TrimReady(h, 0)
    ensures TrimFrom(h, allocs, 0) == TrimOne(h, allocs)
    ensures var k := EndingAt(h.free, h.end);
            k < |h.free| ==>
              match DoBrk(h.os, allocs, h.os.cur - h.free[k].size)
              case Ok(os) =>
                NodeReadable(os, h.free[k], k == 0) <==>
                h.free[k].addr + (if k == 0 then 8 else 16) < AlignUp(h.free[k].addr + h.slack)
              case Err(_) => true
  {
    TrimIsOne(h, allocs);
    hide DoBrk, TrimFrom, NodeReadable, AlignUp;
    if EndingAt(h.free, h.end) < |h.free| {
      ReadAfterReleaseIff(h, allocs, EndingAt(h.free, h.end));
    }
  }

  /** do_brk itself touches no page. */
  lemma BreakFaults(h: Heap, allocs: seq<Span>)
    ensures var k := EndingAt(h.free, h.end);
            k < |h.free| ==> DoBrk(h.os, allocs, h.os.cur - h.free[k].size) != Err(PageFault)
  {
    hide EndingAt, FindOverlap;
  }

  // ---------------------------------------------------------------- the merge

  /** Lines 209-353 as they stand: with both neighbours free, nodes between and behind them can
      be lost or the list become a cycle (FreeList.ThreeLost). */
  function MergeAsWritten(h: Heap, b: Block): Result<Heap> {
    var l, r, m := LeftOf(h.free, b, 0), RightOf(h.free, b, 0), Merged(h.free, b);
    var meant := h.(free := Merge(h.free, b));
    if l < |h.free| && r < |h.free| then
      if r + 1 == l then
        Ok(if r > 0 then LinkStore(meant, h.free[r - 1], 8, h.free[l].addr) else meant)
      else if |h.free| == 2 then Ok(meant)
      else if l + 1 < r then
        var lost := h.(free := h.free[..l] + [m] + h.free[r + 1..]);
        var lost' := LinkStore(lost, h.free[r - 1], 8, h.free[l].addr);
        Ok(if r + 1 < |h.free| then LinkStore(lost', h.free[r + 1], 16, h.free[l].addr) else lost')
      else if l == 0 && r == 1 then
        var lost := h.(free := [m]);
        Ok(if r + 1 < |h.free| then LinkStore(lost, h.free[r + 1], 16, h.free[l].addr) else lost)
      else Err(EndlessList)
    else if l < |h.free| then Ok(meant)
    else if r < |h.free| then Ok(if r > 0 then LinkStore(meant, h.free[r - 1], 8, b.addr) else meant)
    else Ok(if h.free != [] then LinkStore(meant, h.free[0], 16, b.addr) else meant)
  }

  /** The neighbours stand in the one order that works, and the links fit. */
  predicate MergeHarmless(h: Heap, b: Block) {
    var l, r := LeftOf(h.free, b, 0), RightOf(h.free, b, 0);
    if l < |h.free| && r < |h.free| then
      (r + 1 == l && (r > 0 ==> LinkFits(h, h.free[r - 1], 8, h.free[l].addr))) || |h.free| == 2
    else if l < |h.free| then true
    else if r < |h.free| then r > 0 ==> LinkFits(h, h.free[r - 1], 8, b.addr)
    else h.free != [] ==> LinkFits(h, h.free[0], 16, b.addr)
  }

  lemma MergeAsWrittenIff(h: Heap, b: Block)
    requires LeftOf(h.free, b, 0) < |h.free| ==> LeftOf(h.free, b, 0) != RightOf(h.free, b, 0)
    ensures MergeAsWritten(h, b) == Ok(h.(free := Merge(h.free, b))) <==> MergeHarmless(h, b)
  {
    var l, r := LeftOf(h.free, b, 0), RightOf(h.free, b, 0);
    var meant := h.(free := Merge(h.free, b));
    if l < |h.free| && r < |h.free| {
      assert |Merge(h.free, b)| == |h.free| - 1;
      if r > 0 {
        LinkFitsIff(meant, h.free[r - 1], 8, h.free[l].addr);
      }
    } else if r < |h.free| {
      if r > 0 {
        LinkFitsIff(meant, h.free[r - 1], 8, b.addr);
      }
    } else if l == |h.free| && h.free != [] {
      LinkFitsIff(meant, h.free[0], 16, b.addr);
    }
  }

  // What the list and the headers are afterwards, for every order of the neighbours.

  /** Only the header behind `f` may differ, and only if `f` has `offset` bytes: it is `v`. */
  ghost predicate WroteBehind(live: map<nat, nat>, f: Block, offset: nat, v: nat, live': map<nat, nat>) {
    && live'.Keys == live.Keys
    && (forall a <- live | a != f.End() || f.size != offset :: a in live' && live'[a] == live[a])
    && (f.size == offset && f.End() in live ==> f.End() in live' && live'[f.End()] == v)
  }

  lemma LinkStoreWrites(h: Heap, f: Block, offset: nat, v: nat)
    ensures WroteBehind(h.live, f, offset, v, LinkStore(h, f, offset, v).live)
    ensures LinkStore(h, f, offset, v) == h.(live := LinkStore(h, f, offset, v).live)
  {
  }

  /** A last node is not there, or the link is stored into it. */
  ghost predicate WroteLast(live: map<nat, nat>, pre: seq<Block>, offset: nat, v: nat, live': map<nat, nat>) {
    if pre == [] then live' == live else WroteBehind(live, pre[|pre| - 1], offset, v, live')
  }

  ghost predicate WroteFirst(live: map<nat, nat>, post: seq<Block>, offset: nat, v: nat, live': map<nat, nat>) {
    if post == [] then live' == live else WroteBehind(live, post[0], offset, v, live')
  }

  ghost predicate BetweenBoth(pre: seq<Block>, l: Block, mid: seq<Block>, r: Block, post: seq<Block>, b: Block) {
    && l.End() == b.addr && r.addr == b.End() && l.size > 0 && b.size > 0 && r.size > 0
    && NoneMeets(pre, b) && NoneMeets(mid, b) && NoneMeets(post, b)
  }

  lemma PlacesReversed(pre: seq<Block>, l: Block, r: Block, post: seq<Block>, b: Block)
    requires BetweenBoth(pre, l, [], r, post, b)
    ensures var free := pre + [r] + [l] + post;
            && RightOf(free, b, 0) == |pre| && LeftOf(free, b, 0) == |pre| + 1
            && Merge(free, b) == pre + [Block(l.addr, l.size + b.size + r.size)] + post
            && free[|pre| + 1] == l && (pre != [] ==> free[|pre| - 1] == pre[|pre| - 1])
  {
    BothAt(pre, l, [], r, post, b);
    MergePlacesBoth(pre, l, [], r, post, b);
    hide LeftOf, RightOf, Merge, NoneMeets;
    var m := Block(l.addr, l.size + b.size + r.size);
    assert pre + [r] + [] + [l] + post == pre + [r] + [l] + post;
    assert pre + [] + [m] + post == pre + [m] + post;
  }

  /** The right neighbour right before the left one: both are replaced by the merged block. */
  lemma MergedReversed(h: Heap, pre: seq<Block>, l: Block, r: Block, post: seq<Block>, b: Block)
    requires h.free == pre + [r] + [l] + post && BetweenBoth(pre, l, [], r, post, b)
    ensures var res := MergeAsWritten(h, b);
            var m := Block(l.addr, l.size + b.size + r.size);
            && res.Ok? && res.value == h.(free := pre + [m] + post, live := res.value.live)
            && WroteLast(h.live, pre, 8, l.addr, res.value.live)
  {
    hide LeftOf, RightOf, Merge, Merged, NoneMeets, LinkStore, WroteBehind, BetweenBoth;
    PlacesReversed(pre, l, r, post, b);
    if pre != [] {
      LinkStoreWrites(h.(free := Merge(h.free, b)), pre[|pre| - 1], 8, l.addr);
    }
  }

  lemma BothAt(pre: seq<Block>, l: Block, mid: seq<Block>, r: Block, post: seq<Block>, b: Block)
    requires BetweenBoth(pre, l, mid, r, post, b)
    ensures LeftOf(pre + [l] + mid + [r] + post, b, 0) == |pre|
    ensures RightOf(pre + [l] + mid + [r] + post, b, 0) == |pre| + 1 + |mid|
    ensures RightOf(pre + [r] + mid + [l] + post, b, 0) == |pre|
    ensures LeftOf(pre + [r] + mid + [l] + post, b, 0) == |pre| + 1 + |mid|
  {
    assert pre + [l] + mid + [r] + post == pre + [l] + (mid + [r] + post);
    assert pre + [l] + mid + [r] + post == (pre + [l] + mid) + [r] + post;
    assert pre + [r] + mid + [l] + post == pre + [r] + (mid + [l] + post);
    assert pre + [r] + mid + [l] + post == (pre + [r] + mid) + [l] + post;
    LeftIsAt(pre, l, mid + [r] + post, b);
    RightIsAt(pre + [l] + mid, r, post, b);
    RightIsAt(pre, r, mid + [l] + post, b);
    LeftIsAt(pre + [r] + mid, l, post, b);
    hide LeftOf, RightOf;
  }

  /** The right neighbour before the left one with others between: the list is a cycle. */
  lemma MergedApartReversed(h: Heap, pre: seq<Block>, l: Block, mid: seq<Block>, r: Block, post: seq<Block>, b: Block)
    requires h.free == pre + [r] + mid + [l] + post && mid != [] && BetweenBoth(pre, l, mid, r, post, b)
    ensures MergeAsWritten(h, b) == Err(EndlessList)
  {
    BothAt(pre, l, mid, r, post, b);
    hide LeftOf, RightOf, Merge, Merged, LinkStore;
  }

  /** The left neighbour right before the right one, and others before both: a cycle too. */
  lemma MergedInside(h: Heap, pre: seq<Block>, l: Block, r: Block, post: seq<Block>, b: Block)
    requires h.free == pre + [l] + [r] + post && pre != [] && BetweenBoth(pre, l, [], r, post, b)
    ensures MergeAsWritten(h, b) == Err(EndlessList)
  {
    BothAt(pre, l, [], r, post, b);
    assert pre + [l] + [] + [r] + post == h.free;
    hide LeftOf, RightOf, Merge, Merged, LinkStore;
  }

  lemma MergedIs(pre: seq<Block>, l: Block, mid: seq<Block>, r: Block, post: seq<Block>, b: Block)
    requires BetweenBoth(pre, l, mid, r, post, b)
    ensures Merged(pre + [l] + mid + [r] + post, b) == Block(l.addr, l.size + b.size + r.size)
  {
    BothAt(pre, l, mid, r, post, b);
    var free := pre + [l] + mid + [r] + post;
    assert free[|pre|] == l && free[|pre| + 1 + |mid|] == r;
    hide LeftOf, RightOf;
  }

  /** The two at the front of the list: all behind them is lost. */
  lemma MergedInFront(h: Heap, l: Block, r: Block, post: seq<Block>, b: Block)
    requires h.free == [l] + [r] + post && BetweenBoth([], l, [], r, post, b)
    ensures var res := MergeAsWritten(h, b);
            && res.Ok? && res.value == h.(free := [Block(l.addr, l.size + b.size + r.size)], live := res.value.live)
            && WroteFirst(h.live, post, 16, l.addr, res.value.live)
  {
    BothAt([], l, [], r, post, b);
    MergedIs([], l, [], r, post, b);
    MergePlacesBoth([], l, [], r, post, b);
    assert [] + [l] + [] + [r] + post == h.free;
    hide LeftOf, RightOf, Merge, Merged, NoneMeets, LinkStore, WroteBehind;
    var m := Block(l.addr, l.size + b.size + r.size);
    assert [] + [m] + [] + post == [m] + post;
    if post == [] {
      assert [m] + post == [m];
    } else {
      assert h.free[2] == post[0];
      LinkStoreWrites(h.(free := [m]), post[0], 16, l.addr);
    }
  }

  /** The left neighbour before the right one with others between: these are lost. */
  lemma MergedAround(h: Heap, pre: seq<Block>, l: Block, mid: seq<Block>, r: Block, post: seq<Block>, b: Block)
    requires h.free == pre + [l] + mid + [r] + post && mid != [] && BetweenBoth(pre, l, mid, r, post, b)
    ensures var res := MergeAsWritten(h, b);
            var m := Block(l.addr, l.size + b.size + r.size);
            && res.Ok? && res.value == h.(free := pre + [m] + post, live := res.value.live)
            && exists live ::
                 WroteLast(h.live, mid, 8, l.addr, live) && WroteFirst(live, post, 16, l.addr, res.value.live)
  {
    BothAt(pre, l, mid, r, post, b);
    MergedIs(pre, l, mid, r, post, b);
    hide LeftOf, RightOf, Merge, Merged, NoneMeets, LinkStore, WroteBehind;
    var m := Block(l.addr, l.size + b.size + r.size);
    assert h.free[..|pre|] == pre && h.free[|pre| + 1 + |mid| + 1..] == post;
    var lost := h.(free := pre + [m] + post);
    assert h.free[|pre| + |mid|] == mid[|mid| - 1];
    LinkStoreWrites(lost, mid[|mid| - 1], 8, l.addr);
    var lost' := LinkStore(lost, mid[|mid| - 1], 8, l.addr);
    assert WroteLast(h.live, mid, 8, l.addr, lost'.live);
    if post != [] {
      assert h.free[|pre| + 1 + |mid| + 1] == post[0];
      LinkStoreWrites(lost', post[0], 16, l.addr);
    }
  }

  /** One neighbour free, or none: the list is the one meant, and the link that names the new
      node is stored into the node before it, or into the old first node. */
  lemma MergedWithLeft(h: Heap, pre: seq<Block>, l: Block, post: seq<Block>, b: Block)
    requires h.free == pre + [l] + post && l.End() == b.addr && l.size > 0 && b.size > 0
    requires NoneMeets(pre, b) && NoneMeets(post, b)
    ensures MergeAsWritten(h, b) == Ok(h.(free := pre + [Block(l.addr, l.size + b.size)] + post))
  {
    MergePlacesLeft(pre, l, post, b);
    LeftIsAt(pre, l, post, b);
    NoRight(pre, l, post, b);
    hide LeftOf, RightOf, Merge, Merged;
  }

  lemma NoRight(pre: seq<Block>, l: Block, post: seq<Block>, b: Block)
    requires l.End() == b.addr && l.size > 0 && b.size > 0 && NoneMeets(pre, b) && NoneMeets(post, b)
    ensures RightOf(pre + [l] + post, b, 0) == |pre + [l] + post|
  {
    assert forall f :: f in pre + [l] + post ==> f in pre || f == l || f in post;
    NoNeighbour(pre + [l] + post, b);
  }

  lemma NoLeft(pre: seq<Block>, r: Block, post: seq<Block>, b: Block)
    requires r.addr == b.End() && r.size > 0 && b.size > 0 && NoneMeets(pre, b) && NoneMeets(post, b)
    ensures LeftOf(pre + [r] + post, b, 0) == |pre + [r] + post|
  {
    assert forall f :: f in pre + [r] + post ==> f in pre || f == r || f in post;
    NoNeighbour(pre + [r] + post, b);
  }

  lemma MergedWithRight(h: Heap, pre: seq<Block>, r: Block, post: seq<Block>, b: Block)
    requires h.free == pre + [r] + post && r.addr == b.End() && r.size > 0 && b.size > 0
    requires NoneMeets(pre, b) && NoneMeets(post, b)
    ensures var res := MergeAsWritten(h, b);
            && res.Ok? && res.value == h.(free := pre + [Block(b.addr, b.size + r.size)] + post, live := res.value.live)
            && WroteLast(h.live, pre, 8, b.addr, res.value.live)
  {
    MergePlacesRight(pre, r, post, b);
    RightIsAt(pre, r, post, b);
    NoLeft(pre, r, post, b);
    hide LeftOf, RightOf, Merge, Merged, LinkStore, WroteBehind;
    if pre != [] {
      assert h.free[|pre| - 1] == pre[|pre| - 1];
      LinkStoreWrites(h.(free := Merge(h.free, b)), pre[|pre| - 1], 8, b.addr);
    }
  }

  lemma MergedAlone(h: Heap, b: Block)
    requires NoneMeets(h.free, b)
    ensures var res := MergeAsWritten(h, b);
            && res.Ok? && res.value == h.(free := [b] + h.free, live := res.value.live)
            && WroteFirst(h.live, h.free, 16, b.addr, res.value.live)
  {
    MergePlacesFront(h.free, b);
    NoNeighbour(h.free, b);
    hide LeftOf, RightOf, Merge, Merged, LinkStore, WroteBehind;
    if h.free != [] {
      LinkStoreWrites(h.(free := Merge(h.free, b)), h.free[0], 16, b.addr);
    }
  }

  // ---------------------------------------------------------------- kufree

  /** Lines 171-353 for block `b`, which is no longer among the live ones. */
  function FreeBlockAsWritten(h: Heap, allocs: seq<Span>, b: Block): Result<Heap> {
    if b.End() == h.end then
      var os :- DoBrk(h.os, allocs, h.os.cur - b.size);
      TrimAsWritten(h.(end := b.addr, os := os), allocs)
    else
      var h' :- TrimAsWritten(h, allocs);
      MergeAsWritten(h', b)
  }

  function FreeAsWritten(h: Heap, allocs: seq<Span>, ptr: nat): Result<Heap>
    requires ptr != 0 ==> Owned(h, ptr)
  {
    if ptr == 0 then Ok(h)
    else FreeBlockAsWritten(h.(live := h.live - {ptr - 8}), allocs, Block(ptr - 8, h.live[ptr - 8]))
  }

  predicate FreeBlockHarmless(h: Heap, b: Block) {
    if b.End() == h.end then TrimHarmless(h.(end := b.addr)) else MergeHarmless(h, b)
  }

  predicate FreeHarmless(h: Heap, ptr: nat)
    requires ptr != 0 ==> Owned(h, ptr)
  {
    ptr == 0 || FreeBlockHarmless(h.(live := h.live - {ptr - 8}), Block(ptr - 8, h.live[ptr - 8]))
  }

  lemma FreeLastAsWritten(h: Heap, allocs: seq<Span>, b: Block)
    requires Inv(h) && b.addr in h.live && b.size == h.live[b.addr] && b.End() == h.end
    ensures var h' := h.(live := h.live - {b.addr});
            FreeBlockAsWritten(h', allocs, b) == FreeBlock(h', allocs, b) <==>
            FreeBlock(h', allocs, b).Err? || FreeBlockHarmless(h', b)
  {
    hide Inv, DoBrk, TrimReady, TrimFrom, TrimAsWritten, TrimHarmless, InsideLive, GaveBackSafely;
    hide FreeBlock, FreeBlockAsWritten, FreeBlockHarmless;
    FreeLast(h, allocs, b);
    var h' := h.(live := h.live - {b.addr});
    LastUnfolds(h', allocs, b);
    match DoBrk(h.os, allocs, h.os.cur - b.size)
    case Err(_) =>
    case Ok(os) => TrimAsWrittenIff(h'.(end := b.addr, os := os), allocs);
  }

  lemma LastUnfolds(h: Heap, allocs: seq<Span>, b: Block)
    requires b.End() == h.end
    ensures var moved := DoBrk(h.os, allocs, h.os.cur - b.size);
            if moved.Err? then
              FreeBlock(h, allocs, b) == Err(moved.failure) && FreeBlockAsWritten(h, allocs, b) == Err(moved.failure)
            else
              var h' := h.(end := b.addr, os := moved.value);
              && FreeBlock(h, allocs, b) == TrimFrom(h', allocs, 0)
              && FreeBlockAsWritten(h, allocs, b) == TrimAsWritten(h', allocs)
              && (FreeBlockHarmless(h, b) <==> TrimHarmless(h'))
  {
    hide DoBrk, TrimFrom, TrimAsWritten, EndingAt;
  }

  lemma FreeMiddleAsWritten(h: Heap, allocs: seq<Span>, b: Block)
    requires Inv(h) && b.addr in h.live && b.size == h.live[b.addr] && b.End() != h.end
    ensures var h' := h.(live := h.live - {b.addr});
            && FreeBlock(h', allocs, b).Ok? && FreeBlockAsWritten(h', allocs, b) == MergeAsWritten(h', b)
            && (FreeBlockAsWritten(h', allocs, b) == FreeBlock(h', allocs, b) <==> FreeBlockHarmless(h', b))
  {
    var h' := h.(live := h.live - {b.addr});
    FreeMiddleReady(h, b);
    NeighboursAre(h.free, LiveSet(h.live) - {b}, b, h.os.heap, h.end);
    NoneEndsAtTop(h);
    hide Inv, MergeReady, Neighbours, MergeAsWritten, MergeHarmless, Merge, DoBrk;
    TrimNoop(h', allocs, 0);
    assert EndingAt(h'.free, h'.end) == |h'.free|;
    MergeAsWrittenIff(h', b);
  }

  /** kufree as written is the free of HeapSpec exactly when the model's free fails as well, or
      the reads after a release stay on accessible pages, two free neighbours stand in the order
      that works, and every link fits into its node. */
  lemma FreeAsWrittenIff(h: Heap, allocs: seq<Span>, ptr: nat)
    requires Inv(h) && (ptr != 0 ==> Owned(h, ptr))
    ensures FreeAsWritten(h, allocs, ptr) == Free(h, allocs, ptr) <==>
            Free(h, allocs, ptr).Err? || FreeHarmless(h, ptr)
  {
    hide Inv, FreeBlock, FreeBlockAsWritten, FreeBlockHarmless;
    if ptr != 0 {
      var b := Block(ptr - 8, h.live[ptr - 8]);
      if b.End() == h.end {
        FreeLastAsWritten(h, allocs, b);
      } else {
        FreeMiddleAsWritten(h, allocs, b);
      }
    }
  }

  /** Whatever the headers hold: the pass over the list runs before the merge, so its reads and
      its failures come first, whichever block is freed. */
  lemma PassRunsFirst(h: Heap, allocs: seq<Span>, ptr: nat)
    requires Owned(h, ptr) && ptr - 8 + h.live[ptr - 8] != h.end && EndingAt(h.free, h.end) < |h.free|
    ensures var k := EndingAt(h.free, h.end);
            match DoBrk(h.os, allocs, h.os.cur - h.free[k].size)
            case Ok(os) =>
              !(Readable(os, h.free[k].addr + 8) && (k == 0 || Readable(os, h.free[k].addr + 16))) ==>
                FreeAsWritten(h, allocs, ptr) == Err(PageFault)
            case Err(f) => FreeAsWritten(h, allocs, ptr) == Err(f)
  {
    hide DoBrk, EndingAt, Readable, MergeAsWritten, LinkStore;
  }

  // ---------------------------------------------------------------- the links between calls

  /** kumalloc leaves every `prev` but that of the first node right
      (FreeList.ReuseLinksAsWritten). */
  predicate MallocKeepsLinks(h: Heap, size: nat) {
    var k := FirstFit(h.free, SizeAlign(size + 8), 0);
    size == 0 || k == |h.free| || FreeList.ReuseKeepsPrev(|h.free|, k, h.free[k].size > SizeAlign(size + 8))
  }

  /** So does kufree (FreeList.TrimUnlinkAsWritten, MergeThreeAsWritten, MergeRightAsWritten and
      PushAsWritten). */
  predicate FreeKeepsLinks(h: Heap, ptr: nat)
    requires ptr != 0 ==> Owned(h, ptr)
  {
    ptr == 0 ||
    var b := Block(ptr - 8, h.live[ptr - 8]);
    var l, r, n := LeftOf(h.free, b, 0), RightOf(h.free, b, 0), |h.free|;
    if b.End() == h.end then
      var k := EndingAt(h.free, b.addr);
      k == n || FreeList.TrimKeepsPrev(n, k)
    else if l < n && r < n then FreeList.ThreeKeepsPrev(n, l, r)
    else r == n || FreeList.RightKeepsPrev(n, r)
  }
}
