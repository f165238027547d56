/** The allocator as the C file runs it: globals updated in place and loops over the linked
    free list. Every method computes the function of the same purpose in HeapSpec.dfy or
    Payloads.dfy, whatever the sizes in the headers; FreeList.dfy names the repairs of the list
    surgery. */
module Allocators {
  import opened Base
  import opened Blocks
  import opened Spans
  import opened Break
  import opened HeapSpec
  import opened Payloads
  import opened FreeList
  import opened Overlay
  import opened ProgramBreaks

  lemma MergeLeft(free: seq<Block>, b: Block, l: nat)
    requires l == LeftOf(free, b, 0) < |free| && RightOf(free, b, 0) == |free|
    ensures Merge(free, b) == free[l := Block(free[l].addr, free[l].size + b.size)]
  {
    hide LeftOf, RightOf;
  }

  lemma MergeRight(free: seq<Block>, b: Block, r: nat)
    requires r == RightOf(free, b, 0) < |free| && LeftOf(free, b, 0) == |free|
    ensures Merge(free, b) == free[r := Block(b.addr, b.size + free[r].size)]
  {
    hide LeftOf, RightOf;
  }

  lemma MergeBoth(free: seq<Block>, b: Block, l: nat, r: nat)
    requires l == LeftOf(free, b, 0) < |free| && r == RightOf(free, b, 0) < |free|
    ensures Merge(free, b) == Without(free[l := Block(free[l].addr, free[l].size + b.size + free[r].size)], r)
  {
    hide LeftOf, RightOf;
  }

  lemma SplitIs(h: Heap, k: nat, total: nat)
    requires k < |h.free| && h.free[k].size > total
    ensures var b := h.free[k];
            Reuse(h, k, total) == h.(live := h.live[b.addr := total],
                                     free := h.free[k := Block(b.addr + total, b.size - total)])
  {
  }

  lemma TrimEnds(h: Heap, allocs: seq<Span>)
    ensures TrimFrom(h, allocs, |h.free|) == Ok(h)
  {
  }

  class Allocator {
    const os: ProgramBreak
    var head: FreeNode?
    var blockEnd: nat
    var availableMemory: nat
    /** Headers of allocated blocks, by block address. */
    var live: map<nat, nat>
    var mem: Memory
    /** The list nodes in list order, and the blocks they stand for. */
    ghost var Nodes: seq<FreeNode>
    ghost var Listing: seq<Block>
    ghost var Repr: set<FreeNode>

    constructor (os: ProgramBreak)
      requires os.allocs.Valid() && Frontier(os.View()) && os.heap > 0 && os.curBrk == os.heap
      ensures this.os == os && fresh(Repr) && Valid()
      ensures View() == Heap([], map[], 0, 0, os.View()) && Inv(View())
    {
      this.os := os;
      head, blockEnd, availableMemory, live := null, 0, 0, map[];
      mem := (x: nat) => 0;
      Nodes, Listing, Repr := [], [], {};
    }

    /** The globals and the list as a value. */
    ghost function View(): Heap
      reads this`Listing, this`live, this`blockEnd, this`availableMemory, os
    {
      Heap(Listing, live, blockEnd, availableMemory, os.View())
    }

    /** `head`, `next` and `prev` form a list of exactly the blocks `Listing`. */
    ghost predicate Listed()
      reads this`head, this`Nodes, this`Listing, this`Repr, Repr
    {
      && (forall n <- Nodes :: n in Repr) && Linked(head, Nodes)
      && |Listing| == |Nodes| && forall i | 0 <= i < |Nodes| :: Listing[i] == Nodes[i].ToBlock()
    }

    ghost predicate Valid()
      reads this`head, this`Nodes, this`Listing, this`Repr, Repr, os.allocs, os.allocs.Repr
    {
      os.allocs.Valid() && Listed()
    }

    // -------------------------------------------------------------- kumalloc

    /** Lines 41-50: the first node in list order that is large enough. */
    method Search(total: nat) returns (block: FreeNode?, ghost k: nat)
      requires Listed()
      ensures k == FirstFit(Listing, total, 0)
      ensures block == At(Nodes, FirstFit(Listing, total, 0))
    {
      block := head;
      k := 0;
      while block != null && block.size < total
        invariant 0 <= k <= |Nodes| && block == At(Nodes, k)
        invariant FirstFit(Listing, total, k) == FirstFit(Listing, total, 0)
        decreases |Nodes| - k
      {
        block := block.next;
        k := k + 1;
      }
    }

    /** Lines 53-91. */
    method TakeFromTop(total: nat) returns (r: Result<nat>)
      requires os.allocs.Valid()
      modifies this`blockEnd, this`availableMemory, this`live, os
      ensures Grow(old(View()), os.allocs.Contents(), total) ==
              if r.Ok? then Ok((View(), r.value)) else Err(r.failure)
    {
      var capacity := Capacity(total);
      var block;
      if availableMemory == 0 {
        var grown := os.Sbrk(capacity);
        if grown.Err? {
          return grown;
        }
        block := grown.value;
        blockEnd := if blockEnd != 0 then blockEnd + total else block + total;
        availableMemory := availableMemory + (capacity - total);
      } else if total <= availableMemory {
        block := blockEnd;
        blockEnd := blockEnd + total;
        availableMemory := availableMemory - total;
      } else {
        var grown := os.Sbrk(capacity);
        if grown.Err? {
          return grown;
        }
        block := blockEnd;
        blockEnd := blockEnd + total;
        availableMemory := availableMemory + (capacity - total);
      }
      live := live[block := total];
      return Ok(block);
    }

    /** Lines 106-109 and 122-126: the remainder takes the list position of the block. */
    method Split(block: FreeNode, total: nat, ghost k: nat)
      requires Listed() && k < |Nodes| && Nodes[k] == block && block.size > total
      modifies this`head, this`live, this`Nodes, this`Listing, this`Repr, Repr
      ensures Listed() && fresh(Repr - old(Repr))
      ensures View() == Reuse(old(View()), k, total)
    {
      hide Linked, Reuse;
      assert Listing[k] == block.ToBlock();
      SplitIs(View(), k, total);
      var rest := new FreeNode(block.addr + total, block.size - total);
      live := live[block.addr := total];
      head := Replace(head, block, rest, Nodes, k);
      Nodes, Repr := Nodes[k := rest], Repr + {rest};
      Listing := Listing[k := Block(block.addr + total, block.size - total)];
    }

    /** Lines 111-114 and 129-132: the block leaves the list, and nothing is written behind it
        (repair of lines 99-101). */
    method TakeWhole(block: FreeNode, ghost k: nat)
      requires Listed() && k < |Nodes| && Nodes[k] == block
      modifies this`head, this`live, this`Nodes, this`Listing, Repr
      ensures Listed()
      ensures View() == Reuse(old(View()), k, old(Listing[k].size))
    {
      hide Linked;
      assert Listing[k] == block.ToBlock();
      live := live[block.addr := block.size];
      head := Unlink(head, block, Nodes, k);
      Nodes, Listing := Without(Nodes, k), Without(Listing, k);
    }

    /** Lines 93-141. */
    method TakeFromList(block: FreeNode, total: nat, ghost k: nat)
      requires Listed() && k < |Nodes| && Nodes[k] == block && block.size >= total
      modifies this`head, this`live, this`Nodes, this`Listing, this`Repr, Repr
      ensures Listed() && fresh(Repr - old(Repr))
      ensures View() == Reuse(old(View()), k, total)
    {
      hide Linked;
      if block.size > total {
        Split(block, total, k);
      } else {
        TakeWhole(block, k);
      }
    }

    method Kumalloc(size: nat) returns (r: Result<nat>)
      requires Valid()
      modifies this`head, this`blockEnd, this`availableMemory, this`live, this`Nodes, this`Listing, this`Repr, Repr, os
      ensures Malloc(old(View()), os.allocs.Contents(), size) ==
              if r.Ok? then Ok((View(), r.value)) else Err(r.failure)
      ensures r.Ok? ==> Valid() && fresh(Repr - old(Repr))
      ensures r.Ok? && old(Inv(View())) ==> Inv(View())
    {
      hide Inv, Linked, Grow, Reuse;
      ghost var was, allocs := View(), os.allocs.Contents();
      if size == 0 {
        return Ok(0);
      }
      var total := SizeAlign(size + 8);
      var block: FreeNode?;
      ghost var k;
      block, k := Search(total);
      if block == null {
        r := TakeFromTop(total);
        if r.Ok? {
          r := Ok(r.value + 8);
        }
      } else {
        TakeFromList(block, total, k);
        r := Ok(block.addr + 8);
      }
      if Inv(was) {
        MallocCorrect(was, allocs, size);
      }
    }

    // -------------------------------------------------------------- kufree

    /** Lines 194-202: the node leaves the list and its block is given back; its links are read
        first (repair of lines 197-204). */
    method GiveBack(temp: FreeNode, ghost k: nat) returns (r: Result<nat>)
      requires Listed() && os.allocs.Valid() && k < |Nodes| && Nodes[k] == temp
      modifies this`head, this`blockEnd, this`Nodes, this`Listing, Repr`next, Repr`prev, os
      ensures DoBrk(old(os.View()), os.allocs.Contents(), old(os.curBrk) - temp.size) ==
              if r.Ok? then Ok(os.View()) else Err(r.failure)
      ensures Listed() && Nodes == Without(old(Nodes), k)
      ensures Listing == Without(old(Listing), k) && blockEnd == temp.addr
    {
      hide Linked, DoBrk;
      var size := temp.size;
      blockEnd := temp.addr;
      Drop(temp, k);
      r := os.Sbrk(-(size as int));
    }

    /** Lines 193-204: one node is visited. Its successor is read before the block is given back
        (repair of lines 197-204). */
    method Visit(temp: FreeNode, ghost i: nat) returns (r: Result<nat>, next: FreeNode?, ghost j: nat)
      requires Listed() && os.allocs.Valid() && i < |Nodes| && Nodes[i] == temp
      modifies this`head, this`blockEnd, this`Nodes, this`Listing, Repr`next, Repr`prev, os
      ensures Listed() && i <= j <= |Nodes| && next == At(Nodes, j) && |Nodes| - j < |old(Nodes)| - i
      ensures TrimFrom(old(View()), os.allocs.Contents(), i) ==
              if r.Ok? then TrimFrom(View(), os.allocs.Contents(), j) else Err(r.failure)
    {
      hide DoBrk;
      next := temp.next;
      assert next == At(Nodes, i + 1) && Listing[i] == temp.ToBlock();
      hide Linked;
      if temp.addr + temp.size == blockEnd {
        r := GiveBack(temp, i);
        j := i;
      } else {
        r := Ok(0);
        j := i + 1;
      }
    }

    /** Lines 183-205: one pass that gives back every node found to end at block_end. */
    method Trim() returns (r: Result<nat>)
      requires Listed() && os.allocs.Valid()
      modifies this`head, this`blockEnd, this`Nodes, this`Listing, Repr`next, Repr`prev, os
      ensures TrimFrom(old(View()), os.allocs.Contents(), 0) == if r.Ok? then Ok(View()) else Err(r.failure)
      ensures r.Ok? ==> Listed()
    {
      ghost var was, allocs := View(), os.allocs.Contents();
      var temp := head;
      ghost var i := 0;
      hide TrimFrom, Linked;
      while temp != null
        invariant Listed() && os.allocs.Valid() && os.allocs.Contents() == allocs
        invariant 0 <= i <= |Nodes| && temp == At(Nodes, i)
        invariant TrimFrom(View(), allocs, i) == TrimFrom(was, allocs, 0)
        decreases |Nodes| - i
      {
        r, temp, i := Visit(temp, i);
        if r.Err? {
          return r;
        }
      }
      TrimEnds(View(), allocs);
      return Ok(0);
    }

    /** Line 241 and line 290: a second pass over the list for the other neighbour. */
    method FindRight(end2: nat) returns (temp2: FreeNode?, ghost k: nat)
      requires Listed()
      ensures forall b: Block | b.End() == end2 :: k == RightOf(Listing, b, 0)
      ensures forall b: Block | b.End() == end2 :: temp2 == At(Nodes, RightOf(Listing, b, 0))
      ensures temp2 == At(Nodes, k)
    {
      temp2 := head;
      k := 0;
      while temp2 != null && temp2.addr != end2
        invariant 0 <= k <= |Nodes| && temp2 == At(Nodes, k)
        invariant forall j | 0 <= j < k :: Listing[j].addr != end2
        decreases |Nodes| - k
      {
        temp2 := temp2.next;
        k := k + 1;
      }
    }

    method FindLeft(start: nat) returns (temp2: FreeNode?, ghost k: nat)
      requires Listed()
      ensures forall b: Block | b.addr == start :: k == LeftOf(Listing, b, 0)
      ensures forall b: Block | b.addr == start :: temp2 == At(Nodes, LeftOf(Listing, b, 0))
      ensures temp2 == At(Nodes, k)
    {
      temp2 := head;
      k := 0;
      while temp2 != null && temp2.addr + temp2.size != start
        invariant 0 <= k <= |Nodes| && temp2 == At(Nodes, k)
        invariant forall j | 0 <= j < k :: Listing[j].End() != start
        decreases |Nodes| - k
      {
        temp2 := temp2.next;
        k := k + 1;
      }
    }

    /** Lines 212-348: the first node in list order that touches the freed block, and on
        which side. */
    method FindNeighbour(b: Block) returns (temp: FreeNode?, ghost k: nat)
      requires Listed()
      ensures temp == At(Nodes, Min(LeftOf(Listing, b, 0), RightOf(Listing, b, 0)))
      ensures temp == At(Nodes, k) && k <= |Nodes|
      ensures k <= LeftOf(Listing, b, 0) && k <= RightOf(Listing, b, 0)
      ensures k < |Nodes| ==>
                k == (if Listing[k].End() == b.addr then LeftOf(Listing, b, 0) else RightOf(Listing, b, 0))
    {
      temp := head;
      k := 0;
      while temp != null && temp.addr + temp.size != b.addr && b.End() != temp.addr
        invariant 0 <= k <= |Nodes| && temp == At(Nodes, k)
        invariant forall j | 0 <= j < k :: Listing[j].End() != b.addr && Listing[j].addr != b.End()
        decreases |Nodes| - k
      {
        temp := temp.next;
        k := k + 1;
      }
    }

    /** Changes the size of a listed block in place. */
    method Resize(n: FreeNode, size: nat, ghost k: nat)
      requires Listed() && k < |Nodes| && Nodes[k] == n
      modifies this`Listing, Repr`size
      ensures Listed() && Listing == old(Listing)[k := Block(n.addr, size)]
    {
      n.size := size;
      Listing := Listing[k := Block(n.addr, size)];
    }

    method Drop(n: FreeNode, ghost k: nat)
      requires Listed() && k < |Nodes| && Nodes[k] == n
      modifies this`head, this`Nodes, this`Listing, Repr`next, Repr`prev
      ensures Listed() && Listing == Without(old(Listing), k) && Nodes == Without(old(Nodes), k)
    {
      hide Linked;
      head := Unlink(head, n, Nodes, k);
      Nodes, Listing := Without(Nodes, k), Without(Listing, k);
    }

    /** Lines 238-284: the left neighbour absorbs the block, and the right one if it is free. */
    method AbsorbLeft(temp: FreeNode, b: Block, ghost i: nat)
      requires Listed() && i < |Nodes| && Nodes[i] == temp && i == LeftOf(Listing, b, 0)
      modifies this`head, this`Nodes, this`Listing, Repr
      ensures Listed() && Listing == Merge(old(Listing), b)
    {
      hide Linked, Merge, LeftOf, RightOf;
      var temp2, j := FindRight(b.End());
      assert Listing[i] == temp.ToBlock() && (temp2 != null ==> Listing[j] == temp2.ToBlock());
      if temp2 != null {
        MergeBoth(Listing, b, i, j);
        Resize(temp, temp.size + b.size + temp2.size, i);
        Drop(temp2, j);
      } else {
        MergeLeft(Listing, b, i);
        Resize(temp, b.size + temp.size, i);
      }
    }

    /** Lines 287-346: the block has a right neighbour `temp`; a free left neighbour absorbs
        both, otherwise the block takes `temp`'s place. */
    method AbsorbRight(temp: FreeNode, b: Block, ghost i: nat)
      requires Listed() && i < |Nodes| && Nodes[i] == temp && i == RightOf(Listing, b, 0)
      modifies this`head, this`Nodes, this`Listing, this`Repr, Repr
      ensures Listed() && Listing == Merge(old(Listing), b) && fresh(Repr - old(Repr))
    {
      hide Linked, Merge, LeftOf, RightOf;
      var temp2, j := FindLeft(b.addr);
      assert Listing[i] == temp.ToBlock() && (temp2 != null ==> Listing[j] == temp2.ToBlock());
      if temp2 != null {
        MergeBoth(Listing, b, j, i);
        Resize(temp2, temp2.size + b.size + temp.size, j);
        Drop(temp, i);
      } else {
        MergeRight(Listing, b, i);
        TakePlace(temp, b, i);
      }
    }

    /** Lines 337-344. */
    method TakePlace(temp: FreeNode, b: Block, ghost i: nat)
      requires Listed() && i < |Nodes| && Nodes[i] == temp
      modifies this`head, this`Nodes, this`Listing, this`Repr, Repr
      ensures Listed() && Listing == old(Listing)[i := Block(b.addr, b.size + old(Listing)[i].size)]
      ensures fresh(Repr - old(Repr))
    {
      hide Linked;
      var merged := Block(b.addr, b.size + temp.size);
      assert Listing[i] == temp.ToBlock();
      var node := new FreeNode(merged.addr, merged.size);
      head := Replace(head, temp, node, Nodes, i);
      Nodes, Listing, Repr := Nodes[i := node], Listing[i := merged], Repr + {node};
    }

    /** Lines 209-210 and 350-353. */
    method Push(b: Block)
      requires Listed()
      modifies this`head, this`Nodes, this`Listing, this`Repr, Repr
      ensures Listed() && Listing == [b] + old(Listing) && fresh(Repr - old(Repr))
    {
      hide Linked;
      var node := new FreeNode(b.addr, b.size);
      head := PushFront(head, node, Nodes);
      Nodes, Listing, Repr := [node] + Nodes, [b] + Listing, Repr + {node};
    }

    /** Lines 209-353: the left neighbour, if any, absorbs the block and the right neighbour;
        else the block takes the right neighbour's place; else it goes in front. */
    method MergeIntoList(b: Block)
      requires Listed()
      modifies this`head, this`Nodes, this`Listing, this`Repr, Repr
      ensures Listed() && Listing == Merge(old(Listing), b) && fresh(Repr - old(Repr))
    {
      hide Linked;
      var temp, i := FindNeighbour(b);
      if temp == null {
        Push(b);
      } else if temp.addr + temp.size == b.addr {
        AbsorbLeft(temp, b, i);
      } else {
        AbsorbRight(temp, b, i);
      }
    }

    /** Lines 171-208, for the block that ends at block_end. */
    method FreeTop(b: Block) returns (r: Result<nat>)
      requires Listed() && os.allocs.Valid() && b.End() == blockEnd
      modifies this`head, this`blockEnd, this`Nodes, this`Listing, Repr, os
      ensures FreeBlock(old(View()), os.allocs.Contents(), b) == if r.Ok? then Ok(View()) else Err(r.failure)
      ensures r.Ok? ==> Listed()
    {
      hide Linked, TrimFrom, DoBrk;
      blockEnd := b.addr;
      r := os.Sbrk(-(b.size as int));
      if r.Ok? {
        r := Trim();
      }
    }

    /** Lines 183-353, for any other block. */
    method FreeInside(b: Block) returns (r: Result<nat>)
      requires Listed() && os.allocs.Valid() && b.End() != blockEnd
      modifies this`head, this`blockEnd, this`Nodes, this`Listing, this`Repr, Repr, os
      ensures FreeBlock(old(View()), os.allocs.Contents(), b) == if r.Ok? then Ok(View()) else Err(r.failure)
      ensures r.Ok? ==> Listed() && fresh(Repr - old(Repr))
    {
      hide Linked, TrimFrom, DoBrk, Merge;
      r := Trim();
      if r.Ok? {
        MergeIntoList(b);
      }
    }

    method Kufree(ptr: nat) returns (r: Result<nat>)
      requires Valid() && (ptr != 0 ==> Owned(View(), ptr))
      modifies this`head, this`blockEnd, this`live, this`Nodes, this`Listing, this`Repr, Repr, os
      ensures Free(old(View()), os.allocs.Contents(), ptr) == if r.Ok? then Ok(View()) else Err(r.failure)
      ensures r.Ok? ==> Valid() && fresh(Repr - old(Repr))
      ensures r.Ok? && old(Inv(View())) ==> Inv(View())
    {
      hide Inv, Linked, FreeBlock, InsideLive, GaveBackSafely;
      ghost var was, allocs := View(), os.allocs.Contents();
      if ptr == 0 {
        return Ok(0);
      }
      var b := Block(ptr - 8, live[ptr - 8]);
      live := live - {b.addr};
      if blockEnd == b.End() {
        r := FreeTop(b);
      } else {
        r := FreeInside(b);
      }
      if Inv(was) {
        FreeCorrect(was, allocs, ptr);
      }
    }

    // -------------------------------------------------------------- kucalloc and kurealloc

    method Kucalloc(nmemb: nat, size: nat) returns (r: Result<nat>)
      requires Valid()
      modifies this, Repr, os
      ensures Calloc(old(View()), old(mem), os.allocs.Contents(), nmemb, size) ==
              if r.Ok? then Ok((View(), mem, r.value)) else Err(r.failure)
      ensures r.Ok? ==> Valid() && fresh(Repr - old(Repr))
    {
      hide Linked, Malloc, Accessible;
      if size == 0 || nmemb == 0 {
        return Ok(0);
      }
      var total := SizeAlign(nmemb * size);
      r := Kumalloc(total);
      if r.Ok? {
        var ok := os.Touch(r.value, total);
        if !ok {
          return Err(PageFault);
        }
        mem := Memset(mem, r.value, total, 0);
      }
    }

    method Kurealloc(ptr: nat, size: nat) returns (r: Result<nat>)
      requires Valid() && (ptr != 0 ==> Owned(View(), ptr))
      modifies this, Repr, os
      ensures Realloc(old(View()), old(mem), os.allocs.Contents(), ptr, size) ==
              if r.Ok? then Ok((View(), mem, r.value)) else Err(r.failure)
      ensures r.Ok? ==> Valid() && fresh(Repr - old(Repr))
    {
      hide Linked, Malloc, Free, Accessible;
      if size == 0 && ptr != 0 {
        r := Kufree(ptr);
        return if r.Ok? then Ok(0) else r;
      }
      if ptr == 0 {
        r := Kumalloc(size);
        return r;
      }
      var prevSize := live[ptr - 8];
      if prevSize >= size {
        return Ok(ptr);
      }
      r := Kumalloc(SizeAlign(size + 8));
      if r.Ok? {
        var source := os.Touch(ptr, prevSize);
        var target := os.Touch(r.value, prevSize);
        if !source || !target {
          return Err(PageFault);
        }
        mem := Memcpy(mem, r.value, ptr, prevSize);
      }
    }

    // -------------------------------------------------------------- size fields as bytes

    /** Every size field: the headers of allocated blocks and the sizes of the list nodes. */
    method Sizes() returns (fields: map<nat, nat>)
      requires Listed()
      ensures fields == Fields(View())
    {
      fields := map[];
      var temp := head;
      ghost var i := 0;
      while temp != null
        invariant 0 <= i <= |Nodes| && temp == At(Nodes, i)
        invariant fields == FreeFields(Listing[..i])
        decreases |Nodes| - i
      {
        assert Listing[..i + 1][..i] == Listing[..i] && Listing[i] == temp.ToBlock();
        fields := fields[temp.addr := temp.size];
        temp := temp.next;
        i := i + 1;
      }
      assert Listing[..i] == Listing;
      fields := fields + live;
    }

    /** The size fields are bytes that others see. */
    method Publish()
      requires Listed()
      modifies this`mem
      ensures mem == Stamp(old(mem), Fields(View()))
    {
      var fields := Sizes();
      mem := Stamp(mem, fields);
    }

    /** Every node takes the size that memory holds for it. */
    method Reload()
      requires Listed()
      modifies this`live, this`Listing, Repr`size
      ensures Listed() && View() == Overlay.Reload(old(View()), mem)
    {
      hide Word;
      live := map a | a in live :: Word(mem, a, 8);
      var temp := head;
      ghost var i := 0;
      while temp != null
        modifies Repr`size
        invariant 0 <= i <= |Nodes| && temp == At(Nodes, i) && Linked(head, Nodes)
        invariant forall j | 0 <= j < i :: Nodes[j].size == Word(mem, Nodes[j].addr, 8)
        decreases |Nodes| - i
      {
        temp.size := Word(mem, temp.addr, 8);
        temp := temp.next;
        i := i + 1;
      }
      Listing := Reread(Listing, mem);
    }

    /** memset by a caller, which may write over size fields. */
    method Fill(lo: nat, n: nat, v: nat) returns (r: Result<nat>)
      requires Listed()
      modifies this`mem, this`live, this`Listing, Repr`size
      ensures Overlay.Fill(old(View()), old(mem), lo, n, v) == if r.Ok? then Ok((View(), mem)) else Err(r.failure)
      ensures Listed()
    {
      hide Linked, Word, Accessible, Fields;
      var ok := os.Touch(lo, n);
      if !ok {
        return Err(PageFault);
      }
      Publish();
      mem := Memset(mem, lo, n, v);
      Reload();
      return Ok(0);
    }
  }
}
