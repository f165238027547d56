/** The linked free list of alloc.c: `struct free_list` records, what it means for them to
    refine a sequence of blocks, the list surgery that kumalloc and kufree need, and that
    surgery as the source has it. */
module FreeList {
  import opened Blocks

  class FreeNode {
    const addr: nat
    var size: nat
    var next: FreeNode?
    var prev: FreeNode?

    constructor (addr: nat, size: nat)
      ensures this.addr == addr && this.size == size && next == null && prev == null
    {
      this.addr := addr;
      this.size := size;
      next := null;
      prev := null;
    }

    function ToBlock(): Block
      reads this`size
    {
      Block(addr, size)
    }
  }

  function At(ns: seq<FreeNode>, i: int): FreeNode? {
    if 0 <= i < |ns| then ns[i] else null
  }

  ghost predicate Distinct(ns: seq<FreeNode>) {
    forall i, j | 0 <= i < j < |ns| :: ns[i] != ns[j]
  }

  /** Following `next` from `head` visits exactly `ns`, in order, and stops. */
  ghost predicate Chained(head: FreeNode?, ns: seq<FreeNode>)
    reads ns
  {
    && Distinct(ns) && head == At(ns, 0)
    && forall i {:trigger ns[i].next} | 0 <= i < |ns| :: ns[i].next == At(ns, i + 1)
  }

  /** Chained, and every `prev` mirrors the `next` that leads to it. */
  ghost predicate Linked(head: FreeNode?, ns: seq<FreeNode>)
    reads ns
  {
    && Chained(head, ns)
    && forall i {:trigger ns[i].prev} | 0 <= i < |ns| :: ns[i].prev == At(ns, i - 1)
  }

  /** Chained, and `prev` is right in every node but the first, whose `prev` nobody follows. */
  ghost predicate Walkable(head: FreeNode?, ns: seq<FreeNode>)
    reads ns
  {
    && Chained(head, ns)
    && forall i {:trigger ns[i].prev} | 1 <= i < |ns| :: ns[i].prev == ns[i - 1]
  }

  /** Following `next` from `head` visits `ms` and then comes back to `ms[back]`, for ever. */
  ghost predicate Loops(head: FreeNode?, ms: seq<FreeNode>, back: nat)
    reads ms
  {
    && back < |ms| && head == ms[0] && ms[|ms| - 1].next == ms[back]
    && forall i {:trigger ms[i].next} | 0 <= i < |ms| - 1 :: ms[i].next == ms[i + 1]
  }

  // ---------------------------------------------------------------- list surgery

  lemma WithoutDistinct(ns: seq<FreeNode>, k: nat)
    requires Distinct(ns) && k < |ns|
    ensures Distinct(Without(ns, k))
  {
  }

  /** Takes node `n` out of the list (repair of lines 109-114, 130-131, 198-202, 255-268 and
      301-316: both neighbours are relinked, and a missing one is not followed). */
  method Unlink(head: FreeNode?, n: FreeNode, ghost ns: seq<FreeNode>, ghost k: nat) returns (head': FreeNode?)
    requires Linked(head, ns) && k < |ns| && ns[k] == n
    modifies ns`next, ns`prev
    ensures Linked(head', Without(ns, k))
  {
    WithoutDistinct(ns, k);
    head' := head;
    if n.prev == null {
      head' := n.next;
    } else {
      n.prev.next := n.next;
    }
    if n.next != null {
      n.next.prev := n.prev;
    }
  }

  /** Puts `m` in the list position of `n` (repair of lines 107-109, 123-126 and 338-344: the
      successor's `prev` is set, and a missing successor is not followed). */
  method Replace(head: FreeNode?, n: FreeNode, m: FreeNode, ghost ns: seq<FreeNode>, ghost k: nat)
    returns (head': FreeNode?)
    requires Linked(head, ns) && k < |ns| && ns[k] == n && m !in ns
    modifies ns`next, ns`prev, m`next, m`prev
    ensures Linked(head', ns[k := m])
  {
    head' := head;
    m.next := n.next;
    m.prev := n.prev;
    if n.prev == null {
      head' := m;
    } else {
      n.prev.next := m;
    }
    if n.next != null {
      n.next.prev := m;
    }
  }

  /** Puts `m` in front of the list (repair of lines 209-210 and 350: its `prev` is cleared). */
  method PushFront(head: FreeNode?, m: FreeNode, ghost ns: seq<FreeNode>) returns (head': FreeNode?)
    requires Linked(head, ns) && m !in ns
    modifies ns`next, ns`prev, m`next, m`prev
    ensures Linked(head', [m] + ns)
  {
    m.next := head;
    m.prev := null;
    if head != null {
      head.prev := m;
    }
    head' := m;
  }

  // ---------------------------------------------------------------- the surgery as written

  /** When the surgery on position `k` (or on `i` and its right neighbour `j`) of a list of `n`
      nodes leaves every `prev` that is followed right. */
  predicate ReuseKeepsPrev(n: nat, k: nat, split: bool) {
    !(split && k == 0 && n > 1)
  }

  predicate TrimKeepsPrev(n: nat, k: nat) {
    k == 0 || k + 1 == n
  }

  predicate RightKeepsPrev(n: nat, k: nat) {
    k + 1 == n
  }

  predicate ThreeKeepsPrev(n: nat, i: nat, j: nat) {
    (j == 0 && i == 1) || n == 2
  }

  function Reused(ns: seq<FreeNode>, k: nat, rest: FreeNode, split: bool): seq<FreeNode>
    requires k < |ns|
  {
    if split then ns[k := rest] else Without(ns, k)
  }

  /** Lines 104-115: the first block leaves the list, or `rest` takes its place. */
  method ReuseFirstAsWritten(head: FreeNode, rest: FreeNode, split: bool, ghost ns: seq<FreeNode>)
    returns (head': FreeNode?)
    requires Walkable(head, ns) && rest !in ns
    modifies ns, rest
    ensures Chained(head', Reused(ns, 0, rest, split))
    ensures Walkable(head', Reused(ns, 0, rest, split)) <==> !split || |ns| == 1
    ensures old(Linked(head, ns)) ==> (Linked(head', Reused(ns, 0, rest, split)) <==> !split || |ns| == 1)
  {
    if split {
      rest.next := head.next;
      rest.prev := head.prev;
      head' := rest;
      assert |ns| > 1 ==> ns[1].prev == head && ns[0 := rest][1] == ns[1];
    } else {
      head' := head.next;
      if head' != null {
        head'.prev := null;
      }
    }
  }

  /** Lines 117-139: the same for a block behind the first, found from the front. */
  method ReuseInnerAsWritten(head: FreeNode, b: FreeNode, rest: FreeNode, split: bool,
                             ghost ns: seq<FreeNode>, ghost k: nat)
    returns (crashed: bool)
    requires Walkable(head, ns) && 0 < k < |ns| && ns[k] == b && rest !in ns
    modifies ns, rest
    ensures crashed <==> k == |ns| - 1
    ensures !crashed ==> Walkable(head, Reused(ns, k, rest, split))
    ensures !crashed && old(Linked(head, ns)) ==> Linked(head, Reused(ns, k, rest, split))
  {
    var temp := head;
    ghost var i := 0;
    while temp.next != b
      invariant 0 <= i < k && temp == ns[i]
      decreases k - i
    {
      temp := temp.next;
      i := i + 1;
    }
    if split {
      rest.next := temp.next.next;
      if temp.next.next == null {
        return true;
      }
      temp.next.next.prev := rest;
      temp.next := rest;
      rest.prev := temp;
    } else {
      if temp.next.next == null {
        return true;
      }
      temp.next.next.prev := temp;
      temp.next := temp.next.next;
    }
    return false;
  }

  /** Lines 103-140: free block `b` leaves the list, or `rest` takes its place. The chain of
      `next` pointers is right unless the block is last but not first, where a missing
      successor is dereferenced; the `prev` pointers are right unless a first block with a
      successor is split. */
  method ReuseLinksAsWritten(head: FreeNode?, b: FreeNode, rest: FreeNode, split: bool,
                             ghost ns: seq<FreeNode>, ghost k: nat)
    returns (head': FreeNode?, crashed: bool)
    requires Walkable(head, ns) && k < |ns| && ns[k] == b && rest !in ns
    modifies ns, rest
    ensures crashed <==> 0 < k == |ns| - 1
    ensures !crashed ==> Chained(head', Reused(ns, k, rest, split))
    ensures !crashed ==> (Walkable(head', Reused(ns, k, rest, split)) <==> ReuseKeepsPrev(|ns|, k, split))
    ensures !crashed && old(Linked(head, ns)) ==>
              (Linked(head', Reused(ns, k, rest, split)) <==> !(split && k == 0 && |ns| > 1))
  {
    head', crashed := head, false;
    if head == b {
      head' := ReuseFirstAsWritten(head, rest, split, ns);
    } else {
      crashed := ReuseInnerAsWritten(head, b, rest, split, ns, k);
    }
  }

  /** Lines 198-202: the trim unlinks `n`. Its successor keeps a `prev` that points to it, which
      matters unless that successor is now the first node. */
  method TrimUnlinkAsWritten(head: FreeNode?, n: FreeNode, ghost ns: seq<FreeNode>, ghost k: nat)
    returns (head': FreeNode?)
    requires Walkable(head, ns) && k < |ns| && ns[k] == n
    modifies ns
    ensures Chained(head', Without(ns, k))
    ensures Walkable(head', Without(ns, k)) <==> TrimKeepsPrev(|ns|, k)
    ensures old(Linked(head, ns)) ==> (Linked(head', Without(ns, k)) <==> k == |ns| - 1)
  {
    head' := head;
    if n == head {
      head' := head.next;
    } else {
      n.prev.next := n.next;
    }
    assert k < |ns| - 1 ==> Without(ns, k)[k] == ns[k + 1] && ns[k + 1].prev == n;
  }

  /** Lines 337-344: `m` absorbs its right neighbour `n` and takes its place. */
  method MergeRightAsWritten(head: FreeNode?, n: FreeNode, m: FreeNode, ghost ns: seq<FreeNode>, ghost k: nat)
    returns (head': FreeNode?)
    requires Walkable(head, ns) && k < |ns| && ns[k] == n && m !in ns
    modifies ns, m
    ensures m.size == old(m.size) + old(n.size)
    ensures Chained(head', ns[k := m])
    ensures Walkable(head', ns[k := m]) <==> RightKeepsPrev(|ns|, k)
    ensures old(Linked(head, ns)) ==> (Linked(head', ns[k := m]) <==> k == |ns| - 1)
  {
    head' := head;
    m.size := m.size + n.size;
    m.next := n.next;
    m.prev := n.prev;
    if n != head {
      n.prev.next := m;
    } else {
      head' := m;
    }
    assert k < |ns| - 1 ==> ns[k := m][k + 1] == ns[k + 1] && ns[k + 1].prev == n;
  }

  /** Lines 209-210 and 350-353: `m` goes in front, its `prev` keeps what memory held. */
  method PushAsWritten(head: FreeNode?, m: FreeNode, ghost ns: seq<FreeNode>) returns (head': FreeNode?)
    requires Walkable(head, ns) && m !in ns
    modifies ns, m
    ensures Walkable(head', [m] + ns)
    ensures Linked(head', [m] + ns) <==> old(m.prev) == null
  {
    if head == null {
      m.next := null;
    } else {
      m.next := head;
      head.prev := m;
    }
    head' := m;
    ghost var ms := [m] + ns;
    assert ms[0].prev == m.prev;
    forall i | 1 <= i < |ms| ensures ms[i].prev == ms[i - 1] {
      assert ms[i] == ns[i - 1] && ms[i - 1] == (if i == 1 then m else ns[i - 2]);
    }
  }

  /** Where lines 252-268 leave the links of node `m` when `ns[i]` absorbs `ns[j]`. */
  function NextAfter(ns: seq<FreeNode>, i: nat, j: nat, m: nat): FreeNode?
    requires i < |ns| && j < |ns| && m < |ns|
  {
    if m + 1 == j then (if m == i == 0 then null else ns[i])
    else if m == i && j + 1 != i then At(ns, j + 1)
    else At(ns, m + 1)
  }

  ghost predicate ThreeMerged(head: FreeNode?, ns: seq<FreeNode>, i: nat, j: nat)
    reads ns
  {
    && i < |ns| && j < |ns| && i != j && Distinct(ns)
    && head == (if j == 0 then ns[i] else ns[0])
    && (forall m {:trigger ns[m].next} | 0 <= m < |ns| :: ns[m].next == NextAfter(ns, i, j, m))
    && (forall m {:trigger ns[m].prev} | 1 <= m < |ns| :: ns[m].prev == if m == j + 1 then ns[i] else ns[m - 1])
  }

  /** The chain survives exactly when `r` stands immediately before `l` or the two are alone. */
  lemma ThreeChained(head: FreeNode?, ns: seq<FreeNode>, i: nat, j: nat)
    requires ThreeMerged(head, ns, i, j)
    ensures Chained(head, Without(ns, j)) <==> j + 1 == i || |ns| == 2
  {
    var ms := Without(ns, j);
    var p := if i < j then i else i - 1;
    assert ms[p] == ns[i] && ns[i].next == NextAfter(ns, i, j, i);
    if j + 1 == i || |ns| == 2 {
      forall m | 0 <= m < |ms| ensures ms[m].next == At(ms, m + 1) {
        var o := if m < j then m else m + 1;
        assert ms[m] == ns[o] && ns[o].next == NextAfter(ns, i, j, o);
      }
    } else if i < j {
      assert i + 1 < j ==> ms[i + 1] == ns[i + 1];
    } else {
      assert ms[j] == ns[j + 1];
    }
  }

  lemma ThreeWalkable(head: FreeNode?, ns: seq<FreeNode>, i: nat, j: nat)
    requires ThreeMerged(head, ns, i, j)
    ensures Walkable(head, Without(ns, j)) <==> ThreeKeepsPrev(|ns|, i, j)
  {
    var ms := Without(ns, j);
    ThreeChained(head, ns, i, j);
    if j + 1 == i && j > 0 {
      assert ms[j] == ns[i] && ns[i].prev == ns[i] && ms[j - 1] == ns[j - 1];
    } else if j == 0 && i == 1 {
      forall m | 1 <= m < |ms| ensures ms[m].prev == ms[m - 1] {
        assert ms[m] == ns[m + 1] && ms[m - 1] == ns[m];
      }
    }
  }

  lemma ThreeLinked(head: FreeNode?, ns: seq<FreeNode>, i: nat, j: nat)
    requires ThreeMerged(head, ns, i, j) && ns[0].prev == null
    ensures Linked(head, Without(ns, j)) <==> i == 0 && j == 1 && |ns| == 2
  {
    ThreeWalkable(head, ns, i, j);
    var ms := Without(ns, j);
    assert ms[0] == ns[if j == 0 then 1 else 0];
    assert j == 0 ==> ns[1].prev == ns[i];
  }

  /** What the list is otherwise: with `l` before `r` the nodes between them are lost; if `r`
      follows `l`, everything behind them is lost or `l` follows itself; with `r` before `l`
      and others between, `l` moves in front of these and is reached again. */
  lemma ThreeLost(head: FreeNode?, ns: seq<FreeNode>, i: nat, j: nat)
    requires ThreeMerged(head, ns, i, j)
    ensures i + 1 < j ==> Chained(head, ns[..i + 1] + ns[j + 1..])
    ensures i == 0 && j == 1 ==> Chained(head, ns[..1])
    ensures 0 < i && j == i + 1 ==> Loops(head, ns[..i + 1], i)
    ensures j + 1 < i ==> Loops(head, ns[..j] + [ns[i]] + ns[j + 1..i], j)
  {
    if i + 1 < j {
      var ms := ns[..i + 1] + ns[j + 1..];
      forall m | 0 <= m < |ms| ensures ms[m].next == At(ms, m + 1) {
        var o := if m <= i then m else m + (j - i);
        assert ms[m] == ns[o] && ns[o].next == NextAfter(ns, i, j, o);
      }
    } else if j + 1 < i {
      var ms := ns[..j] + [ns[i]] + ns[j + 1..i];
      forall m | 0 <= m < |ms| ensures ms[m].next == (if m + 1 < |ms| then ms[m + 1] else ms[j]) {
        var o := if m == j then i else m;
        assert ms[m] == ns[o] && ns[o].next == NextAfter(ns, i, j, o);
      }
    } else if j == i + 1 {
      forall m | 0 <= m < i + 1 ensures ns[m].next == NextAfter(ns, i, j, m) {
      }
    }
  }

  /** Lines 252-268, and 298-316 with the roles of the two cursors exchanged: `l` absorbs a
      block of `size` bytes and its right neighbour `r`. ThreeLost says what becomes of the
      list when the chain does not survive. */
  method MergeThreeAsWritten(head: FreeNode?, l: FreeNode, r: FreeNode, size: nat,
                             ghost ns: seq<FreeNode>, ghost i: nat, ghost j: nat)
    returns (head': FreeNode?)
    requires Walkable(head, ns) && i < |ns| && j < |ns| && i != j && ns[i] == l && ns[j] == r
    modifies ns
    ensures l.size == old(l.size) + size + old(r.size)
    ensures ThreeMerged(head', ns, i, j)
    ensures Chained(head', Without(ns, j)) <==> j + 1 == i || |ns| == 2
    ensures Walkable(head', Without(ns, j)) <==> ThreeKeepsPrev(|ns|, i, j)
    ensures old(Linked(head, ns)) ==> (Linked(head', Without(ns, j)) <==> i == 0 && j == 1 && |ns| == 2)
  {
    hide NoDup;
    ghost var linked := Linked(head, ns);
    head' := head;
    l.size := l.size + size + r.size;
    if r.next != l {
      l.next := r.next;
    }
    if r.next != null {
      r.next.prev := l;
    }
    if r != head {
      r.prev.next := l;
    } else {
      head' := l;
    }
    if head' == head'.next {
      head'.next := null;
    }
    ThreeChained(head', ns, i, j);
    ThreeWalkable(head', ns, i, j);
    if linked {
      ThreeLinked(head', ns, i, j);
    }
  }
}
