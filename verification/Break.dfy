/** The program break and the page-protection frontier behind it (intercept.c, common.h). */
module Break {
  import opened Base
  import opened Spans

  // The page size PGSIZE is 4096.

  /** `pages` holds the addresses of the accessible pages; `given` is the history of ranges
      given back by lowering the break. */
  datatype Os = Os(heap: nat, cur: nat, limit: nat, ups: nat, downs: nat, pages: set<nat>, given: seq<Span>)

  /** The least multiple of the page size at or above `x`. */
  function AlignUp(x: nat): (r: nat)
    ensures r % 4096 == 0 && x <= r < x + 4096
  {
    (x + 4096 - 1) / 4096 * 4096
  }

  function PageSpan(lo: nat, hi: nat): set<nat> {
    set p: nat | lo <= p < hi && p % 4096 == 0
  }

  /** Moves the break to `addr`; `allocs` are the regions that must not be given back. */
  function DoBrk(os: Os, allocs: seq<Span>, addr: int): Result<Os> {
    if addr < os.heap then Err(BelowHeap)
    else if addr > os.heap + os.limit then Err(BeyondLimit)
    else if addr == os.cur then Ok(os)
    else
      var pgCur, pgNew := AlignUp(os.cur), AlignUp(addr);
      if addr > os.cur then
        Ok(os.(cur := addr, ups := os.ups + 1,
               pages := if pgNew > pgCur then os.pages + PageSpan(pgCur, pgNew) else os.pages))
      else if FindOverlap(allocs, Span(addr, os.cur, 0)) then Err(StillAllocated)
      else
        Ok(os.(cur := addr, downs := os.downs + 1, given := os.given + [Span(addr, os.cur, 0)],
               pages := if pgNew < pgCur then os.pages - PageSpan(pgNew, pgCur) else os.pages))
  }

  function InitOs(heap: nat, limit: nat): Os {
    Os(heap, heap, limit, 0, 0, {}, [])
  }

  /** The accessible pages are exactly those of [heap, ALIGN_UP(cur)). */
  ghost predicate Frontier(os: Os) {
    && os.heap % 4096 == 0 && os.heap <= os.cur <= os.heap + os.limit
    && os.pages == PageSpan(os.heap, AlignUp(os.cur))
    && |os.given| == os.downs
  }

  /** Between `os` and `os'` nothing was given back that meets a region of `allocs`. */
  ghost predicate GaveBackSafely(os: Os, os': Os, allocs: seq<Span>) {
    && os.given <= os'.given
    && forall i | |os.given| <= i < |os'.given| :: !AnyMeets(allocs, os'.given[i])
  }

  lemma AlignUpMonotone(x: nat, y: nat)
    requires x <= y
    ensures AlignUp(x) <= AlignUp(y)
  {
  }

  /** Where a move to `addr` leaves the break, the call counters, the history and the pages. */
  ghost predicate MovedTo(os: Os, addr: int, os': Os) {
    && os'.cur == addr && os'.heap == os.heap && os'.limit == os.limit
    && os'.ups == os.ups + (if addr > os.cur then 1 else 0)
    && os'.downs == os.downs + (if addr < os.cur then 1 else 0)
    && os'.given == (if addr < os.cur then os.given + [Span(addr, os.cur, 0)] else os.given)
    && (forall p: nat :: p in os'.pages <==> p % 4096 == 0 && os.heap <= p < AlignUp(os'.cur))
  }

  /** A move reaches its target, or fails exactly for a target outside the heap or for a
      lowering whose range the search reports. A lowering, and nothing else, adds the range
      given back to the history. */
  lemma DoBrkKeepsFrontier(os: Os, allocs: seq<Span>, addr: int)
    requires Frontier(os)
    ensures DoBrk(os, allocs, addr) == Err(BelowHeap) <==> addr < os.heap
    ensures DoBrk(os, allocs, addr) == Err(BeyondLimit) <==> addr > os.heap + os.limit
    ensures DoBrk(os, allocs, addr) == Err(StillAllocated) <==>
            os.heap <= addr < os.cur && FindOverlap(allocs, Span(addr, os.cur, 0))
    ensures match DoBrk(os, allocs, addr)
            case Ok(os') => Frontier(os') && MovedTo(os, addr, os')
            case Err(f) => f == BelowHeap || f == BeyondLimit || f == StillAllocated
  {
    if os.heap <= addr <= os.heap + os.limit {
      if addr <= os.cur {
        AlignUpMonotone(addr, os.cur);
      } else {
        AlignUpMonotone(os.cur, addr);
      }
    }
  }

  /** With sorted regions the lowering fails exactly when the first of them meets the range. */
  lemma LowerFailsIff(os: Os, allocs: seq<Span>, addr: int)
    requires Frontier(os) && Sorted(allocs) && os.heap <= addr < os.cur
    ensures DoBrk(os, allocs, addr) == Err(StillAllocated) <==>
            allocs != [] && allocs[0].start < os.cur && addr < allocs[0].end
    ensures DoBrk(os, allocs, addr).Ok? <==> !(allocs != [] && allocs[0].start < os.cur && addr < allocs[0].end)
  {
    DoBrkKeepsFrontier(os, allocs, addr);
    WrittenSearchSeesTheHeadOnly(allocs, Span(addr, os.cur, 0));
  }

  /** Lowering the break over memory that no region meets passes the check and is safe. */
  lemma LowerSafely(os: Os, allocs: seq<Span>, addr: int)
    requires Frontier(os) && os.heap <= addr <= os.cur
    requires !AnyMeets(allocs, Span(addr, os.cur, 0))
    ensures var r := DoBrk(os, allocs, addr); r.Ok? && GaveBackSafely(os, r.value, allocs)
  {
    SearchFindsMembers(allocs, Span(addr, os.cur, 0));
  }

  // ---------------------------------------------------------------- accesses

  /** Byte `x` lies on an accessible page. */
  predicate Readable(os: Os, x: nat) {
    x / 4096 * 4096 in os.pages
  }

  predicate Accessible(os: Os, lo: nat, n: nat) {
    forall x: nat | lo <= x < lo + n :: Readable(os, x)
  }

  lemma ReadableIff(os: Os, x: nat)
    requires Frontier(os) && os.heap <= x
    ensures Readable(os, x) <==> x < AlignUp(os.cur)
  {
  }

  /** A range above the heap start can be accessed exactly when it ends at or below the
      rounded-up break. */
  lemma AccessibleIff(os: Os, lo: nat, n: nat)
    requires Frontier(os) && os.heap <= lo
    ensures Accessible(os, lo, n) <==> n == 0 || lo + n <= AlignUp(os.cur)
  {
    hide Frontier, Readable, AlignUp;
    forall x: nat | lo <= x < lo + n ensures Readable(os, x) <==> x < AlignUp(os.cur) {
      ReadableIff(os, x);
    }
    if n > 0 {
      assert lo <= lo + n - 1 < lo + n;
      ReadableIff(os, lo + n - 1);
    }
  }

  /** Eight-aligned bytes just behind `x` are below the rounded-up break unless the break
      stands at `x` and on a page boundary. */
  lemma PastTheEdge(x: nat, slack: nat)
    requires x % 8 == 0
    ensures AlignUp(x + slack) == x <==> slack == 0 && x % 4096 == 0
    ensures AlignUp(x + slack) != x ==> x + 8 <= AlignUp(x + slack)
  {
    if slack == 0 && x % 4096 == 0 {
    } else {
      hide AlignUp;
      NextEight(x, AlignUp(x + slack));
    }
  }

  lemma NextEight(x: nat, p: nat)
    requires x % 8 == 0 && p % 4096 == 0 && x < p
    ensures x + 8 <= p
  {
    assert p == 8 * (512 * (p / 4096)) && x == 8 * (x / 8);
  }

  // ---------------------------------------------------------------- sequences of moves

  /** Any sequence of break moves; a failed assertion ends it. */
  function Moves(os: Os, allocs: seq<Span>, addrs: seq<int>): Result<Os>
    decreases |addrs|
  {
    if addrs == [] then Ok(os)
    else
      var os' :- DoBrk(os, allocs, addrs[0]);
      Moves(os', allocs, addrs[1..])
  }

  /** The ranges a sequence of moves gives back, starting from break `cur`. */
  function Lowerings(cur: int, addrs: seq<int>): seq<(int, int)>
    decreases |addrs|
  {
    if addrs == [] then []
    else (if addrs[0] < cur then [(addrs[0], cur)] else []) + Lowerings(addrs[0], addrs[1..])
  }

  function Raises(cur: int, addrs: seq<int>): nat
    decreases |addrs|
  {
    if addrs == [] then 0 else (if addrs[0] > cur then 1 else 0) + Raises(addrs[0], addrs[1..])
  }

  function Bounds(rs: seq<Span>): (bs: seq<(int, int)>)
    ensures |bs| == |rs| && forall i | 0 <= i < |rs| :: bs[i] == (rs[i].start, rs[i].end)
  {
    seq(|rs|, i requires 0 <= i < |rs| => (rs[i].start, rs[i].end))
  }

  /** After any sequence of break moves the accessible pages are exactly those below the
      rounded-up break, the history is exactly the ranges lowered over, and the call counters
      are the numbers of raises and lowerings. */
  lemma {:induction false} MovesKeepFrontier(os: Os, allocs: seq<Span>, addrs: seq<int>)
    requires Frontier(os)
    ensures match Moves(os, allocs, addrs)
            case Ok(os') =>
              && os'.pages == PageSpan(os.heap, AlignUp(os'.cur))
              && Frontier(os') && os'.heap == os.heap
              && os'.cur == (if addrs == [] then os.cur else addrs[|addrs|-1])
              && Bounds(os'.given) == Bounds(os.given) + Lowerings(os.cur, addrs)
              && os'.ups == os.ups + Raises(os.cur, addrs)
              && os'.downs == os.downs + |Lowerings(os.cur, addrs)|
            case Err(_) => true
    decreases |addrs|
  {
    if addrs != [] {
      DoBrkKeepsFrontier(os, allocs, addrs[0]);
      hide DoBrk, FindOverlap, AlignUp;
      match DoBrk(os, allocs, addrs[0])
      case Ok(os') =>
        MovesKeepFrontier(os', allocs, addrs[1..]);
        assert Bounds(os'.given) == Bounds(os.given) + (if addrs[0] < os.cur then [(addrs[0], os.cur)] else []);
      case Err(_) =>
    }
  }

  lemma InitFrontier(heap: nat, limit: nat)
    requires heap % 4096 == 0
    ensures Frontier(InitOs(heap, limit))
  {
    assert AlignUp(heap) == heap;
  }

  // ---------------------------------------------------------------- the masking form

  function Pow2(n: nat): (r: nat)
    ensures r > 0
  {
    if n == 0 then 1 else 2 * Pow2(n - 1)
  }

  /** Bitwise conjunction of two words. */
  function And(x: nat, y: nat): nat {
    if x == 0 then 0 else (x % 2) * (y % 2) + 2 * And(x / 2, y / 2)
  }

  /** ALIGN_UP as the source computes it on words of n bits (64 for uintptr_t):
      (x + a - 1) & ~(a - 1). */
  function AlignUpMask(x: nat, n: nat): nat
    requires 4096 <= Pow2(n)
  {
    And((x + 4096 - 1) % Pow2(n), Pow2(n) - 1 - (4096 - 1))
  }

  /** The k low bits of a word, and the word shifted right by k bits. */
  function LowBits(x: nat, k: nat): (r: nat)
    ensures r < Pow2(k)
  {
    if k == 0 then 0 else 2 * LowBits(x / 2, k - 1) + x % 2
  }

  function Shift(x: nat, k: nat): nat {
    if k == 0 then x else Shift(x / 2, k - 1)
  }

  lemma {:induction false} LowAndShift(x: nat, k: nat)
    ensures x == LowBits(x, k) + Pow2(k) * Shift(x, k)
  {
    if k > 0 {
      LowAndShift(x / 2, k - 1);
      TwiceProduct(Pow2(k - 1), Shift(x / 2, k - 1));
      hide *;
      assert x == 2 * (x / 2) + x % 2;
    }
  }

  lemma TwiceProduct(p: nat, h: nat)
    ensures (2 * p) * h == 2 * (p * h)
  {
  }

  /** A mask of ones above bit k clears the k low bits of an n-bit word. */
  lemma {:induction false} MaskClearsLowBits(x: nat, k: nat, n: nat)
    requires k <= n && x < Pow2(n)
    ensures Pow2(k) <= Pow2(n)
    ensures And(x, Pow2(n) - Pow2(k)) == x - LowBits(x, k)
  {
    if n > 0 {
      var k' := if k == 0 then 0 else k - 1;
      MaskClearsLowBits(x / 2, k', n - 1);
      HalvedMask(k, k', n);
      AndHalves(x, Pow2(n) - Pow2(k));
      hide And;
    }
  }

  lemma {:induction false} HalvedMask(k: nat, k': nat, n: nat)
    requires n > 0 && k' == (if k == 0 then 0 else k - 1) && Pow2(k') <= Pow2(n - 1)
    ensures var mask := Pow2(n) - Pow2(k);
            mask >= 0 && mask / 2 == Pow2(n - 1) - Pow2(k') && mask % 2 == if k == 0 then 1 else 0
  {
  }

  lemma {:induction false} AndHalves(x: nat, y: nat)
    ensures And(x, y) == (if y % 2 == 1 then x % 2 else 0) + 2 * And(x / 2, y / 2)
  {
  }

  lemma LowPageBits(x: nat, k: nat)
    requires Pow2(k) == 4096
    ensures LowBits(x, k) == x % 4096
  {
    LowAndShift(x, k);
  }

  lemma NoWrap(x: nat, n: nat)
    requires x < n
    ensures x % n == x
  {
  }

  lemma MaskIsAlignUp(x: nat, k: nat, n: nat)
    requires k <= n && Pow2(k) == 4096 && x + 4096 - 1 < Pow2(n)
    ensures 4096 <= Pow2(n) && AlignUpMask(x, n) == AlignUp(x)
  {
    var word := x + 4096 - 1;
    NoWrap(word, Pow2(n));
    LowPageBits(word, k);
    MaskClearsLowBits(word, k, n);
  }

  lemma LeastMultiple(x: nat, m: nat)
    requires m % 4096 == 0 && x <= m
    ensures AlignUp(x) <= m
  {
    assert m == 4096 * (m / 4096);
    assert (x + 4095) / 4096 <= m / 4096;
  }

  /** On words of any width n whose rounding does not wrap, the mask is the least multiple
      of the page size at or above its argument. */
  lemma MaskIsLeastMultiple(x: nat, n: nat, m: nat)
    requires n >= 12 && x + 4096 - 1 < Pow2(n)
    ensures AlignUpMask(x, n) == AlignUp(x)
    ensures m % 4096 == 0 && x <= m ==> AlignUpMask(x, n) <= m
  {
    assert Pow2(12) == 4096;
    MaskIsAlignUp(x, 12, n);
    hide AlignUpMask, AlignUp, Pow2;
    if m % 4096 == 0 && x <= m {
      LeastMultiple(x, m);
    }
  }
}
