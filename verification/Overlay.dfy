/** Size fields as bytes of the heap. A block, live or free, keeps its size in its first eight
    bytes, little-endian; whoever writes over these bytes changes the size. */
module Overlay {
  import opened Base
  import opened Blocks
  import opened Spans
  import opened Break
  import opened HeapSpec
  import opened Payloads
  import opened HeapLaws

  // ---------------------------------------------------------------- numbers as bytes

  /** Digit `i` of a number of `n` bytes; the last digit takes what is left, so that every
      number has a form (the program's sizes are below 2^64 and leave a byte). */
  function Digit(v: nat, i: nat, n: nat): nat
    requires i < n
  {
    if n == 1 then v else if i == 0 then v % 256 else Digit(v / 256, i - 1, n - 1)
  }

  /** The number that `n` bytes of memory hold. */
  function Word(mem: Memory, at: nat, n: nat): nat
    requires n > 0
    decreases n
  {
    if n == 1 then mem(at) else mem(at) + 256 * Word(mem, at + 1, n - 1)
  }

  /** The `n` bytes at `at` are the digits of `v`. */
  ghost predicate Spelled(mem: Memory, at: nat, v: nat, n: nat) {
    forall x: nat {:trigger mem(x)} | at <= x < at + n :: mem(x) == Digit(v, x - at, n)
  }

  ghost predicate AreBytes(mem: Memory, lo: nat, hi: nat) {
    forall x: nat {:trigger mem(x)} | lo <= x < hi :: mem(x) < 256
  }

  lemma {:induction false} WordOfDigits(mem: Memory, at: nat, v: nat, n: nat)
    requires n > 0 && Spelled(mem, at, v, n)
    ensures Word(mem, at, n) == v
    decreases n
  {
    assert mem(at) == Digit(v, 0, n);
    if n > 1 {
      forall x: nat | at + 1 <= x < at + n ensures mem(x) == Digit(v / 256, x - (at + 1), n - 1) {
        assert mem(x) == Digit(v, x - at, n);
      }
      WordOfDigits(mem, at + 1, v / 256, n - 1);
    }
  }

  lemma {:induction false} DigitsOfWord(mem: Memory, at: nat, n: nat)
    requires n > 0 && AreBytes(mem, at, at + n - 1)
    ensures Spelled(mem, at, Word(mem, at, n), n)
    decreases n
  {
    if n > 1 {
      var v, rest := Word(mem, at, n), Word(mem, at + 1, n - 1);
      assert mem(at) < 256;
      QuotientAndRest(mem(at), rest);
      DigitsOfWord(mem, at + 1, n - 1);
      forall x: nat | at <= x < at + n ensures mem(x) == Digit(v, x - at, n) {
        assert x > at ==> mem(x) == Digit(rest, x - (at + 1), n - 1);
      }
    }
  }

  lemma QuotientAndRest(low: nat, rest: nat)
    requires low < 256
    ensures (low + 256 * rest) % 256 == low && (low + 256 * rest) / 256 == rest
  {
  }

  lemma {:induction false} DigitIsByte(v: nat, i: nat, n: nat)
    requires i < n - 1
    ensures Digit(v, i, n) < 256
  {
    if i > 0 {
      DigitIsByte(v / 256, i - 1, n - 1);
    }
  }

  // ---------------------------------------------------------------- the size fields

  function FreeFields(free: seq<Block>): map<nat, nat> {
    if free == [] then map[]
    else
      var b := free[|free| - 1];
      FreeFields(free[..|free| - 1])[b.addr := b.size]
  }

  /** Every size field of the heap: its address and the size it holds. */
  function Fields(h: Heap): map<nat, nat> {
    FreeFields(h.free) + h.live
  }

  /** Memory with the size fields stored in it. */
  function Stamp(mem: Memory, fields: map<nat, nat>): Memory {
    (x: nat) => if x / 8 * 8 in fields then Digit(fields[x / 8 * 8], x % 8, 8) else mem(x)
  }

  function Reread(free: seq<Block>, mem: Memory): (r: seq<Block>)
    ensures |r| == |free| && forall k | 0 <= k < |r| :: r[k] == Block(free[k].addr, Word(mem, free[k].addr, 8))
  {
    seq(|free|, k requires 0 <= k < |free| => Block(free[k].addr, Word(mem, free[k].addr, 8)))
  }

  /** The heap with every size read back from memory. */
  function Reload(h: Heap, mem: Memory): (r: Heap)
    ensures r.live.Keys == h.live.Keys && r.os == h.os
  {
    h.(free := Reread(h.free, mem), live := map a | a in h.live :: Word(mem, a, 8))
  }

  /** Memory after a fill of `n` bytes at `lo`. */
  function Filled(h: Heap, mem: Memory, lo: nat, n: nat, v: nat): Memory {
    Memset(Stamp(mem, Fields(h)), lo, n, v)
  }

  /** memset by a caller of the allocator: bytes that belong to a size field change the size. */
  function Fill(h: Heap, mem: Memory, lo: nat, n: nat, v: nat): (r: Result<(Heap, Memory)>)
    ensures r.Ok? ==> r.value.0.live.Keys == h.live.Keys
  {
    if !Accessible(h.os, lo, n) then Err(PageFault)
    else
      var mem' := Filled(h, mem, lo, n, v);
      Ok((Reload(h, mem'), mem'))
  }

  // ---------------------------------------------------------------- fields and payloads

  ghost predicate DistinctAddrs(free: seq<Block>) {
    forall i, j | 0 <= i < j < |free| :: free[i].addr != free[j].addr
  }

  lemma {:induction false} FreeFieldsAre(free: seq<Block>)
    requires DistinctAddrs(free)
    ensures forall k | 0 <= k < |free| ::
              free[k].addr in FreeFields(free) && FreeFields(free)[free[k].addr] == free[k].size
    ensures forall c <- FreeFields(free) :: Block(c, FreeFields(free)[c]) in free
  {
    if free != [] {
      FreeFieldsAre(free[..|free| - 1]);
    }
  }

  lemma BlocksApart(h: Heap)
    requires Inv(h)
    ensures DistinctAddrs(h.free)
    ensures forall k | 0 <= k < |h.free| :: h.free[k].addr !in h.live
    ensures forall b <- SetOf(h.free) + LiveSet(h.live) :: b.addr % 8 == 0 && b.size >= 8 && h.os.heap <= b.addr
  {
    var bs := SetOf(h.free) + LiveSet(h.live);
    forall i, j | 0 <= i < j < |h.free| ensures h.free[i].addr != h.free[j].addr {
      assert h.free[i] in bs && h.free[j] in bs && Apart(h.free[i], h.free[j]);
    }
    forall k | 0 <= k < |h.free| ensures h.free[k].addr !in h.live {
      FreeBlockNotLive(h, k);
    }
    forall b | b in bs ensures b.addr % 8 == 0 {
      StaysAligned(h.os.heap, b.addr);
    }
  }

  /** In a well-formed heap the fields are exactly the starts and sizes of the blocks. */
  lemma FieldsAre(h: Heap)
    requires Inv(h)
    ensures forall a <- h.live :: a in Fields(h) && Fields(h)[a] == h.live[a]
    ensures forall k | 0 <= k < |h.free| :: h.free[k].addr in Fields(h) && Fields(h)[h.free[k].addr] == h.free[k].size
    ensures forall c <- Fields(h) :: c % 8 == 0 && Block(c, Fields(h)[c]) in SetOf(h.free) + LiveSet(h.live)
  {
    BlocksApart(h);
    FreeFieldsAre(h.free);
    hide Inv, FreeFields;
    forall c | c in Fields(h) ensures c % 8 == 0 && Block(c, Fields(h)[c]) in SetOf(h.free) + LiveSet(h.live) {
      if c in h.live {
        assert Block(c, h.live[c]) in LiveSet(h.live);
      }
    }
  }

  /** No size field lies in the payload of a live block; the first one behind it is the
      neighbour's. */
  lemma FieldApart(h: Heap, c: nat, ptr: nat)
    requires Inv(h) && Owned(h, ptr) && c in Fields(h)
    ensures c % 8 == 0
    ensures c + 8 <= ptr || c == ptr - 8 + h.live[ptr - 8] || ptr + h.live[ptr - 8] <= c
  {
    hide Inv, Fields, SetOf, LiveSet;
    FieldsAre(h);
    BlocksApart(h);
    LiveApart(h, ptr - 8, ptr - 8);
    LiveIsBlock(h, ptr - 8);
    TwoApart(h, Block(ptr - 8, h.live[ptr - 8]), Block(c, Fields(h)[c]));
    EightApartIf(ptr - 8, h.live[ptr - 8], c);
  }

  lemma EightApartIf(a: nat, size: nat, c: nat)
    requires a % 8 == 0 && size % 8 == 0 && c % 8 == 0
    ensures a + size < c ==> a + size + 8 <= c
  {
  }

  lemma PayloadHasNoField(h: Heap, ptr: nat, x: nat)
    requires Inv(h) && Owned(h, ptr) && ptr <= x < ptr + Payload(h, ptr)
    ensures x / 8 * 8 !in Fields(h)
  {
    hide Inv, Fields;
    LiveApart(h, ptr - 8, ptr - 8);
    EightFloor(ptr, x);
    if x / 8 * 8 in Fields(h) {
      FieldApart(h, x / 8 * 8, ptr);
    }
  }

  lemma EightFloor(ptr: nat, x: nat)
    requires ptr % 8 == 0 && ptr <= x
    ensures ptr <= x / 8 * 8 <= x
  {
    assert ptr == 8 * (ptr / 8);
  }

  lemma FieldBytes(mem: Memory, fields: map<nat, nat>, c: nat)
    requires c in fields && c % 8 == 0
    ensures Spelled(Stamp(mem, fields), c, fields[c], 8)
  {
    hide Digit;
    forall x: nat | c <= x < c + 8 ensures Stamp(mem, fields)(x) == Digit(fields[c], x - c, 8) {
      InField(c, x);
    }
  }

  lemma InField(c: nat, x: nat)
    requires c % 8 == 0 && c <= x < c + 8
    ensures x / 8 * 8 == c && x % 8 == x - c
  {
  }

  /** A field that a fill does not reach reads back as it was. */
  lemma FieldKept(mem: Memory, fields: map<nat, nat>, lo: nat, n: nat, v: nat, c: nat)
    requires c in fields && c % 8 == 0 && (c + 8 <= lo || lo + n <= c)
    ensures Word(Memset(Stamp(mem, fields), lo, n, v), c, 8) == fields[c]
  {
    FieldBytes(mem, fields, c);
    hide Stamp, Digit, Word;
    WordOfDigits(Memset(Stamp(mem, fields), lo, n, v), c, fields[c], 8);
  }

  // ---------------------------------------------------------------- fills inside and behind a payload

  /** Every field but the one at `e` reads back from `mem` as it is in the heap. */
  ghost predicate ReadsBut(h: Heap, mem: Memory, e: nat) {
    forall c <- Fields(h) | c != e :: Word(mem, c, 8) == Fields(h)[c]
  }

  lemma ReloadLive(h: Heap, mem: Memory, e: nat)
    requires Inv(h) && ReadsBut(h, mem, e)
    ensures e in h.live ==> Reload(h, mem).live == h.live[e := Word(mem, e, 8)]
    ensures e !in h.live ==> Reload(h, mem).live == h.live
  {
    hide Inv, Fields, Word;
    FieldsAre(h);
    var live := Reload(h, mem).live;
    forall a | a in h.live && a != e ensures live[a] == h.live[a] {
      assert a in Fields(h);
    }
    SameButOne(h.live, live, e);
  }

  lemma SameButOne(m: map<nat, nat>, m': map<nat, nat>, e: nat)
    requires m.Keys == m'.Keys && forall a <- m | a != e :: m'[a] == m[a]
    ensures e in m ==> m' == m[e := m'[e]]
    ensures e !in m ==> m' == m
  {
    assert forall a :: a in m <==> a in m.Keys;
    assert forall a :: a in m' <==> a in m'.Keys;
  }

  lemma ReloadFree(h: Heap, mem: Memory, e: nat)
    requires Inv(h) && ReadsBut(h, mem, e)
    ensures forall k: nat | k < |h.free| && h.free[k].addr == e ::
              Reload(h, mem).free == h.free[k := Block(e, Word(mem, e, 8))]
    ensures (forall k | 0 <= k < |h.free| :: h.free[k].addr != e) ==> Reload(h, mem).free == h.free
  {
    hide Inv, Fields, Word;
    FieldsAre(h);
    BlocksApart(h);
    var free := Reload(h, mem).free;
    forall k | 0 <= k < |h.free| && h.free[k].addr != e ensures free[k] == h.free[k] {
      assert h.free[k].addr in Fields(h);
    }
    forall k: nat | k < |h.free| && h.free[k].addr == e ensures free == h.free[k := Block(e, Word(mem, e, 8))] {
    }
  }

  /** After a fill that stays below `e + 8` every other field reads back as it was. */
  lemma FillReadsBut(h: Heap, mem: Memory, ptr: nat, n: nat, v: nat)
    requires Inv(h) && Owned(h, ptr) && n <= h.live[ptr - 8]
    ensures var mem' := Filled(h, mem, ptr, n, v);
            ReadsBut(h, mem', ptr - 8 + h.live[ptr - 8])
    ensures n <= Payload(h, ptr) ==> forall c <- Fields(h) :: Word(Filled(h, mem, ptr, n, v), c, 8) == Fields(h)[c]
  {
    hide Inv, Fields, Stamp, Memset, Word;
    var e, mem' := ptr - 8 + h.live[ptr - 8], Filled(h, mem, ptr, n, v);
    forall c | c in Fields(h) && (c != e || n <= Payload(h, ptr)) ensures Word(mem', c, 8) == Fields(h)[c] {
      FieldApart(h, c, ptr);
      FieldKept(mem, Fields(h), ptr, n, v, c);
    }
  }

  lemma NothingToReload(h: Heap, mem: Memory)
    requires Inv(h) && forall c <- Fields(h) :: Word(mem, c, 8) == Fields(h)[c]
    ensures Reload(h, mem) == h
  {
    hide Inv, Fields, Word;
    FieldsAre(h);
    ReloadLive(h, mem, 0);
    ReloadFree(h, mem, 0);
    assert forall a <- h.live :: a in Fields(h);
    assert Reload(h, mem).live == h.live by {
      assert 0 in h.live ==> h.live[0 := h.live[0]] == h.live;
    }
    forall k | 0 <= k < |h.free| ensures Reload(h, mem).free[k] == h.free[k] {
      assert h.free[k].addr in Fields(h);
    }
  }

  /** A fill inside a payload goes through and leaves every size as it is. */
  lemma FillInside(h: Heap, mem: Memory, ptr: nat, n: nat, v: nat)
    requires Inv(h) && Owned(h, ptr) && n <= Payload(h, ptr)
    ensures Fill(h, mem, ptr, n, v) == Ok((h, Filled(h, mem, ptr, n, v)))
  {
    hide Inv, Accessible, Filled, Word, Fields, Reload;
    PayloadAccessible(h, ptr, n);
    FillReadsBut(h, mem, ptr, n, v);
    NothingToReload(h, Filled(h, mem, ptr, n, v));
  }

  /** Behind a live block another block starts, unless it is the last one. */
  lemma NextField(h: Heap, ptr: nat)
    requires Inv(h) && Owned(h, ptr)
    ensures var e := ptr - 8 + h.live[ptr - 8];
            && (e in Fields(h) <==> e != h.end)
            && (e in Fields(h) && e !in h.live ==> exists k: nat :: k < |h.free| && h.free[k].addr == e)
  {
    hide Inv, Fields, SetOf, LiveSet;
    LiveIsBlock(h, ptr - 8);
    LiveApart(h, ptr - 8, ptr - 8);
    FieldsAre(h);
    NextBlock(h, Block(ptr - 8, h.live[ptr - 8]));
  }

  /** The first `k` bytes of a size are all `v`. */
  predicate StartsWith(size: nat, v: nat, k: nat) {
    forall i: nat | i < k && i < 8 :: Digit(size, i, 8) == v
  }

  /** A field whose first bytes were overwritten reads back as it was exactly when it held
      these bytes already. */
  lemma FieldHit(mem: Memory, fields: map<nat, nat>, lo: nat, n: nat, v: nat, e: nat)
    requires e in fields && e % 8 == 0 && lo <= e < lo + n <= e + 8 && v < 256
    ensures Word(Memset(Stamp(mem, fields), lo, n, v), e, 8) == fields[e] <==> StartsWith(fields[e], v, lo + n - e)
  {
    FieldBytes(mem, fields, e);
    hide Stamp, Word, Digit;
    var mem', size := Memset(Stamp(mem, fields), lo, n, v), fields[e];
    forall x: nat | e <= x < e + 7 ensures mem'(x) < 256 {
      DigitIsByte(size, x - e, 8);
    }
    if Word(mem', e, 8) == size {
      DigitsOfWord(mem', e, 8);
      forall i: nat | i < lo + n - e ensures Digit(size, i, 8) == v {
        assert mem'(e + i) == v;
      }
    }
    if StartsWith(size, v, lo + n - e) {
      forall x: nat | e <= x < e + 8 ensures mem'(x) == Digit(size, x - e, 8) {
        assert x < lo + n ==> Digit(size, x - e, 8) == v;
      }
      WordOfDigits(mem', e, size, 8);
    }
  }

  lemma ReloadIs(h: Heap, mem: Memory, e: nat)
    requires Inv(h) && ReadsBut(h, mem, e)
    ensures e in h.live ==> Reload(h, mem) == h.(live := h.live[e := Word(mem, e, 8)])
    ensures forall k: nat | k < |h.free| && h.free[k].addr == e ::
              Reload(h, mem) == h.(free := h.free[k := Block(e, Word(mem, e, 8))])
  {
    hide Inv, Fields, Word, ReadsBut;
    BlocksApart(h);
    ReloadLive(h, mem, e);
    ReloadFree(h, mem, e);
  }

  /** If one size alone reads back differently the invariant is lost. */
  lemma ReloadIff(h: Heap, mem: Memory, e: nat)
    requires Inv(h) && ReadsBut(h, mem, e) && e in Fields(h)
    requires e in h.live || exists k: nat :: k < |h.free| && h.free[k].addr == e
    ensures Inv(Reload(h, mem)) <==> Word(mem, e, 8) == Fields(h)[e]
  {
    hide Inv, Fields, Word, ReadsBut, Reload;
    FieldsAre(h);
    ReloadIs(h, mem, e);
    if e in h.live {
      HeaderIff(h, e, Word(mem, e, 8));
    } else {
      var k: nat :| k < |h.free| && h.free[k].addr == e;
      FreeSizeIff(h, k, Word(mem, e, 8));
    }
  }

  /** The block is the last one, or the size behind it starts with the bytes of the fill. */
  ghost predicate GapHarmless(h: Heap, ptr: nat, n: nat, v: nat)
    requires Owned(h, ptr) && Payload(h, ptr) < n
  {
    var e := ptr - 8 + h.live[ptr - 8];
    e == h.end || (e in Fields(h) && StartsWith(Fields(h)[e], v, n - Payload(h, ptr)))
  }

  lemma GapWord(h: Heap, mem: Memory, ptr: nat, n: nat, v: nat)
    requires Inv(h) && Owned(h, ptr) && Payload(h, ptr) < n <= h.live[ptr - 8] && v < 256
    requires ptr - 8 + h.live[ptr - 8] in Fields(h)
    ensures var e := ptr - 8 + h.live[ptr - 8];
            Word(Filled(h, mem, ptr, n, v), e, 8) == Fields(h)[e] <==>
            StartsWith(Fields(h)[e], v, n - Payload(h, ptr))
  {
    hide Inv, Fields, Stamp, Memset, Word, StartsWith;
    LiveApart(h, ptr - 8, ptr - 8);
    FieldsAre(h);
    FieldHit(mem, Fields(h), ptr, n, v, ptr - 8 + h.live[ptr - 8]);
  }

  lemma GapReloadMiddle(h: Heap, mem: Memory, ptr: nat, n: nat, v: nat)
    requires Inv(h) && Owned(h, ptr) && Payload(h, ptr) < n <= h.live[ptr - 8] && v < 256
    requires ptr - 8 + h.live[ptr - 8] != h.end
    ensures Inv(Reload(h, Filled(h, mem, ptr, n, v))) <==> GapHarmless(h, ptr, n, v)
  {
    hide Inv, Fields, Filled, Word, ReadsBut, StartsWith, Reload;
    FillReadsBut(h, mem, ptr, n, v);
    NextField(h, ptr);
    ReloadIff(h, Filled(h, mem, ptr, n, v), ptr - 8 + h.live[ptr - 8]);
    GapWord(h, mem, ptr, n, v);
  }

  lemma GapReloadLast(h: Heap, mem: Memory, ptr: nat, n: nat, v: nat)
    requires Inv(h) && Owned(h, ptr) && Payload(h, ptr) < n <= h.live[ptr - 8]
    requires ptr - 8 + h.live[ptr - 8] == h.end
    ensures Reload(h, Filled(h, mem, ptr, n, v)) == h
  {
    hide Inv, Fields, Filled, Word, ReadsBut, Reload;
    FillReadsBut(h, mem, ptr, n, v);
    NextField(h, ptr);
    EveryFieldReads(h, Filled(h, mem, ptr, n, v), h.end);
    NothingToReload(h, Filled(h, mem, ptr, n, v));
  }

  lemma EveryFieldReads(h: Heap, mem: Memory, e: nat)
    requires ReadsBut(h, mem, e) && e !in Fields(h)
    ensures forall c <- Fields(h) :: Word(mem, c, 8) == Fields(h)[c]
  {
  }

  /** A fill that reaches over the end of its block dies on an inaccessible page exactly when
      the block ends at the edge. Otherwise it keeps the heap invariant exactly when the block
      is the last one or the size behind it happens to start with the bytes written. */
  lemma GapFillIff(h: Heap, mem: Memory, ptr: nat, n: nat, v: nat)
    requires Inv(h) && Owned(h, ptr) && Payload(h, ptr) < n <= h.live[ptr - 8] && v < 256
    ensures match Fill(h, mem, ptr, n, v)
            case Err(f) => f == PageFault && AtEdge(h, ptr)
            case Ok((h', mem')) =>
              && !AtEdge(h, ptr) && mem' == Filled(h, mem, ptr, n, v) && h' == Reload(h, mem')
              && (Inv(h') <==> GapHarmless(h, ptr, n, v))
  {
    hide Inv, Accessible, Reload, Filled;
    BehindBlock(h, ptr, n);
    if ptr - 8 + h.live[ptr - 8] == h.end {
      GapReloadLast(h, mem, ptr, n, v);
    } else {
      GapReloadMiddle(h, mem, ptr, n, v);
    }
  }

  lemma OwnHeaderKept(h: Heap, mem: Memory, ptr: nat, n: nat, v: nat)
    requires Inv(h) && Owned(h, ptr) && n <= h.live[ptr - 8]
    ensures Reload(h, Filled(h, mem, ptr, n, v)).live[ptr - 8] == h.live[ptr - 8]
  {
    hide Inv, Filled, Fields, Word, ReadsBut;
    FillReadsBut(h, mem, ptr, n, v);
    LiveApart(h, ptr - 8, ptr - 8);
    ReloadLive(h, Filled(h, mem, ptr, n, v), ptr - 8 + h.live[ptr - 8]);
  }

  /** A number of `n` bytes whose `k` low bytes were overwritten with `v`. */
  function Overwritten(was: nat, v: nat, k: nat, n: nat): nat
    requires k <= n
    decreases n
  {
    if k == 0 then was else if n == 1 then v else v + 256 * Overwritten(was / 256, v, k - 1, n - 1)
  }

  lemma {:induction false} WordOverwritten(mem: Memory, at: nat, was: nat, v: nat, k: nat, n: nat)
    requires k <= n && n > 0
    requires forall x: nat {:trigger mem(x)} | at <= x < at + n ::
               mem(x) == if x < at + k then v else Digit(was, x - at, n)
    ensures Word(mem, at, n) == Overwritten(was, v, k, n)
    decreases n
  {
    if k == 0 {
      WordOfDigits(mem, at, was, n);
    } else if n > 1 {
      assert mem(at) == v;
      forall x: nat | at + 1 <= x < at + n
        ensures mem(x) == if x < at + k then v else Digit(was / 256, x - (at + 1), n - 1)
      {
        assert mem(x) == if x < at + k then v else Digit(was, x - at, n);
      }
      WordOverwritten(mem, at + 1, was / 256, v, k - 1, n - 1);
    } else {
      assert mem(at) == v;
    }
  }

  lemma FieldOverwritten(mem: Memory, fields: map<nat, nat>, lo: nat, n: nat, v: nat, e: nat)
    requires e in fields && e % 8 == 0 && lo <= e < lo + n <= e + 8
    ensures Word(Memset(Stamp(mem, fields), lo, n, v), e, 8) == Overwritten(fields[e], v, lo + n - e, 8)
  {
    hide Stamp, Word, Digit, Overwritten;
    FieldBytes(mem, fields, e);
    WordOverwritten(Memset(Stamp(mem, fields), lo, n, v), e, fields[e], v, lo + n - e, 8);
  }

  lemma GapValue(h: Heap, mem: Memory, ptr: nat, n: nat, v: nat)
    requires Inv(h) && Owned(h, ptr) && Payload(h, ptr) < n <= h.live[ptr - 8]
    requires ptr - 8 + h.live[ptr - 8] in Fields(h)
    ensures Word(Filled(h, mem, ptr, n, v), ptr - 8 + h.live[ptr - 8], 8) ==
            Overwritten(Fields(h)[ptr - 8 + h.live[ptr - 8]], v, n - Payload(h, ptr), 8)
  {
    hide Inv, Fields, Stamp, Memset, Word, Overwritten;
    LiveApart(h, ptr - 8, ptr - 8);
    FieldsAre(h);
    FieldOverwritten(mem, Fields(h), ptr, n, v, ptr - 8 + h.live[ptr - 8]);
  }

  /** What a fill over the end of a block leaves: the low bytes of the next size, of a live or a
      free block, are the bytes written, and all else is as before. */
  lemma GapFillExact(h: Heap, mem: Memory, ptr: nat, n: nat, v: nat)
    requires Inv(h) && Owned(h, ptr) && Payload(h, ptr) < n <= h.live[ptr - 8] && !AtEdge(h, ptr)
    ensures Fill(h, mem, ptr, n, v).Ok?
    ensures var e, k, h' := ptr - 8 + h.live[ptr - 8], n - Payload(h, ptr), Fill(h, mem, ptr, n, v).value.0;
            && (e == h.end ==> h' == h)
            && (e in h.live ==> h' == h.(live := h.live[e := Overwritten(h.live[e], v, k, 8)]))
            && (forall i: nat | i < |h.free| && h.free[i].addr == e ::
                  h' == h.(free := h.free[i := Block(e, Overwritten(h.free[i].size, v, k, 8))]))
            && (e != h.end ==> e in h.live || exists i: nat :: i < |h.free| && h.free[i].addr == e)
  {
    hide Inv, Accessible, Reload, Filled, Fields, Overwritten, Word, ReadsBut;
    var e, mem' := ptr - 8 + h.live[ptr - 8], Filled(h, mem, ptr, n, v);
    BehindBlock(h, ptr, n);
    NextField(h, ptr);
    if e == h.end {
      GapReloadLast(h, mem, ptr, n, v);
      LastIsSet(h, ptr - 8);
      NothingAtEnd(h);
    } else {
      FillReadsBut(h, mem, ptr, n, v);
      ReloadIs(h, mem', e);
      FieldsAre(h);
      GapValue(h, mem, ptr, n, v);
    }
  }

  lemma NothingAtEnd(h: Heap)
    requires Inv(h) && h.end != 0
    ensures h.end !in h.live && forall i | 0 <= i < |h.free| :: h.free[i].addr != h.end
  {
    forall i | 0 <= i < |h.free| ensures h.free[i].addr != h.end {
      BlocksInside(h, h.free[i]);
    }
    if h.end in h.live {
      LiveIsBlock(h, h.end);
      BlocksInside(h, Block(h.end, h.live[h.end]));
    }
  }
}
