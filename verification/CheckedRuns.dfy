/** Runs of the checked wrappers from a fresh heap that meet the defects the guard of
    Checked.NoAssertionFires keeps out. */
module CheckedRuns {
  import opened Base
  import opened Blocks
  import opened Spans
  import opened Break
  import opened HeapSpec
  import opened Payloads
  import opened HeapLaws
  import opened Overlay
  import opened Checked

  /** The run may be taken from `s` and has the outcome `r`. */
  ghost predicate Leads(s: State, ops: seq<Op>, r: Result<State>) {
    LegalRun(s, ops) && RunChecked(s, ops) == r
  }

  lemma OneBefore(s: State, op: Op, ops: seq<Op>, s': State, r: Result<State>)
    requires LegalOp(s, op) && Perform(s, op) == Ok(s') && Leads(s', ops, r)
    ensures Leads(s, [op] + ops, r)
  {
    hide Perform, LegalOp;
    assert ([op] + ops)[1..] == ops;
  }

  lemma LastFails(s: State, op: Op, f: Failure)
    requires LegalOp(s, op) && Perform(s, op) == Err(f)
    ensures Leads(s, [op], Err(f))
  {
    hide Perform, LegalOp;
  }

  // ---------------------------------------------------------------- allocating on a fresh heap

  function Alloc(size: nat): Op {
    DoAlloc(1, size, UseMalloc)
  }

  lemma FreshAgrees(mem: Memory)
    ensures Agrees(FreshState(4096, 65536, mem))
  {
    InitInv(4096, 65536);
    hide Inv;
  }

  lemma PerformAlloc(s: State, size: nat, h: Heap, buf: nat)
    requires Agrees(s) && size > 0 && Malloc(s.h, s.allocs, size) == Ok((h, buf))
    ensures var r := Perform(s, Alloc(size));
            r.Ok? && Agrees(r.value) && r.value.h == h && NewlyTracked(s, buf, size, r.value)
  {
    hide Agrees, Malloc, CheckedAlloc, NewlyTracked;
    CheckedAllocOk(s, 1, size, UseMalloc);
  }

  // ---------------------------------------------------------------- a fill byte of 128

  /** `j` buffers of 8 bytes were allocated, the last one filled with `j`. */
  ghost predicate Level(s: State, j: nat) {
    && 1 <= j <= 128 && Agrees(s) && s.fill == j
    && s.h == Grown([], s.h.live, 4096 + 16 * j, 8192 - 16 * j)
    && Span(4088 + 16 * j, 4096 + 16 * j, j) in s.allocs
  }

  lemma FirstLevel(mem: Memory)
    ensures var r := Perform(FreshState(4096, 65536, mem), Alloc(8)); r.Ok? && Level(r.value, 1)
  {
    hide Agrees, Malloc, Perform;
    var s := FreshState(4096, 65536, mem);
    FreshAgrees(mem);
    FirstGrowth(s.allocs, 8);
    PerformAlloc(s, 8, Grown([], map[4096 := 16], 4112, 8176), 4104);
    InsertedMembers(s.allocs, Span(4104, 4112, 1));
    GrownLive([], map[4096 := 16], 4112, 8176);
  }

  lemma NextLevel(s: State, j: nat)
    requires Level(s, j) && j < 128
    ensures var r := Perform(s, Alloc(8)); r.Ok? && Level(r.value, j + 1)
  {
    hide Agrees, Malloc, Perform;
    var end := 4096 + 16 * j;
    TakenFromSlack(s.allocs, s.h.live, end, 8192 - 16 * j, 8);
    PerformAlloc(s, 8, Grown([], s.h.live[end := 16], end + 16, 8192 - 16 * j - 16), end + 8);
    InsertedMembers(s.allocs, Span(end + 8, end + 16, j + 1));
    GrownLive([], s.h.live[end := 16], end + 16, 8192 - 16 * j - 16);
  }

  function Repeat(n: nat): seq<Op> {
    if n == 0 then [] else [Alloc(8)] + Repeat(n - 1)
  }

  /** Shrinking a buffer filled with 128 leaves its bytes where they are, and the comparison
      of line 230 fails all the same. */
  lemma ResizeAt128(s: State)
    requires Level(s, 128)
    ensures LegalOp(s, DoRealloc(6136, 2)) && Perform(s, DoRealloc(6136, 2)) == Err(ContentsLost)
  {
    hide Inv, Sorted, AllKept, CheckedRealloc, GapHarmless;
    var r := Span(6136, 6144, 128);
    assert r in s.allocs && Tracked(s.h.live, r);
    CheckedReallocIff(s, 6136, 2);
  }

  lemma {:induction false} LevelLeads(s: State, j: nat)
    requires Level(s, j)
    ensures Leads(s, Repeat(128 - j) + [DoRealloc(6136, 2)], Err(ContentsLost))
    decreases 128 - j
  {
    hide Level, Perform, Leads, LegalOp;
    if j == 128 {
      ResizeAt128(s);
      LastFails(s, DoRealloc(6136, 2), ContentsLost);
      assert Repeat(0) + [DoRealloc(6136, 2)] == [DoRealloc(6136, 2)];
    } else {
      assert j < 128 by {
        LevelBelow(s, j);
      }
      AllocIsLegal(s, 8);
      NextLevel(s, j);
      var s' := Perform(s, Alloc(8)).value;
      LevelLeads(s', j + 1);
      OneBefore(s, Alloc(8), Repeat(127 - j) + [DoRealloc(6136, 2)], s', Err(ContentsLost));
      assert [Alloc(8)] + (Repeat(127 - j) + [DoRealloc(6136, 2)]) == Repeat(128 - j) + [DoRealloc(6136, 2)];
    }
  }

  lemma LevelBelow(s: State, j: nat)
    requires Level(s, j)
    ensures 1 <= j <= 128
  {
  }

  lemma AllocIsLegal(s: State, size: nat)
    ensures LegalOp(s, Alloc(size))
  {
  }

  /** From a fresh heap: 128 buffers of 8 bytes, then the last one is shrunk to 2. The
      assertion of line 230 fires although the bytes were kept. */
  lemma SignedCharExample(mem: Memory)
    ensures Leads(FreshState(4096, 65536, mem), Repeat(128) + [DoRealloc(6136, 2)], Err(ContentsLost))
  {
    hide Perform, Leads, Level, LegalOp;
    var s := FreshState(4096, 65536, mem);
    AllocIsLegal(s, 8);
    FirstLevel(mem);
    var s' := Perform(s, Alloc(8)).value;
    LevelLeads(s', 1);
    OneBefore(s, Alloc(8), Repeat(127) + [DoRealloc(6136, 2)], s', Err(ContentsLost));
    assert [Alloc(8)] + (Repeat(127) + [DoRealloc(6136, 2)]) == Repeat(128) + [DoRealloc(6136, 2)];
  }

  // ---------------------------------------------------------------- resizing into the gap

  /** The resize was accepted where the buffer stands: the region grows over the size field
      behind its block, and the fill writes over that field. */
  ghost predicate GrownInPlace(s: State, ptr: nat, size: nat, k: nat, r: Result<(State, nat)>)
    requires k < |s.allocs|
  {
    && r.Ok? && r.value.1 == ptr
    && var t := r.value.0;
       && t.fill == NextFill(s.fill) && t.mem == Filled(s.h, s.mem, ptr, size, t.fill)
       && t.h == Reload(s.h, t.mem) && AllKept(t.mem, t.allocs)
       && t.allocs == Inserted(Without(s.allocs, k), Span(ptr, ptr + size, t.fill))
  }

  lemma GapResizeAt(s: State, ptr: nat, size: nat, k: nat)
    requires FoundAt(s, ptr, k) && size > 0 && InGap(s.h, ptr, size) && FilledLow(s, ptr) && !AtEdge(s.h, ptr)
    ensures GrownInPlace(s, ptr, size, k, Resize(s, ptr, size, k))
  {
    hide Inv, Agrees, Realloc, Track, DataKept, AllKept, CharsMatch, GapHarmless, FilledLow, Find, Filled, Reload;
    KeptInPlace(s.h, s.mem, s.allocs, ptr, size);
    SameIsReallocated(s, ptr, size);
    ResizeReady(s, ptr, size, k, s.h, s.mem, ptr);
    TrackBeyond(State(s.h, s.mem, Without(s.allocs, k), s.fill), ptr, size);
    TrackedAreKept(State(s.h, s.mem, Without(s.allocs, k), s.fill), ptr, size);
  }

  lemma GapResize(s: State, ptr: nat, size: nat)
    requires Agrees(s) && Legal(s, ptr) && ptr != 0 && size > 0 && InGap(s.h, ptr, size)
    requires FilledLow(s, ptr) && !AtEdge(s.h, ptr)
    ensures Find(s.allocs, ptr) < |s.allocs|
    ensures GrownInPlace(s, ptr, size, Find(s.allocs, ptr), CheckedRealloc(s, ptr, size))
  {
    hide Inv, Sorted, DataKept, FilledLow, Find, AllKept, Resize, GrownInPlace;
    FindStart(s.allocs, ptr);
    var k := Find(s.allocs, ptr);
    assert s.allocs[k] in s.allocs;
    KeptOne(s, k);
    GapResizeAt(s, ptr, size, k);
  }

  lemma KeptOne(s: State, k: nat)
    requires AllKept(s.mem, s.allocs) && k < |s.allocs|
    ensures DataKept(s.mem, s.allocs[k])
  {
  }

  lemma TrackedAreKept(s: State, buf: nat, size: nat)
    ensures var t := Track(s, buf, size); t.Ok? ==> AllKept(t.value.mem, t.value.allocs)
  {
  }

  // ---------------------------------------------------------------- the next call after the last block overran

  /** A buffer of 16 bytes on a fresh heap was resized to 24. */
  ghost predicate LastOverrun(s: State) {
    && s.h == Grown([], map[4096 := 24], 4120, 8168) && s.allocs == [Span(4104, 4128, 2)] && s.fill == 2
  }

  lemma OneBuffer(mem: Memory)
    ensures var r := Perform(FreshState(4096, 65536, mem), Alloc(16));
            && r.Ok? && Agrees(r.value) && r.value.h == Grown([], map[4096 := 24], 4120, 8168)
            && r.value.allocs == [Span(4104, 4120, 1)] && r.value.fill == 1
  {
    hide Agrees, Malloc, Perform, Grown;
    var s := FreshState(4096, 65536, mem);
    FreshAgrees(mem);
    FirstGrowth(s.allocs, 16);
    PerformAlloc(s, 16, Grown([], map[4096 := 24], 4120, 8168), 4104);
  }

  lemma OverrunLast(s: State)
    requires Agrees(s) && s.h == Grown([], map[4096 := 24], 4120, 8168)
    requires s.allocs == [Span(4104, 4120, 1)] && s.fill == 1
    ensures LegalOp(s, DoRealloc(4104, 24))
    ensures var r := Perform(s, DoRealloc(4104, 24)); r.Ok? && LastOverrun(r.value)
  {
    hide Agrees, Inv, CheckedRealloc, Filled, Reload, AllKept;
    assert Span(4104, 4120, 1) in s.allocs;
    assert Find(s.allocs, 4104) == 0;
    GapResize(s, 4104, 24);
    AgreesInv(s);
    GapReloadLast(s.h, s.mem, 4104, 24, 2);
  }

  /** The allocator puts the next header where the tracked region now reaches. */
  lemma AllocAfterOverrun(s: State)
    requires LastOverrun(s)
    ensures Perform(s, Alloc(8)) == Err(ContentsChanged)
  {
    hide Malloc;
    var live := map[4096 := 24, 4120 := 16];
    var h := Grown([], live, 4136, 8152);
    TakenFromSlack(s.allocs, map[4096 := 24], 4120, 8168, 8);
    assert map[4096 := 24][4120 := 16] == live;
    OverrunIsSeen(State(h, s.mem, s.allocs, s.fill));
    hide Track;
  }

  lemma OverrunIsSeen(s: State)
    requires s.h == Grown([], map[4096 := 24, 4120 := 16], 4136, 8152)
    requires s.allocs == [Span(4104, 4128, 2)] && s.fill == 2
    ensures Track(s, 4128, 8) == Err(ContentsChanged)
  {
    var r := Span(4128, 4136, 3);
    var rs := Inserted(s.allocs, r);
    InsertedMembers(s.allocs, r);
    assert Span(4104, 4128, 2) in rs;
    GrownAccessible(s.h, 4128, 8);
    var mem := Filled(s.h, s.mem, 4128, 8, 3);
    assert 4120 in Fields(s.h) && Fields(s.h)[4120] == 16;
    assert mem(4120) == Digit(16, 0, 8) == 16;
    assert !DataKept(mem, Span(4104, 4128, 2));
    hide Filled, Accessible;
  }

  lemma GrownAccessible(h: Heap, lo: nat, n: nat)
    requires h.os == Grown([], map[], 0, 0).os && 4096 <= lo && lo + n <= 12288
    ensures Accessible(h.os, lo, n)
  {
    assert AlignUp(12288) == 12288;
    AccessibleIff(h.os, lo, n);
  }

  /** From a fresh heap: 16 bytes, resized to 24 in the gap, then 8 more. The wrapper accepts
      the resize, and the next allocation trips the check of the tracked bytes. */
  lemma GapOfLastBlockExample(mem: Memory)
    ensures Leads(FreshState(4096, 65536, mem), [Alloc(16)] + ([DoRealloc(4104, 24)] + [Alloc(8)]),
                  Err(ContentsChanged))
  {
    hide Perform, Leads, LegalOp, LastOverrun, Agrees;
    var s := FreshState(4096, 65536, mem);
    AllocIsLegal(s, 16);
    OneBuffer(mem);
    var s1 := Perform(s, Alloc(16)).value;
    OverrunLast(s1);
    var s2 := Perform(s1, DoRealloc(4104, 24)).value;
    AllocIsLegal(s2, 8);
    AllocAfterOverrun(s2);
    LastFails(s2, Alloc(8), ContentsChanged);
    OneBefore(s1, DoRealloc(4104, 24), [Alloc(8)], s2, Err(ContentsChanged));
    OneBefore(s, Alloc(16), [DoRealloc(4104, 24)] + [Alloc(8)], s1, Err(ContentsChanged));
  }

  // ---------------------------------------------------------------- the next call after another block did

  /** Eight bytes of value 3. */
  const THREES: nat := 0x0303_0303_0303_0303

  lemma WordOfThrees(mem: Memory, at: nat)
    requires forall x: nat {:trigger mem(x)} | at <= x < at + 8 :: mem(x) == 3
    ensures Word(mem, at, 8) == THREES && Spelled(mem, at, THREES, 8)
  {
    assert Word(mem, at + 7, 1) == 3;
    assert Word(mem, at + 6, 2) == 0x0303;
    assert Word(mem, at + 5, 3) == 0x03_0303;
    assert Word(mem, at + 4, 4) == 0x0303_0303;
    assert Word(mem, at + 3, 5) == 0x03_0303_0303;
    assert Word(mem, at + 2, 6) == 0x0303_0303_0303;
    assert Word(mem, at + 1, 7) == 0x03_0303_0303_0303;
    DigitsOfWord(mem, at, 8);
  }

  /** Two buffers of 16 and 8160 bytes fill the first growth exactly. */
  ghost predicate TwoBuffers(s: State) {
    && Agrees(s) && s.h == Grown([], map[4096 := 24, 4120 := 8168], 12288, 0)
    && s.allocs == [Span(4104, 4120, 1), Span(4128, 12288, 2)] && s.fill == 2
  }

  lemma SecondBuffer(s: State)
    requires Agrees(s) && s.h == Grown([], map[4096 := 24], 4120, 8168)
    requires s.allocs == [Span(4104, 4120, 1)] && s.fill == 1
    ensures var r := Perform(s, Alloc(8160)); r.Ok? && TwoBuffers(r.value)
  {
    hide Agrees, Malloc, Perform;
    TakenFromSlack(s.allocs, map[4096 := 24], 4120, 8168, 8160);
    assert map[4096 := 24][4120 := 8168] == map[4096 := 24, 4120 := 8168];
    PerformAlloc(s, 8160, Grown([], map[4096 := 24, 4120 := 8168], 12288, 0), 4128);
    assert Position(s.allocs, Span(4128, 12288, 2)) == 1;
  }

  /** The header of the second block was overwritten. */
  ghost predicate HeaderLost(s: State) {
    && s.h == Grown([], map[4096 := 24, 4120 := THREES], 12288, 0)
    && s.allocs == [Span(4104, 4128, 3), Span(4128, 12288, 2)] && s.fill == 3 && AllKept(s.mem, s.allocs)
  }

  lemma OverrunFirst(s: State)
    requires TwoBuffers(s)
    ensures LegalOp(s, DoRealloc(4104, 24))
    ensures var r := Perform(s, DoRealloc(4104, 24)); r.Ok? && HeaderLost(r.value)
  {
    hide Agrees, Inv, CheckedRealloc, Filled, Reload, AllKept;
    assert Span(4104, 4120, 1) in s.allocs;
    assert Find(s.allocs, 4104) == 0;
    assert FilledLow(s, 4104);
    GapResize(s, 4104, 24);
    AgreesInv(s);
    HeaderReloaded(s.h, s.mem);
    assert Without(s.allocs, 0) == [Span(4128, 12288, 2)];
    assert Position([Span(4128, 12288, 2)], Span(4104, 4128, 3)) == 0;
  }

  lemma HeaderReloaded(h: Heap, mem: Memory)
    requires Inv(h) && h == Grown([], map[4096 := 24, 4120 := 8168], 12288, 0)
    ensures Reload(h, Filled(h, mem, 4104, 24, 3)) == Grown([], map[4096 := 24, 4120 := THREES], 12288, 0)
  {
    hide Inv, Word, Fields, ReadsBut;
    var mem' := Filled(h, mem, 4104, 24, 3);
    FillReadsBut(h, mem, 4104, 24, 3);
    ReloadIs(h, mem', 4120);
    WordOfThrees(mem', 4120);
    assert h.live[4120 := THREES] == map[4096 := 24, 4120 := THREES];
  }

  /** The second block is no longer recognised as the last one: the break stays, and the list
      gets a block far larger than the heap. */
  ghost predicate HugeBlock(s: State) {
    s.h == Grown([Block(4120, THREES)], map[4096 := 24], 12288, 0) && s.allocs == [Span(4104, 4128, 3)]
  }

  lemma FieldsOfTwo(a: nat, b: nat)
    ensures Fields(Grown([], map[4096 := a, 4120 := b], 12288, 0)) == map[4096 := a, 4120 := b]
  {
    assert FreeFields([]) == map[];
    assert map[] + map[4096 := a, 4120 := b] == map[4096 := a, 4120 := b];
  }

  /** The fill with 0xff stays inside the second buffer and reloads what is there. */
  lemma FillSecond(h: Heap, mem: Memory)
    requires h == Grown([], map[4096 := 24, 4120 := THREES], 12288, 0)
    ensures Fill(h, mem, 4128, 8160, 255) == Ok((h, Filled(h, mem, 4128, 8160, 255)))
  {
    var fields, mem' := map[4096 := 24, 4120 := THREES], Filled(h, mem, 4128, 8160, 255);
    FieldsOfTwo(24, THREES);
    GrownAccessible(h, 4128, 8160);
    hide Word, Accessible, Fields;
    FieldKept(mem, fields, 4128, 8160, 255, 4096);
    FieldKept(mem, fields, 4128, 8160, 255, 4120);
    assert Reload(h, mem').live == h.live;
    assert Reload(h, mem').free == h.free;
  }

  lemma FirstStillKept(h: Heap, mem: Memory, h': Heap)
    requires h == Grown([], map[4096 := 24, 4120 := THREES], 12288, 0)
    requires h' == Grown([Block(4120, THREES)], map[4096 := 24], 12288, 0)
    requires DataKept(mem, Span(4104, 4128, 3))
    ensures AllKept(Stamp(Filled(h, mem, 4128, 8160, 255), Fields(h')), [Span(4104, 4128, 3)])
  {
    var before, after := map[4096 := 24, 4120 := THREES], map[4120 := THREES, 4096 := 24];
    FieldsOfTwo(24, THREES);
    assert Fields(h') == after by {
      assert FreeFields([Block(4120, THREES)]) == map[4120 := THREES];
    }
    WordOfThrees((x: nat) => 3, 4120);
    hide Fields, Digit, Spelled;
    var mem' := Stamp(Filled(h, mem, 4128, 8160, 255), after);
    forall x: nat | 4104 <= x < 4128 ensures mem'(x) == 3 {
      ThreeOrField(mem, before, after, x);
    }
  }

  lemma ThreeOrField(mem: Memory, before: map<nat, nat>, after: map<nat, nat>, x: nat)
    requires before == map[4096 := 24, 4120 := THREES] && after == map[4120 := THREES, 4096 := 24]
    requires 4104 <= x < 4128 && DataKept(mem, Span(4104, 4128, 3))
    ensures Stamp(Memset(Stamp(mem, before), 4128, 8160, 255), after)(x) == 3
  {
    WordOfThrees((y: nat) => 3, 4120);
    assert mem(x) == 3;
    if x >= 4120 {
      InField(4120, x);
      assert Digit(THREES, x - 4120, 8) == 3;
    } else {
      assert x / 8 * 8 == 4104 || x / 8 * 8 == 4112;
    }
    hide Digit, Spelled;
  }

  lemma FreeSecond(s: State)
    requires HeaderLost(s)
    ensures LegalOp(s, DoFree(4128))
    ensures var r := Perform(s, DoFree(4128)); r.Ok? && HugeBlock(r.value)
  {
    hide AllKept, Fill, Filled, Stamp, Fields, Free;
    assert s.allocs[1] in s.allocs;
    assert Find(s.allocs, 4128) == 1;
    KeptOne(s, 0);
    KeptOne(s, 1);
    FillSecond(s.h, s.mem);
    var h' := Grown([Block(4120, THREES)], map[4096 := 24], 12288, 0);
    assert Without(s.allocs, 1) == [Span(4104, 4128, 3)];
    FirstFreed([Span(4104, 4128, 3)], map[4096 := 24, 4120 := THREES], 12288, 0, 4120);
    assert map[4096 := 24, 4120 := THREES] - {4120} == map[4096 := 24];
    FirstStillKept(s.h, s.mem, h');
    hide DataKept;
  }

  lemma HugeIsWrong(s: State)
    requires HugeBlock(s)
    ensures !Inv(s.h)
  {
    hide Inv;
    if Inv(s.h) {
      FreeBelowTop(s.h, 0);
    }
  }

  lemma FreeBelowTop(h: Heap, k: nat)
    requires Inv(h) && k < |h.free|
    ensures h.free[k].End() <= h.Top()
  {
    assert h.free[k] in SetOf(h.free) + LiveSet(h.live);
  }

  /** From a fresh heap: 16 and 8160 bytes, the first resized to 24 in the gap, the second
      freed. Every call is accepted, but the header of the second block is gone: its memory
      stays below the break and the free list holds a block of 0x0303030303030303 bytes. */
  lemma GapOfOtherBlockExample(mem: Memory)
    ensures exists t: State ::
              && Leads(FreshState(4096, 65536, mem),
                       [Alloc(16)] + ([Alloc(8160)] + ([DoRealloc(4104, 24)] + [DoFree(4128)])), Ok(t))
              && HugeBlock(t) && !Inv(t.h)
  {
    hide Perform, Leads, LegalOp, HeaderLost, TwoBuffers, HugeBlock, Agrees;
    var s := FreshState(4096, 65536, mem);
    AllocIsLegal(s, 16);
    OneBuffer(mem);
    var s1 := Perform(s, Alloc(16)).value;
    AllocIsLegal(s1, 8160);
    SecondBuffer(s1);
    var s2 := Perform(s1, Alloc(8160)).value;
    OverrunFirst(s2);
    var s3 := Perform(s2, DoRealloc(4104, 24)).value;
    FreeSecond(s3);
    var t := Perform(s3, DoFree(4128)).value;
    HugeIsWrong(t);
    Stops(t);
    assert [DoFree(4128)] + [] == [DoFree(4128)];
    OneBefore(s3, DoFree(4128), [], t, Ok(t));
    OneBefore(s2, DoRealloc(4104, 24), [DoFree(4128)], s3, Ok(t));
    OneBefore(s1, Alloc(8160), [DoRealloc(4104, 24)] + [DoFree(4128)], s2, Ok(t));
    OneBefore(s, Alloc(16), [Alloc(8160)] + ([DoRealloc(4104, 24)] + [DoFree(4128)]), s1, Ok(t));
  }

  lemma Stops(s: State)
    ensures Leads(s, [], Ok(s))
  {
  }
}
