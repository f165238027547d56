/** Runs of the allocator with the list surgery as the source has it: when they are the runs of
    HeapRuns.dfy, and runs from a fresh heap that are not. */
module AsWrittenRuns {
  import opened Base
  import opened Blocks
  import opened Spans
  import opened Break
  import opened HeapSpec
  import opened Payloads
  import opened HeapLaws
  import opened HeapRuns
  import opened AsWritten

  // ---------------------------------------------------------------- calls

  function StepAsWritten(m: Machine, op: Op): Result<(Machine, nat)>
    requires Allowed(m.h, op)
  {
    match op
    case Kumalloc(size) =>
      var (h', ptr) :- MallocAsWritten(m.h, [], size);
      Ok((Machine(h', m.mem, Noted(m.asked, ptr, size)), ptr))
    case Kucalloc(nmemb, size) =>
      if size == 0 || nmemb == 0 then Ok((m, 0))
      else
        var total := SizeAlign(nmemb * size);
        var (h', mem', ptr) :- ClearBlock(MallocAsWritten(m.h, [], total), m.mem, total);
        Ok((Machine(h', mem', Noted(m.asked, ptr, nmemb * size)), ptr))
    case Kufree(ptr) =>
      var h' :- FreeAsWritten(m.h, [], ptr);
      Ok((Machine(h', m.mem, m.asked - {ptr}), 0))
    case Kurealloc(ptr, size) =>
      if size == 0 && ptr != 0 then
        var h' :- FreeAsWritten(m.h, [], ptr);
        Ok((Machine(h', m.mem, m.asked - {ptr}), 0))
      else if ptr == 0 then
        var (h', block) :- MallocAsWritten(m.h, [], size);
        Ok((Machine(h', m.mem, Noted(m.asked, block, size)), block))
      else
        var held := m.h.live[ptr - 8];
        if held >= size then Ok((Machine(m.h, m.mem, Noted(m.asked, ptr, size)), ptr))
        else
          var (h', mem', block) :- CopyBlock(MallocAsWritten(m.h, [], SizeAlign(size + 8)), m.mem, ptr, held);
          Ok((Machine(h', mem', Noted(m.asked, block, size)), block))
  }

  /** What a call asks of kumalloc or kufree. */
  datatype Inner = Takes(size: nat) | Gives(ptr: nat) | Nothing

  function InnerCall(h: Heap, op: Op): Inner
    requires Allowed(h, op)
  {
    match op
    case Kumalloc(size) => Takes(size)
    case Kucalloc(nmemb, size) => if size == 0 || nmemb == 0 then Nothing else Takes(SizeAlign(nmemb * size))
    case Kufree(ptr) => Gives(ptr)
    case Kurealloc(ptr, size) =>
      if size == 0 && ptr != 0 then Gives(ptr)
      else if ptr == 0 then Takes(size)
      else if h.live[ptr - 8] >= size then Nothing
      else Takes(SizeAlign(size + 8))
  }

  /** The surgery does what was meant, and leaves every `prev` that is followed right, so that
      the next call finds a list as well linked as this one did. */
  predicate Meant(h: Heap, op: Op)
    requires Allowed(h, op)
  {
    match InnerCall(h, op)
    case Takes(size) => MallocHarmless(h, size) && MallocKeepsLinks(h, size)
    case Gives(ptr) => FreeHarmless(h, ptr) && FreeKeepsLinks(h, ptr)
    case Nothing => true
  }

  lemma InnerMeant(h: Heap, op: Op)
    requires Inv(h) && Allowed(h, op) && Meant(h, op)
    ensures match InnerCall(h, op)
            case Takes(size) => MallocAsWritten(h, [], size) == Malloc(h, [], size)
            case Gives(ptr) => (ptr != 0 ==> Owned(h, ptr)) && FreeAsWritten(h, [], ptr) == Free(h, [], ptr)
            case Nothing => true
  {
    hide Inv, Malloc, Free, MallocAsWritten, FreeAsWritten;
    hide MallocHarmless, MallocKeepsLinks, FreeHarmless, FreeKeepsLinks;
    match InnerCall(h, op)
    case Takes(size) => MallocAsWrittenIff(h, [], size);
    case Gives(ptr) => FreeAsWrittenIff(h, [], ptr);
    case Nothing =>
  }

  ghost predicate TookInner(op: Op, inner: Result<(Heap, nat)>, r: Result<(Machine, nat)>) {
    if inner.Err? then r == Err(inner.failure)
    else if r.Ok? then r.value.0.h == inner.value.0 && r.value.1 == inner.value.1
    else r.failure == PageFault && (op.Kucalloc? || op.Kurealloc?)
  }

  ghost predicate GaveInner(m: Machine, ptr: nat, inner: Result<Heap>, r: Result<(Machine, nat)>) {
    if inner.Err? then r == Err(inner.failure)
    else r == Ok((Machine(inner.value, m.mem, m.asked - {ptr}), 0))
  }

  /** Every call leaves the heap to its one call of kumalloc or kufree as written, and fails
      when that does; kucalloc and kurealloc add no more than the bytes they clear or copy. */
  lemma StepIsInner(m: Machine, op: Op)
    requires Allowed(m.h, op)
    ensures match InnerCall(m.h, op)
            case Takes(size) => TookInner(op, MallocAsWritten(m.h, [], size), StepAsWritten(m, op))
            case Gives(ptr) =>
              && (ptr != 0 ==> Owned(m.h, ptr))
              && GaveInner(m, ptr, FreeAsWritten(m.h, [], ptr), StepAsWritten(m, op))
            case Nothing => StepAsWritten(m, op).Ok? && StepAsWritten(m, op).value.0.h == m.h
  {
    hide MallocAsWritten, FreeAsWritten, SizeAlign, Accessible;
  }

  lemma StepMeant(m: Machine, op: Op)
    requires Inv(m.h) && Allowed(m.h, op) && Meant(m.h, op)
    ensures StepAsWritten(m, op) == Step(m, op)
  {
    hide Inv, Malloc, Free, MallocAsWritten, FreeAsWritten, ClearBlock, CopyBlock, Meant, SizeAlign;
    InnerMeant(m.h, op);
  }

  // ---------------------------------------------------------------- runs

  /** From `m` the calls `ops`, as written, have the outcome `r`. */
  ghost predicate RunsAsWritten(m: Machine, ops: seq<Op>, r: Result<Machine>)
    decreases |ops|
  {
    if ops == [] then r == Ok(m)
    else
      Allowed(m.h, ops[0]) &&
      match StepAsWritten(m, ops[0])
      case Ok((m', _)) => RunsAsWritten(m', ops[1..], r)
      case Err(f) => r == Err(f)
  }

  ghost predicate MeantRun(m: Machine, ops: seq<Op>)
    requires AllowedRun(m, ops)
    decreases |ops|
  {
    ops == [] ||
    (Meant(m.h, ops[0]) &&
     match Step(m, ops[0])
     case Ok((m', _)) => MeantRun(m', ops[1..])
     case Err(_) => true)
  }

  lemma {:induction false} RunMeant(m: Machine, ops: seq<Op>)
    requires Inv(m.h) && AllowedRun(m, ops) && MeantRun(m, ops)
    ensures RunsAsWritten(m, ops, Run(m, ops))
    decreases |ops|
  {
    hide Inv, Step, StepAsWritten, Allowed, Meant;
    if ops != [] {
      StepKeepsInv(m, ops[0]);
      StepMeant(m, ops[0]);
      match Step(m, ops[0])
      case Ok((m', _)) => RunMeant(m', ops[1..]);
      case Err(_) =>
    }
  }

  /** The code as written runs like the model in every run, from a fresh heap, in which each
      call meets the conditions under which its surgery does what was meant. So what RunSafe
      and RunLargeEnough say of the model they say of the code in these runs. */
  lemma RunAsMeant(heap: nat, limit: nat, mem: Memory, ops: seq<Op>)
    requires heap > 0 && heap % 4096 == 0
    requires AllowedRun(Start(heap, limit, mem), ops) && MeantRun(Start(heap, limit, mem), ops)
    ensures RunsAsWritten(Start(heap, limit, mem), ops, Run(Start(heap, limit, mem), ops))
  {
    InitInv(heap, limit);
    RunMeant(Start(heap, limit, mem), ops);
  }

  // ---------------------------------------------------------------- reaching a heap

  /** The calls `ops` all do what was meant and lead from `s` to `m`. */
  ghost predicate Reaches(s: Machine, ops: seq<Op>, m: Machine) {
    AllowedRun(s, ops) && Run(s, ops) == Ok(m) && MeantRun(s, ops)
  }

  lemma {:induction false} ReachesAfter(s: Machine, ops: seq<Op>, m: Machine, op: Op, m': Machine)
    requires Reaches(s, ops, m) && Allowed(m.h, op) && Meant(m.h, op)
    requires Step(m, op).Ok? && Step(m, op).value.0 == m'
    ensures Reaches(s, ops + [op], m')
    decreases |ops|
  {
    hide Step, Allowed, Meant;
    var all := ops + [op];
    if ops == [] {
      assert s == m && all == [op];
      assert [op][0] == op && [op][1..] == [];
      assert Run(m', []) == Ok(m') && AllowedRun(m', []) && MeantRun(m', []);
    } else {
      assert all[1..] == ops[1..] + [op];
      ReachesAfter(Step(s, ops[0]).value.0, ops[1..], m, op, m');
    }
  }

  function Outcome(r: Result<(Machine, nat)>): Result<Machine> {
    match r
    case Ok((m, _)) => Ok(m)
    case Err(f) => Err(f)
  }

  /** After such a run the next call, as written, has its own outcome. */
  lemma {:induction false} ThenAsWritten(s: Machine, ops: seq<Op>, m: Machine, op: Op)
    requires Inv(s.h) && Reaches(s, ops, m) && Allowed(m.h, op)
    ensures RunsAsWritten(s, ops + [op], Outcome(StepAsWritten(m, op)))
    decreases |ops|
  {
    hide Inv, Step, StepAsWritten, Allowed, Meant;
    var all := ops + [op];
    if ops == [] {
      assert all[1..] == [];
    } else {
      assert all[1..] == ops[1..] + [op];
      StepMeant(s, ops[0]);
      StepKeepsInv(s, ops[0]);
      ThenAsWritten(Step(s, ops[0]).value.0, ops[1..], m, op);
    }
  }

  lemma FreshInv(mem: Memory)
    ensures Inv(Start(4096, 65536, mem).h)
  {
    InitInv(4096, 65536);
  }

  // ---------------------------------------------------------------- a row of blocks

  /** Blocks for `sizes` bytes side by side from 4096 on: where they end, and their headers. */
  function RowEnd(sizes: seq<nat>): nat {
    if sizes == [] then 4096 else RowEnd(sizes[..|sizes| - 1]) + SizeAlign(sizes[|sizes| - 1] + 8)
  }

  function RowLive(sizes: seq<nat>): map<nat, nat> {
    if sizes == [] then map[]
    else RowLive(sizes[..|sizes| - 1])[RowEnd(sizes[..|sizes| - 1]) := SizeAlign(sizes[|sizes| - 1] + 8)]
  }

  function RowAsked(sizes: seq<nat>): map<nat, nat> {
    if sizes == [] then map[]
    else RowAsked(sizes[..|sizes| - 1])[RowEnd(sizes[..|sizes| - 1]) + 8 := sizes[|sizes| - 1]]
  }

  function Row(mem: Memory, sizes: seq<nat>): Machine
    requires RowEnd(sizes) <= 12288
  {
    if sizes == [] then Start(4096, 65536, mem)
    else Machine(Grown([], RowLive(sizes), RowEnd(sizes), 12288 - RowEnd(sizes)), mem, RowAsked(sizes))
  }

  function Allocs(sizes: seq<nat>): seq<Op> {
    if sizes == [] then [] else Allocs(sizes[..|sizes| - 1]) + [Kumalloc(sizes[|sizes| - 1])]
  }

  /** On an empty list the allocation as written is the one meant. */
  lemma EmptyListMeant(h: Heap, size: nat)
    requires h.free == []
    ensures Allowed(h, Kumalloc(size)) && Meant(h, Kumalloc(size))
  {
  }

  lemma RowGrows(init: seq<nat>, size: nat)
    ensures var sizes := init + [size];
            && RowEnd(sizes) == RowEnd(init) + SizeAlign(size + 8)
            && RowLive(sizes) == RowLive(init)[RowEnd(init) := SizeAlign(size + 8)]
            && RowAsked(sizes) == RowAsked(init)[RowEnd(init) + 8 := size]
  {
    hide SizeAlign;
    assert (init + [size])[..|init|] == init;
  }

  lemma RowStep(mem: Memory, init: seq<nat>, size: nat)
    requires size > 0 && init != [] && RowEnd(init + [size]) <= 12288
    ensures RowEnd(init) <= 12288 && Row(mem, init).h.free == []
    ensures Outcome(Step(Row(mem, init), Kumalloc(size))) == Ok(Row(mem, init + [size]))
  {
    hide SizeAlign, Step, Grown, RowEnd, RowLive, RowAsked;
    RowGrows(init, size);
    GrownFree([], RowLive(init), RowEnd(init), 12288 - RowEnd(init));
    LaterStep(mem, RowLive(init), RowEnd(init), RowAsked(init), size);
  }

  lemma LaterStep(mem: Memory, live: map<nat, nat>, end: nat, asked: map<nat, nat>, size: nat)
    requires size > 0 && end + SizeAlign(size + 8) <= 12288
    ensures var total := SizeAlign(size + 8);
            var m := Machine(Grown([], live, end, 12288 - end), mem, asked);
            && m.h.free == []
            && Outcome(Step(m, Kumalloc(size))) ==
               Ok(Machine(Grown([], live[end := total], end + total, 12288 - (end + total)), mem,
                          asked[end + 8 := size]))
  {
    hide SizeAlign, Malloc, Grown;
    TakenFromSlack([], live, end, 12288 - end, size);
    GrownFree([], live, end, 12288 - end);
  }

  lemma GrownFree(free: seq<Block>, live: map<nat, nat>, end: nat, slack: nat)
    ensures Grown(free, live, end, slack).free == free
  {
  }

  lemma FirstRow(mem: Memory, size: nat)
    requires size > 0 && RowEnd([size]) <= 12288
    ensures Row(mem, []).h.free == [] && Outcome(Step(Row(mem, []), Kumalloc(size))) == Ok(Row(mem, [size]))
  {
    assert [size][..0] == [];
    assert RowEnd([size]) == 4096 + SizeAlign(size + 8);
    FirstGrowth([], size);
    hide SizeAlign, Malloc, Grown;
    assert RowLive([size]) == map[4096 := SizeAlign(size + 8)];
    assert RowAsked([size]) == map[4104 := size];
  }

  lemma {:induction false} RowReached(mem: Memory, sizes: seq<nat>)
    requires RowEnd(sizes) <= 12288 && forall i | 0 <= i < |sizes| :: sizes[i] > 0
    ensures Reaches(Start(4096, 65536, mem), Allocs(sizes), Row(mem, sizes))
    decreases |sizes|
  {
    hide Step, Meant;
    if sizes != [] {
      var init, size := sizes[..|sizes| - 1], sizes[|sizes| - 1];
      assert sizes == init + [size];
      RowGrows(init, size);
      if init == [] {
        FirstRow(mem, size);
        assert sizes == [size];
      } else {
        RowStep(mem, init, size);
      }
      hide Row, RowEnd;
      RowReached(mem, init);
      EmptyListMeant(Row(mem, init).h, size);
      ReachesAfter(Start(4096, 65536, mem), Allocs(init), Row(mem, init), Kumalloc(size), Row(mem, sizes));
    }
  }

  // ---------------------------------------------------------------- blocks freed without neighbours

  /** Freed, the block at `a` would touch neither block_end nor a listed block. */
  predicate Lonely(free: seq<Block>, live: map<nat, nat>, end: nat, a: nat) {
    && a in live && a + live[a] != end
    && forall f <- free :: f.End() != end && f.End() != a && f.addr != a + live[a]
  }

  function Pushed(m: Machine, a: nat): Machine
    requires a in m.h.live
  {
    Machine(m.h.(free := [Block(a, m.h.live[a])] + m.h.free, live := m.h.live - {a}), m.mem, m.asked - {a + 8})
  }

  lemma LonelyMeant(h: Heap, a: nat)
    requires Lonely(h.free, h.live, h.end, a) && (h.free != [] ==> h.free[0].size != 16)
    ensures Allowed(h, Kufree(a + 8)) && Meant(h, Kufree(a + 8))
  {
    var b := Block(a, h.live[a]);
    assert LeftOf(h.free, b, 0) == |h.free| && RightOf(h.free, b, 0) == |h.free|;
  }

  /** Freeing a lonely block as written is what was meant if the first node has room. */
  lemma FreedOnto(s: Machine, ops: seq<Op>, m: Machine, a: nat)
    requires Reaches(s, ops, m) && Lonely(m.h.free, m.h.live, m.h.end, a) && (m.h.free != [] ==> m.h.free[0].size != 16)
    ensures Reaches(s, ops + [Kufree(a + 8)], Pushed(m, a))
  {
    hide Meant, Free, Reaches;
    PushedFree([], m.h, a);
    LonelyMeant(m.h, a);
    ReachesAfter(s, ops, m, Kufree(a + 8), Pushed(m, a));
  }

  // ---------------------------------------------------------------- runs that go wrong

  /** The row of blocks for `sizes` is there, with these headers and nothing free. */
  ghost predicate Laid(m: Machine, mem: Memory, sizes: seq<nat>, live: map<nat, nat>, end: nat) {
    && Reaches(Start(4096, 65536, mem), Allocs(sizes), m)
    && m.h.free == [] && m.h.live == live && m.h.end == end
  }

  lemma RowLaid(mem: Memory, sizes: seq<nat>)
    requires sizes != [] && RowEnd(sizes) <= 12288 && forall i | 0 <= i < |sizes| :: sizes[i] > 0
    ensures Laid(Row(mem, sizes), mem, sizes, RowLive(sizes), RowEnd(sizes))
  {
    hide Reaches, RowLive, RowAsked, RowEnd, Allocs;
    RowReached(mem, sizes);
  }

  lemma EmptyRow()
    ensures RowEnd([]) == 4096 && RowLive([]) == map[]
  {
  }

  lemma FourBlocksLaid(mem: Memory) returns (m: Machine)
    ensures Laid(m, mem, [40, 16, 16, 16], FourHeaders(), 4216)
  {
    EmptyRow();
    hide RowAsked, Laid, RowLive, RowEnd, Row;
    assert [] + [40] == [40] && [40] + [16] == [40, 16];
    assert [40, 16] + [16] == [40, 16, 16] && [40, 16, 16] + [16] == [40, 16, 16, 16];
    RowGrows([], 40);
    RowGrows([40], 16);
    RowGrows([40, 16], 16);
    RowGrows([40, 16, 16], 16);
    RowLaid(mem, [40, 16, 16, 16]);
    m := Row(mem, [40, 16, 16, 16]);
  }

  /** The calls lead from a fresh heap to `m`, with this list, these headers and this end. */
  ghost predicate Stands(m: Machine, mem: Memory, ops: seq<Op>, free: seq<Block>, live: map<nat, nat>, end: nat) {
    && Reaches(Start(4096, 65536, mem), ops, m) && Inv(m.h)
    && m.h.free == free && m.h.live == live && m.h.end == end
  }

  lemma LaidStands(m: Machine, mem: Memory, sizes: seq<nat>, live: map<nat, nat>, end: nat)
    requires Laid(m, mem, sizes, live, end)
    ensures Stands(m, mem, Allocs(sizes), [], live, end)
  {
    hide Inv, Reaches, Allocs;
    FreshInv(mem);
    ReachedInv(Start(4096, 65536, mem), Allocs(sizes), m);
  }

  /** One more lonely block is freed. */
  lemma FreeOne(m: Machine, mem: Memory, ops: seq<Op>, free: seq<Block>, live: map<nat, nat>, end: nat, a: nat)
    returns (m': Machine)
    requires Stands(m, mem, ops, free, live, end) && Lonely(free, live, end, a) && (free != [] ==> free[0].size != 16)
    ensures Stands(m', mem, ops + [Kufree(a + 8)], [Block(a, live[a])] + free, live - {a}, end)
    ensures a in m.h.live && m' == Pushed(m, a)
  {
    hide Inv, Reaches;
    FreedOnto(Start(4096, 65536, mem), ops, m, a);
    m' := Pushed(m, a);
    FreshInv(mem);
    ReachedInv(Start(4096, 65536, mem), ops + [Kufree(a + 8)], m');
  }

  lemma ReachedInv(s: Machine, ops: seq<Op>, m: Machine)
    requires Inv(s.h) && Reaches(s, ops, m)
    ensures Inv(m.h)
  {
    hide Inv;
    RunInv(s, ops);
  }

  lemma Finally(m: Machine, mem: Memory, ops: seq<Op>, free: seq<Block>, live: map<nat, nat>, end: nat, op: Op)
    requires Stands(m, mem, ops, free, live, end) && Allowed(m.h, op)
    ensures RunsAsWritten(Start(4096, 65536, mem), ops + [op], Outcome(StepAsWritten(m, op)))
  {
    hide Inv, Reaches, Allowed, StepAsWritten, RunsAsWritten;
    FreshInv(mem);
    ThenAsWritten(Start(4096, 65536, mem), ops, m, op);
  }

  // ---------------------------------------------------------------- a missing successor

  function FourHeaders(): map<nat, nat> {
    map[4096 := 48, 4144 := 24, 4168 := 24, 4192 := 24]
  }

  lemma FourFacts()
    ensures var live := FourHeaders();
            && Lonely([], live, 4216, 4096) && live[4096] == 48
            && Lonely([Block(4096, 48)], live - {4096}, 4216, 4168) && (live - {4096})[4168] == 24
            && live - {4096} - {4168} == map[4144 := 24, 4192 := 24]
  {
  }

  lemma FirstFreeOfFour(mem: Memory) returns (m: Machine)
    ensures 4096 in FourHeaders()
    ensures Stands(m, mem, Allocs([40, 16, 16, 16]) + [Kufree(4104)], [Block(4096, 48)], FourHeaders() - {4096}, 4216)
  {
    hide Allocs, Stands, Laid, Lonely, FourHeaders, Pushed, Start;
    m := FourBlocksLaid(mem);
    FourFacts();
    LaidStands(m, mem, [40, 16, 16, 16], FourHeaders(), 4216);
    m := FreeOne(m, mem, Allocs([40, 16, 16, 16]), [], FourHeaders(), 4216, 4096);
    assert [Block(4096, 48)] + [] == [Block(4096, 48)];
  }

  lemma TwoFreeOfFour(mem: Memory) returns (m: Machine)
    ensures Stands(m, mem, Allocs([40, 16, 16, 16]) + [Kufree(4104)] + [Kufree(4176)],
                   [Block(4168, 24), Block(4096, 48)], map[4144 := 24, 4192 := 24], 4216)
  {
    hide Allocs, Stands, Lonely, FourHeaders, Pushed, Start;
    m := FirstFreeOfFour(mem);
    FourFacts();
    m := FreeOne(m, mem, Allocs([40, 16, 16, 16]) + [Kufree(4104)], [Block(4096, 48)],
                 FourHeaders() - {4096}, 4216, 4168);
    assert [Block(4168, 24)] + [Block(4096, 48)] == [Block(4168, 24), Block(4096, 48)];
  }

  lemma SecondServes(h: Heap)
    requires h.free == [Block(4168, 24), Block(4096, 48)]
    ensures MallocAsWritten(h, [], 32) == Err(PageFault)
  {
    assert FirstFit(h.free, 40, 0) == FirstFit(h.free, 40, 1) == 1;
  }

  /** Lines 122-124: two free blocks, and a request that only the second one can serve. The
      missing successor of the second is dereferenced. */
  lemma MissingSuccessorExample(mem: Memory)
    ensures RunsAsWritten(Start(4096, 65536, mem),
                          Allocs([40, 16, 16, 16]) + [Kufree(4104)] + [Kufree(4176)] + [Kumalloc(32)], Err(PageFault))
  {
    hide Allocs, RunsAsWritten, Reaches, Inv, MallocAsWritten;
    var m := TwoFreeOfFour(mem);
    SecondServes(m.h);
    Finally(m, mem, Allocs([40, 16, 16, 16]) + [Kufree(4104)] + [Kufree(4176)],
            m.h.free, m.h.live, m.h.end, Kumalloc(32));
  }

  // ---------------------------------------------------------------- a link beyond its block

  lemma FourSmallLaid(mem: Memory) returns (m: Machine)
    ensures Laid(m, mem, [8, 8, 8, 8], SmallHeaders(), 4160)
  {
    EmptyRow();
    hide RowAsked, Laid, RowLive, RowEnd, Row;
    assert [] + [8] == [8] && [8] + [8] == [8, 8] && [8, 8] + [8] == [8, 8, 8] && [8, 8, 8] + [8] == [8, 8, 8, 8];
    RowGrows([], 8);
    RowGrows([8], 8);
    RowGrows([8, 8], 8);
    RowGrows([8, 8, 8], 8);
    RowLaid(mem, [8, 8, 8, 8]);
    m := Row(mem, [8, 8, 8, 8]);
  }

  function SmallHeaders(): map<nat, nat> {
    map[4096 := 16, 4112 := 16, 4128 := 16, 4144 := 16]
  }

  lemma SmallFacts()
    ensures var live := SmallHeaders();
            && Lonely([], live, 4160, 4096) && live[4096] == 16
            && live - {4096} == map[4112 := 16, 4128 := 16, 4144 := 16]
  {
  }

  lemma OneFreeOfFour(mem: Memory) returns (m: Machine)
    ensures Stands(m, mem, Allocs([8, 8, 8, 8]) + [Kufree(4104)],
                   [Block(4096, 16)], map[4112 := 16, 4128 := 16, 4144 := 16], 4160)
  {
    var ops, live := Allocs([8, 8, 8, 8]), SmallHeaders();
    hide Allocs, Stands, Laid, Lonely, SmallHeaders, Pushed, Start;
    m := FourSmallLaid(mem);
    SmallFacts();
    LaidStands(m, mem, [8, 8, 8, 8], live, 4160);
    m := FreeOne(m, mem, ops, [], live, 4160, 4096);
    assert [Block(4096, 16)] + [] == [Block(4096, 16)];
  }

  lemma SmallNodeHit(h: Heap)
    requires Inv(h) && h.end == 4160 && h.free == [Block(4096, 16)] && h.live == map[4112 := 16, 4128 := 16, 4144 := 16]
    ensures Owned(h, 4136)
    ensures var r := FreeAsWritten(h, [], 4136);
            r.Ok? && 4112 in r.value.live && r.value.live[4112] == 4128 && !Inv(r.value)
  {
    hide Inv;
    var b := Block(4128, 16);
    PushedFree([], h, 4128);
    FreeCorrect(h, [], 4136);
    var meant := h.(free := [b] + h.free, live := h.live - {4128});
    assert Free(h, [], 4136) == Ok(meant);
    assert EndingAt(h.free, h.end) == |h.free|;
    assert LeftOf(h.free, b, 0) == 1 && RightOf(h.free, b, 0) == 1;
    assert FreeAsWritten(h, [], 4136) == Ok(LinkStore(meant, Block(4096, 16), 16, 4128));
    assert meant.free[1] == Block(4096, 16);
    LinkStoreIff(meant, 1, 16, 4128);
  }

  /** Line 351: four blocks of 16 bytes, the first and the third freed. The `prev` of the first
      is stored over the header of the second, which is live. */
  lemma SmallNodeExample(mem: Memory) returns (m': Machine)
    ensures RunsAsWritten(Start(4096, 65536, mem), Allocs([8, 8, 8, 8]) + [Kufree(4104)] + [Kufree(4136)], Ok(m'))
    ensures 4112 in m'.h.live && m'.h.live[4112] == 4128 && !Inv(m'.h)
  {
    hide Allocs, RunsAsWritten, Reaches, Inv, FreeAsWritten;
    var m := OneFreeOfFour(mem);
    SmallNodeHit(m.h);
    Finally(m, mem, Allocs([8, 8, 8, 8]) + [Kufree(4104)], m.h.free, m.h.live, m.h.end, Kufree(4136));
    m' := Outcome(StepAsWritten(m, Kufree(4136))).value;
  }

  // ---------------------------------------------------------------- an exact fit

  function TwoHeaders(): map<nat, nat> {
    map[4096 := 16, 4112 := 16]
  }

  lemma TwoLaid(mem: Memory) returns (m: Machine)
    ensures Laid(m, mem, [8, 8], TwoHeaders(), 4128)
  {
    EmptyRow();
    hide RowAsked, Laid, RowLive, RowEnd, Row;
    assert [] + [8] == [8] && [8] + [8] == [8, 8];
    RowGrows([], 8);
    RowGrows([8], 8);
    RowLaid(mem, [8, 8]);
    m := Row(mem, [8, 8]);
  }

  lemma TwoFacts()
    ensures var live := TwoHeaders();
            Lonely([], live, 4128, 4096) && live[4096] == 16 && live - {4096} == map[4112 := 16]
  {
  }

  lemma OneFreeOfTwo(mem: Memory) returns (m: Machine)
    ensures Stands(m, mem, Allocs([8, 8]) + [Kufree(4104)], [Block(4096, 16)], map[4112 := 16], 4128)
  {
    var ops, live := Allocs([8, 8]), TwoHeaders();
    hide Allocs, Stands, Laid, Lonely, TwoHeaders, Pushed, Start;
    m := TwoLaid(mem);
    TwoFacts();
    LaidStands(m, mem, [8, 8], live, 4128);
    m := FreeOne(m, mem, ops, [], live, 4128, 4096);
    assert [Block(4096, 16)] + [] == [Block(4096, 16)];
  }

  lemma ExactFitHit(h: Heap)
    requires Inv(h) && h.free == [Block(4096, 16)] && h.live == map[4112 := 16]
    ensures var r := MallocAsWritten(h, [], 8);
            r.Ok? && 4112 in r.value.0.live && r.value.0.live[4112] == 0 && !Inv(r.value.0)
  {
    assert FirstFit(h.free, 16, 0) == 0;
    hide Inv;
    ReuseAsWrittenIff(h, 0, 8);
  }

  /** Line 101: two blocks of 16 bytes, the first freed and then asked for again. The size of
      the empty remainder is stored over the header of the second. */
  lemma ExactFitExample(mem: Memory) returns (m': Machine)
    ensures RunsAsWritten(Start(4096, 65536, mem), Allocs([8, 8]) + [Kufree(4104)] + [Kumalloc(8)], Ok(m'))
    ensures 4112 in m'.h.live && m'.h.live[4112] == 0 && !Inv(m'.h)
  {
    hide Allocs, RunsAsWritten, Reaches, Inv, MallocAsWritten;
    var m := OneFreeOfTwo(mem);
    ExactFitHit(m.h);
    Finally(m, mem, Allocs([8, 8]) + [Kufree(4104)], m.h.free, m.h.live, m.h.end, Kumalloc(8));
    m' := Outcome(StepAsWritten(m, Kumalloc(8))).value;
  }

  // ---------------------------------------------------------------- three blocks merged

  function SixHeaders(): map<nat, nat> {
    map[4096 := 24, 4120 := 24, 4144 := 24, 4168 := 24, 4192 := 24, 4216 := 24]
  }

  function SixSizes(): seq<nat> {
    [16, 16, 16, 16, 16, 16]
  }

  lemma SixLaid(mem: Memory) returns (m: Machine)
    ensures Laid(m, mem, SixSizes(), SixHeaders(), 4240)
  {
    ThreeRow();
    SixRow();
    hide RowAsked, Laid, RowLive, RowEnd, Row;
    RowLaid(mem, SixSizes());
    m := Row(mem, SixSizes());
  }

  lemma ThreeRow()
    ensures RowEnd([16, 16, 16]) == 4168 && RowLive([16, 16, 16]) == map[4096 := 24, 4120 := 24, 4144 := 24]
  {
    assert [] + [16] == [16] && [16] + [16] == [16, 16] && [16, 16] + [16] == [16, 16, 16];
    RowGrows([], 16);
    RowGrows([16], 16);
    RowGrows([16, 16], 16);
  }

  lemma SixRow()
    requires RowEnd([16, 16, 16]) == 4168 && RowLive([16, 16, 16]) == map[4096 := 24, 4120 := 24, 4144 := 24]
    ensures RowEnd(SixSizes()) == 4240 && RowLive(SixSizes()) == SixHeaders()
  {
    hide RowEnd, RowLive, RowAsked;
    assert [16, 16, 16] + [16] == [16, 16, 16, 16] && [16, 16, 16, 16] + [16] == [16, 16, 16, 16, 16];
    assert [16, 16, 16, 16, 16] + [16] == SixSizes();
    RowGrows([16, 16, 16], 16);
    RowGrows([16, 16, 16, 16], 16);
    RowGrows([16, 16, 16, 16, 16], 16);
  }

  /** A block with these headers around it is lonely. */
  lemma OddIsLonely(free: seq<Block>, live: map<nat, nat>, a: nat)
    requires a in live && live[a] == 24 && a in {4096, 4144, 4192}
    requires forall f <- free :: f.size == 24 && f.addr in {4096, 4144, 4192}
    ensures Lonely(free, live, 4240, a)
  {
  }

  lemma OddHeaders(a: nat, b: nat, c: nat)
    requires {a, b, c} == {4096, 4144, 4192} && a != b && b != c && a != c
    ensures a in {4096, 4144, 4192} && b in {4096, 4144, 4192} && c in {4096, 4144, 4192}
    ensures c in SixHeaders() && SixHeaders()[c] == 24
    ensures b in SixHeaders() - {c} && (SixHeaders() - {c})[b] == 24
    ensures a in SixHeaders() - {c} - {b} && (SixHeaders() - {c} - {b})[a] == 24
    ensures SixHeaders() - {c} - {b} - {a} == map[4120 := 24, 4168 := 24, 4216 := 24]
  {
    var left := SixHeaders() - {c} - {b} - {a};
    assert a in {a, b, c} && b in {a, b, c} && c in {a, b, c};
    forall x ensures x in left <==> x in {4120, 4168, 4216} {
      assert x in left <==> x in SixHeaders() && x !in {a, b, c};
    }
  }

  /** Of six blocks of 24 bytes the first, third and fifth are freed, in the order c, b, a. */
  lemma ThreeFreeOfSix(mem: Memory, a: nat, b: nat, c: nat) returns (m: Machine)
    requires {a, b, c} == {4096, 4144, 4192} && a != b && b != c && a != c
    ensures Stands(m, mem, Allocs(SixSizes()) + [Kufree(c + 8)] + [Kufree(b + 8)] + [Kufree(a + 8)],
                   [Block(a, 24), Block(b, 24), Block(c, 24)], map[4120 := 24, 4168 := 24, 4216 := 24], 4240)
  {
    var ops, live := Allocs(SixSizes()), SixHeaders();
    hide Allocs, Stands, Laid, SixHeaders, SixSizes, Lonely;
    OddHeaders(a, b, c);
    m := SixLaid(mem);
    LaidStands(m, mem, SixSizes(), live, 4240);
    OddIsLonely([], live, c);
    m := FreeOne(m, mem, ops, [], live, 4240, c);
    assert [Block(c, 24)] + [] == [Block(c, 24)];
    OddIsLonely([Block(c, 24)], live - {c}, b);
    m := FreeOne(m, mem, ops + [Kufree(c + 8)], [Block(c, 24)], live - {c}, 4240, b);
    assert [Block(b, 24)] + [Block(c, 24)] == [Block(b, 24), Block(c, 24)];
    OddIsLonely([Block(b, 24), Block(c, 24)], live - {c} - {b}, a);
    m := FreeOne(m, mem, ops + [Kufree(c + 8)] + [Kufree(b + 8)], [Block(b, 24), Block(c, 24)],
                 live - {c} - {b}, 4240, a);
    assert [Block(a, 24)] + [Block(b, 24), Block(c, 24)] == [Block(a, 24), Block(b, 24), Block(c, 24)];
  }

  lemma CycleHere(h: Heap)
    requires h.end == 4240 && h.live == map[4120 := 24, 4168 := 24, 4216 := 24]
    requires h.free == [Block(4192, 24), Block(4096, 24), Block(4144, 24)]
    ensures Owned(h, 4128) && FreeAsWritten(h, [], 4128) == Err(EndlessList)
  {
    var b := Block(4120, 24);
    assert EndingAt(h.free, 4240) == 3;
    assert LeftOf(h.free, b, 0) == LeftOf(h.free, b, 1) == 1;
    assert RightOf(h.free, b, 0) == RightOf(h.free, b, 1) == RightOf(h.free, b, 2) == 2;
  }

  /** Lines 253-268: a block freed between two free ones, the right one listed behind the left
      one and another node before both. The left one follows itself. */
  lemma MergeCycleExample(mem: Memory)
    ensures RunsAsWritten(Start(4096, 65536, mem),
                          Allocs(SixSizes()) + [Kufree(4152)] + [Kufree(4104)] + [Kufree(4200)] + [Kufree(4128)],
                          Err(EndlessList))
  {
    hide Allocs, RunsAsWritten, Reaches, Inv, FreeAsWritten, SixSizes;
    var m := ThreeFreeOfSix(mem, 4192, 4096, 4144);
    CycleHere(m.h);
    Finally(m, mem, Allocs(SixSizes()) + [Kufree(4152)] + [Kufree(4104)] + [Kufree(4200)],
            m.h.free, m.h.live, m.h.end, Kufree(4128));
  }

  lemma LostHere(h: Heap)
    requires h.end == 4240 && h.live == map[4120 := 24, 4168 := 24, 4216 := 24]
    requires h.free == [Block(4096, 24), Block(4144, 24), Block(4192, 24)]
    ensures Owned(h, 4128)
    ensures var r := FreeAsWritten(h, [], 4128);
            r.Ok? && r.value.free == [Block(4096, 72)] && 4192 !in r.value.live
  {
    var b := Block(4120, 24);
    assert EndingAt(h.free, 4240) == 3;
    assert LeftOf(h.free, b, 0) == 0 && RightOf(h.free, b, 0) == 1;
  }

  /** The same with the other node behind both: it is lost, neither free nor allocated. */
  lemma MergeLosesExample(mem: Memory) returns (m': Machine)
    ensures RunsAsWritten(Start(4096, 65536, mem),
                          Allocs(SixSizes()) + [Kufree(4200)] + [Kufree(4152)] + [Kufree(4104)] + [Kufree(4128)],
                          Ok(m'))
    ensures m'.h.free == [Block(4096, 72)] && 4192 !in m'.h.live
  {
    hide Allocs, RunsAsWritten, Reaches, Inv, FreeAsWritten, SixSizes;
    var m := ThreeFreeOfSix(mem, 4096, 4144, 4192);
    LostHere(m.h);
    Finally(m, mem, Allocs(SixSizes()) + [Kufree(4200)] + [Kufree(4152)] + [Kufree(4104)],
            m.h.free, m.h.live, m.h.end, Kufree(4128));
    m' := Outcome(StepAsWritten(m, Kufree(4128))).value;
  }

  // ---------------------------------------------------------------- a read after the release

  lemma FirstPageRow(mem: Memory) returns (m: Machine)
    ensures Laid(m, mem, [8184], map[4096 := 8192], 12288) && m.h == Grown([], map[4096 := 8192], 12288, 0)
  {
    assert [] + [8184] == [8184];
    RowGrows([], 8184);
    RowLaid(mem, [8184]);
    m := Row(mem, [8184]);
  }

  /** The heap after a second growth by 8192 bytes. */
  function GrownTwice(free: seq<Block>, live: map<nat, nat>): Heap {
    Heap(free, live, 20480, 0, Os(4096, 20480, 65536, 2, 0, PageSpan(4096, 20480), []))
  }

  lemma SecondGrowth()
    ensures Malloc(Grown([], map[4096 := 8192], 12288, 0), [], 8184) ==
            Ok((GrownTwice([], map[4096 := 8192, 12288 := 8192]), 12296))
  {
    hide DoBrk, FirstFit, SizeAlign, Capacity, PageSpan;
    BreakRises();
    NothingFits();
    assert map[4096 := 8192][12288 := 8192] == map[4096 := 8192, 12288 := 8192];
  }

  lemma NothingFits()
    ensures SizeAlign(8184 + 8) == 8192 && Capacity(8192) == 8192 && FirstFit([], 8192, 0) == 0
  {
  }

  lemma BreakRises()
    ensures DoBrk(Grown([], map[], 12288, 0).os, [], 20480) == Ok(GrownTwice([], map[]).os)
  {
    assert AlignUp(12288) == 12288 && AlignUp(20480) == 20480;
    assert PageSpan(4096, 12288) + PageSpan(12288, 20480) == PageSpan(4096, 20480);
  }

  lemma BigReached(mem: Memory) returns (m: Machine)
    ensures Stands(m, mem, Allocs([8184]) + [Kumalloc(8184)] + [Kufree(4104)],
                   [Block(4096, 8192)], map[12288 := 8192], 20480)
    ensures m.h == GrownTwice([Block(4096, 8192)], map[12288 := 8192])
  {
    hide Reaches, Inv, Allocs, Malloc, Meant;
    var s, ops := Start(4096, 65536, mem), Allocs([8184]);
    var m0 := FirstPageRow(mem);
    SecondGrowth();
    EmptyListMeant(m0.h, 8184);
    var live := map[4096 := 8192, 12288 := 8192];
    var m1 := Step(m0, Kumalloc(8184)).value.0;
    ReachesAfter(s, ops, m0, Kumalloc(8184), m1);
    FreshInv(mem);
    ReachedInv(s, ops + [Kumalloc(8184)], m1);
    m := FreeOne(m1, mem, ops + [Kumalloc(8184)], [], live, 20480, 4096);
    assert live - {4096} == map[12288 := 8192];
  }

  lemma ReadsReleased(h: Heap)
    requires h == GrownTwice([Block(4096, 8192)], map[12288 := 8192])
    ensures Owned(h, 12296) && FreeAsWritten(h, [], 12296) == Err(PageFault)
  {
    assert AlignUp(4096) == 4096 && AlignUp(12288) == 12288 && AlignUp(20480) == 20480;
  }

  /** Line 199: two blocks of 8192 bytes, freed in the order they were allocated. The second
      free gives back both, and then reads the node of the first. */
  lemma ReadAfterReleaseExample(mem: Memory)
    ensures RunsAsWritten(Start(4096, 65536, mem),
                          Allocs([8184]) + [Kumalloc(8184)] + [Kufree(4104)] + [Kufree(12296)], Err(PageFault))
  {
    hide Allocs, RunsAsWritten, Reaches, Inv, FreeAsWritten, GrownTwice;
    var m := BigReached(mem);
    ReadsReleased(m.h);
    Finally(m, mem, Allocs([8184]) + [Kumalloc(8184)] + [Kufree(4104)], m.h.free, m.h.live, m.h.end, Kufree(12296));
  }
}
