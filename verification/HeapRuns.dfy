/** Whole runs of allocator calls. */
module HeapRuns {
  import opened Base
  import opened Blocks
  import opened Spans
  import opened Break
  import opened HeapSpec
  import opened Payloads
  import opened HeapLaws

  datatype Op =
    | Kumalloc(size: nat)
    | Kucalloc(nmemb: nat, size: nat)
    | Kufree(ptr: nat)
    | Kurealloc(ptr: nat, size: nat)

  /** `asked` records, for every pointer handed out, the bytes last asked of it. */
  datatype Machine = Machine(h: Heap, mem: Memory, asked: map<nat, nat>)

  /** ISO C99 section 7.20.3: only pointers of live allocations, or NULL, may be passed back. */
  predicate Allowed(h: Heap, op: Op) {
    match op
    case Kufree(ptr) => ptr == 0 || Owned(h, ptr)
    case Kurealloc(ptr, _) => ptr == 0 || Owned(h, ptr)
    case _ => true
  }

  function Noted(asked: map<nat, nat>, ptr: nat, size: nat): map<nat, nat> {
    if ptr == 0 then asked else asked[ptr := size]
  }

  function Step(m: Machine, op: Op): Result<(Machine, nat)>
    requires Allowed(m.h, op)
  {
    match op
    case Kumalloc(size) =>
      var (h', ptr) :- Malloc(m.h, [], size);
      Ok((Machine(h', m.mem, Noted(m.asked, ptr, size)), ptr))
    case Kucalloc(nmemb, size) =>
      var (h', mem', ptr) :- Calloc(m.h, m.mem, [], nmemb, size);
      Ok((Machine(h', mem', Noted(m.asked, ptr, nmemb * size)), ptr))
    case Kufree(ptr) =>
      var h' :- Free(m.h, [], ptr);
      Ok((Machine(h', m.mem, m.asked - {ptr}), 0))
    case Kurealloc(ptr, size) =>
      var (h', mem', ptr') :- Realloc(m.h, m.mem, [], ptr, size);
      Ok((Machine(h', mem', if size == 0 && ptr != 0 then m.asked - {ptr} else Noted(m.asked, ptr', size)), ptr'))
  }

  ghost predicate AllowedRun(m: Machine, ops: seq<Op>)
    decreases |ops|
  {
    ops == [] ||
    (Allowed(m.h, ops[0]) &&
     match Step(m, ops[0])
     case Ok((m', _)) => AllowedRun(m', ops[1..])
     case Err(_) => true)
  }

  ghost function Run(m: Machine, ops: seq<Op>): Result<Machine>
    requires AllowedRun(m, ops)
    decreases |ops|
  {
    if ops == [] then Ok(m)
    else
      match Step(m, ops[0])
      case Ok((m', _)) => Run(m', ops[1..])
      case Err(f) => Err(f)
  }

  /** The call is a resize whose copy reads an inaccessible page. */
  predicate CallOverReads(h: Heap, op: Op)
    requires Allowed(h, op)
  {
    op.Kurealloc? && op.ptr != 0 && op.size > 0 && OverReads(h, op.ptr, op.size)
  }

  /** The call is a resize into the last eight bytes counted by line 369. */
  predicate CallInGap(h: Heap, op: Op)
    requires Allowed(h, op)
  {
    op.Kurealloc? && op.ptr != 0 && op.size > 0 && InGap(h, op.ptr, op.size)
  }

  /** The run comes to a call that over-reads. */
  ghost predicate HitsOverRead(m: Machine, ops: seq<Op>)
    requires AllowedRun(m, ops)
    decreases |ops|
  {
    ops != [] &&
    (CallOverReads(m.h, ops[0]) ||
     match Step(m, ops[0])
     case Ok((m', _)) => HitsOverRead(m', ops[1..])
     case Err(_) => false)
  }

  ghost predicate HitsGap(m: Machine, ops: seq<Op>)
    requires AllowedRun(m, ops)
    decreases |ops|
  {
    ops != [] &&
    (CallInGap(m.h, ops[0]) ||
     match Step(m, ops[0])
     case Ok((m', _)) => HitsGap(m', ops[1..])
     case Err(_) => false)
  }

  // ---------------------------------------------------------------- the invariant over a run

  /** What a step keeps, and why it can fail. */
  ghost predicate StepSafe(m: Machine, op: Op, r: Result<(Machine, nat)>)
    requires Allowed(m.h, op)
  {
    match r
    case Ok((m', _)) => Inv(m'.h) && m'.h.os.heap == m.h.os.heap && !CallOverReads(m.h, op)
    case Err(f) => f == if CallOverReads(m.h, op) then PageFault else BeyondLimit
  }

  lemma ReallocSafe(m: Machine, ptr: nat, size: nat)
    requires Inv(m.h) && Allowed(m.h, Kurealloc(ptr, size))
    ensures StepSafe(m, Kurealloc(ptr, size), Step(m, Kurealloc(ptr, size)))
  {
    hide Inv, Malloc, Free, OverReads;
    if ptr == 0 {
      MallocCorrect(m.h, [], size);
    } else if size == 0 {
      FreeCorrect(m.h, [], ptr);
    } else {
      hide Realloc;
      ReallocKeepsContents(m.h, m.mem, [], ptr, size);
    }
  }

  lemma StepKeepsInv(m: Machine, op: Op)
    requires Inv(m.h) && Allowed(m.h, op)
    ensures StepSafe(m, op, Step(m, op))
  {
    match op
    case Kumalloc(size) =>
      hide Inv, Malloc;
      MallocCorrect(m.h, [], size);
    case Kucalloc(nmemb, size) =>
      hide Inv, Calloc;
      CallocCorrect(m.h, m.mem, [], nmemb, size);
    case Kufree(ptr) =>
      hide Inv, Free;
      FreeCorrect(m.h, [], ptr);
    case Kurealloc(ptr, size) =>
      ReallocSafe(m, ptr, size);
  }

  lemma {:induction false} RunInv(m: Machine, ops: seq<Op>)
    requires Inv(m.h) && AllowedRun(m, ops)
    ensures match Run(m, ops)
            case Ok(m') => Inv(m'.h) && m'.h.os.heap == m.h.os.heap && !HitsOverRead(m, ops)
            case Err(f) => f == if HitsOverRead(m, ops) then PageFault else BeyondLimit
    decreases |ops|
  {
    hide Inv, Step, Allowed, CallOverReads;
    if ops != [] {
      StepKeepsInv(m, ops[0]);
      match Step(m, ops[0])
      case Ok((m', _)) => RunInv(m', ops[1..]);
      case Err(_) =>
    }
  }

  function Start(heap: nat, limit: nat, mem: Memory): Machine {
    Machine(InitHeap(heap, limit), mem, map[])
  }

  /** After any run of allowed calls from the initial state: live and free blocks tile
      [heap, block_end) exactly; live blocks are disjoint, aligned and below the break; free
      blocks are fully coalesced; every byte is accounted for. A run dies on an inaccessible
      page exactly when it comes to a resize that over-reads; otherwise it stops early only at
      the heap limit. */
  lemma RunSafe(heap: nat, limit: nat, mem: Memory, ops: seq<Op>)
    requires heap > 0 && heap % 4096 == 0
    requires AllowedRun(Start(heap, limit, mem), ops)
    ensures match Run(Start(heap, limit, mem), ops)
            case Err(f) => f == if HitsOverRead(Start(heap, limit, mem), ops) then PageFault else BeyondLimit
            case Ok(m) =>
              var h := m.h;
              && !HitsOverRead(Start(heap, limit, mem), ops)
              && Tiles(SetOf(h.free) + LiveSet(h.live), heap, h.Top())
              && SetOf(h.free) !! LiveSet(h.live) && Coalesced(SetOf(h.free), h.end)
              && (forall a <- h.live :: a % 8 == 0 && heap <= a && a + h.live[a] <= h.os.cur)
              && (forall a <- h.live, b <- h.live | a != b :: a + h.live[a] <= b || b + h.live[b] <= a)
              && h.os.cur - heap == Bytes(LiveSet(h.live)) + Bytes(SetOf(h.free)) + h.slack
  {
    InitInv(heap, limit);
    RunInv(Start(heap, limit, mem), ops);
    hide AllowedRun, Tiles, Coalesced, Run, HitsOverRead;
    match Run(Start(heap, limit, mem), ops)
    case Err(_) =>
    case Ok(m) =>
      BytesConserved(m.h);
      forall a, b | a in m.h.live && b in m.h.live
        ensures a % 8 == 0 && heap <= a && a + m.h.live[a] <= m.h.os.cur
        ensures a != b ==> a + m.h.live[a] <= b || b + m.h.live[b] <= a
      {
        LiveApart(m.h, a, b);
        BelowBreak(m.h);
      }
  }

  // ---------------------------------------------------------------- what was asked

  /** The bytes a call asks for. */
  function Asks(op: Op): nat {
    match op
    case Kumalloc(size) => size
    case Kucalloc(nmemb, size) => nmemb * size
    case Kufree(_) => 0
    case Kurealloc(_, size) => size
  }

  /** The call gives its pointer back. */
  predicate GivesBack(op: Op, ptr: nat) {
    op == Kufree(ptr) || op == Kurealloc(ptr, 0)
  }

  /** After a call the record holds, for the pointer it returned, the bytes it asked for, and
      nothing for a pointer it gave back; every other entry is kept. */
  lemma StepNotes(m: Machine, op: Op)
    requires Allowed(m.h, op)
    ensures match Step(m, op)
            case Ok((m', r)) =>
              && (r != 0 ==> r in m'.asked && m'.asked[r] == Asks(op))
              && (forall x: nat :: x != 0 && x != r && GivesBack(op, x) ==> x !in m'.asked)
              && (forall x: nat :: x != 0 && x != r && !GivesBack(op, x) ==>
                    (x in m'.asked <==> x in m.asked) && (x in m.asked ==> m'.asked[x] == m.asked[x]))
            case Err(_) => true
  {
    hide Malloc, Calloc, Free, Owned;
  }

  // ---------------------------------------------------------------- large enough

  /** Every live block holds what was last asked of it, up to `lack` bytes. */
  ghost predicate Roomy(m: Machine, lack: nat) {
    forall a <- m.h.live :: a + 8 in m.asked && m.asked[a + 8] + 8 <= m.h.live[a] + lack
  }

  lemma ReallocRoomy(m: Machine, ptr: nat, size: nat, lack: nat)
    requires Inv(m.h) && Allowed(m.h, Kurealloc(ptr, size)) && ptr != 0 && size > 0
    requires Roomy(m, lack) && (lack == 8 || !InGap(m.h, ptr, size))
    ensures match Step(m, Kurealloc(ptr, size))
            case Ok((m', _)) => Roomy(m', lack)
            case Err(_) => true
  {
    hide Inv, Realloc, InGap, OthersKept, Copied;
    ReallocKeepsContents(m.h, m.mem, [], ptr, size);
    ReallocLargeEnoughIff(m.h, m.mem, [], ptr, size);
  }

  lemma AddedRoomy(m: Machine, m': Machine, ptr: nat, size: nat, lack: nat)
    requires Roomy(m, lack) && m'.asked == Noted(m.asked, ptr, size)
    requires ptr == 0 ==> m'.h == m.h
    requires ptr != 0 ==> Owned(m'.h, ptr) && size <= Payload(m'.h, ptr)
    requires ptr != 0 ==> m'.h.live == m.h.live[ptr - 8 := m'.h.live[ptr - 8]]
    ensures Roomy(m', lack)
  {
  }

  lemma MallocRoomy(m: Machine, size: nat, lack: nat)
    requires Inv(m.h) && Roomy(m, lack)
    ensures match Malloc(m.h, [], size)
            case Ok((h', ptr)) => Roomy(Machine(h', m.mem, Noted(m.asked, ptr, size)), lack)
            case Err(_) => true
  {
    hide Inv, Malloc, Roomy;
    MallocCorrect(m.h, [], size);
    match Malloc(m.h, [], size)
    case Ok((h', ptr)) => AddedRoomy(m, Machine(h', m.mem, Noted(m.asked, ptr, size)), ptr, size, lack);
    case Err(_) =>
  }

  lemma CallocRoomy(m: Machine, nmemb: nat, size: nat, lack: nat)
    requires Inv(m.h) && Roomy(m, lack)
    ensures match Calloc(m.h, m.mem, [], nmemb, size)
            case Ok((h', mem', ptr)) => Roomy(Machine(h', mem', Noted(m.asked, ptr, nmemb * size)), lack)
            case Err(_) => true
  {
    hide Inv, Calloc, Roomy, OthersKept;
    CallocCorrect(m.h, m.mem, [], nmemb, size);
    match Calloc(m.h, m.mem, [], nmemb, size)
    case Ok((h', mem', ptr)) =>
      AddedRoomy(m, Machine(h', mem', Noted(m.asked, ptr, nmemb * size)), ptr, nmemb * size, lack);
    case Err(_) =>
  }

  lemma FreeRoomy(m: Machine, ptr: nat, lack: nat)
    requires Inv(m.h) && (ptr == 0 || Owned(m.h, ptr)) && Roomy(m, lack)
    ensures match Free(m.h, [], ptr)
            case Ok(h') => Roomy(Machine(h', m.mem, m.asked - {ptr}), lack)
            case Err(_) => true
  {
    hide Inv, Free, InsideLive, GaveBackSafely;
    FreeCorrect(m.h, [], ptr);
  }

  lemma StepRoomy(m: Machine, op: Op, lack: nat)
    requires Inv(m.h) && Allowed(m.h, op) && Roomy(m, lack) && (lack == 8 || !CallInGap(m.h, op))
    ensures match Step(m, op)
            case Ok((m', _)) => Roomy(m', lack)
            case Err(_) => true
  {
    hide Inv, Malloc, Calloc, Free, Roomy, Noted;
    match op
    case Kumalloc(size) => MallocRoomy(m, size, lack);
    case Kucalloc(nmemb, size) => CallocRoomy(m, nmemb, size, lack);
    case Kufree(ptr) => FreeRoomy(m, ptr, lack);
    case Kurealloc(ptr, size) =>
      if ptr == 0 {
        MallocRoomy(m, size, lack);
      } else if size == 0 {
        FreeRoomy(m, ptr, lack);
      } else {
        ReallocRoomy(m, ptr, size, lack);
      }
  }

  lemma {:induction false} RunRoomy(m: Machine, ops: seq<Op>, lack: nat)
    requires Inv(m.h) && AllowedRun(m, ops) && Roomy(m, lack) && (lack == 8 || !HitsGap(m, ops))
    ensures match Run(m, ops)
            case Ok(m') => Roomy(m', lack)
            case Err(_) => true
    decreases |ops|
  {
    hide Inv, Step, Allowed, CallInGap, CallOverReads, Roomy;
    if ops != [] {
      StepKeepsInv(m, ops[0]);
      StepRoomy(m, ops[0], lack);
      match Step(m, ops[0])
      case Ok((m', _)) => RunRoomy(m', ops[1..], lack);
      case Err(_) =>
    }
  }

  /** At the end of any run every live block falls short of the bytes last asked of it by at
      most its header, and if no resize of the run was in the gap it holds all of them. */
  lemma RunLargeEnough(heap: nat, limit: nat, mem: Memory, ops: seq<Op>)
    requires heap > 0 && heap % 4096 == 0
    requires AllowedRun(Start(heap, limit, mem), ops)
    ensures match Run(Start(heap, limit, mem), ops)
            case Ok(m) => Roomy(m, 8) && (!HitsGap(Start(heap, limit, mem), ops) ==> Roomy(m, 0))
            case Err(_) => true
  {
    InitInv(heap, limit);
    hide Inv, Run, AllowedRun, HitsGap;
    var m := Start(heap, limit, mem);
    RunRoomy(m, ops, 8);
    if !HitsGap(m, ops) {
      RunRoomy(m, ops, 0);
    }
  }

  // ---------------------------------------------------------------- runs that show the defects

  /** The run may be taken from `m` and has the outcome `r`. */
  ghost predicate Leads(m: Machine, ops: seq<Op>, r: Result<Machine>) {
    AllowedRun(m, ops) && Run(m, ops) == r
  }

  lemma OneBefore(m: Machine, op: Op, ops: seq<Op>, m': Machine, r: Result<Machine>)
    requires Allowed(m.h, op) && Step(m, op).Ok? && Step(m, op).value.0 == m' && Leads(m', ops, r)
    ensures Leads(m, [op] + ops, r)
  {
    hide Step, Allowed;
    assert ([op] + ops)[1..] == ops;
  }

  /** `m` after two allocations on a fresh heap at 4096, `x` and `y` bytes, of which the first
      was freed. */
  function TwoAndAFree(mem: Memory, x: nat, y: nat): Machine
    requires SizeAlign(x + 8) + SizeAlign(y + 8) <= 8192
  {
    var a, b := SizeAlign(x + 8), SizeAlign(y + 8);
    Machine(Grown([Block(4096, a)], map[4096 + a := b], 4096 + a + b, 8192 - a - b), mem, map[4104 + a := y])
  }

  /** A run that goes on from there can start on the fresh heap. */
  lemma AfterTwoAndAFree(mem: Memory, x: nat, y: nat, ops: seq<Op>, r: Result<Machine>)
    requires 0 < x && 0 < y && SizeAlign(x + 8) + SizeAlign(y + 8) <= 8192
    requires Leads(TwoAndAFree(mem, x, y), ops, r)
    ensures Leads(Start(4096, 65536, mem), [Kumalloc(x), Kumalloc(y), Kufree(4104)] + ops, r)
  {
    hide SizeAlign, Grown, Leads, Malloc, Free;
    var a, b := SizeAlign(x + 8), SizeAlign(y + 8);
    var two := map[4096 := a, 4096 + a := b];
    var m1 := Machine(Grown([], map[4096 := a], 4096 + a, 8192 - a), mem, map[4104 := x]);
    var m2 := Machine(Grown([], two, 4096 + a + b, 8192 - a - b), mem, map[4104 := x, 4104 + a := y]);
    FirstGrowth([], x);
    TakenFromSlack([], map[4096 := a], 4096 + a, 8192 - a, y);
    FirstFreed([], two, 4096 + a + b, 8192 - a - b, 4096);
    assert two - {4096} == map[4096 + a := b];
    assert map[4104 := x, 4104 + a := y] - {4104} == map[4104 + a := y];
    GrownLive([], two, 4096 + a + b, 8192 - a - b);
    OneBefore(m2, Kufree(4104), ops, TwoAndAFree(mem, x, y), r);
    OneBefore(m1, Kumalloc(y), [Kufree(4104)] + ops, m2, r);
    OneBefore(Start(4096, 65536, mem), Kumalloc(x), [Kumalloc(y)] + ([Kufree(4104)] + ops), m1, r);
    assert [Kumalloc(x)] + ([Kumalloc(y)] + ([Kufree(4104)] + ops)) == [Kumalloc(x), Kumalloc(y), Kufree(4104)] + ops;
  }

  lemma TwoAndAFreeReached(mem: Memory, x: nat, y: nat)
    requires 0 < x && 0 < y && SizeAlign(x + 8) + SizeAlign(y + 8) <= 8192
    ensures Inv(TwoAndAFree(mem, x, y).h)
    ensures Leads(Start(4096, 65536, mem), [Kumalloc(x), Kumalloc(y), Kufree(4104)], Ok(TwoAndAFree(mem, x, y)))
  {
    hide Inv, TwoAndAFree, Step;
    AfterTwoAndAFree(mem, x, y, [], Ok(TwoAndAFree(mem, x, y)));
    assert [Kumalloc(x), Kumalloc(y), Kufree(4104)] + [] == [Kumalloc(x), Kumalloc(y), Kufree(4104)];
    assert Inv(Start(4096, 65536, mem).h) by {
      InitInv(4096, 65536);
    }
    RunInv(Start(4096, 65536, mem), [Kumalloc(x), Kumalloc(y), Kufree(4104)]);
  }

  lemma OverReadsHere(mem: Memory)
    ensures var h := TwoAndAFree(mem, 7992, 184).h;
            Allowed(h, Kurealloc(12104, 200)) && CallOverReads(h, Kurealloc(12104, 200))
  {
  }

  /** A copy that over-reads: the second block ends at the break on a page boundary, and the
      freed first block serves the resize, so the break does not rise. */
  lemma OverReadExample(mem: Memory)
    ensures Leads(Start(4096, 65536, mem), [Kumalloc(7992), Kumalloc(184), Kufree(4104)] + [Kurealloc(12104, 200)],
                  Err(PageFault))
  {
    hide Inv, TwoAndAFree, Step, CallOverReads, Allowed;
    OverReadsHere(mem);
    TwoAndAFreeReached(mem, 7992, 184);
    StepKeepsInv(TwoAndAFree(mem, 7992, 184), Kurealloc(12104, 200));
    AfterTwoAndAFree(mem, 7992, 184, [Kurealloc(12104, 200)], Err(PageFault));
  }
}
