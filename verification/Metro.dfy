/** The metro simulation as a step system (main.cpp): any number of section threads that
    produce trains, one controller that sends them through the tunnel, and a `clearance`
    flag that the controller resets outside the lock. */
module Metro {

  datatype Train = Train(id: nat, source: nat, length: nat)

  datatype Record = Record(train: Train, arrived: bool)

  datatype Event =
    | Overload(waiting: seq<nat>)
    | Cleared
    | Passing(id: nat, waiting: seq<nat>)
    | Breakdown(id: nat, waiting: seq<nat>)

  /** Where a section thread stands; `overload` is its local variable. */
  datatype Pc =
    | Top                        // before line 191
    | Entered                    // flag was clear, before the locked check
    | Checked(overload: bool)    // before line 211
    | Committed                  // flag was clear again, before the locked push

  /** Where the controller stands. */
  datatype Ctl =
    | Idle
    | SawEmpty                   // allEmpty was true, before line 111
    | Resetting                  // before line 115
    | SawTrains                  // allEmpty was false, before the locked pop
    | Popped(train: Train)       // before line 148
    | Inside(train: Train)       // before line 154
    | Leaving(train: Train, breakdown: bool)

  predicate InTunnel(c: Ctl) {
    c.Popped? || c.Inside? || c.Leaving?
  }

  /** The globals guarded by trainMutex, and the flag and log that are not. */
  datatype Shared = Shared(queues: seq<seq<Train>>, clearance: bool, nextId: nat,
                           records: map<nat, Record>, log: seq<Event>)

  /** `entered` and `left` are the histories of trains that entered and left the tunnel,
      `clock` the seconds the controller has spent on passages. */
  datatype State = State(sh: Shared, threads: seq<Pc>, ctl: Ctl,
                         entered: seq<Train>, left: seq<nat>, clock: nat)

  // ---------------------------------------------------------------- the shared operations

  function Waiting(qs: seq<seq<Train>>): nat {
    if qs == [] then 0 else |qs[0]| + Waiting(qs[1..])
  }

  function IdsOf(q: seq<Train>): (ids: seq<nat>)
    ensures |ids| == |q| && forall i | 0 <= i < |q| :: ids[i] == q[i].id
  {
    if q == [] then [] else [q[0].id] + IdsOf(q[1..])
  }

  ghost predicate Ascending(ids: seq<nat>) {
    forall i, j | 0 <= i < j < |ids| :: ids[i] <= ids[j]
  }

  function Insert(ids: seq<nat>, x: nat): seq<nat> {
    if ids == [] || x <= ids[0] then [x] + ids else [ids[0]] + Insert(ids[1..], x)
  }

  lemma {:induction false} InsertAdds(ids: seq<nat>, x: nat)
    ensures multiset(Insert(ids, x)) == multiset(ids) + multiset{x}
  {
    if ids != [] && x > ids[0] {
      InsertAdds(ids[1..], x);
      assert ids == [ids[0]] + ids[1..];
    }
  }

  lemma {:induction false} InsertAscending(ids: seq<nat>, x: nat)
    requires Ascending(ids)
    ensures Ascending(Insert(ids, x))
  {
    if ids != [] && x > ids[0] {
      var t := Insert(ids[1..], x);
      InsertAscending(ids[1..], x);
      InsertAdds(ids[1..], x);
      forall i | 0 <= i < |t| ensures ids[0] <= t[i] {
        assert t[i] in multiset(t);
        assert t[i] == x || t[i] in ids[1..];
      }
      Prepended(ids[0], t);
    }
  }

  lemma Prepended(x: nat, ids: seq<nat>)
    requires Ascending(ids) && forall i | 0 <= i < |ids| :: x <= ids[i]
    ensures Ascending([x] + ids)
  {
  }

  /** All ids waiting in the queues, as a multiset. */
  function QueueIds(qs: seq<seq<Train>>): multiset<nat> {
    if qs == [] then multiset{} else multiset(IdsOf(qs[0])) + QueueIds(qs[1..])
  }

  function InsertAll(ids: seq<nat>, xs: seq<nat>): seq<nat>
    decreases |xs|
  {
    if xs == [] then ids else InsertAll(Insert(ids, xs[0]), xs[1..])
  }

  /** Insertion of all section queues, one after the other, into an ascending listing. */
  function Fill(pq: seq<nat>, qs: seq<seq<Train>>): seq<nat>
    decreases |qs|
  {
    if qs == [] then pq else Fill(InsertAll(pq, IdsOf(qs[0])), qs[1..])
  }

  /** All ids waiting in the queues, as trainsWaiting lists them. */
  function WaitingIds(qs: seq<seq<Train>>): seq<nat> {
    Fill([], qs)
  }

  lemma {:induction false} InsertAllOk(ids: seq<nat>, xs: seq<nat>)
    requires Ascending(ids)
    ensures Ascending(InsertAll(ids, xs)) && multiset(InsertAll(ids, xs)) == multiset(ids) + multiset(xs)
    decreases |xs|
  {
    if xs != [] {
      InsertAdds(ids, xs[0]);
      InsertAscending(ids, xs[0]);
      InsertAllOk(Insert(ids, xs[0]), xs[1..]);
      assert xs == [xs[0]] + xs[1..];
    }
  }

  lemma {:induction false} FillOk(pq: seq<nat>, qs: seq<seq<Train>>)
    requires Ascending(pq)
    ensures Ascending(Fill(pq, qs)) && multiset(Fill(pq, qs)) == multiset(pq) + QueueIds(qs)
    decreases |qs|
  {
    if qs != [] {
      InsertAllOk(pq, IdsOf(qs[0]));
      FillOk(InsertAll(pq, IdsOf(qs[0])), qs[1..]);
    }
  }

  /** The listing is ascending and holds exactly the waiting ids. */
  lemma WaitingIdsOk(qs: seq<seq<Train>>)
    ensures Ascending(WaitingIds(qs)) && multiset(WaitingIds(qs)) == QueueIds(qs)
  {
    FillOk([], qs);
  }

  /** The first of the longest queues. */
  function Longest(qs: seq<seq<Train>>): (i: nat)
    requires |qs| > 0
    ensures i < |qs|
    ensures forall j | 0 <= j < |qs| :: |qs[j]| <= |qs[i]|
    ensures forall j | 0 <= j < i :: |qs[j]| < |qs[i]|
  {
    if |qs| == 1 then 0
    else
      var k := Longest(qs[1..]);
      assert forall j | 1 <= j < |qs| :: qs[j] == qs[1..][j - 1];
      if |qs[0]| >= |qs[k + 1]| then 0 else k + 1
  }

  /** Lines 195-209: more than ten trains waiting is an overload; the first to see one logs it. */
  function CheckOverload(sh: Shared): (Shared, bool) {
    if Waiting(sh.queues) > 10 then
      (sh.(clearance := true,
           log := if sh.clearance then sh.log else sh.log + [Overload(WaitingIds(sh.queues))]), true)
    else (sh, false)
  }

  /** Lines 233-254: a new train with the next id joins queue `i`. */
  function Push(sh: Shared, i: nat, length: nat): Shared
    requires i < |sh.queues|
  {
    var t := Train(sh.nextId, i, length);
    sh.(nextId := sh.nextId + 1, queues := sh.queues[i := sh.queues[i] + [t]],
        records := sh.records[t.id := Record(t, false)])
  }

  /** Lines 118-140: the front of the first longest queue leaves it. */
  function Pop(sh: Shared): (r: (Shared, Train))
    requires |sh.queues| > 0 && Waiting(sh.queues) > 0
    ensures var i := Longest(sh.queues);
            && |r.0.queues| == |sh.queues| && sh.queues[i] == [r.1] + r.0.queues[i]
            && (forall j | 0 <= j < |sh.queues| && j != i :: r.0.queues[j] == sh.queues[j])
  {
    LongestNotEmpty(sh.queues);
    var i := Longest(sh.queues);
    (sh.(queues := sh.queues[i := sh.queues[i][1..]]), sh.queues[i][0])
  }

  lemma {:induction false} LongestNotEmpty(qs: seq<seq<Train>>)
    requires |qs| > 0 && Waiting(qs) > 0
    ensures |qs[Longest(qs)]| > 0
  {
    if |qs[0]| == 0 && |qs| > 1 {
      LongestNotEmpty(qs[1..]);
    }
  }

  /** Lines 174-176. */
  function Arrive(sh: Shared, t: Train): Shared {
    sh.(records := sh.records[t.id := Record(if t.id in sh.records then sh.records[t.id].train else t, true)])
  }

  /** One second for the front, one per 100 metres, four for a breakdown (lines 152-166). */
  function PassageTime(t: Train, breakdown: bool): nat {
    1 + t.length / 100 + (if breakdown then 4 else 0)
  }

  // ---------------------------------------------------------------- steps

  datatype Action =
    | ReadFlag(i: nat)                       // line 191
    | Check(i: nat)                          // lines 195-209
    | RereadFlag(i: nat, create: bool)       // lines 211-220
    | PushTrain(i: nat, length: nat)         // lines 233-254
    | TestEmpty                              // lines 107-110
    | LogCleared                             // lines 111-114
    | ResetFlag                              // line 115
    | TestAndReset                           // lines 107-115 as one step
    | PopTrain                               // lines 118-140
    | LogPassing                             // line 148
    | Pass(breakdown: bool)                  // lines 150-166
    | RecordArrival                          // lines 174-176

  function Init(n: nat): State {
    State(Shared(seq(n, _ => []), false, 0, map[], []), seq(n, _ => Top), Idle, [], [], 0)
  }

  /** `atomic` selects the variant in which the controller tests and resets in one step. */
  predicate Enabled(s: State, a: Action, atomic: bool) {
    match a
    case ReadFlag(i) => i < |s.threads| && s.threads[i] == Top
    case Check(i) => i < |s.threads| && s.threads[i] == Entered
    case RereadFlag(i, _) => i < |s.threads| && s.threads[i].Checked?
    case PushTrain(i, length) =>
      i < |s.threads| && i < |s.sh.queues| && s.threads[i] == Committed && (length == 100 || length == 200)
    case TestEmpty => s.ctl == Idle && !atomic
    case LogCleared => s.ctl == SawEmpty
    case ResetFlag => s.ctl == Resetting
    case TestAndReset => s.ctl == Idle && atomic
    case PopTrain => s.ctl == SawTrains && |s.sh.queues| > 0 && Waiting(s.sh.queues) > 0
    case LogPassing => s.ctl.Popped?
    case Pass(_) => s.ctl.Inside?
    case RecordArrival => s.ctl.Leaving?
  }

  function Next(s: State, a: Action): State
    requires Enabled(s, a, true) || Enabled(s, a, false)
  {
    match a
    case ReadFlag(i) =>
      if s.sh.clearance then s else s.(threads := s.threads[i := Entered])
    case Check(i) =>
      var (sh, overload) := CheckOverload(s.sh);
      s.(sh := sh, threads := s.threads[i := Checked(overload)])
    case RereadFlag(i, create) =>
      s.(threads := s.threads[i := if !s.sh.clearance && create then Committed else Top])
    case PushTrain(i, length) =>
      s.(sh := Push(s.sh, i, length), threads := s.threads[i := Top])
    case TestEmpty =>
      s.(ctl := if Waiting(s.sh.queues) == 0 then SawEmpty else SawTrains)
    case LogCleared =>
      s.(ctl := Resetting, sh := s.sh.(log := if s.sh.clearance then s.sh.log + [Cleared] else s.sh.log))
    case ResetFlag =>
      s.(ctl := Idle, sh := s.sh.(clearance := false))
    case TestAndReset =>
      if Waiting(s.sh.queues) == 0 then
        s.(sh := s.sh.(clearance := false, log := if s.sh.clearance then s.sh.log + [Cleared] else s.sh.log))
      else s.(ctl := SawTrains)
    case PopTrain =>
      var (sh, t) := Pop(s.sh);
      s.(sh := sh, ctl := Popped(t), entered := s.entered + [t])
    case LogPassing =>
      var t := s.ctl.train;
      s.(ctl := Inside(t), sh := s.sh.(log := s.sh.log + [Passing(t.id, WaitingIds(s.sh.queues))]))
    case Pass(breakdown) =>
      var t := s.ctl.train;
      s.(ctl := Leaving(t, breakdown),
         sh := s.sh.(log := if breakdown then s.sh.log + [Breakdown(t.id, WaitingIds(s.sh.queues))] else s.sh.log))
    case RecordArrival =>
      var t := s.ctl.train;
      s.(ctl := Idle, sh := Arrive(s.sh, t), left := s.left + [t.id],
         clock := s.clock + PassageTime(t, s.ctl.breakdown))
  }

  /** `run` can be taken step by step from `s`. */
  ghost predicate Runs(s: State, run: seq<Action>, atomic: bool)
    decreases |run|
  {
    run == [] || (Enabled(s, run[0], atomic) && Runs(Next(s, run[0]), run[1..], atomic))
  }

  ghost function After(s: State, run: seq<Action>, atomic: bool): State
    requires Runs(s, run, atomic)
    decreases |run|
  {
    if run == [] then s else After(Next(s, run[0]), run[1..], atomic)
  }
}
