/** What every interleaving keeps: the order of the log, the conservation of trains, and the
    order in which trains of one section enter the tunnel. */
module MetroLaws {
  import opened Metro

  // ---------------------------------------------------------------- the log

  function Overloads(log: seq<Event>): nat {
    if log == [] then 0 else Overloads(log[..|log| - 1]) + (if log[|log| - 1].Overload? then 1 else 0)
  }

  function Clears(log: seq<Event>): nat {
    if log == [] then 0 else Clears(log[..|log| - 1]) + (if log[|log| - 1] == Cleared then 1 else 0)
  }

  /** On no prefix do "Tunnel Cleared" events outnumber "System Overload" events; with
      `strict` they alternate, an overload first. */
  ghost predicate LogOrdered(log: seq<Event>, strict: bool) {
    forall k | 0 <= k <= |log| ::
      && Clears(log[..k]) <= Overloads(log[..k])
      && (strict ==> Overloads(log[..k]) <= Clears(log[..k]) + 1)
  }

  lemma LogGrows(log: seq<Event>, e: Event, strict: bool)
    requires LogOrdered(log, strict)
    requires var grown := log + [e];
             Clears(grown) <= Overloads(grown) && (strict ==> Overloads(grown) <= Clears(grown) + 1)
    ensures LogOrdered(log + [e], strict)
  {
    var grown := log + [e];
    forall k | 0 <= k <= |grown|
      ensures Clears(grown[..k]) <= Overloads(grown[..k])
      ensures strict ==> Overloads(grown[..k]) <= Clears(grown[..k]) + 1
    {
      if k == |grown| {
        assert grown[..k] == grown;
      } else {
        assert grown[..k] == log[..k];
      }
    }
  }

  lemma CountsAppend(log: seq<Event>, e: Event)
    ensures Overloads(log + [e]) == Overloads(log) + (if e.Overload? then 1 else 0)
    ensures Clears(log + [e]) == Clears(log) + (if e == Cleared then 1 else 0)
  {
    assert (log + [e])[..|log|] == log;
  }


  /** A set flag is backed by an overload that no clearing has answered, unless the answer is
      logged and the reset is about to happen. */
  ghost predicate LogInv(s: State, atomic: bool) {
    var o, c := Overloads(s.sh.log), Clears(s.sh.log);
    && LogOrdered(s.sh.log, atomic) && c <= o
    && (s.sh.clearance && s.ctl != Resetting ==> c < o)
    && (atomic ==> s.ctl != SawEmpty && s.ctl != Resetting && o == c + (if s.sh.clearance then 1 else 0))
  }

  /** An event of another kind changes neither count. */
  lemma OtherEvent(s: State, e: Event, atomic: bool)
    requires LogInv(s, atomic) && !e.Overload? && e != Cleared
    ensures LogInv(s.(sh := s.sh.(log := s.sh.log + [e])), atomic)
  {
    CountsAppend(s.sh.log, e);
    LogGrows(s.sh.log, e, atomic);
  }

  lemma LogStep(s: State, a: Action, atomic: bool)
    requires LogInv(s, atomic) && Enabled(s, a, atomic)
    ensures LogInv(Next(s, a), atomic)
  {
    hide WaitingIds, Waiting, Overloads, Clears, LogOrdered;
    match a
    case Check(i) =>
      if Waiting(s.sh.queues) > 10 && !s.sh.clearance {
        var e := Overload(WaitingIds(s.sh.queues));
        CountsAppend(s.sh.log, e);
        LogGrows(s.sh.log, e, atomic);
      }
    case LogCleared =>
      if s.sh.clearance {
        CountsAppend(s.sh.log, Cleared);
        LogGrows(s.sh.log, Cleared, atomic);
      }
    case TestAndReset =>
      if Waiting(s.sh.queues) == 0 && s.sh.clearance {
        CountsAppend(s.sh.log, Cleared);
        LogGrows(s.sh.log, Cleared, atomic);
      }
    case LogPassing => OtherEvent(s, Passing(s.ctl.train.id, WaitingIds(s.sh.queues)), atomic);
    case Pass(breakdown) =>
      if breakdown {
        OtherEvent(s, Breakdown(s.ctl.train.id, WaitingIds(s.sh.queues)), atomic);
      }
    case _ =>
  }

  lemma {:induction false} LogRun(s: State, run: seq<Action>, atomic: bool)
    requires LogInv(s, atomic) && Runs(s, run, atomic)
    ensures LogInv(After(s, run, atomic), atomic)
    decreases |run|
  {
    if run != [] {
      LogStep(s, run[0], atomic);
      LogRun(Next(s, run[0]), run[1..], atomic);
    }
  }

  /** In every interleaving, on every prefix of the log, clearings never outnumber overloads;
      if the controller tests, logs and resets in one step the two alternate strictly. */
  lemma LogSafe(n: nat, run: seq<Action>, atomic: bool)
    requires Runs(Init(n), run, atomic)
    ensures LogOrdered(After(Init(n), run, atomic).sh.log, atomic)
  {
    LogRun(Init(n), run, atomic);
  }

  // ---------------------------------------------------------------- conservation of trains

  /** How often id `x` waits in a queue, in any queue, and in all places together. */
  function InQueue(q: seq<Train>, x: nat): nat {
    if q == [] then 0 else (if q[0].id == x then 1 else 0) + InQueue(q[1..], x)
  }

  function InQueues(qs: seq<seq<Train>>, x: nat): nat {
    if qs == [] then 0 else InQueue(qs[0], x) + InQueues(qs[1..], x)
  }

  ghost function Places(s: State, x: nat): nat {
    InQueues(s.sh.queues, x) + (if InTunnel(s.ctl) && s.ctl.train.id == x then 1 else 0) + multiset(s.left)[x]
  }

  lemma {:induction false} InQueuesUpdate(qs: seq<seq<Train>>, i: nat, q: seq<Train>, x: nat)
    requires i < |qs|
    ensures InQueues(qs[i := q], x) + InQueue(qs[i], x) == InQueues(qs, x) + InQueue(q, x)
  {
    var rs := qs[i := q];
    if i == 0 {
      assert rs[1..] == qs[1..];
    } else {
      assert rs[1..] == qs[1..][i - 1 := q];
      InQueuesUpdate(qs[1..], i - 1, q, x);
    }
  }

  lemma {:induction false} InQueueAppend(q: seq<Train>, t: Train, x: nat)
    ensures InQueue(q + [t], x) == InQueue(q, x) + (if t.id == x then 1 else 0)
  {
    if q != [] {
      assert (q + [t])[1..] == q[1..] + [t];
      InQueueAppend(q[1..], t, x);
    }
  }

  /** Every train ever created is in exactly one place: waiting in one queue, alone in the
      tunnel, or gone through it; no other id is anywhere. */
  ghost predicate Conserved(s: State) {
    forall x: nat :: Places(s, x) == if x < s.sh.nextId then 1 else 0
  }

  lemma PlacesStep(s: State, a: Action, atomic: bool, x: nat)
    requires Enabled(s, a, atomic)
    ensures Places(Next(s, a), x) == Places(s, x) + (if a.PushTrain? && x == s.sh.nextId then 1 else 0)
  {
    hide InQueues, InQueue, WaitingIds, Waiting;
    match a
    case PushTrain(i, length) =>
      var t := Train(s.sh.nextId, i, length);
      InQueuesUpdate(s.sh.queues, i, s.sh.queues[i] + [t], x);
      InQueueAppend(s.sh.queues[i], t, x);
    case PopTrain =>
      LongestNotEmpty(s.sh.queues);
      PopPlaces(s.sh.queues, Longest(s.sh.queues), x);
    case _ =>
  }

  lemma PopPlaces(qs: seq<seq<Train>>, i: nat, x: nat)
    requires i < |qs| && |qs[i]| > 0
    ensures InQueues(qs[i := qs[i][1..]], x) + (if qs[i][0].id == x then 1 else 0) == InQueues(qs, x)
  {
    InQueuesUpdate(qs, i, qs[i][1..], x);
  }

  lemma ConservedStep(s: State, a: Action, atomic: bool)
    requires Conserved(s) && Enabled(s, a, atomic)
    ensures Conserved(Next(s, a))
  {
    var s' := Next(s, a);
    assert s'.sh.nextId == s.sh.nextId + (if a.PushTrain? then 1 else 0);
    hide Places, Next;
    forall x: nat ensures Places(s', x) == if x < s'.sh.nextId then 1 else 0 {
      PlacesStep(s, a, atomic, x);
    }
  }

  /** The map has exactly the ids handed out, and an arrival is recorded exactly for the
      trains that left the tunnel. */
  ghost predicate RecordsOk(s: State) {
    && (forall id: nat :: id in s.sh.records <==> id < s.sh.nextId)
    && (forall id <- s.sh.records :: s.sh.records[id].train.id == id)
    && (forall id <- s.sh.records :: s.sh.records[id].arrived <==> id in s.left)
  }

  lemma IdsBelow(s: State, x: nat)
    requires Conserved(s)
    ensures x in s.left ==> x < s.sh.nextId
    ensures InTunnel(s.ctl) && s.ctl.train.id == x ==> x < s.sh.nextId && x !in s.left
  {
    assert Places(s, x) == if x < s.sh.nextId then 1 else 0;
    assert x in s.left <==> multiset(s.left)[x] > 0;
  }

  lemma RecordsStep(s: State, a: Action, atomic: bool)
    requires Conserved(s) && RecordsOk(s) && Enabled(s, a, atomic)
    ensures RecordsOk(Next(s, a))
  {
    hide WaitingIds, Waiting, Conserved;
    if a.PushTrain? {
      IdsBelow(s, s.sh.nextId);
    } else if a.RecordArrival? {
      IdsBelow(s, s.ctl.train.id);
    }
  }

  // ---------------------------------------------------------------- first in, first out

  ghost predicate Increasing(q: seq<Train>) {
    forall i, j | 0 <= i < j < |q| :: q[i].id < q[j].id
  }

  /** Queue `i` holds trains of section `i` in the order of their ids. */
  ghost predicate QueuesOk(sh: Shared) {
    forall i | 0 <= i < |sh.queues| ::
      Increasing(sh.queues[i]) && forall t <- sh.queues[i] :: t.source == i && t.id < sh.nextId
  }

  /** Train `e` entered before everything that still waits in its section. */
  ghost predicate Ahead(e: Train, sh: Shared) {
    e.id < sh.nextId && (e.source < |sh.queues| ==> forall t <- sh.queues[e.source] :: e.id < t.id)
  }

  /** Trains of one section entered the tunnel in the order of their ids. */
  ghost predicate InOrder(entered: seq<Train>) {
    forall j, k | 0 <= j < k < |entered| && entered[j].source == entered[k].source :: entered[j].id < entered[k].id
  }

  ghost predicate OrderOk(s: State) {
    QueuesOk(s.sh) && InOrder(s.entered) && forall e <- s.entered :: Ahead(e, s.sh)
  }

  lemma PushOrder(s: State, i: nat, length: nat)
    requires OrderOk(s) && i < |s.sh.queues|
    ensures OrderOk(s.(sh := Push(s.sh, i, length)))
  {
    var q, sh' := s.sh.queues[i], Push(s.sh, i, length);
    assert forall x <- q :: x.id < s.sh.nextId;
    forall e | e in s.entered ensures Ahead(e, sh') {
      assert Ahead(e, s.sh);
    }
  }

  lemma TailIncreasing(q: seq<Train>)
    requires Increasing(q) && |q| > 0
    ensures Increasing(q[1..]) && forall t <- q[1..] :: t in q && q[0].id < t.id
  {
  }

  lemma PopOrder(s: State)
    requires OrderOk(s) && s.ctl == SawTrains && |s.sh.queues| > 0 && Waiting(s.sh.queues) > 0
    ensures OrderOk(Next(s, PopTrain))
  {
    hide WaitingIds, Waiting;
    LongestNotEmpty(s.sh.queues);
    var i := Longest(s.sh.queues);
    var q, sh' := s.sh.queues[i], Pop(s.sh).0;
    TailIncreasing(q);
    assert q[0] in q;
    hide Increasing;
    assert QueuesOk(sh');
    forall e | e in s.entered + [q[0]] ensures Ahead(e, sh') {
      assert e in s.entered ==> Ahead(e, s.sh);
    }
    forall j | 0 <= j < |s.entered| && s.entered[j].source == i ensures s.entered[j].id < q[0].id {
      assert Ahead(s.entered[j], s.sh);
    }
  }

  lemma OrderStep(s: State, a: Action, atomic: bool)
    requires OrderOk(s) && Enabled(s, a, atomic)
    ensures OrderOk(Next(s, a))
  {
    match a
    case PushTrain(i, length) => PushOrder(s, i, length);
    case PopTrain => PopOrder(s);
    case _ =>
      assert forall e <- s.entered :: Ahead(e, s.sh) ==> Ahead(e, Next(s, a).sh);
  }

  lemma {:induction false} TrainsRun(s: State, run: seq<Action>, atomic: bool)
    requires Conserved(s) && RecordsOk(s) && OrderOk(s) && Runs(s, run, atomic)
    ensures var s' := After(s, run, atomic); Conserved(s') && RecordsOk(s') && OrderOk(s')
    decreases |run|
  {
    hide Conserved, RecordsOk, OrderOk;
    if run != [] {
      ConservedStep(s, run[0], atomic);
      RecordsStep(s, run[0], atomic);
      OrderStep(s, run[0], atomic);
      TrainsRun(Next(s, run[0]), run[1..], atomic);
    }
  }

  lemma {:induction false} InitPlaces(n: nat, x: nat)
    ensures InQueues(Init(n).sh.queues, x) == 0
  {
    if n > 0 {
      InitPlaces(n - 1, x);
      assert Init(n).sh.queues[1..] == Init(n - 1).sh.queues;
    }
  }

  /** In every interleaving: each id handed out is in exactly one place, the map holds exactly
      those ids with an arrival exactly for the trains that left, and trains of one section
      enter the tunnel in id order. */
  lemma TrainsSafe(n: nat, run: seq<Action>, atomic: bool)
    requires Runs(Init(n), run, atomic)
    ensures var s := After(Init(n), run, atomic); Conserved(s) && RecordsOk(s) && OrderOk(s)
  {
    forall x: nat ensures Places(Init(n), x) == 0 {
      InitPlaces(n, x);
    }
    TrainsRun(Init(n), run, atomic);
  }
}
