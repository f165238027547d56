/** How many trains can wait, in every interleaving and in the atomic variant, and how soon an
    overload clears. MetroTight.dfy has runs that reach the bounds. */
module MetroBound {
  import opened Metro

  // ---------------------------------------------------------------- counting

  function RiskOf(p: Pc): nat {
    if p == Committed || p == Checked(false) then 1 else 0
  }

  function WarnedOf(p: Pc): nat {
    if p == Checked(true) then 1 else 0
  }

  function CommittedOf(p: Pc): nat {
    if p == Committed then 1 else 0
  }

  /** Threads that may still push whatever the flag does: committed, or past a check that
      found no overload. */
  function Risky(ts: seq<Pc>): nat {
    if ts == [] then 0 else RiskOf(ts[0]) + Risky(ts[1..])
  }

  /** Threads past a check that found an overload: they push only if the flag is reset first. */
  function Warned(ts: seq<Pc>): nat {
    if ts == [] then 0 else WarnedOf(ts[0]) + Warned(ts[1..])
  }

  function CommittedCount(ts: seq<Pc>): nat {
    if ts == [] then 0 else CommittedOf(ts[0]) + CommittedCount(ts[1..])
  }

  lemma {:induction false} CountsUpdate(ts: seq<Pc>, i: nat, p: Pc)
    requires i < |ts|
    ensures Risky(ts[i := p]) - RiskOf(p) == Risky(ts) - RiskOf(ts[i])
    ensures Warned(ts[i := p]) - WarnedOf(p) == Warned(ts) - WarnedOf(ts[i])
    ensures CommittedCount(ts[i := p]) - CommittedOf(p) == CommittedCount(ts) - CommittedOf(ts[i])
  {
    var us := ts[i := p];
    if i == 0 {
      assert us[1..] == ts[1..];
    } else {
      assert us[1..] == ts[1..][i - 1 := p];
      CountsUpdate(ts[1..], i - 1, p);
    }
  }

  lemma {:induction false} CountsBounded(ts: seq<Pc>)
    ensures Risky(ts) + Warned(ts) <= |ts| && CommittedCount(ts) <= Risky(ts)
  {
    if ts != [] {
      CountsBounded(ts[1..]);
    }
  }

  lemma {:induction false} WaitingUpdate(qs: seq<seq<Train>>, i: nat, q: seq<Train>)
    requires i < |qs|
    ensures Waiting(qs[i := q]) - |q| == Waiting(qs) - |qs[i]|
  {
    var rs := qs[i := q];
    if i == 0 {
      assert rs[1..] == qs[1..];
    } else {
      assert rs[1..] == qs[1..][i - 1 := q];
      WaitingUpdate(qs[1..], i - 1, q);
    }
  }

  lemma {:induction false} InitCounts(n: nat)
    ensures Risky(Init(n).threads) == 0 && Warned(Init(n).threads) == 0
    ensures Waiting(Init(n).sh.queues) == 0
  {
    if n > 0 {
      InitCounts(n - 1);
      assert Init(n).threads[1..] == Init(n - 1).threads;
      assert Init(n).sh.queues[1..] == Init(n - 1).sh.queues;
    }
  }

  // ---------------------------------------------------------------- the bound

  /** The controller has seen all queues empty and will reset the flag. */
  predicate ResetPending(s: State) {
    s.ctl == SawEmpty || s.ctl == Resetting
  }

  function Load(s: State): nat {
    Waiting(s.sh.queues) + Risky(s.threads) + (if s.sh.clearance then 0 else Warned(s.threads))
  }

  /** Trains waiting plus threads that can still add one. A reset that is still pending can
      release the warned threads once more, so until it happens the load stays N lower. */
  ghost predicate Bounded(s: State, atomic: bool) {
    && |s.sh.queues| == |s.threads|
    && Load(s) <= 10 + |s.threads| + (if atomic || ResetPending(s) then 0 else |s.threads|)
    && (atomic ==> !ResetPending(s))
    && (s.ctl == SawTrains ==> Waiting(s.sh.queues) > 0)
  }

  lemma CheckStep(s: State, i: nat, atomic: bool)
    requires Bounded(s, atomic) && Enabled(s, Check(i), atomic)
    ensures Bounded(Next(s, Check(i)), atomic) && |Next(s, Check(i)).threads| == |s.threads|
  {
    hide WaitingIds, Risky, Warned, CommittedCount, Waiting;
    CountsBounded(s.threads);
    CountsUpdate(s.threads, i, Checked(CheckOverload(s.sh).1));
    CountsBounded(Next(s, Check(i)).threads);
  }

  lemma RereadStep(s: State, i: nat, create: bool, atomic: bool)
    requires Bounded(s, atomic) && Enabled(s, RereadFlag(i, create), atomic)
    ensures var s' := Next(s, RereadFlag(i, create)); Bounded(s', atomic) && |s'.threads| == |s.threads|
  {
    hide WaitingIds, Risky, Warned, CommittedCount, Waiting;
    CountsUpdate(s.threads, i, if !s.sh.clearance && create then Committed else Top);
  }

  lemma PushStep(s: State, i: nat, length: nat, atomic: bool)
    requires Bounded(s, atomic) && Enabled(s, PushTrain(i, length), atomic)
    ensures var s' := Next(s, PushTrain(i, length)); Bounded(s', atomic) && |s'.threads| == |s.threads|
  {
    hide WaitingIds, Risky, Warned, CommittedCount, Waiting;
    CountsUpdate(s.threads, i, Top);
    WaitingUpdate(s.sh.queues, i, s.sh.queues[i] + [Train(s.sh.nextId, i, length)]);
  }

  lemma ControllerStep(s: State, a: Action, atomic: bool)
    requires Bounded(s, atomic) && Enabled(s, a, atomic)
    requires !a.ReadFlag? && !a.Check? && !a.RereadFlag? && !a.PushTrain?
    ensures Bounded(Next(s, a), atomic) && |Next(s, a).threads| == |s.threads|
  {
    hide WaitingIds, Risky, Warned, CommittedCount, Waiting, Longest;
    CountsBounded(s.threads);
    if a.PopTrain? {
      LongestNotEmpty(s.sh.queues);
      var i := Longest(s.sh.queues);
      WaitingUpdate(s.sh.queues, i, s.sh.queues[i][1..]);
    }
  }

  lemma BoundedStep(s: State, a: Action, atomic: bool)
    requires Bounded(s, atomic) && Enabled(s, a, atomic)
    ensures Bounded(Next(s, a), atomic) && |Next(s, a).threads| == |s.threads|
  {
    match a
    case ReadFlag(i) => CountsUpdate(s.threads, i, Entered);
    case Check(i) => CheckStep(s, i, atomic);
    case RereadFlag(i, create) => RereadStep(s, i, create, atomic);
    case PushTrain(i, length) => PushStep(s, i, length, atomic);
    case _ => ControllerStep(s, a, atomic);
  }

  lemma {:induction false} BoundedRun(s: State, run: seq<Action>, atomic: bool)
    requires Bounded(s, atomic) && Runs(s, run, atomic)
    ensures Bounded(After(s, run, atomic), atomic) && |After(s, run, atomic).threads| == |s.threads|
    decreases |run|
  {
    if run != [] {
      BoundedStep(s, run[0], atomic);
      BoundedRun(Next(s, run[0]), run[1..], atomic);
    }
  }

  /** With N section threads, in every interleaving at most 10 + 2N trains wait; at most
      10 + N if the controller tests and resets in one step. The controller never pops from
      empty queues, although test and pop are separate critical sections. */
  lemma WaitingBound(n: nat, run: seq<Action>, atomic: bool)
    requires Runs(Init(n), run, atomic)
    ensures Waiting(After(Init(n), run, atomic).sh.queues) <= 10 + n + (if atomic then 0 else n)
    ensures var s := After(Init(n), run, atomic); s.ctl == SawTrains ==> Waiting(s.sh.queues) > 0
  {
    InitCounts(n);
    BoundedRun(Init(n), run, atomic);
  }

  // ---------------------------------------------------------------- clearing an overload

  /** Every state of the run up to its end has the flag set. */
  ghost predicate StaysSet(s: State, run: seq<Action>, atomic: bool)
    requires Runs(s, run, atomic)
    decreases |run|
  {
    s.sh.clearance && (run != [] ==> StaysSet(Next(s, run[0]), run[1..], atomic))
  }

  function Pops(run: seq<Action>): nat {
    if run == [] then 0 else (if run[0].PopTrain? then 1 else 0) + Pops(run[1..])
  }

  /** Trains waiting plus threads already past the second flag test. */
  function Backlog(s: State): nat {
    Waiting(s.sh.queues) + CommittedCount(s.threads)
  }

  /** Trains of the model are 100 or 200 metres long. */
  predicate LengthOk(t: Train) {
    t.length == 100 || t.length == 200
  }

  ghost predicate LengthsOk(s: State) {
    && (forall i | 0 <= i < |s.sh.queues| :: forall t <- s.sh.queues[i] :: LengthOk(t))
    && (InTunnel(s.ctl) ==> LengthOk(s.ctl.train))
  }

  lemma LengthsStep(s: State, a: Action, atomic: bool)
    requires LengthsOk(s) && Enabled(s, a, atomic)
    ensures LengthsOk(Next(s, a))
  {
    hide WaitingIds, Waiting, LengthOk;
    if a.PopTrain? {
      var i := Longest(s.sh.queues);
      var (sh, t) := Pop(s.sh);
      assert t in s.sh.queues[i] && forall u <- sh.queues[i] :: u in s.sh.queues[i];
    } else if a.PushTrain? {
      assert LengthOk(Train(s.sh.nextId, a.i, a.length)) by {
        LengthGiven(s.sh.nextId, a.i, a.length);
      }
    }
  }

  lemma LengthGiven(id: nat, source: nat, length: nat)
    requires length == 100 || length == 200
    ensures LengthOk(Train(id, source, length))
  {
  }

  lemma PassageBounds(t: Train, breakdown: bool)
    requires LengthOk(t)
    ensures 2 <= PassageTime(t, breakdown) <= 7
  {
  }

  /** While the flag is set no step increases the backlog, and each pop lowers it by one. */
  lemma BacklogStep(s: State, a: Action, atomic: bool)
    requires s.sh.clearance && Enabled(s, a, atomic) && |s.sh.queues| == |s.threads|
    ensures Backlog(Next(s, a)) + (if a.PopTrain? then 1 else 0) <= Backlog(s)
    ensures |Next(s, a).sh.queues| == |Next(s, a).threads|
  {
    hide WaitingIds, Waiting, CommittedCount, Longest;
    match a
    case ReadFlag(i) =>
    case Check(i) => CountsUpdate(s.threads, i, Checked(CheckOverload(s.sh).1));
    case RereadFlag(i, create) => CountsUpdate(s.threads, i, Top);
    case PushTrain(i, length) =>
      CountsUpdate(s.threads, i, Top);
      WaitingUpdate(s.sh.queues, i, s.sh.queues[i] + [Train(s.sh.nextId, i, length)]);
    case PopTrain =>
      LongestNotEmpty(s.sh.queues);
      var i := Longest(s.sh.queues);
      WaitingUpdate(s.sh.queues, i, s.sh.queues[i][1..]);
    case _ =>
  }

  lemma ClockStep(s: State, a: Action, atomic: bool)
    requires LengthsOk(s) && Enabled(s, a, atomic)
    ensures var s' := Next(s, a);
            s'.clock + (if InTunnel(s'.ctl) then 7 else 0) <=
            s.clock + (if InTunnel(s.ctl) then 7 else 0) + (if a.PopTrain? then 7 else 0)
  {
    if a.RecordArrival? {
      PassageBounds(s.ctl.train, s.ctl.breakdown);
    }
  }

  /** While the flag stays set, pops are paid for by the backlog and passage time by pops. */
  lemma {:induction false} ClearingRun(s: State, run: seq<Action>, atomic: bool)
    requires Runs(s, run, atomic) && StaysSet(s, run, atomic) && |s.sh.queues| == |s.threads| && LengthsOk(s)
    ensures Backlog(After(s, run, atomic)) + Pops(run) <= Backlog(s)
    ensures After(s, run, atomic).clock <= s.clock + 7 * (Pops(run) + (if InTunnel(s.ctl) then 1 else 0))
                                          - (if InTunnel(After(s, run, atomic).ctl) then 7 else 0)
    decreases |run|
  {
    if run != [] {
      BacklogStep(s, run[0], atomic);
      LengthsStep(s, run[0], atomic);
      ClockStep(s, run[0], atomic);
      ClearingRun(Next(s, run[0]), run[1..], atomic);
    }
  }

  lemma {:induction false} LengthsRun(s: State, run: seq<Action>, atomic: bool)
    requires LengthsOk(s) && Runs(s, run, atomic)
    ensures LengthsOk(After(s, run, atomic))
    decreases |run|
  {
    if run != [] {
      LengthsStep(s, run[0], atomic);
      LengthsRun(Next(s, run[0]), run[1..], atomic);
    }
  }

  predicate ByController(a: Action) {
    !a.ReadFlag? && !a.Check? && !a.RereadFlag? && !a.PushTrain?
  }

  function CtlSteps(run: seq<Action>): nat {
    if run == [] then 0 else (if ByController(run[0]) then 1 else 0) + CtlSteps(run[1..])
  }

  /** Controller steps left until it tests the queues again, pops, or resets the flag. */
  function Distance(c: Ctl): nat {
    match c
    case Idle => 2
    case SawEmpty => 1
    case Resetting => 0
    case SawTrains => 1
    case Popped(_) => 5
    case Inside(_) => 4
    case Leaving(_, _) => 3
  }

  /** While the flag stays set the controller takes at most five steps for each train it pops. */
  lemma {:induction false} ControllerBudget(s: State, run: seq<Action>, atomic: bool)
    requires Runs(s, run, atomic) && StaysSet(s, run, atomic)
    ensures CtlSteps(run) + Distance(After(s, run, atomic).ctl) <= Distance(s.ctl) + 5 * Pops(run)
    decreases |run|
  {
    hide WaitingIds, Waiting, Longest;
    if run != [] {
      assert Next(s, run[0]).sh.clearance;
      ControllerBudget(Next(s, run[0]), run[1..], atomic);
    }
  }

  /** The most trains that enter the tunnel before an overload is cleared. */
  function Entries(n: nat, atomic: bool): nat {
    10 + n + (if atomic then 0 else n)
  }

  /** From any reachable state, while the flag stays set: at most 10 + 2N trains still enter
      the tunnel, the queues are empty once the backlog is spent, the time spent on passages is
      at most seven seconds for each of these trains and for one already inside, and the
      controller takes at most five steps for each of them and five more. */
  lemma OverloadClears(n: nat, before: seq<Action>, run: seq<Action>, atomic: bool)
    requires Runs(Init(n), before, atomic)
    requires var s := After(Init(n), before, atomic); Runs(s, run, atomic) && StaysSet(s, run, atomic)
    ensures var s := After(Init(n), before, atomic);
            var s' := After(s, run, atomic);
            && Pops(run) <= Backlog(s) <= Entries(n, atomic)
            && (Pops(run) == Backlog(s) ==> Waiting(s'.sh.queues) == 0)
            && s'.clock <= s.clock + 7 * (Entries(n, atomic) + 1)
            && CtlSteps(run) <= 5 * Entries(n, atomic) + 5
  {
    InitCounts(n);
    BoundedRun(Init(n), before, atomic);
    LengthsRun(Init(n), before, atomic);
    var s := After(Init(n), before, atomic);
    CountsBounded(s.threads);
    ClearingRun(s, run, atomic);
    ControllerBudget(s, run, atomic);
  }

  /** At step `k` of the run the controller clears the flag. */
  ghost predicate ClearsAt(s: State, run: seq<Action>, atomic: bool, k: nat) {
    && k < |run| && Runs(s, run[..k], atomic) && After(s, run[..k], atomic).sh.clearance
    && Enabled(After(s, run[..k], atomic), run[k], atomic)
    && !Next(After(s, run[..k], atomic), run[k]).sh.clearance
  }

  /** At step `j` of the run the controller tests the queues while the flag is set and finds
      all of them empty. */
  ghost predicate SeesEmptyAt(s: State, run: seq<Action>, atomic: bool, j: nat) {
    && j < |run| && Runs(s, run[..j], atomic) && After(s, run[..j], atomic).sh.clearance
    && (run[j].TestEmpty? || run[j].TestAndReset?) && Waiting(After(s, run[..j], atomic).sh.queues) == 0
  }

  /** Stepping into a run shifts its positions by one. */
  lemma Shifted(s: State, run: seq<Action>, atomic: bool, i: nat)
    requires run != [] && Enabled(s, run[0], atomic) && i < |run| - 1
    ensures run[..i + 1][0] == run[0] && run[..i + 1][1..] == run[1..][..i] && run[i + 1] == run[1..][i]
    ensures Runs(Next(s, run[0]), run[1..][..i], atomic) ==>
              && Runs(s, run[..i + 1], atomic)
              && After(s, run[..i + 1], atomic) == After(Next(s, run[0]), run[1..][..i], atomic)
  {
    assert run[..i + 1][1..] == run[1..][..i];
    hide Enabled, Next;
  }

  lemma ClearingStep(s: State, a: Action, atomic: bool)
    requires Enabled(s, a, atomic) && s.sh.clearance && !ResetPending(s)
    ensures ResetPending(Next(s, a)) || !Next(s, a).sh.clearance ==>
              (a.TestEmpty? || a.TestAndReset?) && Waiting(s.sh.queues) == 0
  {
    hide WaitingIds, Waiting, Longest;
  }

  /** A run that does not keep the flag set has a step that clears it, and unless a reset was
      pending at its start the controller found the queues empty at that step or before it. */
  lemma {:induction false} ClearedAfterEmpty(s: State, run: seq<Action>, atomic: bool) returns (j: nat, k: nat)
    requires Runs(s, run, atomic) && s.sh.clearance && !StaysSet(s, run, atomic)
    ensures ClearsAt(s, run, atomic, k)
    ensures !ResetPending(s) ==> j <= k && SeesEmptyAt(s, run, atomic, j)
    decreases |run|
  {
    hide WaitingIds, Waiting, Longest, Next, Enabled;
    var s' := Next(s, run[0]);
    assert run[..0] == [];
    if !ResetPending(s) {
      ClearingStep(s, run[0], atomic);
    }
    if s'.sh.clearance {
      j, k := ClearedAfterEmpty(s', run[1..], atomic);
      Shifted(s, run, atomic, k);
      k := k + 1;
      if ResetPending(s') {
        j := 0;
      } else {
        Shifted(s, run, atomic, j);
        j := j + 1;
      }
    } else {
      j, k := 0, 0;
    }
  }

  /** The reset cannot be put off: from any reachable state with the flag set, every run in
      which the controller takes more than 5 (10 + 2N) + 5 steps contains the step that clears
      it, however the section threads interleave. Unless a reset was already pending, the
      controller found all queues empty first. */
  lemma ResetComes(n: nat, before: seq<Action>, run: seq<Action>, atomic: bool) returns (j: nat, k: nat)
    requires Runs(Init(n), before, atomic)
    requires var s := After(Init(n), before, atomic); s.sh.clearance && Runs(s, run, atomic)
    requires CtlSteps(run) > 5 * Entries(n, atomic) + 5
    ensures var s := After(Init(n), before, atomic);
            ClearsAt(s, run, atomic, k) && (!ResetPending(s) ==> j <= k && SeesEmptyAt(s, run, atomic, j))
  {
    var s := After(Init(n), before, atomic);
    if StaysSet(s, run, atomic) {
      OverloadClears(n, before, run, atomic);
    }
    j, k := ClearedAfterEmpty(s, run, atomic);
  }

  // ---------------------------------------------------------------- a reset that comes late

  /** Trains pushed since the controller last tested the queues, `c` of them before the run. */
  function PushesSince(run: seq<Action>, c: nat): nat
    decreases |run|
  {
    if run == [] then c
    else PushesSince(run[1..], if run[0].TestEmpty? then 0 else if run[0].PushTrain? then c + 1 else c)
  }

  ghost predicate PendingCounted(s: State, c: nat) {
    |s.sh.queues| == |s.threads| && (ResetPending(s) ==> Waiting(s.sh.queues) == c)
  }

  lemma PendingStep(s: State, a: Action, c: nat)
    requires PendingCounted(s, c) && Enabled(s, a, false)
    ensures PendingCounted(Next(s, a), if a.TestEmpty? then 0 else if a.PushTrain? then c + 1 else c)
  {
    hide WaitingIds, Waiting, Longest;
    if a.PushTrain? {
      WaitingUpdate(s.sh.queues, a.i, s.sh.queues[a.i] + [Train(s.sh.nextId, a.i, a.length)]);
    }
  }

  lemma {:induction false} PendingRun(s: State, run: seq<Action>, c: nat)
    requires PendingCounted(s, c) && Runs(s, run, false)
    ensures PendingCounted(After(s, run, false), PushesSince(run, c))
    decreases |run|
  {
    hide PendingCounted;
    if run != [] {
      PendingStep(s, run[0], c);
      PendingRun(Next(s, run[0]), run[1..], if run[0].TestEmpty? then 0 else if run[0].PushTrain? then c + 1 else c);
    }
  }

  /** What a pending reset erases: the trains waiting are exactly those pushed since the test
      that found the queues empty, and there are at most 10 + N of them. So the flag is cleared
      over empty queues exactly when no train was pushed in between. */
  lemma PendingReset(n: nat, run: seq<Action>)
    requires Runs(Init(n), run, false) && ResetPending(After(Init(n), run, false))
    ensures Waiting(After(Init(n), run, false).sh.queues) == PushesSince(run, 0) <= 10 + n
  {
    InitCounts(n);
    BoundedRun(Init(n), run, false);
    PendingRun(Init(n), run, 0);
  }
}
