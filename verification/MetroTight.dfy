/** A run in which 10 + 2N trains wait: the bound of MetroBound.dfy is attained. */
module MetroTight {
  import opened Metro
  import opened MetroBound

  ghost predicate Reachable(n: nat, atomic: bool, s: State) {
    exists run :: Runs(Init(n), run, atomic) && After(Init(n), run, atomic) == s
  }

  lemma {:induction false} RunsAppend(s: State, run: seq<Action>, a: Action, atomic: bool)
    requires Runs(s, run, atomic) && Enabled(After(s, run, atomic), a, atomic)
    ensures Runs(s, run + [a], atomic) && After(s, run + [a], atomic) == Next(After(s, run, atomic), a)
    decreases |run|
  {
    var all := run + [a];
    if run == [] {
      assert all[1..] == [];
    } else {
      assert all[1..] == run[1..] + [a];
      RunsAppend(Next(s, run[0]), run[1..], a, atomic);
    }
  }

  lemma Take(n: nat, atomic: bool, s: State, a: Action)
    requires Reachable(n, atomic, s) && Enabled(s, a, atomic)
    ensures Reachable(n, atomic, Next(s, a))
  {
    var run :| Runs(Init(n), run, atomic) && After(Init(n), run, atomic) == s;
    RunsAppend(Init(n), run, a, atomic);
  }

  /** A reachable state with `w` trains waiting, threads 0..i at `q` and the others at `p`. */
  ghost predicate At(n: nat, atomic: bool, s: State, ctl: Ctl, clearance: bool, w: nat, i: nat, q: Pc, p: Pc) {
    && Reachable(n, atomic, s) && |s.threads| == n && |s.sh.queues| == n && i <= n
    && s.ctl == ctl && s.sh.clearance == clearance && Waiting(s.sh.queues) == w
    && (forall j | 0 <= j < i :: s.threads[j] == q) && (forall j | i <= j < n :: s.threads[j] == p)
  }

  lemma PushOne(n: nat, atomic: bool, s: State, i: nat)
    requires Reachable(n, atomic, s) && i < |s.threads| == |s.sh.queues| && s.threads[i] == Committed
    ensures var s' := Next(s, PushTrain(i, 100));
            && Reachable(n, atomic, s') && Waiting(s'.sh.queues) == Waiting(s.sh.queues) + 1
            && s'.ctl == s.ctl && s'.sh.clearance == s.sh.clearance
            && s'.threads == s.threads[i := Top] && |s'.sh.queues| == |s.sh.queues|
  {
    Take(n, atomic, s, PushTrain(i, 100));
    WaitingUpdate(s.sh.queues, i, s.sh.queues[i] + [Train(s.sh.nextId, i, 100)]);
  }

  /** One thread passes the flag, a check without overload and the flag again. */
  lemma CommitOne(n: nat, atomic: bool, s: State, i: nat) returns (s': State)
    requires Reachable(n, atomic, s) && i < |s.threads| && s.threads[i] == Top && !s.sh.clearance
    requires Waiting(s.sh.queues) <= 10
    ensures Reachable(n, atomic, s') && s' == s.(threads := s.threads[i := Committed])
  {
    var s1 := Next(s, ReadFlag(i));
    Take(n, atomic, s, ReadFlag(i));
    var s2 := Next(s1, Check(i));
    Take(n, atomic, s1, Check(i));
    Take(n, atomic, s2, RereadFlag(i, true));
    s' := Next(s2, RereadFlag(i, true));
    assert s'.threads == s.threads[i := Committed];
  }

  lemma {:induction false} FillByOne(n: nat, atomic: bool, s: State, ctl: Ctl, w: nat) returns (s': State)
    requires n > 0 && At(n, atomic, s, ctl, false, w, 0, Top, Top) && w <= 10
    ensures At(n, atomic, s', ctl, false, 10, 0, Top, Top)
    decreases 10 - w
  {
    s' := s;
    if w < 10 {
      var s1 := CommitOne(n, atomic, s, 0);
      PushOne(n, atomic, s1, 0);
      s' := FillByOne(n, atomic, Next(s1, PushTrain(0, 100)), ctl, w + 1);
    }
  }

  lemma {:induction false} CommitAll(n: nat, atomic: bool, s: State, ctl: Ctl, i: nat) returns (s': State)
    requires At(n, atomic, s, ctl, false, 10, i, Committed, Top)
    ensures At(n, atomic, s', ctl, false, 10, n, Committed, Top)
    decreases n - i
  {
    s' := s;
    if i < n {
      var s1 := CommitOne(n, atomic, s, i);
      s' := CommitAll(n, atomic, s1, ctl, i + 1);
    }
  }

  lemma {:induction false} PushAll(n: nat, atomic: bool, s: State, ctl: Ctl, w: nat, i: nat) returns (s': State)
    requires At(n, atomic, s, ctl, false, w, i, Top, Committed)
    ensures At(n, atomic, s', ctl, false, w + (n - i), n, Top, Committed)
    decreases n - i
  {
    s' := s;
    if i < n {
      PushOne(n, atomic, s, i);
      s' := PushAll(n, atomic, Next(s, PushTrain(i, 100)), ctl, w + 1, i + 1);
    }
  }

  lemma {:induction false} EnterAll(n: nat, atomic: bool, s: State, ctl: Ctl, w: nat, i: nat) returns (s': State)
    requires At(n, atomic, s, ctl, false, w, i, Entered, Top)
    ensures At(n, atomic, s', ctl, false, w, n, Entered, Top)
    decreases n - i
  {
    s' := s;
    if i < n {
      Take(n, atomic, s, ReadFlag(i));
      s' := EnterAll(n, atomic, Next(s, ReadFlag(i)), ctl, w, i + 1);
    }
  }

  lemma {:induction false} WarnAll(n: nat, atomic: bool, s: State, ctl: Ctl, w: nat, i: nat) returns (s': State)
    requires At(n, atomic, s, ctl, i > 0, w, i, Checked(true), Entered) && w > 10 && n > 0
    ensures At(n, atomic, s', ctl, true, w, n, Checked(true), Entered)
    decreases n - i
  {
    s' := s;
    if i < n {
      Take(n, atomic, s, Check(i));
      s' := WarnAll(n, atomic, Next(s, Check(i)), ctl, w, i + 1);
    }
  }

  lemma {:induction false} RecommitAll(n: nat, atomic: bool, s: State, ctl: Ctl, w: nat, i: nat) returns (s': State)
    requires At(n, atomic, s, ctl, false, w, i, Committed, Checked(true))
    ensures At(n, atomic, s', ctl, false, w, n, Committed, Checked(true))
    decreases n - i
  {
    s' := s;
    if i < n {
      Take(n, atomic, s, RereadFlag(i, true));
      s' := RecommitAll(n, atomic, Next(s, RereadFlag(i, true)), ctl, w, i + 1);
    }
  }

  /** The controller sees empty queues and pauses before the reset; the threads fill the
      queues past ten and see the overload. The late reset then clears the flag over 10 + N
      waiting trains, as many as there can be. */
  lemma LateResetAttained(n: nat) returns (s: State)
    requires n > 0
    ensures Reachable(n, false, s) && Enabled(s, ResetFlag, false) && s.sh.clearance
    ensures Waiting(s.sh.queues) == 10 + n && !Next(s, ResetFlag).sh.clearance
    ensures At(n, false, s, Resetting, true, 10 + n, n, Checked(true), Entered)
  {
    InitCounts(n);
    var s0 := Init(n);
    assert Runs(s0, [], false) && After(s0, [], false) == s0;
    assert At(n, false, s0, Idle, false, 0, 0, Top, Top);
    Take(n, false, s0, TestEmpty);
    var s1 := Next(s0, TestEmpty);
    Take(n, false, s1, LogCleared);
    var s2 := FillByOne(n, false, Next(s1, LogCleared), Resetting, 0);
    var s3 := CommitAll(n, false, s2, Resetting, 0);
    var s4 := PushAll(n, false, s3, Resetting, 10, 0);
    var s5 := EnterAll(n, false, s4, Resetting, 10 + n, 0);
    s := WarnAll(n, false, s5, Resetting, 10 + n, 0);
  }

  /** After that reset the warned threads are let through once more. */
  lemma BoundAttained(n: nat) returns (s: State)
    requires n > 0
    ensures Reachable(n, false, s) && Waiting(s.sh.queues) == 10 + 2 * n
  {
    var s6 := LateResetAttained(n);
    Take(n, false, s6, ResetFlag);
    var s7 := RecommitAll(n, false, Next(s6, ResetFlag), Idle, 10 + n, 0);
    s := PushAll(n, false, s7, Idle, 10 + n, 0);
  }

  /** With an atomic test and reset the bound is 10 + N, and a run attains it too. */
  lemma AtomicBoundAttained(n: nat) returns (s: State)
    requires n > 0
    ensures Reachable(n, true, s) && Waiting(s.sh.queues) == 10 + n
  {
    InitCounts(n);
    var s0 := Init(n);
    assert Runs(s0, [], true) && After(s0, [], true) == s0;
    assert At(n, true, s0, Idle, false, 0, 0, Top, Top);
    var s1 := FillByOne(n, true, s0, Idle, 0);
    var s2 := CommitAll(n, true, s1, Idle, 0);
    s := PushAll(n, true, s2, Idle, 10, 0);
  }
}
