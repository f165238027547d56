/** What every run of the metro simulation leaves behind: each event of the log and the step
    that wrote it, the trains in the order they were made, the time spent on passages, and
    what each section thread has done. */
module MetroHistory {
  import opened Metro
  import opened MetroLaws

  // ---------------------------------------------------------------- what the log lists

  /** Ascending, and each id as often as a train with that id waits. */
  ghost predicate Lists(ids: seq<nat>, qs: seq<seq<Train>>) {
    Ascending(ids) && forall x: nat :: multiset(ids)[x] == InQueues(qs, x)
  }

  lemma {:induction false} IdsCount(q: seq<Train>, x: nat)
    ensures multiset(IdsOf(q))[x] == InQueue(q, x)
  {
    if q != [] {
      IdsCount(q[1..], x);
    }
  }

  lemma {:induction false} QueueIdsCount(qs: seq<seq<Train>>, x: nat)
    ensures QueueIds(qs)[x] == InQueues(qs, x)
  {
    if qs != [] {
      IdsCount(qs[0], x);
      QueueIdsCount(qs[1..], x);
    }
  }

  lemma WaitingListed(qs: seq<seq<Train>>)
    ensures Lists(WaitingIds(qs), qs)
  {
    WaitingIdsOk(qs);
    forall x: nat ensures multiset(WaitingIds(qs))[x] == InQueues(qs, x) {
      QueueIdsCount(qs, x);
    }
  }

  /** The first thread to see more than ten trains waiting sets the flag. */
  predicate SetsFlag(s: State, a: Action) {
    a.Check? && Waiting(s.sh.queues) > 10 && !s.sh.clearance
  }

  /** The controller finds the flag set after it found the queues empty. */
  predicate SeesFlag(s: State, a: Action) {
    s.sh.clearance && (a.LogCleared? || (a.TestAndReset? && Waiting(s.sh.queues) == 0))
  }

  /** The events a step must add to the log. */
  ghost predicate Logs(s: State, a: Action, added: seq<Event>) {
    if SetsFlag(s, a) then
      |added| == 1 && added[0].Overload? && Lists(added[0].waiting, s.sh.queues)
    else if SeesFlag(s, a) then
      added == [Cleared]
    else if a.LogPassing? && InTunnel(s.ctl) then
      |added| == 1 && added[0].Passing? && added[0].id == s.ctl.train.id && Lists(added[0].waiting, s.sh.queues)
    else if a == Pass(true) && InTunnel(s.ctl) then
      |added| == 1 && added[0].Breakdown? && added[0].id == s.ctl.train.id && Lists(added[0].waiting, s.sh.queues)
    else
      added == []
  }

  /** Every step adds to the log exactly the event that belongs to it, with the id of the train
      in the tunnel and a listing of the trains waiting at that step. */
  lemma StepLogs(s: State, a: Action, atomic: bool) returns (added: seq<Event>)
    requires Enabled(s, a, atomic)
    ensures Next(s, a).sh.log == s.sh.log + added && Logs(s, a, added)
  {
    hide WaitingIds, Waiting, InQueues, Ascending, Lists;
    WaitingListed(s.sh.queues);
    added := Next(s, a).sh.log[|s.sh.log|..];
  }

  /** The flag changes only when a thread sets it and when the controller resets it. */
  lemma StepFlag(s: State, a: Action, atomic: bool)
    requires Enabled(s, a, atomic)
    ensures SetsFlag(s, a) <==> !s.sh.clearance && Next(s, a).sh.clearance
    ensures s.sh.clearance && !Next(s, a).sh.clearance <==>
            s.sh.clearance && (a.ResetFlag? || (a.TestAndReset? && Waiting(s.sh.queues) == 0))
  {
    hide WaitingIds, Waiting;
  }

  // ---------------------------------------------------------------- counting the events

  function PassingIds(log: seq<Event>): seq<nat> {
    if log == [] then []
    else PassingIds(log[..|log| - 1]) + (if log[|log| - 1].Passing? then [log[|log| - 1].id] else [])
  }

  function BreakdownIds(log: seq<Event>): seq<nat> {
    if log == [] then []
    else BreakdownIds(log[..|log| - 1]) + (if log[|log| - 1].Breakdown? then [log[|log| - 1].id] else [])
  }

  lemma LogAppend(log: seq<Event>, e: Event)
    ensures PassingIds(log + [e]) == PassingIds(log) + (if e.Passing? then [e.id] else [])
    ensures BreakdownIds(log + [e]) == BreakdownIds(log) + (if e.Breakdown? then [e.id] else [])
  {
    assert (log + [e])[..|log|] == log;
  }

  /** Steps of the run that set a clear flag. */
  ghost function FlagSets(s: State, run: seq<Action>, atomic: bool): nat
    requires Runs(s, run, atomic)
    decreases |run|
  {
    if run == [] then 0
    else (if SetsFlag(s, run[0]) then 1 else 0) + FlagSets(Next(s, run[0]), run[1..], atomic)
  }

  /** Steps of the run at which the controller sees a set flag over empty queues. */
  ghost function FlagSights(s: State, run: seq<Action>, atomic: bool): nat
    requires Runs(s, run, atomic)
    decreases |run|
  {
    if run == [] then 0
    else (if SeesFlag(s, run[0]) then 1 else 0) + FlagSights(Next(s, run[0]), run[1..], atomic)
  }

  /** What line 111 last saw, `seen` before the step. */
  function Sight(s: State, a: Action, seen: bool): bool {
    if a.LogCleared? then s.sh.clearance else seen
  }

  /** Resets of a flag that was set after line 111 had seen it clear: their clearing is not
      logged. */
  ghost function Unlogged(s: State, run: seq<Action>, atomic: bool, seen: bool): nat
    requires Runs(s, run, atomic)
    decreases |run|
  {
    if run == [] then 0
    else (if run[0].ResetFlag? && s.sh.clearance && !seen then 1 else 0)
         + Unlogged(Next(s, run[0]), run[1..], atomic, Sight(s, run[0], seen))
  }

  /** An overload is open while the flag is set and its clearing not yet logged. */
  function Open(s: State, seen: bool): nat {
    if s.sh.clearance && !(s.ctl == Resetting && seen) then 1 else 0
  }

  ghost predicate SightOk(s: State, seen: bool) {
    s.ctl == Resetting && seen ==> s.sh.clearance
  }

  lemma CountStep(s: State, a: Action, atomic: bool, seen: bool)
    requires Enabled(s, a, atomic) && SightOk(s, seen)
    ensures var s' := Next(s, a);
            && SightOk(s', Sight(s, a, seen))
            && Overloads(s'.sh.log) == Overloads(s.sh.log) + (if SetsFlag(s, a) then 1 else 0)
            && Clears(s'.sh.log) == Clears(s.sh.log) + (if SeesFlag(s, a) then 1 else 0)
            && Open(s', Sight(s, a, seen))
               == Open(s, seen) + (if SetsFlag(s, a) then 1 else 0) - (if SeesFlag(s, a) then 1 else 0)
                  - (if a.ResetFlag? && s.sh.clearance && !seen then 1 else 0)
  {
    hide WaitingIds, Waiting, Overloads, Clears, Lists;
    var added := StepLogs(s, a, atomic);
    if added == [] {
      assert s.sh.log + added == s.sh.log;
    } else {
      assert added == [added[0]];
      CountsAppend(s.sh.log, added[0]);
    }
  }

  lemma {:induction false} CountRun(s: State, run: seq<Action>, atomic: bool, seen: bool) returns (seen': bool)
    requires Runs(s, run, atomic) && SightOk(s, seen)
    ensures var s' := After(s, run, atomic);
            && SightOk(s', seen')
            && Overloads(s'.sh.log) == Overloads(s.sh.log) + FlagSets(s, run, atomic)
            && Clears(s'.sh.log) == Clears(s.sh.log) + FlagSights(s, run, atomic)
            && Open(s', seen') + Unlogged(s, run, atomic, seen) + FlagSights(s, run, atomic)
               == Open(s, seen) + FlagSets(s, run, atomic)
    decreases |run|
  {
    hide WaitingIds, Waiting, Overloads, Clears, Next, Open, SetsFlag, SeesFlag, Enabled;
    seen' := seen;
    if run != [] {
      CountStep(s, run[0], atomic, seen);
      seen' := CountRun(Next(s, run[0]), run[1..], atomic, Sight(s, run[0], seen));
    }
  }

  /** In every interleaving "System Overload" is logged once for each step that sets a clear
      flag, and "Tunnel Cleared" once for each time the controller sees a set flag over empty
      queues. The overloads without a clearing are the one still open, and those whose flag was
      set between line 111 and the reset of line 115. */
  lemma LogExact(n: nat, run: seq<Action>, atomic: bool)
    requires Runs(Init(n), run, atomic)
    ensures var s := After(Init(n), run, atomic);
            && Overloads(s.sh.log) == FlagSets(Init(n), run, atomic)
            && Clears(s.sh.log) == FlagSights(Init(n), run, atomic)
            && (s.ctl != Resetting ==>
                  Overloads(s.sh.log) == Clears(s.sh.log) + Unlogged(Init(n), run, atomic, false)
                                         + (if s.sh.clearance then 1 else 0))
  {
    var seen' := CountRun(Init(n), run, atomic, false);
  }

  // ---------------------------------------------------------------- the trains

  /** The trains made by the pushes of the run, numbered from `id`. */
  function Created(run: seq<Action>, id: nat): seq<Train> {
    if run == [] then []
    else if run[0].PushTrain? then [Train(id, run[0].i, run[0].length)] + Created(run[1..], id + 1)
    else Created(run[1..], id)
  }

  /** The trains of section `i`, in order. */
  function OfSection(ts: seq<Train>, i: nat): seq<Train> {
    if ts == [] then []
    else OfSection(ts[..|ts| - 1], i) + (if ts[|ts| - 1].source == i then [ts[|ts| - 1]] else [])
  }

  lemma OfSectionAppend(ts: seq<Train>, t: Train, i: nat)
    ensures OfSection(ts + [t], i) == OfSection(ts, i) + (if t.source == i then [t] else [])
  {
    assert (ts + [t])[..|ts|] == ts;
  }

  /** The trains of a section that entered the tunnel, and then those that still wait, are the
      trains made for it, in order. */
  ghost predicate Lines(s: State, made: seq<Train>) {
    forall i | 0 <= i < |s.sh.queues| :: OfSection(s.entered, i) + s.sh.queues[i] == OfSection(made, i)
  }

  /** Train number k of those made has the id k; a record holds the train of its id. */
  ghost predicate Numbered(s: State, made: seq<Train>) {
    && |made| == s.sh.nextId && (forall k | 0 <= k < |made| :: made[k].id == k)
    && (forall id: nat :: id in s.sh.records <==> id < |made|)
    && (forall id <- s.sh.records :: s.sh.records[id].train == made[id])
  }

  /** Trains that entered were made so, and waited in the queue of their section. */
  ghost predicate EnteredMade(s: State, made: seq<Train>) {
    forall t <- s.entered :: t in made && t.source < |s.sh.queues|
  }

  ghost predicate Waited(s: State, made: seq<Train>) {
    forall i | 0 <= i < |s.sh.queues| :: forall t <- s.sh.queues[i] :: t in made && t.source == i
  }

  ghost predicate MadeOk(s: State, made: seq<Train>) {
    Numbered(s, made) && Waited(s, made) && EnteredMade(s, made) && Lines(s, made)
  }

  function MadeBy(a: Action, made: seq<Train>): seq<Train> {
    if a.PushTrain? then made + [Train(|made|, a.i, a.length)] else made
  }

  lemma LinesPush(s: State, i: nat, length: nat, made: seq<Train>)
    requires Lines(s, made) && i < |s.sh.queues| && |made| == s.sh.nextId
    ensures Lines(s.(sh := Push(s.sh, i, length)), made + [Train(|made|, i, length)])
  {
    hide OfSection;
    var t := Train(|made|, i, length);
    var s' := s.(sh := Push(s.sh, i, length));
    forall j | 0 <= j < |s'.sh.queues|
      ensures OfSection(s'.entered, j) + s'.sh.queues[j] == OfSection(made + [t], j)
    {
      OfSectionAppend(made, t, j);
      assert OfSection(s.entered, j) + s.sh.queues[j] == OfSection(made, j);
      assert OfSection(s.entered, j) + (s.sh.queues[j] + [t]) == OfSection(s.entered, j) + s.sh.queues[j] + [t];
    }
  }

  lemma LinesPop(s: State, made: seq<Train>)
    requires Lines(s, made) && Waited(s, made)
    requires |s.sh.queues| > 0 && Waiting(s.sh.queues) > 0
    ensures var (sh, t) := Pop(s.sh);
            Lines(s.(sh := sh, entered := s.entered + [t]), made)
  {
    hide OfSection, Waiting;
    var (sh, t) := Pop(s.sh);
    var i := Longest(s.sh.queues);
    assert t == s.sh.queues[i][0] && t in s.sh.queues[i];
    forall j | 0 <= j < |sh.queues|
      ensures OfSection(s.entered + [t], j) + sh.queues[j] == OfSection(made, j)
    {
      OfSectionAppend(s.entered, t, j);
      assert OfSection(s.entered, j) + s.sh.queues[j] == OfSection(made, j);
      if j == i {
        assert OfSection(s.entered, i) + ([t] + sh.queues[i]) == OfSection(s.entered, i) + [t] + sh.queues[i];
      } else {
        assert OfSection(s.entered, j) + [] == OfSection(s.entered, j);
      }
    }
  }

  lemma WaitedPush(s: State, i: nat, length: nat, made: seq<Train>)
    requires MadeOk(s, made) && i < |s.sh.queues|
    ensures var s' := s.(sh := Push(s.sh, i, length));
            var made' := made + [Train(|made|, i, length)];
            Numbered(s', made') && Waited(s', made') && EnteredMade(s', made')
  {
    hide Lines;
    var t := Train(|made|, i, length);
    var s' := s.(sh := Push(s.sh, i, length));
    assert (made + [t])[|made|] == t;
    forall j | 0 <= j < |s'.sh.queues|
      ensures forall u <- s'.sh.queues[j] :: u in made + [t] && u.source == j
    {
      assert forall u <- s.sh.queues[j] :: u in made && u.source == j;
    }
  }

  lemma WaitedPop(s: State, made: seq<Train>)
    requires MadeOk(s, made)
    requires |s.sh.queues| > 0 && Waiting(s.sh.queues) > 0
    ensures var (sh, t) := Pop(s.sh);
            var s' := s.(sh := sh, entered := s.entered + [t]);
            Numbered(s', made) && Waited(s', made) && EnteredMade(s', made)
  {
    hide Lines, Waiting;
    var (sh, t) := Pop(s.sh);
    var i := Longest(s.sh.queues);
    assert t == s.sh.queues[i][0] && t in s.sh.queues[i];
    forall j | 0 <= j < |sh.queues| ensures forall u <- sh.queues[j] :: u in made && u.source == j {
      assert forall u <- sh.queues[j] :: u in s.sh.queues[j];
    }
  }

  lemma OtherMade(s: State, a: Action, atomic: bool, made: seq<Train>)
    requires MadeOk(s, made) && TunnelOk(s) && Enabled(s, a, atomic) && !a.PushTrain? && !a.PopTrain?
    ensures MadeOk(Next(s, a), made)
  {
    hide Waiting, WaitingIds, OfSection;
    var s' := Next(s, a);
    assert s'.sh.queues == s.sh.queues && s'.entered == s.entered && s'.sh.nextId == s.sh.nextId;
    assert Numbered(s', made) by {
      if a.RecordArrival? {
        var t := s.entered[|s.entered| - 1];
        assert t == s.ctl.train && t in made;
      }
    }
    hide Numbered;
    assert Lines(s', made);
    assert Waited(s', made) && EnteredMade(s', made);
  }

  lemma MadeStep(s: State, a: Action, atomic: bool, made: seq<Train>)
    requires MadeOk(s, made) && TunnelOk(s) && Enabled(s, a, atomic)
    ensures MadeOk(Next(s, a), MadeBy(a, made))
  {
    hide Lines, Numbered, Waited, EnteredMade, Waiting, OfSection, Longest, TunnelOk;
    if a.PushTrain? {
      PushMade(s, a.i, a.length, made);
    } else if a.PopTrain? {
      PopMade(s, made);
    } else {
      OtherMade(s, a, atomic, made);
    }
  }

  lemma PushMade(s: State, i: nat, length: nat, made: seq<Train>)
    requires MadeOk(s, made) && Enabled(s, PushTrain(i, length), false)
    ensures MadeOk(Next(s, PushTrain(i, length)), made + [Train(|made|, i, length)])
  {
    hide Waiting, OfSection;
    var s0, made' := s.(sh := Push(s.sh, i, length)), made + [Train(|made|, i, length)];
    LinesPush(s, i, length, made);
    WaitedPush(s, i, length, made);
    SameTrains(s0, Next(s, PushTrain(i, length)), made');
  }

  lemma PopMade(s: State, made: seq<Train>)
    requires MadeOk(s, made) && Enabled(s, PopTrain, false)
    ensures MadeOk(Next(s, PopTrain), made)
  {
    hide Waiting, OfSection, Longest;
    var (sh, t) := Pop(s.sh);
    var s0 := s.(sh := sh, entered := s.entered + [t]);
    LinesPop(s, made);
    WaitedPop(s, made);
    SameTrains(s0, Next(s, PopTrain), made);
  }

  lemma SameTrains(s: State, s': State, made: seq<Train>)
    requires MadeOk(s, made) && s'.sh == s.sh && s'.entered == s.entered
    ensures MadeOk(s', made)
  {
    hide OfSection;
  }

  // ---------------------------------------------------------------- the tunnel and the clock

  /** The trains that left, then the one inside, are the trains that entered. */
  ghost predicate TunnelOk(s: State) {
    && |s.entered| == |s.left| + (if InTunnel(s.ctl) then 1 else 0)
    && (forall k | 0 <= k < |s.left| :: s.left[k] == s.entered[k].id)
    && (InTunnel(s.ctl) ==> s.entered[|s.left|] == s.ctl.train)
  }

  lemma TunnelStep(s: State, a: Action, atomic: bool)
    requires TunnelOk(s) && Enabled(s, a, atomic)
    ensures TunnelOk(Next(s, a))
  {
    hide Waiting, WaitingIds, Longest;
  }

  /** Whether each passage of the run had a breakdown. */
  function Breakdowns(run: seq<Action>): seq<bool> {
    if run == [] then []
    else if run[0].Pass? then [run[0].breakdown] + Breakdowns(run[1..])
    else Breakdowns(run[1..])
  }

  /** Seconds spent on passages: one for the front of the train, one per 100 metres, and four
      for a breakdown. */
  function TotalTime(ts: seq<Train>, bs: seq<bool>): nat
    requires |ts| == |bs|
  {
    if ts == [] then 0
    else
      var k := |ts| - 1;
      TotalTime(ts[..k], bs[..k]) + 1 + ts[k].length / 100 + (if bs[k] then 4 else 0)
  }

  /** The ids of the trains that broke down. */
  function Broken(ts: seq<Train>, bs: seq<bool>): seq<nat>
    requires |ts| == |bs|
  {
    if ts == [] then []
    else
      var k := |ts| - 1;
      Broken(ts[..k], bs[..k]) + (if bs[k] then [ts[k].id] else [])
  }

  /** Trains whose passage has been decided: those that left and one that is leaving. */
  ghost predicate PassedOk(s: State, bs: seq<bool>) {
    && |bs| == |s.left| + (if s.ctl.Leaving? then 1 else 0) && |bs| <= |s.entered|
    && (s.ctl.Leaving? ==> bs[|s.left|] == s.ctl.breakdown)
  }

  ghost predicate TimesOk(s: State, bs: seq<bool>)
    requires PassedOk(s, bs)
  {
    && s.clock == TotalTime(s.entered[..|s.left|], bs[..|s.left|])
    && BreakdownIds(s.sh.log) == Broken(s.entered[..|bs|], bs)
  }

  /** The tunnel log names the trains in the order in which they entered. */
  ghost predicate PassingOk(s: State) {
    PassingIds(s.sh.log) + (if s.ctl.Popped? then [s.ctl.train.id] else []) == IdsOf(s.entered)
  }

  function PassedBy(a: Action, bs: seq<bool>): seq<bool> {
    if a.Pass? then bs + [a.breakdown] else bs
  }

  lemma {:induction false} IdsAppend(ts: seq<Train>, t: Train)
    ensures IdsOf(ts + [t]) == IdsOf(ts) + [t.id]
  {
    if ts != [] {
      assert (ts + [t])[1..] == ts[1..] + [t];
      IdsAppend(ts[1..], t);
    }
  }

  lemma PassingStep(s: State, a: Action, atomic: bool)
    requires PassingOk(s) && Enabled(s, a, atomic)
    ensures PassingOk(Next(s, a))
  {
    hide WaitingIds, Waiting, PassingIds, BreakdownIds, IdsOf, Lists, Longest;
    var added := StepLogs(s, a, atomic);
    if added == [] {
      assert s.sh.log + added == s.sh.log;
      if a.PopTrain? {
        var t := Pop(s.sh).1;
        IdsAppend(s.entered, t);
        assert PassingIds(s.sh.log) + [] == PassingIds(s.sh.log);
      }
    } else {
      assert added == [added[0]];
      LogAppend(s.sh.log, added[0]);
    }
  }

  lemma PassedStep(s: State, a: Action, atomic: bool, bs: seq<bool>)
    requires TunnelOk(s) && PassedOk(s, bs) && Enabled(s, a, atomic)
    ensures PassedOk(Next(s, a), PassedBy(a, bs))
  {
    hide WaitingIds, Waiting, Longest;
  }

  lemma BrokenStep(s: State, a: Action, atomic: bool, bs: seq<bool>)
    requires TunnelOk(s) && PassedOk(s, bs) && TimesOk(s, bs) && Enabled(s, a, atomic)
    requires PassedOk(Next(s, a), PassedBy(a, bs))
    ensures var s', bs' := Next(s, a), PassedBy(a, bs);
            BreakdownIds(s'.sh.log) == Broken(s'.entered[..|bs'|], bs')
  {
    hide WaitingIds, Waiting, BreakdownIds, PassingIds, Lists, Longest, TotalTime;
    var s' := Next(s, a);
    var added := StepLogs(s, a, atomic);
    assert s'.entered[..|bs|] == s.entered[..|bs|];
    if added == [] {
      assert s.sh.log + added == s.sh.log;
    } else {
      assert added == [added[0]];
      LogAppend(s.sh.log, added[0]);
    }
    if a.Pass? {
      var bs' := bs + [a.breakdown];
      assert bs'[..|bs|] == bs && s.entered[..|bs'|][..|bs|] == s.entered[..|bs|];
    }
  }

  lemma ClockStep(s: State, a: Action, atomic: bool, bs: seq<bool>)
    requires TunnelOk(s) && PassedOk(s, bs) && TimesOk(s, bs) && Enabled(s, a, atomic)
    requires PassedOk(Next(s, a), PassedBy(a, bs))
    ensures var s', bs' := Next(s, a), PassedBy(a, bs);
            s'.clock == TotalTime(s'.entered[..|s'.left|], bs'[..|s'.left|])
  {
    hide WaitingIds, Waiting, BreakdownIds, Longest, Broken;
    var s', k := Next(s, a), |s.left|;
    assert s'.entered[..k] == s.entered[..k] && PassedBy(a, bs)[..k] == bs[..k];
    if a.RecordArrival? {
      assert s.entered[..k + 1][..k] == s.entered[..k] && bs[..k + 1][..k] == bs[..k];
    }
  }

  // ---------------------------------------------------------------- whole runs

  ghost predicate HistoryOk(s: State, made: seq<Train>, bs: seq<bool>) {
    MadeOk(s, made) && TunnelOk(s) && PassingOk(s) && PassedOk(s, bs) && TimesOk(s, bs)
  }

  lemma HistoryStep(s: State, a: Action, atomic: bool, made: seq<Train>, bs: seq<bool>)
    requires HistoryOk(s, made, bs) && Enabled(s, a, atomic)
    ensures HistoryOk(Next(s, a), MadeBy(a, made), PassedBy(a, bs))
  {
    hide MadeOk, TunnelOk, PassingOk, PassedOk, Next, Enabled;
    MadeStep(s, a, atomic, made);
    TunnelStep(s, a, atomic);
    PassingStep(s, a, atomic);
    PassedStep(s, a, atomic, bs);
    BrokenStep(s, a, atomic, bs);
    ClockStep(s, a, atomic, bs);
  }

  lemma {:induction false} HistoryRun(s: State, run: seq<Action>, atomic: bool, made: seq<Train>, bs: seq<bool>)
    requires HistoryOk(s, made, bs) && Runs(s, run, atomic)
    ensures HistoryOk(After(s, run, atomic), made + Created(run, |made|), bs + Breakdowns(run))
    decreases |run|
  {
    hide HistoryOk, Next, Enabled, Created, Breakdowns, MadeBy, PassedBy;
    CreatedUnfolds(run, made);
    BreakdownsUnfold(run, bs);
    if run != [] {
      var a := run[0];
      HistoryStep(s, a, atomic, made, bs);
      HistoryRun(Next(s, a), run[1..], atomic, MadeBy(a, made), PassedBy(a, bs));
    }
  }

  lemma {:induction false} CreatedUnfolds(run: seq<Action>, made: seq<Train>)
    ensures run == [] ==> made + Created(run, |made|) == made
    ensures run != [] ==>
              MadeBy(run[0], made) + Created(run[1..], |MadeBy(run[0], made)|) == made + Created(run, |made|)
  {
    if run != [] && run[0].PushTrain? {
      var t := Train(|made|, run[0].i, run[0].length);
      assert made + ([t] + Created(run[1..], |made| + 1)) == made + [t] + Created(run[1..], |made| + 1);
    }
  }

  lemma {:induction false} BreakdownsUnfold(run: seq<Action>, bs: seq<bool>)
    ensures run == [] ==> bs + Breakdowns(run) == bs
    ensures run != [] ==> PassedBy(run[0], bs) + Breakdowns(run[1..]) == bs + Breakdowns(run)
  {
    if run != [] && run[0].Pass? {
      var b := run[0].breakdown;
      assert bs + ([b] + Breakdowns(run[1..])) == bs + [b] + Breakdowns(run[1..]);
    }
  }

  lemma InitHistory(n: nat)
    ensures HistoryOk(Init(n), [], [])
  {
    hide Created, Breakdowns;
    assert MadeOk(Init(n), []);
  }

  /** In every interleaving, with the trains made by the pushes of the run: each keeps the id,
      section and length of its push in its queue, in the tunnel and in the records; those of a
      section enter the tunnel in the order they were made, and the rest of them wait in that
      order; the log names them as they enter and as they break down; and the clock is the sum
      of the passage times of those that left. */
  lemma TrainsExact(n: nat, run: seq<Action>, atomic: bool)
    requires Runs(Init(n), run, atomic)
    ensures HistoryOk(After(Init(n), run, atomic), Created(run, 0), Breakdowns(run))
  {
    hide HistoryOk, Created, Breakdowns;
    InitHistory(n);
    HistoryRun(Init(n), run, atomic, [], []);
    assert [] + Created(run, 0) == Created(run, 0) && [] + Breakdowns(run) == Breakdowns(run);
  }

  // ---------------------------------------------------------------- the section threads

  /** How far a section thread has come since it last read the flag at line 191. */
  function Stage(p: Pc): nat {
    match p
    case Top => 0
    case Entered => 1
    case Checked(_) => 2
    case Committed => 3
  }

  /** Steps that take thread `i` to stage `k`: past a clear flag at line 191, through the locked
      check, past a clear flag at line 211 with a train to make. */
  predicate Reaches(s: State, a: Action, i: nat, k: nat) {
    match k
    case 1 => a == ReadFlag(i) && !s.sh.clearance
    case 2 => a == Check(i)
    case 3 => a == RereadFlag(i, true) && !s.sh.clearance
    case _ => false
  }

  /** Steps that take thread `i` on from stage `k`. */
  predicate LeavesStage(a: Action, i: nat, k: nat) {
    match k
    case 1 => a == Check(i)
    case 2 => a.RereadFlag? && a.i == i
    case 3 => a.PushTrain? && a.i == i
    case _ => false
  }

  ghost function Reached(s: State, run: seq<Action>, atomic: bool, i: nat, k: nat): nat
    requires Runs(s, run, atomic)
    decreases |run|
  {
    if run == [] then 0
    else (if Reaches(s, run[0], i, k) then 1 else 0) + Reached(Next(s, run[0]), run[1..], atomic, i, k)
  }

  function LeftStage(run: seq<Action>, i: nat, k: nat): nat {
    if run == [] then 0 else (if LeavesStage(run[0], i, k) then 1 else 0) + LeftStage(run[1..], i, k)
  }

  function AtStage(s: State, i: nat, k: nat): nat {
    if i < |s.threads| && Stage(s.threads[i]) == k then 1 else 0
  }

  lemma StageStep(s: State, a: Action, atomic: bool, i: nat, k: nat)
    requires Enabled(s, a, atomic) && i < |s.threads| && 1 <= k <= 3
    ensures |Next(s, a).threads| == |s.threads|
    ensures AtStage(Next(s, a), i, k) + (if LeavesStage(a, i, k) then 1 else 0)
            == AtStage(s, i, k) + (if Reaches(s, a, i, k) then 1 else 0)
  {
    hide WaitingIds, Waiting, Longest;
  }

  lemma {:induction false} StageRun(s: State, run: seq<Action>, atomic: bool, i: nat, k: nat)
    requires Runs(s, run, atomic) && i < |s.threads| && 1 <= k <= 3
    ensures AtStage(After(s, run, atomic), i, k) + LeftStage(run, i, k)
            == AtStage(s, i, k) + Reached(s, run, atomic, i, k)
    decreases |run|
  {
    hide AtStage, Reaches, LeavesStage, Next, Enabled;
    if run != [] {
      StageStep(s, run[0], atomic, i, k);
      StageRun(Next(s, run[0]), run[1..], atomic, i, k);
    }
  }

  /** A section thread takes one step after the other: it has pushed a train, or is about to,
      exactly as often as it found the flag clear at line 211 with a train to make; it got there
      only through the locked check; and to the check only past a clear flag at line 191. While
      the flag stays set it reaches neither. */
  lemma ThreadsExact(n: nat, run: seq<Action>, atomic: bool, i: nat, k: nat)
    requires Runs(Init(n), run, atomic) && i < n && 1 <= k <= 3
    ensures AtStage(After(Init(n), run, atomic), i, k) + LeftStage(run, i, k)
            == Reached(Init(n), run, atomic, i, k)
  {
    StageRun(Init(n), run, atomic, i, k);
  }
}
