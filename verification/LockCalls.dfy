/**
 The lock manager of pkg/cluster/lock.go seen from outside: how the life of a keep-alive goroutine goes, that no
 thread keeps the mutex or outlives its closed channel, and what a whole Acquire or Release does.
 */
module LockCalls {
  import opened LeaseTable
  import opened LockManager

  // ---------- The life of a goroutine ----------

  // A step of the goroutine of entry e.
  predicate StepOf(a: Action, e: nat) {
    (a.ObserveStop? || a.Tick? || a.KeepRefresh? || a.LockForCleanup? || a.Cleanup?) && a.e == e
  }

  // The table has the row of entry e, and the database answers.
  predicate Renews(s: State, e: nat, up: bool)
    requires e < |s.entries|
  {
    up && Holds(TableAfter(s.calls), s.entries[e].key, s.entries[e].holder)
  }

  // The next step of the goroutine that has just made step `a` in state `s` can be `b`.
  predicate MayFollow(s: State, a: Action, b: Action) {
    match a
    case Tick(_) => b.KeepRefresh?
    case KeepRefresh(e, up, _, _) =>
      if e < |s.entries| && Renews(s, e, up) then b.Tick? || b.ObserveStop? else b.LockForCleanup?
    case LockForCleanup(_) => b.Cleanup?
    case _ => false
  }

  lemma OthersKeepKeeper(s: State, a: Action, e: nat)
    requires CallersOk(s) && Enabled(s, a) && !StepOf(a, e)
    requires e < |s.entries| && !s.entries[e].keeper.Unstarted?
    ensures e < |Step(s, a).entries| && Step(s, a).entries[e].keeper == s.entries[e].keeper
  {
    hide Answers, CallOf, Timely, Wins;
  }

  lemma {:induction false} KeeperWaits(states: seq<State>, actions: seq<Action>, i: nat, j: nat, e: nat)
    requires Trace(states, actions) && i <= j < |states|
    requires e < |states[i].entries| && !states[i].entries[e].keeper.Unstarted?
    requires forall m | i <= m < j :: !StepOf(actions[m], e)
    ensures e < |states[j].entries| && states[j].entries[e].keeper == states[i].entries[e].keeper
  {
    hide Step, Enabled, StepOf, MutexOk, MapOk, CallsOk, KeysOk, StartsOk, CallersOk;
    if i < j {
      KeeperWaits(states, actions, i, j - 1, e);
      TraceInv(states, actions, j - 1);
      OthersKeepKeeper(states[j - 1], actions[j - 1], e);
    }
  }

  // Where a step of its own leaves the goroutine.
  lemma OwnStep(s: State, a: Action, e: nat)
    requires Enabled(s, a) && StepOf(a, e)
    ensures e < |s.entries| == |Step(s, a).entries| && !Step(s, a).entries[e].keeper.Unstarted?
    ensures forall s': State, b |
              && e < |s'.entries| && s'.entries[e].keeper == Step(s, a).entries[e].keeper
              && Enabled(s', b) && StepOf(b, e) ::
              MayFollow(s, a, b)
  {
    hide Timely, TableAfter;
  }

  // Main result, over whole runs: a goroutine refreshes after a tick and only then, goes on after a refresh exactly
  // if the table had its row, and otherwise cleans up; after its clean-up or a closed channel it makes no step.
  lemma GoroutineOrder(states: seq<State>, actions: seq<Action>, i: nat, j: nat, e: nat)
    requires Trace(states, actions) && i < j < |actions| && StepOf(actions[i], e) && StepOf(actions[j], e)
    requires forall m | i < m < j :: !StepOf(actions[m], e)
    ensures MayFollow(states[i], actions[i], actions[j])
  {
    hide Step, Enabled, StepOf, MayFollow;
    OwnStep(states[i], actions[i], e);
    KeeperWaits(states, actions, i + 1, j, e);
  }

  // Main result, over whole runs: a goroutine that has seen its closed channel, or has cleaned up, has ended.
  lemma StoppedMakesNoStep(states: seq<State>, actions: seq<Action>, n: nat, m: nat, e: nat)
    requires Trace(states, actions) && n < m < |actions|
    requires actions[n] == ObserveStop(e) || actions[n] == Cleanup(e)
    ensures !StepOf(actions[m], e)
  {
    hide Trace, StepOf;
    if StepOf(actions[m], e) {
      var j := FirstStep(actions, n + 1, m, e);
      assert StepOf(actions[n], e) by { OwnEnds(actions[n], e); }
      GoroutineOrder(states, actions, n, j, e);
    }
  }

  lemma OwnEnds(a: Action, e: nat)
    requires a == ObserveStop(e) || a == Cleanup(e)
    ensures StepOf(a, e)
  {}

  lemma {:induction false} FirstStep(actions: seq<Action>, n: nat, m: nat, e: nat) returns (j: nat)
    requires n <= m < |actions| && StepOf(actions[m], e)
    ensures n <= j <= m && StepOf(actions[j], e) && forall k | n <= k < j :: !StepOf(actions[k], e)
    decreases m - n
  {
    if k :| n <= k < m && StepOf(actions[k], e) {
      j := FirstStep(actions, n, k, e);
    } else {
      j := m;
    }
  }

  // The caller closes the channel of entry e.
  predicate Closes(s: State, a: Action, e: nat) {
    || (a.CloseOld? && CallerOf(s, a.t).Dropped? && CallerOf(s, a.t).old_ == e)
    || (a.CloseReleased? && CallerOf(s, a.t).Unmapped? && CallerOf(s, a.t).entry == e)
  }

  lemma OnlyCloseStops(s: State, a: Action, e: nat)
    requires Enabled(s, a) && e < |Step(s, a).entries| && Step(s, a).entries[e].stopped && !Closes(s, a, e)
    ensures e < |s.entries| && s.entries[e].stopped
  {
    hide Answers, CallOf, Timely;
  }

  lemma {:induction false} StoppedWasClosed(states: seq<State>, actions: seq<Action>, i: nat, e: nat)
    requires Trace(states, actions) && i < |states| && e < |states[i].entries| && states[i].entries[e].stopped
    ensures exists n | 0 <= n < i :: Closes(states[n], actions[n], e)
  {
    hide Step, Enabled, Closes;
    assert i > 0;
    if !Closes(states[i - 1], actions[i - 1], e) {
      OnlyCloseStops(states[i - 1], actions[i - 1], e);
      StoppedWasClosed(states, actions, i - 1, e);
    }
  }

  // A goroutine sees a closed channel only after an Acquire or Release has closed it.
  lemma StopWasAsked(states: seq<State>, actions: seq<Action>, i: nat, e: nat)
    requires Trace(states, actions) && i < |actions| && actions[i] == ObserveStop(e)
    ensures exists n | 0 <= n < i :: Closes(states[n], actions[n], e)
  {
    hide Step, Closes;
    assert Enabled(states[i], actions[i]);
    StoppedWasClosed(states, actions, i, e);
  }

  // ---------- No thread keeps the mutex ----------

  function Now(s: State): int {
    if s.calls == [] then 0 else s.calls[|s.calls| - 1].at
  }

  // The next step of the owner of the mutex when the database does not answer.
  function OwnerStep(s: State): Action
    requires !s.mu.Nobody?
  {
    match s.mu
    case ByKeeper(e) => Cleanup(e)
    case ByCaller(t) =>
      match CallerOf(s, t)
      case Acquiring(_, _, _) => LookUp(t, false, Now(s), Now(s))
      case Dropped(_, _, _, _) => CloseOld(t)
      case Trying(_, _, _) => Try(t, false, Now(s), Now(s))
      case Granted(_, _, _, _) => Insert(t)
      case Inserted(_) => Spawn(t)
      case Unmapped(_, _, _) => CloseReleased(t)
      case Unlocking(_, _) => Unlock(t)
      case _ => Leave(t)
  }

  // How many steps the owner of the mutex still needs at most.
  function Distance(s: State): nat {
    match s.mu
    case Nobody => 0
    case ByKeeper(_) => 1
    case ByCaller(t) =>
      match CallerOf(s, t)
      case Acquiring(_, _, _) => 5
      case Dropped(_, _, _, _) => 4
      case Trying(_, _, _) => 3
      case Granted(_, _, _, _) => 3
      case Inserted(_) => 2
      case Unmapped(_, _, _) => 2
      case _ => 1
  }

  // Step `a` is one of the thread that owns the mutex.
  predicate ByOwner(a: Action, owner: Owner) {
    match owner
    case Nobody => false
    case ByKeeper(e) => a == Cleanup(e)
    case ByCaller(t) => !ByAKeeper(a) && a.t == t
  }

  lemma OwnerCanMove(s: State)
    requires Inv(s) && !s.mu.Nobody?
    ensures Enabled(s, OwnerStep(s)) && ByOwner(OwnerStep(s), s.mu)
  {
    hide Clocked, Wins, KeysOk, StartsOk, TableAfter;
    if s.mu.ByCaller? {
      var c := CallerOf(s, s.mu.caller);
      assert InsideMutex(s.callers[s.mu.caller]);
      assert c.Acquiring? && c.key in s.locks ==> s.locks[c.key] < |s.entries|;
    } else {
      assert s.mu == ByKeeper(s.mu.entry);
    }
  }

  lemma OwnerMoves(s: State)
    requires !s.mu.Nobody? && Enabled(s, OwnerStep(s))
    ensures var s' := Step(s, OwnerStep(s));
            Distance(s') < Distance(s) && (s'.mu == s.mu || s'.mu.Nobody?)
  {
    hide CallOf, Timely, TableAfter;
  }

  lemma StepKeepsStopped(s: State, a: Action, e: nat)
    requires Enabled(s, a) && e < |s.entries| && s.entries[e].stopped
    ensures e < |Step(s, a).entries| && Step(s, a).entries[e].stopped
  {
    hide CallOf, Timely, Answers;
  }

  lemma OwnerStepRuns(actions: seq<Action>, s: State)
    requires Reaches(actions, s) && !s.mu.Nobody?
    ensures Enabled(s, OwnerStep(s)) && ByOwner(OwnerStep(s), s.mu)
    ensures Reaches(actions + [OwnerStep(s)], Step(s, OwnerStep(s)))
    ensures Distance(Step(s, OwnerStep(s))) < Distance(s)
    ensures Step(s, OwnerStep(s)).mu == s.mu || Step(s, OwnerStep(s)).mu.Nobody?
  {
    ReachableInv(actions, s);
    hide Inv, Enabled, Step, Reaches, OwnerStep, ByOwner;
    OwnerCanMove(s);
    OwnerMoves(s);
    Extend(actions, s, OwnerStep(s));
  }

  // Main result: from every reachable state the mutex is given up by its owner's own steps, at most five, even when
  // the database does not answer.
  lemma {:induction false} MutexComesFree(actions: seq<Action>, s: State, e: nat)
      returns (own: seq<Action>, s': State)
    requires Reaches(actions, s)
    ensures Reaches(actions + own, s') && s'.mu.Nobody?
    ensures |own| <= Distance(s) <= 5 && forall a <- own :: ByOwner(a, s.mu)
    ensures e < |s.entries| && s.entries[e].stopped ==> e < |s'.entries| && s'.entries[e].stopped
    decreases Distance(s)
  {
    hide Inv, Enabled, Step, Reaches, OwnerStep, ByOwner;
    if s.mu.Nobody? {
      own, s' := [], s;
      assert actions + own == actions;
    } else {
      OwnerStepRuns(actions, s);
      var a := OwnerStep(s);
      if e < |s.entries| && s.entries[e].stopped {
        StepKeepsStopped(s, a, e);
      }
      own, s' := MutexComesFree(actions + [a], Step(s, a), e);
      assert actions + ([a] + own) == actions + [a] + own;
      assert Step(s, a).mu.Nobody? ==> own == [];
      own := [a] + own;
    }
  }

  lemma StoppedKeeper(s: State, e: nat)
    requires Inv(s) && e < |s.entries| && s.entries[e].stopped && (s.mu.Nobody? || s.entries[e].keeper.Waiting?)
    ensures !s.panicked && !s.entries[e].keeper.Unstarted? && !s.entries[e].keeper.Cleaning?
  {
    hide CallersOk, CallsOk, KeysOk;
  }

  // The goroutine of a closed channel, with the mutex free.
  lemma EndsWhenFree(actions: seq<Action>, s: State, e: nat) returns (own: seq<Action>, s': State)
    requires Reaches(actions, s) && e < |s.entries| && s.entries[e].stopped
    requires s.mu.Nobody? || s.entries[e].keeper.Waiting?
    ensures Reaches(actions + own, s') && |own| <= 3 && forall a <- own :: StepOf(a, e)
    ensures e < |s'.entries| && s'.entries[e].keeper.Returned?
  {
    ReachableInv(actions, s);
    StoppedKeeper(s, e);
    hide Reaches, Inv, StepOf;
    match s.entries[e].keeper
    case Returned =>
      own, s' := [], s;
      assert actions + [] == actions;
    case Waiting => own, s' := SeesStop(actions, s, e);
    case Refreshing => own, s' := FailsAndCleansUp(actions, s, e);
    case Lost => own, s' := CleansUp(actions, s, e);
  }

  lemma SeesStop(actions: seq<Action>, s: State, e: nat) returns (own: seq<Action>, s': State)
    requires Reaches(actions, s) && e < |s.entries| && s.entries[e].stopped && !s.panicked
    requires s.entries[e].keeper.Waiting?
    ensures Reaches(actions + own, s') && own == [ObserveStop(e)] && StepOf(own[0], e)
    ensures e < |s'.entries| && s'.entries[e].keeper.Returned?
  {
    hide Reaches;
    own, s' := [ObserveStop(e)], Step(s, ObserveStop(e));
    Extend(actions, s, ObserveStop(e));
  }

  lemma FailsAndCleansUp(actions: seq<Action>, s: State, e: nat) returns (own: seq<Action>, s': State)
    requires Reaches(actions, s) && e < |s.entries| && s.entries[e].keeper.Refreshing? && s.mu.Nobody? && !s.panicked
    ensures Reaches(actions + own, s') && |own| == 3 && forall a <- own :: StepOf(a, e)
    ensures e < |s'.entries| && s'.entries[e].keeper.Returned?
  {
    hide Reaches, StepOf;
    var refresh, s1 := RefreshFails(actions, s, e);
    own, s' := CleansUp(actions + [refresh], s1, e);
    assert actions + [refresh] + own == actions + ([refresh] + own);
    own := [refresh] + own;
  }

  lemma RefreshFails(actions: seq<Action>, s: State, e: nat) returns (a: Action, s': State)
    requires Reaches(actions, s) && e < |s.entries| && s.entries[e].keeper.Refreshing? && !s.panicked
    ensures Reaches(actions + [a], s') && StepOf(a, e)
    ensures e < |s'.entries| && s'.entries[e].keeper.Lost? && s'.mu == s.mu && !s'.panicked
  {
    hide Reaches, TableAfter;
    a := KeepRefresh(e, false, Now(s), Now(s));
    s' := Step(s, a);
    Extend(actions, s, a);
  }

  lemma CleansUp(actions: seq<Action>, s: State, e: nat) returns (own: seq<Action>, s': State)
    requires Reaches(actions, s) && e < |s.entries| && s.entries[e].keeper.Lost? && s.mu.Nobody? && !s.panicked
    ensures Reaches(actions + own, s') && |own| == 2 && forall a <- own :: StepOf(a, e)
    ensures e < |s'.entries| && s'.entries[e].keeper.Returned?
  {
    hide Reaches;
    var s1 := Step(s, LockForCleanup(e));
    Extend(actions, s, LockForCleanup(e));
    Extend(actions + [LockForCleanup(e)], s1, Cleanup(e));
    own, s' := [LockForCleanup(e), Cleanup(e)], Step(s1, Cleanup(e));
    assert actions + [LockForCleanup(e)] + [Cleanup(e)] == actions + own;
  }

  // Main result: from every reachable state in which the channel of an entry is closed, its goroutine's own steps
  // lead to its return, once the owner of the mutex, if there is one, has given it up by steps of its own.
  lemma StoppedGoroutineEnds(actions: seq<Action>, s: State, e: nat)
      returns (owners: seq<Action>, own: seq<Action>, s': State)
    requires Reaches(actions, s) && e < |s.entries| && s.entries[e].stopped
    ensures Reaches(actions + owners + own, s') && e < |s'.entries| && s'.entries[e].keeper.Returned?
    ensures (forall a <- own :: StepOf(a, e)) && (forall a <- owners :: ByOwner(a, s.mu))
    ensures s.mu.Nobody? || s.entries[e].keeper.Waiting? ==> owners == []
  {
    hide Reaches, StepOf, ByOwner;
    owners := [];
    if s.mu.Nobody? || s.entries[e].keeper.Waiting? {
      assert actions + owners == actions;
      own, s' := EndsWhenFree(actions, s, e);
    } else {
      owners, s' := MutexComesFree(actions, s, e);
      own, s' := EndsWhenFree(actions + owners, s', e);
    }
  }

  // ---------- A whole call, run without interference ----------

  // Whether the database answers a call of this process, and the two clock readings of the call.
  datatype Reading = Reading(up: bool, read: int, at: int)

  predicate Follows(s: State, r: Reading) {
    r.read <= r.at && (s.calls != [] ==> s.calls[|s.calls| - 1].at <= r.at)
  }

  // The key is in the map, and its entry's holder still has the row.
  predicate StillHeld(s: State, key: string, up: bool) {
    && up && key in s.locks && s.locks[key] < |s.entries|
    && Holds(TableAfter(s.calls), key, s.entries[s.locks[key]].holder)
  }

  predicate FreeAt(t: Table, key: string, r: Reading) {
    r.up && (key !in t || r.at > t[key].expires)
  }

  // The channel of the entry of `key` is closed, and nothing else is done to the entries.
  function WithClosed(s: State, key: string): seq<Entry>
    requires key in s.locks ==> s.locks[key] < |s.entries|
  {
    if key in s.locks then s.entries[s.locks[key] := s.entries[s.locks[key]].(stopped := true)] else s.entries
  }

  lemma TableLast(calls: seq<Call>, c: Call)
    ensures TableAfter(calls + [c]) == LeaseTable.After(TableAfter(calls), c)
  {
    assert (calls + [c])[..|calls|] == calls;
  }

  // The steps of caller t, and of nobody else, that lead from one state to another.
  ghost predicate Leads(s: State, t: nat, run: seq<Action>, s': State)
    decreases run
  {
    if run == [] then s' == s
    else Enabled(s, run[0]) && !ByAKeeper(run[0]) && run[0].t == t && Leads(Step(s, run[0]), t, run[1..], s')
  }

  lemma LeadsOne(s: State, t: nat, a: Action)
    requires Enabled(s, a) && !ByAKeeper(a) && a.t == t
    ensures Leads(s, t, [a], Step(s, a))
  {
    hide Enabled, Step, ByAKeeper;
    assert [a][1..] == [];
  }

  lemma {:induction false} LeadsOn(s: State, t: nat, run: seq<Action>, s1: State, more: seq<Action>, s2: State)
    requires Leads(s, t, run, s1) && Leads(s1, t, more, s2)
    ensures Leads(s, t, run + more, s2)
    decreases run
  {
    hide Enabled, Step, ByAKeeper;
    if run == [] {
      assert run + more == more;
    } else {
      LeadsOn(Step(s, run[0]), t, run[1..], s1, more, s2);
      assert (run + more)[1..] == run[1..] + more;
    }
  }

  lemma {:induction false} LeadsReaches(actions: seq<Action>, s: State, t: nat, run: seq<Action>, s': State)
    requires Reaches(actions, s) && Leads(s, t, run, s')
    ensures Reaches(actions + run, s')
    decreases run
  {
    hide Enabled, Step, ByAKeeper, Reaches;
    if run == [] {
      assert actions + run == actions;
    } else {
      Extend(actions, s, run[0]);
      LeadsReaches(actions + [run[0]], Step(s, run[0]), t, run[1..], s');
      assert actions + [run[0]] + run[1..] == actions + run;
    }
  }

  predicate AtRest(s: State, t: nat) {
    s.mu.Nobody? && !s.panicked && CallerOf(s, t).Idle?
  }

  predicate Inside(s: State, t: nat) {
    s.mu == ByCaller(t) && !s.panicked
  }

  lemma Starts(s: State, t: nat, key: string, holder: string, ttl: int)
    requires AtRest(s, t)
    ensures Leads(s, t, [StartAcquire(t, key, holder, ttl)],
                  s.(mu := ByCaller(t), callers := s.callers[t := Acquiring(key, holder, ttl)]))
  {
    LeadsOne(s, t, StartAcquire(t, key, holder, ttl));
  }

  // The refresh by which an Acquire finds out whether the lock is still held.
  function Probe(s: State, c: Caller, r: Reading): Call
    requires c.Acquiring? && c.key in s.locks && s.locks[c.key] < |s.entries|
  {
    Refresh(c.key, s.entries[s.locks[c.key]].holder, c.ttl, r.read, r.at)
  }

  lemma Probes(s: State, t: nat, r: Reading)
    requires Inside(s, t) && CallerOf(s, t).Acquiring? && Follows(s, r)
    requires CallerOf(s, t).key in s.locks && s.locks[CallerOf(s, t).key] < |s.entries|
    ensures var a, c := LookUp(t, r.up, r.read, r.at), CallerOf(s, t);
            && Enabled(s, a) && CallOf(s, a) == Probe(s, c, r)
            && (Answers(s, Probe(s, c, r), r.up) <==> StillHeld(s, c.key, r.up))
  {
    hide TableAfter;
  }

  lemma LooksUpHeld(s: State, t: nat, r: Reading)
    requires Inside(s, t) && CallerOf(s, t).Acquiring? && Follows(s, r) && StillHeld(s, CallerOf(s, t).key, r.up)
    ensures Leads(s, t, [LookUp(t, r.up, r.read, r.at)],
                  s.(callers := s.callers[t := Leaving], calls := s.calls + [Probe(s, CallerOf(s, t), r)]))
  {
    Probes(s, t, r);
    hide TableAfter, CallOf, Answers, Probe, Enabled;
    LeadsOne(s, t, LookUp(t, r.up, r.read, r.at));
    hide Leads;
  }

  lemma LooksUpLost(s: State, t: nat, r: Reading)
    requires Inside(s, t) && CallerOf(s, t).Acquiring? && Follows(s, r) && !StillHeld(s, CallerOf(s, t).key, r.up)
    requires CallerOf(s, t).key in s.locks && s.locks[CallerOf(s, t).key] < |s.entries|
    ensures var c := CallerOf(s, t);
            Leads(s, t, [LookUp(t, r.up, r.read, r.at)],
                  s.(callers := s.callers[t := Dropped(c.key, c.holder, c.ttl, s.locks[c.key])],
                     locks := s.locks - {c.key}, calls := if r.up then s.calls + [Probe(s, c, r)] else s.calls))
  {
    Probes(s, t, r);
    hide TableAfter, CallOf, Answers, Probe, Enabled, StillHeld;
    LeadsOne(s, t, LookUp(t, r.up, r.read, r.at));
    hide Leads;
  }

  lemma LooksUpNothing(s: State, t: nat, r: Reading)
    requires Inside(s, t) && CallerOf(s, t).Acquiring? && CallerOf(s, t).key !in s.locks
    ensures var c := CallerOf(s, t);
            Leads(s, t, [LookUp(t, r.up, r.read, r.at)],
                  s.(callers := s.callers[t := Trying(c.key, c.holder, c.ttl)]))
  {
    LeadsOne(s, t, LookUp(t, r.up, r.read, r.at));
    hide Leads;
  }

  lemma ClosesOld(s: State, t: nat)
    requires Inside(s, t) && CallerOf(s, t).Dropped?
    requires CallerOf(s, t).old_ < |s.entries| && !s.entries[CallerOf(s, t).old_].stopped
    ensures var c := CallerOf(s, t);
            Leads(s, t, [CloseOld(t)],
                  s.(callers := s.callers[t := Trying(c.key, c.holder, c.ttl)],
                     entries := s.entries[c.old_ := s.entries[c.old_].(stopped := true)]))
  {
    LeadsOne(s, t, CloseOld(t));
    hide Leads;
  }

  lemma Tries(s: State, t: nat, r: Reading)
    requires Inside(s, t) && CallerOf(s, t).Trying? && Follows(s, r)
    ensures var c := CallerOf(s, t);
            var call := TryAcquire(c.key, c.holder, c.ttl, r.read, r.at);
            var next := if FreeAt(TableAfter(s.calls), c.key, r) then Granted(c.key, c.holder, c.ttl, |s.calls|)
                         else Leaving;
            Leads(s, t, [Try(t, r.up, r.read, r.at)],
                  s.(callers := s.callers[t := next], calls := if r.up then s.calls + [call] else s.calls))
  {
    hide TableAfter;
    LeadsOne(s, t, Try(t, r.up, r.read, r.at));
    hide Leads;
  }

  lemma Inserts(s: State, t: nat)
    requires Inside(s, t) && CallerOf(s, t).Granted?
    ensures var c, e := CallerOf(s, t), |s.entries|;
            Leads(s, t, [Insert(t)],
                  s.(callers := s.callers[t := Inserted(e)], locks := s.locks[c.key := e],
                     entries := s.entries + [Entry(c.key, c.holder, c.ttl, c.won, false, Unstarted)]))
  {
    LeadsOne(s, t, Insert(t));
    hide Leads;
  }

  lemma Spawns(s: State, t: nat)
    requires Inside(s, t) && CallerOf(s, t).Inserted? && CallerOf(s, t).entry < |s.entries|
    ensures var e := CallerOf(s, t).entry;
            Leads(s, t, [Spawn(t)],
                  s.(callers := s.callers[t := Leaving], entries := s.entries[e := s.entries[e].(keeper := Waiting)]))
  {
    LeadsOne(s, t, Spawn(t));
    hide Leads;
  }

  lemma Leaves(s: State, t: nat)
    requires Inside(s, t) && CallerOf(s, t).Leaving?
    ensures Leads(s, t, [Leave(t)], s.(mu := Nobody, callers := s.callers[t := Idle]))
  {
    LeadsOne(s, t, Leave(t));
    hide Leads;
  }

  // The call has returned, with this map and these entries.
  predicate Returned(s: State, t: nat, locks: map<string, nat>, entries: seq<Entry>) {
    AtRest(s, t) && s.locks == locks && s.entries == entries
  }

  lemma AcquireOfHeldKey(s: State, t: nat, key: string, holder: string, ttl: int, r: Reading)
      returns (run: seq<Action>, s': State)
    requires AtRest(s, t) && Follows(s, r) && StillHeld(s, key, r.up)
    ensures Leads(s, t, run, s') && Returned(s', t, s.locks, s.entries)
    ensures TableAfter(s'.calls) == TableAfter(s.calls)[key := Row(s.entries[s.locks[key]].holder, r.read + ttl)]
  {
    hide Leads, TableAfter;
    var c := Refresh(key, s.entries[s.locks[key]].holder, ttl, r.read, r.at);
    var s1 := s.(mu := ByCaller(t), callers := s.callers[t := Acquiring(key, holder, ttl)]);
    Starts(s, t, key, holder, ttl);
    LooksUpHeld(s1, t, r);
    var s2 := s1.(callers := s1.callers[t := Leaving], calls := s1.calls + [c]);
    LeadsOn(s, t, [StartAcquire(t, key, holder, ttl)], s1, [LookUp(t, r.up, r.read, r.at)], s2);
    run := [StartAcquire(t, key, holder, ttl)] + [LookUp(t, r.up, r.read, r.at)];
    Leaves(s2, t);
    s' := s2.(mu := Nobody, callers := s2.callers[t := Idle]);
    LeadsOn(s, t, run, s2, [Leave(t)], s');
    run := run + [Leave(t)];
    TableLast(s.calls, c);
  }

  // The Acquire is about to try, with this map and these entries.
  predicate AboutToTry(s: State, t: nat, c: Caller, locks: map<string, nat>, entries: seq<Entry>) {
    Inside(s, t) && CallerOf(s, t) == c && c.Trying? && s.locks == locks && s.entries == entries
  }

  lemma AcquireOfUnknownKey(s: State, t: nat, key: string, holder: string, ttl: int, r: Reading)
      returns (run: seq<Action>, s': State)
    requires AtRest(s, t) && key !in s.locks
    ensures Leads(s, t, run, s') && AboutToTry(s', t, Trying(key, holder, ttl), s.locks, s.entries)
    ensures s'.calls == s.calls
  {
    hide Leads;
    var s1 := s.(mu := ByCaller(t), callers := s.callers[t := Acquiring(key, holder, ttl)]);
    Starts(s, t, key, holder, ttl);
    LooksUpNothing(s1, t, r);
    s' := s1.(callers := s1.callers[t := Trying(key, holder, ttl)]);
    LeadsOn(s, t, [StartAcquire(t, key, holder, ttl)], s1, [LookUp(t, r.up, r.read, r.at)], s');
    run := [StartAcquire(t, key, holder, ttl)] + [LookUp(t, r.up, r.read, r.at)];
  }

  lemma AcquireOfLostKey(s: State, t: nat, key: string, holder: string, ttl: int, r: Reading)
      returns (run: seq<Action>, s': State)
    requires AtRest(s, t) && Follows(s, r) && !StillHeld(s, key, r.up)
    requires key in s.locks && s.locks[key] < |s.entries| && !s.entries[s.locks[key]].stopped
    ensures Leads(s, t, run, s')
    ensures AboutToTry(s', t, Trying(key, holder, ttl), s.locks - {key}, WithClosed(s, key))
    ensures TableAfter(s'.calls) == TableAfter(s.calls) && (s'.calls != [] ==> s'.calls[|s'.calls| - 1].at <= r.at)
  {
    hide Leads, TableAfter;
    var e := s.locks[key];
    var c := Refresh(key, s.entries[e].holder, ttl, r.read, r.at);
    var s1 := s.(mu := ByCaller(t), callers := s.callers[t := Acquiring(key, holder, ttl)]);
    Starts(s, t, key, holder, ttl);
    LooksUpLost(s1, t, r);
    var s2 := s1.(callers := s1.callers[t := Dropped(key, holder, ttl, e)], locks := s1.locks - {key},
                  calls := if r.up then s1.calls + [c] else s1.calls);
    LeadsOn(s, t, [StartAcquire(t, key, holder, ttl)], s1, [LookUp(t, r.up, r.read, r.at)], s2);
    run := [StartAcquire(t, key, holder, ttl)] + [LookUp(t, r.up, r.read, r.at)];
    ClosesOld(s2, t);
    s' := s2.(callers := s2.callers[t := Trying(key, holder, ttl)],
              entries := s2.entries[e := s2.entries[e].(stopped := true)]);
    LeadsOn(s, t, run, s2, [CloseOld(t)], s');
    run := run + [CloseOld(t)];
    TableLast(s.calls, c);
  }

  lemma TryGrants(s: State, t: nat, r: Reading) returns (run: seq<Action>, s': State)
    requires Inside(s, t) && CallerOf(s, t).Trying? && Follows(s, r)
    requires FreeAt(TableAfter(s.calls), CallerOf(s, t).key, r)
    ensures var c, e := CallerOf(s, t), |s.entries|;
            && Leads(s, t, run, s')
            && Returned(s', t, s.locks[c.key := e],
                        s.entries + [Entry(c.key, c.holder, c.ttl, |s.calls|, false, Waiting)])
            && TableAfter(s'.calls) == TableAfter(s.calls)[c.key := Row(c.holder, r.read + c.ttl)]
  {
    hide Leads, TableAfter;
    var c, n := CallerOf(s, t), |s.calls|;
    var call := TryAcquire(c.key, c.holder, c.ttl, r.read, r.at);
    Tries(s, t, r);
    var s1 := s.(callers := s.callers[t := Granted(c.key, c.holder, c.ttl, n)], calls := s.calls + [call]);
    run, s' := EntersMap(s1, t);
    LeadsOn(s, t, [Try(t, r.up, r.read, r.at)], s1, run, s');
    run := [Try(t, r.up, r.read, r.at)] + run;
    TableLast(s.calls, call);
  }

  lemma EntersMap(s: State, t: nat) returns (run: seq<Action>, s': State)
    requires Inside(s, t) && CallerOf(s, t).Granted?
    ensures var c, e := CallerOf(s, t), |s.entries|;
            && Leads(s, t, run, s') && s'.calls == s.calls
            && Returned(s', t, s.locks[c.key := e],
                        s.entries + [Entry(c.key, c.holder, c.ttl, c.won, false, Waiting)])
  {
    hide Leads;
    var c, e := CallerOf(s, t), |s.entries|;
    var entry := Entry(c.key, c.holder, c.ttl, c.won, false, Unstarted);
    Inserts(s, t);
    var s1 := s.(callers := s.callers[t := Inserted(e)], locks := s.locks[c.key := e], entries := s.entries + [entry]);
    Spawns(s1, t);
    var s2 := s1.(callers := s1.callers[t := Leaving], entries := s1.entries[e := s1.entries[e].(keeper := Waiting)]);
    LeadsOn(s, t, [Insert(t)], s1, [Spawn(t)], s2);
    Leaves(s2, t);
    s' := s2.(mu := Nobody, callers := s2.callers[t := Idle]);
    LeadsOn(s, t, [Insert(t)] + [Spawn(t)], s2, [Leave(t)], s');
    run := [Insert(t)] + [Spawn(t)] + [Leave(t)];
  }

  lemma TryRefused(s: State, t: nat, r: Reading) returns (run: seq<Action>, s': State)
    requires Inside(s, t) && CallerOf(s, t).Trying? && Follows(s, r)
    requires !FreeAt(TableAfter(s.calls), CallerOf(s, t).key, r)
    ensures Leads(s, t, run, s') && Returned(s', t, s.locks, s.entries)
    ensures TableAfter(s'.calls) == TableAfter(s.calls)
  {
    hide Leads, TableAfter;
    var c := CallerOf(s, t);
    var call := TryAcquire(c.key, c.holder, c.ttl, r.read, r.at);
    Tries(s, t, r);
    var s1 := s.(callers := s.callers[t := Leaving], calls := if r.up then s.calls + [call] else s.calls);
    Leaves(s1, t);
    s' := s1.(mu := Nobody, callers := s1.callers[t := Idle]);
    LeadsOn(s, t, [Try(t, r.up, r.read, r.at)], s1, [Leave(t)], s');
    run := [Try(t, r.up, r.read, r.at)] + [Leave(t)];
    TableLast(s.calls, call);
  }

  lemma SafeAtRest(actions: seq<Action>, s: State, t: nat, key: string)
    requires Reaches(actions, s) && s.mu.Nobody? && CallerOf(s, t).Idle?
    ensures AtRest(s, t)
    ensures key in s.locks ==> s.locks[key] < |s.entries| && !s.entries[s.locks[key]].stopped
  {
    hide Reaches;
    ManagerIsSafe(actions, s);
  }

  // Main result: in every reachable state with the mutex free, an Acquire that runs alone grants the lock if and only
  // if the holder of the key's entry here has lost its row, or there is no entry, and the key is free in the table.
  // Then the new entry and the row have the caller's key, holder and ttl; a lock that is still held here only gets
  // the caller's ttl, and a lost one is taken out of the map and its channel closed.
  lemma AcquireAlone(actions: seq<Action>, s: State, t: nat, key: string, holder: string, ttl: int,
                     refresh: Reading, attempt: Reading) returns (run: seq<Action>, s': State)
    requires Reaches(actions, s) && s.mu.Nobody? && CallerOf(s, t).Idle?
    requires Follows(s, refresh) && refresh.at <= attempt.at && attempt.read <= attempt.at
    ensures Leads(s, t, run, s') && Reaches(actions + run, s') && AtRest(s', t)
    ensures key in s.locks ==> s.locks[key] < |s.entries|
    ensures var table, table' := TableAfter(s.calls), TableAfter(s'.calls);
            if StillHeld(s, key, refresh.up) then
              && s'.locks == s.locks && s'.entries == s.entries
              && table' == table[key := Row(s.entries[s.locks[key]].holder, refresh.read + ttl)]
            else if FreeAt(table, key, attempt) then
              && s'.locks == s.locks[key := |s.entries|]
              && (exists won :: s'.entries == WithClosed(s, key) + [Entry(key, holder, ttl, won, false, Waiting)])
              && table' == table[key := Row(holder, attempt.read + ttl)]
            else
              s'.locks == s.locks - {key} && s'.entries == WithClosed(s, key) && table' == table
  {
    SafeAtRest(actions, s, t, key);
    hide Reaches, TableAfter, FreeAt, Leads, StillHeld;
    if StillHeld(s, key, refresh.up) {
      run, s' := AcquireOfHeldKey(s, t, key, holder, ttl, refresh);
    } else {
      run, s' := AcquireAttempts(s, t, key, holder, ttl, refresh, attempt);
    }
    LeadsReaches(actions, s, t, run, s');
  }

  lemma AcquireAttempts(s: State, t: nat, key: string, holder: string, ttl: int, refresh: Reading, attempt: Reading)
      returns (run: seq<Action>, s': State)
    requires AtRest(s, t) && Follows(s, refresh) && refresh.at <= attempt.at && attempt.read <= attempt.at
    requires key in s.locks ==> s.locks[key] < |s.entries| && !s.entries[s.locks[key]].stopped
    requires !StillHeld(s, key, refresh.up)
    ensures Leads(s, t, run, s') && AtRest(s', t)
    ensures var table, table' := TableAfter(s.calls), TableAfter(s'.calls);
            if FreeAt(table, key, attempt) then
              && s'.locks == s.locks[key := |s.entries|]
              && (exists won :: s'.entries == WithClosed(s, key) + [Entry(key, holder, ttl, won, false, Waiting)])
              && table' == table[key := Row(holder, attempt.read + ttl)]
            else
              s'.locks == s.locks - {key} && s'.entries == WithClosed(s, key) && table' == table
  {
    hide TableAfter, FreeAt, Leads, StillHeld;
    var s1, more;
    run, s1 := ReachesTry(s, t, key, holder, ttl, refresh);
    hide WithClosed;
    if FreeAt(TableAfter(s.calls), key, attempt) {
      more, s' := TryGrants(s1, t, attempt);
      assert (s.locks - {key})[key := |s.entries|] == s.locks[key := |s.entries|];
    } else {
      more, s' := TryRefused(s1, t, attempt);
    }
    LeadsOn(s, t, run, s1, more, s');
    run := run + more;
  }

  // Whatever the key's entry, the Acquire comes to its attempt.
  lemma ReachesTry(s: State, t: nat, key: string, holder: string, ttl: int, r: Reading)
      returns (run: seq<Action>, s': State)
    requires AtRest(s, t) && Follows(s, r) && !StillHeld(s, key, r.up)
    requires key in s.locks ==> s.locks[key] < |s.entries| && !s.entries[s.locks[key]].stopped
    ensures Leads(s, t, run, s')
    ensures AboutToTry(s', t, Trying(key, holder, ttl), s.locks - {key}, WithClosed(s, key))
    ensures |WithClosed(s, key)| == |s.entries|
    ensures TableAfter(s'.calls) == TableAfter(s.calls) && (s'.calls != [] ==> s'.calls[|s'.calls| - 1].at <= r.at)
  {
    hide Leads, TableAfter;
    if key in s.locks {
      run, s' := AcquireOfLostKey(s, t, key, holder, ttl, r);
    } else {
      run, s' := AcquireOfUnknownKey(s, t, key, holder, ttl, r);
      assert s.locks - {key} == s.locks;
    }
  }

  lemma ReleaseUnmaps(s: State, t: nat, key: string, holder: string) returns (run: seq<Action>)
    requires AtRest(s, t)
    requires key in s.locks ==> s.locks[key] < |s.entries| && !s.entries[s.locks[key]].stopped
    ensures Leads(s, t, run, s.(mu := ByCaller(t), locks := s.locks - {key}, entries := WithClosed(s, key),
                                callers := s.callers[t := Unlocking(key, holder)]))
  {
    hide Leads;
    run := [StartRelease(t, key, holder)];
    LeadsOne(s, t, StartRelease(t, key, holder));
    if key in s.locks {
      var s1 := s.(mu := ByCaller(t), locks := s.locks - {key},
                   callers := s.callers[t := Unmapped(key, holder, s.locks[key])]);
      assert s1 == Step(s, StartRelease(t, key, holder));
      ClosesReleased(s1, t);
      var s2 := s.(mu := ByCaller(t), locks := s.locks - {key}, entries := WithClosed(s, key),
                   callers := s1.callers[t := Unlocking(key, holder)]);
      LeadsOn(s, t, run, s1, [CloseReleased(t)], s2);
      run := run + [CloseReleased(t)];
      assert s2.callers == s.callers[t := Unlocking(key, holder)];
    }
  }

  lemma ClosesReleased(s: State, t: nat)
    requires Inside(s, t) && CallerOf(s, t).Unmapped?
    requires CallerOf(s, t).entry < |s.entries| && !s.entries[CallerOf(s, t).entry].stopped
    ensures var c := CallerOf(s, t);
            Leads(s, t, [CloseReleased(t)],
                  s.(callers := s.callers[t := Unlocking(c.key, c.holder)],
                     entries := s.entries[c.entry := s.entries[c.entry].(stopped := true)]))
  {
    LeadsOne(s, t, CloseReleased(t));
    hide Leads;
  }

  lemma ReleaseReturns(s: State, t: nat, r: Reading) returns (run: seq<Action>, s': State)
    requires Inside(s, t) && CallerOf(s, t).Unlocking? && Follows(s, r)
    ensures Leads(s, t, run, s') && Returned(s', t, s.locks, s.entries)
    ensures var c, table := CallerOf(s, t), TableAfter(s.calls);
            TableAfter(s'.calls) == if r.up && Holds(table, c.key, c.holder) then table - {c.key} else table
  {
    hide Leads, TableAfter;
    var call := Release(CallerOf(s, t).key, CallerOf(s, t).holder, r.at);
    var s1 := Step(s, Unlock(t));
    LeadsOne(s, t, Unlock(t));
    s' := Step(s1, CallRelease(t, r.up, r.at));
    LeadsOne(s1, t, CallRelease(t, r.up, r.at));
    LeadsOn(s, t, [Unlock(t)], s1, [CallRelease(t, r.up, r.at)], s');
    run := [Unlock(t)] + [CallRelease(t, r.up, r.at)];
    TableLast(s.calls, call);
  }

  // Main result: a Release that runs alone takes the key out of the map, whoever calls it, and closes its channel;
  // the row goes exactly if the caller is its holder and the database answers.
  lemma ReleaseAlone(actions: seq<Action>, s: State, t: nat, key: string, holder: string, r: Reading)
      returns (run: seq<Action>, s': State)
    requires Reaches(actions, s) && s.mu.Nobody? && CallerOf(s, t).Idle? && Follows(s, r)
    ensures Leads(s, t, run, s') && Reaches(actions + run, s') && AtRest(s', t)
    ensures key in s.locks ==> s.locks[key] < |s.entries|
    ensures s'.locks == s.locks - {key} && s'.entries == WithClosed(s, key)
    ensures TableAfter(s'.calls)
         == if r.up && Holds(TableAfter(s.calls), key, holder) then TableAfter(s.calls) - {key} else TableAfter(s.calls)
  {
    SafeAtRest(actions, s, t, key);
    hide Reaches, TableAfter, Leads, WithClosed;
    var s1 := s.(mu := ByCaller(t), locks := s.locks - {key}, entries := WithClosed(s, key),
                 callers := s.callers[t := Unlocking(key, holder)]);
    run := ReleaseUnmaps(s, t, key, holder);
    var more;
    more, s' := ReleaseReturns(s1, t, r);
    LeadsOn(s, t, run, s1, more, s');
    run := run + more;
    LeadsReaches(actions, s, t, run, s');
  }

  // A running goroutine can make its next step at any time, with any answer of the database, but for the mutex.
  lemma GoroutineCanStep(actions: seq<Action>, s: State, e: nat, r: Reading)
    requires Reaches(actions, s) && e < |s.entries|
    ensures match s.entries[e].keeper
            case Waiting => Enabled(s, Tick(e)) && (s.entries[e].stopped ==> Enabled(s, ObserveStop(e)))
            case Refreshing => Follows(s, r) ==> Enabled(s, KeepRefresh(e, r.up, r.read, r.at))
            case Lost => s.mu.Nobody? ==> Enabled(s, LockForCleanup(e))
            case Cleaning => Enabled(s, Cleanup(e))
            case _ => true
  {
    hide *;
    ManagerIsSafe(actions, s);
    if s.entries[e].keeper.Refreshing? {
      if Follows(s, r) {
        RefreshCanRun(s, e, r);
      }
    } else {
      KeeperCanStep(s, e);
    }
  }

  lemma RefreshCanRun(s: State, e: nat, r: Reading)
    requires !s.panicked && e < |s.entries| && s.entries[e].keeper.Refreshing? && Follows(s, r)
    ensures Enabled(s, KeepRefresh(e, r.up, r.read, r.at))
  {}

  lemma KeeperCanStep(s: State, e: nat)
    requires !s.panicked && e < |s.entries|
    ensures s.entries[e].keeper.Waiting? ==> Enabled(s, Tick(e))
    ensures s.entries[e].keeper.Waiting? && s.entries[e].stopped ==> Enabled(s, ObserveStop(e))
    ensures s.entries[e].keeper.Lost? && s.mu.Nobody? ==> Enabled(s, LockForCleanup(e))
    ensures s.entries[e].keeper.Cleaning? ==> Enabled(s, Cleanup(e))
  {
    hide Timely, CallOf;
  }

  // What one refresh of a goroutine does: it moves the expiry of its row, if it has the row, and changes nothing else
  // in the table.
  lemma RefreshMovesExpiry(s: State, e: nat, up: bool, read: int, at: int)
    requires Enabled(s, KeepRefresh(e, up, read, at))
    ensures var g, s' := s.entries[e], Step(s, KeepRefresh(e, up, read, at));
            && s'.locks == s.locks && s'.mu == s.mu && s'.callers == s.callers
            && s'.entries == s.entries[e := g.(keeper := if Renews(s, e, up) then Waiting else Lost)]
            && TableAfter(s'.calls)
               == if Renews(s, e, up) then TableAfter(s.calls)[g.key := Row(g.holder, read + g.ttl)]
                  else TableAfter(s.calls)
  {
    hide TableAfter;
    TableLast(s.calls, Refresh(s.entries[e].key, s.entries[e].holder, s.entries[e].ttl, read, at));
  }
}
