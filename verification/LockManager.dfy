/**
 One process's lock manager, pkg/cluster/lock.go, as a transition system: any number of callers
 inside Acquire and Release, one keep-alive goroutine per entry, and the other processes of the
 cluster, all interleaved.  A step ends wherever another thread could notice: at a backend call,
 a channel operation, the start of a goroutine, or taking and giving up the mutex.
 */
module LockManager {
  import opened LeaseTable

  // Where the keep-alive goroutine of an entry is.
  datatype Keeper = Unstarted | Waiting | Refreshing | Lost | Cleaning | Returned

  // `won` is the backend call that granted the lock.
  datatype Entry = Entry(key: string, holder: string, ttl: int, won: nat, stopped: bool, keeper: Keeper)

  // Where a caller is.
  datatype Caller =
    | Idle
    | Acquiring(key: string, holder: string, ttl: int)
    | Dropped(key: string, holder: string, ttl: int, old_: nat)
    | Trying(key: string, holder: string, ttl: int)
    | Granted(key: string, holder: string, ttl: int, won: nat)
    | Inserted(entry: nat)
    | Leaving
    | Unmapped(key: string, holder: string, entry: nat)
    | Unlocking(key: string, holder: string)
    | CallingBackend(key: string, holder: string)

  datatype Owner = Nobody | ByCaller(caller: nat) | ByKeeper(entry: nat)

  datatype State = State(
    mu: Owner,
    locks: map<string, nat>,
    entries: seq<Entry>,
    callers: map<nat, Caller>,
    calls: seq<Call>,
    panicked: bool)

  // `up` says whether the database answers, `read` and `at` are the clock readings of the call.
  datatype Action =
    | StartAcquire(t: nat, key: string, holder: string, ttl: int)
    | LookUp(t: nat, up: bool, read: int, at: int)
    | CloseOld(t: nat)
    | Try(t: nat, up: bool, read: int, at: int)
    | Insert(t: nat)
    | Spawn(t: nat)
    | Leave(t: nat)
    | StartRelease(t: nat, key: string, holder: string)
    | CloseReleased(t: nat)
    | Unlock(t: nat)
    | CallRelease(t: nat, up: bool, at: int)
    | ObserveStop(e: nat)
    | Tick(e: nat)
    | KeepRefresh(e: nat, up: bool, read: int, at: int)
    | LockForCleanup(e: nat)
    | Cleanup(e: nat)
    | OtherProcess(call: Call)

  const INIT := State(Nobody, map[], [], map[], [], false)

  function CallerOf(s: State, t: nat): Caller {
    if t in s.callers then s.callers[t] else Idle
  }

  function Goto(s: State, t: nat, c: Caller): State {
    s.(callers := s.callers[t := c])
  }

  function SetKeeper(s: State, e: nat, k: Keeper): State
    requires e < |s.entries|
  {
    s.(entries := s.entries[e := s.entries[e].(keeper := k)])
  }

  // close(entry.stopCh), which panics on a channel that is closed already.
  function Close(s: State, e: nat): State
    requires e < |s.entries|
  {
    if s.entries[e].stopped then s.(panicked := true)
    else s.(entries := s.entries[e := s.entries[e].(stopped := true)])
  }

  // The call can be made now: clocks do not run backwards.
  predicate Timely(s: State, c: Call) {
    && (s.calls != [] ==> s.calls[|s.calls| - 1].at <= c.at)
    && (!c.Release? ==> c.read <= c.at)
  }

  function Record(s: State, c: Call, up: bool): State {
    if up then s.(calls := s.calls + [c]) else s
  }

  predicate Answers(s: State, c: Call, up: bool) {
    up && Succeeds(TableAfter(s.calls), c)
  }

  // The backend call a caller or keeper is about to make.
  function CallOf(s: State, a: Action): Call
    requires Ready(s, a) && (a.LookUp? || a.Try? || a.CallRelease? || a.KeepRefresh? || a.OtherProcess?)
  {
    match a
    case LookUp(t, _, read, at) =>
      var c := CallerOf(s, t);
      Refresh(c.key, if c.key in s.locks then s.entries[s.locks[c.key]].holder else c.holder, c.ttl, read, at)
    case Try(t, _, read, at) =>
      var c := CallerOf(s, t);
      TryAcquire(c.key, c.holder, c.ttl, read, at)
    case CallRelease(t, _, at) => Release(CallerOf(s, t).key, CallerOf(s, t).holder, at)
    case KeepRefresh(e, _, read, at) => Refresh(s.entries[e].key, s.entries[e].holder, s.entries[e].ttl, read, at)
    case OtherProcess(call) => call
  }

  // The thread of `a` is at the point where `a` is its next step.
  predicate Ready(s: State, a: Action) {
    match a
    case StartAcquire(t, _, _, _) => CallerOf(s, t).Idle? && s.mu.Nobody?
    case LookUp(t, _, _, _) =>
      var c := CallerOf(s, t);
      c.Acquiring? && (c.key in s.locks ==> s.locks[c.key] < |s.entries|)
    case CloseOld(t) => CallerOf(s, t).Dropped? && CallerOf(s, t).old_ < |s.entries|
    case Try(t, _, _, _) => CallerOf(s, t).Trying?
    case Insert(t) => CallerOf(s, t).Granted?
    case Spawn(t) => CallerOf(s, t).Inserted? && CallerOf(s, t).entry < |s.entries|
    case Leave(t) => CallerOf(s, t).Leaving?
    case StartRelease(t, _, _) => CallerOf(s, t).Idle? && s.mu.Nobody?
    case CloseReleased(t) => CallerOf(s, t).Unmapped? && CallerOf(s, t).entry < |s.entries|
    case Unlock(t) => CallerOf(s, t).Unlocking?
    case CallRelease(t, _, _) => CallerOf(s, t).CallingBackend?
    case ObserveStop(e) => e < |s.entries| && s.entries[e].keeper.Waiting? && s.entries[e].stopped
    case Tick(e) => e < |s.entries| && s.entries[e].keeper.Waiting?
    case KeepRefresh(e, _, _, _) => e < |s.entries| && s.entries[e].keeper.Refreshing?
    case LockForCleanup(e) => e < |s.entries| && s.entries[e].keeper.Lost? && s.mu.Nobody?
    case Cleanup(e) => e < |s.entries| && s.entries[e].keeper.Cleaning?
    case OtherProcess(_) => true
  }

  predicate Enabled(s: State, a: Action) {
    && !s.panicked && Ready(s, a)
    && ((a.LookUp? && CallerOf(s, a.t).key in s.locks) || a.Try? || a.CallRelease? || a.KeepRefresh? || a.OtherProcess?
        ==> Timely(s, CallOf(s, a)))
  }

  function Step(s: State, a: Action): State
    requires Enabled(s, a)
  {
    match a
    case StartAcquire(t, key, holder, ttl) => Goto(s.(mu := ByCaller(t)), t, Acquiring(key, holder, ttl))
    case LookUp(t, up, _, _) =>
      var c := CallerOf(s, t);
      if c.key !in s.locks then Goto(s, t, Trying(c.key, c.holder, c.ttl))
      else
        var s' := Record(s, CallOf(s, a), up);
        if Answers(s, CallOf(s, a), up) then Goto(s', t, Leaving)
        else Goto(s'.(locks := s.locks - {c.key}), t, Dropped(c.key, c.holder, c.ttl, s.locks[c.key]))
    case CloseOld(t) =>
      var c := CallerOf(s, t);
      Goto(Close(s, c.old_), t, Trying(c.key, c.holder, c.ttl))
    case Try(t, up, _, _) =>
      var c := CallerOf(s, t);
      var s' := Record(s, CallOf(s, a), up);
      Goto(s', t, if Answers(s, CallOf(s, a), up) then Granted(c.key, c.holder, c.ttl, |s.calls|) else Leaving)
    case Insert(t) =>
      var c := CallerOf(s, t);
      var e := |s.entries|;
      Goto(s.(entries := s.entries + [Entry(c.key, c.holder, c.ttl, c.won, false, Unstarted)],
              locks := s.locks[c.key := e]), t, Inserted(e))
    case Spawn(t) => Goto(SetKeeper(s, CallerOf(s, t).entry, Waiting), t, Leaving)
    case Leave(t) => Goto(s.(mu := Nobody), t, Idle)
    case StartRelease(t, key, holder) =>
      var s' := s.(mu := ByCaller(t), locks := s.locks - {key});
      Goto(s', t, if key in s.locks then Unmapped(key, holder, s.locks[key]) else Unlocking(key, holder))
    case CloseReleased(t) =>
      var c := CallerOf(s, t);
      Goto(Close(s, c.entry), t, Unlocking(c.key, c.holder))
    case Unlock(t) => Goto(s.(mu := Nobody), t, CallingBackend(CallerOf(s, t).key, CallerOf(s, t).holder))
    case CallRelease(t, up, _) => Goto(Record(s, CallOf(s, a), up), t, Idle)
    case ObserveStop(e) => SetKeeper(s, e, Returned)
    case Tick(e) => SetKeeper(s, e, Refreshing)
    case KeepRefresh(e, up, _, _) =>
      SetKeeper(Record(s, CallOf(s, a), up), e, if Answers(s, CallOf(s, a), up) then Waiting else Lost)
    case LockForCleanup(e) => SetKeeper(s.(mu := ByKeeper(e)), e, Cleaning)
    case Cleanup(e) => SetKeeper(s.(mu := Nobody, locks := s.locks - {s.entries[e].key}), e, Returned)
    case OtherProcess(call) => s.(calls := s.calls + [call])
  }

  // ---------- The invariant ----------

  predicate InsideMutex(c: Caller) {
    !c.Idle? && !c.CallingBackend?
  }

  // The mutex is owned by the one thread that is inside it.
  ghost predicate MutexOk(s: State) {
    && (forall t <- s.callers :: InsideMutex(s.callers[t]) <==> s.mu == ByCaller(t))
    && (s.mu.ByCaller? ==> s.mu.caller in s.callers)
    && (s.mu.ByKeeper? ==> s.mu.entry < |s.entries|)
    && (forall e | 0 <= e < |s.entries| :: s.entries[e].keeper.Cleaning? <==> s.mu == ByKeeper(e))
  }

  // An entry of the map has an open channel and a goroutine that has not returned: it runs already,
  // or it is the one the owner of the mutex is about to start.
  ghost predicate MapOk(s: State) {
    && (forall key <- s.locks :: s.locks[key] < |s.entries| && s.entries[s.locks[key]].key == key)
    && (forall key <- s.locks ::
          var e := s.entries[s.locks[key]];
          !e.stopped && !e.keeper.Returned?
          && (e.keeper.Unstarted? ==> s.mu.ByCaller? && CallerOf(s, s.mu.caller) == Inserted(s.locks[key])))
  }

  // An entry the owner of the mutex has taken out of the map is still open.
  ghost predicate CallersOk(s: State) {
    forall t <- s.callers ::
      match s.callers[t]
      case Dropped(_, _, _, e) => e < |s.entries| && !s.entries[e].stopped && e !in s.locks.Values
      case Unmapped(_, _, e) => e < |s.entries| && !s.entries[e].stopped && e !in s.locks.Values
      case Inserted(e) => e < |s.entries| && s.entries[e].keeper.Unstarted?
      case Granted(key, holder, _, won) => won < |s.calls| && Wins(s.calls, won, key, holder)
      case _ => true
  }

  ghost predicate CallsOk(s: State) {
    && Clocked(s.calls)
    && forall e | 0 <= e < |s.entries| ::
         s.entries[e].won < |s.calls| && Wins(s.calls, s.entries[e].won, s.entries[e].key, s.entries[e].holder)
  }

  ghost predicate CoreInv(s: State) {
    !s.panicked && MutexOk(s) && MapOk(s) && CallersOk(s) && CallsOk(s)
  }

  // A key that Acquire is about to insert is not in the map.
  ghost predicate KeysOk(s: State) {
    forall t <- s.callers ::
      var c := s.callers[t];
      c.Dropped? || c.Trying? || c.Granted? ==> c.key !in s.locks
  }

  // A goroutine not yet started belongs to the entry that the owner of the mutex has just inserted.
  ghost predicate StartsOk(s: State) {
    forall e {:trigger s.entries[e]} | 0 <= e < |s.entries| && s.entries[e].keeper.Unstarted? ::
      && s.entries[e].key in s.locks && s.locks[s.entries[e].key] == e
      && s.mu.ByCaller? && CallerOf(s, s.mu.caller) == Inserted(e)
  }

  ghost predicate Inv(s: State) {
    CoreInv(s) && KeysOk(s) && StartsOk(s)
  }

  lemma MutexSteps(s: State, a: Action)
    requires CoreInv(s) && Enabled(s, a) && (a.StartAcquire? || a.Leave? || a.Unlock? || a.LockForCleanup?)
    ensures CoreInv(Step(s, a))
  {
    hide Clocked, Wins;
  }

  lemma MapSteps(s: State, a: Action)
    requires CoreInv(s) && Enabled(s, a) && (a.StartRelease? || a.Cleanup?)
    ensures CoreInv(Step(s, a))
  {
    hide Clocked, Wins;
  }

  lemma CloseSteps(s: State, a: Action)
    requires CoreInv(s) && Enabled(s, a) && (a.CloseOld? || a.CloseReleased?)
    ensures CoreInv(Step(s, a))
  {
    hide Clocked, Wins;
  }

  lemma InsertStep(s: State, a: Action)
    requires CoreInv(s) && Enabled(s, a) && a.Insert?
    ensures CoreInv(Step(s, a))
  {
    hide Clocked, Wins;
  }

  lemma SpawnStep(s: State, a: Action)
    requires CoreInv(s) && Enabled(s, a) && a.Spawn?
    ensures CoreInv(Step(s, a))
  {
    hide Clocked, Wins;
  }

  lemma KeeperSteps(s: State, a: Action)
    requires CoreInv(s) && Enabled(s, a) && (a.ObserveStop? || a.Tick?)
    ensures CoreInv(Step(s, a))
  {
    hide Clocked, Wins;
  }

  lemma WinsExtends(calls: seq<Call>, c: Call, i: nat, key: string, holder: string)
    requires i < |calls|
    ensures Wins(calls + [c], i, key, holder) == Wins(calls, i, key, holder)
  {
    assert (calls + [c])[..i] == calls[..i];
  }

  lemma RecordKeepsInv(s: State, c: Call, up: bool)
    requires CoreInv(s) && Timely(s, c)
    ensures CoreInv(Record(s, c, up))
    ensures Answers(s, c, up) ==> up
    ensures c.TryAcquire? && Answers(s, c, up) ==> Wins(s.calls + [c], |s.calls|, c.key, c.holder)
  {
    hide Wins;
    forall i, key, holder | 0 <= i < |s.calls|
      ensures Wins(s.calls + [c], i, key, holder) == Wins(s.calls, i, key, holder)
    {
      WinsExtends(s.calls, c, i, key, holder);
    }
    assert c.TryAcquire? && Answers(s, c, up) ==> Wins(s.calls + [c], |s.calls|, c.key, c.holder) by {
      NewestWins(s.calls, c);
    }
  }

  lemma NewestWins(calls: seq<Call>, c: Call)
    ensures Wins(calls + [c], |calls|, c.key, c.holder) <==> c.TryAcquire? && Succeeds(TableAfter(calls), c)
  {
    assert (calls + [c])[..|calls|] == calls;
  }

  // Moving on inside the mutex, to a point that holds nothing but perhaps a granted call.
  lemma GotoKeepsInv(s: State, t: nat, c: Caller)
    requires CoreInv(s) && s.mu == ByCaller(t) && !CallerOf(s, t).Inserted?
    requires c.Trying? || c.Leaving? || (c.Granted? && c.won < |s.calls| && Wins(s.calls, c.won, c.key, c.holder))
    ensures CoreInv(Goto(s, t, c))
  {
    hide Clocked, Wins;
  }

  lemma TryStep(s: State, a: Action)
    requires CoreInv(s) && Enabled(s, a) && a.Try?
    ensures CoreInv(Step(s, a))
  {
    var c := CallerOf(s, a.t);
    assert CallOf(s, a) == TryAcquire(c.key, c.holder, c.ttl, a.read, a.at);
    hide Clocked, Wins, Answers, CallOf, Timely;
    RecordKeepsInv(s, CallOf(s, a), a.up);
    hide MapOk, CallersOk, CallsOk;
    GotoKeepsInv(Record(s, CallOf(s, a), a.up), a.t,
                 if Answers(s, CallOf(s, a), a.up) then Granted(c.key, c.holder, c.ttl, |s.calls|) else Leaving);
  }

  lemma CallReleaseStep(s: State, a: Action)
    requires CoreInv(s) && Enabled(s, a) && a.CallRelease?
    ensures CoreInv(Step(s, a))
  {
    hide Clocked, Wins, Answers, CallOf, Timely;
    RecordKeepsInv(s, CallOf(s, a), a.up);
  }

  lemma OtherProcessStep(s: State, a: Action)
    requires CoreInv(s) && Enabled(s, a) && a.OtherProcess?
    ensures CoreInv(Step(s, a))
  {
    assert CallOf(s, a) == a.call;
    hide CoreInv, CallOf, Timely;
    RecordKeepsInv(s, a.call, true);
  }

  lemma KeepRefreshStep(s: State, a: Action)
    requires CoreInv(s) && Enabled(s, a) && a.KeepRefresh?
    ensures CoreInv(Step(s, a))
  {
    hide Clocked, Wins, Answers, CallOf, Timely;
    RecordKeepsInv(s, CallOf(s, a), a.up);
  }

  lemma LookUpStep(s: State, a: Action)
    requires CoreInv(s) && Enabled(s, a) && a.LookUp?
    ensures CoreInv(Step(s, a))
  {
    hide Clocked, Wins, Answers, CallOf, Timely;
    if CallerOf(s, a.t).key in s.locks {
      RecordKeepsInv(s, CallOf(s, a), a.up);
    }
  }

  lemma StepKeepsCore(s: State, a: Action)
    requires CoreInv(s) && Enabled(s, a)
    ensures CoreInv(Step(s, a))
  {
    hide CoreInv, Step, Enabled;
    match a
    case StartAcquire(_, _, _, _) => MutexSteps(s, a);
    case Leave(_) => MutexSteps(s, a);
    case Unlock(_) => MutexSteps(s, a);
    case LockForCleanup(_) => MutexSteps(s, a);
    case StartRelease(_, _, _) => MapSteps(s, a);
    case Cleanup(_) => MapSteps(s, a);
    case CloseOld(_) => CloseSteps(s, a);
    case CloseReleased(_) => CloseSteps(s, a);
    case Insert(_) => InsertStep(s, a);
    case Spawn(_) => SpawnStep(s, a);
    case ObserveStop(_) => KeeperSteps(s, a);
    case Tick(_) => KeeperSteps(s, a);
    case LookUp(_, _, _, _) => LookUpStep(s, a);
    case Try(_, _, _, _) => TryStep(s, a);
    case CallRelease(_, _, _) => CallReleaseStep(s, a);
    case OtherProcess(_) => OtherProcessStep(s, a);
    case KeepRefresh(_, _, _, _) => KeepRefreshStep(s, a);
  }

  lemma StepKeepsKeysOk(s: State, a: Action)
    requires MutexOk(s) && KeysOk(s) && Enabled(s, a)
    ensures KeysOk(Step(s, a))
  {
    hide Answers, CallOf, Timely;
  }

  // Not a step of a caller of this process.
  predicate ByAKeeper(a: Action) {
    a.ObserveStop? || a.Tick? || a.KeepRefresh? || a.LockForCleanup? || a.Cleanup? || a.OtherProcess?
  }

  lemma EntryKeepsStartsOk(s: State, a: Action)
    requires MutexOk(s) && CallersOk(s) && StartsOk(s) && Enabled(s, a)
    requires a.Insert? || a.Spawn?
    ensures StartsOk(Step(s, a))
  {
    hide Answers, CallOf, Timely, Wins;
  }

  lemma KeeperKeepsStartsOk(s: State, a: Action)
    requires MutexOk(s) && CallersOk(s) && StartsOk(s) && Enabled(s, a)
    requires ByAKeeper(a)
    ensures StartsOk(Step(s, a))
  {
    hide Answers, CallOf, Timely, Wins;
  }

  lemma CallerKeepsStartsOk(s: State, a: Action)
    requires MutexOk(s) && CallersOk(s) && StartsOk(s) && Enabled(s, a)
    requires !ByAKeeper(a) && !a.Insert? && !a.Spawn?
    ensures StartsOk(Step(s, a))
  {
    hide Answers, CallOf, Timely, Wins;
  }

  lemma StepKeepsStartsOk(s: State, a: Action)
    requires MutexOk(s) && CallersOk(s) && StartsOk(s) && Enabled(s, a)
    ensures StartsOk(Step(s, a))
  {
    hide MutexOk, CallersOk, StartsOk, Step, Enabled;
    if a.Insert? || a.Spawn? {
      EntryKeepsStartsOk(s, a);
    } else if ByAKeeper(a) {
      KeeperKeepsStartsOk(s, a);
    } else {
      CallerKeepsStartsOk(s, a);
    }
  }

  lemma StepKeepsInv(s: State, a: Action)
    requires Inv(s) && Enabled(s, a)
    ensures Inv(Step(s, a))
  {
    StepKeepsCore(s, a);
    StepKeepsKeysOk(s, a);
    StepKeepsStartsOk(s, a);
    hide Step, Enabled, MutexOk, MapOk, CallersOk, CallsOk, KeysOk, StartsOk;
  }

  // ---------- Runs ----------

  // The state after a run, if every action of it is enabled in turn.
  ghost predicate Reaches(actions: seq<Action>, s: State) {
    if actions == [] then s == INIT
    else
      var n := |actions| - 1;
      exists pre: State :: Reaches(actions[..n], pre) && Enabled(pre, actions[n]) && s == Step(pre, actions[n])
  }

  lemma {:induction false} ReachableInv(actions: seq<Action>, s: State)
    requires Reaches(actions, s)
    ensures Inv(s)
  {
    if actions == [] {
    } else {
      var n := |actions| - 1;
      var pre: State :| Reaches(actions[..n], pre) && Enabled(pre, actions[n]) && s == Step(pre, actions[n]);
      ReachableInv(actions[..n], pre);
      StepKeepsInv(pre, actions[n]);
    }
  }

  // Main result: under every interleaving, whoever holds the mutex, no stop channel is closed twice and
  // every entry of the map has an open channel and a goroutine that has not returned.  When nobody is
  // inside the mutex, that goroutine is running.
  lemma ManagerIsSafe(actions: seq<Action>, s: State)
    requires Reaches(actions, s)
    ensures !s.panicked
    ensures forall key <- s.locks ::
              s.locks[key] < |s.entries| &&
              var e := s.entries[s.locks[key]];
              e.key == key && !e.stopped && !e.keeper.Returned?
    ensures s.mu.Nobody? ==> forall key <- s.locks ::
              var k := s.entries[s.locks[key]].keeper;
              k.Waiting? || k.Refreshing? || k.Lost?
  {
    ReachableInv(actions, s);
  }

  // Main result, manager and table together: every lock this process was ever granted was won in
  // the table, and no other holder, here or in another process, wins its key afterwards unless the
  // holder has released it or the last expiry it wrote had passed.
  lemma GrantsExcludeOthers(actions: seq<Action>, s: State, e: nat, j: nat, other: string)
    requires Reaches(actions, s) && e < |s.entries|
    ensures var g := s.entries[e];
            g.won < |s.calls| && Wins(s.calls, g.won, g.key, g.holder) &&
            (g.won < j < |s.calls| && other != g.holder && Wins(s.calls, j, g.key, other) ==>
              (exists r :: g.won < r < j && Releases(s.calls, r, g.key, g.holder))
              || (LastExpiry(s.calls[..j], g.key, g.holder).Some?
                  && LastExpiry(s.calls[..j], g.key, g.holder).value < s.calls[j].at))
  {
    ReachableInv(actions, s);
    var g := s.entries[e];
    if g.won < j < |s.calls| && other != g.holder && Wins(s.calls, j, g.key, other) {
      LeaseExclusion(s.calls, g.won, j, g.key, g.holder, other);
    }
  }

  // Entry g has got refreshes up to the last call, each in answer to its ticker.
  ghost predicate KeptByTicker(calls: seq<Call>, g: Entry, start: int) {
    && g.won < |calls| && 3 <= g.ttl
    && FollowsTicker(calls, g.won, g.key, g.holder, g.ttl, start)
    && FirstInTime(calls, g.won, g.key, g.holder)
    && Is(calls[|calls| - 1], g.key, g.holder)
  }

  // Main result, goroutine and table together: in every state that satisfies the invariant, and so in every
  // reachable one, a goroutine that answered its ticker has kept the lease it was granted, up to its latest
  // refresh, against every caller and process.
  lemma KeepAliveKeepsLease(s: State, e: nat, j: nat, start: int)
    requires Inv(s) && e < |s.entries| && KeptByTicker(s.calls, s.entries[e], start)
    requires s.entries[e].won < j < |s.calls|
    ensures Holds(TableAfter(s.calls[..j]), s.entries[e].key, s.entries[e].holder)
    ensures s.calls[j].TryAcquire? && s.calls[j].key == s.entries[e].key ==> !SucceedsAt(s.calls, j)
  {
    hide FollowsTicker, FirstInTime, TableAfter, SucceedsAt, Is, Clocked, Holds, MutexOk, MapOk, CallersOk;
    hide Wins, KeysOk, StartsOk;
    var g := s.entries[e];
    TickerKeepsLease(s.calls, g.won, j, g.key, g.holder, g.ttl, start);
  }

  // An Acquire of a key that is held here refreshes the row with its own ttl: until the next refresh another
  // holder wins the key exactly after that ttl, whatever ttl the entry has.
  lemma SecondAcquireSetsExpiry(s: State, t: nat, read: int, at: int, other: string, when: int)
    requires Enabled(s, LookUp(t, true, read, at)) && CallerOf(s, t).key in s.locks
    requires Answers(s, CallOf(s, LookUp(t, true, read, at)), true) && at <= when
    ensures var c, s' := CallerOf(s, t), Step(s, LookUp(t, true, read, at));
            var rival := TryAcquire(c.key, other, 0, when, when);
            && s'.locks == s.locks && s'.entries == s.entries
            && Enabled(s', OtherProcess(rival))
            && (Succeeds(TableAfter(s'.calls), rival) <==> when > read + c.ttl)
  {
    var c := CallOf(s, LookUp(t, true, read, at));
    assert (s.calls + [c])[..|s.calls|] == s.calls;
  }

  // ---------- Orphans ----------

  // The map holds entry e, under its key.
  predicate Mapped(s: State, e: nat) {
    e < |s.entries| && s.entries[e].key in s.locks && s.locks[s.entries[e].key] == e
  }

  // The caller has taken entry e out of the map and is about to close its channel.
  predicate Unmaps(c: Caller, e: nat) {
    (c.Dropped? && c.old_ == e) || (c.Unmapped? && c.entry == e)
  }

  // A goroutine that has not returned, for an entry with an open channel that neither the map nor any
  // caller knows.
  ghost predicate Orphaned(s: State, e: nat) {
    && e < |s.entries| && !s.entries[e].stopped
    && !s.entries[e].keeper.Unstarted? && !s.entries[e].keeper.Returned?
    && !Mapped(s, e)
    && forall t <- s.callers :: !Unmaps(s.callers[t], e)
  }

  // The clean-up of one goroutine takes the entry of another out of the map.
  predicate DropsAnother(s: State, a: Action) {
    a.Cleanup? && a.e < |s.entries| && s.entries[a.e].key in s.locks && s.locks[s.entries[a.e].key] != a.e
  }

  predicate Drops(s: State, a: Action, e: nat) {
    DropsAnother(s, a) && s.locks[s.entries[a.e].key] == e
  }

  // The other callers still unmap what they did.
  lemma OthersUnmap(s: State, a: Action, e: nat)
    requires Enabled(s, a) && !ByAKeeper(a)
    ensures var s' := Step(s, a);
            && a.t in s'.callers
            && ((exists t <- s'.callers :: t != a.t && Unmaps(s'.callers[t], e))
                <==> exists t <- s.callers :: t != a.t && Unmaps(s.callers[t], e))
  {
    var s' := Step(s, a);
    assert a.t in s'.callers;
    assert s'.callers.Keys == s.callers.Keys + {a.t};
    assert forall t <- s.callers :: t != a.t ==> s'.callers[t] == s.callers[t];
    hide Step, Enabled, Unmaps;
  }

  lemma PassingOrphansNone(s: State, a: Action, e: nat)
    requires MutexOk(s) && MapOk(s) && CallersOk(s) && StartsOk(s) && KeysOk(s) && Enabled(s, a)
    requires a.StartAcquire? || a.Try? || a.Leave? || a.Unlock? || a.CallRelease?
    ensures Orphaned(Step(s, a), e) <==> Orphaned(s, e)
  {
    hide Answers, CallOf, Timely, Wins;
    OthersUnmap(s, a, e);
  }

  lemma UnmappingOrphansNone(s: State, a: Action, e: nat)
    requires MutexOk(s) && MapOk(s) && CallersOk(s) && StartsOk(s) && KeysOk(s) && Enabled(s, a)
    requires a.LookUp? || a.StartRelease?
    ensures Orphaned(Step(s, a), e) <==> Orphaned(s, e)
  {
    hide Answers, CallOf, Timely, Wins;
    OthersUnmap(s, a, e);
  }

  lemma ClosingOrphansNone(s: State, a: Action, e: nat)
    requires MutexOk(s) && MapOk(s) && CallersOk(s) && StartsOk(s) && KeysOk(s) && Enabled(s, a)
    requires a.CloseOld? || a.CloseReleased?
    ensures Orphaned(Step(s, a), e) <==> Orphaned(s, e)
  {
    hide Answers, CallOf, Timely, Wins;
    OthersUnmap(s, a, e);
  }

  lemma StartingOrphansNone(s: State, a: Action, e: nat)
    requires MutexOk(s) && MapOk(s) && CallersOk(s) && StartsOk(s) && KeysOk(s) && Enabled(s, a)
    requires a.Insert? || a.Spawn?
    ensures Orphaned(Step(s, a), e) <==> Orphaned(s, e)
  {
    hide Answers, CallOf, Timely, Wins;
    OthersUnmap(s, a, e);
  }

  lemma CleanupOrphans(s: State, a: Action, e: nat)
    requires MutexOk(s) && MapOk(s) && CallersOk(s) && StartsOk(s) && Enabled(s, a) && a.Cleanup?
    ensures Orphaned(Step(s, a), e) <==> (Orphaned(s, e) && a != Cleanup(e)) || Drops(s, a, e)
  {
    hide Answers, CallOf, Timely, Wins;
  }

  lemma KeeperOrphansNone(s: State, a: Action, e: nat)
    requires CallersOk(s) && Enabled(s, a) && ByAKeeper(a) && !a.Cleanup?
    ensures Orphaned(Step(s, a), e) <==> Orphaned(s, e)
  {
    hide Answers, CallOf, Timely, Wins;
  }

  lemma OrphansAfter(s: State, a: Action, e: nat)
    requires Inv(s) && Enabled(s, a)
    ensures Orphaned(Step(s, a), e) <==> (Orphaned(s, e) && a != Cleanup(e)) || Drops(s, a, e)
  {
    hide Orphaned, Step, Enabled, MutexOk, MapOk, CallersOk, CallsOk, KeysOk, StartsOk;
    if a.Cleanup? {
      CleanupOrphans(s, a, e);
    } else if ByAKeeper(a) {
      KeeperOrphansNone(s, a, e);
    } else if a.LookUp? || a.StartRelease? {
      UnmappingOrphansNone(s, a, e);
    } else if a.CloseOld? || a.CloseReleased? {
      ClosingOrphansNone(s, a, e);
    } else if a.Insert? || a.Spawn? {
      StartingOrphansNone(s, a, e);
    } else {
      PassingOrphansNone(s, a, e);
    }
  }

  // Main result: a step orphans an entry exactly when it is the clean-up of another goroutine of the same
  // key, and the map holds that entry.
  lemma OrphansIff(s: State, a: Action, e: nat)
    requires Inv(s) && Enabled(s, a) && !Orphaned(s, e)
    ensures Orphaned(Step(s, a), e) <==>
            a.Cleanup? && a.e != e && Mapped(s, e) && s.entries[a.e].key == s.entries[e].key
  {
    OrphansAfter(s, a, e);
    hide Orphaned, Step, MutexOk, CallersOk, CallsOk, KeysOk, StartsOk;
  }

  // Nobody can stop an orphan: its channel stays open, and it ends only by losing its lease and cleaning up.
  lemma OrphanStays(s: State, a: Action, e: nat)
    requires Inv(s) && Enabled(s, a) && Orphaned(s, e)
    ensures Orphaned(Step(s, a), e) <==> a != Cleanup(e)
    ensures e < |Step(s, a).entries| && !Step(s, a).entries[e].stopped
  {
    OrphansAfter(s, a, e);
    hide MutexOk, CallersOk, CallsOk, KeysOk, StartsOk;
  }

  // ---------- Orphans over whole runs ----------

  // The states a run goes through.
  ghost predicate Trace(states: seq<State>, actions: seq<Action>) {
    && |states| == |actions| + 1 && states[0] == INIT
    && forall i | 0 <= i < |actions| :: Enabled(states[i], actions[i]) && states[i + 1] == Step(states[i], actions[i])
  }

  lemma {:induction false} TraceInv(states: seq<State>, actions: seq<Action>, i: nat)
    requires Trace(states, actions) && i < |states|
    ensures Inv(states[i]) && Reaches(actions[..i], states[i])
  {
    hide Inv, Step, Enabled;
    if i > 0 {
      TraceInv(states, actions, i - 1);
      StepKeepsInv(states[i - 1], actions[i - 1]);
      assert actions[..i][..i - 1] == actions[..i - 1];
    } else {
      EmptyInv();
    }
  }

  lemma EmptyInv()
    ensures Inv(INIT)
  {}

  lemma {:induction false} OrphanHasOrigin(states: seq<State>, actions: seq<Action>, i: nat, e: nat)
    requires Trace(states, actions) && i < |states| && Orphaned(states[i], e)
    ensures exists n | 0 <= n < i :: DropsAnother(states[n], actions[n])
  {
    hide Inv, Step, Enabled;
    assert i > 0;
    TraceInv(states, actions, i - 1);
    OrphansAfter(states[i - 1], actions[i - 1], e);
    hide Orphaned, DropsAnother;
    if Orphaned(states[i - 1], e) {
      OrphanHasOrigin(states, actions, i - 1, e);
    }
  }

  // Main result, over whole runs: some entry is orphaned at some time if and only if some clean-up finds
  // another entry than its own under its key.  A clean-up that looked would orphan nothing.
  lemma RunOrphansIff(states: seq<State>, actions: seq<Action>)
    requires Trace(states, actions)
    ensures (exists i, e | 0 <= i < |states| :: Orphaned(states[i], e))
       <==> exists n | 0 <= n < |actions| :: DropsAnother(states[n], actions[n])
  {
    if i, e :| 0 <= i < |states| && Orphaned(states[i], e) {
      OrphanHasOrigin(states, actions, i, e);
    }
    if n :| 0 <= n < |actions| && DropsAnother(states[n], actions[n]) {
      var s, a := states[n], actions[n];
      TraceInv(states, actions, n);
      OrphansAfter(s, a, s.locks[s.entries[a.e].key]);
      assert Orphaned(states[n + 1], s.locks[s.entries[a.e].key]);
    }
  }

  // No key is inserted while an older goroutine of the key has not returned.
  ghost predicate NoOverlap(s: State, a: Action) {
    a.Insert? && CallerOf(s, a.t).Granted? ==>
      forall e | 0 <= e < |s.entries| && s.entries[e].key == CallerOf(s, a.t).key :: s.entries[e].keeper.Returned?
  }

  // At most one goroutine of a key has not returned.
  ghost predicate OneRunning(s: State) {
    forall d, e | 0 <= d < |s.entries| && 0 <= e < |s.entries| && d != e && s.entries[d].key == s.entries[e].key ::
      s.entries[d].keeper.Returned? || s.entries[e].keeper.Returned?
  }

  lemma InsertKeepsOneRunning(s: State, a: Action)
    requires Enabled(s, a) && a.Insert? && NoOverlap(s, a) && OneRunning(s)
    ensures OneRunning(Step(s, a))
  {}

  // Every other step leaves the keys, and revives no goroutine that has returned.
  lemma NoRevival(s: State, a: Action)
    requires CallersOk(s) && Enabled(s, a) && !a.Insert?
    ensures |Step(s, a).entries| == |s.entries|
    ensures forall e | 0 <= e < |s.entries| ::
              && Step(s, a).entries[e].key == s.entries[e].key
              && (s.entries[e].keeper.Returned? ==> Step(s, a).entries[e].keeper.Returned?)
  {
    hide Answers, CallOf, Timely, Wins;
  }

  lemma StepKeepsOneRunning(s: State, a: Action)
    requires CallersOk(s) && Enabled(s, a) && NoOverlap(s, a) && OneRunning(s)
    ensures OneRunning(Step(s, a))
  {
    if a.Insert? {
      InsertKeepsOneRunning(s, a);
    } else {
      NoRevival(s, a);
      hide Step, Enabled, CallersOk, NoOverlap;
    }
  }

  lemma {:induction false} TraceOneRunning(states: seq<State>, actions: seq<Action>, i: nat)
    requires Trace(states, actions) && i < |states|
    requires forall n | 0 <= n < |actions| :: NoOverlap(states[n], actions[n])
    ensures OneRunning(states[i])
  {
    if i > 0 {
      hide Step, Enabled, NoOverlap, OneRunning;
      TraceOneRunning(states, actions, i - 1);
      TraceInv(states, actions, i - 1);
      StepKeepsOneRunning(states[i - 1], actions[i - 1]);
    }
  }

  lemma OneRunningDropsNone(s: State, a: Action)
    requires Inv(s) && OneRunning(s) && Enabled(s, a)
    ensures !DropsAnother(s, a)
  {
    hide MutexOk, CallersOk, CallsOk, KeysOk, StartsOk, CallOf, Timely;
  }

  // So nothing is orphaned in a run that waits for the older goroutines of a key to return.
  lemma NoOverlapNoOrphan(states: seq<State>, actions: seq<Action>, i: nat, e: nat)
    requires Trace(states, actions) && i < |states|
    requires forall n | 0 <= n < |actions| :: NoOverlap(states[n], actions[n])
    ensures !Orphaned(states[i], e)
  {
    forall n | 0 <= n < |actions| ensures !DropsAnother(states[n], actions[n]) {
      TraceInv(states, actions, n);
      TraceOneRunning(states, actions, n);
      OneRunningDropsNone(states[n], actions[n]);
    }
    hide Orphaned, DropsAnother, NoOverlap, Step, Enabled;
    RunOrphansIff(states, actions);
  }

  // The clock reading of the latest backend call.
  function Now(s: State): int {
    if s.calls == [] then 0 else s.calls[|s.calls| - 1].at
  }

  // What goroutine d does next when its refresh is to fail; at most three steps lead to its clean-up.
  function NextOf(s: State, d: nat): Action
    requires d < |s.entries|
  {
    match s.entries[d].keeper
    case Waiting => Tick(d)
    case Refreshing => KeepRefresh(d, false, Now(s), Now(s))
    case Lost => LockForCleanup(d)
    case _ => Cleanup(d)
  }

  predicate IsStepOf(a: Action, d: nat) {
    (a.Tick? || a.KeepRefresh? || a.LockForCleanup? || a.Cleanup?) && a.e == d
  }

  function StepsLeft(k: Keeper): nat {
    match k case Waiting => 4 case Refreshing => 3 case Lost => 2 case Cleaning => 1 case _ => 0
  }

  // Goroutine d is alive although the map holds another entry e of its key, and nothing is in its way.
  ghost predicate Overlaps(s: State, d: nat, e: nat) {
    && d < |s.entries| && d != e && Mapped(s, e) && s.entries[d].key == s.entries[e].key
    && !s.entries[d].keeper.Returned? && (s.mu.Nobody? || s.mu == ByKeeper(d))
  }

  lemma OverlapGoesOn(s: State, d: nat, e: nat)
    requires Inv(s) && Overlaps(s, d, e)
    ensures Enabled(s, NextOf(s, d)) && IsStepOf(NextOf(s, d), d)
    ensures s.entries[d].keeper.Cleaning? ==> Drops(s, NextOf(s, d), e)
    ensures !s.entries[d].keeper.Cleaning? ==>
              var s' := Step(s, NextOf(s, d));
              Overlaps(s', d, e) && StepsLeft(s'.entries[d].keeper) < StepsLeft(s.entries[d].keeper)
  {
    hide CallsOk, CallersOk, KeysOk;
  }

  // Main result, the converse of NoOverlapNoOrphan: from every reachable state with a free mutex in which an
  // older goroutine of a key in the map has not returned, its steps alone can orphan the entry of the key.
  lemma {:induction false} OverlapCanOrphan(actions: seq<Action>, s: State, d: nat, e: nat)
      returns (more: seq<Action>, s': State)
    requires Reaches(actions, s) && Overlaps(s, d, e)
    ensures Reaches(actions + more, s') && Orphaned(s', e)
    ensures forall a <- more :: IsStepOf(a, d)
    decreases StepsLeft(s.entries[d].keeper)
  {
    ReachableInv(actions, s);
    OverlapGoesOn(s, d, e);
    var a := NextOf(s, d);
    Extend(actions, s, a);
    if s.entries[d].keeper.Cleaning? {
      OrphansAfter(s, a, e);
      more, s' := [a], Step(s, a);
    } else {
      hide Reaches, Inv, Orphaned, Step, Enabled, Overlaps;
      more, s' := OverlapCanOrphan(actions + [a], Step(s, a), d, e);
      Regroup(actions, a, more);
      more := [a] + more;
    }
  }

  lemma Regroup(actions: seq<Action>, a: Action, more: seq<Action>)
    ensures (actions + [a]) + more == actions + ([a] + more)
  {}

  // ---------- A punctual goroutine ----------

  // The backend call that a step makes and that the database answers.
  function CallMade(s: State, a: Action): seq<Call>
    requires Enabled(s, a)
  {
    match a
    case LookUp(t, up, _, _) => if CallerOf(s, t).key in s.locks && up then [CallOf(s, a)] else []
    case Try(_, up, _, _) => if up then [CallOf(s, a)] else []
    case CallRelease(_, up, _) => if up then [CallOf(s, a)] else []
    case KeepRefresh(_, up, _, _) => if up then [CallOf(s, a)] else []
    case OtherProcess(call) => [call]
    case _ => []
  }

  lemma StepCalls(s: State, a: Action)
    requires Enabled(s, a)
    ensures Step(s, a).calls == s.calls + CallMade(s, a)
  {
    hide Answers, CallOf, Timely;
  }

  // An entry has the ttl of the call that granted it.
  predicate GrantedTtl(calls: seq<Call>, won: nat, ttl: int) {
    won < |calls| && calls[won].TryAcquire? && calls[won].ttl == ttl
  }

  ghost predicate TtlsOk(s: State) {
    && (forall e | 0 <= e < |s.entries| :: GrantedTtl(s.calls, s.entries[e].won, s.entries[e].ttl))
    && (forall t <- s.callers :: s.callers[t].Granted? ==> GrantedTtl(s.calls, s.callers[t].won, s.callers[t].ttl))
  }

  lemma TtlsWith(s: State, more: seq<Call>)
    requires TtlsOk(s)
    ensures TtlsOk(s.(calls := s.calls + more))
  {}

  // The caller that wins is granted its own ttl; nobody else's grant or entry changes.
  lemma GrantsAfter(s: State, a: Action)
    requires Enabled(s, a)
    ensures var s' := Step(s, a);
            && (forall e | 0 <= e < |s'.entries| ::
                  if e < |s.entries| then s'.entries[e].won == s.entries[e].won && s'.entries[e].ttl == s.entries[e].ttl
                  else a.Insert? && a.t in s.callers && s.callers[a.t].Granted?
                       && s'.entries[e].won == s.callers[a.t].won && s'.entries[e].ttl == s.callers[a.t].ttl)
            && (forall t <- s'.callers | s'.callers[t].Granted? ::
                  (t in s.callers && s'.callers[t] == s.callers[t])
                  || (a.Try? && a.up && GrantedTtl(s.calls + [CallOf(s, a)], s'.callers[t].won, s'.callers[t].ttl)))
  {
    hide Timely;
  }

  lemma StepKeepsTtlsOk(s: State, a: Action)
    requires TtlsOk(s) && Enabled(s, a)
    ensures TtlsOk(Step(s, a))
  {
    GrantsAfter(s, a);
    StepCalls(s, a);
    TtlsWith(s, CallMade(s, a));
    assert a.Try? && a.up ==> CallMade(s, a) == [CallOf(s, a)];
    hide Step, Enabled, CallMade, GrantedTtl;
  }

  // What identifies an entry never changes.
  lemma StepKeepsEntry(s: State, a: Action, e: nat)
    requires Enabled(s, a) && e < |s.entries|
    ensures var g, g' := s.entries[e], Step(s, a).entries;
            e < |g'| && g'[e].key == g.key && g'[e].holder == g.holder && g'[e].ttl == g.ttl && g'[e].won == g.won
  {
    hide Answers, CallOf, Timely;
  }

  // The step makes no call under the holder of g, unless it is a refresh of goroutine e in time for its tick.
  ghost predicate PunctualStep(s: State, a: Action, g: Entry, e: nat, start: int) {
    && Enabled(s, a) && g.won < |s.calls| && s.calls[g.won].TryAcquire?
    && forall c <- CallMade(s, a) ::
         && Punctual(s.calls, c, g.won, g.key, g.holder, g.ttl, start)
         && (Is(c, g.key, g.holder) ==> a.KeepRefresh? && a.e == e)
  }

  // From just after the grant of g on, every step has been punctual.
  ghost predicate PunctualSince(
      states: seq<State>, actions: seq<Action>, n0: nat, n: nat, g: Entry, e: nat, start: int) {
    && Trace(states, actions) && n0 <= n <= |actions|
    && |states[n0].calls| == g.won + 1 && states[n0].calls[g.won].TryAcquire? && states[n0].calls[g.won].read <= start
    && forall m | n0 <= m < n :: PunctualStep(states[m], actions[m], g, e, start)
  }

  lemma {:induction false} TraceFollows(
      states: seq<State>, actions: seq<Action>, n0: nat, n: nat, g: Entry, e: nat, start: int)
    requires PunctualSince(states, actions, n0, n, g, e, start) && states[n0].calls[g.won].ttl == g.ttl
    ensures FollowsTicker(states[n].calls, g.won, g.key, g.holder, g.ttl, start)
    ensures FirstInTime(states[n].calls, g.won, g.key, g.holder)
    ensures g.won < |states[n].calls|
  {
    hide Step, Punctual;
    if n > n0 {
      var s, a := states[n - 1], actions[n - 1];
      TraceFollows(states, actions, n0, n - 1, g, e, start);
      StepCalls(s, a);
      CallsAtMostOne(s, a);
      assert PunctualStep(s, a, g, e, start);
      hide FollowsTicker, FirstInTime, CallMade, Enabled;
      if CallMade(s, a) != [] {
        var c := CallMade(s, a)[0];
        assert c in CallMade(s, a);
        PunctualFollows(s.calls, c, g.won, g.key, g.holder, g.ttl, start);
      } else {
        assert s.calls + [] == s.calls;
      }
    }
  }

  lemma CallsAtMostOne(s: State, a: Action)
    requires Enabled(s, a)
    ensures CallMade(s, a) == [] || CallMade(s, a) == [CallMade(s, a)[0]]
  {
    hide CallOf;
  }

  lemma {:induction false} TraceCallsGrow(states: seq<State>, actions: seq<Action>, m: nat, n: nat)
    requires Trace(states, actions) && m <= n < |states|
    ensures states[m].calls <= states[n].calls
  {
    hide Step, Enabled;
    if m < n {
      TraceCallsGrow(states, actions, m, n - 1);
      StepCalls(states[n - 1], actions[n - 1]);
    }
  }

  lemma {:induction false} TraceTtls(states: seq<State>, actions: seq<Action>, n: nat)
    requires Trace(states, actions) && n < |states|
    ensures TtlsOk(states[n])
  {
    if n > 0 {
      hide Step, Enabled, TtlsOk;
      TraceTtls(states, actions, n - 1);
      StepKeepsTtlsOk(states[n - 1], actions[n - 1]);
    }
  }

  // The log `calls` is that of a punctual goroutine up to its latest refresh.
  ghost predicate Kept(calls: seq<Call>, g: Entry, start: int) {
    Clocked(calls) && KeptByTicker(calls, g, start) && Wins(calls, g.won, g.key, g.holder)
  }

  lemma RefreshWon(calls: seq<Call>, before: seq<Call>, c: Call, g: Entry, start: int)
    requires Kept(calls, g, start) && calls == before + [c] && g.won < |before| && Is(c, g.key, g.holder)
    ensures Succeeds(TableAfter(before), c)
  {
    assert calls[..|before|] == before;
    hide FollowsTicker, FirstInTime, TableAfter, Clocked, Wins, Succeeds;
    TickerKeepsLease(calls, g.won, |before|, g.key, g.holder, g.ttl, start);
  }

  lemma RivalLoses(calls: seq<Call>, before: seq<Call>, c: Call, g: Entry, start: int)
    requires Kept(calls, g, start) && before + [c] <= calls && g.won < |before| && c.TryAcquire? && c.key == g.key
    ensures !Succeeds(TableAfter(before), c)
  {
    assert calls[..|before|] == before && calls[|before|] == c;
    hide FollowsTicker, FirstInTime, TableAfter, Clocked, Wins, Succeeds;
    TickerKeepsLease(calls, g.won, |before|, g.key, g.holder, g.ttl, start);
  }

  lemma KeptAtRefresh(states: seq<State>, actions: seq<Action>, n0: nat, n: nat, e: nat, start: int)
    requires Trace(states, actions) && n0 <= n < |actions| && e < |states[n].entries|
    requires actions[n].KeepRefresh? && actions[n].e == e && actions[n].up
    requires var g := states[n].entries[e];
             3 <= g.ttl && PunctualSince(states, actions, n0, n + 1, g, e, start)
    ensures Kept(states[n + 1].calls, states[n].entries[e], start)
    ensures states[n + 1].calls == states[n].calls + [CallOf(states[n], actions[n])]
  {
    var s, a, g := states[n], actions[n], states[n].entries[e];
    TraceTtls(states, actions, n);
    TraceCallsGrow(states, actions, n0, n);
    TraceFollows(states, actions, n0, n + 1, g, e, start);
    TraceInv(states, actions, n + 1);
    StepCalls(s, a);
    StepKeepsEntry(s, a, e);
    hide FollowsTicker, FirstInTime, Clocked, Wins, PunctualStep, Step, MutexOk, MapOk, CallersOk, KeysOk, StartsOk;
  }

  // Main result, over the goroutine's own steps: if since the grant every call under its holder is one of its
  // refreshes, in time for its tick, then its next such refresh succeeds, so it goes on waiting, and no
  // Acquire of the key by another holder, here or in another process, has won in between.
  lemma PunctualGoroutineKeepsLease(states: seq<State>, actions: seq<Action>, n0: nat, n: nat, e: nat, start: int)
    requires Trace(states, actions) && n0 <= n < |actions|
    requires actions[n].KeepRefresh? && actions[n].e == e && actions[n].up && e < |states[n].entries|
    requires var g := states[n].entries[e];
             3 <= g.ttl && PunctualSince(states, actions, n0, n + 1, g, e, start)
    ensures Answers(states[n], CallOf(states[n], actions[n]), true)
    ensures e < |states[n + 1].entries| && states[n + 1].entries[e].keeper.Waiting?
    ensures forall m | n0 <= m < n ::
              forall c <- CallMade(states[m], actions[m]) ::
                c.TryAcquire? && c.key == states[n].entries[e].key ==> !Answers(states[m], c, true)
  {
    var s, a, g, calls := states[n], actions[n], states[n].entries[e], states[n + 1].calls;
    KeptAtRefresh(states, actions, n0, n, e, start);
    TraceCallsGrow(states, actions, n0, n);
    RefreshWon(calls, s.calls, CallOf(s, a), g, start);
    forall m | n0 <= m < n
      ensures forall c <- CallMade(states[m], actions[m]) ::
                c.TryAcquire? && c.key == g.key ==> !Answers(states[m], c, true)
    {
      TraceCallsGrow(states, actions, n0, m);
      TraceCallsGrow(states, actions, m + 1, n + 1);
      StepCalls(states[m], actions[m]);
      CallsAtMostOne(states[m], actions[m]);
      hide Kept, CallMade, Step, Enabled;
      forall c <- CallMade(states[m], actions[m]) | c.TryAcquire? && c.key == g.key
        ensures !Answers(states[m], c, true)
      {
        RivalLoses(calls, states[m].calls, c, g, start);
      }
    }
  }

  lemma Extend(actions: seq<Action>, s: State, a: Action)
    requires Reaches(actions, s) && Enabled(s, a)
    ensures Reaches(actions + [a], Step(s, a))
  {
    assert (actions + [a])[..|actions|] == actions;
  }

  // Acquire of a key that is free here and in the table, run without interference: up to the
  // granted call ...
  lemma FreshGrant(actions: seq<Action>, s: State, key: string, holder: string, ttl: int, now: int)
      returns (actions': seq<Action>)
    requires Reaches(actions, s) && s.mu.Nobody? && !s.panicked && CallerOf(s, 0).Idle? && key !in s.locks
    requires Timely(s, TryAcquire(key, holder, ttl, now, now)) && key !in TableAfter(s.calls)
    ensures Reaches(actions', s.(mu := ByCaller(0), calls := s.calls + [TryAcquire(key, holder, ttl, now, now)],
                                 callers := s.callers[0 := Granted(key, holder, ttl, |s.calls|)]))
  {
    hide TableAfter, Reaches;
    var s1 := s.(mu := ByCaller(0), callers := s.callers[0 := Acquiring(key, holder, ttl)]);
    ExtendTo(actions, s, StartAcquire(0, key, holder, ttl), s1);
    actions' := FreshTry(actions + [StartAcquire(0, key, holder, ttl)], s1, key, holder, ttl, now);
    var c := Granted(key, holder, ttl, |s.calls|);
    assert s1.callers[0 := c] == s.callers[0 := c];
  }

  lemma FreshTry(actions: seq<Action>, s: State, key: string, holder: string, ttl: int, now: int)
      returns (actions': seq<Action>)
    requires Reaches(actions, s) && !s.panicked && CallerOf(s, 0) == Acquiring(key, holder, ttl) && key !in s.locks
    requires Timely(s, TryAcquire(key, holder, ttl, now, now)) && key !in TableAfter(s.calls)
    ensures Reaches(actions', s.(calls := s.calls + [TryAcquire(key, holder, ttl, now, now)],
                                 callers := s.callers[0 := Granted(key, holder, ttl, |s.calls|)]))
  {
    hide TableAfter, Reaches;
    var s1 := s.(callers := s.callers[0 := Trying(key, holder, ttl)]);
    ExtendTo(actions, s, LookUp(0, true, now, now), s1);
    var s2 := s.(calls := s.calls + [TryAcquire(key, holder, ttl, now, now)],
                 callers := s.callers[0 := Granted(key, holder, ttl, |s.calls|)]);
    ExtendTo(actions + [LookUp(0, true, now, now)], s1, Try(0, true, now, now), s2);
    actions' := actions + [LookUp(0, true, now, now)] + [Try(0, true, now, now)];
  }

  // ... and from there to the return.
  lemma FreshEntry(actions: seq<Action>, s: State, key: string, holder: string, ttl: int, won: nat)
      returns (actions': seq<Action>)
    requires Reaches(actions, s) && s.mu == ByCaller(0) && !s.panicked
    requires CallerOf(s, 0) == Granted(key, holder, ttl, won)
    ensures Reaches(actions', s.(mu := Nobody, callers := s.callers[0 := Idle], locks := s.locks[key := |s.entries|],
                                 entries := s.entries + [Entry(key, holder, ttl, won, false, Waiting)]))
  {
    hide Reaches;
    var e := |s.entries|;
    var s1 := s.(callers := s.callers[0 := Inserted(e)], locks := s.locks[key := e],
                 entries := s.entries + [Entry(key, holder, ttl, won, false, Unstarted)]);
    var s2 := s1.(callers := s.callers[0 := Leaving],
                  entries := s.entries + [Entry(key, holder, ttl, won, false, Waiting)]);
    ExtendTo(actions, s, Insert(0), s1);
    ExtendTo(actions + [Insert(0)], s1, Spawn(0), s2);
    actions' := actions + [Insert(0)] + [Spawn(0)];
    var s3 := s.(mu := Nobody, callers := s.callers[0 := Idle], locks := s.locks[key := e], entries := s2.entries);
    ExtendTo(actions', s2, Leave(0), s3);
    actions' := actions' + [Leave(0)];
  }

  lemma ExtendTo(actions: seq<Action>, s: State, a: Action, s': State)
    requires Reaches(actions, s) && Enabled(s, a)
    requires var t := Step(s, a);
             t.mu == s'.mu && t.locks == s'.locks && t.entries == s'.entries && t.callers == s'.callers
             && t.calls == s'.calls && t.panicked == s'.panicked
    ensures Reaches(actions + [a], s')
  {
    Extend(actions, s, a);
  }

  // Acquire, then a keep-alive whose refresh fails ...
  lemma FailedRefresh() returns (actions: seq<Action>)
    ensures Reaches(actions, State(Nobody, map["k" := 0], [Entry("k", "a", 30, 0, false, Lost)], map[0 := Idle],
                                   [TryAcquire("k", "a", 30, 0, 0)], false))
  {
    actions := FirstEntry();
    hide Reaches, TableAfter;
    var c, e := TryAcquire("k", "a", 30, 0, 0), Entry("k", "a", 30, 0, false, Waiting);
    var s1 := State(Nobody, map["k" := 0], [e], map[0 := Idle], [c], false);
    var s2 := s1.(entries := [e.(keeper := Refreshing)]);
    ExtendTo(actions, s1, Tick(0), s2);
    var s3 := s1.(entries := [e.(keeper := Lost)]);
    ExtendTo(actions + [Tick(0)], s2, KeepRefresh(0, false, 10, 10), s3);
    actions := actions + [Tick(0)] + [KeepRefresh(0, false, 10, 10)];
  }

  lemma FirstEntry() returns (actions: seq<Action>)
    ensures Reaches(actions, State(Nobody, map["k" := 0], [Entry("k", "a", 30, 0, false, Waiting)], map[0 := Idle],
                                   [TryAcquire("k", "a", 30, 0, 0)], false))
  {
    EmptyRun();
    hide Reaches, TableAfter;
    actions := FreshGrant([], INIT, "k", "a", 30, 0);
    var c := TryAcquire("k", "a", 30, 0, 0);
    var s0 := State(ByCaller(0), map[], [], map[0 := Granted("k", "a", 30, 0)], [c], false);
    assert INIT.calls + [c] == s0.calls;
    actions := FreshEntry(actions, s0, "k", "a", 30, 0);
    var e := Entry("k", "a", 30, 0, false, Waiting);
    assert [] + [e] == [e] && s0.callers[0 := Idle] == map[0 := Idle];
  }

  // ... then Release of the key, before the keep-alive cleans up.
  lemma FailedRefreshThenRelease() returns (actions: seq<Action>)
    ensures Reaches(actions, State(Nobody, map[], [Entry("k", "a", 30, 0, true, Lost)], map[0 := Idle],
                                   [TryAcquire("k", "a", 30, 0, 0), Release("k", "a", 11)], false))
  {
    actions := FailedRefresh();
    hide Reaches, TableAfter;
    var c, e := TryAcquire("k", "a", 30, 0, 0), Entry("k", "a", 30, 0, false, Lost);
    var s := State(Nobody, map["k" := 0], [e], map[0 := Idle], [c], false);
    actions := ReleaseOf(actions, s, 11);
    assert s.entries[0 := s.entries[0].(stopped := true)] == [e.(stopped := true)];
    assert s.calls + [Release("k", "a", 11)] == [c, Release("k", "a", 11)];
    assert s.callers[0 := Idle] == map[0 := Idle] && s.locks - {"k"} == map[];
  }

  // Release of a key that is in the map, run without interference: up to the closed channel ...
  lemma ReleaseCloses(actions: seq<Action>, s: State) returns (actions': seq<Action>)
    requires Reaches(actions, s) && s.mu.Nobody? && !s.panicked && CallerOf(s, 0).Idle?
    requires "k" in s.locks && s.locks["k"] < |s.entries| && !s.entries[s.locks["k"]].stopped
    ensures var e := s.locks["k"];
            Reaches(actions', s.(mu := ByCaller(0), locks := s.locks - {"k"},
                                 entries := s.entries[e := s.entries[e].(stopped := true)],
                                 callers := s.callers[0 := Unlocking("k", "a")]))
  {
    hide Reaches;
    var e := s.locks["k"];
    var s1 := s.(mu := ByCaller(0), locks := s.locks - {"k"}, callers := s.callers[0 := Unmapped("k", "a", e)]);
    ExtendTo(actions, s, StartRelease(0, "k", "a"), s1);
    var s2 := s1.(entries := s.entries[e := s.entries[e].(stopped := true)],
                  callers := s.callers[0 := Unlocking("k", "a")]);
    ExtendTo(actions + [StartRelease(0, "k", "a")], s1, CloseReleased(0), s2);
    actions' := actions + [StartRelease(0, "k", "a")] + [CloseReleased(0)];
  }

  // ... and from there to the return.
  lemma ReleaseReturns(actions: seq<Action>, s: State, now: int) returns (actions': seq<Action>)
    requires Reaches(actions, s) && s.mu == ByCaller(0) && !s.panicked && CallerOf(s, 0) == Unlocking("k", "a")
    requires Timely(s, Release("k", "a", now))
    ensures Reaches(actions', s.(mu := Nobody, callers := s.callers[0 := Idle],
                                 calls := s.calls + [Release("k", "a", now)]))
  {
    hide Reaches;
    var s1 := s.(mu := Nobody, callers := s.callers[0 := CallingBackend("k", "a")]);
    ExtendTo(actions, s, Unlock(0), s1);
    var s2 := s1.(callers := s.callers[0 := Idle], calls := s.calls + [Release("k", "a", now)]);
    ExtendTo(actions + [Unlock(0)], s1, CallRelease(0, true, now), s2);
    actions' := actions + [Unlock(0)] + [CallRelease(0, true, now)];
  }

  lemma ReleaseOf(actions: seq<Action>, s: State, now: int) returns (actions': seq<Action>)
    requires Reaches(actions, s) && s.mu.Nobody? && !s.panicked && CallerOf(s, 0).Idle?
    requires "k" in s.locks && s.locks["k"] < |s.entries| && !s.entries[s.locks["k"]].stopped
    requires Timely(s, Release("k", "a", now))
    ensures var e := s.locks["k"];
            Reaches(actions', s.(locks := s.locks - {"k"}, entries := s.entries[e := s.entries[e].(stopped := true)],
                                 callers := s.callers[0 := Idle], calls := s.calls + [Release("k", "a", now)]))
  {
    hide Reaches;
    var e := s.locks["k"];
    actions' := ReleaseCloses(actions, s);
    var s2 := s.(mu := ByCaller(0), locks := s.locks - {"k"}, entries := s.entries[e := s.entries[e].(stopped := true)],
                 callers := s.callers[0 := Unlocking("k", "a")]);
    actions' := ReleaseReturns(actions', s2, now);
    assert s2.callers[0 := Idle] == s.callers[0 := Idle];
    assert s.(mu := Nobody) == s;
  }

  lemma EmptyRun()
    ensures TableAfter([]) == map[] && Reaches([], INIT)
  {}

  lemma TableAfterRun()
    ensures var calls := [TryAcquire("k", "a", 30, 0, 0), Release("k", "a", 11)];
            && TableAfter(calls) == map[]
            && TableAfter(calls + [TryAcquire("k", "a", 30, 12, 12)]) == map["k" := Row("a", 42)]
  {
    var calls := [TryAcquire("k", "a", 30, 0, 0), Release("k", "a", 11)];
    assert calls[..1] == [calls[0]] && calls[..1][..0] == [];
    assert TableAfter(calls[..1]) == map["k" := Row("a", 30)];
    assert (calls + [TryAcquire("k", "a", 30, 12, 12)])[..2] == calls;
  }

  // The clean-up of an old goroutine can drop the entry of a newer Acquire.  The process then no
  // longer knows the lock it holds, and (OrphanStays) can never stop the goroutine that keeps it.
  lemma StaleCleanupOrphans() returns (actions: seq<Action>, s: State)
    ensures Reaches(actions, s) && "k" !in s.locks && Holds(TableAfter(s.calls), "k", "a")
    ensures Orphaned(s, 1) && s.entries[1].keeper.Waiting?
  {
    TableAfterRun();
    actions := SecondEntry();
    hide Reaches, TableAfter;
    var e, e' := Entry("k", "a", 30, 0, true, Lost), Entry("k", "a", 30, 2, false, Waiting);
    var calls := [TryAcquire("k", "a", 30, 0, 0), Release("k", "a", 11)] + [TryAcquire("k", "a", 30, 12, 12)];
    var s2 := State(Nobody, map["k" := 1], [e, e'], map[0 := Idle], calls, false);
    var s3 := s2.(mu := ByKeeper(0), entries := [e.(keeper := Cleaning), e']);
    ExtendTo(actions, s2, LockForCleanup(0), s3);
    s := s2.(locks := map[], entries := [e.(keeper := Returned), e']);
    ExtendTo(actions + [LockForCleanup(0)], s3, Cleanup(0), s);
    actions := actions + [LockForCleanup(0)] + [Cleanup(0)];
  }

  // The key is acquired anew while the goroutine of the first entry has not cleaned up yet.
  lemma SecondEntry() returns (actions: seq<Action>)
    ensures var calls := [TryAcquire("k", "a", 30, 0, 0), Release("k", "a", 11)] + [TryAcquire("k", "a", 30, 12, 12)];
            Reaches(actions, State(Nobody, map["k" := 1],
                                   [Entry("k", "a", 30, 0, true, Lost), Entry("k", "a", 30, 2, false, Waiting)],
                                   map[0 := Idle], calls, false))
  {
    hide Reaches, TableAfter;
    TableAfterRun();
    actions := FailedRefreshThenRelease();
    var e, e' := Entry("k", "a", 30, 0, true, Lost), Entry("k", "a", 30, 2, false, Waiting);
    var calls := [TryAcquire("k", "a", 30, 0, 0), Release("k", "a", 11)];
    var s0 := State(Nobody, map[], [e], map[0 := Idle], calls, false);
    actions := FreshGrant(actions, s0, "k", "a", 30, 12);
    var s1 := State(ByCaller(0), map[], [e], map[0 := Granted("k", "a", 30, 2)],
                    calls + [TryAcquire("k", "a", 30, 12, 12)], false);
    assert s0.callers[0 := Granted("k", "a", 30, 2)] == s1.callers;
    actions := FreshEntry(actions, s1, "k", "a", 30, 2);
    assert [e] + [e'] == [e, e'] && s1.callers[0 := Idle] == map[0 := Idle];
  }
}
