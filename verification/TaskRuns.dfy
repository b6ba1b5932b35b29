/**
 The transcode jobs of pkg/tasks/tasks.go as values: what each call of the manager does to the active jobs and
 the history, and what holds after every sequence of calls.
 */
module TaskRuns {
  import opened Options

  datatype Status = Queued | Running | Completed | Failed | Cancelled

  datatype Request = Request(itemId: string, itemTitle: string, audioIndex: int, profiles: seq<string>,
                             outputDir: string)

  // `cancelled` says whether the cancel function of the job's context has been called.
  datatype Record = Record(id: string, key: string, request: Request, status: Status, createdAt: int,
                           startedAt: Option<int>, completedAt: Option<int>, err: string, diskBytes: int,
                           cancelled: bool)

  datatype State = State(active: map<string, Record>, history: seq<Record>)

  datatype Event =
    | Submit(id: string, key: string, request: Request, now: int)
    | SetRunning(id: string, now: int)
    | Complete(key: string, diskBytes: int, err: Option<string>, now: int)
    | Cancel(id: string, now: int)

  // ---------- One call ----------

  function NewRecord(id: string, key: string, request: Request, now: int): Record {
    Record(id, key, request, Queued, now, None, None, "", 0, false)
  }

  function Started(r: Record, now: int): Record {
    r.(status := Running, startedAt := Some(now))
  }

  function CompletedRecord(r: Record, diskBytes: int, err: Option<string>, now: int): Record {
    var done := r.(completedAt := Some(now), diskBytes := diskBytes, cancelled := true);
    match err
    case None => done.(status := Completed)
    case Some(e) => if r.status != Cancelled then done.(status := Failed, err := e) else done
  }

  function CancelledRecord(r: Record, now: int): Record {
    r.(status := Cancelled, completedAt := Some(now), cancelled := true)
  }

  // The key of the active job with this id.
  ghost function KeyOf(active: map<string, Record>, id: string): (r: Option<string>)
    ensures r.Some? ==> r.value in active && active[r.value].id == id
    ensures r.None? ==> forall k <- active :: active[k].id != id
  {
    if exists k :: k in active && active[k].id == id then
      var k :| k in active && active[k].id == id;
      Some(k)
    else None
  }

  // The key and the final record of the job that a call ends.
  ghost function Ending(active: map<string, Record>, e: Event): (r: Option<(string, Record)>)
    ensures r.Some? ==> r.value.0 in active
  {
    match e
    case Complete(key, diskBytes, err, now) =>
      if key in active then Some((key, CompletedRecord(active[key], diskBytes, err, now))) else None
    case Cancel(id, now) =>
      (match KeyOf(active, id) case Some(k) => Some((k, CancelledRecord(active[k], now))) case None => None)
    case _ => None
  }

  function Pushed<T>(x: T, history: seq<T>, maxHist: nat): (r: seq<T>) {
    var h := [x] + history;
    if |h| > maxHist then h[..maxHist] else h
  }

  ghost function Next(s: State, maxHist: nat, e: Event): State {
    match e
    case Submit(id, key, request, now) =>
      if key in s.active then s else s.(active := s.active[key := NewRecord(id, key, request, now)])
    case SetRunning(id, now) =>
      (match KeyOf(s.active, id) case Some(k) => s.(active := s.active[k := Started(s.active[k], now)]) case None => s)
    case _ =>
      match Ending(s.active, e)
      case Some((k, r)) => State(s.active - {k}, Pushed(r, s.history, maxHist))
      case None => s
  }

  // ---------- The cases of a call ----------

  ghost predicate DistinctIds(active: map<string, Record>) {
    forall k, l | k in active && l in active && active[k].id == active[l].id :: k == l
  }

  predicate NoId(active: map<string, Record>, id: string) {
    forall k <- active :: active[k].id != id
  }

  lemma HasId(active: map<string, Record>, k: string)
    requires k in active
    ensures !NoId(active, active[k].id)
  {}

  lemma KeyOfUnique(active: map<string, Record>, k: string)
    requires DistinctIds(active) && k in active
    ensures KeyOf(active, active[k].id) == Some(k)
  {}

  lemma NextStarts(s: State, maxHist: nat, k: string, id: string, now: int)
    requires DistinctIds(s.active) && k in s.active && s.active[k].id == id
    ensures Next(s, maxHist, SetRunning(id, now)) == s.(active := s.active[k := Started(s.active[k], now)])
  {
    KeyOfUnique(s.active, k);
    hide KeyOf, DistinctIds, Started;
  }

  lemma NextCancels(s: State, maxHist: nat, k: string, id: string, now: int)
    requires DistinctIds(s.active) && k in s.active && s.active[k].id == id
    ensures Next(s, maxHist, Cancel(id, now))
         == State(s.active - {k}, Pushed(CancelledRecord(s.active[k], now), s.history, maxHist))
  {
    KeyOfUnique(s.active, k);
    hide KeyOf, DistinctIds, Pushed, CancelledRecord;
  }

  lemma NextMissing(s: State, maxHist: nat, id: string, now: int)
    requires NoId(s.active, id)
    ensures Next(s, maxHist, SetRunning(id, now)) == s && Next(s, maxHist, Cancel(id, now)) == s
  {
    assert KeyOf(s.active, id).None?;
  }

  lemma NextSubmit(s: State, maxHist: nat, id: string, key: string, request: Request, now: int)
    ensures Next(s, maxHist, Submit(id, key, request, now))
         == if key in s.active then s else s.(active := s.active[key := NewRecord(id, key, request, now)])
  {}

  lemma NextComplete(s: State, maxHist: nat, key: string, diskBytes: int, err: Option<string>, now: int)
    ensures Next(s, maxHist, Complete(key, diskBytes, err, now))
         == if key !in s.active then s
            else State(s.active - {key},
                       Pushed(CompletedRecord(s.active[key], diskBytes, err, now), s.history, maxHist))
  {
    hide Pushed, CompletedRecord;
  }

  // ---------- Runs ----------

  ghost function After(events: seq<Event>, maxHist: nat): State {
    if events == [] then State(map[], [])
    else Next(After(events[..|events| - 1], maxHist), maxHist, events[|events| - 1])
  }

  // Every job that has ended, the last one first.
  ghost function Log(events: seq<Event>, maxHist: nat): seq<Record> {
    if events == [] then []
    else
      var pre := events[..|events| - 1];
      match Ending(After(pre, maxHist).active, events[|events| - 1])
      case Some((_, r)) => [r] + Log(pre, maxHist)
      case None => Log(pre, maxHist)
  }

  // The ids of the jobs that were created.
  ghost function Accepted(events: seq<Event>, maxHist: nat): set<string> {
    if events == [] then {}
    else
      var pre, e := events[..|events| - 1], events[|events| - 1];
      Accepted(pre, maxHist) + if e.Submit? && e.key !in After(pre, maxHist).active then {e.id} else {}
  }

  // uuid.New never gives an id twice.
  ghost predicate FreshIds(events: seq<Event>) {
    forall i, j | 0 <= i < j < |events| && events[i].Submit? && events[j].Submit? :: events[i].id != events[j].id
  }

  predicate Live(r: Record) {
    r.status in {Queued, Running} && !r.cancelled && r.completedAt.None?
  }

  predicate Ended(r: Record) {
    r.status in {Completed, Failed, Cancelled} && r.cancelled && r.completedAt.Some?
  }

  ghost predicate ActiveInv(active: map<string, Record>) {
    && (forall k <- active :: active[k].key == k && Live(active[k]))
    && DistinctIds(active)
  }

  ghost predicate LogInv(log: seq<Record>) {
    && (forall r <- log :: Ended(r))
    && (forall i, j | 0 <= i < j < |log| :: log[i].id != log[j].id)
  }

  ghost function ActiveIds(active: map<string, Record>): set<string> {
    set k | k in active :: active[k].id
  }

  ghost function LogIds(log: seq<Record>): set<string> {
    set r | r in log :: r.id
  }

  // Every job created is active or ended, and not both.
  ghost predicate Accounted(accepted: set<string>, active: map<string, Record>, log: seq<Record>) {
    ActiveIds(active) !! LogIds(log) && accepted == ActiveIds(active) + LogIds(log)
  }

  function Newest<T>(log: seq<T>, maxHist: nat): seq<T> {
    if |log| > maxHist then log[..maxHist] else log
  }

  // ---------- Every call keeps it ----------

  lemma EndingKeepsActive(active: map<string, Record>, e: Event)
    requires ActiveInv(active) && Ending(active, e).Some?
    ensures var (k, r) := Ending(active, e).value;
            Ended(r) && r.id == active[k].id && r.key == k && ActiveInv(active - {k})
  {}

  // The test for a cancelled status in Complete never fails: no active job has that status.
  lemma CompleteDecides(active: map<string, Record>, key: string, diskBytes: int, err: Option<string>, now: int)
    requires ActiveInv(active) && key in active
    ensures var r := Ending(active, Complete(key, diskBytes, err, now)).value.1;
            && r.status == (if err.Some? then Failed else Completed)
            && r.err == (if err.Some? then err.value else active[key].err)
            && r == active[key].(status := r.status, err := r.err, completedAt := Some(now), diskBytes := diskBytes,
                                 cancelled := true)
  {}

  // A cancelled job keeps what it had, and is not started by being cancelled.
  lemma CancelDecides(active: map<string, Record>, k: string, now: int)
    requires ActiveInv(active) && k in active
    ensures var r, e := active[k], Ending(active, Cancel(active[k].id, now));
            e == Some((k, r.(status := Cancelled, completedAt := Some(now), cancelled := true)))
  {
    KeyOfUnique(active, k);
    hide KeyOf;
  }

  lemma IdsWithout(active: map<string, Record>, k: string)
    requires ActiveInv(active) && k in active
    ensures ActiveIds(active - {k}) == ActiveIds(active) - {active[k].id}
  {
    hide Live;
    var rest := active - {k};
    forall id ensures id in ActiveIds(rest) <==> id in ActiveIds(active) && id != active[k].id {
      if id in ActiveIds(active) && id != active[k].id {
        var l :| l in active && active[l].id == id;
        assert l in rest && rest[l].id == id;
      }
    }
  }

  lemma IdsPushed(r: Record, log: seq<Record>)
    ensures LogIds([r] + log) == {r.id} + LogIds(log)
  {
    assert ([r] + log)[0] == r && ([r] + log)[1..] == log;
  }

  lemma LogPushed(r: Record, log: seq<Record>)
    requires LogInv(log) && Ended(r) && r.id !in LogIds(log)
    ensures LogInv([r] + log)
  {
    hide Ended;
    forall i | 0 <= i < |log| ensures log[i].id != r.id {
      assert log[i].id in LogIds(log);
    }
  }

  lemma NewestPushed<T>(x: T, log: seq<T>, maxHist: nat)
    requires maxHist > 0
    ensures Pushed(x, Newest(log, maxHist), maxHist) == Newest([x] + log, maxHist)
  {}

  lemma IdsAdded(active: map<string, Record>, k: string, r: Record)
    requires k !in active
    ensures ActiveIds(active[k := r]) == ActiveIds(active) + {r.id}
  {
    var more := active[k := r];
    assert more[k].id == r.id;
    forall id ensures id in ActiveIds(more) <==> id in ActiveIds(active) || id == r.id {
      if id in ActiveIds(active) {
        var l :| l in active && active[l].id == id;
        assert l in more && more[l].id == id;
      }
    }
  }

  lemma IdsChanged(active: map<string, Record>, k: string, r: Record)
    requires k in active && r.id == active[k].id
    ensures ActiveIds(active[k := r]) == ActiveIds(active)
  {
    var other := active[k := r];
    forall id ensures id in ActiveIds(other) <==> id in ActiveIds(active) {
      if id in ActiveIds(active) {
        var l :| l in active && active[l].id == id;
        assert l in other && other[l].id == id;
      }
    }
  }

  // What holds of the manager and the log of ended jobs.
  ghost predicate Inv(s: State, log: seq<Record>, accepted: set<string>, maxHist: nat) {
    && ActiveInv(s.active)
    && LogInv(log)
    && Accounted(accepted, s.active, log)
    && s.history == Newest(log, maxHist)
  }

  lemma SubmitKeepsInv(s: State, log: seq<Record>, accepted: set<string>, maxHist: nat, e: Event)
    requires Inv(s, log, accepted, maxHist) && e.Submit? && e.key !in s.active && e.id !in accepted
    ensures Inv(Next(s, maxHist, e), log, accepted + {e.id}, maxHist)
  {
    var r := NewRecord(e.id, e.key, e.request, e.now);
    IdsAdded(s.active, e.key, r);
    hide LogInv;
    forall l | l in s.active ensures s.active[l].id != e.id {
      assert s.active[l].id in ActiveIds(s.active);
    }
  }

  lemma StartKeepsInv(s: State, log: seq<Record>, accepted: set<string>, maxHist: nat, e: Event)
    requires Inv(s, log, accepted, maxHist) && e.SetRunning?
    ensures Inv(Next(s, maxHist, e), log, accepted, maxHist)
  {
    hide LogInv;
    match KeyOf(s.active, e.id)
    case None =>
    case Some(k) =>
      IdsChanged(s.active, k, Started(s.active[k], e.now));
      hide ActiveIds;
  }

  lemma EndKeepsInv(s: State, log: seq<Record>, accepted: set<string>, maxHist: nat, e: Event)
    requires Inv(s, log, accepted, maxHist) && maxHist > 0
    requires (e.Complete? || e.Cancel?) && Ending(s.active, e).Some?
    ensures Inv(Next(s, maxHist, e), [Ending(s.active, e).value.1] + log, accepted, maxHist)
  {
    var (k, r) := Ending(s.active, e).value;
    EndingKeepsActive(s.active, e);
    IdsWithout(s.active, k);
    IdsPushed(r, log);
    NewestPushed(r, log, maxHist);
    assert r.id in ActiveIds(s.active);
    hide Ending, ActiveInv, LogInv, Pushed, Newest, ActiveIds, LogIds, Ended;
    LogPushed(r, log);
  }

  // ---------- Main results, over whole runs ----------

  lemma {:induction false} NeverSubmitted(events: seq<Event>, maxHist: nat, id: string)
    requires forall i | 0 <= i < |events| && events[i].Submit? :: events[i].id != id
    ensures id !in Accepted(events, maxHist)
  {
    hide After;
    if events != [] {
      NeverSubmitted(events[..|events| - 1], maxHist, id);
    }
  }

  lemma {:induction false} ManagerInvariant(events: seq<Event>, maxHist: nat)
    requires FreshIds(events) && maxHist > 0
    ensures Inv(After(events, maxHist), Log(events, maxHist), Accepted(events, maxHist), maxHist)
  {
    if events == [] {
      assert ActiveIds(map[]) == {} && LogIds([]) == {};
    } else {
      ManagerInvariant(events[..|events| - 1], maxHist);
      hide Inv, After, Log, Accepted;
      StepInv(events, maxHist);
    }
  }

  lemma StepInv(events: seq<Event>, maxHist: nat)
    requires FreshIds(events) && maxHist > 0 && events != []
    requires var pre := events[..|events| - 1];
             Inv(After(pre, maxHist), Log(pre, maxHist), Accepted(pre, maxHist), maxHist)
    ensures Inv(After(events, maxHist), Log(events, maxHist), Accepted(events, maxHist), maxHist)
  {
    var n := |events| - 1;
    var pre, e := events[..n], events[n];
    var s, log, accepted := After(pre, maxHist), Log(pre, maxHist), Accepted(pre, maxHist);
    hide Inv;
    if e.Submit? && e.key !in s.active {
      NeverSubmitted(pre, maxHist, e.id);
      SubmitKeepsInv(s, log, accepted, maxHist, e);
    } else if e.SetRunning? {
      StartKeepsInv(s, log, accepted, maxHist, e);
    } else if (e.Complete? || e.Cancel?) && Ending(s.active, e).Some? {
      EndKeepsInv(s, log, accepted, maxHist, e);
    }
  }

  lemma FreshPrefix(events: seq<Event>, k: nat)
    requires FreshIds(events) && k <= |events|
    ensures FreshIds(events[..k])
  {}

  // The invariant at an earlier time of a run.
  lemma InvAt(events: seq<Event>, k: nat, maxHist: nat)
    requires FreshIds(events) && maxHist > 0 && k <= |events|
    ensures Inv(After(events[..k], maxHist), Log(events[..k], maxHist), Accepted(events[..k], maxHist), maxHist)
    ensures DistinctIds(After(events[..k], maxHist).active)
  {
    FreshPrefix(events, k);
    hide FreshIds, After, Log, Accepted;
    ManagerInvariant(events[..k], maxHist);
  }

  // The history is the log, cut to the number of records to keep.
  lemma HistoryIsNewest(events: seq<Event>, maxHist: nat)
    requires FreshIds(events) && maxHist > 0
    ensures var log := Log(events, maxHist);
            After(events, maxHist).history == if |log| > maxHist then log[..maxHist] else log
  {
    hide After, Log, FreshIds;
    ManagerInvariant(events, maxHist);
  }

  // Ended jobs stay as they are: the log only grows at its front.
  lemma {:induction false} LogGrows(events: seq<Event>, i: nat, maxHist: nat)
    requires i <= |events|
    ensures var log, was := Log(events, maxHist), Log(events[..i], maxHist);
            |was| <= |log| && log[|log| - |was|..] == was
  {
    var n := |events| - 1;
    if i == |events| {
      assert events[..i] == events;
    } else {
      var pre := events[..n];
      assert pre[..i] == events[..i];
      LogGrows(pre, i, maxHist);
      hide After, Ending;
    }
  }

  // Main result: a job once seen in the history is never active again, and never seen with another record.
  lemma EndedForever(events: seq<Event>, i: nat, maxHist: nat, r: Record)
    requires FreshIds(events) && maxHist > 0 && i <= |events|
    requires r in After(events[..i], maxHist).history
    ensures r.id !in ActiveIds(After(events, maxHist).active)
    ensures forall s <- After(events, maxHist).history :: s.id == r.id ==> s == r
  {
    hide After, Log, ActiveIds, Accepted, FreshIds, Inv;
    ManagerInvariant(events, maxHist);
    InvAt(events, i, maxHist);
    LogGrows(events, i, maxHist);
    var log, was := Log(events, maxHist), Log(events[..i], maxHist);
    FromLog(After(events[..i], maxHist), was, Accepted(events[..i], maxHist), maxHist, r);
    var j :| 0 <= j < |was| && was[j] == r;
    assert log[|log| - |was| + j] == r;
    OnlyInLog(After(events, maxHist), log, Accepted(events, maxHist), maxHist, r);
  }

  lemma FromLog(s: State, log: seq<Record>, accepted: set<string>, maxHist: nat, r: Record)
    requires Inv(s, log, accepted, maxHist) && r in s.history
    ensures r in log
  {
    hide ActiveInv, LogInv, Accounted;
  }

  lemma OnlyInLog(s: State, log: seq<Record>, accepted: set<string>, maxHist: nat, r: Record)
    requires Inv(s, log, accepted, maxHist) && r in log
    ensures r.id !in ActiveIds(s.active)
    ensures forall other <- s.history :: other.id == r.id ==> other == r
  {
    hide ActiveInv, ActiveIds;
    assert r.id in LogIds(log);
    forall other <- s.history | other.id == r.id ensures other == r {
      assert other in log;
    }
  }

  // Complete ends whichever job is active under the key, and puts it first in the history.
  lemma CompleteEndsTheActive(
      events: seq<Event>, maxHist: nat, key: string, diskBytes: int, err: Option<string>, now: int)
    requires FreshIds(events) && maxHist > 0 && key in After(events, maxHist).active
    ensures var more := events + [Complete(key, diskBytes, err, now)];
            && key !in After(more, maxHist).active
            && After(more, maxHist).history != []
            && After(more, maxHist).history[0].id == After(events, maxHist).active[key].id
  {
    var e := Complete(key, diskBytes, err, now);
    assert (events + [e])[..|events|] == events;
    hide ActiveInv;
  }

  // ---------- Whose job a worker ends ----------

  // The calls that end a job: Complete for its key, and Cancel for its id.
  predicate Ends(e: Event, key: string, id: string) {
    (e.Complete? && e.key == key) || (e.Cancel? && e.id == id)
  }

  // Event i creates a job.
  ghost predicate Creates(events: seq<Event>, i: nat, maxHist: nat) {
    i < |events| && events[i].Submit? && events[i].key !in After(events[..i], maxHist).active
  }

  ghost predicate ActiveAs(active: map<string, Record>, key: string, id: string) {
    key in active && active[key].id == id
  }

  lemma NextKeepsActive(s: State, maxHist: nat, e: Event, key: string, id: string)
    requires ActiveAs(s.active, key, id) && !Ends(e, key, id)
    ensures ActiveAs(Next(s, maxHist, e).active, key, id)
  {
    hide Pushed, CompletedRecord, CancelledRecord;
  }

  lemma {:induction false} StaysActive(events: seq<Event>, i: nat, k: nat, maxHist: nat)
    requires Creates(events, i, maxHist) && i < k <= |events|
    requires forall r | i < r < k :: !Ends(events[r], events[i].key, events[i].id)
    ensures ActiveAs(After(events[..k], maxHist).active, events[i].key, events[i].id)
  {
    AfterPrefix(events, k - 1, maxHist);
    hide After;
    if k == i + 1 {
      hide ActiveInv;
    } else {
      StaysActive(events, i, k - 1, maxHist);
      hide ActiveAs, Next;
      NextKeepsActive(After(events[..k - 1], maxHist), maxHist, events[k - 1], events[i].key, events[i].id);
    }
  }

  lemma AfterPrefix(events: seq<Event>, k: nat, maxHist: nat)
    requires k < |events|
    ensures After(events[..k + 1], maxHist) == Next(After(events[..k], maxHist), maxHist, events[k])
    ensures Log(events[..k + 1], maxHist)
         == match Ending(After(events[..k], maxHist).active, events[k])
            case Some((_, r)) => [r] + Log(events[..k], maxHist)
            case None => Log(events[..k], maxHist)
  {
    assert events[..k + 1][..k] == events[..k];
    hide Next, Ending;
  }

  lemma EndsActive(active: map<string, Record>, e: Event, key: string, id: string)
    requires ActiveInv(active) && ActiveAs(active, key, id) && Ends(e, key, id)
    ensures Ending(active, e).Some? && Ending(active, e).value.1.id == id
  {
    KeyOfUnique(active, key);
    hide KeyOf, DistinctIds;
  }

  lemma FirstEndIsLogged(events: seq<Event>, i: nat, n: nat, maxHist: nat)
    requires FreshIds(events) && maxHist > 0 && Creates(events, i, maxHist) && i < n < |events|
    requires forall r | i < r < n :: !Ends(events[r], events[i].key, events[i].id)
    requires Ends(events[n], events[i].key, events[i].id)
    ensures events[i].id in LogIds(Log(events[..n + 1], maxHist))
  {
    var active, log := After(events[..n], maxHist).active, Log(events[..n], maxHist);
    StaysActive(events, i, n, maxHist);
    ManagerInvariant(events[..n], maxHist);
    AfterPrefix(events, n, maxHist);
    EndsActive(active, events[n], events[i].key, events[i].id);
    hide After, Log, Ends, Next, Ending, LogIds, Inv, Accepted;
    IdsPushed(Ending(active, events[n]).value.1, log);
  }

  lemma LoggedStays(events: seq<Event>, n: nat, maxHist: nat, id: string)
    requires n < |events| && id in LogIds(Log(events[..n], maxHist))
    ensures id in LogIds(Log(events[..n + 1], maxHist))
  {
    AfterPrefix(events, n, maxHist);
    hide After, Log, LogIds, Ending, Next;
    match Ending(After(events[..n], maxHist).active, events[n])
    case Some((_, r)) => IdsPushed(r, Log(events[..n], maxHist));
    case None =>
  }

  // Once a call has ended the job, it is in the log.
  lemma {:induction false} EndedIsLogged(events: seq<Event>, i: nat, k: nat, maxHist: nat)
    requires FreshIds(events) && maxHist > 0 && Creates(events, i, maxHist) && i < k <= |events|
    requires exists r | i < r < k :: Ends(events[r], events[i].key, events[i].id)
    ensures events[i].id in LogIds(Log(events[..k], maxHist))
  {
    var key, id, n := events[i].key, events[i].id, k - 1;
    hide Log, Ends, Creates, FreshIds, LogIds;
    if exists r | i < r < n :: Ends(events[r], key, id) {
      EndedIsLogged(events, i, n, maxHist);
      LoggedStays(events, n, maxHist, id);
    } else {
      FirstEndIsLogged(events, i, n, maxHist);
    }
  }

  // ---------- What an active job looks like ----------

  // The time of the latest SetRunning of the id from call `lo` on.
  function LastStart(events: seq<Event>, lo: nat, id: string): Option<int> {
    if |events| <= lo then None
    else
      match events[|events| - 1]
      case SetRunning(other, now) => if other == id then Some(now) else LastStart(events[..|events| - 1], lo, id)
      case _ => LastStart(events[..|events| - 1], lo, id)
  }

  predicate Starts(e: Event, id: string) {
    e.SetRunning? && e.id == id
  }

  lemma {:induction false} LastStartIs(events: seq<Event>, lo: nat, id: string)
    ensures LastStart(events, lo, id).None? <==> forall n | lo <= n < |events| :: !Starts(events[n], id)
    ensures forall n | lo <= n < |events| && Starts(events[n], id)
                       && (forall m | n < m < |events| :: !Starts(events[m], id)) ::
              LastStart(events, lo, id) == Some(events[n].now)
  {
    if lo < |events| {
      var pre := events[..|events| - 1];
      LastStartIs(pre, lo, id);
      assert forall n | 0 <= n < |pre| :: pre[n] == events[n];
    }
  }

  lemma NextKeepsRecord(s: State, maxHist: nat, e: Event, key: string, id: string)
    requires ActiveAs(s.active, key, id) && DistinctIds(s.active) && !Ends(e, key, id)
    ensures ActiveAs(Next(s, maxHist, e).active, key, id)
    ensures Next(s, maxHist, e).active[key]
         == if Starts(e, id) then s.active[key].(status := Running, startedAt := Some(e.now)) else s.active[key]
  {
    KeyOfUnique(s.active, key);
    hide Pushed, CompletedRecord, CancelledRecord, DistinctIds;
  }

  // What the job that call i created looks like if its latest start was at `started`.
  function ActiveRecord(e: Event, started: Option<int>): Record
    requires e.Submit?
  {
    Record(e.id, e.key, e.request, if started.Some? then Running else Queued, e.now, started, None, "", 0, false)
  }

  lemma RecordCreated(events: seq<Event>, i: nat, maxHist: nat)
    requires Creates(events, i, maxHist)
    ensures ActiveAs(After(events[..i + 1], maxHist).active, events[i].key, events[i].id)
    ensures After(events[..i + 1], maxHist).active[events[i].key]
         == ActiveRecord(events[i], LastStart(events[..i + 1], i + 1, events[i].id))
  {
    AfterPrefix(events, i, maxHist);
    hide After;
  }

  lemma LastStartStep(events: seq<Event>, lo: nat, k: nat, id: string)
    requires lo <= k < |events|
    ensures LastStart(events[..k + 1], lo, id)
         == if Starts(events[k], id) then Some(events[k].now) else LastStart(events[..k], lo, id)
  {
    assert events[..k + 1][..k] == events[..k];
  }

  lemma {:induction false} RecordOf(events: seq<Event>, i: nat, k: nat, maxHist: nat)
    requires FreshIds(events) && maxHist > 0 && Creates(events, i, maxHist) && i < k <= |events|
    requires forall r | i < r < k :: !Ends(events[r], events[i].key, events[i].id)
    ensures ActiveAs(After(events[..k], maxHist).active, events[i].key, events[i].id)
    ensures After(events[..k], maxHist).active[events[i].key]
         == ActiveRecord(events[i], LastStart(events[..k], i + 1, events[i].id))
    decreases k
  {
    if k == i + 1 {
      RecordCreated(events, i, maxHist);
    } else {
      var n, e := k - 1, events[i];
      hide Creates, Log, LastStart, Next, After, FreshIds, Inv, DistinctIds, Ends, Starts, Accepted;
      RecordOf(events, i, n, maxHist);
      hide ActiveAs;
      InvAt(events, n, maxHist);
      AfterPrefix(events, n, maxHist);
      LastStartStep(events, i + 1, n, e.id);
      NextKeepsRecord(After(events[..n], maxHist), maxHist, events[n], e.key, e.id);
    }
  }

  // Main result, over whole runs: until a call ends it, the job that a Submit created is active with exactly what it
  // was submitted with, running if and only if a SetRunning of its id came since, and queued otherwise; it was
  // started at the latest of these calls.
  lemma ActiveJobIs(events: seq<Event>, i: nat, maxHist: nat)
    requires FreshIds(events) && maxHist > 0 && Creates(events, i, maxHist)
    requires forall r | i < r < |events| :: !Ends(events[r], events[i].key, events[i].id)
    ensures events[i].key in After(events, maxHist).active
    ensures var e, r := events[i], After(events, maxHist).active[events[i].key];
            && (r.status == Running <==> exists n | i < n < |events| :: Starts(events[n], e.id))
            && (r.status == Queued <==> forall n | i < n < |events| :: !Starts(events[n], e.id))
            && (r.startedAt == None <==> forall n | i < n < |events| :: !Starts(events[n], e.id))
            && (forall n | i < n < |events| && Starts(events[n], e.id)
                           && (forall m | n < m < |events| :: !Starts(events[m], e.id)) ::
                  r.startedAt == Some(events[n].now))
            && r == Record(e.id, e.key, e.request, r.status, e.now, r.startedAt, None, "", 0, false)
  {
    assert events[..|events|] == events;
    RecordOf(events, i, |events|, maxHist);
    LastStartIs(events, i + 1, events[i].id);
    hide After, Creates, Starts, LastStart, Ends, FreshIds;
  }

  lemma CreatedBefore(events: seq<Event>, n: nat, i: nat, maxHist: nat)
    requires n <= |events| && Creates(events[..n], i, maxHist)
    ensures i < n && events[..n][i] == events[i] && Creates(events, i, maxHist)
  {
    assert events[..n][..i] == events[..i];
    hide After;
  }

  lemma RunLast(events: seq<Event>, maxHist: nat)
    requires events != []
    ensures var n := |events| - 1;
            After(events, maxHist) == Next(After(events[..n], maxHist), maxHist, events[n])
  {
    hide Next;
  }

  // The other way round: every active job was created by a Submit of its key, and no call has ended it since.
  lemma {:induction false} ActiveWasSubmitted(events: seq<Event>, key: string, maxHist: nat) returns (i: nat)
    requires FreshIds(events) && maxHist > 0 && key in After(events, maxHist).active
    ensures Creates(events, i, maxHist) && events[i].key == key
    ensures After(events, maxHist).active[key].id == events[i].id
    ensures forall r | i < r < |events| :: !Ends(events[r], key, events[i].id)
  {
    hide Next, Ends, FreshIds, Inv, DistinctIds, Log, Accepted;
    assert events != [];
    RunLast(events, maxHist);
    var n := |events| - 1;
    hide After;
    FreshPrefix(events, n);
    var s := After(events[..n], maxHist);
    if key in s.active {
      i := ActiveWasSubmitted(events[..n], key, maxHist);
      CreatedBefore(events, n, i, maxHist);
      InvAt(events, n, maxHist);
      StillActive(s, Log(events[..n], maxHist), Accepted(events[..n], maxHist), maxHist, events[n], key);
    } else {
      NewlyActive(s, maxHist, events[n], key);
      i := n;
    }
  }

  lemma NewlyActive(s: State, maxHist: nat, e: Event, key: string)
    requires key !in s.active && key in Next(s, maxHist, e).active
    ensures e.Submit? && e.key == key && Next(s, maxHist, e).active[key].id == e.id
  {
    hide Pushed, CompletedRecord, CancelledRecord;
  }

  lemma StillActive(s: State, log: seq<Record>, accepted: set<string>, maxHist: nat, e: Event, key: string)
    requires Inv(s, log, accepted, maxHist) && key in s.active && key in Next(s, maxHist, e).active
    ensures Next(s, maxHist, e).active[key].id == s.active[key].id && !Ends(e, key, s.active[key].id)
  {
    KeyOfUnique(s.active, key);
    hide Pushed, CompletedRecord, CancelledRecord, LogInv, Accounted;
  }

  // Main result, over whole runs: a Complete ends the job that an earlier Submit of its key created if and
  // only if no Complete for the key and no Cancel of that job came in between.
  lemma OwnJobIff(events: seq<Event>, i: nat, j: nat, maxHist: nat)
    requires FreshIds(events) && maxHist > 0 && Creates(events, i, maxHist)
    requires i < j < |events| && events[j].Complete? && events[j].key == events[i].key
    ensures var ended := Ending(After(events[..j], maxHist).active, events[j]);
            (ended.Some? && ended.value.1.id == events[i].id
             <==> forall r | i < r < j :: !Ends(events[r], events[i].key, events[i].id))
  {
    var key, id, s := events[i].key, events[i].id, After(events[..j], maxHist);
    ManagerInvariant(events[..j], maxHist);
    if forall r | i < r < j :: !Ends(events[r], key, id) {
      StaysActive(events, i, j, maxHist);
      EndsActive(s.active, events[j], key, id);
    } else {
      EndedIsLogged(events, i, j, maxHist);
      hide After, Log, Ends;
      assert id !in ActiveIds(s.active);
      assert key in s.active ==> s.active[key].id in ActiveIds(s.active);
    }
  }

  // In particular the call of a cancelled job's worker ends whatever job is then active under the key.
  lemma CancelledWorkerEndsOther(events: seq<Event>, i: nat, c: nat, j: nat, maxHist: nat)
    requires FreshIds(events) && maxHist > 0 && Creates(events, i, maxHist) && i < c < j < |events|
    requires events[c].Cancel? && events[c].id == events[i].id
    requires events[j].Complete? && events[j].key == events[i].key
    requires events[j].key in After(events[..j], maxHist).active
    ensures var ended := Ending(After(events[..j], maxHist).active, events[j]);
            ended.Some? && ended.value.1.id == After(events[..j], maxHist).active[events[j].key].id != events[i].id
  {
    OwnJobIff(events, i, j, maxHist);
    assert Ends(events[c], events[i].key, events[i].id);
    hide After;
  }

  // A job is cancelled and submitted anew; then the first job's worker reports back.
  function StaleRun(first: string, second: string, key: string, request: Request): seq<Event> {
    [Submit(first, key, request, 1), SetRunning(first, 2), Cancel(first, 3), Submit(second, key, request, 4),
     Complete(key, 0, None, 5)]
  }

  lemma StaleRunEnds(first: string, second: string, key: string, request: Request)
    ensures After(StaleRun(first, second, key, request), 100)
         == State(map[], [CompletedRecord(NewRecord(second, key, request, 4), 0, None, 5),
                          CancelledRecord(Started(NewRecord(first, key, request, 1), 2), 3)])
  {
    var e1, e2, e3 := Submit(first, key, request, 1), SetRunning(first, 2), Cancel(first, 3);
    var e4, e5 := Submit(second, key, request, 4), Complete(key, 0, None, 5);
    AfterLast([], e1, 100);
    AfterLast([e1], e2, 100);
    AfterLast([e1, e2], e3, 100);
    AfterLast([e1, e2, e3], e4, 100);
    AfterLast([e1, e2, e3, e4], e5, 100);
    var r, s := NewRecord(first, key, request, 1), NewRecord(second, key, request, 4);
    var ended := CancelledRecord(Started(r, 2), 3);
    OneJob(key, r, [], 100);
    OneJob(key, Started(r, 2), [], 100);
    OneJob(key, s, [ended], 100);
    assert After([], 100) == State(map[], []);
    hide After, Next, CompletedRecord;
    SubmitOne([], e1, 100);
    SubmitOne([ended], e4, 100);
    hide NewRecord;
    assert [] + [e1] == [e1] && [e1] + [e2] == [e1, e2] && [e1, e2] + [e3] == [e1, e2, e3];
    assert [e1, e2, e3] + [e4] == [e1, e2, e3, e4] && [e1, e2, e3, e4] + [e5] == [e1, e2, e3, e4, e5];
  }

  // In that run the second job, which never started, is completed by the first job's worker.
  lemma StaleWorkerEndsNewJob(first: string, second: string, key: string, request: Request)
    requires first != second
    ensures FreshIds(StaleRun(first, second, key, request))
    ensures var s := After(StaleRun(first, second, key, request), 100);
            && s.active == map[]
            && |s.history| == 2
            && s.history[0].id == second && s.history[0].status == Completed && s.history[0].startedAt == None
            && s.history[1].id == first && s.history[1].status == Cancelled
  {
    StaleRunEnds(first, second, key, request);
    hide After;
  }

  lemma SubmitOne(history: seq<Record>, e: Event, maxHist: nat)
    requires e.Submit?
    ensures Next(State(map[], history), maxHist, e)
         == State(map[e.key := NewRecord(e.id, e.key, e.request, e.now)], history)
  {}

  // The calls on a manager with one active job.
  lemma OneJob(key: string, r: Record, history: seq<Record>, maxHist: nat)
    requires |history| < maxHist
    ensures var s := State(map[key := r], history);
            && (forall now :: Next(s, maxHist, SetRunning(r.id, now)) == State(map[key := Started(r, now)], history))
            && (forall now ::
                  Next(s, maxHist, Cancel(r.id, now)) == State(map[], [CancelledRecord(r, now)] + history))
            && (forall bytes, err, now ::
                  Next(s, maxHist, Complete(key, bytes, err, now))
                  == State(map[], [CompletedRecord(r, bytes, err, now)] + history))
  {
    var active := map[key := r];
    assert key in active && active[key].id == r.id;
    assert KeyOf(active, r.id) == Some(key);
    assert active - {key} == map[];
    hide KeyOf, CompletedRecord, CancelledRecord, Started;
  }

  lemma AfterLast(events: seq<Event>, e: Event, maxHist: nat)
    ensures After(events + [e], maxHist) == Next(After(events, maxHist), maxHist, e)
  {
    assert (events + [e])[..|events|] == events;
  }
}
