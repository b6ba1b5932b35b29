/** The manager of pkg/tasks/tasks.go: jobs are objects, shared with their callers and changed in place. */
module Tasks {
  import opened Options
  import opened TaskRuns

  class Job {
    const id: string
    const key: string
    const request: Request
    const createdAt: int
    var status: Status
    var startedAt: Option<int>
    var completedAt: Option<int>
    var err: string
    var diskBytes: int
    var cancelled: bool

    constructor (id: string, key: string, request: Request, now: int)
      ensures View() == NewRecord(id, key, request, now) && this.id == id && this.key == key
    {
      this.id, this.key, this.request, createdAt := id, key, request, now;
      status, startedAt, completedAt, err, diskBytes, cancelled := Queued, None, None, "", 0, false;
    }

    // A copy, as List makes them.
    constructor CopyOf(j: Job)
      ensures View() == j.View()
    {
      id, key, request, createdAt := j.id, j.key, j.request, j.createdAt;
      status, startedAt, completedAt := j.status, j.startedAt, j.completedAt;
      err, diskBytes, cancelled := j.err, j.diskBytes, j.cancelled;
    }

    method Start(now: int)
      modifies this
      ensures View() == Started(old(View()), now)
    {
      status := Running;
      startedAt := Some(now);
    }

    method Finish(diskBytes: int, err: Option<string>, now: int)
      modifies this
      ensures View() == CompletedRecord(old(View()), diskBytes, err, now)
    {
      cancelled := true;
      completedAt := Some(now);
      this.diskBytes := diskBytes;
      match err
      case Some(e) =>
        if status != Cancelled {
          status := Failed;
          this.err := e;
        }
      case None =>
        status := Completed;
    }

    method Abort(now: int)
      modifies this
      ensures View() == CancelledRecord(old(View()), now)
    {
      status := Cancelled;
      cancelled := true;
      completedAt := Some(now);
    }

    ghost function View(): Record
      reads this
    {
      Record(id, key, request, status, createdAt, startedAt, completedAt, err, diskBytes, cancelled)
    }
  }

  ghost function Views(jobs: seq<Job>): (r: seq<Record>)
    reads jobs
    ensures |r| == |jobs|
  {
    seq(|jobs|, i requires 0 <= i < |jobs| reads jobs => jobs[i].View())
  }

  ghost function ActiveViews(active: map<string, Job>): (r: map<string, Record>)
    reads active.Values
    ensures r.Keys == active.Keys
  {
    map k | k in active :: active[k].View()
  }

  predicate DistinctJobs(active: map<string, Job>) {
    forall k, l | k in active && l in active && active[k].id == active[l].id :: k == l
  }

  lemma ViewsDistinct(active: map<string, Job>)
    requires DistinctJobs(active)
    ensures DistinctIds(ActiveViews(active))
  {}

  lemma ViewsSnoc(jobs: seq<Job>, j: Job)
    ensures Views(jobs + [j]) == Views(jobs) + [j.View()]
  {}

  lemma ViewsAt(active: map<string, Job>)
    ensures forall k <- active :: ActiveViews(active)[k] == active[k].View()
  {}

  lemma ViewsLack(active: map<string, Job>, id: string)
    requires forall k <- active :: active[k].id != id
    ensures NoId(ActiveViews(active), id)
  {}

  // One active job has changed since the views were taken.
  lemma OneChanged(active: map<string, Job>, k: string, was: map<string, Record>)
    requires k in active && was.Keys == active.Keys
    requires forall l <- active :: l != k ==> active[l].View() == was[l]
    ensures ActiveViews(active) == was[k := active[k].View()]
    ensures ActiveViews(active - {k}) == was - {k}
  {}

  lemma ViewsAdded(active: map<string, Job>, k: string, j: Job)
    requires k !in active
    ensures ActiveViews(active[k := j]) == ActiveViews(active)[k := j.View()]
  {}

  lemma DistinctAdded(active: map<string, Job>, k: string, j: Job)
    requires DistinctJobs(active) && forall l <- active :: active[l].id != j.id
    ensures DistinctJobs(active[k := j])
  {}

  lemma DistinctWithout(active: map<string, Job>, k: string)
    requires DistinctJobs(active)
    ensures DistinctJobs(active - {k})
  {}

  class Manager {
    var active: map<string, Job>
    var history: seq<Job>
    const maxHist: nat

    // Every job is active under its own key or in the history once, and no two active jobs share an id.
    ghost predicate Valid()
      reads this
    {
      && maxHist > 0
      && (forall k <- active :: active[k].key == k && active[k] !in history)
      && DistinctJobs(active)
    }

    ghost function Contents(): State
      reads this, active.Values, history
    {
      State(ActiveViews(active), Views(history))
    }

    constructor (maxHistory: int)
      ensures Valid() && Contents() == State(map[], [])
      ensures maxHist == if maxHistory <= 0 then 100 else maxHistory
      ensures active == map[] && history == []
    {
      active := map[];
      history := [];
      maxHist := if maxHistory <= 0 then 100 else maxHistory;
    }

    // `id` is the one that uuid.New gives, and `now` the time.
    method Submit(id: string, key: string, request: Request, now: int) returns (job: Job, duplicate: bool)
      requires Valid() && forall k <- active :: active[k].id != id
      modifies this
      ensures Valid() && Contents() == Next(old(Contents()), maxHist, Event.Submit(id, key, request, now))
      ensures duplicate == (key in old(active)) && key in active && job == active[key]
      ensures duplicate <==> !fresh(job)
    {
      hide NewRecord, Next, Views, ActiveViews, DistinctJobs;
      NextSubmit(Contents(), maxHist, id, key, request, now);
      if key in active {
        return active[key], true;
      }
      job := new Job(id, key, request, now);
      DistinctAdded(active, key, job);
      ViewsAdded(active, key, job);
      active := active[key := job];
      return job, false;
    }

    method SetRunning(id: string, now: int)
      requires Valid()
      modifies active.Values
      ensures Valid() && Contents() == Next(old(Contents()), maxHist, Event.SetRunning(id, now))
    {
      hide Next, NoId, Views, ActiveViews;
      ghost var was := Contents();
      ViewsDistinct(active);
      var keys := active.Keys;
      while keys != {}
        invariant keys <= active.Keys && forall k <- active.Keys - keys :: active[k].id != id
        invariant Contents() == was && unchanged(active.Values)
      {
        var k :| k in keys;
        var j := active[k];
        if j.id == id {
          ViewsAt(active);
          j.Start(now);
          OneChanged(active, k, was.active);
          NextStarts(was, maxHist, k, id, now);
          return;
        }
        keys := keys - {k};
      }
      ViewsLack(active, id);
      NextMissing(was, maxHist, id, now);
    }

    method Complete(key: string, diskBytes: int, err: Option<string>, now: int)
      requires Valid()
      modifies this, active.Values
      ensures Valid() && Contents() == Next(old(Contents()), maxHist, Event.Complete(key, diskBytes, err, now))
    {
      hide Next, Views, ActiveViews, Pushed, DistinctJobs, CompletedRecord;
      ghost var was := Contents();
      NextComplete(was, maxHist, key, diskBytes, err, now);
      if key !in active {
        return;
      }
      var job := active[key];
      ViewsAt(active);
      DistinctWithout(active, key);
      active := active - {key};
      job.Finish(diskBytes, err, now);
      OneChanged(old(active), key, was.active);
      PushJob(job);
    }

    // The job goes to the front of the history, which is cut to its size.
    method PushJob(job: Job)
      requires Valid() && job !in history && job !in active.Values
      modifies `history
      ensures Valid() && Views(history) == Pushed(job.View(), old(Views(history)), maxHist)
      ensures forall j <- history :: j == job || j in old(history)
    {
      history := [job] + history;
      if |history| > maxHist {
        history := history[..maxHist];
      }
    }

    // What Cancel does with the job it finds.
    method CancelAt(key: string, id: string, now: int)
      requires Valid() && key in active && active[key].id == id
      modifies this, active.Values
      ensures Valid() && Contents() == Next(old(Contents()), maxHist, Event.Cancel(id, now))
    {
      hide Next, Views, ActiveViews, Pushed, DistinctJobs, DistinctIds, CancelledRecord;
      ghost var was := Contents();
      ViewsDistinct(active);
      var j := active[key];
      ViewsAt(active);
      NextCancels(was, maxHist, key, id, now);
      DistinctWithout(active, key);
      active := active - {key};
      j.Abort(now);
      OneChanged(old(active), key, was.active);
      PushJob(j);
    }

    method Cancel(id: string, now: int) returns (found: bool)
      requires Valid()
      modifies this, active.Values
      ensures Valid() && Contents() == Next(old(Contents()), maxHist, Event.Cancel(id, now))
      ensures found <==> !NoId(old(Contents()).active, id)
    {
      hide Next, NoId, Views, ActiveViews, DistinctJobs;
      ghost var was := Contents();
      var keys := active.Keys;
      while keys != {}
        invariant keys <= active.Keys && forall k <- active.Keys - keys :: active[k].id != id
        invariant Contents() == was && unchanged(this) && unchanged(active.Values)
      {
        var key :| key in keys;
        if active[key].id == id {
          ViewsAt(active);
          HasId(was.active, key);
          CancelAt(key, id, now);
          return true;
        }
        keys := keys - {key};
      }
      ViewsLack(active, id);
      NextMissing(was, maxHist, id, now);
      return false;
    }

    // Copies of the active jobs, in any order, before the history.
    method List() returns (result: seq<Job>)
      requires Valid()
      ensures |result| == |active| + |history| && result[|active|..] == history
      ensures forall i | 0 <= i < |active| :: fresh(result[i])
      ensures forall k <- active :: active[k].View() in Views(result[..|active|])
      ensures forall r <- Views(result[..|active|]) :: r.key in active && r == active[r.key].View()
    {
      hide Views;
      result := [];
      var keys := active.Keys;
      while keys != {}
        invariant keys <= active.Keys && |result| + |keys| == |active|
        invariant forall i | 0 <= i < |result| :: fresh(result[i])
        invariant forall k <- active.Keys - keys :: active[k].View() in Views(result)
        invariant forall r <- Views(result) :: r.key in active && r == active[r.key].View()
      {
        var k :| k in keys;
        var cp := new Job.CopyOf(active[k]);
        ViewsSnoc(result, cp);
        result := result + [cp];
        keys := keys - {k};
      }
      assert (result + history)[..|active|] == result;
      result := result + history;
    }

    method IsActive(key: string) returns (r: bool)
      requires Valid()
      ensures r <==> key in Contents().active
    {
      return key in active;
    }
  }
}
