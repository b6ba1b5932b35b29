/**
 What the sweep of pkg/api/security.go remembers, and when its forgetting can be noticed: exactly for the
 limiters it is not made for.
 */
module Forgetting {
  import opened Options
  import opened RateLimiter

  const IP := "10.0.0.1"

  // Every request gets the answer it would get without the sweeps.
  ghost predicate Unobservable(events: seq<Event>, lim: Limits) {
    && |Answers(events, lim)| == |Asked(events)|
    && forall i | 0 <= i < |Asked(events)| :: Answers(events, lim)[i] == Accepted(Asked(events), lim, i)
  }

  // The level at which a request of IP finds its bucket at time t.
  function LevelAt(bs: Buckets, lim: Limits, t: real): real {
    Level(Lookup(bs, lim, IP, t), lim, t)
  }

  predicate Before(events: seq<Event>, t: real) {
    InOrder(events) && (events != [] ==> events[|events| - 1].Time() <= t)
  }

  function AskAt(t: real): Event {
    Ask(Request(IP, t))
  }

  // ---------- One more event ----------

  lemma Appended(events: seq<Event>, e: Event)
    requires Before(events, e.Time())
    ensures Before(events + [e], e.Time())
    ensures (events + [e])[..|events|] == events
  {}

  lemma AskAppended(events: seq<Event>, lim: Limits, t: real)
    requires Before(events, t)
    ensures var more := events + [AskAt(t)];
            && Before(more, t)
            && SweptAfter(more, lim) == AfterAllow(SweptAfter(events, lim), lim, IP, t)
            && BucketsAfter(Asked(more), lim) == AfterAllow(BucketsAfter(Asked(events), lim), lim, IP, t)
  {
    Appended(events, AskAt(t));
    hide AfterAllow;
    assert (Asked(events) + [Request(IP, t)])[..|Asked(events)|] == Asked(events);
  }

  // A request that finds one token with the sweeps and none without them, or the other way round.
  lemma AskNotices(events: seq<Event>, lim: Limits, t: real)
    requires Before(events, t)
    requires (LevelAt(SweptAfter(events, lim), lim, t) >= 1.0)
          != (LevelAt(BucketsAfter(Asked(events), lim), lim, t) >= 1.0)
    ensures !Unobservable(events + [AskAt(t)], lim)
  {
    var more, n := events + [AskAt(t)], |Asked(events)|;
    Appended(events, AskAt(t));
    hide Level, Lookup;
    assert Asked(more) == Asked(events) + [Request(IP, t)];
    assert Asked(more)[..n] == Asked(events);
    assert Answers(more, lim) == Answers(events, lim) + [Allowed(SweptAfter(events, lim), lim, IP, t)];
    assert |Answers(events, lim)| == n ==> Answers(more, lim)[n] != Accepted(Asked(more), lim, n);
  }

  lemma LevelAfterAsk(bs: Buckets, lim: Limits, t: real)
    ensures var x := LevelAt(bs, lim, t);
            LevelAt(AfterAllow(bs, lim, IP, t), lim, t) == if x >= 1.0 then x - 1.0 else x
  {
    GainAdds(lim, t, t, t);
    hide Gain;
  }

  // A bucket below its capacity gains what the time refills.
  lemma LevelAfterWait(bs: Buckets, lim: Limits, t: real, d: real)
    requires IP in bs && LevelAt(bs, lim, t) < lim.capacity
    ensures var topped := LevelAt(bs, lim, t) + d * lim.refill;
            LevelAt(bs, lim, t + d) == if topped > lim.capacity then lim.capacity else topped
  {
    GainAdds(lim, bs[IP].lastSeen, t, t + d);
    assert Gain(lim, t, t + d) == d * lim.refill;
    hide Gain;
  }

  // ---------- Telling two levels apart ----------

  function Tokens(x: real): nat {
    if x < 0.0 then 0 else x.Floor
  }

  function Swept(events: seq<Event>, lim: Limits, t: real): real {
    LevelAt(SweptAfter(events, lim), lim, t)
  }

  function Full(events: seq<Event>, lim: Limits, t: real): real {
    LevelAt(BucketsAfter(Asked(events), lim), lim, t)
  }

  predicate Known(events: seq<Event>, lim: Limits) {
    IP in SweptAfter(events, lim) && IP in BucketsAfter(Asked(events), lim)
  }

  lemma AfterAsk(events: seq<Event>, lim: Limits, t: real)
    requires Before(events, t)
    ensures var more, x, y := events + [AskAt(t)], Full(events, lim, t), Swept(events, lim, t);
            && Before(more, t) && Known(more, lim)
            && Full(more, lim, t) == (if x >= 1.0 then x - 1.0 else x)
            && Swept(more, lim, t) == if y >= 1.0 then y - 1.0 else y
  {
    AskAppended(events, lim, t);
    LevelAfterAsk(SweptAfter(events, lim), lim, t);
    LevelAfterAsk(BucketsAfter(Asked(events), lim), lim, t);
    hide LevelAt, SweptAfter, BucketsAfter, Asked;
  }

  lemma Wait(refill: real, y: real) returns (d: real)
    requires refill > 0.0 && y < 1.0
    ensures d > 0.0 && y + d * refill == 1.0
  {
    d := (1.0 - y) / refill;
  }

  // Both levels below one token: wait until only the higher one reaches it.
  lemma TellLowLevels(events: seq<Event>, lim: Limits, t: real) returns (run: seq<Event>)
    requires Before(events, t) && Known(events, lim) && 1.0 <= lim.capacity && 0.0 < lim.refill
    requires Full(events, lim, t) < Swept(events, lim, t) < 1.0
    ensures InOrder(run) && !Unobservable(run, lim)
  {
    var x, y := Full(events, lim, t), Swept(events, lim, t);
    var d := Wait(lim.refill, y);
    LevelAfterWait(SweptAfter(events, lim), lim, t, d);
    LevelAfterWait(BucketsAfter(Asked(events), lim), lim, t, d);
    hide LevelAt, SweptAfter, BucketsAfter, Asked, Unobservable;
    AskNotices(events, lim, t + d);
    Appended(events, AskAt(t + d));
    run := events + [AskAt(t + d)];
  }

  lemma {:induction false} TellLevels(events: seq<Event>, lim: Limits, t: real) returns (run: seq<Event>)
    requires Before(events, t) && 1.0 <= lim.capacity
    requires var x, y := Full(events, lim, t), Swept(events, lim, t);
             x < y && (y < 1.0 ==> Known(events, lim)) && (0.0 < lim.refill || (1.0 <= y && x + 1.0 <= y))
    ensures InOrder(run) && !Unobservable(run, lim)
    decreases Tokens(Full(events, lim, t))
  {
    hide LevelAt, SweptAfter, BucketsAfter, Asked, Unobservable, AskAt;
    var x, y := Full(events, lim, t), Swept(events, lim, t);
    if x >= 1.0 {
      AfterAsk(events, lim, t);
      run := TellLevels(events + [AskAt(t)], lim, t);
    } else if y >= 1.0 {
      AskNotices(events, lim, t);
      AfterAsk(events, lim, t);
      run := events + [AskAt(t)];
    } else {
      run := TellLowLevels(events, lim, t);
    }
  }

  // ---------- Emptying a bucket ----------

  // Runs without sweeps, in which the bucket of IP was last asked at time t.
  predicate Unswept(events: seq<Event>, lim: Limits, t: real) {
    && Before(events, t) && SweptAfter(events, lim) == BucketsAfter(Asked(events), lim)
    && IP in SweptAfter(events, lim) && SweptAfter(events, lim)[IP].lastSeen == t
  }

  lemma AskUnswept(events: seq<Event>, lim: Limits, t: real)
    requires Before(events, t) && SweptAfter(events, lim) == BucketsAfter(Asked(events), lim)
    ensures var more, y := events + [AskAt(t)], Swept(events, lim, t);
            && Unswept(more, lim, t)
            && SweptAfter(more, lim)[IP].tokens == if y >= 1.0 then y - 1.0 else y
  {
    AskAppended(events, lim, t);
    hide SweptAfter, BucketsAfter, Asked, Level;
  }

  lemma LevelNow(events: seq<Event>, lim: Limits, t: real)
    requires Unswept(events, lim, t)
    ensures var tokens := SweptAfter(events, lim)[IP].tokens;
            Swept(events, lim, t) == if tokens > lim.capacity then lim.capacity else tokens
  {
    GainAdds(lim, t, t, t);
    hide Gain, SweptAfter, BucketsAfter;
  }

  lemma {:induction false} Emptied(events: seq<Event>, lim: Limits, t: real) returns (run: seq<Event>, end: real)
    requires 1.0 <= lim.capacity && 0.0 < lim.refill && Unswept(events, lim, t)
    requires 0.0 <= SweptAfter(events, lim)[IP].tokens <= lim.capacity
    ensures Unswept(run, lim, end) && SweptAfter(run, lim)[IP].tokens == 0.0
    decreases Tokens(SweptAfter(events, lim)[IP].tokens)
  {
    hide SweptAfter, BucketsAfter, Asked, LevelAt;
    LevelNow(events, lim, t);
    if SweptAfter(events, lim)[IP].tokens >= 1.0 {
      AskUnswept(events, lim, t);
      run, end := Emptied(events + [AskAt(t)], lim, t);
    } else {
      run, end := LastToken(events, lim, t);
    }
  }

  // Wait for exactly one token, and take it.
  lemma LastToken(events: seq<Event>, lim: Limits, t: real) returns (run: seq<Event>, end: real)
    requires 1.0 <= lim.capacity && 0.0 < lim.refill && Unswept(events, lim, t)
    requires SweptAfter(events, lim)[IP].tokens < 1.0
    ensures Unswept(run, lim, end) && SweptAfter(run, lim)[IP].tokens == 0.0
  {
    hide SweptAfter, BucketsAfter, Asked, LevelAt;
    LevelNow(events, lim, t);
    var d := Wait(lim.refill, SweptAfter(events, lim)[IP].tokens);
    LevelAfterWait(SweptAfter(events, lim), lim, t, d);
    AskUnswept(events, lim, t + d);
    run, end := events + [AskAt(t + d)], t + d;
  }

  // ---------- The exact condition ----------

  lemma FirstAsk(lim: Limits)
    requires 1.0 <= lim.capacity
    ensures Unswept([AskAt(0.0)], lim, 0.0) && SweptAfter([AskAt(0.0)], lim)[IP].tokens == lim.capacity - 1.0
  {
    var none: seq<Event> := [];
    assert none + [AskAt(0.0)] == [AskAt(0.0)];
    assert SweptAfter(none, lim) == map[] && BucketsAfter(Asked(none), lim) == map[];
    AskUnswept(none, lim, 0.0);
    GainAdds(lim, 0.0, 0.0, 0.0);
  }

  // A bucket that ten minutes do not fill.
  lemma LowBucket(lim: Limits) returns (run: seq<Event>, t: real)
    requires 1.0 <= lim.capacity && !Forgettable(lim)
    ensures Unswept(run, lim, t)
    ensures var tokens := SweptAfter(run, lim)[IP].tokens;
            && tokens < lim.capacity && tokens + IDLE_SECONDS * lim.refill < lim.capacity
            && (0.0 < lim.refill || tokens == lim.capacity - 1.0)
  {
    FirstAsk(lim);
    run, t := [AskAt(0.0)], 0.0;
    if 0.0 < lim.refill {
      hide SweptAfter, BucketsAfter, Asked, AskAt;
      run, t := Emptied(run, lim, t);
    }
  }

  // An idle time that is long enough for the sweep and too short to fill the bucket.
  lemma IdleTime(tokens: real, lim: Limits) returns (d: real)
    requires tokens + IDLE_SECONDS * lim.refill < lim.capacity
    ensures IDLE_SECONDS < d && tokens + d * lim.refill < lim.capacity
  {
    if lim.refill <= 0.0 {
      d := IDLE_SECONDS + 1.0;
    } else {
      var half := (lim.capacity - tokens - IDLE_SECONDS * lim.refill) / 2.0;
      var more := Wait(lim.refill, 1.0 - half);
      d := IDLE_SECONDS + more;
      assert d * lim.refill == IDLE_SECONDS * lim.refill + more * lim.refill;
    }
  }

  lemma SweepForgets(events: seq<Event>, lim: Limits, t: real, d: real)
    requires Unswept(events, lim, t) && IDLE_SECONDS < d
    ensures var more := events + [Sweep(t + d)];
            && Before(more, t + d) && Swept(more, lim, t + d) == lim.capacity
            && Full(more, lim, t + d) == Swept(events, lim, t + d)
  {
    Appended(events, Sweep(t + d));
    var more := events + [Sweep(t + d)];
    assert SweptAfter(more, lim) == AfterCleanup(SweptAfter(events, lim), t + d);
    assert Asked(more) == Asked(events);
    hide SweptAfter, BucketsAfter, Asked;
    GainAdds(lim, t + d, t + d, t + d);
    hide Gain;
  }

  // A run on which a sweep changes an answer.
  lemma NoticedSweep(lim: Limits) returns (run: seq<Event>)
    requires !Forgettable(lim)
    ensures InOrder(run) && !Unobservable(run, lim)
  {
    var events, t := LowBucket(lim);
    hide SweptAfter, BucketsAfter, Asked, Unobservable, LevelAt, Forgettable;
    LevelNow(events, lim, t);
    var tokens := SweptAfter(events, lim)[IP].tokens;
    var d := IdleTime(tokens, lim);
    LevelAfterWait(SweptAfter(events, lim), lim, t, d);
    SweepForgets(events, lim, t, d);
    assert lim.refill <= 0.0 ==> d * lim.refill <= 0.0;
    run := TellLevels(events + [Sweep(t + d)], lim, t + d);
  }

  // Main result: no sweep inserted anywhere in any run ever changes an answer if and only if ten idle minutes
  // refill a bucket, or the limiter never lets anything through.
  lemma CleanupUnobservableIff(lim: Limits)
    ensures (forall events | InOrder(events) :: Unobservable(events, lim))
       <==> lim.capacity < 1.0 || (0.0 <= lim.refill && lim.capacity <= 600.0 * lim.refill)
  {
    if Forgettable(lim) {
      forall events | InOrder(events) ensures Unobservable(events, lim) {
        CleanupUnobservable(events, lim);
      }
    } else {
      var run := NoticedSweep(lim);
    }
  }

  // ---------- What the sweep remembers ----------

  // The last request of an address, if there is one, as the time at which it was made.
  function LastAsked(events: seq<Event>, ip: string): (t: Option<real>) {
    if events == [] then None
    else
      var n := |events| - 1;
      if events[n].Ask? && events[n].req.ip == ip then Some(events[n].req.at) else LastAsked(events[..n], ip)
  }

  lemma {:induction false} LastAskedIsLatest(events: seq<Event>, ip: string, since: real)
    requires InOrder(events)
    ensures (LastAsked(events, ip).Some? && since <= LastAsked(events, ip).value)
       <==> exists k :: 0 <= k < |events| && events[k].Ask? && events[k].req.ip == ip && since <= events[k].req.at
  {
    if events != [] {
      var n := |events| - 1;
      var pre := events[..n];
      LastAskedIsLatest(pre, ip, since);
      assert forall k | 0 <= k < n :: pre[k] == events[k];
      if events[n].Ask? && events[n].req.ip == ip {
        assert forall k | 0 <= k <= n :: events[k].Time() <= events[n].Time();
      }
    }
  }

  // Every bucket is as old as the last request of its address; every address asked for within the last ten
  // minutes has one.
  ghost predicate Dated(bs: Buckets, events: seq<Event>, ip: string, since: real) {
    && (ip in bs ==> LastAsked(events, ip) == Some(bs[ip].lastSeen))
    && (LastAsked(events, ip).Some? && since <= LastAsked(events, ip).value ==> ip in bs)
  }

  lemma {:induction false} BucketsAreDated(events: seq<Event>, lim: Limits, ip: string, since: real)
    requires forall k | 0 <= k < |events| :: events[k].Time() <= since + 600.0
    ensures Dated(SweptAfter(events, lim), events, ip, since)
  {
    if events != [] {
      BucketsAreDated(events[..|events| - 1], lim, ip, since);
      hide Level, Lookup;
    }
  }

  // Main result: after a sweep at time t, exactly the addresses with a request in the ten minutes before have
  // a bucket.
  lemma SweepRemembersTenMinutes(events: seq<Event>, lim: Limits, t: real, ip: string)
    requires InOrder(events) && forall k | 0 <= k < |events| :: events[k].Time() <= t
    ensures ip in SweptAfter(events + [Sweep(t)], lim)
       <==> exists k :: 0 <= k < |events| && events[k].Ask? && events[k].req.ip == ip && t - 600.0 <= events[k].req.at
  {
    LastAskedIsLatest(events, ip, t - 600.0);
    BucketsAreDated(events, lim, ip, t - 600.0);
    SweepLast(events, lim, t);
    hide SweptAfter, LastAsked;
  }

  lemma SweepLast(events: seq<Event>, lim: Limits, t: real)
    ensures SweptAfter(events + [Sweep(t)], lim) == AfterCleanup(SweptAfter(events, lim), t)
  {
    assert (events + [Sweep(t)])[..|events|] == events;
  }
}
