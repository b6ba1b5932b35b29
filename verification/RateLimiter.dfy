/**
 The per-IP token bucket of pkg/api/security.go: lazy refill on each request, and a
 background sweep that forgets idle buckets.

 Times are seconds on one clock (both operations read it while holding the mutex), and the
 Go floats are exact reals.
 */
module RateLimiter {

  // The value of one bucket.  Its capacity and refill rate are those of its limiter.
  datatype Bucket = Bucket(tokens: real, lastSeen: real)

  datatype Limits = Limits(capacity: real, refill: real)

  type Buckets = map<string, Bucket>

  const IDLE_SECONDS: real := 600.0

  function Gain(lim: Limits, from: real, to: real): real {
    (to - from) * lim.refill
  }

  // The tokens a bucket holds once it has been topped up at time `now`.
  function Level(b: Bucket, lim: Limits, now: real): real {
    var topped := b.tokens + Gain(lim, b.lastSeen, now);
    if topped > lim.capacity then lim.capacity else topped
  }

  function Lookup(bs: Buckets, lim: Limits, ip: string, now: real): Bucket {
    if ip in bs then bs[ip] else Bucket(lim.capacity, now)
  }

  function AfterTake(b: Bucket, lim: Limits, now: real): Bucket {
    var level := Level(b, lim, now);
    Bucket(if level >= 1.0 then level - 1.0 else level, now)
  }

  function Allowed(bs: Buckets, lim: Limits, ip: string, now: real): bool {
    Level(Lookup(bs, lim, ip, now), lim, now) >= 1.0
  }

  function AfterAllow(bs: Buckets, lim: Limits, ip: string, now: real): Buckets {
    bs[ip := AfterTake(Lookup(bs, lim, ip, now), lim, now)]
  }

  function AfterCleanup(bs: Buckets, now: real): Buckets {
    map ip | ip in bs && !(now - bs[ip].lastSeen > IDLE_SECONDS) :: bs[ip]
  }

  class IpBucket {
    var tokens: real
    var lastSeen: real
    const capacity: real
    const refillRate: real

    constructor (tokens: real, lastSeen: real, capacity: real, refillRate: real)
      ensures this.tokens == tokens && this.lastSeen == lastSeen
      ensures this.capacity == capacity && this.refillRate == refillRate
    {
      this.tokens, this.lastSeen := tokens, lastSeen;
      this.capacity, this.refillRate := capacity, refillRate;
    }

    ghost function Value(): Bucket
      reads this
    {
      Bucket(tokens, lastSeen)
    }

    // Top the bucket up to `now` and take one token if there is one.
    method Take(now: real) returns (ok: bool)
      modifies this
      ensures ok == (Level(old(Value()), Limits(capacity, refillRate), now) >= 1.0)
      ensures Value() == AfterTake(old(Value()), Limits(capacity, refillRate), now)
    {
      ghost var before := Value();
      var elapsed := now - lastSeen;
      lastSeen := now;
      tokens := tokens + elapsed * refillRate;
      if tokens > capacity {
        tokens := capacity;
      }
      assert tokens == Level(before, Limits(capacity, refillRate), now);
      if tokens < 1.0 {
        return false;
      }
      tokens := tokens - 1.0;
      return true;
    }
  }

  class IpRateLimiter {
    var buckets: map<string, IpBucket>
    const limits: Limits

    // Buckets carry the limiter's parameters, and no two addresses share one.
    ghost predicate Valid()
      reads this, buckets.Values
    {
      && (forall ip <- buckets ::
            buckets[ip].capacity == limits.capacity && buckets[ip].refillRate == limits.refill)
      && (forall ip, ip' | ip in buckets && ip' in buckets && ip != ip' :: buckets[ip] != buckets[ip'])
    }

    ghost function Contents(): Buckets
      reads this, buckets.Values
    {
      map ip | ip in buckets :: buckets[ip].Value()
    }

    constructor (capacity: real, refillPerMin: real)
      ensures Valid() && Contents() == map[]
      ensures limits == Limits(capacity, refillPerMin / 60.0)
    {
      buckets := map[];
      limits := Limits(capacity, refillPerMin / 60.0);
    }

    // The bucket of `ip`, created full when the address is new.
    method BucketFor(ip: string, now: real) returns (b: IpBucket)
      requires Valid()
      modifies `buckets
      ensures Valid() && ip in buckets && b == buckets[ip]
      ensures buckets.Values <= old(buckets.Values) + {b} && (b in old(buckets.Values) || fresh(b))
      ensures Contents() == old(Contents())[ip := Lookup(old(Contents()), limits, ip, now)]
    {
      if ip !in buckets {
        b := new IpBucket(limits.capacity, now, limits.capacity, limits.refill);
        buckets := buckets[ip := b];
      }
      b := buckets[ip];
    }

    method Allow(ip: string, now: real) returns (ok: bool)
      requires Valid()
      modifies this, buckets.Values
      ensures Valid() && fresh(buckets.Values - old(buckets.Values))
      ensures ok == Allowed(old(Contents()), limits, ip, now)
      ensures Contents() == AfterAllow(old(Contents()), limits, ip, now)
    {
      hide Level, AfterTake, Lookup, Gain;
      var b := BucketFor(ip, now);
      ghost var before := Contents();
      assert b.Value() == before[ip] == Lookup(old(Contents()), limits, ip, now);
      assert Limits(b.capacity, b.refillRate) == limits;
      ok := b.Take(now);
      ContentsAre(before[ip := b.Value()]);
    }

    lemma ContentsAre(bs: Buckets)
      requires bs.Keys == buckets.Keys && forall ip <- buckets :: buckets[ip].Value() == bs[ip]
      ensures Contents() == bs
    {}

    // One tick of the background loop: the sweep it makes while holding the mutex.
    method Cleanup(now: real)
      requires Valid()
      modifies `buckets
      ensures Valid() && buckets.Values <= old(buckets.Values)
      ensures Contents() == AfterCleanup(old(Contents()), now)
    {
      var todo := buckets.Keys;
      while todo != {}
        invariant todo <= buckets.Keys <= old(buckets).Keys
        invariant forall ip <- buckets :: buckets[ip] == old(buckets)[ip]
        invariant forall ip <- old(buckets).Keys - todo ::
                    ip in buckets <==> !(now - old(buckets)[ip].lastSeen > IDLE_SECONDS)
        decreases todo
      {
        var ip :| ip in todo;
        todo := todo - {ip};
        if now - buckets[ip].lastSeen > IDLE_SECONDS {
          buckets := buckets - {ip};
        }
      }
    }
  }

  // ---------- Runs without the sweep ----------

  datatype Request = Request(ip: string, at: real)

  function BucketsAfter(reqs: seq<Request>, lim: Limits): Buckets {
    if reqs == [] then map[]
    else
      var n := |reqs| - 1;
      AfterAllow(BucketsAfter(reqs[..n], lim), lim, reqs[n].ip, reqs[n].at)
  }

  // The answer given to request i of a run.
  function Accepted(reqs: seq<Request>, lim: Limits, i: nat): bool
    requires i < |reqs|
  {
    Allowed(BucketsAfter(reqs[..i], lim), lim, reqs[i].ip, reqs[i].at)
  }

  // How many requests lo..hi of one address were accepted.
  function Hits(reqs: seq<Request>, lim: Limits, ip: string, lo: nat, hi: nat): nat
    requires lo <= hi <= |reqs|
  {
    if lo == hi then 0
    else Hits(reqs, lim, ip, lo, hi - 1)
         + if reqs[hi - 1].ip == ip && Accepted(reqs, lim, hi - 1) then 1 else 0
  }

  // What is left of the sliding-window budget at time t, for the window that starts at request j.
  function WindowRoom(reqs: seq<Request>, lim: Limits, j: nat, hi: nat, t: real): real
    requires j < hi <= |reqs|
  {
    lim.capacity + Gain(lim, reqs[j].at, t) - Hits(reqs, lim, reqs[j].ip, j, hi) as real
  }

  lemma {:induction false} HitsOfPrefix(reqs: seq<Request>, lim: Limits, ip: string, lo: nat, hi: nat, n: nat)
    requires lo <= hi <= n <= |reqs|
    ensures Hits(reqs[..n], lim, ip, lo, hi) == Hits(reqs, lim, ip, lo, hi)
  {
    if lo < hi {
      HitsOfPrefix(reqs, lim, ip, lo, hi - 1, n);
      assert reqs[..n][..hi - 1] == reqs[..hi - 1];
    }
  }

  ghost predicate TightestWindow(reqs: seq<Request>, lim: Limits, ip: string, b: Bucket, k: nat) {
    && (forall j | 0 <= j < |reqs| && reqs[j].ip == ip :: b.tokens <= WindowRoom(reqs, lim, j, |reqs|, b.lastSeen))
    && k < |reqs| && reqs[k].ip == ip
    && b.tokens == WindowRoom(reqs, lim, k, |reqs|, b.lastSeen)
  }

  lemma GainAdds(lim: Limits, a: real, b: real, c: real)
    ensures Gain(lim, a, b) + Gain(lim, b, c) == Gain(lim, a, c)
    ensures Gain(lim, a, a) == 0.0
  {}

  lemma GainIs(lim: Limits, a: real, b: real)
    ensures Gain(lim, a, b) == (b - a) * lim.refill
  {}

  // Refilling raises the bucket and the room of every window by the same amount.
  lemma LevelIsTightestRoom(reqs: seq<Request>, lim: Limits, ip: string, b: Bucket, k: nat, t: real)
    requires TightestWindow(reqs, lim, ip, b, k)
    ensures forall j | 0 <= j < |reqs| && reqs[j].ip == ip ::
              b.tokens + Gain(lim, b.lastSeen, t) <= WindowRoom(reqs, lim, j, |reqs|, t)
    ensures b.tokens + Gain(lim, b.lastSeen, t) == WindowRoom(reqs, lim, k, |reqs|, t)
  {
    hide Gain, Hits;
    forall j | 0 <= j < |reqs| && reqs[j].ip == ip
      ensures WindowRoom(reqs, lim, j, |reqs|, t)
           == WindowRoom(reqs, lim, j, |reqs|, b.lastSeen) + Gain(lim, b.lastSeen, t)
    {
      GainAdds(lim, reqs[j].at, b.lastSeen, t);
    }
  }

  // Room of a window that started before the last request, in terms of the run without it.
  lemma RoomBeforeLast(reqs: seq<Request>, lim: Limits, j: nat, t: real)
    requires j < |reqs| - 1
    ensures var n := |reqs| - 1;
            var taken := reqs[n].ip == reqs[j].ip && Accepted(reqs, lim, n);
            reqs[..n][j] == reqs[j] &&
            WindowRoom(reqs, lim, j, |reqs|, t) == WindowRoom(reqs[..n], lim, j, n, t) - if taken then 1.0 else 0.0
  {
    hide Gain, Accepted;
    var n := |reqs| - 1;
    HitsOfPrefix(reqs, lim, reqs[j].ip, j, n, n);
  }

  lemma RoomOfLast(reqs: seq<Request>, lim: Limits)
    requires reqs != []
    ensures var n := |reqs| - 1;
            WindowRoom(reqs, lim, n, |reqs|, reqs[n].at) == lim.capacity - if Accepted(reqs, lim, n) then 1.0 else 0.0
  {
    hide Accepted;
    var n := |reqs| - 1;
    assert Hits(reqs, lim, reqs[n].ip, n, n) == 0;
  }

  // The request of the address itself keeps its bucket tight.
  lemma TakeKeepsTightest(reqs: seq<Request>, lim: Limits, b: Bucket, k: nat) returns (k': nat)
    requires reqs != []
    requires var n := |reqs| - 1;
             var ip := reqs[n].ip;
             ip in BucketsAfter(reqs[..n], lim) && b == BucketsAfter(reqs[..n], lim)[ip] &&
             TightestWindow(reqs[..n], lim, ip, b, k)
    ensures TightestWindow(reqs, lim, reqs[|reqs| - 1].ip, BucketsAfter(reqs, lim)[reqs[|reqs| - 1].ip], k')
  {
    hide Gain, Hits;
    var n := |reqs| - 1;
    var pre, ip, now := reqs[..n], reqs[n].ip, reqs[n].at;
    LevelIsTightestRoom(pre, lim, ip, b, k, now);
    RoomOfLast(reqs, lim);
    k' := if b.tokens + Gain(lim, b.lastSeen, now) > lim.capacity then n else k;
    forall j | 0 <= j < n
      ensures pre[j] == reqs[j]
      ensures reqs[j].ip == ip ==> (WindowRoom(reqs, lim, j, |reqs|, now)
              == WindowRoom(pre, lim, j, n, now) - if Accepted(reqs, lim, n) then 1.0 else 0.0)
    {
      RoomBeforeLast(reqs, lim, j, now);
    }
    hide WindowRoom;
  }

  // The request of another address changes nothing for this one.
  lemma OtherKeepsTightest(reqs: seq<Request>, lim: Limits, ip: string, b: Bucket, k: nat)
    requires reqs != [] && reqs[|reqs| - 1].ip != ip && TightestWindow(reqs[..|reqs| - 1], lim, ip, b, k)
    ensures TightestWindow(reqs, lim, ip, b, k)
  {
    var n := |reqs| - 1;
    forall j | 0 <= j < n
      ensures reqs[..n][j] == reqs[j]
      ensures reqs[j].ip == ip ==>
                WindowRoom(reqs, lim, j, |reqs|, b.lastSeen) == WindowRoom(reqs[..n], lim, j, n, b.lastSeen)
    {
      RoomBeforeLast(reqs, lim, j, b.lastSeen);
    }
    hide WindowRoom;
  }

  lemma FirstIsTightest(reqs: seq<Request>, lim: Limits)
    requires reqs != [] && forall j | 0 <= j < |reqs| - 1 :: reqs[j].ip != reqs[|reqs| - 1].ip
    ensures var n := |reqs| - 1;
            && reqs[n].ip in BucketsAfter(reqs, lim)
            && TightestWindow(reqs, lim, reqs[n].ip, BucketsAfter(reqs, lim)[reqs[n].ip], n)
  {
    var n := |reqs| - 1;
    NeverSeen(reqs[..n], lim, reqs[n].ip);
    RoomOfLast(reqs, lim);
    GainAdds(lim, reqs[n].at, reqs[n].at, reqs[n].at);
    hide WindowRoom, Gain;
  }

  // A bucket holds exactly the room of the tightest window of its address.
  lemma {:induction false} TokensAreTightestRoom(reqs: seq<Request>, lim: Limits, ip: string) returns (k: nat)
    requires exists j :: 0 <= j < |reqs| && reqs[j].ip == ip
    ensures ip in BucketsAfter(reqs, lim)
    ensures TightestWindow(reqs, lim, ip, BucketsAfter(reqs, lim)[ip], k)
  {
    hide TightestWindow, Lookup, AfterTake;
    var n := |reqs| - 1;
    var pre, last := reqs[..n], reqs[n];
    if exists j :: 0 <= j < n && pre[j].ip == ip {
      k := TokensAreTightestRoom(pre, lim, ip);
      var b := BucketsAfter(pre, lim)[ip];
      if last.ip == ip {
        k := TakeKeepsTightest(reqs, lim, b, k);
      } else {
        OtherKeepsTightest(reqs, lim, ip, b, k);
      }
    } else {
      assert forall j | 0 <= j < n :: pre[j] == reqs[j];
      FirstIsTightest(reqs, lim);
      k := n;
    }
  }

  lemma {:induction false} NeverSeen(reqs: seq<Request>, lim: Limits, ip: string)
    requires forall j | 0 <= j < |reqs| :: reqs[j].ip != ip
    ensures ip !in BucketsAfter(reqs, lim)
  {
    if reqs != [] {
      NeverSeen(reqs[..|reqs| - 1], lim, ip);
    }
  }

  lemma AcceptedIffRoom(reqs: seq<Request>, lim: Limits, i: nat)
    requires i < |reqs|
    ensures Accepted(reqs, lim, i) <==>
            forall j | 0 <= j <= i && reqs[j].ip == reqs[i].ip ::
              Hits(reqs, lim, reqs[i].ip, j, i) as real + 1.0 <= lim.capacity + Gain(lim, reqs[j].at, reqs[i].at)
  {
    hide Gain;
    var pre, ip, now := reqs[..i], reqs[i].ip, reqs[i].at;
    GainAdds(lim, now, now, now);
    forall j | 0 <= j < i
      ensures pre[j] == reqs[j]
      ensures Hits(pre, lim, ip, j, i) == Hits(reqs, lim, ip, j, i)
    {
      HitsOfPrefix(reqs, lim, ip, j, i, i);
    }
    if exists j :: 0 <= j < i && pre[j].ip == ip {
      var k := TokensAreTightestRoom(pre, lim, ip);
      LevelIsTightestRoom(pre, lim, ip, BucketsAfter(pre, lim)[ip], k, now);
    } else {
      NeverSeen(pre, lim, ip);
    }
    assert Hits(reqs, lim, ip, i, i) == 0;
  }

  // Main result: the bucket is exactly the sliding-window bound.  A request is accepted if and
  // only if every window that starts at this or an earlier request of its address has room for it.
  lemma AcceptedIffEveryWindowHasRoom(reqs: seq<Request>, lim: Limits, i: nat)
    requires i < |reqs|
    ensures Accepted(reqs, lim, i) <==>
            forall j | 0 <= j <= i && reqs[j].ip == reqs[i].ip ::
              Hits(reqs, lim, reqs[i].ip, j, i) as real + 1.0
              <= lim.capacity + (reqs[i].at - reqs[j].at) * lim.refill
  {
    hide Accepted, Hits, Gain;
    if Accepted(reqs, lim, i) {
      forall j | 0 <= j <= i && reqs[j].ip == reqs[i].ip
        ensures Hits(reqs, lim, reqs[i].ip, j, i) as real + 1.0
                <= lim.capacity + (reqs[i].at - reqs[j].at) * lim.refill
      {
        AcceptedHasRoom(reqs, lim, j, i);
        GainIs(lim, reqs[j].at, reqs[i].at);
      }
    } else {
      var j := RejectedHasNoRoom(reqs, lim, i);
      GainIs(lim, reqs[j].at, reqs[i].at);
    }
  }

  lemma AcceptedHasRoom(reqs: seq<Request>, lim: Limits, j: nat, i: nat)
    requires j <= i < |reqs| && reqs[j].ip == reqs[i].ip && Accepted(reqs, lim, i)
    ensures Hits(reqs, lim, reqs[i].ip, j, i) as real + 1.0 <= lim.capacity + Gain(lim, reqs[j].at, reqs[i].at)
  {
    hide Accepted, Gain, Hits;
    AcceptedIffRoom(reqs, lim, i);
  }

  lemma RejectedHasNoRoom(reqs: seq<Request>, lim: Limits, i: nat) returns (j: nat)
    requires i < |reqs| && !Accepted(reqs, lim, i)
    ensures j <= i && reqs[j].ip == reqs[i].ip
    ensures Hits(reqs, lim, reqs[i].ip, j, i) as real + 1.0 > lim.capacity + Gain(lim, reqs[j].at, reqs[i].at)
  {
    hide Accepted, Gain, Hits;
    AcceptedIffRoom(reqs, lim, i);
    j :| 0 <= j <= i && reqs[j].ip == reqs[i].ip
         && Hits(reqs, lim, reqs[i].ip, j, i) as real + 1.0 > lim.capacity + Gain(lim, reqs[j].at, reqs[i].at);
  }

  lemma MulMonotone(a: real, b: real, r: real)
    requires 0.0 <= r && a <= b
    ensures a * r <= b * r
  {
    assert 0.0 <= (b - a) * r;
  }

  lemma GainWithin(lim: Limits, s: real, a: real, b: real, e: real)
    requires 0.0 <= lim.refill && s <= a && b <= e
    ensures Gain(lim, a, b) <= Gain(lim, s, e)
  {
    MulMonotone(b - a, e - s, lim.refill);
  }

  lemma {:induction false} HitsSkip(reqs: seq<Request>, lim: Limits, ip: string, lo: nat, hi: nat)
    requires lo < hi <= |reqs| && reqs[lo].ip != ip
    ensures Hits(reqs, lim, ip, lo, hi) == Hits(reqs, lim, ip, lo + 1, hi)
  {
    if lo + 1 < hi {
      HitsSkip(reqs, lim, ip, lo, hi - 1);
    } else {
      assert Hits(reqs, lim, ip, lo, lo) == 0;
    }
  }

  lemma {:induction false} WindowGain(
      reqs: seq<Request>, lim: Limits, ip: string, lo: nat, hi: nat, s: real, e: real)
    requires 0.0 <= lim.capacity && 0.0 <= lim.refill
    requires lo <= hi <= |reqs| && s <= e
    requires forall i | lo <= i < hi :: s <= reqs[i].at <= e
    ensures Hits(reqs, lim, ip, lo, hi) as real <= lim.capacity + Gain(lim, s, e)
    decreases hi - lo
  {
    hide Gain, Accepted;
    if lo == hi {
      GainWithin(lim, s, s, s, e);
      GainAdds(lim, s, s, s);
    } else if reqs[lo].ip != ip {
      HitsSkip(reqs, lim, ip, lo, hi);
      WindowGain(reqs, lim, ip, lo + 1, hi, s, e);
    } else if reqs[hi - 1].ip != ip || !Accepted(reqs, lim, hi - 1) {
      WindowGain(reqs, lim, ip, lo, hi - 1, s, e);
    } else {
      AcceptedHasRoom(reqs, lim, lo, hi - 1);
      GainWithin(lim, s, reqs[lo].at, reqs[hi - 1].at, e);
    }
  }

  // No real-time window [s, e] ever lets through more than the capacity plus what it refills.
  lemma WindowNeverExceeded(reqs: seq<Request>, lim: Limits, ip: string, lo: nat, hi: nat, s: real, e: real)
    requires 0.0 <= lim.capacity && 0.0 <= lim.refill
    requires lo <= hi <= |reqs| && s <= e
    requires forall i | lo <= i < hi :: s <= reqs[i].at <= e
    ensures Hits(reqs, lim, ip, lo, hi) as real <= lim.capacity + (e - s) * lim.refill
  {
    hide Hits;
    WindowGain(reqs, lim, ip, lo, hi, s, e);
    GainIs(lim, s, e);
    hide Gain;
  }

  // ---------- Runs with the sweep ----------

  datatype Event = Ask(req: Request) | Sweep(at: real) {
    function Time(): real {
      match this
      case Ask(req) => req.at
      case Sweep(at) => at
    }
  }

  predicate InOrder(events: seq<Event>) {
    forall i, j | 0 <= i < j < |events| :: events[i].Time() <= events[j].Time()
  }

  function Asked(events: seq<Event>): seq<Request> {
    if events == [] then []
    else
      var n := |events| - 1;
      Asked(events[..n]) + if events[n].Ask? then [events[n].req] else []
  }

  function SweptAfter(events: seq<Event>, lim: Limits): Buckets {
    if events == [] then map[]
    else
      var n := |events| - 1;
      var bs := SweptAfter(events[..n], lim);
      match events[n]
      case Ask(req) => AfterAllow(bs, lim, req.ip, req.at)
      case Sweep(at) => AfterCleanup(bs, at)
  }

  // The answers given to the requests among `events`, in order.
  function Answers(events: seq<Event>, lim: Limits): seq<bool> {
    if events == [] then []
    else
      var n := |events| - 1;
      Answers(events[..n], lim)
      + match events[n]
        case Ask(req) => [Allowed(SweptAfter(events[..n], lim), lim, req.ip, req.at)]
        case Sweep(_) => []
  }

  // An idle period long enough to be forgotten is long enough to refill the bucket, or the bucket
  // never lets anything through.
  predicate Forgettable(lim: Limits) {
    lim.capacity < 1.0 || (0.0 <= lim.refill && lim.capacity <= lim.refill * IDLE_SECONDS)
  }

  // getGlobalRateLimiter passes the same number as capacity and as refill per minute.
  function PoolLimits(requestsPerMin: int): Limits {
    Limits(requestsPerMin as real, requestsPerMin as real / 60.0)
  }

  ghost predicate OnlyIdleForgotten(swept: Buckets, full: Buckets, now: real) {
    && (forall ip <- swept :: ip in full && swept[ip] == full[ip])
    && (forall ip <- full :: 0.0 <= full[ip].tokens && full[ip].lastSeen <= now)
    && (forall ip <- full | ip !in swept :: now - full[ip].lastSeen > IDLE_SECONDS)
  }

  lemma IdleBucketIsFull(b: Bucket, lim: Limits, now: real)
    requires 1.0 <= lim.capacity && Forgettable(lim)
    requires 0.0 <= b.tokens && now - b.lastSeen > IDLE_SECONDS
    ensures Level(b, lim, now) == lim.capacity
  {
    MulMonotone(IDLE_SECONDS, now - b.lastSeen, lim.refill);
    assert Gain(lim, b.lastSeen, now) >= IDLE_SECONDS * lim.refill >= lim.capacity;
    hide Gain;
  }

  lemma TakeKeepsTokens(b: Bucket, lim: Limits, now: real)
    requires 1.0 <= lim.capacity && 0.0 <= lim.refill
    requires 0.0 <= b.tokens && b.lastSeen <= now
    ensures 0.0 <= AfterTake(b, lim, now).tokens
  {
    MulMonotone(0.0, now - b.lastSeen, lim.refill);
  }

  lemma SameAnswer(swept: Buckets, full: Buckets, lim: Limits, ip: string, now: real)
    requires 1.0 <= lim.capacity && Forgettable(lim) && OnlyIdleForgotten(swept, full, now)
    ensures Level(Lookup(swept, lim, ip, now), lim, now) == Level(Lookup(full, lim, ip, now), lim, now)
  {
    if ip in full && ip !in swept {
      IdleBucketIsFull(full[ip], lim, now);
    }
  }

  lemma AllowKeepsOnlyIdle(swept: Buckets, full: Buckets, lim: Limits, ip: string, now: real)
    requires 1.0 <= lim.capacity && Forgettable(lim) && OnlyIdleForgotten(swept, full, now)
    ensures OnlyIdleForgotten(AfterAllow(swept, lim, ip, now), AfterAllow(full, lim, ip, now), now)
  {
    SameAnswer(swept, full, lim, ip, now);
    TakeKeepsTokens(Lookup(full, lim, ip, now), lim, now);
    hide Level;
  }

  lemma CleanupKeepsOnlyIdle(swept: Buckets, full: Buckets, now: real)
    requires OnlyIdleForgotten(swept, full, now)
    ensures OnlyIdleForgotten(AfterCleanup(swept, now), full, now)
  {}

  lemma OnlyIdleLater(swept: Buckets, full: Buckets, now: real, later: real)
    requires OnlyIdleForgotten(swept, full, now) && now <= later
    ensures OnlyIdleForgotten(swept, full, later)
  {}

  lemma {:induction false} SweepForgetsOnlyIdle(events: seq<Event>, lim: Limits, now: real)
    requires InOrder(events) && Forgettable(lim) && 1.0 <= lim.capacity
    requires events != [] ==> events[|events| - 1].Time() <= now
    ensures OnlyIdleForgotten(SweptAfter(events, lim), BucketsAfter(Asked(events), lim), now)
  {
    if events != [] {
      hide AfterAllow, AfterCleanup, Forgettable, OnlyIdleForgotten;
      var n := |events| - 1;
      var pre, t := events[..n], events[n].Time();
      SweepForgetsOnlyIdle(pre, lim, t);
      if events[n].Ask? {
        assert Asked(events)[..|Asked(pre)|] == Asked(pre);
        AllowKeepsOnlyIdle(SweptAfter(pre, lim), BucketsAfter(Asked(pre), lim), lim, events[n].req.ip, t);
      } else {
        assert Asked(events) == Asked(pre);
        CleanupKeepsOnlyIdle(SweptAfter(pre, lim), BucketsAfter(Asked(pre), lim), t);
      }
      OnlyIdleLater(SweptAfter(events, lim), BucketsAfter(Asked(events), lim), t, now);
    } else {
      assert OnlyIdleForgotten(map[], map[], now);
    }
  }

  // Main result: sweeps inserted anywhere in a run never change an answer.
  lemma {:induction false} CleanupUnobservable(events: seq<Event>, lim: Limits)
    requires InOrder(events) && Forgettable(lim)
    ensures |Answers(events, lim)| == |Asked(events)|
    ensures forall i | 0 <= i < |Asked(events)| :: Answers(events, lim)[i] == Accepted(Asked(events), lim, i)
  {
    if events != [] {
      hide Forgettable, AfterAllow, AfterCleanup;
      var n := |events| - 1;
      var pre := events[..n];
      CleanupUnobservable(pre, lim);
      var asked := Asked(events);
      forall i | 0 <= i < |Asked(pre)|
        ensures Accepted(asked, lim, i) == Accepted(Asked(pre), lim, i)
      {
        assert asked[..i] == Asked(pre)[..i];
      }
      if events[n].Ask? {
        assert asked[..|Asked(pre)|] == Asked(pre);
        if lim.capacity < 1.0 {
        } else {
          SweepForgetsOnlyIdle(pre, lim, events[n].Time());
          SameAnswer(SweptAfter(pre, lim), BucketsAfter(Asked(pre), lim), lim, events[n].req.ip, events[n].Time());
        }
      }
    }
  }

  // How many of the requests lo..hi of one address got the answer yes.
  function Yes(reqs: seq<Request>, answers: seq<bool>, ip: string, lo: nat, hi: nat): nat
    requires lo <= hi <= |reqs| == |answers|
  {
    if lo == hi then 0
    else Yes(reqs, answers, ip, lo, hi - 1) + if reqs[hi - 1].ip == ip && answers[hi - 1] then 1 else 0
  }

  lemma {:induction false} YesAreHits(
      reqs: seq<Request>, answers: seq<bool>, lim: Limits, ip: string, lo: nat, hi: nat)
    requires lo <= hi <= |reqs| == |answers|
    requires forall k | 0 <= k < |reqs| :: answers[k] == Accepted(reqs, lim, k)
    ensures Yes(reqs, answers, ip, lo, hi) == Hits(reqs, lim, ip, lo, hi)
  {
    hide Accepted;
    if lo < hi {
      YesAreHits(reqs, answers, lim, ip, lo, hi - 1);
    }
  }

  // Among the requests so far, the window that starts at request j has room for one more.
  predicate YesRoom(reqs: seq<Request>, answers: seq<bool>, lim: Limits, j: nat, i: nat)
    requires j <= i < |reqs| == |answers|
  {
    Yes(reqs, answers, reqs[i].ip, j, i) as real + 1.0 <= lim.capacity + Gain(lim, reqs[j].at, reqs[i].at)
  }

  lemma PoolRoom(reqs: seq<Request>, answers: seq<bool>, requestsPerMin: int, j: nat, i: nat)
    requires j <= i < |reqs| == |answers|
    ensures YesRoom(reqs, answers, PoolLimits(requestsPerMin), j, i)
       <==> Yes(reqs, answers, reqs[i].ip, j, i) as real + 1.0
            <= requestsPerMin as real + (reqs[i].at - reqs[j].at) * (requestsPerMin as real / 60.0)
  {
    hide Yes;
    GainIs(PoolLimits(requestsPerMin), reqs[j].at, reqs[i].at);
    hide Gain;
  }

  lemma AnswerIffRoom(reqs: seq<Request>, answers: seq<bool>, lim: Limits, i: nat)
    requires i < |reqs| == |answers|
    requires forall k | 0 <= k < |reqs| :: answers[k] == Accepted(reqs, lim, k)
    ensures answers[i]
       <==> forall j | 0 <= j <= i && reqs[j].ip == reqs[i].ip :: YesRoom(reqs, answers, lim, j, i)
  {
    hide Accepted, Hits, Yes, Gain;
    AcceptedIffRoom(reqs, lim, i);
    forall j | 0 <= j <= i
      ensures Yes(reqs, answers, reqs[i].ip, j, i) == Hits(reqs, lim, reqs[i].ip, j, i)
    {
      YesAreHits(reqs, answers, lim, reqs[i].ip, j, i);
    }
  }

  lemma PoolForgets(requestsPerMin: int)
    ensures Forgettable(PoolLimits(requestsPerMin))
  {}

  // The limiter as it is deployed, sweeps included: the answer to request i is yes exactly if, in every window
  // that starts at this or an earlier request of its address, there is room for one more among r and what a
  // rate of r per minute has added since, whatever integer r the route was configured with.
  lemma PoolLimiterIsExact(events: seq<Event>, requestsPerMin: int, i: nat)
    requires InOrder(events) && i < |Asked(events)|
    ensures var reqs, answers := Asked(events), Answers(events, PoolLimits(requestsPerMin));
            && |answers| == |reqs|
            && (answers[i] <==>
                forall j | 0 <= j <= i && reqs[j].ip == reqs[i].ip ::
                  Yes(reqs, answers, reqs[i].ip, j, i) as real + 1.0
                  <= requestsPerMin as real + (reqs[i].at - reqs[j].at) * (requestsPerMin as real / 60.0))
  {
    hide *;
    var reqs, lim := Asked(events), PoolLimits(requestsPerMin);
    var answers := Answers(events, lim);
    PoolForgets(requestsPerMin);
    CleanupUnobservable(events, lim);
    AnswerIffRoom(reqs, answers, lim, i);
    if answers[i] {
      forall j | 0 <= j <= i && reqs[j].ip == reqs[i].ip
        ensures Yes(reqs, answers, reqs[i].ip, j, i) as real + 1.0
                <= requestsPerMin as real + (reqs[i].at - reqs[j].at) * (requestsPerMin as real / 60.0)
      {
        PoolRoom(reqs, answers, requestsPerMin, j, i);
      }
    } else {
      var j :| 0 <= j <= i && reqs[j].ip == reqs[i].ip && !YesRoom(reqs, answers, lim, j, i);
      PoolRoom(reqs, answers, requestsPerMin, j, i);
    }
  }

  // The limiters that the routes share, one for each configured rate.
  class LimiterPool {
    var limiters: map<int, IpRateLimiter>

    constructor ()
      ensures limiters == map[]
    {
      limiters := map[];
    }

    method GetGlobalRateLimiter(requestsPerMin: int) returns (rl: IpRateLimiter)
      modifies this
      ensures limiters == old(limiters)[requestsPerMin := rl]
      ensures requestsPerMin in old(limiters) ==> rl == old(limiters)[requestsPerMin]
      ensures requestsPerMin !in old(limiters) ==>
                && fresh(rl) && rl.Valid() && rl.Contents() == map[] && rl.limits == PoolLimits(requestsPerMin)
                && rl.limits == Limits(requestsPerMin as real, requestsPerMin as real / 60.0)
    {
      if requestsPerMin in limiters {
        return limiters[requestsPerMin];
      }
      rl := new IpRateLimiter(requestsPerMin as real, requestsPerMin as real);
      limiters := limiters[requestsPerMin := rl];
    }
  }
}
