/**
 The lock table of pkg/cluster/lock_backend.go.  Every call is one atomic step on a shared table
 of rows; a call that writes an expiry computes it from a clock reading `read` taken before the
 step itself runs, at time `at`.
 */
module LeaseTable {
  import opened Options

  datatype Row = Row(holder: string, expires: int)

  type Table = map<string, Row>

  datatype Call =
    | TryAcquire(key: string, holder: string, ttl: int, read: int, at: int)
    | Release(key: string, holder: string, at: int)
    | Refresh(key: string, holder: string, ttl: int, read: int, at: int)

  predicate Holds(t: Table, key: string, holder: string) {
    key in t && t[key].holder == holder
  }

  predicate Succeeds(t: Table, c: Call) {
    match c
    case TryAcquire(key, _, _, _, at) => key !in t || at > t[key].expires
    case Release(key, holder, _) => Holds(t, key, holder)
    case Refresh(key, holder, _, _, _) => Holds(t, key, holder)
  }

  function After(t: Table, c: Call): Table {
    if !Succeeds(t, c) then t
    else
      match c
      case TryAcquire(key, holder, ttl, read, _) => t[key := Row(holder, read + ttl)]
      case Release(key, _, _) => t - {key}
      case Refresh(key, holder, ttl, read, _) => t[key := Row(holder, read + ttl)]
  }

  datatype Outcome = Done(ok: bool) | DatabaseError

  // `up` says whether the database answers this call; when it does not, nothing is written.
  class SQLiteLockBackend {
    var rows: Table

    constructor ()
      ensures rows == map[]
    {
      rows := map[];
    }

    method TryAcquire(key: string, holder: string, ttl: int, read: int, at: int, up: bool) returns (r: Outcome)
      modifies this
      ensures r == if up then Done(Succeeds(old(rows), Call.TryAcquire(key, holder, ttl, read, at))) else DatabaseError
      ensures rows == if up then After(old(rows), Call.TryAcquire(key, holder, ttl, read, at)) else old(rows)
    {
      var expires := read + ttl;
      if !up {
        return DatabaseError;
      }
      if key !in rows {
        rows := rows[key := Row(holder, expires)];
        return Done(true);
      }
      if at > rows[key].expires {
        rows := rows[key := Row(holder, expires)];
        return Done(true);
      }
      return Done(false);
    }

    method Release(key: string, holder: string, at: int, up: bool) returns (r: Outcome)
      modifies this
      ensures r == if up then Done(Succeeds(old(rows), Call.Release(key, holder, at))) else DatabaseError
      ensures rows == if up then After(old(rows), Call.Release(key, holder, at)) else old(rows)
    {
      if !up {
        return DatabaseError;
      }
      var kept := map k | k in rows && !(k == key && rows[k].holder == holder) :: rows[k];
      var affected := kept != rows;
      rows := kept;
      return Done(affected);
    }

    method Refresh(key: string, holder: string, ttl: int, read: int, at: int, up: bool) returns (r: Outcome)
      modifies this
      ensures r == if up then Done(Succeeds(old(rows), Call.Refresh(key, holder, ttl, read, at))) else DatabaseError
      ensures rows == if up then After(old(rows), Call.Refresh(key, holder, ttl, read, at)) else old(rows)
    {
      var expires := read + ttl;
      if !up {
        return DatabaseError;
      }
      var affected := exists k <- rows.Keys :: k == key && rows[k].holder == holder;
      rows := map k | k in rows ::
                if k == key && rows[k].holder == holder then rows[k].(expires := expires) else rows[k];
      return Done(affected);
    }
  }

  // ---------- Runs ----------

  function TableAfter(calls: seq<Call>): Table {
    if calls == [] then map[]
    else After(TableAfter(calls[..|calls| - 1]), calls[|calls| - 1])
  }

  predicate SucceedsAt(calls: seq<Call>, i: nat)
    requires i < |calls|
  {
    Succeeds(TableAfter(calls[..i]), calls[i])
  }

  // Steps run in clock order, and nobody reads a clock value that is still to come.
  ghost predicate Clocked(calls: seq<Call>) {
    && (forall i, j | 0 <= i < j < |calls| :: calls[i].at <= calls[j].at)
    && (forall i | 0 <= i < |calls| && !calls[i].Release? :: calls[i].read <= calls[i].at)
  }

  predicate Is(c: Call, key: string, holder: string) {
    c.key == key && c.holder == holder
  }

  // The expiry `holder` wrote last on `key`.
  function LastExpiry(calls: seq<Call>, key: string, holder: string): Option<int> {
    if calls == [] then None
    else
      var pre, c := calls[..|calls| - 1], calls[|calls| - 1];
      if Is(c, key, holder) && !c.Release? && Succeeds(TableAfter(pre), c) then Some(c.read + c.ttl)
      else LastExpiry(pre, key, holder)
  }

  predicate Wins(calls: seq<Call>, i: nat, key: string, holder: string)
    requires i < |calls|
  {
    calls[i].TryAcquire? && Is(calls[i], key, holder) && SucceedsAt(calls, i)
  }

  predicate Releases(calls: seq<Call>, i: nat, key: string, holder: string)
    requires i < |calls|
  {
    calls[i].Release? && Is(calls[i], key, holder) && SucceedsAt(calls, i)
  }

  // The lease of `holder` is in the table with the expiry it wrote last, or that expiry has passed.
  ghost predicate LeaseAccounted(calls: seq<Call>, key: string, holder: string) {
    && calls != []
    && var x := LastExpiry(calls, key, holder);
    && x.Some?
    && (Holds(TableAfter(calls), key, holder) ==> TableAfter(calls)[key].expires == x.value)
    && (!Holds(TableAfter(calls), key, holder) ==> x.value < calls[|calls| - 1].at)
  }

  lemma {:induction false} LeaseStaysAccounted(calls: seq<Call>, i: nat, key: string, holder: string)
    requires Clocked(calls) && i < |calls| && Wins(calls, i, key, holder)
    requires forall r | i < r < |calls| :: !Releases(calls, r, key, holder)
    ensures LeaseAccounted(calls, key, holder)
  {
    var n := |calls| - 1;
    var pre := calls[..n];
    if i < n {
      forall r | 0 <= r < n
        ensures pre[..r] == calls[..r]
      {}
      assert forall r | i < r < n :: Releases(pre, r, key, holder) == Releases(calls, r, key, holder);
      LeaseStaysAccounted(pre, i, key, holder);
      assert !Releases(calls, n, key, holder) && calls[..n] == pre;
    } else {
      assert calls[..i] == pre;
    }
  }

  // Main result, over whole runs: when two different holders win the same key, the later one
  // checked strictly after the last expiry the earlier one wrote, or the earlier one released.
  lemma LeaseExclusion(calls: seq<Call>, i: nat, j: nat, key: string, first: string, second: string)
    requires Clocked(calls) && i < j < |calls| && first != second
    requires Wins(calls, i, key, first) && Wins(calls, j, key, second)
    ensures (exists r :: i < r < j && Releases(calls, r, key, first))
            || (LastExpiry(calls[..j], key, first).Some? && LastExpiry(calls[..j], key, first).value < calls[j].at)
  {
    var pre := calls[..j];
    forall r | 0 <= r < j
      ensures pre[..r] == calls[..r]
    {}
    if forall r | i < r < j :: !Releases(calls, r, key, first) {
      assert forall r | i < r < j :: Releases(pre, r, key, first) == Releases(calls, r, key, first);
      LeaseStaysAccounted(pre, i, key, first);
    }
  }

  // ---------- Which calls succeed, from the answers before ----------

  // The latest call that won the key.
  function LastWin(calls: seq<Call>, key: string): (w: Option<nat>)
    ensures w.Some? ==> w.value < |calls| && calls[w.value].TryAcquire? && calls[w.value].key == key
  {
    if calls == [] then None
    else
      var n := |calls| - 1;
      if calls[n].TryAcquire? && calls[n].key == key && SucceedsAt(calls, n) then Some(n)
      else LastWin(calls[..n], key)
  }

  // The winner of call w has made a Release of the key since.
  predicate ReleasedSince(calls: seq<Call>, w: nat)
    requires w < |calls|
  {
    exists r | w < r < |calls| :: calls[r].Release? && Is(calls[r], calls[w].key, calls[w].holder)
  }

  // The expiry given by the winner of call w, or by its latest Refresh of the key since.
  function LastWrite(calls: seq<Call>, w: nat): int
    requires w < |calls| && calls[w].TryAcquire?
  {
    var n := |calls| - 1;
    if n == w || (calls[n].Refresh? && Is(calls[n], calls[w].key, calls[w].holder)) then
      calls[n].read + calls[n].ttl
    else LastWrite(calls[..n], w)
  }

  // The winner has the row.
  predicate WinnerHolds(calls: seq<Call>, key: string) {
    var w := LastWin(calls, key);
    w.Some? && !ReleasedSince(calls, w.value)
  }

  lemma ReleasedStep(calls: seq<Call>, w: nat)
    requires w < |calls| - 1
    ensures var n := |calls| - 1;
            ReleasedSince(calls, w)
            <==> ReleasedSince(calls[..n], w) || (calls[n].Release? && Is(calls[n], calls[w].key, calls[w].holder))
  {
    var n := |calls| - 1;
    assert forall r | 0 <= r < n :: calls[..n][r] == calls[r];
  }

  // A row is that of the latest winner, with the expiry it wrote last, as long as it has not released the key.
  lemma {:induction false} RowIsWinners(calls: seq<Call>, key: string)
    ensures key in TableAfter(calls) <==> WinnerHolds(calls, key)
    ensures WinnerHolds(calls, key) ==>
              var w := LastWin(calls, key).value;
              TableAfter(calls)[key] == Row(calls[w].holder, LastWrite(calls, w))
  {
    if calls != [] {
      var n := |calls| - 1;
      var pre, c := calls[..n], calls[n];
      RowIsWinners(pre, key);
      hide ReleasedSince;
      if LastWin(calls, key) == Some(n) {
        NotReleasedAtOnce(calls);
      } else if LastWin(pre, key).Some? {
        ReleasedStep(calls, LastWin(pre, key).value);
      }
    }
  }

  lemma NotReleasedAtOnce(calls: seq<Call>)
    requires calls != []
    ensures !ReleasedSince(calls, |calls| - 1)
  {}

  // Main result, over whole runs: a TryAcquire succeeds if and only if nobody has won the key yet, or its latest
  // winner has released it, or the expiry that the winner wrote last has passed; a Refresh or Release succeeds if and
  // only if its holder is the latest winner and has not released the key.
  lemma SucceedsIff(calls: seq<Call>, i: nat)
    requires i < |calls|
    ensures var pre, c := calls[..i], calls[i];
            var w := LastWin(pre, c.key);
            SucceedsAt(calls, i) <==>
            if c.TryAcquire? then w.None? || ReleasedSince(pre, w.value) || LastWrite(pre, w.value) < c.at
            else w.Some? && pre[w.value].holder == c.holder && !ReleasedSince(pre, w.value)
  {
    RowIsWinners(calls[..i], calls[i].key);
    hide ReleasedSince, LastWrite, LastWin, TableAfter;
  }

  // A row changes hands only once it has expired, and goes away only when its holder releases it.
  lemma UnexpiredRowKeepsHolder(t: Table, c: Call, key: string)
    requires key in t && c.at <= t[key].expires
    ensures Holds(After(t, c), key, t[key].holder) || c == Release(key, t[key].holder, c.at)
  {}

  // ---------- Keep-alive ----------

  // Calls i+1..n of one lease period: the holder only refreshes.
  ghost predicate OnlyRefreshes(calls: seq<Call>, i: nat, key: string, holder: string) {
    forall r | i < r < |calls| && Is(calls[r], key, holder) :: calls[r].Refresh?
  }

  // Every refresh of the period before call n runs no later than the expiry written before it.
  ghost predicate RefreshesInTime(calls: seq<Call>, i: nat, n: nat, key: string, holder: string)
    requires n <= |calls|
  {
    forall r | i < r < n && Is(calls[r], key, holder) ::
      var x := LastExpiry(calls[..r], key, holder);
      x.Some? && calls[r].at <= x.value
  }

  lemma {:induction false} LostStaysLost(calls: seq<Call>, j: nat, key: string, holder: string)
    requires j <= |calls| && !Holds(TableAfter(calls[..j]), key, holder)
    requires forall r | j <= r < |calls| && Is(calls[r], key, holder) :: calls[r].Refresh?
    ensures !Holds(TableAfter(calls), key, holder)
    ensures LastExpiry(calls, key, holder) == LastExpiry(calls[..j], key, holder)
  {
    if j < |calls| {
      var pre := calls[..|calls| - 1];
      assert pre[..j] == calls[..j];
      LostStaysLost(pre, j, key, holder);
    } else {
      assert calls[..j] == calls;
    }
  }

  lemma {:induction false} StillHeld(calls: seq<Call>, i: nat, j: nat, key: string, holder: string)
    requires Clocked(calls) && i < j <= |calls| && Wins(calls, i, key, holder)
    requires OnlyRefreshes(calls, i, key, holder) && RefreshesInTime(calls, i, |calls|, key, holder)
    requires Is(calls[|calls| - 1], key, holder)
    ensures Holds(TableAfter(calls[..j]), key, holder)
    decreases j
  {
    var n := |calls| - 1;
    var pre := calls[..j];
    forall r | 0 <= r < j
      ensures pre[..r] == calls[..r]
    {}
    if j == |calls| {
      assert pre == calls;
      if i < n {
        StillHeld(calls, i, n, key, holder);
      }
    } else {
      LeaseStaysAccounted(pre, i, key, holder);
      if !Holds(TableAfter(pre), key, holder) {
        // The last refresh of the period would have run after the expiry it was to extend.
        assert calls[..n][..j] == pre;
        LostStaysLost(calls[..n], j, key, holder);
        assert false;
      }
    }
  }

  lemma HeldAcross(t: Table, c: Call, key: string, holder: string)
    requires Holds(t, key, holder) && Holds(After(t, c), key, holder) && c.key == key
    ensures c.TryAcquire? && c.holder != holder ==> !Succeeds(t, c)
    ensures c.Refresh? && c.holder == holder ==> Succeeds(t, c)
  {}

  // Main result: a holder whose refreshes are in time keeps its lease from the acquire up to its
  // latest refresh; nobody else wins the key, and every refresh succeeds.
  lemma RefreshingKeepsLease(calls: seq<Call>, i: nat, j: nat, key: string, holder: string)
    requires Clocked(calls) && i < j < |calls| && Wins(calls, i, key, holder)
    requires OnlyRefreshes(calls, i, key, holder) && RefreshesInTime(calls, i, |calls|, key, holder)
    requires Is(calls[|calls| - 1], key, holder)
    ensures Holds(TableAfter(calls[..j]), key, holder)
    ensures calls[j].TryAcquire? && calls[j].key == key ==> !SucceedsAt(calls, j)
    ensures Is(calls[j], key, holder) ==> SucceedsAt(calls, j)
  {
    StillHeld(calls, i, j, key, holder);
    StillHeld(calls, i, j + 1, key, holder);
    assert calls[..j + 1][..j] == calls[..j];
    if calls[j].key == key {
      HeldAcross(TableAfter(calls[..j]), calls[j], key, holder);
    }
  }

  // ---------- The ticker of the keep-alive goroutine ----------

  // How many refreshes of the period came before call r.
  function Ticks(calls: seq<Call>, i: nat, r: nat, key: string, holder: string): nat
    requires i < r <= |calls|
  {
    if r == i + 1 then 0
    else Ticks(calls, i, r - 1, key, holder) + if Is(calls[r - 1], key, holder) then 1 else 0
  }

  function TickTime(start: int, ttl: int, k: nat): int {
    start + k * (ttl / 3)
  }

  lemma NextTick(start: int, ttl: int, k: nat)
    ensures TickTime(start, ttl, k + 1) == TickTime(start, ttl, k) + ttl / 3
  {}

  // Refresh number k of the period answers tick k of a ticker of period ttl / 3 started at `start`,
  // after the acquire read its clock: it reads the clock no earlier than its tick, and it is done
  // less than ttl - ttl / 3 late.
  ghost predicate FollowsTicker(calls: seq<Call>, i: nat, key: string, holder: string, ttl: int, start: int) {
    && i < |calls| && calls[i].TryAcquire? && calls[i].ttl == ttl && calls[i].read <= start
    && forall r | i < r < |calls| && Is(calls[r], key, holder) ::
         var tick := TickTime(start, ttl, Ticks(calls, i, r, key, holder) + 1);
         calls[r].Refresh? && calls[r].ttl == ttl && tick <= calls[r].read && calls[r].at < tick + (ttl - ttl / 3)
  }

  // The first refresh makes up for the late start of the ticker: it falls within the first lease.
  ghost predicate FirstInTime(calls: seq<Call>, i: nat, key: string, holder: string) {
    && i < |calls| && calls[i].TryAcquire?
    && forall r | i < r < |calls| && Is(calls[r], key, holder) && Ticks(calls, i, r, key, holder) == 0 ::
         calls[r].at <= calls[i].read + calls[i].ttl
  }

  // The holder's latest expiry is at least ttl after its latest tick.
  lemma {:induction false} TickerExpiry(
      calls: seq<Call>, i: nat, n: nat, key: string, holder: string, ttl: int, start: int)
    requires Clocked(calls) && i < n <= |calls| && 3 <= ttl && Wins(calls, i, key, holder)
    requires FollowsTicker(calls, i, key, holder, ttl, start)
    requires forall r | i < r < n && Is(calls[r], key, holder) :: SucceedsAt(calls, r)
    ensures var x := LastExpiry(calls[..n], key, holder);
            var k := Ticks(calls, i, n, key, holder);
            x.Some? && (if k == 0 then x.value == calls[i].read + ttl else TickTime(start, ttl, k) + ttl <= x.value)
  {
    hide TickTime;
    assert calls[..n][..n - 1] == calls[..n - 1];
    if n > i + 1 {
      TickerExpiry(calls, i, n - 1, key, holder, ttl, start);
    }
  }

  lemma TickBeatsExpiry(calls: seq<Call>, i: nat, r: nat, key: string, holder: string, ttl: int, start: int)
    requires Clocked(calls) && i < r < |calls| && 3 <= ttl && Wins(calls, i, key, holder)
    requires FollowsTicker(calls, i, key, holder, ttl, start) && FirstInTime(calls, i, key, holder)
    requires Is(calls[r], key, holder)
    requires forall q | i < q < r && Is(calls[q], key, holder) :: SucceedsAt(calls, q)
    ensures calls[r].Refresh?
    ensures LastExpiry(calls[..r], key, holder).Some? && calls[r].at <= LastExpiry(calls[..r], key, holder).value
  {
    hide LastExpiry, SucceedsAt, TickTime;
    TickerExpiry(calls, i, r, key, holder, ttl, start);
    NextTick(start, ttl, Ticks(calls, i, r, key, holder));
  }

  lemma {:induction false} TicksOfPrefix(calls: seq<Call>, c: Call, i: nat, r: nat, key: string, holder: string)
    requires i < r <= |calls|
    ensures Ticks(calls + [c], i, r, key, holder) == Ticks(calls, i, r, key, holder)
  {
    if r > i + 1 {
      TicksOfPrefix(calls, c, i, r - 1, key, holder);
    }
  }

  // The call is not the holder's, or a refresh that answers its tick, the first one within the first lease.
  predicate Punctual(calls: seq<Call>, c: Call, i: nat, key: string, holder: string, ttl: int, start: int)
    requires i < |calls| && calls[i].TryAcquire?
  {
    Is(c, key, holder) ==>
      var k := Ticks(calls, i, |calls|, key, holder);
      var tick := TickTime(start, ttl, k + 1);
      && c.Refresh? && c.ttl == ttl && tick <= c.read && c.at < tick + (ttl - ttl / 3)
      && (k == 0 ==> c.at <= calls[i].read + calls[i].ttl)
  }

  lemma PunctualFollows(calls: seq<Call>, c: Call, i: nat, key: string, holder: string, ttl: int, start: int)
    requires FollowsTicker(calls, i, key, holder, ttl, start) && FirstInTime(calls, i, key, holder)
    requires Punctual(calls, c, i, key, holder, ttl, start)
    ensures FollowsTicker(calls + [c], i, key, holder, ttl, start) && FirstInTime(calls + [c], i, key, holder)
  {
    var more := calls + [c];
    forall r | i < r < |more|
      ensures Ticks(more, i, r, key, holder) == Ticks(calls, i, r, key, holder)
    {
      TicksOfPrefix(calls, c, i, r, key, holder);
    }
    hide Ticks, TickTime;
  }

  lemma TickerOnlyRefreshes(calls: seq<Call>, i: nat, key: string, holder: string, ttl: int, start: int)
    requires FollowsTicker(calls, i, key, holder, ttl, start)
    ensures OnlyRefreshes(calls, i, key, holder)
  {}

  lemma {:induction false} TickerInTime(
      calls: seq<Call>, i: nat, n: nat, key: string, holder: string, ttl: int, start: int)
    requires Clocked(calls) && i < n <= |calls| && 3 <= ttl && Wins(calls, i, key, holder)
    requires FollowsTicker(calls, i, key, holder, ttl, start) && FirstInTime(calls, i, key, holder)
    ensures RefreshesInTime(calls, i, n, key, holder)
    ensures forall r | i < r < n && Is(calls[r], key, holder) :: SucceedsAt(calls, r)
  {
    hide FollowsTicker, FirstInTime, Clocked, SucceedsAt, LastExpiry;
    var r := n - 1;
    if i < r {
      assert OnlyRefreshes(calls, i, key, holder) by {
        TickerOnlyRefreshes(calls, i, key, holder, ttl, start);
      }
      TickerInTime(calls, i, r, key, holder, ttl, start);
      if Is(calls[r], key, holder) {
        TickBeatsExpiry(calls, i, r, key, holder, ttl, start);
        RefreshSucceeds(calls, i, r, key, holder);
      }
    }
  }

  lemma RefreshSucceeds(calls: seq<Call>, i: nat, r: nat, key: string, holder: string)
    requires Clocked(calls) && i < r < |calls| && Wins(calls, i, key, holder)
    requires Is(calls[r], key, holder) && calls[r].Refresh?
    requires OnlyRefreshes(calls, i, key, holder) && RefreshesInTime(calls, i, r, key, holder)
    requires LastExpiry(calls[..r], key, holder).Some? && calls[r].at <= LastExpiry(calls[..r], key, holder).value
    ensures SucceedsAt(calls, r)
  {
    var period := calls[..r + 1];
    forall q | 0 <= q <= r
      ensures period[..q] == calls[..q]
    {}
    RefreshingKeepsLease(period, i, r, key, holder);
  }

  lemma {:induction false} NoTicksYet(calls: seq<Call>, i: nat, r: nat, key: string, holder: string)
    requires i < r <= |calls| && Ticks(calls, i, r, key, holder) == 0
    ensures forall q | i < q < r :: !Is(calls[q], key, holder)
  {
    if r > i + 1 {
      NoTicksYet(calls, i, r - 1, key, holder);
    }
  }

  // Main result: with a ticker of period ttl / 3 and no refresh ttl - ttl / 3 or more after its tick, every
  // refresh is in time if and only if the first one falls within the first lease.
  lemma TickerInTimeIff(calls: seq<Call>, i: nat, key: string, holder: string, ttl: int, start: int)
    requires Clocked(calls) && i < |calls| && 3 <= ttl && Wins(calls, i, key, holder)
    requires FollowsTicker(calls, i, key, holder, ttl, start)
    ensures RefreshesInTime(calls, i, |calls|, key, holder) <==> FirstInTime(calls, i, key, holder)
  {
    if FirstInTime(calls, i, key, holder) {
      TickerInTime(calls, i, |calls|, key, holder, ttl, start);
    } else {
      var r :| i < r < |calls| && Is(calls[r], key, holder) && Ticks(calls, i, r, key, holder) == 0
               && calls[r].at > calls[i].read + ttl;
      hide Ticks, FirstInTime, Clocked, SucceedsAt;
      NoTicksYet(calls, i, r, key, holder);
      TickerExpiry(calls, i, r, key, holder, ttl, start);
      hide FollowsTicker, LastExpiry;
    }
  }

  // Main result: such a ticker then keeps the lease up to the latest refresh.
  lemma TickerKeepsLease(calls: seq<Call>, i: nat, j: nat, key: string, holder: string, ttl: int, start: int)
    requires Clocked(calls) && i < j < |calls| && 3 <= ttl && Wins(calls, i, key, holder)
    requires FollowsTicker(calls, i, key, holder, ttl, start) && FirstInTime(calls, i, key, holder)
    requires Is(calls[|calls| - 1], key, holder)
    ensures Holds(TableAfter(calls[..j]), key, holder)
    ensures calls[j].TryAcquire? && calls[j].key == key ==> !SucceedsAt(calls, j)
    ensures Is(calls[j], key, holder) ==> SucceedsAt(calls, j)
  {
    TickerOnlyRefreshes(calls, i, key, holder, ttl, start);
    TickerInTime(calls, i, |calls|, key, holder, ttl, start);
    RefreshingKeepsLease(calls, i, j, key, holder);
  }

  // Main result: no refresh may be late, whatever the run. When a refresh comes after the expiry of its row,
  // any other holder, with any ttl, can win the key right before it, and the refresh then fails.
  lemma LateRefreshLosesLease(calls: seq<Call>, c: Call, other: string, ttl: int)
    requires c.Refresh? && Holds(TableAfter(calls), c.key, c.holder) && other != c.holder
    requires Clocked(calls + [c]) && TableAfter(calls)[c.key].expires < c.at
    ensures var rival := TryAcquire(c.key, other, ttl, c.at, c.at);
            && Clocked(calls + [rival, c])
            && Wins(calls + [rival, c], |calls|, c.key, other)
            && !SucceedsAt(calls + [rival, c], |calls| + 1)
  {
    var rival := TryAcquire(c.key, other, ttl, c.at, c.at);
    var more := calls + [rival, c];
    assert more[..|calls|] == calls && more[..|calls| + 1] == calls + [rival];
    assert (calls + [rival])[..|calls|] == calls;
    ClockedWith(calls, rival, c);
    hide Clocked;
  }

  lemma ClockedWith(calls: seq<Call>, rival: Call, c: Call)
    requires Clocked(calls + [c]) && rival.at == c.at && (!rival.Release? ==> rival.read <= rival.at)
    ensures Clocked(calls + [rival, c])
  {
    var one, two := calls + [c], calls + [rival, c];
    assert forall k | 0 <= k < |calls| :: two[k] == one[k] && one[k].at <= one[|calls|].at;
    assert one[|calls|] == c && two[|calls|] == rival && two[|calls| + 1] == c;
  }

  // Being prompt is not enough for the first refresh, because the ticker starts only after the
  // acquire: here every refresh answers its tick at once, and the lease is lost all the same.
  lemma LateTickerLosesLease()
    ensures var calls := [TryAcquire("k", "a", 30, 0, 0), TryAcquire("k", "b", 30, 31, 31),
                          Refresh("k", "a", 30, 35, 35)];
            var start := 25;
            && Clocked(calls) && Wins(calls, 0, "k", "a") && calls[2].at == start + 30 / 3
            && Wins(calls, 1, "k", "b") && !SucceedsAt(calls, 2)
  {
    var calls := [TryAcquire("k", "a", 30, 0, 0), TryAcquire("k", "b", 30, 31, 31), Refresh("k", "a", 30, 35, 35)];
    assert calls[..0] == [] && calls[..1] == [calls[0]] && calls[..2] == [calls[0], calls[1]];
    assert calls[..1][..0] == [] && calls[..2][..1] == [calls[0]];
    assert TableAfter(calls[..1]) == map["k" := Row("a", 30)];
    assert TableAfter(calls[..2]) == map["k" := Row("b", 61)];
  }
}
