/**
 What the cache promises over whole runs: every answer comes from the latest Set of its key, a
 recently touched key is still there, and a larger cache answers whatever a smaller one does.
 */
module LruTheory {
  import opened Options
  import opened LruOrder

  datatype Op<V> =
    | Get(key: string, now: int)
    | Set(key: string, value: V, now: int, ttl: int)
    | Delete(key: string)
    | Clear

  function Step<V>(s: Order<V>, size: nat, op: Op<V>): Order<V> {
    match op
    case Get(key, now) => AfterGet(s, key, now)
    case Set(key, value, now, ttl) => AfterSet(s, size, key, value, now + ttl)
    case Delete(key) => Without(s, key)
    case Clear => []
  }

  function Run<V>(ops: seq<Op<V>>, size: nat): Order<V> {
    if ops == [] then []
    else Step(Run(ops[..|ops| - 1], size), size, ops[|ops| - 1])
  }

  // What operation i of a run returns; only Get returns anything.
  function Reply<V>(ops: seq<Op<V>>, size: nat, i: nat): Option<V>
    requires i < |ops|
  {
    match ops[i]
    case Get(key, now) => Hit(Run(ops[..i], size), key, now)
    case _ => None
  }

  // ---------- Shape ----------

  lemma WithoutFacts<V>(s: Order<V>, key: string)
    requires Distinct(s)
    ensures Distinct(Without(s, key))
    ensures forall e <- Without(s, key) :: e in s && e.key != key
    ensures |Without(s, key)| == |s| - if Find(s, key).Some? then 1 else 0
    ensures Find(s, key).Some? ==> Find(s, key).value in s && Find(s, key).value.key == key
  {
    if exists i :: 0 <= i < |s| && s[i].key == key {
      var i :| 0 <= i < |s| && s[i].key == key;
      FindAt(s, i);
    } else {
      FindMissing(s, key);
    }
  }

  lemma ConsDistinct<V>(s: Order<V>, e: Entry<V>)
    requires Distinct(s)
    ensures Distinct([e] + Without(s, e.key))
  {
    WithoutFacts(s, e.key);
  }

  lemma TrimShape<V>(s: Order<V>, size: nat)
    requires Distinct(s)
    ensures Distinct(Trim(s, size)) && |Trim(s, size)| <= size
  {}

  lemma StepShape<V>(s: Order<V>, size: nat, op: Op<V>)
    requires Distinct(s) && |s| <= size
    ensures Distinct(Step(s, size, op)) && |Step(s, size, op)| <= size
  {
    match op
    case Clear =>
    case Delete(key) => WithoutFacts(s, key);
    case Get(key, _) =>
      WithoutFacts(s, key);
      if Find(s, key).Some? {
        ConsDistinct(s, Find(s, key).value);
      }
      hide Distinct, Without, Find;
    case Set(key, value, now, ttl) =>
      ConsDistinct(s, Entry(key, value, now + ttl));
      TrimShape([Entry(key, value, now + ttl)] + Without(s, key), size);
      hide Distinct, Without, Trim;
  }

  // Keys stay distinct and the size bound is kept in every run.
  lemma {:induction false} RunShape<V>(ops: seq<Op<V>>, size: nat)
    ensures Distinct(Run(ops, size)) && |Run(ops, size)| <= size
  {
    if ops != [] {
      RunShape(ops[..|ops| - 1], size);
      StepShape(Run(ops[..|ops| - 1], size), size, ops[|ops| - 1]);
    }
  }

  // ---------- The latest Set ----------

  // The entry the latest Set of `key` wrote, unless a Delete or Clear came after it.
  function Latest<V>(ops: seq<Op<V>>, key: string): Option<Entry<V>> {
    if ops == [] then None
    else
      match ops[|ops| - 1]
      case Clear => None
      case Delete(k) => if k == key then None else Latest(ops[..|ops| - 1], key)
      case Get(_, _) => Latest(ops[..|ops| - 1], key)
      case Set(k, value, now, ttl) =>
        if k == key then Some(Entry(key, value, now + ttl)) else Latest(ops[..|ops| - 1], key)
  }

  // Whatever is in the cache is what the latest Set wrote.
  lemma {:induction false} EntriesAreLatest<V>(ops: seq<Op<V>>, size: nat, i: nat)
    requires i < |Run(ops, size)|
    ensures Latest(ops, Run(ops, size)[i].key) == Some(Run(ops, size)[i])
  {
    var pre, op := ops[..|ops| - 1], ops[|ops| - 1];
    var s, e := Run(pre, size), Run(ops, size)[i];
    RunShape(pre, size);
    if op.Set? && op.key == e.key {
      WithoutFacts(s, op.key);
      assert e == Run(ops, size)[0] by {
        StepShape(s, size, op);
      }
    } else {
      if !op.Clear? {
        WithoutFacts(s, op.key);
      }
      assert e in s && (op.Delete? ==> op.key != e.key);
      var j :| 0 <= j < |s| && s[j] == e;
      EntriesAreLatest(pre, size, j);
    }
  }

  // Main result: a hit returns the value of the latest Set, which has neither been deleted nor
  // passed its expiry.
  lemma HitIsLatest<V>(ops: seq<Op<V>>, size: nat, i: nat)
    requires i < |ops| && Reply(ops, size, i).Some?
    ensures Latest(ops[..i], ops[i].key).Some?
    ensures Latest(ops[..i], ops[i].key).value.value == Reply(ops, size, i).value
    ensures ops[i].now <= Latest(ops[..i], ops[i].key).value.expiresAt
  {
    var s := Run(ops[..i], size);
    RunShape(ops[..i], size);
    WithoutFacts(s, ops[i].key);
    var j :| 0 <= j < |s| && s[j] == Find(s, ops[i].key).value;
    EntriesAreLatest(ops[..i], size, j);
  }

  // ---------- Recency ----------

  // The keys an operation moves to the front.
  function Touches<V>(s: Order<V>, op: Op<V>): set<string> {
    match op
    case Set(key, _, _, _) => {key}
    case Get(key, now) => if Hit(s, key, now).Some? then {key} else {}
    case _ => {}
  }

  // The operation drops `key` for a reason other than space.
  predicate Drops<V>(s: Order<V>, op: Op<V>, key: string) {
    match op
    case Clear => true
    case Delete(k) => k == key
    case Get(k, now) => k == key && Find(s, k).Some? && now > Find(s, k).value.expiresAt
    case Set(_, _, _, _) => false
  }

  function TouchedSince<V>(ops: seq<Op<V>>, size: nat, lo: nat): set<string>
    requires lo <= |ops|
  {
    if lo == |ops| then {}
    else TouchedSince(ops[..|ops| - 1], size, lo) + Touches(Run(ops[..|ops| - 1], size), ops[|ops| - 1])
  }

  // No operation from the lo-th on drops `key`.
  predicate KeptSince<V>(ops: seq<Op<V>>, size: nat, lo: nat, key: string)
    requires lo <= |ops|
  {
    lo < |ops| ==>
      !Drops(Run(ops[..|ops| - 1], size), ops[|ops| - 1], key) && KeptSince(ops[..|ops| - 1], size, lo, key)
  }

  lemma {:induction false} Kept<V>(ops: seq<Op<V>>, size: nat, lo: nat, key: string)
    requires lo <= |ops| && forall j | lo <= j < |ops| :: !Drops(Run(ops[..j], size), ops[j], key)
    ensures KeptSince(ops, size, lo, key)
  {
    hide Drops, Run;
    if lo < |ops| {
      var pre := ops[..|ops| - 1];
      forall j | lo <= j < |pre| ensures !Drops(Run(pre[..j], size), pre[j], key) {
        assert pre[..j] == ops[..j];
      }
      Kept(pre, size, lo, key);
    }
  }

  // `key` is present and everything in front of it is in `ahead`.
  ghost predicate Behind<V>(s: Order<V>, key: string, ahead: set<string>) {
    exists p {:trigger s[p]} :: 0 <= p < |s| && s[p].key == key && forall q | 0 <= q < p :: s[q].key in ahead
  }

  lemma {:induction false} DistinctPrefix<V>(s: Order<V>, p: nat, keys: set<string>)
    requires Distinct(s) && p <= |s| && forall q | 0 <= q < p :: s[q].key in keys
    ensures p <= |keys|
  {
    if p > 0 {
      DistinctPrefix(s, p - 1, keys - {s[p - 1].key});
    }
  }

  lemma BehindOne<V>(s: Order<V>, key: string, ahead: set<string>, e: Entry<V>)
    requires Behind(s, key, ahead) && e.key != key
    ensures Behind([e] + s, key, ahead + {e.key})
  {
    var p :| 0 <= p < |s| && s[p].key == key && forall q | 0 <= q < p :: s[q].key in ahead;
    assert ([e] + s)[p + 1].key == key;
  }

  lemma {:induction false} BehindWithout<V>(s: Order<V>, key: string, ahead: set<string>, k: string)
    requires Behind(s, key, ahead) && k != key
    ensures Behind(Without(s, k), key, ahead)
  {
    var p :| 0 <= p < |s| && s[p].key == key && forall q | 0 <= q < p :: s[q].key in ahead;
    if p == 0 {
      assert Without(s, k)[0].key == key;
    } else {
      assert s[1..][p - 1].key == key;
      BehindWithout(s[1..], key, ahead, k);
      var p' :| 0 <= p' < |Without(s[1..], k)| && Without(s[1..], k)[p'].key == key
                && forall q | 0 <= q < p' :: Without(s[1..], k)[q].key in ahead;
      assert s[0].key in ahead;
      if s[0].key != k {
        assert Without(s, k)[p' + 1].key == key;
      }
    }
  }

  lemma BehindTrim<V>(s: Order<V>, key: string, ahead: set<string>, size: nat)
    requires Behind(s, key, ahead) && Distinct(s) && |ahead| < size
    ensures Behind(Trim(s, size), key, ahead)
  {
    var p :| 0 <= p < |s| && s[p].key == key && forall q | 0 <= q < p :: s[q].key in ahead;
    DistinctPrefix(s, p, ahead);
    assert Trim(s, size)[p].key == key;
  }

  lemma StepKeepsBehind<V>(s: Order<V>, size: nat, op: Op<V>, key: string, ahead: set<string>)
    requires Distinct(s) && Behind(s, key, ahead) && !Drops(s, op, key)
    requires |ahead + (Touches(s, op) - {key})| < size
    ensures Behind(Step(s, size, op), key, ahead + (Touches(s, op) - {key}))
  {
    hide Behind, Distinct, Step;
    if op.key == key {
      OwnStepKeepsBehind(s, size, op, key, ahead);
    } else {
      TouchesOne(s, op, key, ahead);
      hide Touches, Hit;
      OtherStepKeepsBehind(s, size, op, key, ahead, ahead + (Touches(s, op) - {key}));
    }
  }

  lemma OtherStepKeepsBehind<V>(s: Order<V>, size: nat, op: Op<V>, key: string, ahead: set<string>, now: set<string>)
    requires Distinct(s) && Behind(s, key, ahead) && !op.Clear? && op.key != key && |now| < size
    requires now == if op.Set? || (op.Get? && Hit(s, op.key, op.now).Some?) then ahead + {op.key} else ahead
    ensures Behind(Step(s, size, op), key, now)
  {
    BehindWithout(s, key, ahead, op.key);
    hide Behind, Without, Find, Distinct, Hit, Trim, AfterGet;
    match op
    case Delete(_) =>
    case Get(k, at) => GetKeepsBehind(s, k, at, key, ahead);
    case Set(k, value, at, ttl) => SetKeepsBehind(s, size, Entry(k, value, at + ttl), key, ahead);
  }

  lemma TouchesOne<V>(s: Order<V>, op: Op<V>, key: string, ahead: set<string>)
    requires !op.Clear? && op.key != key
    ensures ahead + (Touches(s, op) - {key})
         == if op.Set? || (op.Get? && Hit(s, op.key, op.now).Some?) then ahead + {op.key} else ahead
  {
    hide Hit;
  }

  lemma OwnStepKeepsBehind<V>(s: Order<V>, size: nat, op: Op<V>, key: string, ahead: set<string>)
    requires Distinct(s) && Behind(s, key, ahead) && !Drops(s, op, key) && op.key == key && 0 < size
    ensures Behind(Step(s, size, op), key, ahead + (Touches(s, op) - {key}))
  {
    PresentIsFound(s, key, ahead);
    WithoutFacts(s, key);
    hide Behind, Without, Find, Distinct;
    FirstIsBehind(Step(s, size, op), key, ahead + (Touches(s, op) - {key}));
  }

  lemma FirstIsBehind<V>(s: Order<V>, key: string, ahead: set<string>)
    requires s != [] && s[0].key == key
    ensures Behind(s, key, ahead)
  {}

  lemma GetKeepsBehind<V>(s: Order<V>, k: string, now: int, key: string, ahead: set<string>)
    requires k != key && Behind(s, key, ahead) && Behind(Without(s, k), key, ahead)
    ensures Behind(AfterGet(s, k, now), key, if Hit(s, k, now).Some? then ahead + {k} else ahead)
  {
    if Hit(s, k, now).Some? {
      var e := Find(s, k).value;
      FoundHasKey(s, k);
      hide Behind, Without, Find;
      BehindOne(Without(s, k), key, ahead, e);
    }
  }

  lemma {:induction false} FoundHasKey<V>(s: Order<V>, k: string)
    requires Find(s, k).Some?
    ensures Find(s, k).value.key == k
  {
    if s[0].key != k {
      FoundHasKey(s[1..], k);
    }
  }

  lemma SetKeepsBehind<V>(s: Order<V>, size: nat, e: Entry<V>, key: string, ahead: set<string>)
    requires Distinct(s) && e.key != key && Behind(Without(s, e.key), key, ahead) && |ahead + {e.key}| < size
    ensures Behind(Trim([e] + Without(s, e.key), size), key, ahead + {e.key})
  {
    hide Behind, Without, Distinct, Trim;
    BehindOne(Without(s, e.key), key, ahead, e);
    ConsDistinct(s, e);
    BehindTrim([e] + Without(s, e.key), key, ahead + {e.key}, size);
  }

  lemma PresentIsFound<V>(s: Order<V>, key: string, ahead: set<string>)
    requires Distinct(s) && Behind(s, key, ahead)
    ensures Find(s, key).Some?
  {
    var p :| 0 <= p < |s| && s[p].key == key;
    FindAt(s, p);
  }

  // Main result: a key touched at operation i, and not dropped since, is still present as long as
  // fewer than `size` other keys have been touched since; so it holds what the latest Set wrote.
  lemma RecentKeyIsPresent<V>(ops: seq<Op<V>>, size: nat, i: nat, key: string)
    requires i < |ops| && key in Touches(Run(ops[..i], size), ops[i])
    requires forall j | i < j < |ops| :: !Drops(Run(ops[..j], size), ops[j], key)
    requires |TouchedSince(ops, size, i + 1) - {key}| < size
    ensures Find(Run(ops, size), key).Some? && Find(Run(ops, size), key) == Latest(ops, key)
  {
    Kept(ops, size, i + 1, key);
    TouchedAtIsFirst(ops, size, i, key);
    hide Touches, Drops, TouchedSince, KeptSince, Run;
    StaysBehind(ops, size, i + 1, key);
    var s := Run(ops, size);
    var p :| 0 <= p < |s| && s[p].key == key;
    RunShape(ops, size);
    FindAt(s, p);
    EntriesAreLatest(ops, size, p);
  }

  lemma TouchedAtIsFirst<V>(ops: seq<Op<V>>, size: nat, i: nat, key: string)
    requires i < |ops| && 0 < size && key in Touches(Run(ops[..i], size), ops[i])
    ensures Behind(Run(ops[..i + 1], size), key, {})
  {
    RunShape(ops[..i], size);
    RunStep(ops[..i + 1], size);
    assert ops[..i + 1][..i] == ops[..i];
    hide Touches, Step, Distinct, Run, Behind;
    TouchedIsFirst(Run(ops[..i], size), size, ops[i], key);
  }

  // A key at the front before operation lo stays behind the keys touched from then on.
  lemma {:induction false} StaysBehind<V>(ops: seq<Op<V>>, size: nat, lo: nat, key: string)
    requires lo <= |ops| && Behind(Run(ops[..lo], size), key, {}) && KeptSince(ops, size, lo, key)
    requires |TouchedSince(ops, size, lo) - {key}| < size
    ensures Behind(Run(ops, size), key, TouchedSince(ops, size, lo) - {key})
  {
    hide Behind, Touches, Drops, Step, Distinct, Run, TouchedSince;
    if lo == |ops| {
      assert ops[..lo] == ops;
      NothingTouched(ops, size, key);
    } else {
      var pre, op := ops[..|ops| - 1], ops[|ops| - 1];
      assert pre[..lo] == ops[..lo];
      TouchedStep(ops, size, lo, key);
      StaysBehind(pre, size, lo, key);
      RunShape(pre, size);
      RunStep(ops, size);
      StepKeepsBehind(Run(pre, size), size, op, key, TouchedSince(pre, size, lo) - {key});
    }
  }

  lemma RunStep<V>(ops: seq<Op<V>>, size: nat)
    requires ops != []
    ensures Run(ops, size) == Step(Run(ops[..|ops| - 1], size), size, ops[|ops| - 1])
  {
    hide Step;
  }

  lemma NothingTouched<V>(ops: seq<Op<V>>, size: nat, key: string)
    ensures TouchedSince(ops, size, |ops|) - {key} == {}
  {}

  lemma TouchedStep<V>(ops: seq<Op<V>>, size: nat, lo: nat, key: string)
    requires lo < |ops|
    ensures var pre, op := ops[..|ops| - 1], ops[|ops| - 1];
            TouchedSince(ops, size, lo) - {key}
            == (TouchedSince(pre, size, lo) - {key}) + (Touches(Run(pre, size), op) - {key})
    ensures |TouchedSince(ops[..|ops| - 1], size, lo) - {key}| <= |TouchedSince(ops, size, lo) - {key}|
  {
    hide Touches, Run;
    Subset(TouchedSince(ops[..|ops| - 1], size, lo) - {key}, TouchedSince(ops, size, lo) - {key});
  }

  lemma TouchedIsFirst<V>(s: Order<V>, size: nat, op: Op<V>, key: string)
    requires Distinct(s) && 0 < size && key in Touches(s, op)
    ensures Behind(Step(s, size, op), key, {})
  {
    WithoutFacts(s, key);
    assert Step(s, size, op)[0].key == key;
  }

  lemma Subset(a: set<string>, b: set<string>)
    requires a <= b
    ensures |a| <= |b|
  {
    assert b == a + (b - a);
  }

  // ---------- When a Get must answer ----------

  // From operation lo on, nothing but space and expiry can take away the entry of `key`, and no Set replaces it.
  predicate Untouched<V>(ops: seq<Op<V>>, lo: nat, key: string) {
    forall m | lo <= m < |ops| :: !ops[m].Clear? && (ops[m].key == key ==> ops[m].Get?)
  }

  // The keys that were set, or asked for and answered, from operation lo on.
  function Answered<V>(ops: seq<Op<V>>, size: nat, lo: nat): set<string> {
    set m | lo <= m < |ops| && (ops[m].Set? || Reply(ops, size, m).Some?) :: ops[m].key
  }

  lemma {:induction false} LatestStays<V>(ops: seq<Op<V>>, i: nat)
    requires i < |ops| && ops[i].Set? && Untouched(ops, i + 1, ops[i].key)
    ensures Latest(ops, ops[i].key) == Some(Entry(ops[i].key, ops[i].value, ops[i].now + ops[i].ttl))
  {
    if i + 1 < |ops| {
      LatestStays(ops[..|ops| - 1], i);
    }
  }

  lemma FoundIsLatest<V>(ops: seq<Op<V>>, size: nat, key: string)
    requires Find(Run(ops, size), key).Some?
    ensures Find(Run(ops, size), key) == Latest(ops, key)
  {
    var s := Run(ops, size);
    RunShape(ops, size);
    WithoutFacts(s, key);
    var p :| 0 <= p < |s| && s[p] == Find(s, key).value;
    EntriesAreLatest(ops, size, p);
  }

  lemma {:induction false} TouchedAreAnswered<V>(ops: seq<Op<V>>, size: nat, lo: nat)
    requires lo <= |ops|
    ensures TouchedSince(ops, size, lo) <= Answered(ops, size, lo)
  {
    hide Run, Hit;
    if lo < |ops| {
      var n := |ops| - 1;
      TouchedAreAnswered(ops[..n], size, lo);
      forall m | 0 <= m < n ensures ops[..n][m] == ops[m] && Reply(ops[..n], size, m) == Reply(ops, size, m) {
        assert ops[..n][..m] == ops[..m];
      }
    }
  }

  // Main result: after a Set, a Get of the key no later than the expiry returns the value that was set, if the
  // key was not set again, deleted or cleared, every Get of it was in time, and fewer than `size` other keys were
  // set or answered in between.
  lemma LiveKeyAnswers<V>(ops: seq<Op<V>>, size: nat, i: nat, j: nat)
    requires i < j < |ops| && ops[i].Set? && ops[j].Get? && ops[j].key == ops[i].key
    requires Untouched(ops[..j], i + 1, ops[i].key)
    requires forall m | i < m <= j && ops[m].Get? && ops[m].key == ops[i].key ::
               ops[m].now <= ops[i].now + ops[i].ttl
    requires |Answered(ops[..j], size, i + 1) - {ops[i].key}| < size
    ensures Reply(ops, size, j) == Some(ops[i].value)
  {
    var pre, key := ops[..j], ops[i].key;
    forall m | i < m < j ensures !Drops(Run(pre[..m], size), pre[m], key) {
      assert pre[..m][i] == ops[i] && pre[m] == ops[m];
      LatestStays(pre[..m], i);
      if Find(Run(pre[..m], size), key).Some? {
        FoundIsLatest(pre[..m], size, key);
      }
    }
    hide Drops, Run;
    TouchedAreAnswered(pre, size, i + 1);
    Subset(TouchedSince(pre, size, i + 1) - {key}, Answered(pre, size, i + 1) - {key});
    RecentKeyIsPresent(pre, size, i, key);
    LatestStays(pre, i);
  }

  // A Get without an answer leaves no entry of the key behind.
  lemma UnansweredIsGone<V>(ops: seq<Op<V>>, size: nat, i: nat)
    requires i < |ops| && ops[i].Get? && Reply(ops, size, i).None?
    ensures Find(Run(ops[..i + 1], size), ops[i].key).None?
  {
    var s, key := Run(ops[..i], size), ops[i].key;
    RunShape(ops[..i], size);
    RunStep(ops[..i + 1], size);
    assert ops[..i + 1][..i] == ops[..i];
    hide Run;
    AbsentAfterWithout(s, key);
  }

  lemma {:induction false} AbsentAfterWithout<V>(s: Order<V>, key: string)
    ensures Find(Without(s, key), key).None?
  {
    if s != [] {
      AbsentAfterWithout(s[1..], key);
    }
  }

  // ---------- Inclusion ----------

  ghost predicate Subsequence<V>(a: Order<V>, b: Order<V>) {
    if a == [] then true
    else if b == [] then false
    else if a[0] == b[0] then Subsequence(a[1..], b[1..])
    else Subsequence(a, b[1..])
  }

  lemma {:induction false} SubsequenceTail<V>(a: Order<V>, b: Order<V>)
    requires Subsequence(a, b) && a != []
    ensures Subsequence(a[1..], b)
  {
    if a[0] != b[0] {
      SubsequenceTail(a, b[1..]);
    }
    if |a| > 1 && a[1] == b[0] {
      SubsequenceTail(a[1..], b[1..]);
    }
  }

  lemma SubsequenceCons<V>(a: Order<V>, b: Order<V>, e: Entry<V>)
    requires Subsequence(a, b)
    ensures Subsequence(a, [e] + b)
    ensures Subsequence([e] + a, [e] + b)
  {
    assert ([e] + b)[1..] == b && ([e] + a)[1..] == a;
    if a != [] {
      SubsequenceTail(a, b);
    }
  }

  lemma {:induction false} SubsequenceWithout<V>(a: Order<V>, b: Order<V>, key: string)
    requires Subsequence(a, b)
    ensures Subsequence(Without(a, key), Without(b, key))
  {
    if a != [] {
      if a[0] == b[0] {
        SubsequenceWithout(a[1..], b[1..], key);
        SubsequenceCons(Without(a[1..], key), Without(b[1..], key), b[0]);
      } else {
        SubsequenceWithout(a, b[1..], key);
        SubsequenceCons(Without(a, key), Without(b[1..], key), b[0]);
      }
    }
  }

  lemma {:induction false} SubsequenceFind<V>(a: Order<V>, b: Order<V>, key: string)
    requires Subsequence(a, b) && Distinct(b) && Find(a, key).Some?
    ensures Find(b, key) == Find(a, key)
  {
    if a[0] == b[0] {
      if a[0].key != key {
        SubsequenceFind(a[1..], b[1..], key);
      }
    } else {
      SubsequenceFind(a, b[1..], key);
      WithoutFacts(b[1..], key);
    }
  }

  lemma {:induction false} SubsequenceTrim<V>(a: Order<V>, b: Order<V>)
    requires Subsequence(a, b) && a != []
    ensures Subsequence(a[..|a| - 1], b)
    ensures Subsequence(a[..|a| - 1], b[..|b| - 1])
  {
    var a', b' := a[..|a| - 1], b[..|b| - 1];
    if |a| == 1 {
    } else if a[0] == b[0] {
      SubsequenceTrim(a[1..], b[1..]);
      assert a'[1..] == a[1..][..|a| - 2];
      assert b'[1..] == b[1..][..|b| - 2];
    } else {
      SubsequenceTrim(a, b[1..]);
      assert b'[1..] == b[1..][..|b| - 2];
    }
  }

  // The smaller cache holds a subsequence, and has no more free room than the larger one.
  ghost predicate Included<V>(small: Order<V>, large: Order<V>, n: nat, m: nat) {
    && Subsequence(small, large) && Distinct(small) && Distinct(large)
    && |small| <= n && |large| <= m && n - |small| <= m - |large|
  }

  lemma WithoutKeepsIncluded<V>(small: Order<V>, large: Order<V>, n: nat, m: nat, key: string)
    requires Included(small, large, n, m)
    ensures Included(Without(small, key), Without(large, key), n, m)
    ensures Find(small, key).Some? ==> Find(large, key) == Find(small, key)
    ensures Find(small, key).None? ==> Without(small, key) == small
  {
    SubsequenceWithout(small, large, key);
    WithoutFacts(small, key);
    WithoutFacts(large, key);
    if Find(small, key).Some? {
      SubsequenceFind(small, large, key);
    } else {
      NoneIsMissing(small, key);
    }
  }

  lemma GetKeepsIncluded<V>(small: Order<V>, large: Order<V>, n: nat, m: nat, key: string, now: int)
    requires Included(small, large, n, m)
    ensures Included(AfterGet(small, key, now), AfterGet(large, key, now), n, m)
  {
    WithoutKeepsIncluded(small, large, n, m, key);
    StepShape(small, n, Get(key, now));
    StepShape(large, m, Get(key, now));
    WithoutFacts(small, key);
    WithoutFacts(large, key);
    if Find(large, key).Some? {
      SubsequenceCons(Without(small, key), Without(large, key), Find(large, key).value);
    }
    hide Find, Without, Subsequence, Distinct;
  }

  lemma SetKeepsIncluded<V>(small: Order<V>, large: Order<V>, n: nat, m: nat, op: Op<V>)
    requires Included(small, large, n, m) && 0 < n <= m && op.Set?
    ensures Included(Step(small, n, op), Step(large, m, op), n, m)
  {
    hide Find, Without, Subsequence, Distinct;
    StepShape(small, n, op);
    StepShape(large, m, op);
    WithoutKeepsIncluded(small, large, n, m, op.key);
    var a, b := Without(small, op.key), Without(large, op.key);
    LengthWithout(small, op.key);
    LengthWithout(large, op.key);
    var e := Entry(op.key, op.value, op.now + op.ttl);
    SubsequenceCons(a, b, e);
    SubsequenceTrim([e] + a, [e] + b);
  }

  lemma LengthWithout<V>(s: Order<V>, key: string)
    requires Distinct(s)
    ensures |Without(s, key)| == |s| - if Find(s, key).Some? then 1 else 0
  {
    WithoutFacts(s, key);
  }

  lemma StepKeepsIncluded<V>(small: Order<V>, large: Order<V>, n: nat, m: nat, op: Op<V>)
    requires Included(small, large, n, m) && 0 < n <= m
    ensures Included(Step(small, n, op), Step(large, m, op), n, m)
  {
    hide Find, Without, Distinct;
    match op
    case Clear =>
      RunShape<V>([], n);
    case Delete(key) => WithoutKeepsIncluded(small, large, n, m, key);
    case Get(key, now) => GetKeepsIncluded(small, large, n, m, key, now);
    case Set(_, _, _, _) => SetKeepsIncluded(small, large, n, m, op);
  }

  lemma {:induction false} NoneIsMissing<V>(s: Order<V>, key: string)
    requires Find(s, key).None?
    ensures Without(s, key) == s
  {
    if s != [] {
      NoneIsMissing(s[1..], key);
    }
  }

  lemma {:induction false} RunsIncluded<V>(ops: seq<Op<V>>, n: nat, m: nat)
    requires 0 < n <= m
    ensures Included(Run(ops, n), Run(ops, m), n, m)
  {
    if ops != [] {
      var pre := ops[..|ops| - 1];
      RunsIncluded(pre, n, m);
      StepKeepsIncluded(Run(pre, n), Run(pre, m), n, m, ops[|ops| - 1]);
    }
  }

  // Main result: on the same run, every hit of a smaller cache is the same hit in a larger one.
  lemma LargerCacheHitsMore<V>(ops: seq<Op<V>>, maxSize: int, larger: int, i: nat)
    requires EffectiveSize(maxSize) <= EffectiveSize(larger) && i < |ops|
    requires Reply(ops, EffectiveSize(maxSize), i).Some?
    ensures Reply(ops, EffectiveSize(larger), i) == Reply(ops, EffectiveSize(maxSize), i)
  {
    var n, m := EffectiveSize(maxSize), EffectiveSize(larger);
    RunsIncluded(ops[..i], n, m);
    SubsequenceFind(Run(ops[..i], n), Run(ops[..i], m), ops[i].key);
  }

  // ---------- Exactly when a key is still there ----------

  // The keys in front of `key`.
  function Ahead<V>(s: Order<V>, key: string): set<string> {
    if s == [] || s[0].key == key then {} else {s[0].key} + Ahead(s[1..], key)
  }

  lemma AheadCons<V>(e: Entry<V>, s: Order<V>, key: string)
    requires e.key != key
    ensures Ahead([e] + s, key) == {e.key} + Ahead(s, key) && Find([e] + s, key) == Find(s, key)
  {
    assert ([e] + s)[1..] == s;
  }

  lemma {:induction false} AheadWithout<V>(s: Order<V>, k: string, key: string)
    requires k != key
    ensures Find(Without(s, k), key) == Find(s, key)
    ensures Ahead(Without(s, k), key) == Ahead(s, key) - {k}
  {
    if s != [] {
      AheadWithout(s[1..], k, key);
      if s[0].key != k && s[0].key != key {
        AheadCons(s[0], Without(s[1..], k), key);
      }
    }
  }

  // In a sequence of distinct keys, the position of a key is the number of keys in front of it.
  lemma {:induction false} AheadIsPosition<V>(s: Order<V>, key: string)
    requires Distinct(s) && Find(s, key).Some?
    ensures |Ahead(s, key)| < |s| && s[|Ahead(s, key)|].key == key
    ensures forall k <- Ahead(s, key) :: exists q | 0 <= q < |Ahead(s, key)| :: s[q].key == k
  {
    if s[0].key != key {
      var t := s[1..];
      AheadIsPosition(t, key);
      var n := |Ahead(t, key)|;
      assert s[0].key !in Ahead(t, key);
      assert |Ahead(s, key)| == n + 1;
      forall k <- Ahead(s, key) ensures exists q | 0 <= q < n + 1 :: s[q].key == k {
        if k == s[0].key {
          assert s[0].key == k;
        } else {
          var q :| 0 <= q < n && t[q].key == k;
          assert s[q + 1].key == k;
        }
      }
    }
  }

  lemma AheadStep<V>(s: Order<V>, key: string)
    requires Distinct(s) && Find(s, key).Some? && s[0].key != key
    ensures Distinct(s[1..]) && Find(s[1..], key) == Find(s, key)
    ensures Ahead(s, key) == {s[0].key} + Ahead(s[1..], key) && |Ahead(s, key)| == |Ahead(s[1..], key)| + 1
  {
    AheadIsPosition(s[1..], key);
    assert s[0].key !in Ahead(s[1..], key);
  }

  lemma {:induction false} TakeKeeps<V>(s: Order<V>, n: nat, key: string)
    requires Distinct(s) && n <= |s| && Find(s, key).Some?
    ensures if |Ahead(s, key)| < n then Find(s[..n], key) == Find(s, key) && Ahead(s[..n], key) == Ahead(s, key)
            else Find(s[..n], key) == None
  {
    if n == 0 {
      assert s[..n] == [];
    } else if s[0].key == key {
      assert s[..n][0] == s[0];
    } else {
      AheadStep(s, key);
      AheadCons(s[0], s[1..][..n - 1], key);
      hide Distinct, Find, Ahead;
      TakeKeeps(s[1..], n - 1, key);
      assert s[..n] == [s[0]] + s[1..][..n - 1];
    }
  }

  // No key is taken out for a reason other than space.
  predicate DropsNone<V>(s: Order<V>, op: Op<V>) {
    match op
    case Clear => false
    case Delete(k) => Find(s, k).None?
    case Get(k, now) => Find(s, k).None? || now <= Find(s, k).value.expiresAt
    case Set(_, _, _, _) => true
  }

  // `key` is still there with exactly the keys `others` in front of it, or it is gone and they are too many.
  predicate Placed<V>(s: Order<V>, key: string, others: set<string>, size: nat) {
    if Find(s, key).Some? then Ahead(s, key) == others && |others| < size else |others| >= size
  }

  lemma PlacedSet<V>(s: Order<V>, size: nat, e: Entry<V>, key: string, others: set<string>)
    requires Distinct(s) && |s| <= size && e.key != key && Placed(s, key, others, size)
    ensures Placed(Trim([e] + Without(s, e.key), size), key, others + {e.key}, size)
  {
    var more := [e] + Without(s, e.key);
    AheadWithout(s, e.key, key);
    AheadCons(e, Without(s, e.key), key);
    ConsDistinct(s, e);
    Subset(others, others + {e.key});
    hide Distinct, Ahead, Without;
    if Find(s, key).Some? {
      assert Ahead(more, key) == others + {e.key};
      if |more| > size {
        TakeKeeps(more, size, key);
      } else {
        PlacedFits(more, key);
      }
    } else if |more| > size {
      TakeMisses(more, size, key);
    }
  }

  lemma PlacedFits<V>(s: Order<V>, key: string)
    requires Distinct(s) && Find(s, key).Some?
    ensures |Ahead(s, key)| < |s|
  {
    AheadIsPosition(s, key);
  }

  lemma {:induction false} TakeMisses<V>(s: Order<V>, n: nat, key: string)
    requires n <= |s| && Find(s, key).None?
    ensures Find(s[..n], key).None?
  {
    if n > 0 {
      TakeMisses(s[1..], n - 1, key);
      assert s[..n][1..] == s[1..][..n - 1];
    }
  }

  lemma PlacedHit<V>(s: Order<V>, size: nat, k: string, key: string, others: set<string>)
    requires Distinct(s) && |s| <= size && k != key && Find(s, k).Some? && Placed(s, key, others, size)
    ensures Placed([Find(s, k).value] + Without(s, k), key, others + {k}, size)
  {
    var e := Find(s, k).value;
    FoundHasKey(s, k);
    WithoutFacts(s, k);
    AheadWithout(s, k, key);
    AheadCons(e, Without(s, k), key);
    ConsDistinct(s, e);
    Subset(others, others + {k});
    hide Distinct, Ahead, Without;
    if Find(s, key).Some? {
      PlacedFits([e] + Without(s, k), key);
    }
  }

  lemma StepKeepsPlaced<V>(s: Order<V>, size: nat, op: Op<V>, key: string, others: set<string>)
    requires Distinct(s) && |s| <= size && Placed(s, key, others, size)
    requires DropsNone(s, op) && key !in Touches(s, op)
    ensures Placed(Step(s, size, op), key, others + Touches(s, op), size)
  {
    match op
    case Delete(k) =>
      NoneIsMissing(s, k);
      assert others + Touches(s, op) == others;
    case Get(k, now) =>
      if Find(s, k).Some? {
        hide Placed, Without;
        PlacedHit(s, size, k, key, others);
      } else {
        assert others + Touches(s, op) == others;
      }
    case Set(k, value, now, ttl) =>
      hide Placed, Without, Trim;
      PlacedSet(s, size, Entry(k, value, now + ttl), key, others);
  }

  // From operation lo on, nothing is dropped and `key` is not touched.
  predicate Undisturbed<V>(ops: seq<Op<V>>, size: nat, lo: nat, key: string)
    requires lo <= |ops|
  {
    lo < |ops| ==>
      var pre, op := ops[..|ops| - 1], ops[|ops| - 1];
      DropsNone(Run(pre, size), op) && key !in Touches(Run(pre, size), op) && Undisturbed(pre, size, lo, key)
  }

  lemma {:induction false} UndisturbedFrom<V>(ops: seq<Op<V>>, size: nat, lo: nat, key: string)
    requires lo <= |ops|
    requires forall j | lo <= j < |ops| ::
               DropsNone(Run(ops[..j], size), ops[j]) && key !in Touches(Run(ops[..j], size), ops[j])
    ensures Undisturbed(ops, size, lo, key)
  {
    hide DropsNone, Run, Touches;
    if lo < |ops| {
      var pre := ops[..|ops| - 1];
      forall j | lo <= j < |pre|
        ensures DropsNone(Run(pre[..j], size), pre[j]) && key !in Touches(Run(pre[..j], size), pre[j])
      {
        assert pre[..j] == ops[..j];
      }
      UndisturbedFrom(pre, size, lo, key);
    }
  }

  lemma {:induction false} StaysPlaced<V>(ops: seq<Op<V>>, size: nat, lo: nat, key: string)
    requires lo <= |ops| && Placed(Run(ops[..lo], size), key, {}, size) && Undisturbed(ops, size, lo, key)
    ensures Placed(Run(ops, size), key, TouchedSince(ops, size, lo), size)
  {
    hide Placed, Touches, DropsNone, Step, Distinct, Run;
    if lo == |ops| {
      assert ops[..lo] == ops;
    } else {
      var pre, op := ops[..|ops| - 1], ops[|ops| - 1];
      assert pre[..lo] == ops[..lo];
      StaysPlaced(pre, size, lo, key);
      RunShape(pre, size);
      RunStep(ops, size);
      StepKeepsPlaced(Run(pre, size), size, op, key, TouchedSince(pre, size, lo));
    }
  }

  lemma TouchedIsPlaced<V>(s: Order<V>, size: nat, op: Op<V>, key: string)
    requires Distinct(s) && 0 < size && key in Touches(s, op)
    ensures Placed(Step(s, size, op), key, {}, size)
  {
    WithoutFacts(s, key);
    assert Step(s, size, op)[0].key == key;
  }

  // Main result: when operation i is the last to touch a key and nothing has been dropped since, the key is
  // still there if and only if fewer than `size` other keys have been touched since.
  lemma PresentIffFewTouched<V>(ops: seq<Op<V>>, size: nat, i: nat, key: string)
    requires 0 < size && i < |ops| && key in Touches(Run(ops[..i], size), ops[i])
    requires forall j | i < j < |ops| ::
               DropsNone(Run(ops[..j], size), ops[j]) && key !in Touches(Run(ops[..j], size), ops[j])
    ensures Find(Run(ops, size), key).Some? <==> |TouchedSince(ops, size, i + 1)| < size
  {
    UndisturbedFrom(ops, size, i + 1, key);
    RunShape(ops[..i], size);
    RunStep(ops[..i + 1], size);
    assert ops[..i + 1][..i] == ops[..i];
    TouchedIsPlaced(Run(ops[..i], size), size, ops[i], key);
    hide Touches, Step, Distinct, Run, TouchedSince, Undisturbed, DropsNone;
    StaysPlaced(ops, size, i + 1, key);
  }
}
