/**
 The cache of pkg/cache/cache.go.  `LruOrder` is the simple form: a sequence of entries, most
 recently used first.  `LruCache` is the form the source has, a hash map into a linked list that
 is updated in place, proved against it.

 Times are integers on one clock, and an operation is given the time it reads.
 */
module LruOrder {
  import opened Options

  datatype Entry<V> = Entry(key: string, value: V, expiresAt: int)

  type Order<V> = seq<Entry<V>>

  ghost predicate Distinct<V>(s: Order<V>) {
    forall i, j | 0 <= i < j < |s| :: s[i].key != s[j].key
  }

  function Find<V>(s: Order<V>, key: string): Option<Entry<V>> {
    if s == [] then None
    else if s[0].key == key then Some(s[0])
    else Find(s[1..], key)
  }

  function Without<V>(s: Order<V>, key: string): Order<V> {
    if s == [] then []
    else if s[0].key == key then Without(s[1..], key)
    else [s[0]] + Without(s[1..], key)
  }

  function Trim<V>(s: Order<V>, size: nat): Order<V> {
    if |s| > size then s[..size] else s
  }

  function Hit<V>(s: Order<V>, key: string, now: int): Option<V> {
    match Find(s, key)
    case None => None
    case Some(e) => if now > e.expiresAt then None else Some(e.value)
  }

  function AfterGet<V>(s: Order<V>, key: string, now: int): Order<V> {
    match Find(s, key)
    case None => s
    case Some(e) => if now > e.expiresAt then Without(s, key) else [e] + Without(s, key)
  }

  function AfterSet<V>(s: Order<V>, size: nat, key: string, value: V, expiresAt: int): Order<V> {
    Trim([Entry(key, value, expiresAt)] + Without(s, key), size)
  }

  // NewLRUCache replaces a size that is not positive.
  function EffectiveSize(maxSize: int): nat {
    if maxSize <= 0 then 1000 else maxSize
  }

  lemma {:induction false} FindAt<V>(s: Order<V>, i: nat)
    requires Distinct(s) && i < |s|
    ensures Find(s, s[i].key) == Some(s[i])
    ensures Without(s, s[i].key) == s[..i] + s[i + 1..]
  {
    if i == 0 {
      FindMissing(s[1..], s[0].key);
    } else {
      FindAt(s[1..], i - 1);
      assert s[..i] + s[i + 1..] == [s[0]] + (s[1..][..i - 1] + s[1..][i..]);
    }
  }

  lemma {:induction false} FindMissing<V>(s: Order<V>, key: string)
    requires forall i | 0 <= i < |s| :: s[i].key != key
    ensures Find(s, key) == None
    ensures Without(s, key) == s
  {
    if s != [] {
      FindMissing(s[1..], key);
    }
  }
}

module LruCache {
  import opened Options
  import opened LruOrder
  import opened LinkedList

  // The two cases of Set.
  lemma SetPresent<V>(s: Order<V>, i: nat, size: nat, key: string, value: V, expiresAt: int)
    requires i < |s| <= size && Without(s, key) == s[..i] + s[i + 1..]
    ensures AfterSet(s, size, key, value, expiresAt) == [Entry(key, value, expiresAt)] + Without(s, key)
  {}

  lemma SetAbsent<V>(s: Order<V>, size: nat, key: string, value: V, expiresAt: int)
    requires |s| <= size && Without(s, key) == s
    ensures var more := [Entry(key, value, expiresAt)] + s;
            AfterSet(s, size, key, value, expiresAt) == if |more| > size then more[..|more| - 1] else more
  {}

  // The ring of the list and the contents of the cache, when the i-th element moves to the front.
  lemma RingMoved<T>(now: seq<T>, was: seq<T>, i: nat)
    requires 0 < i < |was| && now == [was[0], was[i]] + (was[1..i] + was[i + 1..])
    ensures |now| == |was| && now[0] == was[0] && now[1] == was[i]
    ensures (forall k | 2 <= k <= i :: now[k] == was[k - 1]) && (forall k | i < k < |was| :: now[k] == was[k])
  {}

  lemma MovedToFront<T>(now: seq<T>, was: seq<T>, i: nat)
    requires 0 < i <= |was| == |now| && now[0] == was[i - 1]
    requires (forall k | 1 <= k < i :: now[k] == was[k - 1]) && (forall k | i <= k < |was| :: now[k] == was[k])
    ensures now == [was[i - 1]] + (was[..i - 1] + was[i..])
  {}

  class LRUCache<V(0)> {
    var items: map<string, Element<V>>
    const order: List<V>
    const maxSize: nat

    ghost predicate Valid()
      reads this, order, order.ring
    {
      Consistent() && order.len <= maxSize && 0 < maxSize
    }

    // Map and list hold the same elements, each under its own key.
    ghost predicate Consistent()
      reads this, order, order.ring
      ensures Consistent() ==> order.Valid()
    {
      && order.Valid()
      && (forall e <- order.Members() :: e.key in items && items[e.key] == e)
      && (forall key <- items :: items[key] in order.Members() && items[key].key == key)
    }

    ghost function Contents(): Order<V>
      reads this, order, order.ring
      requires order.Valid()
      ensures |Contents()| == order.len
    {
      seq(order.len, i requires 0 <= i < order.len && order.Valid() reads this, order, order.ring =>
        Entry(order.ring[i + 1].key, order.ring[i + 1].value, order.ring[i + 1].expiresAt))
    }

    constructor (maxSize: int)
      ensures Valid() && fresh(order) && fresh(order.root)
      ensures Contents() == [] && this.maxSize == EffectiveSize(maxSize)
      ensures if maxSize > 0 then this.maxSize == maxSize else this.maxSize == 1000
    {
      order := new List();
      items := map[];
      this.maxSize := EffectiveSize(maxSize);
    }

    // Where the entry of `key` is, in the list and in the contents.
    ghost method Locate(key: string) returns (i: nat)
      requires Consistent()
      ensures if key in items then 0 < i < |order.ring| && order.ring[i] == items[key]
                && Find(Contents(), key) == Some(Contents()[i - 1])
                && Without(Contents(), key) == Contents()[..i - 1] + Contents()[i..]
              else Find(Contents(), key) == None && Without(Contents(), key) == Contents()
    {
      forall i | 0 < i < |order.ring|
        ensures order.ring[i] in order.Members()
      {
        order.MemberAt(i);
      }
      assert Distinct(Contents());
      if key in items {
        assert items[key] in order.ring;
        i :| 0 < i < |order.ring| && order.ring[i] == items[key];
        FindAt(Contents(), i - 1);
      } else {
        FindMissing(Contents(), key);
        i := 0;
      }
    }

    method RemoveElement(el: Element<V>, ghost i: nat)
      requires Consistent() && 0 < i < |order.ring| && order.ring[i] == el
      modifies `items, order, order.Nodes()`prev, order.Nodes()`next
      ensures Consistent() && order.Members() == old(order.Members()) - {el}
      ensures Contents() == old(Contents())[..i - 1] + old(Contents())[i..]
    {
      hide List.Valid, List.Members;
      order.MemberAt(i);
      order.Remove(el, i);
      items := items - {el.key};
    }

    // list.MoveToFront, seen from the cache.
    method Touch(el: Element<V>, ghost i: nat)
      requires Consistent() && 0 < i < |order.ring| && order.ring[i] == el
      modifies order, order.Nodes()`prev, order.Nodes()`next
      ensures Consistent() && order.Members() == old(order.Members())
      ensures 1 < |order.ring| && order.ring[1] == el
      ensures Contents() == [old(Contents())[i - 1]] + (old(Contents())[..i - 1] + old(Contents())[i..])
    {
      hide List.Valid, List.Members;
      ghost var was, ring := Contents(), order.ring;
      order.MemberAt(i);
      order.MoveToFront(el, i);
      RingMoved(order.ring, ring, i);
      MovedToFront(Contents(), was, i);
    }

    method EvictOldest()
      requires Consistent()
      modifies `items, order, order.Nodes()`prev, order.Nodes()`next
      ensures Consistent() && order.Members() <= old(order.Members())
      ensures Contents() == if old(Contents()) == [] then [] else old(Contents())[..|old(Contents())| - 1]
    {
      hide List.Members;
      var el := order.Back();
      if el != null {
        RemoveElement(el, order.len);
      }
    }

    // The two statements of Set that put a new element in list and map.
    method Insert(el: Element<V>)
      requires Consistent() && el !in order.ring && el.key !in items
      modifies `items, order, order.Nodes()`prev, order.Nodes()`next, el`prev, el`next
      ensures Consistent() && order.Members() == old(order.Members()) + {el}
      ensures Contents() == [Entry(el.key, el.value, el.expiresAt)] + old(Contents())
    {
      hide List.Valid, List.Members;
      order.PushFront(el);
      items := items[el.key := el];
    }

    // Write a new value and expiry into the element at the front.
    method Overwrite(el: Element<V>, value: V, expiresAt: int)
      requires Consistent() && 1 < |order.ring| && order.ring[1] == el
      modifies el`value, el`expiresAt
      ensures Consistent()
      ensures Contents() == [Entry(el.key, value, expiresAt)] + old(Contents())[1..]
    {
      el.value := value;
      el.expiresAt := expiresAt;
      assert forall i | 1 < i < |order.ring| :: order.ring[i] != el;
    }

    method Get(key: string, now: int) returns (r: Option<V>)
      requires Valid()
      modifies `items, order, order.Nodes()`prev, order.Nodes()`next
      ensures Valid() && order.Members() <= old(order.Members())
      ensures r == Hit(old(Contents()), key, now)
      ensures Contents() == AfterGet(old(Contents()), key, now)
    {
      hide List.Valid, List.Members;
      ghost var i := Locate(key);
      if key !in items {
        return None;
      }
      var el := items[key];
      if now > el.expiresAt {
        RemoveElement(el, i);
        return None;
      }
      Touch(el, i);
      return Some(el.value);
    }

    method Set(key: string, value: V, now: int, ttl: int)
      requires Valid()
      modifies `items, order, order.Nodes()
      ensures Valid() && fresh(order.Members() - old(order.Members()))
      ensures Contents() == AfterSet(old(Contents()), maxSize, key, value, now + ttl)
    {
      hide List.Valid, Consistent, Contents, AfterSet, Without, Find;
      ghost var was := Contents();
      ghost var i := Locate(key);
      if key in items {
        var el := items[key];
        assert el in order.ring;
        SetPresent(was, i - 1, maxSize, key, value, now + ttl);
        Touch(el, i);
        Overwrite(el, value, now + ttl);
        return;
      }
      SetAbsent(was, maxSize, key, value, now + ttl);
      var el := new Element(key, value, now + ttl);
      Insert(el);
      assert order.Nodes() <= old(order.Nodes()) + {el};
      if order.len > maxSize {
        EvictOldest();
      }
    }

    method Delete(key: string)
      requires Valid()
      modifies `items, order, order.Nodes()`prev, order.Nodes()`next
      ensures Valid() && order.Members() <= old(order.Members())
      ensures Contents() == Without(old(Contents()), key)
    {
      ghost var i := Locate(key);
      if key in items {
        RemoveElement(items[key], i);
      }
    }

    method Clear()
      requires Valid()
      modifies `items, order, order.root`prev, order.root`next
      ensures Valid() && Contents() == [] && order.Members() == {}
    {
      items := map[];
      order.Init();
    }
  }
}
