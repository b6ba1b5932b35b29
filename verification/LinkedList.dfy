/**
 The part of Go's container/list that the cache uses: a ring of elements closed by a sentinel
 root, so that root.next is the front and root.prev the back.
 */
module LinkedList {

  // An element and the cache entry it carries; the entry of the root is never looked at.
  class Element<V(0)> {
    var prev: Element?<V>
    var next: Element?<V>
    var key: string
    var value: V
    var expiresAt: int

    constructor (key: string, value: V, expiresAt: int)
      ensures this.key == key && this.value == value && this.expiresAt == expiresAt
    {
      this.key, this.value, this.expiresAt := key, value, expiresAt;
    }

    constructor Root()
      ensures next == this && prev == this
    {
      next, prev := this, this;
    }
  }

  class List<V(0)> {
    const root: Element<V>
    var len: nat
    // The root followed by the elements from front to back.
    ghost var ring: seq<Element<V>>

    ghost predicate Valid()
      reads this, ring
      ensures Valid() ==> |ring| == len + 1 && ring[0] == root && root in Nodes()
    {
      && |ring| == len + 1 && ring[0] == root
      && (forall i, j | 0 <= i < j < |ring| :: ring[i] != ring[j])
      && (forall i {:trigger ring[i].next} | 0 <= i < |ring| :: ring[i].next == Around(i + 1))
      && (forall i {:trigger ring[i].prev} | 0 <= i < |ring| :: ring[i].prev == Around(i - 1))
    }

    // The elements, without the root.
    ghost function Members(): set<Element<V>>
      reads this
    {
      Nodes() - {root}
    }

    ghost function Nodes(): set<Element<V>>
      reads this
    {
      set e | e in ring
    }

    ghost function Around(i: int): Element<V>
      reads this
      requires ring != [] && -1 <= i <= |ring|
    {
      if i == -1 then ring[|ring| - 1] else if i == |ring| then ring[0] else ring[i]
    }

    constructor ()
      ensures Valid() && ring == [root] && fresh(root)
    {
      root := new Element.Root();
      len := 0;
      ring := [root];
    }

    method Init()
      requires Valid()
      modifies this, root`prev, root`next
      ensures Valid() && ring == [root]
    {
      root.next, root.prev := root, root;
      len := 0;
      ring := [root];
    }

    method Back() returns (e: Element?<V>)
      requires Valid()
      ensures e == if len == 0 then null else ring[len]
    {
      e := if len == 0 then null else root.prev;
    }

    lemma MemberAt(i: nat)
      requires Valid() && 0 < i < |ring|
      ensures ring[i] in Members()
    {}

    // Hook `e` in right behind the root.
    method LinkFront(e: Element<V>)
      requires Valid() && e !in ring
      modifies this, Nodes()`prev, Nodes()`next, e`prev, e`next
      ensures Valid() && ring == [root, e] + old(ring)[1..]
      ensures Members() == old(Members()) + {e}
    {
      ghost var was := ring;
      var first := root.next;
      assert first == Around(1) && ring[0] == root;
      e.prev := root;
      e.next := first;
      first.prev := e;
      root.next := e;
      len := len + 1;
      ring := [root, e] + was[1..];
      assert forall k | 2 <= k < |ring| :: ring[k] == was[k - 1];
      assert first == if |ring| > 2 then ring[2] else root;
    }

    // Take the element at position i out of the ring, leaving its own links alone.
    method Unlink(e: Element<V>, ghost i: nat)
      requires Valid() && 0 < i < |ring| && ring[i] == e
      modifies this, Nodes()`prev, Nodes()`next
      ensures Valid() && ring == old(ring)[..i] + old(ring)[i + 1..]
      ensures Members() == old(Members()) - {e}
    {
      ghost var was := ring;
      var before, after := e.prev, e.next;
      assert before == was[i - 1] && after == Around(i + 1);
      before.next := after;
      after.prev := before;
      len := len - 1;
      ring := was[..i] + was[i + 1..];
      assert forall k | 0 <= k < i :: ring[k] == was[k];
      assert forall k | i <= k < |ring| :: ring[k] == was[k + 1];
    }

    method PushFront(e: Element<V>)
      requires Valid() && e !in ring
      modifies this, Nodes()`prev, Nodes()`next, e`prev, e`next
      ensures Valid() && ring == [root, e] + old(ring)[1..]
      ensures Members() == old(Members()) + {e}
    {
      LinkFront(e);
    }

    method Remove(e: Element<V>, ghost i: nat)
      requires Valid() && 0 < i < |ring| && ring[i] == e
      modifies this, Nodes()`prev, Nodes()`next
      ensures Valid() && ring == old(ring)[..i] + old(ring)[i + 1..]
      ensures Members() == old(Members()) - {e}
    {
      Unlink(e, i);
      e.next, e.prev := null, null;
    }

    method MoveToFront(e: Element<V>, ghost i: nat)
      requires Valid() && 0 < i < |ring| && ring[i] == e
      modifies this, Nodes()`prev, Nodes()`next
      ensures Valid() && ring == [root, e] + (old(ring)[1..i] + old(ring)[i + 1..])
      ensures Members() == old(Members())
    {
      if root.next == e {
        assert ring[0] == root && root.next == Around(1);
        return;
      }
      Unlink(e, i);
      LinkFront(e);
    }
  }
}
