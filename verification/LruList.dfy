/**
 The LRU list (rutil/lru_cache.cc:152-201): a circular doubly linked list with a dummy head, on
 the heap, and the pointer lru_low_pri_ that separates its two pools.
 */
module LruList {
  import opened LruHandle

  // ---------- rings ----------

  // The neighbours of position i on a ring.
  ghost function Succ(ring: seq<LRUHandle>, i: nat): LRUHandle
    requires i < |ring|
  {
    if i + 1 < |ring| then ring[i + 1] else ring[0]
  }

  ghost function Pred(ring: seq<LRUHandle>, i: nat): LRUHandle
    requires i < |ring|
  {
    if i > 0 then ring[i - 1] else ring[|ring| - 1]
  }

  ghost predicate Distinct(ring: seq<LRUHandle>) {
    forall i, j :: 0 <= i < j < |ring| ==> ring[i] != ring[j]
  }

  ghost predicate Linked(ring: seq<LRUHandle>)
    reads ring`next, ring`prev
  {
    && Distinct(ring)
    && forall i :: 0 <= i < |ring| ==> ring[i].next == Succ(ring, i) && ring[i].prev == Pred(ring, i)
  }

  ghost function Inserted(ring: seq<LRUHandle>, i: nat, e: LRUHandle): seq<LRUHandle>
    requires i < |ring|
  {
    ring[..i + 1] + [e] + ring[i + 1..]
  }

  ghost function Removed(ring: seq<LRUHandle>, i: nat): seq<LRUHandle>
    requires i < |ring|
  {
    ring[..i] + ring[i + 1..]
  }

  lemma InsertedIs(ring: seq<LRUHandle>, i: nat, e: LRUHandle)
    requires i < |ring|
    ensures var r := Inserted(ring, i, e);
            && |r| == |ring| + 1 && r[i + 1] == e
            && (forall k :: 0 <= k <= i ==> r[k] == ring[k])
            && (forall k :: i + 1 < k < |r| ==> r[k] == ring[k - 1])
  {
  }

  lemma RemovedIs(ring: seq<LRUHandle>, i: nat)
    requires i < |ring|
    ensures var r := Removed(ring, i);
            && |r| == |ring| - 1
            && (forall k :: 0 <= k < i ==> r[k] == ring[k])
            && (forall k :: i <= k < |r| ==> r[k] == ring[k + 1])
  {
  }

  // The index after i on a ring.
  ghost function After(ring: seq<LRUHandle>, i: nat): (j: nat)
    requires i < |ring|
    ensures j < |ring| && ring[j] == Succ(ring, i)
  {
    if i + 1 < |ring| then i + 1 else 0
  }

  lemma InsertedLinked(ring: seq<LRUHandle>, i: nat, e: LRUHandle)
    requires i < |ring| && Distinct(ring) && e !in ring && e.next == Succ(ring, i) && e.prev == ring[i]
    requires forall k :: 0 <= k < |ring| ==> ring[k].next == if k == i then e else Succ(ring, k)
    requires forall k :: 0 <= k < |ring| ==> ring[k].prev == if k == After(ring, i) then e else Pred(ring, k)
    ensures Linked(Inserted(ring, i, e))
  {
    hide Inserted, Succ, Pred, Distinct;
    var r := Inserted(ring, i, e);
    InsertedDistinct(ring, i, e);
    InsertedIs(ring, i, e);
    forall k | 0 <= k < |r|
      ensures r[k].next == Succ(r, k) && r[k].prev == Pred(r, k)
    {
      InsertedNeighbours(ring, i, e, k);
    }
  }

  lemma InsertedDistinct(ring: seq<LRUHandle>, i: nat, e: LRUHandle)
    requires i < |ring| && Distinct(ring) && e !in ring
    ensures Distinct(Inserted(ring, i, e))
  {
    hide Inserted;
    var r := Inserted(ring, i, e);
    InsertedIs(ring, i, e);
    forall j, k | 0 <= j < k < |r|
      ensures r[j] != r[k]
    {
      assert j != i + 1 ==> r[j] == ring[if j <= i then j else j - 1];
      assert k != i + 1 ==> r[k] == ring[if k <= i then k else k - 1];
    }
  }

  lemma InsertedNeighbours(ring: seq<LRUHandle>, i: nat, e: LRUHandle, k: nat)
    requires i < |ring| && k <= |ring|
    ensures var r := Inserted(ring, i, e);
            && |r| == |ring| + 1
            && Succ(r, k)
              == (if k == i then e else if k == i + 1 then Succ(ring, i) else Succ(ring, if k < i then k else k - 1))
            && Pred(r, k) == (if k == i + 1 then ring[i]
                              else
                                var j := if k <= i then k else k - 1;
                                if j == After(ring, i) then e else Pred(ring, j))
  {
    hide Inserted;
    InsertedIs(ring, i, e);
  }

  lemma RemovedLinked(ring: seq<LRUHandle>, i: nat)
    requires 0 < i < |ring| && Distinct(ring)
    requires forall k :: 0 <= k < |ring| && k != i ==>
             ring[k].next == if k == i - 1 then Succ(ring, i) else Succ(ring, k)
    requires forall k :: 0 <= k < |ring| && k != i ==>
             ring[k].prev == if k == After(ring, i) then ring[i - 1] else Pred(ring, k)
    ensures Linked(Removed(ring, i))
  {
    hide Removed;
    var r := Removed(ring, i);
    RemovedIs(ring, i);
    forall k | 0 <= k < |r|
      ensures r[k].next == Succ(r, k) && r[k].prev == Pred(r, k)
    {
      if k < i {
        assert r[k] == ring[k];
      } else {
        assert r[k] == ring[k + 1];
      }
    }
    forall j, k | 0 <= j < k < |r|
      ensures r[j] != r[k]
    {
      assert r[j] == ring[if j < i then j else j + 1];
      assert r[k] == ring[if k < i then k else k + 1];
    }
  }

  // Link e behind position i.
  method LinkAfter(e: LRUHandle, p: LRUHandle, ghost ring: seq<LRUHandle>, ghost i: nat)
    requires Linked(ring) && i < |ring| && p == ring[i] && e !in ring
    modifies e`next, e`prev, p`next, Succ(ring, i)`prev
    ensures Linked(Inserted(ring, i, e))
  {
    hide Inserted;
    e.next := p.next;
    e.prev := p;
    e.prev.next := e;
    e.next.prev := e;
    InsertedLinked(ring, i, e);
  }

  // Unlink position i.
  method Unlink(e: LRUHandle, ghost ring: seq<LRUHandle>, ghost i: nat)
    requires Linked(ring) && 0 < i < |ring| && e == ring[i]
    modifies e`next, e`prev, Succ(ring, i)`prev, Pred(ring, i)`next
    ensures Linked(Removed(ring, i)) && e.next == null && e.prev == null
  {
    hide Removed;
    e.next.prev := e.prev;
    e.prev.next := e.next;
    e.prev := null;
    e.next := null;
    RemovedLinked(ring, i);
  }

  // ---------- the two-pool list ----------

  function Charges(items: seq<LRUHandle>): nat {
    if items == [] then 0 else items[0].charge + Charges(items[1..])
  }

  lemma {:induction false} ChargesConcat(a: seq<LRUHandle>, b: seq<LRUHandle>)
    ensures Charges(a + b) == Charges(a) + Charges(b)
  {
    if a == [] {
      assert a + b == b;
    } else {
      assert (a + b)[1..] == a[1..] + b;
      ChargesConcat(a[1..], b);
    }
  }

  lemma ChargesAround(items: seq<LRUHandle>, k: nat, e: LRUHandle)
    requires k <= |items|
    ensures Charges(items[..k] + [e] + items[k..]) == Charges(items) + e.charge
  {
    ChargesConcat(items[..k] + [e], items[k..]);
    ChargesConcat(items[..k], [e]);
    ChargesConcat(items[..k], items[k..]);
    assert items[..k] + items[k..] == items;
    assert Charges([e]) == e.charge by { assert [e][1..] == []; }
  }

  lemma ChargesWithout(items: seq<LRUHandle>, k: nat)
    requires k < |items|
    ensures Charges(items[..k] + items[k + 1..]) == Charges(items) - items[k].charge
  {
    var rest := items[..k] + items[k + 1..];
    ChargesAround(rest, k, items[k]);
    assert rest[..k] + [items[k]] + rest[k..] == items;
  }

  // The charges behind position `low` when position k goes.
  lemma HighWithout(items: seq<LRUHandle>, low: nat, k: nat)
    requires low <= |items| && k < |items|
    ensures var rest := items[..k] + items[k + 1..];
            if k < low then Charges(rest[low - 1..]) == Charges(items[low..])
            else Charges(rest[low..]) == Charges(items[low..]) - items[k].charge
  {
    var rest := items[..k] + items[k + 1..];
    if k < low {
      assert rest[low - 1..] == items[low..];
    } else {
      var tail := items[low..];
      ChargesWithout(tail, k - low);
      assert rest[low..] == tail[..k - low] + tail[k - low + 1..];
    }
  }

  class LruList {
    const head: LRUHandle              // lru_
    var lowPri: LRUHandle              // lru_low_pri_
    var lruUsage: int
    var highUsage: int            // high_pri_pool_usage_
    var ratio: real
    var highCapacity: real
    // The entries from lru_.next (oldest) to lru_.prev (newest); the first `low` are the low pool.
    ghost var items: seq<LRUHandle>
    ghost var low: nat

    ghost predicate Valid()
      reads this, head`next, head`prev, items`next, items`prev, items`inHighPool
    {
      && Linked([head] + items)
      && low <= |items| && lowPri == ([head] + items)[low]
      && Flags(items, low)
      && lruUsage == Charges(items) && highUsage == Charges(items[low..]) && highCapacity >= 0.0
    }

    static ghost predicate Flags(items: seq<LRUHandle>, low: nat)
      reads items`inHighPool
    {
      forall i :: 0 <= i < |items| ==> items[i].inHighPool == (i >= low)
    }

    static lemma RingDistinct(head: LRUHandle, items: seq<LRUHandle>)
      requires Distinct([head] + items)
      ensures Distinct(items) && head !in items
    {
      var ring := [head] + items;
      forall i, j | 0 <= i < j < |items|
        ensures items[i] != items[j]
      {
        assert ring[i + 1] == items[i] && ring[j + 1] == items[j];
      }
      forall i | 0 <= i < |items|
        ensures items[i] != head
      {
        assert ring[0] == head && ring[i + 1] == items[i];
      }
    }

    lemma ItemsDistinct()
      requires Valid()
      ensures Distinct(items) && head !in items
    {
      hide Charges, Flags, Succ, Pred, Distinct;
      RingDistinct(head, items);
    }

    constructor (ratio: real, highCapacity: real)
      requires highCapacity >= 0.0
      ensures Valid() && items == [] && low == 0 && this.ratio == ratio && this.highCapacity == highCapacity
      ensures lruUsage == 0 && highUsage == 0 && fresh(head)
    {
      var h := new LRUHandle([], 0, 0, false, 0, false, 0);
      h.next, h.prev := h, h;
      head, lowPri := h, h;
      lruUsage, highUsage, items, low := 0, 0, [], 0;
      this.ratio, this.highCapacity := ratio, highCapacity;
    }

    method SetPoolCapacity(ratio: real, highCapacity: real)
      requires Valid() && highCapacity >= 0.0
      modifies this`ratio, this`highCapacity
      ensures Valid() && this.ratio == ratio && this.highCapacity == highCapacity
    {
      hide Charges, Succ, Pred;
      this.ratio, this.highCapacity := ratio, highCapacity;
    }

    // Record a new arrangement of the list.
    method Arrange(ghost items': seq<LRUHandle>, ghost low': nat, lowPri': LRUHandle, lruUsage': int, highUsage': int)
      requires Linked([head] + items') && low' <= |items'| && lowPri' == ([head] + items')[low'] && Flags(items', low')
      requires lruUsage' == Charges(items') && highUsage' == Charges(items'[low'..]) && highCapacity >= 0.0
      modifies this`items, this`low, this`lowPri, this`lruUsage, this`highUsage
      ensures Valid() && items == items' && low == low' && lowPri == lowPri' && lruUsage == lruUsage'
              && highUsage == highUsage'
    {
      hide Charges, Succ, Pred;
      items, low, lowPri, lruUsage, highUsage := items', low', lowPri', lruUsage', highUsage';
    }

    static lemma RestIs(items: seq<LRUHandle>, k: nat, rest: seq<LRUHandle>)
      requires k < |items| && rest == items[..k] + items[k + 1..]
      ensures |rest| == |items| - 1
      ensures forall i :: 0 <= i < k ==> rest[i] == items[i]
      ensures forall i :: k <= i < |rest| ==> rest[i] == items[i + 1]
    {
    }

    static lemma FlagsWithout(items: seq<LRUHandle>, low: nat, k: nat, rest: seq<LRUHandle>)
      requires Flags(items, low) && k < |items| && rest == items[..k] + items[k + 1..]
      ensures Flags(rest, if k < low then low - 1 else low)
    {
      RestIs(items, k, rest);
      forall i | 0 <= i < |rest|
        ensures rest[i].inHighPool == (i >= if k < low then low - 1 else low)
      {
        assert rest[i] == items[if i < k then i else i + 1];
      }
    }

    static lemma RingWithout(head: LRUHandle, items: seq<LRUHandle>, k: nat, rest: seq<LRUHandle>)
      requires k < |items| && rest == items[..k] + items[k + 1..]
      ensures Removed([head] + items, k + 1) == [head] + rest
    {
      var ring := [head] + items;
      assert ring[..k + 1] == [head] + items[..k];
      assert ring[k + 2..] == items[k + 1..];
    }

    // Where the boundary pointer goes when position k leaves the list.
    lemma BoundaryWithout(k: nat, rest: seq<LRUHandle>, low': nat)
      requires Valid() && k < |items| && rest == items[..k] + items[k + 1..] && low' == if k < low then low - 1 else low
      ensures (lowPri == items[k] <==> low == k + 1)
      ensures ([head] + items)[k + 1] == items[k] && items[k].prev == ([head] + items)[k]
      ensures (if low == k + 1 then ([head] + items)[k] else lowPri) == ([head] + rest)[low']
      ensures items[k].inHighPool == (k >= low)
    {
      hide Charges, Linked, Flags;
      var ring := [head] + items;
      RingFacts(ring, k + 1);
      FlagAt(items, low, k);
      RestIs(items, k, rest);
      DistinctAt(ring, low, k + 1);
    }

    static lemma RingFacts(ring: seq<LRUHandle>, i: nat)
      requires Linked(ring) && 0 < i < |ring|
      ensures ring[i].prev == ring[i - 1] && Distinct(ring)
    {
    }

    static lemma FlagAt(items: seq<LRUHandle>, low: nat, k: nat)
      requires Flags(items, low) && k < |items|
      ensures items[k].inHighPool == (k >= low)
    {
    }

    static lemma DistinctAt(ring: seq<LRUHandle>, i: nat, j: nat)
      requires Distinct(ring) && i < |ring| && j < |ring|
      ensures ring[i] == ring[j] <==> i == j
    {
    }

    method LruRemove(e: LRUHandle, ghost k: nat)
      requires Valid() && k < |items| && items[k] == e
      modifies this`lowPri, this`lruUsage, this`highUsage, this`items, this`low, head`next, head`prev, items`next,
               items`prev
      ensures Valid()
      ensures items == old(items)[..k] + old(items)[k + 1..]
      ensures low == if k < old(low) then old(low) - 1 else old(low)
      ensures lruUsage == old(lruUsage) - e.charge
      ensures highUsage == if e.inHighPool then old(highUsage) - e.charge else old(highUsage)
      ensures e.next == null && e.prev == null
    {
      hide Charges, Succ, Pred, Distinct;
      ghost var ring := [head] + items;
      ghost var rest := items[..k] + items[k + 1..];
      ghost var low' := if k < low then low - 1 else low;
      BoundaryWithout(k, rest, low');
      FlagsWithout(items, low, k, rest);
      RingWithout(head, items, k, rest);
      ChargesWithout(items, k);
      HighWithout(items, low, k);
      RingMembers(ring, k + 1);
      var boundary := if lowPri == e then e.prev else lowPri;
      Unlink(e, ring, k + 1);
      Arrange(rest, low', boundary, lruUsage - e.charge, if e.inHighPool then highUsage - e.charge else highUsage);
    }

    lemma RingMembers(ring: seq<LRUHandle>, i: nat)
      requires ring == [head] + items && i < |ring|
      ensures Succ(ring, i) == head || Succ(ring, i) in items
      ensures Pred(ring, i) == head || Pred(ring, i) in items
    {
    }

    // Move the boundary over the oldest high-pool entry.
    method Demote()
      requires Valid() && low < |items|
      modifies this`lowPri, this`highUsage, this`low, this`items, this`lruUsage, items[low..low + 1]`inHighPool
      ensures Valid() && low == old(low) + 1 && items == old(items) && lruUsage == old(lruUsage)
      ensures !items[old(low)].inHighPool
      ensures highUsage == old(highUsage) - items[old(low)].charge
    {
      hide Charges, Linked, Flags, Distinct;
      BoundaryNext();
      HighTail(items, low);
      ItemsDistinct();
      var boundary := lowPri.next;
      LowerFlag(boundary);
      Arrange(items, low + 1, boundary, lruUsage, highUsage - boundary.charge);
    }

    lemma BoundaryNext()
      requires Valid() && low < |items|
      ensures lowPri.next == items[low] && ([head] + items)[low + 1] == items[low]
    {
      hide Charges, Flags, Distinct, Pred;
      var ring := [head] + items;
      assert ring[low].next == Succ(ring, low) == ring[low + 1];
    }

    // SetInHighPriPool(false) on the oldest entry of the high pool.
    method LowerFlag(e: LRUHandle)
      requires low < |items| && e == items[low] && Flags(items, low) && Distinct(items)
      modifies items[low..low + 1]`inHighPool
      ensures Flags(items, low + 1) && !e.inHighPool
    {
      assert items[low..low + 1] == [e];
      e.inHighPool := false;
    }

    // The oldest entry is linked to the head, or the head to itself.
    lemma FirstLink()
      requires Valid()
      ensures if items == [] then head.next == head else head.next == items[0] && items[0] != head
    {
      hide Charges, Flags, Pred;
      var ring := [head] + items;
      assert ring[0].next == Succ(ring, 0);
      ItemsDistinct();
    }

    // A pool with a charge has an entry.
    lemma PoolCharges()
      requires Valid()
      ensures low <= |items| && (highUsage as real > highCapacity ==> low < |items|)
    {
      hide Linked, Flags;
    }

    static lemma HighTail(items: seq<LRUHandle>, low: nat)
      requires low < |items|
      ensures Charges(items[low..]) == items[low].charge + Charges(items[low + 1..])
    {
      assert items[low..][1..] == items[low + 1..];
    }

    // The list with e as its newest entry, and with e at the boundary.
    static lemma NewestShape(head: LRUHandle, items: seq<LRUHandle>, low: nat, e: LRUHandle, after: seq<LRUHandle>)
      requires low <= |items| && after == items + [e]
      ensures Inserted([head] + items, |items|, e) == [head] + after
      ensures Charges(after) == Charges(items) + e.charge && Charges(after[low..]) == Charges(items[low..]) + e.charge
    {
      hide Charges;
      OneCharge(e);
      ChargesConcat(items, [e]);
      ChargesConcat(items[low..], [e]);
      assert after[low..] == items[low..] + [e];
      assert ([head] + items)[..|items| + 1] == [head] + items;
    }

    static lemma OneCharge(e: LRUHandle)
      ensures Charges([e]) == e.charge
    {
      assert [e][1..] == [];
    }

    static lemma LowShape(head: LRUHandle, items: seq<LRUHandle>, low: nat, e: LRUHandle, after: seq<LRUHandle>)
      requires low <= |items| && after == items[..low] + [e] + items[low..]
      ensures Inserted([head] + items, low, e) == [head] + after && ([head] + after)[low + 1] == e
      ensures Charges(after) == Charges(items) + e.charge && after[low + 1..] == items[low..]
    {
      hide Charges;
      ChargesAround(items, low, e);
      LowRing(head, items, low, e, after);
    }

    static lemma LowRing(head: LRUHandle, items: seq<LRUHandle>, low: nat, e: LRUHandle, after: seq<LRUHandle>)
      requires low <= |items| && after == items[..low] + [e] + items[low..]
      ensures Inserted([head] + items, low, e) == [head] + after && ([head] + after)[low + 1] == e
      ensures after[low + 1..] == items[low..]
    {
      var ring := [head] + items;
      assert ring[..low + 1] == [head] + items[..low];
      assert ring[low + 1..] == items[low..];
      var front := items[..low] + [e];
      assert after == front + items[low..] && |front| == low + 1;
      assert ([head] + after)[low + 1] == after[low] == front[low];
    }

    static lemma FlagsWith(items: seq<LRUHandle>, low: nat, e: LRUHandle)
      requires low <= |items| && Flags(items, low)
      ensures e.inHighPool ==> Flags(items + [e], low)
      ensures !e.inHighPool ==> Flags(items[..low] + [e] + items[low..], low + 1)
    {
    }

    static lemma NewestIsLast(ring: seq<LRUHandle>)
      requires Linked(ring) && ring != []
      ensures ring[0].prev == ring[|ring| - 1]
    {
    }

    // SetInHighPriPool on an entry that is not on the list yet.
    method SetPool(e: LRUHandle, high: bool, ghost ring: seq<LRUHandle>)
      requires Linked(ring) && ring == [head] + items && e !in ring && low <= |items| && Flags(items, low)
      modifies e`inHighPool
      ensures Linked(ring) && Flags(items, low) && e.inHighPool == high
    {
      hide Distinct;
      assert forall i :: 0 <= i < |items| ==> ring[i + 1] == items[i];
      e.inHighPool := high;
    }

    // To the head of the list: the newest high-pool entry.
    method LinkNewest(e: LRUHandle)
      requires Valid() && e !in items && e != head
      modifies this`lowPri, this`lruUsage, this`highUsage, this`items, this`low, head`next, head`prev, items`next,
               items`prev,
               e`next, e`prev, e`inHighPool
      ensures Valid() && items == old(items) + [e] && low == old(low)
      ensures lruUsage == old(lruUsage) + e.charge && highUsage == old(highUsage) + e.charge && e.inHighPool
    {
      hide Charges, Distinct, Inserted, Linked, Succ, Pred;
      ghost var ring := [head] + items;
      NewestIsLast(ring);
      RingMembers(ring, |items|);
      NewestShape(head, items, low, e, items + [e]);
      SetPool(e, true, ring);
      FlagsWith(items, low, e);
      LinkAfter(e, head.prev, ring, |items|);
      Arrange(items + [e], low, lowPri, lruUsage + e.charge, highUsage + e.charge);
    }

    // To the head of the low pool, just before the high-pool segment.
    method LinkLow(e: LRUHandle)
      requires Valid() && e !in items && e != head
      modifies this`lowPri, this`lruUsage, this`highUsage, this`items, this`low, head`next, head`prev, items`next,
               items`prev,
               e`next, e`prev, e`inHighPool
      ensures Valid() && items == old(items)[..old(low)] + [e] + old(items)[old(low)..] && low == old(low) + 1
      ensures highUsage == old(highUsage) && lruUsage == old(lruUsage) + e.charge && !e.inHighPool
    {
      hide Charges, Distinct, Inserted, Linked, Succ, Pred;
      ghost var ring := [head] + items;
      RingMembers(ring, low);
      ghost var after := items[..low] + [e] + items[low..];
      LowShape(head, items, low, e, after);
      SetPool(e, false, ring);
      FlagsWith(items, low, e);
      LinkAfter(e, lowPri, ring, low);
      Arrange(after, low + 1, e, lruUsage + e.charge, highUsage);
    }
  }
}
