/**
 Two promises of the cache shard that span its operations: the bound of the high-priority pool
 (rutil/lru_cache.cc:152-216, 251-256) and the discipline of deleter calls (rutil/lru_cache.cc:21-28,
 203-216, 258-395, rutil/lru_cache.h:103-109).
 */
module LruPolicies {
  import opened LruShard
  import opened LruOps
  import opened LruRuns

  // ---------- the high-priority pool ----------

  predicate PoolBounded(s: Shard) {
    s.highUsage as real <= s.highCapacity
  }

  lemma RemoveLowersPool(s: Shard, id: Id)
    requires id in s.lru && id in s.entries
    ensures LruRemove(s, id).highUsage <= s.highUsage
  {
  }

  lemma {:induction false} EvictLowersPool(s: Shard, charge: nat)
    requires Core(s)
    ensures EvictFromLru(s, charge).highUsage <= s.highUsage
    decreases |s.lru|
  {
    hide Core, LruRemove;
    if s.usage + charge > s.capacity && s.lru != [] {
      Unheld(s, s.lru[0]);
      RemoveLowersPool(s, s.lru[0]);
      DiscardCore(s, s.lru[0]);
      EvictLowersPool(Discard(s, s.lru[0]), charge);
    }
  }

  lemma {:induction false} EraseLowersPool(s: Shard)
    requires Core(s)
    ensures EraseUnRefEntries(s).highUsage <= s.highUsage
    decreases |s.lru|
  {
    hide Core, LruRemove;
    if s.lru != [] {
      Unheld(s, s.lru[0]);
      RemoveLowersPool(s, s.lru[0]);
      DiscardCore(s, s.lru[0]);
      EraseLowersPool(Discard(s, s.lru[0]));
    }
  }

  lemma DisplaceLowersPool(s: Shard, name: Name)
    requires Inv(s)
    ensures Displace(s, name).highUsage <= s.highUsage
  {
    if name in s.table {
      TableFacts(s, name);
      hide Core, LruRemove;
      if s.entries[s.table[name]].refs == 1 {
        RemoveLowersPool(s, s.table[name]);
      }
    }
  }

  lemma ReleaseBounded(s: Shard, id: Id)
    requires Inv(s) && id in s.held && PoolBounded(s)
    ensures PoolBounded(Release(s, id))
  {
    hide Core, Books, Summed, ListedBut, Listed, LruInsert, GiveBack, Unlist;
    HeldFacts(s, id);
    var e := s.entries[id];
    if e.refs == 2 && e.inCache && s.usage <= s.capacity {
      var m := GiveBack(s, id);
      ReleaseKept(s, id, m);
      InsertKeeps(m, id);
    } else {
      ReleasePool(s, id);
    }
  }

  lemma ReleasePool(s: Shard, id: Id)
    requires Inv(s) && id in s.held && id in s.entries
    requires !(s.entries[id].refs == 2 && s.entries[id].inCache && s.usage <= s.capacity)
    ensures var r := Release(s, id); r.highUsage == s.highUsage && r.highCapacity == s.highCapacity
  {
    hide Core, LruInsert;
  }

  lemma InsertBounded(s: Shard, name: Name, charge: nat, wantHandle: bool, high: bool)
    requires Inv(s) && PoolBounded(s)
    ensures PoolBounded(Insert(s, name, charge, wantHandle, high).s)
  {
    hide Core, Displace, EvictFromLru, LruInsert, Enter;
    var r := EvictFromLru(s, charge);
    EvictLowersPool(s, charge);
    if !Rejects(r, charge, wantHandle) {
      DisplaceInv(r, name);
      DisplaceLowersPool(r, name);
      var d := Displace(r, name);
      var e := NewEntry(name, charge, wantHandle, high);
      EnterFacts(d, e, wantHandle);
      EnterPool(d, e, wantHandle);
      if !wantHandle {
        InsertKeeps(Enter(d, e, wantHandle), d.next);
      }
    }
  }

  lemma EnterPool(s: Shard, e: Entry, wantHandle: bool)
    ensures var m := Enter(s, e, wantHandle); m.highUsage == s.highUsage && m.highCapacity == s.highCapacity
  {
  }

  // Every operation but SetCapacity keeps the pool within its capacity.
  lemma PoolBoundKept(s: Shard, op: Op)
    requires Ready(s) && Allowed(s, op) && PoolBounded(s) && !op.DoSetCapacity?
    ensures PoolBounded(Do(s, op))
  {
    hide Core, EvictFromLru, EraseUnRefEntries, Displace, Insert, Release, LruRemove, MaintainPoolSize;
    match op
    case DoInsert(name, charge, wantHandle, high) => InsertBounded(s, name, charge, wantHandle, high);
    case DoLookup(name) =>
      if name in s.table {
        TableFacts(s, name);
        if s.entries[s.table[name]].refs == 1 {
          RemoveLowersPool(s, s.table[name]);
        }
      }
    case DoRelease(id) => ReleaseBounded(s, id);
    case DoErase(name) =>
      DisplaceLowersPool(s, name);
      DisplaceInv(s, name);
    case DoSetStrict(strict) =>
    case DoSetRatio(ratio) => SetRatioInv(s, ratio);
    case DoEraseUnRef =>
      EraseLowersPool(s);
      EraseSettings(s);
  }

  // SetCapacity evicts but does not rebalance: the bound holds afterwards exactly if what it
  // leaves of the high-pool segment fits the new pool capacity.
  lemma PoolAfterSetCapacity(s: Shard, capacity: nat) returns (k: nat)
    requires Ready(s)
    ensures ShortestPrefix(s.(capacity := capacity), 0, k)
    ensures var rest := s.lru[(if k < s.low then s.low else k)..];
            PoolBounded(SetCapacity(s, capacity)) <==> Sum(s.entries, rest) as real <= PoolCapacity(capacity, s.ratio)
  {
    hide Books, Summed, Listed, EvictFromLru, PoolCapacity, Core, ShortestPrefix;
    ReadyFacts(s);
    var m := s.(capacity := capacity, highCapacity := PoolCapacity(capacity, s.ratio));
    SameCore(s, m);
    k := EvictsShortestPrefix(m, 0);
    SamePrefix(m, s.(capacity := capacity), k);
    var r := EvictFromLru(m, 0);
    var rest := s.lru[(if k < s.low then s.low else k)..];
    assert r.lru[r.low..] == rest;
    HighSum(m, r, rest);
  }

  lemma ReadyFacts(s: Shard)
    requires Ready(s)
    ensures Core(s) && s.low <= |s.lru|
  {
  }

  lemma SamePrefix(m: Shard, s: Shard, k: nat)
    requires ShortestPrefix(m, 0, k)
    requires s.lru == m.lru && s.usage == m.usage && s.entries == m.entries && s.capacity == m.capacity
    ensures ShortestPrefix(s, 0, k) && k <= |s.lru|
  {
  }

  lemma HighSum(m: Shard, r: Shard, rest: seq<Id>)
    requires Core(r) && r.low <= |r.lru| && r.lru[r.low..] == rest
    requires forall id :: id in r.entries ==> id in m.entries && r.entries[id] == m.entries[id]
    ensures r.highUsage == Sum(m.entries, rest)
  {
    forall i | 0 <= i < |rest|
      ensures ChargeOf(r.entries, rest[i]) == ChargeOf(m.entries, rest[i])
    {
      assert rest[i] == r.lru[r.low + i];
    }
    SumSame(r.entries, m.entries, rest);
  }

  // One high-priority entry of charge 4 in a pool of 5; lowering the capacity from 10 to 4 leaves
  // a pool of 2 with that entry in it.
  const OVERFULL_NAME: Name := Name([], 0)
  const OVERFULL: Shard := Shard(
    map[0 := Entry(OVERFULL_NAME, 4, 1, true, true, true)], map[OVERFULL_NAME := 0], [0], 0, 4, 4, 4,
    10, false, 0.5, 5.0, 1, [], multiset{}, map[0 := OVERFULL_NAME])
  const TO_OVERFULL: seq<Op> := [DoSetCapacity(10), DoSetRatio(0.5), DoInsert(OVERFULL_NAME, 4, false, true)]

  // Three calls lead to this shard, and the fourth breaks the bound.
  lemma SetCapacityBreaksPoolBound()
    ensures Ready(EMPTY) && Reaches(EMPTY, TO_OVERFULL, OVERFULL) && Ready(OVERFULL)
    ensures PoolBounded(OVERFULL) && !PoolBounded(SetCapacity(OVERFULL, 4))
  {
    hide Inv, Core;
    EmptyReady();
    var a := EMPTY.(capacity := 10);
    assert Do(EMPTY, DoSetCapacity(10)) == a;
    DoReady(EMPTY, DoSetCapacity(10));
    var b := a.(ratio := 0.5, highCapacity := 5.0);
    assert Do(a, DoSetRatio(0.5)) == b;
    DoReady(a, DoSetRatio(0.5));
    FirstInsert(b);
    DoReady(b, TO_OVERFULL[2]);
    assert Reaches(OVERFULL, [], OVERFULL);
    assert TO_OVERFULL[2..] == [TO_OVERFULL[2]] && TO_OVERFULL[2..][1..] == [];
    assert Reaches(b, TO_OVERFULL[2..], OVERFULL);
    assert TO_OVERFULL[1..][1..] == TO_OVERFULL[2..];
    assert Reaches(a, TO_OVERFULL[1..], OVERFULL);
    LoweredOverfull();
  }

  lemma FirstInsert(b: Shard)
    requires Ready(b) && b == EMPTY.(capacity := 10, ratio := 0.5, highCapacity := 5.0)
    ensures Do(b, TO_OVERFULL[2]) == OVERFULL
  {
    hide Core;
    var e := NewEntry(OVERFULL_NAME, 4, false, true);
    assert EvictFromLru(b, 4) == b;
    assert Displace(b, OVERFULL_NAME) == b;
    var m := Enter(b, e, false);
    var r := LruInsert(m, 0);
    assert r.entries == OVERFULL.entries && r.lru == [0] && r.low == 0;
    assert m.accepted == OVERFULL.accepted && m.table == OVERFULL.table;
  }

  lemma LoweredOverfull()
    requires Ready(OVERFULL)
    ensures PoolBounded(OVERFULL) && !PoolBounded(SetCapacity(OVERFULL, 4))
  {
    hide Core;
  }

  // ---------- deleter calls ----------

  // In every run: no value is freed twice, none is freed while it is allocated or a handle to it
  // is out, and each is freed in the state that Free asserts.
  lemma DeleterDiscipline(ops: seq<Op>, t: Shard)
    requires Ready(EMPTY) && Reaches(EMPTY, ops, t)
    ensures forall i :: 0 <= i < |t.freed| ==>
              FreeAsserted(t.freed[i]) && t.freed[i].id !in t.held && t.freed[i].id !in t.entries
    ensures forall i, j :: 0 <= i < j < |t.freed| ==> t.freed[i].id != t.freed[j].id
  {
    RunReady(EMPTY, ops, t);
  }

  // A rejected insert frees what was evicted for it, but never the value it was given.
  lemma RejectionCallsNoDeleter(s: Shard, name: Name, charge: nat, high: bool)
    requires Inv(s)
    ensures var i := Insert(s, name, charge, true, high);
            !i.ok ==> i.s.freed == EvictFromLru(s, charge).freed
                      && forall j :: 0 <= j < |i.s.freed| ==> i.s.freed[j].id != s.next
  {
  }

  // Destruction walks the table and frees the entries whose only reference is the table's.
  ghost predicate TableOrder(s: Shard, order: seq<Id>) {
    && Distinct(order)
    && (forall i :: 0 <= i < |order| ==>
      order[i] in s.entries && s.entries[order[i]].inCache && s.entries[order[i]].refs == 1)
    && (forall n :: n in s.table && s.table[n] in s.entries && s.entries[s.table[n]].refs == 1 ==> s.table[n] in order)
  }

  function Destroy(s: Shard, order: seq<Id>): seq<Free>
    requires forall i :: 0 <= i < |order| ==> order[i] in s.entries
  {
    s.freed + seq(|order|,
      i requires 0 <= i < |order| => Free(order[i], s.entries[order[i]].refs, s.entries[order[i]].inCache))
  }

  // With all handles released, everything that ever entered the cache has then been freed exactly
  // once; what is still held is not freed.
  lemma DestructionFreesAll(s: Shard, order: seq<Id>)
    requires Inv(s) && TableOrder(s, order)
    ensures var all := Destroy(s, order);
            && (forall i :: 0 <= i < |all| ==> FreeAsserted(all[i]) && all[i].id !in s.held)
            && (forall i, j :: 0 <= i < j < |all| ==> all[i].id != all[j].id)
            && (s.held == multiset{} ==> forall id :: id in s.accepted ==>
              exists i :: 0 <= i < |all| && all[i].id == id)
  {
    hide Core;
    var all := Destroy(s, order);
    DestroyOnce(s, order);
    if s.held == multiset{} {
      forall id | id in s.accepted
        ensures exists i :: 0 <= i < |all| && all[i].id == id
      {
        DestroyedOrFreed(s, order, id);
      }
    }
  }

  lemma DestroyOnce(s: Shard, order: seq<Id>)
    requires Inv(s) && TableOrder(s, order)
    ensures var all := Destroy(s, order);
            && (forall i :: 0 <= i < |all| ==> FreeAsserted(all[i]) && all[i].id !in s.held)
            && (forall i, j :: 0 <= i < j < |all| ==> all[i].id != all[j].id)
  {
    hide Listed, Summed, Latest, Tabled;
    var all := Destroy(s, order);
    forall i | 0 <= i < |all|
      ensures FreeAsserted(all[i]) && all[i].id !in s.held
    {
      if i >= |s.freed| {
        assert all[i].id == order[i - |s.freed|];
      }
    }
    forall i, j | 0 <= i < j < |all|
      ensures all[i].id != all[j].id
    {
      if i < |s.freed| <= j {
        assert all[j].id == order[j - |s.freed|] && all[j].id in s.entries;
      }
    }
  }

  lemma DestroyedOrFreed(s: Shard, order: seq<Id>, id: Id)
    requires Inv(s) && TableOrder(s, order) && s.held == multiset{} && id in s.accepted
    ensures var all := Destroy(s, order); exists i :: 0 <= i < |all| && all[i].id == id
  {
    var all := Destroy(s, order);
    if id in s.entries {
      assert s.held[id] == 0 && s.entries[id].inCache && s.table[s.entries[id].name] == id;
      assert id in order;
      var i :| 0 <= i < |order| && order[i] == id;
      assert all[|s.freed| + i].id == id;
    } else {
      var i :| 0 <= i < |s.freed| && s.freed[i].id == id;
      assert all[i].id == id;
    }
  }
}
