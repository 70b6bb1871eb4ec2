/**
 What each operation of a cache shard promises its caller (rutil/lru_cache.cc:112-133, 203-400): which
 keys are found afterwards, which values are freed, which handles are out, and where in the order of
 eviction an entry stands.
 */
module LruPromises {
  import opened LruShard
  import opened LruOps
  import opened LruRuns

  // ---------- what can change ----------

  // The entries in `lost` leave the table; every other key is found as before.
  ghost predicate TableLoses(s: Shard, r: Shard, lost: seq<Id>) {
    forall n :: (n in r.table <==> n in s.table && s.table[n] !in lost) && (n in r.table ==> r.table[n] == s.table[n])
  }

  // Exactly these values are freed, in this order.
  ghost predicate Frees(s: Shard, r: Shard, gone: seq<Id>) {
    FreedIds(r.freed) == FreedIds(s.freed) + gone
  }

  // An id is taken out of the order of eviction, if it is there.
  ghost predicate TakenOut(a: seq<Id>, id: Id, b: seq<Id>) {
    if id in a then exists j :: 0 <= j < |a| && a[j] == id && b == a[..j] + a[j + 1..] else b == a
  }

  // An id becomes the newest one of its pool.
  ghost predicate MadeNewest(s: Shard, a: seq<Id>, low: nat, id: Id, high: bool, b: seq<Id>)
    requires low <= |a|
  {
    b == if high && s.ratio > 0.0 then a + [id] else a[..low] + [id] + a[low..]
  }

  lemma FreesOne(freed: seq<Free>, f: Free)
    ensures FreedIds(freed + [f]) == FreedIds(freed) + [f.id]
  {
    assert (freed + [f])[..|freed|] == freed;
  }

  lemma OutOfList(s: Shard, id: Id)
    requires id in s.lru && id in s.entries
    ensures TakenOut(s.lru, id, LruRemove(s, id).lru)
  {
  }

  // ---------- lookup ----------

  // A lookup changes nothing but the handle it gives out: the entry is pinned, and nobody else's.
  lemma LookupPromise(s: Shard, name: Name)
    requires Inv(s)
    ensures var f := Lookup(s, name);
            && f.handle == (if name in s.table then [s.table[name]] else [])
            && f.s.table == s.table && f.s.freed == s.freed && f.s.entries.Keys == s.entries.Keys
            && f.s.held == s.held + multiset(f.handle)
            && (if name in s.table then TakenOut(s.lru, s.table[name], f.s.lru) else f.s.lru == s.lru)
            && f.s.usage == s.usage && SameSettings(s, f.s)
  {
    hide LruRemove, Sum, Total;
    if name in s.table {
      var id := s.table[name];
      TableFacts(s, name);
      if id in s.lru {
        OutOfList(s, id);
      }
    }
  }

  // ---------- release ----------

  // The last reference to an entry goes, or the table's is the only one left and the cache is too full.
  predicate LetsGo(s: Shard, id: Id)
    requires id in s.entries
  {
    var e := s.entries[id];
    e.refs == 1 || (e.inCache && e.refs == 2 && s.usage > s.capacity)
  }

  // Release frees the entry exactly then. Otherwise it frees nothing and every key is found as before,
  // and an entry that nobody holds any more becomes the newest evictable one of its pool.
  lemma ReleasePromise(s: Shard, id: Id)
    requires Inv(s) && id in s.held
    ensures id in s.entries && s.low <= |s.lru|
    ensures var r := Release(s, id);
            var e := s.entries[id];
            && r.held == s.held - multiset{id} && SameSettings(s, r)
            && if LetsGo(s, id) then
                 && Frees(s, r, [id]) && TableLoses(s, r, [id]) && r.entries.Keys == s.entries.Keys - {id}
                 && r.usage == s.usage - e.charge && r.lru == s.lru
               else
                 && r.freed == s.freed && r.table == s.table && r.entries.Keys == s.entries.Keys && r.usage == s.usage
                 && (if e.inCache && e.refs == 2 then MadeNewest(s, s.lru, s.low, id, e.highPri, r.lru)
                     else r.lru == s.lru)
  {
    hide Core, Release;
    HeldFacts(s, id);
    ListLow(s);
    ReleaseSettings(s, id);
    if LetsGo(s, id) {
      ReleaseLetsGo(s, id);
    } else {
      ReleaseStays(s, id);
    }
  }

  lemma ReleaseStays(s: Shard, id: Id)
    requires Inv(s) && id in s.held && id in s.entries && !LetsGo(s, id) && s.low <= |s.lru|
    ensures var r := Release(s, id);
            var e := s.entries[id];
            && r.held == s.held - multiset{id} && r.freed == s.freed && r.table == s.table
            && r.entries.Keys == s.entries.Keys && r.usage == s.usage
            && (if e.inCache && e.refs == 2 then MadeNewest(s, s.lru, s.low, id, e.highPri, r.lru)
                else r.lru == s.lru)
  {
    hide Core, LruInsert, MadeNewest;
    HeldFacts(s, id);
    ListLow(s);
    var m := GiveBack(s, id);
    assert m.entries.Keys == s.entries.Keys;
    if s.entries[id].inCache && s.entries[id].refs == 2 {
      InsertOrder(m, id);
      SameNewest(s, m, id);
    }
  }

  lemma SameNewest(s: Shard, m: Shard, id: Id)
    requires m.lru == s.lru && m.low == s.low && m.ratio == s.ratio && s.low <= |s.lru|
    ensures forall high, b :: MadeNewest(m, m.lru, m.low, id, high, b) <==> MadeNewest(s, s.lru, s.low, id, high, b)
  {
  }

  lemma ListLow(s: Shard)
    requires Core(s)
    ensures s.low <= |s.lru| && forall i :: 0 <= i < |s.lru| ==> s.lru[i] in s.entries
  {
  }

  // Listing an entry frees nothing and leaves all others where they are.
  lemma InsertOrder(s: Shard, id: Id)
    requires s.low <= |s.lru| && id in s.entries && forall i :: 0 <= i < |s.lru| ==> s.lru[i] in s.entries
    ensures var r := LruInsert(s, id);
            MadeNewest(s, s.lru, s.low, id, s.entries[id].highPri, r.lru) && r.entries.Keys == s.entries.Keys
  {
    hide MaintainPoolSize;
    var e := s.entries[id];
    if s.ratio > 0.0 && e.highPri {
      MaintainKeys(With(s, id, e.(inHighPool := true)).(lru := s.lru + [id], highUsage := s.highUsage + e.charge));
    }
  }

  lemma {:induction false} MaintainKeys(s: Shard)
    requires s.low <= |s.lru| && forall i :: 0 <= i < |s.lru| ==> s.lru[i] in s.entries
    ensures MaintainPoolSize(s).entries.Keys == s.entries.Keys
    decreases |s.lru| - s.low
  {
    hide MaintainPoolSize;
    MaintainUnfold(s);
    if s.highUsage as real > s.highCapacity && s.low < |s.lru| {
      MaintainKeys(Demoted(s));
    }
  }

  lemma ReleaseLetsGo(s: Shard, id: Id)
    requires Inv(s) && id in s.held && id in s.entries && LetsGo(s, id)
    ensures var r := Release(s, id);
            && r.held == s.held - multiset{id}
            && Frees(s, r, [id]) && TableLoses(s, r, [id]) && r.entries.Keys == s.entries.Keys - {id}
            && r.usage == s.usage - s.entries[id].charge && r.lru == s.lru
  {
    hide Core, Release, FreedIds;
    ReleaseGoneIs(s, id);
    TableNames(s, id);
    FreesOne(s.freed, Free(id, 0, false));
  }

  lemma ReleaseGoneIs(s: Shard, id: Id)
    requires Inv(s) && id in s.held && id in s.entries && LetsGo(s, id)
    ensures var e := s.entries[id];
            Release(s, id) == s.(
              entries := s.entries - {id}, table := if e.inCache then s.table - {e.name} else s.table,
              usage := s.usage - e.charge, freed := s.freed + [Free(id, 0, false)], held := s.held - multiset{id})
  {
    hide Core, LruInsert, Release;
    HeldFacts(s, id);
    var e, m := s.entries[id], GiveBack(s, id);
    var t := if e.inCache then s.table - {e.name} else s.table;
    var r := if e.refs == 1 then FreeEntry(m.(usage := m.usage - e.charge), id)
             else FreeEntry(Unlist(m, id).(usage := m.usage - e.charge), id);
    assert r.entries == s.entries - {id};
    ReleaseIs(s, id);
  }

  lemma ReleaseIs(s: Shard, id: Id)
    requires Inv(s) && id in s.held && id in s.entries && LetsGo(s, id)
    ensures var e, m := s.entries[id], GiveBack(s, id);
            Release(s, id) == if e.refs == 1 then FreeEntry(m.(usage := m.usage - e.charge), id)
                              else FreeEntry(Unlist(m, id).(usage := m.usage - e.charge), id)
  {
    hide Core, LruInsert, GiveBack, FreeEntry;
    HeldFacts(s, id);
  }

  lemma TableNames(s: Shard, id: Id)
    requires Core(s) && id in s.entries
    ensures forall n :: n in s.table && s.table[n] == id ==> n == s.entries[id].name && s.entries[id].inCache
    ensures s.entries[id].inCache ==> s.entries[id].name in s.table && s.table[s.entries[id].name] == id
  {
    hide Counted, Listed, Summed, FreedOnce, Latest;
  }

  // A key whose entry is released is still found, unless the entry was let go.
  lemma ReleasedIsFound(s: Shard, id: Id, name: Name)
    requires Inv(s) && id in s.held && name in s.table && s.table[name] == id
    ensures id in s.entries
    ensures Inv(Release(s, id))
    ensures Lookup(Release(s, id), name).handle == (if LetsGo(s, id) then [] else [id])
  {
    hide Core, LruInsert;
    ReleaseInv(s, id);
    ReleasePromise(s, id);
    LookupPromise(Release(s, id), name);
  }

  // ---------- erase ----------

  // The key goes, all others stay. Its entry is freed unless somebody holds it.
  lemma ErasePromise(s: Shard, name: Name)
    requires Inv(s)
    ensures var r := Erase(s, name);
            && name !in r.table && (forall n :: n != name ==> (n in r.table <==> n in s.table))
            && (forall n :: n in r.table ==> r.table[n] == s.table[n])
            && r.held == s.held && SameSettings(s, r)
            && if name in s.table && s.table[name] !in s.held then
                 && Frees(s, r, [s.table[name]]) && r.entries.Keys == s.entries.Keys - {s.table[name]}
                 && TakenOut(s.lru, s.table[name], r.lru)
               else r.freed == s.freed && r.entries.Keys == s.entries.Keys && r.lru == s.lru
  {
    if name in s.table {
      var id := s.table[name];
      TableFacts(s, name);
      HeldOrListedOne(s, id);
      TableNames(s, id);
      hide Core, LruRemove;
      if s.entries[id].refs == 1 {
        DiscardIs(s, id);
        hide Discard;
        OutOfList(s, id);
        FreesOne(s.freed, Free(id, 0, false));
      } else {
        assert Unlist(s, id).entries.Keys == s.entries.Keys;
      }
    }
  }

  lemma DiscardIs(s: Shard, id: Id)
    requires Core(s) && id in s.lru && id in s.entries
    ensures var m := LruRemove(s, id);
            Discard(s, id) == m.(entries := s.entries - {id}, table := s.table - {s.entries[id].name},
                                 usage := s.usage - s.entries[id].charge, freed := s.freed + [Free(id, 0, false)])
  {
    hide Core, LruRemove;
    Unheld(s, id);
    var r := Discard(s, id);
    assert r.entries == s.entries - {id};
  }

  lemma HeldOrListedOne(s: Shard, id: Id)
    requires Inv(s) && id in s.entries && s.entries[id].inCache
    ensures id in s.held <==> s.entries[id].refs > 1
  {
  }

  // ---------- eviction ----------

  // Besides the order of EvictsShortestPrefix: only the entries freed leave the table.
  lemma {:induction false} EvictionPromise(s: Shard, charge: nat) returns (k: nat)
    requires Core(s)
    ensures ShortestPrefix(s, charge, k)
    ensures var r := EvictFromLru(s, charge);
            && r.lru == s.lru[k..] && Frees(s, r, s.lru[..k]) && TableLoses(s, r, s.lru[..k])
            && r.entries.Keys == s.entries.Keys - (set id | id in s.lru[..k])
            && (forall id :: id in r.entries ==> r.entries[id] == s.entries[id])
            && r.usage == s.usage - Sum(s.entries, s.lru[..k])
  {
    hide Core, EvictFromLru, Sum;
    k := EvictsShortestPrefix(s, charge);
    EvictionLoses(s, charge, k);
  }

  lemma {:induction false} EvictionLoses(s: Shard, charge: nat, k: nat)
    requires Core(s) && k <= |s.lru| && EvictFromLru(s, charge).lru == s.lru[k..]
    ensures var r := EvictFromLru(s, charge);
            && TableLoses(s, r, s.lru[..k])
            && r.entries.Keys == s.entries.Keys - (set id | id in s.lru[..k])
    decreases |s.lru|
  {
    hide Core, Discard, EvictFromLru;
    EvictUnfold(s, charge);
    if s.usage + charge > s.capacity && s.lru != [] {
      var id := s.lru[0];
      DiscardOldest(s);
      DiscardCore(s, id);
      DiscardLoses(s, id);
      var m := Discard(s, id);
      var r := EvictFromLru(m, charge);
      EvictedMore(s, m, r, charge, k);
      EvictionLoses(m, charge, k - 1);
      assert s.lru[..k] == [id] + m.lru[..k - 1];
    } else {
      assert k == 0 && s.lru[..0] == [];
    }
  }

  lemma EvictedMore(s: Shard, m: Shard, r: Shard, charge: nat, k: nat)
    requires Core(m) && s.lru != [] && m.lru == s.lru[1..] && r == EvictFromLru(m, charge)
    requires k <= |s.lru| && r.lru == s.lru[k..]
    ensures k > 0 && r.lru == m.lru[k - 1..]
  {
    hide Core, EvictFromLru;
    var n := EvictsShortestPrefix(m, charge);
    assert |r.lru| <= |m.lru| == |s.lru| - 1;
    assert s.lru[k..] == m.lru[k - 1..];
  }

  lemma DiscardLoses(s: Shard, id: Id)
    requires Core(s) && id in s.lru && id in s.entries
    ensures TableLoses(s, Discard(s, id), [id]) && Discard(s, id).entries.Keys == s.entries.Keys - {id}
  {
    hide LruRemove, Counted, Summed, FreedOnce, Latest;
    Unlisted(s, id);
  }

  lemma Unlisted(s: Shard, id: Id)
    requires Core(s) && id in s.lru && id in s.entries
    ensures s.entries[id].inCache && forall n :: n in s.table && s.table[n] == id ==> n == s.entries[id].name
  {
  }

  // ---------- insert ----------

  // What callers hold leaves no room for the charge, and the limit is strict or no handle is wanted.
  predicate NoRoom(s: Shard, charge: nat, wantHandle: bool) {
    TotalHeld(s.entries, s.held, s.next) + charge > s.capacity && (s.strict || !wantHandle)
  }

  // The entry of that name, if eviction has left it and nobody holds it.
  function Superseded(s: Shard, name: Name, victims: seq<Id>): seq<Id> {
    if name in s.table && s.table[name] !in victims && s.table[name] !in s.held then [s.table[name]] else []
  }

  // Insert evicts the shortest sufficient prefix of the list. If there is no room even so, a caller who
  // wants a handle gets an error and keeps the value, and one who does not has it freed at once, both
  // leaving the table as it is. Otherwise the key maps to the new entry, a former entry of it is freed
  // unless somebody holds it, and a handle is given out if wanted. All other keys stay but the evicted.
  lemma InsertPromise(s: Shard, name: Name, charge: nat, wantHandle: bool, high: bool) returns (k: nat)
    requires Inv(s)
    ensures ShortestPrefix(s, charge, k)
    ensures var i := Insert(s, name, charge, wantHandle, high);
            var victims := s.lru[..k];
            && SameSettings(s, i.s) && i.s.next == s.next + 1
            && if NoRoom(s, charge, wantHandle) then
                 && i.ok == !wantHandle && i.handle == [] && i.s.held == s.held && i.s.accepted == s.accepted
                 && TableLoses(s, i.s, victims) && Frees(s, i.s, victims + if wantHandle then [] else [s.next])
               else
                 && i.ok && i.handle == (if wantHandle then [s.next] else [])
                 && i.s.held == s.held + multiset(i.handle) && i.s.accepted == s.accepted[s.next := name]
                 && name in i.s.table && i.s.table[name] == s.next
                 && (forall n :: n != name ==> (n in i.s.table <==> n in s.table && s.table[n] !in victims))
                 && (forall n :: n != name && n in i.s.table ==> i.s.table[n] == s.table[n])
                 && Frees(s, i.s, victims + Superseded(s, name, victims))
                 && s.next in i.s.entries
                 && i.s.entries[s.next].(inHighPool := false)
                    == Entry(name, charge, if wantHandle then 2 else 1, true, high, false)
  {
    hide Core, EvictFromLru, Insert, Sum, Superseded, TotalHeld, FreedIds;
    var r := EvictFromLru(s, charge);
    k := EvictionPromise(s, charge);
    InsertSettings(s, name, charge, wantHandle, high);
    PinnedUsage(s);
    RoomAfter(s, charge);
    assert Rejects(r, charge, wantHandle) == NoRoom(s, charge, wantHandle);
    if Rejects(r, charge, wantHandle) {
      InsertRejects(s, name, charge, wantHandle, high);
      FreesOne(r.freed, Free(r.next, 1, true));
      FreedThen(s, r, Insert(s, name, charge, wantHandle, high).s, s.lru[..k], if wantHandle then [] else [s.next]);
    } else {
      InsertEnters(s, r, name, charge, wantHandle, high, s.lru[..k]);
    }
  }

  // Eviction lowers usage and LRU usage alike.
  lemma RoomAfter(s: Shard, charge: nat)
    requires Inv(s)
    ensures var r := EvictFromLru(s, charge); r.usage - r.lruUsage == s.usage - s.lruUsage
  {
    hide EvictFromLru, Sum, Total, Books;
    var r := EvictFromLru(s, charge);
    var k := EvictsShortestPrefix(s, charge);
    assert s.lru == s.lru[..k] + s.lru[k..];
    SumConcat(s.entries, s.lru[..k], s.lru[k..]);
    assert forall i :: 0 <= i < |r.lru| ==> r.lru[i] in r.entries;
    SumSame(s.entries, r.entries, s.lru[k..]);
  }

  lemma InsertEnters(s: Shard, r: Shard, name: Name, charge: nat, wantHandle: bool, high: bool, victims: seq<Id>)
    requires Inv(s) && r == EvictFromLru(s, charge) && !Rejects(r, charge, wantHandle)
    requires TableLoses(s, r, victims) && Frees(s, r, victims)
    ensures var i := Insert(s, name, charge, wantHandle, high);
            && i.ok && i.handle == (if wantHandle then [s.next] else [])
            && i.s.held == s.held + multiset(i.handle) && i.s.accepted == s.accepted[s.next := name]
            && i.s.next == s.next + 1 && name in i.s.table && i.s.table[name] == s.next
            && (forall n :: n != name ==> (n in i.s.table <==> n in s.table && s.table[n] !in victims))
            && (forall n :: n != name && n in i.s.table ==> i.s.table[n] == s.table[n])
            && Frees(s, i.s, victims + Superseded(s, name, victims))
            && s.next in i.s.entries
            && i.s.entries[s.next].(inHighPool := false)
               == Entry(name, charge, if wantHandle then 2 else 1, true, high, false)
  {
    hide Core, EvictFromLru, Displace, AddEntry, Superseded, Erase, Insert;
    DisplaceInv(r, name);
    ErasePromise(r, name);
    assert Erase(r, name) == Displace(r, name) by { EraseIs(r, name); }
    var d := Displace(r, name);
    var e := NewEntry(name, charge, wantHandle, high);
    AddPromise(d, e, wantHandle);
    InsertIs(s, name, charge, wantHandle, high);
    FreedThen(s, r, d, victims, Superseded(s, name, victims));
    NotSuperseded(s, r, name, victims);
  }

  lemma EraseIs(s: Shard, name: Name)
    requires Inv(s)
    ensures Erase(s, name) == Displace(s, name)
  {
    hide Core, Displace;
  }

  lemma InsertIs(s: Shard, name: Name, charge: nat, wantHandle: bool, high: bool)
    requires Inv(s)
    ensures var r := EvictFromLru(s, charge);
            !Rejects(r, charge, wantHandle) ==>
              && Inv(Displace(r, name))
              && Insert(s, name, charge, wantHandle, high)
                 == Inserted(AddEntry(Displace(r, name), NewEntry(name, charge, wantHandle, high), wantHandle), true,
                             if wantHandle then [Displace(r, name).next] else [])
  {
    hide Core, EvictFromLru, Displace, AddEntry;
    DisplaceInv(EvictFromLru(s, charge), name);
  }

  lemma InsertRejects(s: Shard, name: Name, charge: nat, wantHandle: bool, high: bool)
    requires Inv(s)
    ensures var r := EvictFromLru(s, charge);
            Rejects(r, charge, wantHandle) ==>
              Insert(s, name, charge, wantHandle, high)
              == if wantHandle then Inserted(r.(next := r.next + 1), false, [])
                 else Inserted(r.(next := r.next + 1, freed := r.freed + [Free(r.next, 1, true)]), true, [])
  {
    hide Core, EvictFromLru, Displace, AddEntry;
  }

  lemma FreedThen(s: Shard, r: Shard, d: Shard, a: seq<Id>, b: seq<Id>)
    requires Frees(s, r, a)
    ensures Frees(r, d, b) ==> Frees(s, d, a + b)
    ensures d.freed == r.freed && b == [] ==> Frees(s, d, a + b)
  {
    assert FreedIds(s.freed) + a + b == FreedIds(s.freed) + (a + b);
    assert a + [] == a;
  }

  lemma NotSuperseded(s: Shard, r: Shard, name: Name, victims: seq<Id>)
    requires TableLoses(s, r, victims) && r.held == s.held
    ensures Superseded(s, name, victims) == if name in r.table && r.table[name] !in r.held then [r.table[name]] else []
  {
  }

  lemma AddPromise(d: Shard, e: Entry, wantHandle: bool)
    requires Inv(d)
    ensures var r := AddEntry(d, e, wantHandle);
            && r.table == d.table[e.name := d.next] && r.freed == d.freed && r.next == d.next + 1
            && r.held == d.held + multiset(if wantHandle then [d.next] else [])
            && r.accepted == d.accepted[d.next := e.name]
            && d.next in r.entries && r.entries[d.next].(inHighPool := false) == e.(inHighPool := false)
  {
    hide Core, LruInsert;
    var m := Enter(d, e, wantHandle);
    ListLow(d);
    if !wantHandle {
      EntryInserted(m, d.next);
      assert d.held + multiset([]) == d.held;
    } else {
      assert multiset([d.next]) == multiset{d.next};
    }
  }

  lemma EntryInserted(s: Shard, id: Id)
    requires s.low <= |s.lru| && id in s.entries && forall i :: 0 <= i < |s.lru| ==> s.lru[i] in s.entries
    ensures var r := LruInsert(s, id);
            id in r.entries && r.entries[id].(inHighPool := false) == s.entries[id].(inHighPool := false)
  {
    hide MaintainPoolSize;
    var e := s.entries[id];
    if s.ratio > 0.0 && e.highPri {
      MaintainSame(With(s, id, e.(inHighPool := true)).(lru := s.lru + [id], highUsage := s.highUsage + e.charge), id);
    }
  }

  lemma {:induction false} MaintainSame(s: Shard, id: Id)
    requires s.low <= |s.lru| && id in s.entries && forall i :: 0 <= i < |s.lru| ==> s.lru[i] in s.entries
    ensures var r := MaintainPoolSize(s);
            id in r.entries && r.entries[id].(inHighPool := false) == s.entries[id].(inHighPool := false)
    decreases |s.lru| - s.low
  {
    hide MaintainPoolSize;
    MaintainUnfold(s);
    if s.highUsage as real > s.highCapacity && s.low < |s.lru| {
      MaintainSame(Demoted(s), id);
    }
  }

  // ---------- settings ----------

  lemma SetCapacityPromise(s: Shard, capacity: nat) returns (k: nat)
    requires Inv(s) && s.ratio >= 0.0
    ensures ShortestPrefix(s.(capacity := capacity), 0, k)
    ensures var r := SetCapacity(s, capacity);
            && r.capacity == capacity && r.strict == s.strict && r.ratio == s.ratio
            && r.highCapacity == capacity as real * s.ratio
            && r.lru == s.lru[k..] && Frees(s, r, s.lru[..k]) && TableLoses(s, r, s.lru[..k])
            && r.held == s.held && r.entries.Keys == s.entries.Keys - (set id | id in s.lru[..k])
  {
    hide Core, EvictFromLru;
    var m := s.(capacity := capacity, highCapacity := PoolCapacity(capacity, s.ratio));
    SameCore(s, m);
    k := EvictionPromise(m, 0);
    assert ShortestPrefix(s.(capacity := capacity), 0, k);
  }

  // The other settings move no entry in or out.
  lemma SettersPromise(s: Shard, strict: bool, ratio: real)
    requires Ready(s) && ratio >= 0.0
    ensures SetStrict(s, strict) == s.(strict := strict)
    ensures var r := SetRatio(s, ratio);
            && r.ratio == ratio && r.highCapacity == s.capacity as real * ratio
            && r.capacity == s.capacity && r.strict == s.strict && r.table == s.table && r.freed == s.freed
            && r.lru == s.lru && r.held == s.held && r.entries.Keys == s.entries.Keys
  {
    hide Core, MaintainPoolSize;
    ListLow(s);
    MaintainKeys(s.(ratio := ratio, highCapacity := PoolCapacity(s.capacity, ratio)));
  }

  // Everything that nobody holds is freed, oldest first, and only that.
  lemma {:induction false} EraseUnRefPromise(s: Shard)
    requires Core(s)
    ensures var r := EraseUnRefEntries(s);
            && r.lru == [] && Frees(s, r, s.lru) && TableLoses(s, r, s.lru) && r.held == s.held
            && r.entries.Keys == s.entries.Keys - (set id | id in s.lru)
    decreases |s.lru|
  {
    hide Core, Discard, LruRemove;
    if s.lru != [] {
      var id := s.lru[0];
      DiscardOldest(s);
      DiscardCore(s, id);
      DiscardLoses(s, id);
      DiscardHeld(s, id);
      var m := Discard(s, id);
      EraseUnRefPromise(m);
      assert s.lru == [id] + m.lru;
      assert FreedIds(s.freed) + [id] + m.lru == FreedIds(s.freed) + s.lru;
    }
  }

  lemma DiscardHeld(s: Shard, id: Id)
    requires id in s.lru && id in s.entries
    ensures Discard(s, id).held == s.held
  {
    hide LruRemove;
  }

  // ---------- whole runs ----------

  // An operation that neither erases the key nor inserts it, nor gives back a handle to the entry.
  predicate LeavesAlone(op: Op, name: Name, id: Id) {
    match op
    case DoInsert(n, _, _, _) => n != name
    case DoErase(n) => n != name
    case DoRelease(i) => i != id
    case _ => true
  }

  lemma StaysPinned(s: Shard, op: Op, name: Name, id: Id)
    requires Ready(s) && Allowed(s, op) && LeavesAlone(op, name, id)
    requires name in s.table && s.table[name] == id && id in s.held
    ensures var r := Do(s, op); name in r.table && r.table[name] == id && id in r.held
  {
    hide Core, Insert, Release, Erase, SetCapacity, SetRatio, EraseUnRefEntries, Lookup;
    NotListed(s, id);
    match op
    case DoInsert(n, charge, wantHandle, high) =>
      var k := InsertPromise(s, n, charge, wantHandle, high);
    case DoLookup(n) => LookupPromise(s, n);
    case DoRelease(i) => ReleasePromise(s, i);
    case DoErase(n) => ErasePromise(s, n);
    case DoSetCapacity(capacity) =>
      var k := SetCapacityPromise(s, capacity);
    case DoSetStrict(strict) =>
    case DoSetRatio(ratio) => SettersPromise(s, false, ratio);
    case DoEraseUnRef => EraseUnRefPromise(s);
  }

  lemma NotListed(s: Shard, id: Id)
    requires Inv(s) && id in s.held
    ensures id !in s.lru
  {
    HeldFacts(s, id);
  }

  lemma HeldHit(t: Shard, name: Name)
    requires Ready(t) && name in t.table
    ensures Lookup(t, name).handle == [t.table[name]]
  {
    hide Core;
    LookupPromise(t, name);
  }

  // In every run a key whose entry somebody holds is found with that entry until the key is erased or
  // inserted again, however full the cache gets.
  lemma {:induction false} HeldIsFound(s: Shard, ops: seq<Op>, t: Shard, name: Name, id: Id)
    requires Ready(s) && Reaches(s, ops, t) && forall i :: 0 <= i < |ops| ==> LeavesAlone(ops[i], name, id)
    requires name in s.table && s.table[name] == id && id in s.held
    ensures Ready(t) && Lookup(t, name).handle == [id]
    decreases |ops|
  {
    hide Ready, Do, LeavesAlone;
    if ops == [] {
      HeldHit(t, name);
    } else {
      DoReady(s, ops[0]);
      StaysPinned(s, ops[0], name, id);
      HeldIsFound(Do(s, ops[0]), ops[1..], t, name, id);
    }
  }
}
