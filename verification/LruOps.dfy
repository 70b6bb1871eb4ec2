/**
 The public operations of a cache shard (rutil/lru_cache.cc:112-133, 218-406), and what every one
 of them keeps.
 */
module LruOps {
  import opened LruShard

  // ---------- lookup and release ----------

  // A handle, or [] for a null one.
  datatype Found = Found(s: Shard, handle: seq<Id>)

  function Lookup(s: Shard, name: Name): Found
    requires Inv(s)
  {
    if name !in s.table then Found(s, [])
    else
      var id := s.table[name];
      var e := s.entries[id];
      var r := if e.refs == 1 then LruRemove(s, id) else s;
      Found(With(r, id, e.(refs := e.refs + 1)).(held := s.held + multiset{id}), [id])
  }

  lemma LookupInv(s: Shard, name: Name)
    requires Inv(s)
    ensures Inv(Lookup(s, name).s)
  {
    hide Sum, Total, LruRemove, Pools, FreedOnce, Latest;
    if name in s.table {
      var id := s.table[name];
      var e := s.entries[id];
      var r := Lookup(s, name).s;
      PoolsBasics(s.entries, s.lru, s.low);
      BooksRefs(s, r, id, e.(refs := e.refs + 1));
      hide Counted, Tabled;
      if e.refs == 1 {
        var m := LruRemove(s, id);
        RemoveKeeps(s, id);
        PoolsBasics(m.entries, m.lru, m.low);
        SetSums(m, r, id, e.(refs := e.refs + 1));
        PoolsSet(m.entries, m.lru, m.low, id, e.(refs := e.refs + 1));
      } else {
        SetSums(s, r, id, e.(refs := e.refs + 1));
        PoolsSet(s.entries, s.lru, s.low, id, e.(refs := e.refs + 1));
      }
    }
  }

  lemma PoolsSet(entries: map<Id, Entry>, lru: seq<Id>, low: nat, id: Id, e: Entry)
    requires Pools(entries, lru, low) && id !in lru
    ensures Pools(entries[id := e], lru, low)
  {
  }

  // An entry off the list changes, or a new one appears off the list.
  lemma ListedSet(s: Shard, m: Shard, id: Id, e: Entry)
    requires Listed(s) && id !in s.lru && m.entries == s.entries[id := e] && m.lru == s.lru && m.low == s.low
    ensures m.low <= |m.lru| && forall i :: 0 <= i < |m.lru| ==> m.lru[i] in m.entries
    ensures ListedBut(m, id)
    ensures !(e.inCache && e.refs == 1) ==> Listed(m)
  {
    PoolsSet(s.entries, s.lru, s.low, id, e);
  }

  lemma HeldMinus(held: multiset<Id>, id: Id)
    requires id in held
    ensures (held - multiset{id})[id] == held[id] - 1
    ensures forall x :: x != id ==> (held - multiset{id})[x] == held[x]
  {
  }

  // One handle and one reference less.
  function GiveBack(s: Shard, id: Id): (m: Shard)
    requires id in s.entries
    ensures id in m.entries && m.entries[id] == s.entries[id].(refs := s.entries[id].refs - 1)
    ensures m == s.(entries := m.entries, held := m.held)
  {
    With(s, id, s.entries[id].(refs := s.entries[id].refs - 1)).(held := s.held - multiset{id})
  }

  function Release(s: Shard, id: Id): Shard
    requires Inv(s) && id in s.held
  {
    var e := s.entries[id];
    var r := GiveBack(s, id);
    var d := r.entries[id];
    if d.refs == 0 then
      FreeEntry(r.(usage := r.usage - e.charge), id)
    else if d.refs == 1 && d.inCache then
      if r.usage > r.capacity then
        // The cache is full, so the list is empty; take the opportunity to remove the entry.
        var u := Unlist(r, id);
        FreeEntry(u.(usage := u.usage - e.charge), id)
      else
        LruInsert(r, id)
    else r
  }

  // An entry that is not on the list goes away.
  lemma GoneInv(s: Shard, r: Shard, id: Id)
    requires Inv(s) && id in s.entries && id !in s.lru
    requires Books(r) && r == s.(entries := s.entries - {id}, table := r.table, freed := r.freed, held := r.held,
                                 usage := s.usage - s.entries[id].charge)
    ensures Inv(r)
  {
    assert id < s.next;
    hide Sum, Total, Counted, Tabled, FreedOnce, Latest;
    DropEntry(s, r, id);
    PoolsBasics(s.entries, s.lru, s.low);
    DropSums(s, r, id);
  }

  // A held entry: not on the list, and counted.
  lemma HeldFacts(s: Shard, id: Id)
    requires Inv(s) && id in s.held
    ensures id in s.entries && id !in s.lru && id < s.next && s.held[id] >= 1
    ensures s.entries[id].refs == s.held[id] + (if s.entries[id].inCache then 1 else 0)
  {
  }

  lemma ReleaseInv(s: Shard, id: Id)
    requires Inv(s) && id in s.held
    ensures Inv(Release(s, id))
  {
    HeldFacts(s, id);
    hide Core, LruInsert;
    var e := s.entries[id];
    if e.refs == 1 || (e.refs == 2 && e.inCache && s.usage > s.capacity) {
      ReleaseGone(s, id, Release(s, id));
    } else {
      hide Summed, ListedBut, Books, GiveBack;
      var m := GiveBack(s, id);
      ReleaseKept(s, id, m);
      if e.refs == 2 && e.inCache {
        JoinInv(m, id);
      }
    }
  }

  // The state after the decrement, when the entry stays.
  lemma ReleaseKept(s: Shard, id: Id, m: Shard)
    requires Inv(s) && id in s.held && id in s.entries && id !in s.lru && s.entries[id].refs >= 2
    requires m == GiveBack(s, id)
    ensures Books(m) && Summed(m) && ListedBut(m, id) && m.highCapacity >= 0.0
    ensures m.low <= |m.lru| && forall i :: 0 <= i < |m.lru| ==> m.lru[i] in m.entries
    ensures !(m.entries[id].inCache && m.entries[id].refs == 1) ==> Inv(m)
  {
    HeldFacts(s, id);
    HeldMinus(s.held, id);
    var d := m.entries[id];
    hide Sum, Total, Counted, Tabled, FreedOnce, Latest, Listed, ListedBut, Summed;
    BooksRefs(s, m, id, d);
    ListedSet(s, m, id, d);
    SetSums(s, m, id, d);
  }

  // An entry with only the table's reference joins the list.
  lemma JoinInv(m: Shard, id: Id)
    requires Books(m) && Summed(m) && ListedBut(m, id) && m.highCapacity >= 0.0 && m.usage <= m.capacity
    requires id in m.entries && m.entries[id].inCache && m.entries[id].refs == 1
    requires m.low <= |m.lru| && forall i :: 0 <= i < |m.lru| ==> m.lru[i] in m.entries
    ensures Inv(LruInsert(m, id))
  {
    hide Counted, Tabled, FreedOnce, Latest, LruInsert, ListedBut, Listed, Summed, SameButPool;
    InsertKeeps(m, id);
    BooksSame(m, LruInsert(m, id));
  }

  lemma ReleaseGone(s: Shard, id: Id, r: Shard)
    requires Inv(s) && id in s.held && r == Release(s, id) && id in s.entries && id !in s.lru
    requires s.entries[id].refs == 1 || (s.entries[id].refs == 2 && s.entries[id].inCache && s.usage > s.capacity)
    ensures Inv(r)
  {
    hide Listed, Summed, FreedOnce, Latest, Tabled;
    assert s.held[id] == 1 && r.held[id] == 0;
    assert r.entries == s.entries - {id};
    assert r.freed == s.freed + [Free(id, 0, false)];
    BooksFreed(s, r, id);
    GoneInv(s, r, id);
  }

  // ---------- erase and insert ----------

  // What becomes of the entry that a new one, or an Erase, removes from the table.
  function Displace(s: Shard, name: Name): Shard
    requires Inv(s)
  {
    if name !in s.table then s
    else
      var id := s.table[name];
      if s.entries[id].refs == 1 then Discard(s, id) else Unlist(s, id)
  }

  lemma DisplaceInv(s: Shard, name: Name)
    requires Inv(s)
    ensures var r := Displace(s, name);
            && Inv(r) && name !in r.table
            && r.usage <= s.usage && |r.lru| <= |s.lru|
            && r == s.(entries := r.entries, table := r.table, lru := r.lru, low := r.low, usage := r.usage,
                       lruUsage := r.lruUsage, highUsage := r.highUsage, freed := r.freed)
  {
    if name in s.table {
      var id := s.table[name];
      TableFacts(s, name);
      hide Core, LruRemove;
      if s.entries[id].refs == 1 {
        DiscardCore(s, id);
      } else {
        UnlistInv(s, id);
      }
    }
  }

  lemma TableFacts(s: Shard, name: Name)
    requires Inv(s) && name in s.table
    ensures var id := s.table[name];
            && id in s.entries && s.entries[id].inCache && s.entries[id].name == name && s.entries[id].refs >= 1
            && (id in s.lru <==> s.entries[id].refs == 1)
  {
  }

  lemma UnlistInv(s: Shard, id: Id)
    requires Inv(s) && id in s.entries && id !in s.lru && s.entries[id].inCache && s.entries[id].refs >= 2
    ensures Inv(Unlist(s, id))
  {
    hide Sum, Total, Counted, Tabled, FreedOnce, Latest, Pools;
    BooksUnlisted(s, id);
    var r := Unlist(s, id);
    PoolsBasics(s.entries, s.lru, s.low);
    SetSums(s, r, id, r.entries[id]);
    PoolsSet(s.entries, s.lru, s.low, id, r.entries[id]);
  }

  function Erase(s: Shard, name: Name): Shard
    requires Inv(s)
  {
    Displace(s, name)
  }

  function NewEntry(name: Name, charge: nat, wantHandle: bool, high: bool): Entry {
    Entry(name, charge, if wantHandle then 2 else 1, true, high, false)
  }

  // The new entry in the table, before it is listed.
  function Enter(s: Shard, e: Entry, wantHandle: bool): (m: Shard)
    ensures s.next in m.entries && m.entries[s.next] == e && m.usage == s.usage + e.charge
            && m.capacity == s.capacity && m.lru == s.lru
  {
    With(s, s.next, e).(table := s.table[e.name := s.next], usage := s.usage + e.charge,
                        next := s.next + 1, accepted := s.accepted[s.next := e.name],
                        held := if wantHandle then s.held + multiset{s.next} else s.held)
  }

  function AddEntry(s: Shard, e: Entry, wantHandle: bool): Shard
    requires Inv(s)
  {
    var m := Enter(s, e, wantHandle);
    if wantHandle then m else LruInsert(m, s.next)
  }

  lemma FreshId(s: Shard)
    requires Core(s)
    ensures s.next !in s.entries && s.next !in s.lru && s.held[s.next] == 0 && s.next !in s.accepted
  {
  }

  lemma EnterFacts(s: Shard, e: Entry, wantHandle: bool)
    requires Inv(s) && e.name !in s.table && e.inCache && e.refs == if wantHandle then 2 else 1
    ensures var m := Enter(s, e, wantHandle);
            && Books(m) && Summed(m) && ListedBut(m, s.next) && m.highCapacity >= 0.0
            && m.low <= |m.lru| && (forall i :: 0 <= i < |m.lru| ==> m.lru[i] in m.entries)
            && (wantHandle ==> Listed(m))
  {
    var id := s.next;
    FreshId(s);
    var m := Enter(s, e, wantHandle);
    assert forall x :: x != id ==> m.held[x] == s.held[x];
    hide Counted, Tabled, FreedOnce, Latest, Listed, ListedBut, Summed;
    BooksAdded(s, m, e);
    ListedSet(s, m, id, e);
    AddSums(s, m, e);
  }

  lemma AddInv(s: Shard, e: Entry, wantHandle: bool)
    requires Inv(s) && e.name !in s.table && e.inCache && e.refs == if wantHandle then 2 else 1
    requires s.usage + e.charge <= s.capacity || (s.lru == [] && wantHandle)
    ensures Inv(AddEntry(s, e, wantHandle))
  {
    hide Books, Summed, Listed, ListedBut, LruInsert, Enter;
    EnterFacts(s, e, wantHandle);
    if !wantHandle {
      JoinInv(Enter(s, e, wantHandle), s.next);
    }
  }

  lemma AddSums(s: Shard, m: Shard, e: Entry)
    requires Summed(s) && s.next !in s.entries && s.next !in s.lru
    requires m.entries == s.entries[s.next := e] && m.next == s.next + 1 && m.usage == s.usage + e.charge
    requires m.lru == s.lru && m.low == s.low && m.lruUsage == s.lruUsage && m.highUsage == s.highUsage
    ensures Summed(m)
  {
    TotalSet(s.entries, s.next, e, s.next);
    assert Total(m.entries, s.next + 1) == Total(m.entries, s.next) + e.charge;
    SumSame(s.entries, m.entries, s.lru);
    SumSame(s.entries, m.entries, s.lru[s.low..]);
  }

  predicate Rejects(s: Shard, charge: nat, wantHandle: bool) {
    s.usage - s.lruUsage + charge > s.capacity && (s.strict || !wantHandle)
  }

  datatype Inserted = Inserted(s: Shard, ok: bool, handle: seq<Id>)

  function Insert(s: Shard, name: Name, charge: nat, wantHandle: bool, high: bool): Inserted
    requires Inv(s)
  {
    var e := NewEntry(name, charge, wantHandle, high);
    var r := EvictFromLru(s, charge);
    if Rejects(r, charge, wantHandle) then
      if wantHandle then
        Inserted(r.(next := r.next + 1), false, [])
      else
        // As if inserted and evicted at once; an older entry of that name stays in the table.
        Inserted(r.(next := r.next + 1, freed := r.freed + [Free(r.next, e.refs, e.inCache)]), true, [])
    else
      DisplaceInv(r, name);
      var d := Displace(r, name);
      Inserted(AddEntry(d, e, wantHandle), true, if wantHandle then [d.next] else [])
  }

  lemma InsertInv(s: Shard, name: Name, charge: nat, wantHandle: bool, high: bool)
    requires Inv(s)
    ensures Inv(Insert(s, name, charge, wantHandle, high).s)
  {
    hide Core, EvictFromLru, Displace, AddEntry;
    var e := NewEntry(name, charge, wantHandle, high);
    var r := EvictFromLru(s, charge);
    if Rejects(r, charge, wantHandle) {
      SkipIdInv(r, Insert(s, name, charge, wantHandle, high).s);
    } else {
      DisplaceInv(r, name);
      var d := Displace(r, name);
      EmptyList(r);
      AddInv(d, e, wantHandle);
    }
  }

  lemma EmptyList(s: Shard)
    requires Core(s)
    ensures s.lru == [] ==> s.lruUsage == 0
    ensures s.lruUsage >= 0
  {
  }

  // An allocation that did not enter the cache.
  lemma SkipIdInv(s: Shard, r: Shard)
    requires Inv(s)
    requires r == s.(next := s.next + 1) || r == s.(next := s.next + 1, freed := s.freed + [Free(s.next, 1, true)])
    ensures Inv(r)
  {
    FreshId(s);
    SkipIdBooks(s, r);
    hide Books, Sum, Listed;
    ListedSame(s, r);
    SkipIdSums(s, r);
  }

  lemma SkipIdSums(s: Shard, r: Shard)
    requires Summed(s) && s.next !in s.entries && r == s.(next := s.next + 1, freed := r.freed)
    ensures Summed(r)
  {
    hide Sum;
    assert Total(s.entries, s.next + 1) == Total(s.entries, s.next);
  }

  lemma ListedSame(s: Shard, r: Shard)
    requires Listed(s) && r.entries == s.entries && r.lru == s.lru && r.low == s.low
    ensures Listed(r)
  {
  }

  lemma SkipIdBooks(s: Shard, r: Shard)
    requires Books(s) && s.next !in s.entries && s.next !in s.accepted
    requires r == s.(next := s.next + 1) || r == s.(next := s.next + 1, freed := s.freed + [Free(s.next, 1, true)])
    ensures Books(r)
  {
    SkipIdFreed(s, r);
    hide FreedOnce;
    SkipIdTable(s, r);
    hide Tabled, Latest;
  }

  lemma SkipIdTable(s: Shard, r: Shard)
    requires Tabled(s) && Latest(s) && r == s.(next := s.next + 1, freed := r.freed)
    ensures Tabled(r) && Latest(r)
  {
  }

  lemma SkipIdFreed(s: Shard, r: Shard)
    requires FreedOnce(s) && s.next !in s.entries && s.next !in s.accepted
    requires r == s.(next := s.next + 1) || r == s.(next := s.next + 1, freed := s.freed + [Free(s.next, 1, true)])
    ensures FreedOnce(r)
  {
    forall x | x in r.accepted
      ensures x in r.entries || exists i :: 0 <= i < |r.freed| && r.freed[i].id == x
    {
      if x !in s.entries {
        var i :| 0 <= i < |s.freed| && s.freed[i].id == x;
        assert r.freed[i].id == x;
      }
    }
  }

  // ---------- settings ----------

  function PoolCapacity(capacity: nat, ratio: real): (r: real)
    ensures ratio >= 0.0 ==> r >= 0.0
  {
    capacity as real * ratio
  }

  lemma SameCore(s: Shard, m: Shard)
    requires Core(s) && m == s.(capacity := m.capacity, highCapacity := m.highCapacity) && m.highCapacity >= 0.0
    ensures Core(m)
  {
    hide Sum, Total, Pools;
    BooksKept(s, m);
  }

  function SetCapacity(s: Shard, capacity: nat): Shard
    requires Inv(s) && s.ratio >= 0.0
  {
    EvictFromLru(s.(capacity := capacity, highCapacity := PoolCapacity(capacity, s.ratio)), 0)
  }

  function SetStrict(s: Shard, strict: bool): Shard {
    s.(strict := strict)
  }

  function SetRatio(s: Shard, ratio: real): Shard
    requires Inv(s) && ratio >= 0.0
  {
    MaintainPoolSize(s.(ratio := ratio, highCapacity := PoolCapacity(s.capacity, ratio)))
  }

  lemma SetRatioInv(s: Shard, ratio: real)
    requires Inv(s) && ratio >= 0.0
    ensures Inv(SetRatio(s, ratio)) && SetRatio(s, ratio).highUsage as real <= SetRatio(s, ratio).highCapacity
  {
    hide Sum, Total, MaintainPoolSize, Counted, Tabled, FreedOnce, Latest, Pools, PoolCapacity, SameButPool;
    PoolsBasics(s.entries, s.lru, s.low);
    var m := s.(ratio := ratio, highCapacity := PoolCapacity(s.capacity, ratio));
    MaintainKeeps(m);
    var r := SetRatio(s, ratio);
    BooksSame(s, r);
    SameSums(m.entries, r.entries, m.lru, m.next);
    SameList(m, r);
  }

  lemma SameList(s: Shard, r: Shard)
    requires Listed(s) && SameButPool(s.entries, r.entries) && r.lru == s.lru && Pools(r.entries, r.lru, r.low)
    ensures Listed(r)
  {
    forall x | x in r.entries
      ensures x in r.lru <==> r.entries[x].inCache && r.entries[x].refs == 1
    {
      assert r.entries[x].(inHighPool := false) == s.entries[x].(inHighPool := false);
    }
  }

  function EraseUnRefEntries(s: Shard): (r: Shard)
    requires Core(s)
    ensures Core(r) && r.lru == []
    decreases |s.lru|
  {
    hide Core;
    if s.lru == [] then s
    else
      Unheld(s, s.lru[0]);
      DiscardCore(s, s.lru[0]);
      EraseUnRefEntries(Discard(s, s.lru[0]))
  }
}
