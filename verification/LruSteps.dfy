/**
 How the statements of the cache shard's operations (rutil/lru_cache.cc:152-406), taken one by one
 in the order of the source, add up to the transitions of module LruOps.
 */
module LruSteps {
  import opened LruShard
  import opened LruOps

  lemma ListFacts(s: Shard)
    requires Core(s)
    ensures s.low <= |s.lru| && forall i :: 0 <= i < |s.lru| ==> s.lru[i] in s.entries
  {
  }

  lemma SetDrop(entries: map<Id, Entry>, id: Id, e: Entry)
    ensures entries[id := e] - {id} == entries - {id}
  {
  }

  lemma DiscardIs(s: Shard, id: Id)
    requires id in s.lru && id in s.entries
    ensures Discard(s, id) == LruRemove(s, id).(
              entries := s.entries - {id}, table := s.table - {s.entries[id].name},
                usage := s.usage - s.entries[id].charge,
              freed := s.freed + [Free(id, s.entries[id].refs - 1, false)])
  {
    hide LruRemove;
    SetDrop(s.entries, id, s.entries[id].(inCache := false, refs := s.entries[id].refs - 1));
  }

  // The numbers on the list are those of entries.
  ghost predicate Linked(s: Shard) {
    s.low <= |s.lru| && forall i :: 0 <= i < |s.lru| ==> s.lru[i] in s.entries
  }

  lemma DemotedLinked(s: Shard)
    requires Linked(s) && s.low < |s.lru|
    ensures Linked(Demoted(s))
  {
  }

  // The list with an entry at its newest end, and with one at the boundary.
  ghost function Newest(s: Shard, id: Id): Shard
    requires id in s.entries
  {
    var e := s.entries[id];
    With(s, id, e.(inHighPool := true)).(
      lru := s.lru + [id], highUsage := s.highUsage + e.charge, lruUsage := s.lruUsage + e.charge)
  }

  ghost function AtBoundary(s: Shard, id: Id): Shard
    requires id in s.entries && s.low <= |s.lru|
  {
    var e := s.entries[id];
    With(s, id, e.(inHighPool := false)).(
      lru := s.lru[..s.low] + [id] + s.lru[s.low..], low := s.low + 1, lruUsage := s.lruUsage + e.charge)
  }

  lemma NewestIs(s: Shard, id: Id, r: Shard)
    requires Linked(s) && id in s.entries && r == Newest(s, id)
    ensures Linked(r)
    ensures s.ratio > 0.0 && s.entries[id].highPri ==> MaintainPoolSize(r) == LruInsert(s, id)
  {
    hide MaintainPoolSize;
    var e := s.entries[id];
    var high := With(s, id, e.(inHighPool := true)).(lru := s.lru + [id], highUsage := s.highUsage + e.charge);
    UsageApart(high, s.lruUsage + e.charge);
  }

  lemma LowIs(s: Shard, id: Id, r: Shard)
    requires Linked(s) && id in s.entries && r == AtBoundary(s, id) && !(s.ratio > 0.0 && s.entries[id].highPri)
    ensures r == LruInsert(s, id)
  {
  }

  // Adding to the list's usage before the pool is maintained, or after.
  lemma {:induction false} UsageApart(s: Shard, lruUsage: int)
    requires Linked(s)
    ensures Linked(s.(lruUsage := lruUsage))
    ensures MaintainPoolSize(s.(lruUsage := lruUsage)) == MaintainPoolSize(s).(lruUsage := lruUsage)
    decreases |s.lru| - s.low
  {
    hide MaintainPoolSize;
    var t := s.(lruUsage := lruUsage);
    MaintainUnfold(s);
    MaintainUnfold(t);
    if s.highUsage as real > s.highCapacity && s.low < |s.lru| {
      DemotedLinked(s);
      UsageApart(Demoted(s), lruUsage);
      assert Demoted(t) == Demoted(s).(lruUsage := lruUsage);
    }
  }

  lemma SetTwice(s: Shard, id: Id, a: Entry, b: Entry)
    ensures With(With(s, id, a), id, b) == With(s, id, b)
  {
  }

  lemma RemovedGone(s: Shard, id: Id)
    requires Distinct(s.lru) && id in s.lru && id in s.entries
    ensures id !in LruRemove(s, id).lru
  {
    WithoutFacts(s.lru, IndexOf(s.lru, id));
  }

  lemma CoreFacts(s: Shard, id: Id)
    requires Core(s) && id in s.lru && id in s.entries
    ensures Distinct(s.lru) && s.entries[id].name in s.table && s.table[s.entries[id].name] == id
  {
    hide Summed, Counted, FreedOnce, Latest;
  }

  lemma PoolAtLeastZero(s: Shard)
    requires Core(s)
    ensures s.highCapacity >= 0.0
  {
  }

  lemma NotTabled(s: Shard, id: Id)
    requires Core(s) && id in s.entries
    ensures s.entries[id].inCache <==> s.entries[id].name in s.table && s.table[s.entries[id].name] == id
  {
    hide Summed, Counted, FreedOnce, Latest, Listed;
  }

  lemma GivenBack(s: Shard, id: Id, r: Shard)
    requires id in s.entries
    requires r == With(s.(held := s.held - multiset{id}), id, s.entries[id].(refs := s.entries[id].refs - 1))
    ensures r == GiveBack(s, id)
  {
  }

  // What becomes of an entry that has one reference less.
  ghost function Settled(r: Shard, id: Id): Shard
    requires id in r.entries && Linked(r)
  {
    var e := r.entries[id];
    if e.refs == 0 then FreeEntry(r.(usage := r.usage - e.charge), id)
    else if e.refs == 1 && e.inCache then
      if r.usage > r.capacity then
        var u := Unlist(r, id);
        FreeEntry(u.(usage := u.usage - e.charge), id)
      else LruInsert(r, id)
    else r
  }

  lemma ReleaseIsSettled(s: Shard, id: Id)
    requires Inv(s) && id in s.held && id in s.entries && id !in s.lru && Linked(s)
    ensures var r := GiveBack(s, id);
            Linked(r) && r.lru == s.lru && r.table == s.table && Release(s, id) == Settled(r, id)
  {
    hide Core, LruInsert;
  }

  lemma GoneAlready(s: Shard, name: Name)
    requires name !in s.table
    ensures s.(table := s.table - {name}) == s
  {
  }

  lemma OffList(s: Shard, name: Name)
    requires Inv(s) && name in s.table
    ensures s.table[name] in s.lru ==> s.table[name] in s.entries && s.table[name] !in LruRemove(s, s.table[name]).lru
  {
    hide Core;
    TableFacts(s, name);
    if s.table[name] in s.lru {
      CoreFacts(s, s.table[name]);
      RemovedGone(s, s.table[name]);
    }
  }

  lemma RemoveCommutes(a: Shard, b: Shard, id: Id)
    requires id in a.lru && id in a.entries && id in b.entries
    requires b == a.(table := b.table, entries := b.entries, usage := b.usage, next := b.next,
             accepted := b.accepted, held := b.held)
    requires b.entries[id].charge == a.entries[id].charge && b.entries[id].inHighPool == a.entries[id].inHighPool
    ensures LruRemove(b, id)
            == LruRemove(a, id).(table := b.table, entries := b.entries, usage := b.usage, next := b.next,
              accepted := b.accepted, held := b.held)
  {
  }

  lemma NothingReplaced(s: Shard, name: Name)
    requires Inv(s) && name !in s.table
    ensures Displace(s, name) == s
  {
  }

  // What the steps of ReleaseReplaced amount to.
  function Replaced(s: Shard, x: Id): Shard
    requires x in s.entries && (s.entries[x].refs == 1 ==> x in s.lru)
  {
    var e := s.entries[x];
    var u := With(s, x, e.(inCache := false, refs := e.refs - 1));
    if e.refs - 1 == 0 then FreeEntry(LruRemove(u.(usage := u.usage - e.charge), x), x) else u
  }

  // Entering first and releasing the replaced entry afterwards is displacing it first.
  lemma ReplacedAfter(s: Shard, e: Entry, wantHandle: bool)
    requires Inv(s) && e.name in s.table
    ensures var x := s.table[e.name];
            var m := Enter(s, e, wantHandle);
            && x in m.entries && (m.entries[x].refs == 1 ==> x in m.lru)
            && Replaced(m, x) == Enter(Displace(s, e.name), e, wantHandle)
  {
    hide Core, Discard, Unlist, Enter, Replaced;
    TableFacts(s, e.name);
    FreshId(s);
    var x := s.table[e.name];
    if s.entries[x].refs == 1 {
      ReplacedFreed(s, e, wantHandle, x);
    } else {
      ReplacedPinned(s, e, wantHandle, x);
    }
  }

  lemma ReplacedFreed(s: Shard, e: Entry, wantHandle: bool, x: Id)
    requires s.next !in s.entries && x in s.entries && x in s.lru && s.entries[x].refs == 1
             && s.entries[x].name == e.name
    ensures var m := Enter(s, e, wantHandle);
            && x in m.entries && m.entries[x].refs == 1 && x in m.lru
            && Replaced(m, x) == Enter(Discard(s, x), e, wantHandle)
  {
    hide LruRemove, Discard;
    DiscardIs(s, x);
    var m := Enter(s, e, wantHandle);
    var gone := s.entries[x].(inCache := false, refs := 0);
    var u := With(m, x, gone).(usage := m.usage - s.entries[x].charge);
    RemoveCommutes(s, u, x);
    SetDrop(m.entries, x, gone);
    assert s.entries[s.next := e] - {x} == (s.entries - {x})[s.next := e];
    assert s.table[e.name := s.next] == (s.table - {e.name})[e.name := s.next];
  }

  lemma ReplacedPinned(s: Shard, e: Entry, wantHandle: bool, x: Id)
    requires s.next !in s.entries && x in s.entries && s.entries[x].refs != 1 && s.entries[x].name == e.name
    ensures var m := Enter(s, e, wantHandle);
            && x in m.entries && m.entries[x].refs != 1
            && Replaced(m, x) == Enter(Unlist(s, x), e, wantHandle)
  {
    var m := Enter(s, e, wantHandle);
    var r, d := Replaced(m, x), Enter(Unlist(s, x), e, wantHandle);
    assert r.entries == d.entries;
    assert r.table == d.table;
  }
  // The state in which the replaced entry is released.
  lemma ReplacedReady(s: Shard, e: Entry, wantHandle: bool)
    requires Inv(s) && e.name in s.table
    ensures var m, x := Enter(s, e, wantHandle), s.table[e.name];
            && Distinct(m.lru) && x in m.entries && m.entries[x].name == e.name
            && e.name in m.table && m.table[e.name] != x && x != s.next
  {
    TableFacts(s, e.name);
    FreshId(s);
    hide Counted, FreedOnce, Latest, Summed;
  }

  // The new entry is there and off the list, whatever was displaced.
  lemma FreshStays(s: Shard, e: Entry, wantHandle: bool)
    requires Inv(s) && Inv(Displace(s, e.name)) && Displace(s, e.name).next == s.next
    ensures var m := Enter(Displace(s, e.name), e, wantHandle);
            s.next in m.entries && s.next !in m.lru
  {
    hide Core, Displace;
    FreshId(Displace(s, e.name));
  }
}
