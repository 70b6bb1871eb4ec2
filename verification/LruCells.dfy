/**
 The memory of a cache shard (rutil/lru_cache.h:154-250): allocated handles that sit in the hash
 table's chains and in the LRU list at the same time, and the shard's counters. Each primitive
 change of it is tied to the change of the abstract shard.
 */
module LruCells {
  import opened Coding
  import opened LruShard
  import opened LruOps
  import opened LruHandle
  import opened LruTable
  import L = LruList

  ghost function EntryOf(h: LRUHandle): Entry
    reads h`refs, h`inCache, h`inHighPool
  {
    Entry(h.Named(), h.charge, h.refs, h.inCache, h.highPri, h.inHighPool)
  }

  ghost function Numbers(items: seq<LRUHandle>): (r: seq<Id>)
    ensures |r| == |items| && forall i :: 0 <= i < |items| ==> r[i] == items[i].id
  {
    seq(|items|, i requires 0 <= i < |items| => items[i].id)
  }

  class Cells {
    const table: LRUHandleTable
    const list: L.LruList
    var usage: int
    var capacity: nat
    var strict: bool
    // The allocated handles by the numbers of their allocations, and what has happened so far.
    ghost var live: map<Id, LRUHandle>
    ghost var next: Id
    ghost var freed: seq<Free>
    ghost var held: multiset<Id>
    ghost var accepted: map<Id, Name>

    ghost function Memory(): set<object>
      reads this, table
    {
      {this, table, table.list, list, list.head} + live.Values
    }

    ghost predicate Has(h: LRUHandle)
      reads this
    {
      h.id in live && live[h.id] == h
    }

    // Table and list are made of allocated handles.
    ghost predicate OwnedBy(live: map<Id, LRUHandle>)
      reads table, list
    {
      && list.head !in live.Values
      && (forall id :: id in live ==> live[id].id == id)
      && (forall x :: x in table.nodes ==> x in live.Values)
      && (forall x :: x in list.items ==> x in live.Values)
    }

    ghost predicate Owned()
      reads this, table, list
    {
      OwnedBy(live)
    }

    // Both are intact, and the other handles are not linked.
    ghost predicate Wired()
      reads Memory()
    {
      hide LRUHandleTable.Valid, L.LruList.Valid;
      && Owned() && table.Valid() && list.Valid()
      && (forall id :: id in live && live[id] !in list.items ==> live[id].next == null && live[id].prev == null)
    }

    ghost function Entries(): (r: map<Id, Entry>)
      reads this, live.Values
    {
      map id | id in live :: EntryOf(live[id])
    }

    ghost function Mapping(): map<Name, Id>
      reads table
    {
      map n | n in table.contents :: table.contents[n].id
    }

    ghost function View(): Shard
      reads Memory()
    {
      Shard(Entries(), Mapping(), Numbers(list.items), list.low, usage, list.lruUsage, list.highUsage,
            capacity, strict, list.ratio, list.highCapacity, next, freed, held, accepted)
    }

    constructor ()
      ensures Wired() && View() == EMPTY && fresh(Memory())
    {
      hide LRUHandleTable.Valid, L.LruList.Valid;
      table := new LRUHandleTable();
      list := new L.LruList(0.0, 0.0);
      usage, capacity, strict := 0, 0, false;
      live, next, freed, held, accepted := map[], 0, [], multiset{}, map[];
      new;
      assert Entries() == map[] && Mapping() == map[] && Numbers(list.items) == [];
    }

    // ---------- reference counts and flags ----------

    method SetCount(h: LRUHandle, refs: int, inCache: bool)
      requires Wired() && Has(h)
      modifies h`refs, h`inCache
      ensures Wired() && h.refs == refs && h.inCache == inCache
      ensures View() == With(old(View()), h.id, old(EntryOf(h)).(refs := refs, inCache := inCache))
    {
      hide LRUHandleTable.Valid, L.LruList.Valid;
      ghost var before := Entries();
      h.refs, h.inCache := refs, inCache;
      assert Entries() == before[h.id := EntryOf(h)];
    }

    method AddUsage(charge: int)
      requires Wired()
      modifies this`usage
      ensures Wired() && View() == old(View()).(usage := old(usage) + charge)
    {
      hide LRUHandleTable.Valid, L.LruList.Valid;
      usage := usage + charge;
    }

    // ---------- the list ----------

    // Where an entry is on the list.
    ghost function Place(h: LRUHandle): (k: nat)
      requires h in list.items
      reads list
      ensures k < |list.items| && list.items[k] == h
    {
      var k :| 0 <= k < |list.items| && list.items[k] == h;
      k
    }

    // Its number is at the same place in the abstract list.
    lemma PlaceIsIndex(h: LRUHandle)
      requires Owned() && h in list.items && L.Distinct(list.items)
      ensures h.id in Numbers(list.items) && IndexOf(Numbers(list.items), h.id) == Place(h)
    {
      hide Owned;
      var k, ids := Place(h), Numbers(list.items);
      assert ids[k] == h.id;
      var j := IndexOf(ids, h.id);
      ItemHas(k);
      ItemHas(j);
    }

    lemma ItemHas(k: nat)
      requires Owned() && k < |list.items|
      ensures Has(list.items[k])
    {
      assert list.items[k] in list.items;
    }

    method ListRemove(h: LRUHandle)
      requires Wired() && h in list.items
      modifies list, list.head`next, list.head`prev, list.items`next, list.items`prev
      ensures Wired() && list.ratio == old(list.ratio) && list.highCapacity == old(list.highCapacity)
      ensures h.id in old(View()).lru && h.id in old(View()).entries && View() == LruRemove(old(View()), h.id)
    {
      hide LRUHandleTable.Valid, L.LruList.Valid, LruRemove, IndexOf, Owned;
      list.ItemsDistinct();
      PlaceIsIndex(h);
      ItemHas(Place(h));
      ghost var k, s := Place(h), View();
      RemoveIs(s, h.id, k);
      TakeOut(h, k);
    }

    method TakeOut(h: LRUHandle, ghost k: nat)
      requires Wired() && k < |list.items| && list.items[k] == h
      modifies list, list.head`next, list.head`prev, list.items`next, list.items`prev
      ensures Wired() && list.ratio == old(list.ratio) && list.highCapacity == old(list.highCapacity)
      ensures Entries() == old(Entries()) && Numbers(list.items) == Without(old(Numbers(list.items)), k)
      ensures list.low == if k < old(list.low) then old(list.low) - 1 else old(list.low)
      ensures list.lruUsage == old(list.lruUsage) - h.charge
      ensures list.highUsage == if h.inHighPool then old(list.highUsage) - h.charge else old(list.highUsage)
    {
      hide LRUHandleTable.Valid, L.LruList.Valid;
      ghost var items := list.items;
      list.LruRemove(h, k);
      OthersStay(items, k);
    }

    static lemma RemoveIs(s: Shard, id: Id, k: nat)
      requires id in s.lru && id in s.entries && IndexOf(s.lru, id) == k < |s.lru|
      ensures var e := s.entries[id];
              LruRemove(s, id) == s.(
                lru := Without(s.lru, k), low := if k < s.low then s.low - 1 else s.low,
                lruUsage := s.lruUsage - e.charge,
                highUsage := if e.inHighPool then s.highUsage - e.charge else s.highUsage)
    {
    }

    static lemma OthersStay(items: seq<LRUHandle>, k: nat)
      requires k < |items|
      ensures forall x :: x in items[..k] + items[k + 1..] ==> x in items
      ensures forall x :: x in items && x != items[k] ==> x in items[..k] + items[k + 1..]
    {
      forall x | x in items && x != items[k]
        ensures x in items[..k] + items[k + 1..]
      {
        var i :| 0 <= i < |items| && items[i] == x;
        if i < k {
          assert items[..k][i] == x;
        } else {
          assert items[k + 1..][i - k - 1] == x;
        }
      }
    }

    // The boundary moves over the oldest high-pool entry.
    method Demote()
      requires Wired() && list.low < |list.items|
      modifies list`lowPri, list`highUsage, list`low, list`items, list`lruUsage,
               list.items[list.low..list.low + 1]`inHighPool
      ensures Wired() && list.items == old(list.items)
      ensures old(View()).low < |old(View()).lru| && old(View()).lru[old(View()).low] in old(View()).entries
      ensures View() == Demoted(old(View()))
    {
      hide LRUHandleTable.Valid, L.LruList.Valid, Owned;
      ItemHas(list.low);
      DemoteFirst(list.items[list.low]);
    }

    method DemoteFirst(ghost h: LRUHandle)
      requires Wired() && list.low < |list.items| && h == list.items[list.low] && Has(h)
      modifies list`lowPri, list`highUsage, list`low, list`items, list`lruUsage,
               list.items[list.low..list.low + 1]`inHighPool
      ensures Wired() && list.items == old(list.items) && list.low == old(list.low) + 1
      ensures Entries() == old(Entries())[h.id := old(EntryOf(h)).(inHighPool := false)]
      ensures list.lruUsage == old(list.lruUsage) && list.highUsage == old(list.highUsage) - h.charge
    {
      hide LRUHandleTable.Valid, L.LruList.Valid;
      list.Demote();
    }

    method LinkNewest(h: LRUHandle)
      requires Wired() && Has(h) && h !in list.items
      modifies list`lowPri, list`lruUsage, list`highUsage, list`items, list`low, list.head`next, list.head`prev,
               list.items`next, list.items`prev, h`next, h`prev, h`inHighPool
      ensures Wired() && list.items == old(list.items) + [h]
      ensures View() == With(old(View()), h.id, old(EntryOf(h)).(inHighPool := true)).(
                          lru := old(View()).lru + [h.id], highUsage := old(list.highUsage) + h.charge,
                          lruUsage := old(list.lruUsage) + h.charge)
    {
      hide LRUHandleTable.Valid, L.LruList.Valid;
      list.LinkNewest(h);
      assert Entries() == old(Entries())[h.id := EntryOf(h)];
      assert Numbers(list.items) == old(Numbers(list.items)) + [h.id];
    }

    method LinkLow(h: LRUHandle)
      requires Wired() && Has(h) && h !in list.items
      modifies list`lowPri, list`lruUsage, list`highUsage, list`items, list`low, list.head`next, list.head`prev,
               list.items`next, list.items`prev, h`next, h`prev, h`inHighPool
      ensures Wired() && old(list.low) <= |old(View()).lru| && h in list.items
      ensures var s := old(View());
              View() == With(s, h.id, old(EntryOf(h)).(inHighPool := false)).(
                          lru := s.lru[..s.low] + [h.id] + s.lru[s.low..], low := s.low + 1,
                          lruUsage := s.lruUsage + h.charge)
    {
      hide LRUHandleTable.Valid, L.LruList.Valid, Owned;
      LowInList();
      PutLow(h);
    }

    method PutLow(h: LRUHandle)
      requires Wired() && Has(h) && h !in list.items && list.low <= |list.items|
      modifies list`lowPri, list`lruUsage, list`highUsage, list`items, list`low, list.head`next, list.head`prev,
               list.items`next, list.items`prev, h`next, h`prev, h`inHighPool
      ensures Wired() && h in list.items && list.low == old(list.low) + 1
      ensures Entries() == old(Entries())[h.id := old(EntryOf(h)).(inHighPool := false)]
      ensures list.lruUsage == old(list.lruUsage) + h.charge && list.highUsage == old(list.highUsage)
      ensures var ids, low := old(Numbers(list.items)), old(list.low);
              Numbers(list.items) == ids[..low] + [h.id] + ids[low..]
    {
      hide LRUHandleTable.Valid, L.LruList.Valid;
      list.LinkLow(h);
    }

    lemma LowInList()
      requires list.Valid()
      ensures list.low <= |list.items|
    {
    }

    // ---------- the table ----------

    method TableInsert(h: LRUHandle) returns (replaced: LRUHandle?)
      requires Wired() && Has(h) && h !in table.nodes
      modifies table, table.list, table.nodes`nextHash, h`nextHash
      ensures Wired() && (table.list == old(table.list) || fresh(table.list))
      ensures View() == old(View()).(table := old(View()).table[h.Named() := h.id])
      ensures if h.Named() in old(View()).table
              then replaced != null && Has(replaced) && replaced.id == old(View()).table[h.Named()]
                && replaced !in table.nodes
              else replaced == null
      ensures h in table.nodes && forall x :: x in old(table.nodes) && x != replaced ==> x in table.nodes
    {
      hide LRUHandleTable.Valid, L.LruList.Valid, Owned;
      NamedNodes();
      replaced := Enlist(h);
    }

    // Every name in the table maps to an allocated handle of that name.
    lemma NamedNodes()
      requires Wired()
      ensures forall n :: n in table.contents ==> table.contents[n] in table.nodes && Has(table.contents[n])
                                                  && table.contents[n].Named() == n
    {
      hide L.LruList.Valid;
      TableOwns();
    }

    lemma TableOwns()
      requires table.Valid()
      ensures forall n :: n in table.contents ==> table.contents[n] in table.nodes && table.contents[n].Named() == n
      ensures forall x :: x in table.nodes ==> x.Named() in table.contents && table.contents[x.Named()] == x
    {
      hide LRUHandleTable.Holds, ChainAt;
    }

    method Enlist(h: LRUHandle) returns (replaced: LRUHandle?)
      requires Wired() && Has(h) && h !in table.nodes
      modifies table, table.list, table.nodes`nextHash, h`nextHash
      ensures Wired() && (table.list == old(table.list) || fresh(table.list))
      ensures table.contents == old(table.contents)[h.Named() := h] && Entries() == old(Entries())
      ensures replaced == if h.Named() in old(table.contents) then old(table.contents)[h.Named()] else null
      ensures table.nodes == old(table.nodes) - (if replaced == null then {} else {replaced}) + {h}
    {
      hide LRUHandleTable.Valid, L.LruList.Valid;
      replaced := table.Insert(h);
    }

    method TableRemove(key: Bytes, hash: Word) returns (found: LRUHandle?)
      requires Wired()
      modifies table, table.list, table.nodes`nextHash
      ensures Wired() && table.list == old(table.list)
      ensures View() == old(View()).(table := old(View()).table - {Name(key, hash)})
      ensures if Name(key, hash) in old(View()).table
              then found != null && Has(found) && found.id == old(View()).table[Name(key, hash)]
                && found !in table.nodes
              else found == null
      ensures forall x :: x in table.nodes ==> x in old(table.nodes)
    {
      hide LRUHandleTable.Valid, L.LruList.Valid, Owned;
      NamedNodes();
      found := Delist(key, hash);
    }

    method Delist(key: Bytes, hash: Word) returns (found: LRUHandle?)
      requires Wired()
      modifies table, table.list, table.nodes`nextHash
      ensures Wired() && table.list == old(table.list)
      ensures table.contents == old(table.contents) - {Name(key, hash)} && Entries() == old(Entries())
      ensures found == if Name(key, hash) in old(table.contents) then old(table.contents)[Name(key, hash)] else null
      ensures table.nodes == old(table.nodes) - (if found == null then {} else {found})
    {
      hide LRUHandleTable.Valid, L.LruList.Valid;
      found := table.Remove(key, hash);
    }

    method TableLookup(key: Bytes, hash: Word) returns (found: LRUHandle?)
      requires Wired()
      ensures Wired() && View() == old(View()) && Memory() == old(Memory())
      ensures if Name(key, hash) in View().table
              then found != null && Has(found) && found.id == View().table[Name(key, hash)]
              else found == null
    {
      hide LRUHandleTable.Valid, L.LruList.Valid, Owned;
      NamedNodes();
      found := table.Lookup(key, hash);
    }

    // ---------- allocation ----------

    // A new handle becomes an entry of the shard.
    method Adopt(h: LRUHandle, wantHandle: bool)
      requires Wired() && h.id == next && next !in live && h !in live.Values && h != list.head
      requires h.next == null && h.prev == null
      modifies this`live, this`next, this`accepted, this`held
      ensures Wired() && Has(h) && h !in table.nodes && h !in list.items
      ensures var s := old(View());
              View() == With(s, s.next, EntryOf(h)).(
                          next := s.next + 1, accepted := s.accepted[s.next := h.Named()],
                          held := if wantHandle then s.held + multiset{s.next} else s.held)
      ensures live == old(live)[h.id := h] && Memory() == old(Memory()) + {h}
    {
      hide LRUHandleTable.Valid, L.LruList.Valid, Owned;
      MoreOwned(h);
      Register(h, wantHandle);
    }

    method Register(h: LRUHandle, wantHandle: bool)
      requires Wired() && h.id == next && next !in live && h.next == null && h.prev == null
      requires OwnedBy(live[h.id := h])
      modifies this`live, this`next, this`accepted, this`held
      ensures Wired() && live == old(live)[h.id := h] && next == old(next) + 1
      ensures accepted == old(accepted)[h.id := h.Named()]
      ensures held == if wantHandle then old(held) + multiset{h.id} else old(held)
      ensures Entries() == old(Entries())[h.id := EntryOf(h)]
    {
      hide LRUHandleTable.Valid, L.LruList.Valid, OwnedBy;
      live, next, accepted := live[h.id := h], next + 1, accepted[h.id := h.Named()];
      if wantHandle {
        held := held + multiset{h.id};
      }
    }

    lemma MoreOwned(h: LRUHandle)
      requires Owned() && h.id !in live && h !in live.Values && h != list.head
      ensures OwnedBy(live[h.id := h]) && h !in table.nodes && h !in list.items
      ensures live[h.id := h].Values == live.Values + {h}
    {
      var more := live[h.id := h];
      forall x | x in live.Values
        ensures x in more.Values
      {
        assert more[x.id] == x;
      }
      assert more[h.id] == h;
    }

    lemma LessOwned(h: LRUHandle)
      requires Owned() && Has(h) && h !in table.nodes && h !in list.items
      ensures OwnedBy(live - {h.id})
    {
      var less := live - {h.id};
      forall x | x in live.Values && x != h
        ensures x in less.Values
      {
        assert less[x.id] == x;
      }
    }

    // The deleter call and the deallocation.
    method Free(h: LRUHandle)
      requires Wired() && Has(h) && h !in table.nodes && h !in list.items
      modifies this`live, this`freed
      ensures Wired() && live == old(live) - {h.id}
      ensures h.id in old(View()).entries && View() == FreeEntry(old(View()), h.id)
    {
      hide LRUHandleTable.Valid, L.LruList.Valid, OwnedBy;
      LessOwned(h);
      freed := freed + [LruShard.Free(h.id, h.refs, h.inCache)];
      live := live - {h.id};
      assert Entries() == old(Entries()) - {h.id};
    }

    // A handle that did not become an entry is deallocated, with a deleter call or without.
    method Discarded(h: LRUHandle, deleter: bool)
      requires Wired() && h.id == next
      modifies this`next, this`freed
      ensures Wired()
      ensures var s := old(View());
              View() == s.(next := s.next + 1,
                           freed := if deleter then s.freed + [LruShard.Free(h.id, h.refs, h.inCache)] else s.freed)
    {
      hide LRUHandleTable.Valid, L.LruList.Valid;
      next := next + 1;
      if deleter {
        freed := freed + [LruShard.Free(h.id, h.refs, h.inCache)];
      }
    }

    // ---------- handles and settings ----------

    method SetHeld(ghost held': multiset<Id>)
      requires Wired()
      modifies this`held
      ensures Wired() && View() == old(View()).(held := held')
    {
      hide LRUHandleTable.Valid, L.LruList.Valid;
      held := held';
    }

    method SetLimits(capacity: nat, strict: bool, ratio: real, highCapacity: real)
      requires Wired() && highCapacity >= 0.0
      modifies this`capacity, this`strict, list`ratio, list`highCapacity
      ensures Wired()
      ensures View() == old(View()).(capacity := capacity, strict := strict, ratio := ratio,
              highCapacity := highCapacity)
    {
      hide LRUHandleTable.Valid, L.LruList.Valid;
      this.capacity, this.strict := capacity, strict;
      list.SetPoolCapacity(ratio, highCapacity);
    }

    // ---------- handles and the abstract shard ----------

    lemma InMemory()
      requires Owned()
      ensures (forall x :: x in table.nodes ==> x in Memory()) && (forall x :: x in list.items ==> x in Memory())
    {
    }

    lemma LinksAre(h: LRUHandle)
      requires Wired() && Has(h)
      ensures h.id in View().entries && View().entries[h.id] == EntryOf(h)
      ensures h in list.items <==> h.id in View().lru
      ensures h in table.nodes <==> h.Named() in View().table && View().table[h.Named()] == h.id
      ensures h in Memory()
    {
      hide LRUHandleTable.Valid, L.LruList.Valid, Owned;
      NamedNodes();
      TableOwns();
      ListLinks(h);
    }

    lemma ListLinks(h: LRUHandle)
      requires Owned() && Has(h)
      ensures h in list.items <==> h.id in Numbers(list.items)
    {
      var ids := Numbers(list.items);
      if h in list.items {
        assert ids[Place(h)] == h.id;
      }
      if h.id in ids {
        var i :| 0 <= i < |ids| && ids[i] == h.id;
        ItemHas(i);
      }
    }

    // lru_.next, and whether it is lru_ itself.
    method Oldest() returns (h: LRUHandle, empty: bool)
      requires Wired()
      ensures Wired() && View() == old(View()) && Memory() == old(Memory())
      ensures empty == (View().lru == [])
      ensures !empty ==> Has(h) && h.id == View().lru[0]
    {
      hide LRUHandleTable.Valid, L.LruList.Valid, Owned;
      list.FirstLink();
      h := list.head.next;
      empty := h == list.head;
      if !empty {
        ItemHas(0);
      }
    }

    lemma PoolNotEmpty()
      requires Wired()
      ensures list.low <= |list.items|
      ensures list.highUsage as real > list.highCapacity ==> list.low < |list.items|
    {
      hide LRUHandleTable.Valid, L.LruList.Valid, Owned;
      list.PoolCharges();
    }

    // ---------- destruction ----------

    ghost function FreesOf(order: seq<LRUHandle>): seq<LruShard.Free>
      reads order
    {
      seq(|order|, i requires 0 <= i < |order| reads order =>
        LruShard.Free(order[i].id, order[i].refs, order[i].inCache))
    }

    // The table's destructor; the list and the counters go with the shard.
    method Destruct() returns (order: seq<LRUHandle>)
      requires Wired() && forall x :: x in table.nodes ==> x.inCache
      modifies table.nodes`nextHash, this`live, this`freed
      ensures LRUHandleTable.Sole(order, table.nodes)
      ensures freed == old(freed) + FreesOf(order)
      ensures live == old(live) - set x | x in order :: x.id
    {
      hide LRUHandleTable.Holds, LRUHandleTable.Owns, ChainAt, L.LruList.Valid;
      order := table.Destruct();
      freed := freed + FreesOf(order);
      live := live - set x | x in order :: x.id;
    }
  }
}
