/**
 LRUCacheShard (rutil/lru_cache.cc:94-133, 152-406) as an object over its memory: one handle per
 entry, linked into the hash table and the LRU list. The statements of each operation are those of
 the source, in its order and with its loops. Every method is proved to make the transition of
 module LruOps, so what LruRuns and LruPolicies prove of runs holds of this object.
 */
module LruShardClass {
  import opened Coding
  import opened LruShard
  import opened LruOps
  import opened LruRuns
  import LruPolicies
  import opened LruTable
  import opened LruHandle
  import opened LruCells
  import opened LruSteps

  class LRUCacheShard {
    const m: Cells

    ghost function Memory(): set<object>
      reads m, m.table
    {
      m.Memory()
    }

    ghost function View(): Shard
      reads Memory()
    {
      m.View()
    }

    ghost predicate Wired()
      reads Memory()
    {
      m.Wired()
    }

    constructor ()
      ensures Wired() && View() == EMPTY && Ready(View()) && fresh(Memory())
    {
      hide Cells.Wired, Cells.View, Core;
      EmptyReady();
      m := new Cells();
    }

    // What the fields of a handle say is what the abstract entry says, and the links what the
    // abstract table and list say.
    lemma HandleIs(e: LRUHandle)
      requires Wired() && m.Has(e)
      ensures e.id in View().entries && View().entries[e.id] == EntryOf(e)
      ensures e in m.list.items <==> e.id in View().lru
      ensures e in m.table.nodes <==> e.Named() in View().table && View().table[e.Named()] == e.id
      ensures e in Memory()
    {
      m.LinksAre(e);
    }

    lemma Within()
      requires Wired()
      ensures (forall x :: x in m.table.nodes ==> x in Memory()) && (forall x :: x in m.list.items ==> x in Memory())
      ensures m in Memory() && m.table in Memory() && m.table.list in Memory() && m.list in Memory()
              && m.list.head in Memory()
    {
      m.InMemory();
    }

    // ---------- steps ----------

    method SetCount(e: LRUHandle, refs: int, inCache: bool)
      requires Wired() && m.Has(e)
      modifies Memory()
      ensures Wired() && m.Has(e) && m.live == old(m.live) && Memory() == old(Memory())
      ensures View() == With(old(View()), e.id, old(EntryOf(e)).(refs := refs, inCache := inCache))
    {
      hide Cells.Wired, Cells.View;
      HandleIs(e);
      m.SetCount(e, refs, inCache);
    }

    // Whether the last reference is gone.
    method Unref(e: LRUHandle) returns (last: bool)
      requires Wired() && m.Has(e)
      modifies Memory()
      ensures Wired() && m.Has(e) && m.live == old(m.live) && Memory() == old(Memory())
      ensures e.id in old(View()).entries
      ensures var d := old(View()).entries[e.id];
              View() == With(old(View()), e.id, d.(refs := d.refs - 1)) && last == (d.refs - 1 == 0)
    {
      hide Cells.Wired, Cells.View;
      HandleIs(e);
      last := e.refs - 1 == 0;
      SetCount(e, e.refs - 1, e.inCache);
    }

    method AddUsage(charge: int)
      requires Wired()
      modifies Memory()
      ensures Wired() && m.live == old(m.live) && Memory() == old(Memory())
      ensures View() == old(View()).(usage := old(View()).usage + charge)
    {
      hide Cells.Wired;
      Within();
      m.AddUsage(charge);
    }

    method SetHeld(ghost held: multiset<Id>)
      requires Wired()
      modifies Memory()
      ensures Wired() && m.live == old(m.live) && Memory() == old(Memory())
      ensures View() == old(View()).(held := held)
    {
      hide Cells.Wired;
      Within();
      m.SetHeld(held);
    }

    method Free(e: LRUHandle)
      requires Wired() && m.Has(e) && e.id !in View().lru
               && !(e.Named() in View().table && View().table[e.Named()] == e.id)
      modifies Memory()
      ensures Wired() && m.live == old(m.live) - {e.id} && Memory() <= old(Memory())
      ensures e.id in old(View()).entries && View() == FreeEntry(old(View()), e.id)
    {
      hide Cells.Wired, Cells.View;
      HandleIs(e);
      Within();
      m.Free(e);
    }

    method TableRemove(key: Bytes, hash: Word) returns (found: LRUHandle?)
      requires Wired()
      modifies Memory()
      ensures Wired() && m.live == old(m.live) && Memory() == old(Memory())
      ensures View() == old(View()).(table := old(View()).table - {Name(key, hash)})
      ensures if Name(key, hash) in old(View()).table
              then found != null && m.Has(found) && found.id == old(View()).table[Name(key, hash)]
              else found == null
    {
      hide Cells.Wired, Cells.View;
      Within();
      found := m.TableRemove(key, hash);
    }

    method TableInsert(e: LRUHandle) returns (replaced: LRUHandle?)
      requires Wired() && m.Has(e) && !(e.Named() in View().table && View().table[e.Named()] == e.id)
      modifies Memory()
      ensures Wired() && m.live == old(m.live) && fresh(Memory() - old(Memory()))
      ensures View() == old(View()).(table := old(View()).table[e.Named() := e.id])
      ensures if e.Named() in old(View()).table
              then replaced != null && m.Has(replaced) && replaced.id == old(View()).table[e.Named()]
              else replaced == null
    {
      hide Cells.Wired, Cells.View;
      HandleIs(e);
      Within();
      replaced := m.TableInsert(e);
    }

    // ---------- the list ----------

    method LruRemove(e: LRUHandle)
      requires Wired() && m.Has(e) && e.id in View().lru
      modifies Memory()
      ensures Wired() && m.Has(e) && m.live == old(m.live) && Memory() == old(Memory())
      ensures e.id in old(View()).entries && View() == LruShard.LruRemove(old(View()), e.id)
    {
      hide Cells.Wired, Cells.View, LruShard.LruRemove;
      HandleIs(e);
      Within();
      m.ListRemove(e);
    }

    method MaintainPoolSize()
      requires Wired() && Linked(View())
      modifies Memory()
      ensures Wired() && m.live == old(m.live) && Memory() == old(Memory())
      ensures View() == LruShard.MaintainPoolSize(old(View()))
    {
      hide Cells.Wired, LruShard.MaintainPoolSize, Demoted;
      m.PoolNotEmpty();
      while m.list.highUsage as real > m.list.highCapacity
        invariant Wired() && m.live == old(m.live) && Memory() == old(Memory()) && Linked(View())
        invariant LruShard.MaintainPoolSize(View()) == LruShard.MaintainPoolSize(old(View()))
        decreases |m.list.items| - m.list.low
      {
        MaintainUnfold(View());
        m.PoolNotEmpty();
        Within();
        DemotedLinked(View());
        m.Demote();
        m.PoolNotEmpty();
      }
      MaintainUnfold(View());
    }

    method LruInsert(e: LRUHandle)
      requires Wired() && m.Has(e) && e.id !in View().lru && Linked(View()) && e.id in View().entries
      modifies Memory()
      ensures Wired() && m.live == old(m.live) && Memory() == old(Memory())
      ensures View() == LruShard.LruInsert(old(View()), e.id)
    {
      hide Cells.Wired, Cells.View, LruShard.LruInsert;
      Fields();
      HandleIs(e);
      if m.list.ratio > 0.0 && e.highPri {
        LinkNewest(e);
        NewestIs(old(View()), e.id, View());
        MaintainPoolSize();
      } else {
        LinkLow(e);
        LowIs(old(View()), e.id, View());
      }
    }

    method LinkNewest(e: LRUHandle)
      requires Wired() && m.Has(e) && e.id !in View().lru && e.id in View().entries
      modifies Memory()
      ensures Wired() && m.live == old(m.live) && Memory() == old(Memory())
      ensures View() == Newest(old(View()), e.id)
    {
      hide Cells.Wired, Cells.View;
      HandleIs(e);
      Within();
      Fields();
      m.LinkNewest(e);
    }

    method LinkLow(e: LRUHandle)
      requires Wired() && m.Has(e) && e.id !in View().lru && e.id in View().entries && View().low <= |View().lru|
      modifies Memory()
      ensures Wired() && m.live == old(m.live) && Memory() == old(Memory())
      ensures View() == AtBoundary(old(View()), e.id)
    {
      hide Cells.Wired, Cells.View;
      HandleIs(e);
      Within();
      m.LinkLow(e);
    }

    lemma Fields()
      ensures m.list.highCapacity == View().highCapacity
      ensures m.list.ratio == View().ratio && m.list.highUsage == View().highUsage && m.list.lruUsage == View().lruUsage
      ensures m.usage == View().usage && m.capacity == View().capacity && m.strict == View().strict
      ensures m.next == View().next && m.held == View().held && m.live.Keys == View().entries.Keys
    {
    }

    // ---------- eviction ----------

    // SetInCache(false) and Unref.
    method Forget(e: LRUHandle) returns (last: bool)
      requires Wired() && m.Has(e) && e.id in View().entries
      modifies Memory()
      ensures Wired() && m.Has(e) && m.live == old(m.live) && Memory() == old(Memory())
      ensures var d := old(View()).entries[e.id];
              View() == With(old(View()), e.id, d.(inCache := false, refs := d.refs - 1)) && last == (d.refs - 1 == 0)
    {
      hide Cells.Wired, Cells.View;
      HandleIs(e);
      SetCount(e, e.refs, false);
      last := Unref(e);
      ghost var d := old(View()).entries[e.id];
      SetTwice(old(View()), e.id, d.(inCache := false), d.(inCache := false, refs := d.refs - 1));
    }

    // The body of the eviction loops: the oldest entry leaves list, table and usage.
    method EvictOldest(e: LRUHandle)
      requires Wired() && Core(View()) && View().lru != [] && m.Has(e) && e.id == View().lru[0]
      modifies Memory()
      ensures Wired() && Core(View()) && m.live == old(m.live) - {e.id} && Memory() <= old(Memory())
      ensures e.id in old(View()).entries && View() == Discard(old(View()), e.id)
              && |View().lru| == |old(View()).lru| - 1
    {
      hide LRUCacheShard.Wired, LRUCacheShard.View, LRUCacheShard.Memory, Core, LruShard.LruRemove;
      ghost var s := View();
      Unheld(s, e.id);
      DiscardCore(s, e.id);
      HandleIs(e);
      LruRemove(e);
      var _ := TableRemove(e.key, e.hash);
      var _ := Forget(e);
      AddUsage(0 - e.charge);
      CoreFacts(s, e.id);
      RemovedGone(s, e.id);
      Free(e);
    }

    method Oldest() returns (h: LRUHandle, empty: bool)
      requires Wired()
      ensures Wired() && View() == old(View()) && Memory() == old(Memory())
      ensures empty == (View().lru == []) && (!empty ==> m.Has(h) && h.id == View().lru[0])
    {
      hide Cells.Wired, Cells.View;
      h, empty := m.Oldest();
    }

    ghost predicate Fewer(live: map<Id, LRUHandle>)
      reads m
    {
      m.live.Keys <= live.Keys && forall id :: id in m.live ==> m.live[id] == live[id]
    }

    method EvictFromLru(charge: nat)
      requires Wired() && Core(View())
      modifies Memory()
      ensures Wired() && View() == LruShard.EvictFromLru(old(View()), charge)
      ensures Fewer(old(m.live)) && Memory() <= old(Memory())
    {
      hide LRUCacheShard.Wired, LRUCacheShard.View, LRUCacheShard.Memory, Core, Discard, LruShard.EvictFromLru;
      Fields();
      var oldest, empty := Oldest();
      while m.usage + charge > m.capacity && !empty
        invariant Wired() && Core(View())
                  && LruShard.EvictFromLru(View(), charge) == LruShard.EvictFromLru(old(View()), charge)
        invariant m.usage == View().usage && m.capacity == View().capacity
        invariant empty == (View().lru == []) && (!empty ==> m.Has(oldest) && oldest.id == View().lru[0])
        invariant Fewer(old(m.live)) && Memory() <= old(Memory())
        decreases |View().lru|
      {
        EvictUnfold(View(), charge);
        EvictOldest(oldest);
        Fields();
        oldest, empty := Oldest();
      }
      EvictUnfold(View(), charge);
    }

    method EraseUnRefEntries()
      requires Wired() && Ready(View())
      modifies Memory()
      ensures Wired() && View() == LruOps.EraseUnRefEntries(old(View())) && Ready(View()) && Memory() <= old(Memory())
    {
      hide LRUCacheShard.Wired, LRUCacheShard.View, LRUCacheShard.Memory, Core, Discard;
      DoReady(View(), DoEraseUnRef);
      var oldest, empty := Oldest();
      while !empty
        invariant Wired() && Core(View()) && LruOps.EraseUnRefEntries(View()) == LruOps.EraseUnRefEntries(old(View()))
        invariant empty == (View().lru == []) && (!empty ==> m.Has(oldest) && oldest.id == View().lru[0])
        invariant Memory() <= old(Memory())
        decreases |View().lru|
      {
        EvictOldest(oldest);
        oldest, empty := Oldest();
      }
    }

    // ---------- settings and counters ----------

    method SetLimits(capacity: nat, strict: bool, ratio: real, highCapacity: real)
      requires Wired() && highCapacity >= 0.0
      modifies Memory()
      ensures Wired() && Memory() == old(Memory())
      ensures View() == old(View()).(capacity := capacity, strict := strict, ratio := ratio,
              highCapacity := highCapacity)
    {
      hide Cells.Wired, Cells.View;
      Within();
      m.SetLimits(capacity, strict, ratio, highCapacity);
    }

    method SetCapacity(capacity: nat)
      requires Wired() && Ready(View())
      modifies Memory()
      ensures Wired() && View() == LruOps.SetCapacity(old(View()), capacity) && Ready(View())
              && Memory() <= old(Memory())
    {
      hide LRUCacheShard.Wired, LRUCacheShard.View, LRUCacheShard.Memory, Core, LruShard.EvictFromLru, PoolCapacity;
      DoReady(View(), DoSetCapacity(capacity));
      ghost var before := View();
      Fields();
      SetLimits(capacity, m.strict, m.list.ratio, PoolCapacity(capacity, m.list.ratio));
      SameCore(before, View());
      EvictFromLru(0);
    }

    method SetStrictCapacityLimit(strict: bool)
      requires Wired() && Ready(View())
      modifies Memory()
      ensures Wired() && View() == LruOps.SetStrict(old(View()), strict) && Ready(View()) && Memory() == old(Memory())
    {
      hide LRUCacheShard.Wired, LRUCacheShard.View, LRUCacheShard.Memory, Core;
      DoReady(View(), DoSetStrict(strict));
      Fields();
      PoolAtLeastZero(View());
      SetLimits(m.capacity, strict, m.list.ratio, m.list.highCapacity);
    }

    method SetHighPriorityPoolRatio(ratio: real)
      requires Wired() && Ready(View()) && 0.0 <= ratio <= 1.0
      modifies Memory()
      ensures Wired() && View() == LruOps.SetRatio(old(View()), ratio) && Ready(View()) && Memory() == old(Memory())
    {
      hide LRUCacheShard.Wired, LRUCacheShard.View, LRUCacheShard.Memory, Core, LruShard.MaintainPoolSize, PoolCapacity;
      DoReady(View(), DoSetRatio(ratio));
      ListFacts(View());
      Fields();
      SetLimits(m.capacity, m.strict, ratio, PoolCapacity(m.capacity, ratio));
      MaintainPoolSize();
    }

    function GetUsage(): (usage: int)
      reads Memory()
      ensures usage == View().usage
    {
      m.usage
    }

    // The asserted order of the two counters holds, and their difference is the charge that callers
    // hold.
    function GetPinnedUsage(): (pinned: int)
      requires Ready(View())
      reads Memory()
      ensures var s := View();
              pinned == TotalHeld(s.entries, s.held, s.next) && 0 <= pinned <= s.usage
    {
      hide Inv;
      PinnedUsage(View());
      m.usage - m.list.lruUsage
    }

    // ---------- lookup, release, erase ----------

    method Lookup(key: Bytes, hash: Word) returns (e: LRUHandle?)
      requires Wired() && Ready(View())
      modifies Memory()
      ensures Wired() && Ready(View()) && m.live == old(m.live) && Memory() == old(Memory())
      ensures LruOps.Lookup(old(View()), Name(key, hash)) == Found(View(), if e == null then [] else [e.id])
      ensures e != null ==> m.Has(e)
    {
      hide LRUCacheShard.Wired, LRUCacheShard.View, LRUCacheShard.Memory, Core, LruShard.LruRemove;
      DoReady(View(), DoLookup(Name(key, hash)));
      e := TableLookup(key, hash);
      if e != null {
        TableFacts(View(), Name(key, hash));
        HandleIs(e);
        if e.refs == 1 {
          LruRemove(e);
          HandleIs(e);
        }
        Fields();
        SetCount(e, e.refs + 1, e.inCache);
        Fields();
        SetHeld(m.held + multiset{e.id});
      }
    }

    method TableLookup(key: Bytes, hash: Word) returns (found: LRUHandle?)
      requires Wired()
      ensures Wired() && View() == old(View()) && Memory() == old(Memory()) && m.live == old(m.live)
      ensures if Name(key, hash) in View().table
              then found != null && m.Has(found) && found.id == View().table[Name(key, hash)]
              else found == null
    {
      hide Cells.Wired, Cells.View;
      found := m.TableLookup(key, hash);
    }

    method Release(e: LRUHandle?)
      requires Wired() && Ready(View()) && (e != null ==> m.Has(e) && e.id in View().held)
      modifies Memory()
      ensures Wired() && Ready(View()) && Memory() <= old(Memory())
      ensures View() == if e == null then old(View()) else LruOps.Release(old(View()), e.id)
    {
      hide LRUCacheShard.Wired, LRUCacheShard.View, LRUCacheShard.Memory, Core, GiveBack, Settled;
      if e == null {
        return;
      }
      ghost var s := View();
      DoReady(s, DoRelease(e.id));
      HeldFacts(s, e.id);
      ListFacts(s);
      NotTabled(s, e.id);
      ReleaseIsSettled(s, e.id);
      var last := GiveHandleBack(e);
      HandleIs(e);
      Settle(e, last);
    }

    method GiveHandleBack(e: LRUHandle) returns (last: bool)
      requires Wired() && m.Has(e) && e.id in View().entries
      modifies Memory()
      ensures Wired() && m.Has(e) && Memory() == old(Memory())
      ensures View() == GiveBack(old(View()), e.id) && last == (old(View()).entries[e.id].refs - 1 == 0)
    {
      hide LRUCacheShard.Wired, LRUCacheShard.View, LRUCacheShard.Memory, GiveBack;
      Fields();
      SetHeld(m.held - multiset{e.id});
      last := Unref(e);
      GivenBack(old(View()), e.id, View());
    }

    method Settle(e: LRUHandle, gone: bool)
      requires Wired() && m.Has(e) && e.id in View().entries && e.id !in View().lru && Linked(View())
      requires var d := View().entries[e.id];
               && gone == (d.refs == 0) && (d.refs == 0 ==> !d.inCache) && d.name == e.Named()
               && (d.inCache <==> d.name in View().table && View().table[d.name] == e.id)
      modifies Memory()
      ensures Wired() && View() == Settled(old(View()), e.id) && Memory() <= old(Memory())
    {
      hide LRUCacheShard.Wired, LRUCacheShard.View, LRUCacheShard.Memory, LruShard.LruInsert;
      var last := gone;
      if last {
        AddUsage(0 - e.charge);
      }
      HandleIs(e);
      Fields();
      if e.refs == 1 && e.inCache {
        if m.usage > m.capacity {
          // The list must be empty since the cache is full.
          var _ := TableRemove(e.key, e.hash);
          var _ := Forget(e);
          AddUsage(0 - e.charge);
          last := true;
        } else {
          LruInsert(e);
        }
      }
      if last {
        Free(e);
      }
    }

    method Erase(key: Bytes, hash: Word)
      requires Wired() && Ready(View())
      modifies Memory()
      ensures Wired() && View() == LruOps.Erase(old(View()), Name(key, hash)) && Ready(View())
              && Memory() <= old(Memory())
    {
      hide LRUCacheShard.Wired, LRUCacheShard.View, LRUCacheShard.Memory, Core, Unlist, Discard;
      ghost var s, name := View(), Name(key, hash);
      DoReady(s, DoErase(name));
      var e := TableRemove(key, hash);
      if e == null {
        GoneAlready(s, name);
      } else {
        TableFacts(s, name);
        OffList(s, name);
        Detach(e, s);
      }
    }

    // The part of Erase for an entry that table_.Remove found.
    method Detach(e: LRUHandle, ghost s: Shard)
      requires Wired() && m.Has(e) && e.id in s.entries && View() == s.(table := s.table - {s.entries[e.id].name})
      requires s.entries[e.id].inCache && (s.entries[e.id].refs == 1 <==> e.id in s.lru)
      requires e.id in s.lru ==> e.id !in LruShard.LruRemove(s, e.id).lru
      modifies Memory()
      ensures Wired() && Memory() <= old(Memory())
      ensures View() == if s.entries[e.id].refs == 1 then Discard(s, e.id) else Unlist(s, e.id)
    {
      hide LRUCacheShard.Wired, LRUCacheShard.View, LRUCacheShard.Memory, LruShard.LruRemove, Discard;
      ghost var d := s.entries[e.id];
      HandleIs(e);
      var last := Unref(e);
      if last {
        AddUsage(0 - e.charge);
      }
      HandleIs(e);
      if last && e.inCache {
        RemoveCommutes(s, View(), e.id);
        LruRemove(e);
      }
      HandleIs(e);
      SetCount(e, e.refs, false);
      SetTwice(s, e.id, d.(refs := d.refs - 1), d.(refs := d.refs - 1, inCache := false));
      if last {
        ghost var u := View();
        Free(e);
        SetDrop(s.entries[e.id := d.(refs := 0)], e.id, d.(refs := 0, inCache := false));
        SetDrop(s.entries, e.id, d.(refs := 0));
        DiscardIs(s, e.id);
      }
    }

    // ---------- insert ----------

    // The new handle goes into the table first, then the replaced one is released, then the new one
    // is listed or handed out.
    method Insert(
      key: Bytes, hash: Word, charge: nat, wantHandle: bool, high: bool) returns (ok: bool, handle: LRUHandle?)
      requires Wired() && Ready(View())
      modifies Memory()
      ensures Wired() && Ready(View()) && fresh(Memory() - old(Memory()))
      ensures LruOps.Insert(old(View()), Name(key, hash), charge, wantHandle, high)
              == Inserted(View(), ok, if handle == null then [] else [handle.id])
      ensures handle != null ==> m.Has(handle)
    {
      hide LRUCacheShard.Wired, LRUCacheShard.View, LRUCacheShard.Memory, Core, LruShard.EvictFromLru, Displace,
           AddEntry;
      ghost var name := Name(key, hash);
      DoReady(View(), DoInsert(name, charge, wantHandle, high));
      ok, handle := true, null;
      Fields();
      var e := NewHandle(key, hash, charge, high, if wantHandle then 2 else 1, m.next);
      EvictFromLru(charge);
      ghost var r := View();
      Fields();
      if m.usage - m.list.lruUsage + charge > m.capacity && (m.strict || !wantHandle) {
        Discarded(e, !wantHandle);
        ok := !wantHandle;
      } else {
        ghost var before := Memory();
        label admitted:
        Admit(e, wantHandle);
        ghost var now := Memory();
        forall o | o in now && o !in before && o != e
          ensures fresh(o)
        {
          assert o in now - before - {e};
          assert fresh@admitted({o});
          assert !old@admitted(allocated(o));
          assert !old(allocated(o));
        }
        DisplaceInv(r, name);
        if wantHandle {
          handle := e;
        }
      }
    }

    method NewHandle(key: Bytes, hash: Word, charge: nat, high: bool, refs: int, ghost id: Id) returns (e: LRUHandle)
      requires Wired()
      ensures fresh(e) && e.Named() == Name(key, hash) && e.id == id && e.next == null && e.prev == null
      ensures EntryOf(e) == Entry(Name(key, hash), charge, refs, true, high, false)
      ensures Wired() && View() == old(View()) && Memory() == old(Memory()) && e !in Memory()
    {
      hide Cells.Wired, Cells.View;
      ghost var all := Memory();
      assert forall o :: o in all ==> allocated(o);
      e := new LRUHandle(key, hash, charge, high, refs, true, id);
      assert e !in all;
    }

    // The new handle enters the table and, unless it is handed out, the list.
    method Admit(e: LRUHandle, wantHandle: bool)
      requires Wired() && Inv(View()) && e.id == View().next && e !in Memory() && e.next == null && e.prev == null
      requires e.inCache && e.refs == if wantHandle then 2 else 1
      modifies Memory(), e
      ensures Wired() && m.Has(e) && fresh(Memory() - old(Memory()) - {e})
      ensures Inv(Displace(old(View()), e.Named()))
      ensures View() == AddEntry(Displace(old(View()), e.Named()), old(EntryOf(e)), wantHandle)
    {
      hide LRUCacheShard.Wired, LRUCacheShard.View, LRUCacheShard.Memory, Core, LruShard.LruInsert, Displace, Enter;
      ghost var r, x := View(), EntryOf(e);
      DisplaceInv(r, e.Named());
      PutEntry(e, wantHandle);
      EnterFacts(Displace(r, e.Named()), x, wantHandle);
      if !wantHandle {
        LruInsert(e);
      }
    }

    method Discarded(e: LRUHandle, deleter: bool)
      requires Wired() && e.id == View().next
      modifies Memory()
      ensures Wired() && Memory() == old(Memory())
      ensures var s := old(View());
              View() == s.(next := s.next + 1,
                           freed := if deleter then s.freed + [LruShard.Free(e.id, old(e.refs), old(e.inCache))]
                             else s.freed)
    {
      hide Cells.Wired, Cells.View;
      Within();
      Fields();
      m.Discarded(e, deleter);
    }

    method Adopt(e: LRUHandle, wantHandle: bool)
      requires Wired() && e.id == View().next && e.id !in View().entries && e !in Memory() && e.next == null
               && e.prev == null
      modifies Memory()
      ensures Wired() && m.Has(e) && Memory() == old(Memory()) + {e} && e.id !in View().lru
      ensures var s := old(View());
              View() == With(s, s.next, old(EntryOf(e))).(
                          next := s.next + 1, accepted := s.accepted[s.next := e.Named()],
                          held := if wantHandle then s.held + multiset{s.next} else s.held)
    {
      hide Cells.Wired, Cells.View;
      Within();
      Fields();
      m.Adopt(e, wantHandle);
      HandleIs(e);
    }

    // table_.Insert and what follows for the replaced entry.
    method PutEntry(e: LRUHandle, wantHandle: bool)
      requires Wired() && Inv(View()) && e.id == View().next && e !in Memory() && e.next == null && e.prev == null
      modifies Memory(), e
      ensures Wired() && m.Has(e) && fresh(Memory() - old(Memory()) - {e}) && e.id !in View().lru
              && e.id in View().entries
      ensures View() == Enter(Displace(old(View()), e.Named()), old(EntryOf(e)), wantHandle)
    {
      hide LRUCacheShard.Wired, LRUCacheShard.View, LRUCacheShard.Memory, Core, Replaced, Displace, Enter;
      ghost var s, d := View(), EntryOf(e);
      FreshId(s);
      var replaced := EnterHandle(e, wantHandle);
      if replaced != null {
        ReplacedAfter(s, d, wantHandle);
        ReplacedReady(s, d, wantHandle);
        ReleaseReplaced(replaced);
        DisplaceInv(s, d.name);
        FreshStays(s, d, wantHandle);
      } else {
        NothingReplaced(s, e.Named());
      }
    }

    method EnterHandle(e: LRUHandle, wantHandle: bool) returns (replaced: LRUHandle?)
      requires Wired() && Core(View()) && e.id == View().next && e !in Memory() && e.next == null && e.prev == null
      modifies Memory(), e
      ensures Wired() && m.Has(e) && fresh(Memory() - old(Memory()) - {e}) && e.id !in View().lru
              && e.id in View().entries
      ensures View() == Enter(old(View()), old(EntryOf(e)), wantHandle)
      ensures if e.Named() in old(View()).table
              then replaced != null && m.Has(replaced) && replaced.id == old(View()).table[e.Named()]
              else replaced == null
    {
      hide LRUCacheShard.Wired, LRUCacheShard.View, LRUCacheShard.Memory, Core;
      FreshId(View());
      TableBelowNext(View());
      Adopt(e, wantHandle);
      ghost var adopted := Memory();
      label before:
      replaced := TableInsert(e);
      ghost var now := Memory();
      assert fresh@before(now - adopted);
      forall o | o in now && o !in adopted
        ensures fresh(o)
      {
        assert o in now - adopted;
        assert fresh@before({o});
        assert !old@before(allocated(o));
        assert !old(allocated(o));
      }
      AddUsage(e.charge);
    }

    method ReleaseReplaced(x: LRUHandle)
      requires Wired() && m.Has(x) && x.id in View().entries && (View().entries[x.id].refs == 1 ==> x.id in View().lru)
      requires LruShard.Distinct(View().lru) && View().entries[x.id].name in View().table
      requires View().table[View().entries[x.id].name] != x.id
      modifies Memory()
      ensures Wired() && View() == Replaced(old(View()), x.id) && Memory() <= old(Memory())
      ensures forall id :: id in m.live ==> id in old(m.live) && m.live[id] == old(m.live)[id]
      ensures forall id :: id in old(m.live) && id != x.id ==> id in m.live
    {
      hide LRUCacheShard.Wired, LRUCacheShard.View, LRUCacheShard.Memory, LruShard.LruRemove;
      HandleIs(x);
      var last := Forget(x);
      if last {
        AddUsage(0 - x.charge);
        RemovedGone(View(), x.id);
        LruRemove(x);
        Free(x);
      }
    }

    // ---------- destruction ----------

    // The entries of the abstract table are the handles in the chains, with their counts and flags.
    ghost predicate Mirrors(s: Shard)
      reads m.table`nodes, m.table`contents, m.table.nodes`refs, m.table.nodes`inCache
    {
      && (forall x :: x in m.table.nodes ==>
            x.inCache && x.id in s.entries && s.entries[x.id].refs == x.refs && s.entries[x.id].inCache)
      && (forall x, y :: x in m.table.nodes && y in m.table.nodes && x.id == y.id ==> x == y)
      && (forall n :: n in s.table ==>
            n in m.table.contents && m.table.contents[n] in m.table.nodes && m.table.contents[n].id == s.table[n])
    }

    lemma NodesMirror()
      requires Wired() && Core(View())
      ensures Mirrors(View()) && forall x :: x in m.table.nodes ==> x.inCache
    {
      hide Cells.Wired, Core;
      m.NamedNodes();
      forall x | x in m.table.nodes
        ensures m.Has(x) && x.inCache && x.id in View().entries && View().entries[x.id] == EntryOf(x)
                && View().entries[x.id].inCache
      {
        NodeHas(x);
        HandleIs(x);
        TabledFlag(View(), x.Named());
      }
    }

    lemma NodeHas(x: LRUHandle)
      requires Wired() && x in m.table.nodes
      ensures m.Has(x)
    {
    }

    static lemma TabledFlag(s: Shard, n: Name)
      requires Core(s) && n in s.table
      ensures s.table[n] in s.entries && s.entries[s.table[n]].inCache
    {
    }

    lemma Records()
      ensures View().freed == m.freed && View().held == m.held && View().accepted == m.accepted
      ensures View().entries.Keys == m.live.Keys
    {
    }

    lemma FreedInOrder(s: Shard, freed: seq<LRUHandle>)
      requires Mirrors(s) && LRUHandleTable.Sole(freed, m.table.nodes)
      ensures LruPolicies.TableOrder(s, Numbers(freed))
      ensures LruPolicies.Destroy(s, Numbers(freed)) == s.freed + m.FreesOf(freed)
    {
      var order := Numbers(freed);
      forall i | 0 <= i < |freed|
        ensures freed[i] in m.table.nodes && freed[i].refs == 1
      {
        assert freed[i] in freed;
      }
      forall n | n in s.table && s.table[n] in s.entries && s.entries[s.table[n]].refs == 1
        ensures s.table[n] in order
      {
        var x := m.table.contents[n];
        assert x in freed;
        var i :| 0 <= i < |freed| && freed[i] == x;
        assert order[i] == s.table[n];
      }
    }

    // With no handle out, every entry is one of the table's with a single reference.
    static lemma NothingLeft(s: Shard, freed: seq<LRUHandle>)
      requires Inv(s) && LruPolicies.TableOrder(s, Numbers(freed)) && s.held == multiset{}
      ensures forall id :: id in s.entries ==> exists i :: 0 <= i < |freed| && freed[i].id == id
    {
      hide Listed, Summed, Latest, FreedOnce;
      var order := Numbers(freed);
      forall id | id in s.entries
        ensures exists i :: 0 <= i < |freed| && freed[i].id == id
      {
        assert s.held[id] == 0 && s.entries[id].inCache && s.table[s.entries[id].name] == id;
        assert id in order;
        var i :| 0 <= i < |order| && order[i] == id;
        assert freed[i].id == id;
      }
    }

    // The destructor frees the table's entries that nobody holds. No deleter call is repeated, none is
    // for a handle that is still out, and when all handles were released nothing stays allocated.
    method Destruct() returns (ghost order: seq<Id>)
      requires Wired() && Ready(View())
      modifies Memory()
      ensures LruPolicies.TableOrder(old(View()), order) && m.freed == LruPolicies.Destroy(old(View()), order)
      ensures forall i :: 0 <= i < |m.freed| ==> FreeAsserted(m.freed[i]) && m.freed[i].id !in m.held
      ensures forall i, j :: 0 <= i < j < |m.freed| ==> m.freed[i].id != m.freed[j].id
      ensures m.held == old(m.held) && m.accepted == old(m.accepted)
      ensures m.held == multiset{} ==>
                && m.live == map[]
                && forall id :: id in m.accepted ==> exists i :: 0 <= i < |m.freed| && m.freed[i].id == id
    {
      hide Cells.Wired, Cells.View, LruPolicies.TableOrder, LruPolicies.Destroy, Core, LRUCacheShard.Mirrors,
           LRUHandleTable.Sole, FreeAsserted;
      ghost var s := View();
      Records();
      NodesMirror();
      Within();
      var freed := m.Destruct();
      order := Numbers(freed);
      FreedInOrder(s, freed);
      LruPolicies.DestructionFreesAll(s, order);
      if m.held == multiset{} {
        NothingLeft(s, freed);
      }
    }
  }
}
