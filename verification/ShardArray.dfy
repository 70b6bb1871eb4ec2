/**
 The shards of a cache as objects with memory of their own (rutil/lru_cache.cc:408-428): a call on
 one of them leaves the others alone.
 */
module ShardArray {
  import opened LruShard
  import opened LruOps
  import opened LruRuns
  import opened LruHandle
  import opened LruShardClass
  import opened ShardedCache

  // A call on one shard; releasing takes a handle instead.
  method Call(shard: LRUCacheShard, op: Op) returns (ok: bool, e: LRUHandle?)
    requires shard.Wired() && Ready(shard.View()) && Allowed(shard.View(), op) && !op.DoRelease?
    modifies shard.Memory()
    ensures shard.Wired() && Ready(shard.View()) && fresh(shard.Memory() - old(shard.Memory()))
    ensures shard.View() == Do(old(shard.View()), op) && (e != null ==> shard.m.Has(e))
    ensures match op
            case DoInsert(name, charge, wantHandle, high) =>
              LruOps.Insert(old(shard.View()), name, charge, wantHandle, high)
              == Inserted(shard.View(), ok, if e == null then [] else [e.id])
            case DoLookup(name) =>
              LruOps.Lookup(old(shard.View()), name) == Found(shard.View(), if e == null then [] else [e.id])
            case _ => e == null
  {
    hide LRUCacheShard.Wired, LRUCacheShard.View, LRUCacheShard.Memory, Core, LruOps.Insert, LruOps.Lookup,
         LruOps.Erase,
         LruOps.SetCapacity, LruOps.SetRatio, LruOps.SetStrict, LruOps.EraseUnRefEntries;
    ok, e := true, null;
    if op.DoInsert? {
      ok, e := shard.Insert(op.name.key, op.name.hash, op.charge, op.wantHandle, op.high);
    } else if op.DoLookup? {
      e := shard.Lookup(op.name.key, op.name.hash);
    } else if op.DoErase? {
      shard.Erase(op.name.key, op.name.hash);
    } else if op.DoSetCapacity? {
      shard.SetCapacity(op.capacity);
    } else if op.DoSetStrict? {
      shard.SetStrictCapacityLimit(op.strict);
    } else if op.DoSetRatio? {
      shard.SetHighPriorityPoolRatio(op.ratio);
    } else {
      shard.EraseUnRefEntries();
    }
  }

  class Shards {
    const all: seq<LRUCacheShard>

    ghost function Roots(): set<object> {
      (set i | 0 <= i < |all| :: all[i].m as object) + (set i | 0 <= i < |all| :: all[i].m.table as object)
    }

    ghost function Memory(): set<object>
      reads Roots()
    {
      set i, o | 0 <= i < |all| && o in all[i].Memory() :: o
    }

    ghost predicate Apart()
      reads Roots()
    {
      forall i, j :: 0 <= i < j < |all| ==> all[i].Memory() !! all[j].Memory()
    }

    ghost predicate Wired()
      reads Roots(), Memory()
    {
      Apart() && forall i :: 0 <= i < |all| ==> all[i].Wired()
    }

    ghost function View(): (c: seq<Shard>)
      reads Roots(), Memory()
      ensures |c| == |all| && forall i :: 0 <= i < |c| ==> c[i] == all[i].View()
    {
      seq(|all|, i requires 0 <= i < |all| reads Roots(), Memory() => all[i].View())
    }

    method On(k: nat, op: Op) returns (ok: bool, e: LRUHandle?)
      requires Wired() && AllReady(View()) && k < |all| && Allowed(View()[k], op) && !op.DoRelease?
      modifies Memory()
      ensures Wired() && AllReady(View()) && fresh(Memory() - old(Memory()))
      ensures View() == Apply(old(View()), Step(k, op)) && (e != null ==> all[k].m.Has(e))
      ensures match op
              case DoInsert(name, charge, wantHandle, high) =>
                LruOps.Insert(old(View())[k], name, charge, wantHandle, high)
                == Inserted(View()[k], ok, if e == null then [] else [e.id])
              case DoLookup(name) => LruOps.Lookup(old(View())[k], name)
                == Found(View()[k], if e == null then [] else [e.id])
              case _ => e == null
    {
      hide LRUCacheShard.Wired, LRUCacheShard.View, LRUCacheShard.Memory, Ready, Do, LruOps.Insert, LruOps.Lookup;
      ghost var before, memory, mine := View(), Memory(), all[k].Memory();
      forall i | 0 <= i < |all|
        ensures all[i].m in all[i].Memory() && all[i].m.table in all[i].Memory()
        ensures forall o :: o in all[i].Memory() ==> allocated(o)
      {
        RootsInside(all[i]);
      }
      ok, e := Call(all[k], op);
      forall i | 0 <= i < |all| && i != k
        ensures all[i].Memory() == old(all[i].Memory()) && all[i].Wired() && all[i].View() == before[i]
        ensures all[i].Memory() !! all[k].Memory()
      {
        assert old(all[i].Memory()) !! mine;
      }
      assert View() == Apply(before, Step(k, op));
    }

    static lemma RootsInside(shard: LRUCacheShard)
      ensures shard.m in shard.Memory() && shard.m.table in shard.Memory()
      ensures forall o :: o in shard.Memory() ==> allocated(o)
    {
    }

    method Release(k: nat, e: LRUHandle)
      requires Wired() && AllReady(View()) && k < |all| && all[k].m.Has(e) && e.id in View()[k].held
      modifies Memory()
      ensures Wired() && AllReady(View()) && fresh(Memory() - old(Memory()))
      ensures View() == Apply(old(View()), Step(k, DoRelease(e.id)))
    {
      hide LRUCacheShard.Wired, LRUCacheShard.View, LRUCacheShard.Memory, Ready, LruOps.Release;
      ghost var before, memory, mine := View(), Memory(), all[k].Memory();
      forall i | 0 <= i < |all|
        ensures all[i].m in all[i].Memory() && all[i].m.table in all[i].Memory()
        ensures forall o :: o in all[i].Memory() ==> allocated(o)
      {
        RootsInside(all[i]);
      }
      all[k].Release(e);
      forall i | 0 <= i < |all| && i != k
        ensures all[i].Memory() == old(all[i].Memory()) && all[i].Wired() && all[i].View() == before[i]
        ensures all[i].Memory() !! all[k].Memory()
      {
        assert old(all[i].Memory()) !! mine;
      }
      assert View() == Apply(before, Step(k, DoRelease(e.id)));
    }

    // new LRUCacheShard[n].
    constructor (n: nat)
      ensures |all| == n && Wired() && View() == Empty(n) && fresh(Memory())
    {
      hide LRUCacheShard.Wired, LRUCacheShard.View, LRUCacheShard.Memory, Ready;
      var shards: seq<LRUCacheShard> := [];
      while |shards| < n
        invariant |shards| <= n
        invariant forall i :: 0 <= i < |shards| ==>
                  shards[i].Wired() && shards[i].View() == EMPTY && fresh(shards[i].Memory())
        invariant forall i :: 0 <= i < |shards| ==> forall o :: o in shards[i].Memory() ==> allocated(o)
        invariant forall i, j :: 0 <= i < j < |shards| ==> shards[i].Memory() !! shards[j].Memory()
      {
        var shard := new LRUCacheShard();
        shards := shards + [shard];
        forall i | 0 <= i < |shards|
          ensures forall o :: o in shards[i].Memory() ==> allocated(o)
        {
          RootsInside(shards[i]);
        }
      }
      all := shards;
    }

    method GetUsage() returns (usage: int)
      ensures usage == TotalUsage(View())
    {
      hide LRUCacheShard.View;
      usage := 0;
      var k := 0;
      while k < |all|
        invariant k <= |all| && usage == TotalUsage(View()[..k])
      {
        usage := usage + all[k].GetUsage();
        k := k + 1;
        assert View()[..k][..k - 1] == View()[..k - 1];
      }
      assert View()[..k] == View();
    }

    method GetPinnedUsage() returns (usage: int)
      requires AllReady(View())
      ensures usage == TotalPinned(View())
    {
      hide Ready, LRUCacheShard.View;
      usage := 0;
      var k := 0;
      while k < |all|
        invariant k <= |all| && usage == TotalPinned(View()[..k])
      {
        usage := usage + all[k].GetPinnedUsage();
        k := k + 1;
        assert View()[..k][..k - 1] == View()[..k - 1];
      }
      assert View()[..k] == View();
    }

    // The hash in a handle is that of its entry's name.
    lemma HandleName(k: nat, e: LRUHandle)
      requires k < |all| && all[k].Wired() && all[k].m.Has(e)
      ensures e.id in View()[k].entries && View()[k].entries[e.id].name == e.Named()
    {
      hide LRUCacheShard.Wired, LRUCacheShard.View, LRUCacheShard.Memory;
      all[k].HandleIs(e);
    }

    lemma RootsAllocated()
      ensures forall o :: o in Memory() ==> allocated(o)
      ensures forall o :: o in Roots() ==> allocated(o)
    {
      forall i | 0 <= i < |all|
        ensures forall o :: o in all[i].Memory() ==> allocated(o)
      {
        RootsInside(all[i]);
      }
    }
  }
}
