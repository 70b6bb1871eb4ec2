/**
 The cache object (rutil/sharded_cache.cc, rutil/lru_cache.cc:408-440): it routes keys and handles
 to shards, and passes settings on to all of them. Its methods make the steps of module
 ShardedCache, so what is proved of runs there holds of this object.
 */
module ShardedCacheClass {
  import opened Coding
  import opened LruShard
  import opened LruOps
  import opened LruRuns
  import opened LruHandle
  import opened ShardedCache
  import opened ShardArray

  class Cache {
    const hash: Hasher
    const bits: nat
    const shards: Shards
    var capacity: nat
    var strict: bool

    ghost function Memory(): set<object>
      reads shards.Roots()
    {
      shards.Memory()
    }

    ghost function View(): (c: seq<Shard>)
      reads shards.Roots(), Memory()
      ensures |c| == |shards.all|
    {
      shards.View()
    }

    ghost predicate Valid()
      reads shards.Roots(), Memory()
    {
      && bits < 20 && |shards.all| == Pow2(bits)
      && shards.Wired() && AllReady(View()) && AllHomed(hash, bits, View())
    }

    // The cache's own fields are not part of the shards.
    lemma Outside()
      ensures this !in Memory() && this !in shards.Roots()
    {
    }

    lemma RouteInRange(h: Word)
      requires Valid()
      ensures ShardOf(h, bits) < |shards.all|
    {
      hide Shards.Wired, AllReady, AllHomed;
      ShardIsInterval(h, bits, 0);
    }

    constructor (hash: Hasher, capacity: nat, bits: nat, strict: bool, ratio: real)
      requires bits < 20 && 0.0 <= ratio <= 1.0
      ensures Valid() && this.hash == hash && this.bits == bits && this.capacity == capacity && this.strict == strict
      ensures AllReady(Empty(|shards.all|)) && fresh(Memory())
      ensures View() == NewCache(Empty(|shards.all|), capacity, strict, ratio)
    {
      hide Shards.Wired, Shards.View, Shards.Memory, Ready, AllHomed, Do, Sweep;
      var n := Pow2(bits);
      EmptyHomed(hash, bits, n);
      this.hash, this.bits, this.capacity, this.strict := hash, bits, capacity, strict;
      var s := new Shards(n);
      shards := s;
      ghost var memory := s.Memory();
      s.RootsAllocated();
      assert forall o :: o in memory ==> allocated(o);
      new;
      Outside();
      label made:
      Configure(capacity, strict, ratio);
      ghost var last := Memory();
      forall o | o in last
        ensures fresh(o)
      {
        if o !in memory {
          assert o in last - memory && fresh@made({o});
          assert !old@made(allocated(o)) && !old(allocated(o));
        }
      }
    }

    // The settings that the constructor makes.
    method Configure(capacity: nat, strict: bool, ratio: real)
      requires Valid() && 0.0 <= ratio <= 1.0
      modifies this, Memory()
      ensures Valid() && this.capacity == capacity && this.strict == strict && fresh(Memory() - old(Memory()))
      ensures View() == NewCache(old(View()), capacity, strict, ratio)
    {
      hide Shards.Wired, Shards.View, Shards.Memory, Ready, AllHomed, Do, Sweep;
      Outside();
      ghost var first := Memory();
      SetCapacity(capacity);
      Outside();
      ghost var second := Memory();
      label strictly:
      SetStrictCapacityLimit(strict);
      Outside();
      ghost var third := Memory();
      label ratios:
      SetRatio(ratio);
      ghost var last := Memory();
      forall o | o in last && o !in first
        ensures fresh(o)
      {
        if o !in third {
          assert o in last - third && fresh@ratios({o});
          assert !old@ratios(allocated(o)) && !old(allocated(o));
        } else if o !in second {
          assert o in third - second && fresh@strictly({o});
          assert !old@strictly(allocated(o)) && !old(allocated(o));
        } else {
          assert o in second - first;
        }
      }
    }

    // The loops over the shards.
    method OnAll(op: Op)
      requires Valid() && Global(op)
      modifies Memory()
      ensures Valid() && View() == Sweep(old(View()), |shards.all|, op) && fresh(Memory() - old(Memory()))
    {
      hide Shards.Wired, Shards.View, Shards.Memory, Ready, AllHomed, Apply, Do;
      ghost var c := View();
      SweepHomed(hash, bits, c, |shards.all|, op);
      var k := 0;
      while k < |shards.all|
        invariant k <= |shards.all| && shards.Wired() && View() == Sweep(c, k, op)
        invariant fresh(Memory() - old(Memory()))
      {
        ghost var before := Memory();
        label call:
        var _, _ := shards.On(k, op);
        ghost var now := Memory();
        forall o | o in now && o !in before
          ensures fresh(o)
        {
          assert o in now - before;
          assert fresh@call({o});
          assert !old@call(allocated(o));
          assert !old(allocated(o));
        }
        k := k + 1;
      }
    }

    method SetCapacity(capacity: nat)
      requires Valid()
      modifies this, Memory()
      ensures Valid() && this.capacity == capacity && strict == old(strict) && fresh(Memory() - old(Memory()))
      ensures View() == Sweep(old(View()), |shards.all|, DoSetCapacity(PerShard(capacity, |shards.all|)))
    {
      hide Shards.Wired, Shards.View, Shards.Memory, AllReady, AllHomed, Sweep;
      Outside();
      OnAll(DoSetCapacity(PerShard(capacity, |shards.all|)));
      Outside();
      this.capacity := capacity;
    }

    method SetStrictCapacityLimit(strict: bool)
      requires Valid()
      modifies this, Memory()
      ensures Valid() && this.strict == strict && capacity == old(capacity) && fresh(Memory() - old(Memory()))
      ensures View() == Sweep(old(View()), |shards.all|, DoSetStrict(strict))
    {
      hide Shards.Wired, Shards.View, Shards.Memory, AllReady, AllHomed, Sweep;
      Outside();
      OnAll(DoSetStrict(strict));
      Outside();
      this.strict := strict;
    }

    method SetRatio(ratio: real)
      requires Valid() && 0.0 <= ratio <= 1.0
      modifies Memory()
      ensures Valid() && View() == Sweep(old(View()), |shards.all|, DoSetRatio(ratio))
              && fresh(Memory() - old(Memory()))
    {
      OnAll(DoSetRatio(ratio));
    }

    method EraseUnRefEntries()
      requires Valid()
      modifies Memory()
      ensures Valid() && View() == Sweep(old(View()), |shards.all|, DoEraseUnRef) && fresh(Memory() - old(Memory()))
    {
      OnAll(DoEraseUnRef);
    }

    method Insert(key: Bytes, charge: nat, wantHandle: bool, high: bool) returns (ok: bool, e: LRUHandle?)
      requires Valid()
      modifies Memory()
      ensures Valid() && fresh(Memory() - old(Memory())) && ShardOf(hash(key), bits) < |shards.all|
      ensures var k := ShardOf(hash(key), bits);
              && View() == old(View())[k := View()[k]] && (e != null ==> shards.all[k].m.Has(e))
              && LruOps.Insert(old(View())[k], Name(key, hash(key)), charge, wantHandle, high)
                 == Inserted(View()[k], ok, if e == null then [] else [e.id])
    {
      hide Shards.Wired, Shards.View, Shards.Memory, Ready, Homed, ShardOf, LruOps.Insert;
      var h := hash(key);
      RouteInRange(h);
      var op := DoInsert(Name(key, h), charge, wantHandle, high);
      ApplyHomed(hash, bits, View(), Step(ShardOf(h, bits), op));
      ok, e := shards.On(ShardOf(h, bits), op);
    }

    method Lookup(key: Bytes) returns (e: LRUHandle?)
      requires Valid()
      modifies Memory()
      ensures Valid() && fresh(Memory() - old(Memory())) && ShardOf(hash(key), bits) < |shards.all|
      ensures var k := ShardOf(hash(key), bits);
              && View() == old(View())[k := View()[k]] && (e != null ==> shards.all[k].m.Has(e))
              && LruOps.Lookup(old(View())[k], Name(key, hash(key)))
                == Found(View()[k], if e == null then [] else [e.id])
      ensures (exists i, h :: 0 <= i < |shards.all| && Name(key, h) in old(View())[i].table) <==> e != null
    {
      hide Shards.Wired, Shards.View, Shards.Memory, Ready, Homed, ShardOf, LruOps.Lookup;
      var h := hash(key);
      RouteInRange(h);
      var k, name := ShardOf(h, bits), Name(key, h);
      OnlyHome(key);
      FoundOnlyIfThere(View()[k], name);
      ApplyHomed(hash, bits, View(), Step(k, DoLookup(name)));
      var _, found := shards.On(k, DoLookup(name));
      e := found;
    }

    // The shard is found from the hash in the handle; it is the one that the handle came from.
    method Release(e: LRUHandle, ghost origin: nat)
      requires Valid() && origin < |shards.all| && shards.all[origin].Wired() && shards.all[origin].m.Has(e)
      requires e.id in View()[origin].held
      modifies Memory()
      ensures Valid() && fresh(Memory() - old(Memory()))
      ensures Ready(old(View())[origin]) && View() == old(View())[origin := LruOps.Release(old(View())[origin], e.id)]
    {
      hide Shards.Wired, Shards.View, Shards.Memory, ShardOf, Core, LruOps.Release;
      HomedNames(hash, bits, origin, View()[origin]);
      shards.HandleName(origin, e);
      ApplyHomed(hash, bits, View(), Step(origin, DoRelease(e.id)));
      shards.Release(ShardOf(e.hash, bits), e);
    }

    method Erase(key: Bytes)
      requires Valid()
      modifies Memory()
      ensures Valid() && fresh(Memory() - old(Memory())) && ShardOf(hash(key), bits) < |shards.all|
      ensures forall i, h :: 0 <= i < |shards.all| ==> Name(key, h) !in View()[i].table
      ensures var k := ShardOf(hash(key), bits);
              Ready(old(View())[k]) && View() == old(View())[k := LruOps.Erase(old(View())[k], Name(key, hash(key)))]
    {
      hide Shards.Wired, Shards.View, Shards.Memory, ShardOf, Core, LruOps.Erase;
      var h := hash(key);
      RouteInRange(h);
      var k := ShardOf(h, bits);
      ApplyHomed(hash, bits, View(), Step(k, DoErase(Name(key, h))));
      var _, _ := shards.On(k, DoErase(Name(key, h)));
      ErasedFrom(old(View())[k], Name(key, h));
      OnlyHome(key);
    }

    method GetUsage() returns (usage: int)
      ensures usage == TotalUsage(View())
    {
      usage := shards.GetUsage();
    }

    method GetPinnedUsage() returns (usage: int)
      requires AllReady(View())
      ensures usage == TotalPinned(View())
    {
      usage := shards.GetPinnedUsage();
    }

    // No other shard's table has the key, under any hash.
    lemma OnlyHome(key: Bytes)
      requires Valid()
      ensures forall i, h :: 0 <= i < |shards.all| && Name(key, h) in View()[i].table ==>
              h == hash(key) && i == ShardOf(h, bits)
    {
      hide Shards.Wired, Shards.View, Shards.Memory, Ready, Homed, ShardOf;
      forall i | 0 <= i < |shards.all|
        ensures forall h :: Name(key, h) in View()[i].table ==> h == hash(key) && i == ShardOf(h, bits)
      {
        HomedNames(hash, bits, i, View()[i]);
      }
    }
  }
}
