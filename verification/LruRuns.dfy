/**
 What holds of a cache shard in every run of its operations (rutil/lru_cache.cc,
 rutil/lru_cache.h:25-42): accounting, the life of an entry, deleter calls, capacity, the order of
 eviction and the two pools.
 */
module LruRuns {
  import opened LruShard
  import opened LruOps

  datatype Op =
    | DoInsert(name: Name, charge: nat, wantHandle: bool, high: bool)
    | DoLookup(name: Name)
    | DoRelease(id: Id)
    | DoErase(name: Name)
    | DoSetCapacity(capacity: nat)
    | DoSetStrict(strict: bool)
    | DoSetRatio(ratio: real)
    | DoEraseUnRef

  ghost predicate Ready(s: Shard) {
    Inv(s) && s.ratio >= 0.0
  }

  // Callers only release handles they hold, and pool ratios lie between 0 and 1.
  predicate Allowed(s: Shard, op: Op) {
    match op
    case DoRelease(id) => id in s.held
    case DoSetRatio(ratio) => 0.0 <= ratio <= 1.0
    case _ => true
  }

  function Do(s: Shard, op: Op): Shard
    requires Ready(s) && Allowed(s, op)
  {
    match op
    case DoInsert(name, charge, wantHandle, high) => Insert(s, name, charge, wantHandle, high).s
    case DoLookup(name) => Lookup(s, name).s
    case DoRelease(id) => Release(s, id)
    case DoErase(name) => Erase(s, name)
    case DoSetCapacity(capacity) => SetCapacity(s, capacity)
    case DoSetStrict(strict) => SetStrict(s, strict)
    case DoSetRatio(ratio) => SetRatio(s, ratio)
    case DoEraseUnRef => EraseUnRefEntries(s)
  }

  lemma DoReady(s: Shard, op: Op)
    requires Ready(s) && Allowed(s, op)
    ensures Ready(Do(s, op))
  {
    hide Core, Displace, EvictFromLru, EraseUnRefEntries, Discard, Unlist, LruRemove, LruInsert, MaintainPoolSize;
    match op
    case DoInsert(name, charge, wantHandle, high) =>
      InsertInv(s, name, charge, wantHandle, high);
      InsertSettings(s, name, charge, wantHandle, high);
    case DoLookup(name) => LookupInv(s, name);
    case DoRelease(id) =>
      ReleaseInv(s, id);
      ReleaseSettings(s, id);
    case DoErase(name) => DisplaceInv(s, name);
    case DoSetCapacity(capacity) =>
    case DoSetStrict(strict) => StrictReady(s, strict);
    case DoSetRatio(ratio) => SetRatioInv(s, ratio);
    case DoEraseUnRef => EraseSettings(s);
  }

  // Only the Set operations change the settings.
  predicate SameSettings(s: Shard, r: Shard) {
    r.capacity == s.capacity && r.strict == s.strict && r.ratio == s.ratio && r.highCapacity == s.highCapacity
  }

  lemma InsertSettings(s: Shard, name: Name, charge: nat, wantHandle: bool, high: bool)
    requires Inv(s)
    ensures SameSettings(s, Insert(s, name, charge, wantHandle, high).s)
  {
    hide Core, Displace, EvictFromLru, LruInsert;
    var r := EvictFromLru(s, charge);
    if !Rejects(r, charge, wantHandle) {
      DisplaceInv(r, name);
    }
  }

  lemma ReleaseSettings(s: Shard, id: Id)
    requires Inv(s) && id in s.held
    ensures SameSettings(s, Release(s, id))
    ensures Release(s, id).usage <= s.usage
  {
    HeldFacts(s, id);
    hide Core, LruInsert;
  }

  lemma StrictReady(s: Shard, strict: bool)
    requires Ready(s)
    ensures Ready(SetStrict(s, strict))
  {
    var r := SetStrict(s, strict);
    hide Sum, Total, Pools;
    StrictBooks(s, r);
  }

  lemma StrictBooks(s: Shard, r: Shard)
    requires Books(s) && r == s.(strict := r.strict)
    ensures Books(r)
  {
    BooksKept(s, r);
  }

  lemma {:induction false} EraseSettings(s: Shard)
    requires Core(s)
    ensures SameSettings(s, EraseUnRefEntries(s)) && EraseUnRefEntries(s).usage <= s.usage
    decreases |s.lru|
  {
    hide Core, LruRemove;
    if s.lru != [] {
      Unheld(s, s.lru[0]);
      DiscardCore(s, s.lru[0]);
      EraseSettings(Discard(s, s.lru[0]));
    }
  }

  // A run: every operation allowed in the state it is applied to.
  ghost predicate Reaches(s: Shard, ops: seq<Op>, t: Shard)
    requires Ready(s)
    decreases |ops|
  {
    if ops == [] then s == t
    else Allowed(s, ops[0]) && (DoReady(s, ops[0]); Reaches(Do(s, ops[0]), ops[1..], t))
  }

  lemma EmptyReady()
    ensures Ready(EMPTY)
  {
  }

  lemma {:induction false} RunReady(s: Shard, ops: seq<Op>, t: Shard)
    requires Ready(s) && Reaches(s, ops, t)
    ensures Ready(t)
    decreases |ops|
  {
    hide Ready, Do;
    if ops != [] {
      DoReady(s, ops[0]);
      RunReady(Do(s, ops[0]), ops[1..], t);
    }
  }

  // ---------- accounting ----------

  // The charge of the entries that callers hold handles of.
  function TotalHeld(entries: map<Id, Entry>, held: multiset<Id>, n: nat): nat {
    if n == 0 then 0
    else TotalHeld(entries, held, n - 1) + if n - 1 in held then ChargeOf(entries, n - 1) else 0
  }

  // The charge of the entries on a list, in order of allocation.
  function TotalOf(entries: map<Id, Entry>, ids: seq<Id>, n: nat): nat {
    if n == 0 then 0
    else TotalOf(entries, ids, n - 1) + if n - 1 in ids then ChargeOf(entries, n - 1) else 0
  }

  lemma {:induction false} TotalOfSplit(entries: map<Id, Entry>, ids: seq<Id>, n: nat)
    requires ids != [] && ids[0] !in ids[1..]
    ensures TotalOf(entries, ids, n) ==
            TotalOf(entries, ids[1..], n) + if ids[0] < n then ChargeOf(entries, ids[0]) else 0
  {
    if n > 0 {
      TotalOfSplit(entries, ids, n - 1);
    }
  }

  lemma {:induction false} SumIsTotalOf(entries: map<Id, Entry>, ids: seq<Id>, n: nat)
    requires Distinct(ids) && forall i :: 0 <= i < |ids| ==> ids[i] < n
    ensures Sum(entries, ids) == TotalOf(entries, ids, n)
  {
    if ids == [] {
      NoneTotal(entries, n);
    } else {
      TotalOfSplit(entries, ids, n);
      SumIsTotalOf(entries, ids[1..], n);
    }
  }

  lemma {:induction false} NoneTotal(entries: map<Id, Entry>, n: nat)
    ensures TotalOf(entries, [], n) == 0
  {
    if n > 0 {
      NoneTotal(entries, n - 1);
    }
  }

  lemma {:induction false} HeldOrListed(s: Shard, n: nat)
    requires Inv(s)
    ensures Total(s.entries, n) == TotalOf(s.entries, s.lru, n) + TotalHeld(s.entries, s.held, n)
  {
    if n > 0 {
      HeldOrListed(s, n - 1);
      var id := n - 1;
      if id in s.entries {
        assert id in s.lru <==> id !in s.held;
      }
    }
  }

  // GetPinnedUsage is exactly the charge that callers hold.
  lemma PinnedUsage(s: Shard)
    requires Inv(s)
    ensures s.usage - s.lruUsage == TotalHeld(s.entries, s.held, s.next)
    ensures 0 <= s.lruUsage <= s.usage
  {
    HeldOrListed(s, s.next);
    assert forall i :: 0 <= i < |s.lru| ==> s.lru[i] in s.entries;
    SumIsTotalOf(s.entries, s.lru, s.next);
  }

  // The three states an allocated entry can be in.
  predicate PinnedInTable(s: Shard, id: Id)
    requires id in s.entries
  {
    s.entries[id].inCache && s.entries[id].refs > 1
  }

  predicate Evictable(s: Shard, id: Id)
    requires id in s.entries
  {
    s.entries[id].inCache && s.entries[id].refs == 1
  }

  predicate PinnedOnly(s: Shard, id: Id)
    requires id in s.entries
  {
    !s.entries[id].inCache && s.entries[id].refs >= 1
  }

  // Each allocated entry is in exactly one of them; the state says whether it is in the table, on
  // the list and held.
  lemma ThreeStates(s: Shard, id: Id)
    requires Inv(s) && id in s.entries
    ensures PinnedInTable(s, id) || Evictable(s, id) || PinnedOnly(s, id)
    ensures PinnedOnly(s, id) <==> !(s.entries[id].name in s.table && s.table[s.entries[id].name] == id)
    ensures Evictable(s, id) <==> id in s.lru
    ensures Evictable(s, id) <==> id !in s.held
  {
  }

  // ---------- lookups ----------

  lemma LookupReturnsLatest(s: Shard, name: Name)
    requires Inv(s)
    ensures var f := Lookup(s, name);
            if name in s.table
            then |f.handle| == 1 && f.handle[0] in f.s.held && f.handle[0] in s.accepted
              && s.accepted[f.handle[0]] == name
                 && (forall id :: id in s.accepted && s.accepted[id] == name ==> id <= f.handle[0])
            else f.handle == []
  {
  }

  // After an Insert that returned OK, the new entry is found, exactly unless the insert was
  // dropped for lack of room; then an older entry of that name can still be there.
  lemma InsertThenLookup(s: Shard, name: Name, charge: nat, wantHandle: bool, high: bool)
    requires Inv(s)
    ensures var i := Insert(s, name, charge, wantHandle, high);
            var r := EvictFromLru(s, charge);
            && Inv(i.s)
            && (Lookup(i.s, name).handle == [s.next] <==> !Rejects(r, charge, wantHandle))
            && (Rejects(r, charge, wantHandle) ==> i.s.table == r.table)
  {
    InsertInv(s, name, charge, wantHandle, high);
    var i := Insert(s, name, charge, wantHandle, high);
    var r := EvictFromLru(s, charge);
    hide EvictFromLru, LruRemove, LruInsert;
    if Rejects(r, charge, wantHandle) {
      TableBelowNext(r);
    } else {
      DisplaceInv(r, name);
    }
  }

  lemma TableBelowNext(s: Shard)
    requires Core(s)
    ensures forall n :: n in s.table ==> s.table[n] < s.next
  {
  }

  // ---------- eviction ----------

  // k entries are taken from the old end of the list, as few as make room for `charge`.
  ghost predicate ShortestPrefix(s: Shard, charge: nat, k: nat) {
    && k <= |s.lru|
    && (k < |s.lru| ==> s.usage - Sum(s.entries, s.lru[..k]) + charge <= s.capacity)
    && (forall j :: 0 <= j < k ==> s.usage - Sum(s.entries, s.lru[..j]) + charge > s.capacity)
  }

  function FreedIds(freed: seq<Free>): seq<Id> {
    if freed == [] then [] else FreedIds(freed[..|freed| - 1]) + [freed[|freed| - 1].id]
  }

  lemma DiscardOldest(s: Shard)
    requires Core(s) && s.lru != []
    ensures s.lru[0] in s.entries
    ensures var r := Discard(s, s.lru[0]);
            && r.lru == s.lru[1..] && r.low == (if s.low > 0 then s.low - 1 else 0)
            && r.usage == s.usage - s.entries[s.lru[0]].charge && r.capacity == s.capacity
            && r.entries == s.entries - {s.lru[0]}
            && FreedIds(r.freed) == FreedIds(s.freed) + [s.lru[0]]
  {
    Unheld(s, s.lru[0]);
    var r := Discard(s, s.lru[0]);
    assert IndexOf(s.lru, s.lru[0]) == 0;
    assert r.freed[..|r.freed| - 1] == s.freed;
  }

  // Eviction frees the shortest oldest-first prefix of the list that makes enough room, or all of
  // it. In particular no high-pool entry goes while a low-pool one stays.
  lemma {:induction false} EvictsShortestPrefix(s: Shard, charge: nat) returns (k: nat)
    requires Core(s)
    ensures ShortestPrefix(s, charge, k)
    ensures var r := EvictFromLru(s, charge);
            && r.lru == s.lru[k..] && FreedIds(r.freed) == FreedIds(s.freed) + s.lru[..k]
            && r.usage == s.usage - Sum(s.entries, s.lru[..k])
            && r.low == (if k < s.low then s.low - k else 0)
            && r.entries.Keys <= s.entries.Keys && (forall id :: id in r.entries ==> r.entries[id] == s.entries[id])
    decreases |s.lru|
  {
    hide Core, Discard, EvictFromLru, Sum;
    EvictUnfold(s, charge);
    if s.usage + charge > s.capacity && s.lru != [] {
      DiscardOldest(s);
      DiscardCore(s, s.lru[0]);
      var r := Discard(s, s.lru[0]);
      var n := EvictsShortestPrefix(r, charge);
      k := n + 1;
      ShorterByOne(s, r, charge, n);
      assert s.lru[..k] == [s.lru[0]] + r.lru[..n];
      assert s.lru[k..] == r.lru[n..];
    } else {
      k := 0;
      assert s.lru[..0] == [] && s.lru[0..] == s.lru;
      SumNone(s.entries, s.lru[..0]);
      NothingToEvict(s, charge);
    }
  }

  lemma EvictUnfold(s: Shard, charge: nat)
    requires Core(s)
    ensures EvictFromLru(s, charge) ==
            if s.usage + charge > s.capacity && s.lru != [] then
              Unheld(s, s.lru[0]); DiscardCore(s, s.lru[0]); EvictFromLru(Discard(s, s.lru[0]), charge)
            else s
  {
    hide Core, Discard;
  }

  lemma NothingToEvict(s: Shard, charge: nat)
    requires s.usage + charge <= s.capacity || s.lru == []
    ensures ShortestPrefix(s, charge, 0)
  {
    assert s.lru[..0] == [];
  }

  lemma ShorterByOne(s: Shard, r: Shard, charge: nat, n: nat)
    requires Core(s) && s.lru != [] && s.lru[0] in s.entries && s.usage + charge > s.capacity
    requires r.lru == s.lru[1..] && r.usage == s.usage - s.entries[s.lru[0]].charge && r.capacity == s.capacity
    requires r.entries == s.entries - {s.lru[0]}
    requires ShortestPrefix(r, charge, n)
    ensures ShortestPrefix(s, charge, n + 1)
    ensures r.usage - Sum(r.entries, r.lru[..n]) == s.usage - Sum(s.entries, s.lru[..n + 1])
  {
    hide Books, Summed;
    forall j | 0 <= j <= n
      ensures r.usage - Sum(r.entries, r.lru[..j]) == s.usage - Sum(s.entries, s.lru[..j + 1])
    {
      PrefixSum(s, r, j);
    }
    forall j | 0 <= j < n + 1
      ensures s.usage - Sum(s.entries, s.lru[..j]) + charge > s.capacity
    {
      if j == 0 {
        assert s.lru[..0] == [];
      } else {
        assert r.usage - Sum(r.entries, r.lru[..j - 1]) == s.usage - Sum(s.entries, s.lru[..j]);
      }
    }
  }

  lemma PrefixSum(s: Shard, r: Shard, j: nat)
    requires Listed(s) && s.lru != [] && s.lru[0] in s.entries && j < |s.lru|
    requires r.lru == s.lru[1..] && r.usage == s.usage - s.entries[s.lru[0]].charge
             && r.entries == s.entries - {s.lru[0]}
    ensures r.usage - Sum(r.entries, r.lru[..j]) == s.usage - Sum(s.entries, s.lru[..j + 1])
  {
    assert s.lru[..j + 1][1..] == r.lru[..j];
    forall i | 0 <= i < j
      ensures ChargeOf(r.entries, r.lru[..j][i]) == ChargeOf(s.entries, r.lru[..j][i])
    {
      assert r.lru[i] == s.lru[i + 1] != s.lru[0];
    }
    SumSame(r.entries, s.entries, r.lru[..j]);
  }

  // ---------- capacity ----------

  // What does not raise usage or change the settings keeps the limit; an insert checks it.
  lemma InsertWithinCapacity(s: Shard, name: Name, charge: nat, wantHandle: bool, high: bool)
    requires Inv(s) && s.usage <= s.capacity && s.strict
    ensures Insert(s, name, charge, wantHandle, high).s.usage <= s.capacity
  {
    hide Core, Displace, EvictFromLru, LruInsert;
    var r := EvictFromLru(s, charge);
    var k := EvictsShortestPrefix(s, charge);
    EmptyList(r);
    if !Rejects(r, charge, wantHandle) {
      DisplaceInv(r, name);
    }
  }

  lemma LookupSettings(s: Shard, name: Name)
    requires Inv(s)
    ensures SameSettings(s, Lookup(s, name).s) && Lookup(s, name).s.usage == s.usage
  {
    hide LruRemove;
  }

  // The strict limit stays on and the capacity is never lowered.
  predicate NeverLoosened(s: Shard, op: Op) {
    match op
    case DoSetCapacity(capacity) => capacity >= s.capacity
    case DoSetStrict(strict) => strict
    case _ => true
  }

  lemma DoWithinCapacity(s: Shard, op: Op)
    requires Ready(s) && Allowed(s, op) && NeverLoosened(s, op) && s.strict && s.usage <= s.capacity
    ensures Ready(Do(s, op)) && Do(s, op).strict && Do(s, op).usage <= Do(s, op).capacity
            && Do(s, op).capacity >= s.capacity
  {
    hide Core, Displace, EvictFromLru, EraseUnRefEntries, Release, Lookup, Insert, MaintainPoolSize;
    DoReady(s, op);
    match op
    case DoInsert(name, charge, wantHandle, high) =>
      InsertWithinCapacity(s, name, charge, wantHandle, high);
      InsertSettings(s, name, charge, wantHandle, high);
    case DoLookup(name) => LookupSettings(s, name);
    case DoRelease(id) => ReleaseSettings(s, id);
    case DoErase(name) => DisplaceInv(s, name);
    case DoSetCapacity(capacity) =>
      RaisedCapacity(s, capacity);
    case DoSetStrict(strict) =>
    case DoSetRatio(ratio) =>
    case DoEraseUnRef => EraseSettings(s);
  }

  lemma RaisedCapacity(s: Shard, capacity: nat)
    requires Ready(s) && s.usage <= s.capacity <= capacity
    ensures SetCapacity(s, capacity).usage <= capacity && SetCapacity(s, capacity).capacity == capacity
    ensures SetCapacity(s, capacity).strict == s.strict
  {
    hide Core, EvictFromLru;
    var m := s.(capacity := capacity, highCapacity := PoolCapacity(capacity, s.ratio));
    SameCore(s, m);
    var k := EvictsShortestPrefix(m, 0);
  }

  ghost predicate TightRun(s: Shard, ops: seq<Op>, t: Shard)
    requires Ready(s)
    decreases |ops|
  {
    if ops == [] then s == t
    else Allowed(s, ops[0]) && NeverLoosened(s, ops[0]) && (DoReady(s, ops[0]); TightRun(Do(s, ops[0]), ops[1..], t))
  }

  // With the strict limit on throughout and the capacity never lowered, usage stays within it.
  lemma {:induction false} StrictLimitHolds(s: Shard, ops: seq<Op>, t: Shard)
    requires Ready(s) && s.strict && s.usage <= s.capacity && TightRun(s, ops, t)
    ensures t.usage <= t.capacity && t.strict && t.capacity >= s.capacity
    decreases |ops|
  {
    hide Ready, Do;
    if ops != [] {
      DoWithinCapacity(s, ops[0]);
      StrictLimitHolds(Do(s, ops[0]), ops[1..], t);
    }
  }
}
