/**
 One shard of the LRU cache (rutil/lru_cache.cc, rutil/lru_cache.h): reference counts, the hash
 table as a map, the two-pool LRU list as a sequence, usage counters, eviction and deleter calls.
 Pointers to entries are allocation numbers here; the pointer structures themselves are the
 subject of LruTable.dfy and LruList.dfy.
 */
module LruShard {
  import opened Coding

  type Id = nat
  datatype Name = Name(key: Bytes, hash: Word)

  datatype Entry = Entry(
    name: Name,
    charge: nat,
    refs: int,
    inCache: bool,
    highPri: bool,
    inHighPool: bool)

  // A deleter call, with the reference count and flag that Free asserts about.
  datatype Free = Free(id: Id, refs: int, inCache: bool)

  datatype Shard = Shard(
    entries: map<Id, Entry>,      // the allocated handles
    table: map<Name, Id>,         // table_
    lru: seq<Id>,                 // the list from lru_.next (oldest) to lru_.prev (newest)
    low: nat,                     // how many of its entries lie up to lru_low_pri_
    usage: int,
    lruUsage: int,
    highUsage: int,               // high_pri_pool_usage_
    capacity: nat,
    strict: bool,
    ratio: real,
    highCapacity: real,
    next: Id,                     // the next allocation number
    freed: seq<Free>,             // deleter calls so far
    held: multiset<Id>,           // handles that callers have not released yet
    accepted: map<Id, Name>)      // everything that ever entered the table

  const EMPTY: Shard := Shard(map[], map[], [], 0, 0, 0, 0, 0, false, 0.0, 0.0, 0, [], multiset{}, map[])

  // ---------- charges ----------

  function ChargeOf(entries: map<Id, Entry>, id: Id): nat {
    if id in entries then entries[id].charge else 0
  }

  function Sum(entries: map<Id, Entry>, ids: seq<Id>): nat {
    if ids == [] then 0 else ChargeOf(entries, ids[0]) + Sum(entries, ids[1..])
  }

  // The charge of all allocated entries with a number below n.
  function Total(entries: map<Id, Entry>, n: nat): nat {
    if n == 0 then 0 else Total(entries, n - 1) + ChargeOf(entries, n - 1)
  }

  lemma {:induction false} SumConcat(entries: map<Id, Entry>, a: seq<Id>, b: seq<Id>)
    ensures Sum(entries, a + b) == Sum(entries, a) + Sum(entries, b)
  {
    if a == [] {
      assert a + b == b;
    } else {
      assert (a + b)[1..] == a[1..] + b;
      SumConcat(entries, a[1..], b);
    }
  }

  lemma {:induction false} SumSame(entries: map<Id, Entry>, entries': map<Id, Entry>, ids: seq<Id>)
    requires forall i :: 0 <= i < |ids| ==> ChargeOf(entries, ids[i]) == ChargeOf(entries', ids[i])
    ensures Sum(entries, ids) == Sum(entries', ids)
  {
    if ids != [] {
      SumSame(entries, entries', ids[1..]);
    }
  }

  lemma SumNone(entries: map<Id, Entry>, ids: seq<Id>)
    requires ids == []
    ensures Sum(entries, ids) == 0
  {
  }

  lemma SumOne(entries: map<Id, Entry>, id: Id)
    ensures Sum(entries, [id]) == ChargeOf(entries, id)
  {
    assert [id][1..] == [];
  }

  function Without(ids: seq<Id>, k: nat): (r: seq<Id>)
    requires k < |ids|
    ensures |r| == |ids| - 1
  {
    ids[..k] + ids[k + 1..]
  }

  // Taking the k-th id out of a list.
  lemma SumWithout(entries: map<Id, Entry>, ids: seq<Id>, k: nat)
    requires k < |ids|
    ensures Sum(entries, Without(ids, k)) == Sum(entries, ids) - ChargeOf(entries, ids[k])
  {
    assert ids == ids[..k] + ([ids[k]] + ids[k + 1..]);
    SumConcat(entries, ids[..k], [ids[k]] + ids[k + 1..]);
    SumConcat(entries, [ids[k]], ids[k + 1..]);
    SumConcat(entries, ids[..k], ids[k + 1..]);
    SumOne(entries, ids[k]);
  }

  lemma {:induction false} TotalSet(entries: map<Id, Entry>, id: Id, e: Entry, n: nat)
    ensures Total(entries[id := e], n) == Total(entries, n) + if id < n then e.charge - ChargeOf(entries, id) else 0
  {
    if n > 0 {
      TotalSet(entries, id, e, n - 1);
    }
  }

  lemma {:induction false} TotalDrop(entries: map<Id, Entry>, id: Id, n: nat)
    ensures Total(entries - {id}, n) == Total(entries, n) - if id < n then ChargeOf(entries, id) else 0
  {
    if n > 0 {
      TotalDrop(entries, id, n - 1);
    }
  }

  // ---------- the invariant ----------

  // An entry has one reference per outstanding handle, and one for the table while it is in it.
  ghost predicate Counted(s: Shard) {
    && (forall id :: id in s.entries ==>
          && id < s.next
          && s.entries[id].refs == s.held[id] + (if s.entries[id].inCache then 1 else 0)
          && s.entries[id].refs >= 1)
    && (forall id :: id in s.held ==> id in s.entries)
  }

  // The table holds exactly the entries whose InCache flag is set, under their names.
  ghost predicate Tabled(s: Shard) {
    && (forall n :: n in s.table ==>
          s.table[n] in s.entries && s.entries[s.table[n]].inCache && s.entries[s.table[n]].name == n)
    && (forall id :: id in s.entries && s.entries[id].inCache ==>
          s.entries[id].name in s.table && s.table[s.entries[id].name] == id)
  }

  predicate Distinct(ids: seq<Id>) {
    forall i, j :: 0 <= i < j < |ids| ==> ids[i] != ids[j]
  }

  // A low-pool segment, then a high-pool segment.
  ghost predicate Pools(entries: map<Id, Entry>, lru: seq<Id>, low: nat) {
    && low <= |lru| && Distinct(lru)
    && forall i :: 0 <= i < |lru| ==> lru[i] in entries && entries[lru[i]].inHighPool == (i >= low)
  }

  // The list holds exactly the entries in the table that nobody has pinned.
  ghost predicate Listed(s: Shard) {
    && Pools(s.entries, s.lru, s.low)
    && (forall id :: id in s.entries ==> (id in s.lru <==> s.entries[id].inCache && s.entries[id].refs == 1))
  }

  // The three counters are the charges of all allocated entries, of the list, and of its
  // high-pool segment.
  ghost predicate Summed(s: Shard) {
    && s.usage == Total(s.entries, s.next)
    && s.lruUsage == Sum(s.entries, s.lru)
    && s.low <= |s.lru| && s.highUsage == Sum(s.entries, s.lru[s.low..])
  }

  predicate FreeAsserted(f: Free) {
    (f.refs == 1 && f.inCache) || (f.refs == 0 && !f.inCache)
  }

  // No value is freed twice, or while it is allocated; each is freed in the state Free asserts;
  // and whatever entered the table is still allocated or has been freed.
  ghost predicate FreedOnce(s: Shard) {
    && (forall i :: 0 <= i < |s.freed| ==>
      s.freed[i].id < s.next && s.freed[i].id !in s.entries && FreeAsserted(s.freed[i]))
    && (forall i, j :: 0 <= i < j < |s.freed| ==> s.freed[i].id != s.freed[j].id)
    && (forall id :: id in s.accepted ==> id in s.entries || exists i :: 0 <= i < |s.freed| && s.freed[i].id == id)
  }

  // The table maps a name to the latest entry accepted under it.
  ghost predicate Latest(s: Shard) {
    && (forall id :: id in s.entries ==> id in s.accepted && s.accepted[id] == s.entries[id].name)
    && (forall id :: id in s.accepted ==> id < s.next && (s.accepted[id] in s.table ==> id <= s.table[s.accepted[id]]))
  }

  // The invariants that do not look at the list.
  ghost predicate Books(s: Shard) {
    Counted(s) && Tabled(s) && FreedOnce(s) && Latest(s)
  }

  ghost predicate Core(s: Shard) {
    Books(s) && Listed(s) && Summed(s) && s.highCapacity >= 0.0
  }

  // Moreover an overfull cache has nothing left to evict.
  ghost predicate Inv(s: Shard) {
    Core(s) && (s.usage > s.capacity ==> s.lru == [])
  }

  // ---------- building blocks ----------

  function With(s: Shard, id: Id, e: Entry): Shard {
    s.(entries := s.entries[id := e])
  }

  function IndexOf(ids: seq<Id>, id: Id): (k: nat)
    requires id in ids
    ensures k < |ids| && ids[k] == id && id !in ids[..k]
  {
    if ids[0] == id then 0 else 1 + IndexOf(ids[1..], id)
  }

  function LruRemove(s: Shard, id: Id): (r: Shard)
    requires id in s.lru && id in s.entries
    ensures r == s.(lru := r.lru, low := r.low, lruUsage := r.lruUsage, highUsage := r.highUsage)
  {
    var k := IndexOf(s.lru, id);
    var e := s.entries[id];
    s.(lru := Without(s.lru, k),
       low := if k < s.low then s.low - 1 else s.low,
       lruUsage := s.lruUsage - e.charge,
       highUsage := if e.inHighPool then s.highUsage - e.charge else s.highUsage)
  }

  // What LruRemove leaves: the list and its sums without the entry.
  ghost predicate ListedBut(s: Shard, x: Id) {
    && Pools(s.entries, s.lru, s.low) && x !in s.lru
    && (forall id :: id in s.entries && id != x ==> (id in s.lru <==> s.entries[id].inCache && s.entries[id].refs == 1))
  }

  lemma WithoutFacts(ids: seq<Id>, k: nat)
    requires k < |ids| && Distinct(ids)
    ensures Distinct(Without(ids, k)) && ids[k] !in Without(ids, k)
    ensures forall x :: x != ids[k] ==> (x in Without(ids, k) <==> x in ids)
  {
    var r := Without(ids, k);
    assert forall i :: 0 <= i < |r| ==> r[i] == if i < k then ids[i] else ids[i + 1];
    forall x | x in ids && x != ids[k]
      ensures x in r
    {
      var i :| 0 <= i < |ids| && ids[i] == x;
      assert r[if i < k then i else i - 1] == x;
    }
  }

  lemma PoolsWithout(entries: map<Id, Entry>, lru: seq<Id>, low: nat, k: nat)
    requires Pools(entries, lru, low) && k < |lru|
    ensures Pools(entries, Without(lru, k), if k < low then low - 1 else low)
  {
    WithoutFacts(lru, k);
    var r := Without(lru, k);
    assert forall i :: 0 <= i < |r| ==> r[i] == lru[if i < k then i else i + 1];
  }

  lemma HighSumWithout(entries: map<Id, Entry>, lru: seq<Id>, low: nat, k: nat)
    requires low <= |lru| && k < |lru|
    ensures var r := Without(lru, k);
            if k < low then Sum(entries, r[low - 1..]) == Sum(entries, lru[low..])
            else Sum(entries, r[low..]) == Sum(entries, lru[low..]) - ChargeOf(entries, lru[k])
  {
    var r := Without(lru, k);
    if k < low {
      assert r[low - 1..] == lru[low..];
    } else {
      var tail := lru[low..];
      assert r[low..] == Without(tail, k - low);
      SumWithout(entries, tail, k - low);
    }
  }

  lemma RemoveKeeps(s: Shard, id: Id)
    requires Listed(s) && Summed(s) && id in s.lru && id in s.entries
    ensures ListedBut(LruRemove(s, id), id) && Summed(LruRemove(s, id))
    ensures |LruRemove(s, id).lru| == |s.lru| - 1
  {
    hide Sum, Total, IndexOf, Without, Pools;
    assert s.low <= |s.lru| && Distinct(s.lru) by { PoolsBasics(s.entries, s.lru, s.low); }
    var k := IndexOf(s.lru, id);
    WithoutFacts(s.lru, k);
    PoolsWithout(s.entries, s.lru, s.low, k);
    PoolFlag(s.entries, s.lru, s.low, k);
    SumWithout(s.entries, s.lru, k);
    HighSumWithout(s.entries, s.lru, s.low, k);
  }

  lemma PoolsBasics(entries: map<Id, Entry>, lru: seq<Id>, low: nat)
    requires Pools(entries, lru, low)
    ensures low <= |lru| && Distinct(lru) && forall i :: 0 <= i < |lru| ==> lru[i] in entries
  {
  }

  lemma PoolFlag(entries: map<Id, Entry>, lru: seq<Id>, low: nat, k: nat)
    requires Pools(entries, lru, low) && k < |lru|
    ensures lru[k] in entries && entries[lru[k]].inHighPool == (k >= low)
  {
  }

  // One round of MaintainPoolSize.
  function Demoted(s: Shard): (m: Shard)
    requires s.low < |s.lru| && s.lru[s.low] in s.entries
    ensures m == s.(entries := m.entries, low := s.low + 1, highUsage := m.highUsage)
  {
    var id := s.lru[s.low];
    var e := s.entries[id];
    With(s, id, e.(inHighPool := false)).(low := s.low + 1, highUsage := s.highUsage - e.charge)
  }

  function MaintainPoolSize(s: Shard): (r: Shard)
    requires s.low <= |s.lru| && forall i :: 0 <= i < |s.lru| ==> s.lru[i] in s.entries
    ensures r == s.(entries := r.entries, low := r.low, highUsage := r.highUsage)
    ensures r.low <= |r.lru|
    decreases |s.lru| - s.low
  {
    if s.highUsage as real > s.highCapacity && s.low < |s.lru| then
      MaintainPoolSize(Demoted(s))
    else s
  }

  // Entries up to their pool flag.
  ghost predicate SameButPool(a: map<Id, Entry>, b: map<Id, Entry>) {
    a.Keys == b.Keys && forall id :: id in a ==> a[id].(inHighPool := false) == b[id].(inHighPool := false)
  }

  lemma SameSums(a: map<Id, Entry>, b: map<Id, Entry>, ids: seq<Id>, n: nat)
    requires SameButPool(a, b)
    ensures Sum(a, ids) == Sum(b, ids) && Total(a, n) == Total(b, n)
  {
    assert forall id :: id in a ==> a[id].(inHighPool := false).charge == b[id].(inHighPool := false).charge;
    SumSame(a, b, ids);
    TotalSame(a, b, n);
  }

  lemma {:induction false} TotalSame(a: map<Id, Entry>, b: map<Id, Entry>, n: nat)
    requires forall id :: ChargeOf(a, id) == ChargeOf(b, id)
    ensures Total(a, n) == Total(b, n)
  {
    if n > 0 {
      TotalSame(a, b, n - 1);
    }
  }

  // The oldest high-pool entry becomes the newest low-pool entry.
  lemma Demote(s: Shard)
    requires Pools(s.entries, s.lru, s.low) && s.low < |s.lru| && s.highUsage == Sum(s.entries, s.lru[s.low..])
    ensures var id := s.lru[s.low];
            var e := s.entries[id];
            var entries := s.entries[id := e.(inHighPool := false)];
            && Pools(entries, s.lru, s.low + 1) && SameButPool(s.entries, entries)
            && s.highUsage - e.charge == Sum(entries, s.lru[s.low + 1..])
  {
    var id := s.lru[s.low];
    var e := s.entries[id];
    var entries := s.entries[id := e.(inHighPool := false)];
    assert SameButPool(s.entries, entries);
    SameSums(s.entries, entries, s.lru[s.low + 1..], 0);
    assert s.lru[s.low..][1..] == s.lru[s.low + 1..];
  }

  lemma SameTrans(a: map<Id, Entry>, b: map<Id, Entry>, c: map<Id, Entry>)
    requires SameButPool(a, b) && SameButPool(b, c)
    ensures SameButPool(a, c)
  {
  }

  // The pool is brought within its bound by moving its oldest entries, and no more of them than
  // needed, to the low pool.
  lemma {:induction false} MaintainKeeps(s: Shard)
    requires Pools(s.entries, s.lru, s.low) && s.highCapacity >= 0.0
    requires s.highUsage == Sum(s.entries, s.lru[s.low..])
    ensures var r := MaintainPoolSize(s);
            && SameButPool(s.entries, r.entries) && Pools(r.entries, s.lru, r.low)
            && s.low <= r.low && r.highUsage == Sum(r.entries, s.lru[r.low..])
            && r.highUsage as real <= s.highCapacity
            && (r.low > s.low ==> Sum(s.entries, s.lru[r.low - 1..]) as real > s.highCapacity)
    decreases |s.lru| - s.low
  {
    hide SameButPool, Pools, Sum, MaintainPoolSize;
    PoolsBasics(s.entries, s.lru, s.low);
    if s.low == |s.lru| {
      SumNone(s.entries, s.lru[s.low..]);
    }
    if s.highUsage as real > s.highCapacity {
      Demote(s);
      var m := Demoted(s);
      MaintainUnfold(s);
      MaintainKeeps(m);
      var r := MaintainPoolSize(m);
      SameTrans(s.entries, m.entries, r.entries);
      if r.low > m.low {
        SameSums(s.entries, m.entries, s.lru[r.low - 1..], 0);
      }
    } else {
      MaintainUnfold(s);
      SameRefl(s.entries);
    }
  }

  lemma MaintainUnfold(s: Shard)
    requires s.low <= |s.lru| && forall i :: 0 <= i < |s.lru| ==> s.lru[i] in s.entries
    ensures MaintainPoolSize(s) ==
            if s.highUsage as real > s.highCapacity && s.low < |s.lru| then MaintainPoolSize(Demoted(s)) else s
  {
  }

  lemma SameRefl(a: map<Id, Entry>)
    ensures SameButPool(a, a)
  {
  }

  function LruInsert(s: Shard, id: Id): (r: Shard)
    requires s.low <= |s.lru| && id in s.entries && forall i :: 0 <= i < |s.lru| ==> s.lru[i] in s.entries
    ensures r == s.(entries := r.entries, lru := r.lru, low := r.low, lruUsage := r.lruUsage, highUsage := r.highUsage)
  {
    var e := s.entries[id];
    var r := if s.ratio > 0.0 && e.highPri then
        MaintainPoolSize(With(s, id, e.(inHighPool := true)).(lru := s.lru + [id], highUsage := s.highUsage + e.charge))
      else
        With(s, id, e.(inHighPool := false)).(lru := s.lru[..s.low] + [id] + s.lru[s.low..], low := s.low + 1);
    r.(lruUsage := r.lruUsage + e.charge)
  }

  // Adding the k-th id back.
  lemma SumWith(entries: map<Id, Entry>, a: seq<Id>, id: Id, b: seq<Id>)
    ensures Sum(entries, a + [id] + b) == Sum(entries, a + b) + ChargeOf(entries, id)
  {
    var ids := a + [id] + b;
    assert Without(ids, |a|) == a + b;
    SumWithout(entries, ids, |a|);
  }

  lemma PoolsWith(entries: map<Id, Entry>, lru: seq<Id>, low: nat, id: Id, e: Entry)
    requires Pools(entries, lru, low) && id !in lru
    ensures e.inHighPool ==> Pools(entries[id := e], lru + [id], low)
    ensures !e.inHighPool ==> Pools(entries[id := e], lru[..low] + [id] + lru[low..], low + 1)
  {
  }

  lemma InsertHighKeeps(s: Shard, id: Id, m: Shard)
    requires ListedBut(s, id) && Summed(s) && s.highCapacity >= 0.0
    requires id in s.entries && s.entries[id].inCache && s.entries[id].refs == 1
    requires m == With(s, id, s.entries[id].(inHighPool := true)).(lru := s.lru + [id],
             highUsage := s.highUsage + s.entries[id].charge)
    ensures SameButPool(s.entries, m.entries) && Pools(m.entries, m.lru, m.low)
    ensures m.highUsage == Sum(m.entries, m.lru[m.low..]) && s.lruUsage + s.entries[id].charge == Sum(m.entries, m.lru)
  {
    hide Pools, Sum, Total;
    PoolsBasics(s.entries, s.lru, s.low);
    PoolsWith(s.entries, s.lru, s.low, id, s.entries[id].(inHighPool := true));
    SetPool(s.entries, id, true);
    SameSums(s.entries, m.entries, s.lru, s.next);
    SameSums(s.entries, m.entries, s.lru[s.low..], s.next);
    SumWith(m.entries, s.lru, id, []);
    SumWith(m.entries, s.lru[s.low..], id, []);
    assert s.lru + [id] + [] == m.lru && s.lru + [] == s.lru;
    assert s.lru[s.low..] + [id] + [] == m.lru[s.low..] && s.lru[s.low..] + [] == s.lru[s.low..];
  }

  lemma InsertLowKeeps(s: Shard, id: Id, r: Shard)
    requires ListedBut(s, id) && Summed(s)
    requires id in s.entries && s.entries[id].inCache && s.entries[id].refs == 1
    requires r == With(s, id, s.entries[id].(inHighPool := false)).(
                    lru := s.lru[..s.low] + [id] + s.lru[s.low..], low := s.low + 1,
                      lruUsage := s.lruUsage + s.entries[id].charge)
    ensures SameButPool(s.entries, r.entries) && Listed(r) && Summed(r)
  {
    hide Pools, Sum, Total;
    PoolsBasics(s.entries, s.lru, s.low);
    PoolsWith(s.entries, s.lru, s.low, id, s.entries[id].(inHighPool := false));
    SetPool(s.entries, id, false);
    SameSums(s.entries, r.entries, s.lru, s.next);
    SameSums(s.entries, r.entries, s.lru[s.low..], s.next);
    SumWith(r.entries, s.lru[..s.low], id, s.lru[s.low..]);
    assert s.lru[..s.low] + s.lru[s.low..] == s.lru;
    assert r.lru[r.low..] == s.lru[s.low..];
    JoinList(s, r, id);
  }

  // An unpinned entry joins the list: a high-priority one at the head of the high pool, others at
  // the head of the low pool.
  lemma InsertKeeps(s: Shard, id: Id)
    requires ListedBut(s, id) && Summed(s) && s.highCapacity >= 0.0
    requires s.low <= |s.lru| && id in s.entries && s.entries[id].inCache && s.entries[id].refs == 1
    requires forall i :: 0 <= i < |s.lru| ==> s.lru[i] in s.entries
    ensures var r := LruInsert(s, id);
            && SameButPool(s.entries, r.entries) && Listed(r) && Summed(r)
            && (s.highUsage as real <= s.highCapacity ==> r.highUsage as real <= r.highCapacity)
  {
    hide Pools, Sum, Total, SameButPool, Listed, ListedBut, MaintainPoolSize;
    var e := s.entries[id];
    var r := LruInsert(s, id);
    if s.ratio > 0.0 && e.highPri {
      var m := With(s, id, e.(inHighPool := true)).(lru := s.lru + [id], highUsage := s.highUsage + e.charge);
      InsertHighKeeps(s, id, m);
      MaintainKeeps(m);
      SameTrans(s.entries, m.entries, r.entries);
      SameSums(s.entries, r.entries, [], s.next);
      SameSums(m.entries, r.entries, m.lru, s.next);
      JoinList(s, r, id);
    } else {
      InsertLowKeeps(s, id, r);
    }
  }

  lemma SetPool(entries: map<Id, Entry>, id: Id, high: bool)
    requires id in entries
    ensures SameButPool(entries, entries[id := entries[id].(inHighPool := high)])
  {
  }

  lemma JoinList(s: Shard, r: Shard, id: Id)
    requires ListedBut(s, id) && SameButPool(s.entries, r.entries) && Pools(r.entries, r.lru, r.low)
    requires id in s.entries && s.entries[id].inCache && s.entries[id].refs == 1
    requires id in r.lru && forall x :: x != id ==> (x in r.lru <==> x in s.lru)
    ensures Listed(r)
  {
    hide Pools;
    forall x | x in r.entries
      ensures x in r.lru <==> r.entries[x].inCache && r.entries[x].refs == 1
    {
      assert r.entries[x].(inHighPool := false) == s.entries[x].(inHighPool := false);
    }
  }

  // The deleter call and the deallocation.
  function FreeEntry(s: Shard, id: Id): Shard
    requires id in s.entries
  {
    s.(entries := s.entries - {id}, freed := s.freed + [Free(id, s.entries[id].refs, s.entries[id].inCache)])
  }

  // The table gives up its reference to an entry.
  function Unlist(s: Shard, id: Id): Shard
    requires id in s.entries
  {
    var e := s.entries[id];
    With(s, id, e.(inCache := false, refs := e.refs - 1)).(table := s.table - {e.name})
  }

  // Remove an unpinned entry from list, table and usage, and free it.
  function Discard(s: Shard, id: Id): Shard
    requires id in s.lru && id in s.entries
  {
    var r := Unlist(LruRemove(s, id), id);
    FreeEntry(r.(usage := r.usage - s.entries[id].charge), id)
  }

  // An entry of which nobody holds a handle any more is freed, leaving the table if it was there.
  lemma BooksFreed(s: Shard, r: Shard, id: Id)
    requires Books(s) && id in s.entries && r.held[id] == 0 && forall x :: x != id ==> r.held[x] == s.held[x]
    requires r.entries == s.entries - {id} && r.freed == s.freed + [Free(id, 0, false)]
    requires r.table == if s.entries[id].inCache then s.table - {s.entries[id].name} else s.table
    requires r.next == s.next && r.accepted == s.accepted
    ensures Books(r)
  {
    assert id < s.next;
    hide Counted, Tabled, Latest, FreedOnce;
    CountedFreed(s, r, id);
    TabledFreed(s, r, id);
    LatestFreed(s, r, id);
    FreedMore(s, r, id);
  }

  lemma CountedFreed(s: Shard, r: Shard, id: Id)
    requires Counted(s) && r.held[id] == 0 && forall x :: x != id ==> r.held[x] == s.held[x]
    requires r.entries == s.entries - {id} && r.next == s.next
    ensures Counted(r)
  {
  }

  lemma TabledFreed(s: Shard, r: Shard, id: Id)
    requires Tabled(s) && id in s.entries && r.entries == s.entries - {id}
    requires r.table == if s.entries[id].inCache then s.table - {s.entries[id].name} else s.table
    ensures Tabled(r)
  {
  }

  lemma LatestFreed(s: Shard, r: Shard, id: Id)
    requires Latest(s) && r.entries == s.entries - {id} && r.next == s.next && r.accepted == s.accepted
    requires forall n :: n in r.table ==> n in s.table && r.table[n] == s.table[n]
    ensures Latest(r)
  {
  }

  lemma FreedMore(s: Shard, r: Shard, id: Id)
    requires FreedOnce(s) && id in s.entries && id < s.next
    requires r.entries == s.entries - {id} && r.freed == s.freed + [Free(id, 0, false)]
    requires r.next == s.next && r.accepted == s.accepted
    ensures FreedOnce(r)
  {
    var n := |s.freed|;
    assert r.freed[n].id == id;
    forall x | x in r.accepted
      ensures x in r.entries || exists i :: 0 <= i < |r.freed| && r.freed[i].id == x
    {
      if x in s.entries {
        assert x == id || x in r.entries;
      } else {
        var i :| 0 <= i < |s.freed| && s.freed[i].id == x;
        assert r.freed[i].id == x;
      }
    }
  }

  // Entries keep their names and table flags, and reference counts follow the handles.
  lemma BooksKept(s: Shard, r: Shard)
    requires Books(s) && r.entries.Keys == s.entries.Keys
    requires forall x :: x in s.entries ==>
             r.entries[x].name == s.entries[x].name && r.entries[x].inCache == s.entries[x].inCache
    requires Counted(r)
    requires r.table == s.table && r.freed == s.freed && r.next == s.next && r.accepted == s.accepted
    ensures Books(r)
  {
    hide Counted, FreedOnce;
    assert Tabled(r) && Latest(r);
    FreedKept(s, r);
  }

  lemma FreedKept(s: Shard, r: Shard)
    requires FreedOnce(s) && r.entries.Keys == s.entries.Keys && r.freed == s.freed && r.next == s.next
             && r.accepted == s.accepted
    ensures FreedOnce(r)
  {
  }

  lemma BooksRefs(s: Shard, r: Shard, id: Id, e: Entry)
    requires Books(s) && id in s.entries && r.entries == s.entries[id := e]
    requires e.name == s.entries[id].name && e.inCache == s.entries[id].inCache
    requires e.refs == r.held[id] + (if e.inCache then 1 else 0) && e.refs >= 1
    requires forall x :: x != id ==> r.held[x] == s.held[x]
    requires r.table == s.table && r.freed == s.freed && r.next == s.next && r.accepted == s.accepted
    ensures Books(r)
  {
    hide Tabled, FreedOnce, Latest;
    assert Counted(r);
    assert r.entries.Keys == s.entries.Keys;
    BooksKept(s, r);
  }

  lemma BooksSame(s: Shard, r: Shard)
    requires Books(s) && SameButPool(s.entries, r.entries)
    requires r.table == s.table && r.freed == s.freed && r.next == s.next && r.accepted == s.accepted
             && r.held == s.held
    ensures Books(r)
  {
    hide Tabled, FreedOnce, Latest;
    forall x | x in s.entries
      ensures r.entries[x].name == s.entries[x].name && r.entries[x].inCache == s.entries[x].inCache
              && r.entries[x].refs == s.entries[x].refs
    {
      assert r.entries[x].(inHighPool := false) == s.entries[x].(inHighPool := false);
    }
    assert Counted(r);
    BooksKept(s, r);
  }

  // A pinned entry leaves the table.
  lemma BooksUnlisted(s: Shard, id: Id)
    requires Books(s) && id in s.entries && s.entries[id].inCache && s.entries[id].refs >= 2
    ensures Books(Unlist(s, id))
  {
    var r := Unlist(s, id);
    assert r.entries.Keys == s.entries.Keys;
    FreedKept(s, r);
    hide FreedOnce;
    UnlistedCounted(s, id);
    hide Counted;
    assert Tabled(r);
    assert Latest(r);
  }

  lemma UnlistedCounted(s: Shard, id: Id)
    requires Counted(s) && id in s.entries && s.entries[id].inCache && s.entries[id].refs >= 2
    ensures Counted(Unlist(s, id))
  {
  }

  // A new entry enters the table under a name that is free there.
  lemma BooksAdded(s: Shard, r: Shard, e: Entry)
    requires Books(s) && e.name !in s.table && e.inCache && e.refs == r.held[s.next] + 1
    requires r.entries == s.entries[s.next := e] && r.table == s.table[e.name := s.next]
    requires r.next == s.next + 1 && r.accepted == s.accepted[s.next := e.name] && r.freed == s.freed
    requires forall x :: x != s.next ==> r.held[x] == s.held[x]
    ensures Books(r)
  {
    assert s.next !in s.entries;
    hide Counted, Tabled, Latest, FreedOnce;
    AddedCounted(s, r, e);
    AddedTabled(s, r, e);
    AddedLatest(s, r, e);
    AddedFreed(s, r, e);
  }

  lemma AddedCounted(s: Shard, r: Shard, e: Entry)
    requires Counted(s) && e.inCache && e.refs == r.held[s.next] + 1 && r.entries == s.entries[s.next := e]
             && r.next == s.next + 1
    requires forall x :: x != s.next ==> r.held[x] == s.held[x]
    ensures Counted(r)
  {
  }

  lemma AddedTabled(s: Shard, r: Shard, e: Entry)
    requires Tabled(s) && s.next !in s.entries && e.name !in s.table && e.inCache
    requires r.entries == s.entries[s.next := e] && r.table == s.table[e.name := s.next]
    ensures Tabled(r)
  {
  }

  lemma AddedLatest(s: Shard, r: Shard, e: Entry)
    requires Latest(s) && r.entries == s.entries[s.next := e] && r.table == s.table[e.name := s.next]
    requires r.next == s.next + 1 && r.accepted == s.accepted[s.next := e.name]
    ensures Latest(r)
  {
  }

  lemma AddedFreed(s: Shard, r: Shard, e: Entry)
    requires FreedOnce(s) && s.next !in s.entries && r.entries == s.entries[s.next := e]
    requires r.next == s.next + 1 && r.accepted == s.accepted[s.next := e.name] && r.freed == s.freed
    ensures FreedOnce(r)
  {
  }

  // Nobody holds an entry on the list.
  lemma Unheld(s: Shard, id: Id)
    requires Core(s) && id in s.lru
    ensures id in s.entries && id < s.next && s.held[id] == 0 && s.entries[id].inCache && s.entries[id].refs == 1
  {
  }

  lemma DiscardCore(s: Shard, id: Id)
    requires Core(s) && id in s.lru && id in s.entries
    ensures Core(Discard(s, id)) && |Discard(s, id).lru| == |s.lru| - 1
  {
    hide Sum, Total, IndexOf, LruRemove, Counted, Tabled, FreedOnce, Latest;
    Unheld(s, id);
    var m := LruRemove(s, id);
    RemoveKeeps(s, id);
    var r := Discard(s, id);
    assert r.entries == s.entries - {id};
    BooksFreed(s, r, id);
    DropEntry(m, r, id);
    DropSums(m, r, id);
  }

  // Freeing an entry that is not on the list leaves the list and its sums alone.
  lemma DropEntry(s: Shard, r: Shard, id: Id)
    requires ListedBut(s, id) && r.entries == s.entries - {id} && r.lru == s.lru && r.low == s.low
    ensures Listed(r)
  {
  }

  lemma DropSums(s: Shard, r: Shard, id: Id)
    requires id in s.entries && id < s.next && id !in s.lru && s.low <= |s.lru|
    requires r.entries == s.entries - {id} && r.lru == s.lru && r.low == s.low && r.next == s.next
    requires r.usage == s.usage - s.entries[id].charge && r.lruUsage == s.lruUsage && r.highUsage == s.highUsage
    ensures Summed(s) ==> Summed(r)
  {
    TotalDrop(s.entries, id, s.next);
    SumSame(s.entries, r.entries, s.lru);
    SumSame(s.entries, r.entries, s.lru[s.low..]);
  }

  // Changing an entry but not its charge leaves the sums alone.
  lemma SetSums(s: Shard, r: Shard, id: Id, e: Entry)
    requires id in s.entries && e.charge == s.entries[id].charge && r.entries == s.entries[id := e]
    requires s.low <= |s.lru| && r.lru == s.lru && r.low == s.low && r.next == s.next
    requires r.usage == s.usage && r.lruUsage == s.lruUsage && r.highUsage == s.highUsage
    ensures Summed(s) ==> Summed(r)
  {
    TotalSet(s.entries, id, e, s.next);
    SumSame(s.entries, r.entries, s.lru);
    SumSame(s.entries, r.entries, s.lru[s.low..]);
  }

  // ---------- eviction ----------

  function EvictFromLru(s: Shard, charge: nat): (r: Shard)
    requires Core(s)
    ensures Core(r)
    ensures r.usage + charge <= r.capacity || r.lru == []
    ensures r == s.(entries := r.entries, table := r.table, lru := r.lru, low := r.low, usage := r.usage,
                    lruUsage := r.lruUsage, highUsage := r.highUsage, freed := r.freed)
    decreases |s.lru|
  {
    hide Core;
    if s.usage + charge > s.capacity && s.lru != [] then
      Unheld(s, s.lru[0]);
      DiscardCore(s, s.lru[0]);
      EvictFromLru(Discard(s, s.lru[0]), charge)
    else s
  }
}
