/**
 The sharded cache (rutil/sharded_cache.cc, rutil/sharded_cache.h): shards chosen by the top bits
 of a key's hash, with the capacity split over them. Shards are locked one by one, so a run is an
 interleaving of operations on single shards.
 */
module ShardedCache {
  import opened Coding
  import opened LruShard
  import opened LruOps
  import opened LruRuns
  import opened LruPromises

  lemma {:induction false} Pow2Adds(a: nat, b: nat)
    ensures Pow2(a + b) == Pow2(a) * Pow2(b)
  {
    if a > 0 {
      Pow2Adds(a - 1, b);
    }
  }

  lemma Pow2Of32()
    ensures Pow2(32) == 0x1_0000_0000
  {
    assert Pow2(8) == 0x100;
    Pow2Adds(8, 8);
    Pow2Adds(16, 16);
  }

  // ---------- routing ----------

  function ShiftRight(x: nat, k: nat): nat {
    if k == 0 then x else ShiftRight(x, k - 1) / 2
  }

  lemma {:induction false} ShiftQuotient(x: nat, k: nat)
    ensures ShiftRight(x, k) * Pow2(k) <= x < ShiftRight(x, k) * Pow2(k) + Pow2(k)
  {
    if k > 0 {
      ShiftQuotient(x, k - 1);
      Halved(ShiftRight(x, k - 1), Pow2(k - 1), x);
    }
  }

  lemma Halved(q: nat, h: nat, x: nat)
    requires q * h <= x < q * h + h
    ensures q / 2 * (2 * h) <= x < q / 2 * (2 * h) + 2 * h
  {
    var m, b := q / 2, q % 2;
    assert q * h == (2 * m + b) * h == m * (2 * h) + b * h;
    assert b * h == if b == 0 then 0 else h;
  }

  function ShardOf(hash: Word, bits: nat): nat
    requires bits <= 32
  {
    if bits > 0 then ShiftRight(hash, 32 - bits) else 0
  }

  // The shards split the hash values into 2^bits intervals of equal length.
  lemma ShardIsInterval(hash: Word, bits: nat, i: nat)
    requires bits <= 32
    ensures ShardOf(hash, bits) < Pow2(bits)
    ensures Pow2(bits) * Pow2(32 - bits) == 0x1_0000_0000
    ensures i < Pow2(bits) ==> (ShardOf(hash, bits) == i <==> i * Pow2(32 - bits) <= hash < (i + 1) * Pow2(32 - bits))
  {
    Pow2Of32();
    Pow2Adds(bits, 32 - bits);
    hide ShiftRight;
    if bits == 0 {
      assert Pow2(bits) == 1;
    } else {
      hide Pow2;
      var q, d := ShiftRight(hash, 32 - bits), Pow2(32 - bits);
      ShiftQuotient(hash, 32 - bits);
      Between(hash, d, q, hash - q * d, Pow2(bits));
      Between(hash, d, q, hash - q * d, i);
      Between(hash, d, q, hash - q * d, i + 1);
    }
  }

  // Comparing with a multiple of d is comparing quotients.
  lemma Between(x: nat, d: nat, q: nat, r: nat, m: nat)
    requires d >= 1 && x == q * d + r && r < d
    ensures x < m * d <==> q < m
  {
    var gap := m - q;
    assert m * d == q * d + gap * d;
    if gap >= 1 {
      assert gap * d == d + (gap - 1) * d;
      Product(gap - 1, d);
    } else {
      Product(-gap, d);
      assert gap * d == -(-gap * d);
    }
  }

  lemma Product(a: nat, b: nat)
    ensures a * b >= 0
  {
  }

  function PerShard(capacity: nat, shards: nat): nat
    requires shards >= 1
  {
    (capacity + (shards - 1)) / shards
  }

  // The split covers the capacity, and wastes less than one unit per shard.
  lemma SplitCovers(capacity: nat, shards: nat)
    requires shards >= 1
    ensures capacity <= shards * PerShard(capacity, shards) < capacity + shards
  {
    var total := capacity + (shards - 1);
    assert total == shards * (total / shards) + total % shards;
  }

  // ---------- runs ----------

  type Hasher = Bytes -> Word
  datatype Step = Step(shard: nat, op: Op)

  predicate HomeOf(hash: Hasher, bits: nat, i: nat, name: Name)
    requires bits <= 32
  {
    name.hash == hash(name.key) && ShardOf(name.hash, bits) == i
  }

  // The cache passes a key, with its hash, to the shard of that hash.
  predicate Routed(hash: Hasher, bits: nat, st: Step)
    requires bits <= 32
  {
    match st.op
    case DoInsert(name, _, _, _) => HomeOf(hash, bits, st.shard, name)
    case DoLookup(name) => HomeOf(hash, bits, st.shard, name)
    case DoErase(name) => HomeOf(hash, bits, st.shard, name)
    case _ => true
  }

  predicate Homed(hash: Hasher, bits: nat, i: nat, s: Shard)
    requires bits <= 32
  {
    forall id :: id in s.accepted ==> HomeOf(hash, bits, i, s.accepted[id])
  }

  ghost predicate AllReady(c: seq<Shard>) {
    forall i :: 0 <= i < |c| ==> Ready(c[i])
  }

  predicate AllHomed(hash: Hasher, bits: nat, c: seq<Shard>)
    requires bits <= 32
  {
    forall i :: 0 <= i < |c| ==> Homed(hash, bits, i, c[i])
  }

  predicate CanStep(c: seq<Shard>, st: Step) {
    st.shard < |c| && Allowed(c[st.shard], st.op)
  }

  function Apply(c: seq<Shard>, st: Step): (r: seq<Shard>)
    requires AllReady(c) && CanStep(c, st)
    ensures |r| == |c|
  {
    c[st.shard := Do(c[st.shard], st.op)]
  }

  lemma ApplyReady(c: seq<Shard>, st: Step)
    requires AllReady(c) && CanStep(c, st)
    ensures AllReady(Apply(c, st))
  {
    hide Ready, Do;
    DoReady(c[st.shard], st.op);
  }

  // Only an accepted Insert adds to the names a shard has ever accepted.
  lemma AcceptedGrows(s: Shard, op: Op)
    requires Ready(s) && Allowed(s, op)
    ensures var r := Do(s, op);
            r.accepted == s.accepted || (op.DoInsert? && r.accepted == s.accepted[s.next := op.name])
  {
    hide Core, EvictFromLru, Displace, LruRemove, MaintainPoolSize, EraseUnRefEntries, Insert, Release;
    match op
    case DoInsert(name, charge, wantHandle, high) => InsertAccepted(s, name, charge, wantHandle, high);
    case DoErase(name) => DisplaceInv(s, name);
    case DoRelease(id) => ReleaseAccepted(s, id);
    case DoEraseUnRef => EraseAccepted(s);
    case _ =>
  }

  lemma InsertAccepted(s: Shard, name: Name, charge: nat, wantHandle: bool, high: bool)
    requires Inv(s)
    ensures var r := Insert(s, name, charge, wantHandle, high).s;
            r.accepted == s.accepted || r.accepted == s.accepted[s.next := name]
  {
    hide Core, EvictFromLru, LruInsert, Displace;
    var r := EvictFromLru(s, charge);
    if !Rejects(r, charge, wantHandle) {
      DisplaceInv(r, name);
    }
  }

  lemma ReleaseAccepted(s: Shard, id: Id)
    requires Inv(s) && id in s.held
    ensures Release(s, id).accepted == s.accepted
  {
    hide Core, LruInsert;
    HeldFacts(s, id);
  }

  lemma {:induction false} EraseAccepted(s: Shard)
    requires Core(s)
    ensures EraseUnRefEntries(s).accepted == s.accepted
    decreases |s.lru|
  {
    hide Core, LruRemove;
    if s.lru != [] {
      Unheld(s, s.lru[0]);
      DiscardCore(s, s.lru[0]);
      EraseAccepted(Discard(s, s.lru[0]));
    }
  }

  lemma ApplyHomed(hash: Hasher, bits: nat, c: seq<Shard>, st: Step)
    requires bits <= 32 && AllReady(c) && CanStep(c, st) && Routed(hash, bits, st) && AllHomed(hash, bits, c)
    ensures AllHomed(hash, bits, Apply(c, st))
  {
    hide Ready, Do;
    AcceptedGrows(c[st.shard], st.op);
  }

  // An interleaving of calls, each routed to its shard.
  ghost predicate Runs(hash: Hasher, bits: nat, c: seq<Shard>, steps: seq<Step>, d: seq<Shard>)
    requires bits <= 32 && AllReady(c)
    decreases |steps|
  {
    if steps == [] then c == d
    else
      && CanStep(c, steps[0]) && Routed(hash, bits, steps[0])
      && (ApplyReady(c, steps[0]); Runs(hash, bits, Apply(c, steps[0]), steps[1..], d))
  }

  // An operation that the cache passes on to all of its shards.
  predicate Global(op: Op) {
    op.DoSetCapacity? || op.DoSetStrict? || op.DoEraseUnRef? || (op.DoSetRatio? && 0.0 <= op.ratio <= 1.0)
  }

  // The loop over the first n shards.
  ghost function Sweep(c: seq<Shard>, n: nat, op: Op): (r: seq<Shard>)
    requires AllReady(c) && n <= |c| && Global(op)
    ensures |r| == |c| && AllReady(r)
    ensures forall i :: 0 <= i < |c| ==> r[i] == if i < n then Do(c[i], op) else c[i]
  {
    hide Do, Ready;
    if n == 0 then c
    else
      var m := Sweep(c, n - 1, op);
      ApplyReady(m, Step(n - 1, op));
      Apply(m, Step(n - 1, op))
  }

  lemma {:induction false} SweepHomed(hash: Hasher, bits: nat, c: seq<Shard>, n: nat, op: Op)
    requires bits <= 32 && AllReady(c) && n <= |c| && Global(op) && AllHomed(hash, bits, c)
    ensures AllHomed(hash, bits, Sweep(c, n, op))
  {
    hide Do, Ready, Homed;
    if n > 0 {
      SweepHomed(hash, bits, c, n - 1, op);
      ApplyHomed(hash, bits, Sweep(c, n - 1, op), Step(n - 1, op));
    }
  }

  // In every run an entry lives in the shard of its own key's hash: a handle is given back to the
  // shard that it came from, and a key has an entry in the table of at most one shard, the one
  // that Lookup asks.
  lemma {:induction false} EntriesStayHome(hash: Hasher, bits: nat, c: seq<Shard>, steps: seq<Step>, d: seq<Shard>)
    requires bits <= 32 && AllReady(c) && AllHomed(hash, bits, c) && Runs(hash, bits, c, steps, d)
    ensures |d| == |c| && AllReady(d) && AllHomed(hash, bits, d)
    ensures forall i, id :: 0 <= i < |d| && id in d[i].held ==>
            id in d[i].entries && ShardOf(d[i].entries[id].name.hash, bits) == i
    ensures forall i, name :: 0 <= i < |d| && name in d[i].table ==>
            name.hash == hash(name.key) && ShardOf(name.hash, bits) == i
    decreases |steps|
  {
    hide Ready, Do;
    if steps == [] {
      forall i | 0 <= i < |d|
        ensures forall id :: id in d[i].held ==> id in d[i].entries && ShardOf(d[i].entries[id].name.hash, bits) == i
        ensures forall name :: name in d[i].table ==> name.hash == hash(name.key) && ShardOf(name.hash, bits) == i
      {
        HomedNames(hash, bits, i, d[i]);
      }
    } else {
      ApplyReady(c, steps[0]);
      ApplyHomed(hash, bits, c, steps[0]);
      EntriesStayHome(hash, bits, Apply(c, steps[0]), steps[1..], d);
    }
  }

  lemma HomedNames(hash: Hasher, bits: nat, i: nat, s: Shard)
    requires bits <= 32 && Ready(s) && Homed(hash, bits, i, s)
    ensures forall id :: id in s.held ==> id in s.entries && ShardOf(s.entries[id].name.hash, bits) == i
    ensures forall name :: name in s.table ==> name.hash == hash(name.key) && ShardOf(name.hash, bits) == i
  {
    hide Listed, Summed, FreedOnce, ShardOf;
  }

  // ---------- total usage ----------

  function TotalUsage(c: seq<Shard>): int {
    if c == [] then 0 else TotalUsage(c[..|c| - 1]) + c[|c| - 1].usage
  }

  function TotalPinned(c: seq<Shard>): int {
    if c == [] then 0 else TotalPinned(c[..|c| - 1]) + TotalHeld(c[|c| - 1].entries, c[|c| - 1].held, c[|c| - 1].next)
  }

  // The totals are those of the shards: they are 0 for no entries, and a change of one shard counts as
  // much as that shard's own.
  lemma {:induction false} TotalsOfEmpty(n: nat)
    ensures TotalUsage(Empty(n)) == 0 && TotalPinned(Empty(n)) == 0
  {
    if n > 0 {
      assert Empty(n)[..n - 1] == Empty(n - 1);
      TotalsOfEmpty(n - 1);
    }
  }

  lemma {:induction false} TotalsFollow(c: seq<Shard>, i: nat, s: Shard)
    requires i < |c|
    ensures TotalUsage(c[i := s]) - TotalUsage(c) == s.usage - c[i].usage
    ensures TotalPinned(c[i := s]) - TotalPinned(c)
            == TotalHeld(s.entries, s.held, s.next) - TotalHeld(c[i].entries, c[i].held, c[i].next)
    decreases |c|
  {
    var n := |c| - 1;
    if i < n {
      assert c[i := s][..n] == c[..n][i := s];
      TotalsFollow(c[..n], i, s);
    } else {
      assert c[i := s][..n] == c[..n];
    }
  }

  // The call that clears the whole cache leaves no entry that nobody holds, in any shard.
  lemma SweepErases(c: seq<Shard>)
    requires AllReady(c)
    ensures forall i :: 0 <= i < |c| ==> Sweep(c, |c|, DoEraseUnRef)[i].lru == []
    ensures forall i :: 0 <= i < |c| ==> Sweep(c, |c|, DoEraseUnRef)[i].held == c[i].held
  {
    hide Ready, Core, EraseUnRefEntries;
    forall i | 0 <= i < |c|
      ensures Sweep(c, |c|, DoEraseUnRef)[i].lru == [] && Sweep(c, |c|, DoEraseUnRef)[i].held == c[i].held
    {
      ErasesUnheld(c[i]);
    }
  }

  lemma ErasesUnheld(s: Shard)
    requires Ready(s)
    ensures Do(s, DoEraseUnRef).lru == [] && Do(s, DoEraseUnRef).held == s.held
  {
    hide Core;
    EraseUnRefPromise(s);
  }

  predicate Within(c: seq<Shard>) {
    forall i :: 0 <= i < |c| ==> c[i].strict && c[i].usage <= c[i].capacity
  }

  ghost predicate TightRuns(c: seq<Shard>, steps: seq<Step>, d: seq<Shard>)
    requires AllReady(c)
    decreases |steps|
  {
    if steps == [] then c == d
    else
      && CanStep(c, steps[0]) && NeverLoosened(c[steps[0].shard], steps[0].op)
      && (ApplyReady(c, steps[0]); TightRuns(Apply(c, steps[0]), steps[1..], d))
  }

  lemma {:induction false} UsageBound(c: seq<Shard>, perShard: nat)
    requires forall i :: 0 <= i < |c| ==> c[i].usage <= perShard
    ensures TotalUsage(c) <= |c| * perShard
  {
    if c != [] {
      UsageBound(c[..|c| - 1], perShard);
      assert |c| * perShard == (|c| - 1) * perShard + perShard;
    }
  }

  lemma {:induction false} StaysWithin(c: seq<Shard>, steps: seq<Step>, d: seq<Shard>)
    requires AllReady(c) && Within(c) && TightRuns(c, steps, d)
    ensures |d| == |c| && Within(d)
    decreases |steps|
  {
    hide Ready, Do;
    if steps != [] {
      ApplyReady(c, steps[0]);
      DoWithinCapacity(c[steps[0].shard], steps[0].op);
      StaysWithin(Apply(c, steps[0]), steps[1..], d);
    }
  }

  // With the strict limit on in all shards and no capacity ever lowered, in every interleaving:
  // whenever the shards have their shares of a capacity, the total usage stays below that
  // capacity plus the number of shards.
  lemma TotalStaysBelow(c: seq<Shard>, steps: seq<Step>, d: seq<Shard>, capacity: nat)
    requires AllReady(c) && Within(c) && TightRuns(c, steps, d) && |c| >= 1
    requires forall i :: 0 <= i < |d| ==> d[i].capacity <= PerShard(capacity, |c|)
    ensures TotalUsage(d) < capacity + |c|
  {
    StaysWithin(c, steps, d);
    UsageBound(d, PerShard(capacity, |c|));
    SplitCovers(capacity, |c|);
  }

  // ---------- a new cache ----------

  function Empty(n: nat): (c: seq<Shard>)
    ensures |c| == n && forall i :: 0 <= i < n ==> c[i] == EMPTY
  {
    seq(n, _ => EMPTY)
  }

  lemma EmptyHomed(hash: Hasher, bits: nat, n: nat)
    requires bits <= 32
    ensures AllReady(Empty(n)) && AllHomed(hash, bits, Empty(n))
  {
    hide Ready;
    EmptyReady();
  }

  // What the constructor of LRUCache sets up.
  ghost function NewCache(c: seq<Shard>, capacity: nat, strict: bool, ratio: real): (r: seq<Shard>)
    requires AllReady(c) && |c| >= 1 && 0.0 <= ratio <= 1.0
    ensures |r| == |c| && AllReady(r)
  {
    var n := |c|;
    Sweep(Sweep(Sweep(c, n, DoSetCapacity(PerShard(capacity, n))), n, DoSetStrict(strict)), n, DoSetRatio(ratio))
  }

  // A new cache has its shares of the capacity, and no usage.
  lemma NewCacheFacts(n: nat, capacity: nat, strict: bool, ratio: real)
    requires n >= 1 && 0.0 <= ratio <= 1.0
    ensures AllReady(Empty(n))
    ensures var c := NewCache(Empty(n), capacity, strict, ratio);
            forall i :: 0 <= i < n ==>
              c[i].capacity == PerShard(capacity, n) && c[i].strict == strict && c[i].usage == 0
              && c[i].ratio == ratio && c[i].highCapacity == PerShard(capacity, n) as real * ratio
  {
    hide Ready, Do, Apply, PerShard, AllHomed;
    EmptyHomed(_ => 0, 0, n);
    var a := Sweep(Empty(n), n, DoSetCapacity(PerShard(capacity, n)));
    var b := Sweep(a, n, DoSetStrict(strict));
    forall i | 0 <= i < n
      ensures var c := NewCache(Empty(n), capacity, strict, ratio);
              c[i].capacity == PerShard(capacity, n) && c[i].strict == strict && c[i].usage == 0
              && c[i].ratio == ratio && c[i].highCapacity == PerShard(capacity, n) as real * ratio
    {
      Settings(Empty(n)[i], DoSetCapacity(PerShard(capacity, n)));
      Settings(a[i], DoSetStrict(strict));
      Settings(b[i], DoSetRatio(ratio));
    }
  }

  lemma Settings(s: Shard, op: Op)
    requires Ready(s) && (op.DoSetCapacity? || op.DoSetStrict? || op.DoSetRatio?) && Allowed(s, op) && s.lru == []
    ensures var r := Do(s, op);
            && r.usage == s.usage && r.lru == []
            && r.capacity == (if op.DoSetCapacity? then op.capacity else s.capacity)
            && r.strict == (if op.DoSetStrict? then op.strict else s.strict)
            && r.ratio == (if op.DoSetRatio? then op.ratio else s.ratio)
            && (op.DoSetRatio? ==> r.highCapacity == r.capacity as real * r.ratio)
  {
    hide Core, MaintainPoolSize;
    if op.DoSetRatio? {
      hide EvictFromLru;
      PoolKeepsList(s, op.ratio);
    }
  }

  lemma PoolKeepsList(s: Shard, ratio: real)
    requires Ready(s) && ratio >= 0.0
    ensures SetRatio(s, ratio).lru == s.lru
  {
  }

  lemma FoundOnlyIfThere(s: Shard, name: Name)
    requires Ready(s)
    ensures LruOps.Lookup(s, name).handle != [] <==> name in s.table
  {
    hide Core, LruRemove;
  }

  lemma ErasedFrom(s: Shard, name: Name)
    requires Ready(s)
    ensures name !in LruOps.Erase(s, name).table
  {
    hide Core, Displace;
    DisplaceInv(s, name);
  }
}
