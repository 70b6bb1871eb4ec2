/**
 The registry behind ThreadLocalPtr (rutil/thread_local.cc, include/rocksutil/thread_local.h):
 instance ids that are recycled, one vector of pointers per thread, and unref handlers that run
 when a thread exits or an instance is destroyed. Every lock region, and every atomic access of a
 thread to its own vector, is one step.
 */
module ThreadLocal {
  type Id = nat
  type Tid = nat
  type Ptr = nat          // 0 is the null pointer
  type Handler = nat      // 0 is no handler

  datatype Call = Call(handler: Handler, ptr: Ptr)

  datatype Registry = Registry(
    next: Id,                      // next_instance_id_
    free: seq<Id>,                 // free_instance_ids_
    handlers: map<Id, Handler>,    // handler_map_
    chain: seq<Tid>,               // the ThreadData list from head_.next on
    tls: map<Tid, seq<Ptr>>,       // the entries of each thread's ThreadData
    live: set<Id>,                 // ids of the instances that exist
    calls: seq<Call>,              // unref calls so far
    given: multiset<Ptr>,          // pointers stored so far
    taken: multiset<Ptr>,          // pointers overwritten or handed back to a caller
    leaked: multiset<Ptr>)         // pointers let go without a handler to call

  const EMPTY: Registry := Registry(0, [], map[], [], map[], {}, [], multiset{}, multiset{}, multiset{})

  // ---------- the operations ----------

  function GetHandler(s: Registry, id: Id): Handler {
    if id in s.handlers then s.handlers[id] else 0
  }

  function NextId(s: Registry): Id {
    if s.free == [] then s.next else s.free[|s.free| - 1]
  }

  function GetId(s: Registry): Registry {
    if s.free == [] then s.(next := s.next + 1, live := s.live + {s.next})
    else s.(free := s.free[..|s.free| - 1], live := s.live + {NextId(s)})
  }

  function SetHandler(s: Registry, id: Id, handler: Handler): Registry {
    s.(handlers := s.handlers[id := handler])
  }

  function Read(s: Registry, t: Tid, id: Id): Ptr {
    if t in s.tls && id < |s.tls[t]| then s.tls[t][id] else 0
  }

  // GetThreadLocal: the first access of a thread adds it to the chain.
  function Register(s: Registry, t: Tid): (r: Registry)
    ensures t in r.tls && r == s.(chain := r.chain, tls := r.tls)
  {
    if t in s.tls then s else s.(chain := s.chain + [t], tls := s.tls[t := []])
  }

  function Nulls(n: nat): (r: seq<Ptr>)
    ensures |r| == n && forall i :: 0 <= i < n ==> r[i] == 0
  {
    seq(n, _ => 0)
  }

  function Resized(entries: seq<Ptr>, id: Id): (r: seq<Ptr>)
    ensures id < |r| && entries <= r && (|r| == |entries| || |r| == id + 1)
    ensures forall i :: |entries| <= i < |r| ==> r[i] == 0
  {
    if id >= |entries| then entries + Nulls(id + 1 - |entries|) else entries
  }

  function Reach(s: Registry, t: Tid, id: Id): (r: Registry)
    ensures t in r.tls && id < |r.tls[t]| && r == s.(chain := r.chain, tls := r.tls)
  {
    var m := Register(s, t);
    m.(tls := m.tls[t := Resized(m.tls[t], id)])
  }

  function SetCell(entries: seq<Ptr>, id: Id, p: Ptr): (r: seq<Ptr>)
    requires id < |entries|
  {
    entries[id := p]
  }

  // One cell is exchanged.
  function Exchange(s: Registry, t: Tid, id: Id, p: Ptr): Registry
    requires t in s.tls && id < |s.tls[t]|
  {
    s.(tls := s.tls[t := SetCell(s.tls[t], id, p)], given := s.given + multiset{p})
  }

  // Swap returns the old pointer, which Reset forgets.
  function Swap(s: Registry, t: Tid, id: Id, p: Ptr): Registry {
    var r := Reach(s, t, id);
    Exchange(r, t, id, p).(taken := s.taken + multiset{Read(s, t, id)})
  }

  function CompareAndSwap(s: Registry, t: Tid, id: Id, p: Ptr, expected: Ptr): Registry {
    if Read(s, t, id) == expected then Swap(s, t, id, p) else Reach(s, t, id)
  }

  datatype Swept = Swept(s: Registry, ptrs: seq<Ptr>)

  // The loop body that exchanges the cell of an instance and collects the pointer found.
  function SweepOne(m: Swept, t: Tid, id: Id, p: Ptr): (r: Swept)
    ensures r.s == m.s.(tls := r.s.tls, given := r.s.given)
    ensures r.s.tls.Keys == m.s.tls.Keys
  {
    if t in m.s.tls && id < |m.s.tls[t]| then
      var found := m.s.tls[t][id];
      Swept(Exchange(m.s, t, id, p), if found != 0 then m.ptrs + [found] else m.ptrs)
    else m
  }

  // The loop over the first n threads of the chain.
  function Sweep(s: Registry, id: Id, p: Ptr, n: nat): (r: Swept)
    requires n <= |s.chain|
    ensures r.s == s.(tls := r.s.tls, given := r.s.given)
    ensures r.s.tls.Keys == s.tls.Keys
  {
    hide SweepOne;
    if n == 0 then Swept(s, []) else SweepOne(Sweep(s, id, p, n - 1), s.chain[n - 1], id, p)
  }

  lemma SweepUnfold(s: Registry, id: Id, p: Ptr, n: nat)
    requires 0 < n <= |s.chain|
    ensures Sweep(s, id, p, n) == SweepOne(Sweep(s, id, p, n - 1), s.chain[n - 1], id, p)
  {
    hide SweepOne;
  }

  lemma SweepNone(s: Registry, id: Id, p: Ptr)
    ensures Sweep(s, id, p, 0) == Swept(s, [])
  {
  }

  function Scrape(s: Registry, id: Id, p: Ptr): Swept {
    var m := Sweep(s, id, p, |s.chain|);
    Swept(m.s.(taken := s.taken + multiset(m.ptrs)), m.ptrs)
  }

  function CallsFor(handler: Handler, ptrs: seq<Ptr>): (r: seq<Call>)
    ensures |r| == |ptrs| && forall i :: 0 <= i < |r| ==> r[i] == Call(handler, ptrs[i])
  {
    seq(|ptrs|, i requires 0 <= i < |ptrs| => Call(handler, ptrs[i]))
  }

  // Pointers that the registry lets go: an unref call for each, if there is a handler.
  function LetGo(s: Registry, handler: Handler, ptrs: seq<Ptr>): Registry {
    if handler != 0 then s.(calls := s.calls + CallsFor(handler, ptrs))
    else s.(leaked := s.leaked + multiset(ptrs))
  }

  function ReclaimId(s: Registry, id: Id): Registry {
    var m := Sweep(s, id, 0, |s.chain|);
    var r := LetGo(m.s, GetHandler(s, id), m.ptrs);
    r.(handlers := r.handlers[id := 0], free := r.free + [id], live := r.live - {id})
  }

  function RemoveThread(chain: seq<Tid>, t: Tid): seq<Tid> {
    if chain == [] then []
    else if chain[0] == t then chain[1..]
    else [chain[0]] + RemoveThread(chain[1..], t)
  }

  // The loop of OnThreadExit over the first n entries of the thread.
  function LetGoCells(s: Registry, entries: seq<Ptr>, n: nat): (r: Registry)
    requires n <= |entries|
    ensures r == s.(calls := r.calls, leaked := r.leaked)
  {
    if n == 0 then s
    else
      var m := LetGoCells(s, entries, n - 1);
      if entries[n - 1] != 0 then LetGo(m, GetHandler(s, n - 1), [entries[n - 1]]) else m
  }

  function ThreadExit(s: Registry, t: Tid): Registry {
    if t !in s.tls then s
    else
      var r := s.(chain := RemoveThread(s.chain, t), tls := s.tls - {t});
      LetGoCells(r, s.tls[t], |s.tls[t]|)
  }

  // ---------- runs ----------

  datatype Step =
    | DoGetId
    | DoSetHandler(id: Id, handler: Handler)
    | DoReclaimId(id: Id)
    | DoGet(t: Tid, id: Id)
    | DoReach(t: Tid, id: Id)
    | DoSwap(t: Tid, id: Id, p: Ptr)
    | DoCompareAndSwap(t: Tid, id: Id, p: Ptr, expected: Ptr)
    | DoScrape(id: Id, p: Ptr)
    | DoThreadExit(t: Tid)

  // Only existing instances are used.
  predicate Allowed(s: Registry, step: Step) {
    match step
    case DoGetId => true
    case DoSetHandler(id, _) => id in s.live
    case DoReclaimId(id) => id in s.live
    case DoGet(_, id) => id in s.live
    case DoReach(_, id) => id in s.live
    case DoSwap(_, id, _) => id in s.live
    case DoCompareAndSwap(_, id, _, _) => id in s.live
    case DoScrape(id, _) => id in s.live
    case DoThreadExit(_) => true
  }

  function Do(s: Registry, step: Step): Registry {
    match step
    case DoGetId => GetId(s)
    case DoSetHandler(id, handler) => SetHandler(s, id, handler)
    case DoReclaimId(id) => ReclaimId(s, id)
    case DoGet(t, _) => Register(s, t)
    case DoReach(t, id) => Reach(s, t, id)
    case DoSwap(t, id, p) => Swap(s, t, id, p)
    case DoCompareAndSwap(t, id, p, expected) => CompareAndSwap(s, t, id, p, expected)
    case DoScrape(id, p) => Scrape(s, id, p).s
    case DoThreadExit(t) => ThreadExit(s, t)
  }

  ghost predicate Runs(s: Registry, steps: seq<Step>, r: Registry)
    decreases |steps|
  {
    if steps == [] then r == s else Allowed(s, steps[0]) && Runs(Do(s, steps[0]), steps[1..], r)
  }

  // ---------- the invariant ----------

  ghost predicate Distinct(ids: seq<nat>) {
    forall i, j :: 0 <= i < j < |ids| ==> ids[i] != ids[j]
  }

  // Existing and free ids are disjoint, and fill 0..next - 1.
  ghost predicate Ids(s: Registry) {
    && Distinct(s.free)
    && (forall id: Id :: id in s.live || id in s.free <==> id < s.next)
    && (forall id :: id in s.live ==> id !in s.free)
  }

  // No vector reaches beyond the ids; cells and handlers of ids that do not exist are null.
  ghost predicate Clear(s: Registry) {
    && (forall t :: t in s.tls ==> |s.tls[t]| <= s.next)
    && (forall t, id :: t in s.tls && 0 <= id < |s.tls[t]| && id !in s.live ==> s.tls[t][id] == 0)
    && (forall id :: id in s.handlers && id !in s.live ==> s.handlers[id] == 0)
  }

  ghost predicate Chained(chain: seq<Tid>, tls: map<Tid, seq<Ptr>>) {
    Distinct(chain) && forall t :: t in chain <==> t in tls
  }

  ghost predicate Inv(s: Registry) {
    Ids(s) && Clear(s) && Chained(s.chain, s.tls)
  }

  lemma EmptyInv()
    ensures Inv(EMPTY)
  {
    assert Ids(EMPTY);
  }

  lemma RegisterKeeps(s: Registry, t: Tid)
    requires Inv(s)
    ensures Inv(Register(s, t))
    ensures forall u, i :: Read(Register(s, t), u, i) == Read(s, u, i)
  {
    hide Ids;
    if t !in s.tls {
      var m := Register(s, t);
      SameIds(s, m);
      assert Chained(m.chain, m.tls);
    }
  }

  lemma ReachKeeps(s: Registry, t: Tid, id: Id)
    requires Inv(s) && id < s.next
    ensures Inv(Reach(s, t, id))
    ensures forall u, i :: Read(Reach(s, t, id), u, i) == Read(s, u, i)
  {
    RegisterKeeps(s, t);
    var m := Register(s, t);
    hide Register, Ids, Resized;
    var r := Reach(s, t, id);
    assert r == m.(tls := m.tls[t := Resized(m.tls[t], id)]);
    assert Ids(r) by { SameIds(m, r); }
    SetClear(m, r, t, Resized(m.tls[t], id));
    forall u, i
      ensures Read(r, u, i) == Read(m, u, i)
    {
    }
  }

  lemma SameIds(s: Registry, r: Registry)
    requires Ids(s) && r.next == s.next && r.free == s.free && r.live == s.live
    ensures Ids(r)
  {
  }

  // One thread's vector changes, with null cells for ids that do not exist.
  lemma SetClear(s: Registry, r: Registry, t: Tid, entries: seq<Ptr>)
    requires Clear(s) && Chained(s.chain, s.tls) && t in s.tls
    requires r == s.(tls := s.tls[t := entries], given := r.given, taken := r.taken)
    requires |entries| <= s.next && forall id :: 0 <= id < |entries| && id !in s.live ==> entries[id] == 0
    ensures Clear(r) && Chained(r.chain, r.tls)
  {
  }

  lemma ExchangeKeeps(s: Registry, t: Tid, id: Id, p: Ptr)
    requires Inv(s) && t in s.tls && id < |s.tls[t]| && (id in s.live || p == 0)
    ensures Inv(Exchange(s, t, id, p))
  {
    hide Ids;
    var r := Exchange(s, t, id, p);
    SameIds(s, r);
    SetClear(s, r, t, SetCell(s.tls[t], id, p));
  }

  lemma {:induction false} SweepKeeps(s: Registry, id: Id, p: Ptr, n: nat)
    requires Inv(s) && n <= |s.chain| && (id in s.live || p == 0)
    ensures Inv(Sweep(s, id, p, n).s)
  {
    hide Sweep, Inv, Exchange;
    if n == 0 {
      SweepNone(s, id, p);
    } else {
      SweepKeeps(s, id, p, n - 1);
      SweepUnfold(s, id, p, n);
      var m := Sweep(s, id, p, n - 1).s;
      var t := s.chain[n - 1];
      if t in m.tls && id < |m.tls[t]| {
        ExchangeKeeps(m, t, id, p);
      }
    }
  }

  // The cell of the instance after a sweep over some threads.
  function SweptCells(tls: map<Tid, seq<Ptr>>, u: Tid, id: Id, p: Ptr, past: seq<Tid>): seq<Ptr>
    requires u in tls
  {
    if u in past && id < |tls[u]| then SetCell(tls[u], id, p) else tls[u]
  }

  // The cells of the threads passed hold the new pointer, and no other cell changed.
  lemma {:induction false} SweepCells(s: Registry, id: Id, p: Ptr, n: nat)
    requires Chained(s.chain, s.tls) && n <= |s.chain|
    ensures var m := Sweep(s, id, p, n).s;
            forall u :: u in s.tls ==> m.tls[u] == SweptCells(s.tls, u, id, p, s.chain[..n])
  {
    hide Sweep, Chained, SweptCells;
    if n == 0 {
      SweepNone(s, id, p);
      forall u | u in s.tls
        ensures SweptCells(s.tls, u, id, p, s.chain[..0]) == s.tls[u]
      {
        NotPassed(s.tls, u, id, p, s.chain[..0]);
      }
    } else {
      SweepCells(s, id, p, n - 1);
      SweepUnfold(s, id, p, n);
      SweptMore(s, Sweep(s, id, p, n - 1), id, p, n);
    }
  }

  lemma NotPassed(tls: map<Tid, seq<Ptr>>, u: Tid, id: Id, p: Ptr, past: seq<Tid>)
    requires u in tls && u !in past
    ensures SweptCells(tls, u, id, p, past) == tls[u]
  {
  }

  lemma SweptMore(s: Registry, m: Swept, id: Id, p: Ptr, n: nat)
    requires Chained(s.chain, s.tls) && 0 < n <= |s.chain| && m.s.tls.Keys == s.tls.Keys
    requires forall u :: u in s.tls ==> m.s.tls[u] == SweptCells(s.tls, u, id, p, s.chain[..n - 1])
    ensures var r := SweepOne(m, s.chain[n - 1], id, p).s;
            forall u :: u in s.tls ==> r.tls[u] == SweptCells(s.tls, u, id, p, s.chain[..n])
  {
    hide SetCell, Distinct;
    var t := s.chain[n - 1];
    assert t in s.chain;
    PastThread(s.chain, n);
    var past := s.chain[..n - 1];
    assert m.s.tls[t] == s.tls[t];
    assert forall u :: u in s.chain[..n] <==> u in past || u == t;
  }

  lemma PastThread(chain: seq<Tid>, n: nat)
    requires Distinct(chain) && 0 < n <= |chain|
    ensures chain[..n] == chain[..n - 1] + [chain[n - 1]] && chain[n - 1] !in chain[..n - 1]
  {
  }

  lemma ReclaimKeeps(s: Registry, id: Id)
    requires Inv(s) && id in s.live
    ensures Inv(ReclaimId(s, id))
  {
    hide Sweep, CallsFor;
    var m := Sweep(s, id, 0, |s.chain|).s;
    SweepKeeps(s, id, 0, |s.chain|);
    SweepCells(s, id, 0, |s.chain|);
    assert s.chain[..|s.chain|] == s.chain;
    var r := ReclaimId(s, id);
    assert r == m.(handlers := m.handlers[id := 0], free := m.free + [id], live := m.live - {id}, calls := r.calls,
      leaked := r.leaked);
    ReclaimedIds(m, r, id);
    ReclaimedClear(m, r, id);
  }

  lemma ReclaimedIds(s: Registry, r: Registry, id: Id)
    requires Ids(s) && id in s.live && r.next == s.next && r.free == s.free + [id] && r.live == s.live - {id}
    ensures Ids(r)
  {
  }

  lemma ReclaimedClear(s: Registry, r: Registry, id: Id)
    requires Clear(s) && forall t :: t in s.tls && id < |s.tls[t]| ==> s.tls[t][id] == 0
    requires r.next == s.next && r.tls == s.tls && r.live == s.live - {id} && r.handlers == s.handlers[id := 0]
    ensures Clear(r)
  {
  }

  lemma {:induction false} RemoveThreadIs(chain: seq<Tid>, t: Tid)
    requires Distinct(chain)
    ensures var r := RemoveThread(chain, t);
            Distinct(r) && forall u :: u in r <==> u in chain && u != t
  {
    if chain != [] {
      var rest := chain[1..];
      RemoveThreadIs(rest, t);
      assert chain == [chain[0]] + rest;
      assert chain[0] !in rest;
    }
  }

  lemma ExitKeeps(s: Registry, t: Tid)
    requires Inv(s)
    ensures Inv(ThreadExit(s, t))
  {
    RemoveThreadIs(s.chain, t);
    hide LetGoCells, RemoveThread;
  }

  lemma GetIdKeeps(s: Registry)
    requires Inv(s)
    ensures Inv(GetId(s))
  {
    GetIdIds(s);
    hide Ids;
  }

  lemma GetIdIds(s: Registry)
    requires Ids(s)
    ensures Ids(GetId(s))
  {
    var r, id := GetId(s), NextId(s);
    if s.free == [] {
      assert forall i: Id :: i in r.live <==> i in s.live || i == id;
    } else {
      assert s.free == r.free + [id];
      assert forall i: Id :: i in s.free <==> i in r.free || i == id;
      assert id !in r.free;
    }
  }

  lemma DoKeeps(s: Registry, step: Step)
    requires Inv(s) && Allowed(s, step)
    ensures Inv(Do(s, step))
  {
    hide Sweep, Register, Reach, ThreadExit, GetId, ReclaimId, LetGoCells;
    match step
    case DoGetId => GetIdKeeps(s);
    case DoSetHandler(id, handler) =>
    case DoReclaimId(id) => ReclaimKeeps(s, id);
    case DoGet(t, id) => RegisterKeeps(s, t);
    case DoReach(t, id) => ReachKeeps(s, t, id);
    case DoSwap(t, id, p) => SwapKeeps(s, t, id, p);
    case DoCompareAndSwap(t, id, p, expected) =>
      ReachKeeps(s, t, id);
      SwapKeeps(s, t, id, p);
    case DoScrape(id, p) => SweepKeeps(s, id, p, |s.chain|);
    case DoThreadExit(t) => ExitKeeps(s, t);
  }

  lemma SwapKeeps(s: Registry, t: Tid, id: Id, p: Ptr)
    requires Inv(s) && id in s.live
    ensures Inv(Swap(s, t, id, p))
  {
    hide Reach;
    ReachKeeps(s, t, id);
    ExchangeKeeps(Reach(s, t, id), t, id, p);
  }

  // ---------- the lock regions of one operation ----------

  // Swap and CompareAndSwap register the thread and lengthen its vector in lock regions of their own,
  // which are the steps DoGet and DoReach, before they access the cell. The vector stays long enough
  // whatever other threads do in between, and the access on its own is then the step DoSwap or
  // DoCompareAndSwap.
  lemma ReachStays(s: Registry, t: Tid, id: Id, step: Step)
    requires t in s.tls && id < |s.tls[t]| && step != DoThreadExit(t)
    ensures var r := Do(s, step); t in r.tls && id < |r.tls[t]| && Reach(r, t, id) == r
  {
    hide Sweep, ReclaimId, Reach, LetGoCells, GetId;
    match step {
      case DoGetId => GetIdTls(s);
      case DoReclaimId(i) => ReclaimLengths(s, i);
      case DoReach(u, i) => ReachLengths(s, u, i);
      case DoSwap(u, i, p) => ReachLengths(s, u, i);
      case DoCompareAndSwap(u, i, p, _) => ReachLengths(s, u, i);
      case DoScrape(i, p) => SweepLengths(s, i, p, |s.chain|);
      case _ =>
    }
    Reached(Do(s, step), t, id);
  }

  lemma GetIdTls(s: Registry)
    ensures GetId(s).tls == s.tls
  {
  }

  lemma ReachLengths(s: Registry, t: Tid, id: Id)
    ensures var r := Reach(s, t, id); forall u :: u in s.tls ==> u in r.tls && |s.tls[u]| <= |r.tls[u]|
  {
  }

  lemma Reached(s: Registry, t: Tid, id: Id)
    requires t in s.tls && id < |s.tls[t]|
    ensures Reach(s, t, id) == s
  {
  }

  lemma {:induction false} SweepLengths(s: Registry, id: Id, p: Ptr, n: nat)
    requires n <= |s.chain|
    ensures forall t :: t in s.tls ==> |Sweep(s, id, p, n).s.tls[t]| == |s.tls[t]|
  {
    hide Sweep;
    if n == 0 {
      SweepNone(s, id, p);
    } else {
      SweepLengths(s, id, p, n - 1);
      SweepUnfold(s, id, p, n);
    }
  }

  lemma ReclaimLengths(s: Registry, id: Id)
    ensures var r := ReclaimId(s, id);
            r.tls.Keys == s.tls.Keys && forall t :: t in s.tls ==> |r.tls[t]| == |s.tls[t]|
  {
    hide Sweep;
    SweepLengths(s, id, 0, |s.chain|);
  }

  lemma RegionsAreOperations(s: Registry, t: Tid, id: Id, p: Ptr, expected: Ptr)
    ensures var r := Do(Do(s, DoGet(t, id)), DoReach(t, id));
            && Reach(r, t, id) == r
            && Do(r, DoSwap(t, id, p)) == Do(s, DoSwap(t, id, p))
            && Do(r, DoCompareAndSwap(t, id, p, expected)) == Do(s, DoCompareAndSwap(t, id, p, expected))
  {
    hide Reach;
    var r := Do(Do(s, DoGet(t, id)), DoReach(t, id));
    RegisterThenReach(s, t, id);
    Reached(r, t, id);
  }

  lemma RegisterThenReach(s: Registry, t: Tid, id: Id)
    ensures Reach(Register(s, t), t, id) == Reach(s, t, id)
    ensures Read(Reach(s, t, id), t, id) == Read(s, t, id)
  {
  }

  lemma {:induction false} RunKeeps(s: Registry, steps: seq<Step>, r: Registry)
    requires Inv(s) && Runs(s, steps, r)
    ensures Inv(r)
    decreases |steps|
  {
    if steps != [] {
      hide Do, Inv;
      DoKeeps(s, steps[0]);
      RunKeeps(Do(s, steps[0]), steps[1..], r);
    }
  }
}
