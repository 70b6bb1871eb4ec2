/**
 What holds of the thread-local registry in every run (rutil/thread_local.cc): instances do not
 see each other's pointers, and every pointer stored is accounted for.
 */
module ThreadLocalRuns {
  import opened ThreadLocal

  // ---------- isolation ----------

  // In every run, a new instance has an id of its own, reads null in every thread and has no
  // handler, whether or not the id was in use before.
  lemma FreshInstance(steps: seq<Step>, s: Registry)
    requires Runs(EMPTY, steps, s)
    ensures var id, r := NextId(s), GetId(s);
            && id !in s.live && r.live == s.live + {id}
            && GetHandler(r, id) == 0
            && forall t :: Read(r, t, id) == 0
  {
    EmptyInv();
    RunKeeps(EMPTY, steps, s);
  }

  // A swap changes one cell.
  lemma SwapIsolated(s: Registry, t: Tid, id: Id, p: Ptr)
    requires Inv(s) && id in s.live
    ensures forall u, i :: Read(Swap(s, t, id, p), u, i) == if u == t && i == id then p else Read(s, u, i)
  {
    hide Reach, Inv;
    IdBound(s, id);
    ReachKeeps(s, t, id);
    var m, r := Reach(s, t, id), Swap(s, t, id, p);
    forall u, i
      ensures Read(r, u, i) == if u == t && i == id then p else Read(s, u, i)
    {
      assert Read(m, u, i) == Read(s, u, i);
    }
  }

  lemma IdBound(s: Registry, id: Id)
    requires Inv(s) && id in s.live
    ensures id < s.next
  {
  }

  // A failed compare-and-swap changes none.
  lemma CompareIsolated(s: Registry, t: Tid, id: Id, p: Ptr, expected: Ptr)
    requires Inv(s) && id in s.live
    ensures var r := CompareAndSwap(s, t, id, p, expected);
            forall u, i :: Read(r, u, i) == if u == t && i == id && Read(s, t, id) == expected then p else Read(s, u, i)
  {
    hide Reach, Inv, Swap, Read;
    IdBound(s, id);
    ReachKeeps(s, t, id);
    SwapIsolated(s, t, id, p);
  }

  // The threads whose pointer for the instance is p.
  ghost function Holders(s: Registry, id: Id, p: Ptr, threads: seq<Tid>): set<Tid> {
    set t | t in threads && Read(s, t, id) == p
  }

  // A sweep finds each pointer as often as a thread holds it.
  lemma {:induction false} SweepFinds(s: Registry, id: Id, p: Ptr, n: nat, q: Ptr)
    requires Inv(s) && n <= |s.chain| && q != 0
    ensures multiset(Sweep(s, id, p, n).ptrs)[q] == |Holders(s, id, q, s.chain[..n])|
  {
    hide Sweep, Inv;
    if n == 0 {
      SweepNone(s, id, p);
      assert Holders(s, id, q, s.chain[..0]) == {};
    } else {
      SweepFinds(s, id, p, n - 1, q);
      SweepUnfold(s, id, p, n);
      FindsOne(s, id, p, n, q);
    }
  }

  lemma FindsOne(s: Registry, id: Id, p: Ptr, n: nat, q: Ptr)
    requires Inv(s) && 0 < n <= |s.chain| && q != 0
    ensures var m := Sweep(s, id, p, n - 1);
            var r := SweepOne(m, s.chain[n - 1], id, p);
            multiset(r.ptrs)[q] - multiset(m.ptrs)[q]
              == |Holders(s, id, q, s.chain[..n])| - |Holders(s, id, q, s.chain[..n - 1])|
  {
    hide Sweep, Holders, SweepOne, Ids, Clear;
    var t, m := s.chain[n - 1], Sweep(s, id, p, n - 1);
    assert t in s.chain;
    PastThread(s.chain, n);
    SweepCells(s, id, p, n - 1);
    NotPassed(s.tls, t, id, p, s.chain[..n - 1]);
    MoreHolders(s, id, q, s.chain[..n - 1], t);
    MorePtrs(m, t, id, p, q);
  }

  lemma MoreHolders(s: Registry, id: Id, q: Ptr, past: seq<Tid>, t: Tid)
    requires t !in past
    ensures |Holders(s, id, q, past + [t])| == |Holders(s, id, q, past)| + if Read(s, t, id) == q then 1 else 0
  {
    hide Read;
    assert Holders(s, id, q, past + [t]) == Holders(s, id, q, past) + if Read(s, t, id) == q then {t} else {};
  }

  lemma MorePtrs(m: Swept, t: Tid, id: Id, p: Ptr, q: Ptr)
    requires q != 0
    ensures multiset(SweepOne(m, t, id, p).ptrs)[q] == multiset(m.ptrs)[q] + if Read(m.s, t, id) == q then 1 else 0
  {
    hide Exchange;
  }

  // Scrape returns the pointers of the instance in all threads, each as often as it was stored, and
  // leaves the replacement in the cells that exist; all other cells stay.
  lemma ScrapeReturnsAll(s: Registry, id: Id, p: Ptr)
    requires Inv(s)
    ensures forall q :: q != 0 ==> multiset(Scrape(s, id, p).ptrs)[q] == |Holders(s, id, q, s.chain)|
    ensures forall u, i :: Read(Scrape(s, id, p).s, u, i) ==
                           if i == id && u in s.tls && id < |s.tls[u]| then p else Read(s, u, i)
  {
    hide Sweep;
    var n := |s.chain|;
    assert s.chain[..n] == s.chain;
    SweepCells(s, id, p, n);
    forall q | q != 0
      ensures multiset(Sweep(s, id, p, n).ptrs)[q] == |Holders(s, id, q, s.chain)|
    {
      SweepFinds(s, id, p, n, q);
    }
  }

  // ---------- conservation ----------

  function Cells(tls: map<Tid, seq<Ptr>>, t: Tid, p: Ptr): nat {
    if t in tls then multiset(tls[t])[p] else 0
  }

  // In how many cells p is stored.
  function Held(chain: seq<Tid>, tls: map<Tid, seq<Ptr>>, p: Ptr): nat {
    if chain == [] then 0 else Cells(tls, chain[0], p) + Held(chain[1..], tls, p)
  }

  function Unrefs(calls: seq<Call>, p: Ptr): nat {
    if calls == [] then 0 else Unrefs(calls[..|calls| - 1], p) + if calls[|calls| - 1].ptr == p then 1 else 0
  }

  // Pointers stored so far, less those that are still stored or have left in one of three ways.
  function Balance(s: Registry, p: Ptr): int {
    s.given[p] - s.taken[p] - s.leaked[p] - Unrefs(s.calls, p) - Held(s.chain, s.tls, p)
  }

  lemma {:induction false} HeldOthers(chain: seq<Tid>, a: map<Tid, seq<Ptr>>, b: map<Tid, seq<Ptr>>, p: Ptr)
    requires forall u :: u in chain ==> Cells(a, u, p) == Cells(b, u, p)
    ensures Held(chain, a, p) == Held(chain, b, p)
  {
    if chain != [] {
      HeldOthers(chain[1..], a, b, p);
    }
  }

  lemma {:induction false} HeldSet(chain: seq<Tid>, tls: map<Tid, seq<Ptr>>, t: Tid, entries: seq<Ptr>, p: Ptr)
    requires Distinct(chain) && t in chain
    ensures Held(chain, tls[t := entries], p) == Held(chain, tls, p) - Cells(tls, t, p) + multiset(entries)[p]
  {
    assert chain == [chain[0]] + chain[1..];
    if chain[0] == t {
      assert t !in chain[1..];
      HeldOthers(chain[1..], tls[t := entries], tls, p);
    } else {
      HeldSet(chain[1..], tls, t, entries, p);
    }
  }

  lemma {:induction false} HeldConcat(a: seq<Tid>, b: seq<Tid>, tls: map<Tid, seq<Ptr>>, p: Ptr)
    ensures Held(a + b, tls, p) == Held(a, tls, p) + Held(b, tls, p)
  {
    if a == [] {
      assert a + b == b;
    } else {
      assert (a + b)[1..] == a[1..] + b;
      HeldConcat(a[1..], b, tls, p);
    }
  }

  lemma {:induction false} HeldRemove(chain: seq<Tid>, tls: map<Tid, seq<Ptr>>, t: Tid, p: Ptr)
    requires Distinct(chain) && t in chain
    ensures Held(RemoveThread(chain, t), tls - {t}, p) == Held(chain, tls, p) - Cells(tls, t, p)
  {
    assert chain == [chain[0]] + chain[1..];
    if chain[0] == t {
      assert t !in chain[1..];
      HeldOthers(chain[1..], tls - {t}, tls, p);
    } else {
      HeldRemove(chain[1..], tls, t, p);
      var r := RemoveThread(chain, t);
      assert r[1..] == RemoveThread(chain[1..], t);
    }
  }

  lemma CellSet(entries: seq<Ptr>, id: Id, p: Ptr, q: Ptr)
    requires id < |entries|
    ensures multiset(SetCell(entries, id, p))[q] ==
            multiset(entries)[q] - (if entries[id] == q then 1 else 0) + if p == q then 1 else 0
  {
    assert entries == entries[..id] + [entries[id]] + entries[id + 1..];
    assert SetCell(entries, id, p) == entries[..id] + [p] + entries[id + 1..];
  }

  lemma CellsPadded(entries: seq<Ptr>, id: Id, p: Ptr)
    requires p != 0
    ensures multiset(Resized(entries, id))[p] == multiset(entries)[p]
  {
    if id >= |entries| {
      var pad := Nulls(id + 1 - |entries|);
      assert p !in multiset(pad);
      assert multiset(entries + pad) == multiset(entries) + multiset(pad);
    }
  }

  lemma ReachBalance(s: Registry, t: Tid, id: Id, p: Ptr)
    requires Inv(s) && p != 0
    ensures Balance(Register(s, t), p) == Balance(s, p) == Balance(Reach(s, t, id), p)
  {
    hide Ids, Clear, Resized;
    RegisterKeepsChain(s, t);
    var m := Register(s, t);
    if t !in s.tls {
      HeldConcat(s.chain, [t], m.tls, p);
      HeldOthers(s.chain, m.tls, s.tls, p);
      assert Held([t], m.tls, p) == 0;
    }
    CellsPadded(m.tls[t], id, p);
    HeldSet(m.chain, m.tls, t, Resized(m.tls[t], id), p);
  }

  lemma RegisterKeepsChain(s: Registry, t: Tid)
    requires Inv(s)
    ensures Chained(Register(s, t).chain, Register(s, t).tls)
  {
    RegisterKeeps(s, t);
  }

  lemma ExchangeBalance(s: Registry, t: Tid, id: Id, p: Ptr, q: Ptr)
    requires Chained(s.chain, s.tls) && t in s.tls && id < |s.tls[t]|
    ensures Balance(Exchange(s, t, id, p), q) == Balance(s, q) + if s.tls[t][id] == q then 1 else 0
  {
    CellSet(s.tls[t], id, p, q);
    HeldSet(s.chain, s.tls, t, SetCell(s.tls[t], id, p), q);
  }

  lemma SwapBalance(s: Registry, t: Tid, id: Id, p: Ptr, q: Ptr)
    requires Inv(s) && id in s.live && q != 0
    ensures Balance(Swap(s, t, id, p), q) == Balance(s, q)
  {
    hide Reach, Held, Unrefs, Inv;
    IdBound(s, id);
    ReachBalance(s, t, id, q);
    ReachKeeps(s, t, id);
    var m := Reach(s, t, id);
    ChainOf(m);
    assert Read(m, t, id) == Read(s, t, id);
    ExchangeBalance(m, t, id, p, q);
  }

  lemma ChainOf(s: Registry)
    requires Inv(s)
    ensures Chained(s.chain, s.tls)
  {
  }

  lemma {:induction false} SweepBalance(s: Registry, id: Id, p: Ptr, n: nat, q: Ptr)
    requires Chained(s.chain, s.tls) && n <= |s.chain| && q != 0
    ensures var m := Sweep(s, id, p, n);
            Balance(m.s, q) == Balance(s, q) + multiset(m.ptrs)[q] && Chained(m.s.chain, m.s.tls)
  {
    hide Sweep, Balance, Exchange;
    if n == 0 {
      SweepNone(s, id, p);
    } else {
      SweepBalance(s, id, p, n - 1, q);
      SweepUnfold(s, id, p, n);
      var m, t := Sweep(s, id, p, n - 1), s.chain[n - 1];
      if t in m.s.tls && id < |m.s.tls[t]| {
        ExchangeBalance(m.s, t, id, p, q);
      }
    }
  }

  lemma {:induction false} UnrefsMore(calls: seq<Call>, handler: Handler, ptrs: seq<Ptr>, p: Ptr)
    ensures Unrefs(calls + CallsFor(handler, ptrs), p) == Unrefs(calls, p) + multiset(ptrs)[p]
  {
    var n := |ptrs|;
    var all := calls + CallsFor(handler, ptrs);
    if n == 0 {
      assert all == calls;
    } else {
      var front := ptrs[..n - 1];
      UnrefsMore(calls, handler, front, p);
      assert ptrs == front + [ptrs[n - 1]];
      assert all[..|all| - 1] == calls + CallsFor(handler, front);
    }
  }

  lemma LetGoBalance(s: Registry, handler: Handler, ptrs: seq<Ptr>, p: Ptr)
    ensures Balance(LetGo(s, handler, ptrs), p) == Balance(s, p) - multiset(ptrs)[p]
  {
    hide Held, Unrefs, CallsFor;
    UnrefsMore(s.calls, handler, ptrs, p);
  }

  lemma ReclaimBalance(s: Registry, id: Id, p: Ptr)
    requires Inv(s) && p != 0
    ensures Balance(ReclaimId(s, id), p) == Balance(s, p)
  {
    hide Sweep, LetGo, Held, Unrefs;
    ChainOf(s);
    SweepBalance(s, id, 0, |s.chain|, p);
    var m := Sweep(s, id, 0, |s.chain|);
    LetGoBalance(m.s, GetHandler(s, id), m.ptrs, p);
  }

  lemma {:induction false} CellsLetGo(s: Registry, entries: seq<Ptr>, n: nat, p: Ptr)
    requires n <= |entries| && p != 0
    ensures Balance(LetGoCells(s, entries, n), p) == Balance(s, p) - multiset(entries[..n])[p]
  {
    hide Balance, LetGo, GetHandler;
    if n == 0 {
      assert entries[..0] == [];
    } else {
      CellsLetGo(s, entries, n - 1, p);
      var m, last := LetGoCells(s, entries, n - 1), entries[n - 1];
      assert entries[..n] == entries[..n - 1] + [last];
      LetGoBalance(m, GetHandler(s, n - 1), [last], p);
    }
  }

  lemma ExitBalance(s: Registry, t: Tid, p: Ptr)
    requires Inv(s) && p != 0
    ensures Balance(ThreadExit(s, t), p) == Balance(s, p)
  {
    if t in s.tls {
      hide LetGoCells, RemoveThread, Held, Unrefs;
      var r := s.(chain := RemoveThread(s.chain, t), tls := s.tls - {t});
      HeldRemove(s.chain, s.tls, t, p);
      CellsLetGo(r, s.tls[t], |s.tls[t]|, p);
      assert s.tls[t][..|s.tls[t]|] == s.tls[t];
    }
  }

  lemma DoConserves(s: Registry, step: Step, p: Ptr)
    requires Inv(s) && Allowed(s, step) && p != 0
    ensures Balance(Do(s, step), p) == Balance(s, p)
  {
    hide Sweep, Register, Reach, ThreadExit, ReclaimId, LetGoCells, Held, Unrefs, Swap;
    match step
    case DoGetId =>
    case DoSetHandler(id, handler) =>
    case DoReclaimId(id) => ReclaimBalance(s, id, p);
    case DoGet(t, id) => ReachBalance(s, t, id, p);
    case DoReach(t, id) => ReachBalance(s, t, id, p);
    case DoSwap(t, id, q) => SwapBalance(s, t, id, q, p);
    case DoCompareAndSwap(t, id, q, expected) =>
      ReachBalance(s, t, id, p);
      SwapBalance(s, t, id, q, p);
    case DoScrape(id, q) => SweepBalance(s, id, q, |s.chain|, p);
    case DoThreadExit(t) => ExitBalance(s, t, p);
  }

  lemma {:induction false} RunConserves(s: Registry, steps: seq<Step>, r: Registry, p: Ptr)
    requires Inv(s) && Runs(s, steps, r) && p != 0
    ensures Balance(r, p) == Balance(s, p)
    decreases |steps|
  {
    if steps != [] {
      hide Do, Inv, Balance;
      DoKeeps(s, steps[0]);
      DoConserves(s, steps[0], p);
      RunConserves(Do(s, steps[0]), steps[1..], r, p);
    }
  }

  // In every run: each time a pointer was stored, it is still stored, or was overwritten or handed
  // back, or was unreffed, or was let go for want of a handler. So a pointer stored once is unreffed
  // at most once, and not while it is stored nor after it was handed back.
  lemma PointersConserved(steps: seq<Step>, r: Registry, p: Ptr)
    requires Runs(EMPTY, steps, r) && p != 0
    ensures Inv(r)
    ensures r.given[p] == Held(r.chain, r.tls, p) + r.taken[p] + Unrefs(r.calls, p) + r.leaked[p]
  {
    EmptyInv();
    RunKeeps(EMPTY, steps, r);
    RunConserves(EMPTY, steps, r, p);
  }

  // ---------- exactly the calls that are due ----------

  // The cells of a thread that hold c's pointer, of instances with c's handler.
  ghost function Doomed(s: Registry, entries: seq<Ptr>, n: nat, c: Call): set<Id>
    requires n <= |entries|
  {
    set i | 0 <= i < n && entries[i] == c.ptr && GetHandler(s, i) == c.handler
  }

  // How often a step must make the call c.
  ghost function Due(s: Registry, step: Step, c: Call): nat {
    match step
    case DoReclaimId(id) => if GetHandler(s, id) == c.handler then |Holders(s, id, c.ptr, s.chain)| else 0
    case DoThreadExit(t) => if t in s.tls then |Doomed(s, s.tls[t], |s.tls[t]|, c)| else 0
    case _ => 0
  }

  lemma {:induction false} CallsOf(handler: Handler, ptrs: seq<Ptr>, c: Call)
    ensures multiset(CallsFor(handler, ptrs))[c] == if c.handler == handler then multiset(ptrs)[c.ptr] else 0
  {
    var n := |ptrs|;
    if n > 0 {
      var front := ptrs[..n - 1];
      CallsOf(handler, front, c);
      assert ptrs == front + [ptrs[n - 1]];
      assert CallsFor(handler, ptrs) == CallsFor(handler, front) + [Call(handler, ptrs[n - 1])];
    }
  }

  lemma CallsLetGo(s: Registry, handler: Handler, ptrs: seq<Ptr>, c: Call)
    requires c.handler != 0
    ensures multiset(LetGo(s, handler, ptrs).calls)[c] ==
            multiset(s.calls)[c] + if handler == c.handler then multiset(ptrs)[c.ptr] else 0
  {
    hide CallsFor;
    CallsOf(handler, ptrs, c);
  }

  lemma {:induction false} CallsAtExit(s: Registry, entries: seq<Ptr>, n: nat, c: Call)
    requires n <= |entries| && c.handler != 0 && c.ptr != 0
    ensures multiset(LetGoCells(s, entries, n).calls)[c] == multiset(s.calls)[c] + |Doomed(s, entries, n, c)|
  {
    hide LetGo, GetHandler;
    if n == 0 {
      assert Doomed(s, entries, 0, c) == {};
    } else {
      CallsAtExit(s, entries, n - 1, c);
      var m, last := LetGoCells(s, entries, n - 1), entries[n - 1];
      CallsLetGo(m, GetHandler(s, n - 1), [last], c);
      assert Doomed(s, entries, n, c) ==
             Doomed(s, entries, n - 1, c) + if last == c.ptr && GetHandler(s, n - 1) == c.handler then {n - 1} else {};
    }
  }

  // A handler is called with a pointer exactly as often as the pointer is still stored, under an
  // instance with that handler, when its thread exits or its instance is destroyed. No other step
  // calls one.
  lemma UnrefsExactly(s: Registry, step: Step, c: Call)
    requires Inv(s) && Allowed(s, step) && c.handler != 0 && c.ptr != 0
    ensures multiset(Do(s, step).calls)[c] == multiset(s.calls)[c] + Due(s, step, c)
  {
    hide Sweep, Register, Reach, LetGo, Holders, Doomed, GetHandler, LetGoCells;
    match step
    case DoReclaimId(id) =>
      var m := Sweep(s, id, 0, |s.chain|);
      assert s.chain[..|s.chain|] == s.chain;
      SweepFinds(s, id, 0, |s.chain|, c.ptr);
      CallsLetGo(m.s, GetHandler(s, id), m.ptrs, c);
    case DoThreadExit(t) =>
      if t in s.tls {
        var r := s.(chain := RemoveThread(s.chain, t), tls := s.tls - {t});
        CallsAtExit(r, s.tls[t], |s.tls[t]|, c);
        SameDoomed(s, r, s.tls[t], |s.tls[t]|, c);
      }
    case _ =>
  }

  lemma SameDoomed(s: Registry, r: Registry, entries: seq<Ptr>, n: nat, c: Call)
    requires r.handlers == s.handlers && n <= |entries|
    ensures Doomed(s, entries, n, c) == Doomed(r, entries, n, c)
  {
    assert forall i :: GetHandler(s, i) == GetHandler(r, i);
  }

  // ---------- what reads and handlers are over runs ----------

  // What every thread reads, of every instance, after each step.
  function ReadAfter(s: Registry, step: Step, u: Tid, i: Id): Ptr {
    match step
    case DoReclaimId(id) => if i == id then 0 else Read(s, u, i)
    case DoSwap(t, id, p) => if u == t && i == id then p else Read(s, u, i)
    case DoCompareAndSwap(t, id, p, expected) =>
      if u == t && i == id && Read(s, u, i) == expected then p else Read(s, u, i)
    case DoScrape(id, p) => if i == id && u in s.tls && id < |s.tls[u]| then p else Read(s, u, i)
    case DoThreadExit(t) => if u == t then 0 else Read(s, u, i)
    case _ => Read(s, u, i)
  }

  lemma StepReads(s: Registry, step: Step, u: Tid, i: Id)
    requires Inv(s) && Allowed(s, step)
    ensures Read(Do(s, step), u, i) == ReadAfter(s, step, u, i)
  {
    hide Inv, Swap, CompareAndSwap, Scrape, ReclaimId, Reach, Register, LetGoCells, GetId, RemoveThread;
    match step
    case DoGetId => GetIdTls(s);
    case DoReclaimId(id) => ReclaimReads(s, id, u, i);
    case DoGet(t, id) => RegisterKeeps(s, t);
    case DoReach(t, id) =>
      IdBound(s, id);
      ReachKeeps(s, t, id);
    case DoSwap(t, id, p) => SwapIsolated(s, t, id, p);
    case DoCompareAndSwap(t, id, p, expected) => CompareIsolated(s, t, id, p, expected);
    case DoScrape(id, p) => ScrapeReturnsAll(s, id, p);
    case _ =>
  }

  lemma ReclaimReads(s: Registry, id: Id, u: Tid, i: Id)
    requires Inv(s)
    ensures Read(ReclaimId(s, id), u, i) == if i == id then 0 else Read(s, u, i)
  {
    hide Sweep;
    assert s.chain[..|s.chain|] == s.chain;
    SweepCells(s, id, 0, |s.chain|);
  }

  // SetHandler gives one instance its handler, and reclaiming an id takes the handler away.
  function HandlerStep(h: Handler, step: Step, id: Id): Handler {
    match step
    case DoSetHandler(i, handler) => if i == id then handler else h
    case DoReclaimId(i) => if i == id then 0 else h
    case _ => h
  }

  lemma StepHandlers(s: Registry, step: Step, id: Id)
    ensures GetHandler(Do(s, step), id) == HandlerStep(GetHandler(s, id), step, id)
  {
    hide Sweep, Reach, Register, LetGoCells, RemoveThread;
  }

  // The handler last set for an id since it was last reclaimed, after h.
  function LastHandler(h: Handler, steps: seq<Step>, id: Id): Handler
    decreases |steps|
  {
    if steps == [] then h else LastHandler(HandlerStep(h, steps[0], id), steps[1..], id)
  }

  lemma {:induction false} HandlersOver(s: Registry, steps: seq<Step>, r: Registry, id: Id)
    requires Runs(s, steps, r)
    ensures GetHandler(r, id) == LastHandler(GetHandler(s, id), steps, id)
    decreases |steps|
  {
    if steps != [] {
      hide Do, GetHandler, HandlerStep;
      StepHandlers(s, steps[0], id);
      HandlersOver(Do(s, steps[0]), steps[1..], r, id);
    }
  }

  // In every run the handler of an instance is the one last set for it, or none.
  lemma HandlerIsLastSet(steps: seq<Step>, r: Registry, id: Id)
    requires Runs(EMPTY, steps, r)
    ensures GetHandler(r, id) == LastHandler(0, steps, id)
  {
    HandlersOver(EMPTY, steps, r, id);
  }

  // The instances under which a thread stores c's pointer, when c's handler was last set for them.
  ghost function Marked(r: Registry, steps: seq<Step>, t: Tid, c: Call): set<Id>
    requires t in r.tls
  {
    set i | 0 <= i < |r.tls[t]| && Read(r, t, i) == c.ptr && LastHandler(0, steps, i) == c.handler
  }

  // So in every run a pointer is handed to the handlers last set: when a thread exits, once for each
  // of its cells that holds the pointer under an instance with that handler; when an instance is
  // destroyed, once for each thread that stored the pointer in it.
  lemma UnrefsOverRuns(steps: seq<Step>, r: Registry, c: Call)
    requires Runs(EMPTY, steps, r) && c.handler != 0 && c.ptr != 0
    ensures forall t :: t in r.tls ==>
              multiset(ThreadExit(r, t).calls)[c] == multiset(r.calls)[c]
                + |Marked(r, steps, t, c)|
    ensures forall id :: id in r.live ==>
              multiset(ReclaimId(r, id).calls)[c] == multiset(r.calls)[c]
                + if LastHandler(0, steps, id) == c.handler then |Holders(r, id, c.ptr, r.chain)| else 0
  {
    hide GetHandler, LastHandler, Holders, ThreadExit, ReclaimId, Inv;
    EmptyInv();
    RunKeeps(EMPTY, steps, r);
    forall i: Id
      ensures GetHandler(r, i) == LastHandler(0, steps, i)
    {
      HandlerIsLastSet(steps, r, i);
    }
    forall t | t in r.tls
      ensures multiset(ThreadExit(r, t).calls)[c] == multiset(r.calls)[c]
                + |Marked(r, steps, t, c)|
    {
      UnrefsExactly(r, DoThreadExit(t), c);
      assert Do(r, DoThreadExit(t)) == ThreadExit(r, t);
      assert Due(r, DoThreadExit(t), c) == |Doomed(r, r.tls[t], |r.tls[t]|, c)|;
      assert Doomed(r, r.tls[t], |r.tls[t]|, c) == Marked(r, steps, t, c);
    }
    forall id | id in r.live
      ensures multiset(ReclaimId(r, id).calls)[c] == multiset(r.calls)[c]
                + if LastHandler(0, steps, id) == c.handler then |Holders(r, id, c.ptr, r.chain)| else 0
    {
      UnrefsExactly(r, DoReclaimId(id), c);
    }
  }
}
