/**
 StaticMeta (rutil/thread_local.cc:54-81, 164-283) as an object: its fields are updated in the
 order of the source, with the loops over threads and entries, and each method is proved to make
 the transition of module ThreadLocal.
 */
module ThreadLocalClass {
  import opened ThreadLocal

  class StaticMeta {
    var nextInstanceId: Id
    var freeInstanceIds: seq<Id>
    var handlerMap: map<Id, Handler>
    var chain: seq<Tid>
    var entries: map<Tid, seq<Ptr>>
    var calls: seq<Call>
    ghost var live: set<Id>
    ghost var given: multiset<Ptr>
    ghost var taken: multiset<Ptr>
    ghost var leaked: multiset<Ptr>

    ghost function View(): Registry
      reads this
    {
      Registry(nextInstanceId, freeInstanceIds, handlerMap, chain, entries, live, calls, given, taken, leaked)
    }

    constructor ()
      ensures View() == EMPTY && Inv(View())
    {
      EmptyInv();
      nextInstanceId, freeInstanceIds, handlerMap, chain, entries := 0, [], map[], [], map[];
      calls, live, given, taken, leaked := [], {}, multiset{}, multiset{}, multiset{};
    }

    method GetId() returns (id: Id)
      requires Inv(View())
      modifies this
      ensures id == NextId(old(View())) && View() == ThreadLocal.GetId(old(View())) && Inv(View())
    {
      hide Inv;
      GetIdKeeps(View());
      if freeInstanceIds == [] {
        id := nextInstanceId;
        nextInstanceId := nextInstanceId + 1;
      } else {
        id := freeInstanceIds[|freeInstanceIds| - 1];
        freeInstanceIds := freeInstanceIds[..|freeInstanceIds| - 1];
      }
      live := live + {id};
    }

    method SetHandler(id: Id, handler: Handler)
      modifies this
      ensures View() == ThreadLocal.SetHandler(old(View()), id, handler)
    {
      handlerMap := handlerMap[id := handler];
    }

    // The first access of a thread, and a vector long enough for the instance.
    method GetThreadLocal(t: Tid)
      modifies this
      ensures View() == Register(old(View()), t)
    {
      if t !in entries {
        entries := entries[t := []];
        chain := chain + [t];
      }
    }

    method Resize(t: Tid, id: Id)
      modifies this
      ensures View() == Reach(old(View()), t, id)
    {
      GetThreadLocal(t);
      if id >= |entries[t]| {
        entries := entries[t := entries[t] + Nulls(id + 1 - |entries[t]|)];
      }
      assert entries == entries[t := entries[t]];
    }

    method Get(t: Tid, id: Id) returns (p: Ptr)
      modifies this
      ensures p == Read(old(View()), t, id) && View() == Register(old(View()), t)
    {
      GetThreadLocal(t);
      p := if id >= |entries[t]| then 0 else entries[t][id];
    }

    method Swap(t: Tid, id: Id, p: Ptr) returns (found: Ptr)
      modifies this
      ensures found == Read(old(View()), t, id) && View() == ThreadLocal.Swap(old(View()), t, id, p)
    {
      hide Reach;
      ReachReads(View(), t, id);
      Resize(t, id);
      found := entries[t][id];
      entries := entries[t := SetCell(entries[t], id, p)];
      given, taken := given + multiset{p}, taken + multiset{found};
    }

    static lemma ReachReads(s: Registry, t: Tid, id: Id)
      ensures Read(Reach(s, t, id), t, id) == Read(s, t, id)
    {
    }

    method Reset(t: Tid, id: Id, p: Ptr)
      modifies this
      ensures View() == ThreadLocal.Swap(old(View()), t, id, p)
    {
      var _ := Swap(t, id, p);
    }

    // Returns whether the pointer was replaced, and the pointer found if it was not the expected one.
    method CompareAndSwap(t: Tid, id: Id, p: Ptr, expected: Ptr) returns (ok: bool, found: Ptr)
      modifies this
      ensures View() == ThreadLocal.CompareAndSwap(old(View()), t, id, p, expected)
      ensures found == Read(old(View()), t, id) && ok == (found == expected)
    {
      hide Reach;
      ReachReads(View(), t, id);
      Resize(t, id);
      found := entries[t][id];
      ok := found == expected;
      if ok {
        entries := entries[t := SetCell(entries[t], id, p)];
        given, taken := given + multiset{p}, taken + multiset{found};
      }
    }

    method Scrape(id: Id, replacement: Ptr) returns (ptrs: seq<Ptr>)
      modifies this
      ensures Swept(View(), ptrs) == ThreadLocal.Scrape(old(View()), id, replacement)
    {
      hide ThreadLocal.Sweep;
      ghost var s := View();
      SweepNone(s, id, replacement);
      ptrs := [];
      var k := 0;
      while k < |chain|
        invariant k <= |chain| && chain == s.chain
        invariant Swept(View(), ptrs) == ThreadLocal.Sweep(s, id, replacement, k)
      {
        SweepUnfold(s, id, replacement, k + 1);
        var t := chain[k];
        if t in entries && id < |entries[t]| {
          var ptr := entries[t][id];
          entries := entries[t := SetCell(entries[t], id, replacement)];
          given := given + multiset{replacement};
          if ptr != 0 {
            ptrs := ptrs + [ptr];
          }
        }
        k := k + 1;
      }
      taken := taken + multiset(ptrs);
    }

    method Unref(unref: Handler, ptr: Ptr)
      modifies this`calls, this`leaked
      ensures View() == LetGo(old(View()), unref, [ptr])
    {
      if unref != 0 {
        assert CallsFor(unref, [ptr]) == [Call(unref, ptr)];
        calls := calls + [Call(unref, ptr)];
      } else {
        leaked := leaked + multiset{ptr};
        assert multiset([ptr]) == multiset{ptr};
      }
    }

    method ReclaimId(id: Id)
      requires Inv(View()) && id in live
      modifies this
      ensures View() == ThreadLocal.ReclaimId(old(View()), id) && Inv(View())
    {
      hide Inv, ThreadLocal.Sweep, LetGo, SweepOne;
      ReclaimKeeps(View(), id);
      ghost var s := View();
      var unref := if id in handlerMap then handlerMap[id] else 0;
      SweepNone(s, id, 0);
      NothingLetGo(s, unref);
      var k := 0;
      while k < |chain|
        invariant k <= |chain| && chain == s.chain
        invariant View() == LetGo(ThreadLocal.Sweep(s, id, 0, k).s, unref, ThreadLocal.Sweep(s, id, 0, k).ptrs)
      {
        SweepUnfold(s, id, 0, k + 1);
        ReclaimCell(s, chain[k], id, unref, k);
        k := k + 1;
      }
      handlerMap := handlerMap[id := 0];
      freeInstanceIds := freeInstanceIds + [id];
      live := live - {id};
      SameLive(ThreadLocal.Sweep(s, id, 0, k).s, unref, ThreadLocal.Sweep(s, id, 0, k).ptrs);
    }

    static lemma NothingLetGo(s: Registry, handler: Handler)
      ensures LetGo(s, handler, []) == s
    {
      assert s.calls + CallsFor(handler, []) == s.calls;
      assert s.leaked + multiset([]) == s.leaked;
    }

    static lemma SameLive(s: Registry, handler: Handler, ptrs: seq<Ptr>)
      ensures var r := LetGo(s, handler, ptrs);
              r == s.(calls := r.calls, leaked := r.leaked)
    {
    }

    // Letting go commutes with the sweep going on.
    static lemma LetGoLater(m: Swept, t: Tid, id: Id, handler: Handler)
      requires t in m.s.tls && id < |m.s.tls[t]|
      ensures var l := LetGo(m.s, handler, m.ptrs);
              var found := m.s.tls[t][id];
              var r := SweepOne(m, t, id, 0);
              && t in l.tls && id < |l.tls[t]| && l.tls[t][id] == found
              && LetGo(r.s, handler, r.ptrs) ==
                 if found != 0 then LetGo(Exchange(l, t, id, 0), handler, [found]) else Exchange(l, t, id, 0)
    {
      var found := m.s.tls[t][id];
      if found != 0 {
        assert CallsFor(handler, m.ptrs + [found]) == CallsFor(handler, m.ptrs) + CallsFor(handler, [found]);
        assert multiset(m.ptrs + [found]) == multiset(m.ptrs) + multiset([found]);
        assert m.s.calls + (CallsFor(handler, m.ptrs) + CallsFor(handler, [found]))
            == (m.s.calls + CallsFor(handler, m.ptrs)) + CallsFor(handler, [found]);
      }
    }

    // The loop body of ReclaimId.
    method ReclaimCell(ghost s: Registry, t: Tid, id: Id, unref: Handler, ghost k: nat)
      requires k < |s.chain| && t == s.chain[k]
      requires View() == LetGo(ThreadLocal.Sweep(s, id, 0, k).s, unref, ThreadLocal.Sweep(s, id, 0, k).ptrs)
      modifies this
      ensures var r := SweepOne(ThreadLocal.Sweep(s, id, 0, k), t, id, 0);
              View() == LetGo(r.s, unref, r.ptrs)
      ensures chain == old(chain)
    {
      hide ThreadLocal.Sweep, LetGo, Exchange;
      ghost var m := ThreadLocal.Sweep(s, id, 0, k);
      SameLive(m.s, unref, m.ptrs);
      if t in entries && id < |entries[t]| {
        LetGoLater(m, t, id, unref);
        var ptr := ExchangeNull(t, id);
        if ptr != 0 {
          Unref(unref, ptr);
        }
      }
    }

    method ExchangeNull(t: Tid, id: Id) returns (ptr: Ptr)
      requires t in entries && id < |entries[t]|
      modifies this`entries, this`given
      ensures ptr == old(entries[t][id]) && View() == Exchange(old(View()), t, id, 0)
    {
      ptr := entries[t][id];
      entries := entries[t := SetCell(entries[t], id, 0)];
      given := given + multiset{0};
    }

    method OnThreadExit(t: Tid)
      requires Inv(View()) && t in entries
      modifies this
      ensures View() == ThreadExit(old(View()), t) && Inv(View())
    {
      hide Inv, LetGo, GetHandler;
      ExitKeeps(View(), t);
      var mine := entries[t];
      chain := RemoveThread(chain, t);
      entries := entries - {t};
      ghost var s := View();
      var id := 0;
      while id < |mine|
        invariant id <= |mine| && View() == LetGoCells(s, mine, id)
      {
        var raw := mine[id];
        if raw != 0 {
          var unref := HandlerOf(id);
          assert GetHandler(View(), id) == GetHandler(s, id) by { SameHandler(View(), s, id); }
          Unref(unref, raw);
        }
        id := id + 1;
      }
    }

    static lemma SameHandler(a: Registry, b: Registry, id: Id)
      requires a.handlers == b.handlers
      ensures GetHandler(a, id) == GetHandler(b, id)
    {
    }

    method HandlerOf(id: Id) returns (handler: Handler)
      ensures handler == GetHandler(View(), id)
    {
      handler := if id in handlerMap then handlerMap[id] else 0;
    }
  }
}
