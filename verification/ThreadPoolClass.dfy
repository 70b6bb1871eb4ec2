/**
 The pool object of rutil/threadpool_imp.cc: the code of each lock region on mutable fields, with
 the loops of StartBGThreads and UnSchedule. Each method makes the transition that module
 ThreadPool gives for its region.
 */
module ThreadPoolClass {
  import opened ThreadPool

  // After `done` jobs of the queue `all`: the kept ones are in front of the iterator, the tickets of
  // the others in `unscheduled`, and the rest of the queue is as it was.
  ghost predicate Scanned(
    all: seq<Job>, before: seq<nat>, tag: int, done: nat, queue: seq<Job>, it: nat, unscheduled: seq<nat>)
  {
    && done <= |all| && it <= |queue| && queue[it..] == all[done..]
    && Keep(all, tag) == queue[..it] + Keep(all[done..], tag)
    && before + Drop(all, tag) == unscheduled + Drop(all[done..], tag)
  }

  lemma NothingDone(all: seq<Job>, before: seq<nat>, tag: int)
    ensures Scanned(all, before, tag, 0, all, 0, before)
  {
    hide Keep, Drop;
    assert all[0..] == all && all[..0] == [];
  }

  lemma AllDone(all: seq<Job>, before: seq<nat>, tag: int, done: nat, queue: seq<Job>, it: nat, unscheduled: seq<nat>)
    requires Scanned(all, before, tag, done, queue, it, unscheduled) && it == |queue|
    ensures queue == Keep(all, tag) && unscheduled == before + Drop(all, tag)
  {
    assert all[done..] == [] && queue[..it] == queue;
  }

  // One job on: the kept one is passed, the dropped one taken out.
  lemma ScanOne(all: seq<Job>, before: seq<nat>, tag: int, done: nat, queue: seq<Job>, it: nat, unscheduled: seq<nat>)
    requires Scanned(all, before, tag, done, queue, it, unscheduled) && it < |queue|
    ensures if queue[it].tag == tag
            then Scanned(all, before, tag, done + 1, queue[..it] + queue[it + 1..], it,
              unscheduled + [queue[it].ticket])
            else Scanned(all, before, tag, done + 1, queue, it + 1, unscheduled)
  {
    hide Keep, Drop;
    RestOf(all, done, queue, it, tag);
    if queue[it].tag == tag {
      var next := queue[..it] + queue[it + 1..];
      assert next[..it] == queue[..it] && next[it..] == queue[it + 1..];
    } else {
      assert queue[..it + 1] == queue[..it] + [queue[it]];
    }
  }

  lemma RestOf(all: seq<Job>, done: nat, queue: seq<Job>, it: nat, tag: int)
    requires done <= |all| && it < |queue| && queue[it..] == all[done..]
    ensures done < |all| && queue[it + 1..] == all[done + 1..]
    ensures var rest := all[done + 1..];
            && Keep(all[done..], tag)
              == (if queue[it].tag == tag then Keep(rest, tag) else [queue[it]] + Keep(rest, tag))
            && Drop(all[done..], tag)
              == (if queue[it].tag == tag then [queue[it].ticket] + Drop(rest, tag) else Drop(rest, tag))
  {
    assert queue[it..][0] == queue[it] == all[done..][0];
    assert queue[it..][1..] == queue[it + 1..];
    assert all[done..][1..] == all[done + 1..];
  }

  class ThreadPoolImpl {
    var limit: int
    var bgthreads: seq<Tid>
    var threads: map<Tid, Worker>
    var nextTid: nat
    var queue: seq<Job>
    var queueLen: nat
    var exit: bool
    var nextTicket: nat
    var started: seq<Start>
    var unscheduled: seq<nat>

    function Abs(): Pool
      reads this
    {
      Pool(limit, bgthreads, threads, nextTid, queue, queueLen, exit, nextTicket, started, unscheduled)
    }

    constructor ()
      ensures Abs() == INIT
    {
      limit, bgthreads, threads, nextTid := 1, [], map[], 0;
      queue, queueLen, exit, nextTicket, started, unscheduled := [], 0, false, 0, [], [];
    }

    method WakeUp(woken: set<Tid>)
      modifies this`threads
      ensures Abs() == Wake(old(Abs()), woken)
    {
      threads := Wake(Abs(), woken).threads;
    }

    method StartBGThreads()
      modifies this`bgthreads, this`threads, this`nextTid
      ensures Abs() == ThreadPool.StartBGThreads(old(Abs()))
    {
      while |bgthreads| < limit
        invariant ThreadPool.StartBGThreads(Abs()) == ThreadPool.StartBGThreads(old(Abs()))
      {
        threads := threads[nextTid := Worker(|bgthreads|, Awake)];
        bgthreads := bgthreads + [nextTid];
        nextTid := nextTid + 1;
      }
    }

    method Schedule(tag: int, signalled: set<Tid>)
      modifies this
      ensures Abs() == ThreadPool.Schedule(old(Abs()), tag, signalled)
    {
      hide Wake, Sleepers;
      if exit {
        return;
      }
      StartBGThreads();
      queue := queue + [Job(nextTicket, tag)];
      nextTicket := nextTicket + 1;
      queueLen := |queue|;
      if |bgthreads| <= limit {
        WakeUp(signalled);
      } else {
        WakeUp(Sleepers(Abs()));
      }
    }

    // Returns how many jobs were taken back; their tickets go to `unscheduled` in queue order.
    method UnSchedule(tag: int) returns (count: nat)
      modifies this`queue, this`queueLen, this`unscheduled
      ensures Abs() == ThreadPool.UnSchedule(old(Abs()), tag)
      ensures count == |old(queue)| - |queue|
    {
      count := 0;
      var it := 0;
      ghost var all, done := queue, 0;
      NothingDone(all, unscheduled, tag);
      while it < |queue|
        invariant 0 <= it <= |queue| && count + |queue| == |all| && done == it + count
        invariant Scanned(all, old(unscheduled), tag, done, queue, it, unscheduled)
        decreases |queue| - it
      {
        ScanOne(all, old(unscheduled), tag, done, queue, it, unscheduled);
        if queue[it].tag == tag {
          unscheduled := unscheduled + [queue[it].ticket];
          queue := queue[..it] + queue[it + 1..];
          count := count + 1;
        } else {
          it := it + 1;
        }
        done := done + 1;
      }
      AllDone(all, old(unscheduled), tag, done, queue, it, unscheduled);
      queueLen := |queue|;
    }

    method SetBackgroundThreads(num: int, allowReduce: bool)
      modifies this
      ensures Abs() == ThreadPool.SetBackgroundThreads(old(Abs()), num, allowReduce)
    {
      hide Wake, Sleepers;
      if exit {
        return;
      }
      if num > limit || (num < limit && allowReduce) {
        limit := if 1 > num then 1 else num;
        WakeUp(Sleepers(Abs()));
        StartBGThreads();
      }
    }

    // JoinAllThreads up to its unlock, and after its joins.
    method BeginShutdown()
      requires !exit
      modifies this
      ensures Abs() == Do(old(Abs()), DoShutdown)
    {
      hide Wake, Sleepers;
      exit := true;
      WakeUp(Sleepers(Abs()));
    }

    method EndShutdown()
      requires Enabled(Abs(), DoJoined)
      modifies this
      ensures Abs() == Do(old(Abs()), DoJoined)
    {
      bgthreads, threads := [], map[];
    }

    // One passage of worker t through the mutex in BGThread.
    method BGThread(t: Tid)
      requires t in threads && threads[t].phase.Awake?
      modifies this
      ensures Abs() == Proceed(old(Abs()), t)
    {
      hide Wake, Sleepers;
      var id := threads[t].id;
      if !exit && !(|bgthreads| > limit && id == |bgthreads| - 1) && (queue == [] || id >= limit) {
        threads := threads[t := Worker(id, Asleep)];
        return;
      }
      if exit {
        threads := threads[t := Worker(id, Exited)];
        return;
      }
      if |bgthreads| > limit && id == |bgthreads| - 1 {
        bgthreads := bgthreads[..|bgthreads| - 1];
        threads := threads - {t};
        if |bgthreads| > limit {
          WakeUp(Sleepers(Abs()));
        }
        return;
      }
      var job := queue[0];
      queue := queue[1..];
      queueLen := |queue|;
      threads := threads[t := Worker(id, Running(job.ticket))];
      started := started + [Start(job.ticket, id, limit)];
    }
  }
}
