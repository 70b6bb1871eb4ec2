/**
 What the calls of the thread pool promise their callers (rutil/threadpool_imp.cc:88-302): each lock
 region by what it does to the jobs, the threads and the limit, and what follows over whole runs.
 */
module ThreadPoolRuns {
  import opened ThreadPool

  // ---------- one step ----------

  // The threads of p are there with the same ids; some sleepers may have been woken.
  ghost predicate OnlyWoken(p: Pool, q: Pool) {
    forall t :: t in p.threads ==>
      t in q.threads && q.threads[t].id == p.threads[t].id
      && (q.threads[t].phase == p.threads[t].phase || (p.threads[t].phase.Asleep? && q.threads[t].phase.Awake?))
  }

  ghost predicate NobodySleeps(q: Pool) {
    forall t :: t in q.threads ==> !q.threads[t].phase.Asleep?
  }

  // Threads that p does not have are awake, and there are as many of them as the limit asks for.
  ghost predicate FullStaff(p: Pool, q: Pool) {
    && p.bgthreads <= q.bgthreads
    && |q.bgthreads| == (if |p.bgthreads| < q.limit then q.limit else |p.bgthreads|)
    && (forall t :: t in q.threads && t !in p.threads ==> q.threads[t].phase.Awake?)
  }

  predicate SameJobs(p: Pool, q: Pool) {
    && q.queue == p.queue && q.queueLen == p.queueLen && q.started == p.started && q.unscheduled == p.unscheduled
    && q.nextTicket == p.nextTicket
  }

  predicate SameSettings(p: Pool, q: Pool) {
    q.limit == p.limit && q.exit == p.exit
  }

  lemma {:induction false} StartsThreads(p: Pool)
    requires Roster(p)
    ensures var q := StartBGThreads(p);
            && Roster(q) && FullStaff(p, q) && SameJobs(p, q) && SameSettings(p, q)
            && forall t :: t in p.threads ==> t in q.threads && q.threads[t] == p.threads[t]
    decreases p.limit - |p.bgthreads|
  {
    if |p.bgthreads| < p.limit {
      var r := StartThread(p);
      assert Roster(r) by { Started(p); }
      StartsThreads(r);
    }
  }

  lemma Wakes(p: Pool, r: Pool, woken: set<Tid>)
    requires FullStaff(p, r) && forall t :: t in p.threads ==> t in r.threads && r.threads[t] == p.threads[t]
    ensures var q := Wake(r, woken);
            && FullStaff(p, q) && OnlyWoken(p, q)
            && (forall t :: t in woken && t in Sleepers(p) ==> t in q.threads && q.threads[t].phase.Awake?)
            && (woken == Sleepers(r) ==> NobodySleeps(q))
  {
  }

  lemma SleepersHave(p: Pool, signalled: set<Tid>)
    requires signalled <= Sleepers(p)
    ensures forall t :: t in signalled ==> t in Sleepers(p)
  {
  }

  lemma SameWake(m: Pool, r: Pool, woken: set<Tid>)
    requires m.threads == r.threads
    ensures Wake(m, woken).threads == Wake(r, woken).threads && Sleepers(m) == Sleepers(r)
  {
  }

  lemma SameStaff(p: Pool, a: Pool, b: Pool)
    requires FullStaff(p, a) && b.bgthreads == a.bgthreads && b.threads == a.threads && b.limit == a.limit
    ensures FullStaff(p, b)
  {
  }

  // A job that is scheduled before shutdown is the last of the queue, with its tag and the next
  // ticket; there are at least as many threads as the limit; one sleeper is woken, or all of them.
  lemma SchedulePromise(p: Pool, tag: int, signalled: set<Tid>)
    requires Roster(p) && Enabled(p, DoSchedule(tag, signalled))
    ensures var q := Schedule(p, tag, signalled);
            if p.exit then q == p
            else
              && q.queue == p.queue + [Job(p.nextTicket, tag)] && q.nextTicket == p.nextTicket + 1
              && Tickets(q.queue) == Tickets(p.queue) + [p.nextTicket] && q.queueLen == |q.queue|
              && q.started == p.started && q.unscheduled == p.unscheduled && SameSettings(p, q)
              && OnlyWoken(p, q) && FullStaff(p, q)
              && (forall t :: t in signalled ==> q.threads[t].phase.Awake?)
              && (|q.bgthreads| > q.limit ==> NobodySleeps(q))
  {
    hide Roster, StartBGThreads, Wake, FullStaff;
    if !p.exit {
      StartsThreads(p);
      var r := StartBGThreads(p);
      SleepersHave(p, signalled);
      Wakes(p, r, signalled);
      Wakes(p, r, Sleepers(r));
      var m := r.(queue := r.queue + [Job(r.nextTicket, tag)], queueLen := |r.queue| + 1,
                  nextTicket := r.nextTicket + 1);
      assert Wake(m, signalled).threads == Wake(r, signalled).threads by { SameWake(m, r, signalled); }
      assert WakeAll(m).threads == WakeAll(r).threads by { SameWake(m, r, Sleepers(r)); }
      SameStaff(p, Wake(r, signalled), Wake(m, signalled));
      SameStaff(p, WakeAll(r), WakeAll(m));
      TicketsAppend(p.queue, [Job(p.nextTicket, tag)]);
      assert Tickets([Job(p.nextTicket, tag)]) == [p.nextTicket];
    }
  }

  // The queue is without exactly the jobs of the tag, in the same order, and those are the ones
  // taken back.
  lemma UnSchedulePromise(p: Pool, tag: int)
    ensures var q := UnSchedule(p, tag);
            && (forall job :: multiset(q.queue)[job] == if job.tag == tag then 0 else multiset(p.queue)[job])
            && (Increasing(Tickets(p.queue)) ==> Increasing(Tickets(q.queue)))
            && multiset(q.unscheduled) == multiset(p.unscheduled) + multiset(Drop(p.queue, tag))
            && (forall t :: multiset(Drop(p.queue, tag))[t] + multiset(Tickets(q.queue))[t]
                            == multiset(Tickets(p.queue))[t])
            && q.queueLen == |q.queue| && |q.unscheduled| == |p.unscheduled| + |p.queue| - |q.queue|
            && q.started == p.started && q.nextTicket == p.nextTicket && q.threads == p.threads
            && q.bgthreads == p.bgthreads && SameSettings(p, q)
  {
    hide Increasing;
    KeepSplits(p.queue, tag);
    KeepShrinks(p.queue, tag);
    forall job
      ensures multiset(Keep(p.queue, tag))[job] == if job.tag == tag then 0 else multiset(p.queue)[job]
    {
      KeepCounts(p.queue, tag, job);
    }
    forall t
      ensures multiset(Drop(p.queue, tag))[t] + multiset(Tickets(Keep(p.queue, tag)))[t]
              == multiset(Tickets(p.queue))[t]
    {
      assert multiset(Tickets(p.queue))[t]
        == (multiset(Tickets(Keep(p.queue, tag))) + multiset(Drop(p.queue, tag)))[t];
    }
  }

  lemma {:induction false} KeepCounts(queue: seq<Job>, tag: int, job: Job)
    ensures multiset(Keep(queue, tag))[job] == if job.tag == tag then 0 else multiset(queue)[job]
  {
    if queue != [] {
      KeepCounts(queue[1..], tag, job);
      assert queue == [queue[0]] + queue[1..];
    }
  }

  // All threads of p were woken, and then threads were started.
  lemma AwakeStaff(p: Pool, w: Pool, q: Pool)
    requires w == WakeAll(p.(limit := w.limit)) && FullStaff(w, q)
    requires forall t :: t in w.threads ==> t in q.threads && q.threads[t] == w.threads[t]
    ensures OnlyWoken(p, q) && FullStaff(p, q) && NobodySleeps(q)
  {
  }

  // The limit becomes the number asked for, at least 1, unless that would lower it without leave or
  // the pool is shutting down; then everybody is awake to see it, and the staff is full.
  lemma SetThreadsPromise(p: Pool, num: int, allowReduce: bool)
    requires Roster(p)
    ensures var q := SetBackgroundThreads(p, num, allowReduce);
            && SameJobs(p, q) && q.exit == p.exit && OnlyWoken(p, q)
            && if p.exit || num == p.limit || (num < p.limit && !allowReduce) then q == p
               else q.limit == (if num < 1 then 1 else num) && FullStaff(p, q) && NobodySleeps(q)
  {
    hide StartBGThreads, Wake, FullStaff, Roster;
    if !p.exit && (num > p.limit || (num < p.limit && allowReduce)) {
      RosterLimit(p);
      var m := p.(limit := Max(1, num));
      SameRoster(p, m);
      AllWoken(m);
      StartsThreads(WakeAll(m));
      AwakeStaff(p, WakeAll(m), StartBGThreads(WakeAll(m)));
    }
  }

  // A worker below the limit that gets the mutex while jobs are queued runs the front one.
  lemma TakesFrontJob(p: Pool, t: Tid)
    requires Roster(p) && t in p.threads && p.threads[t].phase.Awake? && !p.exit
    requires p.queue != [] && p.threads[t].id < p.limit
    ensures var q := Proceed(p, t);
            && q.threads == p.threads[t := Worker(p.threads[t].id, Running(p.queue[0].ticket))]
            && p.queue == [p.queue[0]] + q.queue && q.queueLen == |q.queue|
            && q.started == p.started + [Start(p.queue[0].ticket, p.threads[t].id, p.limit)]
            && q.unscheduled == p.unscheduled && q.nextTicket == p.nextTicket
            && q.bgthreads == p.bgthreads && SameSettings(p, q)
  {
  }

  // Any other worker takes none: it leaves at shutdown, is detached if it is the last one and
  // excessive, and sleeps otherwise.
  lemma TakesNothing(p: Pool, t: Tid)
    requires Roster(p) && t in p.threads && p.threads[t].phase.Awake?
    requires p.exit || p.queue == [] || p.threads[t].id >= p.limit
    ensures var q := Proceed(p, t);
            && SameJobs(p, q) && SameSettings(p, q)
            && if p.exit then q.bgthreads == p.bgthreads && q.threads == p.threads[t := Worker(p.threads[t].id, Exited)]
               else if |p.bgthreads| > p.limit && p.bgthreads[|p.bgthreads| - 1] == t then
                 && q.bgthreads == p.bgthreads[..|p.bgthreads| - 1] && q.threads.Keys == p.threads.Keys - {t}
                 && OnlyWoken(p.(threads := p.threads - {t}), q)
                 && (|q.bgthreads| > q.limit ==> NobodySleeps(q))
               else q.bgthreads == p.bgthreads && q.threads == p.threads[t := Worker(p.threads[t].id, Asleep)]
  {
    assert forall i :: 0 <= i < |p.bgthreads| && p.bgthreads[i] == t ==> p.threads[t].id == i;
  }

  // Shutdown wakes everybody and keeps all else.
  lemma ShutdownPromise(p: Pool)
    requires Roster(p) && !p.exit
    ensures var q := Do(p, DoShutdown);
            && q.exit && SameJobs(p, q) && q.limit == p.limit && q.bgthreads == p.bgthreads
            && OnlyWoken(p, q) && NobodySleeps(q)
  {
  }

  // Nobody is left when the joins are done, and no job is lost or started by that.
  lemma JoinedPromise(p: Pool)
    requires Roster(p) && Enabled(p, DoJoined)
    ensures var q := Do(p, DoJoined);
            && q.bgthreads == [] && q.threads.Keys == {} && q.exit && SameJobs(p, q) && q.limit == p.limit
    ensures forall t :: t in p.threads ==> p.threads[t].phase.Exited?
  {
  }

  // ---------- whole runs ----------

  // The tags of the Schedule calls before shutdown.
  function Scheduled(steps: seq<Step>): seq<int>
    decreases |steps|
  {
    if steps == [] || steps[0].DoShutdown? then []
    else (if steps[0].DoSchedule? then [steps[0].tag] else []) + Scheduled(steps[1..])
  }

  // Each queued job carries the tag of the call that its ticket numbers.
  ghost predicate Tagged(queue: seq<Job>, tags: seq<int>) {
    forall i :: 0 <= i < |queue| ==> queue[i].ticket < |tags| && queue[i].tag == tags[queue[i].ticket]
  }

  lemma {:induction false} KeepIsPart(queue: seq<Job>, tag: int)
    ensures forall job :: job in Keep(queue, tag) ==> job in queue
  {
    if queue != [] {
      KeepIsPart(queue[1..], tag);
    }
  }

  lemma AfterExit(p: Pool, step: Step)
    requires Enabled(p, step) && p.exit
    ensures var q := Do(p, step);
            q.exit && q.nextTicket == p.nextTicket && forall job :: job in q.queue ==> job in p.queue
  {
    hide Wake, Sleepers, Drop, Keep;
    if step.DoUnSchedule? {
      KeepIsPart(p.queue, step.tag);
    }
  }

  lemma {:induction false} NothingAfterExit(p: Pool, steps: seq<Step>, q: Pool)
    requires p.exit && Reaches(p, steps, q)
    ensures q.nextTicket == p.nextTicket && forall job :: job in q.queue ==> job in p.queue
    decreases |steps|
  {
    hide Do, Enabled;
    if steps != [] {
      AfterExit(p, steps[0]);
      NothingAfterExit(Do(p, steps[0]), steps[1..], q);
    }
  }

  lemma StepTags(p: Pool, step: Step, tags: seq<int>)
    requires Attentive(p) && Enabled(p, step) && !p.exit && |tags| == p.nextTicket && Tagged(p.queue, tags)
    ensures var q := Do(p, step);
            var more := if step.DoSchedule? then tags + [step.tag] else tags;
            && q.nextTicket == |more| && Tagged(q.queue, more) && (q.exit <==> step.DoShutdown?)
  {
    hide Roster, Alert, Wake, Sleepers, StartBGThreads, Keep, Drop;
    match step
    case DoSchedule(tag, signalled) =>
      SchedulePromise(p, tag, signalled);
    case DoUnSchedule(tag) =>
      KeepIsPart(p.queue, tag);
      FewerTagged(p.queue, Keep(p.queue, tag), tags);
    case DoSetThreads(num, allowReduce) => SetThreadsPromise(p, num, allowReduce);
    case DoProceed(t) =>
    case _ =>
  }

  lemma {:induction false} RunTags(p: Pool, steps: seq<Step>, q: Pool, tags: seq<int>)
    requires Attentive(p) && !p.exit && Reaches(p, steps, q) && |tags| == p.nextTicket && Tagged(p.queue, tags)
    ensures var all := tags + Scheduled(steps); q.nextTicket == |all| && Tagged(q.queue, all)
    decreases |steps|
  {
    hide Attentive, Do, Enabled, Tagged, Scheduled;
    NoTags(steps);
    if steps == [] {
      assert tags + [] == tags;
    } else {
      var r := Do(p, steps[0]);
      StepAttentive(p, steps[0]);
      StepTags(p, steps[0], tags);
      if steps[0].DoShutdown? {
        NothingAfterExit(r, steps[1..], q);
        assert tags + [] == tags;
        FewerTagged(r.queue, q.queue, tags);
      } else {
        var more := if steps[0].DoSchedule? then tags + [steps[0].tag] else tags;
        RunTags(r, steps[1..], q, more);
        MoreTags(steps, tags);
      }
    }
  }

  lemma NoTags(steps: seq<Step>)
    ensures steps == [] || steps[0].DoShutdown? ==> Scheduled(steps) == []
  {
  }

  lemma MoreTags(steps: seq<Step>, tags: seq<int>)
    requires steps != [] && !steps[0].DoShutdown?
    ensures (if steps[0].DoSchedule? then tags + [steps[0].tag] else tags) + Scheduled(steps[1..])
            == tags + Scheduled(steps)
  {
  }

  lemma FewerTagged(a: seq<Job>, b: seq<Job>, tags: seq<int>)
    requires Tagged(a, tags) && forall job :: job in b ==> job in a
    ensures Tagged(b, tags)
  {
    forall i | 0 <= i < |b|
      ensures b[i].ticket < |tags| && b[i].tag == tags[b[i].ticket]
    {
      assert b[i] in b;
    }
  }

  // In every run exactly the calls of Schedule before shutdown are accepted: they are numbered in
  // order, each is started once, or taken back, or still queued, and a queued job has its call's tag.
  lemma EveryCallCounts(steps: seq<Step>, q: Pool)
    requires Reaches(INIT, steps, q)
    ensures var calls := Scheduled(steps);
            && q.nextTicket == |calls| && Tagged(q.queue, calls)
            && multiset(StartTickets(q.started)) + multiset(q.unscheduled) + multiset(Tickets(q.queue))
               == multiset(Range(|calls|))
            && Increasing(StartTickets(q.started) + Tickets(q.queue))
  {
    assert Attentive(INIT);
    RunTags(INIT, steps, q, []);
    assert [] + Scheduled(steps) == Scheduled(steps);
    assert Reachable(q);
    JobsConserved(q);
  }

  // The limit after the calls of SetBackgroundThreads and IncBackgroundThreadsIfNeeded.
  function LimitAfter(limit: int, steps: seq<Step>): int
    decreases |steps|
  {
    if steps == [] || steps[0].DoShutdown? then limit
    else
      var next := match steps[0]
                  case DoSetThreads(num, allowReduce) =>
                    if num > limit then num
                    else if !allowReduce then limit
                    else if num < 1 then 1
                    else num
                  case _ => limit;
      LimitAfter(next, steps[1..])
  }

  lemma {:induction false} LimitOver(p: Pool, steps: seq<Step>, q: Pool)
    requires Attentive(p) && Reaches(p, steps, q)
    ensures q.limit == if p.exit then p.limit else LimitAfter(p.limit, steps)
    decreases |steps|
  {
    hide Attentive, Do, Enabled;
    if steps != [] {
      StepAttentive(p, steps[0]);
      StepLimit(p, steps[0]);
      LimitOver(Do(p, steps[0]), steps[1..], q);
    }
  }

  lemma StepLimit(p: Pool, step: Step)
    requires Attentive(p) && Enabled(p, step)
    ensures var q := Do(p, step);
            && (q.exit <==> p.exit || step.DoShutdown?)
            && q.limit == match step
                          case DoSetThreads(num, allowReduce) =>
                            if p.exit then p.limit
                            else if num > p.limit then num
                            else if !allowReduce then p.limit
                            else if num < 1 then 1
                            else num
                          case _ => p.limit
  {
    hide Alert, Wake, Sleepers, StartBGThreads, Keep, Drop, Roster;
    match step
    case DoSchedule(tag, signalled) => SchedulePromise(p, tag, signalled);
    case DoSetThreads(num, allowReduce) =>
      SetThreadsPromise(p, num, allowReduce);
      RosterLimit(p);
    case _ =>
  }

  lemma RosterLimit(p: Pool)
    requires Roster(p)
    ensures p.limit >= 1
  {
  }

  // In every run before shutdown the limit is what the calls made it, and while jobs are queued there
  // are at least that many threads.
  lemma LimitIsLastSet(steps: seq<Step>, q: Pool)
    requires Reaches(INIT, steps, q)
    ensures q.limit == LimitAfter(1, steps)
    ensures !q.exit && q.queue != [] ==> |q.bgthreads| >= q.limit
  {
    assert Attentive(INIT);
    LimitOver(INIT, steps, q);
    RunAttentive(INIT, steps, q);
  }
}
