/**
 The thread pool (rutil/threadpool_imp.cc) as a state machine: each step is one region of code run
 under the pool's mutex, by a caller or by a worker thread, in any interleaving.
 */
module ThreadPool {
  // Where a worker is: in pthread_cond_wait, on its way to the mutex, running a job, or returned.
  datatype Phase = Asleep | Awake | Running(ticket: nat) | Exited

  // A thread handle, and the worker's own id argument.
  type Tid = nat
  datatype Worker = Worker(id: nat, phase: Phase)

  // Accepted jobs are numbered in the order of the Schedule calls.
  datatype Job = Job(ticket: nat, tag: int)
  datatype Start = Start(ticket: nat, id: nat, limit: int)

  datatype Pool = Pool(
    limit: int,                     // total_threads_limit_
    bgthreads: seq<Tid>,            // bgthreads_
    threads: map<Tid, Worker>,      // the worker threads that exist
    nextTid: nat,
    queue: seq<Job>,                // queue_
    queueLen: nat,                  // queue_len_
    exit: bool,                     // exit_all_threads_
    nextTicket: nat,
    started: seq<Start>,
    unscheduled: seq<nat>)

  const INIT: Pool := Pool(1, [], map[], 0, [], 0, false, 0, [], [])

  // ---------- the predicates of threadpool_imp.h ----------

  predicate HasExcessiveThread(p: Pool) {
    |p.bgthreads| > p.limit
  }

  predicate IsLastExcessiveThread(p: Pool, id: nat) {
    HasExcessiveThread(p) && id == |p.bgthreads| - 1
  }

  predicate IsExcessiveThread(p: Pool, id: nat) {
    id >= p.limit
  }

  // ---------- the lock regions ----------

  function WithPhase(p: Pool, t: Tid, phase: Phase): (r: Pool)
    requires t in p.threads
    ensures r == p.(threads := r.threads)
  {
    p.(threads := p.threads[t := p.threads[t].(phase := phase)])
  }

  function Sleepers(p: Pool): set<Tid> {
    set t | t in p.threads && p.threads[t].phase.Asleep?
  }

  // Waiters that return from the condition variable.
  function Wake(p: Pool, woken: set<Tid>): (r: Pool)
    ensures r == p.(threads := r.threads)
  {
    p.(threads := map t | t in p.threads ::
         if t in woken && p.threads[t].phase.Asleep? then p.threads[t].(phase := Awake) else p.threads[t])
  }

  function WakeAll(p: Pool): Pool {
    Wake(p, Sleepers(p))
  }

  function StartThread(p: Pool): Pool {
    p.(bgthreads := p.bgthreads + [p.nextTid],
       threads := p.threads[p.nextTid := Worker(|p.bgthreads|, Awake)],
       nextTid := p.nextTid + 1)
  }

  function StartBGThreads(p: Pool): Pool
    decreases p.limit - |p.bgthreads|
  {
    if |p.bgthreads| < p.limit then StartBGThreads(StartThread(p)) else p
  }

  // `signalled` are the waiters that pthread_cond_signal unblocks.
  function Schedule(p: Pool, tag: int, signalled: set<Tid>): Pool {
    if p.exit then p
    else
      var q := StartBGThreads(p);
      var r := q.(queue := q.queue + [Job(q.nextTicket, tag)], queueLen := |q.queue| + 1,
        nextTicket := q.nextTicket + 1);
      if HasExcessiveThread(r) then WakeAll(r) else Wake(r, signalled)
  }

  function Keep(queue: seq<Job>, tag: int): seq<Job> {
    if queue == [] then []
    else if queue[0].tag == tag then Keep(queue[1..], tag)
    else [queue[0]] + Keep(queue[1..], tag)
  }

  function Drop(queue: seq<Job>, tag: int): seq<nat> {
    if queue == [] then []
    else if queue[0].tag == tag then [queue[0].ticket] + Drop(queue[1..], tag)
    else Drop(queue[1..], tag)
  }

  function UnSchedule(p: Pool, tag: int): Pool {
    var rest := Keep(p.queue, tag);
    p.(queue := rest, queueLen := |rest|, unscheduled := p.unscheduled + Drop(p.queue, tag))
  }

  function Max(a: int, b: int): int {
    if a > b then a else b
  }

  function SetBackgroundThreads(p: Pool, num: int, allowReduce: bool): Pool {
    if p.exit then p
    else if num > p.limit || (num < p.limit && allowReduce) then
      StartBGThreads(WakeAll(p.(limit := Max(1, num))))
    else p
  }

  // An awake worker gets the mutex: it waits, exits, terminates as the last excessive thread, or
  // takes the front job.
  function Proceed(p: Pool, t: Tid): Pool
    requires t in p.threads && p.threads[t].phase.Awake?
  {
    var id := p.threads[t].id;
    if p.exit then WithPhase(p, t, Exited)
    else if IsLastExcessiveThread(p, id) then
      var q := p.(bgthreads := p.bgthreads[..|p.bgthreads| - 1], threads := p.threads - {t});
      if HasExcessiveThread(q) then WakeAll(q) else q
    else if p.queue == [] || IsExcessiveThread(p, id) then WithPhase(p, t, Asleep)
    else
      var job := p.queue[0];
      var q := WithPhase(p, t, Running(job.ticket));
      q.(queue := p.queue[1..], queueLen := |p.queue| - 1, started := p.started + [Start(job.ticket, id, p.limit)])
  }

  // ---------- steps and runs ----------

  datatype Step =
    | DoSchedule(tag: int, signalled: set<Tid>)
    | DoUnSchedule(tag: int)
    | DoSetThreads(num: int, allowReduce: bool)
    | DoProceed(t: Tid)
    | DoFinish(t: Tid)          // a job returns
    | DoSpurious(t: Tid)        // a wait may return without a signal
    | DoShutdown                // JoinAllThreads up to its unlock
    | DoJoined                  // JoinAllThreads once every join has returned

  // A signal wakes at least one waiter if there is any.
  predicate Enabled(p: Pool, step: Step) {
    match step
    case DoSchedule(_, signalled) => signalled <= Sleepers(p) && (Sleepers(p) != {} ==> signalled != {})
    case DoUnSchedule(_) => true
    case DoSetThreads(_, _) => true
    case DoProceed(t) => t in p.threads && p.threads[t].phase.Awake?
    case DoFinish(t) => t in p.threads && p.threads[t].phase.Running?
    case DoSpurious(t) => t in p.threads && p.threads[t].phase.Asleep?
    case DoShutdown => !p.exit
    case DoJoined => p.exit && forall t :: t in p.bgthreads ==> t in p.threads && p.threads[t].phase.Exited?
  }

  function Do(p: Pool, step: Step): Pool
    requires Enabled(p, step)
  {
    match step
    case DoSchedule(tag, signalled) => Schedule(p, tag, signalled)
    case DoUnSchedule(tag) => UnSchedule(p, tag)
    case DoSetThreads(num, allowReduce) => SetBackgroundThreads(p, num, allowReduce)
    case DoProceed(t) => Proceed(p, t)
    case DoFinish(t) => WithPhase(p, t, Awake)
    case DoSpurious(t) => WithPhase(p, t, Awake)
    case DoShutdown => WakeAll(p.(exit := true))
    case DoJoined => p.(bgthreads := [], threads := map[])
  }

  // A pool reached from p by these steps, each enabled when it is taken.
  ghost predicate Reaches(p: Pool, steps: seq<Step>, q: Pool)
    decreases |steps|
  {
    if steps == [] then p == q
    else Enabled(p, steps[0]) && Reaches(Do(p, steps[0]), steps[1..], q)
  }

  ghost predicate Reachable(q: Pool) {
    exists steps :: Reaches(INIT, steps, q)
  }

  // ---------- worker identity ----------

  // bgthreads_ lists exactly the existing threads, the i-th of them being the worker with id i.
  ghost predicate Roster(p: Pool) {
    && p.limit >= 1
    && (forall i :: 0 <= i < |p.bgthreads| ==> p.bgthreads[i] in p.threads && p.threads[p.bgthreads[i]].id == i)
    && (forall t :: t in p.threads ==> p.threads[t].id < |p.bgthreads| && p.bgthreads[p.threads[t].id] == t)
    && (forall t :: t in p.threads ==> t < p.nextTid)
  }

  // The phases of workers 0, 1, 2, ...
  ghost function Phases(p: Pool): (r: seq<Phase>)
    requires Roster(p)
    ensures |r| == |p.bgthreads|
    ensures forall i :: 0 <= i < |r| ==> r[i] == p.threads[p.bgthreads[i]].phase
  {
    seq(|p.bgthreads|, i requires 0 <= i < |p.bgthreads| => p.threads[p.bgthreads[i]].phase)
  }

  lemma PhaseSet(p: Pool, t: Tid, phase: Phase)
    requires Roster(p) && t in p.threads
    ensures Roster(WithPhase(p, t, phase))
    ensures Phases(WithPhase(p, t, phase)) == Phases(p)[p.threads[t].id := phase]
  {
  }

  lemma Woken(p: Pool, woken: set<Tid>)
    requires Roster(p)
    ensures var q := Wake(p, woken);
            && Roster(q)
            && (forall i :: 0 <= i < |p.bgthreads| ==>
                  Phases(q)[i] == if p.bgthreads[i] in woken && Phases(p)[i].Asleep? then Awake else Phases(p)[i])
  {
  }

  lemma AllWoken(p: Pool)
    requires Roster(p)
    ensures Roster(WakeAll(p)) && Asleep !in Phases(WakeAll(p))
  {
    Woken(p, Sleepers(p));
    forall i | 0 <= i < |p.bgthreads|
      ensures !Phases(WakeAll(p))[i].Asleep?
    {
    }
  }

  lemma {:induction false} Started(p: Pool)
    requires Roster(p)
    ensures var q := StartBGThreads(p);
            && Roster(q) && |q.bgthreads| >= p.limit
            && q == p.(bgthreads := q.bgthreads, threads := q.threads, nextTid := q.nextTid)
            && (|p.bgthreads| >= p.limit ==> q == p)
            && (|p.bgthreads| < p.limit ==> |q.bgthreads| == p.limit)
            && p.bgthreads <= q.bgthreads && Phases(p) <= Phases(q)
            && (forall i :: |p.bgthreads| <= i < |q.bgthreads| ==> Phases(q)[i] == Awake)
    decreases p.limit - |p.bgthreads|
  {
    if |p.bgthreads| < p.limit {
      var r := StartThread(p);
      assert Phases(r) == Phases(p) + [Awake];
      Started(r);
    }
  }

  lemma Popped(p: Pool, t: Tid)
    requires Roster(p) && t in p.threads && IsLastExcessiveThread(p, p.threads[t].id)
    ensures p.bgthreads[|p.bgthreads| - 1] == t
    ensures var q := p.(bgthreads := p.bgthreads[..|p.bgthreads| - 1], threads := p.threads - {t});
            Roster(q) && Phases(q) == Phases(p)[..|p.bgthreads| - 1]
  {
    var q := p.(bgthreads := p.bgthreads[..|p.bgthreads| - 1], threads := p.threads - {t});
    assert Roster(q);
  }

  // ---------- wake-ups ----------

  function CountAwake(s: seq<Phase>): nat {
    if s == [] then 0 else (if s[|s| - 1].Awake? then 1 else 0) + CountAwake(s[..|s| - 1])
  }

  // Awake everywhere s is, and moreover at j.
  lemma {:induction false} CountMore(s: seq<Phase>, r: seq<Phase>, j: int)
    requires |s| <= |r| && forall i :: 0 <= i < |s| && s[i].Awake? ==> r[i].Awake?
    ensures CountAwake(s) <= CountAwake(r)
    ensures 0 <= j < |s| && !s[j].Awake? && r[j].Awake? ==> CountAwake(s) + 1 <= CountAwake(r)
    decreases |r|
  {
    if |r| > |s| {
      CountMore(s, r[..|r| - 1], j);
    } else if s != [] {
      CountMore(s[..|s| - 1], r[..|r| - 1], j);
    }
  }

  // Changing one worker costs at most one.
  lemma {:induction false} CountUpdate(s: seq<Phase>, j: nat, phase: Phase)
    requires j < |s|
    ensures CountAwake(s[j := phase]) >= CountAwake(s) - 1
    ensures !s[j].Awake? || phase.Awake? ==> CountAwake(s[j := phase]) >= CountAwake(s)
  {
    var n := |s| - 1;
    if j == n {
      assert s[j := phase][..n] == s[..n];
    } else {
      assert s[j := phase][..n] == s[..n][j := phase];
      CountUpdate(s[..n], j, phase);
    }
  }

  // The workers that may run jobs.
  function Staff(phases: seq<Phase>, limit: int): seq<Phase>
    requires limit >= 1
  {
    if |phases| > limit then phases[..limit] else phases
  }

  // While some worker below the limit is asleep, the idle awake ones suffice for the queue; the
  // thread that has to terminate next is not asleep; a queue always has its full staff; and
  // nobody sleeps through a shutdown.
  predicate Alert(phases: seq<Phase>, limit: int, queued: nat, exit: bool) {
    && limit >= 1
    && (if exit then Asleep !in phases
        else
          && (Asleep in Staff(phases, limit) ==> CountAwake(Staff(phases, limit)) >= queued)
          && (|phases| > limit ==> !phases[|phases| - 1].Asleep?)
          && (queued > 0 ==> |phases| >= limit))
  }

  ghost predicate Attentive(p: Pool) {
    Roster(p) && Alert(Phases(p), p.limit, |p.queue|, p.exit)
  }

  lemma NobodyAsleep(phases: seq<Phase>, limit: int, queued: nat, exit: bool)
    requires limit >= 1 && Asleep !in phases && (!exit && queued > 0 ==> |phases| >= limit)
    ensures Alert(phases, limit, queued, exit)
  {
    if !exit && Asleep in Staff(phases, limit) {
      assert false;
    }
  }

  // Without excessive threads one signal is enough for one more job.
  lemma AlertSignal(before: seq<Phase>, more: seq<Phase>, woken: seq<Phase>, limit: int, queued: nat, j: nat)
    requires Alert(before, limit, queued, false) && before <= more && |woken| == |more| == limit
    requires forall i :: |before| <= i < |more| ==> more[i] == Awake
    requires forall i :: 0 <= i < |more| ==> woken[i] == more[i] || (more[i] == Asleep && woken[i] == Awake)
    requires Asleep in before ==> j < |before| && before[j] == Asleep && woken[j] == Awake
    ensures Alert(woken, limit, queued + 1, false)
  {
    if Asleep in woken {
      var i :| 0 <= i < |woken| && woken[i] == Asleep;
      assert before[i] == Asleep;
      CountMore(before, more, -1);
      CountMore(more, woken, j);
    }
  }

  lemma AlertTake(phases: seq<Phase>, limit: int, queued: nat, id: nat, ticket: nat)
    requires Alert(phases, limit, queued, false) && queued > 0
    requires id < |phases| && id < limit && phases[id] == Awake
    ensures Alert(phases[id := Running(ticket)], limit, queued - 1, false)
  {
    var after := phases[id := Running(ticket)];
    assert Staff(after, limit) == Staff(phases, limit)[id := Running(ticket)];
    CountUpdate(Staff(phases, limit), id, Running(ticket));
    if Asleep in Staff(after, limit) {
      var i :| 0 <= i < |Staff(after, limit)| && Staff(after, limit)[i] == Asleep;
      assert Staff(phases, limit)[i] == Asleep;
    }
  }

  lemma AlertSleep(phases: seq<Phase>, limit: int, queued: nat, id: nat)
    requires Alert(phases, limit, queued, false)
    requires id < |phases| && (queued == 0 || id >= limit) && !(|phases| > limit && id == |phases| - 1)
    ensures Alert(phases[id := Asleep], limit, queued, false)
  {
    if id >= limit {
      assert Staff(phases[id := Asleep], limit) == Staff(phases, limit);
    }
  }

  // A worker that comes back, from a job or from a wait, only adds to the awake ones.
  lemma AlertBack(phases: seq<Phase>, limit: int, queued: nat, exit: bool, id: nat)
    requires Alert(phases, limit, queued, exit) && id < |phases|
    ensures Alert(phases[id := Awake], limit, queued, exit)
  {
    var after := phases[id := Awake];
    if !exit && Asleep in Staff(after, limit) {
      var i :| 0 <= i < |Staff(after, limit)| && Staff(after, limit)[i] == Asleep;
      assert Staff(phases, limit)[i] == Asleep;
      CountMore(Staff(phases, limit), Staff(after, limit), -1);
    }
  }

  lemma AlertPop(phases: seq<Phase>, limit: int, queued: nat)
    requires Alert(phases, limit, queued, false) && |phases| == limit + 1
    ensures Alert(phases[..limit], limit, queued, false)
  {
    assert Staff(phases[..limit], limit) == Staff(phases, limit);
  }

  lemma ScheduleAttentive(p: Pool, tag: int, signalled: set<Tid>)
    requires Attentive(p) && Enabled(p, DoSchedule(tag, signalled))
    ensures Attentive(Schedule(p, tag, signalled))
  {
    hide Roster, Alert, StartBGThreads, Wake;
    if !p.exit {
      Started(p);
      var q := StartBGThreads(p);
      var r := q.(queue := q.queue + [Job(q.nextTicket, tag)], queueLen := |q.queue| + 1,
        nextTicket := q.nextTicket + 1);
      SameRoster(q, r);
      if HasExcessiveThread(r) {
        AllWoken(r);
        NobodyAsleep(Phases(WakeAll(r)), r.limit, |r.queue|, false);
      } else {
        SignalAttentive(p, r, signalled);
      }
    }
  }

  lemma SameRoster(p: Pool, q: Pool)
    requires Roster(p) && q.limit >= 1
    requires q.bgthreads == p.bgthreads && q.threads == p.threads && q.nextTid == p.nextTid
    ensures Roster(q) && Phases(q) == Phases(p)
  {
  }

  // The thread a handle in the roster belongs to.
  lemma HandleOf(p: Pool, t: Tid)
    requires Roster(p) && t in p.threads
    ensures p.threads[t].id < |p.bgthreads| && p.bgthreads[p.threads[t].id] == t
    ensures Phases(p)[p.threads[t].id] == p.threads[t].phase
  {
  }

  lemma SignalAttentive(p: Pool, r: Pool, signalled: set<Tid>)
    requires Attentive(p) && !p.exit && Roster(r) && !r.exit && r.limit == p.limit && |r.queue| == |p.queue| + 1
    requires |r.bgthreads| == r.limit && p.bgthreads <= r.bgthreads
    requires Phases(p) <= Phases(r) && forall i :: |p.bgthreads| <= i < |r.bgthreads| ==> Phases(r)[i] == Awake
    requires signalled <= Sleepers(p) && (Sleepers(p) != {} ==> signalled != {})
    ensures Attentive(Wake(r, signalled))
  {
    hide Roster, Alert, Wake;
    var w := Wake(r, signalled);
    Woken(r, signalled);
    var j := 0;
    if Asleep in Phases(p) {
      var i :| 0 <= i < |Phases(p)| && Phases(p)[i] == Asleep;
      SleeperHandle(p, i);
      assert p.bgthreads[i] in Sleepers(p);
      var t :| t in signalled;
      HandleOf(p, t);
      j := p.threads[t].id;
      assert Phases(r)[j] == Asleep && r.bgthreads[j] == t;
    }
    AlertSignal(Phases(p), Phases(r), Phases(w), p.limit, |p.queue|, j);
  }

  lemma SleeperHandle(p: Pool, i: nat)
    requires Roster(p) && i < |Phases(p)| && Phases(p)[i] == Asleep
    ensures p.bgthreads[i] in Sleepers(p)
  {
  }

  lemma SetThreadsAttentive(p: Pool, num: int, allowReduce: bool)
    requires Attentive(p)
    ensures Attentive(SetBackgroundThreads(p, num, allowReduce))
  {
    hide Roster, Alert, StartBGThreads, Wake, Sleepers;
    if !p.exit && (num > p.limit || (num < p.limit && allowReduce)) {
      var q := p.(limit := Max(1, num));
      SameRoster(p, q);
      AllWoken(q);
      var w := WakeAll(q);
      Started(w);
      var r := StartBGThreads(w);
      assert Asleep !in Phases(r);
      NobodyAsleep(Phases(r), r.limit, |r.queue|, false);
    }
  }

  lemma ProceedAttentive(p: Pool, t: Tid)
    requires Attentive(p) && t in p.threads && p.threads[t].phase.Awake?
    ensures Attentive(Proceed(p, t))
  {
    hide Roster, Alert, Wake, Sleepers, WithPhase;
    var id := p.threads[t].id;
    HandleOf(p, t);
    var phases := Phases(p);
    if p.exit {
      PhaseSet(p, t, Exited);
      ShutDown(phases, p.limit, |p.queue|);
      NobodyAsleep(phases[id := Exited], p.limit, |p.queue|, true);
    } else if IsLastExcessiveThread(p, id) {
      Popped(p, t);
      var q := p.(bgthreads := p.bgthreads[..|p.bgthreads| - 1], threads := p.threads - {t});
      if HasExcessiveThread(q) {
        AllWoken(q);
        NobodyAsleep(Phases(WakeAll(q)), q.limit, |q.queue|, false);
      } else {
        AlertPop(phases, p.limit, |p.queue|);
      }
    } else if p.queue == [] || IsExcessiveThread(p, id) {
      PhaseSet(p, t, Asleep);
      AlertSleep(phases, p.limit, |p.queue|, id);
    } else {
      var ticket := p.queue[0].ticket;
      PhaseSet(p, t, Running(ticket));
      AlertTake(phases, p.limit, |p.queue|, id, ticket);
      SameRoster(WithPhase(p, t, Running(ticket)), Proceed(p, t));
    }
  }

  lemma ShutDown(phases: seq<Phase>, limit: int, queued: nat)
    requires Alert(phases, limit, queued, true)
    ensures limit >= 1 && Asleep !in phases
  {
  }

  lemma ReturnAttentive(p: Pool, t: Tid)
    requires Attentive(p) && t in p.threads
    ensures Attentive(WithPhase(p, t, Awake))
  {
    hide Roster, Alert;
    HandleOf(p, t);
    PhaseSet(p, t, Awake);
    AlertBack(Phases(p), p.limit, |p.queue|, p.exit, p.threads[t].id);
  }

  lemma {:induction false} KeepShrinks(queue: seq<Job>, tag: int)
    ensures |Keep(queue, tag)| + |Drop(queue, tag)| == |queue|
  {
    if queue != [] {
      KeepShrinks(queue[1..], tag);
    }
  }

  lemma UnScheduleAttentive(p: Pool, tag: int)
    requires Attentive(p)
    ensures Attentive(UnSchedule(p, tag))
  {
    KeepShrinks(p.queue, tag);
    SameRoster(p, UnSchedule(p, tag));
  }

  lemma ShutdownAttentive(p: Pool)
    requires Attentive(p)
    ensures Attentive(WakeAll(p.(exit := true)))
  {
    hide Roster, Wake, Sleepers;
    var q := p.(exit := true);
    SameRoster(p, q);
    AllWoken(q);
  }

  lemma StepAttentive(p: Pool, step: Step)
    requires Attentive(p) && Enabled(p, step)
    ensures Attentive(Do(p, step))
  {
    hide Attentive, WithPhase, Schedule, UnSchedule, SetBackgroundThreads, Proceed, Wake;
    match step
    case DoSchedule(tag, signalled) => ScheduleAttentive(p, tag, signalled);
    case DoUnSchedule(tag) => UnScheduleAttentive(p, tag);
    case DoSetThreads(num, allowReduce) => SetThreadsAttentive(p, num, allowReduce);
    case DoProceed(t) => ProceedAttentive(p, t);
    case DoFinish(t) => ReturnAttentive(p, t);
    case DoSpurious(t) => ReturnAttentive(p, t);
    case DoShutdown => ShutdownAttentive(p);
    case DoJoined => JoinedAttentive(p);
  }

  lemma JoinedAttentive(p: Pool)
    requires Attentive(p) && p.exit
    ensures Attentive(p.(bgthreads := [], threads := map[]))
  {
  }

  lemma {:induction false} RunAttentive(p: Pool, steps: seq<Step>, q: Pool)
    requires Attentive(p) && Reaches(p, steps, q)
    ensures Attentive(q)
    decreases |steps|
  {
    hide Attentive, Do, Enabled;
    if steps != [] {
      StepAttentive(p, steps[0]);
      RunAttentive(Do(p, steps[0]), steps[1..], q);
    }
  }

  // In every reachable state before shutdown: if a worker below the limit is asleep, the awake
  // workers below the limit that are not running a job number at least the queue length; the last
  // excessive thread is not asleep; and a queue that is not empty has a worker that is not asleep.
  // After shutdown nobody is asleep. bgthreads_ holds exactly the workers 0, 1, 2, ... in order.
  lemma WorkConserving(p: Pool)
    requires Reachable(p)
    ensures Roster(p)
    ensures !p.exit && Asleep in Staff(Phases(p), p.limit) ==> CountAwake(Staff(Phases(p), p.limit)) >= |p.queue|
    ensures !p.exit && HasExcessiveThread(p) ==> !Phases(p)[|p.bgthreads| - 1].Asleep?
    ensures !p.exit && p.queue != [] ==> exists i :: 0 <= i < p.limit && i < |p.bgthreads| && !Phases(p)[i].Asleep?
    ensures p.exit ==> Asleep !in Phases(p)
  {
    var steps :| Reaches(INIT, steps, p);
    assert Attentive(INIT);
    RunAttentive(INIT, steps, p);
    if !p.exit && p.queue != [] {
      var staff := Staff(Phases(p), p.limit);
      assert |staff| >= 1;
      if Asleep in staff {
        SomeAwake(staff);
      } else {
        assert staff[0] in staff;
      }
    }
  }

  lemma {:induction false} SomeAwake(s: seq<Phase>)
    requires CountAwake(s) > 0
    ensures exists i :: 0 <= i < |s| && s[i].Awake?
  {
    if !s[|s| - 1].Awake? {
      SomeAwake(s[..|s| - 1]);
      var i :| 0 <= i < |s[..|s| - 1]| && s[..|s| - 1][i].Awake?;
      assert s[i].Awake?;
    }
  }

  // ---------- job conservation ----------

  function Tickets(queue: seq<Job>): seq<nat> {
    if queue == [] then [] else [queue[0].ticket] + Tickets(queue[1..])
  }

  function StartTickets(starts: seq<Start>): seq<nat> {
    if starts == [] then [] else StartTickets(starts[..|starts| - 1]) + [starts[|starts| - 1].ticket]
  }

  function Range(n: nat): seq<nat> {
    if n == 0 then [] else Range(n - 1) + [n - 1]
  }

  predicate Increasing(s: seq<nat>) {
    forall i, j :: 0 <= i < j < |s| ==> s[i] < s[j]
  }

  // Every accepted job is exactly one of started, unscheduled and queued, and jobs start in the
  // order in which they were accepted.
  ghost predicate Accounts(started: seq<nat>, unscheduled: seq<nat>, queued: seq<nat>, accepted: nat) {
    && multiset(started) + multiset(unscheduled) + multiset(queued) == multiset(Range(accepted))
    && Increasing(started + queued)
    && (forall t :: t in started || t in queued ==> t < accepted)
  }

  // Moreover a job only starts on a worker whose id is below the limit of that moment.
  ghost predicate Ledger(p: Pool) {
    && Accounts(StartTickets(p.started), p.unscheduled, Tickets(p.queue), p.nextTicket)
    && (forall i :: 0 <= i < |p.started| ==> p.started[i].id < p.started[i].limit)
    && p.queueLen == |p.queue|
  }

  lemma {:induction false} TicketsAppend(a: seq<Job>, b: seq<Job>)
    ensures Tickets(a + b) == Tickets(a) + Tickets(b)
  {
    if a == [] {
      assert a + b == b;
    } else {
      assert (a + b)[1..] == a[1..] + b;
      TicketsAppend(a[1..], b);
    }
  }

  lemma JoinIncreasing(a: seq<nat>, b: seq<nat>)
    ensures Increasing(a + b) <==> Increasing(a) && Increasing(b) && forall x, y :: x in a && y in b ==> x < y
  {
    var s := a + b;
    if Increasing(s) {
      forall i, j | 0 <= i < j < |a|
        ensures a[i] < a[j]
      {
        assert s[i] < s[j];
      }
      forall i, j | 0 <= i < j < |b|
        ensures b[i] < b[j]
      {
        assert s[|a| + i] < s[|a| + j];
      }
      forall x, y | x in a && y in b
        ensures x < y
      {
        var i :| 0 <= i < |a| && a[i] == x;
        var j :| 0 <= j < |b| && b[j] == y;
        assert s[i] < s[|a| + j];
      }
    }
    if Increasing(a) && Increasing(b) && forall x, y :: x in a && y in b ==> x < y {
      forall i, j | 0 <= i < j < |s|
        ensures s[i] < s[j]
      {
        if i < |a| <= j {
          assert a[i] in a && b[j - |a|] in b;
        }
      }
    }
  }

  lemma {:induction false} KeepSplits(queue: seq<Job>, tag: int)
    ensures multiset(Tickets(Keep(queue, tag))) + multiset(Drop(queue, tag)) == multiset(Tickets(queue))
    ensures forall x :: x in Tickets(Keep(queue, tag)) ==> x in Tickets(queue)
    ensures Increasing(Tickets(queue)) ==> Increasing(Tickets(Keep(queue, tag)))
    ensures forall i :: 0 <= i < |Keep(queue, tag)| ==> Keep(queue, tag)[i].tag != tag
  {
    hide Increasing;
    if queue != [] {
      var rest := queue[1..];
      KeepSplits(rest, tag);
      var head := queue[0].ticket;
      assert Tickets(queue) == [head] + Tickets(rest);
      JoinIncreasing([head], Tickets(rest));
      if queue[0].tag != tag {
        assert Keep(queue, tag)[1..] == Keep(rest, tag);
        JoinIncreasing([head], Tickets(Keep(rest, tag)));
      }
    }
  }

  lemma UnScheduleLedger(p: Pool, tag: int)
    requires Ledger(p)
    ensures Ledger(UnSchedule(p, tag))
  {
    hide Keep, Drop, Tickets, StartTickets, Range, Increasing;
    var a, b, k := StartTickets(p.started), Tickets(p.queue), Tickets(Keep(p.queue, tag));
    KeepSplits(p.queue, tag);
    JoinIncreasing(a, b);
    JoinIncreasing(a, k);
    assert multiset(p.unscheduled + Drop(p.queue, tag)) == multiset(p.unscheduled) + multiset(Drop(p.queue, tag));
  }

  lemma AcceptJob(started: seq<nat>, unscheduled: seq<nat>, queued: seq<nat>, n: nat)
    requires Accounts(started, unscheduled, queued, n)
    ensures Accounts(started, unscheduled, queued + [n], n + 1)
  {
    hide Increasing;
    JoinIncreasing(started + queued, [n]);
    assert Increasing([n]) by { OneIncreasing(n); }
    assert (started + queued) + [n] == started + (queued + [n]);
    assert multiset(queued + [n]) == multiset(queued) + multiset{n};
    assert multiset(Range(n + 1)) == multiset(Range(n)) + multiset{n};
  }

  lemma OneIncreasing(n: nat)
    ensures Increasing([n])
  {
  }

  lemma StartJob(started: seq<nat>, unscheduled: seq<nat>, ticket: nat, rest: seq<nat>, n: nat)
    requires Accounts(started, unscheduled, [ticket] + rest, n)
    ensures Accounts(started + [ticket], unscheduled, rest, n)
  {
    hide Increasing, Range;
    var queued := [ticket] + rest;
    assert queued[0] in queued && forall i :: 0 <= i < |rest| ==> queued[i + 1] == rest[i] && rest[i] in queued;
    assert started + ([ticket] + rest) == (started + [ticket]) + rest;
    assert multiset([ticket] + rest) == multiset{ticket} + multiset(rest);
    assert multiset(started + [ticket]) == multiset(started) + multiset{ticket};
  }

  lemma ScheduleLedger(p: Pool, tag: int, signalled: set<Tid>)
    requires Ledger(p)
    ensures Ledger(Schedule(p, tag, signalled))
  {
    hide StartTickets, Accounts, Wake, Sleepers, StartBGThreads;
    if !p.exit {
      StartKeepsJobs(p);
      var n := p.nextTicket;
      TicketsAppend(p.queue, [Job(n, tag)]);
      assert Tickets([Job(n, tag)]) == [n];
      AcceptJob(StartTickets(p.started), p.unscheduled, Tickets(p.queue), n);
    }
  }

  lemma {:induction false} StartKeepsJobs(p: Pool)
    ensures var q := StartBGThreads(p);
            q == p.(bgthreads := q.bgthreads, threads := q.threads, nextTid := q.nextTid)
    decreases p.limit - |p.bgthreads|
  {
    if |p.bgthreads| < p.limit {
      StartKeepsJobs(StartThread(p));
    }
  }

  lemma ProceedLedger(p: Pool, t: Tid)
    requires Ledger(p) && t in p.threads && p.threads[t].phase.Awake?
    ensures Ledger(Proceed(p, t))
  {
    hide Accounts, Wake, Sleepers, WithPhase;
    var q := Proceed(p, t);
    if q.started != p.started {
      var job := p.queue[0];
      assert q.started[..|p.started|] == p.started;
      assert StartTickets(q.started) == StartTickets(p.started) + [job.ticket];
      StartJob(StartTickets(p.started), p.unscheduled, job.ticket, Tickets(p.queue[1..]), p.nextTicket);
    }
  }

  lemma StepLedger(p: Pool, step: Step)
    requires Ledger(p) && Enabled(p, step)
    ensures Ledger(Do(p, step))
  {
    hide Ledger, Schedule, UnSchedule, Proceed;
    match step
    case DoSchedule(tag, signalled) => ScheduleLedger(p, tag, signalled);
    case DoUnSchedule(tag) => UnScheduleLedger(p, tag);
    case DoProceed(t) => ProceedLedger(p, t);
    case DoSetThreads(num, _) =>
      StartKeepsJobs(WakeAll(p.(limit := Max(1, num))));
      SameJobs(p, Do(p, step));
    case _ => SameJobs(p, Do(p, step));
  }

  lemma SameJobs(p: Pool, q: Pool)
    requires q.started == p.started && q.unscheduled == p.unscheduled && q.queue == p.queue
    requires q.nextTicket == p.nextTicket && q.queueLen == p.queueLen
    ensures Ledger(p) ==> Ledger(q)
  {
  }

  lemma {:induction false} RunLedger(p: Pool, steps: seq<Step>, q: Pool)
    requires Ledger(p) && Reaches(p, steps, q)
    ensures Ledger(q)
    decreases |steps|
  {
    hide Ledger, Do, Enabled;
    if steps != [] {
      StepLedger(p, steps[0]);
      RunLedger(Do(p, steps[0]), steps[1..], q);
    }
  }

  lemma JobsConserved(p: Pool)
    requires Reachable(p)
    ensures Ledger(p)
  {
    var steps :| Reaches(INIT, steps, p);
    RunLedger(INIT, steps, p);
  }

  // ---------- shutdown ----------

  // From the moment exit is set until the joins are done, bgthreads_ does not change, although
  // JoinAllThreads walks over it without the mutex.
  lemma {:induction false} FrozenAtExit(p: Pool, steps: seq<Step>, q: Pool)
    requires p.exit && Reaches(p, steps, q) && DoJoined !in steps
    ensures q.exit && q.bgthreads == p.bgthreads
    decreases |steps|
  {
    hide Wake, Sleepers, Keep, Drop;
    if steps != [] {
      assert steps[0] in steps && forall x :: x in steps[1..] ==> x in steps;
      FrozenAtExit(Do(p, steps[0]), steps[1..], q);
    }
  }
}
