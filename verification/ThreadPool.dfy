/**
 * HThreadPool of include/hv/hthreadpool.h as interleaved steps of its worker threads and of the threads
 * that call it. A step is what one thread does between two points at which another may act on what it reads
 * or writes; each update of a counter is a step of its own, and so is each read of `wait`.
 */
module ThreadPool {
  import opened Text

  datatype Status = Stopped | Started | Paused

  /** How far `stop` has come: not called, past its test, waiting for the workers to end, one counter set back. */
  datatype Stopping = NotStopping | StopCalled | Joining | Resetting

  /** What a caller goes on to when the threads it is creating have been created. */
  datatype Goal = JustStart | ToDecide | ToQueue

  datatype Thread =
    | Looping                             // a worker without a task
    | Taking                              // has counted itself out of the idle, holds the task lock
    | Running(task: nat)
    | Ending                              // the task is done, not yet counted idle
    | Retiring                            // has found cur > min, holds the task lock
    | Leaving                             // counted out of cur but not yet of idle, holds the task lock
    | Gone
    | Checking                            // commit, before the test of the status in start
    | Opening(count: nat, goal: Goal)     // start has found the pool stopped, the status is not yet stored
    | Creating(count: nat, goal: Goal)    // a caller with this many threads left to create
    | Spawned(count: nat, goal: Goal)     // the new thread runs but is not yet counted
    | Adding(count: nat, goal: Goal)      // counted in cur but not yet in idle
    | Deciding                            // commit, before the test whether to create a thread
    | SawFree(free: int)                  // commit has read this many idle threads
    | SawQueued(queued: nat)              // or this many queued tasks
    | FewIdle                             // no more are idle than tasks are queued, cur is still to be read
    | Queueing                            // commit, before the task is queued
    | Pausing                             // pause has found the pool running, the status is not yet stored
    | Resuming                            // resume has found the pool paused, the status is not yet stored
    | Waiting                             // wait, before its test of the status
    | Looking                             // wait, before it reads the queue
    | SawEmpty                            // wait has read an empty queue
    | SawIdle(seen: int)                  // and then this many idle threads
    | SawCur(seen: int)                   // or this many threads
    | Passed                              // the two counters were read equal, wait returns
    | Done

  /** Tasks are numbered in the order in which they are queued. */
  datatype Pool = Pool(
    status: Status,
    stopping: Stopping,
    min: nat,
    max: nat,
    cur: int,
    idle: int,
    threads: map<nat, Thread>,
    tasks: seq<nat>,
    committed: nat,
    started: nat,
    finished: set<nat>)

  datatype Step =
    | Start(t: nat, count: nat)
    | Commit(t: nat)
    | Check(t: nat)
    | Open(t: nat)
    | DecideIdle(t: nat)
    | DecideQueue(t: nat)
    | DecideCur(t: nat)
    | Create(t: nat, worker: nat)
    | AddFirst(t: nat)
    | AddSecond(t: nat)
    | Created(t: nat)
    | Enqueue(t: nat)
    | Take(t: nat)
    | Pop(t: nat)
    | Finish(t: nat)
    | Rest(t: nat)
    | Expire(t: nat)
    | Leave(t: nat)
    | Left(t: nat)
    | Quit(t: nat)
    | BeginStop
    | StoreStop
    | ResetCur
    | ResetIdle
    | Pause(t: nat)
    | StorePause(t: nat)
    | Resume(t: nat)
    | StoreResume(t: nat)
    | Wait(t: nat)
    | Look(t: nat)
    | ReadQueue(t: nat)
    | ReadIdle(t: nat)
    | ReadCur(t: nat)

  /** In the test of `commit` whether to create a thread, which reads three counts in turn. */
  predicate IsDeciding(th: Thread) {
    th.Deciding? || th.SawFree? || th.SawQueued? || th.FewIdle?
  }

  predicate IsCaller(th: Thread) {
    th.Checking? || th.Opening? || th.Creating? || th.Spawned? || th.Adding? || IsDeciding(th) || th.Queueing?
  }

  predicate IsWorker(th: Thread) {
    th.Looping? || th.Taking? || th.Running? || th.Ending? || th.Retiring? || th.Leaving?
  }

  predicate HoldsTaskLock(th: Thread) {
    th.Taking? || th.Retiring? || th.Leaving?
  }

  predicate TaskLockIsFree(p: Pool) {
    forall t :: t in p.threads ==> !HoldsTaskLock(p.threads[t])
  }

  predicate ThreadLockIsFree(p: Pool) {
    forall t :: t in p.threads ==> !p.threads[t].Leaving? && !p.threads[t].Adding?
  }

  predicate NoCallers(p: Pool) {
    forall t :: t in p.threads ==> !IsCaller(p.threads[t])
  }

  predicate NoWorkers(p: Pool) {
    forall t :: t in p.threads ==> !IsWorker(p.threads[t])
  }

  predicate Is(p: Pool, t: nat, th: Thread) {
    t in p.threads && p.threads[t] == th
  }

  /**
   * What each step needs. A worker may be past its test of the status, so it takes tasks while paused.
   * `stop` is called by one thread at a time, and not while `start` or `commit` is under way; `pause` and
   * `resume` may come at any time.
   */
  predicate Enabled(p: Pool, s: Step) {
    match s
    case Start(t, _) => t !in p.threads && p.stopping.NotStopping?
    case Commit(t) => t !in p.threads && p.stopping.NotStopping?
    case Check(t) => Is(p, t, Checking)
    case Open(t) => t in p.threads && p.threads[t].Opening?
    case DecideIdle(t) => t in p.threads && (p.threads[t].Deciding? || p.threads[t].SawQueued?)
    case DecideQueue(t) => t in p.threads && (p.threads[t].Deciding? || p.threads[t].SawFree?)
    case DecideCur(t) => Is(p, t, FewIdle)
    case Create(t, worker) => t in p.threads && p.threads[t].Creating? && p.threads[t].count > 0 && worker !in p.threads
    case AddFirst(t) => t in p.threads && p.threads[t].Spawned? && ThreadLockIsFree(p)
    case AddSecond(t) => t in p.threads && p.threads[t].Adding?
    case Created(t) => t in p.threads && p.threads[t].Creating? && p.threads[t].count == 0
    case Enqueue(t) => Is(p, t, Queueing) && TaskLockIsFree(p)
    case Take(t) => Is(p, t, Looping) && TaskLockIsFree(p) && p.status != Stopped && p.tasks != []
    case Pop(t) => Is(p, t, Taking) && p.tasks != []
    case Finish(t) => t in p.threads && p.threads[t].Running?
    case Rest(t) => Is(p, t, Ending)
    case Expire(t) => Is(p, t, Looping) && TaskLockIsFree(p) && p.status != Stopped && p.tasks == [] && p.cur > p.min
    case Leave(t) => Is(p, t, Retiring) && ThreadLockIsFree(p)
    case Left(t) => Is(p, t, Leaving)
    case Quit(t) => Is(p, t, Looping) && p.status == Stopped
    case BeginStop => p.stopping.NotStopping? && p.status != Stopped && NoCallers(p)
    case StoreStop => p.stopping.StopCalled?
    case ResetCur => p.stopping.Joining? && NoWorkers(p)
    case ResetIdle => p.stopping.Resetting?
    case Pause(t) => t !in p.threads
    case StorePause(t) => Is(p, t, Pausing)
    case Resume(t) => t !in p.threads
    case StoreResume(t) => Is(p, t, Resuming)
    case Wait(t) => t !in p.threads
    case Look(t) => Is(p, t, Waiting)
    case ReadQueue(t) => Is(p, t, Looking)
    case ReadIdle(t) => t in p.threads && (p.threads[t].SawEmpty? || p.threads[t].SawCur?)
    case ReadCur(t) => t in p.threads && (p.threads[t].SawEmpty? || p.threads[t].SawIdle?)
  }

  /** A step of one thread, which is called `t` in it. */
  predicate IsByThread(s: Step) {
    !s.BeginStop? && !s.StoreStop? && !s.ResetCur? && !s.ResetIdle?
  }

  function Set(p: Pool, t: nat, th: Thread): (q: Pool)
    ensures t in q.threads
  {
    p.(threads := p.threads[t := th])
  }

  /** What `wait` goes on to when it has read a counter and had read `seen` of the other: it returns or starts again. */
  function Compared(count: int, seen: int): Thread {
    if count == seen then Passed else Waiting
  }

  /** The `int` that counts idle threads, converted to be compared with a `size_t`. */
  function AsSize(n: int): int {
    if n < 0 then n + 0x1_0000_0000_0000_0000 else n
  }

  /** What `commit` goes on to when it has read the idle threads and the queued tasks, in either order. */
  function Weighed(idle: int, queued: nat): Thread {
    if AsSize(idle) <= queued then FewIdle else Queueing
  }

  /** `start_threads` brought between `min_thread_num` and `max_thread_num`. */
  function Clamp(p: Pool, count: nat): nat {
    var n := if count < p.min then p.min else count;
    if n > p.max then p.max else n
  }

  function Next(p: Pool, s: Step): (q: Pool)
    requires Enabled(p, s)
    ensures IsByThread(s) ==> s.t in q.threads
  {
    match s
    case Start(t, count) => Set(p, t, if p.status == Stopped then Opening(Clamp(p, count), JustStart) else Done)
    case Commit(t) => Set(p, t, if p.status == Stopped then Checking else Deciding)
    case Check(t) => Set(p, t, if p.status == Stopped then Opening(Clamp(p, 0), ToDecide) else Deciding)
    case Open(t) => Set(p.(status := Started), t, Creating(p.threads[t].count, p.threads[t].goal))
    case DecideIdle(t) => Set(p, t, if p.threads[t].Deciding? then SawFree(p.idle) else Weighed(p.idle, p.threads[t].queued))
    case DecideQueue(t) => Set(p, t, if p.threads[t].Deciding? then SawQueued(|p.tasks|) else Weighed(p.threads[t].free, |p.tasks|))
    case DecideCur(t) => Set(p, t, if p.cur < p.max then Creating(1, ToQueue) else Queueing)
    case Create(t, worker) =>
      var th := p.threads[t];
      if p.cur >= p.max then Set(p, t, Creating(th.count - 1, th.goal))
      else Set(Set(p, worker, Looping), t, Spawned(th.count - 1, th.goal))
    case AddFirst(t) => Set(p.(cur := p.cur + 1), t, Adding(p.threads[t].count, p.threads[t].goal))
    case AddSecond(t) => Set(p.(idle := p.idle + 1), t, Creating(p.threads[t].count, p.threads[t].goal))
    case Created(t) =>
      Set(p, t, match p.threads[t].goal case JustStart => Done case ToDecide => Deciding case ToQueue => Queueing)
    case Enqueue(t) => Set(p.(tasks := p.tasks + [p.committed], committed := p.committed + 1), t, Done)
    case Take(t) => Set(p.(idle := p.idle - 1), t, Taking)
    case Pop(t) => Set(p.(tasks := p.tasks[1..], started := p.started + 1), t, Running(p.tasks[0]))
    case Finish(t) => Set(p.(finished := p.finished + {p.threads[t].task}), t, Ending)
    case Rest(t) => Set(p.(idle := p.idle + 1), t, Looping)
    case Expire(t) => Set(p, t, Retiring)
    case Leave(t) => Set(p.(cur := p.cur - 1), t, Leaving)
    case Left(t) => Set(p.(idle := p.idle - 1), t, Gone)
    case Quit(t) => Set(p, t, Gone)
    case BeginStop => p.(stopping := StopCalled)
    case StoreStop => p.(status := Stopped, stopping := Joining)
    case ResetCur => p.(cur := 0, stopping := Resetting)
    case ResetIdle => p.(idle := 0, stopping := NotStopping)
    case Pause(t) => Set(p, t, if p.status == Started then Pausing else Done)
    case StorePause(t) => Set(p.(status := Paused), t, Done)
    case Resume(t) => Set(p, t, if p.status == Paused then Resuming else Done)
    case StoreResume(t) => Set(p.(status := Started), t, Done)
    case Wait(t) => Set(p, t, Waiting)
    case Look(t) => Set(p, t, if p.status == Stopped then Done else Looking)
    case ReadQueue(t) => Set(p, t, if p.tasks == [] then SawEmpty else Waiting)
    case ReadIdle(t) => Set(p, t, if p.threads[t].SawEmpty? then SawIdle(p.idle) else Compared(p.idle, p.threads[t].seen))
    case ReadCur(t) => Set(p, t, if p.threads[t].SawEmpty? then SawCur(p.cur) else Compared(p.cur, p.threads[t].seen))
  }

  function Fresh(min: nat, max: nat): Pool {
    Pool(Stopped, NotStopping, min, max, 0, 0, map[], [], 0, 0, {})
  }

  predicate MayRun(p: Pool, steps: seq<Step>)
    decreases |steps|
  {
    steps == [] || (Enabled(p, steps[0]) && MayRun(Next(p, steps[0]), steps[1..]))
  }

  function Run(p: Pool, steps: seq<Step>): Pool
    requires MayRun(p, steps)
    decreases |steps|
  {
    if steps == [] then p else Run(Next(p, steps[0]), steps[1..])
  }

  // ---------------------------------------------------------------------------------------------
  // Counting threads
  // ---------------------------------------------------------------------------------------------

  /** Kinds of threads to count: among them those that make the two counters differ, by one more or by one less. */
  datatype Kind = Busy | HalfAdded | HalfLeft | WithTask | Calling | Uncounted

  predicate IsA(th: Thread, k: Kind) {
    match k
    case Busy => th.Taking? || th.Running? || th.Ending?
    case HalfAdded => th.Adding?
    case HalfLeft => th.Leaving?
    case WithTask => th.Running?
    case Calling => IsCaller(th)
    case Uncounted => th.Spawned?
  }

  function Those(threads: map<nat, Thread>, k: Kind): set<nat> {
    set t | t in threads && IsA(threads[t], k)
  }

  function Count(p: Pool, k: Kind): nat {
    |Those(p.threads, k)|
  }

  function One(b: bool): nat {
    if b then 1 else 0
  }

  /** What a thread's change of state does to a count. */
  lemma CountSet(threads: map<nat, Thread>, t: nat, th: Thread, k: Kind)
    ensures |Those(threads[t := th], k)| == |Those(threads, k)| - One(t in threads && IsA(threads[t], k)) + One(IsA(th, k))
  {
    hide IsA;
    var before, after := Those(threads, k), Those(threads[t := th], k);
    if IsA(th, k) {
      assert after == before + {t};
    } else {
      assert after == before - {t};
    }
  }

  // ---------------------------------------------------------------------------------------------
  // The counters
  // ---------------------------------------------------------------------------------------------

  /** What is still to be taken off the idle threads by `stop`. */
  function HalfReset(p: Pool): int {
    if p.stopping.Resetting? then p.idle else 0
  }

  /** `cur - idle` is the number of workers that hold a task, give or take the updates half done. */
  predicate CountersAgree(p: Pool) {
    p.cur - p.idle == Count(p, Busy) + Count(p, HalfAdded) - Count(p, HalfLeft) - HalfReset(p)
  }

  lemma NoneToCount(p: Pool)
    requires NoWorkers(p) && NoCallers(p)
    ensures Count(p, Busy) == Count(p, HalfAdded) == Count(p, HalfLeft) == 0
  {
    assert Those(p.threads, Busy) == {} && Those(p.threads, HalfAdded) == {} && Those(p.threads, HalfLeft) == {};
  }

  /** The thread a step is taken by, with the state it goes on to. */
  function Moved(p: Pool, s: Step): Option<(nat, Thread)>
    requires Enabled(p, s)
  {
    if IsByThread(s) then Some((s.t, Next(p, s).threads[s.t])) else None
  }

  /** The worker a step brings into being. */
  function Born(p: Pool, s: Step): Option<nat>
    requires Enabled(p, s)
  {
    if s.Create? && p.cur < p.max then Some(s.worker) else None
  }

  /** What any step does to the threads. */
  lemma NextThreads(p: Pool, s: Step)
    requires Enabled(p, s)
    ensures var born := if Born(p, s).Some? then p.threads[Born(p, s).value := Looping] else p.threads;
            Next(p, s).threads == if Moved(p, s).None? then p.threads else born[Moved(p, s).value.0 := Moved(p, s).value.1]
    ensures Born(p, s).Some? ==> Born(p, s).value !in p.threads && Moved(p, s).Some? && Moved(p, s).value.0 != Born(p, s).value
  {
  }

  /** What any step does to a count of threads. */
  lemma NextCount(p: Pool, s: Step, k: Kind)
    requires Enabled(p, s)
    ensures Moved(p, s).None? ==> Count(Next(p, s), k) == Count(p, k)
    ensures Moved(p, s).Some? ==>
              var t, th := Moved(p, s).value.0, Moved(p, s).value.1;
              Count(Next(p, s), k) == Count(p, k) - One(t in p.threads && IsA(p.threads[t], k)) + One(IsA(th, k))
  {
    NextThreads(p, s);
    if Moved(p, s).Some? {
      var born := if Born(p, s).Some? then p.threads[Born(p, s).value := Looping] else p.threads;
      if Born(p, s).Some? {
        CountSet(p.threads, Born(p, s).value, Looping, k);
      }
      CountSet(born, Moved(p, s).value.0, Moved(p, s).value.1, k);
    }
  }

  /** What a thread adds to the difference of the counters. */
  function Weight(th: Thread): int {
    match th
    case Taking => 1
    case Running(_) => 1
    case Ending => 1
    case Adding(_, _) => 1
    case Leaving => -1
    case _ => 0
  }

  lemma WeightIs(th: Thread)
    ensures Weight(th) == One(IsA(th, Busy)) + One(IsA(th, HalfAdded)) - One(IsA(th, HalfLeft))
  {
  }

  function WeightAt(p: Pool, t: nat): int {
    if t in p.threads then Weight(p.threads[t]) else 0
  }

  predicate IsWorkerStep(s: Step) {
    s.Take? || s.Pop? || s.Finish? || s.Rest? || s.Expire? || s.Leave? || s.Left? || s.Quit?
  }

  lemma WorkerCounterStep(p: Pool, s: Step)
    requires Enabled(p, s) && IsWorkerStep(s)
    ensures Next(p, s).cur - Next(p, s).idle == p.cur - p.idle - WeightAt(p, s.t) + WeightAt(Next(p, s), s.t)
  {
    match s
    case Take(t) =>
    case Pop(t) =>
    case Finish(t) =>
    case Rest(t) =>
    case Expire(t) =>
    case Leave(t) =>
    case Left(t) =>
    case Quit(t) =>
  }

  lemma CallerCounterStep(p: Pool, s: Step)
    requires Enabled(p, s) && !IsWorkerStep(s) && IsByThread(s)
    ensures Next(p, s).cur - Next(p, s).idle == p.cur - p.idle - WeightAt(p, s.t) + WeightAt(Next(p, s), s.t)
  {
  }

  /** A step changes the difference of the counters by what it changes in its thread. */
  lemma CounterStep(p: Pool, s: Step)
    requires Enabled(p, s) && !s.ResetCur? && !s.ResetIdle?
    ensures var before, after := p.cur - p.idle, Next(p, s).cur - Next(p, s).idle;
            if Moved(p, s).None? then after == before
            else after == before - WeightAt(p, Moved(p, s).value.0) + Weight(Moved(p, s).value.1)
  {
    hide Enabled, Weight;
    if IsWorkerStep(s) {
      WorkerCounterStep(p, s);
    } else if !s.BeginStop? && !s.StoreStop? {
      CallerCounterStep(p, s);
    }
  }

  /** Half-way through the last stores of `stop` nothing else touches the idle threads. */
  lemma ResetStays(p: Pool, s: Step)
    requires Enabled(p, s) && StopsAlone(p) && !s.ResetCur? && !s.ResetIdle?
    ensures HalfReset(Next(p, s)) == HalfReset(p)
  {
  }

  /** Every step keeps the counters in agreement. */
  lemma CountersKept(p: Pool, s: Step)
    requires Enabled(p, s) && CountersAgree(p) && StopsAlone(p)
    ensures CountersAgree(Next(p, s))
  {
    if s.ResetCur? || s.ResetIdle? {
      NoneToCount(p);
    } else {
      ResetStays(p, s);
      hide Enabled, Next, Moved, Count, IsA, Weight;
      CounterStep(p, s);
      if Moved(p, s).Some? {
        var t, th := Moved(p, s).value.0, Moved(p, s).value.1;
        WeightIs(th);
        if t in p.threads {
          WeightIs(p.threads[t]);
        }
      }
      NextCount(p, s, Busy);
      NextCount(p, s, HalfAdded);
      NextCount(p, s, HalfLeft);
    }
  }

  /** One thread at a time is half counted. */
  predicate OneHalf(p: Pool) {
    forall t, u :: t in p.threads && u in p.threads && IsHalf(p.threads[t]) && IsHalf(p.threads[u]) ==> t == u
  }

  predicate IsHalf(th: Thread) {
    th.Adding? || th.Leaving?
  }

  lemma OneHalfKept(p: Pool, s: Step)
    requires Enabled(p, s) && OneHalf(p)
    ensures OneHalf(Next(p, s))
  {
    NextThreads(p, s);
  }

  /** While `stop` is under way nobody starts or commits, and it sets the counters back after the workers have ended. */
  predicate StopsAlone(p: Pool) {
    (!p.stopping.NotStopping? ==> NoCallers(p)) && (p.stopping.Resetting? ==> NoWorkers(p))
  }

  lemma NoCallersKept(p: Pool, s: Step)
    requires Enabled(p, s) && NoCallers(p) && (s.BeginStop? || !p.stopping.NotStopping?)
    ensures NoCallers(Next(p, s))
  {
    NextThreads(p, s);
  }

  lemma NoWorkersKept(p: Pool, s: Step)
    requires Enabled(p, s) && NoCallers(p) && NoWorkers(p)
    ensures NoWorkers(Next(p, s))
  {
    NextThreads(p, s);
  }

  lemma StopsAloneKept(p: Pool, s: Step)
    requires Enabled(p, s) && StopsAlone(p)
    ensures StopsAlone(Next(p, s))
  {
    hide NoCallers, NoWorkers;
    if s.BeginStop? || !p.stopping.NotStopping? {
      assert NoCallers(p);
      NoCallersKept(p, s);
      if p.stopping.Resetting? || s.ResetCur? {
        NoWorkersKept(p, s);
      }
    }
  }

  // ---------------------------------------------------------------------------------------------
  // The tasks
  // ---------------------------------------------------------------------------------------------

  /** The queue holds the tasks committed and not yet started, in commit order. */
  predicate QueueInOrder(p: Pool) {
    && p.started <= p.committed && |p.tasks| == p.committed - p.started
    && forall k :: 0 <= k < |p.tasks| ==> p.tasks[k] == p.started + k
  }

  /** A worker's task has been started, is not finished, and is no other worker's. */
  predicate RunsItsOwn(p: Pool, t: nat) {
    t in p.threads && p.threads[t].Running? ==>
      && p.threads[t].task < p.started && p.threads[t].task !in p.finished
      && forall u :: u in p.threads && u != t && p.threads[u].Running? ==> p.threads[u].task != p.threads[t].task
  }

  /** A task that has been started is finished or is run by one worker, and is started no more. */
  predicate EachOnce(p: Pool) {
    && (forall n :: n in p.finished ==> n < p.started)
    && (forall t :: t in p.threads ==> RunsItsOwn(p, t))
    && p.started == Count(p, WithTask) + |p.finished|
  }

  lemma QueueKept(p: Pool, s: Step)
    requires Enabled(p, s) && QueueInOrder(p)
    ensures QueueInOrder(Next(p, s))
  {
    if !s.Pop? && !s.Enqueue? {
      QueueStays(p, s);
      hide Enabled, Next;
    }
  }

  lemma QueueStays(p: Pool, s: Step)
    requires Enabled(p, s) && !s.Pop? && !s.Enqueue?
    ensures Next(p, s).tasks == p.tasks && Next(p, s).committed == p.committed && Next(p, s).started == p.started
  {
  }

  /** What a step does to started and finished tasks: they are started in order, and a finished one was running. */
  lemma TaskStep(p: Pool, s: Step)
    requires Enabled(p, s) && QueueInOrder(p)
    ensures var q := Next(p, s);
            match s
            case Pop(t) => q.started == p.started + 1 && q.finished == p.finished && q.threads == p.threads[t := Running(p.started)] && !p.threads[t].Running?
            case Finish(t) =>
              && q.started == p.started && t in p.threads && p.threads[t].Running?
              && q.finished == p.finished + {p.threads[t].task} && q.threads == p.threads[t := Ending]
            case _ => q.started == p.started && q.finished == p.finished
  {
  }

  /** Any other step leaves the running threads as they are. */
  lemma RunningStep(p: Pool, s: Step, t: nat)
    requires Enabled(p, s) && !s.Pop? && !s.Finish?
    ensures (t in Next(p, s).threads && Next(p, s).threads[t].Running?) <==> (t in p.threads && p.threads[t].Running?)
    ensures t in p.threads && p.threads[t].Running? ==> Next(p, s).threads[t] == p.threads[t]
  {
  }

  lemma OwnTaskKept(p: Pool, s: Step, t: nat)
    requires Enabled(p, s) && QueueInOrder(p) && EachOnce(p) && t in Next(p, s).threads
    ensures RunsItsOwn(Next(p, s), t)
  {
    hide Enabled, Next, QueueInOrder;
    TaskStep(p, s);
    assert t in p.threads ==> RunsItsOwn(p, t);
    if s.Pop? || s.Finish? {
      assert s.t in p.threads ==> RunsItsOwn(p, s.t);
      assert forall u :: u in p.threads ==> RunsItsOwn(p, u);
    } else {
      forall u | u in p.threads || u in Next(p, s).threads
        ensures (u in Next(p, s).threads && Next(p, s).threads[u].Running?) <==> (u in p.threads && p.threads[u].Running?)
        ensures u in p.threads && p.threads[u].Running? ==> Next(p, s).threads[u] == p.threads[u]
      {
        RunningStep(p, s, u);
      }
    }
  }

  lemma TaskCountKept(p: Pool, s: Step)
    requires Enabled(p, s) && QueueInOrder(p) && EachOnce(p)
    ensures Next(p, s).started == Count(Next(p, s), WithTask) + |Next(p, s).finished|
  {
    NextCount(p, s, WithTask);
    TaskStep(p, s);
    if s.Finish? {
      assert RunsItsOwn(p, s.t);
    }
    hide QueueInOrder, Count;
  }

  lemma EachOnceKept(p: Pool, s: Step)
    requires Enabled(p, s) && QueueInOrder(p) && EachOnce(p)
    ensures EachOnce(Next(p, s))
  {
    hide Enabled, Next, QueueInOrder;
    TaskStep(p, s);
    TaskCountKept(p, s);
    if s.Finish? {
      assert RunsItsOwn(p, s.t);
    }
    forall t | t in Next(p, s).threads ensures RunsItsOwn(Next(p, s), t) {
      OwnTaskKept(p, s, t);
    }
  }

  /** Every task committed is queued, running or finished; each exactly once. */
  lemma TasksAreConserved(p: Pool)
    requires QueueInOrder(p) && EachOnce(p)
    ensures p.committed == |p.tasks| + Count(p, WithTask) + |p.finished|
    ensures forall n :: n in p.tasks ==> n !in p.finished && forall t :: t in p.threads && p.threads[t].Running? ==> p.threads[t].task != n
  {
    assert forall t :: t in p.threads ==> RunsItsOwn(p, t);
  }

  // ---------------------------------------------------------------------------------------------
  // Retirement
  // ---------------------------------------------------------------------------------------------

  /** One thread at a time holds the task lock. */
  predicate OneTaskLock(p: Pool) {
    forall t, u :: t in p.threads && u in p.threads && HoldsTaskLock(p.threads[t]) && HoldsTaskLock(p.threads[u]) ==> t == u
  }

  /** A worker that takes a task has found one, and one that retires leaves at least `min`. */
  predicate LockHolderIsRight(p: Pool, t: nat) {
    t in p.threads ==>
      && (p.threads[t].Taking? ==> p.tasks != [])
      && (p.threads[t].Retiring? ==> p.cur > p.min)
      && (p.threads[t].Leaving? ==> p.cur >= p.min)
  }

  predicate LocksHold(p: Pool) {
    OneTaskLock(p) && forall t :: t in p.threads ==> LockHolderIsRight(p, t)
  }

  /** What any step leaves a thread in, if it is not the one that takes the step. */
  lemma OtherThread(p: Pool, s: Step, t: nat)
    requires Enabled(p, s) && t in Next(p, s).threads && (Moved(p, s).None? || Moved(p, s).value.0 != t)
    ensures Next(p, s).threads[t] == if t in p.threads then p.threads[t] else Looping
  {
    hide Enabled, Next, Moved, Born;
    NextThreads(p, s);
  }

  /** A step that takes the task lock finds it free. */
  lemma LockIsTaken(p: Pool, s: Step)
    requires Enabled(p, s) && Moved(p, s).Some? && HoldsTaskLock(Moved(p, s).value.1)
    ensures var t := Moved(p, s).value.0;
            TaskLockIsFree(p) || (t in p.threads && HoldsTaskLock(p.threads[t]))
  {
  }

  lemma OneTaskLockKept(p: Pool, s: Step)
    requires Enabled(p, s) && OneTaskLock(p)
    ensures OneTaskLock(Next(p, s))
  {
    hide Enabled, Next, Moved;
    var q := Next(p, s);
    forall t, u | t in q.threads && u in q.threads && HoldsTaskLock(q.threads[t]) && HoldsTaskLock(q.threads[u]) ensures t == u {
      TaskLockHolder(p, s, t);
      TaskLockHolder(p, s, u);
    }
  }

  /** Who holds the task lock after a step has taken it or held it before. */
  lemma TaskLockHolder(p: Pool, s: Step, t: nat)
    requires Enabled(p, s) && t in Next(p, s).threads && HoldsTaskLock(Next(p, s).threads[t])
    ensures if Moved(p, s).Some? && Moved(p, s).value.0 == t then TaskLockIsFree(p) || (t in p.threads && HoldsTaskLock(p.threads[t]))
            else t in p.threads && HoldsTaskLock(p.threads[t])
  {
    hide Enabled, Next, Born;
    NextThreads(p, s);
    if Moved(p, s).Some? && Moved(p, s).value.0 == t {
      LockIsTaken(p, s);
    } else {
      OtherThread(p, s, t);
    }
  }

  /** Tasks are taken and threads counted out only under the task lock, so its holder finds them as they were. */
  lemma StateUnderLock(p: Pool, s: Step, t: nat)
    requires Enabled(p, s) && OneTaskLock(p) && t in p.threads && HoldsTaskLock(p.threads[t])
    requires Moved(p, s).None? || Moved(p, s).value.0 != t
    ensures |Next(p, s).tasks| >= |p.tasks| && Next(p, s).cur >= p.cur && Next(p, s).min == p.min
  {
  }

  lemma LockHolderKept(p: Pool, s: Step, t: nat)
    requires Enabled(p, s) && LocksHold(p)
    ensures LockHolderIsRight(Next(p, s), t)
  {
    if t in Next(p, s).threads && (Moved(p, s).None? || Moved(p, s).value.0 != t) {
      hide Enabled, Next, Moved;
      OtherThread(p, s, t);
      if t in p.threads && HoldsTaskLock(p.threads[t]) {
        StateUnderLock(p, s, t);
        assert LockHolderIsRight(p, t);
      }
    } else if t in p.threads {
      assert LockHolderIsRight(p, t);
    }
  }

  lemma LocksKept(p: Pool, s: Step)
    requires Enabled(p, s) && LocksHold(p)
    ensures LocksHold(Next(p, s))
  {
    hide Enabled, Next, Moved, LockHolderIsRight;
    OneTaskLockKept(p, s);
    forall t | t in Next(p, s).threads ensures LockHolderIsRight(Next(p, s), t) {
      LockHolderKept(p, s, t);
    }
  }

  /** No retirement takes the number of threads below the minimum. */
  lemma RetirementKeepsMin(p: Pool, t: nat)
    requires LocksHold(p) && Enabled(p, Leave(t))
    ensures Next(p, Leave(t)).cur >= p.min
  {
    assert LockHolderIsRight(p, t);
  }

  // ---------------------------------------------------------------------------------------------
  // The maximum
  // ---------------------------------------------------------------------------------------------

  lemma UncountedAreCalling(p: Pool)
    ensures Count(p, Uncounted) <= Count(p, Calling)
  {
    var some, all := Those(p.threads, Uncounted), Those(p.threads, Calling);
    assert all == some + (all - some) && some !! (all - some);
  }

  /** With the threads not yet counted there are fewer than the maximum and the callers make together. */
  predicate MaxHolds(p: Pool, callers: nat) {
    p.cur + Count(p, Uncounted) < p.max + callers
  }

  /** Each caller may have found room for a thread before another one's was counted. */
  lemma MaxKept(p: Pool, s: Step, callers: nat)
    requires Enabled(p, s) && StopsAlone(p) && MaxHolds(p, callers) && 0 < callers && Count(Next(p, s), Calling) <= callers
    ensures MaxHolds(Next(p, s), callers)
  {
    NextCount(p, s, Uncounted);
    UncountedAreCalling(Next(p, s));
    if s.ResetCur? {
      assert Those(p.threads, Uncounted) == {};
    }
    hide Count;
  }

  // ---------------------------------------------------------------------------------------------
  // Runs
  // ---------------------------------------------------------------------------------------------

  predicate Invariant(p: Pool) {
    StopsAlone(p) && CountersAgree(p) && OneHalf(p) && QueueInOrder(p) && EachOnce(p) && LocksHold(p)
  }

  lemma FreshIsInvariant(min: nat, max: nat)
    ensures Invariant(Fresh(min, max)) && forall callers: nat :: 0 < callers ==> MaxHolds(Fresh(min, max), callers)
  {
    var p := Fresh(min, max);
    NoneToCount(p);
    assert Those(p.threads, WithTask) == {} && Those(p.threads, Uncounted) == {};
  }

  lemma NextKeeps(p: Pool, s: Step)
    requires Invariant(p) && Enabled(p, s)
    ensures Invariant(Next(p, s))
  {
    hide StopsAlone, CountersAgree, OneHalf, QueueInOrder, EachOnce, LocksHold, Next, Enabled;
    StopsAloneKept(p, s);
    CountersKept(p, s);
    OneHalfKept(p, s);
    QueueKept(p, s);
    EachOnceKept(p, s);
    LocksKept(p, s);
  }

  /**
   * In every reachable state the counters agree with the workers, every committed task is queued, running
   * or finished once, and tasks are started in commit order.
   */
  lemma {:induction false} RunKeeps(p: Pool, steps: seq<Step>)
    requires Invariant(p) && MayRun(p, steps)
    ensures Invariant(Run(p, steps))
    decreases |steps|
  {
    if steps != [] {
      hide Invariant, Next, Enabled;
      NextKeeps(p, steps[0]);
      RunKeeps(Next(p, steps[0]), steps[1..]);
    }
  }

  /** At no time in the run do more callers than this overlap. */
  predicate AtMost(p: Pool, steps: seq<Step>, callers: nat)
    requires MayRun(p, steps)
    decreases |steps|
  {
    Count(p, Calling) <= callers && (steps == [] || AtMost(Next(p, steps[0]), steps[1..], callers))
  }

  /** Overlapping callers may pass the maximum, but by fewer threads than there are callers; one alone keeps it. */
  lemma {:induction false} RunKeepsMax(p: Pool, steps: seq<Step>, callers: nat)
    requires Invariant(p) && MayRun(p, steps) && 0 < callers && AtMost(p, steps, callers) && MaxHolds(p, callers)
    ensures Run(p, steps).cur < p.max + callers
    decreases |steps|
  {
    if steps != [] {
      NextKeeps(p, steps[0]);
      CallersNext(p, steps, callers);
      MaxKept(p, steps[0], callers);
      hide Invariant, Next, Enabled, MaxHolds, Count;
      RunKeepsMax(Next(p, steps[0]), steps[1..], callers);
    }
  }

  lemma CallersNext(p: Pool, steps: seq<Step>, callers: nat)
    requires MayRun(p, steps) && steps != [] && AtMost(p, steps, callers)
    ensures Count(Next(p, steps[0]), Calling) <= callers && Next(p, steps[0]).max == p.max
  {
    hide Enabled, Count;
    assert AtMost(Next(p, steps[0]), steps[1..], callers);
  }

  /** Every run of a new pool: the invariant, and the maximum with allowance for overlapping callers. */
  lemma EveryRun(min: nat, max: nat, steps: seq<Step>)
    requires MayRun(Fresh(min, max), steps)
    ensures Invariant(Run(Fresh(min, max), steps))
    ensures forall callers: nat :: 0 < callers && AtMost(Fresh(min, max), steps, callers) ==> Run(Fresh(min, max), steps).cur < max + callers
  {
    FreshIsInvariant(min, max);
    RunKeeps(Fresh(min, max), steps);
    forall callers: nat | 0 < callers && AtMost(Fresh(min, max), steps, callers)
      ensures Run(Fresh(min, max), steps).cur < max + callers
    {
      RunKeepsMax(Fresh(min, max), steps, callers);
    }
  }

  // ---------------------------------------------------------------------------------------------
  // wait
  // ---------------------------------------------------------------------------------------------

  /** How many threads some steps count in. */
  function Joined(steps: seq<Step>): nat {
    if steps == [] then 0 else (if steps[0].AddFirst? then 1 else 0) + Joined(steps[1..])
  }

  /** How many they count out: those that retire, and at the end of `stop` all that are left. */
  function Lost(p: Pool, steps: seq<Step>): int
    requires MayRun(p, steps)
    decreases |steps|
  {
    if steps == [] then 0
    else (if steps[0].Leave? then 1 else if steps[0].ResetCur? then p.cur else 0) + Lost(Next(p, steps[0]), steps[1..])
  }

  lemma CurStep(p: Pool, s: Step)
    requires Enabled(p, s)
    ensures Next(p, s).cur == p.cur + (if s.AddFirst? then 1 else 0) - (if s.Leave? then 1 else if s.ResetCur? then p.cur else 0)
    ensures Next(p, s).started >= p.started
  {
  }

  lemma {:induction false} CurMoves(p: Pool, steps: seq<Step>)
    requires MayRun(p, steps)
    ensures Run(p, steps).cur == p.cur + Joined(steps) - Lost(p, steps) && Run(p, steps).started >= p.started
    decreases |steps|
  {
    if steps != [] {
      hide Enabled, Next;
      CurStep(p, steps[0]);
      CurMoves(Next(p, steps[0]), steps[1..]);
    }
  }

  /** None of the steps is thread `t`'s. */
  predicate NotBy(t: nat, steps: seq<Step>) {
    forall k :: 0 <= k < |steps| ==> !(IsByThread(steps[k]) && steps[k].t == t)
  }

  lemma {:induction false} ThreadStays(p: Pool, steps: seq<Step>, t: nat)
    requires MayRun(p, steps) && NotBy(t, steps) && t in p.threads
    ensures t in Run(p, steps).threads && Run(p, steps).threads[t] == p.threads[t]
    decreases |steps|
  {
    if steps != [] {
      hide Enabled, Next;
      assert !(IsByThread(steps[0]) && steps[0].t == t);
      ThreadsGrow(p, steps[0], t);
      OtherThread(p, steps[0], t);
      assert NotBy(t, steps[1..]);
      ThreadStays(Next(p, steps[0]), steps[1..], t);
    }
  }

  lemma ThreadsGrow(p: Pool, s: Step, t: nat)
    requires Enabled(p, s) && t in p.threads
    ensures t in Next(p, s).threads
  {
    NextThreads(p, s);
  }

  /**
   * The last turn of `wait` in thread `t`: what the others do after it has read the queue, and between its reads of
   * the two counters. C++ leaves open which of the two it reads first.
   */
  datatype Waited = Waited(t: nat, sinceQueue: seq<Step>, between: seq<Step>, idleFirst: bool) {
    function First(): Step {
      if idleFirst then ReadIdle(t) else ReadCur(t)
    }

    function Second(): Step {
      if idleFirst then ReadCur(t) else ReadIdle(t)
    }
  }

  /** The queue is read in state `p`, and a first counter then and there can be. */
  predicate ReadsFirst(p: Pool, w: Waited) {
    && Enabled(p, ReadQueue(w.t)) && MayRun(Next(p, ReadQueue(w.t)), w.sinceQueue) && NotBy(w.t, w.sinceQueue)
    && Enabled(AtFirst(p, w), w.First())
  }

  /** The state in which the first counter is read. */
  function AtFirst(p: Pool, w: Waited): Pool
    requires Enabled(p, ReadQueue(w.t)) && MayRun(Next(p, ReadQueue(w.t)), w.sinceQueue)
  {
    Run(Next(p, ReadQueue(w.t)), w.sinceQueue)
  }

  /** The state in which the second counter is read. */
  function AtSecond(p: Pool, w: Waited): Pool
    requires ReadsFirst(p, w) && MayRun(Next(AtFirst(p, w), w.First()), w.between)
  {
    Run(Next(AtFirst(p, w), w.First()), w.between)
  }

  /** `wait` reads an empty queue in state `p`, then the counters, finds them equal and returns. */
  predicate Returns(p: Pool, w: Waited) {
    && ReadsFirst(p, w)
    && MayRun(Next(AtFirst(p, w), w.First()), w.between) && NotBy(w.t, w.between)
    && Enabled(AtSecond(p, w), w.Second())
    && Is(Next(AtSecond(p, w), w.Second()), w.t, Passed)
  }

  /** The state in which the idle threads are read. */
  function AtIdle(p: Pool, w: Waited): Pool
    requires Returns(p, w)
  {
    if w.idleFirst then AtFirst(p, w) else AtSecond(p, w)
  }

  /** Threads counted out between the two reads. */
  function LostBetween(p: Pool, w: Waited): int
    requires Returns(p, w)
  {
    Lost(Next(AtFirst(p, w), w.First()), w.between)
  }

  predicate NoneBusy(p: Pool) {
    forall t :: t in p.threads ==> !IsA(p.threads[t], Busy)
  }

  lemma NoneIsZero(p: Pool, k: Kind)
    ensures Count(p, k) == 0 <==> forall t :: t in p.threads ==> !IsA(p.threads[t], k)
  {
    var those := Those(p.threads, k);
    if Count(p, k) == 0 {
      forall t | t in p.threads ensures !IsA(p.threads[t], k) {
        assert t !in those;
      }
    } else {
      var t :| t in those;
    }
  }

  /** A read changes nothing but its thread. */
  lemma ReadChanges(p: Pool, s: Step)
    requires Enabled(p, s) && (s.ReadQueue? || s.ReadIdle? || s.ReadCur?)
    ensures var q := Next(p, s);
            && q.cur == p.cur && q.idle == p.idle && q.started == p.started && q.finished == p.finished && q.committed == p.committed
            && s.t in p.threads && q.threads == p.threads[s.t := q.threads[s.t]]
  {
  }

  /** What the first read leaves the thread in. */
  lemma FirstRead(p: Pool, w: Waited)
    requires ReadsFirst(p, w)
    ensures p.tasks == []
    ensures Is(Next(AtFirst(p, w), w.First()), w.t, if w.idleFirst then SawIdle(AtFirst(p, w).idle) else SawCur(AtFirst(p, w).cur))
  {
    hide MayRun, Run, NotBy;
    var p1, p2 := Next(p, ReadQueue(w.t)), AtFirst(p, w);
    ThreadStays(p1, w.sinceQueue, w.t);
    assert p1.threads[w.t] == if p.tasks == [] then SawEmpty else Waiting;
    assert p2.threads[w.t] == SawEmpty;
  }

  /** What the second read compares. */
  lemma SecondRead(q: Pool, w: Waited, seen: int)
    requires Is(q, w.t, if w.idleFirst then SawIdle(seen) else SawCur(seen))
    requires Enabled(q, w.Second()) && Is(Next(q, w.Second()), w.t, Passed)
    ensures seen == if w.idleFirst then q.cur else q.idle
  {
  }

  /** What `wait` has read when it returns. */
  lemma ReadsAre(p: Pool, w: Waited)
    requires Returns(p, w)
    ensures p.tasks == []
    ensures if w.idleFirst then AtFirst(p, w).idle == AtSecond(p, w).cur else AtFirst(p, w).cur == AtSecond(p, w).idle
  {
    hide MayRun, Run, NotBy, Enabled, Next;
    var p2 := AtFirst(p, w);
    FirstRead(p, w);
    ThreadStays(Next(p2, w.First()), w.between, w.t);
    SecondRead(AtSecond(p, w), w, if w.idleFirst then p2.idle else p2.cur);
  }

  /** What becomes of the threads meanwhile. */
  lemma CurBetween(p: Pool, w: Waited)
    requires Returns(p, w)
    ensures AtSecond(p, w).cur == AtFirst(p, w).cur + Joined(w.between) - LostBetween(p, w)
    ensures p.started <= AtFirst(p, w).started <= AtSecond(p, w).started
  {
    hide MayRun, Run, Lost, Joined, NotBy, Is;
    var p1, p3 := Next(p, ReadQueue(w.t)), Next(AtFirst(p, w), w.First());
    CurMoves(p1, w.sinceQueue);
    CurMoves(p3, w.between);
    ReadChanges(p, ReadQueue(w.t));
    ReadChanges(AtFirst(p, w), w.First());
    hide Enabled, Next;
  }

  lemma {:induction false} AllBelow(n: nat, tasks: set<nat>)
    requires (forall k :: k in tasks ==> k < n) && |tasks| == n
    ensures forall k :: 0 <= k < n ==> k in tasks
    decreases n
  {
    if n > 0 {
      if n - 1 in tasks {
        var fewer := tasks - {n - 1};
        AllBelow(n - 1, fewer);
        forall k | 0 <= k < n ensures k in tasks {
          if k < n - 1 {
            assert k in fewer;
          }
        }
      } else {
        FewerBelow(n - 1, tasks);
      }
    }
  }

  lemma {:induction false} FewerBelow(n: nat, tasks: set<nat>)
    requires forall k :: k in tasks ==> k < n
    ensures |tasks| <= n
    decreases n
  {
    if n > 0 {
      var fewer := tasks - {n - 1};
      FewerBelow(n - 1, fewer);
      assert |tasks| <= |fewer| + 1 by {
        if n - 1 in tasks {
          assert tasks == fewer + {n - 1};
        } else {
          assert tasks == fewer;
        }
      }
    } else {
      assert tasks == {};
    }
  }

  /** With no worker busy every task that has been started is finished. */
  lemma IdleIsFinished(p: Pool)
    requires EachOnce(p) && NoneBusy(p)
    ensures forall n :: 0 <= n < p.started ==> n in p.finished
  {
    NoneIsZero(p, WithTask);
    hide RunsItsOwn;
    AllBelow(p.started, p.finished);
  }

  lemma BusyIs(q: Pool)
    requires CountersAgree(q)
    ensures NoneBusy(q) <==> q.cur - q.idle == Count(q, HalfAdded) - Count(q, HalfLeft) - HalfReset(q)
  {
    NoneIsZero(q, Busy);
  }

  lemma WaitKeeps(p: Pool, w: Waited)
    requires Invariant(p) && Returns(p, w)
    ensures Invariant(AtFirst(p, w)) && Invariant(AtSecond(p, w))
  {
    hide Invariant, Enabled, Next, MayRun, Run, NotBy, Is;
    NextKeeps(p, ReadQueue(w.t));
    RunKeeps(Next(p, ReadQueue(w.t)), w.sinceQueue);
    NextKeeps(AtFirst(p, w), w.First());
    RunKeeps(Next(AtFirst(p, w), w.First()), w.between);
  }

  /**
   * When `wait` returns after any run of a new pool: at its read of the idle threads no worker was busy, so that every
   * task committed before it read the queue is finished, if and only if the threads half counted in and those counted in
   * between the two reads are as many as those half counted out, by themselves or by `stop`, and those counted out
   * between the reads. If the idle threads are read last, it is the ones counted out that add to the left.
   */
  lemma WaitIsRightIff(min: nat, max: nat, before: seq<Step>, w: Waited)
    requires MayRun(Fresh(min, max), before) && Returns(Run(Fresh(min, max), before), w)
    ensures var p := Run(Fresh(min, max), before);
            var q := AtIdle(p, w);
            var halfOut := Count(q, HalfLeft) + HalfReset(q);
            && (NoneBusy(q) <==> if w.idleFirst then Count(q, HalfAdded) + Joined(w.between) == halfOut + LostBetween(p, w)
                                 else Count(q, HalfAdded) + LostBetween(p, w) == halfOut + Joined(w.between))
            && (NoneBusy(q) ==> forall n :: 0 <= n < p.committed ==> n in q.finished)
  {
    EveryRun(min, max, before);
    var p := Run(Fresh(min, max), before);
    WaitKeeps(p, w);
    ReadsAre(p, w);
    CurBetween(p, w);
    var q := AtIdle(p, w);
    assert p.started == p.committed;
    hide Returns, AtFirst, AtSecond, LostBetween, Joined, Count, MayRun, Run, EachOnce, StopsAlone, OneHalf, LocksHold, NoneBusy;
    BusyIs(q);
    if NoneBusy(q) {
      IdleIsFinished(q);
    }
  }

  lemma EmptyRun(p: Pool)
    ensures MayRun(p, []) && Run(p, []) == p
  {
  }

  lemma Prepend(p: Pool, s: Step, q: Pool, steps: seq<Step>)
    requires Enabled(p, s) && Next(p, s) == q && MayRun(q, steps)
    ensures MayRun(p, [s] + steps) && Run(p, [s] + steps) == Run(q, steps)
  {
    assert ([s] + steps)[1..] == steps;
  }

  lemma {:induction false} RunAppend(p: Pool, a: seq<Step>, b: seq<Step>)
    requires MayRun(p, a) && MayRun(Run(p, a), b)
    ensures MayRun(p, a + b) && Run(p, a + b) == Run(Run(p, a), b)
    decreases |a|
  {
    if a == [] {
      assert a + b == b;
    } else {
      hide Enabled, Next;
      assert (a + b)[0] == a[0] && (a + b)[1..] == a[1..] + b;
      RunAppend(Next(p, a[0]), a[1..], b);
    }
  }

  /** Threads 10 and 11 work, thread 0 has started them. */
  function TwoWorkers(): Pool {
    Fresh(1, 2).(status := Started, cur := 2, idle := 2, threads := map[0 := Done, 10 := Looping, 11 := Looping])
  }

  lemma OneStep(p: Pool, s: Step)
    requires Enabled(p, s)
    ensures MayRun(p, [s]) && Run(p, [s]) == Next(p, s)
  {
    EmptyRun(Next(p, s));
    Prepend(p, s, Next(p, s), []);
  }

  lemma TwoSteps(p: Pool, s1: Step, s2: Step)
    requires Enabled(p, s1) && Enabled(Next(p, s1), s2)
    ensures MayRun(p, [s1, s2]) && Run(p, [s1, s2]) == Next(Next(p, s1), s2)
  {
    hide Enabled, Next;
    OneStep(Next(p, s1), s2);
    Prepend(p, s1, Next(p, s1), [s2]);
    assert [s1] + [s2] == [s1, s2];
  }

  lemma ThreeSteps(p: Pool, s1: Step, s2: Step, s3: Step)
    requires Enabled(p, s1) && Enabled(Next(p, s1), s2) && Enabled(Next(Next(p, s1), s2), s3)
    ensures MayRun(p, [s1, s2, s3]) && Run(p, [s1, s2, s3]) == Next(Next(Next(p, s1), s2), s3)
  {
    hide Enabled, Next;
    TwoSteps(Next(p, s1), s2, s3);
    Prepend(p, s1, Next(p, s1), [s2, s3]);
    assert [s1] + [s2, s3] == [s1, s2, s3];
  }

  lemma CreateStep(p: Pool, t: nat, worker: nat, count: nat, goal: Goal)
    requires Is(p, t, Creating(count + 1, goal)) && worker !in p.threads && p.cur < p.max && ThreadLockIsFree(p)
    ensures var q := p.(threads := p.threads[worker := Looping][t := Spawned(count, goal)]);
            Enabled(p, Create(t, worker)) && Next(p, Create(t, worker)) == q && ThreadLockIsFree(q)
  {
  }

  lemma AddsFirst(p: Pool, t: nat, count: nat, goal: Goal)
    requires Is(p, t, Spawned(count, goal)) && ThreadLockIsFree(p)
    ensures Enabled(p, AddFirst(t)) && Next(p, AddFirst(t)) == p.(cur := p.cur + 1, threads := p.threads[t := Adding(count, goal)])
  {
  }

  lemma AddsSecond(p: Pool, t: nat, count: nat, goal: Goal)
    requires Is(p, t, Adding(count, goal))
    ensures Enabled(p, AddSecond(t)) && Next(p, AddSecond(t)) == p.(idle := p.idle + 1, threads := p.threads[t := Creating(count, goal)])
  {
  }

  /** A caller counts the thread it has created. */
  lemma CountsOne(p: Pool, t: nat, count: nat, goal: Goal)
    requires Is(p, t, Spawned(count, goal)) && ThreadLockIsFree(p)
    ensures var steps := [AddFirst(t), AddSecond(t)];
            && MayRun(p, steps)
            && Run(p, steps) == p.(cur := p.cur + 1, idle := p.idle + 1, threads := p.threads[t := Creating(count, goal)])
  {
    hide MayRun, Run, Enabled, Next, ThreadLockIsFree;
    var q := p.(cur := p.cur + 1, threads := p.threads[t := Adding(count, goal)]);
    AddsFirst(p, t, count, goal);
    AddsSecond(q, t, count, goal);
    TwoSteps(p, AddFirst(t), AddSecond(t));
    assert q.threads[t := Creating(count, goal)] == p.threads[t := Creating(count, goal)];
  }

  /** A caller creates and counts one thread. */
  lemma CreatesOne(p: Pool, t: nat, worker: nat, count: nat, goal: Goal)
    requires Is(p, t, Creating(count + 1, goal)) && worker !in p.threads && p.cur < p.max && ThreadLockIsFree(p)
    ensures var steps := [Create(t, worker), AddFirst(t), AddSecond(t)];
            && MayRun(p, steps)
            && Run(p, steps) == p.(cur := p.cur + 1, idle := p.idle + 1, threads := p.threads[worker := Looping][t := Creating(count, goal)])
  {
    hide MayRun, Run, Enabled, Next, ThreadLockIsFree;
    var q := p.(threads := p.threads[worker := Looping][t := Spawned(count, goal)]);
    CreateStep(p, t, worker, count, goal);
    CountsOne(q, t, count, goal);
    Prepend(p, Create(t, worker), q, [AddFirst(t), AddSecond(t)]);
    assert [Create(t, worker)] + [AddFirst(t), AddSecond(t)] == [Create(t, worker), AddFirst(t), AddSecond(t)];
    assert q.threads[t := Creating(count, goal)] == p.threads[worker := Looping][t := Creating(count, goal)];
  }

  /** Thread 0 is starting two workers and has `left` to create. */
  function StartingTwo(left: nat, threads: map<nat, Thread>): Pool {
    Fresh(1, 2).(status := Started, cur := 2 - left, idle := 2 - left, threads := threads[0 := Creating(left, JustStart)])
  }

  lemma StartsFirst(steps: seq<Step>)
    requires steps == [Create(0, 10), AddFirst(0), AddSecond(0)]
    ensures MayRun(Fresh(1, 2), [Start(0, 2), Open(0)]) && Run(Fresh(1, 2), [Start(0, 2), Open(0)]) == StartingTwo(2, map[])
    ensures MayRun(StartingTwo(2, map[]), steps) && Run(StartingTwo(2, map[]), steps) == StartingTwo(1, map[10 := Looping])
  {
    hide MayRun, Run;
    var opening := Next(Fresh(1, 2), Start(0, 2));
    assert opening.threads[0] == Opening(2, JustStart);
    TwoSteps(Fresh(1, 2), Start(0, 2), Open(0));
    assert Next(opening, Open(0)).threads == StartingTwo(2, map[]).threads;
    CreatesOne(StartingTwo(2, map[]), 0, 10, 1, JustStart);
    assert StartingTwo(2, map[]).threads[10 := Looping][0 := Creating(1, JustStart)] == StartingTwo(1, map[10 := Looping]).threads;
  }

  lemma StartsSecond(steps: seq<Step>)
    requires steps == [Create(0, 11), AddFirst(0), AddSecond(0)]
    ensures var p := StartingTwo(1, map[10 := Looping]);
            MayRun(p, steps) && Run(p, steps) == StartingTwo(0, map[10 := Looping, 11 := Looping])
  {
    hide MayRun, Run;
    var p, q := StartingTwo(1, map[10 := Looping]), StartingTwo(0, map[10 := Looping, 11 := Looping]);
    CreatesOne(p, 0, 11, 0, JustStart);
    assert p.threads[11 := Looping][0 := Creating(0, JustStart)] == q.threads;
  }

  lemma StartsLast()
    ensures var p := StartingTwo(0, map[10 := Looping, 11 := Looping]);
            MayRun(p, [Created(0)]) && Run(p, [Created(0)]) == TwoWorkers()
  {
    hide MayRun, Run;
    var p := StartingTwo(0, map[10 := Looping, 11 := Looping]);
    OneStep(p, Created(0));
    assert p.threads[0 := Done] == TwoWorkers().threads;
  }

  lemma StartTwo() returns (steps: seq<Step>)
    ensures MayRun(Fresh(1, 2), steps) && Run(Fresh(1, 2), steps) == TwoWorkers()
  {
    hide *;
    var one, two := [Create(0, 10), AddFirst(0), AddSecond(0)], [Create(0, 11), AddFirst(0), AddSecond(0)];
    StartsFirst(one);
    StartsSecond(two);
    StartsLast();
    RunAppend(StartingTwo(1, map[10 := Looping]), two, [Created(0)]);
    RunAppend(StartingTwo(2, map[]), one, two + [Created(0)]);
    RunAppend(Fresh(1, 2), [Start(0, 2), Open(0)], one + (two + [Created(0)]));
    steps := [Start(0, 2), Open(0)] + (one + (two + [Created(0)]));
  }

  /** A commit that finds more threads idle than tasks queued. */
  lemma FindsIdle(p: Pool, t: nat)
    requires p.status == Started && p.stopping.NotStopping? && t !in p.threads && p.idle > |p.tasks|
    ensures var steps := [Commit(t), DecideIdle(t), DecideQueue(t)];
            MayRun(p, steps) && Run(p, steps) == p.(threads := p.threads[t := Queueing])
  {
    hide MayRun, Run;
    ThreeSteps(p, Commit(t), DecideIdle(t), DecideQueue(t));
    assert p.threads[t := Deciding][t := SawFree(p.idle)][t := Queueing] == p.threads[t := Queueing];
  }

  /** A caller queues a task without creating a thread. */
  lemma CommitsOne(p: Pool, t: nat)
    requires p.status == Started && p.stopping.NotStopping? && t !in p.threads && TaskLockIsFree(p) && p.idle > |p.tasks|
    ensures var steps := [Commit(t), DecideIdle(t), DecideQueue(t)] + [Enqueue(t)];
            && MayRun(p, steps)
            && Run(p, steps) == p.(tasks := p.tasks + [p.committed], committed := p.committed + 1, threads := p.threads[t := Done])
  {
    hide MayRun, Run;
    FindsIdle(p, t);
    var q := p.(threads := p.threads[t := Queueing]);
    OneStep(q, Enqueue(t));
    RunAppend(p, [Commit(t), DecideIdle(t), DecideQueue(t)], [Enqueue(t)]);
    assert q.threads[t := Done] == p.threads[t := Done];
  }

  /** The steps by which a commit comes to create a thread. */
  function Decision(t: nat): seq<Step> {
    [DecideIdle(t), DecideQueue(t), DecideCur(t)]
  }

  lemma ReadsFree(p: Pool, t: nat)
    requires Is(p, t, Deciding)
    ensures Enabled(p, DecideIdle(t)) && Next(p, DecideIdle(t)) == p.(threads := p.threads[t := SawFree(p.idle)])
  {
  }

  lemma ReadsQueued(p: Pool, t: nat)
    requires Is(p, t, SawFree(p.idle)) && 0 <= p.idle <= |p.tasks|
    ensures Enabled(p, DecideQueue(t)) && Next(p, DecideQueue(t)) == p.(threads := p.threads[t := FewIdle])
  {
  }

  lemma ReadsRoom(p: Pool, t: nat)
    requires Is(p, t, FewIdle) && p.cur < p.max
    ensures Enabled(p, DecideCur(t)) && Next(p, DecideCur(t)) == p.(threads := p.threads[t := Creating(1, ToQueue)])
  {
  }

  /** A commit finds no more threads idle than tasks queued and room for one more thread. */
  lemma FindsRoom(p: Pool, t: nat)
    requires Is(p, t, Deciding) && 0 <= p.idle <= |p.tasks| && p.cur < p.max
    ensures MayRun(p, Decision(t)) && Run(p, Decision(t)) == p.(threads := p.threads[t := Creating(1, ToQueue)])
  {
    hide MayRun, Run, Enabled, Next;
    var q := p.(threads := p.threads[t := SawFree(p.idle)]);
    var r := q.(threads := q.threads[t := FewIdle]);
    ReadsFree(p, t);
    ReadsQueued(q, t);
    ReadsRoom(r, t);
    ThreeSteps(p, DecideIdle(t), DecideQueue(t), DecideCur(t));
    assert r.threads[t := Creating(1, ToQueue)] == p.threads[t := Creating(1, ToQueue)];
  }

  /** A commit has found no thread idle and is about to create one. */
  lemma Decides(p: Pool, t: nat)
    requires p.status == Started && p.stopping.NotStopping? && t !in p.threads && 0 <= p.idle <= |p.tasks| && p.cur < p.max
    ensures MayRun(p, [Commit(t)] + Decision(t))
    ensures Run(p, [Commit(t)] + Decision(t)) == p.(threads := p.threads[t := Creating(1, ToQueue)])
  {
    hide MayRun, Run;
    var q := p.(threads := p.threads[t := Deciding]);
    OneStep(p, Commit(t));
    FindsRoom(q, t);
    RunAppend(p, [Commit(t)], Decision(t));
    assert q.threads[t := Creating(1, ToQueue)] == p.threads[t := Creating(1, ToQueue)];
  }

  lemma TakesOne(p: Pool, t: nat)
    requires p.status == Started && Is(p, t, Looping) && TaskLockIsFree(p) && p.tasks != []
    ensures var steps := [Take(t), Pop(t)];
            && MayRun(p, steps)
            && Run(p, steps) == p.(idle := p.idle - 1, tasks := p.tasks[1..], started := p.started + 1, threads := p.threads[t := Running(p.tasks[0])])
  {
    hide MayRun, Run;
    var p1 := p.(idle := p.idle - 1, threads := p.threads[t := Taking]);
    var p2 := p1.(tasks := p.tasks[1..], started := p.started + 1, threads := p.threads[t := Running(p.tasks[0])]);
    assert p1 == Next(p, Take(t));
    assert p2 == Next(p1, Pop(t)) by {
      assert p1.threads[t := Running(p.tasks[0])] == p2.threads;
    }
    TwoSteps(p, Take(t), Pop(t));
  }

  lemma Expires(p: Pool, t: nat)
    requires p.status == Started && Is(p, t, Looping) && TaskLockIsFree(p) && ThreadLockIsFree(p) && p.tasks == [] && p.cur > p.min
    ensures var q := p.(threads := p.threads[t := Retiring]);
            Enabled(p, Expire(t)) && Next(p, Expire(t)) == q && ThreadLockIsFree(q)
  {
  }

  lemma Leaves(p: Pool, t: nat)
    requires Is(p, t, Retiring) && ThreadLockIsFree(p)
    ensures Enabled(p, Leave(t)) && Next(p, Leave(t)) == p.(cur := p.cur - 1, threads := p.threads[t := Leaving])
  {
  }

  lemma LeavesHalf(p: Pool, t: nat)
    requires p.status == Started && Is(p, t, Looping) && TaskLockIsFree(p) && ThreadLockIsFree(p) && p.tasks == [] && p.cur > p.min
    ensures var steps := [Expire(t), Leave(t)];
            MayRun(p, steps) && Run(p, steps) == p.(cur := p.cur - 1, threads := p.threads[t := Leaving])
  {
    hide MayRun, Run, Enabled, Next, TaskLockIsFree, ThreadLockIsFree;
    var q := p.(threads := p.threads[t := Retiring]);
    Expires(p, t);
    Leaves(q, t);
    TwoSteps(p, Expire(t), Leave(t));
    assert q.threads[t := Leaving] == p.threads[t := Leaving];
  }

  lemma LeavesWhole(p: Pool, t: nat)
    requires p.status == Started && Is(p, t, Looping) && TaskLockIsFree(p) && ThreadLockIsFree(p) && p.tasks == [] && p.cur > p.min
    ensures var steps := [Expire(t), Leave(t), Left(t)];
            MayRun(p, steps) && Run(p, steps) == p.(cur := p.cur - 1, idle := p.idle - 1, threads := p.threads[t := Gone])
  {
    LeavesHalf(p, t);
    var q := p.(cur := p.cur - 1, threads := p.threads[t := Leaving]);
    hide MayRun, Run;
    OneStep(q, Left(t));
    RunAppend(p, [Expire(t), Leave(t)], [Left(t)]);
    assert [Expire(t), Leave(t)] + [Left(t)] == [Expire(t), Leave(t), Left(t)];
    assert q.threads[t := Gone] == p.threads[t := Gone];
  }

  /** Thread 10 runs task 0, thread 11 has none, and thread 2 is about to read the queue. */
  predicate HoldsTask(p: Pool) {
    && p.status == Started && p.stopping.NotStopping? && p.min == 1 && p.max == 2 && p.cur == 2 && p.idle == 1
    && p.tasks == [] && p.committed == 1 && p.finished == {} && 3 !in p.threads && 12 !in p.threads
    && Is(p, 2, Looking) && Is(p, 10, Running(0)) && Is(p, 11, Looping) && TaskLockIsFree(p) && ThreadLockIsFree(p)
  }

  lemma CommitsAndTakes(p: Pool) returns (steps: seq<Step>)
    requires p == TwoWorkers()
    ensures MayRun(p, steps)
    ensures Run(p, steps) == p.(idle := 1, committed := 1, started := 1, threads := p.threads[1 := Done][10 := Running(0)])
  {
    hide MayRun, Run;
    var q := p.(tasks := [0], committed := 1, threads := p.threads[1 := Done]);
    CommitsOne(p, 1);
    assert p.tasks + [0] == q.tasks && q.tasks[1..] == p.tasks;
    TakesOne(q, 10);
    RunAppend(p, [Commit(1), DecideIdle(1), DecideQueue(1)] + [Enqueue(1)], [Take(10), Pop(10)]);
    steps := [Commit(1), DecideIdle(1), DecideQueue(1)] + [Enqueue(1)] + [Take(10), Pop(10)];
  }

  lemma Waits(p: Pool, t: nat)
    requires t !in p.threads && p.status != Stopped
    ensures MayRun(p, [Wait(t), Look(t)]) && Run(p, [Wait(t), Look(t)]) == p.(threads := p.threads[t := Looking])
  {
    hide MayRun, Run;
    TwoSteps(p, Wait(t), Look(t));
    assert p.threads[t := Waiting][t := Looking] == p.threads[t := Looking];
  }

  lemma ReachesHold() returns (before: seq<Step>)
    ensures MayRun(Fresh(1, 2), before) && HoldsTask(Run(Fresh(1, 2), before))
  {
    hide MayRun, Run, Enabled, Next;
    var p := TwoWorkers();
    var q := p.(idle := 1, committed := 1, started := 1, threads := p.threads[1 := Done][10 := Running(0)]);
    before := StartTwo();
    var steps := CommitsAndTakes(p);
    Waits(q, 2);
    RunAppend(p, steps, [Wait(2), Look(2)]);
    RunAppend(Fresh(1, 2), before, steps + [Wait(2), Look(2)]);
    before := before + (steps + [Wait(2), Look(2)]);
  }

  lemma ReadsEmpty(p: Pool, t: nat)
    requires Is(p, t, Looking) && p.tasks == []
    ensures Enabled(p, ReadQueue(t)) && Next(p, ReadQueue(t)) == p.(threads := p.threads[t := SawEmpty])
  {
  }

  lemma ReadsIdle(p: Pool, t: nat)
    requires t in p.threads && (p.threads[t].SawEmpty? || p.threads[t] == SawCur(p.idle))
    ensures Enabled(p, ReadIdle(t))
    ensures Next(p, ReadIdle(t)) == p.(threads := p.threads[t := if p.threads[t].SawEmpty? then SawIdle(p.idle) else Passed])
  {
  }

  lemma ReadsCur(p: Pool, t: nat)
    requires t in p.threads && (p.threads[t].SawEmpty? || p.threads[t] == SawIdle(p.cur))
    ensures Enabled(p, ReadCur(t))
    ensures Next(p, ReadCur(t)) == p.(threads := p.threads[t := if p.threads[t].SawEmpty? then SawCur(p.cur) else Passed])
  {
  }

  /** In a pool as `HoldsTask` has it `wait` returns although task 0, queued before it read the queue, is not finished. */
  predicate ReturnsEarly(p: Pool, w: Waited) {
    Returns(p, w) && !NoneBusy(AtIdle(p, w)) && AtSecond(p, w).finished == {}
  }

  lemma TaskIsHeld(p: Pool)
    requires Is(p, 10, Running(0))
    ensures !NoneBusy(p)
  {
  }

  /** A worker is half counted out at both reads. */
  predicate IsEarlyAtHalf(p: Pool, w: Waited) {
    ReturnsEarly(p, w) && Count(AtIdle(p, w), HalfLeft) == 1 && w.between == []
  }

  lemma EarlyAtHalf(p: Pool, w: Waited)
    requires HoldsTask(p) && w == Waited(2, [Expire(11), Leave(11)], [], true)
    ensures IsEarlyAtHalf(p, w)
  {
    hide MayRun, Run, Enabled, Next, NoneBusy;
    var p1 := p.(threads := p.threads[2 := SawEmpty]);
    var p2 := p1.(cur := 1, threads := p1.threads[11 := Leaving]);
    var p3 := p2.(threads := p2.threads[2 := SawIdle(1)]);
    ReadsEmpty(p, 2);
    LeavesHalf(p1, 11);
    ReadsIdle(p2, 2);
    EmptyRun(p3);
    ReadsCur(p3, 2);
    TaskIsHeld(p2);
    assert Those(p2.threads, HalfLeft) == {11};
  }

  /** Nobody is half counted at either read, but a worker is counted out between them. */
  predicate IsEarlyBetween(p: Pool, w: Waited) {
    ReturnsEarly(p, w) && w.idleFirst && Count(AtFirst(p, w), HalfLeft) == Count(AtSecond(p, w), HalfLeft) == 0
  }

  lemma EarlyBetween(p: Pool, w: Waited)
    requires HoldsTask(p) && w == Waited(2, [], [Expire(11), Leave(11), Left(11)], true)
    ensures IsEarlyBetween(p, w)
  {
    hide MayRun, Run, Enabled, Next, NoneBusy;
    var p1 := p.(threads := p.threads[2 := SawEmpty]);
    var p2 := p1.(threads := p1.threads[2 := SawIdle(1)]);
    var p3 := p2.(cur := 1, idle := 0, threads := p2.threads[11 := Gone]);
    ReadsEmpty(p, 2);
    EmptyRun(p1);
    ReadsIdle(p1, 2);
    LeavesWhole(p2, 11);
    ReadsCur(p3, 2);
    TaskIsHeld(p1);
    NoneIsZero(p1, HalfLeft);
    NoneIsZero(p3, HalfLeft);
  }

  /** The threads are read first, after a worker has left, and a commit creates another before the idle ones are read. */
  predicate IsEarlyByJoining(p: Pool, w: Waited) {
    ReturnsEarly(p, w) && !w.idleFirst && Count(AtIdle(p, w), HalfLeft) == LostBetween(p, w) == 0
  }

  lemma EarlyByJoining(p: Pool) returns (w: Waited)
    requires HoldsTask(p)
    ensures IsEarlyByJoining(p, w)
  {
    hide MayRun, Run, Enabled, Next, NoneBusy, Lost;
    var p1 := p.(threads := p.threads[2 := SawEmpty]);
    var p2 := p1.(cur := 1, idle := 0, threads := p1.threads[11 := Gone]);
    var p3 := p2.(threads := p2.threads[2 := SawCur(1)]);
    var between := CommitsWithThread(p3);
    var p4 := p3.(cur := 2, idle := 1, threads := p3.threads[12 := Looping][3 := Creating(0, ToQueue)]);
    w := Waited(2, [Expire(11), Leave(11), Left(11)], between, false);
    ReadsEmpty(p, 2);
    LeavesWhole(p1, 11);
    ReadsCur(p2, 2);
    ReadsIdle(p4, 2);
    TaskIsHeld(p4);
    NoneIsZero(p4, HalfLeft);
  }

  lemma CommitsWithThread(p: Pool) returns (steps: seq<Step>)
    requires p.status == Started && p.stopping.NotStopping? && p.cur < p.max && ThreadLockIsFree(p) && 3 !in p.threads && 12 !in p.threads
    requires 0 <= p.idle <= |p.tasks|
    ensures MayRun(p, steps) && NotBy(2, steps) && Lost(p, steps) == 0
    ensures Run(p, steps) == p.(cur := p.cur + 1, idle := p.idle + 1, threads := p.threads[12 := Looping][3 := Creating(0, ToQueue)])
  {
    hide MayRun, Run, Lost, Enabled, Next;
    var q := p.(threads := p.threads[3 := Creating(1, ToQueue)]);
    Decides(p, 3);
    CreatesOne(q, 3, 12, 0, ToQueue);
    assert q.threads[12 := Looping][3 := Creating(0, ToQueue)] == p.threads[12 := Looping][3 := Creating(0, ToQueue)];
    RunAppend(p, [Commit(3)] + Decision(3), [Create(3, 12), AddFirst(3), AddSecond(3)]);
    steps := [Commit(3)] + Decision(3) + [Create(3, 12), AddFirst(3), AddSecond(3)];
    NoneLost(p, steps);
  }

  lemma {:induction false} NoneLost(p: Pool, steps: seq<Step>)
    requires MayRun(p, steps) && forall k :: 0 <= k < |steps| ==> !steps[k].Leave? && !steps[k].ResetCur?
    ensures Lost(p, steps) == 0
    decreases |steps|
  {
    if steps != [] {
      hide Enabled, Next;
      NoneLost(Next(p, steps[0]), steps[1..]);
    }
  }

  /** A new pool of one to two threads can come to each of these returns. */
  lemma WaitMayReturnEarly() returns (before: seq<Step>, atHalf: Waited, between: Waited, byJoining: Waited)
    ensures MayRun(Fresh(1, 2), before) && Run(Fresh(1, 2), before).committed == 1
    ensures IsEarlyAtHalf(Run(Fresh(1, 2), before), atHalf)
    ensures IsEarlyBetween(Run(Fresh(1, 2), before), between)
    ensures IsEarlyByJoining(Run(Fresh(1, 2), before), byJoining)
  {
    hide MayRun, Run, ReturnsEarly, Returns, IsEarlyAtHalf, IsEarlyBetween, IsEarlyByJoining;
    before := ReachesHold();
    var p := Run(Fresh(1, 2), before);
    atHalf := Waited(2, [Expire(11), Leave(11)], [], true);
    EarlyAtHalf(p, atHalf);
    between := Waited(2, [], [Expire(11), Leave(11), Left(11)], true);
    EarlyBetween(p, between);
    byJoining := EarlyByJoining(p);
  }

  // ---------------------------------------------------------------------------------------------
  // Two overlapping callers
  // ---------------------------------------------------------------------------------------------

  predicate CallersAreAmong(p: Pool, callers: set<nat>) {
    forall t :: t in p.threads && IsCaller(p.threads[t]) ==> t in callers
  }

  predicate StepsAreBy(steps: seq<Step>, callers: set<nat>) {
    forall k :: 0 <= k < |steps| ==> IsByThread(steps[k]) && steps[k].t in callers
  }

  /** A run whose steps these threads take never has more callers than there are of them. */
  lemma {:induction false} AtMostThese(p: Pool, steps: seq<Step>, callers: set<nat>)
    requires MayRun(p, steps) && CallersAreAmong(p, callers) && StepsAreBy(steps, callers)
    ensures AtMost(p, steps, |callers|)
    decreases |steps|
  {
    var those := Those(p.threads, Calling);
    assert callers == those + (callers - those);
    if steps != [] {
      hide Enabled, Next;
      assert IsByThread(steps[0]) && steps[0].t in callers;
      CallersStay(p, steps[0], callers);
      assert StepsAreBy(steps[1..], callers);
      AtMostThese(Next(p, steps[0]), steps[1..], callers);
    }
  }

  lemma CallersStay(p: Pool, s: Step, callers: set<nat>)
    requires Enabled(p, s) && CallersAreAmong(p, callers) && IsByThread(s) && s.t in callers
    ensures CallersAreAmong(Next(p, s), callers)
  {
    NextThreads(p, s);
  }

  /** The pool is started by its first commit. */
  lemma FirstCommit(p: Pool, t: nat) returns (steps: seq<Step>)
    requires p == Fresh(0, 1)
    ensures MayRun(p, steps) && StepsAreBy(steps, {t})
    ensures Run(p, steps) == p.(status := Started, threads := map[t := Creating(1, ToQueue)])
  {
    hide MayRun, Run;
    var q := p.(status := Started, threads := map[t := Creating(0, ToDecide)]);
    ThreeSteps(p, Commit(t), Check(t), Open(t));
    assert p.threads[t := Checking][t := Opening(0, ToDecide)][t := Creating(0, ToDecide)] == q.threads;
    var r := q.(threads := q.threads[t := Deciding]);
    OneStep(q, Created(t));
    FindsRoom(r, t);
    assert r.threads[t := Creating(1, ToQueue)] == map[t := Creating(1, ToQueue)];
    RunAppend(q, [Created(t)], Decision(t));
    RunAppend(p, [Commit(t), Check(t), Open(t)], [Created(t)] + Decision(t));
    steps := [Commit(t), Check(t), Open(t)] + ([Created(t)] + Decision(t));
  }

  /** Two callers find room for a thread before either thread is counted. */
  lemma BothCreate(p: Pool, t: nat, u: nat)
    requires Is(p, t, Creating(1, ToQueue)) && Is(p, u, Creating(1, ToQueue)) && t != u && 10 !in p.threads && 11 !in p.threads
    requires p.cur < p.max && ThreadLockIsFree(p)
    ensures var steps := [Create(t, 10), Create(u, 11)];
            && MayRun(p, steps) && StepsAreBy(steps, {t, u})
            && Is(Run(p, steps), t, Spawned(0, ToQueue)) && Is(Run(p, steps), u, Spawned(0, ToQueue))
            && Run(p, steps).cur == p.cur && ThreadLockIsFree(Run(p, steps))
  {
    hide MayRun, Run, Enabled, Next;
    CreateStep(p, t, 10, 0, ToQueue);
    var q := p.(threads := p.threads[10 := Looping][t := Spawned(0, ToQueue)]);
    CreateStep(q, u, 11, 0, ToQueue);
    TwoSteps(p, Create(t, 10), Create(u, 11));
  }

  lemma BothCount(p: Pool, t: nat, u: nat) returns (steps: seq<Step>)
    requires Is(p, t, Spawned(0, ToQueue)) && Is(p, u, Spawned(0, ToQueue)) && t != u && ThreadLockIsFree(p)
    ensures MayRun(p, steps) && StepsAreBy(steps, {t, u}) && Run(p, steps).cur == p.cur + 2
  {
    hide MayRun, Run;
    CountsOne(p, t, 0, ToQueue);
    var q := p.(cur := p.cur + 1, idle := p.idle + 1, threads := p.threads[t := Creating(0, ToQueue)]);
    CountsOne(q, u, 0, ToQueue);
    RunAppend(p, [AddFirst(t), AddSecond(t)], [AddFirst(u), AddSecond(u)]);
    steps := [AddFirst(t), AddSecond(t)] + [AddFirst(u), AddSecond(u)];
  }

  /** Two commits at once pass a maximum of one thread: the bound of `RunKeepsMax` is reached. */
  lemma TwoCallersPassMax() returns (steps: seq<Step>)
    ensures MayRun(Fresh(0, 1), steps) && AtMost(Fresh(0, 1), steps, 2)
    ensures Run(Fresh(0, 1), steps).cur == 2
  {
    hide MayRun, Run, AtMost, Enabled, Next;
    var p := Fresh(0, 1);
    var first := FirstCommit(p, 1);
    var p1 := Run(p, first);
    Decides(p1, 2);
    var p2 := Run(p1, [Commit(2)] + Decision(2));
    BothCreate(p2, 1, 2);
    var count := BothCount(Run(p2, [Create(1, 10), Create(2, 11)]), 1, 2);
    RunAppend(p2, [Create(1, 10), Create(2, 11)], count);
    RunAppend(p1, [Commit(2)] + Decision(2), [Create(1, 10), Create(2, 11)] + count);
    RunAppend(p, first, [Commit(2)] + Decision(2) + ([Create(1, 10), Create(2, 11)] + count));
    steps := first + ([Commit(2)] + Decision(2) + ([Create(1, 10), Create(2, 11)] + count));
    AtMostThese(p, steps, {1, 2});
  }
}
