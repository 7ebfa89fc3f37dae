/**
 * How many threads HThreadPool of include/hv/hthreadpool.h has at least: what `start` creates, and what every run
 * keeps.
 */
module ThreadMinimum {
  import opened Text
  import opened ThreadPool

  // ---------------------------------------------------------------------------------------------
  // Every run keeps the minimum
  // ---------------------------------------------------------------------------------------------

  /** `pause` or `resume` stores the status it was to store before the pool was stopped. */
  predicate Revives(p: Pool, s: Step) {
    (s.StorePause? || s.StoreResume?) && p.status == Stopped
  }

  predicate NoneRevives(p: Pool, steps: seq<Step>)
    requires MayRun(p, steps)
    decreases |steps|
  {
    steps == [] || (!Revives(p, steps[0]) && NoneRevives(Next(p, steps[0]), steps[1..]))
  }

  /** How many threads a caller still has to count. */
  function Due(th: Thread): nat {
    match th
    case Creating(count, _) => count
    case Spawned(count, _) => count + 1
    case Adding(count, _) => count
    case _ => 0
  }

  /** There is the minimum of threads, or a caller that will have counted as many. */
  predicate Reaches(p: Pool) {
    p.cur >= p.min || exists t :: t in p.threads && p.cur + Due(p.threads[t]) >= p.min
  }

  predicate OpensEnough(p: Pool) {
    forall t :: t in p.threads && p.threads[t].Opening? ==> p.min <= p.threads[t].count <= p.max
  }

  /** `stop` has stored its status before it waits for the workers. */
  predicate StopsFirst(p: Pool) {
    p.stopping.Joining? || p.stopping.Resetting? ==> p.status == Stopped
  }

  /** A pool that is stopped has no threads, and its callers have got no further than to find that. */
  predicate IsEmpty(p: Pool) {
    && p.cur == 0 && p.idle == 0 && NoWorkers(p)
    && forall t :: t in p.threads && IsCaller(p.threads[t]) ==> p.threads[t].Checking? || p.threads[t].Opening?
  }

  predicate MinHolds(p: Pool) {
    && OpensEnough(p) && StopsFirst(p)
    && (p.status != Stopped ==> Reaches(p))
    && (p.status == Stopped && p.stopping.NotStopping? ==> IsEmpty(p))
  }

  lemma OpensEnoughKept(p: Pool, s: Step)
    requires Enabled(p, s) && OpensEnough(p) && p.min <= p.max
    ensures OpensEnough(Next(p, s))
  {
    NextThreads(p, s);
  }

  lemma StopsFirstKept(p: Pool, s: Step)
    requires Enabled(p, s) && StopsFirst(p) && StopsAlone(p) && !Revives(p, s)
    ensures StopsFirst(Next(p, s))
  {
  }

  /** What a caller has counted and has to count is as much as before, and no less is counted by others. */
  lemma DueStep(p: Pool, s: Step, t: nat)
    requires Enabled(p, s) && !s.Leave? && !s.ResetCur? && t in p.threads && p.cur < p.max
    ensures t in Next(p, s).threads && Next(p, s).cur + Due(Next(p, s).threads[t]) >= p.cur + Due(p.threads[t])
  {
    ThreadsGrow(p, s, t);
    CurStep(p, s);
    if Moved(p, s).Some? && Moved(p, s).value.0 == t {
      OwnDueStep(p, s);
    } else {
      OtherThread(p, s, t);
    }
    hide Enabled, Next, Moved;
  }

  lemma OwnDueStep(p: Pool, s: Step)
    requires Enabled(p, s) && IsByThread(s) && !s.Leave? && s.t in p.threads && p.cur < p.max
    ensures Next(p, s).cur + Due(Next(p, s).threads[s.t]) >= p.cur + Due(p.threads[s.t])
  {
  }

  lemma StatusStays(p: Pool, s: Step)
    requires Enabled(p, s) && !s.Open? && !Revives(p, s)
    ensures p.status == Stopped ==> Next(p, s).status == Stopped
  {
  }

  /** The first `start` of an empty pool sets out to create at least the minimum. */
  lemma OpenReaches(p: Pool, s: Step)
    requires Enabled(p, s) && s.Open? && StopsAlone(p) && MinHolds(p) && p.status == Stopped
    ensures Reaches(Next(p, s))
  {
    var th := p.threads[s.t];
    assert IsCaller(th) && th.count >= p.min;
    assert Next(p, s).threads[s.t] == Creating(th.count, th.goal);
  }

  lemma ReachesKept(p: Pool, s: Step)
    requires Enabled(p, s) && LocksHold(p) && StopsAlone(p) && MinHolds(p) && p.min <= p.max && !Revives(p, s)
    requires Next(p, s).status != Stopped
    ensures Reaches(Next(p, s))
  {
    if s.Open? && p.status == Stopped {
      OpenReaches(p, s);
    } else if s.Leave? {
      RetirementKeepsMin(p, s.t);
    } else {
      LimitsStay(p, s);
      assert p.status != Stopped by {
        if !s.Open? {
          StatusStays(p, s);
        }
      }
      CurStep(p, s);
      assert s.ResetCur? ==> p.status == Stopped;
      hide Enabled, Next, LocksHold, StopsAlone;
      if p.cur < p.min {
        var t :| t in p.threads && p.cur + Due(p.threads[t]) >= p.min;
        DueStep(p, s, t);
      }
    }
  }

  lemma LimitsStay(p: Pool, s: Step)
    requires Enabled(p, s)
    ensures Next(p, s).min == p.min && Next(p, s).max == p.max
  {
  }

  lemma EmptyAgain(p: Pool, s: Step)
    requires Enabled(p, s) && s.ResetIdle? && StopsAlone(p) && CountersAgree(p)
    ensures IsEmpty(Next(p, s))
  {
    NoneToCount(p);
  }

  lemma EmptyKept(p: Pool, s: Step)
    requires Enabled(p, s) && IsEmpty(p) && p.status == Stopped && p.stopping.NotStopping? && Next(p, s).status == Stopped
    ensures IsEmpty(Next(p, s))
  {
    NextThreads(p, s);
  }

  lemma StoppedBefore(p: Pool, s: Step)
    requires Enabled(p, s) && StopsFirst(p) && !s.ResetIdle? && Next(p, s).status == Stopped && Next(p, s).stopping.NotStopping?
    ensures p.status == Stopped && p.stopping.NotStopping?
  {
  }

  lemma MinKept(p: Pool, s: Step)
    requires Enabled(p, s) && Invariant(p) && MinHolds(p) && p.min <= p.max && !Revives(p, s)
    ensures MinHolds(Next(p, s))
  {
    OpensEnoughKept(p, s);
    StopsFirstKept(p, s);
    var q := Next(p, s);
    if q.status != Stopped {
      ReachesKept(p, s);
    } else if q.stopping.NotStopping? {
      if s.ResetIdle? {
        EmptyAgain(p, s);
      } else {
        StoppedBefore(p, s);
        EmptyKept(p, s);
      }
    }
    hide *;
  }

  lemma {:induction false} RunKeepsMin(p: Pool, steps: seq<Step>)
    requires Invariant(p) && MinHolds(p) && p.min <= p.max && MayRun(p, steps) && NoneRevives(p, steps)
    ensures MinHolds(Run(p, steps)) && Run(p, steps).min == p.min && Run(p, steps).max == p.max
    decreases |steps|
  {
    if steps != [] {
      hide Invariant, MinHolds, Next, Enabled, Revives;
      NextKeeps(p, steps[0]);
      MinKept(p, steps[0]);
      LimitsStay(p, steps[0]);
      RunKeepsMin(Next(p, steps[0]), steps[1..]);
    }
  }

  /**
   * Whenever a pool is not stopped and nobody is inside `start` or `commit` it has its minimum of threads; and when it
   * is stopped and `stop` has returned it has none.
   */
  lemma StartedHasMin(min: nat, max: nat, steps: seq<Step>)
    requires min <= max && MayRun(Fresh(min, max), steps) && NoneRevives(Fresh(min, max), steps)
    ensures var p := Run(Fresh(min, max), steps);
            NoCallers(p) ==> (p.status != Stopped ==> p.cur >= min) && (p.status == Stopped && p.stopping.NotStopping? ==> p.cur == 0 && NoWorkers(p))
  {
    FreshIsInvariant(min, max);
    RunKeepsMin(Fresh(min, max), steps);
    hide Invariant, MayRun, Run, NoneRevives;
  }

  // ---------------------------------------------------------------------------------------------
  // start
  // ---------------------------------------------------------------------------------------------

  function Workers(p: Pool): set<nat> {
    set t | t in p.threads && IsWorker(p.threads[t])
  }

  predicate AllBy(t: nat, steps: seq<Step>) {
    forall k :: 0 <= k < |steps| ==> IsByThread(steps[k]) && steps[k].t == t
  }

  /** How far a `start` of `n` threads has come that nobody overlaps. */
  predicate IsStarting(p: Pool, t: nat, n: nat) {
    && t in p.threads && n <= p.max && p.stopping.NotStopping?
    && match p.threads[t]
       case Opening(count, goal) => goal.JustStart? && count == n && p.cur == 0 && |Workers(p)| == 0
       case Creating(count, goal) => goal.JustStart? && p.status == Started && p.cur + count == n && |Workers(p)| == p.cur
       case Spawned(count, goal) => goal.JustStart? && p.status == Started && p.cur + 1 + count == n && |Workers(p)| == p.cur + 1
       case Adding(count, goal) => goal.JustStart? && p.status == Started && p.cur + count == n && |Workers(p)| == p.cur
       case Done => p.status == Started && p.cur == n && |Workers(p)| == n
       case _ => false
  }

  lemma WorkersNext(p: Pool, s: Step)
    requires Enabled(p, s) && IsByThread(s) && s.t in p.threads && !IsWorker(p.threads[s.t])
    requires s.Open? || s.Create? || s.AddFirst? || s.AddSecond? || s.Created?
    ensures |Workers(Next(p, s))| == |Workers(p)| + (if s.Create? && p.cur < p.max then 1 else 0)
  {
    if s.Create? && p.cur < p.max {
      assert Workers(Next(p, s)) == Workers(p) + {s.worker};
    } else {
      assert Workers(Next(p, s)) == Workers(p);
    }
  }

  lemma StartingKept(p: Pool, t: nat, n: nat, s: Step)
    requires Enabled(p, s) && IsStarting(p, t, n) && IsByThread(s) && s.t == t
    ensures IsStarting(Next(p, s), t, n)
  {
    assert s.Open? || s.Create? || s.AddFirst? || s.AddSecond? || s.Created?;
    WorkersNext(p, s);
    hide Workers;
  }

  lemma {:induction false} StartGoesOn(p: Pool, t: nat, n: nat, steps: seq<Step>)
    requires MayRun(p, steps) && IsStarting(p, t, n) && AllBy(t, steps)
    ensures IsStarting(Run(p, steps), t, n)
    decreases |steps|
  {
    if steps != [] {
      hide Enabled, Next, IsStarting;
      assert IsByThread(steps[0]) && steps[0].t == t;
      StartingKept(p, t, n, steps[0]);
      StartGoesOn(Next(p, steps[0]), t, n, steps[1..]);
    }
  }

  /**
   * A `start` that nobody overlaps, of a pool as it is new or after `stop`, leaves as many workers as asked for, but
   * no fewer than the minimum and no more than the maximum.
   */
  lemma StartAlone(p: Pool, t: nat, count: nat, steps: seq<Step>)
    requires p.min <= p.max && p.status == Stopped && p.stopping.NotStopping? && IsEmpty(p) && t !in p.threads
    requires MayRun(p, [Start(t, count)] + steps) && AllBy(t, steps) && Is(Run(p, [Start(t, count)] + steps), t, Done)
    ensures var q := Run(p, [Start(t, count)] + steps);
            && q.status == Started && q.cur == |Workers(q)| && p.min <= q.cur <= p.max
            && (p.min <= count <= p.max ==> q.cur == count) && (count < p.min ==> q.cur == p.min) && (count > p.max ==> q.cur == p.max)
  {
    var all := [Start(t, count)] + steps;
    assert all[0] == Start(t, count) && all[1..] == steps;
    var opening := Next(p, Start(t, count));
    assert Workers(opening) == {} && opening.threads[t].Opening?;
    assert IsStarting(opening, t, opening.threads[t].count);
    StartGoesOn(opening, t, opening.threads[t].count, steps);
    hide Workers;
  }

  // ---------------------------------------------------------------------------------------------
  // A pool revived
  // ---------------------------------------------------------------------------------------------

  /** One worker, which thread 0 has started. */
  function OneWorker(): Pool {
    Fresh(1, 1).(status := Started, cur := 1, idle := 1, threads := map[10 := Looping, 0 := Done])
  }

  lemma Opens(p: Pool, q: Pool)
    requires p == Fresh(1, 1) && q == p.(status := Started, threads := map[0 := Creating(1, JustStart)])
    ensures MayRun(p, [Start(0, 0), Open(0)]) && Run(p, [Start(0, 0), Open(0)]) == q
  {
    hide MayRun, Run;
    TwoSteps(p, Start(0, 0), Open(0));
    assert p.threads[0 := Opening(1, JustStart)][0 := Creating(1, JustStart)] == q.threads;
  }

  lemma StartsOne() returns (steps: seq<Step>)
    ensures MayRun(Fresh(1, 1), steps) && Run(Fresh(1, 1), steps) == OneWorker()
  {
    hide MayRun, Run;
    var p := Fresh(1, 1);
    var q := p.(status := Started, threads := map[0 := Creating(1, JustStart)]);
    var r := q.(cur := 1, idle := 1, threads := q.threads[10 := Looping][0 := Creating(0, JustStart)]);
    Opens(p, q);
    CreatesOne(q, 0, 10, 0, JustStart);
    OneStep(r, Created(0));
    assert r.threads[0 := Done] == OneWorker().threads;
    hide Enabled, Next;
    RunAppend(q, [Create(0, 10), AddFirst(0), AddSecond(0)], [Created(0)]);
    RunAppend(p, [Start(0, 0), Open(0)], [Create(0, 10), AddFirst(0), AddSecond(0)] + [Created(0)]);
    steps := [Start(0, 0), Open(0)] + ([Create(0, 10), AddFirst(0), AddSecond(0)] + [Created(0)]);
  }

  lemma PauseAndStop(p: Pool)
    requires p.status == Started && p.stopping.NotStopping? && NoCallers(p) && 5 !in p.threads
    ensures var steps := [Pause(5), BeginStop];
            MayRun(p, steps) && Run(p, steps) == p.(stopping := StopCalled, threads := p.threads[5 := Pausing])
  {
    hide MayRun, Run;
    var q := p.(threads := p.threads[5 := Pausing]);
    assert Enabled(p, Pause(5)) && Next(p, Pause(5)) == q && NoCallers(q);
    assert Enabled(q, BeginStop) && Next(q, BeginStop) == q.(stopping := StopCalled);
    hide Enabled, Next;
    TwoSteps(p, Pause(5), BeginStop);
  }

  lemma StopAndQuit(p: Pool)
    requires p.stopping.StopCalled? && Is(p, 10, Looping)
    ensures var steps := [StoreStop, Quit(10)];
            MayRun(p, steps) && Run(p, steps) == p.(status := Stopped, stopping := Joining, threads := p.threads[10 := Gone])
  {
    hide MayRun, Run;
    TwoSteps(p, StoreStop, Quit(10));
  }

  lemma PausesAndResets(p: Pool)
    requires p.stopping.Joining? && Is(p, 5, Pausing) && NoWorkers(p)
    ensures var steps := [StorePause(5), ResetCur, ResetIdle];
            MayRun(p, steps) && Run(p, steps) == p.(status := Paused, cur := 0, idle := 0, stopping := NotStopping, threads := p.threads[5 := Done])
  {
    hide MayRun, Run;
    var q := p.(status := Paused, threads := p.threads[5 := Done]);
    assert Next(p, StorePause(5)) == q && NoWorkers(q);
    ThreeSteps(p, StorePause(5), ResetCur, ResetIdle);
  }

  /** `stop` comes while thread 5 is in `pause`, between its test of the status and its store. */
  lemma StopsDuringPause(p: Pool) returns (steps: seq<Step>)
    requires p == OneWorker()
    ensures MayRun(p, steps)
    ensures Run(p, steps) == p.(status := Paused, cur := 0, idle := 0, threads := p.threads[5 := Pausing][10 := Gone][5 := Done])
  {
    hide MayRun, Run, Enabled, Next;
    var p1 := p.(stopping := StopCalled, threads := p.threads[5 := Pausing]);
    var p2 := p1.(status := Stopped, stopping := Joining, threads := p1.threads[10 := Gone]);
    PauseAndStop(p);
    StopAndQuit(p1);
    PausesAndResets(p2);
    RunAppend(p1, [StoreStop, Quit(10)], [StorePause(5), ResetCur, ResetIdle]);
    RunAppend(p, [Pause(5), BeginStop], [StoreStop, Quit(10)] + [StorePause(5), ResetCur, ResetIdle]);
    steps := [Pause(5), BeginStop] + ([StoreStop, Quit(10)] + [StorePause(5), ResetCur, ResetIdle]);
  }

  /** A `pause` that overlaps `stop` leaves the pool paused with no thread, below its minimum. */
  lemma PauseMayRevive() returns (steps: seq<Step>)
    ensures MayRun(Fresh(1, 1), steps) && !NoneRevives(Fresh(1, 1), steps)
    ensures var p := Run(Fresh(1, 1), steps);
            p.status == Paused && p.stopping.NotStopping? && NoCallers(p) && p.cur == 0
  {
    var start := StartsOne();
    var stop := StopsDuringPause(OneWorker());
    hide MayRun, Run, NoneRevives;
    RunAppend(Fresh(1, 1), start, stop);
    steps := start + stop;
    if NoneRevives(Fresh(1, 1), steps) {
      StartedHasMin(1, 1, steps);
    }
  }
}
