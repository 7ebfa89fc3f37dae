/** When `commit` of include/hv/hthreadpool.h creates a thread, and that the task it is given is queued. */
module ThreadCommit {
  import opened Text
  import opened ThreadPool
  import opened ThreadMinimum

  /** No more threads are idle than tasks are queued, and there is room for one more. */
  predicate Creates(p: Pool) {
    AsSize(p.idle) <= |p.tasks| && p.cur < p.max
  }

  /** The pool `p` with so many more threads counted, counted idle and working. */
  predicate HasMore(p: Pool, q: Pool, cur: int, idle: int, workers: int) {
    && q.status == p.status && q.stopping.NotStopping? && q.max == p.max
    && q.cur == p.cur + cur && q.idle == p.idle + idle && |Workers(q)| == |Workers(p)| + workers
  }

  predicate StillQueued(p: Pool, q: Pool) {
    q.tasks == p.tasks && q.committed == p.committed
  }

  /** How far a commit by `t` to `p` has come that nobody overlaps. */
  predicate IsCommitting(p: Pool, q: Pool, t: nat) {
    && t in q.threads
    && var n := One(Creates(p));
       match q.threads[t]
       case Deciding => StillQueued(p, q) && HasMore(p, q, 0, 0, 0)
       case SawFree(free) => StillQueued(p, q) && HasMore(p, q, 0, 0, 0) && free == p.idle
       case SawQueued(queued) => StillQueued(p, q) && HasMore(p, q, 0, 0, 0) && queued == |p.tasks|
       case FewIdle => StillQueued(p, q) && HasMore(p, q, 0, 0, 0) && AsSize(p.idle) <= |p.tasks|
       case Creating(count, goal) => StillQueued(p, q) && goal.ToQueue? && n == 1 && count <= 1 && HasMore(p, q, 1 - count, 1 - count, 1 - count)
       case Spawned(count, goal) => StillQueued(p, q) && goal.ToQueue? && n == 1 && count == 0 && HasMore(p, q, 0, 0, 1)
       case Adding(count, goal) => StillQueued(p, q) && goal.ToQueue? && n == 1 && count == 0 && HasMore(p, q, 1, 0, 1)
       case Queueing => StillQueued(p, q) && HasMore(p, q, n, n, n)
       case Done => q.tasks == p.tasks + [p.committed] && q.committed == p.committed + 1 && HasMore(p, q, n, n, n)
       case _ => false
  }

  /** The steps of a commit to a pool that runs. */
  predicate IsCommitStep(s: Step) {
    s.DecideIdle? || s.DecideQueue? || s.DecideCur? || s.Create? || s.AddFirst? || s.AddSecond? || s.Created? || s.Enqueue?
  }

  lemma WorkersAfter(p: Pool, s: Step)
    requires Enabled(p, s) && IsCommitStep(s)
    ensures |Workers(Next(p, s))| == |Workers(p)| + One(s.Create? && p.cur < p.max)
  {
    if s.Create? && p.cur < p.max {
      assert Workers(Next(p, s)) == Workers(p) + {s.worker};
    } else {
      assert Workers(Next(p, s)) == Workers(p);
    }
  }

  lemma CommittingKept(p: Pool, q: Pool, t: nat, s: Step)
    requires IsCommitting(p, q, t) && Enabled(q, s) && IsByThread(s) && s.t == t
    ensures IsCommitting(p, Next(q, s), t)
  {
    assert IsCommitStep(s);
    WorkersAfter(q, s);
    hide Workers;
  }

  lemma {:induction false} CommitGoesOn(p: Pool, q: Pool, t: nat, steps: seq<Step>)
    requires IsCommitting(p, q, t) && MayRun(q, steps) && AllBy(t, steps)
    ensures IsCommitting(p, Run(q, steps), t)
    decreases |steps|
  {
    if steps != [] {
      hide Enabled, Next, IsCommitting;
      assert IsByThread(steps[0]) && steps[0].t == t;
      CommittingKept(p, q, t, steps[0]);
      CommitGoesOn(p, Next(q, steps[0]), t, steps[1..]);
    }
  }

  lemma CommitBegins(p: Pool, t: nat)
    requires p.status != Stopped && p.stopping.NotStopping? && t !in p.threads
    ensures IsCommitting(p, Next(p, Commit(t)), t)
  {
    assert Workers(Next(p, Commit(t))) == Workers(p);
  }

  /**
   * A commit that nobody overlaps, to a pool that runs or pauses, queues its task behind the others, and creates a thread
   * exactly when no more threads are idle than tasks were queued and the maximum is not reached.
   */
  lemma CommitAlone(p: Pool, t: nat, steps: seq<Step>)
    requires p.status != Stopped && p.stopping.NotStopping? && t !in p.threads
    requires MayRun(p, [Commit(t)] + steps) && AllBy(t, steps) && Is(Run(p, [Commit(t)] + steps), t, Done)
    ensures var q := Run(p, [Commit(t)] + steps);
            && q.tasks == p.tasks + [p.committed]
            && (if AsSize(p.idle) <= |p.tasks| && p.cur < p.max
                then q.cur == p.cur + 1 && q.idle == p.idle + 1 && |Workers(q)| == |Workers(p)| + 1
                else q.cur == p.cur && q.idle == p.idle && |Workers(q)| == |Workers(p)|)
  {
    var all := [Commit(t)] + steps;
    assert all[0] == Commit(t) && all[1..] == steps;
    CommitBegins(p, t);
    CommitGoesOn(p, Next(p, Commit(t)), t, steps);
    hide Workers;
  }
}
