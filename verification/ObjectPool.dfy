/**
 * HObjectPool of include/hv/hobjectpool.h. Each stretch of code under the mutex is one step; between
 * the two of a `Borrow` that creates an object the mutex is released, so other calls may come in.
 */
module ObjectPool {
  import opened Text

  type Object = nat

  /** `_object_num`, `_max_num` and `objects_`; who has borrowed what and who is creating is not stored. */
  datatype Pool = Pool(num: int, max: int, idle: seq<Object>)

  // ---------------------------------------------------------------------------------------------
  // The steps
  // ---------------------------------------------------------------------------------------------

  /** `TryBorrow`, and what a waiter does when it has been notified. */
  function Take(p: Pool): (Pool, Option<Object>) {
    if p.idle == [] then (p, None) else (p.(idle := p.idle[1..]), Some(p.idle[0]))
  }

  /** `Borrow` once nothing could be taken: whether an object will be created. */
  function BeginCreate(p: Pool): (Pool, bool) {
    if p.num < p.max then (p.(num := p.num + 1), true) else (p, false)
  }

  /** The rest of that `Borrow`, when the factory has answered. */
  function EndCreate(p: Pool, created: bool): Pool {
    if created then p else p.(num := p.num - 1)
  }

  function GiveBack(p: Pool, o: Object): Pool {
    p.(idle := p.idle + [o])
  }

  function Add(p: Pool, o: Object): (Pool, bool) {
    if p.num >= p.max then (p, false) else (p.(idle := p.idle + [o], num := p.num + 1), true)
  }

  /** Where an object is in the list, or the list's end. */
  function Position(idle: seq<Object>, o: Object): (k: nat)
    ensures k <= |idle| && (k < |idle| ==> idle[k] == o)
    ensures k == |idle| <==> o !in idle
  {
    if idle == [] || idle[0] == o then 0 else Position(idle[1..], o) + 1
  }

  lemma {:induction false} FirstPosition(idle: seq<Object>, k: nat, o: Object)
    requires k < |idle| && idle[k] == o && o !in idle[..k]
    ensures Position(idle, o) == k
  {
    if k > 0 {
      assert idle[0] in idle[..k] && idle[1..][..k - 1] == idle[..k][1..];
      FirstPosition(idle[1..], k - 1, o);
    }
  }

  function Remove(p: Pool, o: Object): (Pool, bool) {
    var k := Position(p.idle, o);
    if k == |p.idle| then (p, false) else (p.(idle := p.idle[..k] + p.idle[k + 1..], num := p.num - 1), true)
  }

  // ---------------------------------------------------------------------------------------------
  // Runs
  // ---------------------------------------------------------------------------------------------

  datatype Step =
    | TakeStep
    | BeginStep
    | EndStep(created: Option<Object>)
    | ReturnStep(o: Object)
    | AddStep(o: Object)
    | RemoveStep(o: Object)

  /** The pool, the objects borrowed, and how many are being created. */
  datatype World = World(pool: Pool, borrowed: set<Object>, creating: nat)

  /** Objects are returned by their borrower only, and a new object is one the pool has not got. */
  predicate Allowed(w: World, s: Step) {
    match s
    case TakeStep => true
    case BeginStep => true
    case EndStep(created) => w.creating > 0 && (created.Some? ==> IsNew(w, created.value))
    case ReturnStep(o) => o in w.borrowed
    case AddStep(o) => IsNew(w, o)
    case RemoveStep(_) => true
  }

  predicate IsNew(w: World, o: Object) {
    o !in w.borrowed && o !in w.pool.idle
  }

  function Next(w: World, s: Step): World
    requires Allowed(w, s)
  {
    match s
    case TakeStep =>
      var (p, o) := Take(w.pool);
      World(p, if o.Some? then w.borrowed + {o.value} else w.borrowed, w.creating)
    case BeginStep =>
      var (p, create) := BeginCreate(w.pool);
      World(p, w.borrowed, if create then w.creating + 1 else w.creating)
    case EndStep(created) =>
      World(EndCreate(w.pool, created.Some?), if created.Some? then w.borrowed + {created.value} else w.borrowed, w.creating - 1)
    case ReturnStep(o) => World(GiveBack(w.pool, o), w.borrowed - {o}, w.creating)
    case AddStep(o) => w.(pool := Add(w.pool, o).0)
    case RemoveStep(o) => w.(pool := Remove(w.pool, o).0)
  }

  predicate AreDistinct(idle: seq<Object>) {
    forall i, j :: 0 <= i < j < |idle| ==> idle[i] != idle[j]
  }

  /**
   * The count is the idle, the borrowed and those being created, and no object is idle twice or idle and
   * borrowed. `limit` is the larger of the maximum and the initial number.
   */
  predicate IsConsistent(w: World, limit: int) {
    && w.pool.num == |w.pool.idle| + |w.borrowed| + w.creating
    && w.pool.num <= limit && w.pool.max <= limit
    && AreDistinct(w.pool.idle)
    && forall o :: o in w.pool.idle ==> o !in w.borrowed
  }

  lemma RemoveAt(idle: seq<Object>, k: nat)
    requires AreDistinct(idle) && k < |idle|
    ensures var rest := idle[..k] + idle[k + 1..];
            AreDistinct(rest) && forall o :: o in rest ==> o in idle
  {
    var rest := idle[..k] + idle[k + 1..];
    assert forall i :: 0 <= i < |rest| ==> rest[i] == idle[if i < k then i else i + 1];
  }

  lemma TakeKeeps(w: World, limit: int)
    requires IsConsistent(w, limit)
    ensures IsConsistent(Next(w, TakeStep), limit)
  {
    if w.pool.idle != [] {
      assert w.pool.idle[0] in w.pool.idle;
      assert forall o :: o in w.pool.idle[1..] ==> o in w.pool.idle && o != w.pool.idle[0];
    }
  }

  lemma ReturnKeeps(w: World, o: Object, limit: int)
    requires IsConsistent(w, limit) && o in w.borrowed
    ensures IsConsistent(Next(w, ReturnStep(o)), limit)
  {
    assert o !in w.pool.idle;
  }

  lemma RemoveKeeps(w: World, o: Object, limit: int)
    requires IsConsistent(w, limit)
    ensures IsConsistent(Next(w, RemoveStep(o)), limit)
  {
    var k := Position(w.pool.idle, o);
    if k < |w.pool.idle| {
      RemoveAt(w.pool.idle, k);
    }
  }

  lemma EndKeeps(w: World, created: Option<Object>, limit: int)
    requires IsConsistent(w, limit) && Allowed(w, EndStep(created))
    ensures IsConsistent(Next(w, EndStep(created)), limit)
  {
  }

  lemma NextKeeps(w: World, s: Step, limit: int)
    requires IsConsistent(w, limit) && Allowed(w, s)
    ensures IsConsistent(Next(w, s), limit)
  {
    match s
    case TakeStep => TakeKeeps(w, limit);
    case BeginStep =>
    case EndStep(created) => EndKeeps(w, created, limit);
    case ReturnStep(o) => ReturnKeeps(w, o, limit);
    case AddStep(o) => AddKeeps(w, o, limit);
    case RemoveStep(o) => RemoveKeeps(w, o, limit);
  }

  lemma AddKeeps(w: World, o: Object, limit: int)
    requires IsConsistent(w, limit) && IsNew(w, o)
    ensures IsConsistent(Next(w, AddStep(o)), limit)
  {
  }

  predicate MayRun(w: World, steps: seq<Step>)
    decreases |steps|
  {
    steps == [] || (Allowed(w, steps[0]) && MayRun(Next(w, steps[0]), steps[1..]))
  }

  function Run(w: World, steps: seq<Step>): World
    requires MayRun(w, steps)
    decreases |steps|
  {
    if steps == [] then w else Run(Next(w, steps[0]), steps[1..])
  }

  lemma {:induction false} RunKeeps(w: World, steps: seq<Step>, limit: int)
    requires IsConsistent(w, limit) && MayRun(w, steps)
    ensures IsConsistent(Run(w, steps), limit)
    decreases |steps|
  {
    if steps != [] {
      NextKeeps(w, steps[0], limit);
      RunKeeps(Next(w, steps[0]), steps[1..], limit);
    }
  }

  /**
   * From the constructor on, in every interleaving: the object count is idle plus borrowed plus being
   * created and exceeds neither the maximum nor, if that was larger, the initial number; and no object is
   * borrowed while it is idle.
   */
  lemma EveryRun(initial: seq<Object>, max: int, steps: seq<Step>)
    requires AreDistinct(initial)
    requires MayRun(World(Pool(|initial|, max, initial), {}, 0), steps)
    ensures var w := Run(World(Pool(|initial|, max, initial), {}, 0), steps);
            && w.pool.num == |w.pool.idle| + |w.borrowed| + w.creating
            && w.pool.num <= (if max > |initial| then max else |initial|)
            && AreDistinct(w.pool.idle) && forall o :: o in w.pool.idle ==> o !in w.borrowed
  {
    RunKeeps(World(Pool(|initial|, max, initial), {}, 0), steps, if max > |initial| then max else |initial|);
  }

  /** The objects that borrowers take from the idle ones during a run, in order. */
  function TakenIn(w: World, steps: seq<Step>): seq<Object>
    requires MayRun(w, steps)
    decreases |steps|
  {
    if steps == [] then []
    else
      var o := if steps[0].TakeStep? then Take(w.pool).1 else None;
      (if o.Some? then [o.value] else []) + TakenIn(Next(w, steps[0]), steps[1..])
  }

  /** The objects that become idle during a run, in order: those given back, and those added below the maximum. */
  function ArrivedIn(w: World, steps: seq<Step>): seq<Object>
    requires MayRun(w, steps)
    decreases |steps|
  {
    if steps == [] then []
    else
      var here := match steps[0]
                  case ReturnStep(o) => [o]
                  case AddStep(o) => if w.pool.num < w.pool.max then [o] else []
                  case _ => [];
      here + ArrivedIn(Next(w, steps[0]), steps[1..])
  }

  predicate RemovesNone(steps: seq<Step>) {
    forall k :: 0 <= k < |steps| ==> !steps[k].RemoveStep?
  }

  /**
   * The idle objects wait in line: in a run that removes none, whatever else is interleaved, they are taken in the
   * order in which they became idle, so that a borrower always gets the one that has been idle longest.
   */
  lemma {:induction false} LongestIdleIsTaken(w: World, steps: seq<Step>)
    requires MayRun(w, steps) && RemovesNone(steps)
    ensures w.pool.idle + ArrivedIn(w, steps) == TakenIn(w, steps) + Run(w, steps).pool.idle
    decreases |steps|
  {
    if steps == [] {
      assert w.pool.idle + [] == [] + w.pool.idle;
    } else {
      var s, next, more := steps[0], Next(w, steps[0]), steps[1..];
      assert RemovesNone(more) by {
        assert forall k :: 0 <= k < |more| ==> more[k] == steps[k + 1];
      }
      LongestIdleIsTaken(next, more);
      var end := Run(next, more).pool.idle;
      if s.TakeStep? && w.pool.idle != [] {
        var o := w.pool.idle[0];
        assert w.pool.idle == [o] + next.pool.idle;
        Regroup3([o], next.pool.idle, ArrivedIn(next, more));
        Regroup3([o], TakenIn(next, more), end);
      } else {
        assert [] + TakenIn(next, more) == TakenIn(next, more);
        var here := ArrivedIn(w, steps)[..|ArrivedIn(w, steps)| - |ArrivedIn(next, more)|];
        assert ArrivedIn(w, steps) == here + ArrivedIn(next, more);
        assert next.pool.idle == w.pool.idle + here;
        Regroup3(w.pool.idle, here, ArrivedIn(next, more));
      }
    }
  }

  /** A borrower who finds nothing idle creates an object exactly when fewer exist, or are being created, than the maximum. */
  lemma CreatesIff(w: World, limit: int)
    requires IsConsistent(w, limit) && w.pool.idle == []
    ensures Next(w, BeginStep).creating == w.creating + 1 <==> |w.borrowed| + w.creating < w.pool.max
    ensures Next(w, BeginStep).creating != w.creating + 1 ==> Next(w, BeginStep) == w
  {
  }

  // ---------------------------------------------------------------------------------------------
  // The pool
  // ---------------------------------------------------------------------------------------------

  class HObjectPool {
    var objectNum: int
    const maxNum: int
    var objects: seq<Object>

    /** What the factory created, which may be fewer objects than asked for. */
    constructor (created: seq<Option<Object>>, maxNum: int)
      ensures Now() == Pool(|Made(created)|, maxNum, Made(created))
    {
      this.maxNum := maxNum;
      objects := [];
      new;
      for i := 0 to |created|
        invariant objects == Made(created[..i])
      {
        assert created[..i + 1][..i] == created[..i];
        if created[i].Some? {
          objects := objects + [created[i].value];
        }
      }
      assert created[..|created|] == created;
      objectNum := |objects|;
    }

    function Now(): Pool
      reads this
    {
      Pool(objectNum, maxNum, objects)
    }

    method TryBorrow() returns (o: Option<Object>)
      modifies `objects
      ensures (Now(), o) == Take(old(Now()))
    {
      o := None;
      if |objects| > 0 {
        o := Some(objects[0]);
        objects := objects[1..];
      }
    }

    method BorrowBegin() returns (create: bool)
      modifies `objectNum
      ensures (Now(), create) == BeginCreate(old(Now()))
    {
      create := objectNum < maxNum;
      if create {
        objectNum := objectNum + 1;
      }
    }

    method BorrowEnd(created: Option<Object>) returns (o: Option<Object>)
      modifies `objectNum
      ensures Now() == EndCreate(old(Now()), created.Some?) && o == created
    {
      if created.None? {
        objectNum := objectNum - 1;
      }
      o := created;
    }

    method Return(o: Option<Object>)
      modifies `objects
      ensures Now() == if o.None? then old(Now()) else GiveBack(old(Now()), o.value)
    {
      if o.Some? {
        objects := objects + [o.value];
      }
    }

    method AddObject(o: Object) returns (ok: bool)
      modifies this
      ensures (Now(), ok) == Add(old(Now()), o)
    {
      if objectNum >= maxNum {
        return false;
      }
      objects := objects + [o];
      objectNum := objectNum + 1;
      return true;
    }

    method RemoveObject(o: Object) returns (ok: bool)
      modifies this
      ensures (Now(), ok) == Remove(old(Now()), o)
    {
      var k := 0;
      while k < |objects|
        invariant 0 <= k <= |objects| && o !in objects[..k]
      {
        if objects[k] == o {
          FirstPosition(objects, k, o);
          objects := objects[..k] + objects[k + 1..];
          objectNum := objectNum - 1;
          return true;
        }
        k := k + 1;
      }
      assert objects[..k] == objects;
      return false;
    }
  }

  /** The objects the factory really made. */
  function Made(created: seq<Option<Object>>): seq<Object> {
    if created == [] then []
    else
      var n := |created| - 1;
      Made(created[..n]) + if created[n].Some? then [created[n].value] else []
  }
}
