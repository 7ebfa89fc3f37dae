/**
 * The reference counting of MemoryPoolAllocator (include/rapidjson/allocators.h): allocators are
 * handles on shared data, which lives exactly as long as some handle on it does.
 */
module PoolSharing {
  import opened Text

  /** What each live handle is on, None once it has been moved from, and the counts of live shared data. */
  datatype Sharing = Sharing(handles: map<nat, Option<nat>>, counts: map<nat, nat>)

  datatype Action =
    | Construct(h: nat, data: nat)
    | CopyConstruct(h: nat, rhs: nat)
    | MoveConstruct(h: nat, rhs: nat)
    | CopyAssign(h: nat, rhs: nat)
    | MoveAssign(h: nat, rhs: nat)
    | Destroy(h: nat)

  /** What the language and the assertions on the count of `rhs` demand. */
  predicate Allowed(s: Sharing, a: Action) {
    match a
    case Construct(h, data) => h !in s.handles && data !in s.counts
    case CopyConstruct(h, rhs) => h !in s.handles && IsOn(s, rhs)
    case MoveConstruct(h, rhs) => h !in s.handles && IsOn(s, rhs)
    case CopyAssign(h, rhs) => h in s.handles && IsOn(s, rhs)
    case MoveAssign(h, rhs) => h in s.handles && IsOn(s, rhs)
    case Destroy(h) => h in s.handles
  }

  predicate IsOn(s: Sharing, h: nat) {
    h in s.handles && s.handles[h].Some? && s.handles[h].value in s.counts
  }

  /** `++refcount`. */
  function Retain(s: Sharing, data: nat): Sharing
    requires data in s.counts
  {
    s.(counts := s.counts[data := s.counts[data] + 1])
  }

  /** The destructor's effect on the shared data: the last handle clears and frees it. */
  function Release(s: Sharing, held: Option<nat>): Sharing
    requires held.Some? ==> held.value in s.counts
  {
    if held.None? then s
    else if s.counts[held.value] > 1 then s.(counts := s.counts[held.value := s.counts[held.value] - 1])
    else s.(counts := s.counts - {held.value})
  }

  function Point(s: Sharing, h: nat, held: Option<nat>): Sharing {
    s.(handles := s.handles[h := held])
  }

  function Step(s: Sharing, a: Action): Sharing
    requires Consistent(s) && Allowed(s, a)
  {
    match a
    case Construct(h, data) => Sharing(s.handles[h := Some(data)], s.counts[data := 1])
    case CopyConstruct(h, rhs) => Point(Retain(s, s.handles[rhs].value), h, s.handles[rhs])
    case MoveConstruct(h, rhs) => Point(Point(s, h, s.handles[rhs]), rhs, None)
    case CopyAssign(h, rhs) =>
      Holds(s, h);
      Point(Release(Retain(s, s.handles[rhs].value), s.handles[h]), h, s.handles[rhs])
    case MoveAssign(h, rhs) =>
      Holds(s, h);
      Point(Point(Release(s, s.handles[h]), h, s.handles[rhs]), rhs, None)
    case Destroy(h) =>
      Holds(s, h);
      var r := Release(s, s.handles[h]);
      r.(handles := r.handles - {h})
  }

  /** The handles on some shared data. */
  function Holders(handles: map<nat, Option<nat>>, data: nat): set<nat> {
    set h | h in handles && handles[h] == Some(data)
  }

  /** Shared data is live exactly while it has a handle, and its count is the number of its handles. */
  ghost predicate Consistent(s: Sharing) {
    forall data: nat :: IsCounted(s, data)
  }

  predicate IsCounted(s: Sharing, data: nat) {
    if data in s.counts then s.counts[data] == |Holders(s.handles, data)| > 0 else Holders(s.handles, data) == {}
  }

  lemma Holds(s: Sharing, h: nat)
    requires Consistent(s) && h in s.handles
    ensures s.handles[h].Some? ==> s.handles[h].value in s.counts
  {
    if s.handles[h].Some? {
      assert IsCounted(s, s.handles[h].value);
      assert h in Holders(s.handles, s.handles[h].value);
    }
  }

  lemma PointHolders(handles: map<nat, Option<nat>>, h: nat, held: Option<nat>, data: nat)
    ensures var before, after := Holders(handles, data), Holders(handles[h := held], data);
            && (held == Some(data) ==> after == before + {h} && |after| == |before| + if h in before then 0 else 1)
            && (held != Some(data) ==> after == before - {h} && |after| == |before| - if h in before then 1 else 0)
  {
    var before, after := Holders(handles, data), Holders(handles[h := held], data);
    assert after == if held == Some(data) then before + {h} else before - {h};
  }

  lemma DropHolders(handles: map<nat, Option<nat>>, h: nat, data: nat)
    ensures var before, after := Holders(handles, data), Holders(handles - {h}, data);
            after == before - {h} && |after| == |before| - if h in before then 1 else 0
  {
    assert Holders(handles - {h}, data) == Holders(handles, data) - {h};
  }

  lemma CopyAssignKeeps(s: Sharing, h: nat, rhs: nat, data: nat)
    requires Consistent(s) && Allowed(s, CopyAssign(h, rhs))
    ensures IsCounted(Step(s, CopyAssign(h, rhs)), data)
  {
    assert IsCounted(s, data);
    Holds(s, h);
    PointHolders(s.handles, h, s.handles[rhs], data);
    assert rhs in Holders(s.handles, data) <==> s.handles[rhs] == Some(data);
  }

  /** Moving onto a handle takes away just what that handle was on. */
  lemma MoveHolders(handles: map<nat, Option<nat>>, h: nat, rhs: nat, data: nat)
    requires h in handles && rhs in handles && handles[rhs].Some?
    ensures |Holders(handles[h := handles[rhs]][rhs := None], data)|
         == |Holders(handles, data)| - if handles[h] == Some(data) then 1 else 0
  {
    var middle := handles[h := handles[rhs]];
    PointHolders(handles, h, handles[rhs], data);
    PointHolders(middle, rhs, None, data);
    assert h in Holders(handles, data) <==> handles[h] == Some(data);
    assert rhs in Holders(middle, data) <==> handles[rhs] == Some(data);
  }

  lemma MoveAssignKeeps(s: Sharing, h: nat, rhs: nat, data: nat)
    requires Consistent(s) && Allowed(s, MoveAssign(h, rhs))
    ensures IsCounted(Step(s, MoveAssign(h, rhs)), data)
  {
    assert IsCounted(s, data);
    Holds(s, h);
    MoveHolders(s.handles, h, rhs, data);
  }

  lemma DestroyKeeps(s: Sharing, h: nat, data: nat)
    requires Consistent(s) && Allowed(s, Destroy(h))
    ensures IsCounted(Step(s, Destroy(h)), data)
  {
    assert IsCounted(s, data);
    Holds(s, h);
    DropHolders(s.handles, h, data);
  }

  /** Constructors: a handle on new data, one more on the data of `rhs`, or one in place of `rhs`. */
  lemma ConstructKeeps(s: Sharing, a: Action, data: nat)
    requires Consistent(s) && Allowed(s, a) && (a.Construct? || a.CopyConstruct? || a.MoveConstruct?)
    ensures IsCounted(Step(s, a), data)
  {
    assert IsCounted(s, data);
    match a
    case Construct(h, d) => PointHolders(s.handles, h, Some(d), data);
    case CopyConstruct(h, rhs) => PointHolders(s.handles, h, s.handles[rhs], data);
    case MoveConstruct(h, rhs) =>
      PointHolders(s.handles, h, s.handles[rhs], data);
      PointHolders(s.handles[h := s.handles[rhs]], rhs, None, data);
  }

  /** Every step keeps the counts: data is freed by the step that takes its last handle, and by no other. */
  lemma StepKeeps(s: Sharing, a: Action)
    requires Consistent(s) && Allowed(s, a)
    ensures Consistent(Step(s, a))
  {
    forall data: nat ensures IsCounted(Step(s, a), data) {
      match a
      case CopyAssign(h, rhs) => CopyAssignKeeps(s, h, rhs, data);
      case MoveAssign(h, rhs) => MoveAssignKeeps(s, h, rhs, data);
      case Destroy(h) => DestroyKeeps(s, h, data);
      case _ => ConstructKeeps(s, a, data);
    }
  }

  predicate MayRun(s: Sharing, actions: seq<Action>)
    requires Consistent(s)
    decreases |actions|
  {
    actions == []
    || (Allowed(s, actions[0])
        && (StepKeeps(s, actions[0]);
            MayRun(Step(s, actions[0]), actions[1..])))
  }

  function Run(s: Sharing, actions: seq<Action>): Sharing
    requires Consistent(s) && MayRun(s, actions)
    decreases |actions|
  {
    if actions == [] then s
    else
      StepKeeps(s, actions[0]);
      Run(Step(s, actions[0]), actions[1..])
  }

  /** In every run from nothing, shared data is live exactly while a handle is on it. */
  lemma {:induction false} LiveIffHeld(s: Sharing, actions: seq<Action>, data: nat)
    requires Consistent(s) && MayRun(s, actions)
    ensures var t := Run(s, actions);
            data in t.counts <==> exists h :: h in t.handles && t.handles[h] == Some(data)
    decreases |actions|
  {
    if actions == [] {
      assert IsCounted(s, data);
      assert forall h :: h in Holders(s.handles, data) <==> h in s.handles && s.handles[h] == Some(data);
      if data in s.counts {
        var h :| h in Holders(s.handles, data);
      }
    } else {
      StepKeeps(s, actions[0]);
      LiveIffHeld(Step(s, actions[0]), actions[1..], data);
    }
  }

  // ---------------------------------------------------------------------------------------------
  // What a handle is on
  // ---------------------------------------------------------------------------------------------

  /**
   * What a handle is on after some actions, found by going back to the last of them that put it there: a copy or a move
   * is on what its source was on before, and a source that was moved from is on nothing. None when there is no such handle.
   */
  function Origin(s: Sharing, actions: seq<Action>, h: nat): Option<Option<nat>>
    decreases |actions|
  {
    if actions == [] then if h in s.handles then Some(s.handles[h]) else None
    else
      var before := actions[..|actions| - 1];
      match actions[|actions| - 1]
      case Construct(k, data) => if h == k then Some(Some(data)) else Origin(s, before, h)
      case CopyConstruct(k, rhs) => Origin(s, before, if h == k then rhs else h)
      case CopyAssign(k, rhs) => Origin(s, before, if h == k then rhs else h)
      case MoveConstruct(k, rhs) => if h == rhs then Some(None) else Origin(s, before, if h == k then rhs else h)
      case MoveAssign(k, rhs) => if h == rhs then Some(None) else Origin(s, before, if h == k then rhs else h)
      case Destroy(k) => if h == k then None else Origin(s, before, h)
  }

  lemma {:induction false} LastStep(s: Sharing, actions: seq<Action>)
    requires Consistent(s) && MayRun(s, actions) && actions != []
    ensures var n := |actions| - 1;
            && MayRun(s, actions[..n]) && Consistent(Run(s, actions[..n])) && Allowed(Run(s, actions[..n]), actions[n])
            && Run(s, actions) == Step(Run(s, actions[..n]), actions[n])
    decreases |actions|
  {
    var n := |actions| - 1;
    StepKeeps(s, actions[0]);
    if n > 0 {
      var next, more := Step(s, actions[0]), actions[1..];
      LastStep(next, more);
      assert actions[..n][1..] == more[..n - 1] && more[n - 1] == actions[n];
    } else {
      assert actions[1..] == [];
    }
  }

  /** In every run, each handle is on what the last action that touched it put it on, and on nothing else. */
  lemma {:induction false} HandleIsOnOrigin(s: Sharing, actions: seq<Action>, h: nat)
    requires Consistent(s) && MayRun(s, actions)
    ensures var t := Run(s, actions);
            Origin(s, actions, h) == if h in t.handles then Some(t.handles[h]) else None
    decreases |actions|
  {
    if actions != [] {
      var n := |actions| - 1;
      LastStep(s, actions);
      HandleIsOnOrigin(s, actions[..n], h);
      var a := actions[n];
      if a.CopyConstruct? || a.CopyAssign? || a.MoveConstruct? || a.MoveAssign? {
        HandleIsOnOrigin(s, actions[..n], a.rhs);
      }
    }
  }
}
