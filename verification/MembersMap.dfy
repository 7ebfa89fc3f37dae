/**
 * The index kept beside an object's members when RAPIDJSON_USE_MEMBERSMAP is set
 * (include/rapidjson/document.h): a multimap from names to positions, and for every position the
 * iterator of its entry. Entries are known by an identity, as iterators are: it survives changes to
 * other entries.
 */
module MembersMap {
  import opened Text
  import opened Values

  datatype Entry = Entry(key: Str, index: nat)

  type Id = nat

  /** The members in order, the iterator of each position, and the multimap's entries. */
  datatype Indexed = Indexed(members: seq<Member>, slots: seq<Id>, entries: map<Id, Entry>)

  /** Iterator slot `i` is on the entry of member `i`, and every entry is some slot's. */
  predicate IsIndexed(o: Indexed) {
    && |o.slots| == |o.members|
    && (forall i :: 0 <= i < |o.slots| ==> o.slots[i] in o.entries && o.entries[o.slots[i]] == Entry(o.members[i].name, i))
    && forall id :: id in o.entries ==> o.entries[id].index < |o.slots| && o.slots[o.entries[id].index] == id
  }

  /** The multimap holds the pairs of the members' names and positions: each once, and no others. */
  lemma EntriesAreMembers(o: Indexed, e: Entry)
    requires IsIndexed(o)
    ensures (exists id :: id in o.entries && o.entries[id] == e) <==> e.index < |o.members| && o.members[e.index].name == e.key
    ensures forall a, b :: a in o.entries && b in o.entries && o.entries[a] == o.entries[b] ==> a == b
  {
    if e.index < |o.members| && o.members[e.index].name == e.key {
      assert o.slots[e.index] in o.entries;
    }
  }

  // ---------------------------------------------------------------------------------------------
  // Find
  // ---------------------------------------------------------------------------------------------

  /** What `map->find(name)` may return: some entry of that key, or the end when there is none. */
  ghost predicate Finds(o: Indexed, name: Str, r: Option<Id>) {
    match r
    case Some(id) => id in o.entries && o.entries[id].key == name
    case None => forall id :: id in o.entries ==> o.entries[id].key != name
  }

  /**
   * The indexed search finds a member of that name exactly when the linear search does; when no other
   * member has the name it is the same one.
   */
  lemma IndexedFindIsLinear(o: Indexed, name: Str, r: Option<Id>)
    requires IsIndexed(o) && Finds(o, name, r)
    ensures r.Some? <==> FindMember(o.members, name).Some?
    ensures r.Some? ==> o.entries[r.value].index < |o.members| && o.members[o.entries[r.value].index].name == name
    ensures r.Some? && (forall i, j :: 0 <= i < j < |o.members| ==> o.members[i].name != name || o.members[j].name != name) ==>
              FindMember(o.members, name) == Some(o.entries[r.value].index)
  {
    var linear := FindMember(o.members, name);
    if linear.Some? {
      assert o.slots[linear.value] in o.entries;
    }
  }

  // ---------------------------------------------------------------------------------------------
  // The operations
  // ---------------------------------------------------------------------------------------------

  function KeyOf(entries: map<Id, Entry>, id: Id): Str {
    if id in entries then entries[id].key else []
  }

  /** `DoAddMember`, the new entry getting the identity `id`. */
  function Added(o: Indexed, m: Member, id: Id): Indexed {
    Indexed(o.members + [m], o.slots + [id], o.entries[id := Entry(m.name, |o.members|)])
  }

  /** `DoRemoveMember`: the last member takes the place of member `k`. */
  function Removed(o: Indexed, k: nat): Indexed
    requires |o.slots| == |o.members| && k < |o.members|
  {
    var last := |o.members| - 1;
    var entries := o.entries - {o.slots[k]};
    if last > 0 && k != last then
      var moved := o.slots[last];
      Indexed(o.members[k := o.members[last]][..last], o.slots[k := moved][..last], entries[moved := Entry(KeyOf(o.entries, moved), k)])
    else Indexed(o.members[..last], o.slots[..last], entries)
  }

  /** Every entry of `ids` erased in turn. */
  function Forget(entries: map<Id, Entry>, ids: seq<Id>): map<Id, Entry>
    decreases |ids|
  {
    if ids == [] then entries else Forget(entries - {ids[0]}, ids[1..])
  }

  /** Every entry of `ids` given its new position in turn, from `at` on. */
  function Renumber(entries: map<Id, Entry>, ids: seq<Id>, at: nat): map<Id, Entry>
    decreases |ids|
  {
    if ids == [] then entries else Renumber(entries[ids[0] := Entry(KeyOf(entries, ids[0]), at)], ids[1..], at + 1)
  }

  lemma {:induction false} ForgetIs(entries: map<Id, Entry>, ids: seq<Id>)
    ensures Forget(entries, ids) == map id | id in entries && id !in ids :: entries[id]
    decreases |ids|
  {
    if ids != [] {
      ForgetIs(entries - {ids[0]}, ids[1..]);
      assert forall id :: id in ids <==> id == ids[0] || id in ids[1..];
    }
  }

  predicate AreDistinct(ids: seq<Id>) {
    forall i, j :: 0 <= i < j < |ids| ==> ids[i] != ids[j]
  }

  lemma RenumberStep(entries: map<Id, Entry>, ids: seq<Id>, k: nat, at: nat)
    requires k < |ids|
    ensures Renumber(entries, ids[k..], at) == Renumber(entries[ids[k] := Entry(KeyOf(entries, ids[k]), at)], ids[k + 1..], at + 1)
  {
    assert ids[k..][0] == ids[k] && ids[k..][1..] == ids[k + 1..];
  }

  lemma {:induction false} RenumberIs(entries: map<Id, Entry>, ids: seq<Id>, at: nat)
    requires forall id :: id in ids ==> id in entries
    requires AreDistinct(ids)
    ensures var r := Renumber(entries, ids, at);
            && r.Keys == entries.Keys
            && (forall k :: 0 <= k < |ids| ==> r[ids[k]] == Entry(entries[ids[k]].key, at + k))
            && (forall id :: id in entries && id !in ids ==> r[id] == entries[id])
    decreases |ids|
  {
    if ids != [] {
      var first := entries[ids[0] := Entry(KeyOf(entries, ids[0]), at)];
      assert forall id :: id in ids <==> id == ids[0] || id in ids[1..];
      assert ids[0] !in ids[1..];
      RenumberIs(first, ids[1..], at + 1);
      var r := Renumber(entries, ids, at);
      forall k | 0 <= k < |ids| ensures r[ids[k]] == Entry(entries[ids[k]].key, at + k) {
        if k > 0 {
          assert ids[1..][k - 1] == ids[k];
        }
      }
    }
  }

  /** `DoEraseMembers`: members `first` up to `last` go, the rest keep their order. */
  function Erased(o: Indexed, first: nat, last: nat): Indexed
    requires |o.slots| == |o.members| && first <= last <= |o.members|
  {
    Indexed(o.members[..first] + o.members[last..], o.slots[..first] + o.slots[last..],
            if first == last then o.entries else Renumber(Forget(o.entries, o.slots[first..last]), o.slots[last..], first))
  }

  /** `DoClearMembers`. */
  function Cleared(o: Indexed): Indexed {
    Indexed([], [], Forget(o.entries, o.slots))
  }

  const Empty: Indexed := Indexed([], [], map[])

  /** `DoCopyMembers` into a new map whose entries get the identities `ids`. */
  function CopyOf(members: seq<Member>, ids: seq<Id>): Indexed
    requires |ids| == |members|
    decreases |members|
  {
    if members == [] then Empty
    else
      var n := |members| - 1;
      Added(CopyOf(members[..n], ids[..n]), members[n], ids[n])
  }

  // ---------------------------------------------------------------------------------------------
  // The index is kept
  // ---------------------------------------------------------------------------------------------

  lemma AddKeeps(o: Indexed, m: Member, id: Id)
    requires IsIndexed(o) && id !in o.entries
    ensures IsIndexed(Added(o, m, id))
  {
  }

  lemma RemoveKeeps(o: Indexed, k: nat)
    requires IsIndexed(o) && k < |o.members|
    ensures IsIndexed(Removed(o, k))
  {
  }

  /** Where the members are after one is removed: the last in its place, the others where they were. */
  lemma RemoveKeepsPositions(o: Indexed, k: nat)
    requires |o.slots| == |o.members| && k < |o.members|
    ensures var members, last := Removed(o, k).members, |o.members| - 1;
            && |members| == last
            && forall i :: 0 <= i < last ==> members[i] == o.members[if i == k then last else i]
  {
  }

  /** Where the members are after a stretch of them is erased: those behind it have moved up, in order. */
  lemma EraseKeepsOrder(o: Indexed, first: nat, last: nat)
    requires |o.slots| == |o.members| && first <= last <= |o.members|
    ensures var members, gap := Erased(o, first, last).members, last - first;
            && |members| == |o.members| - gap
            && forall i :: 0 <= i < |members| ==> members[i] == o.members[if i < first then i else i + gap]
  {
  }

  /** A copy has the same members in the same order. */
  lemma {:induction false} CopyHasSame(members: seq<Member>, ids: seq<Id>)
    requires |ids| == |members|
    ensures CopyOf(members, ids).members == members
    decreases |members|
  {
    if members != [] {
      var n := |members| - 1;
      CopyHasSame(members[..n], ids[..n]);
      assert members == members[..n] + [members[n]];
    }
  }

  /** Removing takes one member away and keeps the others, though not their order. */
  lemma RemoveTakesOne(o: Indexed, k: nat)
    requires IsIndexed(o) && k < |o.members|
    ensures multiset(Removed(o, k).members) == multiset(o.members) - multiset{o.members[k]}
  {
    var last := |o.members| - 1;
    assert o.members == o.members[..last] + [o.members[last]];
    if last > 0 && k != last {
      assert o.members[k := o.members[last]][..last] == o.members[..last][k := o.members[last]];
    }
  }

  /** The slots of a range of positions are the iterators of the entries with those positions. */
  lemma SliceHolds(o: Indexed, from: nat, to: nat)
    requires IsIndexed(o) && from <= to <= |o.slots|
    ensures forall id :: id in o.entries ==> (id in o.slots[from..to] <==> from <= o.entries[id].index < to)
    ensures forall id :: id in o.slots[from..to] ==> id in o.entries
    ensures forall i, j :: 0 <= i < j < to - from ==> o.slots[from..to][i] != o.slots[from..to][j]
  {
    var slice := o.slots[from..to];
    forall k | 0 <= k < to - from ensures slice[k] in o.entries && o.entries[slice[k]].index == from + k {
      assert slice[k] == o.slots[from + k];
    }
    forall id | id in o.entries ensures id in slice <==> from <= o.entries[id].index < to {
      var k := o.entries[id].index;
      if from <= k < to {
        assert slice[k - from] == id;
      }
    }
  }

  /** The entries that are left when those of a range have been erased, and where they are. */
  lemma KeptEntries(o: Indexed, first: nat, last: nat)
    requires IsIndexed(o) && first < last <= |o.slots|
    ensures var kept, moved := Forget(o.entries, o.slots[first..last]), o.slots[last..];
            && (forall id :: id in kept <==> id in o.entries && !(first <= o.entries[id].index < last))
            && (forall id :: id in kept ==> kept[id] == o.entries[id])
            && (forall id :: id in moved ==> id in kept && kept[id].index >= last)
            && (forall i, j :: 0 <= i < j < |moved| ==> moved[i] != moved[j])
  {
    hide IsIndexed;
    ForgetIs(o.entries, o.slots[first..last]);
    SliceHolds(o, first, last);
    SliceHolds(o, last, |o.slots|);
    assert o.slots[last..|o.slots|] == o.slots[last..];
  }

  lemma EraseKeeps(o: Indexed, first: nat, last: nat)
    requires IsIndexed(o) && first <= last <= |o.members|
    ensures IsIndexed(Erased(o, first, last))
  {
    assert |o.slots| == |o.members|;
    hide IsIndexed, Forget, Renumber;
    if first < last {
      var kept, moved := Forget(o.entries, o.slots[first..last]), o.slots[last..];
      KeptEntries(o, first, last);
      RenumberIs(kept, moved, first);
      MovedEntries(o, last, kept, Renumber(kept, moved, first), first);
      ErasedIsIndexed(o, first, last, kept, Renumber(kept, moved, first));
    } else {
      assert o.members[..first] + o.members[last..] == o.members && o.slots[..first] + o.slots[last..] == o.slots;
    }
  }

  /** Where the entries that were renumbered are, by their old positions. */
  lemma MovedEntries(o: Indexed, last: nat, kept: map<Id, Entry>, r: map<Id, Entry>, first: nat)
    requires last <= |o.slots| && r.Keys == kept.Keys
    requires forall id :: id in kept ==> id in o.entries && kept[id] == o.entries[id]
    requires forall id :: id in o.slots[last..] ==> id in kept
    requires forall k :: 0 <= k < |o.slots[last..]| ==> r[o.slots[last..][k]] == Entry(kept[o.slots[last..][k]].key, first + k)
    ensures forall k :: last <= k < |o.slots| ==> o.slots[k] in kept && r[o.slots[k]] == Entry(o.entries[o.slots[k]].key, first + (k - last))
  {
    forall k | last <= k < |o.slots|
      ensures o.slots[k] in kept && r[o.slots[k]] == Entry(o.entries[o.slots[k]].key, first + (k - last))
    {
      assert o.slots[last..][k - last] == o.slots[k];
    }
  }

  lemma SlotHolds(o: Indexed, i: nat)
    requires IsIndexed(o) && i < |o.members|
    ensures |o.slots| == |o.members| && o.slots[i] in o.entries && o.entries[o.slots[i]] == Entry(o.members[i].name, i)
  {
  }

  lemma EntryHolds(o: Indexed, id: Id)
    requires IsIndexed(o) && id in o.entries
    ensures |o.slots| == |o.members| && o.entries[id].index < |o.slots| && o.slots[o.entries[id].index] == id
  {
  }

  lemma ErasedIsIndexed(o: Indexed, first: nat, last: nat, kept: map<Id, Entry>, r: map<Id, Entry>)
    requires IsIndexed(o) && first < last <= |o.members| == |o.slots|
    requires forall id :: id in kept <==> id in o.entries && !(first <= o.entries[id].index < last)
    requires r.Keys == kept.Keys
    requires forall k :: last <= k < |o.slots| ==> r[o.slots[k]] == Entry(o.entries[o.slots[k]].key, first + (k - last))
    requires forall id :: id in kept && o.entries[id].index < first ==> r[id] == o.entries[id]
    ensures IsIndexed(Indexed(o.members[..first] + o.members[last..], o.slots[..first] + o.slots[last..], r))
  {
    var members, slots := o.members[..first] + o.members[last..], o.slots[..first] + o.slots[last..];
    assert forall id :: id in r <==> id in kept;
    forall i | 0 <= i < |slots| ensures slots[i] in r && r[slots[i]] == Entry(members[i].name, i) {
      hide IsIndexed;
      var j := if i < first then i else i + (last - first);
      SlotHolds(o, j);
      Closing(o.members, first, last, j);
      Closing(o.slots, first, last, j);
    }
    forall id | id in r ensures r[id].index < |slots| && slots[r[id].index] == id {
      hide IsIndexed;
      EntryHolds(o, id);
      Closing(o.slots, first, last, o.entries[id].index);
    }
    BuildIndexed(members, slots, r);
  }

  lemma BuildIndexed(members: seq<Member>, slots: seq<Id>, r: map<Id, Entry>)
    requires |slots| == |members|
    requires forall i :: 0 <= i < |slots| ==> slots[i] in r && r[slots[i]] == Entry(members[i].name, i)
    requires forall id :: id in r ==> r[id].index < |slots| && slots[r[id].index] == id
    ensures IsIndexed(Indexed(members, slots, r))
  {
  }

  /** Where an item is once a range has been cut out of a list. */
  lemma Closing<T>(s: seq<T>, first: nat, last: nat, j: nat)
    requires first < last <= |s| && j < |s| && !(first <= j < last)
    ensures var cut, i := s[..first] + s[last..], if j < first then j else j - (last - first);
            i < |cut| && cut[i] == s[j]
  {
  }

  lemma ClearKeeps(o: Indexed)
    requires IsIndexed(o)
    ensures Cleared(o) == Empty
  {
    ForgetIs(o.entries, o.slots);
  }

  lemma CopyStep(members: seq<Member>, ids: seq<Id>, before: Indexed)
    requires |ids| == |members| > 0 && AreDistinct(ids) && IsIndexed(before)
    requires before.members == members[..|members| - 1] && before.slots == ids[..|ids| - 1]
    ensures var o := Added(before, members[|members| - 1], ids[|ids| - 1]);
            IsIndexed(o) && o.members == members && o.slots == ids
  {
    hide IsIndexed, Added;
    var n := |members| - 1;
    assert ids[n] !in ids[..n];
    NotASlot(before, ids[n]);
    AddKeeps(before, members[n], ids[n]);
    AddedLast(before, members[n], ids[n]);
  }

  lemma {:induction false} CopyIsIndexed(members: seq<Member>, ids: seq<Id>)
    requires |ids| == |members| && AreDistinct(ids)
    ensures IsIndexed(CopyOf(members, ids)) && CopyOf(members, ids).members == members && CopyOf(members, ids).slots == ids
    decreases |members|
  {
    if members != [] {
      hide IsIndexed, Added;
      var n := |members| - 1;
      CopyIsIndexed(members[..n], ids[..n]);
      CopyStep(members, ids, CopyOf(members[..n], ids[..n]));
    }
  }

  lemma NotASlot(o: Indexed, id: Id)
    requires IsIndexed(o) && id !in o.slots
    ensures id !in o.entries
  {
  }

  lemma AddedLast(o: Indexed, m: Member, id: Id)
    ensures Added(o, m, id).members == o.members + [m] && Added(o, m, id).slots == o.slots + [id]
  {
  }

  // ---------------------------------------------------------------------------------------------
  // Runs
  // ---------------------------------------------------------------------------------------------

  datatype Operation =
    | AddMember(m: Member, id: Id)
    | RemoveMember(k: nat)
    | EraseMembers(first: nat, last: nat)
    | ClearMembers
    | CopyMembers(members: seq<Member>, ids: seq<Id>)

  /** New entries get new identities, and positions are positions of members. */
  predicate Allowed(o: Indexed, op: Operation) {
    match op
    case AddMember(_, id) => id !in o.entries
    case RemoveMember(k) => k < |o.members|
    case EraseMembers(first, last) => first <= last <= |o.members|
    case ClearMembers => true
    case CopyMembers(members, ids) => |ids| == |members| && AreDistinct(ids)
  }

  function Do(o: Indexed, op: Operation): Indexed
    requires IsIndexed(o) && Allowed(o, op)
  {
    match op
    case AddMember(m, id) => Added(o, m, id)
    case RemoveMember(k) => Removed(o, k)
    case EraseMembers(first, last) => Erased(o, first, last)
    case ClearMembers => Cleared(o)
    case CopyMembers(members, ids) => CopyOf(members, ids)
  }

  lemma DoKeeps(o: Indexed, op: Operation)
    requires IsIndexed(o) && Allowed(o, op)
    ensures IsIndexed(Do(o, op))
  {
    hide IsIndexed;
    match op
    case AddMember(m, id) => AddKeeps(o, m, id);
    case RemoveMember(k) => RemoveKeeps(o, k);
    case EraseMembers(first, last) => EraseKeeps(o, first, last);
    case ClearMembers =>
      ClearKeeps(o);
      CopyIsIndexed([], []);
    case CopyMembers(members, ids) => CopyIsIndexed(members, ids);
  }

  predicate MayRun(o: Indexed, ops: seq<Operation>)
    requires IsIndexed(o)
    decreases |ops|
  {
    ops == [] || (Allowed(o, ops[0]) && (DoKeeps(o, ops[0]); MayRun(Do(o, ops[0]), ops[1..])))
  }

  function Run(o: Indexed, ops: seq<Operation>): (r: Indexed)
    requires IsIndexed(o) && MayRun(o, ops)
    decreases |ops|
  {
    if ops == [] then o
    else
      DoKeeps(o, ops[0]);
      Run(Do(o, ops[0]), ops[1..])
  }

  /** After any run, the multimap is exactly the names and positions of the members. */
  lemma {:induction false} RunKeeps(o: Indexed, ops: seq<Operation>)
    requires IsIndexed(o) && MayRun(o, ops)
    ensures IsIndexed(Run(o, ops))
    decreases |ops|
  {
    if ops != [] {
      DoKeeps(o, ops[0]);
      RunKeeps(Do(o, ops[0]), ops[1..]);
    }
  }

  // ---------------------------------------------------------------------------------------------
  // The object
  // ---------------------------------------------------------------------------------------------

  lemma EraseNothing(o: Indexed, first: nat)
    requires |o.slots| == |o.members| && first <= |o.members|
    ensures Erased(o, first, first) == o && Forget(o.entries, o.slots[first..first]) == o.entries
  {
    assert o.members[..first] + o.members[first..] == o.members && o.slots[..first] + o.slots[first..] == o.slots;
  }

  lemma LaterSlotsStay(o: Indexed, first: nat, last: nat)
    requires IsIndexed(o) && first <= last <= |o.members|
    ensures forall k :: last <= k < |o.slots| ==> o.slots[k] in Forget(o.entries, o.slots[first..last])
  {
    ForgetIs(o.entries, o.slots[first..last]);
    SliceHolds(o, first, last);
  }

  lemma SameLength(o: Indexed)
    requires IsIndexed(o)
    ensures |o.slots| == |o.members|
  {
  }

  lemma SlotsDiffer(o: Indexed, j: nat, k: nat)
    requires IsIndexed(o) && j < |o.members| && k < |o.members|
    ensures |o.slots| == |o.members|
    ensures o.slots[j] in o.entries && o.slots[k] in o.entries && (o.slots[j] == o.slots[k] <==> j == k)
  {
  }

  /** There are as many entries as members: the count by which the members are copied to new memory. */
  lemma {:induction false} EntryCount(o: Indexed)
    requires IsIndexed(o)
    ensures |o.entries| == |o.members|
    decreases |o.members|
  {
    if o.members == [] {
      assert o.entries == map[];
    } else {
      var last := |o.members| - 1;
      var shorter := Removed(o, last);
      RemoveKeeps(o, last);
      EntryCount(shorter);
      assert o.entries.Keys == shorter.entries.Keys + {o.slots[last]};
    }
  }

  lemma {:induction false} ForgetKeeps(entries: map<Id, Entry>, ids: seq<Id>, more: Id)
    ensures Forget(entries, ids + [more]) == Forget(entries, ids) - {more}
    decreases |ids|
  {
    if ids == [] {
      assert ([] + [more])[1..] == [];
    } else {
      assert (ids + [more])[1..] == ids[1..] + [more];
      ForgetKeeps(entries - {ids[0]}, ids[1..], more);
    }
  }

  /** A list whose items are moving down by `gap`, from `first` up to position `itr` so far. */
  function Slid<T>(was: seq<T>, first: nat, gap: nat, itr: nat): (now: seq<T>)
    requires first <= itr && itr + gap <= |was|
    ensures |now| == |was|
    decreases itr
  {
    if itr == first then was
    else
      var before := Slid(was, first, gap, itr - 1);
      before[itr - 1 := before[itr - 1 + gap]]
  }

  lemma {:induction false} SlidIs<T>(was: seq<T>, first: nat, gap: nat, itr: nat)
    requires first <= itr && itr + gap <= |was| && 0 < gap
    ensures Slid(was, first, gap, itr)[..itr] == was[..first] + was[first + gap..itr + gap]
    ensures Slid(was, first, gap, itr)[itr..] == was[itr..]
    decreases itr
  {
    if itr == first {
      assert was[first + gap..itr + gap] == [];
    } else {
      SlidIs(was, first, gap, itr - 1);
      StepDown(was, Slid(was, first, gap, itr - 1), first, gap, itr - 1);
    }
  }

  lemma StepDown<T>(was: seq<T>, now: seq<T>, first: nat, gap: nat, k: nat)
    requires first <= k && k + gap < |now| == |was| && 0 < gap
    requires now[..k] == was[..first] + was[first + gap..k + gap] && now[k..] == was[k..]
    ensures now[k + gap] == was[k + gap]
    ensures var after := now[k := now[k + gap]];
            after[..k + 1] == was[..first] + was[first + gap..k + 1 + gap] && after[k + 1..] == was[k + 1..]
  {
    var after := now[k := now[k + gap]];
    assert now[k + gap] == now[k..][gap];
    assert after[..k + 1] == now[..k] + [was[k + gap]];
    assert after[k + 1..] == now[k..][1..];
  }

  /** The entries once those at positions `first + gap` up to `itr + gap` have their new positions. */
  function Numbered(entries: map<Id, Entry>, slots: seq<Id>, first: nat, gap: nat, itr: nat): map<Id, Entry>
    requires first <= itr && itr + gap <= |slots|
    decreases itr
  {
    if itr == first then entries
    else
      var before, id := Numbered(entries, slots, first, gap, itr - 1), slots[itr - 1 + gap];
      before[id := Entry(KeyOf(before, id), itr - 1)]
  }

  lemma {:induction false} NumberedIs(entries: map<Id, Entry>, slots: seq<Id>, first: nat, gap: nat, itr: nat)
    requires first <= itr && itr + gap <= |slots|
    ensures Renumber(Numbered(entries, slots, first, gap, itr), slots[itr + gap..], itr)
         == Renumber(entries, slots[first + gap..], first)
    decreases itr
  {
    if itr > first {
      NumberedIs(entries, slots, first, gap, itr - 1);
      RenumberStep(Numbered(entries, slots, first, gap, itr - 1), slots, itr - 1 + gap, itr - 1);
    }
  }

  /** The state of the loop that moves the remaining members down. */
  function Moved(o: Indexed, first: nat, gap: nat, itr: nat): (m: Indexed)
    requires |o.slots| == |o.members| && first <= itr && itr + gap <= |o.members|
    ensures |m.slots| == |m.members| == |o.members|
  {
    Indexed(Slid(o.members, first, gap, itr), Slid(o.slots, first, gap, itr), Numbered(o.entries, o.slots, first, gap, itr))
  }

  lemma MovedStep(o: Indexed, first: nat, gap: nat, itr: nat)
    requires |o.slots| == |o.members| && first <= itr && itr + gap < |o.members| && 0 < gap
    ensures var m := Moved(o, first, gap, itr);
            var id := m.slots[itr + gap];
            && id == o.slots[itr + gap]
            && Moved(o, first, gap, itr + 1)
               == Indexed(m.members[itr := m.members[itr + gap]], m.slots[itr := id], m.entries[id := Entry(KeyOf(m.entries, id), itr)])
    ensures Moved(o, first, gap, first) == o
  {
    SlidIs(o.slots, first, gap, itr);
    var slots := Slid(o.slots, first, gap, itr);
    assert slots[itr + gap] == slots[itr..][gap];
  }

  /** The members moved down by `gap` from `first` on, and the end cut off. */
  function Closed(o: Indexed, first: nat, gap: nat): Indexed
    requires |o.slots| == |o.members| && first + gap <= |o.members|
  {
    var n := |o.members| - gap;
    var m := Moved(o, first, gap, n);
    Indexed(m.members[..n], m.slots[..n], m.entries)
  }

  /** Dropping the entries, moving the members down and cutting the end off is erasing. */
  lemma MovedIsErased(o: Indexed, first: nat, last: nat)
    requires |o.slots| == |o.members| && first < last <= |o.members|
    ensures Closed(Indexed(o.members, o.slots, Forget(o.entries, o.slots[first..last])), first, last - first) == Erased(o, first, last)
  {
    SlidEnds(o.members, first, last);
    SlidEnds(o.slots, first, last);
    NumberedEnds(Forget(o.entries, o.slots[first..last]), o.slots, first, last);
    hide Slid, Numbered, Renumber, Forget;
  }

  lemma SlidEnds<T>(was: seq<T>, first: nat, last: nat)
    requires first < last <= |was|
    ensures var n := |was| - (last - first);
            Slid(was, first, last - first, n)[..n] == was[..first] + was[last..]
  {
    var n := |was| - (last - first);
    SlidIs(was, first, last - first, n);
    assert was[last..n + (last - first)] == was[last..];
  }

  lemma NumberedEnds(entries: map<Id, Entry>, slots: seq<Id>, first: nat, last: nat)
    requires first < last <= |slots|
    ensures Numbered(entries, slots, first, last - first, |slots| - (last - first)) == Renumber(entries, slots[last..], first)
  {
    var n, gap := |slots| - (last - first), last - first;
    NumberedIs(entries, slots, first, gap, n);
    assert slots[n + gap..] == [] && first + gap == last;
  }

  lemma ErasedInSteps(o: Indexed, first: nat, last: nat, kept: Indexed, end: Indexed)
    requires IsIndexed(o) && first <= last <= |o.members|
    requires kept == Indexed(o.members, o.slots, Forget(o.entries, o.slots[first..last]))
    requires end == if first == last then kept else Closed(kept, first, last - first)
    ensures end == Erased(o, first, last) && IsIndexed(end)
  {
    hide *;
    SameLength(o);
    EraseKeeps(o, first, last);
    if first == last {
      EraseNothing(o, first);
    } else {
      MovedIsErased(o, first, last);
    }
  }

  /** The members of an object value with their index; `capacity` is what their memory has room for. */
  class ObjectData {
    var members: seq<Member>
    var slots: seq<Id>
    var entries: map<Id, Entry>
    var capacity: nat

    ghost predicate Valid()
      reads this
    {
      |members| <= capacity && IsIndexed(Now())
    }

    function Now(): Indexed
      reads this
    {
      Indexed(members, slots, entries)
    }

    constructor ()
      ensures Valid() && Now() == Empty
    {
      members, slots, entries, capacity := [], [], map[], 0;
    }

    /** `DoReserveMembers`: as many members and iterators are moved to new memory as there are entries. */
    method Reserve(newCapacity: nat)
      requires Valid()
      modifies `members, `slots, `capacity
      ensures Valid() && Now() == old(Now())
      ensures capacity == if newCapacity > old(capacity) then newCapacity else old(capacity)
    {
      if newCapacity > capacity {
        EntryCount(Now());
        SameLength(Now());
        var count, newSlots := |entries|, [];
        while count > 0
          invariant 0 <= count <= |slots| && newSlots == slots[count..]
        {
          count := count - 1;
          newSlots := [slots[count]] + newSlots;
        }
        members, slots, capacity := members[..|entries|], newSlots, newCapacity;
      }
    }

    /** `DoAddMember`; the new entry gets the identity `id`. */
    method Add(m: Member, id: Id)
      requires Valid() && id !in entries
      modifies this
      ensures Valid() && Now() == Added(old(Now()), m, id)
    {
      AddKeeps(Now(), m, id);
      if |members| >= capacity {
        Reserve(if capacity > 0 then capacity + (capacity + 1) / 2 else 16);
      }
      entries := entries[id := Entry(m.name, |members|)];
      members, slots := members + [m], slots + [id];
    }

    method Remove(k: nat)
      requires Valid() && k < |members|
      modifies this
      ensures Now() == Removed(old(Now()), k)
      ensures Valid()
    {
      ghost var o := Now();
      RemoveKeeps(o, k);
      SameLength(o);
      SlotsDiffer(o, k, |members| - 1);
      SlotHolds(o, |members| - 1);
      hide IsIndexed;
      entries := entries - {slots[k]};
      var last := |members| - 1;
      if |members| > 1 && k != last {
        slots := slots[k := slots[last]];
        entries := entries[slots[k] := entries[slots[k]].(index := k)];
        members := members[k := members[last]];
      }
      members, slots := members[..last], slots[..last];
      assert members == Removed(o, k).members && slots == Removed(o, k).slots;
      assert entries == Removed(o, k).entries;
    }

    /** `DoEraseMembers`. */
    method Erase(first: nat, last: nat)
      requires Valid() && first <= last <= |members|
      modifies this
      ensures Now() == Erased(old(Now()), first, last)
      ensures Valid()
    {
      ghost var o := Now();
      SameLength(o);
      LaterSlotsStay(o, first, last);
      DropEntries(first, last);
      ghost var kept := Now();
      if first != last {
        MoveDown(first, last - first);
      }
      ErasedInSteps(o, first, last, kept, Now());
    }

    method DropEntries(first: nat, last: nat)
      requires first <= last <= |slots|
      modifies `entries
      ensures entries == Forget(old(entries), slots[first..last])
    {
      ghost var was := entries;
      for itr := first to last
        invariant entries == Forget(was, slots[first..itr])
      {
        ForgetKeeps(was, slots[first..itr], slots[itr]);
        assert slots[first..itr + 1] == slots[first..itr] + [slots[itr]];
        entries := entries - {slots[itr]};
      }
    }

    /** The remaining members and their iterators move down by `gap`, each entry getting its new position. */
    method MoveDown(first: nat, gap: nat)
      requires 0 < gap && first + gap <= |members| == |slots|
      requires forall k :: first + gap <= k < |slots| ==> slots[k] in entries
      modifies `entries, `members, `slots
      ensures Now() == Closed(old(Now()), first, gap)
    {
      var itr, n := first, |members| - gap;
      ghost var was := Now();
      while itr != n
        invariant first <= itr <= n && |members| == n + gap
        invariant Now() == Moved(was, first, gap, itr)
        invariant entries.Keys == was.entries.Keys
      {
        MovedStep(was, first, gap, itr);
        hide *;
        members := members[itr := members[itr + gap]];
        slots := slots[itr := slots[itr + gap]];
        entries := entries[slots[itr] := entries[slots[itr]].(index := itr)];
        itr := itr + 1;
      }
      members, slots := members[..n], slots[..n];
    }

    method Clear()
      requires Valid()
      modifies this
      ensures Valid() && Now() == Empty
    {
      ghost var before := Now();
      for i := 0 to |members|
        invariant members == old(members) && slots == old(slots)
        invariant entries == Forget(before.entries, slots[..i])
      {
        ForgetKeeps(before.entries, slots[..i], slots[i]);
        assert slots[..i + 1] == slots[..i] + [slots[i]];
        entries := entries - {slots[i]};
      }
      assert slots[..|slots|] == slots;
      ClearKeeps(before);
      members, slots := [], [];
    }

    /** `DoCopyMembers`: the members of another object, with an index of their own. */
    method CopyMembers(from: seq<Member>, ids: seq<Id>)
      requires |ids| == |from| && AreDistinct(ids)
      modifies this
      ensures Valid() && Now() == CopyOf(from, ids) && members == from
    {
      members, slots, entries, capacity := [], [], map[], |from|;
      for i := 0 to |from|
        invariant capacity == |from| && Now() == CopyOf(from[..i], ids[..i]) && |members| == |slots| == i
      {
        assert from[..i + 1][..i] == from[..i] && ids[..i + 1][..i] == ids[..i];
        CopyIsIndexed(from[..i], ids[..i]);
        entries := entries[ids[i] := Entry(from[i].name, i)];
        members, slots := members + [from[i]], slots + [ids[i]];
      }
      assert from[..|from|] == from && ids[..|ids|] == ids;
      CopyIsIndexed(from, ids);
    }

    /** The indexed search finds a member exactly when the linear one does. */
    method Find(name: Str) returns (k: nat)
      requires Valid()
      ensures k <= |members|
      ensures k < |members| ==> members[k].name == name
      ensures k < |members| <==> FindMember(members, name).Some?
    {
      if id :| id in entries && entries[id].key == name {
        IndexedFindIsLinear(Now(), name, Some(id));
        return entries[id].index;
      }
      IndexedFindIsLinear(Now(), name, None);
      return |members|;
    }
  }
}
