/**
 * Using a JSON Pointer on a DOM: Get, Create, Set and Erase of include/rapidjson/pointer.h, and the
 * laws that relate them. A reference to a value inside a tree is its address: the positions of the
 * children passed on the way down.
 */
module PointerDom {
  import opened Text
  import opened Values
  import opened PointerText

  // ---------------------------------------------------------------------------------------------
  // Addresses
  // ---------------------------------------------------------------------------------------------

  type Address = seq<nat>

  function ChildCount(v: Value): nat {
    match v
    case Array(elements) => |elements|
    case Object(members) => |members|
    case _ => 0
  }

  function ChildAt(v: Value, k: nat): Value
    requires k < ChildCount(v)
    ensures ChildAt(v, k) < v
  {
    match v
    case Array(elements) => elements[k]
    case Object(members) => members[k].value
  }

  /** The names of an object's members, in order. */
  function Names(v: Value): (names: seq<Str>)
    ensures |names| == if v.Object? then |v.members| else 0
    ensures v.Object? ==> forall j :: 0 <= j < |names| ==> names[j] == v.members[j].name
  {
    match v
    case Object(members) => seq(|members|, j requires 0 <= j < |members| => members[j].name)
    case _ => []
  }

  /** Both are arrays, or both objects, or neither is either. */
  predicate SameKind(v: Value, w: Value) {
    v.Array? == w.Array? && v.Object? == w.Object?
  }

  function WithChild(v: Value, k: nat, child: Value): (w: Value)
    requires k < ChildCount(v)
    ensures ChildCount(w) == ChildCount(v) && ChildAt(w, k) == child && SameKind(v, w) && Names(w) == Names(v)
    ensures forall j :: 0 <= j < ChildCount(v) && j != k ==> ChildAt(w, j) == ChildAt(v, j)
  {
    match v
    case Array(elements) => Array(elements[k := child])
    case Object(members) => Object(members[k := Member(members[k].name, child)])
  }

  function WithoutChild(v: Value, k: nat): (w: Value)
    requires k < ChildCount(v)
    ensures ChildCount(w) == ChildCount(v) - 1 && SameKind(v, w)
    ensures forall j :: 0 <= j < k ==> ChildAt(w, j) == ChildAt(v, j)
    ensures forall j :: k < j < ChildCount(v) ==> ChildAt(w, j - 1) == ChildAt(v, j)
  {
    match v
    case Array(elements) => Array(elements[..k] + elements[k + 1..])
    case Object(members) => Object(members[..k] + members[k + 1..])
  }

  predicate IsAddress(v: Value, at: Address)
    decreases |at|
  {
    at == [] || (at[0] < ChildCount(v) && IsAddress(ChildAt(v, at[0]), at[1..]))
  }

  function At(v: Value, at: Address): Value
    requires IsAddress(v, at)
    decreases |at|
  {
    if at == [] then v else At(ChildAt(v, at[0]), at[1..])
  }

  function Put(v: Value, at: Address, x: Value): Value
    requires IsAddress(v, at)
    decreases |at|
  {
    if at == [] then x else WithChild(v, at[0], Put(ChildAt(v, at[0]), at[1..], x))
  }

  // ---------------------------------------------------------------------------------------------
  // Get
  // ---------------------------------------------------------------------------------------------

  /** The child a token selects: by name in an object, by index in an array. */
  function Select(v: Value, t: Token): (r: Option<nat>)
    ensures r.Some? ==> r.value < ChildCount(v)
  {
    match v
    case Object(members) => FindMember(members, t.name)
    case Array(elements) => if t.index == INVALID_INDEX || t.index >= |elements| then None else Some(t.index)
    case _ => None
  }

  /** The address a pointer resolves to, or None. */
  function Locate(v: Value, tokens: seq<Token>): (r: Option<Address>)
    ensures r.Some? ==> IsAddress(v, r.value) && |r.value| == |tokens|
    decreases |tokens|
  {
    if tokens == [] then Some([])
    else
      var k := Select(v, tokens[0]);
      if k.None? then None
      else
        var rest := Locate(ChildAt(v, k.value), tokens[1..]);
        if rest.None? then None else Some([k.value] + rest.value)
  }

  /** `Get`: the value a pointer resolves to. */
  function Get(v: Value, tokens: seq<Token>): Option<Value> {
    var at := Locate(v, tokens);
    if at.None? then None else Some(At(v, at.value))
  }

  // ---------------------------------------------------------------------------------------------
  // Create, Set and Erase
  // ---------------------------------------------------------------------------------------------

  /** The token that names the element after the last one of an array (RFC 6901 section 4). */
  predicate IsPast(t: Token) {
    t.name == [MINUS]
  }

  function Nulls(n: nat): seq<Value> {
    seq(n, _ => Null)
  }

  datatype Made = Made(v: Value, child: nat, exist: bool)

  /** One pass round the loop of `Create`: the container it leaves and the child it goes on to. */
  function MakeChild(v: Value, t: Token): (m: Made)
    ensures m.child < ChildCount(m.v)
    ensures m.exist ==> m.v == v && Select(v, t) == Some(m.child)
  {
    if v.Array? && IsPast(t) then Made(Array(v.elements + [Null]), |v.elements|, false)
    else
      var w :=
        if t.index == INVALID_INDEX then if v.Object? then v else Object([])
        else if v.Array? || v.Object? then v else Array([]);
      if w.Array? then
        if t.index >= |w.elements| then Made(Array(w.elements + Nulls(t.index + 1 - |w.elements|)), t.index, false)
        else Made(w, t.index, true)
      else
        var m := FindMember(w.members, t.name);
        if m.None? then Made(Object(w.members + [Member(t.name, Null)]), |w.members|, false)
        else Made(w, m.value, true)
  }

  datatype Created = Created(root: Value, at: Address, exist: bool)

  /** `Create`: the tree it leaves, the value it returns a reference to, and `alreadyExist`. */
  function Create(v: Value, tokens: seq<Token>): (r: Created)
    ensures IsAddress(r.root, r.at) && |r.at| == |tokens|
    decreases |tokens|
  {
    if tokens == [] then Created(v, [], true)
    else
      var m := MakeChild(v, tokens[0]);
      var sub := Create(ChildAt(m.v, m.child), tokens[1..]);
      Created(WithChild(m.v, m.child, sub.root), [m.child] + sub.at, m.exist && sub.exist)
  }

  /** `Set`. */
  function Set(v: Value, tokens: seq<Token>, x: Value): Value {
    var r := Create(v, tokens);
    Put(r.root, r.at, x)
  }

  /** `Erase`: the tree without the value a pointer resolves to; None when nothing is erased. */
  function Erase(v: Value, tokens: seq<Token>): Option<Value> {
    if tokens == [] then None
    else
      var parent := Locate(v, tokens[..|tokens| - 1]);
      if parent.None? then None
      else
        var container := At(v, parent.value);
        var k := Select(container, tokens[|tokens| - 1]);
        if k.None? then None else Some(Put(v, parent.value, WithoutChild(container, k.value)))
  }

  // ---------------------------------------------------------------------------------------------
  // Laws of Create and Set
  // ---------------------------------------------------------------------------------------------

  lemma {:induction false} AtPut(v: Value, at: Address, x: Value)
    requires IsAddress(v, at)
    ensures IsAddress(Put(v, at, x), at) && At(Put(v, at, x), at) == x
    decreases |at|
  {
    if at != [] {
      AtPut(ChildAt(v, at[0]), at[1..], x);
    }
  }

  /** `Create` reports that the value exists exactly when the pointer resolves, and then changes nothing. */
  lemma {:induction false} ExistIffResolved(v: Value, tokens: seq<Token>)
    requires forall t :: t in tokens && IsPast(t) ==> t.index == INVALID_INDEX
    ensures Create(v, tokens).exist <==> Locate(v, tokens).Some?
    ensures Create(v, tokens).exist ==> Create(v, tokens) == Created(v, Locate(v, tokens).value, true)
    decreases |tokens|
  {
    if tokens != [] {
      var m := MakeChild(v, tokens[0]);
      assert tokens[0] in tokens;
      assert Select(v, tokens[0]).Some? ==> m.exist;
      ExistIffResolved(ChildAt(m.v, m.child), tokens[1..]);
      if m.exist && Create(v, tokens).exist {
        SameChild(v, m.child);
      }
    }
  }

  lemma SameChild(v: Value, k: nat)
    requires k < ChildCount(v)
    ensures WithChild(v, k, ChildAt(v, k)) == v
  {
  }

  /** Some token appends to an array on the way: each `Create` would append again. */
  predicate Appends(v: Value, tokens: seq<Token>)
    decreases |tokens|
  {
    tokens != []
    && var m := MakeChild(v, tokens[0]);
       (v.Array? && IsPast(tokens[0])) || Appends(ChildAt(m.v, m.child), tokens[1..])
  }

  /** Once made, a child is the one its token selects, unless the token appends. */
  lemma MadeIsSelected(v: Value, t: Token, child: Value)
    requires IsPast(t) ==> t.index == INVALID_INDEX
    requires t.index <= INVALID_INDEX
    ensures var m := MakeChild(v, t);
            Select(WithChild(m.v, m.child, child), t) == if v.Array? && IsPast(t) then None else Some(m.child)
  {
    var m := MakeChild(v, t);
    if m.v.Object? {
      SameFind(m.v.members, m.child, child, t.name);
      if !m.exist {
        FindAppended(m.v.members, t.name);
      }
    }
  }

  lemma {:induction false} SameFind(members: seq<Member>, k: nat, child: Value, name: Str)
    requires k < |members|
    ensures FindMember(members[k := Member(members[k].name, child)], name) == FindMember(members, name)
    decreases |members|
  {
    var changed := members[k := Member(members[k].name, child)];
    if members[0].name != name && k > 0 {
      assert changed[1..] == members[1..][k - 1 := Member(members[1..][k - 1].name, child)];
      SameFind(members[1..], k - 1, child, name);
    } else if members[0].name != name {
      assert changed[1..] == members[1..];
    }
  }

  lemma {:induction false} FindAppended(members: seq<Member>, name: Str)
    requires members != [] && members[|members| - 1].name == name
    requires forall k :: 0 <= k < |members| - 1 ==> members[k].name != name
    ensures FindMember(members, name) == Some(|members| - 1)
    decreases |members|
  {
    if |members| > 1 {
      FindAppended(members[1..], name);
    }
  }

  predicate IsToken(t: Token) {
    t.index <= INVALID_INDEX && (IsPast(t) ==> t.index == INVALID_INDEX)
  }

  /** The tokens of a pointer parsed from a text are such. */
  lemma ParsedAreTokens(source: Str)
    ensures Parse(source).Tokens? ==> forall t :: t in Parse(source).tokens ==> IsToken(t)
  {
    hide Parse;
    ParsedIndices(source);
  }

  /** What `Create` returns a reference to is what the pointer then resolves to, unless it appends. */
  lemma {:induction false} CreatedIsLocated(v: Value, tokens: seq<Token>, x: Value)
    requires forall t :: t in tokens ==> IsToken(t)
    ensures var r := Create(v, tokens);
            Locate(Put(r.root, r.at, x), tokens) == if Appends(v, tokens) then None else Some(r.at)
    decreases |tokens|
  {
    if tokens != [] {
      var m := MakeChild(v, tokens[0]);
      var child := ChildAt(m.v, m.child);
      var sub := Create(child, tokens[1..]);
      var r := Create(v, tokens);
      assert tokens[0] in tokens;
      assert r.at[0] == m.child && r.at[1..] == sub.at;
      CreatedIsLocated(child, tokens[1..], x);
      MadeIsSelected(v, tokens[0], Put(sub.root, sub.at, x));
      PutInChild(m.v, m.child, sub.root, sub.at, x);
    }
  }

  lemma PutInChild(v: Value, k: nat, child: Value, at: Address, x: Value)
    requires k < ChildCount(v) && IsAddress(child, at)
    ensures IsAddress(WithChild(v, k, child), [k] + at)
    ensures Put(WithChild(v, k, child), [k] + at, x) == WithChild(v, k, Put(child, at, x))
  {
    assert ([k] + at)[1..] == at;
  }

  /** Get after Set returns the value set, exactly when no token appends. */
  lemma GetAfterSetIff(v: Value, tokens: seq<Token>, x: Value)
    requires forall t :: t in tokens ==> IsToken(t)
    ensures Get(Set(v, tokens, x), tokens) == if Appends(v, tokens) then None else Some(x)
  {
    var r := Create(v, tokens);
    CreatedIsLocated(v, tokens, x);
    AtPut(r.root, r.at, x);
  }

  /** For a pointer given as text: Get after Set returns the value set, unless a token appends. */
  lemma GetAfterSetOfText(source: Str, v: Value, x: Value)
    requires Parse(source).Tokens?
    ensures var tokens := Parse(source).tokens;
            && Get(Set(v, tokens, x), tokens) == (if Appends(v, tokens) then None else Some(x))
            && ((forall t :: t in tokens ==> !IsPast(t)) ==> Get(Set(v, tokens, x), tokens) == Some(x))
  {
    hide Parse, Get, Set, Appends;
    var tokens := Parse(source).tokens;
    ParsedAreTokens(source);
    GetAfterSetIff(v, tokens, x);
    if forall t :: t in tokens ==> !IsPast(t) {
      OnlyDashAppends(v, tokens);
    }
  }

  /** Setting through `-` in an array: the value is there, but the pointer does not find it. */
  lemma AppendedIsNotFound(v: Value, dash: seq<Token>, x: Value)
    requires v.Array? && dash == [Token([MINUS], INVALID_INDEX)]
    ensures Appends(v, dash) && Set(v, dash, x) == Array(v.elements + [x]) && Get(Set(v, dash, x), dash) == None
  {
    var n, m := |v.elements|, MakeChild(v, dash[0]);
    var sub := Create(Null, []);
    assert m == Made(Array(v.elements + [Null]), n, false) && ChildAt(m.v, n) == Null && dash[1..] == [];
    assert (v.elements + [Null])[n := Null] == v.elements + [Null] && (v.elements + [Null])[n := x] == v.elements + [x];
    assert Create(v, dash) == Created(WithChild(m.v, n, sub.root), [n] + sub.at, false);
    assert [n] + [] == [n] && [n][1..] == [];
    assert Put(Array(v.elements + [Null]), [n], x) == WithChild(Array(v.elements + [Null]), n, Put(Null, [], x));
  }

  lemma {:induction false} PutSame(v: Value, at: Address)
    requires IsAddress(v, at)
    ensures Put(v, at, At(v, at)) == v
    decreases |at|
  {
    if at != [] {
      PutSame(ChildAt(v, at[0]), at[1..]);
      SameChild(v, at[0]);
    }
  }

  /** A second `Create` finds the value of the first one and changes nothing, exactly when no token appends. */
  lemma CreateTwiceIff(v: Value, tokens: seq<Token>)
    requires forall t :: t in tokens ==> IsToken(t)
    ensures var r := Create(v, tokens);
            && (Create(r.root, tokens).exist <==> !Appends(v, tokens))
            && (!Appends(v, tokens) ==> Create(r.root, tokens) == Created(r.root, r.at, true))
  {
    var r := Create(v, tokens);
    PutSame(r.root, r.at);
    CreatedIsLocated(v, tokens, At(r.root, r.at));
    ExistIffResolved(r.root, tokens);
  }

  /** A pointer without a `-` token never appends. */
  lemma {:induction false} OnlyDashAppends(v: Value, tokens: seq<Token>)
    requires forall t :: t in tokens ==> !IsPast(t)
    ensures !Appends(v, tokens)
    decreases |tokens|
  {
    if tokens != [] {
      var m := MakeChild(v, tokens[0]);
      assert tokens[0] in tokens;
      OnlyDashAppends(ChildAt(m.v, m.child), tokens[1..]);
    }
  }

  // ---------------------------------------------------------------------------------------------
  // What Create makes of a container
  // ---------------------------------------------------------------------------------------------

  /** `w` is an array as long as this whose elements that are new are null, all but the last. */
  predicate IsGrown(w: Value, from: nat, length: nat) {
    w.Array? && |w.elements| == length && forall j :: from <= j < length - 1 ==> w.elements[j] == Null
  }

  /**
   * What becomes of the value a pointer passes: a scalar, or an array at a token without an index, becomes an object
   * of one member, a scalar at a token with an index an array long enough; arrays grow to hold the index, or by one
   * for `-`, filled with null; objects get a member of that name behind the others if they have none.
   */
  lemma CreateMakes(v: Value, t: Token, more: seq<Token>)
    ensures var w := Create(v, [t] + more).root;
            if v.Object? then w.Object? && Names(w) == Names(v) + (if t.name in Names(v) then [] else [t.name])
            else if v.Array? && t.name == [MINUS] then IsGrown(w, |v.elements|, |v.elements| + 1)
            else if t.index == INVALID_INDEX then w.Object? && Names(w) == [t.name]
            else if v.Array? && t.index < |v.elements| then w.Array? && |w.elements| == |v.elements|
            else IsGrown(w, ChildCount(v), t.index + 1)
  {
    CreateStarts(v, t, more);
    var m, w := MakeChild(v, t), Create(v, [t] + more).root;
    if m.v.Object? {
      MadeObject(v, t);
    } else {
      MadeArray(v, t);
      GrownStays(m.v, w, m.child);
    }
    hide *;
  }

  lemma GrownStays(v: Value, w: Value, k: nat)
    requires v.Array? && w.Array? && |w.elements| == |v.elements|
    requires forall j :: 0 <= j < ChildCount(w) && j != k ==> ChildAt(w, j) == ChildAt(v, j)
    ensures forall from: nat, length: nat :: length == k + 1 && IsGrown(v, from, length) ==> IsGrown(w, from, length)
  {
    forall j | 0 <= j < |w.elements| && j != k ensures w.elements[j] == v.elements[j] {
      assert ChildAt(w, j) == ChildAt(v, j);
    }
  }

  lemma MadeArray(v: Value, t: Token)
    requires !MakeChild(v, t).v.Object?
    ensures !v.Object? && MakeChild(v, t).v.Array?
    ensures var m := MakeChild(v, t);
            if v.Array? && t.name == [MINUS] then m.child == |v.elements| && IsGrown(m.v, |v.elements|, |v.elements| + 1)
            else if v.Array? && t.index < |v.elements| then t.index != INVALID_INDEX && |m.v.elements| == |v.elements|
            else t.index != INVALID_INDEX && m.child == t.index && IsGrown(m.v, ChildCount(v), t.index + 1)
  {
  }

  lemma CreateStarts(v: Value, t: Token, more: seq<Token>)
    ensures var m, w := MakeChild(v, t), Create(v, [t] + more).root;
            && SameKind(w, m.v) && Names(w) == Names(m.v) && ChildCount(w) == ChildCount(m.v)
            && forall j :: 0 <= j < ChildCount(w) && j != m.child ==> ChildAt(w, j) == ChildAt(m.v, j)
  {
    assert ([t] + more)[0] == t && ([t] + more)[1..] == more;
    var m := MakeChild(v, t);
    assert Create(v, [t] + more).root == WithChild(m.v, m.child, Create(ChildAt(m.v, m.child), more).root);
    hide MakeChild, Create;
  }

  lemma MadeObject(v: Value, t: Token)
    requires MakeChild(v, t).v.Object?
    ensures v.Object? || (t.index == INVALID_INDEX && !(v.Array? && t.name == [MINUS]))
    ensures var names := Names(v);
            Names(MakeChild(v, t).v) == if v.Object? then names + (if t.name in names then [] else [t.name]) else [t.name]
  {
    var m := MakeChild(v, t);
    if v.Object? {
      if m.exist {
        assert Names(v)[m.child] == t.name && Names(v) + [] == Names(v);
      } else {
        assert Names(m.v) == Names(v) + [t.name];
      }
    } else {
      assert m.v == Object([] + [Member(t.name, Null)]) && Names(m.v) == [t.name];
    }
  }

  lemma SetOfOne(v: Value, t: Token, x: Value)
    ensures Set(v, [t], x) == WithChild(MakeChild(v, t).v, MakeChild(v, t).child, x)
  {
    var m := MakeChild(v, t);
    hide MakeChild;
    assert [t][1..] == [] && [t][0] == t;
    var sub := Created(ChildAt(m.v, m.child), [], true);
    assert Create(ChildAt(m.v, m.child), []) == sub;
    assert [m.child] + [] == [m.child] && [m.child][1..] == [];
    SameChild(m.v, m.child);
    hide WithChild;
    assert Create(v, [t]).root == m.v && Create(v, [t]).at == [m.child];
    assert Put(ChildAt(m.v, m.child), [], x) == x;
  }

  /** Setting through one token in a scalar makes an array where the token has an index, and an object otherwise. */
  lemma SetInScalar(v: Value, t: Token, x: Value)
    requires !v.Array? && !v.Object?
    ensures Set(v, [t], x) == if t.index == INVALID_INDEX then Object([Member(t.name, x)]) else Array(Nulls(t.index) + [x])
  {
    SetOfOne(v, t, x);
    hide Set;
    if t.index != INVALID_INDEX {
      assert [] + Nulls(t.index + 1) == Nulls(t.index + 1);
      assert Nulls(t.index + 1)[t.index := x] == Nulls(t.index) + [x];
    } else {
      assert MakeChild(v, t).v == Object([] + [Member(t.name, Null)]);
      assert [Member(t.name, Null)][0 := Member(t.name, x)] == [Member(t.name, x)];
    }
  }

  // ---------------------------------------------------------------------------------------------
  // What Create and Set leave alone
  // ---------------------------------------------------------------------------------------------

  /** An array that still has elements is replaced by an object. */
  predicate Clears(v: Value, tokens: seq<Token>)
    decreases |tokens|
  {
    tokens != []
    && var m := MakeChild(v, tokens[0]);
       ClearsHere(v, tokens[0]) || Clears(ChildAt(m.v, m.child), tokens[1..])
  }

  predicate ClearsHere(v: Value, t: Token) {
    v.Array? && v.elements != [] && !IsPast(t) && t.index == INVALID_INDEX
  }

  lemma ChildrenStay(v: Value, t: Token)
    requires !ClearsHere(v, t)
    ensures var m := MakeChild(v, t);
            && ChildCount(v) <= ChildCount(m.v)
            && forall j :: 0 <= j < ChildCount(v) ==> ChildAt(m.v, j) == ChildAt(v, j)
  {
  }

  /** `Create` changes nothing but the containers on the way to the value. */
  lemma {:induction false} CreateKeeps(v: Value, tokens: seq<Token>, at: Address)
    requires IsAddress(v, at) && !Clears(v, tokens)
    ensures var r := Create(v, tokens);
            && IsAddress(r.root, at)
            && At(r.root, at) == if at <= r.at then Create(At(v, at), tokens[|at|..]).root else At(v, at)
    decreases |tokens|
  {
    var r := Create(v, tokens);
    if at != [] && tokens != [] {
      var m := MakeChild(v, tokens[0]);
      ChildrenStay(v, tokens[0]);
      assert r.at[1..] == Create(ChildAt(m.v, m.child), tokens[1..]).at;
      if at[0] == m.child {
        CreateKeeps(ChildAt(v, at[0]), tokens[1..], at[1..]);
        PrefixTail(at, r.at);
        if at <= r.at {
          assert tokens[1..][|at[1..]|..] == tokens[|at|..];
        }
      } else {
        DifferentHeads(at, r.at);
      }
    } else if at == [] {
      assert tokens[0..] == tokens;
    }
  }

  lemma DifferentHeads(a: Address, b: Address)
    requires a != [] && b != [] && a[0] != b[0]
    ensures !(a <= b)
    ensures |a| > 1 ==> Shift(a, b) == b
  {
    var n := |a| - 1;
    if |b| > n > 0 {
      assert a[..n][0] == a[0] && b[..n][0] == b[0];
    }
  }

  lemma PrefixTail(a: Address, b: Address)
    requires a != [] && b != [] && a[0] == b[0]
    ensures a <= b <==> a[1..] <= b[1..]
  {
    assert a == [a[0]] + a[1..] && b == [b[0]] + b[1..];
    if a <= b {
      assert b[1..][..|a| - 1] == b[..|a|][1..];
    }
  }

  lemma {:induction false} FindExtended(members: seq<Member>, more: seq<Member>, name: Str)
    requires FindMember(members, name).Some?
    ensures FindMember(members + more, name) == FindMember(members, name)
    decreases |members|
  {
    if members[0].name != name {
      assert (members + more)[1..] == members[1..] + more;
      FindExtended(members[1..], more, name);
    }
  }

  lemma SelectionStays(v: Value, t: Token, child: Value, u: Token)
    requires !ClearsHere(v, t) && Select(v, u).Some?
    ensures var m := MakeChild(v, t);
            Select(WithChild(m.v, m.child, child), u) == Select(v, u)
  {
    var m := MakeChild(v, t);
    if v.Object? {
      if !m.exist {
        FindExtended(v.members, [Member(t.name, Null)], u.name);
      }
      SameFind(m.v.members, m.child, child, u.name);
    }
  }

  /** Whatever else resolved still resolves, to the same place. */
  lemma {:induction false} CreateKeepsPointers(v: Value, tokens: seq<Token>, others: seq<Token>)
    requires Locate(v, others).Some? && !Clears(v, tokens)
    ensures Locate(Create(v, tokens).root, others) == Locate(v, others)
    decreases |tokens|
  {
    if tokens != [] && others != [] {
      var m := MakeChild(v, tokens[0]);
      var sub := Create(ChildAt(m.v, m.child), tokens[1..]);
      var k := Select(v, others[0]).value;
      ChildrenStay(v, tokens[0]);
      SelectionStays(v, tokens[0], sub.root, others[0]);
      if k == m.child {
        CreateKeepsPointers(ChildAt(v, k), tokens[1..], others[1..]);
      }
    }
  }

  lemma SelectWithChild(v: Value, k: nat, child: Value, u: Token)
    requires k < ChildCount(v)
    ensures Select(WithChild(v, k, child), u) == Select(v, u)
  {
    if v.Object? {
      SameFind(v.members, k, child, u.name);
    }
  }

  /** Storing a value leaves alone every pointer that does not resolve into it. */
  lemma {:induction false} PutKeeps(v: Value, at: Address, x: Value, others: seq<Token>)
    requires IsAddress(v, at) && Locate(v, others).Some? && !(at <= Locate(v, others).value)
    ensures Locate(Put(v, at, x), others) == Locate(v, others)
    ensures var p := Locate(v, others).value;
            !(p <= at) ==> At(Put(v, at, x), p) == At(v, p)
    decreases |at|
  {
    var p := Locate(v, others).value;
    if others != [] {
      var child := Put(ChildAt(v, at[0]), at[1..], x);
      SelectWithChild(v, at[0], child, others[0]);
      assert p[1..] == Locate(ChildAt(v, p[0]), others[1..]).value;
      if p[0] == at[0] {
        PrefixTail(at, p);
        PrefixTail(p, at);
        PutKeeps(ChildAt(v, at[0]), at[1..], x, others[1..]);
      }
    }
  }

  /**
   * A pointer that resolved to a place neither above nor below the one that is set gives the value it
   * gave before, when no array with elements was replaced.
   */
  lemma SetKeepsOthers(v: Value, tokens: seq<Token>, x: Value, others: seq<Token>)
    requires Locate(v, others).Some? && !Clears(v, tokens)
    requires var at := Create(v, tokens).at;
             !(at <= Locate(v, others).value) && !(Locate(v, others).value <= at)
    ensures Get(Set(v, tokens, x), others) == Get(v, others)
  {
    var r := Create(v, tokens);
    CreateKeepsPointers(v, tokens, others);
    CreateKeeps(v, tokens, Locate(v, others).value);
    PutKeeps(r.root, r.at, x, others);
  }

  lemma {:induction false} NullIsNotCleared(tokens: seq<Token>)
    ensures !Clears(Null, tokens)
    decreases |tokens|
  {
    if tokens != [] {
      assert ChildAt(MakeChild(Null, tokens[0]).v, MakeChild(Null, tokens[0]).child) == Null;
      NullIsNotCleared(tokens[1..]);
    }
  }

  lemma ZeroIsIndex()
    ensures IndexOf([ZERO]) == 0
  {
    assert [ZERO][1..] == [] && Convert([], 0) == 0;
    assert Convert([ZERO], 0) == 0;
  }

  lemma ClearedHereIsLost(v: Value, tokens: seq<Token>)
    requires tokens != [] && ClearsHere(v, tokens[0]) && tokens[0].index == IndexOf(tokens[0].name)
    ensures var lost := [Token([ZERO], 0)];
            Locate(v, lost).Some? && Locate(Create(v, tokens).root, lost).None?
  {
    var t, lost := tokens[0], [Token([ZERO], 0)];
    ZeroIsIndex();
    assert tokens == [t] + tokens[1..];
    CreateStarts(v, t, tokens[1..]);
    MadeObject(v, t);
    FirstIsLocated(v, lost);
    hide MakeChild, Create, Convert, Locate, IndexOf;
    OtherNameOnly(Create(v, tokens).root, t.name, lost);
  }

  lemma FirstIsLocated(v: Value, first: seq<Token>)
    requires v.Array? && v.elements != [] && first == [Token([ZERO], 0)]
    ensures Locate(v, first) == Some([0])
  {
    assert first[0] == Token([ZERO], 0) && first[1..] == [] && [0] + [] == [0];
    assert Select(v, first[0]) == Some(0) && Locate(ChildAt(v, 0), []) == Some([]);
  }

  lemma OtherNameOnly(w: Value, name: Str, lost: seq<Token>)
    requires w.Object? && Names(w) == [name] && name != [ZERO] && lost == [Token([ZERO], 0)]
    ensures Locate(w, lost).None?
  {
    assert Names(w)[0] == w.members[0].name && |Names(w)| == 1;
    assert FindMember(w.members[1..], [ZERO]) == None;
  }

  /** A child that `Create` has just made holds nothing to be replaced. */
  lemma MadeIsNull(v: Value, t: Token)
    requires !MakeChild(v, t).exist
    ensures ChildAt(MakeChild(v, t).v, MakeChild(v, t).child) == Null
  {
    var m := MakeChild(v, t);
    if m.v.Object? {
      assert m.v.members[m.child].value == Null;
    } else {
      assert m.v.elements[m.child] == Null;
    }
  }

  /** A token that selected nothing to replace is not `-` on an array. */
  lemma MadeSelects(v: Value, t: Token)
    requires MakeChild(v, t).exist
    ensures Select(v, t) == Some(MakeChild(v, t).child) && MakeChild(v, t).v == v
  {
  }

  /** When an array with elements is replaced, the pointer to its first element is lost. */
  lemma {:induction false} ClearedIsLost(v: Value, tokens: seq<Token>) returns (lost: seq<Token>)
    requires Clears(v, tokens)
    requires forall t :: t in tokens ==> t.index == IndexOf(t.name)
    ensures Locate(v, lost).Some? && Locate(Create(v, tokens).root, lost).None?
    decreases |tokens|
  {
    var t := tokens[0];
    assert t in tokens;
    var m := MakeChild(v, t);
    if ClearsHere(v, t) {
      lost := [Token([ZERO], 0)];
      ClearedHereIsLost(v, tokens);
    } else {
      hide MakeChild, ClearsHere;
      if !m.exist {
        MadeIsNull(v, t);
        NullIsNotCleared(tokens[1..]);
      }
      MadeSelects(v, t);
      var rest := ClearedIsLost(ChildAt(m.v, m.child), tokens[1..]);
      lost := [t] + rest;
      assert lost[0] == t && lost[1..] == rest;
      SelectWithChild(m.v, m.child, Create(ChildAt(m.v, m.child), tokens[1..]).root, t);
    }
  }

  /** Creating "a" in an array of one element loses that element. */
  lemma ElementIsLost(x: Value)
    ensures var a, first := [Token([0x61], INVALID_INDEX)], [Token([ZERO], 0)];
            && Clears(Array([x]), a) && Locate(Array([x]), first) == Some([0])
            && Create(Array([x]), a).root == Object([Member([0x61], Null)])
            && Locate(Create(Array([x]), a).root, first).None?
  {
    var a, first := [Token([0x61], INVALID_INDEX)], [Token([ZERO], 0)];
    assert a[1..] == [] && first[1..] == [];
    var w := Object([Member([0x61], Null)]);
    assert MakeChild(Array([x]), a[0]) == Made(w, 0, false);
    assert Create(Array([x]), a).root == WithChild(w, 0, Null) == w;
    assert [Member([0x61], Null)][1..] == [] && [0] + [] == [0];
  }

  /** Every pointer that resolves goes on resolving to the same place. */
  ghost predicate KeepsPointers(v: Value, w: Value) {
    forall others: seq<Token> :: Locate(v, others).Some? ==> Locate(w, others) == Locate(v, others)
  }

  /** For a parsed pointer: `Create` keeps the others exactly when it replaces no array with elements. */
  lemma CreateKeepsAllIff(v: Value, tokens: seq<Token>)
    requires forall t :: t in tokens ==> t.index == IndexOf(t.name)
    ensures KeepsPointers(v, Create(v, tokens).root) <==> !Clears(v, tokens)
  {
    if Clears(v, tokens) {
      var lost := ClearedIsLost(v, tokens);
    } else {
      forall others: seq<Token> | Locate(v, others).Some?
        ensures Locate(Create(v, tokens).root, others) == Locate(v, others)
      {
        CreateKeepsPointers(v, tokens, others);
      }
    }
  }

  // ---------------------------------------------------------------------------------------------
  // Erase
  // ---------------------------------------------------------------------------------------------

  lemma {:induction false} LocateLast(v: Value, tokens: seq<Token>)
    requires tokens != []
    ensures var parent := Locate(v, tokens[..|tokens| - 1]);
            Locate(v, tokens)
            == if parent.None? || Select(At(v, parent.value), tokens[|tokens| - 1]).None? then None
               else Some(parent.value + [Select(At(v, parent.value), tokens[|tokens| - 1]).value])
    decreases |tokens|
  {
    hide Select;
    var k := Select(v, tokens[0]);
    if |tokens| > 1 {
      assert tokens[..|tokens| - 1][1..] == tokens[1..][..|tokens| - 2];
      if k.Some? {
        var child := ChildAt(v, k.value);
        var inner := Locate(child, tokens[1..][..|tokens| - 2]);
        LocateLast(child, tokens[1..]);
        if inner.Some? {
          assert ([k.value] + inner.value)[1..] == inner.value;
          var last := Select(At(child, inner.value), tokens[|tokens| - 1]);
          if last.Some? {
            Regroup3([k.value], inner.value, [last.value]);
          }
        }
      }
    } else {
      assert tokens[..0] == [] && tokens[1..] == [];
      assert k.Some? ==> [k.value] + [] == [] + [k.value];
    }
  }

  /** Where the value at an address is once child `p[|p| - 1]` of its parent is gone. */
  function Shift(p: Address, q: Address): Address
    requires p != []
  {
    var n := |p| - 1;
    if |q| > n && q[..n] == p[..n] && q[n] > p[n] then q[n := q[n] - 1] else q
  }

  /** `Erase` succeeds exactly when the pointer resolves to a value other than the root. */
  lemma EraseIffResolved(v: Value, tokens: seq<Token>)
    ensures Erase(v, tokens).Some? <==> tokens != [] && Locate(v, tokens).Some?
  {
    if tokens != [] {
      LocateLast(v, tokens);
    }
  }

  /** A child of the root itself is removed. */
  lemma ChildShifts(v: Value, k: nat, q: Address)
    requires k < ChildCount(v) && IsAddress(v, q) && !([k] <= q)
    ensures var w, s := WithoutChild(v, k), Shift([k], q);
            IsAddress(w, s) && (q != [] ==> At(w, s) == At(v, q))
  {
    hide WithoutChild;
    if q != [] {
      assert q[..0] == [k][..0];
      assert q[0] == k ==> [k] <= q;
      assert Shift([k], q)[1..] == q[1..];
    }
  }

  /** Removing a child moves its later siblings down by one, and nothing else. */
  lemma {:induction false} RemovalShifts(v: Value, parent: Address, k: nat, q: Address)
    requires IsAddress(v, parent) && k < ChildCount(At(v, parent)) && IsAddress(v, q)
    requires !(parent + [k] <= q)
    ensures var w := Put(v, parent, WithoutChild(At(v, parent), k));
            var s := Shift(parent + [k], q);
            IsAddress(w, s) && (!(q <= parent) ==> At(w, s) == At(v, q))
    decreases |parent|
  {
    var p := parent + [k];
    var w := Put(v, parent, WithoutChild(At(v, parent), k));
    var s := Shift(p, q);
    if parent == [] {
      assert p == [k];
      ChildShifts(v, k, q);
    } else if q != [] {
      var inner := ChildAt(v, parent[0]);
      assert p[0] == parent[0] && p[1..] == parent[1..] + [k];
      if q[0] == parent[0] {
        PrefixTail(p, q);
        PrefixTail(q, parent);
        RemovalShifts(inner, parent[1..], k, q[1..]);
        ShiftTail(p, q);
      } else {
        DifferentHeads(p, q);
      }
    }
  }

  lemma ShiftTail(p: Address, q: Address)
    requires |p| > 1 && q != [] && q[0] == p[0]
    ensures Shift(p, q) != [] && Shift(p, q)[0] == q[0] && Shift(p, q)[1..] == Shift(p[1..], q[1..])
  {
    var n := |p| - 1;
    if |q| > n {
      assert q[..n] == [q[0]] + q[1..][..n - 1] && p[..n] == [p[0]] + p[1..][..n - 1];
      assert q[..n][1..] == q[1..][..n - 1] && p[..n][1..] == p[1..][..n - 1];
    }
  }

  /**
   * `Erase` removes exactly the value the pointer resolves to: its container has one child fewer, later
   * siblings have moved down by one, and every other value is where it was.
   */
  lemma EraseRemovesOne(v: Value, tokens: seq<Token>, q: Address)
    requires Locate(v, tokens).Some? && tokens != []
    requires IsAddress(v, q) && !(Locate(v, tokens).value <= q)
    ensures Erase(v, tokens).Some?
    ensures var p, w := Locate(v, tokens).value, Erase(v, tokens).value;
            var parent := p[..|p| - 1];
            && IsAddress(v, parent) && IsAddress(w, parent) && ChildCount(At(w, parent)) == ChildCount(At(v, parent)) - 1
            && IsAddress(w, Shift(p, q)) && (!(q <= parent) ==> At(w, Shift(p, q)) == At(v, q))
  {
    LocateLast(v, tokens);
    var parent := Locate(v, tokens[..|tokens| - 1]).value;
    var k := Select(At(v, parent), tokens[|tokens| - 1]).value;
    var p := Locate(v, tokens).value;
    assert p[..|p| - 1] == parent;
    AtPut(v, parent, WithoutChild(At(v, parent), k));
    RemovalShifts(v, parent, k, q);
  }

  /** The value that holds the one a pointer resolves to. */
  function Container(v: Value, tokens: seq<Token>): Value
    requires tokens != [] && Locate(v, tokens).Some?
  {
    LocateLast(v, tokens);
    At(v, Locate(v, tokens[..|tokens| - 1]).value)
  }

  lemma NamesWithout(v: Value, k: nat)
    requires k < ChildCount(v) && v.Object?
    ensures Names(WithoutChild(v, k)) == Names(v)[..k] + Names(v)[k + 1..]
  {
  }

  /** The container loses the name of the member erased, and keeps the other names in order. */
  lemma EraseKeepsNames(v: Value, tokens: seq<Token>)
    requires Locate(v, tokens).Some? && tokens != []
    ensures var p := Locate(v, tokens).value;
            var n := |p| - 1;
            && Erase(v, tokens).Some? && IsAddress(Erase(v, tokens).value, p[..n])
            && var before, after := Container(v, tokens), At(Erase(v, tokens).value, p[..n]);
               && SameKind(before, after) && p[n] < ChildCount(before)
               && (before.Object? ==> Names(before)[p[n]] == tokens[n].name && Names(after) == Names(before)[..p[n]] + Names(before)[p[n] + 1..])
  {
    LocateLast(v, tokens);
    var parent := Locate(v, tokens[..|tokens| - 1]).value;
    var before := Container(v, tokens);
    var k := Select(before, tokens[|tokens| - 1]).value;
    assert Locate(v, tokens).value[..|tokens| - 1] == parent;
    AtPut(v, parent, WithoutChild(before, k));
    if before.Object? {
      NamesWithout(before, k);
    }
  }

  lemma {:induction false} FoundIsFirst(members: seq<Member>, name: Str, j: nat)
    requires j < |members|
    ensures FindMember(members, name) == Some(j) <==> members[j].name == name && forall i :: 0 <= i < j ==> members[i].name != name
  {
    if members[0].name != name && j > 0 {
      FoundIsFirst(members[1..], name, j - 1);
      assert forall i :: 0 < i <= j ==> members[i] == members[1..][i - 1];
    }
  }

  predicate IsFirstNamed(members: seq<Member>, name: Str, j: nat) {
    j < |members| && members[j].name == name && forall i :: 0 <= i < j ==> members[i].name != name
  }

  /**
   * `Get` follows its tokens: into the element at the token's index, if the array has so many, into the first member of
   * that name, if there is one, and nowhere else.
   */
  lemma GetFollows(v: Value, t: Token, more: seq<Token>)
    ensures Get(v, []) == Some(v)
    ensures v.Array? ==>
              Get(v, [t] + more) == if t.index != INVALID_INDEX && t.index < |v.elements| then Get(v.elements[t.index], more) else None
    ensures v.Object? ==>
              forall j: nat :: IsFirstNamed(v.members, t.name, j) ==> Get(v, [t] + more) == Get(v.members[j].value, more)
    ensures v.Object? && (forall j :: 0 <= j < |v.members| ==> v.members[j].name != t.name) ==> Get(v, [t] + more) == None
    ensures !v.Array? && !v.Object? ==> Get(v, [t] + more) == None
  {
    var all, k := [t] + more, Select(v, t);
    assert all[0] == t && all[1..] == more;
    if k.Some? {
      var at := Locate(ChildAt(v, k.value), more);
      if at.Some? {
        assert ([k.value] + at.value)[1..] == at.value;
      }
    }
    if v.Object? {
      forall j: nat | IsFirstNamed(v.members, t.name, j)
        ensures k == Some(j)
      {
        FoundIsFirst(v.members, t.name, j);
      }
      if k.Some? {
        FoundIsFirst(v.members, t.name, k.value);
      }
    }
  }

  /** Another name is found one position further down if it came after the member that is gone. */
  lemma FindAfterRemoval(members: seq<Member>, k: nat, name: Str)
    requires k < |members| && FindMember(members, name).Some? && FindMember(members, name) != Some(k)
    ensures var j := FindMember(members, name).value;
            FindMember(members[..k] + members[k + 1..], name) == Some(if j > k then j - 1 else j)
  {
    hide FindMember;
    var rest, j := members[..k] + members[k + 1..], FindMember(members, name).value;
    var moved := if j > k then j - 1 else j;
    FoundIsFirst(members, name, j);
    assert rest[moved] == members[j];
    forall i | 0 <= i < moved ensures rest[i].name != name {
      assert rest[i] == members[if i < k then i else i + 1];
    }
    FoundIsFirst(rest, name, moved);
  }

  lemma SelectAfterRemoval(v: Value, t: Token, u: Token)
    requires Select(v, t).Some? && Select(v, u).Some? && Select(v, t) != Select(v, u)
    requires v.Object? || Select(v, u).value < Select(v, t).value
    ensures var k, j := Select(v, t).value, Select(v, u).value;
            Select(WithoutChild(v, k), u) == Some(if j > k then j - 1 else j)
  {
    if v.Object? {
      FindAfterRemoval(v.members, Select(v, t).value, u.name);
    }
  }

  lemma RemovalIsFollowedHere(v: Value, k: nat, t: Token, others: seq<Token>)
    requires Select(v, t) == Some(k) && Locate(v, others).Some?
    requires var q := Locate(v, others).value;
             !([k] <= q) && (v.Object? || Shift([k], q) == q)
    ensures Locate(WithoutChild(v, k), others) == Some(Shift([k], Locate(v, others).value))
  {
    var q := Locate(v, others).value;
    if others != [] {
      assert q[1..] == Locate(ChildAt(v, q[0]), others[1..]).value;
      assert q[..0] == [k][..0] && Shift([k], q)[1..] == q[1..];
      assert q[0] == k ==> [k] <= q;
      hide WithoutChild, Select;
      SelectAfterRemoval(v, t, others[0]);
      var j := if q[0] > k then q[0] - 1 else q[0];
      assert ChildAt(WithoutChild(v, k), j) == ChildAt(v, q[0]);
      assert [j] + q[1..] == Shift([k], q);
    }
  }

  /** A pointer through another member, or through an earlier element, resolves to where its value is then. */
  lemma {:induction false} RemovalIsFollowed(v: Value, parent: Address, k: nat, t: Token, others: seq<Token>)
    requires IsAddress(v, parent) && Select(At(v, parent), t) == Some(k) && Locate(v, others).Some?
    requires var p, q := parent + [k], Locate(v, others).value;
             !(p <= q) && (At(v, parent).Object? || Shift(p, q) == q)
    ensures Locate(Put(v, parent, WithoutChild(At(v, parent), k)), others) == Some(Shift(parent + [k], Locate(v, others).value))
    decreases |parent|
  {
    var q := Locate(v, others).value;
    var p := parent + [k];
    if parent == [] {
      assert p == [k];
      RemovalIsFollowedHere(v, k, t, others);
    } else if others != [] {
      assert p[0] == parent[0] && p[1..] == parent[1..] + [k];
      var inner := ChildAt(v, parent[0]);
      var child := Put(inner, parent[1..], WithoutChild(At(v, parent), k));
      assert Put(v, parent, WithoutChild(At(v, parent), k)) == WithChild(v, parent[0], child);
      LocateThrough(v, parent[0], child, others);
      hide WithoutChild, WithChild, Select, Put, Locate;
      ShiftStep(p, q);
      if q[0] == parent[0] {
        RemovalIsFollowed(inner, parent[1..], k, t, others[1..]);
      }
    }
  }

  lemma ShiftStep(p: Address, q: Address)
    requires |p| > 1 && q != []
    ensures if q[0] == p[0] then Shift(p, q) == [q[0]] + Shift(p[1..], q[1..]) && (p[1..] <= q[1..] ==> p <= q) else Shift(p, q) == q
    ensures q[0] == p[0] && Shift(p, q) == q ==> Shift(p[1..], q[1..]) == q[1..]
  {
    if q[0] == p[0] {
      PrefixTail(p, q);
      ShiftTail(p, q);
    } else {
      DifferentHeads(p, q);
    }
  }

  /** Where a pointer that resolved leads when one child has changed. */
  lemma LocateThrough(v: Value, k: nat, child: Value, others: seq<Token>)
    requires k < ChildCount(v) && others != [] && Locate(v, others).Some?
    ensures var q := Locate(v, others).value;
            && q[0] < ChildCount(v) && Locate(ChildAt(v, q[0]), others[1..]) == Some(q[1..])
            && Locate(WithChild(v, k, child), others) ==
                 if q[0] != k then Some(q) else if Locate(child, others[1..]).None? then None else Some([k] + Locate(child, others[1..]).value)
  {
    hide Select;
    SelectWithChild(v, k, child, others[0]);
  }

  lemma LongerPrefix(q: Address, parent: Address, k: nat)
    ensures q <= parent ==> q <= parent + [k]
  {
  }

  /**
   * A pointer that resolved to a place neither above nor below the one erased gives the value it gave before, unless
   * the erased one was an element and this one lies in a later element of the same array.
   */
  lemma EraseKeepsOthers(v: Value, tokens: seq<Token>, others: seq<Token>)
    requires Locate(v, tokens).Some? && tokens != [] && Locate(v, others).Some?
    requires var p, q := Locate(v, tokens).value, Locate(v, others).value;
             !(p <= q) && !(q <= p) && (Container(v, tokens).Object? || Shift(p, q) == q)
    ensures Erase(v, tokens).Some? && Get(Erase(v, tokens).value, others) == Get(v, others)
  {
    LocateLast(v, tokens);
    var t := tokens[|tokens| - 1];
    var parent := Locate(v, tokens[..|tokens| - 1]).value;
    var k, q := Select(At(v, parent), t).value, Locate(v, others).value;
    LongerPrefix(q, parent, k);
    RemovalIsFollowed(v, parent, k, t, others);
    RemovalShifts(v, parent, k, q);
  }

  // ---------------------------------------------------------------------------------------------
  // A tree updated in place
  // ---------------------------------------------------------------------------------------------

  lemma {:induction false} AtDeeper(v: Value, at: Address, k: nat)
    requires IsAddress(v, at) && k < ChildCount(At(v, at))
    ensures IsAddress(v, at + [k]) && At(v, at + [k]) == ChildAt(At(v, at), k)
    decreases |at|
  {
    if at != [] {
      assert (at + [k])[1..] == at[1..] + [k];
      AtDeeper(ChildAt(v, at[0]), at[1..], k);
    }
  }

  lemma {:induction false} PutPut(v: Value, at: Address, x: Value, y: Value)
    requires IsAddress(v, at)
    ensures IsAddress(Put(v, at, x), at) && Put(Put(v, at, x), at, y) == Put(v, at, y)
    decreases |at|
  {
    if at != [] {
      PutPut(ChildAt(v, at[0]), at[1..], x, y);
    }
  }

  lemma {:induction false} PutDeeper(v: Value, at: Address, k: nat, y: Value)
    requires IsAddress(v, at) && k < ChildCount(At(v, at))
    ensures IsAddress(v, at + [k]) && Put(v, at + [k], y) == Put(v, at, WithChild(At(v, at), k, y))
    decreases |at|
  {
    AtDeeper(v, at, k);
    if at != [] {
      assert (at + [k])[1..] == at[1..] + [k];
      PutDeeper(ChildAt(v, at[0]), at[1..], k, y);
    }
  }

  /** An address seen from further up. */
  function Below(above: Address, at: Option<Address>): Option<Address> {
    if at.None? then None else Some(above + at.value)
  }

  lemma BelowBelow(a: Address, b: Address, at: Option<Address>)
    ensures Below(a, Below(b, at)) == Below(a + b, at)
    ensures Below([], at) == at
  {
    if at.Some? {
      Regroup3(a, b, at.value);
      assert [] + at.value == at.value;
    }
  }

  /** One turn of the loop of `Create`, as a step from the tree and the reference it starts with. */
  lemma CreateTurn(v: Value, at: Address, tokens: seq<Token>)
    requires IsAddress(v, at) && tokens != []
    ensures var m := MakeChild(At(v, at), tokens[0]);
            var w, deeper := Put(v, at, m.v), at + [m.child];
            var sub, r := Create(ChildAt(m.v, m.child), tokens[1..]), Create(At(v, at), tokens);
            && IsAddress(w, at) && IsAddress(w, deeper) && At(w, deeper) == ChildAt(m.v, m.child)
            && Put(w, deeper, sub.root) == Put(v, at, r.root) && deeper + sub.at == at + r.at
            && r.exist == (m.exist && sub.exist)
  {
    var m := MakeChild(At(v, at), tokens[0]);
    var w := Put(v, at, m.v);
    var sub := Create(ChildAt(m.v, m.child), tokens[1..]);
    AtPut(v, at, m.v);
    AtDeeper(w, at, m.child);
    PutDeeper(w, at, m.child, sub.root);
    PutPut(v, at, m.v, WithChild(m.v, m.child, sub.root));
    Regroup3(at, [m.child], sub.at);
  }

  /** The body of the loop of `Create`, with the loop that fills an array up to the index. */
  method Enter(v: Value, t: Token) returns (m: Made)
    ensures m == MakeChild(v, t)
  {
    if v.Array? && |t.name| == 1 && t.name[0] == MINUS {
      return Made(Array(v.elements + [Null]), |v.elements|, false);
    }
    var w := v;
    if t.index == INVALID_INDEX {
      if !w.Object? {
        w := Object([]);
      }
    } else if !w.Array? && !w.Object? {
      w := Array([]);
    }
    if w.Array? {
      var elements, exist := w.elements, true;
      if t.index >= |elements| {
        while t.index >= |elements|
          invariant |w.elements| <= |elements| <= t.index + 1
          invariant elements == w.elements + Nulls(|elements| - |w.elements|)
        {
          elements := elements + [Null];
        }
        exist := false;
      }
      assert exist ==> elements == w.elements;
      return Made(Array(elements), t.index, exist);
    }
    var k := FindMember(w.members, t.name);
    if k.None? {
      return Made(Object(w.members + [Member(t.name, Null)]), |w.members|, false);
    }
    return Made(w, k.value, true);
  }

  /** A value the pointer's methods are called on, changed in place through references into it. */
  class Target {
    var root: Value

    constructor (v: Value)
      ensures root == v
    {
      root := v;
    }

    /** The loop of `Get`. */
    method Resolve(tokens: seq<Token>) returns (at: Option<Address>)
      ensures at == Locate(root, tokens)
    {
      var v: Address := [];
      assert tokens[0..] == tokens;
      BelowBelow([], [], Locate(root, tokens));
      for i := 0 to |tokens|
        invariant IsAddress(root, v)
        invariant Locate(root, tokens) == Below(v, Locate(At(root, v), tokens[i..]))
      {
        assert tokens[i..][0] == tokens[i] && tokens[i..][1..] == tokens[i + 1..];
        var k := Select(At(root, v), tokens[i]);
        if k.None? {
          return None;
        }
        AtDeeper(root, v, k.value);
        BelowBelow(v, [k.value], Locate(ChildAt(At(root, v), k.value), tokens[i + 1..]));
        v := v + [k.value];
      }
      assert tokens[|tokens|..] == [];
      assert v + [] == v;
      return Some(v);
    }

    /** The loop of `Create`. */
    method CreateAt(tokens: seq<Token>) returns (at: Address, alreadyExist: bool)
      modifies this
      ensures Created(root, at, alreadyExist) == Create(old(root), tokens)
    {
      at, alreadyExist := [], true;
      ghost var r := Create(root, tokens);
      assert tokens[0..] == tokens;
      for i := 0 to |tokens|
        invariant IsAddress(root, at)
        invariant var sub := Create(At(root, at), tokens[i..]);
                  r == Created(Put(root, at, sub.root), at + sub.at, alreadyExist && sub.exist)
      {
        var v := At(root, at);
        var m := Enter(v, tokens[i]);
        assert tokens[i..][0] == tokens[i] && tokens[i..][1..] == tokens[i + 1..];
        CreateTurn(root, at, tokens[i..]);
        root := Put(root, at, m.v);
        at := at + [m.child];
        alreadyExist := alreadyExist && m.exist;
      }
      assert tokens[|tokens|..] == [];
      assert at + [] == at;
      PutSame(root, at);
    }

    method SetAt(tokens: seq<Token>, x: Value)
      modifies this
      ensures root == Set(old(root), tokens, x)
    {
      var at, _ := CreateAt(tokens);
      root := Put(root, at, x);
    }

    method EraseAt(tokens: seq<Token>) returns (erased: bool)
      modifies this
      ensures erased == Erase(old(root), tokens).Some?
      ensures root == if erased then Erase(old(root), tokens).value else old(root)
    {
      if |tokens| == 0 {
        return false;
      }
      var parent := Resolve(tokens[..|tokens| - 1]);
      if parent.None? {
        return false;
      }
      var v := At(root, parent.value);
      var k := Select(v, tokens[|tokens| - 1]);
      if k.None? {
        return false;
      }
      root := Put(root, parent.value, WithoutChild(v, k.value));
      return true;
    }
  }
}
