/** The values of the DOM of include/rapidjson/document.h. */
module Values {
  import opened Text
  import opened ParseTypes

  /** The type flags of a number, kIntFlag to kDoubleFlag; kNumberFlag is common to all. */
  datatype TypeFlag = IntFlag | UintFlag | Int64Flag | Uint64Flag | DoubleFlag

  /** A 64-bit word of the value union. */
  type Word = w: int | 0 <= w <= 0xFFFF_FFFF_FFFF_FFFF

  datatype Value =
    | Null
    | Bool(b: bool)
    | Int(word: Word, flags: set<TypeFlag>)
    | Double(bits: Bits)
    | String(str: Str)
    | Array(elements: seq<Value>)
    | Object(members: seq<Member>)

  datatype Member = Member(name: Str, value: Value)

  /** `FindMember` without an index: the first member of that name. */
  function FindMember(members: seq<Member>, name: Str): (r: Option<nat>)
    ensures r.Some? ==> r.value < |members| && members[r.value].name == name
    ensures r.None? ==> forall k :: 0 <= k < |members| ==> members[k].name != name
  {
    if members == [] then None
    else if members[0].name == name then Some(0)
    else
      var r := FindMember(members[1..], name);
      if r.None? then None else Some(r.value + 1)
  }
}
