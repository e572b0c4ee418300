/**
 The vocabulary shared by every module: JSON trees, the SAX events that a tree
 generates, and the option type.
 */
module Json {

  datatype Option<+T> = None | Some(value: T)

  /** The integers a document can hold: an int64_t or a uint64_t. */
  type Integer = n: int | -0x8000_0000_0000_0000 <= n < 0x1_0000_0000_0000_0000

  /** A JSON tree. A double is opaque and is carried as its literal text. */
  datatype Value =
    | Null
    | Bool(b: bool)
    | Number(n: Integer)
    | Double(literal: string)
    | String(s: string)
    | Array(elements: seq<Value>)
    | Object(members: seq<Member>)

  datatype Member = Member(name: string, value: Value)

  /** The calls a generator makes on a handler. */
  datatype Event =
    | NullEvent
    | BoolEvent(b: bool)
    | IntEvent(i: int)
    | UintEvent(u: int)
    | Int64Event(i64: int)
    | Uint64Event(u64: int)
    | DoubleEvent(literal: string)
    | StringEvent(s: string)
    | StartObject
    | Key(name: string)
    | EndObject(memberCount: nat)
    | StartArray
    | EndArray(elementCount: nat)

  predicate FitsInt(n: int) { -0x8000_0000 <= n < 0x8000_0000 }

  predicate FitsUint(n: int) { 0 <= n < 0x1_0000_0000 }

  predicate FitsInt64(n: int) { -0x8000_0000_0000_0000 <= n < 0x8000_0000_0000_0000 }

  /** The integer event of `Accept`: the narrowest type flag wins, signed first. */
  function NumberEvent(n: Integer): Event {
    if FitsInt(n) then IntEvent(n)
    else if FitsUint(n) then UintEvent(n)
    else if FitsInt64(n) then Int64Event(n)
    else Uint64Event(n)
  }

  /** The events of a tree, in document order. */
  function Accept(v: Value): (es: seq<Event>)
    ensures |es| > 0
  {
    match v
    case Null => [NullEvent]
    case Bool(b) => [BoolEvent(b)]
    case Number(n) => [NumberEvent(n)]
    case Double(d) => [DoubleEvent(d)]
    case String(s) => [StringEvent(s)]
    case Array(es) => [StartArray] + AcceptElements(es) + [EndArray(|es|)]
    case Object(ms) => [StartObject] + AcceptMembers(ms) + [EndObject(|ms|)]
  }

  function AcceptElements(es: seq<Value>): seq<Event> {
    if es == [] then [] else Accept(es[0]) + AcceptElements(es[1..])
  }

  function AcceptMembers(ms: seq<Member>): seq<Event> {
    if ms == [] then [] else [Key(ms[0].name)] + Accept(ms[0].value) + AcceptMembers(ms[1..])
  }

  /** The first member of that name, or the end. */
  function FindMember(ms: seq<Member>, name: string): (r: nat)
    ensures r <= |ms|
    ensures r < |ms| ==> ms[r].name == name
    ensures forall k :: 0 <= k < r ==> ms[k].name != name
  {
    if ms == [] || ms[0].name == name then 0 else 1 + FindMember(ms[1..], name)
  }

  /** Being the first of its name determines the position. */
  lemma FirstIs(ms: seq<Member>, name: string, k: nat)
    requires k <= |ms| && (k < |ms| ==> ms[k].name == name)
    requires forall j :: 0 <= j < k ==> ms[j].name != name
    ensures FindMember(ms, name) == k
  {
    hide FindMember;
    var r := FindMember(ms, name);
    assert r < |ms| ==> r >= k;
  }
}
