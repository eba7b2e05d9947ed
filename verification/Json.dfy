/**
 JSON values as trees, and the events of the Handler concept that readers emit and that writers,
 documents, hashers and validators consume.
 */
module Json {
  datatype Option<+T> = None | Some(value: T)

  /** The number events; each integer constructor carries values of its own C++ type. */
  datatype Number =
    | Int(i: int)
    | Uint(i: int)
    | Int64(i: int)
    | Uint64(i: int)
    | Double(d: real)

  datatype Json =
    | Null
    | Bool(b: bool)
    | Num(n: Number)
    | Str(s: string)
    | Arr(elements: seq<Json>)
    | Obj(members: seq<Member>)

  /** A member of an object whose values are of type `V`. */
  datatype Named<+V> = Member(name: string, value: V)

  type Member = Named<Json>

  datatype Event =
    | NullEvent
    | BoolEvent(b: bool)
    | NumberEvent(n: Number)
    | StringEvent(s: string)
    | StartObject
    | Key(name: string)
    | EndObject(memberCount: nat)
    | StartArray
    | EndArray(elementCount: nat)

  /** The events a value announces itself with (`GenericValue::Accept`). */
  function Events(v: Json): (es: seq<Event>)
    ensures es != []
    decreases v, 1
  {
    match v
    case Null => [NullEvent]
    case Bool(b) => [BoolEvent(b)]
    case Num(n) => [NumberEvent(n)]
    case Str(s) => [StringEvent(s)]
    case Arr(elements) => [StartArray] + ElementEvents(elements) + [EndArray(|elements|)]
    case Obj(members) => [StartObject] + MemberEvents(members) + [EndObject(|members|)]
  }

  function ElementEvents(vs: seq<Json>): seq<Event>
    decreases vs, 0
  {
    if vs == [] then [] else Events(vs[0]) + ElementEvents(vs[1..])
  }

  function MemberEvents(ms: seq<Member>): seq<Event>
    decreases ms, 0
  {
    if ms == [] then [] else [Key(ms[0].name)] + Events(ms[0].value) + MemberEvents(ms[1..])
  }

  /** The events of one member. */
  function OneMember(m: Member): seq<Event> {
    [Key(m.name)] + Events(m.value)
  }

  /** The position of the first member of that name, or the number of members (`FindMember`). */
  function FindMember<V>(ms: seq<Named<V>>, name: string): (i: nat)
    ensures i <= |ms|
    ensures i < |ms| ==> ms[i].name == name
    ensures forall j :: 0 <= j < i ==> ms[j].name != name
  {
    if ms == [] || ms[0].name == name then 0 else 1 + FindMember(ms[1..], name)
  }

  predicate IsScalar(v: Json) {
    v.Null? || v.Bool? || v.Num? || v.Str?
  }
}
