/**
 What `operator==` of 3rdparty/rapidjson/document.h decides: on values without repeated names and doubles, that the
 values are the same but for the order of members.
 */
module DomEquality {
  import opened Json
  import opened Permutations
  import opened Writer
  import opened Dom

  /** The same value, member order apart. */
  ghost predicate Same(a: Value, b: Value)
    decreases a
  {
    match (a, b)
    case (NullValue, NullValue) => true
    case (BoolValue(x), BoolValue(y)) => x == y
    case (StringValue(x), StringValue(y)) => x == y
    case (NumberValue(_, x), NumberValue(_, y)) => x == y
    case (ArrayValue(xs), ArrayValue(ys)) => |xs| == |ys| && forall i :: 0 <= i < |xs| ==> Same(xs[i], ys[i])
    case (ObjectValue(ms), ObjectValue(ns)) =>
      exists p: seq<nat> :: Permutes(p, |ms|, |ns|) && SameMembers(ms, ns, p)
    case (_, _) => false
  }

  /** Member `i` of `ms` is member `p[i]` of `ns`. */
  ghost predicate SameMembers(ms: seq<ValueMember>, ns: seq<ValueMember>, p: seq<nat>)
    requires Permutes(p, |ms|, |ns|)
    decreases ms
  {
    forall i :: 0 <= i < |ms| ==> ms[i].name == ns[p[i]].name && Same(ms[i].value, ns[p[i]].value)
  }

  lemma {:induction false} EqualIsSame(widen: int -> real, a: Value, b: Value)
    requires Plain(a) && Plain(b)
    ensures Equal(widen, a, b) <==> Same(a, b)
    decreases a, 1
  {
    match (a, b)
    case (ArrayValue(xs), ArrayValue(ys)) =>
      if |xs| == |ys| {
        forall i | 0 <= i < |xs| ensures Equal(widen, xs[i], ys[i]) == Same(xs[i], ys[i]) {
          EqualIsSame(widen, xs[i], ys[i]);
        }
      }
    case (ObjectValue(ms), ObjectValue(ns)) =>
      hide Equal, Same, Plain;
      if Equal(widen, a, b) {
        EqualObjects(widen, ms, ns);
      }
      if Same(a, b) {
        SameObjects(widen, ms, ns);
      }
    case (_, _) =>
  }

  lemma PlainParts(ms: seq<ValueMember>)
    requires Plain(ObjectValue(ms))
    ensures NoDuplicates(ms) && forall i :: 0 <= i < |ms| ==> Plain(ms[i].value)
  {
  }

  /** Equal objects without repeated names: each member is found at a place of its own. */
  lemma {:induction false} EqualObjects(widen: int -> real, ms: seq<ValueMember>, ns: seq<ValueMember>)
    requires Plain(ObjectValue(ms)) && Plain(ObjectValue(ns)) && Equal(widen, ObjectValue(ms), ObjectValue(ns))
    ensures Same(ObjectValue(ms), ObjectValue(ns))
    decreases ms, 0
  {
    hide Equal, FindMember, Plain;
    PlainParts(ms);
    PlainParts(ns);
    MembersFound(widen, ms, ns);
    var p := Positions(ms, ns);
    forall i | 0 <= i < |ms| ensures ms[i].name == ns[p[i]].name && Same(ms[i].value, ns[p[i]].value) {
      MemberEqual(widen, ms, ns, i);
      EqualIsSame(widen, ms[i].value, ns[p[i]].value);
    }
    assert Permutes(p, |ms|, |ns|) && SameMembers(ms, ns, p);
  }

  lemma {:induction false} SameObjects(widen: int -> real, ms: seq<ValueMember>, ns: seq<ValueMember>)
    requires Plain(ObjectValue(ms)) && Plain(ObjectValue(ns)) && Same(ObjectValue(ms), ObjectValue(ns))
    ensures Equal(widen, ObjectValue(ms), ObjectValue(ns))
    decreases ms, 0
  {
    hide FindMember, Plain;
    PlainParts(ms);
    PlainParts(ns);
    var p: seq<nat> :| Permutes(p, |ms|, |ns|) && SameMembers(ms, ns, p);
    forall i | 0 <= i < |ms|
      ensures var j := FindMember(ns, ms[i].name); j < |ns| && Equal(widen, ms[i].value, ns[j].value)
    {
      hide Equal;
      assert ms[i].name == ns[p[i]].name && Same(ms[i].value, ns[p[i]].value);
      FindUnique(ns, p[i]);
      EqualIsSame(widen, ms[i].value, ns[p[i]].value);
    }
  }

  /** A number as `GetDouble` gives it. */
  function RealOf(widen: int -> real, n: Number): real {
    match n
    case Double(d) => d
    case _ => widen(n.i)
  }

  /** With a double on either side numbers are compared as doubles. */
  lemma DoublesEqual(widen: int -> real, m: Number, n: Number)
    requires InRange(m) && InRange(n) && (m.Double? || n.Double?)
    ensures Equal(widen, FromNumber(m), FromNumber(n)) <==> RealOf(widen, m) == RealOf(widen, n)
    ensures Equal(widen, AnyNumber, FromNumber(n)) <==> RealOf(widen, n) == 0.0
    ensures Equal(widen, FromNumber(m), AnyNumber) <==> RealOf(widen, m) == 0.0
  {
    hide FromNumber, NumberOf;
    NumberAsDouble(widen, m);
    NumberAsDouble(widen, n);
  }

  lemma NumberAsDouble(widen: int -> real, n: Number)
    requires InRange(n)
    ensures var v := FromNumber(n);
            IsNumber(v) && v.NumberValue? && AsDouble(widen, v) == RealOf(widen, n) && IsDouble(v) == n.Double?
  {
    NumberRebuilt(n);
    if !n.Double? {
      PatternOf(n);
    }
  }
}
