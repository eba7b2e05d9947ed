/**
 The document object model of 3rdparty/rapidjson/document.h: values with their number flags, the events a
 value announces (`Accept`), the stack that a document rebuilds it on, and `operator==`.
 */
module Dom {
  import opened Json
  import opened Permutations
  import opened Writer

  const TWO31 := 0x8000_0000
  const TWO32 := 0x1_0000_0000
  const TWO63 := 0x8000_0000_0000_0000
  const TWO64 := 0x1_0000_0000_0000_0000

  datatype NumberFlags = Flags(isInt: bool, isUint: bool, isInt64: bool, isUint64: bool, isDouble: bool)

  /** The 8 bytes of a number: a 64-bit pattern or a double. */
  datatype Payload = Bits(pattern: nat) | Real(d: real)

  /** `AnyNumber` is what the constructor from `kNumberType` makes: a zero that carries every number flag. */
  datatype Value =
    | NullValue
    | BoolValue(b: bool)
    | AnyNumber
    | NumberValue(flags: NumberFlags, data: Payload)
    | StringValue(s: string)
    | ArrayValue(elements: seq<Value>)
    | ObjectValue(members: seq<ValueMember>)

  type ValueMember = Named<Value>

  // ---------------------------------------------------------------------------------------------
  // Numbers
  // ---------------------------------------------------------------------------------------------

  /** The two's complement pattern of an integer. */
  function Pattern(i: int): (p: nat)
    requires -TWO63 <= i < TWO64
    ensures p < TWO64
  {
    if i < 0 then i + TWO64 else i
  }

  function FromInt(i: int): Value
    requires -TWO31 <= i < TWO31
  {
    NumberValue(
      if i >= 0 then Flags(true, true, true, true, false) else Flags(true, false, true, false, false),
      Bits(Pattern(i)))
  }

  /** `u & 0x80000000` is the test against 2^31. */
  function FromUint(u: int): Value
    requires 0 <= u < TWO32
  {
    NumberValue(
      if u >= TWO31 then Flags(false, true, true, true, false) else Flags(true, true, true, true, false),
      Bits(Pattern(u)))
  }

  /** The masks 0xFFFFFFFF00000000 and 0xFFFFFFFF80000000 are the tests against 2^32 and 2^31. */
  function FromInt64(i: int): Value
    requires -TWO63 <= i < TWO63
  {
    NumberValue(
      if i >= 0 then Flags(i < TWO31, i < TWO32, true, true, false)
      else Flags(i >= -TWO31, false, true, false, false),
      Bits(Pattern(i)))
  }

  function FromUint64(u: int): Value
    requires 0 <= u < TWO64
  {
    NumberValue(Flags(u < TWO31, u < TWO32, u < TWO63, true, false), Bits(Pattern(u)))
  }

  function FromDouble(d: real): Value {
    NumberValue(Flags(false, false, false, false, true), Real(d))
  }

  /** The value that a number event pushes. */
  function FromNumber(n: Number): Value
    requires InRange(n)
  {
    match n
    case Int(i) => FromInt(i)
    case Uint(u) => FromUint(u)
    case Int64(i) => FromInt64(i)
    case Uint64(u) => FromUint64(u)
    case Double(d) => FromDouble(d)
  }

  /** Flags and bytes depend on the number alone, not on the constructor that was used. */
  lemma FlagsOfValue(m: Number, n: Number)
    requires InRange(m) && InRange(n) && !m.Double? && !n.Double? && m.i == n.i
    ensures FromNumber(m) == FromNumber(n)
  {
  }

  /** Each flag says that the number fits that type; a double has only its own. */
  lemma FlagsMean(n: Number)
    requires InRange(n)
    ensures var f := FromNumber(n).flags;
            && f.isInt == (!n.Double? && -TWO31 <= n.i < TWO31)
            && f.isUint == (!n.Double? && 0 <= n.i < TWO32)
            && f.isInt64 == (!n.Double? && -TWO63 <= n.i < TWO63)
            && f.isUint64 == (!n.Double? && 0 <= n.i < TWO64)
            && f.isDouble == n.Double?
  {
  }

  function Signed(p: nat, half: nat): int
    requires half > 0
  {
    var low := p % (2 * half);
    if low < half then low else low - 2 * half
  }

  /** The number event of `Accept`: the first type that fits, in the order of the code. */
  function NumberOf(v: Value): Number
    requires v.NumberValue?
  {
    if v.flags.isDouble || v.data.Real? then Double(if v.data.Real? then v.data.d else 0.0)
    else
      var p := v.data.pattern;
      if v.flags.isInt then Int(Signed(p, TWO31))
      else if v.flags.isUint then Uint(p % TWO32)
      else if v.flags.isInt64 then Int64(Signed(p, TWO63))
      else Uint64(p % TWO64)
  }

  lemma DoubleRebuilt(d: real)
    ensures FromNumber(Double(d)) == FromDouble(d) && NumberOf(FromDouble(d)) == Double(d)
  {
  }

  /** The bytes of a whole number are its pattern. */
  lemma PatternOf(n: Number)
    requires InRange(n) && !n.Double?
    ensures var v := FromNumber(n); v.NumberValue? && !v.flags.isDouble && v.data == Bits(Pattern(n.i))
  {
  }

  /** A pattern gives the number back in every type that the number fits. */
  lemma SignedPattern(i: int)
    requires -TWO63 <= i < TWO64
    ensures -TWO31 <= i < TWO31 ==> Signed(Pattern(i), TWO31) == i
    ensures -TWO63 <= i < TWO63 ==> Signed(Pattern(i), TWO63) == i
    ensures 0 <= i < TWO32 ==> Pattern(i) % TWO32 == i
    ensures 0 <= i ==> Pattern(i) % TWO64 == i
  {
  }

  /** Announcing a number and building it from the event gives the same flags and bytes; integers keep their
      value, in the first type that fits of `int`, `unsigned`, `int64_t` and `uint64_t`. */
  lemma NumberRebuilt(n: Number)
    requires InRange(n)
    ensures var m := NumberOf(FromNumber(n));
            && InRange(m) && FromNumber(m) == FromNumber(n)
            && if n.Double? then m == n
               else
                 && !m.Double? && m.i == n.i
                 && (m.Int? <==> -TWO31 <= n.i < TWO31) && (m.Uint? <==> TWO31 <= n.i < TWO32)
                 && (m.Uint64? <==> TWO63 <= n.i)
  {
    hide FromNumber, Pattern, Signed;
    if n.Double? {
      DoubleRebuilt(n.d);
    } else {
      PatternOf(n);
      FlagsMean(n);
      SignedPattern(n.i);
      FlagsOfValue(n, NumberOf(FromNumber(n)));
    }
  }

  // ---------------------------------------------------------------------------------------------
  // Announcing and rebuilding
  // ---------------------------------------------------------------------------------------------

  /** Every number of the value was made by one of the constructors that take a number. */
  ghost predicate WellMade(v: Value)
    decreases v
  {
    match v
    case AnyNumber => true
    case NumberValue(_, _) => exists n: Number :: InRange(n) && v == FromNumber(n)
    case ArrayValue(es) => forall i :: 0 <= i < |es| ==> WellMade(es[i])
    case ObjectValue(ms) => forall i :: 0 <= i < |ms| ==> WellMade(ms[i].value)
    case _ => true
  }

  /** The tree that a value announces. */
  function Announced(v: Value): Json
    decreases v, 1
  {
    match v
    case NullValue => Null
    case BoolValue(b) => Bool(b)
    case AnyNumber => Num(Double(0.0))
    case NumberValue(_, _) => Num(NumberOf(v))
    case StringValue(s) => Str(s)
    case ArrayValue(es) => Arr(AnnouncedAll(es))
    case ObjectValue(ms) => Obj(AnnouncedMembers(ms))
  }

  function AnnouncedAll(es: seq<Value>): (vs: seq<Json>)
    ensures |vs| == |es|
    decreases es, 0
  {
    if es == [] then [] else [Announced(es[0])] + AnnouncedAll(es[1..])
  }

  function AnnouncedMembers(ms: seq<ValueMember>): (ns: seq<Member>)
    ensures |ns| == |ms|
    decreases ms, 0
  {
    if ms == [] then [] else [Member(ms[0].name, Announced(ms[0].value))] + AnnouncedMembers(ms[1..])
  }

  /** `Accept` */
  function Accept(v: Value): seq<Event> {
    Events(Announced(v))
  }

  /** Pairs of a name and a value, as they lie on the stack. */
  function Paired(vs: seq<Value>): (ms: seq<ValueMember>)
    requires |vs| % 2 == 0
    ensures |ms| == |vs| / 2
  {
    seq(|vs| / 2, i requires 0 <= i < |vs| / 2 =>
      Member(if vs[2 * i].StringValue? then vs[2 * i].s else "", vs[2 * i + 1]))
  }

  /** Replace the `n` topmost values and the empty container below them. */
  function Collect(stack: seq<Value>, n: nat, isObject: bool): seq<Value>
    requires isObject ==> n % 2 == 0
  {
    var k := |stack| - n;
    if k < 1 then stack
    else stack[..k - 1] + [if isObject then ObjectValue(Paired(stack[k..])) else ArrayValue(stack[k..])]
  }

  /** One event on the stack of a document. An end event without its container is a misuse that the code
      asserts against. */
  function Build(stack: seq<Value>, e: Event): seq<Value>
    requires Fits(e)
  {
    match e
    case NullEvent => stack + [NullValue]
    case BoolEvent(b) => stack + [BoolValue(b)]
    case NumberEvent(n) => stack + [FromNumber(n)]
    case StringEvent(s) => stack + [StringValue(s)]
    case Key(s) => stack + [StringValue(s)]
    case StartObject => stack + [ObjectValue([])]
    case StartArray => stack + [ArrayValue([])]
    case EndObject(n) => Collect(stack, 2 * n, true)
    case EndArray(n) => Collect(stack, n, false)
  }

  function BuildAll(stack: seq<Value>, es: seq<Event>): seq<Value>
    requires AllFit(es)
    decreases |es|
  {
    if es == [] then stack else BuildAll(Build(stack, es[0]), es[1..])
  }

  /** What a document makes of the announcement of `v`: the same value, except for `AnyNumber`. */
  function Rebuilt(v: Value): Value
    decreases v, 1
  {
    match v
    case AnyNumber => FromDouble(0.0)
    case ArrayValue(es) => ArrayValue(RebuiltAll(es))
    case ObjectValue(ms) => ObjectValue(RebuiltMembers(ms))
    case _ => v
  }

  function RebuiltAll(es: seq<Value>): (vs: seq<Value>)
    ensures |vs| == |es|
    decreases es, 0
  {
    if es == [] then [] else [Rebuilt(es[0])] + RebuiltAll(es[1..])
  }

  function RebuiltMembers(ms: seq<ValueMember>): (ns: seq<ValueMember>)
    ensures |ns| == |ms|
    decreases ms, 0
  {
    if ms == [] then [] else [Member(ms[0].name, Rebuilt(ms[0].value))] + RebuiltMembers(ms[1..])
  }

  predicate HasAnyNumber(v: Value)
    decreases v
  {
    match v
    case AnyNumber => true
    case ArrayValue(es) => exists i :: 0 <= i < |es| && HasAnyNumber(es[i])
    case ObjectValue(ms) => exists i :: 0 <= i < |ms| && HasAnyNumber(ms[i].value)
    case _ => false
  }

  lemma {:induction false} BuildAppend(stack: seq<Value>, a: seq<Event>, b: seq<Event>)
    requires AllFit(a) && AllFit(b)
    ensures AllFit(a + b) && BuildAll(stack, a + b) == BuildAll(BuildAll(stack, a), b)
    decreases |a|
  {
    hide Build;
    if a == [] {
      assert a + b == b;
    } else {
      assert (a + b)[1..] == a[1..] + b;
      BuildAppend(Build(stack, a[0]), a[1..], b);
    }
  }

  lemma BuildOne(stack: seq<Value>, e: Event)
    requires Fits(e)
    ensures BuildAll(stack, [e]) == Build(stack, e)
  {
    hide Build;
    assert [e][1..] == [];
  }

  lemma CollectedWell(stack: seq<Value>, n: nat, isObject: bool)
    requires (isObject ==> n % 2 == 0) && forall v <- stack :: WellMade(v)
    ensures forall v <- Collect(stack, n, isObject) :: WellMade(v)
  {
    var k := |stack| - n;
    if k >= 1 {
      var c := if isObject then ObjectValue(Paired(stack[k..])) else ArrayValue(stack[k..]);
      assert WellMade(c);
      forall v | v in Collect(stack, n, isObject) ensures WellMade(v) {
        assert v == c || v in stack[..k - 1];
      }
    }
  }

  lemma BuiltWell(stack: seq<Value>, e: Event)
    requires Fits(e) && forall v <- stack :: WellMade(v)
    ensures forall v <- Build(stack, e) :: WellMade(v)
  {
    hide FromNumber, Collect;
    match e
    case NumberEvent(n) =>
      BuildNumber(stack, n);
      assert FromNumber(n).NumberValue? && WellMade(FromNumber(n)) by {
        if n.Double? {
          DoubleRebuilt(n.d);
        } else {
          PatternOf(n);
        }
      }
    case EndObject(n) => CollectedWell(stack, 2 * n, true);
    case EndArray(n) => CollectedWell(stack, n, false);
    case _ =>
  }

  /** Whatever events a document receives, the numbers it holds were made by the constructors that take one. */
  lemma {:induction false} DocumentsAreWellMade(stack: seq<Value>, es: seq<Event>)
    requires AllFit(es) && forall v <- stack :: WellMade(v)
    ensures forall v <- BuildAll(stack, es) :: WellMade(v)
    decreases |es|
  {
    hide WellMade, Build;
    if es != [] {
      BuiltWell(stack, es[0]);
      DocumentsAreWellMade(Build(stack, es[0]), es[1..]);
    }
  }

  /** Rebuilding pushes exactly one value, the rebuilt one, and leaves the rest of the stack alone. */
  lemma {:induction false} RebuildValue(stack: seq<Value>, v: Value)
    requires WellMade(v)
    ensures AllFit(Accept(v)) && BuildAll(stack, Accept(v)) == stack + [Rebuilt(v)]
    decreases v, 1
  {
    hide FromNumber, NumberOf, FromDouble, Build, BuildAll, RebuiltAll, RebuiltMembers;
    match v
    case ArrayValue(es) => RebuildArray(stack, es);
    case ObjectValue(ms) => RebuildObject(stack, ms);
    case AnyNumber =>
      BuildOne(stack, NumberEvent(Double(0.0)));
      BuildNumber(stack, Double(0.0));
      ZeroDouble();
    case NumberValue(_, _) =>
      var n: Number :| InRange(n) && v == FromNumber(n);
      NumberRebuilt(n);
      BuildOne(stack, NumberEvent(NumberOf(v)));
      BuildNumber(stack, NumberOf(v));
    case _ =>
      BuildOne(stack, Accept(v)[0]);
      BuildScalar(stack, v);
  }

  lemma BuildNumber(stack: seq<Value>, n: Number)
    requires InRange(n)
    ensures Build(stack, NumberEvent(n)) == stack + [FromNumber(n)]
  {
    hide FromNumber;
  }

  lemma ZeroDouble()
    ensures FromNumber(Double(0.0)) == FromDouble(0.0)
  {
  }

  lemma BuildScalar(stack: seq<Value>, v: Value)
    requires v.NullValue? || v.BoolValue? || v.StringValue?
    ensures Accept(v) == [Accept(v)[0]] && Build(stack, Accept(v)[0]) == stack + [v] && Rebuilt(v) == v
  {
  }

  lemma BuildBracket(stack: seq<Value>, open: Event, inner: seq<Event>, close: Event, container: Value,
                    built: seq<Value>)
    requires Fits(open) && AllFit(inner) && Fits(close)
    requires Build(stack, open) == stack + [container]
    requires BuildAll(stack + [container], inner) == stack + [container] + built
    ensures AllFit([open] + inner + [close])
    ensures BuildAll(stack, [open] + inner + [close]) == Build(stack + [container] + built, close)
  {
    hide Build, BuildAll;
    BuildAppend(stack, [open] + inner, [close]);
    BuildAppend(stack, [open], inner);
    BuildOne(stack, open);
    BuildOne(stack + [container] + built, close);
  }

  lemma CollectBuilt(stack: seq<Value>, container: Value, built: seq<Value>, isObject: bool)
    requires isObject ==> |built| % 2 == 0
    ensures Collect(stack + [container] + built, |built|, isObject)
            == stack + [if isObject then ObjectValue(Paired(built)) else ArrayValue(built)]
  {
    hide Paired;
    var all := stack + [container] + built;
    assert all[..|stack|] == stack && all[|stack| + 1..] == built;
  }

  lemma {:induction false} RebuildArray(stack: seq<Value>, es: seq<Value>)
    requires WellMade(ArrayValue(es))
    ensures AllFit(Accept(ArrayValue(es)))
    ensures BuildAll(stack, Accept(ArrayValue(es))) == stack + [Rebuilt(ArrayValue(es))]
    decreases es, 2
  {
    hide BuildAll, RebuiltAll, AnnouncedAll, Collect, ElementEvents;
    var container := ArrayValue([]);
    RebuildElements(stack + [container], es);
    BuildBracket(stack, StartArray, ElementEvents(AnnouncedAll(es)), EndArray(|es|), container, RebuiltAll(es));
    CollectBuilt(stack, container, RebuiltAll(es), false);
  }

  lemma {:induction false} RebuildElements(stack: seq<Value>, es: seq<Value>)
    requires forall i :: 0 <= i < |es| ==> WellMade(es[i])
    ensures AllFit(ElementEvents(AnnouncedAll(es)))
    ensures BuildAll(stack, ElementEvents(AnnouncedAll(es))) == stack + RebuiltAll(es)
    decreases es, 0
  {
    hide Build, BuildAll, WellMade, Announced, Rebuilt, Events;
    if es == [] {
      BuildNothing(stack);
    } else {
      var first, more := Accept(es[0]), ElementEvents(AnnouncedAll(es[1..]));
      var pushed := stack + [Rebuilt(es[0])];
      RebuildValue(stack, es[0]);
      RebuildElements(pushed, es[1..]);
      BuildAppend(stack, first, more);
      assert ElementEvents(AnnouncedAll(es)) == first + more;
      assert stack + RebuiltAll(es) == pushed + RebuiltAll(es[1..]);
    }
  }

  lemma {:induction false} RebuildObject(stack: seq<Value>, ms: seq<ValueMember>)
    requires WellMade(ObjectValue(ms))
    ensures AllFit(Accept(ObjectValue(ms)))
    ensures BuildAll(stack, Accept(ObjectValue(ms))) == stack + [Rebuilt(ObjectValue(ms))]
    decreases ms, 2
  {
    hide BuildAll, RebuiltMembers, AnnouncedMembers, Collect, MemberEvents, Paired, Flat;
    var container := ObjectValue([]);
    RebuildMembers(stack + [container], ms);
    BuildBracket(stack, StartObject, MemberEvents(AnnouncedMembers(ms)), EndObject(|ms|), container,
                 Flat(RebuiltMembers(ms)));
    CollectBuilt(stack, container, Flat(RebuiltMembers(ms)), true);
    PairedFlat(RebuiltMembers(ms));
  }

  /** Members as they lie on the stack. */
  function Flat(ms: seq<ValueMember>): (vs: seq<Value>)
    ensures |vs| == 2 * |ms|
  {
    if ms == [] then [] else [StringValue(ms[0].name), ms[0].value] + Flat(ms[1..])
  }

  lemma {:induction false} FlatAt(ms: seq<ValueMember>, i: nat)
    requires i < |ms|
    ensures Flat(ms)[2 * i] == StringValue(ms[i].name) && Flat(ms)[2 * i + 1] == ms[i].value
  {
    if i > 0 {
      FlatAt(ms[1..], i - 1);
      assert Flat(ms)[2 * i] == Flat(ms[1..])[2 * (i - 1)];
      assert Flat(ms)[2 * i + 1] == Flat(ms[1..])[2 * (i - 1) + 1];
    }
  }

  lemma PairedFlat(ms: seq<ValueMember>)
    ensures Paired(Flat(ms)) == ms
  {
    hide Flat;
    forall i | 0 <= i < |ms| ensures Paired(Flat(ms))[i] == ms[i] {
      FlatAt(ms, i);
    }
  }

  lemma {:induction false} RebuildMembers(stack: seq<Value>, ms: seq<ValueMember>)
    requires forall i :: 0 <= i < |ms| ==> WellMade(ms[i].value)
    ensures AllFit(MemberEvents(AnnouncedMembers(ms)))
    ensures BuildAll(stack, MemberEvents(AnnouncedMembers(ms))) == stack + Flat(RebuiltMembers(ms))
    decreases ms, 0
  {
    hide Build, BuildAll, WellMade, Announced, Rebuilt, Events;
    if ms == [] {
      BuildNothing(stack);
    } else {
      var name, value, more := [Key(ms[0].name)], Accept(ms[0].value), MemberEvents(AnnouncedMembers(ms[1..]));
      var named := stack + [StringValue(ms[0].name)];
      BuildOne(stack, name[0]);
      BuildName(stack, ms[0].name);
      RebuildValue(named, ms[0].value);
      RebuildMembers(named + [Rebuilt(ms[0].value)], ms[1..]);
      BuildAppend(stack, name, value);
      BuildAppend(stack, name + value, more);
      assert MemberEvents(AnnouncedMembers(ms)) == name + value + more;
      assert stack + Flat(RebuiltMembers(ms)) == named + [Rebuilt(ms[0].value)] + Flat(RebuiltMembers(ms[1..]));
    }
  }

  lemma BuildNothing(stack: seq<Value>)
    ensures BuildAll(stack, []) == stack
    ensures MemberEvents(AnnouncedMembers([])) == [] && Flat(RebuiltMembers([])) == []
    ensures ElementEvents(AnnouncedAll([])) == [] && RebuiltAll([]) == []
  {
  }

  lemma BuildName(stack: seq<Value>, name: string)
    ensures Build(stack, Key(name)) == stack + [StringValue(name)]
  {
  }

  /** The rebuilt value is the original exactly when no part of it is an `AnyNumber`. */
  lemma {:induction false} RebuiltIsSame(v: Value)
    ensures Rebuilt(v) == v <==> !HasAnyNumber(v)
    decreases v, 1
  {
    match v
    case ArrayValue(es) =>
      RebuiltAllAt(es);
      forall i | 0 <= i < |es| ensures Rebuilt(es[i]) == es[i] <==> !HasAnyNumber(es[i]) {
        RebuiltIsSame(es[i]);
      }
      SameElements(es);
    case ObjectValue(ms) =>
      RebuiltMembersAt(ms);
      forall i | 0 <= i < |ms| ensures Rebuilt(ms[i].value) == ms[i].value <==> !HasAnyNumber(ms[i].value) {
        RebuiltIsSame(ms[i].value);
      }
      SameMembers(ms);
    case _ =>
  }

  lemma SameElements(es: seq<Value>)
    requires forall i :: 0 <= i < |es| ==> RebuiltAll(es)[i] == Rebuilt(es[i])
    ensures RebuiltAll(es) == es <==> forall i :: 0 <= i < |es| ==> Rebuilt(es[i]) == es[i]
  {
    hide Rebuilt, RebuiltAll;
    if forall i :: 0 <= i < |es| ==> Rebuilt(es[i]) == es[i] {
      assert RebuiltAll(es) == es;
    }
  }

  lemma SameMembers(ms: seq<ValueMember>)
    requires forall i :: 0 <= i < |ms| ==> RebuiltMembers(ms)[i] == Member(ms[i].name, Rebuilt(ms[i].value))
    ensures RebuiltMembers(ms) == ms <==> forall i :: 0 <= i < |ms| ==> Rebuilt(ms[i].value) == ms[i].value
  {
    hide Rebuilt, RebuiltMembers;
    if forall i :: 0 <= i < |ms| ==> Rebuilt(ms[i].value) == ms[i].value {
      assert RebuiltMembers(ms) == ms;
    }
  }

  lemma {:induction false} RebuiltAllAt(es: seq<Value>)
    ensures forall i :: 0 <= i < |es| ==> RebuiltAll(es)[i] == Rebuilt(es[i])
  {
    hide Rebuilt;
    if es != [] {
      RebuiltAllAt(es[1..]);
    }
  }

  lemma {:induction false} RebuiltMembersAt(ms: seq<ValueMember>)
    ensures forall i :: 0 <= i < |ms| ==> RebuiltMembers(ms)[i] == Member(ms[i].name, Rebuilt(ms[i].value))
  {
    hide Rebuilt;
    if ms != [] {
      RebuiltMembersAt(ms[1..]);
    }
  }

  /** `Accept` into a document turns its stack into itself followed by a value identical to the original, unless
      that holds a number made from the bare type. */
  lemma AcceptRebuilds(stack: seq<Value>, v: Value)
    requires WellMade(v)
    ensures AllFit(Accept(v))
    ensures BuildAll(stack, Accept(v)) == stack + [v] <==> !HasAnyNumber(v)
  {
    hide Rebuilt, HasAnyNumber, WellMade, BuildAll, Accept;
    RebuildValue(stack, v);
    RebuiltIsSame(v);
    var a, b := stack + [Rebuilt(v)], stack + [v];
    assert a[|stack|] == Rebuilt(v) && b[|stack|] == v;
  }

  // ---------------------------------------------------------------------------------------------
  // The document as a handler
  // ---------------------------------------------------------------------------------------------

  class GenericDocument {
    var stack: seq<Value>

    constructor ()
      ensures stack == []
    {
      stack := [];
    }

    /** `Null`, `Bool`, the numbers, `String` and `Key` */
    method Push(v: Value)
      modifies this
      ensures stack == old(stack) + [v]
    {
      stack := stack + [v];
    }

    method Handle(e: Event)
      requires Fits(e)
      requires e.EndObject? ==> |stack| > 2 * e.memberCount
      requires e.EndArray? ==> |stack| > e.elementCount
      modifies this
      ensures stack == Build(old(stack), e)
    {
      hide FromNumber, Paired;
      match e
      case NullEvent => Push(NullValue);
      case BoolEvent(b) => Push(BoolValue(b));
      case NumberEvent(n) => Push(FromNumber(n));
      case StringEvent(s) => Push(StringValue(s));
      case Key(s) => Push(StringValue(s));
      case StartObject => Push(ObjectValue([]));
      case StartArray => Push(ArrayValue([]));
      case EndObject(memberCount) =>
        var members := stack[|stack| - 2 * memberCount..];
        stack := stack[..|stack| - 2 * memberCount];
        stack := stack[|stack| - 1 := ObjectValue(Paired(members))];
        assert stack == old(stack)[..|stack| - 1] + [ObjectValue(Paired(members))];
      case EndArray(elementCount) =>
        var elements := stack[|stack| - elementCount..];
        stack := stack[..|stack| - elementCount];
        stack := stack[|stack| - 1 := ArrayValue(elements)];
        assert stack == old(stack)[..|stack| - 1] + [ArrayValue(elements)];
    }
  }

  // ---------------------------------------------------------------------------------------------
  // Growing arrays
  // ---------------------------------------------------------------------------------------------

  /** The elements of an array under `PushBack` (the members of an object grow in the same way). */
  class ArrayData {
    var elements: array<Value>
    var size: nat
    /** How many elements were copied by growing. */
    ghost var copied: nat

    /** Growing by half keeps the copies in proportion to the elements. */
    ghost predicate Valid()
      reads this
    {
      && size <= elements.Length && copied <= 3 * size && copied <= 2 * elements.Length
      && (copied > 0 ==> 2 * elements.Length <= 3 * size)
    }

    function Contents(): seq<Value>
      requires size <= elements.Length
      reads this, elements
    {
      elements[..size]
    }

    constructor ()
      ensures Valid() && Contents() == [] && copied == 0 && fresh(elements)
    {
      elements := new Value[0];
      size := 0;
      copied := 0;
    }

    method Reserve(newCapacity: nat)
      requires size <= elements.Length
      modifies this`elements, this`copied
      ensures size <= elements.Length && Contents() == old(Contents())
      ensures if newCapacity > old(elements).Length
              then fresh(elements) && elements.Length == newCapacity && copied == old(copied) + size
              else elements == old(elements) && copied == old(copied)
    {
      if newCapacity > elements.Length {
        var bigger := new Value[newCapacity];
        for i := 0 to size
          invariant bigger[..i] == elements[..i]
          modifies bigger
        {
          bigger[i] := elements[i];
        }
        elements := bigger;
        copied := copied + size;
      }
    }

    /** `PushBack` appends, in amortised constant time: in any run at most three copies for each element. */
    method PushBack(v: Value)
      requires Valid()
      modifies this, elements
      ensures Valid() && Contents() == old(Contents()) + [v]
      ensures elements == old(elements) || fresh(elements)
      ensures var c := old(elements.Length);
              elements.Length == if old(size) < c then c else if c == 0 then 16 else c + (c + 1) / 2
    {
      var capacity := elements.Length;
      if size >= capacity {
        Reserve(if capacity == 0 then 16 else capacity + (capacity + 1) / 2);
      }
      elements[size] := v;
      size := size + 1;
      assert elements[..size] == elements[..size - 1] + [v];
    }
  }

  // ---------------------------------------------------------------------------------------------
  // Equality
  // ---------------------------------------------------------------------------------------------

  /** `operator==`; `widen` stands for the conversion of an integer to a double. */
  predicate Equal(widen: int -> real, a: Value, b: Value)
    decreases a
  {
    match (a, b)
    case (NullValue, NullValue) => true
    case (BoolValue(x), BoolValue(y)) => x == y
    case (StringValue(x), StringValue(y)) => x == y
    case (ArrayValue(xs), ArrayValue(ys)) => |xs| == |ys| && forall i :: 0 <= i < |xs| ==> Equal(widen, xs[i], ys[i])
    case (ObjectValue(ms), ObjectValue(ns)) =>
      |ms| == |ns| && forall i :: 0 <= i < |ms| ==>
        var j := FindMember(ns, ms[i].name);
        j < |ns| && Equal(widen, ms[i].value, ns[j].value)
    case (_, _) => IsNumber(a) && IsNumber(b) && NumbersEqual(widen, a, b)
  }

  predicate IsNumber(v: Value) {
    v.AnyNumber? || v.NumberValue?
  }

  predicate IsDouble(v: Value)
    requires IsNumber(v)
  {
    v.AnyNumber? || v.flags.isDouble || v.data.Real?
  }

  /** `GetDouble` */
  function AsDouble(widen: int -> real, v: Value): real
    requires IsNumber(v)
  {
    if v.AnyNumber? then 0.0
    else match NumberOf(v)
         case Double(d) => d
         case n => widen(n.i)
  }

  /** Integers are compared as 64-bit patterns. */
  predicate NumbersEqual(widen: int -> real, a: Value, b: Value)
    requires IsNumber(a) && IsNumber(b)
  {
    if IsDouble(a) || IsDouble(b) then AsDouble(widen, a) == AsDouble(widen, b)
    else a.data.pattern == b.data.pattern
  }

  /** No object in the value has two members of one name, and no number in it is a double. */
  predicate Plain(v: Value)
    decreases v
  {
    match v
    case ArrayValue(es) => forall i :: 0 <= i < |es| ==> Plain(es[i])
    case ObjectValue(ms) => NoDuplicates(ms) && forall i :: 0 <= i < |ms| ==> Plain(ms[i].value)
    case _ => !(IsNumber(v) && IsDouble(v))
  }

  predicate NoDuplicates(ms: seq<ValueMember>) {
    forall i, j :: 0 <= i < j < |ms| ==> ms[i].name != ms[j].name
  }

  lemma FindUnique(ms: seq<ValueMember>, i: nat)
    requires NoDuplicates(ms) && i < |ms|
    ensures FindMember(ms, ms[i].name) == i
  {
    hide FindMember;
    var j := FindMember(ms, ms[i].name);
  }

  lemma {:induction false} Reflexive(widen: int -> real, v: Value)
    requires Plain(v)
    ensures Equal(widen, v, v)
    decreases v
  {
    hide FindMember;
    match v
    case ArrayValue(es) =>
      forall i | 0 <= i < |es| ensures Equal(widen, es[i], es[i]) {
        Reflexive(widen, es[i]);
      }
    case ObjectValue(ms) =>
      forall i | 0 <= i < |ms|
        ensures FindMember(ms, ms[i].name) == i && Equal(widen, ms[i].value, ms[i].value)
      {
        FindUnique(ms, i);
        Reflexive(widen, ms[i].value);
      }
    case _ =>
  }

  /** The positions at which the members of `ms` are found in `ns`. */
  function Positions(ms: seq<ValueMember>, ns: seq<ValueMember>): (p: seq<nat>)
    ensures |p| == |ms| && forall i :: 0 <= i < |ms| ==> p[i] == FindMember(ns, ms[i].name)
  {
    seq(|ms|, i requires 0 <= i < |ms| => FindMember(ns, ms[i].name))
  }

  lemma {:induction false} Symmetric(widen: int -> real, a: Value, b: Value)
    requires Plain(a) && Plain(b) && Equal(widen, a, b)
    ensures Equal(widen, b, a)
    decreases a
  {
    match (a, b)
    case (ArrayValue(xs), ArrayValue(ys)) =>
      forall i | 0 <= i < |xs| ensures Equal(widen, ys[i], xs[i]) {
        Symmetric(widen, xs[i], ys[i]);
      }
    case (ObjectValue(ms), ObjectValue(ns)) =>
      forall k | 0 <= k < |ns|
        ensures FindMember(ms, ns[k].name) < |ms| && Equal(widen, ns[k].value, ms[FindMember(ms, ns[k].name)].value)
      {
        hide Equal, FindMember;
        var i := NameIsShared(ms, ns, k) by { MembersFound(widen, ms, ns); }
        FindUnique(ms, i);
        FindUnique(ns, k);
        MemberEqual(widen, ms, ns, i);
        Symmetric(widen, ms[i].value, ns[k].value);
      }
    case _ =>
  }

  lemma MembersFound(widen: int -> real, ms: seq<ValueMember>, ns: seq<ValueMember>)
    requires Equal(widen, ObjectValue(ms), ObjectValue(ns))
    ensures |ms| == |ns| && forall i :: 0 <= i < |ms| ==> FindMember(ns, ms[i].name) < |ns|
  {
    hide FindMember;
  }

  lemma MemberEqual(widen: int -> real, ms: seq<ValueMember>, ns: seq<ValueMember>, i: nat)
    requires Equal(widen, ObjectValue(ms), ObjectValue(ns)) && i < |ms|
    ensures var j := FindMember(ns, ms[i].name); j < |ns| && Equal(widen, ms[i].value, ns[j].value)
  {
    hide FindMember;
  }

  /** Equally many different names, all found in the other object: each of its names is found in turn. */
  lemma NameIsShared(ms: seq<ValueMember>, ns: seq<ValueMember>, k: nat) returns (i: nat)
    requires NoDuplicates(ms) && NoDuplicates(ns) && |ms| == |ns| && k < |ns|
    requires forall i :: 0 <= i < |ms| ==> FindMember(ns, ms[i].name) < |ns|
    ensures i < |ms| && ms[i].name == ns[k].name
  {
    hide FindMember;
    var p := Positions(ms, ns);
    i := PermutationReaches(p, |ns|, k);
  }

  lemma {:induction false} Transitive(widen: int -> real, a: Value, b: Value, c: Value)
    requires Plain(a) && Plain(b) && Plain(c) && Equal(widen, a, b) && Equal(widen, b, c)
    ensures Equal(widen, a, c)
    decreases a
  {
    hide FindMember;
    match (a, b, c)
    case (ArrayValue(xs), ArrayValue(ys), ArrayValue(zs)) =>
      forall i | 0 <= i < |xs| ensures Equal(widen, xs[i], zs[i]) {
        Transitive(widen, xs[i], ys[i], zs[i]);
      }
    case (ObjectValue(ms), ObjectValue(ns), ObjectValue(os)) =>
      forall i | 0 <= i < |ms|
        ensures FindMember(os, ms[i].name) < |os| && Equal(widen, ms[i].value, os[FindMember(os, ms[i].name)].value)
      {
        var j := FindMember(ns, ms[i].name);
        var k := FindMember(os, ns[j].name);
        Transitive(widen, ms[i].value, ns[j].value, os[k].value);
      }
    case _ =>
  }

  // ---------------------------------------------------------------------------------------------
  // Repeated names
  // ---------------------------------------------------------------------------------------------

  predicate AllPlain(ms: seq<ValueMember>) {
    forall i :: 0 <= i < |ms| ==> Plain(ms[i].value)
  }

  /** Two members of one name have different values. */
  predicate Contradictory(widen: int -> real, ms: seq<ValueMember>) {
    exists i, j :: 0 <= i < j < |ms| && ms[i].name == ms[j].name && !Equal(widen, ms[i].value, ms[j].value)
  }

  /** Some value equals the values of all members of that name. */
  ghost predicate HaveCommon(widen: int -> real, ms: seq<ValueMember>, name: string) {
    exists w: Value :: AllEqual(widen, ms, name, w)
  }

  predicate AllEqual(widen: int -> real, ms: seq<ValueMember>, name: string, w: Value) {
    forall i :: 0 <= i < |ms| && ms[i].name == name ==> Equal(widen, ms[i].value, w)
  }

  lemma EqualIsCommon(widen: int -> real, ms: seq<ValueMember>, ns: seq<ValueMember>, name: string)
    requires Equal(widen, ObjectValue(ms), ObjectValue(ns))
    ensures HaveCommon(widen, ms, name)
  {
    hide Equal, FindMember;
    var j := FindMember(ns, name);
    var w := if j < |ns| then ns[j].value else NullValue;
    forall i | 0 <= i < |ms| && ms[i].name == name ensures Equal(widen, ms[i].value, w) {
      MemberEqual(widen, ms, ns, i);
    }
    assert AllEqual(widen, ms, name, w);
  }

  /** An object equals some other object exactly when for each of its names the values of that name all equal one
      value. */
  lemma EqualToSome(widen: int -> real, ms: seq<ValueMember>)
    ensures (exists ns :: Equal(widen, ObjectValue(ms), ObjectValue(ns)))
            <==> forall i :: 0 <= i < |ms| ==> HaveCommon(widen, ms, ms[i].name)
  {
    hide Equal, HaveCommon;
    if ns :| Equal(widen, ObjectValue(ms), ObjectValue(ns)) {
      forall i | 0 <= i < |ms| ensures HaveCommon(widen, ms, ms[i].name) {
        EqualIsCommon(widen, ms, ns, ms[i].name);
      }
    }
    if forall i :: 0 <= i < |ms| ==> HaveCommon(widen, ms, ms[i].name) {
      EqualToCommon(widen, ms);
    }
  }

  lemma EqualToCommon(widen: int -> real, ms: seq<ValueMember>)
    requires forall i :: 0 <= i < |ms| ==> HaveCommon(widen, ms, ms[i].name)
    ensures Equal(widen, ObjectValue(ms), ObjectValue(Commons(widen, ms)))
  {
    hide FindMember;
    var ns := Commons(widen, ms);
    forall i | 0 <= i < |ms|
      ensures var j := FindMember(ns, ms[i].name); j < |ns| && Equal(widen, ms[i].value, ns[j].value)
    {
      assert ns[i].name == ms[i].name;
    }
  }

  ghost function Common(widen: int -> real, ms: seq<ValueMember>, name: string): (w: Value)
    requires HaveCommon(widen, ms, name)
    ensures AllEqual(widen, ms, name, w)
  {
    var w: Value :| AllEqual(widen, ms, name, w); w
  }

  /** For each member one of its name whose value is common to that name. */
  ghost function Commons(widen: int -> real, ms: seq<ValueMember>): (ns: seq<ValueMember>)
    requires forall i :: 0 <= i < |ms| ==> HaveCommon(widen, ms, ms[i].name)
    ensures |ns| == |ms|
    ensures forall i :: 0 <= i < |ms| ==> ns[i].name == ms[i].name && AllEqual(widen, ms, ms[i].name, ns[i].value)
  {
    seq(|ms|, i requires 0 <= i < |ms| => Member(ms[i].name, Common(widen, ms, ms[i].name)))
  }

  /** The documented property, that an object with a repeated name equals none, holds of an object exactly when two of
      its members have one name and different values. */
  lemma DuplicatesDiffer(widen: int -> real, ms: seq<ValueMember>)
    requires AllPlain(ms)
    ensures (forall ns :: AllPlain(ns) ==> !Equal(widen, ObjectValue(ms), ObjectValue(ns))) <==>
              Contradictory(widen, ms)
  {
    hide Equal, FindMember, Plain;
    if i, j :| 0 <= i < j < |ms| && ms[i].name == ms[j].name && !Equal(widen, ms[i].value, ms[j].value) {
      forall ns | AllPlain(ns) ensures !Equal(widen, ObjectValue(ms), ObjectValue(ns)) {
        if Equal(widen, ObjectValue(ms), ObjectValue(ns)) {
          EqualThroughOther(widen, ms, ns, i, j);
        }
      }
    } else {
      EqualToItself(widen, ms);
    }
  }

  /** Members of one name that equal the same member of another object equal one another. */
  lemma EqualThroughOther(widen: int -> real, ms: seq<ValueMember>, ns: seq<ValueMember>, i: nat, j: nat)
    requires AllPlain(ms) && AllPlain(ns) && Equal(widen, ObjectValue(ms), ObjectValue(ns))
    requires i < |ms| && j < |ms| && ms[i].name == ms[j].name
    ensures Equal(widen, ms[i].value, ms[j].value)
  {
    hide Equal, FindMember, Plain;
    MemberEqual(widen, ms, ns, i);
    MemberEqual(widen, ms, ns, j);
    var k := FindMember(ns, ms[i].name);
    Symmetric(widen, ms[j].value, ns[k].value);
    Transitive(widen, ms[i].value, ns[k].value, ms[j].value);
  }

  /** Without such members an object equals itself, whether names are repeated or not. */
  lemma EqualToItself(widen: int -> real, ms: seq<ValueMember>)
    requires AllPlain(ms) && !Contradictory(widen, ms)
    ensures Equal(widen, ObjectValue(ms), ObjectValue(ms))
  {
    hide FindMember, Plain;
    forall i | 0 <= i < |ms|
      ensures var j := FindMember(ms, ms[i].name); j < |ms| && Equal(widen, ms[i].value, ms[j].value)
    {
      hide Equal;
      var j := FindMember(ms, ms[i].name);
      Reflexive(widen, ms[i].value);
      if j < i {
        Symmetric(widen, ms[j].value, ms[i].value);
      }
    }
  }

  /** On the right a repeated name always does what is documented: an object without one equals no object with one. */
  lemma DuplicatesOnTheRight(widen: int -> real, ms: seq<ValueMember>, ns: seq<ValueMember>)
    requires NoDuplicates(ms) && !NoDuplicates(ns)
    ensures !Equal(widen, ObjectValue(ms), ObjectValue(ns))
  {
    hide Equal, FindMember;
    if Equal(widen, ObjectValue(ms), ObjectValue(ns)) {
      MembersFound(widen, ms, ns);
      var j, k :| 0 <= j < k < |ns| && ns[j].name == ns[k].name;
      var p := Positions(ms, ns);
      var i := PermutationReaches(p, |ns|, k);
    }
  }

  /** The order of the operands matters: of two objects of which the first equals the second, the second equals the
      first exactly when it does not contradict itself and brings no name of its own. */
  lemma OrderMatters(widen: int -> real, ms: seq<ValueMember>, ns: seq<ValueMember>)
    requires AllPlain(ms) && AllPlain(ns) && Equal(widen, ObjectValue(ms), ObjectValue(ns))
    ensures Equal(widen, ObjectValue(ns), ObjectValue(ms))
            <==> !Contradictory(widen, ns) && forall k :: 0 <= k < |ns| ==> FindMember(ms, ns[k].name) < |ms|
  {
    hide Equal, FindMember, Plain;
    if Equal(widen, ObjectValue(ns), ObjectValue(ms)) {
      MembersFound(widen, ns, ms);
      forall j, k | 0 <= j < k < |ns| && ns[j].name == ns[k].name ensures Equal(widen, ns[j].value, ns[k].value) {
        EqualThroughOther(widen, ns, ms, j, k);
      }
    } else if !Contradictory(widen, ns) && forall k :: 0 <= k < |ns| ==> FindMember(ms, ns[k].name) < |ms| {
      EqualBack(widen, ms, ns);
    }
  }

  lemma EqualBack(widen: int -> real, ms: seq<ValueMember>, ns: seq<ValueMember>)
    requires AllPlain(ms) && AllPlain(ns) && Equal(widen, ObjectValue(ms), ObjectValue(ns))
    requires !Contradictory(widen, ns) && forall k :: 0 <= k < |ns| ==> FindMember(ms, ns[k].name) < |ms|
    ensures Equal(widen, ObjectValue(ns), ObjectValue(ms))
  {
    hide FindMember, Plain;
    MembersFound(widen, ms, ns);
    EqualToItself(widen, ns);
    forall k | 0 <= k < |ns|
      ensures var i := FindMember(ms, ns[k].name); i < |ms| && Equal(widen, ns[k].value, ms[i].value)
    {
      hide Equal;
      var i := FindMember(ms, ns[k].name);
      MemberEqual(widen, ms, ns, i);
      MemberEqual(widen, ns, ns, k);
      var j := FindMember(ns, ns[k].name);
      Symmetric(widen, ms[i].value, ns[j].value);
      Transitive(widen, ns[k].value, ns[j].value, ms[i].value);
    }
  }

  /** Instances: an object that differs from itself, one that equals itself although it repeats a name, and one that
      equals another but not the other way round. */
  lemma RepeatedNames(widen: int -> real)
    ensures var a, b := Member("a", NullValue), Member("a", BoolValue(true));
            && !Equal(widen, ObjectValue([a, b]), ObjectValue([a, b]))
            && Equal(widen, ObjectValue([a, a]), ObjectValue([a, a]))
            && Equal(widen, ObjectValue([a, a]), ObjectValue([a, b]))
            && !Equal(widen, ObjectValue([a, b]), ObjectValue([a, a]))
  {
    var a, b := Member("a", NullValue), Member("a", BoolValue(true));
    assert FindMember([a, b], "a") == 0 && FindMember([a, a], "a") == 0;
    assert [a, b][1] == b && !Equal(widen, b.value, a.value);
  }

  /** Equality of whole numbers is equality modulo 2^64, so that -1 equals 18446744073709551615. */
  lemma IntegersModulo(widen: int -> real, m: Number, n: Number)
    requires InRange(m) && InRange(n) && !m.Double? && !n.Double?
    ensures Equal(widen, FromNumber(m), FromNumber(n)) <==> (m.i - n.i) % TWO64 == 0
  {
    hide FromNumber;
    PatternOf(m);
    PatternOf(n);
    PatternsModulo(m.i, n.i);
  }

  lemma PatternsModulo(a: int, b: int)
    requires -TWO63 <= a < TWO64 && -TWO63 <= b < TWO64
    ensures Pattern(a) == Pattern(b) <==> (a - b) % TWO64 == 0
  {
  }
}
