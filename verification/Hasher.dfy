/**
 `internal::Hasher` of 3rdparty/rapidjson/schema.h: a handler that keeps a stack of 64-bit codes,
 one per value in progress, so that compound values can be compared by code.
 */
module Hasher {
  import opened Bits
  import opened Json
  import opened Permutations

  type Word64 = w: Word | |w| == 64 witness Zeros(64)

  /** A `uint64_t` hash code. */
  datatype Code = Code(word: Word64)

  const ZERO := Code(Zeros(64))

  /** `a ^ b` */
  function Mix(a: Code, b: Code): Code {
    Code(Xor(a.word, b.word))
  }

  type Octet = b: nat | b < 256

  /** The bytes of a double; the representation belongs to the platform, not to this model. */
  type DoubleBytes = real -> seq<Octet>

  /** A number truncated to 64 bits. */
  function FromNumber(n: nat): Code {
    Code(FromNat(n, 64))
  }

  /** FNV-1a step */
  function Hash(h: Code, d: Code): Code {
    var x := Mix(h, d).word;
    // x * 0x100000001b3, the prime being 2^40 + 2^8 + 2^7 + 2^5 + 2^4 + 2 + 1
    Code(Add(Shl(x, 40), Add(Shl(x, 8), Add(Shl(x, 7), Add(Shl(x, 5), Add(Shl(x, 4), Add(Shl(x, 1), x)))))))
  }

  datatype Type = NullType | FalseType | TrueType | ObjectType | ArrayType | StringType | NumberType {
    function Tag(): Code {
      FromNumber(Number())
    }

    function Number(): nat {
      match this
      case NullType => 0
      case FalseType => 1
      case TrueType => 2
      case ObjectType => 3
      case ArrayType => 4
      case StringType => 5
      case NumberType => 6
    }
  }

  function HashBytes(h: Code, bytes: seq<Octet>): Code {
    if bytes == [] then h else Hash(HashBytes(h, bytes[..|bytes| - 1]), FromNumber(bytes[|bytes| - 1]))
  }

  /** The code of a scalar: offset basis, type tag, then its bytes. */
  function Scalar(t: Type, bytes: seq<Octet>): Code {
    HashBytes(Hash(FromNumber(0x84222325_cbf29ce4), t.Tag()), bytes)
  }

  function LittleEndian(n: nat, width: nat): (bytes: seq<Octet>)
    ensures |bytes| == width
  {
    if width == 0 then [] else [n % 256] + LittleEndian(n / 256, width - 1)
  }

  /** The 16 bytes of the `Number` struct: the integer as two's complement, then the double. */
  function NumberBytes(f: DoubleBytes, n: Number): seq<Octet> {
    match n
    case Double(d) => LittleEndian(Wrap(d.Floor + if d < 0.0 && d != d.Floor as real then 1 else 0), 8) + f(d)
    case _ => LittleEndian(Wrap(n.i), 8) + f(n.i as real)
  }

  function Wrap(i: int): nat {
    i % 0x1_0000_0000_0000_0000
  }

  function StringBytes(s: string): seq<Octet> {
    seq(|s|, i requires 0 <= i < |s| => s[i] as int % 256)
  }

  function ScalarCode(f: DoubleBytes, v: Json): Code
    requires IsScalar(v)
  {
    match v
    case Null => Scalar(NullType, [])
    case Bool(b) => Scalar(if b then TrueType else FalseType, [])
    case Num(n) => Scalar(NumberType, NumberBytes(f, n))
    case Str(s) => Scalar(StringType, StringBytes(s))
  }

  // ---------------------------------------------------------------------------------------------
  // The code of a tree
  // ---------------------------------------------------------------------------------------------

  /** Elements are chained, so their order matters. */
  function FoldElements(h: Code, codes: seq<Code>): Code {
    if codes == [] then h else Hash(FoldElements(h, codes[..|codes| - 1]), codes[|codes| - 1])
  }

  /** Members are combined by exclusive or, so their order does not matter. */
  function FoldMembers(h: Code, kv: seq<Code>): Code
    requires |kv| % 2 == 0
  {
    if kv == [] then h
    else Mix(FoldMembers(h, kv[..|kv| - 2]), Hash(kv[|kv| - 2], kv[|kv| - 1]))
  }

  function TreeCode(f: DoubleBytes, v: Json): Code
    decreases v, 1
  {
    match v
    case Arr(elements) => FoldElements(Hash(ZERO, ArrayType.Tag()), ElementCodes(f, elements))
    case Obj(members) => FoldMembers(Hash(ZERO, ObjectType.Tag()), MemberCodes(f, members))
    case _ => ScalarCode(f, v)
  }

  function ElementCodes(f: DoubleBytes, vs: seq<Json>): (codes: seq<Code>)
    ensures |codes| == |vs|
    decreases vs, 0
  {
    if vs == [] then [] else [TreeCode(f, vs[0])] + ElementCodes(f, vs[1..])
  }

  function MemberCodes(f: DoubleBytes, ms: seq<Member>): (codes: seq<Code>)
    ensures |codes| == 2 * |ms|
    decreases ms, 0
  {
    if ms == [] then []
    else [ScalarCode(f, Str(ms[0].name)), TreeCode(f, ms[0].value)] + MemberCodes(f, ms[1..])
  }

  // ---------------------------------------------------------------------------------------------
  // The streaming hasher
  // ---------------------------------------------------------------------------------------------

  function PopMembers(stack: seq<Code>, n: nat): seq<Code> {
    var k := |stack| - 2 * n;
    if k < 0 then stack else stack[..k] + [FoldMembers(Hash(ZERO, ObjectType.Tag()), stack[k..])]
  }

  function PopElements(stack: seq<Code>, n: nat): seq<Code> {
    var k := |stack| - n;
    if k < 0 then stack else stack[..k] + [FoldElements(Hash(ZERO, ArrayType.Tag()), stack[k..])]
  }

  /** One event on the stack of codes. An end event whose count exceeds the stack is a misuse of the
      handler; the code would pop below the bottom, here the event is ignored. */
  function HashEvent(f: DoubleBytes, stack: seq<Code>, e: Event): seq<Code> {
    match e
    case NullEvent => stack + [ScalarCode(f, Null)]
    case BoolEvent(b) => stack + [ScalarCode(f, Bool(b))]
    case NumberEvent(n) => stack + [ScalarCode(f, Num(n))]
    case StringEvent(s) => stack + [ScalarCode(f, Str(s))]
    case Key(s) => stack + [ScalarCode(f, Str(s))]
    case StartObject => stack
    case StartArray => stack
    case EndObject(n) => PopMembers(stack, n)
    case EndArray(n) => PopElements(stack, n)
  }

  function HashEvents(f: DoubleBytes, stack: seq<Code>, es: seq<Event>): seq<Code>
    decreases |es|
  {
    if es == [] then stack else HashEvents(f, HashEvent(f, stack, es[0]), es[1..])
  }

  lemma {:induction false} HashAppend(f: DoubleBytes, stack: seq<Code>, a: seq<Event>, b: seq<Event>)
    ensures HashEvents(f, stack, a + b) == HashEvents(f, HashEvents(f, stack, a), b)
    decreases |a|
  {
    hide HashEvent;
    if a == [] {
      assert a + b == b;
    } else {
      assert (a + b)[1..] == a[1..] + b;
      HashAppend(f, HashEvent(f, stack, a[0]), a[1..], b);
    }
  }

  /** Hashing the events of a value pushes exactly one code, the code of the tree. */
  lemma {:induction false} HashValue(f: DoubleBytes, stack: seq<Code>, v: Json)
    ensures HashEvents(f, stack, Events(v)) == stack + [TreeCode(f, v)]
    decreases v, 1
  {
    hide Hash, ScalarCode, FoldElements, FoldMembers, HashEvent, HashEvents, PopElements, PopMembers;
    match v
    case Arr(elements) =>
      var codes := ElementCodes(f, elements);
      HashElements(f, stack, elements);
      HashBracket(f, stack, StartArray, ElementEvents(elements), codes, EndArray(|elements|));
      HashEnds(f, stack + codes, |elements|);
      PopElementsPushed(stack, codes);
    case Obj(members) =>
      var codes := MemberCodes(f, members);
      HashMembers(f, stack, members);
      HashBracket(f, stack, StartObject, MemberEvents(members), codes, EndObject(|members|));
      HashEnds(f, stack + codes, |members|);
      PopMembersPushed(stack, codes);
    case _ =>
      HashOne(f, stack, Events(v)[0]);
      HashScalar(f, stack, v);
  }

  lemma HashScalar(f: DoubleBytes, stack: seq<Code>, v: Json)
    requires IsScalar(v)
    ensures HashEvent(f, stack, Events(v)[0]) == stack + [ScalarCode(f, v)]
  {
    hide ScalarCode;
  }

  lemma HashEnds(f: DoubleBytes, stack: seq<Code>, n: nat)
    ensures HashEvent(f, stack, EndArray(n)) == PopElements(stack, n)
    ensures HashEvent(f, stack, EndObject(n)) == PopMembers(stack, n)
  {
    hide PopElements, PopMembers;
  }

  lemma PopElementsPushed(stack: seq<Code>, codes: seq<Code>)
    ensures PopElements(stack + codes, |codes|) == stack + [FoldElements(Hash(ZERO, ArrayType.Tag()), codes)]
  {
    hide FoldElements, Hash;
    var full := stack + codes;
    assert full[..|full| - |codes|] == stack && full[|full| - |codes|..] == codes;
  }

  lemma PopMembersPushed(stack: seq<Code>, codes: seq<Code>)
    requires |codes| % 2 == 0
    ensures PopMembers(stack + codes, |codes| / 2) == stack + [FoldMembers(Hash(ZERO, ObjectType.Tag()), codes)]
  {
    hide FoldMembers, Hash;
    var full := stack + codes;
    assert full[..|full| - |codes|] == stack && full[|full| - |codes|..] == codes;
  }

  /** A start event leaves the stack alone; the inner events push their codes; then the end event. */
  lemma HashBracket(f: DoubleBytes, stack: seq<Code>, open: Event, inner: seq<Event>, codes: seq<Code>, close: Event)
    requires open == StartObject || open == StartArray
    requires HashEvents(f, stack, inner) == stack + codes
    ensures HashEvents(f, stack, [open] + inner + [close]) == HashEvent(f, stack + codes, close)
  {
    HashOne(f, stack, open);
    assert HashEvent(f, stack, open) == stack;
    hide HashEvents, HashEvent;
    HashAppend(f, stack, [open] + inner, [close]);
    HashAppend(f, stack, [open], inner);
    HashOne(f, stack + codes, close);
  }

  lemma HashOne(f: DoubleBytes, stack: seq<Code>, e: Event)
    ensures HashEvents(f, stack, [e]) == HashEvent(f, stack, e)
  {
    assert [e][1..] == [];
  }

  lemma {:induction false} HashElements(f: DoubleBytes, stack: seq<Code>, vs: seq<Json>)
    ensures HashEvents(f, stack, ElementEvents(vs)) == stack + ElementCodes(f, vs)
    decreases vs, 0
  {
    hide HashEvent, TreeCode;
    if vs != [] {
      HashAppend(f, stack, Events(vs[0]), ElementEvents(vs[1..]));
      HashValue(f, stack, vs[0]);
      HashElements(f, stack + [TreeCode(f, vs[0])], vs[1..]);
    }
  }

  lemma {:induction false} HashMembers(f: DoubleBytes, stack: seq<Code>, ms: seq<Member>)
    ensures HashEvents(f, stack, MemberEvents(ms)) == stack + MemberCodes(f, ms)
    decreases ms, 0
  {
    hide TreeCode, ScalarCode;
    if ms != [] {
      var key, value, rest := [Key(ms[0].name)], Events(ms[0].value), MemberEvents(ms[1..]);
      HashAppend(f, stack, key + value, rest);
      HashAppend(f, stack, key, value);
      HashOne(f, stack, key[0]);
      var named := stack + [ScalarCode(f, Str(ms[0].name))];
      HashValue(f, named, ms[0].value);
      HashMembers(f, named + [TreeCode(f, ms[0].value)], ms[1..]);
    }
  }

  // ---------------------------------------------------------------------------------------------
  // Object-order independence
  // ---------------------------------------------------------------------------------------------

  /** `w` is `v` with the members of objects, at any depth, listed in another order. */
  ghost predicate Reordered(v: Json, w: Json)
    decreases v
  {
    match (v, w)
    case (Arr(vs), Arr(ws)) => |vs| == |ws| && forall i :: 0 <= i < |vs| ==> Reordered(vs[i], ws[i])
    case (Obj(ms), Obj(ns)) => exists p: seq<nat> :: Permutes(p, |ms|, |ns|) && Matched(ms, ns, p)
    case _ => v == w
  }

  /** Member `i` of `ms` went to position `p[i]` of `ns`. */
  ghost predicate Matched(ms: seq<Member>, ns: seq<Member>, p: seq<nat>)
    requires Permutes(p, |ms|, |ns|)
    decreases ms
  {
    forall i :: 0 <= i < |ms| ==> ms[i].name == ns[p[i]].name && Reordered(ms[i].value, ns[p[i]].value)
  }

  function MemberCode(f: DoubleBytes, m: Member): Code {
    Hash(ScalarCode(f, Str(m.name)), TreeCode(f, m.value))
  }

  function XorAll(h: Code, codes: seq<Code>): Code {
    if codes == [] then h else Mix(XorAll(h, codes[1..]), codes[0])
  }

  function PairCodes(f: DoubleBytes, ms: seq<Member>): (codes: seq<Code>)
    ensures |codes| == |ms| && forall i :: 0 <= i < |ms| ==> codes[i] == MemberCode(f, ms[i])
  {
    seq(|ms|, i requires 0 <= i < |ms| => MemberCode(f, ms[i]))
  }

  lemma MixSwap(a: Code, b: Code, c: Code)
    ensures Mix(Mix(a, b), c) == Mix(Mix(a, c), b)
  {
  }

  lemma {:induction false} FoldMembersPrepend(h: Code, k: Code, v: Code, kv: seq<Code>)
    requires |kv| % 2 == 0
    ensures FoldMembers(h, [k, v] + kv) == Mix(FoldMembers(h, kv), Hash(k, v))
  {
    hide Hash, Mix;
    var all := [k, v] + kv;
    if kv == [] {
      assert all[..0] == [];
    } else {
      var n := |kv|;
      FoldMembersPrepend(h, k, v, kv[..n - 2]);
      assert all[..|all| - 2] == [k, v] + kv[..n - 2];
      MixSwap(FoldMembers(h, kv[..n - 2]), Hash(k, v), Hash(kv[n - 2], kv[n - 1]));
    }
  }

  lemma {:induction false} FoldMembersIsXor(f: DoubleBytes, h: Code, ms: seq<Member>)
    ensures FoldMembers(h, MemberCodes(f, ms)) == XorAll(h, PairCodes(f, ms))
  {
    hide Hash, TreeCode, ScalarCode, FoldMembers, Mix;
    if ms == [] {
      FoldNoMembers(h);
    } else {
      FoldMembersPrepend(h, ScalarCode(f, Str(ms[0].name)), TreeCode(f, ms[0].value), MemberCodes(f, ms[1..]));
      FoldMembersIsXor(f, h, ms[1..]);
      assert PairCodes(f, ms)[1..] == PairCodes(f, ms[1..]);
    }
  }

  lemma FoldNoMembers(h: Code)
    ensures FoldMembers(h, []) == h
  {
  }

  /** Taking out the code at any position leaves the exclusive or of the others. */
  lemma {:induction false} XorTakeOut(h: Code, codes: seq<Code>, i: nat)
    requires i < |codes|
    ensures XorAll(h, codes) == Mix(XorAll(h, codes[..i] + codes[i + 1..]), codes[i])
  {
    hide Mix;
    if i == 0 {
      assert codes[..0] + codes[1..] == codes[1..];
    } else {
      var rest := codes[..i] + codes[i + 1..];
      XorTakeOut(h, codes[1..], i - 1);
      assert rest[1..] == codes[1..][..i - 1] + codes[1..][i..];
      MixSwap(XorAll(h, rest[1..]), codes[i], codes[0]);
    }
  }

  /** Equal up to a permutation means equal exclusive or. */
  lemma {:induction false} XorPermuted(h: Code, a: seq<Code>, b: seq<Code>, p: seq<nat>)
    requires Permutes(p, |a|, |b|)
    requires forall i :: 0 <= i < |a| ==> a[i] == b[p[i]]
    ensures XorAll(h, a) == XorAll(h, b)
    decreases |a|
  {
    hide Mix;
    if a != [] {
      var k := p[0];
      var rest := b[..k] + b[k + 1..];
      XorTakeOut(h, b, k);
      RenumberPermutes(p, |a|);
      forall i | 0 <= i < |a| - 1 ensures a[1..][i] == rest[Renumber(p)[i]] {
        assert p[0] != p[i + 1];
      }
      XorPermuted(h, a[1..], rest, Renumber(p));
    }
  }

  /** Trees that differ only in the order of object members have the same code. */
  lemma {:induction false} ReorderedCodes(f: DoubleBytes, v: Json, w: Json)
    requires Reordered(v, w)
    ensures TreeCode(f, v) == TreeCode(f, w)
    decreases v
  {
    match (v, w)
    case (Arr(vs), Arr(ws)) =>
      forall i | 0 <= i < |vs| ensures TreeCode(f, vs[i]) == TreeCode(f, ws[i]) {
        ReorderedCodes(f, vs[i], ws[i]);
      }
      ElementCodesAt(f, vs);
      ElementCodesAt(f, ws);
      assert ElementCodes(f, vs) == ElementCodes(f, ws);
    case (Obj(ms), Obj(ns)) =>
      var p: seq<nat> :| Permutes(p, |ms|, |ns|) && Matched(ms, ns, p);
      var a, b := PairCodes(f, ms), PairCodes(f, ns);
      forall i | 0 <= i < |ms| ensures a[i] == b[p[i]] {
        ReorderedCodes(f, ms[i].value, ns[p[i]].value);
      }
      hide Hash;
      var h := Hash(ZERO, ObjectType.Tag());
      XorPermuted(h, a, b, p);
      FoldMembersIsXor(f, h, ms);
      FoldMembersIsXor(f, h, ns);
    case _ =>
  }

  lemma {:induction false} ElementCodesAt(f: DoubleBytes, vs: seq<Json>)
    ensures forall i :: 0 <= i < |vs| ==> ElementCodes(f, vs)[i] == TreeCode(f, vs[i])
  {
    hide TreeCode;
    if vs != [] {
      ElementCodesAt(f, vs[1..]);
    }
  }

  // ---------------------------------------------------------------------------------------------
  // The handler object
  // ---------------------------------------------------------------------------------------------

  class Hasher {
    var stack: seq<Code>
    const doubleBytes: DoubleBytes

    constructor (f: DoubleBytes)
      ensures stack == [] && doubleBytes == f
    {
      stack := [];
      doubleBytes := f;
    }

    method WriteBuffer(t: Type, data: seq<Octet>)
      modifies this
      ensures stack == old(stack) + [Scalar(t, data)]
    {
      hide Hash, FromNumber;
      var h := Hash(FromNumber(0x84222325_cbf29ce4), t.Tag());
      for i := 0 to |data|
        invariant h == HashBytes(Hash(FromNumber(0x84222325_cbf29ce4), t.Tag()), data[..i])
      {
        assert data[..i + 1][..i] == data[..i];
        h := Hash(h, FromNumber(data[i]));
      }
      assert data[..|data|] == data;
      stack := stack + [h];
    }

    method Null()
      modifies this
      ensures stack == HashEvent(doubleBytes, old(stack), NullEvent)
    {
      hide Scalar;
      WriteBuffer(NullType, []);
    }

    method Bool(b: bool)
      modifies this
      ensures stack == HashEvent(doubleBytes, old(stack), BoolEvent(b))
    {
      hide Scalar;
      WriteBuffer(if b then TrueType else FalseType, []);
    }

    method WriteNumber(n: Number)
      modifies this
      ensures stack == HashEvent(doubleBytes, old(stack), NumberEvent(n))
    {
      hide Scalar, NumberBytes;
      WriteBuffer(NumberType, NumberBytes(doubleBytes, n));
    }

    method String(s: string)
      modifies this
      ensures stack == HashEvent(doubleBytes, old(stack), StringEvent(s))
    {
      hide Scalar, StringBytes;
      WriteBuffer(StringType, StringBytes(s));
    }

    method Key(s: string)
      modifies this
      ensures stack == HashEvent(doubleBytes, old(stack), Event.Key(s))
    {
      hide ScalarCode;
      String(s);
    }

    method EndObject(memberCount: nat)
      requires 2 * memberCount <= |stack|
      modifies this
      ensures stack == HashEvent(doubleBytes, old(stack), Event.EndObject(memberCount))
    {
      hide Hash, Mix;
      var h := Hash(ZERO, ObjectType.Tag());
      var kv := stack[|stack| - 2 * memberCount..];
      stack := stack[..|stack| - 2 * memberCount];
      for i := 0 to memberCount
        invariant h == FoldMembers(Hash(ZERO, ObjectType.Tag()), kv[..2 * i])
      {
        assert kv[..2 * (i + 1)][..2 * i] == kv[..2 * i];
        h := Mix(h, Hash(kv[i * 2], kv[i * 2 + 1]));
      }
      assert kv[..2 * memberCount] == kv;
      stack := stack + [h];
    }

    method EndArray(elementCount: nat)
      requires elementCount <= |stack|
      modifies this
      ensures stack == HashEvent(doubleBytes, old(stack), Event.EndArray(elementCount))
    {
      hide Hash;
      var h := Hash(ZERO, ArrayType.Tag());
      var e := stack[|stack| - elementCount..];
      stack := stack[..|stack| - elementCount];
      for i := 0 to elementCount
        invariant h == FoldElements(Hash(ZERO, ArrayType.Tag()), e[..i])
      {
        assert e[..i + 1][..i] == e[..i];
        h := Hash(h, e[i]);
      }
      assert e[..elementCount] == e;
      stack := stack + [h];
    }
  }
}
