/**
 `PrettyWriter` of 3rdparty/rapidjson/prettywriter.h: a handler that lays a value out over lines, driven by
 a stack of levels that count the values written so far.
 */
module PrettyWriter {
  import opened Json
  import opened Streams
  import opened Writer

  datatype Layout = Layout(indentChar: char, indentCharCount: nat, singleLineArrays: bool,
                           fromDouble: real -> string)

  datatype Level = Level(inArray: bool, valueCount: nat)

  datatype State = State(text: string, levels: seq<Level>, hasRoot: bool)

  // ---------------------------------------------------------------------------------------------
  // Events
  // ---------------------------------------------------------------------------------------------

  function Indent(o: Layout, depth: nat): (s: string)
    ensures |s| == depth * o.indentCharCount && forall i :: 0 <= i < |s| ==> s[i] == o.indentChar
  {
    seq(depth * o.indentCharCount, _ => o.indentChar)
  }

  /** What `PrettyPrefix` writes before a value on the level `l` at the given depth. */
  function PrefixText(o: Layout, l: Level, depth: nat): string {
    if l.inArray then
      (if l.valueCount == 0 then "" else if o.singleLineArrays then ", " else ",")
      + if o.singleLineArrays then "" else "\n" + Indent(o, depth)
    else if l.valueCount % 2 == 1 then ": "
    else (if l.valueCount == 0 then "\n" else ",\n") + Indent(o, depth)
  }

  function Counted(levels: seq<Level>): seq<Level>
    requires levels != []
  {
    var top := |levels| - 1;
    levels[top := levels[top].(valueCount := levels[top].valueCount + 1)]
  }

  function Prefix(o: Layout, s: State): State {
    if s.levels == [] then s.(hasRoot := true)
    else s.(text := s.text + PrefixText(o, s.levels[|s.levels| - 1], |s.levels|), levels := Counted(s.levels))
  }

  function Put(s: State, text: string): State {
    s.(text := s.text + text)
  }

  function Open(o: Layout, s: State, bracket: string, inArray: bool): State {
    var p := Put(Prefix(o, s), bracket);
    p.(levels := p.levels + [Level(inArray, 0)])
  }

  function Close(o: Layout, s: State, bracket: string, ownLine: bool): State
    requires s.levels != []
  {
    var top := |s.levels| - 1;
    var p := s.(levels := s.levels[..top]);
    Put(p, (if s.levels[top].valueCount > 0 && ownLine then "\n" + Indent(o, top) else "") + bracket)
  }

  /** One event. An end event outside any level is a misuse that the code asserts against. */
  function WriteEvent(o: Layout, s: State, e: Event): State
    requires Fits(e)
  {
    match e
    case NullEvent => Put(Prefix(o, s), ScalarText(o.fromDouble, Null))
    case BoolEvent(b) => Put(Prefix(o, s), ScalarText(o.fromDouble, Bool(b)))
    case NumberEvent(n) => Put(Prefix(o, s), ScalarText(o.fromDouble, Num(n)))
    case StringEvent(t) => Put(Prefix(o, s), Quoted(t))
    case Key(t) => Put(Prefix(o, s), Quoted(t))
    case StartObject => Open(o, s, "{", false)
    case StartArray => Open(o, s, "[", true)
    case EndObject(_) => if s.levels == [] then s else Close(o, s, "}", true)
    case EndArray(_) => if s.levels == [] then s else Close(o, s, "]", !o.singleLineArrays)
  }

  function WriteEvents(o: Layout, s: State, es: seq<Event>): State
    requires AllFit(es)
    decreases |es|
  {
    if es == [] then s else WriteEvents(o, WriteEvent(o, s, es[0]), es[1..])
  }

  // ---------------------------------------------------------------------------------------------
  // The text of a tree
  // ---------------------------------------------------------------------------------------------

  /** Every integer of the tree fits the type it is announced with. */
  predicate Writable(v: Json)
    decreases v
  {
    match v
    case Num(n) => InRange(n)
    case Arr(vs) => forall i :: 0 <= i < |vs| ==> Writable(vs[i])
    case Obj(ms) => forall i :: 0 <= i < |ms| ==> Writable(ms[i].value)
    case _ => true
  }

  predicate AllWritable(vs: seq<Json>) {
    forall i :: 0 <= i < |vs| ==> Writable(vs[i])
  }

  predicate MembersWritable(ms: seq<Member>) {
    forall i :: 0 <= i < |ms| ==> Writable(ms[i].value)
  }

  function Render(o: Layout, depth: nat, v: Json): string
    requires Writable(v)
    decreases v, 1
  {
    match v
    case Arr(vs) => "[" + RenderElements(o, depth + 1, 0, vs) + Closing(o, depth, |vs|, !o.singleLineArrays) + "]"
    case Obj(ms) => "{" + RenderMembers(o, depth + 1, 0, ms) + Closing(o, depth, |ms|, true) + "}"
    case _ => ScalarText(o.fromDouble, v)
  }

  /** The line break before a closing bracket. */
  function Closing(o: Layout, depth: nat, count: nat, ownLine: bool): string {
    if count > 0 && ownLine then "\n" + Indent(o, depth) else ""
  }

  /** Elements after `k` others. */
  function RenderElements(o: Layout, depth: nat, k: nat, vs: seq<Json>): string
    requires AllWritable(vs)
    decreases vs, 0
  {
    if vs == [] then ""
    else PrefixText(o, Level(true, k), depth) + Render(o, depth, vs[0]) + RenderElements(o, depth, k + 1, vs[1..])
  }

  /** Members after `k` others. */
  function RenderMembers(o: Layout, depth: nat, k: nat, ms: seq<Member>): string
    requires MembersWritable(ms)
    decreases ms, 0
  {
    if ms == [] then ""
    else
      PrefixText(o, Level(false, 2 * k), depth) + Quoted(ms[0].name) + ": " + Render(o, depth, ms[0].value)
      + RenderMembers(o, depth, k + 1, ms[1..])
  }

  // ---------------------------------------------------------------------------------------------
  // Writing the events of a tree renders the tree
  // ---------------------------------------------------------------------------------------------

  lemma {:induction false} EventsFit(v: Json)
    requires Writable(v)
    ensures AllFit(Events(v))
    decreases v, 1
  {
    match v
    case Arr(vs) => ElementEventsFit(vs);
    case Obj(ms) => MemberEventsFit(ms);
    case _ =>
  }

  lemma {:induction false} ElementEventsFit(vs: seq<Json>)
    requires AllWritable(vs)
    ensures AllFit(ElementEvents(vs))
    decreases vs, 0
  {
    if vs != [] {
      EventsFit(vs[0]);
      ElementEventsFit(vs[1..]);
    }
  }

  lemma {:induction false} MemberEventsFit(ms: seq<Member>)
    requires MembersWritable(ms)
    ensures AllFit(MemberEvents(ms))
    decreases ms, 0
  {
    if ms != [] {
      EventsFit(ms[0].value);
      MemberEventsFit(ms[1..]);
    }
  }

  lemma {:induction false} WriteAppend(o: Layout, s: State, a: seq<Event>, b: seq<Event>)
    requires AllFit(a) && AllFit(b)
    ensures AllFit(a + b) && WriteEvents(o, s, a + b) == WriteEvents(o, WriteEvents(o, s, a), b)
    decreases |a|
  {
    hide WriteEvent;
    if a == [] {
      assert a + b == b;
    } else {
      assert (a + b)[1..] == a[1..] + b;
      WriteAppend(o, WriteEvent(o, s, a[0]), a[1..], b);
    }
  }

  lemma WriteOne(o: Layout, s: State, e: Event)
    requires Fits(e)
    ensures WriteEvents(o, s, [e]) == WriteEvent(o, s, e)
  {
    hide WriteEvent;
    assert [e][1..] == [];
  }

  /** A value puts out its prefix and its text, and counts as one on its level. */
  lemma {:induction false} WriteValue(o: Layout, s: State, v: Json)
    requires Writable(v)
    ensures AllFit(Events(v))
    ensures WriteEvents(o, s, Events(v)) == Put(Prefix(o, s), Render(o, |s.levels|, v))
    decreases v, 1
  {
    hide PrefixText, Quoted, ScalarText, Prefix, Close;
    EventsFit(v);
    match v
    case Arr(vs) => WriteArray(o, s, vs);
    case Obj(ms) => WriteObject(o, s, ms);
    case _ =>
      WriteOne(o, s, Events(v)[0]);
      WriteScalar(o, s, v);
  }

  lemma {:induction false} WriteArray(o: Layout, s: State, vs: seq<Json>)
    requires AllWritable(vs)
    ensures AllFit(Events(Arr(vs)))
    ensures WriteEvents(o, s, Events(Arr(vs))) == Put(Prefix(o, s), Render(o, |s.levels|, Arr(vs)))
    decreases vs, 1
  {
    hide WriteEvents, ElementEvents, RenderElements, Closing, Prefix, PrefixText, Close;
    var inner := Open(o, s, "[", true);
    PrefixDepth(o, s);
    ElementEventsFit(vs);
    WriteBracket(o, s, StartArray, ElementEvents(vs), EndArray(|vs|));
    WriteElements(o, inner, vs);
    CloseRendered(o, inner, RenderElements(o, |s.levels| + 1, 0, vs), |vs|, |vs|, "]", !o.singleLineArrays);
    assert inner.levels[..|s.levels|] == Prefix(o, s).levels;
  }

  lemma {:induction false} WriteObject(o: Layout, s: State, ms: seq<Member>)
    requires MembersWritable(ms)
    ensures AllFit(Events(Obj(ms)))
    ensures WriteEvents(o, s, Events(Obj(ms))) == Put(Prefix(o, s), Render(o, |s.levels|, Obj(ms)))
    decreases ms, 1
  {
    hide WriteEvents, MemberEvents, RenderMembers, Closing, Prefix, PrefixText, Close;
    var inner := Open(o, s, "{", false);
    PrefixDepth(o, s);
    MemberEventsFit(ms);
    WriteBracket(o, s, StartObject, MemberEvents(ms), EndObject(|ms|));
    WriteMembers(o, inner, ms);
    CloseRendered(o, inner, RenderMembers(o, |s.levels| + 1, 0, ms), 2 * |ms|, |ms|, "}", true);
    assert inner.levels[..|s.levels|] == Prefix(o, s).levels;
  }

  lemma WriteScalar(o: Layout, s: State, v: Json)
    requires IsScalar(v) && Writable(v)
    ensures Fits(Events(v)[0]) && WriteEvent(o, s, Events(v)[0]) == Put(Prefix(o, s), ScalarText(o.fromDouble, v))
  {
    hide Prefix, Quoted, NumberText;
  }

  lemma PrefixDepth(o: Layout, s: State)
    ensures |Prefix(o, s).levels| == |s.levels|
  {
    hide PrefixText;
  }

  lemma WriteBracket(o: Layout, s: State, open: Event, inner: seq<Event>, close: Event)
    requires Fits(open) && AllFit(inner) && Fits(close)
    ensures AllFit([open] + inner + [close])
    ensures WriteEvents(o, s, [open] + inner + [close])
            == WriteEvent(o, WriteEvents(o, WriteEvent(o, s, open), inner), close)
  {
    hide WriteEvents, WriteEvent, Fits;
    WriteAppend(o, s, [open] + inner, [close]);
    WriteAppend(o, s, [open], inner);
    WriteOne(o, s, open);
    WriteOne(o, WriteEvents(o, WriteEvent(o, s, open), inner), close);
  }

  /** The state inside brackets after `count` values of the level: `added` were put out, `n` counted. */
  function Inside(s: State, added: string, n: nat): State
    requires s.levels != []
  {
    var top := |s.levels| - 1;
    State(s.text + added, s.levels[top := s.levels[top].(valueCount := s.levels[top].valueCount + n)], s.hasRoot)
  }

  /** Closing a level on which `n` values were counted. */
  lemma CloseRendered(o: Layout, s: State, added: string, n: nat, count: nat, bracket: string, ownLine: bool)
    requires s.levels != [] && s.levels[|s.levels| - 1].valueCount == 0 && (n > 0 <==> count > 0)
    ensures Close(o, Inside(s, added, n), bracket, ownLine)
            == State(s.text + (added + Closing(o, |s.levels| - 1, count, ownLine) + bracket),
                     s.levels[..|s.levels| - 1], s.hasRoot)
  {
    hide Indent;
    var top := |s.levels| - 1;
    assert Inside(s, added, n).levels[..top] == s.levels[..top];
    assert s.text + added + (Closing(o, top, count, ownLine) + bracket)
           == s.text + (added + Closing(o, top, count, ownLine) + bracket);
  }

  lemma {:induction false} WriteElements(o: Layout, s: State, vs: seq<Json>)
    requires AllWritable(vs) && s.levels != [] && s.levels[|s.levels| - 1].inArray
    ensures AllFit(ElementEvents(vs))
    ensures WriteEvents(o, s, ElementEvents(vs))
            == Inside(s, RenderElements(o, |s.levels|, s.levels[|s.levels| - 1].valueCount, vs), |vs|)
    decreases vs, 0
  {
    hide PrefixText, WriteEvent, Render;
    ElementEventsFit(vs);
    var top := |s.levels| - 1;
    if vs == [] {
      assert s.levels[top := s.levels[top]] == s.levels;
    } else {
      EventsFit(vs[0]);
      ElementEventsFit(vs[1..]);
      WriteAppend(o, s, Events(vs[0]), ElementEvents(vs[1..]));
      WriteValue(o, s, vs[0]);
      var k := s.levels[top].valueCount;
      var first := PrefixText(o, s.levels[top], |s.levels|) + Render(o, |s.levels|, vs[0]);
      var t := WriteEvents(o, s, Events(vs[0]));
      assert s.levels[top] == Level(true, k);
      assert t == Inside(s, first, 1);
      WriteElements(o, t, vs[1..]);
      InsideTwice(s, first, 1, RenderElements(o, |s.levels|, k + 1, vs[1..]), |vs| - 1);
    }
  }

  lemma InsideTwice(s: State, a: string, m: nat, b: string, n: nat)
    requires s.levels != []
    ensures Inside(Inside(s, a, m), b, n) == Inside(s, a + b, m + n)
  {
    assert s.text + a + b == s.text + (a + b);
  }

  lemma {:induction false} WriteMembers(o: Layout, s: State, ms: seq<Member>)
    requires MembersWritable(ms) && s.levels != []
    requires !s.levels[|s.levels| - 1].inArray && s.levels[|s.levels| - 1].valueCount % 2 == 0
    ensures AllFit(MemberEvents(ms))
    ensures WriteEvents(o, s, MemberEvents(ms))
            == Inside(s, RenderMembers(o, |s.levels|, s.levels[|s.levels| - 1].valueCount / 2, ms), 2 * |ms|)
    decreases ms, 0
  {
    hide MemberText, WriteEvent, WriteEvents, RenderMembers, OneMember;
    MemberEventsFit(ms);
    var top := |s.levels| - 1;
    var k := s.levels[top].valueCount / 2;
    MembersText(o, |s.levels|, k, ms);
    if ms == [] {
      WriteNothing(o, s);
      assert s.levels[top := s.levels[top]] == s.levels;
    } else {
      var first, rest := OneMember(ms[0]), MemberEvents(ms[1..]);
      FirstMember(ms);
      MemberEventsFit(ms[1..]);
      WriteMember(o, s, ms[0]);
      WriteAppend(o, s, first, rest);
      var text := MemberText(o, |s.levels|, k, ms[0]);
      WriteMembers(o, Inside(s, text, 2), ms[1..]);
      InsideTwice(s, text, 2, RenderMembers(o, |s.levels|, k + 1, ms[1..]), 2 * |ms| - 2);
    }
  }

  lemma WriteNothing(o: Layout, s: State)
    ensures WriteEvents(o, s, []) == s
  {
  }

  lemma FirstMember(ms: seq<Member>)
    requires ms != []
    ensures MemberEvents(ms) == OneMember(ms[0]) + MemberEvents(ms[1..])
  {
  }

  lemma MembersText(o: Layout, depth: nat, k: nat, ms: seq<Member>)
    requires MembersWritable(ms)
    ensures RenderMembers(o, depth, k, ms)
            == if ms == [] then ""
               else MemberText(o, depth, k, ms[0]) + RenderMembers(o, depth, k + 1, ms[1..])
  {
    hide PrefixText, Render, Quoted;
  }

  function MemberText(o: Layout, depth: nat, k: nat, m: Member): string
    requires Writable(m.value)
  {
    PrefixText(o, Level(false, 2 * k), depth) + Quoted(m.name) + ": " + Render(o, depth, m.value)
  }

  /** A name and its value count as two on their level. */
  lemma {:induction false} WriteMember(o: Layout, s: State, m: Member)
    requires Writable(m.value) && s.levels != []
    requires !s.levels[|s.levels| - 1].inArray && s.levels[|s.levels| - 1].valueCount % 2 == 0
    ensures AllFit(OneMember(m))
    ensures WriteEvents(o, s, OneMember(m))
            == Inside(s, MemberText(o, |s.levels|, s.levels[|s.levels| - 1].valueCount / 2, m), 2)
    decreases m, 2
  {
    hide PrefixText, WriteEvent, WriteEvents, Render, Quoted;
    var k := s.levels[|s.levels| - 1].valueCount;
    EventsFit(m.value);
    WriteAppend(o, s, [Key(m.name)], Events(m.value));
    WriteOne(o, s, Key(m.name));
    WriteKey(o, s, m.name);
    var name := PrefixText(o, Level(false, k), |s.levels|) + Quoted(m.name);
    var t := Inside(s, name, 1);
    assert s.levels[|s.levels| - 1] == Level(false, k);
    WriteValue(o, t, m.value);
    ColonPrefix(o, k + 1, |s.levels|);
    var value := ": " + Render(o, |s.levels|, m.value);
    assert Put(Prefix(o, t), Render(o, |s.levels|, m.value)) == Inside(t, value, 1);
    InsideTwice(s, name, 1, value, 1);
    assert name + value == MemberText(o, |s.levels|, k / 2, m);
  }

  lemma WriteKey(o: Layout, s: State, name: string)
    requires s.levels != []
    ensures WriteEvent(o, s, Key(name))
            == Inside(s, PrefixText(o, s.levels[|s.levels| - 1], |s.levels|) + Quoted(name), 1)
  {
    hide PrefixText, Quoted;
    var p := PrefixText(o, s.levels[|s.levels| - 1], |s.levels|);
    assert s.text + p + Quoted(name) == s.text + (p + Quoted(name));
  }

  lemma ColonPrefix(o: Layout, k: nat, depth: nat)
    requires k % 2 == 1
    ensures PrefixText(o, Level(false, k), depth) == ": "
  {
  }

  // ---------------------------------------------------------------------------------------------
  // The handler object
  // ---------------------------------------------------------------------------------------------

  class PrettyWriter {
    const layout: Layout
    const output: OutputStream
    var levels: seq<Level>
    var hasRoot: bool

    constructor (layout: Layout, output: OutputStream)
      ensures this.layout == layout && this.output == output && levels == [] && !hasRoot
    {
      this.layout := layout;
      this.output := output;
      levels := [];
      hasRoot := false;
    }

    function Now(): State
      reads this, output
    {
      State(output.text, levels, hasRoot)
    }

    /** A value may come at the root once, and inside an object only a name may come where one is due. */
    predicate Accepts(isString: bool)
      reads this
    {
      if levels == [] then !hasRoot
      else var top := levels[|levels| - 1]; top.inArray || top.valueCount % 2 == 1 || isString
    }

    method PutText(text: string)
      modifies output
      ensures Now() == Put(old(Now()), text)
    {
      for i := 0 to |text|
        invariant output.text == old(output.text) + text[..i]
      {
        output.Put(text[i]);
      }
      assert text[..|text|] == text;
    }

    method WriteIndent()
      modifies output
      ensures Now() == Put(old(Now()), Indent(layout, |levels|))
    {
      var count := |levels| * layout.indentCharCount;
      for i := 0 to count
        invariant output.text == old(output.text) + seq(i, _ => layout.indentChar)
      {
        output.Put(layout.indentChar);
      }
    }

    method PrettyPrefix(isString: bool)
      requires Accepts(isString)
      modifies this, output
      ensures Now() == Prefix(layout, old(Now()))
    {
      hide PrefixText;
      if levels != [] {
        var level := levels[|levels| - 1];
        if level.inArray {
          ElementPrefix(level);
        } else {
          MemberPrefix(level);
        }
        levels := Counted(levels);
      } else {
        hasRoot := true;
      }
    }

    method ElementPrefix(level: Level)
      requires level.inArray
      modifies output
      ensures Now() == Put(old(Now()), PrefixText(layout, level, |levels|))
    {
      hide Indent;
      ghost var before := output.text;
      if level.valueCount > 0 {
        output.Put(',');
        if layout.singleLineArrays {
          output.Put(' ');
        }
      }
      ghost var comma := if level.valueCount == 0 then "" else if layout.singleLineArrays then ", " else ",";
      assert output.text == before + comma;
      if !layout.singleLineArrays {
        output.Put('\n');
        WriteIndent();
        assert output.text == before + comma + "\n" + Indent(layout, |levels|)
                           == before + (comma + ("\n" + Indent(layout, |levels|)));
      } else {
        assert comma + "" == comma;
      }
    }

    method MemberPrefix(level: Level)
      requires !level.inArray
      modifies output
      ensures Now() == Put(old(Now()), PrefixText(layout, level, |levels|))
    {
      hide Indent;
      if level.valueCount > 0 {
        if level.valueCount % 2 == 0 {
          output.Put(',');
          output.Put('\n');
        } else {
          output.Put(':');
          output.Put(' ');
        }
      } else {
        output.Put('\n');
      }
      if level.valueCount % 2 == 0 {
        WriteIndent();
      }
    }

    method Null()
      requires Accepts(false)
      modifies this, output
      ensures Now() == WriteEvent(layout, old(Now()), NullEvent)
    {
      hide Prefix;
      PrettyPrefix(false);
      PutText("null");
    }

    method Bool(b: bool)
      requires Accepts(false)
      modifies this, output
      ensures Now() == WriteEvent(layout, old(Now()), BoolEvent(b))
    {
      hide Prefix;
      PrettyPrefix(false);
      PutText(if b then "true" else "false");
    }

    /** `Int`, `Uint`, `Int64`, `Uint64` and `Double` */
    method WriteNumber(n: Number)
      requires Accepts(false) && InRange(n)
      modifies this, output
      ensures Now() == WriteEvent(layout, old(Now()), NumberEvent(n))
    {
      hide Prefix, NumberText;
      PrettyPrefix(false);
      PutText(NumberText(layout.fromDouble, n));
    }

    method String(s: string)
      requires Accepts(true)
      modifies this, output
      ensures Now() == WriteEvent(layout, old(Now()), StringEvent(s)) == WriteEvent(layout, old(Now()), Event.Key(s))
    {
      hide Prefix, Quoted;
      PrettyPrefix(true);
      WriteString(output, s);
    }

    method Key(s: string)
      requires Accepts(true)
      modifies this, output
      ensures Now() == WriteEvent(layout, old(Now()), Event.Key(s))
    {
      hide WriteEvent;
      String(s);
    }

    method StartObject()
      requires Accepts(false)
      modifies this, output
      ensures Now() == WriteEvent(layout, old(Now()), Event.StartObject)
    {
      hide Prefix;
      PrettyPrefix(false);
      levels := levels + [Level(false, 0)];
      output.Put('{');
    }

    method EndObject(memberCount: nat)
      requires levels != [] && !levels[|levels| - 1].inArray && levels[|levels| - 1].valueCount % 2 == 0
      modifies this, output
      ensures Now() == WriteEvent(layout, old(Now()), Event.EndObject(memberCount))
    {
      hide Indent;
      var empty := levels[|levels| - 1].valueCount == 0;
      levels := levels[..|levels| - 1];
      if !empty {
        output.Put('\n');
        WriteIndent();
      }
      output.Put('}');
    }

    method StartArray()
      requires Accepts(false)
      modifies this, output
      ensures Now() == WriteEvent(layout, old(Now()), Event.StartArray)
    {
      hide Prefix;
      PrettyPrefix(false);
      levels := levels + [Level(true, 0)];
      output.Put('[');
    }

    method EndArray(elementCount: nat)
      requires levels != [] && levels[|levels| - 1].inArray
      modifies this, output
      ensures Now() == WriteEvent(layout, old(Now()), Event.EndArray(elementCount))
    {
      hide Indent;
      var empty := levels[|levels| - 1].valueCount == 0;
      levels := levels[..|levels| - 1];
      if !empty && !layout.singleLineArrays {
        output.Put('\n');
        WriteIndent();
      }
      output.Put(']');
    }
  }
}
