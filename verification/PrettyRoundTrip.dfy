/**
 Reading what `PrettyWriter` wrote gives the value that was written, for every indentation by white space
 and for either array layout.
 */
module PrettyRoundTrip {
  import opened Json
  import opened Streams
  import opened JsonText
  import opened JsonGrammar
  import opened Writer
  import opened PrettyWriter
  import JsonAutomaton
  import JsonReaders
  import Reader

  /** The same value, each integer announced in its narrowest type. */
  function Narrow(v: Json): Json
    requires Writable(v)
    decreases v, 1
  {
    match v
    case Num(n) => Num(Narrowed(n))
    case Arr(vs) => Arr(NarrowAll(vs))
    case Obj(ms) => Obj(NarrowMembers(ms))
    case _ => v
  }

  function NarrowAll(vs: seq<Json>): seq<Json>
    requires AllWritable(vs)
    decreases vs, 0
  {
    if vs == [] then [] else [Narrow(vs[0])] + NarrowAll(vs[1..])
  }

  function NarrowMembers(ms: seq<Member>): seq<Member>
    requires MembersWritable(ms)
    decreases ms, 0
  {
    if ms == [] then [] else [Member(ms[0].name, Narrow(ms[0].value))] + NarrowMembers(ms[1..])
  }

  /** The text of every double of the tree is taken back to that double. */
  ghost predicate DoublesReadBack(f: Flags, o: Layout, v: Json)
    decreases v
  {
    match v
    case Num(Double(d)) => DoubleReadsBack(f, o.fromDouble, d)
    case Arr(vs) => forall i :: 0 <= i < |vs| ==> DoublesReadBack(f, o, vs[i])
    case Obj(ms) => forall i :: 0 <= i < |ms| ==> DoublesReadBack(f, o, ms[i].value)
    case _ => true
  }

  ghost predicate Readable(f: Flags, o: Layout, v: Json) {
    IsWhitespace(o.indentChar) && Writable(v) && DoublesReadBack(f, o, v)
  }

  ghost predicate AllReadable(f: Flags, o: Layout, vs: seq<Json>) {
    AllWritable(vs) && forall i :: 0 <= i < |vs| ==> Readable(f, o, vs[i])
  }

  ghost predicate MembersReadable(f: Flags, o: Layout, ms: seq<Member>) {
    MembersWritable(ms) && forall i :: 0 <= i < |ms| ==> Readable(f, o, ms[i].value)
  }

  // ---------------------------------------------------------------------------------------------
  // White space
  // ---------------------------------------------------------------------------------------------

  predicate Blank(s: string) {
    forall i :: 0 <= i < |s| ==> IsWhitespace(s[i])
  }

  /** A text that white space skipping leaves alone. */
  predicate Solid(s: string) {
    !IsWhitespace(Peek(s)) && Peek(s) != '/'
  }

  lemma {:induction false} SkipBlank(f: Flags, blank: string, s: string)
    requires Blank(blank) && Solid(s)
    ensures Skip(f, blank + s) == Some(s)
    decreases |blank|
  {
    if blank == "" {
      assert blank + s == s;
    } else {
      assert (blank + s)[1..] == blank[1..] + s;
      SkipBlank(f, blank[1..], s);
    }
  }

  lemma SkipNothing(f: Flags, s: string)
    requires Solid(s)
    ensures Skip(f, s) == Some(s)
  {
    SkipBlank(f, "", s);
    assert "" + s == s;
  }

  lemma ValueIsSolid(s: string)
    requires StartsValue(Peek(s))
    ensures Solid(s) && Peek(s) != ']' && Peek(s) != '}' && Peek(s) != '\0'
  {
  }

  // ---------------------------------------------------------------------------------------------
  // Values
  // ---------------------------------------------------------------------------------------------

  /** A rendered value is read back, whatever delimiter follows. */
  lemma {:induction false} ReadValue(f: Flags, o: Layout, depth: nat, v: Json, rest: string)
    requires Readable(f, o, v) && Delimited(rest)
    ensures ValueAt(f, Render(o, depth, v) + rest) == Parsed(Narrow(v), rest)
    ensures StartsValue(Peek(Render(o, depth, v) + rest))
    decreases v, 1
  {
    hide ValueAt, ScalarText, RenderElements, RenderMembers;
    match v
    case Arr(vs) => ReadArray(f, o, depth, vs, rest);
    case Obj(ms) => ReadObject(f, o, depth, ms, rest);
    case _ => ScalarReadsBack(f, o.fromDouble, v, rest);
  }

  // ---------------------------------------------------------------------------------------------
  // Arrays
  // ---------------------------------------------------------------------------------------------

  /** Before the first element of an array there is white space only; before others also a comma. */
  lemma ElementPrefix(o: Layout, k: nat, depth: nat)
    requires IsWhitespace(o.indentChar)
    ensures var p := PrefixText(o, Level(true, k), depth);
            if k == 0 then Blank(p) else p != "" && p[0] == ',' && Blank(p[1..])
  {
  }

  lemma ClosingIsBlank(o: Layout, depth: nat, count: nat, ownLine: bool)
    requires IsWhitespace(o.indentChar)
    ensures Blank(Closing(o, depth, count, ownLine))
  {
  }

  /** What follows an element is a comma or the end of the array. */
  lemma AfterElementDelimited(o: Layout, depth: nat, k: nat, vs: seq<Json>, end: string)
    requires IsWhitespace(o.indentChar) && AllWritable(vs) && k > 0 && Delimited(end)
    ensures Delimited(RenderElements(o, depth, k, vs) + end)
    ensures vs != [] ==> Peek(RenderElements(o, depth, k, vs) + end) == ','
    ensures vs == [] ==> RenderElements(o, depth, k, vs) + end == end
  {
    hide Render, PrefixText;
    ElementPrefix(o, k, depth);
  }

  lemma {:induction false} ReadElements(f: Flags, o: Layout, depth: nat, k: nat, vs: seq<Json>,
                                        blank: string, rest: string, es: seq<Json>)
    requires vs != [] && AllReadable(f, o, vs) && IsWhitespace(o.indentChar) && Blank(blank)
    ensures var end := blank + "]" + rest;
            var s := Render(o, depth, vs[0]) + RenderElements(o, depth, k + 1, vs[1..]) + end;
            ElementsAt(f, s, es) == Parsed(es + NarrowAll(vs), rest) && StartsValue(Peek(s))
    decreases vs, 0
  {
    hide ValueAt, Skip, Render, PrefixText, ElementsAt, Narrow, RenderElements, Readable;
    var end := blank + "]" + rest;
    var more := RenderElements(o, depth, k + 1, vs[1..]);
    var s := Render(o, depth, vs[0]) + more + end;
    EndDelimited(blank, "]" + rest);
    assert end == blank + ("]" + rest);
    AfterElementDelimited(o, depth, k + 1, vs[1..], end);
    assert s == Render(o, depth, vs[0]) + (more + end);
    ReadValue(f, o, depth, vs[0], more + end);
    Reader.ElementsStep(f, s, es);
    assert NarrowAll(vs) == [Narrow(vs[0])] + NarrowAll(vs[1..]);
    if |vs| == 1 {
      SkipBlank(f, blank, "]" + rest);
      assert ("]" + rest)[1..] == rest;
      NarrowNothing();
      assert es + [Narrow(vs[0])] == es + NarrowAll(vs);
    } else {
      ReadElements(f, o, depth, k + 1, vs[1..], blank, rest, es + [Narrow(vs[0])]);
      SkipNothing(f, more + end);
      SkipToNext(f, o, depth, k + 1, vs[1..], end);
      assert es + [Narrow(vs[0])] + NarrowAll(vs[1..]) == es + NarrowAll(vs);
    }
  }

  lemma EndDelimited(blank: string, s: string)
    requires Blank(blank) && Delimited(s)
    ensures Delimited(blank + s)
  {
    if blank == "" {
      assert blank + s == s;
    }
  }

  lemma NextElement(f: Flags, o: Layout, depth: nat, k: nat, vs: seq<Json>, end: string)
    requires vs != [] && AllWritable(vs)
    ensures RenderElements(o, depth, k, vs) + end
            == PrefixText(o, Level(true, k), depth)
               + (Render(o, depth, vs[0]) + RenderElements(o, depth, k + 1, vs[1..]) + end)
  {
    hide Render, PrefixText;
  }

  /** After the comma, white space leads to the next element. */
  lemma SkipToNext(f: Flags, o: Layout, depth: nat, k: nat, vs: seq<Json>, end: string)
    requires vs != [] && AllWritable(vs) && k > 0 && IsWhitespace(o.indentChar)
    requires StartsValue(Peek(Render(o, depth, vs[0]) + RenderElements(o, depth, k + 1, vs[1..]) + end))
    ensures RenderElements(o, depth, k, vs) + end != ""
    ensures var next := Render(o, depth, vs[0]) + RenderElements(o, depth, k + 1, vs[1..]) + end;
            Skip(f, (RenderElements(o, depth, k, vs) + end)[1..]) == Some(next) && Peek(next) != ']'
  {
    hide Render, PrefixText, Skip, RenderElements;
    var next := Render(o, depth, vs[0]) + RenderElements(o, depth, k + 1, vs[1..]) + end;
    NextElement(f, o, depth, k, vs, end);
    ElementPrefix(o, k, depth);
    ValueIsSolid(next);
    var p := PrefixText(o, Level(true, k), depth);
    assert (p + next)[1..] == p[1..] + next;
    SkipBlank(f, p[1..], next);
  }

  lemma {:induction false} ReadArray(f: Flags, o: Layout, depth: nat, vs: seq<Json>, rest: string)
    requires Readable(f, o, Arr(vs)) && Delimited(rest)
    ensures ValueAt(f, Render(o, depth, Arr(vs)) + rest) == Parsed(Narrow(Arr(vs)), rest)
    ensures StartsValue(Peek(Render(o, depth, Arr(vs)) + rest))
    decreases vs, 1
  {
    hide Skip, Render, RenderElements, ScalarAt, ArrayAt, ObjectAt, NarrowAll, Closing;
    var s := Render(o, depth, Arr(vs)) + rest;
    ArrayText(o, depth, vs, rest);
    ReadInside(f, o, depth, vs, rest);
  }

  /** The text of an array after its opening bracket. */
  function InsideArray(o: Layout, depth: nat, vs: seq<Json>, rest: string): string
    requires AllWritable(vs)
  {
    RenderElements(o, depth + 1, 0, vs) + (Closing(o, depth, |vs|, !o.singleLineArrays) + "]" + rest)
  }

  lemma ArrayText(o: Layout, depth: nat, vs: seq<Json>, rest: string)
    requires AllWritable(vs)
    ensures var s := Render(o, depth, Arr(vs)) + rest; Peek(s) == '[' && s[1..] == InsideArray(o, depth, vs, rest)
  {
    hide RenderElements, Closing;
  }

  lemma {:induction false} ReadInside(f: Flags, o: Layout, depth: nat, vs: seq<Json>, rest: string)
    requires Readable(f, o, Arr(vs))
    ensures ArrayAt(f, InsideArray(o, depth, vs, rest)) == Parsed(NarrowAll(vs), rest)
    decreases vs, 1, 0
  {
    hide Skip, Render, PrefixText, ElementsAt, Closing, RenderElements, NarrowAll, StartsValue;
    var closing := Closing(o, depth, |vs|, !o.singleLineArrays);
    var inside := InsideArray(o, depth, vs, rest);
    ClosingIsBlank(o, depth, |vs|, !o.singleLineArrays);
    if vs == [] {
      NothingInside(o, depth);
      assert inside == "]" + rest;
      SkipNothing(f, inside);
      assert inside[1..] == rest;
      assert NarrowAll([]) == [] by { NarrowNothing(); }
    } else {
      var first := Render(o, depth + 1, vs[0]) + RenderElements(o, depth + 1, 1, vs[1..]) + (closing + "]" + rest);
      ReadElements(f, o, depth + 1, 0, vs, closing, rest, []);
      SkipToFirst(f, o, depth + 1, vs, closing + "]" + rest);
      ValueIsSolid(first);
      assert [] + NarrowAll(vs) == NarrowAll(vs);
    }
  }

  lemma SkipToFirst(f: Flags, o: Layout, depth: nat, vs: seq<Json>, end: string)
    requires vs != [] && AllWritable(vs) && IsWhitespace(o.indentChar)
    requires StartsValue(Peek(Render(o, depth, vs[0]) + RenderElements(o, depth, 1, vs[1..]) + end))
    ensures Skip(f, RenderElements(o, depth, 0, vs) + end)
            == Some(Render(o, depth, vs[0]) + RenderElements(o, depth, 1, vs[1..]) + end)
  {
    hide Render, PrefixText, Skip, RenderElements;
    var first := Render(o, depth, vs[0]) + RenderElements(o, depth, 1, vs[1..]) + end;
    NextElement(f, o, depth, 0, vs, end);
    ElementPrefix(o, 0, depth);
    ValueIsSolid(first);
    SkipBlank(f, PrefixText(o, Level(true, 0), depth), first);
  }

  lemma NothingInside(o: Layout, depth: nat)
    ensures RenderElements(o, depth + 1, 0, []) == "" && RenderMembers(o, depth + 1, 0, []) == ""
    ensures forall ownLine :: Closing(o, depth, 0, ownLine) == ""
  {
  }

  lemma NarrowNothing()
    ensures NarrowAll([]) == [] && NarrowMembers([]) == []
  {
  }

  // ---------------------------------------------------------------------------------------------
  // Objects
  // ---------------------------------------------------------------------------------------------

  lemma MemberPrefix(o: Layout, k: nat, depth: nat)
    requires IsWhitespace(o.indentChar)
    ensures var p := PrefixText(o, Level(false, 2 * k), depth);
            if k == 0 then Blank(p) else p != "" && p[0] == ',' && Blank(p[1..])
  {
  }

  lemma ReadName(f: Flags, name: string, value: string)
    requires StartsValue(Peek(value))
    ensures MemberNameAt(f, Quoted(name) + ": " + value) == Parsed(name, value)
  {
    hide Skip, StringAt, EscapedText;
    var s := Quoted(name) + ": " + value;
    var colon := ": " + value;
    assert s == Quoted(name) + colon;
    StringReadsBack(name, colon);
    SkipNothing(f, colon);
    ValueIsSolid(value);
    assert colon[1..] == " " + value;
    SkipBlank(f, " ", value);
  }

  lemma NextMember(o: Layout, depth: nat, k: nat, ms: seq<Member>, end: string)
    requires ms != [] && MembersWritable(ms)
    ensures RenderMembers(o, depth, k, ms) + end
            == PrefixText(o, Level(false, 2 * k), depth) + FirstMember(o, depth, k, ms, end)
  {
    hide Render, PrefixText, Quoted;
  }

  /** The text from the name of the first member on. */
  function FirstMember(o: Layout, depth: nat, k: nat, ms: seq<Member>, end: string): string
    requires ms != [] && MembersWritable(ms)
  {
    Quoted(ms[0].name) + ": " + (Render(o, depth, ms[0].value) + (RenderMembers(o, depth, k + 1, ms[1..]) + end))
  }

  lemma AfterMemberDelimited(o: Layout, depth: nat, k: nat, ms: seq<Member>, end: string)
    requires IsWhitespace(o.indentChar) && MembersWritable(ms) && k > 0 && Delimited(end)
    ensures Delimited(RenderMembers(o, depth, k, ms) + end)
    ensures ms != [] ==> Peek(RenderMembers(o, depth, k, ms) + end) == ','
    ensures ms == [] ==> RenderMembers(o, depth, k, ms) + end == end
  {
    hide Render, PrefixText, Quoted;
    MemberPrefix(o, k, depth);
  }

  lemma SkipToNextMember(f: Flags, o: Layout, depth: nat, k: nat, ms: seq<Member>, end: string)
    requires ms != [] && MembersWritable(ms) && IsWhitespace(o.indentChar)
    ensures k == 0 ==> Skip(f, RenderMembers(o, depth, k, ms) + end) == Some(FirstMember(o, depth, k, ms, end))
    ensures k > 0 ==> RenderMembers(o, depth, k, ms) + end != ""
                      && Skip(f, (RenderMembers(o, depth, k, ms) + end)[1..]) == Some(FirstMember(o, depth, k, ms, end))
    ensures Peek(FirstMember(o, depth, k, ms, end)) == '\"'
  {
    hide Render, PrefixText, Skip, RenderMembers, EscapedText;
    var first := FirstMember(o, depth, k, ms, end);
    NextMember(o, depth, k, ms, end);
    MemberPrefix(o, k, depth);
    var p := PrefixText(o, Level(false, 2 * k), depth);
    if k == 0 {
      SkipBlank(f, p, first);
    } else {
      assert (p + first)[1..] == p[1..] + first;
      SkipBlank(f, p[1..], first);
    }
  }

  lemma {:induction false} ReadMembers(f: Flags, o: Layout, depth: nat, k: nat, ms: seq<Member>,
                                       blank: string, rest: string, done: seq<Member>)
    requires ms != [] && MembersReadable(f, o, ms) && IsWhitespace(o.indentChar) && Blank(blank)
    ensures MembersAt(f, FirstMember(o, depth, k, ms, blank + "}" + rest), done)
            == Parsed(done + NarrowMembers(ms), rest)
    decreases ms, 0
  {
    hide ValueAt, Skip, Render, PrefixText, MembersAt, MemberAt, Narrow, MemberNameAt, RenderMembers, Readable, Quoted;
    var end := blank + "}" + rest;
    var more := RenderMembers(o, depth, k + 1, ms[1..]);
    EndDelimited(blank, "}" + rest);
    assert end == blank + ("}" + rest);
    AfterMemberDelimited(o, depth, k + 1, ms[1..], end);
    var value := Render(o, depth, ms[0].value) + (more + end);
    ReadValue(f, o, depth, ms[0].value, more + end);
    ReadName(f, ms[0].name, value);
    var s := FirstMember(o, depth, k, ms, end);
    JsonReaders.MemberParts(f, s);
    Reader.MembersStep(f, s, done);
    var m := Member(ms[0].name, Narrow(ms[0].value));
    assert NarrowMembers(ms) == [m] + NarrowMembers(ms[1..]);
    if |ms| == 1 {
      SkipBlank(f, blank, "}" + rest);
      assert ("}" + rest)[1..] == rest;
      assert NarrowMembers([]) == [];
      assert done + [m] == done + NarrowMembers(ms);
    } else {
      SkipNothing(f, more + end);
      SkipToNextMember(f, o, depth, k + 1, ms[1..], end);
      ReadMembers(f, o, depth, k + 1, ms[1..], blank, rest, done + [m]);
      assert done + [m] + NarrowMembers(ms[1..]) == done + NarrowMembers(ms);
    }
  }

  lemma {:induction false} ReadObject(f: Flags, o: Layout, depth: nat, ms: seq<Member>, rest: string)
    requires Readable(f, o, Obj(ms)) && Delimited(rest)
    ensures ValueAt(f, Render(o, depth, Obj(ms)) + rest) == Parsed(Narrow(Obj(ms)), rest)
    ensures StartsValue(Peek(Render(o, depth, Obj(ms)) + rest))
    decreases ms, 1
  {
    hide Skip, PrefixText, MembersAt, Closing, RenderMembers, ScalarAt, ArrayAt, NarrowMembers, FirstMember;
    var closing := Closing(o, depth, |ms|, true);
    ClosingIsBlank(o, depth, |ms|, true);
    var inside := RenderMembers(o, depth + 1, 0, ms) + (closing + "}" + rest);
    var s := Render(o, depth, Obj(ms)) + rest;
    assert s[1..] == inside;
    if ms == [] {
      NothingInside(o, depth);
      assert inside == "}" + rest;
      SkipNothing(f, inside);
      assert inside[1..] == rest;
      NarrowNothing();
    } else {
      SkipToNextMember(f, o, depth + 1, 0, ms, closing + "}" + rest);
      ReadMembers(f, o, depth + 1, 0, ms, closing, rest, []);
      assert [] + NarrowMembers(ms) == NarrowMembers(ms);
    }
  }

  // ---------------------------------------------------------------------------------------------
  // Main theorem
  // ---------------------------------------------------------------------------------------------

  /** The text that the events of `v` put out parses back to `v`, by either reader and with any flags. */
  lemma PrettyRoundTrip(f: Flags, o: Layout, v: Json)
    requires Readable(f, o, v)
    ensures AllFit(Events(v))
    ensures var text := WriteEvents(o, State("", [], false), Events(v)).text;
            && DocumentAt(f, text) == Parsed(Narrow(v), "")
            && JsonAutomaton.IterativeParse(f, text, []) == JsonAutomaton.Accepted(Events(Narrow(v)), "")
  {
    hide Render, ValueAt, Skip, Events, WriteEvents, Narrow, Readable;
    ReadableIsWritable(f, o, v);
    WriteAtRoot(o, v);
    var text := WriteEvents(o, State("", [], false), Events(v)).text;
    ReadValue(f, o, 0, v, "");
    assert Render(o, 0, v) + "" == Render(o, 0, v);
    ValueIsSolid(text);
    SkipNothing(f, text);
    SkipNothing(f, "");
    JsonReaders.ReadersAgree(f, text, []);
    assert [] + Events(Narrow(v)) == Events(Narrow(v));
  }

  lemma ReadableIsWritable(f: Flags, o: Layout, v: Json)
    requires Readable(f, o, v)
    ensures Writable(v)
  {
  }

  lemma WriteAtRoot(o: Layout, v: Json)
    requires Writable(v)
    ensures AllFit(Events(v))
    ensures WriteEvents(o, State("", [], false), Events(v)).text == Render(o, 0, v)
  {
    hide Render, Events, WriteEvents;
    WriteValue(o, State("", [], false), v);
  }
}
