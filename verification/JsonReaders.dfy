/**
 The two readers of 3rdparty/rapidjson/reader.h agree: on every text and for every setting of the flags
 the automaton accepts what the recursive reader accepts, with the same events, the same member and
 element counts, and the same text left over.
 */
module JsonReaders {
  import opened Json
  import opened Streams
  import opened JsonText
  import opened JsonGrammar
  import opened JsonAutomaton

  /** A state in which the next token must start a value. */
  predicate WantsValue(s: State) {
    s.Start? || s.ArrayInitial? || s.ElementDelimiter? || s.KeyValueDelimiter?
  }

  /** The state after that value. */
  function AfterValue(s: State): State
    requires WantsValue(s)
  {
    if s.Start? then Finish else Returning(s)
  }

  /** The bracket that would end the array is not a value. */
  predicate AtValue(f: Flags, c: Config) {
    && Coherent(c.state, c.stack) && WantsValue(c.state)
    && (c.state.ArrayInitial? ==> Peek(c.src) != ']')
    && (c.state.ElementDelimiter? && f.trailingCommas ==> Peek(c.src) != ']')
  }

  /** What the automaton must do where the grammar finds `v`. */
  ghost predicate Follows(f: Flags, c: Config, r: Parsed<Json>, next: State, stack: seq<Frame>) {
    Coherent(c.state, c.stack) && Coherent(next, stack) &&
    Run(f, c) == match r
      case Failed => Rejected
      case Parsed(v, rest) => Continue(f, Config(next, stack, rest, c.events + Events(v)))
  }

  lemma AfterValueCoherent(c: Config)
    requires Coherent(c.state, c.stack) && WantsValue(c.state)
    ensures Coherent(AfterValue(c.state), c.stack)
  {
  }

  /** A value: one transition for a scalar, all those of its brackets for an object or array. */
  lemma {:induction false} ValueFollows(f: Flags, c: Config)
    requires AtValue(f, c)
    ensures Follows(f, c, ValueAt(f, c.src), AfterValue(c.state), c.stack)
    decreases |c.src|, 3
  {
    AfterValueCoherent(c);
    if Peek(c.src) == '\0' {
      EndIsNoValue(f, c.src);
    } else if c.src[0] == '{' {
      ObjectFollows(f, c);
    } else if c.src[0] == '[' {
      ArrayFollows(f, c);
    } else if IsScalarToken(Tokenize(c.src[0])) {
      hide ValueAt, Continue;
      ScalarStep(f, c);
    } else {
      PunctuationIsNoValue(f, c.src);
      hide ValueAt;
      PunctuationStep(f, c);
    }
  }

  lemma ScalarStep(f: Flags, c: Config)
    requires AtValue(f, c) && c.src != "" && IsScalarToken(Tokenize(c.src[0]))
    ensures Transit(f, c, Predict(c.state, Tokenize(c.src[0]))) == TransitScalar(f, c, AfterValue(c.state))
  {
    hide TransitScalar, Tokenize;
  }

  lemma PunctuationStep(f: Flags, c: Config)
    requires AtValue(f, c) && c.src != "" && !IsScalarToken(Tokenize(c.src[0]))
    requires c.src[0] != '{' && c.src[0] != '['
    ensures Transit(f, c, Predict(c.state, Tokenize(c.src[0]))).state.Error?
  {
  }

  lemma EndIsNoValue(f: Flags, s: string)
    requires Peek(s) == '\0'
    ensures ValueAt(f, s).Failed?
  {
    hide Denoted;
  }

  lemma PunctuationIsNoValue(f: Flags, s: string)
    requires Peek(s) == ']' || Peek(s) == '}' || Peek(s) == ',' || Peek(s) == ':'
    ensures ValueAt(f, s).Failed?
  {
    hide Denoted;
  }

  // ---------------------------------------------------------------------------------------------
  // One turn of the loop
  // ---------------------------------------------------------------------------------------------

  lemma Turn(f: Flags, c: Config)
    requires Coherent(c.state, c.stack) && Peek(c.src) != '\0'
    ensures var d := Transit(f, c, Predict(c.state, Tokenize(c.src[0])));
            if d.state.Error? then Run(f, c) == Rejected
            else Coherent(d.state, d.stack) && Run(f, c) == Continue(f, d)
  {
    hide Coherent, Transit, Continue;
    TransitKeeps(f, c);
  }

  /** Inside an object or array the loop goes on after the white space. */
  lemma GoOn(f: Flags, d: Config)
    requires Coherent(d.state, d.stack) && !d.state.Finish?
    ensures var next := Skip(f, d.src);
            Continue(f, d) == if next.None? then Rejected else Run(f, d.(src := next.value))
  {
    hide Coherent, Run;
  }

  lemma AtEnd(f: Flags, c: Config)
    requires Coherent(c.state, c.stack) && Peek(c.src) == '\0' && !c.state.Finish?
    ensures Run(f, c) == Rejected
  {
    hide Coherent;
  }

  // ---------------------------------------------------------------------------------------------
  // Arrays
  // ---------------------------------------------------------------------------------------------

  /** The configuration after the closing bracket of the innermost array, whose elements are `es`. */
  function ClosedArray(c: Config, base: seq<Event>, es: seq<Json>, rest: string): Config
    requires c.stack != []
  {
    var top := c.stack[|c.stack| - 1].state;
    Config(if top.Start? then Finish else top, c.stack[..|c.stack| - 1], rest,
           base + ElementEvents(es) + [EndArray(|es|)])
  }

  /** The automaton inside an array of which it has read the elements `es`. */
  predicate InArray(c: Config, base: seq<Event>, es: seq<Json>) {
    && Coherent(c.state, c.stack) && c.stack != []
    && c.events == base + ElementEvents(es)
    && match c.state
       case ArrayInitial => es == [] && c.stack[|c.stack| - 1].count == 0
       case ElementState => es != [] && c.stack[|c.stack| - 1].count == |es| - 1
       case ElementDelimiter => c.stack[|c.stack| - 1].count == |es|
       case _ => false
  }

  lemma CloseArray(f: Flags, c: Config, base: seq<Event>, es: seq<Json>)
    requires InArray(c, base, es) && Peek(c.src) == ']'
    ensures Coherent(ClosedArray(c, base, es, c.src[1..]).state, ClosedArray(c, base, es, c.src[1..]).stack)
    ensures Run(f, c) == if c.state.ElementDelimiter? && !f.trailingCommas then Rejected
                         else Continue(f, ClosedArray(c, base, es, c.src[1..]))
  {
    hide Run, Continue, ElementEvents;
    Turn(f, c);
  }

  lemma CommaInArray(f: Flags, c: Config, base: seq<Event>, es: seq<Json>)
    requires InArray(c, base, es) && c.state.ElementState? && Peek(c.src) == ','
    ensures var d := Count(c, ElementDelimiter);
            InArray(d, base, es) && ClosedArray(d, base, es, "") == ClosedArray(c, base, es, "")
            && Run(f, c) == Continue(f, d)
  {
    hide Run, Continue, ElementEvents;
    Turn(f, c);
    var d := Count(c, ElementDelimiter);
    assert d.stack[..|d.stack| - 1] == c.stack[..|c.stack| - 1];
  }

  lemma NoElementEnd(f: Flags, c: Config, base: seq<Event>, es: seq<Json>)
    requires InArray(c, base, es) && c.state.ElementState? && Peek(c.src) != ',' && Peek(c.src) != ']'
    ensures Run(f, c) == Rejected
  {
    hide Run, Continue, ElementEvents;
    if Peek(c.src) == '\0' {
      AtEnd(f, c);
    } else {
      Turn(f, c);
    }
  }

  lemma {:induction false} ElementEventsAppend(es: seq<Json>, v: Json)
    ensures ElementEvents(es + [v]) == ElementEvents(es) + Events(v)
  {
    hide Events;
    if es == [] {
      assert [v][1..] == [] && ElementEvents([v]) == Events(v) + ElementEvents([]);
      assert es + [v] == [v];
    } else {
      ElementEventsAppend(es[1..], v);
      assert (es + [v])[1..] == es[1..] + [v];
    }
  }

  lemma {:induction false} ElementsFollow(f: Flags, c: Config, base: seq<Event>, es: seq<Json>)
    requires InArray(c, base, es) && AtValue(f, c)
    ensures var r := ElementsAt(f, c.src, es);
            if r.Failed? then Run(f, c) == Rejected
            else Coherent(ClosedArray(c, base, r.value, r.rest).state, ClosedArray(c, base, r.value, r.rest).stack)
                 && Run(f, c) == Continue(f, ClosedArray(c, base, r.value, r.rest))
    decreases |c.src|, 4
  {
    hide Run, Continue, ElementEvents, Events, ValueAt, Coherent, Transit, Skip;
    ValueFollows(f, c);
    var v := ValueAt(f, c.src);
    if v.Parsed? {
      var all := es + [v.value];
      ElementEventsAppend(es, v.value);
      var d := Config(ElementState, c.stack, v.rest, c.events + Events(v.value));
      GoOn(f, d);
      var after := Skip(f, v.rest);
      if after.Some? {
        ElementEnds(f, d.(src := after.value), base, all);
      }
    }
  }

  /** After an element and white space. */
  lemma {:induction false} ElementEnds(f: Flags, c: Config, base: seq<Event>, all: seq<Json>)
    requires InArray(c, base, all) && c.state.ElementState?
    ensures var s := c.src;
            var next := Skip(f, Rest(s));
            var r := if Peek(s) == ']' then Parsed(all, s[1..])
                     else if Peek(s) != ',' || next.None? then Failed
                     else if f.trailingCommas && Peek(next.value) == ']' then Parsed(all, next.value[1..])
                     else ElementsAt(f, next.value, all);
            if r.Failed? then Run(f, c) == Rejected
            else Coherent(ClosedArray(c, base, r.value, r.rest).state, ClosedArray(c, base, r.value, r.rest).stack)
                 && Run(f, c) == Continue(f, ClosedArray(c, base, r.value, r.rest))
    decreases |c.src|, 5
  {
    hide Run, Continue, ElementEvents, ElementsAt, Coherent, Transit, Skip;
    if Peek(c.src) == ']' {
      CloseArray(f, c, base, all);
    } else if Peek(c.src) != ',' {
      NoElementEnd(f, c, base, all);
    } else {
      CommaInArray(f, c, base, all);
      var d := Count(c, ElementDelimiter);
      GoOn(f, d);
      var next := Skip(f, d.src);
      if next.Some? {
        var e := d.(src := next.value);
        if f.trailingCommas && Peek(next.value) == ']' {
          CloseArray(f, e, base, all);
        } else {
          ElementsFollow(f, e, base, all);
        }
      }
    }
  }

  lemma OpenArray(f: Flags, c: Config)
    requires AtValue(f, c) && Peek(c.src) == '['
    ensures var d := Config(ArrayInitial, c.stack + [Frame(Returning(c.state), 0)], c.src[1..],
            c.events + [StartArray]);
            InArray(d, c.events + [StartArray], []) && Run(f, c) == Continue(f, d)
  {
    hide Run, Continue;
    Turn(f, c);
  }

  lemma {:induction false} ArrayFollows(f: Flags, c: Config)
    requires AtValue(f, c) && Peek(c.src) == '['
    ensures Follows(f, c, ValueAt(f, c.src), AfterValue(c.state), c.stack)
    decreases |c.src|, 2
  {
    hide Run, Continue, ElementEvents, ElementsAt, Coherent, Skip;
    AfterValueCoherent(c);
    OpenArray(f, c);
    var base := c.events + [StartArray];
    var d := Config(ArrayInitial, c.stack + [Frame(Returning(c.state), 0)], c.src[1..], base);
    GoOn(f, d);
    var first := Skip(f, d.src);
    if first.Some? {
      var e := d.(src := first.value);
      assert InArray(e, base, []);
      if Peek(e.src) == ']' {
        CloseArray(f, e, base, []);
      } else {
        ElementsFollow(f, e, base, []);
      }
      var es := ArrayAt(f, c.src[1..]);
      if es.Parsed? {
        assert base + ElementEvents(es.value) + [EndArray(|es.value|)] == c.events + Events(Arr(es.value));
        assert d.stack[..|d.stack| - 1] == c.stack;
        assert ClosedArray(e, base, es.value, es.rest)
               == Config(AfterValue(c.state), c.stack, es.rest, c.events + Events(Arr(es.value)));
      }
    }
  }

  // ---------------------------------------------------------------------------------------------
  // Objects
  // ---------------------------------------------------------------------------------------------

  function ClosedObject(c: Config, base: seq<Event>, ms: seq<Member>, rest: string): Config
    requires c.stack != []
  {
    var top := c.stack[|c.stack| - 1].state;
    Config(if top.Start? then Finish else top, c.stack[..|c.stack| - 1], rest,
           base + MemberEvents(ms) + [EndObject(|ms|)])
  }

  /** The automaton inside an object of which it has read the members `ms`. */
  predicate InObject(c: Config, base: seq<Event>, ms: seq<Member>) {
    && Coherent(c.state, c.stack) && c.stack != []
    && c.events == base + MemberEvents(ms)
    && match c.state
       case ObjectInitial => ms == [] && c.stack[|c.stack| - 1].count == 0
       case MemberValue => ms != [] && c.stack[|c.stack| - 1].count == |ms| - 1
       case MemberDelimiter => c.stack[|c.stack| - 1].count == |ms|
       case _ => false
  }

  lemma CloseObject(f: Flags, c: Config, base: seq<Event>, ms: seq<Member>)
    requires InObject(c, base, ms) && Peek(c.src) == '}'
    ensures Coherent(ClosedObject(c, base, ms, c.src[1..]).state, ClosedObject(c, base, ms, c.src[1..]).stack)
    ensures Run(f, c) == if c.state.MemberDelimiter? && !f.trailingCommas then Rejected
                         else Continue(f, ClosedObject(c, base, ms, c.src[1..]))
  {
    hide Run, Continue, MemberEvents;
    Turn(f, c);
  }

  lemma CommaInObject(f: Flags, c: Config, base: seq<Event>, ms: seq<Member>)
    requires InObject(c, base, ms) && c.state.MemberValue? && Peek(c.src) == ','
    ensures var d := Count(c, MemberDelimiter);
            InObject(d, base, ms) && ClosedObject(d, base, ms, "") == ClosedObject(c, base, ms, "")
            && Run(f, c) == Continue(f, d)
  {
    hide Run, Continue, MemberEvents;
    Turn(f, c);
    var d := Count(c, MemberDelimiter);
    assert d.stack[..|d.stack| - 1] == c.stack[..|c.stack| - 1];
  }

  lemma NoMemberEnd(f: Flags, c: Config, base: seq<Event>, ms: seq<Member>)
    requires InObject(c, base, ms) && c.state.MemberValue? && Peek(c.src) != ',' && Peek(c.src) != '}'
    ensures Run(f, c) == Rejected
  {
    hide Run, Continue, MemberEvents;
    if Peek(c.src) == '\0' {
      AtEnd(f, c);
    } else {
      Turn(f, c);
    }
  }

  lemma {:induction false} MemberEventsAppend(ms: seq<Member>, m: Member)
    ensures MemberEvents(ms + [m]) == MemberEvents(ms) + [Key(m.name)] + Events(m.value)
  {
    hide Events;
    if ms == [] {
      assert [m][1..] == [] && MemberEvents([m]) == [Key(m.name)] + Events(m.value) + MemberEvents([]);
      assert ms + [m] == [m];
    } else {
      MemberEventsAppend(ms[1..], m);
      assert (ms + [m])[1..] == ms[1..] + [m];
    }
  }

  /** A name is two transitions: the key and the colon. */
  lemma NameFollows(f: Flags, c: Config, base: seq<Event>, ms: seq<Member>)
    requires InObject(c, base, ms) && !c.state.MemberValue?
    requires c.state.MemberDelimiter? && f.trailingCommas ==> Peek(c.src) != '}'
    requires c.state.ObjectInitial? ==> Peek(c.src) != '}'
    ensures var name := MemberNameAt(f, c.src);
            if name.Failed? then Run(f, c) == Rejected
            else var d := Config(KeyValueDelimiter, c.stack, name.rest, c.events + [Key(name.value)]);
                 AtValue(f, d) && Run(f, c) == Run(f, d)
  {
    hide Run, Continue, MemberEvents, Skip, StringAt;
    if Peek(c.src) == '\0' {
      AtEnd(f, c);
    } else if Peek(c.src) == '}' {
      CloseObject(f, c, base, ms);
    } else {
      Turn(f, c);
      if Peek(c.src) == '\"' {
        var name := StringAt(c.src[1..], "");
        if name.Parsed? {
          var d := TransitKey(f, c);
          GoOn(f, d);
          var colon := Skip(f, d.src);
          if colon.Some? {
            ColonFollows(f, d.(src := colon.value));
          }
        }
      }
    }
  }

  lemma ColonFollows(f: Flags, c: Config)
    requires Coherent(c.state, c.stack) && c.state.MemberKey?
    ensures Run(f, c) ==
            if Peek(c.src) != ':' then Rejected
            else var value := Skip(f, c.src[1..]);
                 if value.None? then Rejected else Run(f, c.(state := KeyValueDelimiter, src := value.value))
  {
    hide Run, Continue, Skip;
    if Peek(c.src) == '\0' {
      AtEnd(f, c);
    } else {
      Turn(f, c);
      if c.src[0] == ':' {
        GoOn(f, c.(state := KeyValueDelimiter, src := c.src[1..]));
      }
    }
  }

  lemma MemberParts(f: Flags, s: string)
    ensures MemberAt(f, s) ==
            var name := MemberNameAt(f, s);
            if name.Failed? then Failed
            else var v := ValueAt(f, name.rest);
                 if v.Failed? || Skip(f, v.rest).None? then Failed
                 else Parsed(Member(name.value, v.value), Skip(f, v.rest).value)
  {
    hide MemberNameAt, ValueAt, Skip;
  }

  lemma {:induction false} MembersFollow(f: Flags, c: Config, base: seq<Event>, ms: seq<Member>)
    requires InObject(c, base, ms) && !c.state.MemberValue?
    requires c.state.MemberDelimiter? && f.trailingCommas ==> Peek(c.src) != '}'
    requires c.state.ObjectInitial? ==> Peek(c.src) != '}'
    ensures var r := MembersAt(f, c.src, ms);
            if r.Failed? then Run(f, c) == Rejected
            else Coherent(ClosedObject(c, base, r.value, r.rest).state, ClosedObject(c, base, r.value, r.rest).stack)
                 && Run(f, c) == Continue(f, ClosedObject(c, base, r.value, r.rest))
    decreases |c.src|, 4
  {
    hide Run, Continue, MemberEvents, Events, ValueAt, MemberNameAt, MemberAt, Coherent, Transit, Skip;
    MemberParts(f, c.src);
    NameFollows(f, c, base, ms);
    var name := MemberNameAt(f, c.src);
    if name.Parsed? {
      var k := Config(KeyValueDelimiter, c.stack, name.rest, c.events + [Key(name.value)]);
      ValueFollows(f, k);
      var v := ValueAt(f, k.src);
      if v.Parsed? {
        var m := Member(name.value, v.value);
        MemberEventsAppend(ms, m);
        var d := Config(MemberValue, c.stack, v.rest, k.events + Events(v.value));
        assert d.events == base + MemberEvents(ms + [m]);
        GoOn(f, d);
        var after := Skip(f, v.rest);
        if after.Some? {
          MemberEnds(f, d.(src := after.value), base, ms + [m]);
        }
      }
    }
  }

  /** After a member and white space. */
  lemma {:induction false} MemberEnds(f: Flags, c: Config, base: seq<Event>, all: seq<Member>)
    requires InObject(c, base, all) && c.state.MemberValue?
    ensures var s := c.src;
            var next := Skip(f, Rest(s));
            var r := if Peek(s) == '}' then Parsed(all, s[1..])
                     else if Peek(s) != ',' || next.None? then Failed
                     else if f.trailingCommas && Peek(next.value) == '}' then Parsed(all, next.value[1..])
                     else MembersAt(f, next.value, all);
            if r.Failed? then Run(f, c) == Rejected
            else Coherent(ClosedObject(c, base, r.value, r.rest).state, ClosedObject(c, base, r.value, r.rest).stack)
                 && Run(f, c) == Continue(f, ClosedObject(c, base, r.value, r.rest))
    decreases |c.src|, 5
  {
    hide Run, Continue, MemberEvents, MembersAt, Coherent, Transit, Skip;
    if Peek(c.src) == '}' {
      CloseObject(f, c, base, all);
    } else if Peek(c.src) != ',' {
      NoMemberEnd(f, c, base, all);
    } else {
      CommaInObject(f, c, base, all);
      var d := Count(c, MemberDelimiter);
      GoOn(f, d);
      var next := Skip(f, d.src);
      if next.Some? {
        var e := d.(src := next.value);
        if f.trailingCommas && Peek(next.value) == '}' {
          CloseObject(f, e, base, all);
        } else if Peek(next.value) == '}' {
          CloseObject(f, e, base, all);
          assert MembersAt(f, next.value, all).Failed? by { NoMemberAtBracket(f, next.value, all); }
        } else {
          MembersFollow(f, e, base, all);
        }
      }
    }
  }

  lemma NoMemberAtBracket(f: Flags, s: string, ms: seq<Member>)
    requires Peek(s) == '}'
    ensures MembersAt(f, s, ms).Failed?
  {
  }

  lemma OpenObject(f: Flags, c: Config)
    requires AtValue(f, c) && Peek(c.src) == '{'
    ensures var d := Config(ObjectInitial, c.stack + [Frame(Returning(c.state), 0)], c.src[1..],
            c.events + [StartObject]);
            InObject(d, c.events + [StartObject], []) && Run(f, c) == Continue(f, d)
  {
    hide Run, Continue;
    Turn(f, c);
  }

  lemma {:induction false} ObjectFollows(f: Flags, c: Config)
    requires AtValue(f, c) && Peek(c.src) == '{'
    ensures Follows(f, c, ValueAt(f, c.src), AfterValue(c.state), c.stack)
    decreases |c.src|, 2
  {
    hide Run, Continue, MemberEvents, MembersAt, Coherent, Skip;
    AfterValueCoherent(c);
    OpenObject(f, c);
    var base := c.events + [StartObject];
    var d := Config(ObjectInitial, c.stack + [Frame(Returning(c.state), 0)], c.src[1..], base);
    GoOn(f, d);
    var first := Skip(f, d.src);
    if first.Some? {
      var e := d.(src := first.value);
      assert InObject(e, base, []);
      if Peek(e.src) == '}' {
        CloseObject(f, e, base, []);
      } else {
        MembersFollow(f, e, base, []);
      }
      var ms := ObjectAt(f, c.src[1..]);
      if ms.Parsed? {
        assert base + MemberEvents(ms.value) + [EndObject(|ms.value|)] == c.events + Events(Obj(ms.value));
        assert d.stack[..|d.stack| - 1] == c.stack;
        assert ClosedObject(e, base, ms.value, ms.rest)
               == Config(AfterValue(c.state), c.stack, ms.rest, c.events + Events(Obj(ms.value)));
      }
    }
  }

  // ---------------------------------------------------------------------------------------------
  // Main theorem
  // ---------------------------------------------------------------------------------------------

  /** Both readers accept the same texts, announce the same events and stop at the same place. */
  lemma ReadersAgree(f: Flags, s: string, announced: seq<Event>)
    ensures IterativeParse(f, s, announced) == match DocumentAt(f, s)
                                               case Failed => Rejected
                                               case Parsed(v, rest) => Accepted(announced + Events(v), rest)
  {
    hide Events, ValueAt, Skip;
    var start := Skip(f, s);
    if start.Some? {
      var c := Config(Start, [], start.value, announced);
      if Peek(c.src) == '\0' {
        AtEnd(f, c);
      } else {
        ValueFollows(f, c);
        var v := ValueAt(f, c.src);
        if v.Parsed? {
          FinishedDocument(f, Config(Finish, [], v.rest, announced + Events(v.value)));
        }
      }
    }
  }

  lemma FinishedDocument(f: Flags, c: Config)
    requires c.state.Finish? && c.stack == []
    ensures Continue(f, c) ==
            if f.stopWhenDone then Accepted(c.events, c.src)
            else var end := Skip(f, c.src);
                 if end.None? || Peek(end.value) != '\0' then Rejected else Accepted(c.events, end.value)
  {
    hide Skip, Transit, Tokenize;
    var end := Skip(f, c.src);
    if !f.stopWhenDone && end.Some? && Peek(end.value) != '\0' {
      NothingAfterFinish(f, c.(src := end.value));
      Turn(f, c.(src := end.value));
    }
  }

  lemma NothingAfterFinish(f: Flags, c: Config)
    requires c.state.Finish? && c.stack == [] && c.src != ""
    ensures Transit(f, c, Predict(c.state, Tokenize(c.src[0]))).state.Error?
  {
  }
}
