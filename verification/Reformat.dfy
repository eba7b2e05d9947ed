/**
 Reading any JSON text and writing what was read: the new text means the same, and writing it once more changes
 nothing.
 */
module Reformat {
  import opened Json
  import opened Streams
  import opened JsonText
  import opened JsonGrammar
  import opened Writer
  import opened DomRoundTrip
  import Dom
  import P = PrettyWriter
  import R = PrettyRoundTrip

  // ---------------------------------------------------------------------------------------------
  // What is read can be written
  // ---------------------------------------------------------------------------------------------

  lemma NumberFits(f: Flags, s: string)
    requires NumberAt(f, s).Parsed?
    ensures InRange(NumberAt(f, s).value)
  {
    hide LiteralAt, Value, ExponentTooBig;
  }

  lemma ScalarFits(f: Flags, s: string)
    requires ScalarAt(f, s).Parsed?
    ensures P.Writable(ScalarAt(f, s).value)
  {
    hide NumberAt, StringAt;
    var v := ScalarAt(f, s).value;
    if v.Num? {
      NumberFits(f, s);
    }
  }

  lemma {:induction false} ValueFits(f: Flags, s: string)
    requires ValueAt(f, s).Parsed?
    ensures P.Writable(ValueAt(f, s).value)
    decreases |s|, 3
  {
    hide ScalarAt, ArrayAt, ObjectAt;
    if Peek(s) == '{' {
      ObjectFits(f, s[1..]);
    } else if Peek(s) == '[' {
      ArrayFits(f, s[1..]);
    } else {
      ScalarFits(f, s);
    }
  }

  lemma {:induction false} ArrayFits(f: Flags, s: string)
    requires ArrayAt(f, s).Parsed?
    ensures P.AllWritable(ArrayAt(f, s).value)
    decreases |s|, 6
  {
    hide Skip, ElementsAt;
    var first := Skip(f, s).value;
    if Peek(first) != ']' {
      ElementsFit(f, first, []);
    }
  }

  lemma {:induction false} ElementsFit(f: Flags, s: string, es: seq<Json>)
    requires ElementsAt(f, s, es).Parsed? && P.AllWritable(es)
    ensures P.AllWritable(ElementsAt(f, s, es).value)
    decreases |s|, 5
  {
    hide Skip, ElementAt, P.Writable;
    var e := ElementAt(f, s);
    ElementFits(f, s);
    if Peek(e.rest) == ',' {
      var next := Skip(f, e.rest[1..]).value;
      if !(f.trailingCommas && Peek(next) == ']') {
        ElementsFit(f, next, es + [e.value]);
      }
    }
  }

  lemma {:induction false} ElementFits(f: Flags, s: string)
    requires ElementAt(f, s).Parsed?
    ensures P.Writable(ElementAt(f, s).value)
    decreases |s|, 4
  {
    hide Skip, ValueAt;
    ValueFits(f, s);
  }

  lemma {:induction false} ObjectFits(f: Flags, s: string)
    requires ObjectAt(f, s).Parsed?
    ensures P.MembersWritable(ObjectAt(f, s).value)
    decreases |s|, 6
  {
    hide Skip, MembersAt;
    var first := Skip(f, s).value;
    if Peek(first) != '}' {
      MembersFit(f, first, []);
    }
  }

  lemma {:induction false} MembersFit(f: Flags, s: string, ms: seq<Member>)
    requires MembersAt(f, s, ms).Parsed? && P.MembersWritable(ms)
    ensures P.MembersWritable(MembersAt(f, s, ms).value)
    decreases |s|, 5
  {
    hide Skip, MemberAt, P.Writable;
    var m := MemberAt(f, s);
    MemberFits(f, s);
    if Peek(m.rest) == ',' {
      var next := Skip(f, m.rest[1..]).value;
      if !(f.trailingCommas && Peek(next) == '}') {
        MembersFit(f, next, ms + [m.value]);
      }
    }
  }

  lemma {:induction false} MemberFits(f: Flags, s: string)
    requires MemberAt(f, s).Parsed?
    ensures P.Writable(MemberAt(f, s).value.value)
    decreases |s|, 4
  {
    hide MemberNameAt, ElementAt;
    ElementFits(f, MemberNameAt(f, s).rest);
  }

  lemma DocumentFits(f: Flags, text: string)
    requires DocumentAt(f, text).Parsed?
    ensures P.Writable(DocumentAt(f, text).value)
  {
    hide Skip, ValueAt;
    ValueFits(f, Skip(f, text).value);
  }

  // ---------------------------------------------------------------------------------------------
  // The type of an integer does not show in the text
  // ---------------------------------------------------------------------------------------------

  lemma SameText(fromDouble: real -> string, m: Number, n: Number)
    requires InRange(m) && InRange(n) && Dom.FromNumber(m) == Dom.FromNumber(n)
    ensures NumberText(fromDouble, m) == NumberText(fromDouble, n)
  {
    hide Dom.FromNumber, Dom.NumberOf, Decimal;
    Dom.NumberRebuilt(m);
    Dom.NumberRebuilt(n);
  }

  lemma WrittenAlike(o: P.Layout, s: P.State, a: Event, b: Event)
    requires Alike(a, b) && Fits(a) && Fits(b)
    ensures P.WriteEvent(o, s, a) == P.WriteEvent(o, s, b)
  {
    hide Dom.FromNumber, NumberText, P.Prefix, P.Open, P.Close;
    if a != b {
      SameText(o.fromDouble, a.n, b.n);
    }
  }

  lemma {:induction false} AllWrittenAlike(o: P.Layout, s: P.State, a: seq<Event>, b: seq<Event>)
    requires AllAlike(a, b) && AllFit(a) && AllFit(b)
    ensures P.WriteEvents(o, s, a) == P.WriteEvents(o, s, b)
    decreases |a|
  {
    hide P.WriteEvent;
    if a != [] {
      assert Alike(a[0], b[0]);
      WrittenAlike(o, s, a[0], b[0]);
      forall i | 0 <= i < |a| - 1 ensures Alike(a[1..][i], b[1..][i]) {
        assert Alike(a[i + 1], b[i + 1]);
      }
      AllWrittenAlike(o, P.WriteEvent(o, s, a[0]), a[1..], b[1..]);
    }
  }

  // ---------------------------------------------------------------------------------------------
  // The hypothesis about doubles
  // ---------------------------------------------------------------------------------------------

  ghost predicate DoubleHere(f: Flags, o: P.Layout, e: Event) {
    e.NumberEvent? && e.n.Double? ==> DoubleReadsBack(f, o.fromDouble, e.n.d)
  }

  /** Every double that is announced is taken back. */
  ghost predicate DoublesHere(f: Flags, o: P.Layout, es: seq<Event>) {
    forall i :: 0 <= i < |es| ==> DoubleHere(f, o, es[i])
  }

  lemma HereAppend(f: Flags, o: P.Layout, a: seq<Event>, b: seq<Event>)
    ensures DoublesHere(f, o, a + b) <==> DoublesHere(f, o, a) && DoublesHere(f, o, b)
  {
    hide DoubleHere;
    if DoublesHere(f, o, a + b) {
      forall i | 0 <= i < |a| ensures DoubleHere(f, o, a[i]) {
        assert (a + b)[i] == a[i];
      }
      forall i | 0 <= i < |b| ensures DoubleHere(f, o, b[i]) {
        assert (a + b)[|a| + i] == b[i];
      }
    }
  }

  /** Something between two events that are no doubles. */
  lemma HereBetween(f: Flags, o: P.Layout, open: Event, inner: seq<Event>, close: Event)
    requires !open.NumberEvent? && !close.NumberEvent?
    ensures DoublesHere(f, o, [open] + inner + [close]) <==> DoublesHere(f, o, inner)
  {
    HereAppend(f, o, [open], inner);
    HereAppend(f, o, [open] + inner, [close]);
  }

  /** The hypothesis of the round trips is about doubles only: it holds exactly when each one announced is taken
      back, and so of every value without doubles. */
  lemma {:induction false} HypothesisOnDoubles(f: Flags, o: P.Layout, v: Json)
    ensures R.DoublesReadBack(f, o, v) <==> DoublesHere(f, o, Events(v))
    decreases v, 1
  {
    hide DoubleReadsBack, DoublesHere;
    match v
    case Arr(vs) =>
      HereBetween(f, o, StartArray, ElementEvents(vs), EndArray(|vs|));
      ElementDoubles(f, o, vs);
    case Obj(ms) =>
      HereBetween(f, o, StartObject, MemberEvents(ms), EndObject(|ms|));
      MemberDoubles(f, o, ms);
    case _ =>
      ScalarDoubles(f, o, v);
  }

  lemma ScalarDoubles(f: Flags, o: P.Layout, v: Json)
    requires IsScalar(v)
    ensures R.DoublesReadBack(f, o, v) <==> DoublesHere(f, o, Events(v))
  {
    hide DoubleReadsBack;
    var e := Events(v)[0];
    assert Events(v) == [e];
    assert DoublesHere(f, o, [e]) <==> DoubleHere(f, o, e) by {
      if DoublesHere(f, o, [e]) {
        assert [e][0] == e;
      }
    }
  }

  lemma {:induction false} ElementDoubles(f: Flags, o: P.Layout, vs: seq<Json>)
    ensures DoublesHere(f, o, ElementEvents(vs)) <==> forall i :: 0 <= i < |vs| ==> R.DoublesReadBack(f, o, vs[i])
    decreases vs, 0
  {
    hide Events, R.DoublesReadBack, DoubleHere;
    if vs != [] {
      HereAppend(f, o, Events(vs[0]), ElementEvents(vs[1..]));
      HypothesisOnDoubles(f, o, vs[0]);
      ElementDoubles(f, o, vs[1..]);
      assert vs == [vs[0]] + vs[1..];
    }
  }

  lemma {:induction false} MemberDoubles(f: Flags, o: P.Layout, ms: seq<Member>)
    ensures DoublesHere(f, o, MemberEvents(ms)) <==>
            forall i :: 0 <= i < |ms| ==> R.DoublesReadBack(f, o, ms[i].value)
    decreases ms, 0
  {
    hide Events, R.DoublesReadBack, DoublesHere;
    if ms == [] {
      assert DoublesHere(f, o, MemberEvents(ms)) by {
        NothingHere(f, o);
      }
    } else {
      var m := Events(ms[0].value);
      KeyHere(f, o, ms[0].name);
      HereAppend(f, o, [Key(ms[0].name)], m);
      HereAppend(f, o, [Key(ms[0].name)] + m, MemberEvents(ms[1..]));
      HypothesisOnDoubles(f, o, ms[0].value);
      MemberDoubles(f, o, ms[1..]);
      assert ms == [ms[0]] + ms[1..];
    }
  }

  lemma NothingHere(f: Flags, o: P.Layout)
    ensures DoublesHere(f, o, [])
  {
  }

  lemma KeyHere(f: Flags, o: P.Layout, name: string)
    ensures DoublesHere(f, o, [Key(name)])
  {
  }

  // ---------------------------------------------------------------------------------------------
  // Main theorem
  // ---------------------------------------------------------------------------------------------

  /** What the writer makes of a value. */
  function Written(o: P.Layout, v: Json): string
    requires AllFit(Events(v))
  {
    P.WriteEvents(o, P.State("", [], false), Events(v)).text
  }

  /** Whatever is read can be written. The text written is read as the same value, an integer zero with a sign
      apart, and writing what is read from it gives the same text again. */
  lemma Reformatted(f: Flags, o: P.Layout, text: string)
    requires DocumentAt(f, text).Parsed? && IsWhitespace(o.indentChar)
    requires R.DoublesReadBack(f, o, DocumentAt(f, text).value)
    ensures var v := DocumentAt(f, text).value;
            && P.Writable(v) && AllFit(Events(v)) && AllFit(Events(R.Narrow(v)))
            && DocumentAt(f, Written(o, v)) == Parsed(R.Narrow(v), "")
            && Written(o, R.Narrow(v)) == Written(o, v)
  {
    hide DocumentAt, Events, P.Writable, P.WriteEvents, R.Narrow, R.DoublesReadBack, Alike;
    var v := DocumentAt(f, text).value;
    DocumentFits(f, text);
    R.PrettyRoundTrip(f, o, v);
    NarrowAlike(v);
    AlikeBuild([], Events(v), Events(R.Narrow(v)));
    AllWrittenAlike(o, P.State("", [], false), Events(v), Events(R.Narrow(v)));
  }

  /** Narrowing changes what was read only where that is `-0`. */
  lemma OnlyZeroNarrows(f: Flags, s: string)
    requires NumberAt(f, s).Parsed?
    ensures var n := NumberAt(f, s).value; InRange(n) && (Narrowed(n) == n <==> n != Int(0))
  {
    hide LiteralAt, Value, ExponentTooBig;
  }
}
