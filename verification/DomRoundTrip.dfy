/**
 Printing a value and parsing the text into a document gives the identical value: through `Accept`, the
 indenting writer, either reader and the document's stack.
 */
module DomRoundTrip {
  import opened Json
  import opened JsonText
  import opened JsonGrammar
  import opened Writer
  import opened Dom
  import P = PrettyWriter
  import R = PrettyRoundTrip

  /** The same event, or one that announces the same number in another type. */
  predicate Alike(a: Event, b: Event) {
    a == b || (a.NumberEvent? && b.NumberEvent? && InRange(a.n) && InRange(b.n) && FromNumber(a.n) == FromNumber(b.n))
  }

  predicate AllAlike(a: seq<Event>, b: seq<Event>) {
    |a| == |b| && forall i :: 0 <= i < |a| ==> Alike(a[i], b[i])
  }

  lemma AlikeAppend(a: seq<Event>, b: seq<Event>, c: seq<Event>, d: seq<Event>)
    requires AllAlike(a, b) && AllAlike(c, d)
    ensures AllAlike(a + c, b + d)
  {
    hide Alike;
  }

  /** Alike events build the same stack. */
  lemma {:induction false} AlikeBuild(stack: seq<Value>, a: seq<Event>, b: seq<Event>)
    requires AllAlike(a, b) && AllFit(a)
    ensures AllFit(b) && BuildAll(stack, a) == BuildAll(stack, b)
    decreases |a|
  {
    forall i | 0 <= i < |b| ensures Fits(b[i]) {
      assert Alike(a[i], b[i]) && Fits(a[i]);
    }
    if a != [] {
      BuildAlike(stack, a[0], b[0]);
      forall i | 0 <= i < |a| - 1 ensures Alike(a[1..][i], b[1..][i]) {
        assert Alike(a[i + 1], b[i + 1]);
      }
      AlikeBuild(Build(stack, a[0]), a[1..], b[1..]);
    }
  }

  lemma BuildAlike(stack: seq<Value>, a: Event, b: Event)
    requires Alike(a, b) && Fits(a) && Fits(b)
    ensures Build(stack, a) == Build(stack, b)
  {
    hide FromNumber;
  }

  lemma NarrowedAlike(n: Number)
    requires InRange(n)
    ensures InRange(Narrowed(n)) && FromNumber(n) == FromNumber(Narrowed(n))
  {
    hide Narrowed;
    if !n.Double? {
      FlagsOfValue(n, Narrowed(n));
    }
  }

  /** Narrowing a tree leaves its events alike. */
  lemma {:induction false} NarrowAlike(v: Json)
    requires P.Writable(v)
    ensures AllAlike(Events(v), Events(R.Narrow(v)))
    decreases v, 1
  {
    hide Alike, FromNumber;
    match v
    case Num(n) =>
      NarrowedAlike(n);
      NumberAlike(n, Narrowed(n));
    case Arr(vs) =>
      NarrowElementsAlike(vs);
      SameEvent(StartArray);
      SameEvent(EndArray(|vs|));
      AlikeAppend([StartArray], [StartArray], ElementEvents(vs), ElementEvents(R.NarrowAll(vs)));
      AlikeAppend([StartArray] + ElementEvents(vs), [StartArray] + ElementEvents(R.NarrowAll(vs)),
                  [EndArray(|vs|)], [EndArray(|vs|)]);
    case Obj(ms) =>
      NarrowMembersAlike(ms);
      SameEvent(StartObject);
      SameEvent(EndObject(|ms|));
      AlikeAppend([StartObject], [StartObject], MemberEvents(ms), MemberEvents(R.NarrowMembers(ms)));
      AlikeAppend([StartObject] + MemberEvents(ms), [StartObject] + MemberEvents(R.NarrowMembers(ms)),
                  [EndObject(|ms|)], [EndObject(|ms|)]);
    case _ =>
      SameEvent(Events(v)[0]);
  }

  lemma SameEvent(e: Event)
    ensures Alike(e, e) && AllAlike([e], [e])
  {
  }

  lemma NumberAlike(m: Number, n: Number)
    requires InRange(m) && InRange(n) && FromNumber(m) == FromNumber(n)
    ensures AllAlike([NumberEvent(m)], [NumberEvent(n)])
  {
    hide FromNumber;
  }

  lemma {:induction false} NarrowElementsAlike(vs: seq<Json>)
    requires P.AllWritable(vs)
    ensures AllAlike(ElementEvents(vs), ElementEvents(R.NarrowAll(vs))) && |R.NarrowAll(vs)| == |vs|
    decreases vs, 0
  {
    hide Alike, Events, R.Narrow;
    if vs != [] {
      NarrowAlike(vs[0]);
      NarrowElementsAlike(vs[1..]);
      AlikeAppend(Events(vs[0]), Events(R.Narrow(vs[0])), ElementEvents(vs[1..]), ElementEvents(R.NarrowAll(vs[1..])));
    }
  }

  lemma {:induction false} NarrowMembersAlike(ms: seq<Member>)
    requires P.MembersWritable(ms)
    ensures AllAlike(MemberEvents(ms), MemberEvents(R.NarrowMembers(ms))) && |R.NarrowMembers(ms)| == |ms|
    decreases ms, 0
  {
    hide Alike, Events, R.Narrow;
    if ms != [] {
      var name, value, narrow := [Key(ms[0].name)], Events(ms[0].value), Events(R.Narrow(ms[0].value));
      SameEvent(name[0]);
      NarrowAlike(ms[0].value);
      NarrowMembersAlike(ms[1..]);
      AlikeAppend(name, name, value, narrow);
      AlikeAppend(name + value, name + narrow, MemberEvents(ms[1..]), MemberEvents(R.NarrowMembers(ms[1..])));
    }
  }

  /** What a well-made value announces can be written. */
  lemma {:induction false} AnnouncedWritable(v: Value)
    requires WellMade(v)
    ensures P.Writable(Announced(v))
    decreases v, 1
  {
    hide NumberOf, FromNumber;
    match v
    case NumberValue(_, _) =>
      var n: Number :| InRange(n) && v == FromNumber(n);
      NumberRebuilt(n);
    case ArrayValue(es) => AllAnnouncedWritable(es);
    case ObjectValue(ms) => MembersAnnouncedWritable(ms);
    case _ =>
  }

  lemma {:induction false} AllAnnouncedWritable(es: seq<Value>)
    requires forall i :: 0 <= i < |es| ==> WellMade(es[i])
    ensures P.AllWritable(AnnouncedAll(es))
    decreases es, 0
  {
    hide WellMade, Announced, P.Writable;
    if es != [] {
      AnnouncedWritable(es[0]);
      AllAnnouncedWritable(es[1..]);
    }
  }

  lemma {:induction false} MembersAnnouncedWritable(ms: seq<ValueMember>)
    requires forall i :: 0 <= i < |ms| ==> WellMade(ms[i].value)
    ensures P.MembersWritable(AnnouncedMembers(ms))
    decreases ms, 0
  {
    hide WellMade, Announced, P.Writable;
    if ms != [] {
      AnnouncedWritable(ms[0].value);
      MembersAnnouncedWritable(ms[1..]);
    }
  }

  /** The text that `v` writes parses, and the document built from what is parsed is `v`: exactly, unless `v`
      holds a number made from the bare type. */
  lemma DocumentRoundTrip(f: Flags, o: P.Layout, v: Value)
    requires WellMade(v) && IsWhitespace(o.indentChar) && R.DoublesReadBack(f, o, Announced(v))
    ensures AllFit(Accept(v))
    ensures var parsed := DocumentAt(f, P.WriteEvents(o, P.State("", [], false), Accept(v)).text);
            && parsed.Parsed? && parsed.rest == ""
            && AllFit(Events(parsed.value))
            && (BuildAll([], Events(parsed.value)) == [v] <==> !HasAnyNumber(v))
  {
    hide WellMade, HasAnyNumber, Announced, DocumentAt, BuildAll, Events, R.Narrow, P.WriteEvents, P.Writable,
         R.DoublesReadBack;
    AnnouncedWritable(v);
    R.PrettyRoundTrip(f, o, Announced(v));
    NarrowAlike(Announced(v));
    AcceptRebuilds([], v);
    AlikeBuild([], Accept(v), Events(R.Narrow(Announced(v))));
    assert [] + [v] == [v];
  }
}
