/**
 The streaming validator computes the meaning of the schema: by induction on the tree, and for the
 parallel validators of one value on the schema.
 */
module SchemaStreaming {
  import opened Json
  import opened Hasher
  import opened SchemaValidation
  import opened SchemaMeaning

  /** What a context remembers after some elements: only bookkeeping, never the parallel state. */
  function AfterElements(f: DoubleBytes, c: Context, es: seq<Json>): Context {
    if es == [] then c
    else
      c.(arrayElementIndex := c.arrayElementIndex + |es|,
         valueSchema := ItemSchema(c.schema, c.arrayElementIndex + |es| - 1),
         valueUniqueness := c.schema.uniqueItems,
         elementHashes := c.elementHashes + if c.schema.uniqueItems then ElementCodes(f, es) else [])
  }

  function MarkAll(s: Schema, exist: seq<bool>, ms: seq<Member>): (marked: seq<bool>)
    ensures |marked| == |exist|
    decreases |ms|
  {
    if ms == [] then exist
    else MarkAll(s, Mark(exist, PropertyIndex(s.properties, ms[0].name)), ms[1..])
  }

  function AfterMembers(c: Context, ms: seq<Member>): Context {
    if ms == [] then c
    else
      c.(valueSchema := MemberSchema(c.schema, ms[|ms| - 1].name),
         propertyExist := MarkAll(c.schema, c.propertyExist, ms))
  }

  ghost predicate ElementAccepted(f: DoubleBytes, s: Schema, i: nat, t: Json) {
    ItemSchema(s, i).Some? && Accepts(f, ItemSchema(s, i).value, t)
  }

  /** The elements of an array from position `i` on, with the codes seen before them. */
  ghost predicate ElementsAccepted(f: DoubleBytes, s: Schema, i: nat, es: seq<Json>, seen: seq<Code>)
    decreases |es|
  {
    es == [] ||
    var code := TreeCode(f, es[0]);
    && ElementAccepted(f, s, i, es[0])
    && !(s.uniqueItems && code in seen)
    && ElementsAccepted(f, s, i + 1, es[1..], seen + if s.uniqueItems then [code] else [])
  }

  /** Each code differs from those in `seen` and from the codes before it. */
  predicate AllNew(seen: seq<Code>, codes: seq<Code>)
    decreases |codes|
  {
    codes == [] || (codes[0] !in seen && AllNew(seen + [codes[0]], codes[1..]))
  }

  lemma {:induction false} AllNewIsDistinct(seen: seq<Code>, codes: seq<Code>)
    requires Distinct(seen)
    ensures AllNew(seen, codes) <==> Distinct(seen + codes)
    decreases |codes|
  {
    if codes == [] {
      assert seen + codes == seen;
    } else {
      var more := seen + [codes[0]];
      assert more + codes[1..] == seen + codes;
      if codes[0] in seen {
        var i :| 0 <= i < |seen| && seen[i] == codes[0];
        assert (seen + codes)[i] == (seen + codes)[|seen|];
      } else {
        AllNewIsDistinct(more, codes[1..]);
      }
    }
  }

  // ---------------------------------------------------------------------------------------------
  // Closing a value
  // ---------------------------------------------------------------------------------------------

  lemma HashWatched(f: DoubleBytes, c: Context, t: Json)
    requires Watching(f, c, Events(t)) && (c.schema.enum != [] || c.arrayUniqueness)
    ensures HashOf(c) == TreeCode(f, t)
  {
    hide Events, Parallels, TreeCode, HashEvents;
    HashValue(f, [], t);
  }

  /** `EndValue` once the new context has watched the whole value. */
  lemma Closes(f: DoubleBytes, v: Validator, t: Json)
    requires Fits(v) && v.valid && v.stack != []
    requires Watching(f, Top(v), Events(t))
    requires forall i :: 0 <= i < |Parallels(Top(v).schema)| ==> ParallelDecides(f, Parallels(Top(v).schema)[i], t)
    ensures var h := if Top(v).arrayUniqueness then TreeCode(f, t) else ZERO;
            && EndValue(v).valid == (Combinators(f, Top(v).schema, t) && !Duplicate(Below(v), h))
            && (EndValue(v).valid ==> EndValue(v).stack == Record(Below(v), h))
  {
    hide Fits, Events, Parallels, Accepts, Combinators, TreeCode, Record, Duplicate, Run, HashOf, SchemaEndValue;
    var c := Top(v);
    if c.schema.enum != [] || c.arrayUniqueness {
      HashWatched(f, c, t);
    }
    forall i | 0 <= i < |c.validators| ensures c.validators[i].valid == Accepts(f, Parallels(c.schema)[i], t) {
      assert Saw(f, c.validators[i], Parallels(c.schema)[i], Events(t));
      assert ParallelDecides(f, Parallels(c.schema)[i], t);
    }
    SlotsDecide(f, c, t);
  }

  /** A fresh validator for `s` decides `s` on the events of `t`. */
  ghost predicate ParallelDecides(f: DoubleBytes, s: Schema, t: Json) {
    FreshFits(s);
    Run(f, Fresh(s), Events(t)).valid == Accepts(f, s, t)
  }

  // ---------------------------------------------------------------------------------------------
  // One value
  // ---------------------------------------------------------------------------------------------

  /** The schema the next value will be judged by. */
  function NextSchema(v: Validator): Schema
    requires BeginValue(v).Some?
  {
    BeginningContext(v);
    Top(BeginValue(v).value).schema
  }

  /** What running the events of `t` on `v` must come to. */
  ghost predicate ValueDecided(f: DoubleBytes, v: Validator, t: Json)
    requires Fits(v) && BeginValue(v).Some?
  {
    BeginningContext(v);
    BeginValueFits(v);
    var w := BeginValue(v).value;
    TopFits(w);
    var h := if Top(w).arrayUniqueness then TreeCode(f, t) else ZERO;
    var after := AdvanceAll(f, v.root, Below(w), Events(t));
    var r := Run(f, v, Events(t));
    && r.valid == (Accepts(f, Top(w).schema, t) && !Duplicate(after, h))
    && (r.valid ==> r.stack == Record(after, h))
  }

  lemma NoSchemaRejects(f: DoubleBytes, v: Validator, t: Json)
    requires Fits(v) && BeginValue(v).None?
    ensures !Run(f, v, Events(t)).valid
  {
    hide Fits, BeginValue;
    FirstEventOpens(t);
    RunRejected(f, Handle(f, v, Events(t)[0]), Events(t)[1..]);
  }

  lemma FirstEventOpens(t: Json)
    ensures Opens(Events(t)[0])
  {
  }

  lemma {:induction false} ValueRun(f: DoubleBytes, v: Validator, t: Json)
    requires Fits(v) && v.valid && BeginValue(v).Some?
    ensures ValueDecided(f, v, t)
    decreases t, 0, NextSchema(v), 1
  {
    hide Fits, BeginValue, Accepts, Combinators, Run, Handle, AdvanceAll, Advance, Record, Duplicate, TypeAllows,
         Parallels, Within, ContextFits, AllContextsFit, Forward, EndValue, SchemaOpen, Watching;
    var e := Events(t)[0];
    FirstEventOpens(t);
    BeginningContext(v);
    if !TypeAllows(NextSchema(v), e) {
      TypeRejects(f, v, t);
    } else {
      forall i | 0 <= i < |Parallels(NextSchema(v))|
        ensures ParallelDecides(f, Parallels(NextSchema(v))[i], t)
      {
        ParallelRun(f, NextSchema(v), i, t);
      }
      match t
      case Arr(es) => ArrayRun(f, v, es);
      case Obj(ms) => ObjectRun(f, v, ms);
      case _ => ScalarRun(f, v, t);
    }
  }

  lemma {:induction false} ParallelRun(f: DoubleBytes, s: Schema, i: nat, t: Json)
    requires i < |Parallels(s)|
    ensures ParallelDecides(f, Parallels(s)[i], t)
    decreases t, 0, s, 0
  {
    hide Fits, Accepts, Run, Events, AdvanceAll;
    var x := Parallels(s)[i];
    SchemaPartsAreSmaller(s, s);
    assert x in Parallels(s);
    FreshFits(x);
    assert BeginValue(Fresh(x)).Some? && NextSchema(Fresh(x)) == x;
    ValueRun(f, Fresh(x), t);
  }

  lemma TypeRejects(f: DoubleBytes, v: Validator, t: Json)
    requires Fits(v) && v.valid && BeginValue(v).Some?
    requires !TypeAllows(NextSchema(v), Events(t)[0])
    ensures ValueDecided(f, v, t)
  {
    hide Fits, BeginValue, Combinators, AdvanceAll, Record, Duplicate, TypeAllows;
    BeginningContext(v);
    FirstEventOpens(t);
    RunRejected(f, Handle(f, v, Events(t)[0]), Events(t)[1..]);
  }

  /** How the validator handles an event that opens a value whose type is allowed. */
  lemma HandleOpening(f: DoubleBytes, v: Validator, e: Event)
    requires Fits(v) && v.valid && BeginValue(v).Some? && Opens(e) && TypeAllows(NextSchema(v), e)
    ensures var w := BeginValue(v).value; var x := WithTop(w, Opened(Top(w), e));
            && Fits(x) && Fits(Forward(f, x, e))
            && Handle(f, v, e) == if e.StartObject? || e.StartArray? then Forward(f, x, e)
               else EndValue(Forward(f, x, e))
  {
    hide Fits, BeginValue, TypeAllows, Forward, EndValue, Parallels;
    BeginValueFits(v);
    BeginningContext(v);
    OpenFits(BeginValue(v).value, e);
  }

  lemma ScalarRun(f: DoubleBytes, v: Validator, t: Json)
    requires Fits(v) && v.valid && BeginValue(v).Some?
    requires IsScalar(t) && TypeAllows(NextSchema(v), Events(t)[0])
    requires forall i :: 0 <= i < |Parallels(NextSchema(v))| ==> ParallelDecides(f, Parallels(NextSchema(v))[i], t)
    ensures ValueDecided(f, v, t)
  {
    hide Fits, BeginValue, Combinators, Run, Handle, AdvanceAll, Record, Duplicate, TypeAllows, Parallels, Within,
         AllContextsFit, Forward, EndValue, Watching, ParallelDecides;
    var e := Events(t)[0];
    assert Events(t) == [e];
    BeginningContext(v);
    HandleOpening(f, v, e);
    OpeningForwarded(f, v, e);
    RunOne(f, v, e);
    var w := BeginValue(v).value;
    var x := Forward(f, WithTop(w, Opened(Top(w), e)), e);
    assert Below(x) == AdvanceAll(f, v.root, Below(w), [e]);
    Closes(f, x, t);
  }

  /** A closing event reaches the contexts below and the context of the value itself. */
  lemma ClosingForwarded(f: DoubleBytes, r: Validator, below: seq<Context>, c: Context,
                         open: Event, mid: seq<Event>, close: Event)
    requires Fits(r) && AllContextsFit(r.root, below) && ContextFits(r.root, c)
    requires Watching(f, c, [open])
    requires AllContextsFit(r.root, AdvanceAll(f, r.root, below, [open]) + [c])
    requires r.stack == AdvanceAll(f, r.root, AdvanceAll(f, r.root, below, [open]) + [c], mid)
    ensures Forward(f, r, close) ==
            r.(stack := AdvanceAll(f, r.root, below, [open] + mid + [close]) + [Advance(f, r.root, c, mid + [close])])
    ensures Watching(f, Advance(f, r.root, c, mid + [close]), [open] + mid + [close])
  {
    hide Fits, AdvanceAll, Advance, ContextFits, AllContextsFit, Watching, Forward;
    var before := AdvanceAll(f, r.root, below, [open]);
    ForwardAdvances(f, r, close);
    AdvanceAllTwice(f, r.root, before + [c], mid, [close]);
    AdvanceAllSplit(f, r.root, before, c, mid + [close]);
    AdvanceAllTwice(f, r.root, below, [open], mid + [close]);
    WatchingOn(f, r.root, c, [open], mid + [close]);
    assert [open] + (mid + [close]) == [open] + mid + [close];
  }

  // ---------------------------------------------------------------------------------------------
  // Arrays
  // ---------------------------------------------------------------------------------------------

  ghost predicate ArrayContext(root: Schema, c: Context) {
    ContextFits(root, c) && c.inArray && (c.valueUniqueness ==> c.schema.uniqueItems)
  }

  lemma AfterElementsFits(f: DoubleBytes, root: Schema, c: Context, es: seq<Json>)
    requires ContextFits(root, c)
    requires es != [] ==> ItemSchema(c.schema, c.arrayElementIndex + |es| - 1).Some?
    ensures ContextFits(root, AfterElements(f, c, es))
  {
    hide Fits, AllValidatorsFit, ItemSchema, Within;
    SchemaPartsAreSmaller(c.schema, root);
  }

  /** What running the events of the elements `es` on an open array must come to. */
  ghost predicate ElementsDecided(f: DoubleBytes, v: Validator, es: seq<Json>)
    requires Fits(v) && v.stack != []
  {
    TopFits(v);
    var c := Top(v);
    var r := Run(f, v, ElementEvents(es));
    var after := Below(v) + [AfterElements(f, c, es)];
    && r.valid == ElementsAccepted(f, c.schema, c.arrayElementIndex, es, c.elementHashes)
    && (r.valid ==> AllContextsFit(v.root, after) && r.stack == AdvanceAll(f, v.root, after, ElementEvents(es)))
  }

  /** One element of an open array. */
  lemma {:induction false} ElementStep(f: DoubleBytes, v: Validator, t: Json)
    requires Fits(v) && v.valid && v.stack != [] && ArrayContext(v.root, Top(v))
    ensures var c := Top(v); var item := ItemSchema(c.schema, c.arrayElementIndex);
            var r := Run(f, v, Events(t)); var after := Below(v) + [AfterElements(f, c, [t])];
            && r.valid == (item.Some? && Accepts(f, item.value, t)
                           && !(c.schema.uniqueItems && TreeCode(f, t) in c.elementHashes))
            && (r.valid ==> AllContextsFit(v.root, after) && r.stack == AdvanceAll(f, v.root, after, Events(t)))
    decreases t, 1
  {
    hide Fits, Accepts, Run, Events, TreeCode, ItemSchema, AdvanceAll, Within, AllValidatorsFit;
    var c := Top(v);
    var item := ItemSchema(c.schema, c.arrayElementIndex);
    TopFits(v);
    if item.None? {
      NoSchemaRejects(f, v, t);
    } else {
      ValueRun(f, v, t);
      BeginValueFits(v);
      var w := BeginValue(v).value;
      TopFits(w);
      assert Top(w).schema == item.value && Top(w).arrayUniqueness == c.schema.uniqueItems;
      assert ElementCodes(f, [t]) == [TreeCode(f, t)];
      var began := Top(w.(stack := Below(w)));
      assert Below(w) == Below(v) + [began];
      assert began == c.(arrayElementIndex := c.arrayElementIndex + 1, valueSchema := item,
             valueUniqueness := c.schema.uniqueItems);
      RecordElement(f, v.root, Below(v), began, TreeCode(f, t), Events(t));
      assert c.elementHashes + [] == c.elementHashes;
      assert AfterElements(f, c, [t]) ==
             if c.schema.uniqueItems then began.(elementHashes := c.elementHashes + [TreeCode(f, t)]) else began;
      AfterElementsFits(f, v.root, c, [t]);
    }
  }

  /** Recording a code commutes with forwarding events. */
  lemma RecordElement(f: DoubleBytes, root: Schema, below: seq<Context>, c: Context, code: Code, es: seq<Event>)
    requires AllContextsFit(root, below) && ContextFits(root, c)
    ensures AllContextsFit(root, below + [c])
    ensures var h := if c.valueUniqueness then code else ZERO;
            var recorded := if c.valueUniqueness then c.(elementHashes := c.elementHashes + [h]) else c;
            && ContextFits(root, recorded) && AllContextsFit(root, below + [recorded])
            && Record(AdvanceAll(f, root, below + [c], es), h) == AdvanceAll(f, root, below + [recorded], es)
            && Duplicate(AdvanceAll(f, root, below + [c], es), h) == (c.valueUniqueness && h in c.elementHashes)
  {
    hide Fits, Within, Run, HashEvents, AllValidatorsFit, AdvanceAll;
    var recorded := if c.valueUniqueness then c.(elementHashes := c.elementHashes + [code]) else c;
    AdvanceAllSplit(f, root, below, c, es);
    AdvanceAllSplit(f, root, below, recorded, es);
  }

  lemma {:induction false} ElementsRun(f: DoubleBytes, v: Validator, es: seq<Json>)
    requires Fits(v) && v.valid && v.stack != [] && ArrayContext(v.root, Top(v))
    ensures ElementsDecided(f, v, es)
    decreases es, 0
  {
    hide Fits, Accepts, Run, Events, TreeCode, ItemSchema, AdvanceAll, Advance, ContextFits, AllContextsFit;
    if es == [] {
      TopFits(v);
      ElementsNone(f, v);
    } else {
      ElementStep(f, v, es[0]);
      var r := Run(f, v, Events(es[0]));
      RunAppend(f, v, Events(es[0]), ElementEvents(es[1..]));
      if !r.valid {
        RunRejected(f, r, ElementEvents(es[1..]));
      } else {
        SteppedContext(f, v, es);
        ElementsRun(f, r, es[1..]);
        ElementsOn(f, v, es);
      }
    }
  }

  lemma ElementsNone(f: DoubleBytes, v: Validator)
    requires Fits(v) && v.valid && v.stack != []
    ensures ElementsDecided(f, v, [])
  {
    hide Fits, AdvanceAll, ContextFits, Accepts, ItemSchema;
    TopFits(v);
    FitsContexts(v);
    AdvanceByNothing(f, v.root, v.stack);
    assert Below(v) + [Top(v)] == v.stack;
  }

  lemma {:induction false} LastItemAllowed(f: DoubleBytes, s: Schema, i: nat, es: seq<Json>, seen: seq<Code>)
    requires es != [] && ElementsAccepted(f, s, i, es, seen)
    ensures ItemSchema(s, i + |es| - 1).Some?
    decreases |es|
  {
    hide Accepts, ItemSchema, TreeCode;
    if |es| > 1 {
      LastItemAllowed(f, s, i + 1, es[1..], seen + if s.uniqueItems then [TreeCode(f, es[0])] else []);
    }
  }

  /** `r`, the validator after an accepted first element, in terms of the contexts before it. */
  ghost predicate Stepped(f: DoubleBytes, v: Validator, t: Json, r: Validator)
    requires Fits(v) && v.stack != []
  {
    var after := Below(v) + [AfterElements(f, Top(v), [t])];
    && r.root == v.root && r.valid && AllContextsFit(v.root, after)
    && r.stack == AdvanceAll(f, v.root, after, Events(t))
  }

  lemma SteppedContext(f: DoubleBytes, v: Validator, es: seq<Json>)
    requires Fits(v) && v.stack != [] && ArrayContext(v.root, Top(v)) && es != []
    requires Stepped(f, v, es[0], Run(f, v, Events(es[0])))
    ensures var r := Run(f, v, Events(es[0])); var c1 := AfterElements(f, Top(v), [es[0]]);
            && r.stack != [] && ContextFits(v.root, c1) && AllContextsFit(v.root, Below(v))
            && Top(r) == Advance(f, v.root, c1, Events(es[0]))
            && Below(r) == AdvanceAll(f, v.root, Below(v), Events(es[0]))
            && ArrayContext(r.root, Top(r))
  {
    hide Fits, Run, Events, TreeCode, ItemSchema, AdvanceAll, ContextFits;
    var c1 := AfterElements(f, Top(v), [es[0]]);
    assert (Below(v) + [c1])[|Below(v)|] == c1;
    TopFits(v);
    AdvanceAllSplit(f, v.root, Below(v), c1, Events(es[0]));
    TopFits(Run(f, v, Events(es[0])));
  }

  lemma AfterElementsCommutes(f: DoubleBytes, root: Schema, c: Context, es: seq<Json>, seen: seq<Event>)
    requires ContextFits(root, c) && ContextFits(root, AfterElements(f, c, es))
    ensures AfterElements(f, Advance(f, root, c, seen), es) == Advance(f, root, AfterElements(f, c, es), seen)
  {
    hide Fits, Run, ItemSchema, AllValidatorsFit, Within;
  }

  lemma AfterElementsSplit(f: DoubleBytes, c: Context, es: seq<Json>)
    requires es != []
    ensures AfterElements(f, c, es) == AfterElements(f, AfterElements(f, c, [es[0]]), es[1..])
  {
    hide ItemSchema, TreeCode;
    assert ElementCodes(f, es) == ElementCodes(f, [es[0]]) + ElementCodes(f, es[1..]);
  }

  /** The elements after an accepted first one. */
  lemma ElementsOn(f: DoubleBytes, v: Validator, es: seq<Json>)
    requires Fits(v) && v.valid && v.stack != [] && ArrayContext(v.root, Top(v)) && es != []
    requires Stepped(f, v, es[0], Run(f, v, Events(es[0])))
    requires Run(f, v, Events(es[0])).stack != []
    requires ItemSchema(Top(v).schema, Top(v).arrayElementIndex).Some?
    requires ElementsDecided(f, Run(f, v, Events(es[0])), es[1..])
    ensures var r := Run(f, Run(f, v, Events(es[0])), ElementEvents(es[1..]));
            var c := Top(v); var after := Below(v) + [AfterElements(f, c, es)];
            var code := TreeCode(f, es[0]); var more := c.elementHashes + if c.schema.uniqueItems then [code] else [];
            && r.valid == ElementsAccepted(f, c.schema, c.arrayElementIndex + 1, es[1..], more)
            && (r.valid ==> AllContextsFit(v.root, after)
                            && r.stack == AdvanceAll(f, v.root, after, Events(es[0]) + ElementEvents(es[1..])))
  {
    hide Fits, Run, Events, ElementEvents, TreeCode, ItemSchema, AdvanceAll, Advance, Within, AllValidatorsFit, Accepts;
    var c := Top(v);
    var c1 := AfterElements(f, c, [es[0]]);
    var r1 := Run(f, v, Events(es[0]));
    SteppedContext(f, v, es);
    assert c1.elementHashes == c.elementHashes + if c.schema.uniqueItems then [TreeCode(f, es[0])] else [] by {
      assert ElementCodes(f, [es[0]]) == [TreeCode(f, es[0])];
    }
    assert Top(r1).schema == c.schema && Top(r1).arrayElementIndex == c.arrayElementIndex + 1
           && Top(r1).elementHashes == c1.elementHashes by { AdvanceKeeps(f, v.root, c1, Events(es[0])); }
    var r := Run(f, r1, ElementEvents(es[1..]));
    if r.valid {
      AfterElementsSplit(f, c, es);
      if |es| > 1 {
        LastItemAllowed(f, c.schema, c.arrayElementIndex + 1, es[1..], c1.elementHashes);
      }
      AfterElementsFits(f, v.root, c, es);
      AfterElementsCommutes(f, v.root, c1, es[1..], Events(es[0]));
      AdvanceAllSplit(f, v.root, Below(v), AfterElements(f, c, es), Events(es[0]));
      AdvanceAllTwice(f, v.root, Below(v) + [AfterElements(f, c, es)], Events(es[0]), ElementEvents(es[1..]));
    }
  }

  lemma AdvanceKeeps(f: DoubleBytes, root: Schema, c: Context, es: seq<Event>)
    requires ContextFits(root, c)
    ensures var a := Advance(f, root, c, es);
            && a.schema == c.schema && a.valueSchema == c.valueSchema && a.elementHashes == c.elementHashes
            && a.arrayElementIndex == c.arrayElementIndex && a.propertyExist == c.propertyExist
            && a.inArray == c.inArray && a.valueUniqueness == c.valueUniqueness
               && a.arrayUniqueness == c.arrayUniqueness
  {
    hide Fits, Run, AllValidatorsFit, Within;
  }

  lemma {:induction false} ArrayRun(f: DoubleBytes, v: Validator, es: seq<Json>)
    requires Fits(v) && v.valid && BeginValue(v).Some?
    requires TypeAllows(NextSchema(v), StartArray)
    requires forall i :: 0 <= i < |Parallels(NextSchema(v))| ==>
               ParallelDecides(f, Parallels(NextSchema(v))[i], Arr(es))
    ensures ValueDecided(f, v, Arr(es))
    decreases es, 1
  {
    hide Fits, BeginValue, Accepts, Combinators, Run, Handle, AdvanceAll, Advance, Record, Duplicate, TypeAllows,
         Parallels, Within, ContextFits, AllContextsFit, Forward, EndValue, Watching, ParallelDecides,
         ElementEvents, ItemSchema, TreeCode, ElementsAccepted, SchemaEndArray;
    var t, mid, close := Arr(es), ElementEvents(es), EndArray(|es|);
    BeginningContext(v);
    HandleOpening(f, v, StartArray);
    OpeningForwarded(f, v, StartArray);
    var w := BeginValue(v).value;
    var c := Opened(Top(w), StartArray);
    var v1 := Handle(f, v, StartArray);
    var c1 := Advance(f, v.root, c, [StartArray]);
    var s := NextSchema(v);
    AdvanceKeeps(f, v.root, c, [StartArray]);
    TopFits(v1);
    assert Top(v1) == c1;
    ElementsRun(f, v1, es);
    var r := Run(f, v1, mid);
    RunOne(f, v, StartArray);
    RunOne(f, r, close);
    RunAppend(f, v, [StartArray] + mid, [close]);
    RunAppend(f, v, [StartArray], mid);
    ArrayAccepts(f, s, es);
    if !r.valid {
      RunRejected(f, r, [close]);
    } else {
      var c2 := AfterElements(f, c1, es);
      assert Watching(f, c2, [StartArray]) by { WatchingSame(f, c1, c2, [StartArray]); }
      assert (Below(v1) + [c2])[|Below(v1)|] == c2 by { AllContextsFitLast(v.root, Below(v1), c2); }
      AllContextsFitLast(v.root, Below(v1), c2);
      ClosingForwarded(f, r, Below(w), c2, StartArray, mid, close);
      var x := Forward(f, r, close);
      var c3 := Advance(f, r.root, c2, mid + [close]);
      AdvanceKeeps(f, r.root, c2, mid + [close]);
      var y := WithTop(x, c3.(inArray := false));
      CloseArray(f, r, |es|);
      TopFits(x);
      WithTopFits(x, c3.(inArray := false)) by { InArrayFits(r.root, c3); }
      WatchingSame(f, c3, c3.(inArray := false), [StartArray] + mid + [close]);
      assert Events(t) == [StartArray] + mid + [close];
      ItemLimits(Top(y), |es|);
      if SchemaEndArray(Top(y), |es|) {
        Closes(f, y, t);
      }
    }
  }

  lemma ItemLimits(c: Context, n: nat)
    ensures SchemaEndArray(c, n) == (c.schema.minItems <= n <= c.schema.maxItems)
  {
  }

  lemma InArrayFits(root: Schema, c: Context)
    requires ContextFits(root, c)
    ensures ContextFits(root, c.(inArray := false))
  {
    hide Fits;
  }

  lemma AllContextsFitLast(root: Schema, below: seq<Context>, c: Context)
    requires AllContextsFit(root, below + [c])
    ensures AllContextsFit(root, below) && ContextFits(root, c)
  {
    hide ContextFits;
    assert (below + [c])[|below|] == c;
    assert forall i :: 0 <= i < |below| ==> (below + [c])[i] == below[i];
  }

  lemma WatchingSame(f: DoubleBytes, c: Context, d: Context, seen: seq<Event>)
    requires Watching(f, c, seen)
    requires c.schema == d.schema && c.arrayUniqueness == d.arrayUniqueness
    requires c.hasher == d.hasher && c.validators == d.validators
    ensures Watching(f, d, seen)
  {
    hide Saw, HashEvents, Parallels;
  }

  lemma CloseArray(f: DoubleBytes, r: Validator, n: nat)
    requires Fits(r) && r.valid && r.stack != []
    ensures Handle(f, r, EndArray(n)) == HandleEndArray(f, r, n)
  {
    hide Fits, HandleEndArray, EndValue, SchemaKey, SchemaOpen, BeginValue, SchemaEndObject, Forward;
  }

  lemma ArrayAccepts(f: DoubleBytes, s: Schema, es: seq<Json>)
    ensures Accepts(f, s, Arr(es)) ==
              (&& TypeAllows(s, StartArray) && Combinators(f, s, Arr(es))
               && s.minItems <= |es| <= s.maxItems && ElementsAccepted(f, s, 0, es, []))
  {
    hide TypeAllows, Combinators, ItemSchema, ElementCodes, ElementsAccepted, All, AllNew, Distinct, ElementVerdicts;
    ElementsMeaning(f, s, 0, es, []);
    AllNewIsDistinct([], ElementCodes(f, es));
    assert [] + ElementCodes(f, es) == ElementCodes(f, es);
    assert Events(Arr(es))[0] == StartArray;
    var bs := ElementVerdicts(f, s, 0, es);
    ElementVerdictsAt(f, s, 0, es);
    forall i | 0 <= i < |es|
      ensures bs[i] == (ItemSchema(s, i).Some? && Accepts(f, ItemSchema(s, i).value, es[i]))
    {
      assert 0 + i == i;
    }
    AllByPosition(f, s, es, bs);
  }

  lemma AllByPosition(f: DoubleBytes, s: Schema, es: seq<Json>, bs: seq<bool>)
    requires |bs| == |es|
    requires forall i :: 0 <= i < |es| ==>
               bs[i] == (ItemSchema(s, i).Some? && Accepts(f, ItemSchema(s, i).value, es[i]))
    ensures All(bs) <==> forall i :: 0 <= i < |es| ==>
                           ItemSchema(s, i).Some? && Accepts(f, ItemSchema(s, i).value, es[i])
  {
    hide ItemSchema, Accepts;
    if All(bs) {
      forall i | 0 <= i < |es| ensures ItemSchema(s, i).Some? && Accepts(f, ItemSchema(s, i).value, es[i]) {
        assert bs[i];
      }
    }
  }

  ghost function ElementVerdicts(f: DoubleBytes, s: Schema, i: nat, es: seq<Json>): (bs: seq<bool>)
    ensures |bs| == |es|
    decreases |es|
  {
    if es == [] then [] else [ElementAccepted(f, s, i, es[0])] + ElementVerdicts(f, s, i + 1, es[1..])
  }

  lemma {:induction false} ElementVerdictsAt(f: DoubleBytes, s: Schema, i: nat, es: seq<Json>)
    ensures forall k :: 0 <= k < |es| ==> ElementVerdicts(f, s, i, es)[k] == ElementAccepted(f, s, i + k, es[k])
    decreases |es|
  {
    hide ElementAccepted;
    if es != [] {
      ElementVerdictsAt(f, s, i + 1, es[1..]);
      var bs, cs := ElementVerdicts(f, s, i, es), ElementVerdicts(f, s, i + 1, es[1..]);
      forall k | 0 <= k < |es| ensures bs[k] == ElementAccepted(f, s, i + k, es[k]) {
        if k > 0 {
          assert bs[k] == cs[k - 1] == ElementAccepted(f, s, i + 1 + (k - 1), es[1..][k - 1]);
        }
      }
    }
  }

  lemma {:induction false} ElementsMeaning(f: DoubleBytes, s: Schema, i: nat, es: seq<Json>, seen: seq<Code>)
    ensures ElementsAccepted(f, s, i, es, seen) <==>
            All(ElementVerdicts(f, s, i, es)) && (s.uniqueItems ==> AllNew(seen, ElementCodes(f, es)))
    decreases |es|
  {
    hide ElementAccepted, TreeCode, All;
    var bs := ElementVerdicts(f, s, i, es);
    if es == [] {
      assert All([]) by { AllOfNothing(); }
    } else {
      ElementsMeaning(f, s, i + 1, es[1..], seen + if s.uniqueItems then [TreeCode(f, es[0])] else []);
      TailBits(bs);
      assert bs[1..] == ElementVerdicts(f, s, i + 1, es[1..]);
    }
  }

  lemma AllOfNothing()
    ensures All([])
  {
  }

  // ---------------------------------------------------------------------------------------------
  // Objects
  // ---------------------------------------------------------------------------------------------

  ghost predicate ObjectContext(root: Schema, c: Context) {
    ContextFits(root, c) && !c.inArray && !c.valueUniqueness
  }

  ghost predicate MemberAccepted(f: DoubleBytes, s: Schema, m: Member) {
    MemberSchema(s, m.name).Some? && Accepts(f, MemberSchema(s, m.name).value, m.value)
  }

  lemma AfterMembersFits(root: Schema, c: Context, ms: seq<Member>)
    requires ContextFits(root, c)
    ensures ContextFits(root, AfterMembers(c, ms))
  {
    hide Fits, AllValidatorsFit, MemberSchema, Within;
    SchemaPartsAreSmaller(c.schema, root);
  }

  lemma AfterMembersCommutes(f: DoubleBytes, root: Schema, c: Context, ms: seq<Member>, seen: seq<Event>)
    requires ContextFits(root, c) && ContextFits(root, AfterMembers(c, ms))
    ensures AfterMembers(Advance(f, root, c, seen), ms) == Advance(f, root, AfterMembers(c, ms), seen)
  {
    hide Fits, Run, MemberSchema, AllValidatorsFit, Within, MarkAll;
  }

  lemma AfterMembersSplit(c: Context, ms: seq<Member>)
    requires ms != []
    ensures AfterMembers(c, ms) == AfterMembers(AfterMembers(c, [ms[0]]), ms[1..])
  {
    hide MemberSchema, PropertyIndex;
    assert MarkAll(c.schema, c.propertyExist, [ms[0]])
           == Mark(c.propertyExist, PropertyIndex(c.schema.properties, ms[0].name));
  }

  /** What running the events of the members `ms` on an open object must come to. */
  ghost predicate MembersDecided(f: DoubleBytes, v: Validator, ms: seq<Member>)
    requires Fits(v) && v.stack != []
  {
    TopFits(v);
    var r := Run(f, v, MemberEvents(ms));
    var after := Below(v) + [AfterMembers(Top(v), ms)];
    && r.valid == (forall k :: 0 <= k < |ms| ==> MemberAccepted(f, Top(v).schema, ms[k]))
    && (r.valid ==> AllContextsFit(v.root, after) && r.stack == AdvanceAll(f, v.root, after, MemberEvents(ms)))
  }

  /** A key chooses the schema of the member's value and marks its property. */
  lemma KeyStep(f: DoubleBytes, v: Validator, m: Member)
    requires Fits(v) && v.valid && v.stack != [] && ObjectContext(v.root, Top(v))
    ensures var c := Top(v); var r := Handle(f, v, Key(m.name)); var after := Below(v) + [AfterMembers(c, [m])];
            && r.valid == MemberSchema(c.schema, m.name).Some?
            && (r.valid ==>
                  && AllContextsFit(v.root, after)
                  && r == v.(stack := AdvanceAll(f, v.root, after, [Key(m.name)])))
  {
    hide Fits, ContextFits, MemberSchema, PropertyIndex, Forward, AdvanceAll, AllContextsFit;
    var c, e := Top(v), Key(m.name);
    TopFits(v);
    if MemberSchema(c.schema, m.name).Some? {
      KeyFits(v, m.name);
      var x := WithTop(v, SchemaKey(c, m.name).value);
      assert SchemaKey(c, m.name).value == AfterMembers(c, [m]) by {
        assert [m][1..] == [];
        assert MarkAll(c.schema, c.propertyExist, [m])
               == Mark(c.propertyExist, PropertyIndex(c.schema.properties, m.name));
      }
      ForwardAdvances(f, x, e);
    }
  }

  /** One member of an open object. */
  lemma {:induction false} MemberStep(f: DoubleBytes, v: Validator, m: Member)
    requires Fits(v) && v.valid && v.stack != [] && ObjectContext(v.root, Top(v))
    ensures var c := Top(v); var r := Run(f, v, OneMember(m)); var after := Below(v) + [AfterMembers(c, [m])];
            && r.valid == MemberAccepted(f, c.schema, m)
            && (r.valid ==> AllContextsFit(v.root, after) && r.stack == AdvanceAll(f, v.root, after, OneMember(m)))
    decreases m, 1
  {
    hide Fits, Accepts, Run, Events, MemberSchema, AdvanceAll, ContextFits, AllContextsFit, Handle, Advance;
    var c := Top(v);
    var e, es := Key(m.name), Events(m.value);
    KeyStep(f, v, m);
    RunAppend(f, v, [e], es);
    RunOne(f, v, e);
    var r := Handle(f, v, e);
    if !r.valid {
      RunRejected(f, r, es);
    } else {
      var k := AfterMembers(c, [m]);
      AllContextsFitLast(v.root, Below(v), k);
      AdvanceAllSplit(f, v.root, Below(v), k, [e]);
      AdvanceKeeps(f, v.root, k, [e]);
      assert Top(r) == Advance(f, v.root, k, [e]);
      ValueRun(f, r, m.value);
      BeginValueFits(r);
      var w := BeginValue(r).value;
      TopFits(w);
      assert Below(w) == r.stack;
      assert !Top(w).arrayUniqueness && Top(w).schema == MemberSchema(c.schema, m.name).value;
      AdvanceAllTwice(f, v.root, Below(v) + [k], [e], es);
      UnrecordedValue(f, v.root, Below(v), k, OneMember(m));
    }
  }

  lemma UnrecordedValue(f: DoubleBytes, root: Schema, below: seq<Context>, c: Context, es: seq<Event>)
    requires AllContextsFit(root, below) && ContextFits(root, c) && !c.valueUniqueness
    ensures AllContextsFit(root, below + [c])
    ensures Record(AdvanceAll(f, root, below + [c], es), ZERO) == AdvanceAll(f, root, below + [c], es)
    ensures !Duplicate(AdvanceAll(f, root, below + [c], es), ZERO)
  {
    RecordElement(f, root, below, c, ZERO, es);
  }

  lemma {:induction false} MembersRun(f: DoubleBytes, v: Validator, ms: seq<Member>)
    requires Fits(v) && v.valid && v.stack != [] && ObjectContext(v.root, Top(v))
    ensures MembersDecided(f, v, ms)
    decreases ms, 0
  {
    hide Fits, Accepts, Run, Events, AdvanceAll, Advance, ContextFits, AllContextsFit, MemberAccepted;
    if ms == [] {
      MembersNone(f, v);
    } else {
      var m, rest := ms[0], ms[1..];
      MemberStep(f, v, m);
      var r := Run(f, v, OneMember(m));
      RunAppend(f, v, OneMember(m), MemberEvents(rest));
      assert MemberEvents(ms) == OneMember(m) + MemberEvents(rest);
      if !r.valid {
        TopFits(v);
        RunRejected(f, r, MemberEvents(rest));
      } else {
        MemberStepped(f, v, m);
        MembersRun(f, r, rest);
        MembersOn(f, v, ms);
      }
    }
  }

  lemma MembersNone(f: DoubleBytes, v: Validator)
    requires Fits(v) && v.valid && v.stack != []
    ensures MembersDecided(f, v, [])
  {
    hide Fits, AdvanceAll, ContextFits, Accepts;
    TopFits(v);
    FitsContexts(v);
    AdvanceByNothing(f, v.root, v.stack);
    assert Below(v) + [Top(v)] == v.stack;
  }

  lemma MemberStepped(f: DoubleBytes, v: Validator, m: Member)
    requires Fits(v) && v.stack != [] && ObjectContext(v.root, Top(v))
    requires AllContextsFit(v.root, Below(v) + [AfterMembers(Top(v), [m])])
    requires Run(f, v, OneMember(m)).stack ==
             AdvanceAll(f, v.root, Below(v) + [AfterMembers(Top(v), [m])], OneMember(m))
    ensures var r := Run(f, v, OneMember(m)); var c1 := AfterMembers(Top(v), [m]);
            && r.stack != [] && ContextFits(v.root, c1) && AllContextsFit(v.root, Below(v))
            && Top(r) == Advance(f, v.root, c1, OneMember(m))
            && Below(r) == AdvanceAll(f, v.root, Below(v), OneMember(m))
            && ObjectContext(r.root, Top(r)) && Top(r).schema == Top(v).schema
  {
    hide Fits, Run, OneMember, AdvanceAll, ContextFits, Advance;
    var c1 := AfterMembers(Top(v), [m]);
    AllContextsFitLast(v.root, Below(v), c1);
    AdvanceAllSplit(f, v.root, Below(v), c1, OneMember(m));
    AdvanceKeeps(f, v.root, c1, OneMember(m));
    TopFits(Run(f, v, OneMember(m)));
  }

  /** The members after an accepted first one. */
  lemma MembersOn(f: DoubleBytes, v: Validator, ms: seq<Member>)
    requires Fits(v) && v.valid && v.stack != [] && ObjectContext(v.root, Top(v)) && ms != []
    requires AllContextsFit(v.root, Below(v) + [AfterMembers(Top(v), [ms[0]])])
    requires Run(f, v, OneMember(ms[0])).stack ==
             AdvanceAll(f, v.root, Below(v) + [AfterMembers(Top(v), [ms[0]])], OneMember(ms[0]))
    requires Run(f, v, OneMember(ms[0])).stack != []
    requires MembersDecided(f, Run(f, v, OneMember(ms[0])), ms[1..])
    ensures var r := Run(f, Run(f, v, OneMember(ms[0])), MemberEvents(ms[1..]));
            var after := Below(v) + [AfterMembers(Top(v), ms)];
            && r.valid == (forall k :: 1 <= k < |ms| ==> MemberAccepted(f, Top(v).schema, ms[k]))
            && (r.valid ==> AllContextsFit(v.root, after)
                            && r.stack == AdvanceAll(f, v.root, after, OneMember(ms[0]) + MemberEvents(ms[1..])))
  {
    hide Fits, Run, OneMember, MemberEvents, AdvanceAll, Advance, ContextFits, MemberAccepted, AfterMembers;
    var c1 := AfterMembers(Top(v), [ms[0]]);
    var r1 := Run(f, v, OneMember(ms[0]));
    MemberStepped(f, v, ms[0]);
    assert forall k :: 1 <= k < |ms| ==> ms[k] == ms[1..][k - 1];
    var r := Run(f, r1, MemberEvents(ms[1..]));
    if r.valid {
      AfterMembersSplit(Top(v), ms);
      TopFits(v);
      AfterMembersFits(v.root, Top(v), ms);
      AfterMembersCommutes(f, v.root, c1, ms[1..], OneMember(ms[0]));
      AdvanceAllSplit(f, v.root, Below(v), AfterMembers(Top(v), ms), OneMember(ms[0]));
      AdvanceAllTwice(f, v.root, Below(v) + [AfterMembers(Top(v), ms)], OneMember(ms[0]), MemberEvents(ms[1..]));
    }
  }

  lemma HandleEndObject(f: DoubleBytes, r: Validator, n: nat)
    requires Fits(r) && r.valid && r.stack != []
    ensures var x := Forward(f, r, EndObject(n));
            Handle(f, r, EndObject(n)) == if SchemaEndObject(Top(x), n) then EndValue(x) else Reject(x)
  {
    hide Fits, Forward, EndValue, SchemaEndObject, SchemaKey, SchemaOpen, BeginValue, SchemaEndArray, ContextFits;
  }

  /** The properties marked by the keys are those that some member declares. */
  lemma {:induction false} MarkedByMembers(s: Schema, exist: seq<bool>, ms: seq<Member>, i: nat)
    requires i < |exist|
    ensures MarkAll(s, exist, ms)[i] <==>
            exist[i] || exists k :: 0 <= k < |ms| && PropertyIndex(s.properties, ms[k].name) == i
    decreases |ms|
  {
    hide PropertyIndex;
    if ms != [] {
      var j := PropertyIndex(s.properties, ms[0].name);
      MarkedByMembers(s, Mark(exist, j), ms[1..], i);
      assert forall k :: 1 <= k < |ms| ==> ms[k] == ms[1..][k - 1];
      if k :| 0 <= k < |ms| - 1 && PropertyIndex(s.properties, ms[1..][k].name) == i {
        assert PropertyIndex(s.properties, ms[k + 1].name) == i;
      }
    }
  }

  /** At the end of the object the missing-property check decides `required`. */
  lemma RequiredDecided(s: Schema, ms: seq<Member>)
    ensures var exist := MarkAll(s, seq(|s.properties|, _ => false), ms);
            (HasRequired(s) ==> !Missing(s, exist)) <==> RequiredPresent(s, ms)
  {
    hide PropertyIndex, MarkAll;
    var none := seq(|s.properties|, _ => false);
    var exist := MarkAll(s, none, ms);
    forall i | 0 <= i < |s.properties|
      ensures exist[i] <==> Present(s, i, ms)
    {
      MarkedByMembers(s, none, ms, i);
      if exist[i] {
        var k :| 0 <= k < |ms| && PropertyIndex(s.properties, ms[k].name) == i;
        assert Declares(s, i, ms[k].name);
      }
    }
    if !HasRequired(s) {
      forall i | 0 <= i < |s.properties| ensures !s.properties[i].required {
        assert s.properties[i] in s.properties;
      }
    }
  }

  lemma ObjectAccepts(f: DoubleBytes, s: Schema, ms: seq<Member>)
    ensures Accepts(f, s, Obj(ms)) ==
              (&& TypeAllows(s, StartObject) && Combinators(f, s, Obj(ms)) && RequiredPresent(s, ms)
               && s.minProperties <= |ms| <= s.maxProperties
               && forall k :: 0 <= k < |ms| ==> MemberAccepted(f, s, ms[k]))
  {
    hide TypeAllows, Combinators, MemberSchema, RequiredPresent;
    assert Events(Obj(ms))[0] == StartObject;
  }

  lemma OpenedObject(c: Context)
    requires TypeAllows(c.schema, StartObject) && c == NewContext(c.schema).(arrayUniqueness := c.arrayUniqueness)
    ensures var d := Opened(c, StartObject);
            && d.schema == c.schema && d.arrayUniqueness == c.arrayUniqueness && !d.inArray && !d.valueUniqueness
            && d.propertyExist == if HasRequired(c.schema) then seq(|c.schema.properties|, _ => false) else []
  {
    hide TypeAllows, HasRequired, Parallels;
  }

  lemma EndObjectDecided(c: Context, s: Schema, ms: seq<Member>)
    requires c.schema == s
    requires c.propertyExist == MarkAll(s, if HasRequired(s) then seq(|s.properties|, _ => false) else [], ms)
    ensures SchemaEndObject(c, |ms|) == (RequiredPresent(s, ms) && s.minProperties <= |ms| <= s.maxProperties)
  {
    hide HasRequired, Missing, MarkAll, RequiredPresent;
    RequiredDecided(s, ms);
  }

  lemma {:induction false} ObjectRun(f: DoubleBytes, v: Validator, ms: seq<Member>)
    requires Fits(v) && v.valid && BeginValue(v).Some?
    requires TypeAllows(NextSchema(v), StartObject)
    requires forall i :: 0 <= i < |Parallels(NextSchema(v))| ==>
               ParallelDecides(f, Parallels(NextSchema(v))[i], Obj(ms))
    ensures ValueDecided(f, v, Obj(ms))
    decreases ms, 1
  {
    hide Fits, BeginValue, Accepts, Combinators, Run, Handle, AdvanceAll, Advance, Record, Duplicate, TypeAllows,
         Parallels, Within, ContextFits, AllContextsFit, Forward, EndValue, Watching, ParallelDecides,
         MemberEvents, MemberSchema, TreeCode, MemberAccepted, SchemaEndObject, Opened, RequiredPresent, MarkAll,
         HasRequired;
    var t, mid, close := Obj(ms), MemberEvents(ms), EndObject(|ms|);
    BeginningContext(v);
    HandleOpening(f, v, StartObject);
    OpeningForwarded(f, v, StartObject);
    var w := BeginValue(v).value;
    var c := Opened(Top(w), StartObject);
    OpenedObject(Top(w));
    var v1 := Handle(f, v, StartObject);
    var c1 := Advance(f, v.root, c, [StartObject]);
    var s := NextSchema(v);
    AdvanceKeeps(f, v.root, c, [StartObject]);
    TopFits(v1);
    assert Top(v1) == c1;
    MembersRun(f, v1, ms);
    var r := Run(f, v1, mid);
    RunOne(f, v, StartObject);
    RunOne(f, r, close);
    RunAppend(f, v, [StartObject] + mid, [close]);
    RunAppend(f, v, [StartObject], mid);
    ObjectAccepts(f, s, ms);
    if !r.valid {
      RunRejected(f, r, [close]);
    } else {
      var c2 := AfterMembers(c1, ms);
      WatchingSame(f, c1, c2, [StartObject]);
      AllContextsFitLast(v.root, Below(v1), c2);
      ClosingForwarded(f, r, Below(w), c2, StartObject, mid, close);
      var x := Forward(f, r, close);
      AdvanceKeeps(f, r.root, c2, mid + [close]);
      HandleEndObject(f, r, |ms|);
      assert Events(t) == [StartObject] + mid + [close];
      assert c2.propertyExist == MarkAll(s, c.propertyExist, ms) by { AfterMembersMarks(c1, ms); }
      EndObjectDecided(Top(x), s, ms);
      if SchemaEndObject(Top(x), |ms|) {
        Closes(f, x, t);
      }
    }
  }

  lemma AfterMembersMarks(c: Context, ms: seq<Member>)
    ensures AfterMembers(c, ms).propertyExist == MarkAll(c.schema, c.propertyExist, ms)
  {
  }

  // ---------------------------------------------------------------------------------------------
  // Main theorem
  // ---------------------------------------------------------------------------------------------

  /** Feeding the events of `t` to a new validator for `s` leaves it valid exactly when `s` accepts `t`. */
  lemma StreamingIsMeaning(f: DoubleBytes, s: Schema, t: Json)
    ensures Fits(Fresh(s)) && Run(f, Fresh(s), Events(t)).valid == Accepts(f, s, t)
  {
    hide Fits, Accepts, Run, Events, AdvanceAll;
    FreshFits(s);
    assert BeginValue(Fresh(s)).Some? && NextSchema(Fresh(s)) == s;
    ValueRun(f, Fresh(s), t);
  }
}
