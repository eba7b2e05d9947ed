/**
 What a schema means for a tree, by recursion on the tree and the schema, and the proof that feeding
 the events of the tree to the streaming validator decides exactly that.
 */
module SchemaMeaning {
  import opened Json
  import opened Hasher
  import opened SchemaValidation

  // ---------------------------------------------------------------------------------------------
  // The meaning of a schema
  // ---------------------------------------------------------------------------------------------

  /** `name` is declared by property `i` of the schema (by its first property of that name). */
  predicate Declares(s: Schema, i: nat, name: string) {
    i < |s.properties| && PropertyIndex(s.properties, name) == i
  }

  /** Some member is declared by property `i`. */
  ghost predicate Present(s: Schema, i: nat, ms: seq<Member>) {
    exists k :: 0 <= k < |ms| && Declares(s, i, ms[k].name)
  }

  /** Every required property without a default declares some member. */
  ghost predicate RequiredPresent(s: Schema, ms: seq<Member>) {
    forall i :: 0 <= i < |s.properties| && s.properties[i].required && s.properties[i].schema.defaultLength == 0
      ==> Present(s, i, ms)
  }

  ghost predicate Distinct(codes: seq<Code>) {
    forall i, j :: 0 <= i < j < |codes| ==> codes[i] != codes[j]
  }

  ghost predicate Accepts(f: DoubleBytes, s: Schema, t: Json)
    decreases t, s, 1
  {
    && TypeAllows(s, Events(t)[0])
    && Combinators(f, s, t)
    && match t
       case Obj(ms) =>
         && RequiredPresent(s, ms)
         && s.minProperties <= |ms| <= s.maxProperties
         && forall i :: 0 <= i < |ms| ==>
              && MemberSchema(s, ms[i].name).Some?
              && Accepts(f, MemberSchema(s, ms[i].name).value, ms[i].value)
       case Arr(es) =>
         && s.minItems <= |es| <= s.maxItems
         && (s.uniqueItems ==> Distinct(ElementCodes(f, es)))
         && forall i :: 0 <= i < |es| ==>
              && ItemSchema(s, i).Some?
              && Accepts(f, ItemSchema(s, i).value, es[i])
       case _ => true
  }

  /** `enum`, `allOf`, `anyOf`, `oneOf` and `not`, which look at the whole value. */
  ghost predicate Combinators(f: DoubleBytes, s: Schema, t: Json)
    decreases t, s, 0
  {
    && (s.enum != [] ==> TreeCode(f, t) in s.enum)
    && All(Verdicts(f, s.allOf, t))
    && (s.anyOf != [] ==> Any(Verdicts(f, s.anyOf, t)))
    && (s.oneOf != [] ==> ExactlyOne(Verdicts(f, s.oneOf, t)))
    && (s.negated.Some? ==> !Accepts(f, s.negated.value, t))
  }

  ghost function Verdicts(f: DoubleBytes, xs: seq<Schema>, t: Json): (bs: seq<bool>)
    ensures |bs| == |xs|
    decreases t, xs, 0
  {
    seq(|xs|, i requires 0 <= i < |xs| => Accepts(f, xs[i], t))
  }

  predicate All(bs: seq<bool>) {
    forall i :: 0 <= i < |bs| ==> bs[i]
  }

  predicate Any(bs: seq<bool>) {
    exists i :: 0 <= i < |bs| && bs[i]
  }

  ghost predicate OnlyAt(bs: seq<bool>, i: int) {
    0 <= i < |bs| && bs[i] && forall j :: 0 <= j < |bs| && j != i ==> !bs[j]
  }

  ghost predicate ExactlyOne(bs: seq<bool>) {
    exists i :: OnlyAt(bs, i)
  }

  // ---------------------------------------------------------------------------------------------
  // Runs of events
  // ---------------------------------------------------------------------------------------------

  function Run(f: DoubleBytes, v: Validator, es: seq<Event>): (v': Validator)
    requires Fits(v)
    ensures v'.root == v.root && Fits(v')
    decreases |es|
  {
    hide Fits;
    if es == [] then v else Run(f, Handle(f, v, es[0]), es[1..])
  }

  lemma {:induction false} RunAppend(f: DoubleBytes, v: Validator, a: seq<Event>, b: seq<Event>)
    requires Fits(v)
    ensures Run(f, v, a + b) == Run(f, Run(f, v, a), b)
    decreases |a|
  {
    hide Handle, Fits;
    if a == [] {
      assert a + b == b;
    } else {
      assert (a + b)[1..] == a[1..] + b;
      RunAppend(f, Handle(f, v, a[0]), a[1..], b);
    }
  }

  lemma RunOne(f: DoubleBytes, v: Validator, e: Event)
    requires Fits(v)
    ensures Run(f, v, [e]) == Handle(f, v, e)
  {
    hide Handle, Fits;
    assert [e][1..] == [];
  }

  /** Once invalid, a validator stays invalid. */
  lemma {:induction false} RunRejected(f: DoubleBytes, v: Validator, es: seq<Event>)
    requires Fits(v) && !v.valid
    ensures Run(f, v, es) == v
    decreases |es|
  {
    hide Fits;
    if es != [] {
      RunRejected(f, v, es[1..]);
    }
  }

  /** A context whose hasher and validators have seen the events `es`. */
  function Advance(f: DoubleBytes, ghost root: Schema, c: Context, es: seq<Event>): (c': Context)
    requires ContextFits(root, c)
    ensures ContextFits(root, c')
  {
    hide Fits, Within;
    c.(hasher := if c.hasher.Some? then Some(HashEvents(f, c.hasher.value, es)) else None,
       validators := seq(|c.validators|, i requires 0 <= i < |c.validators| => Run(f, c.validators[i], es)))
  }

  function AdvanceAll(f: DoubleBytes, ghost root: Schema, cs: seq<Context>, es: seq<Event>): (cs': seq<Context>)
    requires AllContextsFit(root, cs)
    ensures AllContextsFit(root, cs') && |cs'| == |cs|
  {
    hide ContextFits;
    seq(|cs|, i requires 0 <= i < |cs| => Advance(f, root, cs[i], es))
  }

  lemma AdvanceTwice(f: DoubleBytes, root: Schema, c: Context, a: seq<Event>, b: seq<Event>)
    requires ContextFits(root, c)
    ensures Advance(f, root, Advance(f, root, c, a), b) == Advance(f, root, c, a + b)
  {
    hide Fits, Within, Run, HashEvents;
    forall i | 0 <= i < |c.validators|
      ensures Run(f, Run(f, c.validators[i], a), b) == Run(f, c.validators[i], a + b)
    {
      RunAppend(f, c.validators[i], a, b);
    }
    if c.hasher.Some? {
      HashAppend(f, c.hasher.value, a, b);
    }
    assert Advance(f, root, Advance(f, root, c, a), b).validators == Advance(f, root, c, a + b).validators;
  }

  lemma AdvanceAllTwice(f: DoubleBytes, root: Schema, cs: seq<Context>, a: seq<Event>, b: seq<Event>)
    requires AllContextsFit(root, cs)
    ensures AdvanceAll(f, root, AdvanceAll(f, root, cs, a), b) == AdvanceAll(f, root, cs, a + b)
  {
    hide ContextFits, Advance;
    forall i | 0 <= i < |cs|
      ensures Advance(f, root, Advance(f, root, cs[i], a), b) == Advance(f, root, cs[i], a + b)
    {
      AdvanceTwice(f, root, cs[i], a, b);
    }
  }

  lemma AdvanceByNothing(f: DoubleBytes, root: Schema, cs: seq<Context>)
    requires AllContextsFit(root, cs)
    ensures AdvanceAll(f, root, cs, []) == cs
  {
    hide Fits, Within;
    forall i | 0 <= i < |cs| ensures Advance(f, root, cs[i], []) == cs[i] {
      assert Advance(f, root, cs[i], []).validators == cs[i].validators;
    }
  }

  /** Forwarding one event advances every context by it. */
  lemma {:induction false} ForwardValidatorsAdvances(f: DoubleBytes, root: Schema, ws: seq<Validator>, e: Event)
    requires AllValidatorsFit(root, ws)
    ensures forall i :: 0 <= i < |ws| ==> ForwardValidators(f, root, ws, e)[i] == Run(f, ws[i], [e])
    decreases |ws|
  {
    hide Fits, Run, Handle;
    if ws != [] {
      RunOne(f, ws[0], e);
      ForwardValidatorsAdvances(f, root, ws[1..], e);
    }
  }

  lemma {:induction false} ForwardContextsAdvances(f: DoubleBytes, root: Schema, cs: seq<Context>, e: Event)
    requires AllContextsFit(root, cs)
    ensures ForwardContexts(f, root, cs, e) == AdvanceAll(f, root, cs, [e])
    decreases |cs|
  {
    hide Fits, Within, Run, Handle, ForwardValidators;
    if cs != [] {
      var c := cs[0];
      ForwardValidatorsAdvances(f, root, c.validators, e);
      if c.hasher.Some? {
        HashOne(f, c.hasher.value, e);
      }
      var fc := ForwardContexts(f, root, cs, e)[0];
      assert fc.validators == Advance(f, root, c, [e]).validators;
      ForwardContextsAdvances(f, root, cs[1..], e);
      assert AdvanceAll(f, root, cs, [e]) == [Advance(f, root, c, [e])] + AdvanceAll(f, root, cs[1..], [e]);
    }
  }

  lemma ForwardAdvances(f: DoubleBytes, v: Validator, e: Event)
    requires Fits(v)
    ensures AllContextsFit(v.root, v.stack)
    ensures Forward(f, v, e) == v.(stack := AdvanceAll(f, v.root, v.stack, [e]))
  {
    hide Fits, ForwardContexts, AllContextsFit;
    FitsContexts(v);
    ForwardContextsAdvances(f, v.root, v.stack, e);
  }

  lemma AdvanceAllSplit(f: DoubleBytes, root: Schema, below: seq<Context>, c: Context, es: seq<Event>)
    requires AllContextsFit(root, below) && ContextFits(root, c)
    ensures AllContextsFit(root, below + [c])
    ensures AdvanceAll(f, root, below + [c], es) == AdvanceAll(f, root, below, es) + [Advance(f, root, c, es)]
  {
    hide ContextFits, Advance;
  }

  // ---------------------------------------------------------------------------------------------
  // Opening and closing a value
  // ---------------------------------------------------------------------------------------------

  /** The hasher and the parallel validators of `c` have seen exactly the events `seen`. */
  ghost predicate Watching(f: DoubleBytes, c: Context, seen: seq<Event>) {
    && c.hasher == (if c.schema.enum != [] || c.arrayUniqueness then Some(HashEvents(f, [], seen)) else None)
    && |c.validators| == |Parallels(c.schema)|
    && forall i :: 0 <= i < |c.validators| ==> Saw(f, c.validators[i], Parallels(c.schema)[i], seen)
  }

  ghost predicate Saw(f: DoubleBytes, w: Validator, s: Schema, seen: seq<Event>) {
    FreshFits(s);
    w == Run(f, Fresh(s), seen)
  }

  lemma WatchingOn(f: DoubleBytes, root: Schema, c: Context, seen: seq<Event>, es: seq<Event>)
    requires ContextFits(root, c) && Watching(f, c, seen)
    ensures Watching(f, Advance(f, root, c, es), seen + es)
  {
    hide Fits, Within, Run, HashEvents, Parallels;
    HashAppend(f, [], seen, es);
    forall i | 0 <= i < |c.validators|
      ensures Saw(f, Run(f, c.validators[i], es), Parallels(c.schema)[i], seen + es)
    {
      assert Saw(f, c.validators[i], Parallels(c.schema)[i], seen);
      FreshFits(Parallels(c.schema)[i]);
      RunAppend(f, Fresh(Parallels(c.schema)[i]), seen, es);
    }
  }

  lemma WatchingNothing(f: DoubleBytes, c: Context)
    requires c.hasher.None?
    ensures Watching(f, CreateParallel(c), [])
  {
    hide Parallels;
  }

  /** The context of a value after its opening event, if the type of the value is allowed. */
  function Opened(c: Context, e: Event): Context
    requires TypeAllows(c.schema, e)
  {
    SchemaOpen(c, e).value
  }

  predicate Opens(e: Event) {
    !e.Key? && !e.EndObject? && !e.EndArray?
  }

  lemma OpenedFits(v: Validator, e: Event)
    requires Fits(v) && BeginValue(v).Some?
    requires TypeAllows(Top(BeginValue(v).value).schema, e)
    ensures var w := BeginValue(v).value; var c := Opened(Top(w), e);
            w.root == v.root && AllContextsFit(v.root, Below(w)) && ContextFits(v.root, c)
  {
    hide Fits, TypeAllows, BeginValue, Parallels, Within;
    var w := BeginValue(v).value;
    BeginValueFits(v);
    OpenFits(w, e);
    TopFits(w);
    TopFits(WithTop(w, Opened(Top(w), e)));
  }

  lemma BeginningContext(v: Validator)
    requires BeginValue(v).Some?
    ensures BeginValue(v).value.stack != []
    ensures var c := Top(BeginValue(v).value);
            c == NewContext(c.schema).(arrayUniqueness := c.arrayUniqueness)
    ensures BeginValue(v).value.valid == v.valid && BeginValue(v).value.root == v.root
  {
  }

  /** The opening event is seen by every context, the new one included. */
  lemma OpeningForwarded(f: DoubleBytes, v: Validator, e: Event)
    requires Fits(v) && BeginValue(v).Some? && Opens(e)
    requires TypeAllows(Top(BeginValue(v).value).schema, e)
    ensures var w := BeginValue(v).value; var c := Opened(Top(w), e); var x := WithTop(w, c);
            && Fits(x) && AllContextsFit(v.root, Below(w)) && ContextFits(v.root, c)
            && Forward(f, x, e) ==
                 w.(stack := AdvanceAll(f, v.root, Below(w), [e]) + [Advance(f, v.root, c, [e])])
            && Watching(f, Advance(f, v.root, c, [e]), [e])
  {
    hide Fits, TypeAllows, BeginValue, Parallels, Within, AdvanceAll, Advance, Forward, Watching, ContextFits,
         AllContextsFit;
    var w := BeginValue(v).value;
    BeginValueFits(v);
    OpenFits(w, e);
    OpenedFits(v, e);
    BeginningContext(v);
    var c := Opened(Top(w), e);
    ForwardAdvances(f, WithTop(w, c), e);
    AdvanceAllSplit(f, v.root, Below(w), c, [e]);
    OpenedWatches(f, Top(w), e);
    WatchingOn(f, v.root, c, [], [e]);
    assert [] + [e] == [e];
  }

  lemma OpenedWatches(f: DoubleBytes, c: Context, e: Event)
    requires c.hasher.None? && TypeAllows(c.schema, e)
    ensures Watching(f, Opened(c, e), [])
  {
    hide Watching, TypeAllows, CreateParallel, HasRequired;
    WatchingNothing(f, c);
    WatchingNothing(f, c.(propertyExist := seq(|c.schema.properties|, _ => false)));
    WatchingNothing(f, c.(arrayElementIndex := 0, inArray := true));
  }

  /** The slots `[lo, lo + |bs|)` counted, where `bs` says which of them are valid. */
  lemma {:induction false} CountSlots(ws: seq<Validator>, lo: nat, bs: seq<bool>)
    requires lo + |bs| <= |ws|
    requires forall i :: 0 <= i < |bs| ==> ws[lo + i].valid == bs[i]
    ensures CountValid(ws, lo, lo + |bs|) <= |bs|
    ensures CountValid(ws, lo, lo + |bs|) == |bs| <==> All(bs)
    ensures CountValid(ws, lo, lo + |bs|) > 0 <==> Any(bs)
    ensures CountValid(ws, lo, lo + |bs|) == 1 <==> ExactlyOne(bs)
    decreases |bs|
  {
    if bs != [] {
      var rest := bs[1..];
      forall i | 0 <= i < |rest| ensures ws[lo + 1 + i].valid == rest[i] {
        assert ws[lo + (i + 1)].valid == bs[i + 1];
      }
      CountSlots(ws, lo + 1, rest);
      assert ws[lo + 0].valid == bs[0];
      TailBits(bs);
    }
  }

  lemma TailBits(bs: seq<bool>)
    requires bs != []
    ensures All(bs) <==> bs[0] && All(bs[1..])
    ensures Any(bs) <==> bs[0] || Any(bs[1..])
    ensures ExactlyOne(bs) <==> if bs[0] then !Any(bs[1..]) else ExactlyOne(bs[1..])
  {
    hide All, Any, ExactlyOne;
    TailAllAny(bs);
    TailExactlyOne(bs);
  }

  lemma TailAllAny(bs: seq<bool>)
    requires bs != []
    ensures All(bs) <==> bs[0] && All(bs[1..])
    ensures Any(bs) <==> bs[0] || Any(bs[1..])
  {
    var rest := bs[1..];
    assert forall i :: 1 <= i < |bs| ==> bs[i] == rest[i - 1];
    if i :| 0 <= i < |rest| && rest[i] {
      assert bs[i + 1];
    }
  }

  lemma TailExactlyOne(bs: seq<bool>)
    requires bs != []
    ensures ExactlyOne(bs) <==> if bs[0] then !Any(bs[1..]) else ExactlyOne(bs[1..])
  {
    var rest := bs[1..];
    if ExactlyOne(bs) {
      var i :| OnlyAt(bs, i);
      if i > 0 {
        forall j | 0 <= j < |rest| && j != i - 1 ensures !rest[j] {
          assert !bs[j + 1];
        }
        assert OnlyAt(rest, i - 1);
      } else {
        forall j | 0 <= j < |rest| ensures !rest[j] {
          assert !bs[j + 1];
        }
      }
    }
    if bs[0] && !Any(rest) {
      forall j | 0 <= j < |bs| && j != 0 ensures !bs[j] {
        assert !rest[j - 1];
      }
      assert OnlyAt(bs, 0);
    }
    if !bs[0] && ExactlyOne(rest) {
      var i :| OnlyAt(rest, i);
      forall j | 0 <= j < |bs| && j != i + 1 ensures !bs[j] {
        assert j > 0 ==> !rest[j - 1];
      }
      assert OnlyAt(bs, i + 1);
    }
  }

  lemma ParallelSlots(s: Schema)
    ensures var ps := Parallels(s); var any := |s.allOf|; var one := any + |s.anyOf|; var not := one + |s.oneOf|;
            && |ps| == not + (if s.negated.Some? then 1 else 0)
            && ps[0..any] == s.allOf && ps[any..one] == s.anyOf && ps[one..not] == s.oneOf
            && (s.negated.Some? ==> ps[not] == s.negated.value)
  {
  }

  /** The slots `[lo, lo + |xs|)` of a closing context decide the schemas `xs`. */
  lemma GroupDecides(f: DoubleBytes, c: Context, lo: nat, xs: seq<Schema>, t: Json)
    requires |c.validators| == |Parallels(c.schema)|
    requires forall i :: 0 <= i < |c.validators| ==>
               c.validators[i].valid == Accepts(f, Parallels(c.schema)[i], t)
    requires lo + |xs| <= |c.validators| && Parallels(c.schema)[lo..lo + |xs|] == xs
    ensures var n := CountValid(c.validators, lo, lo + |xs|); var bs := Verdicts(f, xs, t);
            && (n == |xs| <==> All(bs)) && (n > 0 <==> Any(bs)) && (n == 1 <==> ExactlyOne(bs))
  {
    hide Accepts, CountValid, Parallels;
    forall i | 0 <= i < |xs| ensures c.validators[lo + i].valid == Verdicts(f, xs, t)[i] {
      assert xs[i] == Parallels(c.schema)[lo + i];
    }
    CountSlots(c.validators, lo, Verdicts(f, xs, t));
  }

  /** The slots of a closing context decide the combinators of its schema. */
  lemma SlotsDecide(f: DoubleBytes, c: Context, t: Json)
    requires |c.validators| == |Parallels(c.schema)|
    requires forall i :: 0 <= i < |c.validators| ==>
               c.validators[i].valid == Accepts(f, Parallels(c.schema)[i], t)
    requires c.schema.enum != [] ==> HashOf(c) == TreeCode(f, t)
    ensures SchemaEndValue(c) == Combinators(f, c.schema, t)
  {
    hide Accepts, Verdicts, All, Any, OnlyAt, ExactlyOne, HashOf, TreeCode, CountValid, Parallels;
    var s := c.schema;
    ParallelSlots(s);
    GroupDecides(f, c, 0, s.allOf, t);
    GroupDecides(f, c, |s.allOf|, s.anyOf, t);
    GroupDecides(f, c, |s.allOf| + |s.anyOf|, s.oneOf, t);
  }
}
