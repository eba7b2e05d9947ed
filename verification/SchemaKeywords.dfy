/**
 What the keywords of a schema say about a tree, in their own terms, and that the streaming validator decides
 exactly that.
 */
module SchemaKeywords {
  import opened Json
  import opened Hasher
  import opened SchemaValidation
  import opened SchemaMeaning
  import opened SchemaStreaming

  /** The kinds a value is of; an integer is a number as well. */
  predicate HasKind(t: Json, k: Kind) {
    match k
    case NullKind => t.Null?
    case BooleanKind => t.Bool?
    case ObjectKind => t.Obj?
    case ArrayKind => t.Arr?
    case StringKind => t.Str?
    case NumberKind => t.Num?
    case IntegerKind => t.Num? && !t.n.Double?
  }

  /** No array or object in the value has 2^32 elements or members: what a schema without keywords admits, its limits
      being the largest 32-bit number. */
  predicate Countable(t: Json)
    decreases t
  {
    match t
    case Arr(es) => |es| < 0x1_0000_0000 && forall i :: 0 <= i < |es| ==> Countable(es[i])
    case Obj(ms) => |ms| < 0x1_0000_0000 && forall i :: 0 <= i < |ms| ==> Countable(ms[i].value)
    case _ => true
  }

  /** Property `i` is the first one called `name`. */
  predicate FirstNamed(ps: seq<Property>, i: int, name: string) {
    0 <= i < |ps| && ps[i].name == name && forall j :: 0 <= j < i ==> ps[j].name != name
  }

  ghost predicate Satisfies(f: DoubleBytes, s: Schema, t: Json)
    decreases t, s, 1
  {
    && (exists k: Kind :: k in s.types && HasKind(t, k))
    && Combined(f, s, t)
    && match t
       case Obj(ms) =>
         && (forall i :: 0 <= i < |s.properties| && s.properties[i].required
                         && s.properties[i].schema.defaultLength == 0 ==>
               exists k :: 0 <= k < |ms| && FirstNamed(s.properties, i, ms[k].name))
         && s.minProperties <= |ms| <= s.maxProperties
         && forall k :: 0 <= k < |ms| ==> MemberSatisfies(f, s, ms[k])
       case Arr(es) =>
         && s.minItems <= |es| <= s.maxItems
         && (s.uniqueItems ==>
               forall i, j :: 0 <= i < j < |es| ==> TreeCode(f, es[i]) != TreeCode(f, es[j]))
         && forall i :: 0 <= i < |es| ==> ElementSatisfies(f, s, i, es[i])
       case _ => true
  }

  /** `enum`, `allOf`, `anyOf`, `oneOf` and `not` */
  ghost predicate Combined(f: DoubleBytes, s: Schema, t: Json)
    decreases t, s, 0
  {
    && (s.enum != [] ==> TreeCode(f, t) in s.enum)
    && (forall i :: 0 <= i < |s.allOf| ==> Satisfies(f, s.allOf[i], t))
    && (s.anyOf != [] ==> exists i :: 0 <= i < |s.anyOf| && Satisfies(f, s.anyOf[i], t))
    && (s.oneOf != [] ==> OneSatisfied(f, s.oneOf, t))
    && (s.negated.Some? ==> !Satisfies(f, s.negated.value, t))
  }

  /** The value satisfies one schema of the list and no other. */
  ghost predicate OneSatisfied(f: DoubleBytes, xs: seq<Schema>, t: Json)
    decreases t, xs, 1
  {
    exists i :: AloneAt(f, xs, i, t)
  }

  /** Schema `i` is the only one of the list that the value satisfies. */
  ghost predicate AloneAt(f: DoubleBytes, xs: seq<Schema>, i: int, t: Json)
    decreases t, xs, 0
  {
    && 0 <= i < |xs| && Satisfies(f, xs[i], t)
    && forall j :: 0 <= j < |xs| && j != i ==> !Satisfies(f, xs[j], t)
  }

  /** `properties` and `additionalProperties` for one member. */
  ghost predicate MemberSatisfies(f: DoubleBytes, s: Schema, m: Member)
    decreases m, s, 2
  {
    if exists i :: FirstNamed(s.properties, i, m.name) then
      exists i :: FirstNamed(s.properties, i, m.name) && Satisfies(f, s.properties[i].schema, m.value)
    else if s.additionalPropertiesSchema.Some? then Satisfies(f, s.additionalPropertiesSchema.value, m.value)
    else s.additionalProperties && Countable(m.value)
  }

  /** `items` and `additionalItems` for the element at position `i`. */
  ghost predicate ElementSatisfies(f: DoubleBytes, s: Schema, i: nat, t: Json)
    decreases t, s, 2
  {
    if s.itemsList.Some? then Satisfies(f, s.itemsList.value, t)
    else if s.itemsTuple == [] then Countable(t)
    else if i < |s.itemsTuple| then Satisfies(f, s.itemsTuple[i], t)
    else if s.additionalItemsSchema.Some? then Satisfies(f, s.additionalItemsSchema.value, t)
    else s.additionalItems && Countable(t)
  }

  // ---------------------------------------------------------------------------------------------
  // The meaning of a schema is what its keywords say
  // ---------------------------------------------------------------------------------------------

  lemma KindsAllow(s: Schema, t: Json)
    ensures TypeAllows(s, Events(t)[0]) <==> exists k: Kind :: k in s.types && HasKind(t, k)
  {
    var e := Events(t)[0];
    assert HasKind(t, NullKind) == t.Null? && HasKind(t, BooleanKind) == t.Bool? && HasKind(t, ObjectKind) == t.Obj?;
    assert HasKind(t, ArrayKind) == t.Arr? && HasKind(t, StringKind) == t.Str? && HasKind(t, NumberKind) == t.Num?;
    assert HasKind(t, IntegerKind) == (t.Num? && !t.n.Double?);
  }

  lemma {:induction false} TypelessAccepts(f: DoubleBytes, t: Json)
    ensures Accepts(f, TYPELESS, t) <==> Countable(t)
    decreases t
  {
    hide TypeAllows, Distinct, RequiredPresent;
    TypelessParts(f, t);
    match t
    case Arr(es) =>
      forall i | 0 <= i < |es| ensures Accepts(f, TYPELESS, es[i]) == Countable(es[i]) {
        TypelessAccepts(f, es[i]);
      }
    case Obj(ms) =>
      forall i | 0 <= i < |ms| ensures Accepts(f, TYPELESS, ms[i].value) == Countable(ms[i].value) {
        TypelessAccepts(f, ms[i].value);
      }
    case _ =>
  }

  lemma TypelessParts(f: DoubleBytes, t: Json)
    ensures TypeAllows(TYPELESS, Events(t)[0]) && Combinators(f, TYPELESS, t)
    ensures forall i :: ItemSchema(TYPELESS, i) == Some(TYPELESS)
    ensures forall name :: MemberSchema(TYPELESS, name) == Some(TYPELESS)
    ensures forall ms :: RequiredPresent(TYPELESS, ms)
    ensures TYPELESS.minItems == TYPELESS.minProperties == 0 && !TYPELESS.uniqueItems
    ensures TYPELESS.maxItems == TYPELESS.maxProperties == 0xFFFF_FFFF
  {
  }

  lemma FirstIndex(ps: seq<Property>, i: int, name: string)
    ensures FirstNamed(ps, i, name) <==> 0 <= i < |ps| && PropertyIndex(ps, name) == i
  {
    hide PropertyIndex;
    var j := PropertyIndex(ps, name);
  }

  lemma {:induction false} MeaningIsKeywords(f: DoubleBytes, s: Schema, t: Json)
    ensures Accepts(f, s, t) <==> Satisfies(f, s, t)
    decreases t, s, 1
  {
    hide Combinators, Combined, TypeAllows, HasKind, RequiredPresent, MemberSatisfies, ElementSatisfies, ItemSchema,
         TreeCode, Distinct, MemberAccepted, FirstNamed;
    KindsAllow(s, t);
    CombinedIsMeaning(f, s, t);
    match t
    case Arr(es) =>
      forall i | 0 <= i < |es|
        ensures ElementSatisfies(f, s, i, es[i])
                == (ItemSchema(s, i).Some? && Accepts(f, ItemSchema(s, i).value, es[i]))
      {
        ElementIsMeaning(f, s, i, es[i]);
      }
      DistinctElements(f, es);
    case Obj(ms) =>
      forall k | 0 <= k < |ms| ensures MemberSatisfies(f, s, ms[k]) == MemberAccepted(f, s, ms[k]) {
        MemberIsMeaning(f, s, ms[k]);
      }
      RequiredIsMeaning(s, ms);
      ObjectAccepts(f, s, ms);
    case _ =>
  }

  lemma DistinctElements(f: DoubleBytes, es: seq<Json>)
    ensures Distinct(ElementCodes(f, es))
            <==> forall i, j :: 0 <= i < j < |es| ==> TreeCode(f, es[i]) != TreeCode(f, es[j])
  {
    hide TreeCode;
    ElementCodesAt(f, es);
  }

  lemma RequiredIsMeaning(s: Schema, ms: seq<Member>)
    ensures RequiredPresent(s, ms)
            <==> forall i :: 0 <= i < |s.properties| && s.properties[i].required
                             && s.properties[i].schema.defaultLength == 0 ==>
                   exists k :: 0 <= k < |ms| && FirstNamed(s.properties, i, ms[k].name)
  {
    hide PropertyIndex, FirstNamed;
    forall i: nat, k: nat | k < |ms|
      ensures FirstNamed(s.properties, i, ms[k].name) == Declares(s, i, ms[k].name)
    {
      FirstIndex(s.properties, i, ms[k].name);
    }
  }

  lemma {:induction false} MemberIsMeaning(f: DoubleBytes, s: Schema, m: Member)
    ensures MemberSatisfies(f, s, m) <==> MemberAccepted(f, s, m)
    decreases m, s, 3
  {
    hide Accepts, Satisfies, PropertyIndex, FirstNamed, Countable;
    var i := PropertyIndex(s.properties, m.name);
    forall j ensures FirstNamed(s.properties, j, m.name) <==> j < |s.properties| && j == i {
      FirstIndex(s.properties, j, m.name);
    }
    if i < |s.properties| {
      assert FirstNamed(s.properties, i, m.name);
      MeaningIsKeywords(f, s.properties[i].schema, m.value);
    } else if s.additionalPropertiesSchema.Some? {
      MeaningIsKeywords(f, s.additionalPropertiesSchema.value, m.value);
    } else {
      TypelessAccepts(f, m.value);
    }
  }

  lemma {:induction false} ElementIsMeaning(f: DoubleBytes, s: Schema, i: nat, t: Json)
    ensures ElementSatisfies(f, s, i, t) <==> ItemSchema(s, i).Some? && Accepts(f, ItemSchema(s, i).value, t)
    decreases t, s, 3
  {
    hide Accepts, Satisfies, Countable;
    TypelessAccepts(f, t);
    if s.itemsList.Some? {
      MeaningIsKeywords(f, s.itemsList.value, t);
    } else if i < |s.itemsTuple| {
      MeaningIsKeywords(f, s.itemsTuple[i], t);
    } else if s.additionalItemsSchema.Some? {
      MeaningIsKeywords(f, s.additionalItemsSchema.value, t);
    }
  }

  lemma {:induction false} CombinedIsMeaning(f: DoubleBytes, s: Schema, t: Json)
    ensures Combined(f, s, t) <==> Combinators(f, s, t)
    decreases t, s, 0
  {
    hide Accepts, Satisfies, TreeCode, All, Any, ExactlyOne, Verdicts, OneSatisfied;
    SameVerdicts(f, s.allOf, t) by {
      forall x | x in s.allOf ensures Accepts(f, x, t) == Satisfies(f, x, t) { MeaningIsKeywords(f, x, t); }
    }
    SameVerdicts(f, s.anyOf, t) by {
      forall x | x in s.anyOf ensures Accepts(f, x, t) == Satisfies(f, x, t) { MeaningIsKeywords(f, x, t); }
    }
    SameVerdicts(f, s.oneOf, t) by {
      forall x | x in s.oneOf ensures Accepts(f, x, t) == Satisfies(f, x, t) { MeaningIsKeywords(f, x, t); }
    }
    if s.negated.Some? {
      MeaningIsKeywords(f, s.negated.value, t);
    }
    AllMeans(f, s.allOf, t);
    AnyMeans(f, s.anyOf, t);
    OneMeans(f, s.oneOf, t);
  }

  /** What the schemas of a list say about a value, one by one. */
  ghost predicate Judged(f: DoubleBytes, xs: seq<Schema>, t: Json, bs: seq<bool>) {
    |bs| == |xs| && forall i :: 0 <= i < |xs| ==> bs[i] == Satisfies(f, xs[i], t)
  }

  lemma SameVerdicts(f: DoubleBytes, xs: seq<Schema>, t: Json)
    requires forall x | x in xs :: Accepts(f, x, t) == Satisfies(f, x, t)
    ensures Judged(f, xs, t, Verdicts(f, xs, t))
  {
    hide Accepts, Satisfies;
    forall i | 0 <= i < |xs| ensures Verdicts(f, xs, t)[i] == Satisfies(f, xs[i], t) {
      assert xs[i] in xs;
    }
  }

  lemma AllMeans(f: DoubleBytes, xs: seq<Schema>, t: Json)
    requires Judged(f, xs, t, Verdicts(f, xs, t))
    ensures All(Verdicts(f, xs, t)) <==> forall i :: 0 <= i < |xs| ==> Satisfies(f, xs[i], t)
  {
    hide Satisfies, Verdicts;
  }

  lemma AnyMeans(f: DoubleBytes, xs: seq<Schema>, t: Json)
    requires Judged(f, xs, t, Verdicts(f, xs, t))
    ensures Any(Verdicts(f, xs, t)) <==> exists i :: 0 <= i < |xs| && Satisfies(f, xs[i], t)
  {
    hide Satisfies, Verdicts;
  }

  lemma OneMeans(f: DoubleBytes, xs: seq<Schema>, t: Json)
    requires Judged(f, xs, t, Verdicts(f, xs, t))
    ensures ExactlyOne(Verdicts(f, xs, t)) <==> OneSatisfied(f, xs, t)
  {
    hide Satisfies, Verdicts, AloneAt, OnlyAt;
    if i :| OnlyAt(Verdicts(f, xs, t), i) {
      OnlyMeans(f, xs, t, i);
    }
    if i :| AloneAt(f, xs, i, t) {
      OnlyMeans(f, xs, t, i);
    }
  }

  lemma OnlyMeans(f: DoubleBytes, xs: seq<Schema>, t: Json, i: int)
    requires Judged(f, xs, t, Verdicts(f, xs, t))
    ensures OnlyAt(Verdicts(f, xs, t), i) == AloneAt(f, xs, i, t)
  {
    hide Satisfies, Verdicts;
  }

  // ---------------------------------------------------------------------------------------------
  // The streaming validator
  // ---------------------------------------------------------------------------------------------

  /** Feeding the events of a value to a new validator leaves it valid exactly when the value satisfies the
      keywords. */
  lemma StreamingDecidesKeywords(f: DoubleBytes, s: Schema, t: Json)
    ensures Fits(Fresh(s)) && (Run(f, Fresh(s), Events(t)).valid <==> Satisfies(f, s, t))
  {
    hide Fits, Accepts, Satisfies, Run, Events;
    StreamingIsMeaning(f, s, t);
    MeaningIsKeywords(f, s, t);
  }

  /** The keyword `type` alone. */
  lemma TypeKeyword(f: DoubleBytes, ks: set<Kind>, t: Json)
    ensures Fits(Fresh(TYPELESS.(types := ks)))
    ensures Run(f, Fresh(TYPELESS.(types := ks)), Events(t)).valid
            <==> Countable(t) && exists k :: k in ks && HasKind(t, k)
  {
    hide Fits, Run, Events, HasKind, TreeCode, FirstNamed, MemberSatisfies;
    var s := TYPELESS.(types := ks);
    StreamingDecidesKeywords(f, s, t);
    match t
    case Arr(es) => assert forall i :: 0 <= i < |es| ==> ElementSatisfies(f, s, i, es[i]) == Countable(es[i]);
    case Obj(ms) =>
      forall i | 0 <= i < |ms| ensures MemberSatisfies(f, s, ms[i]) == Countable(ms[i].value) {
        AnyMemberSatisfies(f, s, ms[i]);
      }
    case _ =>
  }

  lemma AnyMemberSatisfies(f: DoubleBytes, s: Schema, m: Member)
    requires s.properties == [] && s.additionalPropertiesSchema.None? && s.additionalProperties
    ensures MemberSatisfies(f, s, m) == Countable(m.value)
  {
    hide Satisfies, Countable;
  }
}
