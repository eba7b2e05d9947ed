/**
 The verdict of a schema never depends on the order in which an object lists its members: not through
 `enum` and `uniqueItems`, which compare hash codes, and not through any other keyword.
 */
module SchemaOrder {
  import opened Json
  import opened Hasher
  import opened Permutations
  import opened SchemaValidation
  import opened SchemaMeaning
  import opened SchemaStreaming

  lemma {:induction false} OrderIndependent(f: DoubleBytes, s: Schema, v: Json, w: Json)
    requires Reordered(v, w)
    ensures Accepts(f, s, v) == Accepts(f, s, w)
    decreases v, s, 1
  {
    hide Combinators, TypeAllows, RequiredPresent, MemberAccepted, ItemSchema, TreeCode, Distinct;
    SameCombinators(f, s, v, w);
    match (v, w)
    case (Arr(vs), Arr(ws)) =>
      forall i | 0 <= i < |vs| && ItemSchema(s, i).Some?
        ensures Accepts(f, ItemSchema(s, i).value, vs[i]) == Accepts(f, ItemSchema(s, i).value, ws[i])
      {
        OrderIndependent(f, ItemSchema(s, i).value, vs[i], ws[i]);
      }
      SameElementCodes(f, vs, ws);
      assert Events(v)[0] == Events(w)[0] == StartArray;
    case (Obj(ms), Obj(ns)) =>
      var p: seq<nat> :| Permutes(p, |ms|, |ns|) && Matched(ms, ns, p);
      forall i | 0 <= i < |ms| ensures MemberAccepted(f, s, ms[i]) == MemberAccepted(f, s, ns[p[i]]) {
        SameMember(f, s, ms[i], ns[p[i]]);
      }
      SameMembers(f, s, ms, ns, p);
      ObjectAccepts(f, s, ms);
      ObjectAccepts(f, s, ns);
    case _ =>
  }

  lemma {:induction false} SameMember(f: DoubleBytes, s: Schema, m: Member, n: Member)
    requires m.name == n.name && Reordered(m.value, n.value)
    ensures MemberAccepted(f, s, m) == MemberAccepted(f, s, n)
    decreases m, s, 2
  {
    hide Accepts, MemberSchema, Reordered;
    if MemberSchema(s, m.name).Some? {
      OrderIndependent(f, MemberSchema(s, m.name).value, m.value, n.value);
    }
  }

  lemma {:induction false} SameCombinators(f: DoubleBytes, s: Schema, v: Json, w: Json)
    requires Reordered(v, w)
    ensures Combinators(f, s, v) == Combinators(f, s, w)
    decreases v, s, 0
  {
    hide Accepts, TreeCode, Reordered, Any, All, ExactlyOne;
    ReorderedCodes(f, v, w);
    forall x | x in s.allOf || x in s.anyOf || x in s.oneOf || (s.negated.Some? && x == s.negated.value)
      ensures Accepts(f, x, v) == Accepts(f, x, w)
    {
      OrderIndependent(f, x, v, w);
    }
    SameVerdicts(f, s.allOf, v, w);
    SameVerdicts(f, s.anyOf, v, w);
    SameVerdicts(f, s.oneOf, v, w);
  }

  lemma SameVerdicts(f: DoubleBytes, xs: seq<Schema>, v: Json, w: Json)
    requires forall x | x in xs :: Accepts(f, x, v) == Accepts(f, x, w)
    ensures Verdicts(f, xs, v) == Verdicts(f, xs, w)
  {
    hide Accepts;
  }

  lemma SameElementCodes(f: DoubleBytes, vs: seq<Json>, ws: seq<Json>)
    requires |vs| == |ws| && forall i :: 0 <= i < |vs| ==> Reordered(vs[i], ws[i])
    ensures ElementCodes(f, vs) == ElementCodes(f, ws)
  {
    hide Reordered, TreeCode;
    forall i | 0 <= i < |vs| ensures TreeCode(f, vs[i]) == TreeCode(f, ws[i]) {
      ReorderedCodes(f, vs[i], ws[i]);
    }
    ElementCodesAt(f, vs);
    ElementCodesAt(f, ws);
  }

  lemma SameMembers(f: DoubleBytes, s: Schema, ms: seq<Member>, ns: seq<Member>, p: seq<nat>)
    requires Permutes(p, |ms|, |ns|)
    requires forall i :: 0 <= i < |ms| ==> ms[i].name == ns[p[i]].name
    requires forall i :: 0 <= i < |ms| ==> MemberAccepted(f, s, ms[i]) == MemberAccepted(f, s, ns[p[i]])
    ensures (forall i :: 0 <= i < |ms| ==> MemberAccepted(f, s, ms[i]))
            == (forall k :: 0 <= k < |ns| ==> MemberAccepted(f, s, ns[k]))
    ensures RequiredPresent(s, ms) == RequiredPresent(s, ns)
  {
    hide MemberAccepted, PropertyIndex;
    if forall i :: 0 <= i < |ms| ==> MemberAccepted(f, s, ms[i]) {
      forall k | 0 <= k < |ns| ensures MemberAccepted(f, s, ns[k]) {
        var i := PermutationReaches(p, |ms|, k);
        assert MemberAccepted(f, s, ms[i]);
      }
    }
    forall j | 0 <= j < |s.properties| ensures Present(s, j, ms) == Present(s, j, ns) {
      if k :| 0 <= k < |ms| && Declares(s, j, ms[k].name) {
        assert Declares(s, j, ns[p[k]].name);
      }
      if k :| 0 <= k < |ns| && Declares(s, j, ns[k].name) {
        var i := PermutationReaches(p, |ms|, k);
        assert Declares(s, j, ms[i].name);
      }
    }
  }

  /** The streaming verdict on a value and on any reordering of it are the same. */
  lemma StreamingIgnoresOrder(f: DoubleBytes, s: Schema, v: Json, w: Json)
    requires Reordered(v, w)
    ensures Fits(Fresh(s)) && Run(f, Fresh(s), Events(v)).valid == Run(f, Fresh(s), Events(w)).valid
  {
    hide Fits, Reordered, Accepts, Run, Events;
    OrderIndependent(f, s, v, w);
    StreamingIsMeaning(f, s, v);
    StreamingIsMeaning(f, s, w);
  }

  /** `enum` adds the test of the hash code to what the other keywords say. */
  lemma EnumDecides(f: DoubleBytes, s: Schema, t: Json)
    ensures Accepts(f, s, t) <==> (s.enum == [] || TreeCode(f, t) in s.enum) && Accepts(f, s.(enum := []), t)
  {
    hide TreeCode, All, Any, ExactlyOne, PropertyIndex, Distinct;
    var r := s.(enum := []);
    match t
    case Obj(ms) =>
      SameRequired(s, r, ms);
      assert forall i :: 0 <= i < |ms| ==> MemberSchema(r, ms[i].name) == MemberSchema(s, ms[i].name);
    case Arr(es) => assert forall i :: 0 <= i < |es| ==> ItemSchema(r, i) == ItemSchema(s, i);
    case _ =>
  }

  lemma SameRequired(s: Schema, r: Schema, ms: seq<Member>)
    requires s.properties == r.properties
    ensures RequiredPresent(s, ms) == RequiredPresent(r, ms)
  {
    hide PropertyIndex;
  }

  /** On a value that is listed in `enum`, and on any reordering of it, the streaming verdict is the one without
      `enum`: the keyword never rejects such a value. */
  lemma EnumAdmitsReordering(f: DoubleBytes, s: Schema, v: Json, w: Json)
    requires TreeCode(f, v) in s.enum && Reordered(v, w)
    ensures var r := s.(enum := []);
            && Fits(Fresh(s)) && Fits(Fresh(r))
            && Run(f, Fresh(s), Events(w)).valid == Run(f, Fresh(r), Events(w)).valid
  {
    hide TreeCode, Reordered, Accepts, Fits, Run, Events;
    ReorderedCodes(f, v, w);
    EnumDecides(f, s, w);
    StreamingIsMeaning(f, s, w);
    StreamingIsMeaning(f, s.(enum := []), w);
  }

  /** When the property names differ, a property is declared by its own name alone. */
  lemma DistinctNames(s: Schema, i: nat, name: string)
    requires forall j, k :: 0 <= j < k < |s.properties| ==> s.properties[j].name != s.properties[k].name
    requires i < |s.properties|
    ensures Declares(s, i, name) <==> name == s.properties[i].name
  {
    hide PropertyIndex;
    var j := PropertyIndex(s.properties, name);
  }
}
