/**
 `GenericSchemaValidator` as the object it is: a stack of contexts and a verdict, updated by one method
 per event. Every method realises `SchemaValidation.Handle`, so the theorems about runs of events are
 theorems about sequences of calls.
 */
module SchemaValidator {
  import opened Json
  import opened Hasher
  import V = SchemaValidation

  class GenericSchemaValidator {
    const root: V.Schema
    const doubleBytes: DoubleBytes
    var schemaStack: seq<V.Context>
    var valid: bool

    ghost function State(): V.Validator
      reads this
    {
      V.Validator(root, schemaStack, valid)
    }

    ghost predicate Valid()
      reads this
    {
      V.Fits(State())
    }

    constructor (root: V.Schema, f: DoubleBytes)
      ensures Valid() && State() == V.Fresh(root) && doubleBytes == f
    {
      this.root := root;
      doubleBytes := f;
      schemaStack := [];
      valid := true;
    }

    method BeginValue() returns (ok: bool)
      requires Valid()
      modifies this`schemaStack
      ensures ok == V.BeginValue(old(State())).Some?
      ensures State() == if ok then V.BeginValue(old(State())).value else old(State())
    {
      hide V.Fits, V.ItemSchema;
      if schemaStack == [] {
        schemaStack := [V.NewContext(root)];
        return true;
      }
      var last := |schemaStack| - 1;
      var began := V.SchemaBeginValue(schemaStack[last]);
      if began.None? || began.value.valueSchema.None? {
        return false;
      }
      var next := V.NewContext(began.value.valueSchema.value).(arrayUniqueness := began.value.valueUniqueness);
      schemaStack := schemaStack[..last] + [began.value] + [next];
      assert schemaStack == old(schemaStack[..last]) + [began.value, next];
      return true;
    }

    method EndValue() returns (ok: bool)
      requires valid && schemaStack != []
      modifies this
      ensures ok == V.EndValue(old(State())).valid && valid == ok
      ensures State() == V.EndValue(old(State()))
    {
      hide V.SchemaEndValue, V.HashOf;
      var last := |schemaStack| - 1;
      var context := schemaStack[last];
      if !V.SchemaEndValue(context) {
        valid := false;
        return false;
      }
      var h := if context.arrayUniqueness then V.HashOf(context) else ZERO;
      schemaStack := schemaStack[..last];
      if schemaStack != [] && schemaStack[last - 1].valueUniqueness {
        var below := schemaStack[last - 1];
        var seen := below.elementHashes;
        for i := 0 to |seen|
          invariant h !in seen[..i]
        {
          if seen[i] == h {
            valid := false;
            return false;
          }
        }
        assert seen[..|seen|] == seen;
        schemaStack := schemaStack[..last - 1] + [below.(elementHashes := seen + [h])];
      }
      return true;
    }

    /** The parallel loop: each context's hasher and validators handle the event. */
    method Parallel(e: Event)
      requires Valid()
      modifies this`schemaStack
      ensures State() == V.Forward(doubleBytes, old(State()), e)
    {
      hide V.Fits, V.ForwardContexts, V.AllContextsFit, V.AllValidatorsFit, V.ForwardValidators, HashEvent;
      V.FitsContexts(State());
      ghost var cs := schemaStack;
      ghost var all := V.ForwardContexts(doubleBytes, root, cs, e);
      for i := 0 to |schemaStack|
        invariant |schemaStack| == |cs| == |all|
        invariant forall k :: 0 <= k < i ==> schemaStack[k] == all[k]
        invariant forall k :: i <= k < |cs| ==> schemaStack[k] == cs[k]
      {
        ForwardAt(root, cs, e, i);
        var c := schemaStack[i];
        var hashed := if c.hasher.Some? then Some(HashEvent(doubleBytes, c.hasher.value, e)) else None;
        schemaStack := schemaStack[i := c.(hasher := hashed,
                                           validators := V.ForwardValidators(doubleBytes, root, c.validators, e))];
      }
      assert schemaStack == all;
    }

    lemma {:induction false} ForwardAt(root: V.Schema, cs: seq<V.Context>, e: Event, i: nat)
      requires V.AllContextsFit(root, cs) && i < |cs|
      ensures var hashed := if cs[i].hasher.Some? then Some(HashEvent(doubleBytes, cs[i].hasher.value, e)) else None;
              V.AllValidatorsFit(root, cs[i].validators)
              && V.ForwardContexts(doubleBytes, root, cs, e)[i]
                 == cs[i].(hasher := hashed, validators := V.ForwardValidators(doubleBytes, root, cs[i].validators, e))
      decreases i
    {
      hide V.Fits, V.Within, V.ForwardValidators, HashEvent;
      if i > 0 {
        ForwardAt(root, cs[1..], e, i - 1);
      }
    }

    /** `Null`, `Bool`, the numbers, `String`, `StartObject` and `StartArray` */
    method Open(e: Event) returns (ok: bool)
      requires Valid() && !e.Key? && !e.EndObject? && !e.EndArray?
      modifies this
      ensures Valid() && State() == V.Handle(doubleBytes, old(State()), e) && ok == valid
    {
      hide V.Fits, V.SchemaOpen, V.BeginValue, V.EndValue, V.Forward;
      if !valid {
        return false;
      }
      var began := BeginValue();
      if !began {
        ghost var rejected := V.Reject(State());
        valid := false;
        return false;
      }
      V.BeginValueFits(old(State()));
      var last := |schemaStack| - 1;
      var open := V.SchemaOpen(schemaStack[last], e);
      if open.None? {
        ghost var rejected := V.Reject(State());
        valid := false;
        return false;
      }
      V.OpenFits(State(), e);
      schemaStack := schemaStack[..last] + [open.value];
      Parallel(e);
      if e.StartObject? || e.StartArray? {
        return true;
      }
      V.EndValueFits(State());
      ok := EndValue();
    }

    method Key(name: string) returns (ok: bool)
      requires Valid() && (valid ==> schemaStack != [])
      modifies this
      ensures Valid() && State() == V.Handle(doubleBytes, old(State()), Event.Key(name)) && ok == valid
    {
      hide V.Fits, V.SchemaKey, V.Forward;
      if !valid {
        return false;
      }
      var last := |schemaStack| - 1;
      var keyed := V.SchemaKey(schemaStack[last], name);
      if keyed.None? {
        ghost var rejected := V.Reject(State());
        valid := false;
        return false;
      }
      V.KeyFits(State(), name);
      schemaStack := schemaStack[..last] + [keyed.value];
      Parallel(Event.Key(name));
      return true;
    }

    method EndObject(memberCount: nat) returns (ok: bool)
      requires Valid() && (valid ==> schemaStack != [])
      modifies this
      ensures Valid() && State() == V.Handle(doubleBytes, old(State()), Event.EndObject(memberCount)) && ok == valid
    {
      hide V.Fits, V.SchemaEndObject, V.Forward, V.EndValue;
      if !valid {
        return false;
      }
      Parallel(Event.EndObject(memberCount));
      if !V.SchemaEndObject(schemaStack[|schemaStack| - 1], memberCount) {
        ghost var rejected := V.Reject(State());
        valid := false;
        return false;
      }
      V.EndValueFits(State());
      ok := EndValue();
    }

    method EndArray(elementCount: nat) returns (ok: bool)
      requires Valid() && (valid ==> schemaStack != [])
      modifies this
      ensures Valid() && State() == V.Handle(doubleBytes, old(State()), Event.EndArray(elementCount)) && ok == valid
    {
      hide V.Fits, V.SchemaEndArray, V.Forward, V.EndValue;
      if !valid {
        return false;
      }
      Parallel(Event.EndArray(elementCount));
      var last := |schemaStack| - 1;
      V.TopFits(State());
      V.WithTopFits(State(), schemaStack[last].(inArray := false));
      schemaStack := schemaStack[..last] + [schemaStack[last].(inArray := false)];
      if !V.SchemaEndArray(schemaStack[last], elementCount) {
        ghost var rejected := V.Reject(State());
        valid := false;
        return false;
      }
      V.EndValueFits(State());
      ok := EndValue();
    }
  }
}
