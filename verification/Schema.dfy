/**
 The JSON schema validator of 3rdparty/rapidjson/schema.h. A validator consumes the events of a
 value with a stack of contexts, one per value in progress; a context whose schema has allOf, anyOf,
 oneOf or not owns one further validator per sub-schema, and every event is forwarded to the
 validators of every context on the stack.
 */
module SchemaValidation {
  import opened Json
  import opened Hasher

  datatype Kind = NullKind | BooleanKind | ObjectKind | ArrayKind | StringKind | NumberKind | IntegerKind

  /** The keywords of a schema. An empty `enum`, `allOf`, `anyOf`, `oneOf` or `itemsTuple` means that
      the keyword is absent, as it does in the code, which stores no array for it. */
  datatype Schema = Schema(
    types: set<Kind>,
    enum: seq<Code>,
    allOf: seq<Schema>,
    anyOf: seq<Schema>,
    oneOf: seq<Schema>,
    negated: Option<Schema>,
    properties: seq<Property>,
    additionalPropertiesSchema: Option<Schema>,
    additionalProperties: bool,
    minProperties: nat,
    maxProperties: nat,
    itemsList: Option<Schema>,
    itemsTuple: seq<Schema>,
    additionalItemsSchema: Option<Schema>,
    additionalItems: bool,
    minItems: nat,
    maxItems: nat,
    uniqueItems: bool,
    defaultLength: nat)

  datatype Property = Property(name: string, schema: Schema, required: bool)

  const NO_LIMIT: nat := 0xffff_ffff

  const ALL_KINDS := {NullKind, BooleanKind, ObjectKind, ArrayKind, StringKind, NumberKind, IntegerKind}

  /** The schema that the code uses where no keyword says anything about a value. */
  const TYPELESS := Schema(ALL_KINDS, [], [], [], [], None, [], None, true, 0, NO_LIMIT,
                           None, [], None, true, 0, NO_LIMIT, false, 0)

  /** One value in progress. */
  datatype Context = Context(
    schema: Schema,
    valueSchema: Option<Schema>,
    hasher: Option<seq<Code>>,
    elementHashes: seq<Code>,
    validators: seq<Validator>,
    arrayElementIndex: nat,
    propertyExist: seq<bool>,
    inArray: bool,
    valueUniqueness: bool,
    arrayUniqueness: bool)

  datatype Validator = Validator(root: Schema, stack: seq<Context>, valid: bool)

  function NewContext(s: Schema): Context {
    Context(s, None, None, [], [], 0, [], false, false, false)
  }

  function Fresh(s: Schema): Validator {
    Validator(s, [], true)
  }

  function Top(v: Validator): Context
    requires v.stack != []
  {
    v.stack[|v.stack| - 1]
  }

  function Below(v: Validator): seq<Context>
    requires v.stack != []
  {
    v.stack[..|v.stack| - 1]
  }

  function WithTop(v: Validator, c: Context): Validator
    requires v.stack != []
  {
    v.(stack := Below(v) + [c])
  }

  /** The schemas a context validates in parallel, in the order of their validator slots. */
  function Parallels(s: Schema): seq<Schema> {
    s.allOf + s.anyOf + s.oneOf + if s.negated.Some? then [s.negated.value] else []
  }

  // ---------------------------------------------------------------------------------------------
  // Nesting: parallel validators always carry a proper part of the schema that created them
  // ---------------------------------------------------------------------------------------------

  ghost predicate Within(s: Schema, root: Schema) {
    s == root || s < root || s == TYPELESS
  }

  ghost predicate SchemasFit(root: Schema, c: Context) {
    Within(c.schema, root) && (c.valueSchema.Some? ==> Within(c.valueSchema.value, root))
  }

  ghost predicate Fits(v: Validator)
    decreases v
  {
    forall i {:trigger v.stack[i]} :: 0 <= i < |v.stack| ==>
      var c := v.stack[i];
      && SchemasFit(v.root, c)
      && forall j {:trigger c.validators[j]} :: 0 <= j < |c.validators| ==>
           c.validators[j].root < v.root && Fits(c.validators[j])
  }

  ghost predicate ContextFits(root: Schema, c: Context) {
    SchemasFit(root, c) && AllValidatorsFit(root, c.validators)
  }

  ghost predicate AllContextsFit(root: Schema, cs: seq<Context>) {
    forall i :: 0 <= i < |cs| ==> ContextFits(root, cs[i])
  }

  ghost predicate AllValidatorsFit(root: Schema, ws: seq<Validator>) {
    forall i :: 0 <= i < |ws| ==> ws[i].root < root && Fits(ws[i])
  }

  lemma FitsContexts(v: Validator)
    ensures Fits(v) == AllContextsFit(v.root, v.stack)
  {
  }

  // ---------------------------------------------------------------------------------------------
  // Schema event methods
  // ---------------------------------------------------------------------------------------------

  /** The schema for the element at position `i`, if one is allowed there. */
  function ItemSchema(s: Schema, i: nat): Option<Schema> {
    if s.itemsList.Some? then s.itemsList
    else if s.itemsTuple != [] then
      if i < |s.itemsTuple| then Some(s.itemsTuple[i])
      else if s.additionalItemsSchema.Some? then s.additionalItemsSchema
      else if s.additionalItems then Some(TYPELESS)
      else None
    else Some(TYPELESS)
  }

  /** `Schema::BeginValue` */
  function SchemaBeginValue(c: Context): Option<Context> {
    if !c.inArray then Some(c)
    else
      var item := ItemSchema(c.schema, c.arrayElementIndex);
      if item.None? then None
      else Some(c.(valueUniqueness := c.valueUniqueness || c.schema.uniqueItems,
                   valueSchema := item,
                   arrayElementIndex := c.arrayElementIndex + 1))
  }

  /** The index of the first property called `name`, or the number of properties. */
  function PropertyIndex(ps: seq<Property>, name: string): (i: nat)
    ensures i <= |ps|
    ensures i < |ps| ==> ps[i].name == name
    ensures forall j :: 0 <= j < i ==> ps[j].name != name
  {
    if ps == [] || ps[0].name == name then 0 else 1 + PropertyIndex(ps[1..], name)
  }

  /** The schema for the member called `name`, if one is allowed. */
  function MemberSchema(s: Schema, name: string): Option<Schema> {
    var i := PropertyIndex(s.properties, name);
    if i < |s.properties| then Some(s.properties[i].schema)
    else if s.additionalPropertiesSchema.Some? then s.additionalPropertiesSchema
    else if s.additionalProperties then Some(TYPELESS)
    else None
  }

  function Mark(exist: seq<bool>, i: nat): (marked: seq<bool>)
    ensures |marked| == |exist|
  {
    if i < |exist| then exist[i := true] else exist
  }

  /** `Schema::Key` */
  function SchemaKey(c: Context, name: string): Option<Context> {
    var value := MemberSchema(c.schema, name);
    if value.None? then None
    else Some(c.(valueSchema := value,
                 propertyExist := Mark(c.propertyExist, PropertyIndex(c.schema.properties, name))))
  }

  predicate HasRequired(s: Schema) {
    exists p | p in s.properties :: p.required
  }

  predicate TypeAllows(s: Schema, e: Event) {
    match e
    case NullEvent => NullKind in s.types
    case BoolEvent(_) => BooleanKind in s.types
    case NumberEvent(Double(_)) => NumberKind in s.types
    case NumberEvent(_) => IntegerKind in s.types || NumberKind in s.types
    case StringEvent(_) => StringKind in s.types
    case StartObject => ObjectKind in s.types
    case StartArray => ArrayKind in s.types
    case _ => false
  }

  /** `Schema::CreateParallelValidator` */
  function CreateParallel(c: Context): Context {
    c.(hasher := if c.schema.enum != [] || c.arrayUniqueness then Some([]) else c.hasher,
       validators := seq(|Parallels(c.schema)|,
                          i requires 0 <= i < |Parallels(c.schema)| => Fresh(Parallels(c.schema)[i])))
  }

  /** `Schema::Null`, `Bool`, ..., `StartObject` and `StartArray` */
  function SchemaOpen(c: Context, e: Event): Option<Context> {
    if !TypeAllows(c.schema, e) then None
    else
      var c1 :=
        if e.StartObject? && HasRequired(c.schema) then
          c.(propertyExist := seq(|c.schema.properties|, _ => false))
        else if e.StartArray? then c.(arrayElementIndex := 0, inArray := true)
        else c;
      Some(CreateParallel(c1))
  }

  /** A required property is reported missing unless its schema gives it a non-empty default. */
  predicate Missing(s: Schema, exist: seq<bool>)
  {
    exists i | 0 <= i < |s.properties| ::
      s.properties[i].required && !(i < |exist| && exist[i]) && s.properties[i].schema.defaultLength == 0
  }

  /** `Schema::EndObject` */
  predicate SchemaEndObject(c: Context, memberCount: nat) {
    && !(HasRequired(c.schema) && Missing(c.schema, c.propertyExist))
    && c.schema.minProperties <= memberCount <= c.schema.maxProperties
  }

  /** `Schema::EndArray` */
  predicate SchemaEndArray(c: Context, elementCount: nat) {
    c.schema.minItems <= elementCount <= c.schema.maxItems
  }

  function HashOf(c: Context): Code {
    if c.hasher.Some? && c.hasher.value != [] then c.hasher.value[|c.hasher.value| - 1] else ZERO
  }

  /** How many of the validators in slots `[lo, hi)` are valid. */
  function CountValid(ws: seq<Validator>, lo: nat, hi: nat): nat
    requires lo <= hi <= |ws|
    decreases hi - lo
  {
    if lo == hi then 0 else (if ws[lo].valid then 1 else 0) + CountValid(ws, lo + 1, hi)
  }

  /** `Schema::EndValue`: every slot of the context's validators is read here. */
  predicate SchemaEndValue(c: Context) {
    var s := c.schema;
    var any := |s.allOf|;
    var one := any + |s.anyOf|;
    var not := one + |s.oneOf|;
    && |c.validators| == |Parallels(s)|
    && (s.enum != [] ==> HashOf(c) in s.enum)
    && CountValid(c.validators, 0, any) == any
    && (s.anyOf != [] ==> CountValid(c.validators, any, one) > 0)
    && (s.oneOf != [] ==> CountValid(c.validators, one, not) == 1)
    && (s.negated.Some? ==> !c.validators[not].valid)
  }

  // ---------------------------------------------------------------------------------------------
  // Validator event handlers
  // ---------------------------------------------------------------------------------------------

  /** `GenericSchemaValidator::BeginValue`: choose the schema of the next value and push its context. */
  function BeginValue(v: Validator): Option<Validator> {
    if v.stack == [] then Some(v.(stack := [NewContext(v.root)]))
    else
      var began := SchemaBeginValue(Top(v));
      if began.None? || began.value.valueSchema.None? then None
      else
        var c := NewContext(began.value.valueSchema.value).(arrayUniqueness := began.value.valueUniqueness);
        Some(v.(stack := Below(v) + [began.value, c]))
  }

  /** What a finished value leaves on the contexts below: its code, where elements must be unique. */
  function Record(below: seq<Context>, h: Code): seq<Context> {
    if below == [] || !below[|below| - 1].valueUniqueness then below
    else
      var c := below[|below| - 1];
      below[..|below| - 1] + [c.(elementHashes := c.elementHashes + [h])]
  }

  predicate Duplicate(below: seq<Context>, h: Code) {
    below != [] && below[|below| - 1].valueUniqueness && h in below[|below| - 1].elementHashes
  }

  /** `GenericSchemaValidator::EndValue` */
  function EndValue(v: Validator): Validator
    requires v.stack != []
  {
    var c := Top(v);
    if !SchemaEndValue(c) then v.(valid := false)
    else
      var h := if c.arrayUniqueness then HashOf(c) else ZERO;
      v.(stack := if Duplicate(Below(v), h) then Below(v) else Record(Below(v), h),
         valid := !Duplicate(Below(v), h))
  }

  /** `return valid_ = false` */
  function Reject(v: Validator): (r: Validator)
    requires Fits(v)
    ensures Fits(r) && r.root == v.root
  {
    v.(valid := false)
  }

  function Handle(f: DoubleBytes, v: Validator, e: Event): (v': Validator)
    requires Fits(v)
    ensures v'.root == v.root && Fits(v')
    decreases v.root, 3
  {
    hide Fits, SchemaEndObject, SchemaEndArray, SchemaKey, SchemaOpen, BeginValue, EndValue;
    if !v.valid then v
    else if e.Key? then
      if v.stack == [] then Reject(v)
      else
        var keyed := SchemaKey(Top(v), e.name);
        if keyed.None? then Reject(v)
        else
          KeyFits(v, e.name);
          Forward(f, WithTop(v, keyed.value), e)
    else if e.EndObject? then
      if v.stack == [] then Reject(v)
      else
        var w := Forward(f, v, e);
        if !SchemaEndObject(Top(w), e.memberCount) then Reject(w)
        else EndValueFits(w); EndValue(w)
    else if e.EndArray? then
      if v.stack == [] then Reject(v) else HandleEndArray(f, v, e.elementCount)
    else
      var began := BeginValue(v);
      if began.None? then Reject(v)
      else
        BeginValueFits(v);
        var open := SchemaOpen(Top(began.value), e);
        if open.None? then Reject(began.value)
        else
          OpenFits(began.value, e);
          var w := Forward(f, WithTop(began.value, open.value), e);
          if e.StartObject? || e.StartArray? then w
          else EndValueFits(w); EndValue(w)
  }

  function HandleEndArray(f: DoubleBytes, v: Validator, n: nat): (v': Validator)
    requires Fits(v) && v.stack != []
    ensures v'.root == v.root && Fits(v')
    decreases v.root, 3, 0
  {
    hide Fits, SchemaEndArray, EndValue;
    var w := Forward(f, v, EndArray(n));
    TopFits(w);
    WithTopFits(w, Top(w).(inArray := false));
    var x := WithTop(w, Top(w).(inArray := false));
    if !SchemaEndArray(Top(x), n) then Reject(x) else EndValueFits(x); EndValue(x)
  }

  /** The parallel loop: the hasher and the validators of every context handle the event. */
  function Forward(f: DoubleBytes, v: Validator, e: Event): (v': Validator)
    requires Fits(v)
    ensures v'.root == v.root && v'.valid == v.valid && Fits(v') && |v'.stack| == |v.stack|
    decreases v.root, 2
  {
    FitsContexts(v);
    var w := v.(stack := ForwardContexts(f, v.root, v.stack, e));
    FitsContexts(w);
    w
  }

  function ForwardContexts(f: DoubleBytes, root: Schema, cs: seq<Context>, e: Event): (cs': seq<Context>)
    requires AllContextsFit(root, cs)
    ensures |cs'| == |cs| && AllContextsFit(root, cs')
    decreases root, 1, |cs|
  {
    if cs == [] then []
    else
      var c := cs[0];
      var hashed := if c.hasher.Some? then Some(HashEvent(f, c.hasher.value, e)) else None;
      [c.(hasher := hashed, validators := ForwardValidators(f, root, c.validators, e))]
      + ForwardContexts(f, root, cs[1..], e)
  }

  function ForwardValidators(f: DoubleBytes, root: Schema, ws: seq<Validator>, e: Event): (ws': seq<Validator>)
    requires AllValidatorsFit(root, ws)
    ensures |ws'| == |ws| && AllValidatorsFit(root, ws')
    decreases root, 0, |ws|
  {
    if ws == [] then [] else [Handle(f, ws[0], e)] + ForwardValidators(f, root, ws[1..], e)
  }

  lemma SchemaPartsAreSmaller(s: Schema, root: Schema)
    requires Within(s, root)
    ensures forall x | x in Parallels(s) :: x < root
    ensures forall i :: ItemSchema(s, i).Some? ==> Within(ItemSchema(s, i).value, root)
    ensures forall n :: MemberSchema(s, n).Some? ==> Within(MemberSchema(s, n).value, root)
  {
  }

  lemma WithTopFits(v: Validator, c: Context)
    requires Fits(v) && v.stack != [] && ContextFits(v.root, c)
    ensures Fits(WithTop(v, c))
  {
    hide Fits, ContextFits;
    FitsContexts(v);
    FitsContexts(WithTop(v, c));
  }

  lemma TopFits(v: Validator)
    requires Fits(v) && v.stack != []
    ensures ContextFits(v.root, Top(v)) && AllContextsFit(v.root, Below(v))
  {
    hide Fits, ContextFits;
    FitsContexts(v);
  }

  lemma KeyFits(v: Validator, name: string)
    requires Fits(v) && v.stack != [] && SchemaKey(Top(v), name).Some?
    ensures Fits(WithTop(v, SchemaKey(Top(v), name).value))
  {
    hide Fits, Within, MemberSchema, AllValidatorsFit;
    TopFits(v);
    SchemaPartsAreSmaller(Top(v).schema, v.root);
    WithTopFits(v, SchemaKey(Top(v), name).value);
  }

  lemma BeginValueFits(v: Validator)
    requires Fits(v) && BeginValue(v).Some?
    ensures Fits(BeginValue(v).value) && BeginValue(v).value.stack != []
    ensures BeginValue(v).value.root == v.root
  {
    hide Fits, ItemSchema;
    var w := BeginValue(v).value;
    FitsContexts(w);
    if v.stack != [] {
      TopFits(v);
      SchemaPartsAreSmaller(Top(v).schema, v.root);
    }
  }

  lemma FreshFits(s: Schema)
    ensures Fits(Fresh(s))
  {
  }

  lemma OpenFits(v: Validator, e: Event)
    requires Fits(v) && v.stack != [] && SchemaOpen(Top(v), e).Some?
    ensures Fits(WithTop(v, SchemaOpen(Top(v), e).value))
  {
    hide Fits, TypeAllows, HasRequired, Within, Parallels;
    var c := SchemaOpen(Top(v), e).value;
    TopFits(v);
    SchemaPartsAreSmaller(Top(v).schema, v.root);
    forall i | 0 <= i < |c.validators| ensures c.validators[i].root < v.root && Fits(c.validators[i]) {
      assert Parallels(c.schema)[i] in Parallels(c.schema);
      FreshFits(Parallels(c.schema)[i]);
    }
    WithTopFits(v, c);
  }

  lemma EndValueFits(v: Validator)
    requires Fits(v) && v.stack != []
    ensures Fits(EndValue(v)) && EndValue(v).root == v.root
  {
    hide Fits, SchemaEndValue, HashOf, Duplicate;
    var w := EndValue(v);
    TopFits(v);
    FitsContexts(v);
    FitsContexts(w);
  }
}
