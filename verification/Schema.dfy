/**
 Compiled schemas and the streaming validator over SAX events, as values: the
 schema object's handlers over one validation context, and the validator's step
 over its context stack. `SchemaValidator.dfy` refines the step by objects.
 */
module Schema {
  import opened Json

  datatype ValueType = NullType | BooleanType | ObjectType | ArrayType | StringType | NumberType | IntegerType

  /** What `dependencies` says about one property, if anything. */
  datatype Dependency =
    | NoDependency
    | OnProperties(indices: seq<nat>)
    | OnSchema(schema: Schema)

  datatype Property = Property(name: string, schema: Schema, required: bool, dependency: Dependency)

  /** A compiled schema. An empty list in `allOf`, `anyOf`, `oneOf` or `itemsTuple` means the keyword is absent. */
  datatype Schema = Schema(
    types: set<ValueType>,
    allOf: seq<Schema>,
    anyOf: seq<Schema>,
    oneOf: seq<Schema>,
    not_: Option<Schema>,
    properties: seq<Property>,
    additionalPropertiesSchema: Option<Schema>,
    additionalProperties: bool,
    minProperties: nat,
    maxProperties: nat,
    itemsList: Option<Schema>,
    itemsTuple: seq<Schema>,
    additionalItemsSchema: Option<Schema>,
    additionalItems: bool,
    minItems: nat,
    maxItems: nat,
    defaultValueLength: nat)

  const SIZE_MAX: nat := 0xFFFF_FFFF

  const ALL_TYPES: set<ValueType> :=
    {NullType, BooleanType, ObjectType, ArrayType, StringType, NumberType, IntegerType}

  /** The schema without any keyword. */
  const TYPELESS: Schema :=
    Schema(ALL_TYPES, [], [], [], None, [], None, true, 0, SIZE_MAX, None, [], None, true, 0, SIZE_MAX, 0)

  /** The first property of that name, or -1. */
  function FindPropertyIndex(properties: seq<Property>, name: string): (index: int)
    ensures -1 <= index < |properties|
  {
    if properties == [] then -1
    else if properties[0].name == name then 0
    else
      var rest := FindPropertyIndex(properties[1..], name);
      if rest < 0 then -1 else rest + 1
  }

  // ----- What a schema means -----

  /** The schema that the member of that name must satisfy; none if the member is not allowed. */
  function MemberSchema(s: Schema, name: string): Option<Schema> {
    var index := FindPropertyIndex(s.properties, name);
    if index >= 0 then Some(s.properties[index].schema)
    else if s.additionalPropertiesSchema.Some? then s.additionalPropertiesSchema
    else if s.additionalProperties then Some(TYPELESS)
    else None
  }

  /** The schema that the element at that index must satisfy; none if the element is not allowed. */
  function ElementSchema(s: Schema, index: nat): Option<Schema> {
    if s.itemsList.Some? then s.itemsList
    else if |s.itemsTuple| > 0 then
      if index < |s.itemsTuple| then Some(s.itemsTuple[index])
      else if s.additionalItemsSchema.Some? then s.additionalItemsSchema
      else if s.additionalItems then Some(TYPELESS)
      else None
    else Some(TYPELESS)
  }

  predicate TypeAllowed(s: Schema, v: Value) {
    match v
    case Null => NullType in s.types
    case Bool(_) => BooleanType in s.types
    case Number(_) => IntegerType in s.types || NumberType in s.types
    case Double(_) => NumberType in s.types
    case String(_) => StringType in s.types
    case Array(_) => ArrayType in s.types
    case Object(_) => ObjectType in s.types
  }

  /** Property number `i` is the one that some member of `ms` is checked against. */
  ghost predicate Present(s: Schema, ms: seq<Member>, i: nat) {
    exists k :: 0 <= k < |ms| && FindPropertyIndex(s.properties, ms[k].name) == i
  }

  /** The keywords about which properties an object has. A missing required property with a non-empty string default passes. */
  ghost predicate RequiredMet(s: Schema, ms: seq<Member>) {
    forall i :: 0 <= i < |s.properties| && s.properties[i].required ==>
      Present(s, ms, i) || s.properties[i].schema.defaultValueLength > 0
  }

  ghost predicate PropertyDependenciesMet(s: Schema, ms: seq<Member>) {
    forall i :: 0 <= i < |s.properties| && s.properties[i].dependency.OnProperties? && Present(s, ms, i) ==>
      forall j :: j in s.properties[i].dependency.indices && j < |s.properties| ==> Present(s, ms, j)
  }

  /** The recursive meaning of a schema on a tree: draft-04, sections 5.3 to 5.5. */
  ghost predicate Satisfies(s: Schema, v: Value)
    decreases v, s, 2
  {
    && TypeAllowed(s, v)
    && (v.Array? ==> s.minItems <= |v.elements| <= s.maxItems && ElementsSatisfy(s, v))
    && (v.Object? ==>
          && s.minProperties <= |v.members| <= s.maxProperties
          && RequiredMet(s, v.members)
          && PropertyDependenciesMet(s, v.members)
          && SchemaDependenciesMet(s, v)
          && MembersSatisfy(s, v))
    && AllOfMet(s, v)
    && AnyOfMet(s, v)
    && OneOfMet(s, v)
    && (s.not_.Some? ==> !Satisfies(s.not_.value, v))
  }

  ghost predicate ElementsSatisfy(s: Schema, v: Value)
    requires v.Array?
    decreases v, s, 1
  {
    forall k :: 0 <= k < |v.elements| ==>
      ElementSchema(s, k).Some? && Satisfies(ElementSchema(s, k).value, v.elements[k])
  }

  ghost predicate MembersSatisfy(s: Schema, v: Value)
    requires v.Object?
    decreases v, s, 1
  {
    forall k :: 0 <= k < |v.members| ==>
      && MemberSchema(s, v.members[k].name).Some?
      && Satisfies(MemberSchema(s, v.members[k].name).value, v.members[k].value)
  }

  ghost predicate SchemaDependenciesMet(s: Schema, v: Value)
    requires v.Object?
    decreases v, s, 1
  {
    forall i :: 0 <= i < |s.properties| && s.properties[i].dependency.OnSchema? && Present(s, v.members, i) ==>
      Satisfies(s.properties[i].dependency.schema, v)
  }

  ghost predicate AllOfMet(s: Schema, v: Value)
    decreases v, s, 1
  {
    forall i :: 0 <= i < |s.allOf| ==> Satisfies(s.allOf[i], v)
  }

  ghost predicate AnyOfMet(s: Schema, v: Value)
    decreases v, s, 1
  {
    |s.anyOf| > 0 ==> exists i :: 0 <= i < |s.anyOf| && Satisfies(s.anyOf[i], v)
  }

  ghost predicate OneOfMet(s: Schema, v: Value)
    decreases v, s, 1
  {
    |s.oneOf| > 0 ==> |OneOfMatches(s, v)| == 1
  }

  ghost function OneOfMatches(s: Schema, v: Value): set<int>
    decreases v, s, 0
  {
    set i | 0 <= i < |s.oneOf| && Satisfies(s.oneOf[i], v)
  }

  // ----- The validator's state -----

  /**
   One entry of the schema stack: the value being validated, the schema it is
   validated against, and the sub-validators that see the same events.
   */
  datatype Context<V> = Context(
    schema: Schema,
    valueSchema: Option<Schema>,
    inArray: bool,
    arrayElementIndex: nat,
    propertyExist: seq<bool>,
    validators: seq<V>)

  datatype Validator = Validator(root: Schema, valid: bool, stack: seq<Context<Validator>>)

  function Fresh(root: Schema): Validator {
    Validator(root, true, [])
  }

  function NewContext<V>(schema: Schema): Context<V> {
    Context(schema, None, false, 0, [], [])
  }

  function DependencySchemas(properties: seq<Property>): seq<Schema> {
    if properties == [] then []
    else
      var rest := DependencySchemas(properties[1..]);
      if properties[0].dependency.OnSchema? then [properties[0].dependency.schema] + rest else rest
  }

  function NotSchemas(s: Schema): seq<Schema> {
    if s.not_.Some? then [s.not_.value] else []
  }

  /** The schemas that get a sub-validator, in the order of their validator indices. */
  function SubSchemas(s: Schema): seq<Schema> {
    s.allOf + s.anyOf + s.oneOf + NotSchemas(s) + DependencySchemas(s.properties)
  }

  /** The number of sub-validators of schema dependencies before property `i`. */
  function DependencyIndex(properties: seq<Property>, i: nat): nat
    requires i <= |properties|
  {
    |DependencySchemas(properties[..i])|
  }

  /** The validator index of the schema dependency of property `i`. */
  function DependencyValidator(s: Schema, i: nat): nat
    requires i <= |s.properties|
  {
    |s.allOf| + |s.anyOf| + |s.oneOf| + |NotSchemas(s)| + DependencyIndex(s.properties, i)
  }

  // ----- The schema's handlers over one context -----

  predicate TypeAccepts(types: set<ValueType>, e: Event) {
    match e
    case NullEvent => NullType in types
    case BoolEvent(_) => BooleanType in types
    case IntEvent(_) => IntegerType in types || NumberType in types
    case UintEvent(_) => IntegerType in types || NumberType in types
    case Int64Event(_) => IntegerType in types || NumberType in types
    case Uint64Event(_) => IntegerType in types || NumberType in types
    case DoubleEvent(_) => NumberType in types
    case StringEvent(_) => StringType in types
    case StartObject => ObjectType in types
    case StartArray => ArrayType in types
    case _ => false
  }

  predicate HasRequired(s: Schema) {
    exists i :: 0 <= i < |s.properties| && s.properties[i].required
  }

  predicate HasDependencies(s: Schema) {
    exists i :: 0 <= i < |s.properties| && !s.properties[i].dependency.NoDependency?
  }

  /** `Schema::BeginValue`: picks the schema of the next array element. */
  function SchemaBeginValue<V>(c: Context<V>): (r: (Context<V>, bool)) {
    if !c.inArray then (c, true)
    else
      var chosen := ElementSchema(c.schema, c.arrayElementIndex);
      (c.(valueSchema := if chosen.Some? then chosen else Some(TYPELESS), arrayElementIndex := c.arrayElementIndex + 1),
       chosen.Some?)
  }

  /** The bookkeeping of `StartObject` and `StartArray` before sub-validators are made. */
  function SchemaStart<V>(c: Context<V>, e: Event): Context<V> {
    if e.StartArray? then c.(arrayElementIndex := 0, inArray := true)
    else if e.StartObject? && (HasDependencies(c.schema) || HasRequired(c.schema)) then
      c.(propertyExist := seq(|c.schema.properties|, _ => false))
    else c
  }

  /** `Schema::Key`: notes the property and picks the schema of its value. */
  function SchemaKey<V>(c: Context<V>, name: string): (r: (Context<V>, bool)) {
    var index := FindPropertyIndex(c.schema.properties, name);
    var chosen := MemberSchema(c.schema, name);
    var exist := if 0 <= index < |c.propertyExist| then c.propertyExist[index := true] else c.propertyExist;
    (c.(propertyExist := exist, valueSchema := if chosen.Some? then chosen else Some(TYPELESS)), chosen.Some?)
  }

  predicate Exists(exist: seq<bool>, i: nat) {
    i < |exist| && exist[i]
  }

  /** `Schema::EndObject`, given the verdict of each sub-validator. */
  predicate SchemaEndObject(s: Schema, exist: seq<bool>, verdicts: seq<bool>, memberCount: nat)
    requires |verdicts| == |SubSchemas(s)|
  {
    && (forall i :: 0 <= i < |s.properties| && s.properties[i].required && !Exists(exist, i) ==>
          s.properties[i].schema.defaultValueLength > 0)
    && s.minProperties <= memberCount <= s.maxProperties
    && (forall i :: 0 <= i < |s.properties| && s.properties[i].dependency.OnProperties? && Exists(exist, i) ==>
          forall j :: j in s.properties[i].dependency.indices && j < |s.properties| ==> Exists(exist, j))
    && (forall i :: 0 <= i < |s.properties| && s.properties[i].dependency.OnSchema? && Exists(exist, i) ==>
          DependencyValidator(s, i) < |verdicts| && verdicts[DependencyValidator(s, i)])
  }

  predicate SchemaEndArray(s: Schema, elementCount: nat) {
    s.minItems <= elementCount <= s.maxItems
  }

  predicate AllTrue(vs: seq<bool>, lo: nat, hi: nat)
    requires lo <= hi <= |vs|
  {
    forall i :: lo <= i < hi ==> vs[i]
  }

  predicate AnyTrue(vs: seq<bool>, lo: nat, hi: nat)
    requires lo <= hi <= |vs|
  {
    exists i :: lo <= i < hi && vs[i]
  }

  predicate OneTrue(vs: seq<bool>, lo: nat, hi: nat)
    requires lo <= hi <= |vs|
  {
    exists i :: (lo <= i < hi && vs[i] && forall j :: lo <= j < hi && j != i ==> !vs[j])
  }

  /** `Schema::EndValue`, given the verdict of each sub-validator. */
  predicate SchemaEndValue(s: Schema, verdicts: seq<bool>)
    requires |verdicts| == |SubSchemas(s)|
  {
    var any := |s.allOf|;
    var one := any + |s.anyOf|;
    var neg := one + |s.oneOf|;
    && AllTrue(verdicts, 0, any)
    && (|s.anyOf| > 0 ==> AnyTrue(verdicts, any, one))
    && (|s.oneOf| > 0 ==> OneTrue(verdicts, one, neg))
    && (s.not_.Some? ==> !verdicts[neg])
  }

  // ----- One step of the validator -----

  /** A schema that contexts under root `root` may carry: part of it, or the typeless one. */
  ghost predicate Within(s: Schema, root: Schema) {
    s == root || s < root || s == TYPELESS
  }

  /** Every context has one sub-validator per sub-schema, each for a strictly smaller schema than the root. */
  ghost predicate Ok(v: Validator) {
    forall i :: 0 <= i < |v.stack| ==>
      && Within(v.stack[i].schema, v.root)
      && (v.stack[i].valueSchema.Some? ==> Within(v.stack[i].valueSchema.value, v.root))
      && |v.stack[i].validators| == |SubSchemas(v.stack[i].schema)|
      && forall j :: 0 <= j < |v.stack[i].validators| ==>
           v.stack[i].validators[j].root < v.root && Ok(v.stack[i].validators[j])
  }

  ghost predicate AllOk(vs: seq<Validator>, root: Schema) {
    forall i :: 0 <= i < |vs| ==> vs[i].root < root && Ok(vs[i])
  }

  ghost predicate ContextOk(c: Context<Validator>, root: Schema) {
    && Within(c.schema, root)
    && (c.valueSchema.Some? ==> Within(c.valueSchema.value, root))
    && |c.validators| == |SubSchemas(c.schema)|
    && AllOk(c.validators, root)
  }

  ghost predicate StackOk(stack: seq<Context<Validator>>, root: Schema) {
    forall i :: 0 <= i < |stack| ==> ContextOk(stack[i], root)
  }

  /** A validator that has failed: it refuses every further event, so its stack is never read again. */
  function Rejected(root: Schema): Validator {
    Validator(root, false, [])
  }

  /** `Schema::CreateParallelValidator`. */
  function CreateParallelValidator(c: Context<Validator>): Context<Validator> {
    c.(validators := seq(|SubSchemas(c.schema)|, i requires 0 <= i < |SubSchemas(c.schema)| => Fresh(SubSchemas(c.schema)[i])))
  }

  function Verdicts(vs: seq<Validator>): (r: seq<bool>)
    ensures |r| == |vs|
  {
    seq(|vs|, i requires 0 <= i < |vs| => vs[i].valid)
  }

  /** `GenericSchemaValidator::BeginValue` on the stack before the push: the top context chooses. */
  function BeginTop(stack: seq<Context<Validator>>): (r: (seq<Context<Validator>>, bool)) {
    if stack == [] then (stack, true)
    else
      var (top, ok) := SchemaBeginValue(stack[|stack| - 1]);
      (stack[..|stack| - 1] + [top], ok && top.valueSchema.Some?)
  }

  /** The schema that the value about to begin is validated against, after `BeginTop`. */
  function ValueSchema(root: Schema, begun: seq<Context<Validator>>): Schema {
    if begun == [] || begun[|begun| - 1].valueSchema.None? then root
    else begun[|begun| - 1].valueSchema.value
  }

  lemma StackOfOk(v: Validator)
    ensures Ok(v) <==> StackOk(v.stack, v.root)
  {
  }

  lemma DependencySchemasSmaller(properties: seq<Property>, s: Schema)
    requires forall i :: 0 <= i < |properties| ==> properties[i] < s
    ensures forall i :: 0 <= i < |DependencySchemas(properties)| ==> DependencySchemas(properties)[i] < s
  {
  }

  lemma SubSchemasSmaller(s: Schema, i: nat)
    requires i < |SubSchemas(s)|
    ensures SubSchemas(s)[i] < s
  {
    DependencySchemasSmaller(s.properties, s);
  }

  lemma MemberSchemaWithin(s: Schema, name: string, root: Schema)
    requires Within(s, root)
    ensures MemberSchema(s, name).Some? ==> Within(MemberSchema(s, name).value, root)
  {
  }

  lemma BeginTopOk(stack: seq<Context<Validator>>, root: Schema)
    requires StackOk(stack, root)
    ensures StackOk(BeginTop(stack).0, root)
    ensures Within(ValueSchema(root, BeginTop(stack).0), root)
  {
  }

  lemma SubSchemasWithin(schema: Schema, root: Schema)
    requires Within(schema, root)
    ensures forall i :: 0 <= i < |SubSchemas(schema)| ==> SubSchemas(schema)[i] < root
  {
    forall i | 0 <= i < |SubSchemas(schema)|
      ensures SubSchemas(schema)[i] < root
    {
      SubSchemasSmaller(schema, i);
    }
  }

  lemma NewContextOk(schema: Schema, e: Event, root: Schema)
    requires Within(schema, root)
    ensures ContextOk(CreateParallelValidator(SchemaStart(NewContext(schema), e)), root)
  {
    SubSchemasWithin(schema, root);
  }

  /** A handler's part before the sub-validators see the event: the stack that is then fed, or none on a violation. */
  function Open(v: Validator, e: Event): (r: Option<seq<Context<Validator>>>)
    requires Ok(v) && v.valid
    ensures r.Some? ==> StackOk(r.value, v.root) && |r.value| > 0
  {
    StackOfOk(v);
    if e.Key? then
      if v.stack == [] then None
      else
        var (top, ok) := SchemaKey(v.stack[|v.stack| - 1], e.name);
        MemberSchemaWithin(v.stack[|v.stack| - 1].schema, e.name, v.root);
        if ok then Some(v.stack[..|v.stack| - 1] + [top]) else None
    else if e.EndObject? || e.EndArray? then
      if v.stack == [] then None else Some(v.stack)
    else
      var (begun, ok) := BeginTop(v.stack);
      BeginTopOk(v.stack, v.root);
      var schema := ValueSchema(v.root, begun);
      if ok && TypeAccepts(schema.types, e) then
        NewContextOk(schema, e, v.root);
        Some(begun + [CreateParallelValidator(SchemaStart(NewContext(schema), e))])
      else None
  }

  /** A handler's part after the sub-validators have seen the event: the end checks, then the pop. */
  function Close(root: Schema, fed: seq<Context<Validator>>, e: Event): (r: Validator)
    requires |fed| > 0 && StackOk(fed, root)
    ensures Ok(r) && r.root == root
  {
    var top := fed[|fed| - 1];
    var verdicts := Verdicts(top.validators);
    if e.Key? || e.StartObject? || e.StartArray? then
      StackOfOk(Validator(root, true, fed));
      Validator(root, true, fed)
    else if (e.EndObject? ==> SchemaEndObject(top.schema, top.propertyExist, verdicts, e.memberCount))
         && (e.EndArray? ==> SchemaEndArray(top.schema, e.elementCount))
         && SchemaEndValue(top.schema, verdicts) then
      StackOfOk(Validator(root, true, fed[..|fed| - 1]));
      Validator(root, true, fed[..|fed| - 1])
    else Rejected(root)
  }

  /** One event: `RAPIDJSON_SCHEMA_HANDLE_VALUE_` and the structural handlers. */
  function Step(v: Validator, e: Event): (r: Validator)
    requires Ok(v)
    ensures Ok(r) && r.root == v.root
    decreases v.root, 2, 0
  {
    if !v.valid then Rejected(v.root)
    else
      var ready := Open(v, e);
      if ready.None? then Rejected(v.root)
      else Close(v.root, Parallel(ready.value, e, v.root), e)
  }

  /** `RAPIDJSON_SCHEMA_HANDLE_PARALLEL_`: every sub-validator of every context gets the event. */
  function Parallel(stack: seq<Context<Validator>>, e: Event, root: Schema): (r: seq<Context<Validator>>)
    requires StackOk(stack, root)
    ensures |r| == |stack| && StackOk(r, root)
    ensures forall i :: 0 <= i < |stack| ==> r[i] == stack[i].(validators := r[i].validators)
    decreases root, 1, |stack|
  {
    if stack == [] then []
    else [stack[0].(validators := StepAll(stack[0].validators, e, root))] + Parallel(stack[1..], e, root)
  }

  function StepAll(vs: seq<Validator>, e: Event, root: Schema): (r: seq<Validator>)
    requires AllOk(vs, root)
    ensures |r| == |vs| && AllOk(r, root)
    ensures forall i :: 0 <= i < |vs| ==> r[i].root == vs[i].root
    decreases root, 0, |vs|
  {
    if vs == [] then [] else [Step(vs[0], e)] + StepAll(vs[1..], e, root)
  }
}
