/**
 The streaming validator as objects: each context of the stack owns its
 sub-validators, and every event is passed down to all of them.
 */
module SchemaValidator {
  import opened Json
  import opened Schema
  import opened SchemaMeaning

  /** The sub-validators of all contexts, from the bottom of the stack to its top. */
  function Flat<V>(stack: seq<Context<V>>): seq<V> {
    if stack == [] then [] else Flat(stack[..|stack| - 1]) + stack[|stack| - 1].validators
  }

  lemma FlatPush<V>(stack: seq<Context<V>>, c: Context<V>)
    ensures Flat(stack + [c]) == Flat(stack) + c.validators
  {
    assert (stack + [c])[..|stack|] == stack;
  }

  lemma FlatSetTop<V>(stack: seq<Context<V>>, top: Context<V>)
    requires stack != [] && top.validators == stack[|stack| - 1].validators
    ensures Flat(stack[..|stack| - 1] + [top]) == Flat(stack)
  {
    FlatPush(stack[..|stack| - 1], top);
  }

  lemma {:induction false} FlatPrefix<V>(stack: seq<Context<V>>, i: nat, j: nat)
    requires i < |stack| && j < |stack[i].validators|
    ensures |Flat(stack[..i])| + j < |Flat(stack)|
    ensures Flat(stack)[|Flat(stack[..i])| + j] == stack[i].validators[j]
    ensures |Flat(stack[..i + 1])| == |Flat(stack[..i])| + |stack[i].validators|
  {
    assert stack[..i + 1][..i] == stack[..i];
    if i < |stack| - 1 {
      var front := stack[..|stack| - 1];
      assert front[..i] == stack[..i] && front[..i + 1] == stack[..i + 1];
      FlatPrefix(front, i, j);
    } else {
      assert stack[..i + 1] == stack;
    }
  }

  lemma FlatLength<V>(stack: seq<Context<V>>, i: nat)
    requires i < |stack|
    ensures |Flat(stack[..i + 1])| == |Flat(stack[..i])| + |stack[i].validators|
  {
    assert stack[..i + 1][..i] == stack[..i];
  }

  lemma FeedAllSteps(ms: seq<Validator>, e: Event, root: Schema)
    requires AllOk(ms, root)
    ensures forall l :: 0 <= l < |ms| ==> FeedAll(ms, [e], root)[l] == Step(ms[l], e)
  {
    forall l | 0 <= l < |ms|
      ensures FeedAll(ms, [e], root)[l] == Step(ms[l], e)
    {
      assert Feed(ms[l], [e]) == Feed(Step(ms[l], e), []);
    }
  }

  lemma {:induction false} FlatAllOk(stack: seq<Context<Validator>>, root: Schema)
    requires StackOk(stack, root)
    ensures AllOk(Flat(stack), root)
  {
    if stack != [] {
      FlatAllOk(stack[..|stack| - 1], root);
    }
  }

  /** Passing an event to every context passes it to every sub-validator. */
  lemma {:induction false} FlatParallel(stack: seq<Context<Validator>>, e: Event, root: Schema)
    requires StackOk(stack, root)
    ensures AllOk(Flat(stack), root)
    ensures Flat(Parallel(stack, e, root)) == FeedAll(Flat(stack), [e], root)
  {
    FlatAllOk(stack, root);
    ParallelIsFeed(stack, e, root);
    FlatFeed(stack, [e], root);
  }

  lemma {:induction false} FlatFeed(stack: seq<Context<Validator>>, es: seq<Event>, root: Schema)
    requires StackOk(stack, root)
    ensures AllOk(Flat(stack), root)
    ensures Flat(FeedStack(stack, es, root)) == FeedAll(Flat(stack), es, root)
  {
    FlatAllOk(stack, root);
    if stack != [] {
      FlatFeed(stack[..|stack| - 1], es, root);
      FeedStackSplit(stack, es, root);
    }
  }

  /** Two contexts that differ only in how they represent their sub-validators. */
  ghost predicate SameFields<V, W>(c: Context<V>, d: Context<W>) {
    && c.schema == d.schema
    && c.valueSchema == d.valueSchema
    && c.inArray == d.inArray
    && c.arrayElementIndex == d.arrayElementIndex
    && c.propertyExist == d.propertyExist
    && |c.validators| == |d.validators|
  }

  ghost predicate SameShape<V, W>(stack: seq<Context<V>>, other: seq<Context<W>>) {
    && |stack| == |other|
    && forall i :: 0 <= i < |stack| ==> SameFields(stack[i], other[i])
  }

  lemma {:induction false} SameShapeFlat<V, W>(stack: seq<Context<V>>, other: seq<Context<W>>)
    requires SameShape(stack, other)
    ensures |Flat(stack)| == |Flat(other)|
  {
    if stack != [] {
      SameShapeFlat(stack[..|stack| - 1], other[..|stack| - 1]);
    }
  }

  class GenericSchemaValidator {
    const root: Schema
    var valid: bool
    var schemaStack: seq<Context<GenericSchemaValidator>>

    ghost var model: Validator
    ghost var Repr: set<object>

    /** `us` are disjoint validators for schemas smaller than `bound`, inside `objects`, in the states `models`. */
    static ghost predicate Owned(us: seq<GenericSchemaValidator>, models: seq<Validator>, objects: set<object>, bound: Schema)
      reads objects
      decreases bound, 0
    {
      && |us| == |models|
      && (forall k :: 0 <= k < |us| ==> us[k] in objects && us[k].Repr <= objects && us[k].root < bound)
      && (forall k :: 0 <= k < |us| ==> us[k].Valid() && us[k].model == models[k])
      && (forall k, l :: 0 <= k < l < |us| ==> us[k].Repr !! us[l].Repr)
    }

    ghost predicate Valid()
      reads this, Repr
      decreases root, 1
    {
      && this in Repr
      && Ok(model) && model.root == root && model.valid == valid
      && (!valid ==> model == Rejected(root))
      && (valid ==> SameShape(schemaStack, model.stack) && Owned(Flat(schemaStack), Flat(model.stack), Repr - {this}, root))
    }

    constructor (root: Schema)
      ensures Valid() && fresh(Repr)
      ensures this.root == root && model == Fresh(root)
    {
      this.root := root;
      valid := true;
      schemaStack := [];
      model := Fresh(root);
      Repr := {this};
    }

    /** Establishes `Valid` after `schemaStack` or the sub-validators have changed. */
    ghost method Adopt(after: Validator, objects: set<object>)
      requires valid && after.valid && after.root == root && Ok(after) && this !in objects
      requires SameShape(schemaStack, after.stack) && Owned(Flat(schemaStack), Flat(after.stack), objects, root)
      modifies this`model, this`Repr
      ensures Valid() && model == after && Repr == objects + {this}
    {
      model := after;
      Repr := objects + {this};
      assert Repr - {this} == objects;
    }

    static lemma OwnedAppend(us: seq<GenericSchemaValidator>, ms: seq<Validator>, some: set<object>,
                             vs: seq<GenericSchemaValidator>, ns: seq<Validator>, others: set<object>, bound: Schema)
      requires Owned(us, ms, some, bound) && Owned(vs, ns, others, bound) && some !! others
      ensures Owned(us + vs, ms + ns, some + others, bound)
    {
    }

    /** `CreateSchemaValidators` for all keywords of `CreateParallelValidator`, in validator index order. */
    static method CreateSchemaValidators(schemas: seq<Schema>, ghost models: seq<Validator>, ghost bound: Schema)
      returns (vs: seq<GenericSchemaValidator>, ghost objects: set<object>)
      requires |models| == |schemas|
      requires forall i :: 0 <= i < |schemas| ==> schemas[i] < bound && models[i] == Fresh(schemas[i])
      ensures Owned(vs, models, objects, bound) && fresh(objects)
    {
      vs, objects := [], {};
      for i := 0 to |schemas|
        invariant Owned(vs, models[..i], objects, bound) && fresh(objects)
      {
        var v := new GenericSchemaValidator(schemas[i]);
        assert Owned([v], [models[i]], v.Repr, bound);
        OwnedAppend(vs, models[..i], objects, [v], [models[i]], v.Repr, bound);
        assert models[..i + 1] == models[..i] + [models[i]];
        vs, objects := vs + [v], objects + v.Repr;
      }
      assert models[..|schemas|] == models;
    }

    /** Replaces the fields of the top context, keeping its sub-validators. */
    method SetTop(top: Context<GenericSchemaValidator>, ghost modelTop: Context<Validator>)
      requires Valid() && valid && schemaStack != []
      requires top.validators == schemaStack[|schemaStack| - 1].validators
      requires modelTop.validators == model.stack[|schemaStack| - 1].validators
      requires SameFields(top, modelTop)
      requires StackOk(model.stack[..|schemaStack| - 1] + [modelTop], root)
      modifies this
      ensures Valid() && Repr == old(Repr) && valid
      ensures schemaStack == old(schemaStack)[..|old(schemaStack)| - 1] + [top]
      ensures model == Validator(root, true, old(model).stack[..|old(schemaStack)| - 1] + [modelTop])
    {
      hide Owned, Flat;
      var n := |schemaStack| - 1;
      ghost var after := Validator(root, true, model.stack[..n] + [modelTop]);
      ghost var us, ms, mine := Flat(schemaStack), Flat(model.stack), Repr - {this};
      FlatSetTop(schemaStack, top);
      FlatSetTop(model.stack, modelTop);
      StackOfOk(after);
      schemaStack := schemaStack[..n] + [top];
      Adopt(after, mine);
    }

    static lemma PushOk(v: Validator, schema: Schema, e: Event)
      requires Ok(v) && Within(schema, v.root)
      ensures Ok(Validator(v.root, true, v.stack + [FirstContext(schema, e)]))
      ensures FirstContext(schema, e).schema == schema
      ensures |FirstContext(schema, e).validators| == |SubSchemas(schema)|
      ensures forall i :: 0 <= i < |SubSchemas(schema)| ==>
                SubSchemas(schema)[i] < v.root && FirstContext(schema, e).validators[i] == Fresh(SubSchemas(schema)[i])
    {
      NewContextOk(schema, e, v.root);
      SubSchemasWithin(schema, v.root);
      StackOfOk(v);
      StackOfOk(Validator(v.root, true, v.stack + [FirstContext(schema, e)]));
    }

    static lemma OwnedPush(stack: seq<Context<GenericSchemaValidator>>, models: seq<Context<Validator>>, some: set<object>,
                           context: Context<GenericSchemaValidator>, c: Context<Validator>, others: set<object>, bound: Schema)
      requires SameShape(stack, models) && Owned(Flat(stack), Flat(models), some, bound)
      requires SameFields(context, c) && Owned(context.validators, c.validators, others, bound) && some !! others
      ensures SameShape(stack + [context], models + [c])
      ensures Owned(Flat(stack + [context]), Flat(models + [c]), some + others, bound)
    {
      OwnedAppend(Flat(stack), Flat(models), some, context.validators, c.validators, others, bound);
      FlatPush(stack, context);
      FlatPush(models, c);
    }

    /** Makes `context` the new top; its sub-validators, in `objects`, are in the states of `c`. */
    method PushContext(context: Context<GenericSchemaValidator>, ghost c: Context<Validator>, ghost objects: set<object>)
      requires Valid() && valid
      requires SameFields(context, c) && Ok(Validator(root, true, model.stack + [c]))
      requires Owned(context.validators, c.validators, objects, root) && objects !! Repr
      modifies this
      ensures Valid() && Repr == old(Repr) + objects && valid
      ensures model == Validator(root, true, old(model).stack + [c])
    {
      hide Owned, Flat;
      ghost var mine := Repr - {this};
      ghost var after := Validator(root, true, model.stack + [c]);
      OwnedPush(schemaStack, model.stack, mine, context, c, objects, root);
      schemaStack := schemaStack + [context];
      Adopt(after, mine + objects);
    }

    /** `PushSchema`, then the schema's own handler of the opening event. */
    method Push(schema: Schema, e: Event)
      requires Valid() && valid && Within(schema, root)
      modifies this
      ensures Valid() && fresh(Repr - old(Repr)) && valid
      ensures model == Validator(root, true, old(model).stack + [FirstContext(schema, e)])
    {
      ghost var c := FirstContext(schema, e);
      PushOk(model, schema, e);
      var subs, objects := CreateSchemaValidators(SubSchemas(schema), c.validators, root);
      var context := SchemaStart(NewContext(schema), e).(validators := subs);
      PushContext(context, c, objects);
    }

    /** Passes the event to sub-validator `us[k]`; its siblings do not change. */
    method FeedOne(u: GenericSchemaValidator, e: Event, ghost us: seq<GenericSchemaValidator>,
                   ghost models: seq<Validator>, ghost k: nat, ghost objects: set<object>)
      returns (ghost after: set<object>)
      requires Owned(us, models, objects, root) && k < |us| && us[k] == u && Ok(models[k])
      modifies objects
      ensures after >= objects && fresh(after - objects)
      ensures Owned(us, models[k := Step(models[k], e)], after, root)
      decreases root, 1
    {
      var _ := u.Handle(e);
      after := objects + u.Repr;
    }

    /** `now` is `ms` with the first `k` validators fed `e`. */
    static ghost predicate FedUpTo(ms: seq<Validator>, now: seq<Validator>, k: nat, e: Event) {
      && |now| == |ms|
      && forall l :: 0 <= l < |ms| ==> Ok(ms[l]) && now[l] == if l < k then Step(ms[l], e) else ms[l]
    }

    /** One turn of the loops below. */
    method FeedNext(u: GenericSchemaValidator, e: Event, ghost us: seq<GenericSchemaValidator>, ghost ms: seq<Validator>,
                    ghost before: seq<Validator>, ghost k: nat, ghost objects: set<object>)
      returns (ghost now: seq<Validator>, ghost mine: set<object>)
      requires FedUpTo(ms, before, k, e) && Owned(us, before, objects, root) && k < |us| && us[k] == u
      modifies objects
      ensures mine >= objects && fresh(mine - objects)
      ensures FedUpTo(ms, now, k + 1, e) && Owned(us, now, mine, root)
      decreases root, 2
    {
      mine := FeedOne(u, e, us, before, k, objects);
      now := before[k := Step(before[k], e)];
    }

    /** The inner loop of `RAPIDJSON_SCHEMA_HANDLE_PARALLEL_`, over the sub-validators of context `i`. */
    method FeedContextSubs(i: nat, e: Event, ghost us: seq<GenericSchemaValidator>, ghost ms: seq<Validator>,
                           ghost before: seq<Validator>, ghost objects: set<object>)
      returns (ghost now: seq<Validator>, ghost mine: set<object>)
      requires us == Flat(schemaStack) && i < |schemaStack| && this !in objects
      requires FedUpTo(ms, before, |Flat(schemaStack[..i])|, e) && Owned(us, before, objects, root)
      modifies objects
      ensures mine >= objects && fresh(mine - objects) && this !in mine
      ensures FedUpTo(ms, now, |Flat(schemaStack[..i + 1])|, e) && Owned(us, now, mine, root)
      decreases root, 3
    {
      hide Owned, FedUpTo, Flat;
      ghost var k := |Flat(schemaStack[..i])|;
      now, mine := before, objects;
      for j := 0 to |schemaStack[i].validators|
        invariant mine >= objects && fresh(mine - objects) && this !in mine
        invariant FedUpTo(ms, now, k + j, e) && Owned(us, now, mine, root)
      {
        FlatPrefix(schemaStack, i, j);
        now, mine := FeedNext(schemaStack[i].validators[j], e, us, ms, now, k + j, mine);
      }
      FlatLength(schemaStack, i);
    }

    /** The loops of `RAPIDJSON_SCHEMA_HANDLE_PARALLEL_`. */
    method FeedAllContexts(e: Event, ghost us: seq<GenericSchemaValidator>, ghost ms: seq<Validator>, ghost objects: set<object>)
      returns (ghost now: seq<Validator>, ghost mine: set<object>)
      requires us == Flat(schemaStack) && this !in objects
      requires FedUpTo(ms, ms, 0, e) && Owned(us, ms, objects, root)
      modifies objects
      ensures mine >= objects && fresh(mine - objects) && this !in mine
      ensures FedUpTo(ms, now, |us|, e) && Owned(us, now, mine, root)
      decreases root, 4
    {
      now, mine := ms, objects;
      for i := 0 to |schemaStack|
        invariant mine >= objects && fresh(mine - objects) && this !in mine
        invariant FedUpTo(ms, now, |Flat(schemaStack[..i])|, e) && Owned(us, now, mine, root)
      {
        now, mine := FeedContextSubs(i, e, us, ms, now, mine);
      }
      assert schemaStack[..|schemaStack|] == schemaStack;
    }

    /** The models before and after the loops. */
    static lemma ParallelStates(v: Validator, e: Event)
      requires Ok(v) && v.valid
      ensures StackOk(v.stack, v.root) && FedUpTo(Flat(v.stack), Flat(v.stack), 0, e)
      ensures Ok(Validator(v.root, true, Parallel(v.stack, e, v.root)))
      ensures SameShape(v.stack, Parallel(v.stack, e, v.root))
      ensures forall now :: FedUpTo(Flat(v.stack), now, |Flat(v.stack)|, e) ==> now == Flat(Parallel(v.stack, e, v.root))
    {
      StackOfOk(v);
      FlatParallel(v.stack, e, v.root);
      FeedAllSteps(Flat(v.stack), e, v.root);
      StackOfOk(Validator(v.root, true, Parallel(v.stack, e, v.root)));
    }

    /** `RAPIDJSON_SCHEMA_HANDLE_PARALLEL_`. */
    method PassDown(e: Event)
      requires Valid() && valid
      modifies Repr
      ensures Valid() && fresh(Repr - old(Repr)) && valid && schemaStack == old(schemaStack)
      ensures StackOk(old(model).stack, root)
      ensures model == Validator(root, true, Parallel(old(model).stack, e, root))
      decreases root, 5
    {
      ParallelStates(model, e);
      ghost var now, mine := FeedAllContexts(e, Flat(schemaStack), Flat(model.stack), Repr - {this});
      Adopt(Validator(root, true, Parallel(model.stack, e, root)), mine);
    }

    /** `GenericSchemaValidator::BeginValue` without the push: the schema of the next value, if one is allowed. */
    method BeginValue() returns (ok: bool, schema: Schema)
      requires Valid() && valid
      modifies this
      ensures Valid() && Repr == old(Repr) && valid
      ensures model == Validator(root, true, BeginTop(old(model).stack).0)
      ensures ok == BeginTop(old(model).stack).1
      ensures schema == ValueSchema(root, model.stack) && Within(schema, root)
    {
      StackOfOk(model);
      BeginTopOk(model.stack, root);
      if schemaStack == [] {
        return true, root;
      }
      var (top, chosen) := SchemaBeginValue(schemaStack[|schemaStack| - 1]);
      SetTop(top, SchemaBeginValue(model.stack[|schemaStack| - 1]).0);
      ok := chosen && top.valueSchema.Some?;
      schema := if top.valueSchema.Some? then top.valueSchema.value else root;
    }

    static lemma OwnedTop(stack: seq<Context<GenericSchemaValidator>>, models: seq<Context<Validator>>, objects: set<object>, bound: Schema,
                          us: seq<GenericSchemaValidator>, ms: seq<Validator>)
      requires stack != [] && SameShape(stack, models) && Owned(Flat(stack), Flat(models), objects, bound)
      requires us == stack[|stack| - 1].validators && ms == models[|stack| - 1].validators
      ensures |us| == |ms|
      ensures forall j :: 0 <= j < |us| ==> us[j].valid == ms[j].valid
    {
      var n := |stack| - 1;
      SameShapeFlat(stack[..n], models[..n]);
      assert SameFields(stack[n], models[n]);
      forall j | 0 <= j < |us|
        ensures us[j].valid == ms[j].valid
      {
        var k := |Flat(stack[..n])| + j;
        assert Flat(stack)[k] == us[j] && Flat(models)[k] == ms[j];
        assert Flat(stack)[k].Valid();
      }
    }

    /** The verdicts of the top context's sub-validators. */
    method TopVerdicts() returns (verdicts: seq<bool>)
      requires Valid() && valid && schemaStack != []
      ensures verdicts == Verdicts(model.stack[|schemaStack| - 1].validators)
    {
      var n := |schemaStack| - 1;
      var us := schemaStack[n].validators;
      ghost var ms := model.stack[n].validators;
      OwnedTop(schemaStack, model.stack, Repr - {this}, root, us, ms);
      verdicts := [];
      for j := 0 to |us|
        invariant verdicts == Verdicts(ms)[..j]
      {
        verdicts := verdicts + [us[j].valid];
      }
    }

    static lemma OwnedPop(stack: seq<Context<GenericSchemaValidator>>, models: seq<Context<Validator>>, objects: set<object>, bound: Schema)
      requires stack != [] && SameShape(stack, models) && Owned(Flat(stack), Flat(models), objects, bound)
      ensures SameShape(stack[..|stack| - 1], models[..|stack| - 1])
      ensures Owned(Flat(stack[..|stack| - 1]), Flat(models[..|stack| - 1]), objects, bound)
    {
      var n := |stack| - 1;
      SameShapeFlat(stack[..n], models[..n]);
      assert forall k :: 0 <= k < |Flat(stack[..n])| ==> Flat(stack)[k] == Flat(stack[..n])[k] && Flat(models)[k] == Flat(models[..n])[k];
    }

    /** The context is destroyed with its sub-validators. */
    method PopSchema()
      requires Valid() && valid && schemaStack != []
      modifies this
      ensures Valid() && Repr == old(Repr) && valid
      ensures model == Validator(root, true, old(model).stack[..|old(model).stack| - 1])
    {
      ghost var after := Validator(root, true, model.stack[..|schemaStack| - 1]);
      ghost var mine := Repr - {this};
      OwnedPop(schemaStack, model.stack, mine, root);
      StackOfOk(model);
      StackOfOk(after);
      schemaStack := schemaStack[..|schemaStack| - 1];
      Adopt(after, mine);
      assert mine + {this} == old(Repr);
    }

    /** `valid_ = false`. */
    method Reject()
      requires Valid()
      modifies this
      ensures Valid() && Repr == old(Repr) && !valid && model == Rejected(root)
    {
      valid := false;
      model := Rejected(root);
    }

    /** The part of the handlers after the sub-validators have seen the event. */
    method Finish(e: Event)
      requires Valid() && valid && schemaStack != []
      modifies this
      ensures Valid() && Repr == old(Repr)
      ensures StackOk(old(model).stack, root)
      ensures model == Close(root, old(model).stack, e)
    {
      StackOfOk(model);
      if e.Key? || e.StartObject? || e.StartArray? {
        return;
      }
      var verdicts := TopVerdicts();
      var top := schemaStack[|schemaStack| - 1];
      assert SameFields(top, model.stack[|schemaStack| - 1]);
      if e.EndObject? && !SchemaEndObject(top.schema, top.propertyExist, verdicts, e.memberCount) {
        Reject();
      } else if e.EndArray? && !SchemaEndArray(top.schema, e.elementCount) {
        Reject();
      } else if !SchemaEndValue(top.schema, verdicts) {
        Reject();
      } else {
        PopSchema();
      }
    }

    /** `Key` before the sub-validators see it. */
    method BeginKey(name: string) returns (ok: bool)
      requires Valid() && valid && schemaStack != []
      modifies this
      ensures Valid() && Repr == old(Repr) && valid && schemaStack != []
      ensures ok == Open(old(model), Key(name)).Some?
      ensures ok ==> model == Validator(root, true, Open(old(model), Key(name)).value)
    {
      hide MemberSchema, FindPropertyIndex, Flat;
      var n := |schemaStack| - 1;
      StackOfOk(model);
      MemberSchemaWithin(schemaStack[n].schema, name, root);
      var (top, allowed) := SchemaKey(schemaStack[n], name);
      SetTop(top, SchemaKey(model.stack[n], name).0);
      ok := allowed;
    }

    /** The part of the handlers before the sub-validators see the event; false on a violation. */
    method Begin(e: Event) returns (ok: bool)
      requires Valid() && valid
      modifies this
      ensures Valid() && fresh(Repr - old(Repr)) && valid
      ensures ok == Open(old(model), e).Some?
      ensures ok ==> schemaStack != [] && model == Validator(root, true, Open(old(model), e).value)
    {
      if e.Key? || e.EndObject? || e.EndArray? {
        if schemaStack == [] {
          return false;
        }
        if e.Key? {
          ok := BeginKey(e.name);
        } else {
          ok := true;
        }
      } else {
        OpenIs(model, e);
        var chosen, schema := BeginValue();
        if !chosen || !TypeAccepts(schema.types, e) {
          return false;
        }
        Push(schema, e);
        ok := true;
      }
    }

    /** One event; every handler of the validator is an instance. */
    method Handle(e: Event) returns (ok: bool)
      requires Valid()
      modifies Repr
      ensures Valid() && fresh(Repr - old(Repr))
      ensures model == Step(old(model), e)
      ensures ok == valid
      decreases root, 6
    {
      hide Open, Close, Parallel, Owned, Flat, SameShape, StackOk;
      if !valid {
        return false;
      }
      var begun := Begin(e);
      if begun {
        PassDown(e);
        Finish(e);
      } else {
        Reject();
      }
      ok := valid;
    }

    method IsValid() returns (r: bool)
      requires Valid()
      ensures r == model.valid
    {
      r := valid;
    }
  }

  /** A fresh validator fed all events of a tree: the verdict is the meaning of the schema on the tree. */
  method Validate(root: Schema, x: Value) returns (ok: bool)
    ensures ok <==> Satisfies(root, x)
  {
    var v := new GenericSchemaValidator(root);
    var es := Accept(x);
    for i := 0 to |es|
      invariant v.Valid() && fresh(v.Repr)
      invariant Feed(v.model, es[i..]) == Feed(Fresh(root), es)
    {
      assert es[i..][1..] == es[i + 1..];
      var _ := v.Handle(es[i]);
    }
    DocumentVerdict(root, x);
    ok := v.IsValid();
  }
}
