/**
 The streaming validator agrees with the recursive meaning of the schema, for
 every schema, tree and validator state from which a value may begin.
 */
module SchemaMeaning {
  import opened Json
  import opened Schema

  // ----- Feeding a sequence of events -----

  function Feed(v: Validator, es: seq<Event>): (r: Validator)
    requires Ok(v)
    ensures Ok(r) && r.root == v.root
    decreases |es|
  {
    if es == [] then v else Feed(Step(v, es[0]), es[1..])
  }

  function FeedAll(vs: seq<Validator>, es: seq<Event>, root: Schema): (r: seq<Validator>)
    requires AllOk(vs, root)
    ensures |r| == |vs| && AllOk(r, root)
  {
    seq(|vs|, i requires 0 <= i < |vs| && Ok(vs[i]) => Feed(vs[i], es))
  }

  function FeedContext(c: Context<Validator>, es: seq<Event>, root: Schema): (r: Context<Validator>)
    requires ContextOk(c, root)
    ensures ContextOk(r, root)
  {
    c.(validators := FeedAll(c.validators, es, root))
  }

  function FeedStack(stack: seq<Context<Validator>>, es: seq<Event>, root: Schema): (r: seq<Context<Validator>>)
    requires StackOk(stack, root)
    ensures |r| == |stack| && StackOk(r, root)
  {
    seq(|stack|, i requires 0 <= i < |stack| && ContextOk(stack[i], root) => FeedContext(stack[i], es, root))
  }

  lemma {:induction false} FeedConcat(v: Validator, a: seq<Event>, b: seq<Event>)
    requires Ok(v)
    ensures Feed(v, a + b) == Feed(Feed(v, a), b)
    decreases |a|
  {
    if a == [] {
      assert a + b == b;
    } else {
      assert (a + b)[1..] == a[1..] + b;
      FeedConcat(Step(v, a[0]), a[1..], b);
    }
  }

  lemma FeedAllConcat(vs: seq<Validator>, a: seq<Event>, b: seq<Event>, root: Schema)
    requires AllOk(vs, root)
    ensures FeedAll(vs, a + b, root) == FeedAll(FeedAll(vs, a, root), b, root)
  {
    forall i | 0 <= i < |vs|
      ensures Feed(vs[i], a + b) == Feed(Feed(vs[i], a), b)
    {
      FeedConcat(vs[i], a, b);
    }
  }

  lemma FeedStackConcat(stack: seq<Context<Validator>>, a: seq<Event>, b: seq<Event>, root: Schema)
    requires StackOk(stack, root)
    ensures FeedStack(stack, a + b, root) == FeedStack(FeedStack(stack, a, root), b, root)
  {
    forall i | 0 <= i < |stack|
      ensures FeedContext(stack[i], a + b, root) == FeedContext(FeedContext(stack[i], a, root), b, root)
    {
      FeedAllConcat(stack[i].validators, a, b, root);
    }
  }

  lemma FeedAllFirst(vs: seq<Validator>, e: Event, root: Schema)
    requires AllOk(vs, root) && vs != []
    ensures AllOk(vs[1..], root)
    ensures FeedAll(vs, [e], root) == [Step(vs[0], e)] + FeedAll(vs[1..], [e], root)
  {
    assert Feed(vs[0], [e]) == Feed(Step(vs[0], e), []);
  }

  lemma {:induction false} StepAllIsFeed(vs: seq<Validator>, e: Event, root: Schema)
    requires AllOk(vs, root)
    ensures StepAll(vs, e, root) == FeedAll(vs, [e], root)
  {
    if vs != [] {
      FeedAllFirst(vs, e, root);
      StepAllIsFeed(vs[1..], e, root);
    }
  }

  lemma FeedStackFirst(stack: seq<Context<Validator>>, es: seq<Event>, root: Schema)
    requires StackOk(stack, root) && stack != []
    ensures StackOk(stack[1..], root)
    ensures FeedStack(stack, es, root) == [FeedContext(stack[0], es, root)] + FeedStack(stack[1..], es, root)
  {
  }

  lemma {:induction false} ParallelIsFeed(stack: seq<Context<Validator>>, e: Event, root: Schema)
    requires StackOk(stack, root)
    ensures Parallel(stack, e, root) == FeedStack(stack, [e], root)
  {
    if stack != [] {
      FeedStackFirst(stack, [e], root);
      ParallelIsFeed(stack[1..], e, root);
      StepAllIsFeed(stack[0].validators, e, root);
    }
  }

  /** A validator that has failed stays failed. */
  lemma {:induction false} RejectionIsFinal(v: Validator, es: seq<Event>)
    requires Ok(v) && !v.valid
    ensures !Feed(v, es).valid
    decreases |es|
  {
    if es != [] {
      RejectionIsFinal(Step(v, es[0]), es[1..]);
    }
  }

  // ----- The end checks read the sub-validators' verdicts as the keywords say -----

  /** The verdict of every sub-validator is the truth value that `m` gives its schema. */
  ghost predicate Faithful(s: Schema, verdicts: seq<bool>, m: Schema -> bool) {
    && |verdicts| == |SubSchemas(s)|
    && forall i :: 0 <= i < |verdicts| ==> verdicts[i] == m(SubSchemas(s)[i])
  }

  ghost predicate AllSatisfied(ss: seq<Schema>, m: Schema -> bool) {
    forall i :: 0 <= i < |ss| ==> m(ss[i])
  }

  ghost predicate AnySatisfied(ss: seq<Schema>, m: Schema -> bool) {
    exists i :: 0 <= i < |ss| && m(ss[i])
  }

  ghost predicate OneSatisfied(ss: seq<Schema>, m: Schema -> bool) {
    exists i :: (0 <= i < |ss| && m(ss[i]) &&
                 forall j :: 0 <= j < |ss| && j != i ==> !m(ss[j]))
  }

  ghost predicate CombinersMet(s: Schema, m: Schema -> bool) {
    && AllSatisfied(s.allOf, m)
    && (|s.anyOf| > 0 ==> AnySatisfied(s.anyOf, m))
    && (|s.oneOf| > 0 ==> OneSatisfied(s.oneOf, m))
    && (s.not_.Some? ==> !m(s.not_.value))
  }

  /** The verdicts from position `lo` on are the meanings of `ss`. */
  ghost predicate Stretch(verdicts: seq<bool>, lo: nat, ss: seq<Schema>, m: Schema -> bool) {
    && lo + |ss| <= |verdicts|
    && forall i :: 0 <= i < |ss| ==> verdicts[lo + i] == m(ss[i])
  }

  lemma AllMeaning(verdicts: seq<bool>, lo: nat, ss: seq<Schema>, m: Schema -> bool)
    requires Stretch(verdicts, lo, ss, m)
    ensures AllTrue(verdicts, lo, lo + |ss|) == AllSatisfied(ss, m)
  {
    assert forall i :: lo <= i < lo + |ss| ==> verdicts[i] == m(ss[i - lo]);
  }

  lemma AnyMeaning(verdicts: seq<bool>, lo: nat, ss: seq<Schema>, m: Schema -> bool)
    requires Stretch(verdicts, lo, ss, m)
    ensures AnyTrue(verdicts, lo, lo + |ss|) == AnySatisfied(ss, m)
  {
    assert forall i :: lo <= i < lo + |ss| ==> verdicts[i] == m(ss[i - lo]);
  }

  lemma OneMeaning(verdicts: seq<bool>, lo: nat, ss: seq<Schema>, m: Schema -> bool)
    requires Stretch(verdicts, lo, ss, m)
    ensures OneTrue(verdicts, lo, lo + |ss|) == OneSatisfied(ss, m)
  {
    assert forall i :: lo <= i < lo + |ss| ==> verdicts[i] == m(ss[i - lo]);
    if OneSatisfied(ss, m) {
      var i :| 0 <= i < |ss| && m(ss[i]) && forall j :: 0 <= j < |ss| && j != i ==> !m(ss[j]);
      assert verdicts[lo + i] && forall j :: lo <= j < lo + |ss| && j != lo + i ==> !verdicts[j];
    }
  }

  lemma StretchOf(before: seq<Schema>, ss: seq<Schema>, after: seq<Schema>, s: Schema, verdicts: seq<bool>, m: Schema -> bool)
    requires Faithful(s, verdicts, m) && SubSchemas(s) == before + ss + after
    ensures Stretch(verdicts, |before|, ss, m)
  {
    assert forall i :: 0 <= i < |ss| ==> SubSchemas(s)[|before| + i] == ss[i];
  }

  lemma AllOfVerdicts(s: Schema, verdicts: seq<bool>, m: Schema -> bool)
    requires Faithful(s, verdicts, m)
    ensures AllTrue(verdicts, 0, |s.allOf|) == AllSatisfied(s.allOf, m)
  {
    StretchOf([], s.allOf, s.anyOf + s.oneOf + NotSchemas(s) + DependencySchemas(s.properties), s, verdicts, m);
    AllMeaning(verdicts, 0, s.allOf, m);
  }

  lemma AnyOfVerdicts(s: Schema, verdicts: seq<bool>, m: Schema -> bool)
    requires Faithful(s, verdicts, m)
    ensures AnyTrue(verdicts, |s.allOf|, |s.allOf| + |s.anyOf|) == AnySatisfied(s.anyOf, m)
  {
    StretchOf(s.allOf, s.anyOf, s.oneOf + NotSchemas(s) + DependencySchemas(s.properties), s, verdicts, m);
    AnyMeaning(verdicts, |s.allOf|, s.anyOf, m);
  }

  lemma OneOfVerdicts(s: Schema, verdicts: seq<bool>, m: Schema -> bool)
    requires Faithful(s, verdicts, m)
    ensures OneTrue(verdicts, |s.allOf| + |s.anyOf|, |s.allOf| + |s.anyOf| + |s.oneOf|) == OneSatisfied(s.oneOf, m)
  {
    hide OneTrue, OneSatisfied, Faithful, NotSchemas, DependencySchemas;
    StretchOf(s.allOf + s.anyOf, s.oneOf, NotSchemas(s) + DependencySchemas(s.properties), s, verdicts, m);
    OneMeaning(verdicts, |s.allOf| + |s.anyOf|, s.oneOf, m);
  }

  lemma NotVerdict(s: Schema, verdicts: seq<bool>, m: Schema -> bool)
    requires Faithful(s, verdicts, m)
    ensures s.not_.Some? ==> verdicts[|s.allOf| + |s.anyOf| + |s.oneOf|] == m(s.not_.value)
  {
    StretchOf(s.allOf + s.anyOf + s.oneOf, NotSchemas(s), DependencySchemas(s.properties), s, verdicts, m);
    if s.not_.Some? {
      assert verdicts[|s.allOf| + |s.anyOf| + |s.oneOf| + 0] == m(NotSchemas(s)[0]);
    }
  }

  lemma EndValueMeaning(s: Schema, verdicts: seq<bool>, m: Schema -> bool)
    requires Faithful(s, verdicts, m)
    ensures SchemaEndValue(s, verdicts) <==> CombinersMet(s, m)
  {
    AllOfVerdicts(s, verdicts, m);
    AnyOfVerdicts(s, verdicts, m);
    OneOfVerdicts(s, verdicts, m);
    NotVerdict(s, verdicts, m);
  }

  lemma {:induction false} DependencyPlace(properties: seq<Property>, i: nat)
    requires i < |properties| && properties[i].dependency.OnSchema?
    ensures DependencyIndex(properties, i) < |DependencySchemas(properties)|
    ensures DependencySchemas(properties)[DependencyIndex(properties, i)] == properties[i].dependency.schema
  {
    if i > 0 {
      DependencyPlace(properties[1..], i - 1);
      assert properties[..i][1..] == properties[1..][..i - 1];
    }
  }

  lemma DependencyVerdict(s: Schema, i: nat)
    requires i < |s.properties| && s.properties[i].dependency.OnSchema?
    ensures DependencyValidator(s, i) < |SubSchemas(s)|
    ensures SubSchemas(s)[DependencyValidator(s, i)] == s.properties[i].dependency.schema
  {
    DependencyPlace(s.properties, i);
  }

  ghost predicate ObjectKeywordsMet(s: Schema, ms: seq<Member>, m: Schema -> bool) {
    && s.minProperties <= |ms| <= s.maxProperties
    && RequiredMet(s, ms)
    && PropertyDependenciesMet(s, ms)
    && forall i :: 0 <= i < |s.properties| && s.properties[i].dependency.OnSchema? && Present(s, ms, i) ==>
         m(s.properties[i].dependency.schema)
  }

  /** `exist` marks exactly the properties present among `ms`, if the schema needs to know. */
  ghost predicate MarksPresent(s: Schema, exist: seq<bool>, ms: seq<Member>) {
    HasRequired(s) || HasDependencies(s) ==>
      |exist| == |s.properties| && forall i :: 0 <= i < |s.properties| ==> exist[i] == Present(s, ms, i)
  }

  lemma EndObjectMeaning(s: Schema, exist: seq<bool>, verdicts: seq<bool>, ms: seq<Member>, m: Schema -> bool)
    requires Faithful(s, verdicts, m) && MarksPresent(s, exist, ms)
    ensures SchemaEndObject(s, exist, verdicts, |ms|) <==> ObjectKeywordsMet(s, ms, m)
  {
    forall i | 0 <= i < |s.properties| && s.properties[i].dependency.OnSchema?
      ensures DependencyValidator(s, i) < |verdicts|
      ensures verdicts[DependencyValidator(s, i)] == m(s.properties[i].dependency.schema)
    {
      DependencyVerdict(s, i);
    }
    if HasRequired(s) || HasDependencies(s) {
      assert forall i :: 0 <= i < |s.properties| ==> Exists(exist, i) == Present(s, ms, i);
    }
  }

  // ----- The meaning, in the order in which the validator checks it -----

  ghost predicate ElementFits(s: Schema, index: nat, e: Value) {
    ElementSchema(s, index).Some? && Satisfies(ElementSchema(s, index).value, e)
  }

  ghost predicate MemberFits(s: Schema, m: Member) {
    MemberSchema(s, m.name).Some? && Satisfies(MemberSchema(s, m.name).value, m.value)
  }

  ghost predicate ElementsFit(s: Schema, from: nat, es: seq<Value>) {
    forall k :: 0 <= k < |es| ==> ElementFits(s, from + k, es[k])
  }

  ghost predicate MembersFit(s: Schema, ms: seq<Member>) {
    forall k :: 0 <= k < |ms| ==> MemberFits(s, ms[k])
  }

  lemma ElementsFitFirst(s: Schema, from: nat, es: seq<Value>)
    requires es != []
    ensures ElementsFit(s, from, es) <==> ElementFits(s, from, es[0]) && ElementsFit(s, from + 1, es[1..])
  {
    assert forall k :: 0 <= k < |es| - 1 ==> es[1..][k] == es[k + 1];
    if ElementsFit(s, from, es) {
      assert ElementFits(s, from + 0, es[0]);
      forall k | 0 <= k < |es| - 1
        ensures ElementFits(s, from + 1 + k, es[1..][k])
      {
        assert ElementFits(s, from + (k + 1), es[k + 1]);
      }
    }
    if ElementFits(s, from, es[0]) && ElementsFit(s, from + 1, es[1..]) {
      forall k | 0 <= k < |es|
        ensures ElementFits(s, from + k, es[k])
      {
        if k > 0 {
          assert ElementFits(s, from + 1 + (k - 1), es[1..][k - 1]);
        }
      }
    }
  }

  lemma MembersFitFirst(s: Schema, ms: seq<Member>)
    requires ms != []
    ensures MembersFit(s, ms) <==> MemberFits(s, ms[0]) && MembersFit(s, ms[1..])
  {
    assert forall k :: 1 <= k < |ms| ==> ms[k] == ms[1..][k - 1];
  }

  ghost predicate ContentFits(s: Schema, x: Value, m: Schema -> bool) {
    match x
    case Array(es) => SchemaEndArray(s, |es|) && ElementsFit(s, 0, es)
    case Object(ms) => ObjectKeywordsMet(s, ms, m) && MembersFit(s, ms)
    case _ => true
  }

  lemma AllOfMeaning(s: Schema, x: Value, m: Schema -> bool)
    requires m == (t => Satisfies(t, x))
    ensures AllSatisfied(s.allOf, m) == AllOfMet(s, x)
  {
    assert forall i :: 0 <= i < |s.allOf| ==> m(s.allOf[i]) == Satisfies(s.allOf[i], x);
  }

  lemma AnyOfMeaning(s: Schema, x: Value, m: Schema -> bool)
    requires m == (t => Satisfies(t, x)) && |s.anyOf| > 0
    ensures AnySatisfied(s.anyOf, m) == AnyOfMet(s, x)
  {
    assert forall i :: 0 <= i < |s.anyOf| ==> m(s.anyOf[i]) == Satisfies(s.anyOf[i], x);
  }

  ghost function Matches(ss: seq<Schema>, m: Schema -> bool): set<int> {
    set i | 0 <= i < |ss| && m(ss[i])
  }

  lemma OnlyMatch(ss: seq<Schema>, m: Schema -> bool, i: int)
    requires 0 <= i < |ss| && m(ss[i])
    ensures |Matches(ss, m)| == 1 <==> forall j :: 0 <= j < |ss| && j != i ==> !m(ss[j])
  {
    var others := Matches(ss, m) - {i};
    assert Matches(ss, m) == others + {i};
    if |others| == 0 {
      assert forall j :: 0 <= j < |ss| && j != i && m(ss[j]) ==> j in others;
    } else {
      assert exists j :: j in others;
    }
  }

  lemma OneMatch(ss: seq<Schema>, m: Schema -> bool)
    ensures OneSatisfied(ss, m) <==> |Matches(ss, m)| == 1
  {
    if i :| 0 <= i < |ss| && m(ss[i]) {
      OnlyMatch(ss, m, i);
    } else {
      assert Matches(ss, m) == {};
    }
  }

  lemma OneOfMeaning(s: Schema, x: Value, m: Schema -> bool)
    requires m == (t => Satisfies(t, x)) && |s.oneOf| > 0
    ensures OneSatisfied(s.oneOf, m) == OneOfMet(s, x)
  {
    OneMatch(s.oneOf, m);
    assert Matches(s.oneOf, m) == OneOfMatches(s, x);
  }

  lemma CombinersMeaning(s: Schema, x: Value, m: Schema -> bool)
    requires m == (t => Satisfies(t, x))
    ensures CombinersMet(s, m) <==>
            AllOfMet(s, x) && AnyOfMet(s, x) && OneOfMet(s, x) && (s.not_.Some? ==> !Satisfies(s.not_.value, x))
  {
    AllOfMeaning(s, x, m);
    if |s.anyOf| > 0 {
      AnyOfMeaning(s, x, m);
    }
    if |s.oneOf| > 0 {
      OneOfMeaning(s, x, m);
    }
  }

  lemma ElementsMeaning(s: Schema, x: Value)
    requires x.Array?
    ensures ElementsSatisfy(s, x) <==> ElementsFit(s, 0, x.elements)
  {
    if ElementsFit(s, 0, x.elements) {
      forall k | 0 <= k < |x.elements|
        ensures ElementSchema(s, k).Some? && Satisfies(ElementSchema(s, k).value, x.elements[k])
      {
        assert ElementFits(s, 0 + k, x.elements[k]);
      }
    }
  }

  lemma MembersMeaning(s: Schema, x: Value)
    requires x.Object?
    ensures MembersSatisfy(s, x) <==> MembersFit(s, x.members)
  {
  }

  lemma ObjectKeywordsMeaning(s: Schema, x: Value, m: Schema -> bool)
    requires x.Object? && m == (t => Satisfies(t, x))
    ensures ObjectKeywordsMet(s, x.members, m) <==>
            && s.minProperties <= |x.members| <= s.maxProperties
            && RequiredMet(s, x.members)
            && PropertyDependenciesMet(s, x.members)
            && SchemaDependenciesMet(s, x)
  {
  }

  lemma SatisfiesParts(s: Schema, x: Value, m: Schema -> bool)
    requires m == (t => Satisfies(t, x))
    ensures Satisfies(s, x) <==> TypeAllowed(s, x) && ContentFits(s, x, m) && CombinersMet(s, m)
  {
    CombinersMeaning(s, x, m);
    if x.Array? {
      ElementsMeaning(s, x);
    } else if x.Object? {
      ObjectKeywordsMeaning(s, x, m);
      MembersMeaning(s, x);
    }
  }

  // ----- The main induction -----

  /** What feeding the events of `x` from `v` must end in. */
  ghost predicate Outcome(v: Validator, x: Value, r: Validator)
    requires Ok(v)
  {
    var begun := BeginTop(v.stack).0;
    BeginTopOk(v.stack, v.root);
    if BeginTop(v.stack).1 && Satisfies(ValueSchema(v.root, begun), x) then
      r == Validator(v.root, true, FeedStack(begun, Accept(x), v.root))
    else !r.valid
  }

  /** `r` is `v` after `es`, still inside the value of its top context. */
  ghost predicate Advanced(v: Validator, r: Validator, es: seq<Event>)
    requires Ok(v) && v.stack != []
  {
    var n := |v.stack| - 1;
    && v.valid && r.valid && r.root == v.root && |r.stack| == |v.stack|
    && StackOk(v.stack[..n], v.root)
    && r.stack[..n] == FeedStack(v.stack[..n], es, v.root)
    && r.stack[n].schema == v.stack[n].schema
    && AllOk(v.stack[n].validators, v.root)
    && r.stack[n].validators == FeedAll(v.stack[n].validators, es, v.root)
  }

  lemma AdvancedTransitive(v: Validator, v1: Validator, v2: Validator, a: seq<Event>, b: seq<Event>)
    requires Ok(v) && Ok(v1) && v.stack != [] && v1.stack != []
    requires Advanced(v, v1, a) && Advanced(v1, v2, b)
    ensures Advanced(v, v2, a + b)
  {
    var n := |v.stack| - 1;
    FeedStackConcat(v.stack[..n], a, b, v.root);
    FeedAllConcat(v.stack[n].validators, a, b, v.root);
  }

  lemma FeedStackSplit(stack: seq<Context<Validator>>, es: seq<Event>, root: Schema)
    requires StackOk(stack, root) && stack != []
    ensures StackOk(stack[..|stack| - 1], root)
    ensures FeedStack(stack, es, root)[..|stack| - 1] == FeedStack(stack[..|stack| - 1], es, root)
  {
  }

  lemma FeedNothing(vs: seq<Validator>, root: Schema)
    requires AllOk(vs, root)
    ensures FeedAll(vs, [], root) == vs
  {
  }

  lemma StaysPut(v: Validator)
    requires Ok(v) && v.valid && v.stack != []
    ensures Advanced(v, v, [])
  {
    StackOfOk(v);
    forall i | 0 <= i < |v.stack|
      ensures FeedContext(v.stack[i], [], v.root) == v.stack[i]
    {
      FeedNothing(v.stack[i].validators, v.root);
    }
    FeedNothing(v.stack[|v.stack| - 1].validators, v.root);
    assert FeedStack(v.stack[..|v.stack| - 1], [], v.root) == v.stack[..|v.stack| - 1];
  }

  /** A value inside the current one that satisfies its schema moves the validator on. */
  lemma InnerValueAdvances(v: Validator, x: Value, r: Validator)
    requires Ok(v) && v.valid && v.stack != [] && Outcome(v, x, r) && r.valid
    ensures Advanced(v, r, Accept(x))
    ensures r.stack[|v.stack| - 1].propertyExist == v.stack[|v.stack| - 1].propertyExist
    ensures r.stack[|v.stack| - 1].inArray == v.stack[|v.stack| - 1].inArray
    ensures r.stack[|v.stack| - 1].inArray ==>
              r.stack[|v.stack| - 1].arrayElementIndex == v.stack[|v.stack| - 1].arrayElementIndex + 1
  {
    StackOfOk(v);
    var begun := BeginTop(v.stack).0;
    BeginTopOk(v.stack, v.root);
    FeedStackSplit(begun, Accept(x), v.root);
    assert begun[..|v.stack| - 1] == v.stack[..|v.stack| - 1];
  }

  /** The sub-validators of a fresh context of schema `s`, after the events of `x`, have the verdicts that `x` deserves. */
  lemma {:induction false} SubVerdicts(s: Schema, x: Value, c: Context<Validator>, m: Schema -> bool, root: Schema)
    requires m == (t => Satisfies(t, x))
    requires c.schema == s && ContextOk(c, root)
    requires forall i :: 0 <= i < |c.validators| ==> c.validators[i] == Fresh(SubSchemas(s)[i])
    ensures Faithful(s, Verdicts(FeedAll(c.validators, Accept(x), root)), m)
    decreases x, s, 0
  {
    forall i | 0 <= i < |SubSchemas(s)|
      ensures Feed(c.validators[i], Accept(x)).valid == Satisfies(SubSchemas(s)[i], x)
    {
      SubSchemasSmaller(s, i);
      FeedValue(Fresh(SubSchemas(s)[i]), x);
    }
  }

  /** One element, given what feeding it ends in. */
  lemma ElementAdvances(v: Validator, x: Value, r: Validator)
    requires Ok(v) && v.valid && v.stack != [] && v.stack[|v.stack| - 1].inArray && Outcome(v, x, r)
    ensures r.valid <==> ElementFits(v.stack[|v.stack| - 1].schema, v.stack[|v.stack| - 1].arrayElementIndex, x)
    ensures r.valid ==>
              && Advanced(v, r, Accept(x))
              && r.stack[|v.stack| - 1].inArray
              && r.stack[|v.stack| - 1].arrayElementIndex == v.stack[|v.stack| - 1].arrayElementIndex + 1
  {
    if r.valid {
      InnerValueAdvances(v, x, r);
    }
  }

  ghost predicate ElementsOutcome(v: Validator, es: seq<Value>, r: Validator)
    requires Ok(v) && v.valid && v.stack != []
  {
    var top := v.stack[|v.stack| - 1];
    if ElementsFit(top.schema, top.arrayElementIndex, es) then Advanced(v, r, AcceptElements(es)) else !r.valid
  }

  lemma ElementsCompose(v: Validator, es: seq<Value>, v1: Validator, r: Validator)
    requires Ok(v) && Ok(v1) && v.valid && v.stack != [] && v1.stack != [] && es != []
    requires Advanced(v, v1, Accept(es[0]))
    requires v1.stack[|v.stack| - 1].arrayElementIndex == v.stack[|v.stack| - 1].arrayElementIndex + 1
    requires ElementFits(v.stack[|v.stack| - 1].schema, v.stack[|v.stack| - 1].arrayElementIndex, es[0])
    requires ElementsOutcome(v1, es[1..], r)
    ensures ElementsOutcome(v, es, r)
  {
    var top := v.stack[|v.stack| - 1];
    ElementsFitFirst(top.schema, top.arrayElementIndex, es);
    if ElementsFit(top.schema, top.arrayElementIndex, es) {
      AdvancedTransitive(v, v1, r, Accept(es[0]), AcceptElements(es[1..]));
    }
  }

  lemma {:induction false} FeedElements(v: Validator, es: seq<Value>)
    requires Ok(v) && v.valid && v.stack != [] && v.stack[|v.stack| - 1].inArray
    ensures ElementsOutcome(v, es, Feed(v, AcceptElements(es)))
    decreases es, v.root, 1
  {
    if es == [] {
      StaysPut(v);
    } else {
      var v1 := Feed(v, Accept(es[0]));
      FeedConcat(v, Accept(es[0]), AcceptElements(es[1..]));
      FeedValue(v, es[0]);
      ElementAdvances(v, es[0], v1);
      if v1.valid {
        FeedElements(v1, es[1..]);
        ElementsCompose(v, es, v1, Feed(v1, AcceptElements(es[1..])));
      } else {
        ElementsFitFirst(v.stack[|v.stack| - 1].schema, v.stack[|v.stack| - 1].arrayElementIndex, es);
        RejectionIsFinal(v1, AcceptElements(es[1..]));
      }
    }
  }

  /** The property marks after the keys of `ms`. */
  function MarkAll(properties: seq<Property>, exist: seq<bool>, ms: seq<Member>): (r: seq<bool>)
    ensures |r| == |exist|
    decreases |ms|
  {
    if ms == [] then exist
    else
      var index := FindPropertyIndex(properties, ms[0].name);
      MarkAll(properties, if 0 <= index < |exist| then exist[index := true] else exist, ms[1..])
  }

  lemma {:induction false} MarkAllMarks(s: Schema, exist: seq<bool>, ms: seq<Member>, i: nat)
    requires i < |exist|
    ensures MarkAll(s.properties, exist, ms)[i] <==> exist[i] || Present(s, ms, i)
    decreases |ms|
  {
    if ms != [] {
      var index := FindPropertyIndex(s.properties, ms[0].name);
      MarkAllMarks(s, if 0 <= index < |exist| then exist[index := true] else exist, ms[1..], i);
      assert forall k :: 1 <= k < |ms| ==> ms[k] == ms[1..][k - 1];
    }
  }

  lemma FeedStackLast(begun: seq<Context<Validator>>, c: Context<Validator>, es: seq<Event>, root: Schema)
    requires StackOk(begun, root) && ContextOk(c, root)
    ensures FeedStack(begun + [c], es, root) == FeedStack(begun, es, root) + [FeedContext(c, es, root)]
  {
  }

  lemma StepKey(v: Validator, name: string)
    requires Ok(v) && v.valid && v.stack != []
    ensures var n := |v.stack| - 1;
            var ready := v.stack[..n] + [SchemaKey(v.stack[n], name).0];
            && StackOk(ready, v.root)
            && Feed(v, [Key(name)]) ==
                 if MemberSchema(v.stack[n].schema, name).Some? then Validator(v.root, true, FeedStack(ready, [Key(name)], v.root))
                 else Rejected(v.root)
  {
    var n := |v.stack| - 1;
    var ready := v.stack[..n] + [SchemaKey(v.stack[n], name).0];
    StackOfOk(v);
    MemberSchemaWithin(v.stack[n].schema, name, v.root);
    assert StackOk(ready, v.root);
    assert Feed(v, [Key(name)]) == Step(v, Key(name));
    ParallelIsFeed(ready, Key(name), v.root);
  }

  lemma KeyAdvances(v: Validator, name: string)
    requires Ok(v) && v.valid && v.stack != [] && !v.stack[|v.stack| - 1].inArray
    ensures var top := v.stack[|v.stack| - 1];
            var r := Feed(v, [Key(name)]);
            && (r.valid <==> MemberSchema(top.schema, name).Some?)
            && (r.valid ==>
                  && Advanced(v, r, [Key(name)])
                  && !r.stack[|v.stack| - 1].inArray
                  && r.stack[|v.stack| - 1].valueSchema == MemberSchema(top.schema, name)
                  && r.stack[|v.stack| - 1].propertyExist == SchemaKey(top, name).0.propertyExist)
  {
    var n := |v.stack| - 1;
    var top := SchemaKey(v.stack[n], name).0;
    StepKey(v, name);
    StackOfOk(v);
    FeedStackLast(v.stack[..n], top, [Key(name)], v.root);
  }

  /** One member's value, given what feeding it ends in. */
  lemma MemberValueAdvances(v: Validator, x: Value, r: Validator)
    requires Ok(v) && v.valid && v.stack != [] && Outcome(v, x, r)
    requires !v.stack[|v.stack| - 1].inArray && v.stack[|v.stack| - 1].valueSchema.Some?
    ensures r.valid <==> Satisfies(v.stack[|v.stack| - 1].valueSchema.value, x)
    ensures r.valid ==>
              && Advanced(v, r, Accept(x))
              && !r.stack[|v.stack| - 1].inArray
              && r.stack[|v.stack| - 1].propertyExist == v.stack[|v.stack| - 1].propertyExist
  {
    if r.valid {
      InnerValueAdvances(v, x, r);
    }
  }

  /** One member, given what feeding its value ends in. */
  lemma MemberAdvances(v: Validator, member: Member, v1: Validator, v2: Validator)
    requires Ok(v) && v.valid && v.stack != [] && !v.stack[|v.stack| - 1].inArray
    requires v1 == Feed(v, [Key(member.name)]) && v2 == Feed(v1, Accept(member.value))
    requires v1.valid ==> Outcome(v1, member.value, v2)
    ensures v2 == Feed(v, [Key(member.name)] + Accept(member.value))
    ensures v2.valid <==> MemberFits(v.stack[|v.stack| - 1].schema, member)
    ensures v2.valid ==>
              && Advanced(v, v2, [Key(member.name)] + Accept(member.value))
              && !v2.stack[|v.stack| - 1].inArray
              && v2.stack[|v.stack| - 1].propertyExist == SchemaKey(v.stack[|v.stack| - 1], member.name).0.propertyExist
  {
    FeedConcat(v, [Key(member.name)], Accept(member.value));
    KeyAdvances(v, member.name);
    if v1.valid {
      MemberValueAdvances(v1, member.value, v2);
      if v2.valid {
        AdvancedTransitive(v, v1, v2, [Key(member.name)], Accept(member.value));
      }
    } else {
      RejectionIsFinal(v1, Accept(member.value));
    }
  }

  ghost predicate MembersOutcome(v: Validator, ms: seq<Member>, r: Validator)
    requires Ok(v) && v.valid && v.stack != []
  {
    var top := v.stack[|v.stack| - 1];
    if MembersFit(top.schema, ms) then
      && Advanced(v, r, AcceptMembers(ms))
      && r.stack[|v.stack| - 1].propertyExist == MarkAll(top.schema.properties, top.propertyExist, ms)
    else !r.valid
  }

  lemma MembersCompose(v: Validator, ms: seq<Member>, v2: Validator, r: Validator)
    requires Ok(v) && Ok(v2) && v.valid && v.stack != [] && v2.stack != [] && ms != []
    requires Advanced(v, v2, [Key(ms[0].name)] + Accept(ms[0].value))
    requires v2.stack[|v.stack| - 1].propertyExist == SchemaKey(v.stack[|v.stack| - 1], ms[0].name).0.propertyExist
    requires MemberFits(v.stack[|v.stack| - 1].schema, ms[0])
    requires MembersOutcome(v2, ms[1..], r)
    ensures MembersOutcome(v, ms, r)
  {
    var top := v.stack[|v.stack| - 1];
    MembersFitFirst(top.schema, ms);
    if MembersFit(top.schema, ms) {
      AdvancedTransitive(v, v2, r, [Key(ms[0].name)] + Accept(ms[0].value), AcceptMembers(ms[1..]));
    }
  }

  lemma {:induction false} FeedMembers(v: Validator, ms: seq<Member>)
    requires Ok(v) && v.valid && v.stack != [] && !v.stack[|v.stack| - 1].inArray
    ensures MembersOutcome(v, ms, Feed(v, AcceptMembers(ms)))
    decreases ms, v.root, 1
  {
    if ms == [] {
      StaysPut(v);
    } else {
      var v1 := Feed(v, [Key(ms[0].name)]);
      var v2 := Feed(v1, Accept(ms[0].value));
      if v1.valid {
        FeedValue(v1, ms[0].value);
      }
      MemberAdvances(v, ms[0], v1, v2);
      FeedConcat(v, [Key(ms[0].name)] + Accept(ms[0].value), AcceptMembers(ms[1..]));
      if v2.valid {
        FeedMembers(v2, ms[1..]);
        MembersCompose(v, ms, v2, Feed(v2, AcceptMembers(ms[1..])));
      } else {
        MembersFitFirst(v.stack[|v.stack| - 1].schema, ms);
        RejectionIsFinal(v2, AcceptMembers(ms[1..]));
      }
    }
  }

  predicate Opens(e: Event) {
    !e.Key? && !e.EndObject? && !e.EndArray?
  }

  function FirstContext(s: Schema, e: Event): Context<Validator> {
    CreateParallelValidator(SchemaStart(NewContext(s), e))
  }

  lemma FirstEvent(x: Value)
    ensures Opens(Accept(x)[0])
    ensures forall s: Schema :: TypeAccepts(s.types, Accept(x)[0]) == TypeAllowed(s, x)
  {
  }

  /** The first event of a value: refused by the enclosing value or by the type, or pushed. */
  lemma OpenIs(v: Validator, e: Event)
    requires Ok(v) && v.valid && Opens(e)
    ensures var begun := BeginTop(v.stack).0;
            var s := ValueSchema(v.root, begun);
            Open(v, e) == if BeginTop(v.stack).1 && TypeAccepts(s.types, e) then Some(begun + [FirstContext(s, e)]) else None
  {
  }

  lemma BegunOk(v: Validator, e: Event)
    requires Ok(v)
    ensures var begun := BeginTop(v.stack).0;
            var s := ValueSchema(v.root, begun);
            StackOk(begun, v.root) && Within(s, v.root) && ContextOk(FirstContext(s, e), v.root)
  {
    StackOfOk(v);
    BeginTopOk(v.stack, v.root);
    NewContextOk(ValueSchema(v.root, BeginTop(v.stack).0), e, v.root);
  }

  lemma OpenValue(v: Validator, e: Event, begun: seq<Context<Validator>>, s: Schema)
    requires Ok(v) && v.valid && Opens(e)
    requires begun == BeginTop(v.stack).0 && s == ValueSchema(v.root, begun)
    ensures StackOk(begun, v.root) && ContextOk(FirstContext(s, e), v.root)
    ensures BeginTop(v.stack).1 && TypeAccepts(s.types, e) ==>
              Step(v, e) == Close(v.root, FeedStack(begun + [FirstContext(s, e)], [e], v.root), e)
    ensures !(BeginTop(v.stack).1 && TypeAccepts(s.types, e)) ==> !Step(v, e).valid
  {
    OpenIs(v, e);
    BegunOk(v, e);
    ParallelIsFeed(begun + [FirstContext(s, e)], e, v.root);
  }

  lemma SubVerdictsOfFirst(s: Schema, x: Value, m: Schema -> bool, root: Schema)
    requires m == (t => Satisfies(t, x))
    requires Within(s, root) && ContextOk(FirstContext(s, Accept(x)[0]), root)
    ensures Faithful(s, Verdicts(FeedAll(FirstContext(s, Accept(x)[0]).validators, Accept(x), root)), m)
    decreases x, root, 1, 0
  {
    if s == root || s < root {
      SubVerdicts(s, x, FirstContext(s, Accept(x)[0]), m, root);
    } else {
      assert SubSchemas(s) == [];
    }
  }

  lemma CloseScalar(root: Schema, fed: seq<Context<Validator>>, e: Event)
    requires |fed| > 0 && StackOk(fed, root)
    requires Opens(e) && !e.StartObject? && !e.StartArray?
    ensures Close(root, fed, e) ==
            if SchemaEndValue(fed[|fed| - 1].schema, Verdicts(fed[|fed| - 1].validators))
            then Validator(root, true, fed[..|fed| - 1])
            else Rejected(root)
  {
  }

  /** A scalar that is pushed: its context closes on the verdicts of the sub-validators. */
  lemma ScalarVerdict(x: Value, begun: seq<Context<Validator>>, s: Schema, root: Schema, m: Schema -> bool)
    requires !x.Array? && !x.Object? && m == (t => Satisfies(t, x))
    requires StackOk(begun, root) && Within(s, root) && ContextOk(FirstContext(s, Accept(x)[0]), root)
    ensures Close(root, FeedStack(begun + [FirstContext(s, Accept(x)[0])], Accept(x), root), Accept(x)[0]) ==
            if CombinersMet(s, m) then Validator(root, true, FeedStack(begun, Accept(x), root)) else Rejected(root)
    decreases x, root, 1, 1
  {
    var e := Accept(x)[0];
    var c := FirstContext(s, e);
    FeedStackLast(begun, c, Accept(x), root);
    CloseScalar(root, FeedStack(begun + [c], Accept(x), root), e);
    SubVerdictsOfFirst(s, x, m, root);
    EndValueMeaning(s, Verdicts(FeedAll(c.validators, Accept(x), root)), m);
  }

  lemma {:induction false} FeedScalar(v: Validator, x: Value)
    requires Ok(v) && v.valid && !x.Array? && !x.Object?
    ensures Outcome(v, x, Feed(v, Accept(x)))
    decreases x, v.root, 1, 2
  {
    var e := Accept(x)[0];
    var begun := BeginTop(v.stack).0;
    var s := ValueSchema(v.root, begun);
    var m: Schema -> bool := t => Satisfies(t, x);
    assert Accept(x) == [e] && Feed(v, [e]) == Step(v, e);
    FirstEvent(x);
    BegunOk(v, e);
    OpenValue(v, e, begun, s);
    SatisfiesParts(s, x, m);
    ScalarVerdict(x, begun, s, v.root, m);
  }

  predicate EndCheck(s: Schema, exist: seq<bool>, e: Event, verdicts: seq<bool>)
    requires |verdicts| == |SubSchemas(s)|
  {
    && (e.EndObject? ==> SchemaEndObject(s, exist, verdicts, e.memberCount))
    && (e.EndArray? ==> SchemaEndArray(s, e.elementCount))
  }

  /** All end checks of a container. */
  predicate EndChecks(s: Schema, exist: seq<bool>, e: Event, verdicts: seq<bool>)
    requires |verdicts| == |SubSchemas(s)|
  {
    EndCheck(s, exist, e, verdicts) && SchemaEndValue(s, verdicts)
  }

  lemma CloseIs(root: Schema, fed: seq<Context<Validator>>, e: Event)
    requires |fed| > 0 && StackOk(fed, root) && (e.EndObject? || e.EndArray?)
    ensures var top := fed[|fed| - 1];
            Close(root, fed, e) ==
              if EndChecks(top.schema, top.propertyExist, e, Verdicts(top.validators))
              then Validator(root, true, fed[..|fed| - 1])
              else Rejected(root)
  {
  }

  lemma StepEnd(v: Validator, e: Event)
    requires Ok(v) && v.valid && v.stack != [] && (e.EndObject? || e.EndArray?)
    ensures StackOk(v.stack, v.root)
    ensures Feed(v, [e]) == Close(v.root, FeedStack(v.stack, [e], v.root), e)
  {
    StackOfOk(v);
    assert Feed(v, [e]) == Step(v, e);
    ParallelIsFeed(v.stack, e, v.root);
  }

  lemma CloseContainer(v: Validator, e: Event)
    requires Ok(v) && v.valid && v.stack != [] && (e.EndObject? || e.EndArray?)
    ensures var n := |v.stack| - 1;
            StackOk(v.stack[..n], v.root) && ContextOk(v.stack[n], v.root) &&
            var verdicts := Verdicts(FeedAll(v.stack[n].validators, [e], v.root));
            Feed(v, [e]) ==
              if EndChecks(v.stack[n].schema, v.stack[n].propertyExist, e, verdicts)
              then Validator(v.root, true, FeedStack(v.stack[..n], [e], v.root))
              else Rejected(v.root)
  {
    hide Close, EndChecks, Verdicts, ContextOk;
    StepEnd(v, e);
    CloseIs(v.root, FeedStack(v.stack, [e], v.root), e);
    FeedStackSplit(v.stack, [e], v.root);
  }

  /** Just inside a container whose context is `c`. */
  function Entered(root: Schema, begun: seq<Context<Validator>>, c: Context<Validator>, e: Event): (r: Validator)
    requires StackOk(begun, root) && ContextOk(c, root)
    ensures Ok(r)
  {
    StackOfOk(Validator(root, true, FeedStack(begun + [c], [e], root)));
    Validator(root, true, FeedStack(begun + [c], [e], root))
  }

  /** Entering, going through the content and feeding the end event is feeding the whole value. */
  lemma ContainerEnds(root: Schema, begun: seq<Context<Validator>>, c: Context<Validator>,
                      start: Event, inner: seq<Event>, end: Event, v2: Validator)
    requires StackOk(begun, root) && ContextOk(c, root) && (end.EndObject? || end.EndArray?)
    requires Ok(v2) && Advanced(Entered(root, begun, c, start), v2, inner)
    ensures var all := [start] + inner + [end];
            var verdicts := Verdicts(FeedAll(c.validators, all, root));
            Feed(v2, [end]) ==
              if EndChecks(c.schema, v2.stack[|begun|].propertyExist, end, verdicts)
              then Validator(root, true, FeedStack(begun, all, root))
              else Rejected(root)
  {
    FeedStackLast(begun, c, [start], root);
    CloseContainer(v2, end);
    FeedAllConcat(c.validators, [start], inner, root);
    FeedAllConcat(c.validators, [start] + inner, [end], root);
    FeedStackConcat(begun, [start], inner, root);
    FeedStackConcat(begun, [start] + inner, [end], root);
    var v1 := Entered(root, begun, c, start);
    assert v1.stack[..|begun|] == FeedStack(begun, [start], root);
    assert v1.stack[|begun|] == FeedContext(c, [start], root);
  }

  lemma EnterIs(root: Schema, begun: seq<Context<Validator>>, s: Schema, e: Event)
    requires StackOk(begun, root) && ContextOk(FirstContext(s, e), root) && (e.StartObject? || e.StartArray?)
    ensures Close(root, FeedStack(begun + [FirstContext(s, e)], [e], root), e) == Entered(root, begun, FirstContext(s, e), e)
    ensures Entered(root, begun, FirstContext(s, e), e).stack[|begun|] == FeedContext(FirstContext(s, e), [e], root)
  {
    FeedStackLast(begun, FirstContext(s, e), [e], root);
  }

  /** From just inside an array to just after it. */
  lemma {:induction false} ArrayVerdict(root: Schema, begun: seq<Context<Validator>>, s: Schema, x: Value, m: Schema -> bool)
    requires x.Array? && m == (t => Satisfies(t, x))
    requires StackOk(begun, root) && Within(s, root) && ContextOk(FirstContext(s, StartArray), root)
    ensures var r := Feed(Entered(root, begun, FirstContext(s, StartArray), StartArray),
                          AcceptElements(x.elements) + [EndArray(|x.elements|)]);
            if ContentFits(s, x, m) && CombinersMet(s, m) then r == Validator(root, true, FeedStack(begun, Accept(x), root))
            else !r.valid
    decreases x, root, 1, 1
  {
    var c := FirstContext(s, StartArray);
    var v1 := Entered(root, begun, c, StartArray);
    var inner, end := AcceptElements(x.elements), EndArray(|x.elements|);
    FeedConcat(v1, inner, [end]);
    EnterIs(root, begun, s, StartArray);
    FeedElements(v1, x.elements);
    var v2 := Feed(v1, inner);
    if ElementsFit(s, 0, x.elements) {
      ContainerEnds(root, begun, c, StartArray, inner, end, v2);
      SubVerdictsOfFirst(s, x, m, root);
      EndValueMeaning(s, Verdicts(FeedAll(c.validators, Accept(x), root)), m);
    } else {
      RejectionIsFinal(v2, [end]);
    }
  }

  /** The marks that the keys of `ms` leave in a fresh context are the properties present. */
  lemma MarksOfFirst(s: Schema, ms: seq<Member>)
    ensures MarksPresent(s, MarkAll(s.properties, FirstContext(s, StartObject).propertyExist, ms), ms)
  {
    var exist := FirstContext(s, StartObject).propertyExist;
    forall i | 0 <= i < |exist|
      ensures MarkAll(s.properties, exist, ms)[i] == Present(s, ms, i)
    {
      MarkAllMarks(s, exist, ms, i);
    }
  }

  lemma ObjectEndMeaning(s: Schema, x: Value, c: Context<Validator>, exist: seq<bool>, m: Schema -> bool, root: Schema)
    requires x.Object? && m == (t => Satisfies(t, x))
    requires Within(s, root) && c == FirstContext(s, StartObject) && ContextOk(c, root)
    requires exist == MarkAll(s.properties, c.propertyExist, x.members)
    requires MembersFit(s, x.members)
    ensures EndChecks(s, exist, EndObject(|x.members|), Verdicts(FeedAll(c.validators, Accept(x), root))) <==>
            ContentFits(s, x, m) && CombinersMet(s, m)
    decreases x, root, 1, 1
  {
    hide Satisfies, MarkAll, CombinersMet, MembersFit, SchemaEndObject, SchemaEndValue, ObjectKeywordsMet, Faithful, MarksPresent;
    var verdicts := Verdicts(FeedAll(c.validators, Accept(x), root));
    SubVerdictsOfFirst(s, x, m, root);
    EndValueMeaning(s, verdicts, m);
    MarksOfFirst(s, x.members);
    EndObjectMeaning(s, exist, verdicts, x.members, m);
  }

  /** From just inside an object to just after it. */
  lemma {:induction false} ObjectVerdict(root: Schema, begun: seq<Context<Validator>>, s: Schema, x: Value, m: Schema -> bool)
    requires x.Object? && m == (t => Satisfies(t, x))
    requires StackOk(begun, root) && Within(s, root) && ContextOk(FirstContext(s, StartObject), root)
    ensures var r := Feed(Entered(root, begun, FirstContext(s, StartObject), StartObject),
                          AcceptMembers(x.members) + [EndObject(|x.members|)]);
            if ContentFits(s, x, m) && CombinersMet(s, m) then r == Validator(root, true, FeedStack(begun, Accept(x), root))
            else !r.valid
    decreases x, root, 1, 2
  {
    hide CombinersMet, EndChecks, Satisfies;
    var c := FirstContext(s, StartObject);
    var v1 := Entered(root, begun, c, StartObject);
    var inner, end := AcceptMembers(x.members), EndObject(|x.members|);
    FeedConcat(v1, inner, [end]);
    EnterIs(root, begun, s, StartObject);
    FeedMembers(v1, x.members);
    var v2 := Feed(v1, inner);
    if MembersFit(s, x.members) {
      ContainerEnds(root, begun, c, StartObject, inner, end, v2);
      ObjectEndMeaning(s, x, c, v2.stack[|begun|].propertyExist, m, root);
    } else {
      RejectionIsFinal(v2, [end]);
    }
  }

  /** From just inside a container to just after it. */
  lemma {:induction false} ContainerVerdict(root: Schema, begun: seq<Context<Validator>>, s: Schema, x: Value, m: Schema -> bool)
    requires (x.Array? || x.Object?) && m == (t => Satisfies(t, x))
    requires StackOk(begun, root) && Within(s, root) && ContextOk(FirstContext(s, Accept(x)[0]), root)
    ensures var r := Feed(Entered(root, begun, FirstContext(s, Accept(x)[0]), Accept(x)[0]), Accept(x)[1..]);
            if ContentFits(s, x, m) && CombinersMet(s, m) then r == Validator(root, true, FeedStack(begun, Accept(x), root))
            else !r.valid
    decreases x, root, 1, 3
  {
    if x.Array? {
      assert Accept(x)[1..] == AcceptElements(x.elements) + [EndArray(|x.elements|)];
      ArrayVerdict(root, begun, s, x, m);
    } else {
      assert Accept(x)[1..] == AcceptMembers(x.members) + [EndObject(|x.members|)];
      ObjectVerdict(root, begun, s, x, m);
    }
  }

  lemma {:induction false} FeedContainer(v: Validator, x: Value)
    requires Ok(v) && v.valid && (x.Array? || x.Object?)
    ensures Outcome(v, x, Feed(v, Accept(x)))
    decreases x, v.root, 1, 4
  {
    var e := Accept(x)[0];
    var begun := BeginTop(v.stack).0;
    var s := ValueSchema(v.root, begun);
    var m: Schema -> bool := t => Satisfies(t, x);
    FirstEvent(x);
    BegunOk(v, e);
    OpenValue(v, e, begun, s);
    EnterIs(v.root, begun, s, e);
    SatisfiesParts(s, x, m);
    if BeginTop(v.stack).1 && TypeAccepts(s.types, e) {
      ContainerVerdict(v.root, begun, s, x, m);
    } else {
      RejectionIsFinal(Step(v, e), Accept(x)[1..]);
    }
  }

  /**
   The validator agrees with the meaning of the schema: from any state in which
   a value may begin, feeding the value's events leaves the validator valid
   exactly if the enclosing value admits a value there and the value satisfies
   the schema chosen for it; then the stack is the one before, with every
   sub-validator of every enclosing context fed exactly those events.
   */
  lemma {:induction false} FeedValue(v: Validator, x: Value)
    requires Ok(v) && v.valid
    ensures Outcome(v, x, Feed(v, Accept(x)))
    decreases x, v.root, 2
  {
    if x.Array? || x.Object? {
      FeedContainer(v, x);
    } else {
      FeedScalar(v, x);
    }
  }

  /** Validating a whole document: the verdict is the meaning, and the schema stack ends empty as it began. */
  lemma DocumentVerdict(root: Schema, x: Value)
    ensures Feed(Fresh(root), Accept(x)).valid <==> Satisfies(root, x)
    ensures Satisfies(root, x) ==> Feed(Fresh(root), Accept(x)) == Fresh(root)
  {
    FeedValue(Fresh(root), x);
  }

  lemma {:induction false} FindByName(properties: seq<Property>, i: nat)
    requires i < |properties| && forall j, k :: 0 <= j < k < |properties| ==> properties[j].name != properties[k].name
    ensures FindPropertyIndex(properties, properties[i].name) == i
  {
    if i > 0 {
      assert properties[0].name != properties[i].name;
      FindByName(properties[1..], i - 1);
    }
  }

  lemma FoundByName(properties: seq<Property>, name: string)
    ensures var i := FindPropertyIndex(properties, name); i >= 0 ==> properties[i].name == name
  {
  }

  /** With distinct property names, a property is present exactly if some member has its name. */
  lemma PresentByName(s: Schema, ms: seq<Member>, i: nat)
    requires i < |s.properties|
    requires forall j, k :: 0 <= j < k < |s.properties| ==> s.properties[j].name != s.properties[k].name
    ensures Present(s, ms, i) <==> exists k :: 0 <= k < |ms| && ms[k].name == s.properties[i].name
  {
    FindByName(s.properties, i);
    if Present(s, ms, i) {
      var k :| 0 <= k < |ms| && FindPropertyIndex(s.properties, ms[k].name) == i;
      FoundByName(s.properties, ms[k].name);
    }
  }

  // ----- The keyword `items` as an array -----

  /** `Malloc` for the schemas of a tuple: no bytes give a null pointer. */
  function AllocatedTuple(tuple: seq<Schema>): Option<seq<Schema>> {
    if |tuple| == 0 then None else Some(tuple)
  }

  /** The compiled tuple; a null pointer, here an empty list, marks the absence of the keyword. */
  function CompiledTuple(items: Option<seq<Schema>>): seq<Schema> {
    if items.None? || AllocatedTuple(items.value).None? then [] else AllocatedTuple(items.value).value
  }

  /** The schema of an element by draft-04, section 5.3.1, for the keyword as it was written. */
  function DraftElementSchema(s: Schema, items: Option<seq<Schema>>, index: nat): Option<Schema> {
    if s.itemsList.Some? then s.itemsList
    else if items.None? then Some(TYPELESS)
    else if index < |items.value| then Some(items.value[index])
    else if s.additionalItemsSchema.Some? then s.additionalItemsSchema
    else if s.additionalItems then Some(TYPELESS)
    else None
  }

  ghost predicate DraftElementsSatisfy(s: Schema, items: Option<seq<Schema>>, es: seq<Value>) {
    forall k :: 0 <= k < |es| ==>
      DraftElementSchema(s, items, k).Some? && Satisfies(DraftElementSchema(s, items, k).value, es[k])
  }

  /** The counts of all containers fit 32 bits. */
  ghost predicate Sized(v: Value) {
    match v
    case Array(es) => |es| <= 0xFFFF_FFFF && forall k :: 0 <= k < |es| ==> Sized(es[k])
    case Object(ms) => |ms| <= 0xFFFF_FFFF && forall k :: 0 <= k < |ms| ==> Sized(ms[k].value)
    case _ => true
  }

  /** The schema without any keyword admits exactly the trees whose counts fit 32 bits. */
  lemma {:induction false} TypelessAdmits(v: Value)
    ensures Satisfies(TYPELESS, v) <==> Sized(v)
    decreases v
  {
    if v.Array? {
      forall k | 0 <= k < |v.elements|
        ensures Satisfies(TYPELESS, v.elements[k]) <==> Sized(v.elements[k])
      {
        TypelessAdmits(v.elements[k]);
      }
    } else if v.Object? {
      forall k | 0 <= k < |v.members|
        ensures Satisfies(TYPELESS, v.members[k].value) <==> Sized(v.members[k].value)
      {
        TypelessAdmits(v.members[k].value);
      }
    }
  }

  /** What draft-04 asks of all elements when the tuple is empty. */
  ghost predicate AdditionalOnly(s: Schema, es: seq<Value>) {
    if s.additionalItemsSchema.Some? then forall k :: 0 <= k < |es| ==> Satisfies(s.additionalItemsSchema.value, es[k])
    else s.additionalItems || es == []
  }

  /**
   The compiled schema admits the same elements as draft-04 if and only if it is
   not the case that the tuple is empty, no list form of the keyword takes
   precedence, and an element fails what is asked of additional items.
   */
  lemma TupleAgreement(s: Schema, items: Option<seq<Schema>>, x: Value)
    requires x.Array? && Sized(x) && s.itemsTuple == CompiledTuple(items)
    ensures (ElementsSatisfy(s, x) <==> DraftElementsSatisfy(s, items, x.elements)) <==>
            !(s.itemsList.None? && items == Some([]) && !AdditionalOnly(s, x.elements))
  {
    hide Satisfies, Sized;
    if s.itemsList.None? && items == Some([]) {
      forall k | 0 <= k < |x.elements|
        ensures Satisfies(TYPELESS, x.elements[k])
      {
        SizedElement(x, k);
        TypelessAdmits(x.elements[k]);
      }
      assert ElementsSatisfy(s, x) by {
        assert forall k :: 0 <= k < |x.elements| ==> ElementSchema(s, k) == Some(TYPELESS);
      }
      DraftOfEmpty(s, x.elements);
    } else {
      assert forall k :: 0 <= k < |x.elements| ==> ElementSchema(s, k) == DraftElementSchema(s, items, k);
    }
  }

  lemma DraftOfEmpty(s: Schema, es: seq<Value>)
    requires s.itemsList.None? && forall k :: 0 <= k < |es| ==> Satisfies(TYPELESS, es[k])
    ensures DraftElementsSatisfy(s, Some([]), es) <==> AdditionalOnly(s, es)
  {
    hide Satisfies;
    if es != [] && s.additionalItemsSchema.None? && !s.additionalItems {
      assert DraftElementSchema(s, Some([]), 0).None? && es[0] == es[0];
    } else if s.additionalItemsSchema.Some? {
      assert forall k :: 0 <= k < |es| ==> DraftElementSchema(s, Some([]), k) == s.additionalItemsSchema;
    } else {
      assert forall k :: 0 <= k < |es| ==> DraftElementSchema(s, Some([]), k) == Some(TYPELESS);
    }
  }

  lemma SizedElement(x: Value, k: nat)
    requires x.Array? && Sized(x) && k < |x.elements|
    ensures Sized(x.elements[k])
  {
  }

  /** `items: []` with `additionalItems: false` refuses every element by draft-04; compiled, it admits them. */
  lemma EmptyTupleIsIgnored()
    ensures var s, x := TYPELESS.(itemsTuple := CompiledTuple(Some([])), additionalItems := false), Array([Null]);
            Feed(Fresh(s), Accept(x)).valid && !DraftElementsSatisfy(s, Some([]), x.elements)
  {
    var s, x := TYPELESS.(itemsTuple := CompiledTuple(Some([])), additionalItems := false), Array([Null]);
    DocumentVerdict(s, x);
    TypelessAdmits(Null);
    assert ElementsSatisfy(s, x);
    assert DraftElementSchema(s, Some([]), 0).None? && x.elements[0] == Null;
  }

  // ----- The keyword `required` with a default -----

  /** The keyword by draft-04, section 5.4.3. */
  ghost predicate DraftRequiredMet(s: Schema, ms: seq<Member>) {
    forall i :: 0 <= i < |s.properties| && s.properties[i].required ==> Present(s, ms, i)
  }

  ghost predicate Missing(s: Schema, ms: seq<Member>, i: int) {
    0 <= i < |s.properties| && s.properties[i].required && !Present(s, ms, i)
  }

  /** The code and draft-04 differ exactly if something is missing and all that is missing has a non-empty string default. */
  lemma RequiredAgreement(s: Schema, ms: seq<Member>)
    ensures (RequiredMet(s, ms) <==> DraftRequiredMet(s, ms)) <==>
            !((exists i :: Missing(s, ms, i))
              && forall i :: Missing(s, ms, i) ==> s.properties[i].schema.defaultValueLength > 0)
  {
    hide Present;
    if exists i :: Missing(s, ms, i) {
      var i :| Missing(s, ms, i);
      assert !DraftRequiredMet(s, ms);
      if forall i :: Missing(s, ms, i) ==> s.properties[i].schema.defaultValueLength > 0 {
        assert forall i :: 0 <= i < |s.properties| && s.properties[i].required && !Present(s, ms, i) ==> Missing(s, ms, i);
      }
    } else {
      forall i | 0 <= i < |s.properties| && s.properties[i].required
        ensures Present(s, ms, i)
      {
        assert !Missing(s, ms, i);
      }
    }
  }

  /** An empty object is admitted although a property is required, because the property has a non-empty string default. */
  lemma DefaultStandsIn()
    ensures var property := Property("a", TYPELESS.(defaultValueLength := 1), true, NoDependency);
            var s, x := TYPELESS.(properties := [property]), Object([]);
            Feed(Fresh(s), Accept(x)).valid && !DraftRequiredMet(s, x.members)
  {
    var property := Property("a", TYPELESS.(defaultValueLength := 1), true, NoDependency);
    var s, x := TYPELESS.(properties := [property]), Object([]);
    DocumentVerdict(s, x);
    assert s.properties[0].required && !Present(s, x.members, 0);
  }
}
