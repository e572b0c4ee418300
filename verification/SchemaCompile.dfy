/**
 The property list that a schema is compiled into, from the keywords `properties`,
 `required` and `dependencies`. Names of all three keywords enter the list, so a
 name that only the last two mention is not an additional property. Of entries
 with the same name the first one counts.
 */
module SchemaCompile {
  import opened Json
  import opened Schema
  import opened SchemaMeaning

  datatype DependencyKeyword =
    | OnNames(names: seq<string>)
    | OnObject(schema: Schema)
    | Neither

  datatype ObjectKeywords = ObjectKeywords(
    properties: seq<(string, Schema)>,
    required: seq<string>,
    dependencies: seq<(string, DependencyKeyword)>)

  // ----- Compiling -----

  function AddUniqueElement(names: seq<string>, name: string): seq<string> {
    if name in names then names else names + [name]
  }

  function AddAll(names: seq<string>, more: seq<string>): seq<string>
    decreases |more|
  {
    if more == [] then names else AddAll(AddUniqueElement(names, more[0]), more[1..])
  }

  function PropertyNames(properties: seq<(string, Schema)>): seq<string> {
    seq(|properties|, i requires 0 <= i < |properties| => properties[i].0)
  }

  function TargetNames(d: DependencyKeyword): seq<string> {
    if d.OnNames? then d.names else []
  }

  /** Each name with a dependency, followed by the names that it depends on. */
  function DependencyNames(dependencies: seq<(string, DependencyKeyword)>): seq<string> {
    if dependencies == [] then []
    else [dependencies[0].0] + TargetNames(dependencies[0].1) + DependencyNames(dependencies[1..])
  }

  function GatheredNames(k: ObjectKeywords): seq<string> {
    AddAll(AddAll(AddAll([], PropertyNames(k.properties)), k.required), DependencyNames(k.dependencies))
  }

  function PropertySchema(properties: seq<(string, Schema)>, name: string): Option<Schema> {
    if properties == [] then None
    else if properties[0].0 == name then Some(properties[0].1)
    else PropertySchema(properties[1..], name)
  }

  function DependencyOf(dependencies: seq<(string, DependencyKeyword)>, name: string): DependencyKeyword {
    if dependencies == [] then Neither
    else if dependencies[0].0 == name then dependencies[0].1
    else DependencyOf(dependencies[1..], name)
  }

  /** The place of a name in the list, or the length of the list. */
  function NameIndex(names: seq<string>, name: string): (i: nat)
    ensures i <= |names|
    ensures i < |names| ==> names[i] == name
    ensures name in names ==> i < |names|
  {
    if names == [] || names[0] == name then 0 else 1 + NameIndex(names[1..], name)
  }

  function CompiledDependency(names: seq<string>, d: DependencyKeyword): Dependency {
    match d
    case OnNames(ts) => OnProperties(seq(|ts|, i requires 0 <= i < |ts| => NameIndex(names, ts[i])))
    case OnObject(schema) => OnSchema(schema)
    case Neither => NoDependency
  }

  function CompiledProperty(k: ObjectKeywords, name: string): Property {
    var schema := PropertySchema(k.properties, name);
    Property(name, if schema.Some? then schema.value else TYPELESS, name in k.required,
             CompiledDependency(GatheredNames(k), DependencyOf(k.dependencies, name)))
  }

  function CompiledProperties(k: ObjectKeywords): (r: seq<Property>)
    ensures |r| == |GatheredNames(k)|
  {
    seq(|GatheredNames(k)|, i requires 0 <= i < |GatheredNames(k)| => CompiledProperty(k, GatheredNames(k)[i]))
  }

  // ----- The gathered names -----

  ghost predicate Distinct(names: seq<string>) {
    forall i, j :: 0 <= i < j < |names| ==> names[i] != names[j]
  }

  lemma {:induction false} AddAllNames(names: seq<string>, more: seq<string>)
    requires Distinct(names)
    ensures Distinct(AddAll(names, more))
    ensures forall name :: name in AddAll(names, more) <==> name in names || name in more
    decreases |more|
  {
    if more != [] {
      AddAllNames(AddUniqueElement(names, more[0]), more[1..]);
      assert more == [more[0]] + more[1..];
    }
  }

  /** Exactly the names of the three keywords are gathered, each once. */
  lemma GatheredOnce(k: ObjectKeywords)
    ensures Distinct(GatheredNames(k))
    ensures forall name :: name in GatheredNames(k) <==>
              name in PropertyNames(k.properties) || name in k.required || name in DependencyNames(k.dependencies)
  {
    var first := AddAll([], PropertyNames(k.properties));
    AddAllNames([], PropertyNames(k.properties));
    AddAllNames(first, k.required);
    AddAllNames(AddAll(first, k.required), DependencyNames(k.dependencies));
  }

  lemma {:induction false} PropertyIsNamed(properties: seq<(string, Schema)>, name: string)
    ensures PropertySchema(properties, name).Some? <==> name in PropertyNames(properties)
  {
    if properties != [] {
      PropertyIsNamed(properties[1..], name);
      assert PropertyNames(properties) == [properties[0].0] + PropertyNames(properties[1..]);
    }
  }

  lemma {:induction false} DependencyIsNamed(dependencies: seq<(string, DependencyKeyword)>, name: string)
    ensures var d := DependencyOf(dependencies, name);
            !d.Neither? ==> name in DependencyNames(dependencies)
                            && forall t :: t in TargetNames(d) ==> t in DependencyNames(dependencies)
  {
    if dependencies != [] {
      DependencyIsNamed(dependencies[1..], name);
    }
  }

  // ----- What the compiled list means by names -----

  lemma FindCompiled(k: ObjectKeywords, name: string)
    ensures var ps, i := CompiledProperties(k), FindPropertyIndex(CompiledProperties(k), name);
            if name in GatheredNames(k) then i >= 0 && ps[i] == CompiledProperty(k, name) else i < 0
  {
    hide GatheredNames, CompiledProperty;
    var names, ps := GatheredNames(k), CompiledProperties(k);
    assert forall i :: 0 <= i < |ps| ==> ps[i].name == names[i] by { CompiledNames(k); }
    FoundByName(ps, name);
    if name in names {
      GatheredOnce(k);
      var i :| 0 <= i < |names| && names[i] == name;
      FindByName(ps, i);
    }
  }

  lemma CompiledNames(k: ObjectKeywords)
    ensures forall i :: 0 <= i < |GatheredNames(k)| ==> CompiledProperties(k)[i].name == GatheredNames(k)[i]
  {
    hide GatheredNames, CompiledDependency, PropertySchema;
  }

  ghost predicate HasName(ms: seq<Member>, name: string) {
    exists j :: 0 <= j < |ms| && ms[j].name == name
  }

  /** A compiled property is present exactly if some member has its name. */
  lemma CompiledPresent(s: Schema, k: ObjectKeywords, ms: seq<Member>, i: nat)
    requires s.properties == CompiledProperties(k) && i < |GatheredNames(k)|
    ensures Present(s, ms, i) <==> HasName(ms, GatheredNames(k)[i])
  {
    hide GatheredNames, CompiledProperty, CompiledProperties;
    GatheredOnce(k);
    CompiledNames(k);
    PresentByName(s, ms, i);
  }

  /** `properties` gives the name a schema with a non-empty string default. */
  predicate HasDefault(k: ObjectKeywords, name: string) {
    var schema := PropertySchema(k.properties, name);
    schema.Some? && schema.value.defaultValueLength > 0
  }

  /** The compiled `required`, by names: a name that is missing has a default. */
  lemma CompiledRequired(s: Schema, k: ObjectKeywords, ms: seq<Member>)
    requires s.properties == CompiledProperties(k)
    ensures RequiredMet(s, ms) <==>
              forall name :: name in k.required ==>
                HasName(ms, name) || HasDefault(k, name)
  {
    hide GatheredNames, CompiledDependency, Present, HasName;
    var names := GatheredNames(k);
    GatheredOnce(k);
    forall i | 0 <= i < |names|
      ensures Present(s, ms, i) <==> HasName(ms, names[i])
    {
      CompiledPresent(s, k, ms, i);
    }
    if RequiredMet(s, ms) {
      forall name | name in k.required
        ensures HasName(ms, name) || HasDefault(k, name)
      {
        var i :| 0 <= i < |names| && names[i] == name;
        assert s.properties[i].required;
      }
    }
  }

  /** The compiled dependencies on names: a member with such a dependency has all the members it depends on. */
  lemma CompiledPropertyDependencies(s: Schema, k: ObjectKeywords, ms: seq<Member>)
    requires s.properties == CompiledProperties(k)
    ensures PropertyDependenciesMet(s, ms) <==>
              forall name :: DependencyOf(k.dependencies, name).OnNames? && HasName(ms, name) ==>
                forall t :: t in DependencyOf(k.dependencies, name).names ==> HasName(ms, t)
  {
    hide GatheredNames, Present, HasName, PropertySchema, DependencyOf;
    var names := GatheredNames(k);
    GatheredOnce(k);
    forall i | 0 <= i < |names|
      ensures Present(s, ms, i) <==> HasName(ms, names[i])
    {
      CompiledPresent(s, k, ms, i);
    }
    if PropertyDependenciesMet(s, ms) {
      forall name | DependencyOf(k.dependencies, name).OnNames? && HasName(ms, name)
        ensures forall t :: t in DependencyOf(k.dependencies, name).names ==> HasName(ms, t)
      {
        DependencyIsNamed(k.dependencies, name);
        var ts := DependencyOf(k.dependencies, name).names;
        var i :| 0 <= i < |names| && names[i] == name;
        forall t | t in ts
          ensures HasName(ms, t)
        {
          var j :| 0 <= j < |ts| && ts[j] == t;
          assert s.properties[i].dependency.indices[j] == NameIndex(names, t);
          assert Present(s, ms, NameIndex(names, t));
        }
      }
    }
    if forall name :: DependencyOf(k.dependencies, name).OnNames? && HasName(ms, name) ==>
         forall t :: t in DependencyOf(k.dependencies, name).names ==> HasName(ms, t)
    {
      forall i | 0 <= i < |names| && s.properties[i].dependency.OnProperties? && Present(s, ms, i)
        ensures forall j :: j in s.properties[i].dependency.indices && j < |names| ==> Present(s, ms, j)
      {
        var d := DependencyOf(k.dependencies, names[i]);
        assert d.OnNames?;
        forall j | j in s.properties[i].dependency.indices && j < |names|
          ensures Present(s, ms, j)
        {
          var q :| 0 <= q < |s.properties[i].dependency.indices| && s.properties[i].dependency.indices[q] == j;
          assert j == NameIndex(names, d.names[q]) && names[j] == d.names[q] && d.names[q] in d.names;
        }
      }
    }
  }

  /** The compiled dependencies on schemas. */
  lemma CompiledSchemaDependencies(s: Schema, k: ObjectKeywords, x: Value)
    requires x.Object? && s.properties == CompiledProperties(k)
    ensures SchemaDependenciesMet(s, x) <==>
              forall name :: DependencyOf(k.dependencies, name).OnObject? && HasName(x.members, name) ==>
                Satisfies(DependencyOf(k.dependencies, name).schema, x)
  {
    hide GatheredNames, Present, HasName, PropertySchema, DependencyOf, Satisfies;
    var names := GatheredNames(k);
    GatheredOnce(k);
    forall i | 0 <= i < |names|
      ensures Present(s, x.members, i) <==> HasName(x.members, names[i])
      ensures s.properties[i].dependency.OnSchema? <==> DependencyOf(k.dependencies, names[i]).OnObject?
    {
      CompiledPresent(s, k, x.members, i);
    }
    if SchemaDependenciesMet(s, x) {
      forall name | DependencyOf(k.dependencies, name).OnObject? && HasName(x.members, name)
        ensures Satisfies(DependencyOf(k.dependencies, name).schema, x)
      {
        DependencyIsNamed(k.dependencies, name);
        var i :| 0 <= i < |names| && names[i] == name;
        assert s.properties[i].dependency.OnSchema?;
      }
    }
  }

  // ----- The keyword `additionalProperties` -----

  /** What is asked of a member that is an additional property. */
  ghost predicate AdditionalAdmits(s: Schema, v: Value) {
    if s.additionalPropertiesSchema.Some? then Satisfies(s.additionalPropertiesSchema.value, v) else s.additionalProperties
  }

  /** A member by draft-04, section 5.4.4: additional is whatever `properties` does not name. */
  ghost predicate DraftMemberFits(s: Schema, k: ObjectKeywords, m: Member) {
    var schema := PropertySchema(k.properties, m.name);
    if schema.Some? then Satisfies(schema.value, m.value) else AdditionalAdmits(s, m.value)
  }

  ghost predicate DraftMembersSatisfy(s: Schema, k: ObjectKeywords, ms: seq<Member>) {
    forall j :: 0 <= j < |ms| ==> DraftMemberFits(s, k, ms[j])
  }

  /** A name that `required` or `dependencies` mentions and `properties` does not. */
  predicate OnlyMentioned(k: ObjectKeywords, name: string) {
    && name !in PropertyNames(k.properties)
    && (name in k.required || name in DependencyNames(k.dependencies))
  }

  /** A member that the compiled schema lets pass and draft-04 does not. */
  ghost predicate SlipsThrough(s: Schema, k: ObjectKeywords, m: Member) {
    OnlyMentioned(k, m.name) && !AdditionalAdmits(s, m.value)
  }

  /** One member: the compiled schema asks the same as draft-04, except that it asks nothing if the name is only mentioned. */
  lemma CompiledMember(s: Schema, k: ObjectKeywords, m: Member)
    requires s.properties == CompiledProperties(k) && Sized(m.value)
    ensures MemberFits(s, m) <==> DraftMemberFits(s, k, m) || SlipsThrough(s, k, m)
  {
    hide Satisfies, Sized, GatheredNames, CompiledProperties, CompiledDependency, PropertySchema, PropertyNames, DependencyNames;
    FindCompiled(k, m.name);
    GatheredOnce(k);
    PropertyIsNamed(k.properties, m.name);
    TypelessAdmits(m.value);
  }

  lemma SizedMember(x: Value, j: nat)
    requires x.Object? && Sized(x) && j < |x.members|
    ensures Sized(x.members[j].value)
  {
  }

  /**
   The compiled schema admits the same members as draft-04 if and only if it is
   not the case that a member slips through and all others are in order.
   */
  lemma PropertiesAgreement(s: Schema, k: ObjectKeywords, x: Value)
    requires x.Object? && Sized(x) && s.properties == CompiledProperties(k)
    ensures (MembersSatisfy(s, x) <==> DraftMembersSatisfy(s, k, x.members)) <==>
            !(&& (exists j :: 0 <= j < |x.members| && SlipsThrough(s, k, x.members[j]))
              && (forall j :: 0 <= j < |x.members| && !OnlyMentioned(k, x.members[j].name) ==> DraftMemberFits(s, k, x.members[j])))
  {
    hide Satisfies, Sized, CompiledProperties, OnlyMentioned, PropertySchema, MembersSatisfy;
    MembersMeaning(s, x);
    forall j | 0 <= j < |x.members|
      ensures MemberFits(s, x.members[j]) <==> DraftMemberFits(s, k, x.members[j]) || SlipsThrough(s, k, x.members[j])
      ensures OnlyMentioned(k, x.members[j].name) ==> PropertySchema(k.properties, x.members[j].name).None?
    {
      SizedMember(x, j);
      CompiledMember(s, k, x.members[j]);
      NotNamed(k, x.members[j].name);
    }
    hide AdditionalAdmits;
  }

  lemma NotNamed(k: ObjectKeywords, name: string)
    ensures OnlyMentioned(k, name) ==> PropertySchema(k.properties, name).None?
  {
    PropertyIsNamed(k.properties, name);
  }

  /**
   The compiled schema agrees with draft-04 about the members of all objects if
   and only if no name is only mentioned or every value passes as an additional
   property.
   */
  lemma AgreesEverywhere(s: Schema, k: ObjectKeywords)
    requires s.properties == CompiledProperties(k)
    ensures (forall x: Value :: x.Object? && Sized(x) ==> (MembersSatisfy(s, x) <==> DraftMembersSatisfy(s, k, x.members)))
            <==>
            (forall name :: !OnlyMentioned(k, name)) || (forall v :: Sized(v) ==> AdditionalAdmits(s, v))
  {
    hide Satisfies, CompiledProperties, OnlyMentioned, PropertySchema, MembersSatisfy, DraftMembersSatisfy, AdditionalAdmits;
    forall x: Value | x.Object? && Sized(x)
      ensures (forall name :: !OnlyMentioned(k, name)) || (forall v :: Sized(v) ==> AdditionalAdmits(s, v)) ==>
                (MembersSatisfy(s, x) <==> DraftMembersSatisfy(s, k, x.members))
    {
      PropertiesAgreement(s, k, x);
    }
    if name, v :| OnlyMentioned(k, name) && Sized(v) && !AdditionalAdmits(s, v) {
      var x := Object([Member(name, v)]);
      PropertiesAgreement(s, k, x);
      assert SlipsThrough(s, k, x.members[0]);
      assert Sized(x);
    }
  }

  lemma OneRequired(k: ObjectKeywords)
    requires k == ObjectKeywords([], ["a"], [])
    ensures CompiledProperties(k) == [Property("a", TYPELESS, true, NoDependency)] && OnlyMentioned(k, "a")
  {
    assert GatheredNames(k) == ["a"];
  }

  lemma OneMemberFits(s: Schema, x: Value)
    requires s == TYPELESS.(properties := [Property("a", TYPELESS, true, NoDependency)], additionalProperties := false)
    requires x == Object([Member("a", Number(1))])
    ensures Satisfies(s, x)
  {
    assert FindPropertyIndex(s.properties, x.members[0].name) == 0;
    assert Present(s, x.members, 0);
    TypelessAdmits(Number(1));
    hide FindPropertyIndex;
    assert MembersSatisfy(s, x);
  }

  /** A required name that `properties` does not have is admitted although no additional property is. */
  lemma RequiredNameSlipsThrough()
    ensures var k, x := ObjectKeywords([], ["a"], []), Object([Member("a", Number(1))]);
            var s := TYPELESS.(properties := CompiledProperties(k), additionalProperties := false);
            Feed(Fresh(s), Accept(x)).valid && !DraftMembersSatisfy(s, k, x.members)
  {
    var k, x := ObjectKeywords([], ["a"], []), Object([Member("a", Number(1))]);
    OneRequired(k);
    hide CompiledProperties, OnlyMentioned, Satisfies, Accept, Feed;
    var s := TYPELESS.(properties := CompiledProperties(k), additionalProperties := false);
    DocumentVerdict(s, x);
    OneMemberFits(s, x);
    NotNamed(k, "a");
    assert !DraftMemberFits(s, k, x.members[0]);
  }
}
