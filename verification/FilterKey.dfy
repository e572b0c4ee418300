/**
 The filter-key handler: it forwards the events of a document without the
 members of one name, at every depth, in one pass.
 */
module FilterKeys {
  import opened Json

  /** The tree without the members of that name. */
  function Pruned(v: Value, key: string): Value {
    match v
    case Array(es) => Array(PrunedElements(es, key))
    case Object(ms) => Object(PrunedMembers(ms, key))
    case _ => v
  }

  function PrunedElements(es: seq<Value>, key: string): (r: seq<Value>)
    ensures |r| == |es|
  {
    if es == [] then [] else [Pruned(es[0], key)] + PrunedElements(es[1..], key)
  }

  function PrunedMembers(ms: seq<Member>, key: string): seq<Member> {
    if ms == [] then []
    else if ms[0].name == key then PrunedMembers(ms[1..], key)
    else [Member(ms[0].name, Pruned(ms[0].value, key))] + PrunedMembers(ms[1..], key)
  }

  /** `filterValueDepth_`, the `filteredKeyCount_` stack and the calls made on the output handler. */
  datatype Filter = Filter(depth: nat, counts: seq<nat>, out: seq<Event>)

  function ValueEnded(f: Filter): Filter {
    if f.depth == 1 then f.(depth := 0) else f
  }

  function Forward(f: Filter, e: Event): Filter {
    f.(out := f.out + [e])
  }

  /** The calls that need a key count find one. */
  predicate Expected(f: Filter, e: Event) {
    f.depth == 0 && (e.Key? || e.EndObject?) ==> f.counts != []
  }

  /** One handler call. */
  function Step(f: Filter, e: Event, key: string): Filter
    requires Expected(f, e)
  {
    if f.depth > 0 then
      match e
      case StartObject => f.(depth := f.depth + 1)
      case StartArray => f.(depth := f.depth + 1)
      case Key(_) => f
      case EndObject(_) => ValueEnded(f.(depth := f.depth - 1))
      case EndArray(_) => ValueEnded(f.(depth := f.depth - 1))
      case _ => ValueEnded(f)
    else
      var n := |f.counts| - 1;
      match e
      case StartObject => Forward(f.(counts := f.counts + [0]), e)
      case StartArray => Forward(f, e)
      case Key(name) =>
        if name == key then f.(depth := 1)
        else Forward(f.(counts := f.counts[..n] + [f.counts[n] + 1]), e)
      case EndObject(_) => ValueEnded(Forward(f.(counts := f.counts[..n]), EndObject(f.counts[n])))
      case EndArray(_) => ValueEnded(Forward(f, e))
      case _ => ValueEnded(Forward(f, e))
  }

  /** A run of calls; none if one of them finds no key count. */
  function Run(f: Filter, es: seq<Event>, key: string): Option<Filter>
    decreases |es|
  {
    if es == [] then Some(f)
    else if !Expected(f, es[0]) then None
    else Run(Step(f, es[0], key), es[1..], key)
  }

  lemma {:induction false} RunConcat(f: Filter, a: seq<Event>, b: seq<Event>, key: string)
    ensures Run(f, a + b, key) == var g := Run(f, a, key); if g.None? then None else Run(g.value, b, key)
    decreases |a|
  {
    if a == [] {
      assert a + b == b;
    } else {
      assert (a + b)[0] == a[0] && (a + b)[1..] == a[1..] + b;
      if Expected(f, a[0]) {
        RunConcat(Step(f, a[0], key), a[1..], b, key);
      }
    }
  }

  lemma RunOne(f: Filter, e: Event, key: string)
    requires Expected(f, e)
    ensures Run(f, [e], key) == Some(Step(f, e, key))
  {
    assert [e][1..] == [];
  }

  lemma RunNone(f: Filter, key: string)
    ensures Run(f, [], key) == Some(f)
  {
  }

  /** Below a filtered key nothing is forwarded; the depth falls back to zero at the end of the key's value. */
  lemma {:induction false} SkipValue(v: Value, f: Filter, key: string)
    requires f.depth > 0
    ensures Run(f, Accept(v), key) == Some(ValueEnded(f))
    decreases v, 1
  {
    hide Run, AcceptElements, AcceptMembers;
    match v
    case Array(es) =>
      SkipContent(f, StartArray, AcceptElements(es), EndArray(|es|), key);
      SkipElements(es, f.(depth := f.depth + 1), key);
    case Object(ms) =>
      SkipContent(f, StartObject, AcceptMembers(ms), EndObject(|ms|), key);
      SkipMembers(ms, f.(depth := f.depth + 1), key);
    case _ => RunOne(f, Accept(v)[0], key);
  }

  lemma SkipContent(f: Filter, start: Event, inner: seq<Event>, end: Event, key: string)
    requires f.depth > 0 && (start.StartArray? || start.StartObject?) && (end.EndArray? || end.EndObject?)
    ensures var deeper := f.(depth := f.depth + 1);
            Run(deeper, inner, key) == Some(deeper) ==> Run(f, [start] + inner + [end], key) == Some(ValueEnded(f))
  {
    hide Run;
    var deeper := f.(depth := f.depth + 1);
    RunConcat(f, [start] + inner, [end], key);
    RunConcat(f, [start], inner, key);
    RunOne(f, start, key);
    RunOne(deeper, end, key);
  }

  lemma {:induction false} SkipElements(es: seq<Value>, f: Filter, key: string)
    requires f.depth > 1
    ensures Run(f, AcceptElements(es), key) == Some(f)
    decreases es, 0
  {
    if es != [] {
      hide Run, Accept;
      SkipValue(es[0], f, key);
      SkipElements(es[1..], f, key);
      RunConcat(f, Accept(es[0]), AcceptElements(es[1..]), key);
    }
  }

  lemma {:induction false} SkipMembers(ms: seq<Member>, f: Filter, key: string)
    requires f.depth > 1
    ensures Run(f, AcceptMembers(ms), key) == Some(f)
    decreases ms, 0
  {
    if ms != [] {
      hide Run, Accept;
      RunOne(f, Key(ms[0].name), key);
      SkipValue(ms[0].value, f, key);
      SkipMembers(ms[1..], f, key);
      RunConcat(f, [Key(ms[0].name)], Accept(ms[0].value), key);
      RunConcat(f, [Key(ms[0].name)] + Accept(ms[0].value), AcceptMembers(ms[1..]), key);
    }
  }

  function ForwardAll(f: Filter, es: seq<Event>): Filter {
    f.(out := f.out + es)
  }

  lemma ForwardConcat(f: Filter, a: seq<Event>, b: seq<Event>)
    ensures ForwardAll(ForwardAll(f, a), b) == ForwardAll(f, a + b)
  {
    assert f.out + a + b == f.out + (a + b);
  }

  lemma ForwardNothing(f: Filter)
    ensures ForwardAll(f, []) == f
  {
    assert f.out + [] == f.out;
  }

  /**
   Outside filtered values, the events of a tree are forwarded as those of the
   tree without the key, and the depth and the stack of counts are as before.
   */
  lemma {:induction false} FilterValue(v: Value, f: Filter, key: string)
    requires f.depth == 0
    ensures Run(f, Accept(v), key) == Some(ForwardAll(f, Accept(Pruned(v, key))))
    decreases v, 1
  {
    hide Run, AcceptElements, AcceptMembers, PrunedElements, PrunedMembers;
    match v
    case Array(es) =>
      var inner := AcceptElements(PrunedElements(es, key));
      RunConcat(f, [StartArray] + AcceptElements(es), [EndArray(|es|)], key);
      RunConcat(f, [StartArray], AcceptElements(es), key);
      RunOne(f, StartArray, key);
      FilterElements(es, Forward(f, StartArray), key);
      RunOne(ForwardAll(Forward(f, StartArray), inner), EndArray(|es|), key);
      assert f.out + [StartArray] + inner + [EndArray(|es|)] == f.out + ([StartArray] + inner + [EndArray(|es|)]);
    case Object(ms) =>
      var pruned := PrunedMembers(ms, key);
      var inner := AcceptMembers(pruned);
      RunConcat(f, [StartObject] + AcceptMembers(ms), [EndObject(|ms|)], key);
      RunConcat(f, [StartObject], AcceptMembers(ms), key);
      RunOne(f, StartObject, key);
      var begun := Forward(f, StartObject);
      FilterMembers(ms, begun, 0, key);
      var filled := Counted(ForwardAll(begun, inner), |pruned|);
      RunOne(filled, EndObject(|ms|), key);
      assert filled.counts[..|f.counts|] == f.counts;
      assert f.out + [StartObject] + inner + [EndObject(|pruned|)] == f.out + ([StartObject] + inner + [EndObject(|pruned|)]);
    case _ => RunOne(f, Accept(v)[0], key);
  }

  lemma {:induction false} FilterElements(es: seq<Value>, f: Filter, key: string)
    requires f.depth == 0
    ensures Run(f, AcceptElements(es), key) == Some(ForwardAll(f, AcceptElements(PrunedElements(es, key))))
    decreases es, 0
  {
    if es == [] {
      ForwardNothing(f);
    } else {
      hide Run, Accept, Pruned;
      var first, rest := Accept(Pruned(es[0], key)), AcceptElements(PrunedElements(es[1..], key));
      FilterValue(es[0], f, key);
      FilterElements(es[1..], ForwardAll(f, first), key);
      RunConcat(f, Accept(es[0]), AcceptElements(es[1..]), key);
      ForwardConcat(f, first, rest);
      assert PrunedElements(es, key)[1..] == PrunedElements(es[1..], key);
    }
  }

  /** Inside an object whose kept members number `n` so far. */
  function Counted(f: Filter, n: nat): Filter {
    f.(counts := f.counts + [n])
  }

  lemma {:induction false} FilterMembers(ms: seq<Member>, f: Filter, n: nat, key: string)
    requires f.depth == 0
    ensures var pruned := PrunedMembers(ms, key);
            Run(Counted(f, n), AcceptMembers(ms), key) == Some(Counted(ForwardAll(f, AcceptMembers(pruned)), n + |pruned|))
    decreases ms, 0
  {
    if ms == [] {
      RunNone(Counted(f, n), key);
      ForwardNothing(f);
    } else {
      hide Run, Accept, Pruned, Step;
      var m, c := ms[0], Counted(f, n);
      RunConcat(c, [Key(m.name)] + Accept(m.value), AcceptMembers(ms[1..]), key);
      RunConcat(c, [Key(m.name)], Accept(m.value), key);
      KeyStep(f, n, m.name, key);
      if m.name == key {
        SkipValue(m.value, c.(depth := 1), key);
        FilterMembers(ms[1..], f, n, key);
      } else {
        var name, first := [Key(m.name)], Accept(Pruned(m.value, key));
        var pruned := PrunedMembers(ms[1..], key);
        FilterValue(m.value, Counted(ForwardAll(f, name), n + 1), key);
        ForwardConcat(f, name, first);
        FilterMembers(ms[1..], ForwardAll(f, name + first), n + 1, key);
        ForwardConcat(f, name + first, AcceptMembers(pruned));
        assert PrunedMembers(ms, key)[1..] == pruned;
      }
    }
  }

  lemma KeyStep(f: Filter, n: nat, name: string, key: string)
    requires f.depth == 0
    ensures var c := Counted(f, n);
            Run(c, [Key(name)], key) ==
              Some(if name == key then c.(depth := 1) else Counted(ForwardAll(f, [Key(name)]), n + 1))
  {
    var c := Counted(f, n);
    RunOne(c, Key(name), key);
    assert c.counts[..|f.counts|] == f.counts;
  }

  // ----- The class -----

  class FilterKeyHandler {
    /** The calls made on the output handler, none of which is refused. */
    var outputHandler: seq<Event>
    const keyString: string
    var filterValueDepth: nat
    var filteredKeyCount: seq<nat>

    constructor (keyString: string)
      ensures this.keyString == keyString && State() == Filter(0, [], [])
    {
      this.keyString := keyString;
      outputHandler, filterValueDepth, filteredKeyCount := [], 0, [];
    }

    ghost function State(): Filter
      reads this
    {
      Filter(filterValueDepth, filteredKeyCount, outputHandler)
    }

    method EndValue()
      modifies this`filterValueDepth
      ensures State() == ValueEnded(old(State()))
    {
      if filterValueDepth == 1 {
        filterValueDepth := 0;
      }
    }

    method Output(e: Event)
      modifies this`outputHandler
      ensures State() == Forward(old(State()), e)
    {
      outputHandler := outputHandler + [e];
    }

    method Scalar(e: Event)
      requires !e.StartObject? && !e.EndObject? && !e.StartArray? && !e.EndArray? && !e.Key?
      modifies this
      ensures State() == Step(old(State()), e, keyString)
    {
      if filterValueDepth > 0 {
        EndValue();
      } else {
        Output(e);
        EndValue();
      }
    }

    method StartObject()
      modifies this
      ensures State() == Step(old(State()), Event.StartObject, keyString)
    {
      if filterValueDepth > 0 {
        filterValueDepth := filterValueDepth + 1;
      } else {
        filteredKeyCount := filteredKeyCount + [0];
        Output(Event.StartObject);
      }
    }

    method Key(str: string)
      requires Expected(State(), Event.Key(str))
      modifies this
      ensures State() == Step(old(State()), Event.Key(str), keyString)
    {
      if filterValueDepth > 0 {
        return;
      }
      if str == keyString {
        filterValueDepth := 1;
      } else {
        var n := |filteredKeyCount| - 1;
        filteredKeyCount := filteredKeyCount[..n] + [filteredKeyCount[n] + 1];
        Output(Event.Key(str));
      }
    }

    method EndObject(count: nat)
      requires Expected(State(), Event.EndObject(count))
      modifies this
      ensures State() == Step(old(State()), Event.EndObject(count), keyString)
    {
      if filterValueDepth > 0 {
        filterValueDepth := filterValueDepth - 1;
        EndValue();
      } else {
        var n := |filteredKeyCount| - 1;
        var memberCount := filteredKeyCount[n];
        filteredKeyCount := filteredKeyCount[..n];
        Output(Event.EndObject(memberCount));
        EndValue();
      }
    }

    method StartArray()
      modifies this
      ensures State() == Step(old(State()), Event.StartArray, keyString)
    {
      if filterValueDepth > 0 {
        filterValueDepth := filterValueDepth + 1;
      } else {
        Output(Event.StartArray);
      }
    }

    method EndArray(elementCount: nat)
      modifies this
      ensures State() == Step(old(State()), Event.EndArray(elementCount), keyString)
    {
      if filterValueDepth > 0 {
        filterValueDepth := filterValueDepth - 1;
        EndValue();
      } else {
        Output(Event.EndArray(elementCount));
        EndValue();
      }
    }

    /** One handler call. */
    method Handle(e: Event)
      requires Expected(State(), e)
      modifies this
      ensures State() == Step(old(State()), e, keyString)
    {
      match e
      case StartObject => StartObject();
      case Key(name) => Key(name);
      case EndObject(count) => EndObject(count);
      case StartArray => StartArray();
      case EndArray(count) => EndArray(count);
      case _ => Scalar(e);
    }
  }

  /** The whole filter: what comes out are the events of the tree without the key. */
  method FilterTree(v: Value, key: string) returns (out: seq<Event>)
    ensures out == Accept(Pruned(v, key))
  {
    hide Step, Accept, Pruned;
    var handler := new FilterKeyHandler(key);
    var es := Accept(v);
    FilterValue(v, Filter(0, [], []), key);
    assert es[0..] == es && [] + Accept(Pruned(v, key)) == Accept(Pruned(v, key));
    ghost var end := Filter(0, [], Accept(Pruned(v, key)));
    var i := 0;
    while i < |es|
      invariant 0 <= i <= |es| && handler.keyString == key
      invariant Run(handler.State(), es[i..], key) == Some(end)
    {
      assert es[i..][1..] == es[i + 1..];
      handler.Handle(es[i]);
      i := i + 1;
    }
    out := handler.outputHandler;
  }
}
