/**
 What a pointer does to a tree: resolving, creating and erasing the value that
 its tokens lead to. Trees are values here, so an operation returns the new tree.
 */
module PointerTrees {
  import opened Json
  import opened Arithmetic
  import opened Pointers

  predicate IsDash(t: Token) { t.name == "-" }

  /** Where a token leads in a container: the position of the member or the element. */
  function Slot(v: Value, t: Token): Option<nat> {
    match v
    case Object(ms) => if FindMember(ms, t.name) < |ms| then Some(FindMember(ms, t.name)) else None
    case Array(es) => if t.index != INVALID_INDEX && t.index < |es| then Some(t.index) else None
    case _ => None
  }

  predicate HasSlot(v: Value, k: nat) {
    match v
    case Object(ms) => k < |ms|
    case Array(es) => k < |es|
    case _ => false
  }

  function At(v: Value, k: nat): (r: Value)
    requires HasSlot(v, k)
    ensures r < v
  {
    if v.Object? then v.members[k].value else v.elements[k]
  }

  function With(v: Value, k: nat, x: Value): Value
    requires HasSlot(v, k)
  {
    if v.Object? then Object(v.members[k := Member(v.members[k].name, x)]) else Array(v.elements[k := x])
  }

  // ----- Get -----

  function Get(ts: seq<Token>, v: Value): Option<Value>
    decreases |ts|
  {
    if ts == [] then Some(v)
    else
      var k := Slot(v, ts[0]);
      if k.None? then None else Get(ts[1..], At(v, k.value))
  }

  /** The loop of `Get`: the value reached, or the token that is not resolved. */
  method Resolve(ts: seq<Token>, root: Value) returns (found: Option<Value>, unresolved: nat)
    ensures found == Get(ts, root)
    ensures found.None? ==> unresolved < |ts| && Get(ts[..unresolved], root).Some?
    ensures found.None? ==> Slot(Get(ts[..unresolved], root).value, ts[unresolved]).None?
  {
    var v := root;
    var i := 0;
    assert ts[..0] == [] && ts[0..] == ts;
    while i < |ts|
      invariant 0 <= i <= |ts| && Get(ts[..i], root) == Some(v) && Get(ts[i..], v) == Get(ts, root)
    {
      assert ts[i..][1..] == ts[i + 1..];
      var k := Slot(v, ts[i]);
      if k.None? {
        return None, i;
      }
      GetConcat(ts[..i], [ts[i]], root);
      assert ts[..i + 1] == ts[..i] + [ts[i]];
      GetOne(ts[i], v);
      v := At(v, k.value);
      i := i + 1;
    }
    return Some(v), i;
  }

  lemma GetOne(t: Token, v: Value)
    ensures Get([t], v) == if Slot(v, t).None? then None else Some(At(v, Slot(v, t).value))
  {
    assert [t][1..] == [];
  }

  lemma {:induction false} GetConcat(a: seq<Token>, b: seq<Token>, v: Value)
    ensures Get(a + b, v) == var mid := Get(a, v); if mid.None? then None else Get(b, mid.value)
    decreases |a|
  {
    if a == [] {
      assert a + b == b;
    } else {
      assert (a + b)[0] == a[0] && (a + b)[1..] == a[1..] + b;
      var k := Slot(v, a[0]);
      if k.Some? {
        GetConcat(a[1..], b, At(v, k.value));
      }
    }
  }

  // ----- Create -----

  /** A container made ready for a token: its new contents, the position the token leads to, and whether it was there. */
  datatype Place = Place(container: Value, slot: nat, existed: bool)

  function Nulls(n: nat): seq<Value> {
    seq(n, _ => Null)
  }

  function Prepare(v: Value, t: Token): (r: Place)
    ensures HasSlot(r.container, r.slot)
  {
    if v.Array? && IsDash(t) then Place(Array(v.elements + [Null]), |v.elements|, false)
    else
      var w := if t.index == INVALID_INDEX then (if v.Object? then v else Object([]))
               else (if v.Array? || v.Object? then v else Array([]));
      if w.Array? then
        if t.index >= |w.elements| then Place(Array(w.elements + Nulls(t.index + 1 - |w.elements|)), t.index, false)
        else Place(w, t.index, true)
      else
        var k := FindMember(w.members, t.name);
        if k == |w.members| then Place(Object(w.members + [Member(t.name, Null)]), k, false) else Place(w, k, true)
  }

  datatype Created = Created(tree: Value, exist: bool)

  function Create(ts: seq<Token>, v: Value): Created
    decreases |ts|
  {
    if ts == [] then Created(v, true)
    else
      var p := Prepare(v, ts[0]);
      var inner := Create(ts[1..], At(p.container, p.slot));
      Created(With(p.container, p.slot, inner.tree), p.existed && inner.exist)
  }

  /** A token finds a place exactly where `Get` finds one; otherwise a null is put there. */
  lemma PlaceExists(v: Value, t: Token)
    requires t.index == IndexOf(t.name)
    ensures var p := Prepare(v, t);
            && p.existed == Slot(v, t).Some?
            && (p.existed ==> p.container == v && Slot(v, t) == Some(p.slot))
            && (!p.existed ==> At(p.container, p.slot) == Null)
  {
  }

  lemma WithSame(v: Value, k: nat)
    requires HasSlot(v, k)
    ensures With(v, k, At(v, k)) == v
  {
    if v.Object? {
      assert v.members[k := Member(v.members[k].name, v.members[k].value)] == v.members;
    } else {
      assert v.elements[k := v.elements[k]] == v.elements;
    }
  }

  /** `Create` says that the value exists exactly if `Get` resolves, and then it changes nothing. */
  lemma {:induction false} CreateExists(ts: seq<Token>, v: Value)
    requires Parsed(ts)
    ensures Create(ts, v).exist <==> Get(ts, v).Some?
    ensures Create(ts, v).exist ==> Create(ts, v).tree == v
    decreases |ts|
  {
    if ts != [] {
      hide Prepare;
      var p := Prepare(v, ts[0]);
      PlaceExists(v, ts[0]);
      if p.existed {
        CreateExists(ts[1..], At(v, p.slot));
        WithSame(v, p.slot);
      }
    }
  }

  lemma FindAppended(ms: seq<Member>, m: Member)
    requires FindMember(ms, m.name) == |ms|
    ensures FindMember(ms + [m], m.name) == |ms|
  {
    FirstIs(ms + [m], m.name, |ms|);
  }

  lemma FindReplaced(ms: seq<Member>, k: nat, x: Value, name: string)
    requires k < |ms|
    ensures FindMember(ms[k := Member(ms[k].name, x)], name) == FindMember(ms, name)
  {
    var now := ms[k := Member(ms[k].name, x)];
    assert forall j :: 0 <= j < |ms| ==> now[j].name == ms[j].name;
    FirstIs(now, name, FindMember(ms, name));
  }

  /** After a place was filled, the token leads to it. */
  lemma PlaceResolves(v: Value, t: Token, x: Value)
    requires t.index == IndexOf(t.name) && (v.Array? ==> !IsDash(t))
    ensures var p := Prepare(v, t);
            var w := With(p.container, p.slot, x);
            Slot(w, t) == Some(p.slot) && At(w, p.slot) == x
  {
    var p := Prepare(v, t);
    if p.container.Object? {
      FindReplaced(p.container.members, p.slot, x, t.name);
      if !p.existed && v.Object? {
        FindAppended(v.members, Member(t.name, Null));
      } else if !p.existed {
        FindAppended([], Member(t.name, Null));
        assert [] + [Member(t.name, Null)] == [Member(t.name, Null)];
      }
    }
  }

  /** `Set`: `Create`, then an assignment to the place created or found. */
  function Set(ts: seq<Token>, v: Value, x: Value): Value
    decreases |ts|
  {
    if ts == [] then x
    else
      var p := Prepare(v, ts[0]);
      With(p.container, p.slot, Set(ts[1..], At(p.container, p.slot), x))
  }

  /** On the way some token `-` meets an array. */
  predicate Appends(ts: seq<Token>, v: Value)
    decreases |ts|
  {
    && ts != []
    && ((v.Array? && IsDash(ts[0])) || (var p := Prepare(v, ts[0]); Appends(ts[1..], At(p.container, p.slot))))
  }

  /** What was set is what `Get` finds, exactly if no token `-` met an array. */
  lemma {:induction false} GetAfterSet(ts: seq<Token>, v: Value, x: Value)
    requires Parsed(ts)
    ensures Get(ts, Set(ts, v, x)) == if Appends(ts, v) then None else Some(x)
    decreases |ts|
  {
    if ts != [] {
      hide Prepare, Slot;
      var p := Prepare(v, ts[0]);
      var inner := Set(ts[1..], At(p.container, p.slot), x);
      if v.Array? && IsDash(ts[0]) {
        DashHasNoSlot(With(p.container, p.slot, inner), ts[0]) by { AppendedPlace(v, ts[0]); }
      } else {
        PlaceResolves(v, ts[0], inner);
        GetAfterSet(ts[1..], At(p.container, p.slot), x);
      }
    }
  }

  lemma AppendedPlace(v: Value, t: Token)
    requires v.Array? && IsDash(t)
    ensures Prepare(v, t).container.Array?
  {
  }

  lemma DashHasNoSlot(v: Value, t: Token)
    requires IsDash(t) && t.index == IndexOf(t.name) && v.Array?
    ensures Slot(v, t).None?
  {
    assert !IsNumeral("-") by { assert "-"[0] == '-'; }
  }

  /** `Create` leaves what was there at the place, or a null. */
  lemma {:induction false} CreateIsSet(ts: seq<Token>, v: Value)
    requires Parsed(ts)
    ensures Create(ts, v).tree == Set(ts, v, if Get(ts, v).Some? then Get(ts, v).value else Null)
    decreases |ts|
  {
    if ts != [] {
      hide Prepare, Slot;
      var p := Prepare(v, ts[0]);
      PlaceExists(v, ts[0]);
      CreateIsSet(ts[1..], At(p.container, p.slot));
      if !p.existed {
        NullHasNothing(ts[1..]);
      }
    }
  }

  /** After `Create`, the pointer resolves to what was there, or to a null, exactly if no token `-` met an array. */
  lemma CreateResolves(ts: seq<Token>, v: Value)
    requires Parsed(ts)
    ensures Get(ts, Create(ts, v).tree) ==
            if Appends(ts, v) then None else Some(if Get(ts, v).Some? then Get(ts, v).value else Null)
  {
    CreateIsSet(ts, v);
    GetAfterSet(ts, v, if Get(ts, v).Some? then Get(ts, v).value else Null);
  }

  /** The place that `Create` made is the one that is filled afterwards: nothing is made a second time. */
  lemma {:induction false} SetAfterCreate(ts: seq<Token>, v: Value, x: Value)
    requires Parsed(ts) && !Appends(ts, v)
    ensures Set(ts, Create(ts, v).tree, x) == Set(ts, v, x)
    decreases |ts|
  {
    if ts != [] {
      hide Prepare, Slot;
      var p := Prepare(v, ts[0]);
      var inner := Create(ts[1..], At(p.container, p.slot)).tree;
      var w := With(p.container, p.slot, inner);
      PlaceResolves(v, ts[0], inner);
      PlaceFound(w, ts[0]);
      SetAfterCreate(ts[1..], At(p.container, p.slot), x);
      WithTwice(p.container, p.slot, inner, Set(ts[1..], inner, x));
    }
  }

  lemma PlaceFound(v: Value, t: Token)
    requires t.index == IndexOf(t.name) && Slot(v, t).Some?
    ensures Prepare(v, t) == Place(v, Slot(v, t).value, true)
  {
    if v.Array? && IsDash(t) {
      DashHasNoSlot(v, t);
    }
  }

  lemma WithTwice(v: Value, k: nat, x: Value, y: Value)
    requires HasSlot(v, k)
    ensures With(With(v, k, x), k, y) == With(v, k, y)
  {
    if v.Object? {
      assert v.members[k := Member(v.members[k].name, x)][k := Member(v.members[k].name, y)]
          == v.members[k := Member(v.members[k].name, y)];
    } else {
      assert v.elements[k := x][k := y] == v.elements[k := y];
    }
  }

  lemma NullHasNothing(ts: seq<Token>)
    ensures Get(ts, Null).Some? <==> ts == []
  {
  }

  /** The token `-` appends to an array. */
  lemma CreateAppends(ts: seq<Token>, es: seq<Value>)
    requires ts != [] && IsDash(ts[0])
    ensures Create(ts, Array(es)) == Created(Array(es + [Create(ts[1..], Null).tree]), false)
  {
    var x := Create(ts[1..], Null).tree;
    assert (es + [Null])[|es| := x] == es + [x];
  }

  /** The pointers `p` and `q` part at a container that creating `p` keeps as what it is. */
  predicate Diverge(p: seq<Token>, q: seq<Token>, v: Value)
    decreases |p|
  {
    && p != [] && q != []
    && (v.Object? || (v.Array? && Prepare(v, p[0]).container.Array?))
    && var place := Prepare(v, p[0]);
       if Slot(place.container, q[0]) == Some(place.slot)
       then place.existed && Diverge(p[1..], q[1..], At(v, place.slot))
       else true
  }

  /** The token leads past the end of an array, but before the place that is made ready for `t`. */
  predicate InPadding(v: Value, t: Token, u: Token) {
    v.Array? && u.index != INVALID_INDEX && |v.elements| <= u.index < Prepare(v, t).slot
  }

  /** Where they part, `q` ends, in the padding of an array. */
  predicate EndsInPadding(p: seq<Token>, q: seq<Token>, v: Value)
    requires Diverge(p, q, v)
    decreases |p|
  {
    var place := Prepare(v, p[0]);
    if Slot(place.container, q[0]) == Some(place.slot) then EndsInPadding(p[1..], q[1..], At(v, place.slot))
    else |q| == 1 && InPadding(v, p[0], q[0])
  }

  lemma FindOther(ms: seq<Member>, m: Member, name: string)
    requires m.name != name
    ensures var a, b := FindMember(ms, name), FindMember(ms + [m], name);
            if a < |ms| then b == a else b == |ms| + 1
  {
    var now := ms + [m];
    var a := FindMember(ms, name);
    FirstIs(now, name, if a < |ms| then a else |ms| + 1);
  }

  /** A place that is made ready and filled leaves the container's other places as they were, but for the padding. */
  lemma OtherPlaces(v: Value, t: Token, u: Token, x: Value)
    requires t.index == IndexOf(t.name)
    requires v.Object? || (v.Array? && Prepare(v, t).container.Array?)
    requires Slot(Prepare(v, t).container, u) != Some(Prepare(v, t).slot)
    ensures var p := Prepare(v, t);
            var w := With(p.container, p.slot, x);
            if InPadding(v, t, u) then Slot(v, u).None? && Slot(w, u) == Some(u.index) && At(w, u.index) == Null
            else Slot(w, u) == Slot(v, u) && (Slot(v, u).Some? ==> At(w, Slot(v, u).value) == At(v, Slot(v, u).value))
  {
    var p := Prepare(v, t);
    if v.Object? {
      FindReplaced(p.container.members, p.slot, x, u.name);
      if !p.existed {
        if u.name == t.name {
          FindAppended(v.members, Member(t.name, Null));
        } else {
          FindOther(v.members, Member(t.name, Null), u.name);
        }
      }
    }
  }

  lemma SamePlace(v: Value, t: Token, u: Token, x: Value)
    requires t.index == IndexOf(t.name) && Prepare(v, t).existed && Slot(v, u) == Some(Prepare(v, t).slot)
    ensures var p := Prepare(v, t);
            var w := With(p.container, p.slot, x);
            Slot(w, u) == Some(p.slot) && At(w, p.slot) == x
  {
    PlaceExists(v, t);
    if v.Object? {
      FindReplaced(v.members, Prepare(v, t).slot, x, u.name);
    }
  }

  /**
   Creating at one pointer does not change what a pointer that parts from it
   resolves to, unless that one ends in the padding of an array, where it then
   finds a null.
   */
  lemma {:induction false} CreateKeeps(p: seq<Token>, q: seq<Token>, v: Value)
    requires Parsed(p) && Diverge(p, q, v)
    ensures Get(q, Create(p, v).tree) == Get(q, v) <==> !EndsInPadding(p, q, v)
    ensures EndsInPadding(p, q, v) ==> Get(q, v).None? && Get(q, Create(p, v).tree) == Some(Null)
    decreases |p|
  {
    hide Prepare, Slot, InPadding;
    var place := Prepare(v, p[0]);
    var inner := Create(p[1..], At(place.container, place.slot));
    PlaceExists(v, p[0]);
    if Slot(place.container, q[0]) == Some(place.slot) {
      CreateKeeps(p[1..], q[1..], At(v, place.slot));
      SamePlace(v, p[0], q[0], inner.tree);
    } else {
      OtherPlaces(v, p[0], q[0], inner.tree);
      NullHasNothing(q[1..]);
    }
  }

  /** In an array of one element, creating `/5` makes `/3` resolve. */
  lemma PaddingResolves()
    ensures var v, p, q := Array([Bool(true)]), [MakeToken("5")], [MakeToken("3")];
            Parsed(p) && Diverge(p, q, v) && Get(q, v).None? && Get(q, Create(p, v).tree) == Some(Null)
  {
    var v, p, q := Array([Bool(true)]), [MakeToken("5")], [MakeToken("3")];
    OneDigitIndex("5");
    OneDigitIndex("3");
    CreateKeeps(p, q, v);
  }

  lemma OneDigitIndex(name: string)
    requires |name| == 1 && AllDigits(name)
    ensures IndexOf(name) == Digit(name[0])
  {
    assert "" + [name[0]] == name;
    DecimalLast("", name[0]);
    NoDigits();
    NumeralIndex(name);
  }

  // ----- What a token makes -----

  /** Member `k` is the first one of that name. */
  predicate IsFirst(ms: seq<Member>, k: int, name: string) {
    0 <= k < |ms| && ms[k].name == name && forall j :: 0 <= j < k ==> ms[j].name != name
  }

  lemma FirstIsSlot(ms: seq<Member>, name: string)
    ensures var k := FindMember(ms, name);
            if k < |ms| then IsFirst(ms, k, name) else forall j :: 0 <= j < |ms| ==> ms[j].name != name
    ensures forall k :: IsFirst(ms, k, name) ==> FindMember(ms, name) == k
  {
    forall k | IsFirst(ms, k, name)
      ensures FindMember(ms, name) == k
    {
      FirstIs(ms, name, k);
    }
  }

  /** `Get` by one token: the first member of its name, or the element of its index; nothing in other values. */
  lemma GetFinds(t: Token, ts: seq<Token>, v: Value)
    ensures match v
            case Object(ms) =>
              && (forall k :: IsFirst(ms, k, t.name) ==> Get([t] + ts, v) == Get(ts, ms[k].value))
              && ((forall k :: 0 <= k < |ms| ==> ms[k].name != t.name) ==> Get([t] + ts, v).None?)
            case Array(es) =>
              Get([t] + ts, v) == if t.index != INVALID_INDEX && t.index < |es| then Get(ts, es[t.index]) else None
            case _ => Get([t] + ts, v).None?
  {
    assert ([t] + ts)[1..] == ts;
    if v.Object? {
      FirstIsSlot(v.members, t.name);
    }
  }

  /** An index in decimal finds the element that it counts. */
  lemma ElementByNumeral(name: string, ts: seq<Token>, es: seq<Value>)
    requires IsNumeral(name) && Decimal(name) < |es| && Decimal(name) < 0xFFFF_FFFF
    ensures Get([MakeToken(name)] + ts, Array(es)) == Get(ts, es[Decimal(name)])
  {
    hide IndexOf, Decimal;
    NumeralIndex(name);
    GetFinds(MakeToken(name), ts, Array(es));
  }

  /**
   `w` is `v` with the place that the token leads to, and what is there has become
   `inner` of what was there, or of a null if nothing was. An index makes an
   array, padded with nulls, and any other name an object, where there is no
   container that the token fits.
   */
  ghost predicate Made(v: Value, t: Token, w: Value, inner: Value -> Value) {
    if v.Array? && t.name == "-" then w == Array(v.elements + [inner(Null)])
    else if t.index != INVALID_INDEX && !v.Object? then
      var es := if v.Array? then v.elements else [];
      && w.Array? && |w.elements| == (if t.index < |es| then |es| else t.index + 1)
      && w.elements[t.index] == inner(if t.index < |es| then es[t.index] else Null)
      && forall k :: 0 <= k < |w.elements| && k != t.index ==> w.elements[k] == if k < |es| then es[k] else Null
    else
      w.Object? && MemberMade(if v.Object? then v.members else [], t.name, w.members, inner)
  }

  /** `inner` was applied to the first member of that name, or a member was added. */
  ghost predicate MemberMade(ms: seq<Member>, name: string, ws: seq<Member>, inner: Value -> Value) {
    if forall k :: 0 <= k < |ms| ==> ms[k].name != name then ws == ms + [Member(name, inner(Null))]
    else exists k :: IsFirst(ms, k, name) && ws == ms[k := Member(name, inner(ms[k].value))]
  }

  lemma PlaceMakes(v: Value, t: Token, inner: Value -> Value)
    requires t.index == IndexOf(t.name)
    ensures var p := Prepare(v, t); Made(v, t, With(p.container, p.slot, inner(At(p.container, p.slot))), inner)
  {
    hide IndexOf;
    if v.Array? && IsDash(t) {
      assert (v.elements + [Null])[|v.elements| := inner(Null)] == v.elements + [inner(Null)];
    } else if t.index == INVALID_INDEX || v.Object? {
      var ms := if v.Object? then v.members else [];
      var k := FindMember(ms, t.name);
      if k < |ms| {
        assert IsFirst(ms, k, t.name);
      } else {
        assert (ms + [Member(t.name, Null)])[k := Member(t.name, inner(Null))] == ms + [Member(t.name, inner(Null))];
      }
    }
  }

  /** What `Create` makes of any value by the first token, the rest being created in its place. */
  lemma CreateMakes(t: Token, ts: seq<Token>, v: Value)
    requires t.index == IndexOf(t.name)
    ensures Made(v, t, Create([t] + ts, v).tree, u => Create(ts, u).tree)
  {
    hide Prepare, Made;
    assert ([t] + ts)[1..] == ts;
    PlaceMakes(v, t, u => Create(ts, u).tree);
  }

  lemma SetMakes(t: Token, ts: seq<Token>, v: Value, x: Value)
    requires t.index == IndexOf(t.name)
    ensures Made(v, t, Set([t] + ts, v, x), u => Set(ts, u, x))
    ensures Create([], v).tree == v && Set([], v, x) == x
  {
    hide Prepare, Made;
    assert ([t] + ts)[1..] == ts;
    PlaceMakes(v, t, u => Set(ts, u, x));
  }

  /** Creating `/a/0` in an empty object makes an array. */
  lemma IndexMakesArray()
    ensures Create([MakeToken("a"), MakeToken("0")], Object([])).tree == Object([Member("a", Array([Null]))])
  {
    hide Create, IndexOf;
    var t, u := MakeToken("a"), MakeToken("0");
    IndexMakesFirst(u) by { OneDigitIndex("0"); }
    CreateMakes(t, [u], Object([]));
    assert [t] + [u] == [t, u] && [] + [Member("a", Array([Null]))] == [Member("a", Array([Null]))];
  }

  lemma IndexMakesFirst(u: Token)
    requires u.index == IndexOf(u.name) == 0
    ensures Create([u], Null).tree == Array([Null])
  {
    SetMakes(u, [], Null, Null);
    CreateMakes(u, [], Null);
    hide Create, IndexOf;
    assert [u] + [] == [u];
    var w := Create([u], Null).tree;
    assert |w.elements| == 1 && w.elements[0] == Null;
    assert w.elements == [Null];
  }

  // ----- Erase -----

  /** A container without one of its places; the ones after it move down. */
  function Without(v: Value, k: nat): Value
    requires HasSlot(v, k)
  {
    if v.Object? then Object(v.members[..k] + v.members[k + 1..]) else Array(v.elements[..k] + v.elements[k + 1..])
  }

  /** `Erase`: the tree without the value, or none if there is nothing to erase. */
  function Erase(ts: seq<Token>, v: Value): Option<Value>
    decreases |ts|
  {
    if ts == [] then None
    else
      var k := Slot(v, ts[0]);
      if k.None? then None
      else if |ts| == 1 then Some(Without(v, k.value))
      else
        var inner := Erase(ts[1..], At(v, k.value));
        if inner.None? then None else Some(With(v, k.value, inner.value))
  }

  /** `Erase` succeeds exactly for pointers that are not the root and that resolve. */
  lemma {:induction false} EraseSucceeds(ts: seq<Token>, v: Value)
    ensures Erase(ts, v).Some? <==> ts != [] && Get(ts, v).Some?
    decreases |ts|
  {
    if ts != [] && Slot(v, ts[0]).Some? {
      EraseSucceeds(ts[1..], At(v, Slot(v, ts[0]).value));
    }
  }

  lemma SlotReplaced(v: Value, t: Token, x: Value)
    requires Slot(v, t).Some?
    ensures var w := With(v, Slot(v, t).value, x);
            Slot(w, t) == Slot(v, t) && At(w, Slot(v, t).value) == x
  {
    if v.Object? {
      FindReplaced(v.members, Slot(v, t).value, x, t.name);
    }
  }

  /** `Erase` takes one place out of the container that holds the value. */
  lemma {:induction false} EraseTakesOne(ts: seq<Token>, v: Value)
    requires Erase(ts, v).Some?
    ensures var path, last := ts[..|ts| - 1], ts[|ts| - 1];
            var parent := Get(path, v);
            && parent.Some? && Slot(parent.value, last).Some?
            && Get(path, Erase(ts, v).value) == Some(Without(parent.value, Slot(parent.value, last).value))
    decreases |ts|
  {
    if |ts| > 1 {
      var k := Slot(v, ts[0]).value;
      EraseTakesOne(ts[1..], At(v, k));
      SlotReplaced(v, ts[0], Erase(ts[1..], At(v, k)).value);
      assert ts[1..][..|ts| - 2] == ts[..|ts| - 1][1..];
    }
  }

  /** After `Erase`, the next element is where the erased one was; a member is gone unless another one has its name. */
  lemma ErasedPlace(v: Value, t: Token)
    requires Slot(v, t).Some?
    ensures var k := Slot(v, t).value;
            var w := Without(v, k);
            match v
            case Array(es) => Slot(w, t) == (if k + 1 < |es| then Some(k) else None) && (k + 1 < |es| ==> At(w, k) == es[k + 1])
            case Object(ms) => Slot(w, t).None? <==> forall j :: k < j < |ms| ==> ms[j].name != t.name
            case _ => false
  {
    if v.Object? {
      ErasedMember(v.members, Slot(v, t).value, t.name);
    }
  }

  lemma ErasedMember(ms: seq<Member>, k: nat, name: string)
    requires k < |ms| && FindMember(ms, name) == k
    ensures var now := ms[..k] + ms[k + 1..];
            FindMember(now, name) == |now| <==> forall j :: k < j < |ms| ==> ms[j].name != name
  {
    hide FindMember;
    var now := ms[..k] + ms[k + 1..];
    var j := FindMember(now, name);
    assert forall i :: 0 <= i < |now| ==> now[i] == ms[if i < k then i else i + 1];
    forall i | k < i < |ms|
      ensures ms[i] == now[i - 1]
    {
    }
    if j < |now| {
      assert now[j] == ms[j + 1];
    }
  }

  /** The pointers lead to different places of some container. */
  predicate Part(p: seq<Token>, q: seq<Token>, v: Value)
    decreases |p|
  {
    && p != [] && q != [] && Slot(v, p[0]).Some?
    && (Slot(v, q[0]) == Slot(v, p[0]) ==> Part(p[1..], q[1..], At(v, Slot(v, p[0]).value)))
  }

  /** They part at the array that `p` erases from, `q` after `p`. */
  predicate MovesDown(p: seq<Token>, q: seq<Token>, v: Value)
    requires Part(p, q, v)
    decreases |p|
  {
    if Slot(v, q[0]) == Slot(v, p[0]) then MovesDown(p[1..], q[1..], At(v, Slot(v, p[0]).value))
    else |p| == 1 && v.Array? && q[0].index != INVALID_INDEX && q[0].index > p[0].index
  }

  /** What a pointer that parts from the erased one finds: what it found before, or the next element of the array. */
  lemma {:induction false} EraseKeeps(p: seq<Token>, q: seq<Token>, v: Value)
    requires Erase(p, v).Some? && Part(p, q, v)
    ensures var n := |p| - 1;
            var now := Get(q, Erase(p, v).value);
            if MovesDown(p, q, v) then
              && Get(p[..n], v).Some? && Get(p[..n], v).value.Array? && n < |q|
              && var es := Get(p[..n], v).value.elements;
                 now == if q[n].index + 1 < |es| then Get(q[n + 1..], es[q[n].index + 1]) else None
            else now == Get(q, v)
    decreases |p|
  {
    hide Slot;
    var k := Slot(v, p[0]).value;
    SlotIsPlace(v, p[0]);
    if |p| == 1 {
      OtherErased(v, p[0], q[0]);
      assert p[..0] == [];
    } else {
      var inner := Erase(p[1..], At(v, k)).value;
      if Slot(v, q[0]) == Slot(v, p[0]) {
        EraseKeeps(p[1..], q[1..], At(v, k));
        SlotReplaced(v, q[0], inner);
        var n := |p| - 1;
        assert p[1..][..n - 1] == p[..n][1..];
        if MovesDown(p, q, v) {
          assert q[1..][n..] == q[n + 1..];
        }
      } else {
        OtherReplaced(v, k, q[0], inner);
      }
    }
  }

  lemma SlotIsPlace(v: Value, t: Token)
    requires Slot(v, t).Some?
    ensures HasSlot(v, Slot(v, t).value)
  {
  }

  lemma OtherReplaced(v: Value, k: nat, u: Token, x: Value)
    requires HasSlot(v, k) && Slot(v, u) != Some(k)
    ensures var w := With(v, k, x);
            Slot(w, u) == Slot(v, u) && (Slot(v, u).Some? ==> At(w, Slot(v, u).value) == At(v, Slot(v, u).value))
  {
    if v.Object? {
      FindReplaced(v.members, k, x, u.name);
    }
  }

  /** What the other tokens lead to once a place is gone. */
  lemma OtherErased(v: Value, t: Token, u: Token)
    requires Slot(v, t).Some? && Slot(v, u) != Slot(v, t)
    ensures var w := Without(v, Slot(v, t).value);
            if v.Array? && u.index != INVALID_INDEX && u.index > t.index then
              if u.index + 1 < |v.elements| then Slot(w, u) == Some(u.index) && At(w, u.index) == v.elements[u.index + 1]
              else Slot(w, u).None?
            else Slot(w, u).Some? == Slot(v, u).Some?
                 && (Slot(v, u).Some? ==> At(w, Slot(w, u).value) == At(v, Slot(v, u).value))
  {
    if v.Object? {
      MemberErased(v.members, Slot(v, t).value, u.name);
    }
  }

  lemma MemberErased(ms: seq<Member>, k: nat, name: string)
    requires k < |ms| && FindMember(ms, name) != k
    ensures var a, now := FindMember(ms, name), ms[..k] + ms[k + 1..];
            FindMember(now, name) == if a < k then a else a - 1
    ensures FindMember(ms, name) < |ms| ==>
              (ms[..k] + ms[k + 1..])[if FindMember(ms, name) < k then FindMember(ms, name) else FindMember(ms, name) - 1]
              == ms[FindMember(ms, name)]
  {
    hide FindMember;
    var a, now := FindMember(ms, name), ms[..k] + ms[k + 1..];
    assert forall i :: 0 <= i < |now| ==> now[i] == ms[if i < k then i else i + 1];
    FirstIs(now, name, if a < k then a else a - 1);
  }
}
