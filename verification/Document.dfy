/**
 Documents: how an integer is stored, and how the handler of a document builds a
 tree from events.
 */
module Documents {
  import opened Json
  import opened Arithmetic
  import opened Reader
  import opened PrettyWriters
  import opened PrintParse
  import R = Reader
  import GenericReaders

  // ----- Stored integers -----

  const WORD := 0x1_0000_0000_0000_0000

  type Word = n: int | 0 <= n < 0x1_0000_0000_0000_0000

  datatype NumberFlag = IntFlag | UintFlag | Int64Flag | Uint64Flag

  /** The 64-bit payload of an integer value and its type flags. */
  datatype NumberData = NumberData(bits: Word, flags: set<NumberFlag>)

  /** Bitwise and. */
  function And(x: nat, y: nat): nat {
    if x == 0 || y == 0 then 0 else 2 * And(x / 2, y / 2) + x % 2 * (y % 2)
  }

  function FromInt(i: int): NumberData
    requires FitsInt(i)
  {
    NumberData(i % WORD, if i >= 0 then {IntFlag, Int64Flag, UintFlag, Uint64Flag} else {IntFlag, Int64Flag})
  }

  function FromUint(u: int): NumberData
    requires FitsUint(u)
  {
    NumberData(u, if And(u, 0x8000_0000) != 0 then {UintFlag, Uint64Flag, Int64Flag}
                  else {UintFlag, Uint64Flag, Int64Flag, IntFlag})
  }

  function FromInt64(i64: int): NumberData
    requires FitsInt64(i64)
  {
    var u := i64 % WORD;
    NumberData(u,
               {Int64Flag} +
               if i64 >= 0 then
                 {Uint64Flag}
                 + (if And(u, 0xFFFF_FFFF_0000_0000) == 0 then {UintFlag} else {})
                 + (if And(u, 0xFFFF_FFFF_8000_0000) == 0 then {IntFlag} else {})
               else if i64 >= 0xFFFF_FFFF_8000_0000 - WORD then {IntFlag}
               else {})
  }

  function FromUint64(u64: Word): NumberData {
    NumberData(u64,
               {Uint64Flag}
               + (if And(u64, 0x8000_0000_0000_0000) == 0 then {Int64Flag} else {})
               + (if And(u64, 0xFFFF_FFFF_0000_0000) == 0 then {UintFlag} else {})
               + (if And(u64, 0xFFFF_FFFF_8000_0000) == 0 then {IntFlag} else {}))
  }

  /** The widths that hold a number. */
  function FlagsOf(n: Integer): set<NumberFlag> {
    (if FitsInt(n) then {IntFlag} else {}) + (if FitsUint(n) then {UintFlag} else {})
    + (if FitsInt64(n) then {Int64Flag} else {}) + (if n >= 0 then {Uint64Flag} else {})
  }

  /** How a number is stored, whichever constructor built it. */
  function Stored(n: Integer): NumberData {
    NumberData(n % WORD, FlagsOf(n))
  }

  function Signed(bits: nat, width: nat): int {
    if bits < width / 2 then bits else bits - width
  }

  /** The number branch of `Accept`: the first flag found decides which field is read. */
  function AcceptNumber(d: NumberData): Event {
    if IntFlag in d.flags then IntEvent(Signed(d.bits % 0x1_0000_0000, 0x1_0000_0000))
    else if UintFlag in d.flags then UintEvent(d.bits % 0x1_0000_0000)
    else if Int64Flag in d.flags then Int64Event(Signed(d.bits, WORD))
    else Uint64Event(d.bits)
  }

  lemma {:induction false} AndShift(x: nat, y: nat, k: nat)
    ensures And(x, y * Pow(2, k)) == And(x / Pow(2, k), y) * Pow(2, k)
    decreases k
  {
    hide And;
    if k > 0 {
      AndShift(x / 2, y, k - 1);
      hide Pow;
      PowStep(k);
      var p, d := Pow(2, k - 1), Pow(2, k);
      Halve(x, p, d);
      DoubleProduct(y, p, d);
      DoubleProduct(And(x / d, y), p, d);
      AndEven(x, y * p);
    } else {
      assert Pow(2, 0) == 1;
    }
  }

  lemma PowStep(k: nat)
    requires k > 0
    ensures Pow(2, k) == 2 * Pow(2, k - 1)
  {
  }

  lemma AndEven(x: nat, y: nat)
    ensures And(x, 2 * y) == 2 * And(x / 2, y)
  {
    if x > 0 && y > 0 {
      EvenParts(y);
      assert And(x, 2 * y) == 2 * And(x / 2, y) + x % 2 * 0;
    }
  }

  lemma EvenParts(y: nat)
    ensures (2 * y) / 2 == y && (2 * y) % 2 == 0
  {
  }

  lemma DoubleProduct(y: nat, p: nat, d: nat)
    requires d == 2 * p
    ensures y * d == 2 * (y * p)
  {
  }

  lemma Halve(x: nat, p: nat, d: nat)
    requires p > 0 && d == 2 * p
    ensures x / 2 / p == x / d
  {
    var h := x / 2;
    var q, r := h / p, h % p;
    assert h == q * p + r;
    DoubleProduct(q, p, d);
    DividedBy(x, q, d, 2 * r + x % 2);
  }

  lemma DividedBy(n: nat, a: nat, m: nat, r: nat)
    requires n == a * m + r && r < m
    ensures n / m == a
  {
    var q := n / m;
    assert n == q * m + n % m;
    ProductDifference(q, a, m);
    if q > a {
      Multiply(1, q - a, m);
    } else if q < a {
      Multiply(1, a - q, m);
      ProductDifference(a, q, m);
    }
  }

  lemma ProductDifference(q: int, a: int, m: int)
    ensures (q - a) * m == q * m - a * m
  {
  }

  lemma AndOdd(x: nat, y: nat)
    ensures And(x, 2 * y + 1) == 2 * And(x / 2, y) + x % 2
  {
    if x > 0 {
      OddParts(y);
      assert And(x, 2 * y + 1) == 2 * And(x / 2, y) + x % 2 * 1;
    }
  }

  lemma OddParts(y: nat)
    ensures (2 * y + 1) / 2 == y && (2 * y + 1) % 2 == 1
  {
  }

  lemma OnesStep(x: nat, q: nat, d: nat)
    requires q > 0 && d == 2 * q && And(x / 2, q - 1) == x / 2 % q
    ensures And(x, d - 1) == x % d
  {
    hide And;
    AndOdd(x, q - 1);
    Remainder(x, q, d);
  }

  lemma {:induction false} AndOnes(x: nat, k: nat)
    ensures And(x, Pow(2, k) - 1) == x % Pow(2, k)
    decreases k
  {
    hide *;
    if k == 0 {
      AndNone(x);
    } else {
      AndOnes(x / 2, k - 1);
      PowStep(k);
      OnesStep(x, Pow(2, k - 1), Pow(2, k));
    }
  }

  lemma AndNone(x: nat)
    ensures And(x, Pow(2, 0) - 1) == x % Pow(2, 0)
  {
    assert Pow(2, 0) == 1;
  }

  lemma Remainder(x: nat, q: nat, d: nat)
    requires q > 0 && d == 2 * q
    ensures x % d == 2 * (x / 2 % q) + x % 2
  {
    var h := x / 2;
    var a, r := h / q, h % q;
    assert h == a * q + r;
    DoubleProduct(a, q, d);
    DividedBy(x, a, d, 2 * r + x % 2);
  }

  /** A mask of ones from bit `low` up to bit `low + ones` finds nothing exactly when the number is below it. */
  lemma MaskFinds(x: nat, low: nat, ones: nat)
    requires x < Pow(2, low + ones)
    ensures And(x, (Pow(2, ones) - 1) * Pow(2, low)) == 0 <==> x < Pow(2, low)
  {
    hide And, Pow;
    var p, q := Pow(2, low), Pow(2, ones);
    PowAdd(2, low, ones);
    AndShift(x, q - 1, low);
    AndOnes(x / p, ones);
    var h := x / p;
    assert x == h * p + x % p;
    if h >= q {
      Multiply(q, h, p);
    }
    Small(h, q);
    if h > 0 {
      Multiply(1, h, p);
    }
  }

  lemma Small(h: nat, q: nat)
    requires h < q
    ensures h % q == h
  {
  }

  lemma Powers()
    ensures Pow(2, 1) == 2 && Pow(2, 31) == 0x8000_0000 && Pow(2, 32) == 0x1_0000_0000 && Pow(2, 33) == 0x2_0000_0000
    ensures Pow(2, 63) == 0x8000_0000_0000_0000 && Pow(2, 64) == WORD
  {
    hide Pow;
    PowOne(2);
    PowAdd(2, 1, 1);
    PowAdd(2, 2, 2);
    PowAdd(2, 4, 4);
    PowAdd(2, 8, 8);
    PowAdd(2, 16, 8);
    PowAdd(2, 24, 4);
    PowAdd(2, 28, 2);
    PowAdd(2, 30, 1);
    PowAdd(2, 31, 1);
    PowAdd(2, 32, 1);
    PowAdd(2, 31, 32);
    PowAdd(2, 63, 1);
  }

  lemma Masks(u: Word)
    ensures And(u, 0xFFFF_FFFF_0000_0000) == 0 <==> u < 0x1_0000_0000
    ensures And(u, 0xFFFF_FFFF_8000_0000) == 0 <==> u < 0x8000_0000
    ensures And(u, 0x8000_0000_0000_0000) == 0 <==> u < 0x8000_0000_0000_0000
    ensures u < 0x1_0000_0000 ==> (And(u, 0x8000_0000) == 0 <==> u < 0x8000_0000)
  {
    hide And, Pow;
    Powers();
    MaskFinds(u, 32, 32);
    MaskFinds(u, 31, 33);
    MaskFinds(u, 63, 1);
    if u < 0x1_0000_0000 {
      MaskFinds(u, 31, 1);
    }
  }

  /** The payload and the flags of an integer depend on its value only, not on the constructor. */
  lemma StoredByValue(n: Integer)
    ensures FitsInt(n) ==> FromInt(n) == Stored(n)
    ensures FitsUint(n) ==> FromUint(n) == Stored(n)
    ensures FitsInt64(n) ==> FromInt64(n) == Stored(n)
    ensures n >= 0 ==> FromUint64(n) == Stored(n)
  {
    hide And;
    if n >= 0 {
      Masks(n);
    }
  }

  /** What a stored integer sends to a handler is its value, as the narrowest type that holds it. */
  lemma StoredAccepts(n: Integer)
    ensures AcceptNumber(Stored(n)) == NumberEvent(n)
  {
  }

  // ----- The handler of a document -----

  /** Names and values in turn, as the stack holds an object's members. */
  function Members(vs: seq<Value>): Option<seq<Member>>
    decreases |vs|
  {
    if vs == [] then Some([])
    else if |vs| == 1 || !vs[0].String? then None
    else
      var rest := Members(vs[2..]);
      if rest.None? then None else Some([Member(vs[0].s, vs[1])] + rest.value)
  }

  /** The integer events carry a value of their type. */
  predicate WellTyped(e: Event) {
    match e
    case IntEvent(n) => FitsInt(n)
    case UintEvent(n) => FitsUint(n)
    case Int64Event(n) => FitsInt64(n)
    case Uint64Event(n) => 0 <= n < WORD
    case _ => true
  }

  /** One handler call on the stack of values; none if the stack is too small or a name is not a string. */
  function Handled(stack: seq<Value>, e: Event): Option<seq<Value>> {
    if !WellTyped(e) then None
    else
      match e
      case NullEvent => Some(stack + [Null])
      case BoolEvent(b) => Some(stack + [Bool(b)])
      case IntEvent(n) => Some(stack + [Number(n)])
      case UintEvent(n) => Some(stack + [Number(n)])
      case Int64Event(n) => Some(stack + [Number(n)])
      case Uint64Event(n) => Some(stack + [Number(n)])
      case DoubleEvent(d) => Some(stack + [Double(d)])
      case StringEvent(s) => Some(stack + [String(s)])
      case Key(s) => Some(stack + [String(s)])
      case StartObject => Some(stack + [Object([])])
      case StartArray => Some(stack + [Array([])])
      case EndObject(count) =>
        var base := |stack| - 2 * count;
        if base < 1 || Members(stack[base..]).None? then None
        else Some(stack[..base - 1] + [Object(Members(stack[base..]).value)])
      case EndArray(count) =>
        var base := |stack| - count;
        if base < 1 then None else Some(stack[..base - 1] + [Array(stack[base..])])
  }

  function Build(stack: seq<Value>, es: seq<Event>): Option<seq<Value>>
    decreases |es|
  {
    if es == [] then Some(stack)
    else
      var next := Handled(stack, es[0]);
      if next.None? then None else Build(next.value, es[1..])
  }

  lemma {:induction false} BuildConcat(stack: seq<Value>, a: seq<Event>, b: seq<Event>)
    ensures Build(stack, a + b) ==
            var mid := Build(stack, a); if mid.None? then None else Build(mid.value, b)
    decreases |a|
  {
    if a == [] {
      assert a + b == b;
    } else {
      assert (a + b)[0] == a[0] && (a + b)[1..] == a[1..] + b;
      var next := Handled(stack, a[0]);
      if next.Some? {
        BuildConcat(next.value, a[1..], b);
      }
    }
  }

  lemma BuildNext(stack: seq<Value>, es: seq<Event>, i: nat)
    requires i < |es|
    ensures Build(stack, es[i..]) ==
            var next := Handled(stack, es[i]); if next.None? then None else Build(next.value, es[i + 1..])
  {
    assert es[i..][1..] == es[i + 1..];
  }

  lemma BuildOne(stack: seq<Value>, e: Event)
    ensures Build(stack, [e]) == Handled(stack, e)
  {
    assert [e][1..] == [];
    if Handled(stack, e).Some? {
      assert Build(Handled(stack, e).value, []) == Handled(stack, e);
    }
  }

  /** An object's members as they lie on the stack. */
  function Flattened(ms: seq<Member>): (r: seq<Value>)
    ensures |r| == 2 * |ms|
  {
    if ms == [] then [] else [String(ms[0].name), ms[0].value] + Flattened(ms[1..])
  }

  lemma {:induction false} MembersFlattened(ms: seq<Member>)
    ensures Members(Flattened(ms)) == Some(ms)
  {
    if ms != [] {
      MembersFlattened(ms[1..]);
      assert Flattened(ms)[2..] == Flattened(ms[1..]);
      assert [ms[0]] + ms[1..] == ms;
    }
  }

  /**
   Replaying the events of any tree on top of any stack pushes that tree and
   nothing else.
   */
  lemma {:induction false} Replay(v: Value, stack: seq<Value>)
    ensures Build(stack, Accept(v)) == Some(stack + [v])
    decreases v, 1
  {
    hide Build, AcceptElements, AcceptMembers;
    match v
    case Array(es) =>
      BuildConcat(stack, [StartArray] + AcceptElements(es), [EndArray(|es|)]);
      BuildConcat(stack, [StartArray], AcceptElements(es));
      BuildOne(stack, StartArray);
      ReplayElements(es, stack + [Array([])]);
      var full := stack + [Array([])] + es;
      BuildOne(full, EndArray(|es|));
      assert full[|stack| + 1..] == es && full[..|stack|] == stack;
    case Object(ms) =>
      BuildConcat(stack, [StartObject] + AcceptMembers(ms), [EndObject(|ms|)]);
      BuildConcat(stack, [StartObject], AcceptMembers(ms));
      BuildOne(stack, StartObject);
      ReplayMembers(ms, stack + [Object([])]);
      var full := stack + [Object([])] + Flattened(ms);
      BuildOne(full, EndObject(|ms|));
      MembersFlattened(ms);
      assert full[|stack| + 1..] == Flattened(ms) && full[..|stack|] == stack;
    case _ => BuildOne(stack, Accept(v)[0]);
  }

  lemma {:induction false} ReplayElements(es: seq<Value>, stack: seq<Value>)
    ensures Build(stack, AcceptElements(es)) == Some(stack + es)
    decreases es, 0
  {
    hide Build, Handled;
    if es == [] {
      NothingBuilt(stack);
      assert stack + es == stack;
    } else {
      hide Accept;
      Replay(es[0], stack);
      BuildConcat(stack, Accept(es[0]), AcceptElements(es[1..]));
      ReplayElements(es[1..], stack + [es[0]]);
      assert stack + [es[0]] + es[1..] == stack + es;
    }
  }

  lemma NothingBuilt(stack: seq<Value>)
    ensures Build(stack, []) == Some(stack)
  {
  }

  lemma {:induction false} ReplayMembers(ms: seq<Member>, stack: seq<Value>)
    ensures Build(stack, AcceptMembers(ms)) == Some(stack + Flattened(ms))
    decreases ms, 0
  {
    hide *;
    if ms == [] {
      NoMembersBuilt(stack);
    } else {
      MembersFirstBuilt(ms);
      var named := stack + [String(ms[0].name)];
      KeyBuilt(stack, ms[0].name);
      Replay(ms[0].value, named);
      BuildConcat(stack, [Key(ms[0].name)] + Accept(ms[0].value), AcceptMembers(ms[1..]));
      BuildConcat(stack, [Key(ms[0].name)], Accept(ms[0].value));
      ReplayMembers(ms[1..], named + [ms[0].value]);
      assert named + [ms[0].value] + Flattened(ms[1..]) == stack + Flattened(ms);
    }
  }

  lemma NoMembersBuilt(stack: seq<Value>)
    ensures Build(stack, AcceptMembers([])) == Some(stack + Flattened([]))
  {
    assert stack + [] == stack;
  }

  lemma MembersFirstBuilt(ms: seq<Member>)
    requires ms != []
    ensures AcceptMembers(ms) == [Key(ms[0].name)] + Accept(ms[0].value) + AcceptMembers(ms[1..])
    ensures Flattened(ms) == [String(ms[0].name), ms[0].value] + Flattened(ms[1..])
  {
  }

  lemma KeyBuilt(stack: seq<Value>, name: string)
    ensures Build(stack, [Key(name)]) == Some(stack + [String(name)])
  {
    BuildOne(stack, Key(name));
  }

  /** The document does not see which integer type an event has. */
  lemma {:induction false} BuildReread(stack: seq<Value>, es: seq<Event>)
    requires forall k :: 0 <= k < |es| ==> WellTyped(es[k])
    ensures Build(stack, Rereads(es)) == Build(stack, es)
    decreases |es|
  {
    hide Members;
    if es != [] {
      assert Rereads(es)[1..] == Rereads(es[1..]);
      assert Handled(stack, Reread(es[0])) == Handled(stack, es[0]);
      var next := Handled(stack, es[0]);
      if next.Some? {
        BuildReread(next.value, es[1..]);
      }
    }
  }

  lemma {:induction false} BuildWellTyped(stack: seq<Value>, es: seq<Event>)
    requires Build(stack, es).Some?
    ensures forall k :: 0 <= k < |es| ==> WellTyped(es[k])
    decreases |es|
  {
    if es != [] {
      BuildWellTyped(Handled(stack, es[0]).value, es[1..]);
      assert forall k :: 1 <= k < |es| ==> es[k] == es[1..][k - 1];
    }
  }

  /** A tree printed and parsed is built again as it was. */
  lemma PrintedBuildsBack(v: Value, f: Format, opt: Options)
    requires ValidFormat(f) && Printable(v, opt)
    ensures var p := Parse(Text(v, 0, f), opt);
            p.error.None? && Build([], p.events) == Some([v])
  {
    hide Build, Parse, Text, Accept;
    PrintedParses(v, f, opt);
    Replay(v, []);
    BuildWellTyped([], Accept(v));
    BuildReread([], Accept(v));
    assert [] + [v] == [v];
  }

  // ----- Events up to the types of integers -----

  /** The events `es` carry numbers of their types, and are `inner` but for those types. */
  ghost predicate EventsOf(es: seq<Event>, inner: seq<Event>) {
    && (forall k :: 0 <= k < |es| ==> WellTyped(es[k]))
    && Rereads(es) == Rereads(inner)
  }

  lemma EventsConcat(a: seq<Event>, x: seq<Event>, b: seq<Event>, y: seq<Event>)
    requires EventsOf(a, x) && EventsOf(b, y)
    ensures EventsOf(a + b, x + y)
  {
    RereadsConcat(a, b);
    RereadsConcat(x, y);
  }

  lemma {:induction false} BuildSame(stack: seq<Value>, a: seq<Event>, b: seq<Event>)
    requires EventsOf(a, b)
    requires forall k :: 0 <= k < |b| ==> WellTyped(b[k])
    ensures Build(stack, a) == Build(stack, b)
    decreases |a|
  {
    hide Members;
    assert |Rereads(a)| == |a| && |Rereads(b)| == |b|;
    if a != [] {
      assert Reread(a[0]) == Rereads(a)[0] == Rereads(b)[0] == Reread(b[0]);
      assert Rereads(a)[1..] == Rereads(a[1..]) && Rereads(b)[1..] == Rereads(b[1..]);
      var next := Handled(stack, b[0]);
      assert Handled(stack, a[0]) == next;
      if next.Some? {
        BuildSame(next.value, a[1..], b[1..]);
      }
    }
  }

  // ----- The class -----

  class GenericDocument {
    /** Values under construction; a member is its name and its value. */
    var stack: seq<Value>
    /** The document's own value. */
    var root: Value

    constructor ()
      ensures stack == [] && root == Null
    {
      stack, root := [], Null;
    }

    method Push(v: Value)
      modifies this`stack
      ensures stack == old(stack) + [v]
    {
      stack := stack + [v];
    }

    method Pop(count: nat) returns (vs: seq<Value>)
      requires count <= |stack|
      modifies this`stack
      ensures stack == old(stack)[..|old(stack)| - count] && vs == old(stack)[|old(stack)| - count..]
    {
      var base := |stack| - count;
      vs := stack[base..];
      stack := stack[..base];
    }

    method EndObject(memberCount: nat)
      requires Handled(stack, Event.EndObject(memberCount)).Some?
      modifies this`stack
      ensures Some(stack) == Handled(old(stack), Event.EndObject(memberCount))
    {
      var values := Pop(2 * memberCount);
      var top := |stack| - 1;
      assert stack[..top] == old(stack)[..top];
      stack := stack[..top] + [Object(Members(values).value)];
    }

    method EndArray(elementCount: nat)
      requires Handled(stack, Event.EndArray(elementCount)).Some?
      modifies this`stack
      ensures Some(stack) == Handled(old(stack), Event.EndArray(elementCount))
    {
      var elements := Pop(elementCount);
      var top := |stack| - 1;
      assert stack[..top] == old(stack)[..top];
      stack := stack[..top] + [Array(elements)];
    }

    /** One handler call. */
    method Handle(e: Event)
      requires Handled(stack, e).Some?
      modifies this`stack
      ensures Some(stack) == Handled(old(stack), e)
    {
      hide Members;
      match e
      case NullEvent => Push(Null);
      case BoolEvent(b) => Push(Bool(b));
      case IntEvent(n) => Push(Number(n));
      case UintEvent(n) => Push(Number(n));
      case Int64Event(n) => Push(Number(n));
      case Uint64Event(n) => Push(Number(n));
      case DoubleEvent(d) => Push(Double(d));
      case StringEvent(s) => Push(String(s));
      case Key(s) => Push(String(s));
      case StartObject => Push(Object([]));
      case StartArray => Push(Array([]));
      case EndObject(count) => EndObject(count);
      case EndArray(count) => EndArray(count);
    }

    /** `Populate` with a generator that sends these events: the one value built becomes the document. */
    method Populate(es: seq<Event>)
      requires stack == [] && Build([], es).Some? && |Build([], es).value| == 1
      modifies this
      ensures Build([], es) == Some([root]) && stack == []
    {
      hide Handled, Build;
      ghost var built := Build([], es);
      var i := 0;
      assert es[0..] == es;
      while i < |es|
        invariant 0 <= i <= |es| && Build(stack, es[i..]) == built
      {
        BuildNext(stack, es, i);
        Handle(es[i]);
        i := i + 1;
      }
      assert es[|es|..] == [];
      NothingBuilt(stack);
      var values := Pop(1);
      root := values[0];
      assert built.value == [root];
    }
  }

  /** Printing a tree, parsing the text and building a document from the calls gives the tree back. */
  method PrintAndParse(v: Value, f: Format, opt: Options) returns (text: string, back: Value)
    requires ValidFormat(f) && Printable(v, opt)
    ensures back == v && text == Text(v, 0, f)
  {
    hide Build, R.Parse, Text;
    ghost var pieces;
    text, pieces := Print(v, f);
    var reader := new GenericReaders.GenericReader(text, opt);
    reader.Parse();
    PrintedBuildsBack(v, f, opt);
    assert [] + R.Parse(text, opt).events == R.Parse(text, opt).events;
    var document := new GenericDocument();
    document.Populate(reader.events);
    back := document.root;
  }
}
