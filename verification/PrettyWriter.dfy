/**
 The pretty printer: what one handler call appends to the output, the text that
 a whole tree becomes, and the writer that does it in place.
 */
module PrettyWriters {
  import opened Json
  import opened Reader
  import opened Texts

  /** The settings: the indentation character must be a blank. */
  datatype Format = Format(indentChar: char, indentCharCount: nat, singleLineArray: bool)

  predicate ValidFormat(f: Format) { IsSpace(f.indentChar) }

  datatype Level = Level(inArray: bool, valueCount: nat)

  // ----- Tokens -----

  /** What `WriteString` writes for one character. */
  function Escape(c: char): (r: string)
    ensures |r| > 0
  {
    if c == '"' || c == '\\' then ['\\', c]
    else if c == 8 as char then "\\b"
    else if c == '\t' then "\\t"
    else if c == '\n' then "\\n"
    else if c == 12 as char then "\\f"
    else if c == '\r' then "\\r"
    else if c < ' ' then ['\\', 'u', '0', '0', HexDigit(c as int / 16), HexDigit(c as int % 16)]
    else [c]
  }

  function Escaped(s: string): string {
    if s == "" then "" else Escape(s[0]) + Escaped(s[1..])
  }

  function Quoted(s: string): string {
    "\"" + Escaped(s) + "\""
  }

  function Digits(n: nat): string {
    if n < 10 then ['0' + n as char] else Digits(n / 10) + ['0' + (n % 10) as char]
  }

  function IntegerText(n: int): string {
    if n < 0 then "-" + Digits(-n) else Digits(n)
  }

  // ----- The text of a tree -----

  function Indent(depth: nat, f: Format): string {
    seq(depth * f.indentCharCount, _ => f.indentChar)
  }

  function NewLine(depth: nat, f: Format): string {
    "\n" + Indent(depth, f)
  }

  /** What comes before element number `k` of an array. */
  function ElementPrefix(k: nat, depth: nat, f: Format): string {
    (if k == 0 then "" else if f.singleLineArray then ", " else ",") + (if f.singleLineArray then "" else NewLine(depth, f))
  }

  /** What comes before the name of member number `k` of an object. */
  function MemberPrefix(k: nat, depth: nat, f: Format): string {
    (if k == 0 then "" else ",") + NewLine(depth, f)
  }

  function Text(v: Value, depth: nat, f: Format): string
    decreases v, 0
  {
    match v
    case Null => "null"
    case Bool(b) => if b then "true" else "false"
    case Number(n) => IntegerText(n)
    case Double(d) => d
    case String(s) => Quoted(s)
    case Array(es) =>
      "[" + ElementsText(es, 0, depth + 1, f) + (if es == [] || f.singleLineArray then "" else NewLine(depth, f)) + "]"
    case Object(ms) =>
      "{" + MembersText(ms, 0, depth + 1, f) + (if ms == [] then "" else NewLine(depth, f)) + "}"
  }

  function ElementsText(es: seq<Value>, k: nat, depth: nat, f: Format): string
    decreases es, 0
  {
    if es == [] then "" else ElementText(es[0], k, depth, f) + ElementsText(es[1..], k + 1, depth, f)
  }

  function ElementText(e: Value, k: nat, depth: nat, f: Format): string
    decreases e, 1
  {
    ElementPrefix(k, depth, f) + Text(e, depth, f)
  }

  function MemberText(m: Member, k: nat, depth: nat, f: Format): string
    decreases m, 0
  {
    MemberPrefix(k, depth, f) + Quoted(m.name) + ": " + Text(m.value, depth, f)
  }

  function MembersText(ms: seq<Member>, k: nat, depth: nat, f: Format): string
    decreases ms, 0
  {
    if ms == [] then "" else MemberText(ms[0], k, depth, f) + MembersText(ms[1..], k + 1, depth, f)
  }

  // ----- One handler call -----

  /** The writer's state: the output, the open containers, and whether the root has begun. */
  datatype Printer = Printer(os: string, levels: seq<Level>, hasRoot: bool)

  function Put(p: Printer, t: string): Printer {
    p.(os := p.os + t)
  }

  function Top(p: Printer): Level
    requires p.levels != []
  {
    p.levels[|p.levels| - 1]
  }

  /** The assertions of `PrettyPrefix`: one root only, and a name where an object expects one. */
  predicate MayBegin(p: Printer, isString: bool) {
    if p.levels == [] then !p.hasRoot
    else Top(p).inArray || Top(p).valueCount % 2 == 1 || isString
  }

  /** The separator and the indentation before a value or a name. */
  function Prefix(p: Printer, f: Format): string {
    if p.levels == [] then ""
    else
      var n := Top(p).valueCount;
      if Top(p).inArray then ElementPrefix(n, |p.levels|, f)
      else if n % 2 == 0 then MemberPrefix(n, |p.levels|, f)
      else ": "
  }

  /** `PrettyPrefix`. */
  function Begin(p: Printer, f: Format): Printer {
    if p.levels == [] then p.(hasRoot := true)
    else
      var n := |p.levels| - 1;
      Put(p, Prefix(p, f)).(levels := p.levels[..n] + [Level(Top(p).inArray, Top(p).valueCount + 1)])
  }

  function Token(p: Printer, isString: bool, t: string, f: Format): Option<Printer> {
    if MayBegin(p, isString) then Some(Put(Begin(p, f), t)) else None
  }

  function Open(p: Printer, inArray: bool, f: Format): Option<Printer> {
    if MayBegin(p, false) then
      var q := Put(Begin(p, f), if inArray then "[" else "{");
      Some(q.(levels := q.levels + [Level(inArray, 0)]))
    else None
  }

  function Close(p: Printer, inArray: bool, f: Format): Option<Printer> {
    if p.levels == [] || Top(p).inArray != inArray || (!inArray && Top(p).valueCount % 2 == 1) then None
    else
      var n := |p.levels| - 1;
      var line := if Top(p).valueCount == 0 || (inArray && f.singleLineArray) then "" else NewLine(n, f);
      Some(Put(p, line + if inArray then "]" else "}").(levels := p.levels[..n]))
  }

  /** One handler call; none if one of its assertions fails. */
  function Write(p: Printer, e: Event, f: Format): Option<Printer> {
    match e
    case NullEvent => Token(p, false, "null", f)
    case BoolEvent(b) => Token(p, false, if b then "true" else "false", f)
    case IntEvent(n) => Token(p, false, IntegerText(n), f)
    case UintEvent(n) => Token(p, false, IntegerText(n), f)
    case Int64Event(n) => Token(p, false, IntegerText(n), f)
    case Uint64Event(n) => Token(p, false, IntegerText(n), f)
    case DoubleEvent(d) => Token(p, false, d, f)
    case StringEvent(s) => Token(p, true, Quoted(s), f)
    case Key(s) => Token(p, true, Quoted(s), f)
    case StartObject => Open(p, false, f)
    case EndObject(_) => Close(p, false, f)
    case StartArray => Open(p, true, f)
    case EndArray(_) => Close(p, true, f)
  }

  function WriteAll(p: Printer, es: seq<Event>, f: Format): Option<Printer>
    decreases |es|
  {
    if es == [] then Some(p)
    else
      var q := Write(p, es[0], f);
      if q.None? then None else WriteAll(q.value, es[1..], f)
  }

  // ----- The events of a tree print its text -----

  lemma {:induction false} WriteConcat(p: Printer, a: seq<Event>, b: seq<Event>, f: Format)
    ensures WriteAll(p, a + b, f) ==
            var q := WriteAll(p, a, f); if q.None? then None else WriteAll(q.value, b, f)
    decreases |a|
  {
    if a == [] {
      assert a + b == b;
    } else {
      assert (a + b)[0] == a[0] && (a + b)[1..] == a[1..] + b;
      var q := Write(p, a[0], f);
      if q.Some? {
        WriteConcat(q.value, a[1..], b, f);
      }
    }
  }

  lemma WriteOne(p: Printer, e: Event, f: Format)
    ensures WriteAll(p, [e], f) == Write(p, e, f)
  {
    assert [e][1..] == [];
    if Write(p, e, f).Some? {
      assert WriteAll(Write(p, e, f).value, [], f) == Write(p, e, f);
    }
  }

  lemma PutPut(p: Printer, s: string, t: string)
    ensures Put(Put(p, s), t) == Put(p, s + t)
  {
    assert p.os + s + t == p.os + (s + t);
  }

  lemma PutNothing(p: Printer)
    ensures Put(p, "") == p
  {
    assert p.os + "" == p.os;
  }

  /** A printer inside a container whose level has counted `n`. */
  function Within(p: Printer, inArray: bool, n: nat): Printer {
    p.(levels := p.levels + [Level(inArray, n)])
  }

  lemma BeginWithin(p: Printer, inArray: bool, n: nat, f: Format)
    ensures Begin(Within(p, inArray, n), f) == Within(Put(p, Prefix(Within(p, inArray, n), f)), inArray, n + 1)
  {
    var q := Within(p, inArray, n);
    assert q.levels[..|p.levels|] == p.levels;
  }

  /**
   Wherever a value may begin, the calls that a tree generates append the
   separator and the tree's text, meet no failing assertion, and leave the open
   containers as they were but for the count of the innermost one.
   */
  lemma {:induction false} PrintValue(v: Value, p: Printer, f: Format)
    requires MayBegin(p, v.String?)
    ensures WriteAll(p, Accept(v), f) == Some(Put(Begin(p, f), Text(v, |p.levels|, f)))
    decreases v, 1
  {
    hide Begin, Escaped, Digits;
    match v
    case Array(es) => PrintContainer(v, AcceptElements(es), StartArray, EndArray(|es|), p, f);
    case Object(ms) => PrintContainer(v, AcceptMembers(ms), StartObject, EndObject(|ms|), p, f);
    case _ => WriteOne(p, Accept(v)[0], f);
  }

  /** The text between a container's brackets. */
  function Inner(v: Value, depth: nat, f: Format): string
    requires v.Array? || v.Object?
  {
    if v.Array? then ElementsText(v.elements, 0, depth, f) else MembersText(v.members, 0, depth, f)
  }

  function Size(v: Value): nat
    requires v.Array? || v.Object?
  {
    if v.Array? then |v.elements| else 2 * |v.members|
  }

  lemma {:induction false} PrintContainer(v: Value, inner: seq<Event>, start: Event, end: Event, p: Printer, f: Format)
    requires match v
             case Array(es) => inner == AcceptElements(es) && start == StartArray && end == EndArray(|es|)
             case Object(ms) => inner == AcceptMembers(ms) && start == StartObject && end == EndObject(|ms|)
             case _ => false
    requires MayBegin(p, false)
    ensures WriteAll(p, [start] + inner + [end], f) == Some(Put(Begin(p, f), Text(v, |p.levels|, f)))
    decreases v, 0
  {
    hide Begin, WriteAll, AcceptElements, AcceptMembers, ElementsText, MembersText, NewLine, Text;
    var q := Begin(p, f);
    LevelsKept(p, f);
    var bracket := if v.Array? then "[" else "{";
    var begun := Put(q, bracket);
    WriteConcat(p, [start] + inner, [end], f);
    WriteConcat(p, [start], inner, f);
    WriteOne(p, start, f);
    assert Write(p, start, f) == Some(Within(begun, v.Array?, 0));
    if v.Array? {
      PrintElements(v.elements, 0, begun, f);
    } else {
      PrintMembers(v.members, 0, begun, f);
    }
    var filled := Put(begun, Inner(v, |p.levels| + 1, f));
    WriteOne(Within(filled, v.Array?, Size(v)), end, f);
    CloseWithin(filled, v, end, f);
    PutPut(q, bracket, Inner(v, |p.levels| + 1, f));
    PutPut(q, bracket + Inner(v, |p.levels| + 1, f), Closing(v, |p.levels|, f));
    TextIs(v, |p.levels|, f);
  }

  function Closing(v: Value, depth: nat, f: Format): string
    requires v.Array? || v.Object?
  {
    (if Size(v) == 0 || (v.Array? && f.singleLineArray) then "" else NewLine(depth, f)) + (if v.Array? then "]" else "}")
  }

  lemma TextIs(v: Value, depth: nat, f: Format)
    requires v.Array? || v.Object?
    ensures Text(v, depth, f) == (if v.Array? then "[" else "{") + Inner(v, depth + 1, f) + Closing(v, depth, f)
  {
    hide NewLine, ElementsText, MembersText;
    var open, inner := (if v.Array? then "[" else "{"), Inner(v, depth + 1, f);
    var line := if Size(v) == 0 || (v.Array? && f.singleLineArray) then "" else NewLine(depth, f);
    var close := if v.Array? then "]" else "}";
    assert open + inner + line + close == open + inner + (line + close);
  }

  lemma LevelsKept(p: Printer, f: Format)
    ensures |Begin(p, f).levels| == |p.levels|
  {
  }

  lemma CloseWithin(p: Printer, v: Value, end: Event, f: Format)
    requires match v
             case Array(es) => end == EndArray(|es|)
             case Object(ms) => end == EndObject(|ms|)
             case _ => false
    ensures Write(Within(p, v.Array?, Size(v)), end, f) == Some(Put(p, Closing(v, |p.levels|, f)))
  {
    hide NewLine;
    var q := Within(p, v.Array?, Size(v));
    assert q.levels[..|p.levels|] == p.levels;
  }

  lemma ElementsFirst(es: seq<Value>, k: nat, depth: nat, f: Format)
    requires es != []
    ensures AcceptElements(es) == Accept(es[0]) + AcceptElements(es[1..])
    ensures ElementsText(es, k, depth, f) == ElementText(es[0], k, depth, f) + ElementsText(es[1..], k + 1, depth, f)
  {
  }

  lemma MembersFirst(ms: seq<Member>, k: nat, depth: nat, f: Format)
    requires ms != []
    ensures AcceptMembers(ms) == [Key(ms[0].name)] + Accept(ms[0].value) + AcceptMembers(ms[1..])
    ensures MembersText(ms, k, depth, f) == MemberText(ms[0], k, depth, f) + MembersText(ms[1..], k + 1, depth, f)
  {
  }

  lemma NoElements(p: Printer, k: nat, f: Format)
    ensures WriteAll(Within(p, true, k), AcceptElements([]), f) ==
            Some(Within(Put(p, ElementsText([], k, |p.levels| + 1, f)), true, k))
  {
    PutNothing(p);
  }

  lemma NoMembers(p: Printer, k: nat, f: Format)
    ensures WriteAll(Within(p, false, 2 * k), AcceptMembers([]), f) ==
            Some(Within(Put(p, MembersText([], k, |p.levels| + 1, f)), false, 2 * k))
  {
    PutNothing(p);
  }

  lemma PutLevels(p: Printer, t: string)
    ensures Put(p, t).levels == p.levels
  {
  }

  lemma {:induction false} PrintElements(es: seq<Value>, k: nat, p: Printer, f: Format)
    ensures WriteAll(Within(p, true, k), AcceptElements(es), f) ==
            Some(Within(Put(p, ElementsText(es, k, |p.levels| + 1, f)), true, k + |es|))
    decreases es, 0
  {
    hide *;
    if es == [] {
      NoElements(p, k, f);
    } else {
      var q := Within(p, true, k);
      var depth := |p.levels| + 1;
      ElementsFirst(es, k, depth, f);
      PutLevels(p, ElementText(es[0], k, depth, f));
      PrintElement(es[0], k, p, f);
      WriteConcat(q, Accept(es[0]), AcceptElements(es[1..]), f);
      var text := ElementText(es[0], k, depth, f);
      PrintElements(es[1..], k + 1, Put(p, text), f);
      PutPut(p, text, ElementsText(es[1..], k + 1, depth, f));
    }
  }

  lemma {:induction false} PrintElement(e: Value, k: nat, p: Printer, f: Format)
    ensures WriteAll(Within(p, true, k), Accept(e), f) ==
            Some(Within(Put(p, ElementText(e, k, |p.levels| + 1, f)), true, k + 1))
    decreases e, 2
  {
    hide Begin, WriteAll, Accept, Text, ElementPrefix;
    var q := Within(p, true, k);
    var depth := |p.levels| + 1;
    InArrayMayBegin(p, k, e.String?);
    PrintValue(e, q, f);
    BeginWithin(p, true, k, f);
    PutPut(p, ElementPrefix(k, depth, f), Text(e, depth, f));
  }

  lemma InArrayMayBegin(p: Printer, k: nat, isString: bool)
    ensures MayBegin(Within(p, true, k), isString)
  {
  }

  lemma {:induction false} PrintMembers(ms: seq<Member>, k: nat, p: Printer, f: Format)
    ensures WriteAll(Within(p, false, 2 * k), AcceptMembers(ms), f) ==
            Some(Within(Put(p, MembersText(ms, k, |p.levels| + 1, f)), false, 2 * (k + |ms|)))
    decreases ms, 1
  {
    hide *;
    if ms == [] {
      NoMembers(p, k, f);
    } else {
      var q := Within(p, false, 2 * k);
      var depth := |p.levels| + 1;
      MembersFirst(ms, k, depth, f);
      PutLevels(p, MemberText(ms[0], k, depth, f));
      PrintMember(ms[0], k, p, f);
      WriteConcat(q, [Key(ms[0].name)] + Accept(ms[0].value), AcceptMembers(ms[1..]), f);
      var text := MemberText(ms[0], k, depth, f);
      PrintMembers(ms[1..], k + 1, Put(p, text), f);
      PutPut(p, text, MembersText(ms[1..], k + 1, depth, f));
    }
  }

  lemma {:induction false} PrintMember(m: Member, k: nat, p: Printer, f: Format)
    ensures WriteAll(Within(p, false, 2 * k), [Key(m.name)] + Accept(m.value), f) ==
            Some(Within(Put(p, MemberText(m, k, |p.levels| + 1, f)), false, 2 * (k + 1)))
    decreases m, 0
  {
    hide Begin, WriteAll, Accept, Text, Quoted;
    var q := Within(p, false, 2 * k);
    var depth := |p.levels| + 1;
    WriteConcat(q, [Key(m.name)], Accept(m.value), f);
    WriteOne(q, Key(m.name), f);
    BeginWithin(p, false, 2 * k, f);
    var prefix, name := MemberPrefix(k, depth, f), Quoted(m.name);
    MemberPrefixIs(k, depth, f);
    PutPut(p, prefix, name);
    var named := Put(p, prefix + name);
    var r := Within(named, false, 2 * k + 1);
    PrintValue(m.value, r, f);
    BeginWithin(named, false, 2 * k + 1, f);
    PutPut(p, prefix + name, ": ");
    PutPut(p, prefix + name + ": ", Text(m.value, depth, f));
  }

  lemma MemberPrefixIs(k: nat, depth: nat, f: Format)
    ensures MemberPrefix(2 * k, depth, f) == MemberPrefix(k, depth, f)
  {
  }

  // ----- The depth of the level stack -----

  /** The containers that the events open and do not close. */
  function Nesting(es: seq<Event>): int {
    if es == [] then 0
    else
      var rest := Nesting(es[1..]);
      match es[0]
      case StartObject => rest + 1
      case StartArray => rest + 1
      case EndObject(_) => rest - 1
      case EndArray(_) => rest - 1
      case _ => rest
  }

  lemma StepDepth(p: Printer, es: seq<Event>, f: Format)
    requires es != [] && Write(p, es[0], f).Some?
    ensures |p.levels| + Nesting(es) == |Write(p, es[0], f).value.levels| + Nesting(es[1..])
  {
    hide IntegerText, Quoted, Prefix, NewLine;
  }

  /** Whatever the calls, the depth is that of the containers they have opened. */
  lemma {:induction false} DepthIsNesting(es: seq<Event>, p: Printer, f: Format)
    requires WriteAll(p, es, f).Some?
    ensures |WriteAll(p, es, f).value.levels| == |p.levels| + Nesting(es)
    decreases |es|
  {
    hide Write;
    if es != [] {
      StepDepth(p, es, f);
      DepthIsNesting(es[1..], Write(p, es[0], f).value, f);
    }
  }

  /** While a tree is printed, after every one of its events, the level stack is as deep as the containers are nested. */
  lemma DepthThroughout(v: Value, p: Printer, f: Format, k: nat)
    requires MayBegin(p, v.String?) && k <= |Accept(v)|
    ensures var q := WriteAll(p, Accept(v)[..k], f);
            q.Some? && |q.value.levels| == |p.levels| + Nesting(Accept(v)[..k])
  {
    hide Write, Accept, Text, Begin, MayBegin;
    PrintValue(v, p, f);
    assert Accept(v)[..k] + Accept(v)[k..] == Accept(v);
    WriteConcat(p, Accept(v)[..k], Accept(v)[k..], f);
    DepthIsNesting(Accept(v)[..k], p, f);
  }

  // ----- The layout, event by event -----

  predicate IsStart(e: Event) { e.StartObject? || e.StartArray? }

  predicate IsEnd(e: Event) { e.EndObject? || e.EndArray? }

  /** The characters of the event itself. */
  function Mark(e: Event): string {
    match e
    case NullEvent => "null"
    case BoolEvent(b) => if b then "true" else "false"
    case IntEvent(n) => IntegerText(n)
    case UintEvent(n) => IntegerText(n)
    case Int64Event(n) => IntegerText(n)
    case Uint64Event(n) => IntegerText(n)
    case DoubleEvent(d) => d
    case StringEvent(s) => Quoted(s)
    case Key(s) => Quoted(s)
    case StartObject => "{"
    case EndObject(_) => "}"
    case StartArray => "["
    case EndArray(_) => "]"
  }

  /**
   The events that start a line: all but the first one, the value of a name, the
   end of an empty container, and in single-line arrays the elements and the end.
   `before` is the event before it.
   */
  predicate StartsLine(before: Event, e: Event, f: Format) {
    !before.Key? && !(IsEnd(e) && IsStart(before)) && (f.singleLineArray ==> e.Key? || e.EndObject?)
  }

  /** A comma comes between the members or elements of a container. */
  predicate HasComma(before: Event, e: Event) {
    !before.Key? && !IsEnd(e) && !IsStart(before)
  }

  /** A line break and `indentCharCount` characters for each level. */
  function LineLength(depth: nat, f: Format): (n: nat)
    ensures n > 0
  {
    1 + depth * f.indentCharCount
  }

  /**
   `t` is what the event `e` writes, `depth` levels deep, after the event `before`
   if there is one: a comma, a line break and the indentation or a blank, as they
   are due, and the event's own characters.
   */
  predicate LaidOut(t: string, before: Option<Event>, e: Event, depth: nat, f: Format) {
    if before.None? then t == Mark(e)
    else if before.value.Key? then t == ": " + Mark(e)
    else
      var comma := if HasComma(before.value, e) then 1 else 0;
      var line := if StartsLine(before.value, e, f) then LineLength(depth, f) else 0;
      var blank := if line == 0 && comma == 1 then 1 else 0;
      && |t| == comma + line + blank + |Mark(e)|
      && (comma == 1 ==> t[0] == ',')
      && (line > 0 ==> t[comma] == '\n' && forall k :: comma < k < comma + line ==> t[k] == f.indentChar)
      && (blank == 1 ==> t[1] == ' ')
      && t[comma + line + blank..] == Mark(e)
  }

  /** The level of an event: that of the containers it is in, without the one that it ends. */
  function EventDepth(p: Printer, e: Event): int {
    |p.levels| - if IsEnd(e) then 1 else 0
  }

  /** Each of the events, from `p` on and after the event `before`, is laid out. */
  ghost predicate AllLaidOut(p: Printer, before: Option<Event>, es: seq<Event>, f: Format)
    decreases |es|
  {
    es != [] ==>
      var q := Write(p, es[0], f);
      && q.Some? && EventDepth(p, es[0]) >= 0
      && (exists t :: q.value.os == p.os + t && LaidOut(t, before, es[0], EventDepth(p, es[0]), f))
      && AllLaidOut(q.value, Some(es[0]), es[1..], f)
  }

  lemma {:induction false} LaidOutConcat(p: Printer, before: Option<Event>, a: seq<Event>, b: seq<Event>, f: Format)
    requires a != [] && AllLaidOut(p, before, a, f) && WriteAll(p, a, f).Some?
    requires AllLaidOut(WriteAll(p, a, f).value, Some(a[|a| - 1]), b, f)
    ensures AllLaidOut(p, before, a + b, f)
    decreases |a|
  {
    hide Write, LaidOut;
    assert (a + b)[0] == a[0] && (a + b)[1..] == a[1..] + b;
    if |a| == 1 {
      assert a[1..] == [] && [] + b == b;
    } else {
      LaidOutConcat(Write(p, a[0], f).value, Some(a[0]), a[1..], b, f);
    }
  }

  lemma LaidOutOne(p: Printer, before: Option<Event>, e: Event, f: Format, t: string)
    requires Write(p, e, f).Some? && EventDepth(p, e) >= 0
    requires Write(p, e, f).value.os == p.os + t && LaidOut(t, before, e, EventDepth(p, e), f)
    ensures AllLaidOut(p, before, [e], f)
  {
    hide Write, LaidOut;
    assert [e][1..] == [];
  }

  /**
   What the writer has to have at hand where a value or a name begins: whether
   something came before it, and what.
   */
  predicate InContext(p: Printer, before: Option<Event>) {
    if p.levels == [] then before.None? && !p.hasRoot
    else
      && before.Some? && (before.value.Key? <==> !Top(p).inArray && Top(p).valueCount % 2 == 1)
      && (Top(p).valueCount == 0 <==> IsStart(before.value))
  }

  lemma ThreeParts(a: string, b: string, c: string)
    ensures var t := a + b + c;
            && |t| == |a| + |b| + |c| && t[|a| + |b|..] == c
            && (forall k :: 0 <= k < |a| ==> t[k] == a[k])
            && (forall k :: |a| <= k < |a| + |b| ==> t[k] == b[k - |a|])
  {
  }

  lemma PartsLaidOut(comma: string, gap: string, mark: string, before: Event, e: Event, depth: nat, f: Format)
    requires !before.Key? && mark == Mark(e) && comma == (if HasComma(before, e) then "," else "")
    requires gap == if StartsLine(before, e, f) then NewLine(depth, f) else if HasComma(before, e) then " " else ""
    ensures LaidOut(comma + gap + mark, Some(before), e, depth, f)
  {
    hide Mark, HasComma, StartsLine, NewLine, LineLength;
    NewLineIs(depth, f);
    ThreeParts(comma, gap, mark);
  }

  lemma NewLineIs(depth: nat, f: Format)
    ensures var t := NewLine(depth, f);
            |t| == LineLength(depth, f) && t[0] == '\n' && forall k :: 0 < k < |t| ==> t[k] == f.indentChar
  {
  }

  /** What comes before a value or a name, but for the value of a name. */
  lemma PrefixParts(p: Printer, before: Event, e: Event, f: Format)
    requires InContext(p, Some(before)) && !IsEnd(e) && !before.Key?
    requires e.Key? <==> !Top(p).inArray && Top(p).valueCount % 2 == 0
    ensures Prefix(p, f) == (if HasComma(before, e) then "," else "")
                            + if StartsLine(before, e, f) then NewLine(|p.levels|, f) else if HasComma(before, e) then " " else ""
  {
    hide NewLine;
  }

  lemma BeginWrites(p: Printer, f: Format)
    ensures Begin(p, f).os == p.os + Prefix(p, f)
  {
    hide ElementPrefix, MemberPrefix;
    assert p.os + "" == p.os;
  }

  lemma WriteValue(p: Printer, e: Event, f: Format)
    requires !IsEnd(e) && Write(p, e, f).Some?
    ensures Write(p, e, f).value.os == p.os + (Prefix(p, f) + Mark(e))
  {
    hide Quoted, IntegerText, Prefix, Begin;
    BeginWrites(p, f);
    assert p.os + Prefix(p, f) + Mark(e) == p.os + (Prefix(p, f) + Mark(e));
  }

  /** A value or a name where it may begin is laid out. */
  lemma BeginLaidOut(p: Printer, before: Option<Event>, e: Event, f: Format)
    requires InContext(p, before) && !IsEnd(e) && Write(p, e, f).Some?
    requires p.levels != [] ==> (e.Key? <==> !Top(p).inArray && Top(p).valueCount % 2 == 0)
    ensures AllLaidOut(p, before, [e], f)
  {
    var t := Prefix(p, f) + Mark(e);
    WriteValue(p, e, f);
    hide Mark, Write, NewLine;
    if before.None? {
      assert "" + Mark(e) == Mark(e);
    } else if !before.value.Key? {
      PrefixParts(p, before.value, e, f);
      var comma := if HasComma(before.value, e) then "," else "";
      var gap := if StartsLine(before.value, e, f) then NewLine(|p.levels|, f) else if HasComma(before.value, e) then " " else "";
      hide Prefix, LaidOut;
      PartsLaidOut(comma, gap, Mark(e), before.value, e, |p.levels|, f);
    }
    LaidOutOne(p, before, e, f, t);
  }

  lemma EndLaidOut(p: Printer, before: Event, e: Event, f: Format)
    requires IsEnd(e) && Write(p, e, f).Some? && !before.Key? && (Top(p).valueCount == 0 <==> IsStart(before))
    ensures AllLaidOut(p, Some(before), [e], f)
  {
    hide NewLine, LaidOut, AllLaidOut;
    var n := |p.levels| - 1;
    var line := if Top(p).valueCount == 0 || (Top(p).inArray && f.singleLineArray) then "" else NewLine(n, f);
    PartsLaidOut("", line, Mark(e), before, e, n, f);
    assert "" + line == line;
    LaidOutOne(p, Some(before), e, f, line + Mark(e));
  }

  function Last(es: seq<Event>): Event
    requires es != []
  {
    es[|es| - 1]
  }

  /** A whole value ends neither with the start of a container nor with a name. */
  predicate EndsValue(e: Event) { !IsStart(e) && !e.Key? }

  lemma LastOfValue(v: Value)
    ensures Accept(v) != [] && EndsValue(Last(Accept(v)))
  {
  }

  lemma LastOfConcat(a: seq<Event>, b: seq<Event>)
    requires a + b != []
    ensures Last(a + b) == if b != [] then Last(b) else Last(a)
  {
  }

  /** A printer where a value may begin. */
  predicate ValueMayBegin(p: Printer, before: Option<Event>) {
    InContext(p, before) && (p.levels == [] || Top(p).inArray || Top(p).valueCount % 2 == 1)
  }

  /** The events of a tree are laid out, wherever it may begin. */
  lemma {:induction false} ValueLaidOut(v: Value, p: Printer, before: Option<Event>, f: Format)
    requires ValueMayBegin(p, before)
    ensures AllLaidOut(p, before, Accept(v), f)
    decreases v, 1
  {
    hide Mark, LaidOut, AllLaidOut, Begin, ElementsText, MembersText;
    match v
    case Array(es) => ContainerLaidOut(v, AcceptElements(es), StartArray, EndArray(|es|), p, before, f);
    case Object(ms) => ContainerLaidOut(v, AcceptMembers(ms), StartObject, EndObject(|ms|), p, before, f);
    case _ => BeginLaidOut(p, before, Accept(v)[0], f);
  }

  /** The printer after the start of a container, and after its contents. */
  function Started(p: Printer, inArray: bool, f: Format): Printer {
    Put(Begin(p, f), if inArray then "[" else "{")
  }

  lemma StartIs(p: Printer, start: Event, f: Format)
    requires IsStart(start) && MayBegin(p, false)
    ensures Write(p, start, f) == Some(Within(Started(p, start.StartArray?, f), start.StartArray?, 0))
    ensures InContext(Within(Started(p, start.StartArray?, f), start.StartArray?, 0), Some(start))
  {
    hide Begin;
  }

  lemma {:induction false} ContainerLaidOut(v: Value, inner: seq<Event>, start: Event, end: Event, p: Printer, before: Option<Event>, f: Format)
    requires match v
             case Array(es) => inner == AcceptElements(es) && start == StartArray && end == EndArray(|es|)
             case Object(ms) => inner == AcceptMembers(ms) && start == StartObject && end == EndObject(|ms|)
             case _ => false
    requires ValueMayBegin(p, before)
    ensures AllLaidOut(p, before, [start] + inner + [end], f)
    decreases v, 0
  {
    hide Mark, LaidOut, AllLaidOut, Begin, Write, WriteAll, AcceptElements, AcceptMembers, ElementsText, MembersText, Started, Closing;
    StartIs(p, start, f);
    BeginLaidOut(p, before, start, f);
    WriteOne(p, start, f);
    var begun := Started(p, v.Array?, f);
    var q := Within(begun, v.Array?, 0);
    if v.Array? {
      PrintElements(v.elements, 0, begun, f);
      ElementsLaidOut(v.elements, 0, begun, start, f);
    } else {
      PrintMembers(v.members, 0, begun, f);
      MembersLaidOut(v.members, 0, begun, start, f);
    }
    var filled := Within(Put(begun, Inner(v, |begun.levels| + 1, f)), v.Array?, Size(v));
    CloseWithin(Put(begun, Inner(v, |begun.levels| + 1, f)), v, end, f);
    var last := if inner == [] then start else Last(inner);
    EndLaidOut(filled, last, end, f);
    LaidOutConcat(p, before, [start], inner, f);
    WriteConcat(p, [start], inner, f);
    LastOfConcat([start], inner);
    LaidOutConcat(p, before, [start] + inner, [end], f);
  }

  lemma NothingLaidOut(p: Printer, before: Option<Event>, f: Format)
    ensures AllLaidOut(p, before, [], f) && AcceptElements([]) == [] && AcceptMembers([]) == []
  {
  }

  /** The elements from number `k` on; they end with a whole value, if there are any. */
  lemma {:induction false} ElementsLaidOut(es: seq<Value>, k: nat, p: Printer, before: Event, f: Format)
    requires !before.Key? && (k == 0 <==> IsStart(before))
    ensures var inner := AcceptElements(es);
            && AllLaidOut(Within(p, true, k), Some(before), inner, f)
            && (inner == [] <==> es == []) && (es != [] ==> EndsValue(Last(inner)))
    decreases es, 0
  {
    hide Mark, LaidOut, AllLaidOut, WriteAll, Accept, AcceptElements, ElementsText, ElementText;
    NothingLaidOut(Within(p, true, k), Some(before), f);
    if es != [] {
      var q := Within(p, true, k);
      var first, rest := Accept(es[0]), AcceptElements(es[1..]);
      ElementsFirst(es, k, |p.levels| + 1, f);
      LastOfValue(es[0]);
      ValueLaidOut(es[0], q, Some(before), f);
      PrintElement(es[0], k, p, f);
      var next := Put(p, ElementText(es[0], k, |p.levels| + 1, f));
      ElementsLaidOut(es[1..], k + 1, next, Last(first), f);
      LaidOutConcat(q, Some(before), first, rest, f);
      LastOfConcat(first, rest);
    }
  }

  lemma {:induction false} MembersLaidOut(ms: seq<Member>, k: nat, p: Printer, before: Event, f: Format)
    requires !before.Key? && (k == 0 <==> IsStart(before))
    ensures var inner := AcceptMembers(ms);
            && AllLaidOut(Within(p, false, 2 * k), Some(before), inner, f)
            && (inner == [] <==> ms == []) && (ms != [] ==> EndsValue(Last(inner)))
    decreases ms, 1
  {
    hide Mark, LaidOut, AllLaidOut, WriteAll, Accept, AcceptMembers, MembersText, MemberText;
    NothingLaidOut(Within(p, false, 2 * k), Some(before), f);
    if ms != [] {
      var q := Within(p, false, 2 * k);
      var first, rest := [Key(ms[0].name)] + Accept(ms[0].value), AcceptMembers(ms[1..]);
      MembersFirst(ms, k, |p.levels| + 1, f);
      LastOfValue(ms[0].value);
      MemberLaidOut(ms[0], k, p, before, f);
      PrintMember(ms[0], k, p, f);
      var next := Put(p, MemberText(ms[0], k, |p.levels| + 1, f));
      LastOfConcat([Key(ms[0].name)], Accept(ms[0].value));
      MembersLaidOut(ms[1..], k + 1, next, Last(first), f);
      LaidOutConcat(q, Some(before), first, rest, f);
      LastOfConcat(first, rest);
    }
  }

  lemma {:induction false} MemberLaidOut(m: Member, k: nat, p: Printer, before: Event, f: Format)
    requires !before.Key? && (k == 0 <==> IsStart(before))
    ensures AllLaidOut(Within(p, false, 2 * k), Some(before), [Key(m.name)] + Accept(m.value), f)
    decreases m, 0
  {
    hide Mark, LaidOut, AllLaidOut, Accept, Begin, Quoted;
    var q := Within(p, false, 2 * k);
    WriteOne(q, Key(m.name), f);
    BeginWithin(p, false, 2 * k, f);
    BeginLaidOut(q, Some(before), Key(m.name), f);
    var named := Write(q, Key(m.name), f).value;
    ValueLaidOut(m.value, named, Some(Key(m.name)), f);
    LaidOutConcat(q, Some(before), [Key(m.name)], Accept(m.value), f);
  }

  function Flat(ts: seq<string>): string {
    if ts == [] then "" else ts[0] + Flat(ts[1..])
  }

  lemma NestingFirst(es: seq<Event>, k: nat, p: Printer, f: Format)
    requires 0 < k <= |es| && Write(p, es[0], f).Some?
    ensures |p.levels| + Nesting(es[..k]) == |Write(p, es[0], f).value.levels| + Nesting(es[1..][..k - 1])
  {
    hide Write, Nesting;
    StepDepth(p, es[..k], f);
    assert es[..k][1..] == es[1..][..k - 1];
  }

  /** Piece `k` of the text is what event `k` writes, the events before it having nested it so deep. */
  ghost predicate IsPiece(t: string, depth: nat, before: Option<Event>, es: seq<Event>, k: nat, f: Format)
    requires k < |es|
  {
    var level := depth + Nesting(es[..k]) - if IsEnd(es[k]) then 1 else 0;
    level >= 0 && LaidOut(t, if k == 0 then before else Some(es[k - 1]), es[k], level, f)
  }

  lemma {:induction false} Pieces(p: Printer, before: Option<Event>, es: seq<Event>, f: Format) returns (ts: seq<string>)
    requires AllLaidOut(p, before, es, f)
    ensures WriteAll(p, es, f).Some? && WriteAll(p, es, f).value.os == p.os + Flat(ts) && |ts| == |es|
    ensures forall k :: 0 <= k < |es| ==> IsPiece(ts[k], |p.levels|, before, es, k, f)
    decreases |es|
  {
    hide Write, LaidOut, IsPiece;
    if es == [] {
      ts := [];
      assert p.os + "" == p.os;
    } else {
      var q := Write(p, es[0], f).value;
      var t :| q.os == p.os + t && LaidOut(t, before, es[0], EventDepth(p, es[0]), f);
      var rest := Pieces(q, Some(es[0]), es[1..], f);
      ts := [t] + rest;
      assert ts[1..] == rest;
      assert p.os + t + Flat(rest) == p.os + Flat(ts);
      forall k | 0 <= k < |es|
        ensures IsPiece(ts[k], |p.levels|, before, es, k, f)
      {
        if k == 0 {
          FirstPiece(t, p, before, es, f);
        } else {
          LaterPiece(rest[k - 1], p, before, es, k, f);
        }
      }
    }
  }

  lemma FirstPiece(t: string, p: Printer, before: Option<Event>, es: seq<Event>, f: Format)
    requires es != [] && EventDepth(p, es[0]) >= 0 && LaidOut(t, before, es[0], EventDepth(p, es[0]), f)
    ensures IsPiece(t, |p.levels|, before, es, 0, f)
  {
    hide LaidOut;
    assert es[..0] == [];
  }

  lemma LaterPiece(t: string, p: Printer, before: Option<Event>, es: seq<Event>, k: nat, f: Format)
    requires 0 < k < |es| && Write(p, es[0], f).Some?
    requires IsPiece(t, |Write(p, es[0], f).value.levels|, Some(es[0]), es[1..], k - 1, f)
    ensures IsPiece(t, |p.levels|, before, es, k, f)
  {
    hide LaidOut, Write, Nesting;
    NestingFirst(es, k, p, f);
  }

  /**
   The text of a tree, event by event. Each event that starts a line is preceded
   by exactly as many indentation characters as it has containers around it, times
   the count that is set.
   */
  lemma TextLayout(v: Value, f: Format) returns (ts: seq<string>)
    ensures Text(v, 0, f) == Flat(ts) && |ts| == |Accept(v)|
    ensures forall k :: 0 <= k < |ts| ==> IsPiece(ts[k], 0, None, Accept(v), k, f)
  {
    hide Text, WriteAll, Accept, AllLaidOut, IsPiece;
    var p := Printer("", [], false);
    ValueLaidOut(v, p, None, f);
    ts := Pieces(p, None, Accept(v), f);
    PrintRoot(v, f);
    assert "" + Flat(ts) == Flat(ts);
  }

  lemma {:induction false} DigitsAreNoBlanks(n: nat)
    ensures Digits(n) != "" && '0' <= Digits(n)[0] <= '9'
  {
    if n >= 10 {
      DigitsAreNoBlanks(n / 10);
    }
  }

  /** The characters of an event begin with no blank, so the indentation ends where they begin; a double is as it is given. */
  lemma MarkIsNoBlank(e: Event)
    requires !e.DoubleEvent?
    ensures Mark(e) != "" && !IsSpace(Mark(e)[0])
  {
    hide Digits, Escaped;
    match e
    case IntEvent(n) => DigitsAreNoBlanks(if n < 0 then -n else n);
    case UintEvent(n) => DigitsAreNoBlanks(if n < 0 then -n else n);
    case Int64Event(n) => DigitsAreNoBlanks(if n < 0 then -n else n);
    case Uint64Event(n) => DigitsAreNoBlanks(if n < 0 then -n else n);
    case _ =>
  }

  // ----- The class -----

  class PrettyWriter {
    /** The output stream. */
    var os: string
    var levelStack: seq<Level>
    var hasRoot: bool
    var format: Format

    constructor ()
      ensures State() == Printer("", [], false) && format == Format(' ', 4, false)
    {
      os, levelStack, hasRoot, format := "", [], false, Format(' ', 4, false);
    }

    ghost function State(): Printer
      reads this
    {
      Printer(os, levelStack, hasRoot)
    }

    method SetIndent(indentChar: char, indentCharCount: nat)
      requires IsSpace(indentChar)
      modifies this`format
      ensures format == Format(indentChar, indentCharCount, old(format).singleLineArray) && ValidFormat(format)
    {
      format := format.(indentChar := indentChar, indentCharCount := indentCharCount);
    }

    method SetFormatOptions(singleLineArray: bool)
      modifies this`format
      ensures format == old(format).(singleLineArray := singleLineArray)
    {
      format := format.(singleLineArray := singleLineArray);
    }

    method WriteIndent()
      modifies this`os
      ensures os == old(os) + Indent(|levelStack|, format)
      ensures |os| == |old(os)| + |levelStack| * format.indentCharCount
      ensures forall k :: |old(os)| <= k < |os| ==> os[k] == format.indentChar
    {
      var count := |levelStack| * format.indentCharCount;
      var k := 0;
      ghost var all := Indent(|levelStack|, format);
      while k < count
        invariant 0 <= k <= count && os == old(os) + all[..k]
      {
        os := os + [format.indentChar];
        assert all[..k + 1] == all[..k] + [format.indentChar];
        k := k + 1;
      }
      assert all[..count] == all;
    }

    method WriteNewLine()
      modifies this`os
      ensures os == old(os) + NewLine(|levelStack|, format)
    {
      os := os + "\n";
      WriteIndent();
      assert old(os) + "\n" + Indent(|levelStack|, format) == old(os) + NewLine(|levelStack|, format);
    }

    /** `PrettyPrefix`. */
    method PrettyPrefix(isString: bool)
      requires MayBegin(State(), isString)
      modifies this`os, this`levelStack, this`hasRoot
      ensures State() == Begin(old(State()), format)
    {
      if |levelStack| != 0 {
        var n := |levelStack| - 1;
        var level := levelStack[n];
        if level.inArray {
          WriteElementPrefix(level.valueCount);
        } else if level.valueCount % 2 == 0 {
          WriteMemberPrefix(level.valueCount);
        } else {
          os := os + ": ";
        }
        levelStack := levelStack[..n] + [level.(valueCount := level.valueCount + 1)];
      } else {
        hasRoot := true;
      }
    }

    /** The array branch of `PrettyPrefix`. */
    method WriteElementPrefix(valueCount: nat)
      modifies this`os
      ensures os == old(os) + ElementPrefix(valueCount, |levelStack|, format)
    {
      hide NewLine;
      ghost var line := NewLine(|levelStack|, format);
      assert old(os) + "," + line == old(os) + ("," + line) && old(os) + "," + " " == old(os) + ", ";
      assert "" + line == line && ", " + "" == ", " && "" + "" == "" && old(os) + "" == old(os);
      if valueCount > 0 {
        os := os + ",";
        if format.singleLineArray {
          os := os + " ";
        }
      }
      if !format.singleLineArray {
        WriteNewLine();
      }
    }

    /** The object branch of `PrettyPrefix`, before a name. */
    method WriteMemberPrefix(valueCount: nat)
      modifies this`os
      ensures os == old(os) + MemberPrefix(valueCount, |levelStack|, format)
    {
      hide NewLine;
      ghost var line := NewLine(|levelStack|, format);
      assert old(os) + "," + line == old(os) + ("," + line) && "" + line == line;
      if valueCount > 0 {
        os := os + ",";
      }
      WriteNewLine();
    }

    method WriteString(str: string)
      modifies this`os
      ensures os == old(os) + Quoted(str)
    {
      hide Escape;
      os := os + "\"";
      ghost var start := os;
      var i := 0;
      assert str[0..] == str;
      while i < |str|
        invariant 0 <= i <= |str| && os + Escaped(str[i..]) == start + Escaped(str)
      {
        assert str[i..][1..] == str[i + 1..];
        assert os + Escape(str[i]) + Escaped(str[i + 1..]) == os + Escaped(str[i..]);
        os := os + Escape(str[i]);
        i := i + 1;
      }
      assert os + "" == os && str[|str|..] == "";
      os := os + "\"";
      assert old(os) + "\"" + Escaped(str) + "\"" == old(os) + Quoted(str);
    }

    /** A scalar whose text is written as it is. */
    method Scalar(token: string)
      requires MayBegin(State(), false)
      modifies this`os, this`levelStack, this`hasRoot
      ensures Some(State()) == Token(old(State()), false, token, format)
    {
      PrettyPrefix(false);
      os := os + token;
    }

    /** `String` and `Key`. */
    method String(str: string)
      requires MayBegin(State(), true)
      modifies this`os, this`levelStack, this`hasRoot
      ensures Some(State()) == Token(old(State()), true, Quoted(str), format)
    {
      PrettyPrefix(true);
      WriteString(str);
    }

    /** `StartObject` and `StartArray`. */
    method Start(inArray: bool)
      requires MayBegin(State(), false)
      modifies this`os, this`levelStack, this`hasRoot
      ensures Some(State()) == Open(old(State()), inArray, format)
    {
      PrettyPrefix(false);
      levelStack := levelStack + [Level(inArray, 0)];
      os := os + if inArray then "[" else "{";
    }

    /** `EndObject` and `EndArray`. */
    method End(inArray: bool)
      requires Close(State(), inArray, format).Some?
      modifies this`os, this`levelStack
      ensures Some(State()) == Close(old(State()), inArray, format)
    {
      hide NewLine;
      var n := |levelStack| - 1;
      var empty := levelStack[n].valueCount == 0;
      levelStack := levelStack[..n];
      var bracket := if inArray then "]" else "}";
      ghost var line := NewLine(n, format);
      assert old(os) + line + bracket == old(os) + (line + bracket) && "" + bracket == bracket;
      if !empty && !(inArray && format.singleLineArray) {
        WriteNewLine();
      }
      os := os + bracket;
    }

    /** One handler call. */
    method Handle(e: Event)
      requires Write(State(), e, format).Some?
      modifies this`os, this`levelStack, this`hasRoot
      ensures Some(State()) == Write(old(State()), e, format)
    {
      hide Token, Open, Close;
      TokenBegins(State(), format);
      match e
      case NullEvent => Scalar("null");
      case BoolEvent(b) => Scalar(if b then "true" else "false");
      case IntEvent(n) => Scalar(IntegerText(n));
      case UintEvent(n) => Scalar(IntegerText(n));
      case Int64Event(n) => Scalar(IntegerText(n));
      case Uint64Event(n) => Scalar(IntegerText(n));
      case DoubleEvent(d) => Scalar(d);
      case StringEvent(s) => String(s);
      case Key(s) => String(s);
      case StartObject => Start(false);
      case EndObject(_) => End(false);
      case StartArray => Start(true);
      case EndArray(_) => End(true);
    }
  }

  lemma TokenBegins(p: Printer, f: Format)
    ensures forall b, t :: Token(p, b, t, f).Some? ==> MayBegin(p, b)
    ensures forall b :: Open(p, b, f).Some? ==> MayBegin(p, false)
  {
  }

  /** A tree printed by a fresh writer is its text, and the writer is back outside all containers. */
  method Print(v: Value, f: Format) returns (text: string, ghost pieces: seq<string>)
    requires ValidFormat(f)
    ensures text == Text(v, 0, f) == Flat(pieces) && |pieces| == |Accept(v)|
    ensures forall k :: 0 <= k < |pieces| ==> IsPiece(pieces[k], 0, None, Accept(v), k, f)
  {
    hide Write, Text, IsPiece, Flat;
    pieces := TextLayout(v, f);
    var w := new PrettyWriter();
    w.SetIndent(f.indentChar, f.indentCharCount);
    w.SetFormatOptions(f.singleLineArray);
    var es := Accept(v);
    PrintRoot(v, f);
    var i := 0;
    assert es[0..] == es;
    while i < |es|
      invariant 0 <= i <= |es| && w.format == f
      invariant WriteAll(w.State(), es[i..], f) == Some(Printer(Text(v, 0, f), [], true))
    {
      assert es[i..][1..] == es[i + 1..];
      w.Handle(es[i]);
      i := i + 1;
    }
    text := w.os;
  }

  lemma PrintRoot(v: Value, f: Format)
    ensures WriteAll(Printer("", [], false), Accept(v), f) == Some(Printer(Text(v, 0, f), [], true))
  {
    hide Text, WriteAll;
    PrintValue(v, Printer("", [], false), f);
    assert "" + Text(v, 0, f) == Text(v, 0, f);
  }
}
