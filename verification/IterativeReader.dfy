/**
 The table-driven parser: a state machine over one token of lookahead and an
 explicit stack. It does exactly what the recursive-descent parser does.
 */
module IterativeReader {
  import opened Json
  import opened Reader

  datatype State =
    | FinishState
    | ErrorState
    | StartState
    | ObjectInitialState
    | MemberKeyState
    | MemberValueState
    | ObjectFinishState
    | ArrayInitialState
    | ElementState
    | ArrayFinishState
    | ValueState
    | ElementDelimiterState
    | MemberDelimiterState
    | KeyValueDelimiterState

  datatype Token =
    | LeftBracketToken
    | RightBracketToken
    | LeftCurlyBracketToken
    | RightCurlyBracketToken
    | CommaToken
    | ColonToken
    | StringToken
    | FalseToken
    | TrueToken
    | NullToken
    | NumberToken

  function Tokenize(c: char): Token {
    match c
    case '"' => StringToken
    case ',' => CommaToken
    case ':' => ColonToken
    case '[' => LeftBracketToken
    case ']' => RightBracketToken
    case 'f' => FalseToken
    case 'n' => NullToken
    case 't' => TrueToken
    case '{' => LeftCurlyBracketToken
    case '}' => RightCurlyBracketToken
    case _ => NumberToken
  }

  /** The row of the transition table of a state in which a value may begin; `scalar` is its state after a scalar. */
  function ValueRow(token: Token, scalar: State, close: State): State {
    match token
    case LeftBracketToken => ArrayInitialState
    case RightBracketToken => close
    case LeftCurlyBracketToken => ObjectInitialState
    case RightCurlyBracketToken => ErrorState
    case CommaToken => ErrorState
    case ColonToken => ErrorState
    case _ => scalar
  }

  function Predict(state: State, token: Token): State {
    match state
    case StartState => ValueRow(token, ValueState, ErrorState)
    case ObjectInitialState =>
      if token.RightCurlyBracketToken? then ObjectFinishState
      else if token.StringToken? then MemberKeyState
      else ErrorState
    case MemberKeyState => if token.ColonToken? then KeyValueDelimiterState else ErrorState
    case MemberValueState =>
      if token.RightCurlyBracketToken? then ObjectFinishState
      else if token.CommaToken? then MemberDelimiterState
      else ErrorState
    case ArrayInitialState => ValueRow(token, ElementState, ArrayFinishState)
    case ElementState =>
      if token.RightBracketToken? then ArrayFinishState
      else if token.CommaToken? then ElementDelimiterState
      else ErrorState
    case ElementDelimiterState => ValueRow(token, ElementState, ArrayFinishState)
    case MemberDelimiterState =>
      if token.RightCurlyBracketToken? then ObjectFinishState
      else if token.StringToken? then MemberKeyState
      else ErrorState
    case KeyValueDelimiterState => ValueRow(token, MemberValueState, ErrorState)
    case _ => ErrorState
  }

  /** Two entries of the reader's stack: the state to restore and the member or element count. */
  datatype Frame = Frame(state: State, count: nat)

  /** The machine between two turns of its loop. */
  datatype Config = Config(state: State, pos: nat, stack: seq<Frame>)

  /** What a turn does: a new configuration with the events emitted, or an error (none yet if the table refuses the token). */
  datatype Turn =
    | Moved(config: Config, events: seq<Event>)
    | Stopped(error: Option<ParseError>)

  /** The result of a scalar or a key as a turn. */
  function TurnOf(p: Parsed, state: State, stack: seq<Frame>): Turn {
    if p.error.Some? then Stopped(p.error) else Moved(Config(state, p.pos, stack), p.events)
  }

  /** The state to restore when a container opened in state `src` ends. */
  function Enclosing(src: State): State {
    match src
    case ArrayInitialState => ElementState
    case ElementDelimiterState => ElementState
    case KeyValueDelimiterState => MemberValueState
    case _ => src
  }

  /** `Transit` from `c.state` towards the predicted state `dst`. */
  function Transit(s: string, c: Config, dst: State, opt: Options): (r: Turn)
    requires c.pos < |s|
    requires dst == Predict(c.state, Tokenize(s[c.pos]))
    ensures r.Moved? ==> c.pos < r.config.pos <= |s|
  {
    match dst
    case ErrorState => Stopped(None)
    case ObjectInitialState =>
      Moved(Config(dst, c.pos + 1, c.stack + [Frame(Enclosing(c.state), 0)]), [StartObject])
    case ArrayInitialState =>
      Moved(Config(dst, c.pos + 1, c.stack + [Frame(Enclosing(c.state), 0)]), [StartArray])
    case MemberKeyState => TurnOf(ParseString(s, c.pos, true), dst, c.stack)
    case KeyValueDelimiterState => Moved(Config(dst, c.pos + 1, c.stack), [])
    case MemberValueState => TurnOf(ParseScalar(s, c.pos, opt), dst, c.stack)
    case ElementState => TurnOf(ParseScalar(s, c.pos, opt), dst, c.stack)
    case MemberDelimiterState => Delimit(c, dst)
    case ElementDelimiterState => Delimit(c, dst)
    case ObjectFinishState =>
      if !opt.trailingCommas && c.state.MemberDelimiterState? then Stopped(Some(ParseError(ObjectMissName, c.pos)))
      else Leave(c, c.state.MemberValueState?, true)
    case ArrayFinishState =>
      if !opt.trailingCommas && c.state.ElementDelimiterState? then Stopped(Some(ParseError(ValueInvalid, c.pos)))
      else Leave(c, c.state.ElementState?, false)
    case _ => TurnOf(ParseScalar(s, c.pos, opt), FinishState, c.stack)
  }

  /** A comma: the count on top of the stack goes up. */
  function Delimit(c: Config, dst: State): Turn {
    if c.stack == [] then Stopped(None)
    else
      var n := |c.stack| - 1;
      Moved(Config(dst, c.pos + 1, c.stack[..n] + [c.stack[n].(count := c.stack[n].count + 1)]), [])
  }

  /** The end of a container: the frame is popped, and the last element counted if it was not followed by a comma. */
  function Leave(c: Config, last: bool, isObject: bool): Turn {
    if c.stack == [] then Stopped(None)
    else
      var n := |c.stack| - 1;
      var count := if last then c.stack[n].count + 1 else c.stack[n].count;
      var state := if c.stack[n].state.StartState? then FinishState else c.stack[n].state;
      Moved(Config(state, c.pos + 1, c.stack[..n]), [if isObject then EndObject(count) else EndArray(count)])
  }

  /** `HandleError` when no error is set yet. */
  function HandleError(state: State): ParseErrorCode {
    match state
    case StartState => DocumentEmpty
    case FinishState => DocumentRootNotSingular
    case ObjectInitialState => ObjectMissName
    case MemberDelimiterState => ObjectMissName
    case MemberKeyState => ObjectMissColon
    case MemberValueState => ObjectMissCommaOrCurlyBracket
    case KeyValueDelimiterState => ValueInvalid
    case ArrayInitialState => ValueInvalid
    case ElementDelimiterState => ValueInvalid
    case _ => ArrayMissCommaOrSquareBracket
  }

  /** The loop of `IterativeParse` from its head. */
  function Run(s: string, c: Config, opt: Options): Parsed
    requires c.pos <= |s|
    decreases |s| - c.pos, 1
  {
    if Peek(s, c.pos) == '\0' then
      if c.state.FinishState? then Done(c.pos, []) else Fail(HandleError(c.state), c.pos)
    else
      var turn := Transit(s, c, Predict(c.state, Tokenize(s[c.pos])), opt);
      match turn
      case Stopped(error) =>
        if error.Some? then Parsed(error.value.offset, [], error) else Fail(HandleError(c.state), c.pos)
      case Moved(next, events) =>
        After(events, Resume(s, next, opt))
  }

  /** The end of a turn: parsing stops after the root if asked to, and blanks are skipped. */
  function Resume(s: string, c: Config, opt: Options): Parsed
    requires c.pos <= |s|
    decreases |s| - c.pos, 2
  {
    if opt.stopWhenDone && c.state.FinishState? then Done(c.pos, [])
    else
      var skip := Skip(s, c.pos, opt);
      if skip.error.Some? then skip else Run(s, c.(pos := skip.pos), opt)
  }

  /** `IterativeParse`. */
  function IterativeParse(s: string, opt: Options): Parsed {
    var skip := Skip(s, 0, opt);
    if skip.error.Some? then skip else Run(s, Config(StartState, skip.pos, []), opt)
  }

  // ----- The two parsers agree -----

  predicate ExpectsValue(state: State) {
    state.StartState? || state.ArrayInitialState? || state.ElementDelimiterState? || state.KeyValueDelimiterState?
  }

  /** The state after a value that began in state `src`. */
  function AfterValue(src: State): State {
    if src.StartState? then FinishState else Enclosing(src)
  }

  predicate IsPunctuation(c: char) {
    c == ']' || c == '}' || c == ',' || c == ':'
  }

  /** Going on from `c` after a stretch of parsing. */
  function Continue(s: string, c: Config, p: Parsed, opt: Options): Parsed
    requires p.error.None? ==> p.pos <= |s|
  {
    if p.error.Some? then p else After(p.events, Resume(s, c.(pos := p.pos), opt))
  }

  lemma AfterAfter(a: seq<Event>, b: seq<Event>, p: Parsed)
    ensures After(a, After(b, p)) == After(a + b, p)
  {
    assert a + (b + p.events) == a + b + p.events;
  }

  lemma AfterNothing(p: Parsed)
    ensures After([], p) == p
  {
    assert [] + p.events == p.events;
  }

  // Single turns of the loop

  lemma RunMoved(s: string, c: Config, next: Config, events: seq<Event>, opt: Options)
    requires c.pos < |s| && s[c.pos] != '\0'
    requires Transit(s, c, Predict(c.state, Tokenize(s[c.pos])), opt) == Moved(next, events)
    ensures Run(s, c, opt) == After(events, Resume(s, next, opt))
  {
  }

  lemma ResumeRuns(s: string, c: Config, opt: Options)
    requires c.pos <= |s| && !c.state.FinishState?
    ensures var skip := Skip(s, c.pos, opt);
            Resume(s, c, opt) == if skip.error.Some? then skip else Run(s, c.(pos := skip.pos), opt)
  {
  }

  /** Punctuation or the end of the text where a value must begin. */
  lemma NoValueTurn(s: string, c: Config, opt: Options)
    requires c.pos <= |s| && ExpectsValue(c.state) && !c.state.StartState?
    requires Peek(s, c.pos) == '\0' || IsPunctuation(Peek(s, c.pos))
    requires c.state.ArrayInitialState? || (opt.trailingCommas && c.state.ElementDelimiterState?) ==> Peek(s, c.pos) != ']'
    ensures Run(s, c, opt) == Fail(ValueInvalid, c.pos)
  {
  }

  lemma OpenTurn(s: string, c: Config, opt: Options)
    requires c.pos <= |s| && ExpectsValue(c.state) && (Peek(s, c.pos) == '[' || Peek(s, c.pos) == '{')
    ensures var isArray := Peek(s, c.pos) == '[';
            Run(s, c, opt) ==
              After([if isArray then StartArray else StartObject],
                    Resume(s, Config(if isArray then ArrayInitialState else ObjectInitialState, c.pos + 1,
                                     c.stack + [Frame(Enclosing(c.state), 0)]), opt))
  {
    hide Resume, Skip, ParseScalar, ParseString;
  }

  /** A scalar that fails emits nothing and stands at its error. */
  lemma ScalarFails(s: string, i: nat, opt: Options)
    requires i <= |s|
    ensures var p := ParseScalar(s, i, opt);
            p.error.Some? ==> p == Parsed(p.error.value.offset, [], p.error)
  {
    hide Matching, ParseStringBody, DigitsEnd, WholeEnd, FractionDigits, IntegerEvent;
  }

  lemma ScalarTurn(s: string, c: Config, opt: Options)
    requires c.pos <= |s| && ExpectsValue(c.state)
    requires var p := Peek(s, c.pos); p != '\0' && !IsPunctuation(p) && p != '[' && p != '{'
    ensures Run(s, c, opt) == Continue(s, Config(AfterValue(c.state), c.pos, c.stack), ParseScalar(s, c.pos, opt), opt)
  {
    hide Resume, Skip, ParseScalar, Delimit, Leave;
    var p := ParseScalar(s, c.pos, opt);
    ScalarFails(s, c.pos, opt);
    if p.error.None? {
      RunMoved(s, c, Config(AfterValue(c.state), p.pos, c.stack), p.events, opt);
    }
  }

  lemma CommaTurn(s: string, c: Config, opt: Options)
    requires c.pos <= |s| && Peek(s, c.pos) == ',' && (c.state.ElementState? || c.state.MemberValueState?) && |c.stack| > 0
    ensures var top := c.stack[|c.stack| - 1];
            Run(s, c, opt) ==
              Resume(s, Config(if c.state.ElementState? then ElementDelimiterState else MemberDelimiterState, c.pos + 1,
                               c.stack[..|c.stack| - 1] + [top.(count := top.count + 1)]), opt)
  {
    var top := c.stack[|c.stack| - 1];
    var next := Config(if c.state.ElementState? then ElementDelimiterState else MemberDelimiterState, c.pos + 1,
                       c.stack[..|c.stack| - 1] + [top.(count := top.count + 1)]);
    RunMoved(s, c, next, [], opt);
    AfterNothing(Resume(s, next, opt));
  }

  /** The state restored by the frame of a container. */
  function Restored(frame: Frame): State {
    if frame.state.StartState? then FinishState else frame.state
  }

  lemma CloseArrayTurn(s: string, c: Config, opt: Options)
    requires c.pos <= |s| && Peek(s, c.pos) == ']' && |c.stack| > 0
    requires c.state.ArrayInitialState? || c.state.ElementState? || (opt.trailingCommas && c.state.ElementDelimiterState?)
    ensures var top := c.stack[|c.stack| - 1];
            Run(s, c, opt) ==
              After([EndArray(if c.state.ElementState? then top.count + 1 else top.count)],
                    Resume(s, Config(Restored(top), c.pos + 1, c.stack[..|c.stack| - 1]), opt))
  {
    hide Resume, Skip, ParseScalar, ParseString;
  }

  lemma CloseObjectTurn(s: string, c: Config, opt: Options)
    requires c.pos <= |s| && Peek(s, c.pos) == '}' && |c.stack| > 0
    requires c.state.ObjectInitialState? || c.state.MemberValueState? || (opt.trailingCommas && c.state.MemberDelimiterState?)
    ensures var top := c.stack[|c.stack| - 1];
            Run(s, c, opt) ==
              After([EndObject(if c.state.MemberValueState? then top.count + 1 else top.count)],
                    Resume(s, Config(Restored(top), c.pos + 1, c.stack[..|c.stack| - 1]), opt))
  {
    hide Resume, Skip, ParseScalar, ParseString;
  }

  /** After an element or a member's value: neither a comma nor the closing bracket. */
  lemma NoCommaTurn(s: string, c: Config, opt: Options)
    requires c.pos <= |s| && (c.state.ElementState? || c.state.MemberValueState?)
    requires Peek(s, c.pos) != ',' && Peek(s, c.pos) != (if c.state.ElementState? then ']' else '}')
    ensures Run(s, c, opt) ==
            Fail(if c.state.ElementState? then ArrayMissCommaOrSquareBracket else ObjectMissCommaOrCurlyBracket, c.pos)
  {
    hide Resume, Skip, ParseScalar, ParseString;
  }

  lemma KeyTurn(s: string, c: Config, opt: Options)
    requires c.pos <= |s| && Peek(s, c.pos) == '"' && (c.state.ObjectInitialState? || c.state.MemberDelimiterState?)
    ensures Run(s, c, opt) == Continue(s, Config(MemberKeyState, c.pos, c.stack), ParseString(s, c.pos, true), opt)
  {
  }

  lemma NoKeyTurn(s: string, c: Config, opt: Options)
    requires c.pos <= |s| && Peek(s, c.pos) != '"' && (c.state.ObjectInitialState? || c.state.MemberDelimiterState?)
    requires c.state.ObjectInitialState? || opt.trailingCommas ==> Peek(s, c.pos) != '}'
    ensures Run(s, c, opt) == Fail(ObjectMissName, c.pos)
  {
  }

  lemma ColonTurn(s: string, c: Config, opt: Options)
    requires c.pos <= |s| && c.state.MemberKeyState?
    ensures Run(s, c, opt) ==
            if Peek(s, c.pos) == ':' then Resume(s, Config(KeyValueDelimiterState, c.pos + 1, c.stack), opt)
            else Fail(ObjectMissColon, c.pos)
  {
    hide Resume, Skip, ParseScalar, ParseString;
    if Peek(s, c.pos) == ':' {
      var next := Config(KeyValueDelimiterState, c.pos + 1, c.stack);
      RunMoved(s, c, next, [], opt);
      AfterNothing(Resume(s, next, opt));
    }
  }

  // Whole values

  /** Punctuation or the end of the text where a value must begin: no number starts with it. */
  lemma NoValue(s: string, i: nat, opt: Options)
    requires i <= |s| && (Peek(s, i) == '\0' || IsPunctuation(Peek(s, i)))
    ensures ParseValue(s, i, opt) == Fail(ValueInvalid, i)
  {
  }

  /**
   From a state in which a value may begin, the loop goes through a whole value
   and comes out as the recursive parser does.
   */
  lemma {:induction false} RunValue(s: string, c: Config, opt: Options)
    requires c.pos <= |s| && ExpectsValue(c.state)
    requires c.state.StartState? ==> Peek(s, c.pos) != '\0' && !IsPunctuation(Peek(s, c.pos))
    requires c.state.ArrayInitialState? || (opt.trailingCommas && c.state.ElementDelimiterState?) ==> Peek(s, c.pos) != ']'
    ensures Run(s, c, opt) == Continue(s, Config(AfterValue(c.state), c.pos, c.stack), ParseValue(s, c.pos, opt), opt)
    decreases |s| - c.pos, 3
  {
    hide Run, Resume, Skip, ParseArray, ParseObject, ParseScalar;
    var p := Peek(s, c.pos);
    if p == '\0' || IsPunctuation(p) {
      NoValue(s, c.pos, opt);
      NoValueTurn(s, c, opt);
    } else if p == '[' || p == '{' {
      OpenTurn(s, c, opt);
      var start := if p == '[' then StartArray else StartObject;
      var inner := Config(if p == '[' then ArrayInitialState else ObjectInitialState, c.pos + 1,
                          c.stack + [Frame(Enclosing(c.state), 0)]);
      assert inner.stack[..|c.stack|] == c.stack;
      RunInside(s, inner, c.stack, opt);
      ContinueAfter(s, Config(AfterValue(c.state), c.pos, c.stack), [start], Content(s, inner, opt), opt);
    } else {
      ScalarTurn(s, c, opt);
    }
  }

  lemma ContinueAfter(s: string, c: Config, events: seq<Event>, p: Parsed, opt: Options)
    requires p.error.None? ==> p.pos <= |s|
    ensures After(events, Continue(s, c, p, opt)) == Continue(s, c, After(events, p), opt)
  {
    if p.error.None? {
      AfterAfter(events, p.events, Resume(s, c.(pos := p.pos), opt));
    }
  }

  /** What the recursive parser reads just inside a container. */
  function Content(s: string, c: Config, opt: Options): (r: Parsed)
    requires c.pos <= |s|
    ensures r.error.None? ==> c.pos < r.pos <= |s|
  {
    if c.state.ArrayInitialState? then ParseArray(s, c.pos, opt) else ParseObject(s, c.pos, opt)
  }

  /** Just inside a container, before the blanks. */
  lemma {:induction false} RunInside(s: string, c: Config, outer: seq<Frame>, opt: Options)
    requires c.pos <= |s| && (c.state.ArrayInitialState? || c.state.ObjectInitialState?)
    requires |c.stack| > 0 && c.stack[..|c.stack| - 1] == outer && c.stack[|c.stack| - 1].count == 0
    ensures Resume(s, c, opt) == Continue(s, Config(Restored(c.stack[|c.stack| - 1]), c.pos, outer), Content(s, c, opt), opt)
    decreases |s| - c.pos, 5
  {
    hide Run, Resume, Transit, Predict, Tokenize, Skip, ParseElements, ParseMembers, Enclosing;
    var skip := Skip(s, c.pos, opt);
    ResumeRuns(s, c, opt);
    if skip.error.None? {
      var inner := c.(pos := skip.pos);
      if c.state.ArrayInitialState? {
        if Peek(s, skip.pos) == ']' {
          CloseArrayTurn(s, inner, opt);
        } else {
          RunElements(s, inner, outer, opt);
        }
      } else if Peek(s, skip.pos) == '}' {
        CloseObjectTurn(s, inner, opt);
      } else {
        RunMembers(s, inner, outer, opt);
      }
    }
  }

  /** Where an element must begin. */
  lemma {:induction false} RunElements(s: string, c: Config, outer: seq<Frame>, opt: Options)
    requires c.pos <= |s| && (c.state.ArrayInitialState? || c.state.ElementDelimiterState?)
    requires |c.stack| > 0 && c.stack[..|c.stack| - 1] == outer
    requires c.state.ArrayInitialState? || opt.trailingCommas ==> Peek(s, c.pos) != ']'
    ensures Run(s, c, opt) ==
            Continue(s, Config(Restored(c.stack[|c.stack| - 1]), c.pos, outer),
                     ParseElements(s, c.pos, c.stack[|c.stack| - 1].count, opt), opt)
    decreases |s| - c.pos, 4
  {
    hide Run, Resume, Skip, ParseValue, ParseElementsRest;
    var top := c.stack[|c.stack| - 1];
    var value := ParseValue(s, c.pos, opt);
    RunValue(s, c, opt);
    if value.error.None? {
      var after := Config(ElementState, value.pos, c.stack);
      RunElementsRest(s, after, outer, opt);
      ContinueAfter(s, Config(Restored(top), c.pos, outer), value.events, ParseElementsRest(s, value.pos, top.count + 1, opt), opt);
    }
  }

  /** After an element. */
  lemma {:induction false} RunElementsRest(s: string, c: Config, outer: seq<Frame>, opt: Options)
    requires c.pos <= |s| && c.state.ElementState?
    requires |c.stack| > 0 && c.stack[..|c.stack| - 1] == outer
    ensures Resume(s, c, opt) ==
            Continue(s, Config(Restored(c.stack[|c.stack| - 1]), c.pos, outer),
                     ParseElementsRest(s, c.pos, c.stack[|c.stack| - 1].count + 1, opt), opt)
    decreases |s| - c.pos, 5
  {
    hide Run, Resume, Transit, Predict, Tokenize, Skip, ParseValue, ParseElements, ParseMembers, Enclosing;
    var top := c.stack[|c.stack| - 1];
    var skip := Skip(s, c.pos, opt);
    ResumeRuns(s, c, opt);
    if skip.error.None? {
      var inner := c.(pos := skip.pos);
      if Peek(s, skip.pos) == ',' {
        CommaTurn(s, inner, opt);
        var delimited := Config(ElementDelimiterState, skip.pos + 1, outer + [top.(count := top.count + 1)]);
        var next := Skip(s, skip.pos + 1, opt);
        assert delimited.stack[..|outer|] == outer;
        ResumeRuns(s, delimited, opt);
        if next.error.None? {
          if opt.trailingCommas && Peek(s, next.pos) == ']' {
            CloseArrayTurn(s, delimited.(pos := next.pos), opt);
          } else {
            RunElements(s, delimited.(pos := next.pos), outer, opt);
          }
        }
      } else if Peek(s, skip.pos) == ']' {
        CloseArrayTurn(s, inner, opt);
      } else {
        NoCommaTurn(s, inner, opt);
      }
    }
  }

  /** Where a member's name must begin. */
  lemma {:induction false} RunMembers(s: string, c: Config, outer: seq<Frame>, opt: Options)
    requires c.pos <= |s| && (c.state.ObjectInitialState? || c.state.MemberDelimiterState?)
    requires |c.stack| > 0 && c.stack[..|c.stack| - 1] == outer
    requires c.state.ObjectInitialState? || opt.trailingCommas ==> Peek(s, c.pos) != '}'
    ensures Run(s, c, opt) ==
            Continue(s, Config(Restored(c.stack[|c.stack| - 1]), c.pos, outer),
                     ParseMembers(s, c.pos, c.stack[|c.stack| - 1].count, opt), opt)
    decreases |s| - c.pos, 4
  {
    RunName(s, c, opt);
    var name := ParseName(s, c.pos, opt);
    if name.error.None? {
      var top := c.stack[|c.stack| - 1];
      var restored := Config(Restored(top), c.pos, outer);
      RunMemberValue(s, Config(KeyValueDelimiterState, name.pos, c.stack), outer, opt);
      ContinueAfter(s, restored, name.events, MemberContent(s, name.pos, top.count, opt), opt);
    }
  }

  /** What the recursive parser reads from a member's value on. */
  function MemberContent(s: string, i: nat, count: nat, opt: Options): (r: Parsed)
    requires i <= |s|
    ensures r.error.None? ==> i < r.pos <= |s|
  {
    hide Run, Resume, Skip, ParseString, ParseColon;
    var value := ParseValue(s, i, opt);
    if value.error.Some? then value else After(value.events, ParseMembersRest(s, value.pos, count + 1, opt))
  }

  lemma {:induction false} RunMemberValue(s: string, c: Config, outer: seq<Frame>, opt: Options)
    requires c.pos <= |s| && c.state.KeyValueDelimiterState?
    requires |c.stack| > 0 && c.stack[..|c.stack| - 1] == outer
    ensures Run(s, c, opt) ==
            Continue(s, Config(Restored(c.stack[|c.stack| - 1]), c.pos, outer),
                     MemberContent(s, c.pos, c.stack[|c.stack| - 1].count, opt), opt)
    decreases |s| - c.pos, 4
  {
    hide Run, Resume, Transit, Predict, Tokenize, Skip, ParseValue, ParseElements, ParseMembersRest;
    var top := c.stack[|c.stack| - 1];
    var value := ParseValue(s, c.pos, opt);
    RunValue(s, c, opt);
    if value.error.None? {
      RunMembersRest(s, Config(MemberValueState, value.pos, c.stack), outer, opt);
      ContinueAfter(s, Config(Restored(top), c.pos, outer), value.events, ParseMembersRest(s, value.pos, top.count + 1, opt), opt);
    }
  }

  /** A name and its colon, up to where the member's value must begin. */
  lemma {:induction false} RunName(s: string, c: Config, opt: Options)
    requires c.pos <= |s| && (c.state.ObjectInitialState? || c.state.MemberDelimiterState?)
    requires c.state.ObjectInitialState? || opt.trailingCommas ==> Peek(s, c.pos) != '}'
    ensures var name := ParseName(s, c.pos, opt);
            Run(s, c, opt) ==
              if name.error.Some? then name
              else After(name.events, Run(s, Config(KeyValueDelimiterState, name.pos, c.stack), opt))
  {
    hide Run, Resume, Skip, ParseString;
    if Peek(s, c.pos) == '"' {
      KeyTurn(s, c, opt);
      var name := ParseString(s, c.pos, true);
      if name.error.None? {
        RunColon(s, Config(MemberKeyState, name.pos, c.stack), opt);
      }
    } else {
      NoKeyTurn(s, c, opt);
    }
  }

  lemma RunColon(s: string, c: Config, opt: Options)
    requires c.pos <= |s| && c.state.MemberKeyState?
    ensures var colon := ParseColon(s, c.pos, opt);
            Resume(s, c, opt) ==
              if colon.error.Some? then colon else Run(s, Config(KeyValueDelimiterState, colon.pos, c.stack), opt)
  {
    hide Run, Skip;
    var skip := Skip(s, c.pos, opt);
    ResumeRuns(s, c, opt);
    if skip.error.None? {
      ColonTurn(s, c.(pos := skip.pos), opt);
      if Peek(s, skip.pos) == ':' {
        ResumeRuns(s, Config(KeyValueDelimiterState, skip.pos + 1, c.stack), opt);
      }
    }
  }

  /** After a member's value. */
  lemma {:induction false} RunMembersRest(s: string, c: Config, outer: seq<Frame>, opt: Options)
    requires c.pos <= |s| && c.state.MemberValueState?
    requires |c.stack| > 0 && c.stack[..|c.stack| - 1] == outer
    ensures Resume(s, c, opt) ==
            Continue(s, Config(Restored(c.stack[|c.stack| - 1]), c.pos, outer),
                     ParseMembersRest(s, c.pos, c.stack[|c.stack| - 1].count + 1, opt), opt)
    decreases |s| - c.pos, 5
  {
    hide Run, Resume, Transit, Predict, Tokenize, Skip, ParseValue, ParseElements, ParseMembers, Enclosing;
    var top := c.stack[|c.stack| - 1];
    var skip := Skip(s, c.pos, opt);
    ResumeRuns(s, c, opt);
    if skip.error.None? {
      var inner := c.(pos := skip.pos);
      if Peek(s, skip.pos) == ',' {
        CommaTurn(s, inner, opt);
        var delimited := Config(MemberDelimiterState, skip.pos + 1, outer + [top.(count := top.count + 1)]);
        var next := Skip(s, skip.pos + 1, opt);
        assert delimited.stack[..|outer|] == outer;
        ResumeRuns(s, delimited, opt);
        if next.error.None? {
          if opt.trailingCommas && Peek(s, next.pos) == '}' {
            CloseObjectTurn(s, delimited.(pos := next.pos), opt);
          } else {
            RunMembers(s, delimited.(pos := next.pos), outer, opt);
          }
        }
      } else if Peek(s, skip.pos) == '}' {
        CloseObjectTurn(s, inner, opt);
      } else {
        NoCommaTurn(s, inner, opt);
      }
    }
  }

  /** After the root: only blanks may follow. */
  lemma RunEnd(s: string, c: Config, opt: Options)
    requires c.pos <= |s| && c.state.FinishState?
    ensures Resume(s, c, opt) == ParseEnd(s, c.pos, opt)
  {
  }

  lemma StartTurn(s: string, c: Config, opt: Options)
    requires c.pos <= |s| && c.state.StartState? && (Peek(s, c.pos) == '\0' || IsPunctuation(Peek(s, c.pos)))
    ensures Run(s, c, opt) == Fail(DocumentEmpty, c.pos)
  {
  }

  /**
   The table-driven parser gives the same events and the same result or error
   as the recursive-descent parser on every text, except that it reports an
   empty document where the root starts with `]`, `}`, `,` or `:`.
   */
  lemma ParsersAgree(s: string, opt: Options)
    ensures var skip := Skip(s, 0, opt);
            if skip.error.None? && IsPunctuation(Peek(s, skip.pos)) then
              && IterativeParse(s, opt) == Fail(DocumentEmpty, skip.pos)
              && Parse(s, opt) == Fail(ValueInvalid, skip.pos)
            else IterativeParse(s, opt) == Parse(s, opt)
  {
    var skip := Skip(s, 0, opt);
    if skip.error.None? {
      var c := Config(StartState, skip.pos, []);
      if Peek(s, skip.pos) == '\0' || IsPunctuation(Peek(s, skip.pos)) {
        NoValue(s, skip.pos, opt);
        StartTurn(s, c, opt);
      } else {
        RunValue(s, c, opt);
        var value := ParseValue(s, skip.pos, opt);
        if value.error.None? {
          RunEnd(s, Config(FinishState, value.pos, []), opt);
        }
      }
    }
  }
}
