/**
 The parser that is fed part by part: one thread submits parts of a text, the
 other parses the stream, and both wait on a monitor. A step is one critical
 section, up to the release of the mutex by waiting or by leaving it.
 */
module AsyncParsers {

  /** What the feeding thread does next: a part, the destructor after the last one, the join, nothing. */
  datatype Feeder = Parts(next: nat) | Joining | Joined

  /** The parsing thread reads the stream, has returned from the reader, or has ended. */
  datatype Parser = Reading | Returned | Ended

  /**
   The shared state and the two threads. `src` is what lies between the read
   position and the end of the buffer. `taken`, `submitted` and `accepted` record
   the characters taken, those put into the stream and the number of parts they
   came from.
   */
  datatype State = State(
    src: string,
    completed: bool,
    feeder: Feeder,
    feederAsleep: bool,
    parser: Parser,
    parserAsleep: bool,
    taken: string,
    submitted: string,
    accepted: nat)

  datatype Action =
    | FeederWaits
    | SubmitPart
    | SkipPart
    | Terminate
    | Join
    | ParserWaits
    | Take
    | Return
    | Complete
    | FeederWakes
    | ParserWakes

  function Concat(parts: seq<string>): string {
    if parts == [] then "" else Concat(parts[..|parts| - 1]) + parts[|parts| - 1]
  }

  function Start(): State {
    State("", false, Parts(0), false, Reading, false, "", "", 0)
  }

  /** The condition on which the feeding thread waits before a part and in the destructor. */
  predicate MustWait(s: State) { s.src != "" && !s.completed }

  /**
   When a step can be taken. The reader does not take a null character; it may
   return at any time, as it does after the root if asked to stop there. The last
   two actions are wake-ups without a notification.
   */
  predicate Enabled(s: State, a: Action, parts: seq<string>) {
    match a
    case FeederWaits => s.feeder.Parts? && !s.feederAsleep && MustWait(s)
    case SubmitPart => s.feeder.Parts? && s.feeder.next < |parts| && !s.feederAsleep && !MustWait(s) && !s.completed
    case SkipPart => s.feeder.Parts? && s.feeder.next < |parts| && !s.feederAsleep && !MustWait(s) && s.completed
    case Terminate => s.feeder == Parts(|parts|) && !s.feederAsleep && !MustWait(s)
    case Join => s.feeder.Joining? && s.parser.Ended?
    case ParserWaits => s.parser.Reading? && !s.parserAsleep && s.src == ""
    case Take => s.parser.Reading? && !s.parserAsleep && s.src != "" && s.src[0] != '\0'
    case Return => s.parser.Reading? && !s.parserAsleep
    case Complete => s.parser.Returned?
    case FeederWakes => s.feederAsleep
    case ParserWakes => s.parserAsleep
  }

  function Apply(s: State, a: Action, parts: seq<string>): State
    requires Enabled(s, a, parts)
  {
    match a
    case FeederWaits => s.(feederAsleep := true)
    case SubmitPart =>
      s.(src := parts[s.feeder.next], submitted := s.submitted + parts[s.feeder.next], accepted := s.accepted + 1,
         feeder := Parts(s.feeder.next + 1), parserAsleep := false)
    case SkipPart => s.(feeder := Parts(s.feeder.next + 1))
    case Terminate => s.(src := "\0", submitted := s.submitted + "\0", feeder := Joining, parserAsleep := false)
    case Join => s.(feeder := Joined)
    case ParserWaits => s.(parserAsleep := true)
    case Take =>
      s.(taken := s.taken + [s.src[0]], src := s.src[1..], feederAsleep := s.feederAsleep && |s.src| > 1)
    case Return => s.(parser := Returned)
    case Complete => s.(completed := true, parser := Ended, feederAsleep := false)
    case FeederWakes => s.(feederAsleep := false)
    case ParserWakes => s.(parserAsleep := false)
  }

  /** A run of steps, whichever thread takes each of them. */
  predicate IsRun(s: State, actions: seq<Action>, parts: seq<string>, t: State)
    decreases |actions|
  {
    if actions == [] then s == t
    else Enabled(s, actions[0], parts) && IsRun(Apply(s, actions[0], parts), actions[1..], parts, t)
  }

  /** Nothing is lost or repeated between the parts and the parser. */
  predicate CharactersKept(s: State, parts: seq<string>) {
    && s.accepted <= |parts|
    && s.submitted == Concat(parts[..s.accepted]) + (if s.feeder.Parts? then "" else "\0")
    && s.taken <= s.submitted
    && (!s.completed ==> s.taken + s.src == s.submitted)
    && (s.feeder.Parts? ==> s.accepted <= s.feeder.next <= |parts| && (!s.completed ==> s.accepted == s.feeder.next))
    && (!s.feeder.Parts? && s.accepted < |parts| ==> s.completed)
    && (s.completed ==> s.parser.Ended? && s.taken <= Concat(parts[..s.accepted]) + "\0")
  }

  /** A thread sleeps only while there is nothing for it to do. */
  predicate SleepersHaveReason(s: State) {
    && (s.feederAsleep ==> s.feeder.Parts? && s.src != "" && !s.completed)
    && (s.parserAsleep ==> s.parser.Reading? && s.src == "")
    && (s.completed <==> s.parser.Ended?)
    && (!s.feeder.Parts? && !s.completed ==> s.src == "\0")
    && (s.feeder.Joined? ==> s.parser.Ended?)
  }

  predicate Inv(s: State, parts: seq<string>) {
    CharactersKept(s, parts) && SleepersHaveReason(s)
  }

  lemma ConcatNext(parts: seq<string>, k: nat)
    requires k < |parts|
    ensures Concat(parts[..k + 1]) == Concat(parts[..k]) + parts[k]
  {
    assert parts[..k + 1][..k] == parts[..k];
  }

  lemma StepKeepsCharacters(s: State, a: Action, parts: seq<string>)
    requires Inv(s, parts) && Enabled(s, a, parts)
    ensures CharactersKept(Apply(s, a, parts), parts)
  {
    var t := Apply(s, a, parts);
    match a
    case SubmitPart =>
      ConcatNext(parts, s.accepted);
      assert t.submitted == Concat(parts[..t.accepted]) + "";
    case Terminate =>
      assert s.submitted + "\0" == Concat(parts[..s.accepted]) + "\0";
    case Take =>
      assert s.taken + s.src == s.taken + [s.src[0]] + s.src[1..];
    case Complete =>
      assert Concat(parts[..s.accepted]) + "" == Concat(parts[..s.accepted]);
    case _ =>
  }

  lemma StepKeepsReasons(s: State, a: Action, parts: seq<string>)
    requires Inv(s, parts) && Enabled(s, a, parts)
    ensures SleepersHaveReason(Apply(s, a, parts))
  {
  }

  lemma {:induction false} ConcatPrefix(parts: seq<string>, k: nat)
    requires k <= |parts|
    ensures Concat(parts[..k]) <= Concat(parts)
    decreases |parts| - k
  {
    if k == |parts| {
      assert parts[..k] == parts;
    } else {
      ConcatNext(parts, k);
      ConcatPrefix(parts, k + 1);
    }
  }

  /** The terminator is seen but not taken. */
  predicate PartsOnly(s: State, parts: seq<string>)
    requires s.accepted <= |parts|
  {
    s.taken <= Concat(parts[..s.accepted])
  }

  /** In every interleaving the invariant holds. */
  lemma {:induction false} RunTakesParts(s: State, actions: seq<Action>, parts: seq<string>, t: State)
    requires Inv(s, parts) && PartsOnly(s, parts) && IsRun(s, actions, parts, t)
    ensures Inv(t, parts) && PartsOnly(t, parts)
    decreases |actions|
  {
    if actions != [] {
      var a := actions[0];
      StepKeepsCharacters(s, a, parts);
      StepKeepsReasons(s, a, parts);
      if a.SubmitPart? {
        ConcatNext(parts, s.accepted);
      } else if a.Take? {
        TakeTakesParts(s, parts);
      }
      RunTakesParts(Apply(s, a, parts), actions[1..], parts, t);
    }
  }

  lemma TakeTakesParts(s: State, parts: seq<string>)
    requires Inv(s, parts) && PartsOnly(s, parts) && Enabled(s, Take, parts)
    ensures s.taken + [s.src[0]] <= Concat(parts[..s.accepted])
  {
    var some := Concat(parts[..s.accepted]);
    assert s.submitted[|s.taken|] == s.src[0];
    assert s.feeder.Parts? && some + "" == some;
    assert some[|s.taken|] == s.submitted[|s.taken|];
  }

  /**
   Whatever the interleaving, the parser takes the characters of the parts one
   after the other, with the terminator after the last one, and the two threads
   never sleep at the same time.
   */
  lemma EveryRunIsSafe(actions: seq<Action>, parts: seq<string>, t: State)
    requires IsRun(Start(), actions, parts, t)
    ensures t.taken <= Concat(parts) && t.accepted <= |parts|
    ensures !t.completed ==> t.taken + t.src == Concat(parts[..t.accepted]) + (if t.feeder.Parts? then "" else "\0")
    ensures !t.completed ==> t.accepted == if t.feeder.Parts? then t.feeder.next else |parts|
    ensures t.feederAsleep ==> t.src != "" && !t.completed
    ensures t.parserAsleep ==> t.src == "" && !t.completed
    ensures !(t.feederAsleep && t.parserAsleep)
    ensures t.feeder.Joined? ==> t.parser.Ended?
  {
    assert Concat(parts[..0]) + "" == "";
    RunTakesParts(Start(), actions, parts, t);
    ConcatPrefix(parts, t.accepted);
  }

  // ----- Progress -----

  function Total(parts: seq<string>, from: nat): nat
    decreases |parts| - from
  {
    if from >= |parts| then 0 else |parts[from]| + Total(parts, from + 1)
  }

  /** What is left to do: characters, calls, returns, and threads that have not gone to sleep. */
  function Work(s: State, parts: seq<string>): nat {
    var calls := match s.feeder
                 case Parts(k) => 3 + (if k <= |parts| then |parts| - k else 0)
                 case Joining => 1
                 case Joined => 0;
    var characters := |s.src| + (if s.feeder.Parts? then Total(parts, s.feeder.next) else 0);
    var phases := if s.parser.Reading? then 2 else if s.parser.Returned? then 1 else 0;
    2 * (characters + calls + phases) + (if s.feederAsleep then 0 else 1) + (if s.parserAsleep then 0 else 1)
  }

  /** Every step but a wake-up without a notification leaves less work, so a run ends unless such wake-ups go on for ever. */
  lemma StepLeavesLess(s: State, a: Action, parts: seq<string>)
    requires Inv(s, parts) && Enabled(s, a, parts) && !a.FeederWakes? && !a.ParserWakes?
    ensures Work(Apply(s, a, parts), parts) < Work(s, parts)
  {
  }

  /**
   And until the feeding thread has joined the parsing thread, some step other
   than such a wake-up can be taken, even if the reader returns only at a null
   character.
   */
  lemma NoDeadlock(s: State, parts: seq<string>)
    requires Inv(s, parts) && !s.feeder.Joined?
    ensures exists a: Action ::
              && Enabled(s, a, parts) && !a.FeederWakes? && !a.ParserWakes?
              && (a.Return? ==> s.src != "" && s.src[0] == '\0')
  {
    if s.parser.Returned? {
      assert Enabled(s, Complete, parts);
    } else if s.feeder.Joining? && s.completed {
      assert Enabled(s, Join, parts);
    } else if s.parser.Reading? && s.src != "" {
      assert Enabled(s, if s.src[0] != '\0' then Take else Return, parts);
    } else if s.feeder.Parts? && s.feeder.next < |parts| {
      assert Enabled(s, if s.completed then SkipPart else SubmitPart, parts);
    } else {
      assert Enabled(s, Terminate, parts);
    }
  }

  // ----- The monitor -----

  class AsyncDocumentParser {
    /** The buffer from the read position to its end. */
    var src: string
    var count: nat
    var completed: bool
    /** A thread waits on the condition variable `notEmpty`, or on `finish`. */
    var waitsNotEmpty: bool
    var waitsFinish: bool
    ghost var model: State
    ghost const parts: seq<string>

    ghost predicate Valid()
      reads this
    {
      && Inv(model, parts)
      && src == model.src && completed == model.completed && count == |model.taken|
      && waitsNotEmpty == model.parserAsleep && waitsFinish == model.feederAsleep
    }

    constructor (ghost parts: seq<string>)
      ensures Valid() && model == Start() && this.parts == parts
    {
      src, count, completed := "", 0, false;
      waitsNotEmpty, waitsFinish := false, false;
      model := Start();
      this.parts := parts;
      assert Concat(parts[..0]) + "" == "";
    }

    /** The critical section of `ParsePart`, up to a wait or to the end. */
    method ParsePart(buffer: string) returns (waits: bool)
      requires Valid() && model.feeder.Parts? && model.feeder.next < |parts| && buffer == parts[model.feeder.next]
      requires !model.feederAsleep
      modifies this
      ensures Valid()
      ensures var a := if waits then FeederWaits else if old(completed) then SkipPart else SubmitPart;
              Enabled(old(model), a, parts) && model == Apply(old(model), a, parts)
    {
      waits := src != "" && !completed;
      ghost var a := if waits then FeederWaits else if completed then SkipPart else SubmitPart;
      StepKeepsCharacters(model, a, parts);
      StepKeepsReasons(model, a, parts);
      model := Apply(model, a, parts);
      if waits {
        waitsFinish := true;
      } else if !completed {
        src := buffer;
        waitsNotEmpty := false;
      }
    }

    /** The critical section of the destructor. */
    method Terminate() returns (waits: bool)
      requires Valid() && model.feeder == Parts(|parts|) && !model.feederAsleep
      modifies this
      ensures Valid()
      ensures var a := if waits then FeederWaits else Action.Terminate;
              Enabled(old(model), a, parts) && model == Apply(old(model), a, parts)
    {
      waits := src != "" && !completed;
      ghost var a := if waits then FeederWaits else Action.Terminate;
      StepKeepsCharacters(model, a, parts);
      StepKeepsReasons(model, a, parts);
      model := Apply(model, a, parts);
      if waits {
        waitsFinish := true;
      } else {
        src := "\0";
        waitsNotEmpty := false;
      }
    }

    /** `Peek`: none if the thread has to wait. */
    method Peek() returns (c: char, waits: bool)
      requires Valid() && model.parser.Reading? && !model.parserAsleep
      modifies this
      ensures Valid()
      ensures waits ==> Enabled(old(model), ParserWaits, parts) && model == Apply(old(model), ParserWaits, parts)
      ensures !waits ==> model == old(model) && |model.taken| < |model.submitted| && c == model.submitted[|model.taken|]
    {
      c := '\0';
      waits := src == "";
      if waits {
        StepKeepsCharacters(model, ParserWaits, parts);
        StepKeepsReasons(model, ParserWaits, parts);
        model := Apply(model, ParserWaits, parts);
        waitsNotEmpty := true;
      } else {
        c := src[0];
        assert (model.taken + model.src)[|model.taken|] == src[0];
      }
    }

    /** `Take`, after `Peek` has seen a character that is not null. */
    method Take() returns (c: char)
      requires Valid() && Enabled(model, Action.Take, parts)
      modifies this
      ensures Valid() && model == Apply(old(model), Action.Take, parts)
      ensures c == old(model).submitted[old(count)] && count == old(count) + 1
    {
      assert (model.taken + model.src)[|model.taken|] == src[0];
      StepKeepsCharacters(model, Action.Take, parts);
      StepKeepsReasons(model, Action.Take, parts);
      model := Apply(model, Action.Take, parts);
      count := count + 1;
      c := src[0];
      src := src[1..];
      if src == "" {
        waitsFinish := false;
      }
    }

    /** The end of the parsing thread. */
    method Complete()
      requires Valid() && model.parser.Returned?
      modifies this
      ensures Valid() && completed && model == Apply(old(model), Action.Complete, parts)
    {
      StepKeepsCharacters(model, Action.Complete, parts);
      StepKeepsReasons(model, Action.Complete, parts);
      model := Apply(model, Action.Complete, parts);
      completed := true;
      waitsFinish := false;
    }
  }
}
