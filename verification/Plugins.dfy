/**
 The life cycle of plugins: initialization and startup go through the required
 plugins first, and shutdown goes backwards over the plugins that run.
 */
module Plugins {

  datatype PluginState = Registered | Initialized | Started | Stopped

  /** Plugins are numbered; entry `p` lists what plugin `p` requires. */
  type Requirements = seq<seq<nat>>

  /** Every requirement is a plugin, and of lower rank than what requires it: there is no cycle. */
  ghost predicate Acyclic(deps: Requirements, rank: seq<nat>) {
    && |rank| == |deps|
    && forall p, i :: 0 <= p < |deps| && 0 <= i < |deps[p]| ==> deps[p][i] < |deps| && rank[deps[p][i]] < rank[p]
  }

  /** A plugin and everything it requires, directly or not. */
  ghost function Closure(p: nat, deps: Requirements, rank: seq<nat>): set<nat>
    requires Acyclic(deps, rank) && p < |deps|
    decreases rank[p], 1, 0
  {
    {p} + ClosureOfFirst(p, |deps[p]|, deps, rank)
  }

  /** What the first `n` requirements of `p` bring with them. */
  ghost function ClosureOfFirst(p: nat, n: nat, deps: Requirements, rank: seq<nat>): set<nat>
    requires Acyclic(deps, rank) && p < |deps| && n <= |deps[p]|
    decreases rank[p], 0, n
  {
    if n == 0 then {} else ClosureOfFirst(p, n - 1, deps, rank) + Closure(deps[p][n - 1], deps, rank)
  }

  /** Everything that the plugins asked for bring with them. */
  ghost function Needed(requested: seq<nat>, deps: Requirements, rank: seq<nat>): set<nat>
    requires Acyclic(deps, rank) && forall k :: 0 <= k < |requested| ==> requested[k] < |deps|
  {
    if requested == [] then {}
    else Needed(requested[..|requested| - 1], deps, rank) + Closure(requested[|requested| - 1], deps, rank)
  }

  ghost function Elements(list: seq<nat>): set<nat> {
    set p | p in list
  }

  predicate NoDuplicates(list: seq<nat>) {
    forall i, j :: 0 <= i < j < |list| ==> list[i] != list[j]
  }

  /** No plugin is listed twice, and each comes after everything that it requires. */
  predicate Ordered(list: seq<nat>, deps: Requirements) {
    && NoDuplicates(list)
    && (forall i :: 0 <= i < |list| ==> list[i] < |deps|)
    && forall i, d :: 0 <= i < |list| && d in deps[list[i]] ==> d in list[..i]
  }

  lemma OrderedAppend(list: seq<nat>, p: nat, deps: Requirements)
    requires Ordered(list, deps) && p < |deps| && p !in list && forall d :: d in deps[p] ==> d in list
    ensures Ordered(list + [p], deps)
  {
    var next := list + [p];
    forall i, d | 0 <= i < |next| && d in deps[next[i]]
      ensures d in next[..i]
    {
      if i < |list| {
        assert next[..i] == list[..i] && next[i] == list[i];
      } else {
        assert next[..i] == list;
      }
    }
  }

  /** The requirements of a listed plugin are listed. */
  lemma OrderedClosed(list: seq<nat>, deps: Requirements, p: nat)
    requires Ordered(list, deps) && p in list
    ensures p < |deps| && forall d :: d in deps[p] ==> d in list
  {
    var i :| 0 <= i < |list| && list[i] == p;
    assert forall d :: d in list[..i] ==> d in list;
  }

  /** The next plugin of a list has its requirements before it. */
  predicate Ready(p: nat, running: seq<nat>, deps: Requirements)
    requires p < |deps|
  {
    forall k :: 0 <= k < |deps[p]| ==> deps[p][k] in running
  }

  lemma NextIsReady(list: seq<nat>, deps: Requirements, i: nat)
    requires Ordered(list, deps) && i < |list|
    ensures list[i] < |deps| && list[i] !in list[..i] && Ready(list[i], list[..i], deps)
  {
  }

  /**
   How many plugins of a list startup gets to: up to the request to quit, and up
   to the first one that throws, which counts as running.
   */
  function StartedCount(list: seq<nat>, failing: set<nat>, quitAfter: nat): (n: nat)
    ensures n <= |list| && n <= quitAfter
    ensures forall k :: 0 <= k < n - 1 ==> list[k] !in failing
    ensures n < |list| && n < quitAfter ==> n > 0 && list[n - 1] in failing
  {
    if list == [] || quitAfter == 0 then 0
    else if list[0] in failing then 1
    else 1 + StartedCount(list[1..], failing, quitAfter - 1)
  }

  lemma StartedNext(list: seq<nat>, failing: set<nat>, quitAfter: nat, i: nat)
    requires i <= |list| && i <= quitAfter
    ensures StartedCount(list[i..], failing, quitAfter - i) ==
            if i == |list| || i == quitAfter then 0
            else if list[i] in failing then 1
            else 1 + StartedCount(list[i + 1..], failing, quitAfter - i - 1)
  {
    if i < |list| {
      assert list[i..][1..] == list[i + 1..];
    }
  }

  /** So is everything they require in turn. */
  lemma {:induction false} OrderedHasClosure(list: seq<nat>, deps: Requirements, rank: seq<nat>, p: nat)
    requires Acyclic(deps, rank) && Ordered(list, deps) && p in list && p < |deps|
    ensures Closure(p, deps, rank) <= Elements(list)
    decreases rank[p], 1, 0
  {
    OrderedClosed(list, deps, p);
    OrderedHasFirst(list, deps, rank, p, |deps[p]|);
  }

  lemma {:induction false} OrderedHasFirst(list: seq<nat>, deps: Requirements, rank: seq<nat>, p: nat, n: nat)
    requires Acyclic(deps, rank) && Ordered(list, deps) && p < |deps| && n <= |deps[p]|
    requires forall d :: d in deps[p] ==> d in list
    ensures ClosureOfFirst(p, n, deps, rank) <= Elements(list)
    decreases rank[p], 0, n
  {
    if n > 0 {
      OrderedHasFirst(list, deps, rank, p, n - 1);
      OrderedHasClosure(list, deps, rank, deps[p][n - 1]);
    }
  }

  function Reversed(list: seq<nat>): (r: seq<nat>)
    ensures |r| == |list|
  {
    if list == [] then [] else [list[|list| - 1]] + Reversed(list[..|list| - 1])
  }

  lemma {:induction false} ReversedAt(list: seq<nat>, k: nat)
    requires k < |list|
    ensures Reversed(list)[k] == list[|list| - 1 - k]
  {
    if k > 0 {
      ReversedAt(list[..|list| - 1], k - 1);
    }
  }

  /** No plugin is stopped twice, and each is stopped before anything that it requires. */
  predicate Backwards(list: seq<nat>, deps: Requirements) {
    && NoDuplicates(list)
    && (forall i :: 0 <= i < |list| ==> list[i] < |deps|)
    && forall a, b :: 0 <= a < |list| && 0 <= b < |list| && list[b] in deps[list[a]] ==> a < b
  }

  lemma ReversedBackwards(list: seq<nat>, deps: Requirements)
    requires Ordered(list, deps)
    ensures Backwards(Reversed(list), deps)
  {
    var r := Reversed(list);
    forall k | 0 <= k < |list|
      ensures r[k] == list[|list| - 1 - k]
    {
      ReversedAt(list, k);
    }
    forall a, b | 0 <= a < |list| && 0 <= b < |list| && r[b] in deps[r[a]]
      ensures a < b
    {
      DependencyEarlier(list, deps, |list| - 1 - a, |list| - 1 - b);
    }
  }

  lemma DependencyEarlier(list: seq<nat>, deps: Requirements, i: nat, j: nat)
    requires Ordered(list, deps) && i < |list| && j < |list| && list[j] in deps[list[i]]
    ensures j < i
  {
    assert list[j] in list[..i];
    var k :| 0 <= k < i && list[..i][k] == list[j];
    assert list[k] == list[j];
  }

  // ----- The states during each phase -----

  /**
   While plugins are initialized: those listed and those whose requirements are
   being initialized, `busy`, have left the registered state.
   */
  ghost predicate Initializing(states: seq<PluginState>, list: seq<nat>, busy: set<nat>, deps: Requirements) {
    && |states| == |deps| && Ordered(list, deps)
    && (forall p :: p in busy ==> p !in list)
    && forall p :: 0 <= p < |deps| ==> states[p] == if p in list || p in busy then Initialized else Registered
  }

  /** While plugins are started. */
  ghost predicate Starting(states: seq<PluginState>, list: seq<nat>, running: seq<nat>, busy: set<nat>, deps: Requirements) {
    && |states| == |deps| && Ordered(list, deps) && Ordered(running, deps)
    && (forall p :: p in busy ==> p !in running && p in list)
    && (forall p :: p in running ==> p in list)
    && forall p :: 0 <= p < |deps| ==>
         states[p] == if p in running || p in busy then Started else if p in list then Initialized else Registered
  }

  /** What shutdown relies on, whether or not startup went through. */
  ghost predicate Running(states: seq<PluginState>, running: seq<nat>, deps: Requirements) {
    && |states| == |deps| && Ordered(running, deps)
    && (forall p :: 0 <= p < |deps| ==> states[p] != Stopped)
    && forall p :: p in running ==> p < |states| && states[p] == Started
  }

  lemma StartingRuns(states: seq<PluginState>, list: seq<nat>, running: seq<nat>, busy: set<nat>, deps: Requirements)
    requires Starting(states, list, running, busy, deps)
    ensures Running(states, running, deps)
  {
  }

  lemma InitializeBegins(states: seq<PluginState>, list: seq<nat>, busy: set<nat>, deps: Requirements, p: nat)
    requires Initializing(states, list, busy, deps) && p < |deps| && states[p] == Registered
    ensures p !in list && p !in busy && Initializing(states[p := Initialized], list, busy + {p}, deps)
  {
  }

  lemma InitializeEnds(states: seq<PluginState>, list: seq<nat>, busy: set<nat>, deps: Requirements, p: nat)
    requires Initializing(states, list, busy + {p}, deps) && p < |deps| && p !in busy
    requires forall k :: 0 <= k < |deps[p]| ==> deps[p][k] in list
    ensures Initializing(states, list + [p], busy, deps) && Elements(list + [p]) == Elements(list) + {p}
  {
    hide Ordered;
    OrderedAppend(list, p, deps);
  }

  lemma StartBegins(states: seq<PluginState>, list: seq<nat>, running: seq<nat>, busy: set<nat>, deps: Requirements, p: nat)
    requires Starting(states, list, running, busy, deps) && p < |deps| && states[p] == Initialized
    ensures p in list && p !in running && p !in busy && Starting(states[p := Started], list, running, busy + {p}, deps)
    ensures forall k :: 0 <= k < |deps[p]| ==> deps[p][k] in list
  {
    OrderedClosed(list, deps, p);
  }

  lemma StartEnds(states: seq<PluginState>, list: seq<nat>, running: seq<nat>, busy: set<nat>, deps: Requirements, p: nat)
    requires Starting(states, list, running, busy + {p}, deps) && p < |deps| && p !in busy && p in list
    requires forall k :: 0 <= k < |deps[p]| ==> deps[p][k] in running
    ensures Starting(states, list, running + [p], busy, deps) && Elements(running + [p]) == Elements(running) + {p}
  {
    hide Ordered;
    OrderedAppend(running, p, deps);
  }

  // ----- The application -----

  class Application {
    const deps: Requirements
    /** The plugins whose own startup throws. */
    const failing: set<nat>
    ghost const rank: seq<nat>
    /** The state of each plugin. */
    var states: seq<PluginState>
    var initializedPlugins: seq<nat>
    var runningPlugins: seq<nat>
    /** The calls of `plugin_shutdown`, in order. */
    ghost var stoppedPlugins: seq<nat>

    constructor (deps: Requirements, failing: set<nat>, ghost rank: seq<nat>)
      requires Acyclic(deps, rank)
      ensures this.deps == deps && this.failing == failing && this.rank == rank
      ensures Initializing(states, [], {}, deps)
      ensures initializedPlugins == runningPlugins == stoppedPlugins == []
    {
      this.deps, this.failing, this.rank := deps, failing, rank;
      states := seq(|deps|, _ => Registered);
      initializedPlugins, runningPlugins, stoppedPlugins := [], [], [];
    }

    /** `plugin::initialize`. */
    method Initialize(p: nat, ghost busy: set<nat>)
      requires Acyclic(deps, rank) && Initializing(states, initializedPlugins, busy, deps) && p < |deps|
      requires forall b :: b in busy ==> b < |deps| && rank[p] < rank[b]
      modifies this`initializedPlugins, this`states
      ensures Initializing(states, initializedPlugins, busy, deps) && p in initializedPlugins
      ensures Elements(initializedPlugins) == old(Elements(initializedPlugins)) + Closure(p, deps, rank)
      decreases rank[p]
    {
      hide Ordered, Elements;
      if states[p] == Registered {
        InitializeBegins(states, initializedPlugins, busy, deps, p);
        states := states[p := Initialized];
        ghost var start := Elements(initializedPlugins);
        var i := 0;
        hide Initializing;
        while i < |deps[p]|
          invariant 0 <= i <= |deps[p]| && Initializing(states, initializedPlugins, busy + {p}, deps)
          invariant forall k :: 0 <= k < i ==> deps[p][k] in initializedPlugins
          invariant Elements(initializedPlugins) == start + ClosureOfFirst(p, i, deps, rank)
        {
          ghost var before := initializedPlugins;
          Initialize(deps[p][i], busy + {p});
          Grown(before, initializedPlugins, Closure(deps[p][i], deps, rank));
          i := i + 1;
        }
        InitializeEnds(states, initializedPlugins, busy, deps, p);
        initializedPlugins := initializedPlugins + [p];
      } else {
        OrderedHasClosure(initializedPlugins, deps, rank, p);
      }
    }

    /** The loops of `initialize_impl` over the plugins asked for. */
    method InitializeAll(requested: seq<nat>)
      requires Acyclic(deps, rank) && Initializing(states, initializedPlugins, {}, deps)
      requires forall k :: 0 <= k < |requested| ==> requested[k] < |deps|
      modifies this`initializedPlugins, this`states
      ensures Initializing(states, initializedPlugins, {}, deps)
      ensures Elements(initializedPlugins) == old(Elements(initializedPlugins)) + Needed(requested, deps, rank)
    {
      hide Initializing, Elements;
      var i := 0;
      while i < |requested|
        invariant 0 <= i <= |requested| && Initializing(states, initializedPlugins, {}, deps)
        invariant Elements(initializedPlugins) == old(Elements(initializedPlugins)) + Needed(requested[..i], deps, rank)
      {
        Initialize(requested[i], {});
        assert requested[..i + 1][..i] == requested[..i];
        i := i + 1;
      }
      assert requested[..i] == requested;
    }

    /** `plugin::startup`; false if it throws. */
    method Startup(p: nat, ghost busy: set<nat>) returns (ok: bool)
      requires Acyclic(deps, rank) && Starting(states, initializedPlugins, runningPlugins, busy, deps)
      requires p in initializedPlugins && p < |deps| && forall b :: b in busy ==> b < |deps| && rank[p] < rank[b]
      modifies this`runningPlugins, this`states
      ensures Running(states, runningPlugins, deps) && (failing == {} ==> ok)
      ensures p in old(runningPlugins) ==> ok && runningPlugins == old(runningPlugins)
      ensures p !in old(runningPlugins) && Ready(p, old(runningPlugins), deps) ==>
                ok == (p !in failing) && runningPlugins == old(runningPlugins) + [p]
      ensures ok ==> Starting(states, initializedPlugins, runningPlugins, busy, deps) && p in runningPlugins
      ensures ok ==> Elements(runningPlugins) == old(Elements(runningPlugins)) + Closure(p, deps, rank)
      decreases rank[p]
    {
      hide Ordered, Elements;
      if states[p] == Initialized {
        StartBegins(states, initializedPlugins, runningPlugins, busy, deps, p);
        states := states[p := Started];
        ghost var start := Elements(runningPlugins);
        var i := 0;
        while i < |deps[p]|
          invariant 0 <= i <= |deps[p]| && Starting(states, initializedPlugins, runningPlugins, busy + {p}, deps)
          invariant forall k :: 0 <= k < i ==> deps[p][k] in runningPlugins
          invariant Elements(runningPlugins) == start + ClosureOfFirst(p, i, deps, rank)
          invariant Ready(p, old(runningPlugins), deps) ==> runningPlugins == old(runningPlugins)
        {
          hide Starting;
          ghost var before := runningPlugins;
          ok := Startup(deps[p][i], busy + {p});
          if !ok {
            return;
          }
          Grown(before, runningPlugins, Closure(deps[p][i], deps, rank));
          i := i + 1;
        }
        StartEnds(states, initializedPlugins, runningPlugins, busy, deps, p);
        runningPlugins := runningPlugins + [p];
        ok := p !in failing;
      } else {
        OrderedHasClosure(runningPlugins, deps, rank, p);
        ok := true;
      }
      StartingRuns(states, initializedPlugins, runningPlugins, busy, deps);
    }

    /**
     The startup loop. `quitAfter` is the number of turns after which another
     thread has asked to quit. An exception ends it with a shutdown.
     */
    method StartupAll(quitAfter: nat) returns (ok: bool)
      requires Acyclic(deps, rank) && Starting(states, initializedPlugins, [], {}, deps)
      requires runningPlugins == stoppedPlugins == []
      modifies this
      ensures var started := old(initializedPlugins)[..StartedCount(old(initializedPlugins), failing, quitAfter)];
              && (ok <==> forall p :: p in started ==> p !in failing)
              && if ok then Running(states, runningPlugins, deps) && runningPlugins == started && stoppedPlugins == []
                 else AllStopped() && stoppedPlugins == Reversed(started)
    {
      hide Ordered, Elements, StartedCount;
      ghost var list := initializedPlugins;
      var i := 0;
      assert list[0..] == list;
      while i < |initializedPlugins|
        invariant 0 <= i <= |list| && i <= quitAfter && stoppedPlugins == [] && initializedPlugins == list
        invariant Starting(states, list, runningPlugins, {}, deps) && runningPlugins == list[..i]
        invariant forall k :: 0 <= k < i ==> list[k] !in failing
        invariant StartedCount(list, failing, quitAfter) == i + StartedCount(list[i..], failing, quitAfter - i)
      {
        StartedNext(list, failing, quitAfter, i);
        if i == quitAfter {
          break;
        }
        NextIsReady(list, deps, i);
        ok := Startup(initializedPlugins[i], {});
        i := i + 1;
        assert list[..i] == list[..i - 1] + [list[i - 1]];
        if !ok {
          assert list[i - 1] in list[..i];
          Shutdown();
          return;
        }
      }
      StartedNext(list, failing, quitAfter, i);
      StartingRuns(states, initializedPlugins, runningPlugins, {}, deps);
      ok := true;
    }

    /** Exactly the plugins that were stopped, each once and before what it requires, are in the stopped state. */
    ghost predicate AllStopped()
      reads this
    {
      && runningPlugins == [] && initializedPlugins == []
      && Backwards(stoppedPlugins, deps)
      && |states| == |deps|
      && forall p :: 0 <= p < |states| ==> (states[p] == Stopped <==> p in stoppedPlugins)
    }

    /** `shutdown`: every running plugin is stopped, the last one started first. */
    method Shutdown()
      requires Running(states, runningPlugins, deps) && stoppedPlugins == []
      modifies this
      ensures AllStopped() && stoppedPlugins == Reversed(old(runningPlugins))
      ensures forall p :: p in old(runningPlugins) ==> p in stoppedPlugins
    {
      hide Ordered, Reversed, Backwards;
      ghost var all := runningPlugins;
      var i := |runningPlugins|;
      OrderedDistinct(all, deps);
      ReversedBackwards(all, deps);
      ReversedElements(all);
      assert all[..i] == all && [] + Reversed(all) == Reversed(all);
      while i > 0
        invariant 0 <= i <= |all| && runningPlugins == all && |states| == |deps|
        invariant stoppedPlugins + Reversed(all[..i]) == Reversed(all)
        invariant forall p :: 0 <= p < |states| ==> (states[p] == Stopped <==> p in all[i..])
        invariant forall k :: 0 <= k < i ==> states[all[k]] == Started
      {
        i := i - 1;
        ReversedLast(all, i);
        assert all[i..] == [all[i]] + all[i + 1..];
        if states[runningPlugins[i]] == Started {
          states := states[runningPlugins[i] := Stopped];
          stoppedPlugins := stoppedPlugins + [runningPlugins[i]];
        }
      }
      ReversedNone();
      assert stoppedPlugins + [] == stoppedPlugins && all[..0] == [] && all[0..] == all;
      runningPlugins := [];
      initializedPlugins := [];
    }

    /**
     A whole life: whatever is asked for, wherever startup is interrupted and
     whichever plugin throws, exactly what was asked for and what that requires
     is initialized, a first part of it is started in that order, and it is
     stopped in the reverse order.
     */
    method Run(requested: seq<nat>, quitAfter: nat) returns (ghost order: seq<nat>)
      requires Acyclic(deps, rank) && Initializing(states, [], {}, deps)
      requires initializedPlugins == runningPlugins == stoppedPlugins == []
      requires forall k :: 0 <= k < |requested| ==> requested[k] < |deps|
      modifies this
      ensures Ordered(order, deps) && Elements(order) == Needed(requested, deps, rank)
      ensures AllStopped()
      ensures stoppedPlugins == Reversed(order[..StartedCount(order, failing, quitAfter)])
    {
      InitializeAll(requested);
      hide Ordered;
      order := initializedPlugins;
      var ok := StartupAll(quitAfter);
      if ok {
        Shutdown();
      }
    }
  }

  lemma Grown(before: seq<nat>, after: seq<nat>, more: set<nat>)
    requires Elements(after) == Elements(before) + more
    ensures forall p :: p in before ==> p in after
    ensures forall p :: p in more ==> p in after
  {
    assert forall p :: p in before ==> p in Elements(before);
    assert forall p :: p in Elements(after) ==> p in after;
  }

  lemma ReversedLast(list: seq<nat>, i: nat)
    requires i < |list|
    ensures Reversed(list[..i + 1]) == [list[i]] + Reversed(list[..i])
  {
    assert list[..i + 1][..i] == list[..i];
  }

  lemma ReversedNone()
    ensures Reversed([]) == []
  {
  }

  lemma OrderedDistinct(list: seq<nat>, deps: Requirements)
    requires Ordered(list, deps)
    ensures forall j, k :: 0 <= j < k < |list| ==> list[j] != list[k]
    ensures forall k :: 0 <= k < |list| ==> list[k] < |deps|
  {
  }

  lemma {:induction false} ReversedElements(list: seq<nat>)
    ensures forall p :: p in Reversed(list) <==> p in list
  {
    if list != [] {
      var n := |list| - 1;
      ReversedElements(list[..n]);
      assert list == list[..n] + [list[n]];
    }
  }
}
