/** Start and stop of the kernel's modules, from src/main.c. */
module Modules {
  import opened ModuleGraph
  import opened Options

  /** The parts of `module_t` that are fixed at build time. */
  datatype Module = Module(name: string, required: seq<string>, loadAfter: seq<string>)

  datatype State = NotInitialised | PrereqsResolved | InitRun | FiniRun

  function Rank(s: State): nat {
    match s
    case NotInitialised => 0
    case PrereqsResolved => 1
    case InitRun => 2
    case FiniRun => 3
  }

  /** The first module of a name. */
  function Find(ms: seq<Module>, name: string): Option<nat> {
    FindFrom(ms, name, 0)
  }

  function FindFrom(ms: seq<Module>, name: string, i: nat): Option<nat>
    requires i <= |ms|
    decreases |ms| - i
  {
    if i == |ms| then None else if ms[i].name == name then Some(i) else FindFrom(ms, name, i + 1)
  }

  /** It is the least one of that name, if there is one. */
  lemma {:induction false} FindIsFirst(ms: seq<Module>, name: string, i: nat)
    requires i <= |ms|
    ensures var r := FindFrom(ms, name, i);
            && (r.Some? ==> i <= r.value < |ms| && ms[r.value].name == name)
            && forall j | i <= j < |ms| && (r.Some? ==> j < r.value) :: ms[j].name != name
    decreases |ms| - i
  {
    if i < |ms| && ms[i].name != name { FindIsFirst(ms, name, i + 1); }
  }

  function FindAll(ms: seq<Module>, names: seq<string>): seq<Option<nat>> {
    if names == [] then [] else [Find(ms, names[0])] + FindAll(ms, names[1..])
  }

  function Resolved(ms: seq<Module>, m: Module): Node {
    Node(FindAll(ms, m.required), FindAll(ms, m.loadAfter))
  }

  function GraphOf(ms: seq<Module>, n: nat): Graph
    requires n <= |ms|
  {
    if n == 0 then [] else GraphOf(ms, n - 1) + [Resolved(ms, ms[n - 1])]
  }

  lemma {:induction false} FindBound(ms: seq<Module>, name: string, i: nat)
    requires i <= |ms|
    ensures FindFrom(ms, name, i).Some? ==> FindFrom(ms, name, i).value < |ms|
    decreases |ms| - i
  {
    if i < |ms| { FindBound(ms, name, i + 1); }
  }

  lemma {:induction false} FindAllBound(ms: seq<Module>, names: seq<string>)
    ensures |FindAll(ms, names)| == |names|
    ensures forall b: nat | Some(b) in FindAll(ms, names) :: b < |ms|
  {
    if names != [] {
      FindBound(ms, names[0], 0);
      FindAllBound(ms, names[1..]);
    }
  }

  lemma {:induction false} GraphBound(ms: seq<Module>, n: nat)
    requires n <= |ms|
    ensures |GraphOf(ms, n)| == n && forall a: nat, b: nat :: Edge(GraphOf(ms, n), a, b) ==> b < |ms|
  {
    if n > 0 {
      GraphBound(ms, n - 1);
      FindAllBound(ms, ms[n - 1].required);
      FindAllBound(ms, ms[n - 1].loadAfter);
      forall a: nat, b: nat | Edge(GraphOf(ms, n), a, b)
        ensures b < |ms|
      {
        if a < n - 1 { assert Edge(GraphOf(ms, n - 1), a, b); }
      }
    }
  }

  /** The resolved prerequisites: in the graph of all modules, each name has become the first module of that name. */
  lemma {:induction false} GraphNames(ms: seq<Module>, n: nat, i: nat)
    requires i < n <= |ms|
    ensures |GraphOf(ms, n)| == n && |GraphOf(ms, n)[i].required| == |ms[i].required|
    ensures |GraphOf(ms, n)[i].loadAfter| == |ms[i].loadAfter|
    ensures forall j | 0 <= j < |ms[i].required| :: GraphOf(ms, n)[i].required[j] == Find(ms, ms[i].required[j])
    ensures forall j | 0 <= j < |ms[i].loadAfter| :: GraphOf(ms, n)[i].loadAfter[j] == Find(ms, ms[i].loadAfter[j])
  {
    GraphBound(ms, n);
    if i < n - 1 {
      GraphNames(ms, n - 1, i);
      GraphBound(ms, n - 1);
    } else {
      GraphBound(ms, n - 1);
      FindAllAt(ms, ms[i].required);
      FindAllAt(ms, ms[i].loadAfter);
    }
  }

  lemma {:induction false} FindAllAt(ms: seq<Module>, names: seq<string>)
    ensures |FindAll(ms, names)| == |names|
    ensures forall j | 0 <= j < |names| :: FindAll(ms, names)[j] == Find(ms, names[j])
  {
    if names != [] { FindAllAt(ms, names[1..]); }
  }

  /** A module needs another exactly if it names it as required or to be loaded before it, and it misses one exactly if
      it requires a name that no module has. */
  lemma NamesNeeded(ms: seq<Module>, a: nat)
    requires a < |ms|
    ensures forall b: nat :: Edge(GraphOf(ms, |ms|), a, b) <==>
            NamedBy(ms, ms[a].required, b) || NamedBy(ms, ms[a].loadAfter, b)
    ensures Missing(GraphOf(ms, |ms|), a) <==>
            exists j :: 0 <= j < |ms[a].required| && Find(ms, ms[a].required[j]) == None
  {
    var g := GraphOf(ms, |ms|);
    GraphNames(ms, |ms|, a);
    forall b: nat
      ensures Edge(g, a, b) <==> NamedBy(ms, ms[a].required, b) || NamedBy(ms, ms[a].loadAfter, b)
    {
      assert Some(b) in Prereqs(g[a]) <==> Some(b) in g[a].required || Some(b) in g[a].loadAfter;
      InNames(ms, ms[a].required, g[a].required, b);
      InNames(ms, ms[a].loadAfter, g[a].loadAfter, b);
    }
  }

  ghost predicate NamedBy(ms: seq<Module>, names: seq<string>, b: nat) {
    exists j :: 0 <= j < |names| && Find(ms, names[j]) == Some(b)
  }

  lemma InNames(ms: seq<Module>, names: seq<string>, found: seq<Option<nat>>, b: nat)
    requires |found| == |names| && forall j | 0 <= j < |names| :: found[j] == Find(ms, names[j])
    ensures Some(b) in found <==> NamedBy(ms, names, b)
  {
    if NamedBy(ms, names, b) {
      var j :| 0 <= j < |names| && Find(ms, names[j]) == Some(b);
      assert found[j] == Some(b);
    }
  }

  function All(n: nat): set<nat> {
    if n == 0 then {} else All(n - 1) + {n - 1}
  }

  lemma {:induction false} AllIs(n: nat)
    ensures |All(n)| == n && forall x: nat :: x in All(n) <==> x < n
  {
    if n > 0 { AllIs(n - 1); }
  }

  ghost predicate AllSeen(ps: seq<Option<nat>>, seen: set<nat>) {
    forall p | p in ps && p.Some? :: p.value in seen
  }

  lemma OneMoreSeen(ps: seq<Option<nat>>, i: nat, seen: set<nat>, seen': set<nat>)
    requires i < |ps| && AllSeen(ps[..i], seen) && seen <= seen' && (ps[i].Some? ==> ps[i].value in seen')
    ensures AllSeen(ps[..i + 1], seen')
  {
    assert ps[..i + 1] == ps[..i] + [ps[i]];
  }

  /** None of the first `i` required modules is missing. */
  ghost predicate AllThere(required: seq<Option<nat>>, i: nat) {
    forall j | 0 <= j < i && j < |required| :: required[j] != None
  }

  class Kernel {
    const modules: seq<Module>
    /** The resolved prerequisites. */
    var graph: Graph
    const states: array<State>
    /** The modules whose `init` was called, in that order; and those that were reached. */
    ghost var started: seq<nat>
    ghost var reached: set<nat>
    /** The same for `fini`. */
    ghost var stopped: seq<nat>
    ghost var leaving: set<nat>

    ghost predicate Valid()
      reads this, states
    {
      && states.Length == |modules| == |graph|
      && (forall a: nat, b: nat :: Edge(graph, a, b) ==> b < |modules|)
      && (forall i | 0 <= i < |modules| :: i in reached <==> Rank(states[i]) >= 2)
      && (forall i | 0 <= i < |modules| :: i in leaving <==> states[i] == FiniRun)
      && Walked(graph, All(|modules|), reached, started) && Walked(graph, reached, leaving, stopped)
    }

    constructor (modules: seq<Module>)
      ensures this.modules == modules && states.Length == |modules| && fresh(states)
    {
      this.modules, graph := modules, [];
      states := new State[|modules|](_ => NotInitialised);
      started, reached, stopped, leaving := [], {}, [], {};
    }

    lemma NothingStarted(test: Option<nat>)
      requires Valid() && started == stopped == [] && reached == leaving == {}
      ensures Starting(test)
    {
    }

    /** Starting one prerequisite of a module at work. */
    method InitPrereq(m: nat, d: nat) returns (ok: bool)
      requires Valid() && AtWork(reached, started, m) && Edge(graph, m, d) && stopped == [] && leaving == {}
      requires forall x | AtWork(reached, started, x) :: Reach(graph, x, m)
      modifies states, this`started, this`reached
      decreases All(|modules|) - reached, 2
      ensures ok ==> Valid() && d in reached && Adds(graph, m, old(reached), old(started), reached, started)
      ensures ok ==> forall x | x in reached - old(reached) :: !Missing(graph, x)
      ensures !ok ==> exists x: nat :: Reach(graph, m, x) && Missing(graph, x)
    {
      forall x | AtWork(reached, started, x) ensures Reach(graph, x, d) { ReachStep(graph, x, m, d); }
      ghost var seen := reached;
      ReachSelf(graph, m);
      ReachStep(graph, m, m, d);
      ok := Init(d);
      if !ok {
        ghost var x: nat :| Reach(graph, d, x) && Missing(graph, x);
        ReachTrans(graph, m, d, x);
      } else {
        forall x | x in reached - seen ensures Reach(graph, m, x) { ReachTrans(graph, m, d, x); }
      }
    }

    /** `init_module`. It fails, which stops the kernel, only if a required module is missing. */
    method Init(m: nat) returns (ok: bool)
      requires Valid() && m < |modules| && stopped == [] && leaving == {}
      requires forall x | AtWork(reached, started, x) :: Reach(graph, x, m)
      modifies states, this`started, this`reached
      decreases All(|modules|) - reached, 1
      ensures ok ==> Valid() && stopped == [] && leaving == {} && m in reached
      ensures ok ==> Adds(graph, m, old(reached), old(started), reached, started)
      ensures ok ==> forall x | x in reached - old(reached) :: !Missing(graph, x)
      ensures !ok ==> exists x: nat :: Reach(graph, m, x) && Missing(graph, x)
    {
      hide Walked, Reach, Edge, Missing;
      if Rank(states[m]) >= 2 {
        return true;
      }
      AllIs(|modules|);
      EnterModule(m);
      ReachSelf(graph, m);
      ghost var reached1 := reached;
      ok := InitPrereqs(m);
      if ok {
        LeaveModule(m);
      }
    }

    method EnterModule(m: nat)
      requires Valid() && m < |modules| && stopped == [] && leaving == {} && Rank(states[m]) < 2
      modifies states, this`reached
      ensures Valid() && m !in old(reached) && reached == old(reached) + {m} && AtWork(reached, started, m)
      ensures forall x :: AtWork(reached, started, x) <==> x == m || AtWork(old(reached), started, x)
    {
      hide Walked, Edge, AtWork, All;
      AllIs(|modules|);
      Enter(graph, All(|modules|), reached, started, m);
      NothingWalked(graph, reached + {m});
      states[m] := InitRun;
      reached := reached + {m};
    }

    ghost method LeaveModule(m: nat)
      requires Valid() && m < |modules| && stopped == [] && leaving == {} && AtWork(reached, started, m)
      requires forall x | AtWork(reached, started, x) :: Reach(graph, x, m)
      requires forall d: nat | Edge(graph, m, d) :: d in reached
      modifies this`started
      ensures Valid() && started == old(started) + [m]
    {
      hide Walked, Edge;
      AllIs(|modules|);
      Leave(graph, All(|modules|), reached, started, m);
      started := started + [m];
    }

    /** The loop of `init_module`. */
    method InitPrereqs(m: nat) returns (ok: bool)
      requires Valid() && stopped == [] && leaving == {} && AtWork(reached, started, m) && m < |modules|
      requires forall x | AtWork(reached, started, x) :: Reach(graph, x, m)
      modifies states, this`started, this`reached
      decreases All(|modules|) - reached, 3
      ensures ok ==> Valid() && stopped == [] && leaving == {}
      ensures ok ==> Adds(graph, m, old(reached), old(started), reached, started)
      ensures ok ==> forall d: nat | Edge(graph, m, d) :: d in reached
      ensures ok ==> forall x | x == m || x in reached - old(reached) :: !Missing(graph, x)
      ensures !ok ==> exists x: nat :: Reach(graph, m, x) && Missing(graph, x)
    {
      hide Walked, Reach, Valid;
      Bounds();
      ReachSelf(graph, m);
      var ps := Prereqs(graph[m]);
      var i := 0;
      while i < |ps|
        invariant 0 <= i <= |ps| && Valid() && stopped == [] && leaving == {} && old(reached) <= reached
        invariant Adds(graph, m, old(reached), old(started), reached, started)
        invariant AllSeen(ps[..i], reached) && AllThere(graph[m].required, i)
        invariant forall x | x in reached - old(reached) :: !Missing(graph, x)
        decreases |ps| - i
      {
        ghost var seen := reached;
        assert i < |graph[m].required| ==> ps[i] == graph[m].required[i];
        if ps[i] == None {
          if i < |graph[m].required| {
            assert Missing(graph, m) && Reach(graph, m, m);
            return false;
          }
        } else {
          var d := ps[i].value;
          ok := InitPrereq(m, d);
          if !ok {
            return;
          }
        }
        OneMoreSeen(ps, i, seen, reached);
        i := i + 1;
      }
      assert ps[..i] == ps;
      ok := true;
    }

    lemma Bounds()
      requires Valid()
      ensures |graph| == |modules|
    {
    }

    /** Stopping one prerequisite of a module at work. */
    method FiniPrereq(m: nat, d: nat)
      requires Valid() && AtWork(leaving, stopped, m) && Edge(graph, m, d) && Settled()
      requires forall x | AtWork(leaving, stopped, x) :: Reach(graph, x, m)
      modifies states, this`stopped, this`leaving
      decreases reached - leaving, 2
      ensures Valid() && (d in reached ==> d in leaving)
      ensures Adds(graph, m, old(leaving), old(stopped), leaving, stopped)
    {
      forall x | AtWork(leaving, stopped, x) ensures Reach(graph, x, d) { ReachStep(graph, x, m, d); }
      ghost var seen := leaving;
      ReachSelf(graph, m);
      ReachStep(graph, m, m, d);
      Fini(d);
      forall x | x in leaving - seen ensures Reach(graph, m, x) { ReachTrans(graph, m, d, x); }
    }

    /** No start is under way, and none has met a missing module. */
    ghost predicate Settled()
      reads this
    {
      (forall x :: !AtWork(reached, started, x)) && forall x | x in reached :: !Missing(graph, x)
    }

    /** `fini_module`. A prerequisite is stopped before the modules that need it. */
    method Fini(m: nat)
      requires Valid() && m < |modules| && Settled()
      requires forall x | AtWork(leaving, stopped, x) :: Reach(graph, x, m)
      modifies states, this`stopped, this`leaving
      decreases reached - leaving, 1
      ensures Valid() && (m in reached ==> m in leaving)
      ensures Adds(graph, m, old(leaving), old(stopped), leaving, stopped)
    {
      if states[m] != InitRun {
        return;
      }
      assert m in reached && m !in leaving;
      Enter(graph, reached, leaving, stopped, m);
      states[m] := FiniRun;
      leaving := leaving + {m};
      ReachSelf(graph, m);
      ghost var leaving1 := leaving;
      var ps := Prereqs(graph[m]);
      var i := 0;
      while i < |ps|
        invariant 0 <= i <= |ps| && Valid() && leaving1 <= leaving
        invariant Adds(graph, m, leaving1, old(stopped), leaving, stopped)
        invariant forall j | 0 <= j < i && ps[j].Some? && ps[j].value in reached :: ps[j].value in leaving
        decreases |ps| - i
      {
        if ps[i] != None {
          FiniPrereq(m, ps[i].value);
        }
        i := i + 1;
      }
      Leave(graph, reached, leaving, stopped, m);
      stopped := stopped + [m];
    }

    /** `find_module`. */
    method FindModule(name: string) returns (r: Option<nat>)
      ensures r == Find(modules, name)
    {
      var i := 0;
      while i < |modules|
        invariant 0 <= i <= |modules| && Find(modules, name) == FindFrom(modules, name, i)
      {
        if modules[i].name == name {
          return Some(i);
        }
        i := i + 1;
      }
      return None;
    }

    method ResolveNames(names: seq<string>) returns (r: seq<Option<nat>>)
      ensures r == FindAll(modules, names)
    {
      r := [];
      for i := 0 to |names|
        invariant FindAll(modules, names) == r + FindAll(modules, names[i..])
      {
        var m := FindModule(names[i]);
        assert names[i..][1..] == names[i + 1..];
        r := r + [m];
      }
    }

    /** The first two loops of `main`, with `resolve_module`. */
    method Resolve()
      requires states.Length == |modules|
      modifies this`graph, this`started, this`reached, this`stopped, this`leaving, states
      ensures Valid() && graph == GraphOf(modules, |modules|) && started == stopped == [] && reached == leaving == {}
      ensures forall j | 0 <= j < |modules| :: states[j] == PrereqsResolved
    {
      for i := 0 to |modules|
        invariant forall j | 0 <= j < i :: states[j] == NotInitialised
      {
        states[i] := NotInitialised;
      }
      graph := [];
      for i := 0 to |modules|
        invariant graph == GraphOf(modules, i)
        invariant forall j | 0 <= j < i :: states[j] == PrereqsResolved
      {
        var required := ResolveNames(modules[i].required);
        var loadAfter := ResolveNames(modules[i].loadAfter);
        graph := graph + [Node(required, loadAfter)];
        states[i] := PrereqsResolved;
      }
      started, stopped, reached, leaving := [], [], {}, {};
      GraphBound(modules, |modules|);
    }

    /** The modules that `main` asks for itself. */
    predicate Root(test: Option<nat>, r: nat) {
      r < |modules| && (Find(modules, "console") == Some(r) || test == None || test == Some(r))
    }

    /** The modules that these depend on. */
    ghost predicate Wanted(g: Graph, test: Option<nat>, x: nat) {
      exists r: nat :: Root(test, r) && Reach(g, r, x)
    }

    /** What holds between the calls that `main` makes to start modules. */
    ghost predicate Starting(test: Option<nat>)
      reads this, states
    {
      Valid() && Settled() && stopped == [] && leaving == {} && forall x: nat | x in reached :: Wanted(graph, test, x)
    }

    /** One call from `main`. */
    method InitRoot(test: Option<nat>, r: nat) returns (ok: bool)
      requires Starting(test) && Root(test, r)
      modifies states, this`started, this`reached
      ensures ok ==> Starting(test) && r in reached && old(reached) <= reached && old(started) <= started
      ensures ok ==> forall x | x in reached - old(reached) :: Reach(graph, r, x)
      ensures !ok ==> exists x: nat :: Wanted(graph, test, x) && Missing(graph, x)
    {
      ghost var before := reached;
      ok := Init(r);
      if ok {
        forall x: nat | x in reached && x !in before ensures Wanted(graph, test, x) && !Missing(graph, x) {}
      } else {
        ghost var x: nat :| Reach(graph, r, x) && Missing(graph, x);
        assert Wanted(graph, test, x);
      }
    }

    /** The first modules started are the console and those that it depends on. */
    ghost predicate ConsoleFirst(first: nat)
      requires Find(modules, "console").Some?
      reads this`graph, this`started
    {
      first <= |started| && forall x: nat :: x in started[..first] <==> Reach(graph, Find(modules, "console").value, x)
    }

    lemma NothingElse(r: nat)
      requires Valid() && Settled() && r in reached && forall x | x in reached :: Reach(graph, r, x)
      ensures forall x: nat :: x in started[..|started|] <==> Reach(graph, r, x)
    {
      AllIs(|modules|);
      SeenClosed(graph, All(|modules|), reached, started);
      assert started[..|started|] == started;
      forall x: nat | Reach(graph, r, x) ensures x in reached { ClosureHolds(graph, reached, r, x); }
    }

    /** The starts of `main`: the console first, then the test module or else all modules. Without a missing module,
        exactly the modules wanted are started. */
    method Start(test: Option<nat>) returns (ok: bool, ghost first: nat)
      requires states.Length == |modules| && (test.Some? ==> test.value < |modules|)
      modifies this`graph, this`started, this`reached, this`stopped, this`leaving, states
      ensures graph == GraphOf(modules, |modules|)
      ensures ok <==> forall x: nat | Wanted(graph, test, x) :: !Missing(graph, x)
      ensures ok ==> Starting(test) && NoRepeat(started) && forall x: nat :: x in started <==> Wanted(graph, test, x)
      ensures ok && Find(modules, "console").Some? ==> ConsoleFirst(first)
    {
      hide Valid, Settled, Reach, GraphOf, NoRepeat, Wanted;
      Resolve();
      NothingStarted(test);
      first := 0;
      ok := true;
      var console := FindModule("console");
      if console.Some? {
        FindBound(modules, "console", 0);
        ok := InitRoot(test, console.value);
        if !ok { return; }
        first := |started|;
        NothingElse(console.value);
      }
      if test.Some? {
        ok := InitRoot(test, test.value);
        if !ok { return; }
      } else {
        for i := 0 to |modules|
          invariant Starting(test) && (console.Some? ==> console.value in reached && ConsoleFirst(first))
          invariant graph == GraphOf(modules, |modules|)
          invariant forall j: nat | j < i :: j in reached
        {
          ok := InitRoot(test, i);
          if !ok { return; }
        }
      }
      AllReached(test);
    }

    lemma AllReached(test: Option<nat>)
      requires Starting(test) && forall r: nat | Root(test, r) :: r in reached
      ensures forall x: nat :: Wanted(graph, test, x) <==> x in started
      ensures (forall x: nat | x in started :: !Missing(graph, x)) && NoRepeat(started)
    {
      AllIs(|modules|);
      SeenClosed(graph, All(|modules|), reached, started);
      forall x: nat | Wanted(graph, test, x)
        ensures x in reached
      {
        var r: nat :| Root(test, r) && Reach(graph, r, x);
        ClosureHolds(graph, reached, r, x);
      }
    }

    /** The last loop of `main`: exactly the modules that were started are stopped, each once. */
    method Stop()
      requires Valid() && Settled() && stopped == [] && leaving == {}
      modifies states, this`stopped, this`leaving
      ensures Valid() && NoRepeat(stopped) && forall x :: x in stopped <==> x in started
      ensures Walked(graph, reached, reached, stopped)
      ensures DependentsFirst(graph, stopped) <==> forall a: nat, d: nat | a in stopped && Edge(graph, a, d) :: d == a
    {
      AllIs(|modules|);
      for i := 0 to |modules|
        invariant Valid() && Settled() && (forall x :: !AtWork(leaving, stopped, x))
        invariant forall j: nat | j < i && j in reached :: j in leaving
      {
        Fini(i);
      }
      SeenClosed(graph, All(|modules|), reached, started);
      SeenClosed(graph, reached, leaving, stopped);
      assert leaving == reached;
      DependentsNeverFirst(graph, reached, leaving, stopped);
    }
  }

  /** The whole of `main`: what was started is what was wanted, and that is stopped again. */
  method Run(modules: seq<Module>, test: Option<nat>) returns (k: Kernel, ok: bool)
    requires test.Some? ==> test.value < |modules|
    ensures k.modules == modules && k.graph == GraphOf(modules, |modules|)
    ensures ok <==> forall x: nat | k.Wanted(k.graph, test, x) :: !Missing(k.graph, x)
    ensures ok ==> NoRepeat(k.started) && forall x: nat :: x in k.started <==> k.Wanted(k.graph, test, x)
    ensures ok ==> NoRepeat(k.stopped) && forall x :: x in k.stopped <==> x in k.started
  {
    hide Kernel.Valid, Kernel.Wanted, NoRepeat, GraphOf;
    k := new Kernel(modules);
    ghost var first;
    ok, first := k.Start(test);
    if ok {
      k.Stop();
    }
  }
}
