/** The semaphore of src/locking.c under every interleaving of its threads' steps. One step is one access to the shared
    value; the queue of sleeping threads is left out, so a thread may wake at any time. */
module Semaphore {

  /** `unsigned` has 32 bits. */
  const WIDTH: int := 0x1_0000_0000

  /** Where a thread is: outside; about to read the value; about to compare and swap, having read `seen`; asleep; and
      about to wake another thread. */
  datatype Place = Outside | Reading | Swapping(seen: nat) | Asleep | Waking

  datatype State = State(val: nat, place: map<nat, Place>)

  datatype Act = BeginWait | Read | Swap | WakeUp | Add | EndSignal

  /** A step of one thread. */
  datatype Step = Step(thread: nat, act: Act)

  function At(s: State, t: nat): Place {
    if t in s.place then s.place[t] else Outside
  }

  predicate Enabled(s: State, e: Step) {
    match e.act
    case BeginWait => At(s, e.thread) == Outside
    case Read => At(s, e.thread) == Reading
    case Swap => At(s, e.thread).Swapping?
    case WakeUp => At(s, e.thread) == Asleep
    case Add => At(s, e.thread) == Outside
    case EndSignal => At(s, e.thread) == Waking
  }

  /** The compare-and-swap succeeds, which completes a wait. */
  predicate Completes(s: State, e: Step)
    requires Enabled(s, e)
  {
    e.act == Swap && At(s, e.thread).seen == s.val
  }

  function Next(s: State, e: Step): State
    requires Enabled(s, e)
  {
    var t := e.thread;
    match e.act
    case BeginWait => s.(place := s.place[t := Reading])
    case Read => s.(place := s.place[t := if s.val != 0 then Swapping(s.val) else Asleep])
    case Swap =>
      if At(s, t).seen == s.val then State((s.val - 1) % WIDTH, s.place[t := Outside])
      else s.(place := s.place[t := Reading])
    case WakeUp => s.(place := s.place[t := Reading])
    case Add => State((s.val + 1) % WIDTH, s.place[t := Waking])
    case EndSignal => s.(place := s.place[t := Outside])
  }

  /** Any threads, in any order. */
  ghost predicate IsRun(es: seq<Step>, ss: seq<State>) {
    && |ss| == |es| + 1 && ss[0].place == map[] && ss[0].val < WIDTH
    && forall i | 0 <= i < |es| :: Enabled(ss[i], es[i]) && ss[i + 1] == Next(ss[i], es[i])
  }

  lemma RunPrefix(es: seq<Step>, ss: seq<State>)
    requires IsRun(es, ss) && es != []
    ensures |ss| == |es| + 1
    ensures var n := |es| - 1;
            && IsRun(es[..n], ss[..n + 1]) && ss[..n + 1][n] == ss[n] && ss[..n + 1][0] == ss[0]
            && Enabled(ss[n], es[n]) && ss[n + 1] == Next(ss[n], es[n])
  {
  }

  /** The number of waits that have been completed, and of signals given. */
  function Waits(es: seq<Step>, ss: seq<State>): nat
    requires |ss| == |es| + 1
  {
    if es == [] then 0
    else
      var n := |es| - 1;
      Waits(es[..n], ss[..n + 1]) + if Enabled(ss[n], es[n]) && Completes(ss[n], es[n]) then 1 else 0
  }

  function Signals(es: seq<Step>): nat {
    if es == [] then 0 else Signals(es[..|es| - 1]) + if es[|es| - 1].act == Add then 1 else 0
  }

  /** A thread about to swap has read a value that was not zero. */
  ghost predicate SeenPositive(s: State) {
    s.val < WIDTH && forall t :: At(s, t).Swapping? ==> At(s, t).seen > 0
  }

  lemma NextPositive(s: State, e: Step)
    requires Enabled(s, e) && SeenPositive(s)
    ensures SeenPositive(Next(s, e))
  {
    var s' := Next(s, e);
    forall t | At(s', t).Swapping? ensures At(s', t).seen > 0 {
      if t != e.thread { assert At(s', t) == At(s, t); }
    }
  }

  lemma StepBalance(s: State, e: Step, x: int)
    requires Enabled(s, e) && SeenPositive(s) && s.val == x % WIDTH
    ensures SeenPositive(Next(s, e))
    ensures Next(s, e).val == (x + (if e.act == Add then 1 else 0) - if Completes(s, e) then 1 else 0) % WIDTH
  {
    NextPositive(s, e);
    hide Next, Completes, Enabled;
    StepValue(s, e);
    OneUp(x);
    if Completes(s, e) {
      ValueSeen(s, e);
      OneDown(x);
    }
  }

  lemma OneUp(x: int)
    ensures (x % WIDTH + 1) % WIDTH == (x + 1) % WIDTH
  {
  }

  lemma OneDown(x: int)
    requires x % WIDTH > 0
    ensures x % WIDTH - 1 == (x - 1) % WIDTH
  {
  }

  lemma ValueSeen(s: State, e: Step)
    requires Enabled(s, e) && SeenPositive(s) && Completes(s, e)
    ensures s.val > 0 && e.act != Add
  {
  }

  lemma StepValue(s: State, e: Step)
    requires Enabled(s, e) && SeenPositive(s)
    ensures Next(s, e).val == if e.act == Add then (s.val + 1) % WIDTH else if Completes(s, e) then s.val - 1 else s.val
    ensures e.act == Add ==> !Completes(s, e)
  {
  }

  /** In every run, the value is the initial value plus the signals minus the completed waits, in 32-bit arithmetic. */
  lemma {:induction false} Balance(es: seq<Step>, ss: seq<State>)
    requires IsRun(es, ss)
    ensures SeenPositive(ss[|es|]) && ss[|es|].val == (ss[0].val + Signals(es) - Waits(es, ss)) % WIDTH
    decreases |es|
  {
    if es != [] {
      var n := |es| - 1;
      RunPrefix(es, ss);
      Balance(es[..n], ss[..n + 1]);
      StepBalance(ss[n], es[n], ss[0].val + Signals(es[..n]) - Waits(es[..n], ss[..n + 1]));
    }
  }

  /** As long as fewer signals are given than the value can count, nothing wraps, and no wait completes without a signal
      or an initial unit of its own. */
  lemma {:induction false} ExactBalance(es: seq<Step>, ss: seq<State>)
    requires IsRun(es, ss) && ss[0].val + Signals(es) < WIDTH
    ensures ss[|es|].val + Waits(es, ss) == ss[0].val + Signals(es)
    decreases |es|
  {
    hide IsRun, Next, Completes, Enabled, SeenPositive;
    if es != [] {
      var n := |es| - 1;
      RunPrefix(es, ss);
      ExactBalance(es[..n], ss[..n + 1]);
      Balance(es[..n], ss[..n + 1]);
      StepValue(ss[n], es[n]);
    }
  }

  // ---------- one thread

  /** How often a thread has done one thing. */
  function Count(es: seq<Step>, t: nat, act: Act): nat {
    if es == [] then 0 else Count(es[..|es| - 1], t, act) + if es[|es| - 1] == Step(t, act) then 1 else 0
  }

  /** The number of waits that a thread has completed. */
  function WaitsOf(es: seq<Step>, ss: seq<State>, t: nat): nat
    requires |ss| == |es| + 1
  {
    if es == [] then 0
    else
      var n := |es| - 1;
      WaitsOf(es[..n], ss[..n + 1], t)
      + if es[n].thread == t && Enabled(ss[n], es[n]) && Completes(ss[n], es[n]) then 1 else 0
  }

  predicate InWait(p: Place) {
    p.Reading? || p.Swapping? || p.Asleep?
  }

  lemma StepPlace(s: State, e: Step, t: nat)
    requires Enabled(s, e)
    ensures t != e.thread ==> At(Next(s, e), t) == At(s, t)
    ensures var began := if e == Step(t, BeginWait) then 1 else 0;
            var done := if e.thread == t && Completes(s, e) then 1 else 0;
            (if InWait(At(Next(s, e), t)) then 1 else 0) == (if InWait(At(s, t)) then 1 else 0) + began - done
    ensures var added := if e == Step(t, Add) then 1 else 0;
            var ended := if e == Step(t, EndSignal) then 1 else 0;
            (if At(Next(s, e), t).Waking? then 1 else 0) == (if At(s, t).Waking? then 1 else 0) + added - ended
  {
  }

  /** In every run, a thread has completed each wait that it began, but for the one it is in; and has ended each signal
      that it gave, but for the one it is in. */
  lemma {:induction false} OneByOne(es: seq<Step>, ss: seq<State>, t: nat)
    requires IsRun(es, ss)
    ensures Count(es, t, BeginWait) == WaitsOf(es, ss, t) + if InWait(At(ss[|es|], t)) then 1 else 0
    ensures Count(es, t, Add) == Count(es, t, EndSignal) + if At(ss[|es|], t).Waking? then 1 else 0
    decreases |es|
  {
    hide Next, Completes, Enabled, InWait;
    if es != [] {
      var n := |es| - 1;
      RunPrefix(es, ss);
      OneByOne(es[..n], ss[..n + 1], t);
      StepPlace(ss[n], es[n], t);
    } else {
      OutsideAtFirst(ss[0], t);
    }
  }

  lemma OutsideAtFirst(s: State, t: nat)
    requires s.place == map[]
    ensures !InWait(At(s, t)) && !At(s, t).Waking?
  {
  }

  // ---------- mutexes

  /** The threads that have completed a wait since their last signal. */
  function Holders(es: seq<Step>, ss: seq<State>): set<nat>
    requires |ss| == |es| + 1
  {
    if es == [] then {}
    else
      var n := |es| - 1;
      var before, e := Holders(es[..n], ss[..n + 1]), es[n];
      if e.act == Add then before - {e.thread}
      else if Enabled(ss[n], e) && Completes(ss[n], e) then before + {e.thread}
      else before
  }

  /** Only a holder releases. */
  ghost predicate Disciplined(es: seq<Step>, ss: seq<State>)
    requires |ss| == |es| + 1
    decreases |es|
  {
    es == []
    || (var n := |es| - 1;
        && Disciplined(es[..n], ss[..n + 1])
        && (es[n].act == Add ==> es[n].thread in Holders(es[..n], ss[..n + 1])))
  }

  /** A mutex is a semaphore that starts at one; if only holders release it, it is never held twice. */
  lemma {:induction false} MutexBalance(es: seq<Step>, ss: seq<State>)
    requires IsRun(es, ss) && ss[0].val == 1 && Disciplined(es, ss)
    ensures ss[|es|].val + |Holders(es, ss)| == 1
    decreases |es|
  {
    hide IsRun, Next, Completes, Enabled, SeenPositive;
    if es != [] {
      var n := |es| - 1;
      RunPrefix(es, ss);
      MutexBalance(es[..n], ss[..n + 1]);
      Balance(es[..n], ss[..n + 1]);
      StepValue(ss[n], es[n]);
      var before, e := Holders(es[..n], ss[..n + 1]), es[n];
      if Completes(ss[n], e) {
        assert before == {};
        assert before + {e.thread} == {e.thread};
      }
    }
  }

  lemma MutualExclusion(es: seq<Step>, ss: seq<State>, t: nat, u: nat)
    requires IsRun(es, ss) && ss[0].val == 1 && Disciplined(es, ss)
    requires t in Holders(es, ss) && u in Holders(es, ss)
    ensures t == u
  {
    MutexBalance(es, ss);
    var h := Holders(es, ss);
    if t != u {
      assert |{t, u}| == 2 && {t, u} <= h;
      SubsetSize({t, u}, h);
    }
  }

  lemma {:induction false} SubsetSize(a: set<nat>, b: set<nat>)
    requires a <= b
    ensures |a| <= |b|
    decreases a
  {
    if a != {} {
      var x :| x in a;
      SubsetSize(a - {x}, b - {x});
    }
  }
}
