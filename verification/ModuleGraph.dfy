/** The prerequisites of kernel modules as a graph, and what a depth-first walk over it keeps. */
module ModuleGraph {
  import opened Options

  /** The resolved prerequisites of a module: `required` and `load_after`. */
  datatype Node = Node(required: seq<Option<nat>>, loadAfter: seq<Option<nat>>)

  type Graph = seq<Node>

  /** `required` first, as both walks do. */
  function Prereqs(n: Node): seq<Option<nat>> {
    n.required + n.loadAfter
  }

  predicate Edge(g: Graph, a: nat, b: nat) {
    a < |g| && Some(b) in Prereqs(g[a])
  }

  predicate Missing(g: Graph, a: nat) {
    a < |g| && None in g[a].required
  }

  predicate IsPath(g: Graph, p: seq<nat>) {
    p != [] && forall i | 0 <= i < |p| - 1 :: Edge(g, p[i], p[i + 1])
  }

  /** `a` depends on `b`, or is `b`. */
  ghost predicate Reach(g: Graph, a: nat, b: nat) {
    exists p :: Goes(g, p, a, b)
  }

  predicate Goes(g: Graph, p: seq<nat>, a: nat, b: nat) {
    IsPath(g, p) && p[0] == a && p[|p| - 1] == b
  }

  lemma ReachSelf(g: Graph, a: nat)
    ensures Reach(g, a, a)
  {
    assert Goes(g, [a], a, a);
  }

  lemma ReachStep(g: Graph, a: nat, b: nat, c: nat)
    requires Reach(g, a, b) && Edge(g, b, c)
    ensures Reach(g, a, c)
  {
    var p :| Goes(g, p, a, b);
    assert Goes(g, p + [c], a, c);
  }

  lemma ReachTrans(g: Graph, a: nat, b: nat, c: nat)
    requires Reach(g, a, b) && Reach(g, b, c)
    ensures Reach(g, a, c)
  {
    var p :| Goes(g, p, a, b);
    var q :| Goes(g, q, b, c);
    var r := p + q[1..];
    forall i | 0 <= i < |r| - 1 ensures Edge(g, r[i], r[i + 1]) {
      if i >= |p| - 1 { assert r[i] == q[i - |p| + 1] && r[i + 1] == q[i - |p| + 2]; }
    }
    assert Goes(g, r, a, c);
  }

  /** Whatever contains a module and the prerequisites of what it contains, contains all it depends on. */
  lemma {:induction false} PathStays(g: Graph, s: set<nat>, p: seq<nat>)
    requires IsPath(g, p) && p[0] in s && forall a: nat, b: nat :: a in s && Edge(g, a, b) ==> b in s
    ensures p[|p| - 1] in s
    decreases |p|
  {
    if |p| > 1 {
      assert Edge(g, p[0], p[1]);
      assert IsPath(g, p[1..]) by {
        forall i | 0 <= i < |p[1..]| - 1
          ensures Edge(g, p[1..][i], p[1..][i + 1])
        {
          assert Edge(g, p[i + 1], p[i + 2]);
        }
      }
      PathStays(g, s, p[1..]);
    }
  }

  lemma ClosureHolds(g: Graph, s: set<nat>, a: nat, b: nat)
    requires a in s && (forall x: nat, y: nat :: x in s && Edge(g, x, y) ==> y in s) && Reach(g, a, b)
    ensures b in s
  {
    var p :| Goes(g, p, a, b);
    PathStays(g, s, p);
  }

  // ---------- the walk

  ghost predicate NoRepeat(s: seq<nat>) {
    forall i, j | 0 <= i < j < |s| :: s[i] != s[j]
  }

  /** The place of `d` in the order: before position `i`; or else it depends on the module there itself. */
  ghost predicate InOrder(g: Graph, order: seq<nat>, i: nat, d: nat)
    requires i < |order|
  {
    d in order[..i] || Reach(g, d, order[i])
  }

  /** The walk is at work on the modules seen but not yet in the order. It may go to modules of `allowed`; all the
      prerequisites there of a module in the order have been seen, and come before it unless they depend on it. */
  ghost predicate Walked(g: Graph, allowed: set<nat>, seen: set<nat>, order: seq<nat>) {
    && seen <= allowed && NoRepeat(order)
    && (forall x | x in order :: x in seen)
    && (forall i: nat, d: nat | i < |order| && d in allowed && Edge(g, order[i], d) ::
          d in seen && InOrder(g, order, i, d))
  }

  ghost predicate AtWork(seen: set<nat>, order: seq<nat>, x: nat) {
    x in seen && x !in order
  }

  /** What a walk from `m` adds. */
  ghost predicate Adds(g: Graph, m: nat, seen: set<nat>, order: seq<nat>, seen': set<nat>, order': seq<nat>) {
    && order <= order' && seen <= seen'
    && (forall x :: AtWork(seen', order', x) <==> AtWork(seen, order, x))
    && (forall x | x in seen' - seen :: Reach(g, m, x))
  }

  /** Coming to a module that has not been seen. */
  lemma Enter(g: Graph, allowed: set<nat>, seen: set<nat>, order: seq<nat>, m: nat)
    requires Walked(g, allowed, seen, order) && m in allowed && m !in seen
    ensures Walked(g, allowed, seen + {m}, order) && AtWork(seen + {m}, order, m)
    ensures forall x :: AtWork(seen + {m}, order, x) <==> x == m || AtWork(seen, order, x)
  {
  }

  /** A walk that has not begun. */
  lemma NothingWalked(g: Graph, allowed: set<nat>)
    ensures Walked(g, allowed, {}, [])
  {
  }

  /** Leaving it, when its prerequisites have been seen. */
  lemma Leave(g: Graph, allowed: set<nat>, seen: set<nat>, order: seq<nat>, m: nat)
    requires Walked(g, allowed, seen, order) && AtWork(seen, order, m)
    requires forall x | AtWork(seen, order, x) :: Reach(g, x, m)
    requires forall d: nat | d in allowed && Edge(g, m, d) :: d in seen
    ensures Walked(g, allowed, seen, order + [m])
  {
    var order' := order + [m];
    forall i: nat, d: nat | i < |order'| && d in allowed && Edge(g, order'[i], d)
      ensures d in seen && InOrder(g, order', i, d)
    {
      assert i < |order| ==> order'[..i] == order[..i] && InOrder(g, order, i, d);
      assert i == |order| ==> order'[..i] == order && (d in order || AtWork(seen, order, d));
    }
  }

  /** When nothing is at work any more, what was seen contains its prerequisites. */
  lemma SeenClosed(g: Graph, allowed: set<nat>, seen: set<nat>, order: seq<nat>)
    requires Walked(g, allowed, seen, order) && (forall x :: !AtWork(seen, order, x))
    ensures forall x: nat, y: nat :: x in seen && y in allowed && Edge(g, x, y) ==> y in seen
    ensures forall x :: x in seen <==> x in order
  {
    forall x: nat, y: nat | x in seen && y in allowed && Edge(g, x, y)
      ensures y in seen
    {
      assert !AtWork(seen, order, x);
      var i :| 0 <= i < |order| && order[i] == x;
    }
    forall x | x in seen ensures x in order { assert !AtWork(seen, order, x); }
  }

  /** None of these modules is on a cycle. */
  ghost predicate Acyclic(g: Graph, s: seq<nat>) {
    forall a: nat, b: nat | a in s && Edge(g, a, b) :: !Reach(g, b, a)
  }

  /** Every module comes after its prerequisites. */
  ghost predicate Topological(g: Graph, order: seq<nat>) {
    forall i: nat, d: nat | i < |order| && Edge(g, order[i], d) :: d in order[..i]
  }

  /** The order of a finished walk is topological exactly if no module in it is on a cycle. This goes for starting and
      for stopping. */
  lemma TopologicalIfAcyclic(g: Graph, allowed: set<nat>, seen: set<nat>, order: seq<nat>)
    requires Walked(g, allowed, seen, order)
    requires forall a: nat, b: nat :: a in order && Edge(g, a, b) ==> b in allowed
    ensures Topological(g, order) <==> Acyclic(g, order)
  {
    if Acyclic(g, order) {
      forall i: nat, d: nat | i < |order| && Edge(g, order[i], d) ensures d in order[..i] {
        assert InOrder(g, order, i, d);
      }
    }
    if Topological(g, order) {
      forall a: nat, b: nat | a in order && Edge(g, a, b) ensures !Reach(g, b, a) {
        if Reach(g, b, a) {
          var p :| Goes(g, p, b, a);
          assert a in order;
          var i :| 0 <= i < |order| && order[i] == a;
          assert b in order[..i];
          var j :| 0 <= j < |order[..i]| && order[..i][j] == b;
          PathGoesBack(g, order, p, j, i);
        }
      }
    }
  }

  /** In a topological order a path never leads forward. */
  lemma {:induction false} PathGoesBack(g: Graph, order: seq<nat>, p: seq<nat>, j: nat, i: nat)
    requires Topological(g, order) && NoRepeat(order) && IsPath(g, p)
    requires j < |order| && order[j] == p[0] && i < |order| && order[i] == p[|p| - 1]
    ensures i <= j
    decreases |p|
  {
    if |p| > 1 {
      assert Edge(g, order[j], p[1]);
      var k :| 0 <= k < j && order[k] == p[1];
      assert IsPath(g, p[1..]) by {
        forall i | 0 <= i < |p[1..]| - 1
          ensures Edge(g, p[1..][i], p[1..][i + 1])
        {
          assert Edge(g, p[i + 1], p[i + 2]);
        }
      }
      PathGoesBack(g, order, p[1..], k, i);
    }
  }

  /** Every module comes before its prerequisites, as an orderly stop would have it. */
  ghost predicate DependentsFirst(g: Graph, order: seq<nat>) {
    forall i: nat, d: nat | i < |order| && Edge(g, order[i], d) && d != order[i] :: d !in order[..i]
  }

  /** The order of a finished walk has every module before its prerequisites only if there are none: of two modules of
      which one needs the other, the needed one is stopped first unless it needs the other too, and then the same goes
      somewhere along the cycle. */
  lemma DependentsNeverFirst(g: Graph, allowed: set<nat>, seen: set<nat>, order: seq<nat>)
    requires Walked(g, allowed, seen, order) && (forall x :: !AtWork(seen, order, x))
    requires forall a: nat, b: nat :: a in order && Edge(g, a, b) ==> b in allowed
    ensures DependentsFirst(g, order) <==> forall a: nat, d: nat | a in order && Edge(g, a, d) :: d == a
  {
    SeenClosed(g, allowed, seen, order);
    if DependentsFirst(g, order) {
      forall a: nat, d: nat | a in order && Edge(g, a, d)
        ensures d == a
      {
        var i :| 0 <= i < |order| && order[i] == a;
        assert d in seen && InOrder(g, order, i, d);
        var j :| 0 <= j < |order| && order[j] == d;
        if d != a {
          assert d !in order[..i];
          var p :| Goes(g, p, d, a);
          PathGoesOn(g, order, p, j, i);
        }
      }
    }
  }

  /** Where dependents come first a path never leads back. */
  lemma {:induction false} PathGoesOn(g: Graph, order: seq<nat>, p: seq<nat>, j: nat, i: nat)
    requires DependentsFirst(g, order) && NoRepeat(order) && IsPath(g, p)
    requires forall a: nat, b: nat :: a in order && Edge(g, a, b) ==> b in order
    requires j < |order| && order[j] == p[0] && i < |order| && order[i] == p[|p| - 1]
    ensures j <= i
    decreases |p|
  {
    if |p| > 1 {
      assert Edge(g, order[j], p[1]) && p[1] in order;
      var k :| 0 <= k < |order| && order[k] == p[1];
      assert IsPath(g, p[1..]) by {
        forall i | 0 <= i < |p[1..]| - 1
          ensures Edge(g, p[1..][i], p[1..][i + 1])
        {
          assert Edge(g, p[i + 1], p[i + 2]);
        }
      }
      PathGoesOn(g, order, p[1..], k, i);
    }
  }
}
