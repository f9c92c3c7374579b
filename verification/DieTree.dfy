/** The tree of debugging information entries of a DWARF unit, rebuilt from its serial form as in
    scripts/elftools/dwarf/compileunit.py: the entries come in prefix order, and a null entry closes a list of
    children. */
module DieTree {
  import opened Options

  datatype Tree = Leaf(tag: nat) | Branch(tag: nat, kids: Forest)
  datatype Forest = Nil | Cons(head: Tree, tail: Forest)

  datatype Entry = Null | Entry(tag: nat, hasChildren: bool)

  /** The listing of a tree. */
  function Flat(t: Tree): seq<Entry> {
    match t
    case Leaf(tag) => [Entry(tag, false)]
    case Branch(tag, f) => [Entry(tag, true)] + FlatAll(f) + [Null]
  }

  function FlatAll(f: Forest): seq<Entry> {
    match f
    case Nil => []
    case Cons(h, tl) => Flat(h) + FlatAll(tl)
  }

  function Size(t: Tree): (n: nat)
    ensures n == |Flat(t)| && n > 0
  {
    match t
    case Leaf(_) => 1
    case Branch(_, f) => SizeAll(f) + 2
  }

  function SizeAll(f: Forest): (n: nat)
    ensures n == |FlatAll(f)|
  {
    match f
    case Nil => 0
    case Cons(h, tl) => Size(h) + SizeAll(tl)
  }

  // ---------- the algorithm on positions in the listing

  /** `parentstack`, and what each entry has been given as children and as parent. */
  datatype Links = Links(stack: seq<nat>, kids: map<nat, seq<nat>>, parent: map<nat, nat>)

  function Kids(st: Links, k: nat): seq<nat> {
    if k in st.kids then st.kids[k] else []
  }

  /** One round of the loop, for the entry at position `k`; popping or reading an empty stack raises an exception. */
  function Round(e: Entry, k: nat, st: Links): Option<Links> {
    if st.stack == [] then None
    else
      var top := st.stack[|st.stack| - 1];
      match e
      case Null => Some(st.(stack := st.stack[..|st.stack| - 1]))
      case Entry(_, hasChildren) =>
        Some(Links(if hasChildren then st.stack + [k] else st.stack,
                   st.kids[top := Kids(st, top) + [k]], st.parent[k := top]))
  }

  function Rounds(es: seq<Entry>, k: nat, st: Links): Option<Links>
    decreases |es|
  {
    if es == [] then Some(st)
    else
      match Round(es[0], k, st)
      case None => None
      case Some(st1) => Rounds(es[1..], k + 1, st1)
  }

  lemma OneRound(es: seq<Entry>, i: nat, st: Links)
    requires i < |es|
    ensures Round(es[i], i, st) == None ==> Rounds(es[i..], i, st) == None
    ensures Round(es[i], i, st).Some? ==>
              Rounds(es[i..], i, st) == Rounds(es[i + 1..], i + 1, Round(es[i], i, st).value)
  {
    assert es[i..][1..] == es[i + 1..] && es[i..][0] == es[i];
  }

  lemma {:induction false} RoundsSplit(a: seq<Entry>, b: seq<Entry>, k: nat, st: Links)
    ensures Rounds(a + b, k, st) == match Rounds(a, k, st) case None => None case Some(st1) => Rounds(b, k + |a|, st1)
    decreases |a|
  {
    hide Round;
    if a == [] {
      assert a + b == b;
    } else {
      assert (a + b)[1..] == a[1..] + b && (a + b)[0] == a[0];
      match Round(a[0], k, st)
      case None =>
      case Some(st1) => RoundsSplit(a[1..], b, k + 1, st1);
    }
  }

  // ---------- what it should build

  /** The positions of the trees of a forest whose listing starts at `k`. */
  function Starts(f: Forest, k: nat): seq<nat> {
    match f
    case Nil => []
    case Cons(h, tl) => [k] + Starts(tl, k + Size(h))
  }

  /** The entry at `k` has become the root of `t`: its children are the roots of the trees below, in their order, and
      know it as their parent, and so on down. */
  ghost predicate Shows(st: Links, k: nat, t: Tree)
    decreases t
  {
    match t
    case Leaf(_) => Kids(st, k) == []
    case Branch(_, f) => Kids(st, k) == Starts(f, k + 1) && ShowsAll(st, k, k + 1, f)
  }

  ghost predicate ShowsAll(st: Links, parent: nat, k: nat, f: Forest)
    decreases f
  {
    match f
    case Nil => true
    case Cons(h, tl) =>
      && k in st.parent && st.parent[k] == parent && Shows(st, k, h)
      && ShowsAll(st, parent, k + Size(h), tl)
  }

  /** The entries at these positions are those of `t`. */
  ghost predicate Lists(es: seq<Entry>, k: nat, t: Tree)
    decreases t
  {
    && k < |es|
    && match t
       case Leaf(tag) => es[k] == Entry(tag, false)
       case Branch(tag, f) => es[k] == Entry(tag, true) && ListsAll(es, k + 1, f)
  }

  ghost predicate ListsAll(es: seq<Entry>, k: nat, f: Forest)
    decreases f
  {
    match f
    case Nil => true
    case Cons(h, tl) => Lists(es, k, h) && ListsAll(es, k + Size(h), tl)
  }

  lemma {:induction false} FlatLists(a: seq<Entry>, t: Tree, b: seq<Entry>)
    ensures Lists(a + Flat(t) + b, |a|, t)
    decreases t
  {
    match t
    case Leaf(tag) =>
    case Branch(tag, f) =>
      FlatListsAll(a + [Entry(tag, true)], f, [Null] + b);
      assert a + [Entry(tag, true)] + FlatAll(f) + ([Null] + b) == a + Flat(t) + b;
  }

  lemma {:induction false} FlatListsAll(a: seq<Entry>, f: Forest, b: seq<Entry>)
    ensures ListsAll(a + FlatAll(f) + b, |a|, f)
    decreases f
  {
    match f
    case Nil =>
    case Cons(h, tl) =>
      FlatLists(a, h, FlatAll(tl) + b);
      FlatListsAll(a + Flat(h), tl, b);
      assert a + Flat(h) + (FlatAll(tl) + b) == a + FlatAll(f) + b;
      assert a + Flat(h) + FlatAll(tl) + b == a + FlatAll(f) + b;
  }

  /** The same links at the positions from `lo` up to `hi`. */
  ghost predicate SameLinks(a: Links, b: Links, lo: nat, hi: nat) {
    && (forall k: nat | lo <= k < hi :: Kids(b, k) == Kids(a, k))
    && (forall k: nat | lo <= k < hi :: k in a.parent ==> k in b.parent && b.parent[k] == a.parent[k])
  }

  lemma {:induction false} ShowsFrame(a: Links, b: Links, k: nat, t: Tree)
    requires Shows(a, k, t) && SameLinks(a, b, k, k + Size(t))
    ensures Shows(b, k, t)
    decreases t
  {
    match t
    case Leaf(_) =>
    case Branch(_, f) => ShowsAllFrame(a, b, k, k + 1, f);
  }

  lemma {:induction false} ShowsAllFrame(a: Links, b: Links, parent: nat, k: nat, f: Forest)
    requires ShowsAll(a, parent, k, f) && SameLinks(a, b, k, k + SizeAll(f))
    ensures ShowsAll(b, parent, k, f)
    decreases f
  {
    match f
    case Nil =>
    case Cons(h, tl) =>
      ShowsFrame(a, b, k, h);
      ShowsAllFrame(a, b, parent, k + Size(h), tl);
  }

  /** Nothing is known yet of the positions from `k` on. */
  ghost predicate Below(st: Links, k: nat) {
    && (forall i | i in st.kids || i in st.parent :: i < k)
    && (forall i | 0 <= i < |st.stack| :: st.stack[i] < k)
  }

  /** Going through a listing leaves the stack as it was, gives its top these children, and changes nothing else
      before. */
  ghost predicate Grows(st: Links, st': Links, k: nat, more: seq<nat>)
    requires st.stack != []
  {
    var top := st.stack[|st.stack| - 1];
    && st'.stack == st.stack && Kids(st', top) == Kids(st, top) + more
    && (forall i: nat | i < k && i != top :: Kids(st', i) == Kids(st, i))
    && (forall i: nat | i < k && i in st.parent :: i in st'.parent && st'.parent[i] == st.parent[i])
  }

  /** What the round for a new entry does. */
  lemma NewEntry(e: Entry, k: nat, st: Links) returns (st': Links)
    requires e != Null && st.stack != [] && Below(st, k)
    ensures Round(e, k, st) == Some(st') && Entered(e, k, st, st')
  {
    st' := Round(e, k, st).value;
  }

  /** `st'` has one more child at the top of the stack, and the child on the stack if it has children. */
  ghost predicate Entered(e: Entry, k: nat, st: Links, st': Links)
    requires st.stack != []
  {
    && Grows(st, st'.(stack := st.stack), k, [k]) && Below(st', k + 1) && Kids(st', k) == []
    && k in st'.parent && st'.parent[k] == st.stack[|st.stack| - 1]
    && st'.stack == if e != Null && e.hasChildren then st.stack + [k] else st.stack
  }

  /** An entry with children is done when the null entry behind them has been read. */
  lemma EntryDone(e: Entry, st: Links, st1: Links, st2: Links, st': Links, k: nat, n: nat, more: seq<nat>)
    requires st.stack != [] && Below(st, k) && e != Null && e.hasChildren && Entered(e, k, st, st1)
    requires Grows(st1, st2, k + 1, more) && Below(st2, n) && n > k
    requires st' == st2.(stack := st2.stack[..|st2.stack| - 1])
    ensures Grows(st, st', k, [k]) && Below(st', n + 1) && Kids(st', k) == more && st' == st2.(stack := st.stack)
    ensures k in st'.parent && st'.parent[k] == st.stack[|st.stack| - 1]
  {
    var top, s1 := st.stack[|st.stack| - 1], st1.(stack := st.stack);
    assert st2.stack[..|st2.stack| - 1] == st.stack;
    assert forall i: nat :: Kids(s1, i) == Kids(st1, i) && Kids(st', i) == Kids(st2, i);
    assert [] + more == more;
  }

  /** The subtree at `k` has been read: its root is a child of the top of the stack, and shows it. */
  ghost predicate Built(t: Tree, k: nat, st: Links, st': Links)
    requires st.stack != []
  {
    && Below(st', k + Size(t)) && Grows(st, st', k, [k])
    && k in st'.parent && st'.parent[k] == st.stack[|st.stack| - 1] && Shows(st', k, t)
  }

  lemma {:induction false} TreeBuilt(t: Tree, k: nat, st: Links) returns (st': Links)
    requires st.stack != [] && Below(st, k)
    ensures Rounds(Flat(t), k, st) == Some(st') && Built(t, k, st, st')
    decreases t
  {
    hide Round, Rounds, Grows, Below, Shows, Built;
    match t
    case Leaf(tag) =>
      st' := LeafBuilt(tag, k, st);
    case Branch(tag, f) =>
      var st1 := NewEntry(Entry(tag, true), k, st);
      var st2 := ForestBuilt(f, k + 1, st1);
      st' := BranchBuilt(tag, f, k, st, st1, st2);
  }

  lemma LeafBuilt(tag: nat, k: nat, st: Links) returns (st': Links)
    requires st.stack != [] && Below(st, k)
    ensures Rounds(Flat(Leaf(tag)), k, st) == Some(st') && Built(Leaf(tag), k, st, st')
  {
    hide Round, Grows, Below, Kids;
    st' := NewEntry(Entry(tag, false), k, st);
    assert Flat(Leaf(tag))[1..] == [];
    assert st'.(stack := st.stack) == st';
  }

  lemma BranchBuilt(tag: nat, f: Forest, k: nat, st: Links, st1: Links, st2: Links) returns (st': Links)
    requires st.stack != [] && Below(st, k) && Entered(Entry(tag, true), k, st, st1)
    requires Round(Entry(tag, true), k, st) == Some(st1) && Rounds(FlatAll(f), k + 1, st1) == Some(st2)
    requires Below(st2, k + 1 + SizeAll(f)) && Grows(st1, st2, k + 1, Starts(f, k + 1)) && ShowsAll(st2, k, k + 1, f)
    ensures Rounds(Flat(Branch(tag, f)), k, st) == Some(st') && Built(Branch(tag, f), k, st, st')
  {
    hide Round, Below, Kids;
    st' := ListDone(f, k + 1, st1, st2);
    EntryDone(Entry(tag, true), st, st1, st2, st', k, k + 1 + SizeAll(f), Starts(f, k + 1));
    var es := Flat(Branch(tag, f));
    assert es[1..] == FlatAll(f) + [Null] && es[0] == Entry(tag, true);
    StackAside(st2, st.stack, k + 1, k + 1 + SizeAll(f));
    ShowsAllFrame(st2, st', k, k + 1, f);
  }

  lemma StackAside(st: Links, stack: seq<nat>, lo: nat, hi: nat)
    ensures SameLinks(st, st.(stack := stack), lo, hi)
  {
  }

  /** The listing of a forest, and the null entry behind it that takes the parent off the stack. */
  lemma ListDone(f: Forest, k: nat, st1: Links, st2: Links) returns (st': Links)
    requires Rounds(FlatAll(f), k, st1) == Some(st2) && st2.stack != []
    ensures st' == st2.(stack := st2.stack[..|st2.stack| - 1]) && Rounds(FlatAll(f) + [Null], k, st1) == Some(st')
  {
    st' := Round(Null, k + SizeAll(f), st2).value;
    RoundsSplit(FlatAll(f), [Null], k, st1);
    assert Rounds([Null], k + SizeAll(f), st2) == Some(st') by { assert [Null][1..] == []; }
  }

  lemma {:induction false} ForestBuilt(f: Forest, k: nat, st: Links) returns (st': Links)
    requires st.stack != [] && Below(st, k)
    ensures Rounds(FlatAll(f), k, st) == Some(st') && Below(st', k + SizeAll(f)) && Grows(st, st', k, Starts(f, k))
    ensures ShowsAll(st', st.stack[|st.stack| - 1], k, f)
    decreases f
  {
    hide Round, Rounds, Grows, Kids, Below, Shows, ShowsAll, Built, Starts;
    match f
    case Nil =>
      st' := st;
      NoTree(k, st);
    case Cons(h, tl) =>
      var st1 := TreeBuilt(h, k, st);
      BuiltFacts(h, k, st, st1);
      st' := ForestBuilt(tl, k + Size(h), st1);
      RoundsSplit(Flat(h), FlatAll(tl), k, st);
      OneMoreTree(h, tl, k, st, st1, st');
  }

  lemma NoTree(k: nat, st: Links)
    requires st.stack != []
    ensures Rounds(FlatAll(Nil), k, st) == Some(st) && Grows(st, st, k, Starts(Nil, k))
    ensures ShowsAll(st, st.stack[|st.stack| - 1], k, Nil)
  {
    assert Kids(st, st.stack[|st.stack| - 1]) + [] == Kids(st, st.stack[|st.stack| - 1]);
  }

  lemma BuiltFacts(t: Tree, k: nat, st: Links, st': Links)
    requires st.stack != [] && Built(t, k, st, st')
    ensures Below(st', k + Size(t)) && st'.stack == st.stack
  {
  }

  lemma OneMoreTree(h: Tree, tl: Forest, k: nat, st: Links, st1: Links, st2: Links)
    requires st.stack != [] && Below(st, k) && Built(h, k, st, st1) && st1.stack == st.stack
    requires Grows(st1, st2, k + Size(h), Starts(tl, k + Size(h)))
    requires ShowsAll(st2, st1.stack[|st1.stack| - 1], k + Size(h), tl)
    ensures Grows(st, st2, k, Starts(Cons(h, tl), k)) && ShowsAll(st2, st.stack[|st.stack| - 1], k, Cons(h, tl))
  {
    hide Below, Kids, SameLinks, Shows;
    GrowsTwice(st, st1, st2, k, k + Size(h), Starts(tl, k + Size(h)));
    ShowsFrame(st1, st2, k, h);
  }

  lemma GrowsTwice(st: Links, st1: Links, st2: Links, k: nat, n: nat, more: seq<nat>)
    requires st.stack != [] && Below(st, k) && k <= n && Grows(st, st1, k, [k]) && Grows(st1, st2, n, more)
    ensures Grows(st, st2, k, [k] + more) && SameLinks(st1, st2, k, n)
  {
    var top := st.stack[|st.stack| - 1];
    assert Kids(st, top) + [k] + more == Kids(st, top) + ([k] + more);
  }

  /** The run on the listing of a tree: the first entry is the root, whatever it says. */
  function Unflatten(es: seq<Entry>): Option<Links>
    requires es != []
  {
    Rounds(es[1..], 1, Links([0], map[], map[]))
  }

  /** Unflattening the listing of a tree raises no exception and rebuilds the tree. */
  lemma Rebuilt(t: Tree)
    ensures Unflatten(Flat(t)).Some? && Shows(Unflatten(Flat(t)).value, 0, t)
    ensures 0 !in Unflatten(Flat(t)).value.parent && Lists(Flat(t), 0, t)
  {
    FlatLists([], t, []);
    assert [] + Flat(t) + [] == Flat(t);
    var st := Links([0], map[], map[]);
    match t
    case Leaf(_) =>
      assert Flat(t)[1..] == [];
    case Branch(_, f) =>
      var st1 := ForestBuilt(f, 1, st);
      var st' := ListDone(f, 1, st, st1);
      assert Flat(t)[1..] == FlatAll(f) + [Null];
      StackAside(st1, [], 1, 1 + SizeAll(f));
      ShowsAllFrame(st1, st', 0, 1, f);
      RootHasNone(FlatAll(f) + [Null], 1, st);
  }

  lemma {:induction false} RootHasNone(es: seq<Entry>, k: nat, st: Links)
    requires k > 0 && 0 !in st.parent
    ensures Rounds(es, k, st).Some? ==> 0 !in Rounds(es, k, st).value.parent
    decreases |es|
  {
    if es != [] && Round(es[0], k, st).Some? { RootHasNone(es[1..], k + 1, Round(es[0], k, st).value); }
  }

  // ---------- the code

  /** An entry of the unit, with the links that the code sets. */
  class Die {
    const entry: Entry
    var children: seq<Die>
    var parent: Die?

    constructor (entry: Entry)
      ensures this.entry == entry && children == [] && parent == null
    {
      this.entry, children, parent := entry, [], null;
    }
  }

  function EntriesOf(dies: seq<Die>): seq<Entry> {
    if dies == [] then [] else EntriesOf(dies[..|dies| - 1]) + [dies[|dies| - 1].entry]
  }

  lemma {:induction false} EntriesAt(dies: seq<Die>)
    ensures |EntriesOf(dies)| == |dies| && forall i | 0 <= i < |dies| :: EntriesOf(dies)[i] == dies[i].entry
  {
    if dies != [] { EntriesAt(dies[..|dies| - 1]); }
  }

  ghost predicate Distinct(dies: seq<Die>) {
    forall i, j | 0 <= i < j < |dies| :: dies[i] != dies[j]
  }

  /** The entry at `k` has the links that `st` says. */
  ghost predicate Linked(dies: seq<Die>, st: Links, k: nat)
    requires k < |dies|
    reads dies[k]
  {
    && |dies[k].children| == |Kids(st, k)|
    && (forall j | 0 <= j < |Kids(st, k)| :: Kids(st, k)[j] < |dies| && dies[k].children[j] == dies[Kids(st, k)[j]])
    && dies[k].parent == if k in st.parent && st.parent[k] < |dies| then dies[st.parent[k]] else null
  }

  ghost predicate AllLinked(dies: seq<Die>, st: Links)
    reads set d | d in dies
  {
    forall k | 0 <= k < |dies| :: Linked(dies, st, k)
  }

  lemma StackOnly(dies: seq<Die>, st: Links, st1: Links)
    requires AllLinked(dies, st) && st1.kids == st.kids && st1.parent == st.parent
    ensures AllLinked(dies, st1)
  {
    forall k | 0 <= k < |dies| ensures Linked(dies, st1, k) { assert Linked(dies, st, k); }
  }

  /** `add_child` and `set_parent`. */
  method Attach(dies: seq<Die>, top: Die, die: Die, ghost topAt: nat, ghost i: nat, ghost st: Links, ghost st1: Links)
    requires Distinct(dies) && topAt < i < |dies| && top == dies[topAt] && die == dies[i]
    requires AllLinked(dies, st) && Kids(st, i) == []
    requires st1.kids == st.kids[topAt := Kids(st, topAt) + [i]] && st1.parent == st.parent[i := topAt]
    modifies top`children, die`parent
    ensures AllLinked(dies, st1)
  {
    assert Linked(dies, st, topAt) && Linked(dies, st, i);
    top.children := top.children + [die];
    die.parent := top;
    forall k | 0 <= k < |dies|
      ensures Linked(dies, st1, k)
    {
      assert old(Linked(dies, st, k));
    }
  }

  /** The stack holds the entries whose positions `st` has on its own. */
  ghost predicate Stacked(dies: seq<Die>, stack: seq<Die>, st: Links) {
    |stack| == |st.stack| && forall j | 0 <= j < |stack| :: st.stack[j] < |dies| && stack[j] == dies[st.stack[j]]
  }

  lemma BelowKept(e: Entry, k: nat, st: Links, st1: Links)
    requires Below(st, k) && Round(e, k, st) == Some(st1)
    ensures Below(st1, k + 1)
  {
  }

  lemma RoundEffect(e: Entry, k: nat, st: Links)
    requires st.stack != []
    ensures Round(e, k, st).Some?
    ensures var st1, top := Round(e, k, st).value, st.stack[|st.stack| - 1];
            if e == Null then st1 == st.(stack := st.stack[..|st.stack| - 1])
            else st1.kids == st.kids[top := Kids(st, top) + [k]] && st1.parent == st.parent[k := top]
                 && st1.stack == if e.hasChildren then st.stack + [k] else st.stack
  {
  }

  lemma NoKids(k: nat, st: Links)
    requires Below(st, k)
    ensures Kids(st, k) == [] && forall i | 0 <= i < |st.stack| :: st.stack[i] < k
  {
  }

  lemma NothingLinked(dies: seq<Die>)
    requires dies != [] && forall i | 0 <= i < |dies| :: dies[i].children == [] && dies[i].parent == null
    ensures var st := Links([0], map[], map[]); Below(st, 1) && AllLinked(dies, st)
  {
  }

  /** One round of the loop of `_unflatten_tree`, when the stack is not empty. */
  method ReadDie(dies: seq<Die>, stack: seq<Die>, i: nat, ghost st: Links) returns (stack': seq<Die>, ghost st1: Links)
    requires Distinct(dies) && 0 < i < |dies| && stack != []
    requires Below(st, i) && Stacked(dies, stack, st) && AllLinked(dies, st)
    modifies set d | d in dies
    ensures Round(dies[i].entry, i, st) == Some(st1) && Below(st1, i + 1)
    ensures Stacked(dies, stack', st1) && AllLinked(dies, st1)
  {
    hide Kids, Below, AllLinked, Round, Distinct;
    var die := dies[i];
    RoundEffect(die.entry, i, st);
    NoKids(i, st);
    st1 := Round(die.entry, i, st).value;
    BelowKept(die.entry, i, st, st1);
    stack' := stack;
    if die.entry != Null {
      Attach(dies, stack[|stack| - 1], die, st.stack[|st.stack| - 1], i, st, st1);
      if die.entry.hasChildren {
        stack' := stack' + [die];
      }
    } else {
      StackOnly(dies, st, st1);
      stack' := stack'[..|stack| - 1];
    }
  }

  /** `_unflatten_tree`; `ok` is false if it raises an exception. */
  method UnflattenTree(dies: seq<Die>) returns (ok: bool)
    requires dies != [] && Distinct(dies)
    requires forall i | 0 <= i < |dies| :: dies[i].children == [] && dies[i].parent == null
    modifies set d | d in dies
    ensures ok <==> Unflatten(EntriesOf(dies)).Some?
    ensures ok ==> AllLinked(dies, Unflatten(EntriesOf(dies)).value)
  {
    hide Below, AllLinked, Round, Distinct;
    ghost var es := EntriesOf(dies);
    EntriesAt(dies);
    NothingLinked(dies);
    ghost var st, result := Links([0], map[], map[]), Unflatten(es);
    var stack := [dies[0]];
    var i := 1;
    while i < |dies|
      invariant 1 <= i <= |dies| && Below(st, i) && Stacked(dies, stack, st) && AllLinked(dies, st)
      invariant result == Rounds(es[i..], i, st)
    {
      OneRound(es, i, st);
      if stack == [] {
        NoStack(es[i], i, st);
        return false;
      }
      stack, st := ReadDie(dies, stack, i, st);
      i := i + 1;
    }
    assert es[i..] == [];
    ok := true;
  }

  lemma NoStack(e: Entry, k: nat, st: Links)
    requires st.stack == []
    ensures Round(e, k, st) == None
  {
  }
}
