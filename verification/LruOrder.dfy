/** What the list of src/block_cache.c means, apart from its pointers: the cached pages of all the caches of a group,
    from the most to the least recently used. */
module LruOrder {
  import opened Options
  import opened Powers

  /** A cached page: which page object it is, its cache, its block number (the offset shifted by 12), its use count. */
  datatype Entry<P> = Entry(page: P, cache: nat, block: nat, uses: nat)

  predicate Is<P>(e: Entry<P>, c: nat, b: nat) {
    e.cache == c && e.block == b
  }

  /** The position of the page of block `b` of cache `c`, or the length if it is not cached. */
  function Find<P>(s: seq<Entry<P>>, c: nat, b: nat): (k: nat)
    ensures k <= |s| && (k < |s| ==> Is(s[k], c, b)) && forall j | 0 <= j < k :: !Is(s[j], c, b)
  {
    if s == [] then 0 else if Is(s[0], c, b) then 0 else 1 + Find(s[1..], c, b)
  }

  predicate Cached<P>(s: seq<Entry<P>>, c: nat, b: nat) {
    Find(s, c, b) < |s|
  }

  function Drop<P>(s: seq<Entry<P>>, k: nat): seq<Entry<P>>
    requires k < |s|
  {
    s[..k] + s[k + 1..]
  }

  function WithUses<P>(e: Entry<P>, n: nat): Entry<P> {
    e.(uses := n)
  }

  /** `disk_cache_get`; `p` is the page object that a miss allocates. */
  function Get<P>(s: seq<Entry<P>>, c: nat, b: nat, p: P): seq<Entry<P>> {
    var k := Find(s, c, b);
    if k < |s| then [WithUses(s[k], s[k].uses + 1)] + Drop(s, k) else [Entry(p, c, b, 1)] + s
  }

  /** `disk_cache_release` of a page that is held. */
  function Release<P>(s: seq<Entry<P>>, c: nat, b: nat): seq<Entry<P>>
    requires Cached(s, c, b) && s[Find(s, c, b)].uses > 0
  {
    s[Find(s, c, b) := WithUses(s[Find(s, c, b)], s[Find(s, c, b)].uses - 1)]
  }

  /** The loop of `disk_cache_group_evict`, from the least recently used end. */
  function Evict<P>(s: seq<Entry<P>>, n: nat): seq<Entry<P>> {
    if n == 0 || s == [] then s
    else
      var last, front := s[|s| - 1], s[..|s| - 1];
      if last.uses == 0 then Evict(front, n - 1) else Evict(front, n) + [last]
  }

  function Unused<P>(s: seq<Entry<P>>): nat {
    if s == [] then 0 else Unused(s[..|s| - 1]) + if s[|s| - 1].uses == 0 then 1 else 0
  }

  function InUse<P>(s: seq<Entry<P>>): seq<Entry<P>> {
    if s == [] then [] else InUse(s[..|s| - 1]) + if s[|s| - 1].uses == 0 then [] else [s[|s| - 1]]
  }

  lemma {:induction false} UnusedSplits<P>(s: seq<Entry<P>>, t: seq<Entry<P>>)
    ensures Unused(s + t) == Unused(s) + Unused(t)
  {
    if t == [] {
      assert s + t == s;
    } else {
      assert (s + t)[..|s + t| - 1] == s + t[..|t| - 1];
      UnusedSplits(s, t[..|t| - 1]);
    }
  }

  /** Eviction removes exactly the unused pages of a least recently used part of the list, a part that holds as many
      unused pages as were asked for, or all there are; it keeps the order of the rest. */
  lemma {:induction false} EvictTakesOldest<P>(s: seq<Entry<P>>, n: nat) returns (m: nat)
    ensures m <= |s| && Evict(s, n) == s[..m] + InUse(s[m..])
    ensures Unused(s[m..]) == Min(n, Unused(s))
  {
    if n == 0 || s == [] {
      m := |s|;
      assert s[..m] == s && s[m..] == [];
    } else {
      var front := s[..|s| - 1];
      m := EvictTakesOldest(front, if s[|s| - 1].uses == 0 then n - 1 else n);
      assert front[..m] == s[..m];
      assert s[m..][..|s[m..]| - 1] == front[m..];
      assert s[m..][|s[m..]| - 1] == s[|s| - 1];
    }
  }

  /** As many pages go as were asked for, or all the unused ones. */
  lemma {:induction false} EvictCount<P>(s: seq<Entry<P>>, n: nat)
    ensures |Evict(s, n)| == |s| - Min(n, Unused(s)) && Unused(s) <= |s|
  {
    if n > 0 && s != [] {
      EvictCount(s[..|s| - 1], if s[|s| - 1].uses == 0 then n - 1 else n);
    } else if s != [] {
      EvictCount(s[..|s| - 1], 0);
    }
  }

  // ---------- runs

  datatype Op<P> = OpGet(cache: nat, block: nat, page: P) | OpRelease(cache: nat, block: nat) | OpEvict(n: nat)

  /** Callers release only what they hold. */
  predicate Allowed<P>(s: seq<Entry<P>>, op: Op<P>) {
    op.OpRelease? ==> Cached(s, op.cache, op.block) && s[Find(s, op.cache, op.block)].uses > 0
  }

  function Step<P>(s: seq<Entry<P>>, op: Op<P>): seq<Entry<P>>
    requires Allowed(s, op)
  {
    match op
    case OpGet(c, b, p) => Get(s, c, b, p)
    case OpRelease(c, b) => Release(s, c, b)
    case OpEvict(n) => Evict(s, n)
  }

  /** `states[i]` is the list after the first `i` operations, from an empty list on. */
  ghost predicate IsRun<P>(ops: seq<Op<P>>, states: seq<seq<Entry<P>>>) {
    && |states| == |ops| + 1 && states[0] == []
    && forall i | 0 <= i < |ops| :: Allowed(states[i], ops[i]) && states[i + 1] == Step(states[i], ops[i])
  }

  lemma RunPrefix<P>(ops: seq<Op<P>>, states: seq<seq<Entry<P>>>)
    requires IsRun(ops, states) && ops != []
    ensures var n := |ops| - 1;
            && IsRun(ops[..n], states[..n + 1]) && states[..n + 1][n] == states[n]
            && Allowed(states[n], ops[n]) && states[|ops|] == Step(states[n], ops[n])
  {
  }

  /** One more than the position of the last get of block `b` of cache `c`, or 0. */
  function LastGet<P>(ops: seq<Op<P>>, c: nat, b: nat): nat {
    if ops == [] then 0
    else
      var op := ops[|ops| - 1];
      if op.OpGet? && op.cache == c && op.block == b then |ops| else LastGet(ops[..|ops| - 1], c, b)
  }

  lemma {:induction false} LastGetBound<P>(ops: seq<Op<P>>, c: nat, b: nat)
    ensures LastGet(ops, c, b) <= |ops|
  {
    if ops != [] { LastGetBound(ops[..|ops| - 1], c, b); }
  }

  /** The list is strictly ordered by the time of the last get, which makes its keys distinct too. */
  ghost predicate ByLastGet<P>(s: seq<Entry<P>>, ops: seq<Op<P>>) {
    && (forall i, j | 0 <= i < j < |s| :: LastGet(ops, s[i].cache, s[i].block) > LastGet(ops, s[j].cache, s[j].block))
    && (forall i | 0 <= i < |s| :: LastGet(ops, s[i].cache, s[i].block) > 0)
  }

  /** The entries of `t` are entries of `s`, up to use counts and in the same order. */
  ghost predicate Within<P>(t: seq<Entry<P>>, s: seq<Entry<P>>, pos: seq<nat>) {
    && |pos| == |t| && (forall i, j | 0 <= i < j < |t| :: pos[i] < pos[j])
    && forall i | 0 <= i < |t| :: pos[i] < |s| && t[i].cache == s[pos[i]].cache && t[i].block == s[pos[i]].block
  }

  lemma {:induction false} EvictWithin<P>(s: seq<Entry<P>>, n: nat) returns (pos: seq<nat>)
    ensures Within(Evict(s, n), s, pos)
  {
    if n == 0 || s == [] {
      pos := seq(|s|, i => i);
    } else {
      var front, last := s[..|s| - 1], s[|s| - 1];
      if last.uses == 0 {
        pos := EvictWithin(front, n - 1);
        assert Evict(s, n) == Evict(front, n - 1);
      } else {
        var kept := EvictWithin(front, n);
        pos := kept + [|s| - 1];
        assert Evict(s, n) == Evict(front, n) + [last];
      }
    }
  }

  lemma DropWithin<P>(s: seq<Entry<P>>, k: nat) returns (pos: seq<nat>)
    requires k < |s|
    ensures Within(Drop(s, k), s, pos)
  {
    pos := seq(|s| - 1, i requires 0 <= i => if i < k then i else i + 1);
  }

  lemma OrderWithin<P>(t: seq<Entry<P>>, s: seq<Entry<P>>, pos: seq<nat>, ops: seq<Op<P>>)
    requires Within(t, s, pos) && ByLastGet(s, ops)
    ensures ByLastGet(t, ops)
  {
  }

  /** Every list that a run can reach is in order of the last get. */
  lemma {:induction false} RunsKeepOrder<P>(ops: seq<Op<P>>, states: seq<seq<Entry<P>>>)
    requires IsRun(ops, states)
    ensures ByLastGet(states[|ops|], ops)
    decreases |ops|
  {
    if ops != [] {
      var n := |ops| - 1;
      RunPrefix(ops, states);
      RunsKeepOrder(ops[..n], states[..n + 1]);
      StepKeepsOrder(states[n], ops);
    }
  }

  lemma StepKeepsOrder<P>(s: seq<Entry<P>>, ops: seq<Op<P>>)
    requires ops != [] && ByLastGet(s, ops[..|ops| - 1]) && Allowed(s, ops[|ops| - 1])
    ensures ByLastGet(Step(s, ops[|ops| - 1]), ops)
  {
    hide ByLastGet, Within;
    match ops[|ops| - 1]
    case OpGet(c, b, p) =>
      GetKeepsOrder(s, ops, c, b, p);
    case OpRelease(c, b) =>
      ReleaseKeepsOrder(s, ops[..|ops| - 1], c, b);
      SameGets(Release(s, c, b), ops);
    case OpEvict(n) =>
      var pos := EvictWithin(s, n);
      OrderWithin(Evict(s, n), s, pos, ops[..|ops| - 1]);
      SameGets(Evict(s, n), ops);
  }

  lemma ReleaseKeepsOrder<P>(s: seq<Entry<P>>, ops: seq<Op<P>>, c: nat, b: nat)
    requires ByLastGet(s, ops) && Cached(s, c, b) && s[Find(s, c, b)].uses > 0
    ensures ByLastGet(Release(s, c, b), ops)
  {
    hide Find, LastGet;
    var k, t := Find(s, c, b), Release(s, c, b);
    forall i | 0 <= i < |t|
      ensures t[i].cache == s[i].cache && t[i].block == s[i].block
    {
      assert i == k || t[i] == s[i];
    }
  }

  /** What is not a get does not change when a block was got last. */
  lemma SameGets<P>(s: seq<Entry<P>>, ops: seq<Op<P>>)
    requires ops != [] && !ops[|ops| - 1].OpGet? && ByLastGet(s, ops[..|ops| - 1])
    ensures ByLastGet(s, ops)
  {
    forall c, b ensures LastGet(ops, c, b) == LastGet(ops[..|ops| - 1], c, b) {}
  }

  lemma GetKeepsOrder<P>(s: seq<Entry<P>>, ops: seq<Op<P>>, c: nat, b: nat, p: P)
    requires ops != [] && ops[|ops| - 1] == OpGet(c, b, p) && ByLastGet(s, ops[..|ops| - 1])
    ensures ByLastGet(Get(s, c, b, p), ops)
  {
    var before, k := ops[..|ops| - 1], Find(s, c, b);
    var rest := s;
    if k < |s| {
      rest := Drop(s, k);
      var pos := DropWithin(s, k);
      OrderWithin(rest, s, pos, before);
    }
    assert forall i: nat | i < |rest| :: !Is(rest[i], c, b) by {
      forall i: nat | i < |rest| { NotFirst(s, before, c, b, i); }
    }
    NewFront(Get(s, c, b, p)[0], rest, ops);
    assert Get(s, c, b, p) == [Get(s, c, b, p)[0]] + rest;
  }

  /** The page just got goes in front of entries that are in order of the gets before. */
  lemma NewFront<P>(e: Entry<P>, rest: seq<Entry<P>>, ops: seq<Op<P>>)
    requires ops != [] && ops[|ops| - 1].OpGet? && Is(e, ops[|ops| - 1].cache, ops[|ops| - 1].block)
    requires ByLastGet(rest, ops[..|ops| - 1]) && forall i | 0 <= i < |rest| :: !Is(rest[i], e.cache, e.block)
    ensures ByLastGet([e] + rest, ops)
  {
    forall i | 0 <= i < |rest|
      ensures LastGet(ops, rest[i].cache, rest[i].block) ==
              LastGet(ops[..|ops| - 1], rest[i].cache, rest[i].block) < |ops|
    {
      LastGetBound(ops[..|ops| - 1], rest[i].cache, rest[i].block);
    }
    assert LastGet(ops, e.cache, e.block) == |ops|;
  }

  /** With distinct keys, no other entry has the key that was found. */
  lemma NotFirst<P>(s: seq<Entry<P>>, ops: seq<Op<P>>, c: nat, b: nat, i: nat)
    requires ByLastGet(s, ops)
    ensures var k := Find(s, c, b); k < |s| && i < |s| - 1 ==> !Is(Drop(s, k)[i], c, b)
    ensures var k := Find(s, c, b); k == |s| && i < |s| ==> !Is(s[i], c, b)
  {
    var k := Find(s, c, b);
    if k < |s| && k <= i < |s| - 1 { assert Drop(s, k)[i] == s[i + 1]; }
  }

  // ---------- looking entries up

  function Lookup<P>(s: seq<Entry<P>>, c: nat, b: nat): Option<Entry<P>> {
    if Cached(s, c, b) then Some(s[Find(s, c, b)]) else None
  }

  lemma DropTail<P>(s: seq<Entry<P>>, k: nat)
    requires k < |s|
    ensures if k == 0 then Drop(s, k) == s[1..]
            else Drop(s, k) != [] && Drop(s, k)[0] == s[0] && Drop(s, k)[1..] == Drop(s[1..], k - 1)
  {
  }

  lemma {:induction false} LookupAfterDrop<P>(s: seq<Entry<P>>, k: nat, c: nat, b: nat)
    requires k < |s| && !Is(s[k], c, b)
    ensures Lookup(Drop(s, k), c, b) == Lookup(s, c, b)
  {
    hide Drop;
    DropTail(s, k);
    if k > 0 {
      LookupAfterDrop(s[1..], k - 1, c, b);
    }
  }

  lemma {:induction false} LookupAfterUpdate<P>(s: seq<Entry<P>>, k: nat, n: nat, c: nat, b: nat)
    requires k < |s|
    ensures Lookup(s[k := WithUses(s[k], n)], c, b)
         == if k == Find(s, c, b) then Some(WithUses(s[k], n)) else Lookup(s, c, b)
  {
    var t := s[k := WithUses(s[k], n)];
    if k > 0 {
      assert t[1..] == s[1..][k - 1 := WithUses(s[k], n)];
      LookupAfterUpdate(s[1..], k - 1, n, c, b);
    } else {
      assert t[1..] == s[1..];
    }
  }

  lemma {:induction false} LookupAfterSnoc<P>(s: seq<Entry<P>>, e: Entry<P>, c: nat, b: nat)
    ensures Lookup(s + [e], c, b) == if Cached(s, c, b) then Lookup(s, c, b) else if Is(e, c, b) then Some(e) else None
  {
    if s != [] {
      assert (s + [e])[1..] == s[1..] + [e];
      LookupAfterSnoc(s[1..], e, c, b);
    }
  }

  ghost predicate DistinctKeys<P>(s: seq<Entry<P>>) {
    forall i, j | 0 <= i < j < |s| :: !Is(s[j], s[i].cache, s[i].block)
  }

  /** With distinct keys, an entry is found by its key, and no more once it is dropped. */
  lemma {:induction false} LookupOwn<P>(s: seq<Entry<P>>, k: nat)
    requires DistinctKeys(s) && k < |s|
    ensures Find(s, s[k].cache, s[k].block) == k
    ensures Lookup(Drop(s, k), s[k].cache, s[k].block) == None
  {
    var f, d := Find(s, s[k].cache, s[k].block), Drop(s, k);
    assert f < k ==> !Is(s[k], s[f].cache, s[f].block);
    forall i | 0 <= i < |d|
      ensures !Is(d[i], s[k].cache, s[k].block)
    {
      if i < k { assert !Is(s[k], s[i].cache, s[i].block); } else { assert d[i] == s[i + 1]; }
    }
  }

  /** The key that is got is found at the front, every other key as before. */
  lemma LookupAfterGet<P>(s: seq<Entry<P>>, c': nat, b': nat, p: P, c: nat, b: nat)
    ensures var k, t := Find(s, c', b'), Get(s, c', b', p);
            Lookup(t, c, b) == if c == c' && b == b' then Some(t[0]) else Lookup(s, c, b)
  {
    var k, t := Find(s, c', b'), Get(s, c', b', p);
    if k < |s| {
      assert t[1..] == Drop(s, k);
      if c != c' || b != b' { LookupAfterDrop(s, k, c, b); }
    } else {
      assert t[1..] == s;
    }
  }

  // ---------- use counts

  function Uses<P>(s: seq<Entry<P>>, c: nat, b: nat): nat {
    match Lookup(s, c, b)
    case None => 0
    case Some(e) => e.uses
  }

  function Gets<P>(ops: seq<Op<P>>, c: nat, b: nat): nat {
    if ops == [] then 0
    else Gets(ops[..|ops| - 1], c, b) + if ops[|ops| - 1].OpGet? && Keyed(ops[|ops| - 1], c, b) then 1 else 0
  }

  function Releases<P>(ops: seq<Op<P>>, c: nat, b: nat): nat {
    if ops == [] then 0
    else Releases(ops[..|ops| - 1], c, b) + if ops[|ops| - 1].OpRelease? && Keyed(ops[|ops| - 1], c, b) then 1 else 0
  }

  predicate Keyed<P>(op: Op<P>, c: nat, b: nat)
    requires !op.OpEvict?
  {
    op.cache == c && op.block == b
  }

  lemma {:induction false} UsesAfterEvict<P>(s: seq<Entry<P>>, n: nat, c: nat, b: nat)
    requires DistinctKeys(s)
    ensures Uses(Evict(s, n), c, b) == Uses(s, c, b)
    ensures Cached(Evict(s, n), c, b) ==> Cached(s, c, b)
  {
    if n > 0 && s != [] {
      var front, last := s[..|s| - 1], s[|s| - 1];
      assert s == front + [last];
      LookupAfterSnoc(front, last, c, b);
      UsesAfterEvict(front, if last.uses == 0 then n - 1 else n, c, b);
      LookupAfterSnoc(Evict(front, n), last, c, b);
    }
  }

  lemma OrderIsDistinct<P>(s: seq<Entry<P>>, ops: seq<Op<P>>)
    requires ByLastGet(s, ops)
    ensures DistinctKeys(s)
  {
  }

  /** Only a key's own gets and releases change its use count, which counts as zero while it is not cached: a miss
      starts at one, and a page in use is never evicted. */
  lemma StepUses<P>(s: seq<Entry<P>>, op: Op<P>, c: nat, b: nat)
    requires Allowed(s, op) && DistinctKeys(s)
    ensures Uses(Step(s, op), c, b) == Uses(s, c, b) + (if op.OpGet? && Keyed(op, c, b) then 1 else 0)
                                                   - (if op.OpRelease? && Keyed(op, c, b) then 1 else 0)
  {
    match op
    case OpGet(c', b', p) =>
      LookupAfterGet(s, c', b', p, c, b);
    case OpRelease(c', b') =>
      LookupAfterUpdate(s, Find(s, c', b'), s[Find(s, c', b')].uses - 1, c, b);
    case OpEvict(n) =>
      UsesAfterEvict(s, n, c, b);
  }

  /** After any run, a key's use count is the number of its gets minus the number of its releases. */
  lemma {:induction false} UsesCounted<P>(ops: seq<Op<P>>, states: seq<seq<Entry<P>>>, c: nat, b: nat)
    requires IsRun(ops, states)
    ensures Uses(states[|ops|], c, b) == Gets(ops, c, b) - Releases(ops, c, b)
    decreases |ops|
  {
    if ops != [] {
      var n := |ops| - 1;
      RunPrefix(ops, states);
      UsesCounted(ops[..n], states[..n + 1], c, b);
      RunsKeepOrder(ops[..n], states[..n + 1]);
      OrderIsDistinct(states[n], ops[..n]);
      StepUses(states[n], ops[n], c, b);
    }
  }
}
