/** What the heap of src/kmalloc.c has handed out: objects of its caches' slabs, and blocks of its virtual region. */
module HeapBlocks {
  import opened Powers
  import opened SlabLayout
  import opened SlabAllocator
  import opened Chunks

  const MIN_CACHE_LOG2: nat := 3
  const MAX_CACHE_LOG2: nat := 9
  const CACHES: nat := 7

  /** A block in use: an object of cache `k`, or a block of the region. */
  datatype Block = Small(k: nat, slab: nat, idx: nat) | Large(chunk: Chunk)

  function SizeLog(b: Block): nat {
    if b.Small? then b.k + MIN_CACHE_LOG2 else b.chunk.l2
  }

  function AddrOf(b: Block): nat {
    if b.Small? then Addr(b.slab, b.idx, Pow2(b.k + MIN_CACHE_LOG2)) else b.chunk.addr
  }

  /** The blocks in use as address ranges. */
  function RangeOf(b: Block): Chunk {
    Chunk(AddrOf(b), SizeLog(b))
  }

  /** The live objects of each cache, the large blocks, all blocks of the region that are in use, for large blocks or
      for slabs, and the pages that the region had at first. */
  datatype State = State(lives: seq<Live>, large: set<Chunk>, held: set<Chunk>, all: set<nat>)

  ghost predicate InUse(s: State, b: Block) {
    if b.Small? then b.k < |s.lives| && IsLive(s.lives[b.k], b.slab, b.idx) else b.chunk in s.large
  }

  /** The slabs of cache `k` are blocks of the region in use. */
  ghost predicate SlabsOk(s: State, k: nat)
    requires k < |s.lives|
  {
    forall a | a in s.lives[k] ::
      && SlabAt(a) in s.held && SlabAt(a) !in s.large && Aligned(a)
      && Below(s.lives[k][a], NumObjs(Pow2(k + MIN_CACHE_LOG2)))
  }

  ghost predicate Separate(s: State, j: nat, k: nat)
    requires j < |s.lives| && k < |s.lives|
  {
    forall a | a in s.lives[j] :: a !in s.lives[k]
  }

  ghost predicate Placed(s: State) {
    && |s.lives| == CACHES && s.large <= s.held && (forall k | 0 <= k < CACHES :: SlabsOk(s, k))
    && (forall j, k | 0 <= j < CACHES && 0 <= k < CACHES && j != k :: Separate(s, j, k))
  }

  ghost predicate AllNeeded(s: State) {
    forall c | c in s.held :: Needed(s, c)
  }

  /** The slabs and the large blocks are where they should be, and no page of the region is lost or held for nothing. */
  ghost predicate Sound(start: nat, size: nat, free: set<nat>, s: State) {
    Placed(s) && Held(start, size, free, s.held) && Tiled(start, s.all, free, s.held) && AllNeeded(s)
  }

  /** A block of the region is a large block, or a slab with a live object. */
  ghost predicate Needed(s: State, c: Chunk) {
    c in s.large || exists k: nat :: NeededBy(s, c, k)
  }

  ghost predicate NeededBy(s: State, c: Chunk, k: nat) {
    k < |s.lives| && c.addr in s.lives[k] && c == SlabAt(c.addr) && s.lives[k][c.addr] != {}
  }

  lemma NeededInUse(s: State, c: Chunk)
    requires Needed(s, c)
    ensures exists b :: InUse(s, b) && Home(b) == c
  {
    if c in s.large {
      assert InUse(s, Large(c)) && Home(Large(c)) == c;
    } else {
      var k: nat :| NeededBy(s, c, k);
      var i :| i in s.lives[k][c.addr];
      assert InUse(s, Small(k, c.addr, i)) && Home(Small(k, c.addr, i)) == c;
    }
  }

  /** A block of the region that is needed in one state is held in every state with the same blocks in use. */
  lemma HeldAgain(start: nat, size: nat, free: set<nat>, s: State, s': State)
    requires AllNeeded(s) && Sound(start, size, free, s') && forall b | InUse(s, b) :: InUse(s', b)
    ensures s.held <= s'.held
  {
    forall c | c in s.held
      ensures c in s'.held
    {
      assert Needed(s, c);
      NeededInUse(s, c);
      var b :| InUse(s, b) && Home(b) == c;
      AtHome(start, size, free, s', b);
    }
  }

  lemma FreeOrHeld(start: nat, size: nat, free: set<nat>, s: State, p: nat)
    requires Sound(start, size, free, s)
    ensures p in free <==> p in s.all && !HeldPage(start, s.held, p)
  {
    if HeldPage(start, s.held, p) {
      var c :| c in s.held && InRegion(start, c) && p in PagesOf(start, c);
      assert HeldOne(start, size, free, c);
    }
  }

  /** Which pages of the region are free follows from which blocks are in use, however the heap came to use them. */
  lemma FreeDetermined(start: nat, size: nat, free: set<nat>, s: State, free': set<nat>, s': State)
    requires Sound(start, size, free, s) && Sound(start, size, free', s') && s.all == s'.all
    requires forall b :: InUse(s, b) <==> InUse(s', b)
    ensures free == free'
  {
    HeldAgain(start, size, free', s, s');
    HeldAgain(start, size, free, s', s);
    forall p: nat
      ensures p in free <==> p in free'
    {
      FreeOrHeld(start, size, free, s, p);
      FreeOrHeld(start, size, free', s', p);
    }
  }

  /** The heap wastes no page: when every block has been given back, so has every page. */
  lemma NothingLost(start: nat, size: nat, free: set<nat>, s: State)
    requires Sound(start, size, free, s) && forall b :: !InUse(s, b)
    ensures free == s.all
  {
    forall c | c in s.held
      ensures exists b :: InUse(s, b)
    {
      NeededInUse(s, c);
    }
    forall p: nat ensures p in free <==> p in s.all { assert !HeldPage(start, s.held, p); }
  }

  lemma SoundHeld(start: nat, size: nat, free: set<nat>, s: State)
    requires Sound(start, size, free, s)
    ensures Held(start, size, free, s.held)
  {
  }

  lemma SmallSize(k: nat)
    requires k < CACHES
    ensures 8 <= Pow2(k + MIN_CACHE_LOG2) <= 512
  {
    Pow2Values();
    if k > 0 { Pow2Increasing(MIN_CACHE_LOG2, k + MIN_CACHE_LOG2); }
    if k + MIN_CACHE_LOG2 < MAX_CACHE_LOG2 { Pow2Increasing(k + MIN_CACHE_LOG2, MAX_CACHE_LOG2); }
  }

  lemma SlabInRegion(start: nat, size: nat, free: set<nat>, s: State, k: nat, a: nat)
    requires Sound(start, size, free, s) && k < CACHES && a in s.lives[k]
    ensures SlabAt(a) in s.held && HeldOne(start, size, free, SlabAt(a))
  {
    assert SlabsOk(s, k);
  }

  /** An object in use lies in its slab, in front of the bitmap and the footer. */
  lemma SmallInside(start: nat, size: nat, free: set<nat>, s: State, b: Block)
    requires Sound(start, size, free, s) && b.Small? && InUse(s, b)
    ensures SlabAt(b.slab) in s.held && Aligned(b.slab) && b.slab <= AddrOf(b)
    ensures AddrOf(b) + Pow2(SizeLog(b)) + BitmapSize(Pow2(SizeLog(b))) + FOOTER_SIZE <= b.slab + SLAB_SIZE
  {
    assert SlabsOk(s, b.k);
    SmallSize(b.k);
    ObjectInSlab(b.slab, b.idx, Pow2(b.k + MIN_CACHE_LOG2));
  }

  /** The block of the region that a block in use lies in. */
  function Home(b: Block): Chunk {
    if b.Small? then SlabAt(b.slab) else b.chunk
  }

  lemma AtHome(start: nat, size: nat, free: set<nat>, s: State, b: Block)
    requires Sound(start, size, free, s) && InUse(s, b)
    ensures Home(b) in s.held && Home(b).addr <= AddrOf(b)
    ensures AddrOf(b) + Pow2(SizeLog(b)) <= Home(b).addr + Pow2(Home(b).l2)
  {
    if b.Small? {
      SmallInside(start, size, free, s, b);
      SlabPower();
    }
  }

  /** In every sound state, the blocks in use do not overlap. */
  lemma BlocksDisjoint(start: nat, size: nat, free: set<nat>, s: State, b: Block, c: Block)
    requires Sound(start, size, free, s) && InUse(s, b) && InUse(s, c) && b != c
    ensures Apart(RangeOf(b), RangeOf(c))
  {
    AtHome(start, size, free, s, b);
    AtHome(start, size, free, s, c);
    if Home(b) != Home(c) {
      HeldApart(start, size, free, s.held, Home(b), Home(c));
    } else {
      SameSlab(start, size, free, s, b, c);
    }
  }

  lemma SameSlab(start: nat, size: nat, free: set<nat>, s: State, b: Block, c: Block)
    requires Sound(start, size, free, s) && InUse(s, b) && InUse(s, c) && b != c && Home(b) == Home(c)
    ensures Apart(RangeOf(b), RangeOf(c))
  {
    if b.Small? { assert SlabsOk(s, b.k); }
    if c.Small? { assert SlabsOk(s, c.k); }
    assert b.Small? && c.Small?;
    assert b.k == c.k || Separate(s, b.k, c.k);
    SmallSize(b.k);
    ObjectsApart(b.slab, b.idx, c.slab, c.idx, Pow2(b.k + MIN_CACHE_LOG2));
  }

  // ---------- steps

  /** `s'` has the blocks of `s` in use, and `b`, of the same region. */
  ghost predicate OneMore(s: State, s': State, b: Block) {
    s'.all == s.all && !InUse(s, b) && forall c :: InUse(s', c) <==> c == b || InUse(s, c)
  }

  /** `s'` has the blocks of `s` in use, but for `b`, of the same region. */
  ghost predicate OneLess(s: State, s': State, b: Block) {
    s'.all == s.all && InUse(s, b) && forall c :: InUse(s', c) <==> c != b && InUse(s, c)
  }

  function WithLive(s: State, k: nat, live: Live): State
    requires k < |s.lives|
  {
    s.(lives := s.lives[k := live])
  }

  /** What was needed still is, if no live object is gone. */
  lemma StillNeeded(s: State, s': State, c: Chunk)
    requires Needed(s, c) && (c in s.large ==> c in s'.large)
    requires forall k: nat | NeededBy(s, c, k) :: NeededBy(s', c, k)
    ensures Needed(s', c)
  {
    if c !in s.large {
      var k: nat :| NeededBy(s, c, k);
      assert NeededBy(s', c, k);
    }
  }

  lemma PlaceObject(s: State, k: nat, a: nat, idx: nat)
    requires Placed(s) && k < CACHES && idx < NumObjs(Pow2(k + MIN_CACHE_LOG2)) && Aligned(a)
    requires SlabAt(a) in s.held && SlabAt(a) !in s.large && forall j | 0 <= j < CACHES && j != k :: a !in s.lives[j]
    ensures Placed(WithLive(s, k, With(s.lives[k], a, idx)))
  {
    hide NumObjs, Aligned;
    var s' := WithLive(s, k, With(s.lives[k], a, idx));
    forall j | 0 <= j < CACHES ensures SlabsOk(s', j) { assert SlabsOk(s, j); }
    forall i, j | 0 <= i < CACHES && 0 <= j < CACHES && i != j ensures Separate(s', i, j) { assert Separate(s, i, j); }
  }

  lemma NeedObject(s: State, k: nat, a: nat, idx: nat)
    requires AllNeeded(s) && k < |s.lives|
    ensures var s' := WithLive(s, k, With(s.lives[k], a, idx)); AllNeeded(s') && Needed(s', SlabAt(a))
  {
    var s' := WithLive(s, k, With(s.lives[k], a, idx));
    forall c | c in s.held ensures Needed(s', c) { StillNeeded(s, s', c); }
    assert NeededBy(s', SlabAt(a), k);
  }

  lemma TakeObject(start: nat, size: nat, free: set<nat>, s: State, k: nat, a: nat, idx: nat)
    requires Sound(start, size, free, s) && k < CACHES && a in s.lives[k] && idx !in s.lives[k][a]
    requires idx < NumObjs(Pow2(k + MIN_CACHE_LOG2))
    ensures var s' := WithLive(s, k, With(s.lives[k], a, idx));
            Sound(start, size, free, s') && OneMore(s, s', Small(k, a, idx))
  {
    hide Held, Tiled, NumObjs, AllNeeded, Aligned;
    assert SlabsOk(s, k);
    forall j | 0 <= j < CACHES && j != k ensures a !in s.lives[j] { assert Separate(s, k, j); }
    PlaceObject(s, k, a, idx);
    NeedObject(s, k, a, idx);
  }

  lemma TakeSlab(start: nat, size: nat, free: set<nat>, free': set<nat>, s: State, k: nat, a: nat)
    requires Sound(start, size, free, s) && k < CACHES && SlabAt(a) !in s.held && Aligned(a)
    requires Held(start, size, free', s.held + {SlabAt(a)}) && TakenFrom(start, free, SlabAt(a), free')
    ensures var s' := WithLive(s, k, With(s.lives[k], a, 0)).(held := s.held + {SlabAt(a)});
            Sound(start, size, free', s') && OneMore(s, s', Small(k, a, 0))
  {
    hide Held, Tiled, Aligned, NumObjs, TakenFrom, Needed, SlabsOk;
    var more := s.(held := s.held + {SlabAt(a)});
    SmallSize(k);
    SmallFits(Pow2(k + MIN_CACHE_LOG2));
    forall j | 0 <= j < CACHES ensures a !in s.lives[j] && SlabsOk(more, j) { NewForAll(s, j, a); }
    forall i, j | 0 <= i < CACHES && 0 <= j < CACHES && i != j
      ensures Separate(more, i, j)
    {
      assert Separate(s, i, j);
    }
    PlaceObject(more, k, a, 0);
    NeedObject(s, k, a, 0);
    forall c | c in more.held ensures Needed(WithLive(more, k, With(s.lives[k], a, 0)), c) { NeedSame(s, k, a, c); }
    TiledTake(start, s.all, free, s.held, SlabAt(a), free');
  }

  lemma NewForAll(s: State, j: nat, a: nat)
    requires Placed(s) && j < CACHES && SlabAt(a) !in s.held
    ensures a !in s.lives[j] && SlabsOk(s.(held := s.held + {SlabAt(a)}), j)
  {
    assert SlabsOk(s, j);
  }

  lemma NeedSame(s: State, k: nat, a: nat, c: Chunk)
    requires k < |s.lives| && Needed(WithLive(s, k, With(s.lives[k], a, 0)), c)
    ensures Needed(WithLive(s.(held := s.held + {SlabAt(a)}), k, With(s.lives[k], a, 0)), c)
  {
    StillNeeded(WithLive(s, k, With(s.lives[k], a, 0)),
                WithLive(s.(held := s.held + {SlabAt(a)}), k, With(s.lives[k], a, 0)), c);
  }

  /** The two ways in which a cache finds an object. */
  lemma TakeSmall(start: nat, size: nat, free: set<nat>, free': set<nat>, s: State, k: nat, a: nat, idx: nat,
                  full: bool)
    requires Sound(start, size, free, s) && k < CACHES && Aligned(a) && idx < NumObjs(Pow2(k + MIN_CACHE_LOG2))
    requires full ==> && idx == 0 && SlabAt(a) !in s.held && TakenFrom(start, free, SlabAt(a), free')
                      && Held(start, size, free', s.held + {SlabAt(a)})
    requires !full ==> free' == free && a in s.lives[k] && !IsLive(s.lives[k], a, idx)
    ensures var s' := WithLive(s, k, With(s.lives[k], a, idx)).(held := s.held + {SlabAt(a)});
            Sound(start, size, free', s') && OneMore(s, s', Small(k, a, idx))
  {
    hide Held, Aligned, Sound, OneMore, With;
    if full {
      TakeSlab(start, size, free, free', s, k, a);
    } else {
      SlabInRegion(start, size, free, s, k, a);
      assert s.held + {SlabAt(a)} == s.held;
      TakeObject(start, size, free, s, k, a, idx);
    }
  }

  lemma TakeLarge(start: nat, size: nat, free: set<nat>, free': set<nat>, s: State, c: Chunk)
    requires Sound(start, size, free, s) && c !in s.held
    requires Held(start, size, free', s.held + {c}) && TakenFrom(start, free, c, free')
    ensures var s' := s.(large := s.large + {c}, held := s.held + {c});
            Sound(start, size, free', s') && OneMore(s, s', Large(c))
  {
    hide Held, Tiled, Aligned, NumObjs, TakenFrom, Needed;
    var s' := s.(large := s.large + {c}, held := s.held + {c});
    forall j | 0 <= j < CACHES ensures SlabsOk(s', j) { assert SlabsOk(s, j); }
    forall i, j | 0 <= i < CACHES && 0 <= j < CACHES && i != j ensures Separate(s', i, j) { assert Separate(s, i, j); }
    NeedLarge(s, c);
    TiledTake(start, s.all, free, s.held, c, free');
  }

  lemma NeedLarge(s: State, c: Chunk)
    requires AllNeeded(s)
    ensures AllNeeded(s.(large := s.large + {c}, held := s.held + {c}))
  {
    var s' := s.(large := s.large + {c}, held := s.held + {c});
    forall d | d in s'.held ensures Needed(s', d) { if d != c { StillNeeded(s, s', d); } }
  }

  lemma DropObject(start: nat, size: nat, free: set<nat>, s: State, k: nat, a: nat, idx: nat)
    requires Sound(start, size, free, s) && k < CACHES && IsLive(s.lives[k], a, idx) && s.lives[k][a] != {idx}
    ensures var s' := WithLive(s, k, s.lives[k][a := s.lives[k][a] - {idx}]);
            Sound(start, size, free, s') && OneLess(s, s', Small(k, a, idx))
  {
    hide Held, Tiled, Aligned, NumObjs, Needed;
    var s' := WithLive(s, k, s.lives[k][a := s.lives[k][a] - {idx}]);
    forall j | 0 <= j < CACHES ensures SlabsOk(s', j) { assert SlabsOk(s, j); }
    forall i, j | 0 <= i < CACHES && 0 <= j < CACHES && i != j ensures Separate(s', i, j) { assert Separate(s, i, j); }
    assert s.lives[k][a] - {idx} != {};
    forall c | c in s.held ensures Needed(s', c) { StillNeeded(s, s', c); }
  }

  lemma DropSlab(start: nat, size: nat, free: set<nat>, s: State, k: nat, a: nat, idx: nat)
    requires Sound(start, size, free, s) && k < CACHES && a in s.lives[k] && s.lives[k][a] == {idx}
    ensures HeldOne(start, size, free, SlabAt(a))
    ensures var s' := WithLive(s, k, s.lives[k] - {a}).(held := s.held - {SlabAt(a)});
            Sound(start, size, free + PagesOf(start, SlabAt(a)), s') && OneLess(s, s', Small(k, a, idx))
  {
    hide Held, Tiled, Aligned, NumObjs, Needed, SlabsOk;
    var s' := WithLive(s, k, s.lives[k] - {a}).(held := s.held - {SlabAt(a)});
    SlabInRegion(start, size, free, s, k, a);
    HeldGive(start, size, free, s.held, SlabAt(a));
    TiledGive(start, size, s.all, free, s.held, SlabAt(a));
    PlaceLess(s, k, a);
    forall c | c in s'.held ensures Needed(s', c) { StillNeeded(s, s', c); }
  }

  lemma PlaceLess(s: State, k: nat, a: nat)
    requires Placed(s) && k < CACHES && a in s.lives[k]
    ensures Placed(WithLive(s, k, s.lives[k] - {a}).(held := s.held - {SlabAt(a)}))
  {
    hide Aligned, NumObjs;
    var s' := WithLive(s, k, s.lives[k] - {a}).(held := s.held - {SlabAt(a)});
    assert SlabsOk(s, k);
    forall j | 0 <= j < CACHES
      ensures SlabsOk(s', j)
    {
      assert SlabsOk(s, j) && (j != k ==> Separate(s, k, j));
    }
    forall i, j | 0 <= i < CACHES && 0 <= j < CACHES && i != j ensures Separate(s', i, j) { assert Separate(s, i, j); }
  }

  lemma DropLarge(start: nat, size: nat, free: set<nat>, s: State, c: Chunk)
    requires Sound(start, size, free, s) && c in s.large
    ensures HeldOne(start, size, free, c)
    ensures var s' := s.(large := s.large - {c}, held := s.held - {c});
            Sound(start, size, free + PagesOf(start, c), s') && OneLess(s, s', Large(c))
  {
    hide Held, Tiled, Aligned, NumObjs, Needed;
    var s' := s.(large := s.large - {c}, held := s.held - {c});
    HeldGive(start, size, free, s.held, c);
    TiledGive(start, size, s.all, free, s.held, c);
    forall j | 0 <= j < CACHES ensures SlabsOk(s', j) { assert SlabsOk(s, j); }
    forall i, j | 0 <= i < CACHES && 0 <= j < CACHES && i != j ensures Separate(s', i, j) { assert Separate(s, i, j); }
    forall d | d in s'.held ensures Needed(s', d) { StillNeeded(s, s', d); }
  }
}
