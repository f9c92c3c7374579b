/** Blocks of a region that a buddy allocator has handed out, as address ranges. */
module Chunks {
  import opened Powers
  import BuddyForest
  import opened BuddyAllocator

  /** A block: its address and the logarithm of its size. */
  datatype Chunk = Chunk(addr: nat, l2: nat)

  predicate InRegion(start: nat, c: Chunk) {
    start <= c.addr && BuddyForest.MIN_LOG2 <= c.l2 && AlignedFor(c.addr - start, c.l2)
  }

  ghost function PagesOf(start: nat, c: Chunk): set<nat>
    requires InRegion(start, c)
  {
    BuddyForest.Pages(c.l2 - BuddyForest.MIN_LOG2, Shr(c.addr - start, c.l2))
  }

  predicate Apart(c: Chunk, d: Chunk) {
    c.addr + Pow2(c.l2) <= d.addr || d.addr + Pow2(d.l2) <= c.addr
  }

  /** Blocks without a common page are apart as address ranges. */
  lemma ChunksApart(start: nat, c: Chunk, d: Chunk)
    requires InRegion(start, c) && InRegion(start, d) && PagesOf(start, c) !! PagesOf(start, d)
    ensures Apart(c, d)
  {
    var p := (if c.addr <= d.addr then d.addr else c.addr) - start;
    BlockAddresses(c.addr - start, c.l2 - BuddyForest.MIN_LOG2, p / PAGE);
    BlockAddresses(d.addr - start, d.l2 - BuddyForest.MIN_LOG2, p / PAGE);
  }

  lemma FirstPage(start: nat, c: Chunk)
    requires InRegion(start, c)
    ensures (c.addr - start) / PAGE in PagesOf(start, c)
  {
    BlockAddresses(c.addr - start, c.l2 - BuddyForest.MIN_LOG2, (c.addr - start) / PAGE);
  }

  ghost predicate HeldOne(start: nat, size: nat, free: set<nat>, c: Chunk) {
    && InRegion(start, c) && PagesOf(start, c) !! free && c.l2 <= BuddyForest.MAX_LOG2
    && BuddyForest.Below(PagesOf(start, c), size / PAGE)
  }

  /** The blocks in use: they share no page with each other or with the free pages. */
  ghost predicate Held(start: nat, size: nat, free: set<nat>, held: set<Chunk>) {
    && (forall c | c in held :: HeldOne(start, size, free, c))
    && (forall c, d | c in held && d in held && c != d :: PagesOf(start, c) !! PagesOf(start, d))
  }

  /** Block `c` is taken from the free pages. */
  ghost predicate TakenFrom(start: nat, free: set<nat>, c: Chunk, free': set<nat>) {
    InRegion(start, c) && PagesOf(start, c) <= free && free' == free - PagesOf(start, c)
  }

  ghost predicate HeldPage(start: nat, held: set<Chunk>, p: nat) {
    exists c :: c in held && InRegion(start, c) && p in PagesOf(start, c)
  }

  /** No page is lost: each of the pages that there were is free or in a block in use. */
  ghost predicate Tiled(start: nat, all: set<nat>, free: set<nat>, held: set<Chunk>) {
    forall p: nat :: p in all <==> p in free || HeldPage(start, held, p)
  }

  lemma TiledTake(start: nat, all: set<nat>, free: set<nat>, held: set<Chunk>, c: Chunk, free': set<nat>)
    requires Tiled(start, all, free, held) && TakenFrom(start, free, c, free')
    ensures Tiled(start, all, free', held + {c})
  {
    forall p: nat
      ensures p in all <==> p in free' || HeldPage(start, held + {c}, p)
    {
      if p in PagesOf(start, c) { assert c in held + {c} && p in free; }
      if HeldPage(start, held, p) {
        var d :| d in held && InRegion(start, d) && p in PagesOf(start, d);
        assert d in held + {c};
      }
    }
  }

  lemma TiledGive(start: nat, size: nat, all: set<nat>, free: set<nat>, held: set<Chunk>, c: Chunk)
    requires Tiled(start, all, free, held) && Held(start, size, free, held) && c in held && InRegion(start, c)
    ensures Tiled(start, all, free + PagesOf(start, c), held - {c})
  {
    forall p: nat
      ensures p in all <==> p in free + PagesOf(start, c) || HeldPage(start, held - {c}, p)
    {
      if HeldPage(start, held, p) && p !in PagesOf(start, c) {
        var d :| d in held && InRegion(start, d) && p in PagesOf(start, d);
        assert d in held - {c};
      }
    }
  }

  lemma HeldApart(start: nat, size: nat, free: set<nat>, held: set<Chunk>, c: Chunk, d: Chunk)
    requires Held(start, size, free, held) && c in held && d in held && c != d
    ensures Apart(c, d)
  {
    assert HeldOne(start, size, free, c) && HeldOne(start, size, free, d);
    ChunksApart(start, c, d);
  }

  lemma BlockIsChunk(start: nat, size: nat, free: set<nat>, sz: nat, r: AllocResult, block: nat, free': set<nat>)
    requires BuddyForest.Below(free, size / PAGE)
    requires sz > 2048 && BlockTaken(start, free, sz, r, block, free') && r.Block?
    ensures var c := Chunk(r.addr, Log2RoundUp(sz));
            && TakenFrom(start, free, c, free') && HeldOne(start, size, free', c)
            && BuddyForest.HasBlock(free, OrderOf(sz))
  {
    hide Pow2;
    var c := Chunk(r.addr, Log2RoundUp(sz));
    assert OrderOf(sz) + BuddyForest.MIN_LOG2 == c.l2;
    ShlIsTimes(block, c.l2);
    MultiplesAligned(block, c.l2);
    assert InRegion(start, c) && PagesOf(start, c) == BuddyForest.Pages(OrderOf(sz), block);
    assert BuddyForest.Free(free, OrderOf(sz), block);
  }

  /** What an allocation takes is a new block. */
  lemma HeldTake(start: nat, size: nat, free: set<nat>, held: set<Chunk>, sz: nat, r: AllocResult,
                 block: nat, free': set<nat>)
    requires Held(start, size, free, held) && BuddyForest.Below(free, size / PAGE)
    requires sz > 2048 && BlockTaken(start, free, sz, r, block, free') && r.Block?
    ensures var c := Chunk(r.addr, Log2RoundUp(sz));
            && c !in held && Held(start, size, free', held + {c}) && TakenFrom(start, free, c, free')
            && HeldOne(start, size, free', c) && BuddyForest.HasBlock(free, OrderOf(sz))
  {
    hide Pow2, BlockTaken, InRegion, PagesOf;
    var c := Chunk(r.addr, Log2RoundUp(sz));
    BlockIsChunk(start, size, free, sz, r, block, free');
    FirstPage(start, c);
    forall d | d in held
      ensures d != c && HeldOne(start, size, free', d) && PagesOf(start, c) !! PagesOf(start, d)
    {
      assert HeldOne(start, size, free, d);
    }
  }

  /** A block given back is no longer in use. */
  lemma HeldGive(start: nat, size: nat, free: set<nat>, held: set<Chunk>, c: Chunk)
    requires Held(start, size, free, held) && c in held
    ensures HeldOne(start, size, free, c) && Held(start, size, free + PagesOf(start, c), held - {c})
  {
    assert HeldOne(start, size, free, c);
    forall d | d in held - {c}
      ensures HeldOne(start, size, free + PagesOf(start, c), d)
    {
      assert HeldOne(start, size, free, d);
    }
  }
}
