/** The heap of src/kmalloc.c: object caches for the classes of 2^3 to 2^9 bytes, blocks of the kernel's virtual region
    above, and a header word in front of every block. */
module KernelHeap {
  import opened Powers
  import BuddyForest
  import opened BuddyAllocator
  import opened Chunks
  import opened SlabLayout
  import opened SlabAllocator
  import opened HeapBlocks

  const PAGE_LOG2: nat := 12
  const CANARY: nat := 0xDEAD12
  const WORD_SIZE: nat := 4

  /** The logarithm of the size of the block for a request, which is what the header records. */
  function ClassOf(sz: nat): nat {
    var l2 := Log2RoundUp(sz + WORD_SIZE);
    if l2 < MIN_CACHE_LOG2 then MIN_CACHE_LOG2 else if MAX_CACHE_LOG2 < l2 < PAGE_LOG2 then PAGE_LOG2 else l2
  }

  predicate IsClass(l2: nat) {
    MIN_CACHE_LOG2 <= l2 <= MAX_CACHE_LOG2 || PAGE_LOG2 <= l2
  }

  /** A class of blocks has room for a request and its header exactly if it is at least the class that is chosen. */
  lemma ClassFits(sz: nat, l: nat)
    requires IsClass(l)
    ensures IsClass(ClassOf(sz)) && (sz + WORD_SIZE <= Pow2(l) <==> ClassOf(sz) <= l)
  {
    Log2RoundUpLeast(sz + WORD_SIZE, l);
  }

  function Header(l2: nat): nat {
    CANARY * 256 + l2
  }

  /** The header of every class fits in a word, and gives class and canary back. */
  lemma HeaderFields(l2: nat)
    requires l2 < 32
    ensures Header(l2) < 0x1_0000_0000 && Header(l2) % 256 == l2 && Header(l2) / 256 == CANARY
  {
  }

  /** Every block in use starts with its header. */
  ghost predicate Headed(memory: map<nat, nat>, s: State) {
    forall b :: InUse(s, b) ==> AddrOf(b) in memory && memory[AddrOf(b)] == Header(SizeLog(b))
  }

  /** A new block overlaps no block in use, and its header overwrites no other. */
  lemma HeaderWritten(start: nat, size: nat, free: set<nat>, memory: map<nat, nat>, s: State, s': State, b: Block)
    requires Headed(memory, s) && OneMore(s, s', b) && Sound(start, size, free, s')
    ensures forall c | InUse(s, c) :: Apart(RangeOf(b), RangeOf(c))
    ensures Headed(memory[AddrOf(b) := Header(SizeLog(b))], s')
  {
    forall c | InUse(s', c) && c != b
      ensures Apart(RangeOf(b), RangeOf(c)) && AddrOf(c) != AddrOf(b)
    {
      BlocksDisjoint(start, size, free, s', b, c);
    }
  }

  lemma PageOrMore(l2: nat)
    ensures Pow2(l2) < 4096 <==> l2 < PAGE_LOG2
  {
    Pow2Values();
    if l2 < PAGE_LOG2 { Pow2Increasing(l2, PAGE_LOG2); }
    if PAGE_LOG2 < l2 { Pow2Increasing(PAGE_LOG2, l2); }
  }

  /** The caches that `kmalloc_init` creates. */
  method NewCaches() returns (made: seq<Cache>)
    ensures |made| == CACHES && forall k | 0 <= k < CACHES :: fresh(made[k]) && made[k].Valid()
    ensures forall k | 0 <= k < CACHES :: made[k].size == Pow2(k + MIN_CACHE_LOG2) && made[k].live == map[]
    ensures forall k | 0 <= k < CACHES :: made[k].repr == {} && made[k].arrays == {}
    ensures forall j, k | 0 <= j < k < CACHES :: made[j] != made[k]
  {
    hide Pow2, SlabAllocator.Cache.Valid;
    made := [];
    for i := 0 to CACHES
      invariant |made| == i && forall k | 0 <= k < i :: fresh(made[k]) && made[k].Valid()
      invariant forall k | 0 <= k < i :: made[k].size == Pow2(k + MIN_CACHE_LOG2) && made[k].live == map[]
      invariant forall k | 0 <= k < i :: made[k].repr == {} && made[k].arrays == {}
      invariant forall j, k | 0 <= j < k < i :: made[j] != made[k]
    {
      SmallSize(i);
      var c := new Cache(Pow2(i + MIN_CACHE_LOG2));
      made := made + [c];
    }
  }

  class Heap {
    const vms: Buddy
    const caches: seq<Cache>
    /** The header words in memory. */
    var memory: map<nat, nat>
    ghost var state: State
    /** What the caches are made of, which keeps them apart. */
    ghost var reprs: seq<set<Slab>>
    ghost var arrays: seq<set<array<bv8>>>

    ghost predicate Parts()
      reads this`state, this`reprs, this`arrays, vms`storage
    {
      && |caches| == |state.lives| == |reprs| == |arrays| == CACHES
      && (forall j, k | 0 <= j < k < CACHES ::
            caches[j] != caches[k] && reprs[j] !! reprs[k] && arrays[j] !! arrays[k])
      && (forall k | 0 <= k < CACHES :: vms.storage !in arrays[k])
    }

    ghost function Footprint(): set<object>
      reads this`reprs, this`arrays
    {
      (set k, s | 0 <= k < |reprs| && s in reprs[k] :: s) + (set k, s | 0 <= k < |arrays| && s in arrays[k] :: s)
    }

    /** Cache `k` has the live objects that the state says, and its parts. */
    ghost predicate CacheIs(k: nat)
      requires k < |caches| && k < |state.lives| && k < |reprs| && k < |arrays|
      reads this`state, this`reprs, this`arrays, caches[k], reprs[k], arrays[k]
    {
      && caches[k].repr == reprs[k] && caches[k].arrays == arrays[k]
      && caches[k].Valid() && caches[k].size == Pow2(k + MIN_CACHE_LOG2) && caches[k].live == state.lives[k]
    }

    /** The heap but for the headers. */
    ghost predicate Whole()
      reads this`state, this`reprs, this`arrays, vms, vms.storage, caches, Footprint()
    {
      && Parts() && vms.Valid() && vms.start % 0x1000_0000 == 0
      && (forall k | 0 <= k < CACHES :: CacheIs(k))
      && Sound(vms.start, vms.size, vms.free, state)
    }

    ghost predicate Valid()
      reads this, vms, vms.storage, caches, Footprint()
    {
      Whole() && Headed(memory, state)
    }

    /** There is an object for a small request, or a block for a large one. */
    ghost predicate Room(l2: nat)
      requires |caches| == CACHES
      reads vms, caches
    {
      if MIN_CACHE_LOG2 <= l2 <= MAX_CACHE_LOG2 then
        var c := caches[l2 - MIN_CACHE_LOG2];
        c.size > 0 && (!c.FullUpTo(|c.list|) || BuddyForest.HasBlock(vms.free, SLAB_LOG2 - PAGE_LOG2))
      else
        PAGE_LOG2 <= l2 <= BuddyForest.MAX_LOG2 && BuddyForest.HasBlock(vms.free, l2 - PAGE_LOG2)
    }

    /** `kmalloc_init`, with the virtual region as `vmspace_init` leaves it. */
    constructor (vms: Buddy)
      requires vms.Valid() && vms.start % 0x1000_0000 == 0
      ensures Valid() && this.vms == vms && state.all == vms.free && forall b :: !InUse(state, b)
      ensures Footprint() == {} && forall k | 0 <= k < |caches| :: fresh(caches[k])
    {
      hide BuddyAllocator.Buddy.Valid, SlabAllocator.Cache.Valid;
      this.vms := vms;
      var made := NewCaches();
      caches := made;
      memory := map[];
      state := State(seq(CACHES, _ => map[]), {}, {}, vms.free);
      reprs, arrays := seq(CACHES, _ => {}), seq(CACHES, _ => {});
    }

    /** The objects of cache `k` lie in blocks of the region that are in use. */
    lemma CacheRegion(k: nat)
      requires Whole() && k < CACHES
      ensures caches[k].Valid() && caches[k].size > 0 && caches[k].Region(vms, state.held)
    {
      hide SlabAllocator.Cache.Linked, BuddyAllocator.Buddy.Valid, Held;
      assert CacheIs(k) && SlabsOk(state, k);
      forall a | a in caches[k].slabs
        ensures SlabAt(a) in state.held
      {
        assert caches[k].BitsFit(a);
      }
    }

    /** After a step of cache `k`, the others are as they were. */
    ghost predicate OthersAre(k: nat)
      requires Parts() && k < CACHES
      reads this`state, this`reprs, this`arrays, vms`storage, caches, Footprint()
    {
      && (forall j | 0 <= j < CACHES && j != k :: CacheIs(j))
      && (forall j | 0 <= j < CACHES && j != k :: caches[k].repr !! reprs[j] && caches[k].arrays !! arrays[j])
    }

    ghost method Record(k: nat, held: set<Chunk>)
      requires Parts() && k < CACHES && OthersAre(k) && vms.storage !in caches[k].arrays
      requires caches[k].Valid() && caches[k].size == Pow2(k + MIN_CACHE_LOG2)
      modifies this`state, this`reprs, this`arrays
      ensures Parts() && state == WithLive(old(state), k, caches[k].live).(held := held)
      ensures forall j | 0 <= j < CACHES :: CacheIs(j)
      ensures Footprint() <= old(Footprint()) + caches[k].repr + caches[k].arrays
    {
      hide SlabAllocator.Cache.Valid, Pow2;
      state := WithLive(state, k, caches[k].live).(held := held);
      reprs, arrays := reprs[k := caches[k].repr], arrays[k := caches[k].arrays];
      forall j | 0 <= j < CACHES
        ensures CacheIs(j)
      {
        assert j != k ==> old(CacheIs(j));
      }
    }

    /** `slab_cache_alloc` in cache `k`. */
    method GetObject(k: nat, ghost full: bool) returns (ok: bool, ptr: nat, ghost a: nat, ghost idx: nat)
      requires Whole() && k < CACHES && caches[k].size > 0 && (full <==> caches[k].FullUpTo(|caches[k].list|))
      modifies caches, Footprint(), vms`bits, vms`free, vms.storage
      ensures ok <==> !full || BuddyForest.HasBlock(old(vms.free), SLAB_LOG2 - PAGE_LOG2)
      ensures !ok ==> vms.free == old(vms.free) && caches[k].FullUpTo(|caches[k].list|)
      ensures ok ==> OthersAre(k) && caches[k].Valid() && vms.Valid() && vms.storage !in caches[k].arrays
      ensures ok ==> fresh(caches[k].repr - reprs[k]) && fresh(caches[k].arrays - arrays[k])
      ensures ok ==> ptr == Addr(a, idx, caches[k].size) && idx < NumObjs(caches[k].size) && Aligned(a)
      ensures ok ==> caches[k].CanFree(a, idx) && caches[k].live == With(state.lives[k], a, idx)
      ensures ok && full ==> idx == 0 && SlabAt(a) !in state.held
      ensures ok && full ==> TakenFrom(vms.start, old(vms.free), SlabAt(a), vms.free)
      ensures ok && full ==> Held(vms.start, vms.size, vms.free, state.held + {SlabAt(a)})
      ensures ok && !full ==> vms.free == old(vms.free) && a in state.lives[k] && !IsLive(state.lives[k], a, idx)
    {
      hide Held, Sound, SlabAllocator.Cache.Valid, SlabAllocator.Cache.CanFree, BuddyAllocator.Buddy.Valid, Aligned,
        NumObjs, Addr, Pow2, SlabAllocator.Cache.FullUpTo, BuddyForest.HasBlock, SlabAllocator.Cache.SlabsHeld,
        IsLive, With;
      CacheRegion(k);
      assert CacheIs(k);
      ok, ptr, a, idx := caches[k].Alloc(vms, state.held);
      if ok {
        forall j | 0 <= j < CACHES && j != k
          ensures CacheIs(j)
        {
          assert old(CacheIs(j));
        }
      }
    }

    /** `kmalloc` of a small block. */
    method Small(k: nat) returns (ok: bool, ptr: nat, ghost b: Block)
      requires Whole() && k < CACHES
      modifies this`state, this`reprs, this`arrays, caches, Footprint(), vms`bits, vms`free, vms.storage
      ensures ok <==> old(Room(k + MIN_CACHE_LOG2))
      ensures !ok ==> !Room(k + MIN_CACHE_LOG2)
      ensures ok ==> Whole() && OneMore(old(state), state, b) && SizeLog(b) == k + MIN_CACHE_LOG2 && ptr == AddrOf(b)
      ensures ok ==> CanFree(b) && fresh(Footprint() - old(Footprint()))
    {
      hide Held, Sound, OneMore, SlabAllocator.Cache.Valid, SlabAllocator.Cache.CanFree, BuddyAllocator.Buddy.Valid,
        Aligned, NumObjs, Addr, Pow2, SlabAllocator.Cache.FullUpTo, BuddyForest.HasBlock, IsLive, InUse,
        With, TakenFrom;
      CacheRegion(k);
      assert CacheIs(k);
      ghost var a, idx, free, full := 0, 0, vms.free, caches[k].FullUpTo(|caches[k].list|);
      ok, ptr, a, idx := GetObject(k, full);
      b := HeapBlocks.Block.Small(k, a, idx);
      if ok {
        TakeSmall(vms.start, vms.size, free, vms.free, state, k, a, idx, full);
        Record(k, state.held + {SlabAt(a)});
      }
    }

    /** `kmalloc` of a large block. */
    method Large(l2: nat) returns (ok: bool, ptr: nat, ghost b: Block)
      requires Whole() && PAGE_LOG2 <= l2
      modifies this`state, vms`bits, vms`free, vms.storage
      ensures ok <==> old(Room(l2))
      ensures !ok ==> !Room(l2)
      ensures ok ==> Whole() && OneMore(old(state), state, b) && SizeLog(b) == l2 && ptr == AddrOf(b)
      ensures ok ==> CanFree(b) && fresh(Footprint() - old(Footprint()))
    {
      hide Held, Sound, OneMore, SlabAllocator.Cache.Valid;
      ghost var free, held := vms.free, state.held;
      SoundHeld(vms.start, vms.size, free, state);
      ok, ptr := TakeBlock(l2);
      b := HeapBlocks.Block.Large(Chunk(ptr, l2));
      if ok {
        TakeLarge(vms.start, vms.size, free, vms.free, state, Chunk(ptr, l2));
        state := state.(large := state.large + {Chunk(ptr, l2)}, held := state.held + {Chunk(ptr, l2)});
        forall j | 0 <= j < CACHES
          ensures CacheIs(j)
        {
          assert old(CacheIs(j));
        }
      }
    }

    /** `vmspace_alloc` of a block. */
    method TakeBlock(l2: nat) returns (ok: bool, ptr: nat)
      requires vms.Valid() && Held(vms.start, vms.size, vms.free, state.held) && PAGE_LOG2 <= l2
      modifies vms`bits, vms`free, vms.storage
      ensures ok <==> l2 <= BuddyForest.MAX_LOG2 && BuddyForest.HasBlock(old(vms.free), l2 - PAGE_LOG2)
      ensures vms.Valid() && (!ok ==> vms.free == old(vms.free))
      ensures ok ==> Chunk(ptr, l2) !in state.held
      ensures ok ==> Held(vms.start, vms.size, vms.free, state.held + {Chunk(ptr, l2)})
      ensures ok ==> TakenFrom(vms.start, old(vms.free), Chunk(ptr, l2), vms.free)
    {
      hide Held, Pow2, Log2RoundUp, BuddyAllocator.Buddy.Valid, BuddyForest.Pages;
      ghost var free, block := vms.free, 0;
      vms.FreeBelow();
      Log2RoundUpExact(l2);
      PageOrMore(l2);
      var r;
      r, block := vms.Alloc(Pow2(l2));
      if !r.Block? {
        return false, 0;
      }
      ok, ptr := true, r.addr;
      HeldTake(vms.start, vms.size, free, state.held, Pow2(l2), r, block, vms.free);
    }

    lemma WholeSound()
      requires Whole()
      ensures Sound(vms.start, vms.size, vms.free, state) && vms.Valid()
    {
    }

    /** The part of `kmalloc` that chooses the class and gets a block. */
    method TakeClass(sz: nat) returns (ok: bool, l2: nat, ptr: nat, ghost b: Block)
      requires Whole() && ClassOf(sz) < 32
      modifies this`state, this`reprs, this`arrays, caches, Footprint(), vms`bits, vms`free, vms.storage
      ensures ok <==> old(Room(ClassOf(sz)))
      ensures !ok ==> !Room(ClassOf(sz))
      ensures l2 == ClassOf(sz)
      ensures ok ==> Whole() && OneMore(old(state), state, b) && SizeLog(b) == l2 && ptr == AddrOf(b)
      ensures ok ==> CanFree(b) && fresh(Footprint() - old(Footprint()))
    {
      hide Whole, OneMore, AddrOf, SizeLog, Room, Pow2;
      l2 := Log2RoundUp(sz + WORD_SIZE);
      if l2 < MIN_CACHE_LOG2 {
        l2 := MIN_CACHE_LOG2;
      }
      if MIN_CACHE_LOG2 <= l2 <= MAX_CACHE_LOG2 {
        ok, ptr, b := Small(l2 - MIN_CACHE_LOG2);
      } else {
        var sizeP2 := Pow2(l2);
        PageOrMore(l2);
        if sizeP2 < 4096 {
          Pow2Values();
          sizeP2 := 4096;
          Log2RoundUpExact(PAGE_LOG2);
          l2 := Log2RoundUp(sizeP2);
        }
        ok, ptr, b := Large(l2);
      }
    }

    /** `kmalloc`. `ok` is false if there is no room, which the source does not notice. */
    method Kmalloc(sz: nat) returns (ok: bool, p: nat, ghost b: Block)
      requires Valid() && ClassOf(sz) < 32
      modifies this, caches, Footprint(), vms`bits, vms`free, vms.storage
      ensures ok <==> old(Room(ClassOf(sz)))
      ensures !ok ==> !Room(ClassOf(sz))
      ensures ok ==> Valid() && OneMore(old(state), state, b) && SizeLog(b) == ClassOf(sz)
      ensures ok ==> forall c | old(InUse(state, c)) :: Apart(RangeOf(b), RangeOf(c))
      ensures ok ==> CanFree(b) && fresh(Footprint() - old(Footprint()))
      ensures ok ==> p == AddrOf(b) + WORD_SIZE && p + sz <= AddrOf(b) + Pow2(SizeLog(b))
    {
      hide Headed, CacheIs, BuddyAllocator.Buddy.Valid, Sound, OneMore, Header;
      ClassFits(sz, ClassOf(sz));
      ghost var was := state;
      var l2, ptr;
      ok, l2, ptr, b := TakeClass(sz);
      if ok {
        WholeSound();
        HeaderWritten(vms.start, vms.size, vms.free, memory, was, state, b);
        memory := memory[ptr := Header(l2)];
      }
      p := ptr + WORD_SIZE;
    }

    /** `kfree` gets by without a crash: see `Cache.CanFree`. */
    ghost predicate CanFree(b: Block)
      requires |caches| == CACHES && (b.Small? ==> b.k < CACHES)
      reads caches
    {
      b.Small? ==> caches[b.k].CanFree(b.slab, b.idx)
    }

    /** `kfree` of a block in use. The header is intact, and tells where the block came from. */
    method Kfree(p: nat, ghost b: Block) returns (ok: bool)
      requires Valid() && InUse(state, b) && p == AddrOf(b) + WORD_SIZE
      modifies this, caches, Footprint(), vms`bits, vms`free, vms.storage
      ensures ok <==> old(CanFree(b))
      ensures !ok ==> !CanFree(b)
      ensures ok ==> Valid() && OneLess(old(state), state, b)
      ensures ok ==> fresh(Footprint() - old(Footprint()))
    {
      hide Whole, Sound;
      var ptr := p - WORD_SIZE;
      assert memory[ptr] == Header(SizeLog(b));
      ClassSmall(b);
      HeaderFields(SizeLog(b));
      var l2 := memory[ptr] % 256;
      var canary := memory[ptr] / 256;
      if canary != CANARY {
        return false;
      }
      if l2 <= MAX_CACHE_LOG2 {
        ok := FreeSmall(l2, ptr, b);
      } else {
        ok := true;
        FreeLarge(l2, ptr, b);
      }
    }

    lemma ClassSmall(b: Block)
      requires Whole() && InUse(state, b)
      ensures SizeLog(b) < 32 && (SizeLog(b) <= MAX_CACHE_LOG2 <==> b.Small?) && (b.Small? ==> b.k < CACHES)
    {
      if b.Large? { assert HeldOne(vms.start, vms.size, vms.free, b.chunk); }
    }

    /** `kfree` of a large block. */
    method FreeLarge(l2: nat, ptr: nat, ghost b: Block)
      requires Whole() && InUse(state, b) && b.Large? && ptr == AddrOf(b) && l2 == SizeLog(b)
      modifies this`state, vms`bits, vms`free, vms.storage
      ensures Whole() && OneLess(old(state), state, b)
      ensures InRegion(vms.start, b.chunk) && vms.free == old(vms.free) + PagesOf(vms.start, b.chunk)
    {
      hide Held, Sound, OneLess, SlabAllocator.Cache.Valid, BuddyAllocator.Buddy.Valid;
      ghost var c := b.chunk;
      DropLarge(vms.start, vms.size, vms.free, state, c);
      ReturnBlock(l2, ptr);
      state := state.(large := state.large - {c}, held := state.held - {c});
      forall j | 0 <= j < CACHES
        ensures CacheIs(j)
      {
        assert old(CacheIs(j));
      }
    }

    /** `vmspace_free` of a block. */
    method ReturnBlock(l2: nat, ptr: nat)
      requires vms.Valid() && HeldOne(vms.start, vms.size, vms.free, Chunk(ptr, l2))
      modifies vms`bits, vms`free, vms.storage
      ensures vms.Valid() && InRegion(vms.start, Chunk(ptr, l2))
      ensures vms.free == old(vms.free) + PagesOf(vms.start, Chunk(ptr, l2))
    {
      Log2RoundUpExact(l2);
      vms.Free(ptr, Pow2(l2));
    }

    /** `slab_cache_free` in cache `k`. */
    method FreeObject(k: nat, ptr: nat, ghost a: nat, ghost idx: nat) returns (ok: bool)
      requires Whole() && k < CACHES && IsLive(state.lives[k], a, idx) && ptr == Addr(a, idx, Pow2(k + MIN_CACHE_LOG2))
      requires InRegion(vms.start, SlabAt(a))
      modifies caches, Footprint(), vms`bits, vms`free, vms.storage
      ensures ok <==> old(caches[k].CanFree(a, idx))
      ensures !ok ==> !caches[k].CanFree(a, idx)
      ensures ok ==> OthersAre(k) && caches[k].Valid() && vms.Valid()
      ensures ok ==> caches[k].repr == reprs[k] && caches[k].arrays == arrays[k]
      ensures ok && !old(caches[k].Last(a, idx)) ==>
                vms.free == old(vms.free) && caches[k].live == state.lives[k][a := state.lives[k][a] - {idx}]
      ensures ok && old(caches[k].Last(a, idx)) ==>
                vms.free == old(vms.free) + PagesOf(vms.start, SlabAt(a)) && caches[k].live == state.lives[k] - {a}
    {
      hide Held, Sound, SlabAllocator.Cache.Valid, BuddyAllocator.Buddy.Valid, Addr, Pow2;
      CacheRegion(k);
      assert CacheIs(k);
      ok := caches[k].Free(vms, ptr, a, idx, state.held);
      if ok {
        forall j | 0 <= j < CACHES && j != k
          ensures CacheIs(j)
        {
          assert old(CacheIs(j));
        }
      }
    }

    /** `kfree` of a small block. */
    method FreeSmall(l2: nat, ptr: nat, ghost b: Block) returns (ok: bool)
      requires Whole() && InUse(state, b) && b.Small? && b.k < CACHES && ptr == AddrOf(b) && l2 == SizeLog(b)
      modifies this`state, this`reprs, this`arrays, caches, Footprint(), vms`bits, vms`free, vms.storage
      ensures ok <==> old(CanFree(b))
      ensures !ok ==> !CanFree(b)
      ensures ok ==> Whole() && OneLess(old(state), state, b)
      ensures ok ==> fresh(Footprint() - old(Footprint()))
    {
      hide Sound, OneLess, SlabAllocator.Cache.Valid, SlabAllocator.Cache.CanFree, BuddyAllocator.Buddy.Valid, Addr,
           Pow2;
      ghost var k, a, idx, free, held := b.k, b.slab, b.idx, vms.free, state.held;
      assert CacheIs(k);
      ghost var last := caches[k].Last(a, idx);
      SlabInRegion(vms.start, vms.size, free, state, k, a);
      ok := FreeObject(l2 - MIN_CACHE_LOG2, ptr, a, idx);
      if ok {
        if last {
          DropSlab(vms.start, vms.size, free, state, k, a, idx);
          held := held - {SlabAt(a)};
        } else {
          DropObject(vms.start, vms.size, free, state, k, a, idx);
        }
        Record(k, held);
      }
    }

    /** What is allocated and given back leaves the blocks in use, and the virtual region bit for bit, as they were. */
    method KmallocThenKfree(sz: nat) returns (ok: bool)
      requires Valid() && ClassOf(sz) < 32
      modifies this, caches, Footprint(), vms`bits, vms`free, vms.storage
      ensures ok <==> old(Room(ClassOf(sz)))
      ensures ok ==> Valid() && fresh(Footprint() - old(Footprint())) && SameBlocks(old(state), state)
      ensures ok ==> vms.free == old(vms.free) && vms.bits == old(vms.bits)
    {
      hide Whole, Headed, Sound, InUse, Room, CanFree, BuddyAllocator.Buddy.Valid;
      ghost var was, free := state, vms.free;
      WholeSound();
      vms.BitsOfFree();
      var p;
      ghost var b;
      ok, p, b := Kmalloc(sz);
      if ok {
        ok := Kfree(p, b);
        WholeSound();
        vms.BitsOfFree();
        FreeDetermined(vms.start, vms.size, free, was, vms.free, state);
      }
    }

    lemma Known(ptrs: seq<nat>, blocks: seq<Block>)
      requires Valid() && Pointers(state, ptrs, blocks)
      ensures |caches| == CACHES && forall b | b in blocks :: b.Small? ==> b.k < CACHES
    {
    }

    lemma HeldApart(ptrs: seq<nat>, blocks: seq<Block>)
      requires Valid() && Pointers(state, ptrs, blocks)
      ensures forall i, j | 0 <= i < j < |blocks| :: Apart(RangeOf(blocks[i]), RangeOf(blocks[j]))
    {
      hide Sound, RangeOf, InUse, BuddyAllocator.Buddy.Valid;
      WholeSound();
      forall i, j | 0 <= i < j < |blocks|
        ensures Apart(RangeOf(blocks[i]), RangeOf(blocks[j]))
      {
        BlocksDisjoint(vms.start, vms.size, vms.free, state, blocks[i], blocks[j]);
      }
    }

    lemma NoneHeld(ptrs: seq<nat>, blocks: seq<Block>)
      requires Valid() && Pointers(state, ptrs, blocks)
      ensures ptrs == [] ==> vms.free == state.all && vms.bits == BuddyForest.Forest(state.all)
    {
      WholeSound();
      vms.BitsOfFree();
      if ptrs == [] { NothingLost(vms.start, vms.size, vms.free, state); }
    }

    /** There is room for what is asked for, or `kfree` of what is held gets by. */
    ghost predicate Fine(call: Call, blocks: seq<Block>)
      requires |caches| == CACHES && forall b | b in blocks :: b.Small? ==> b.k < CACHES
      reads vms, caches
    {
      match call
      case Allocate(sz) => Room(ClassOf(sz))
      case Release(i) => i < |blocks| && CanFree(blocks[i])
    }

    /** One call. `ok` is false if it goes wrong, or frees what is not held. */
    method Perform(call: Call, ptrs: seq<nat>, ghost blocks: seq<Block>)
      returns (ok: bool, ptrs': seq<nat>, ghost blocks': seq<Block>)
      requires Valid() && Pointers(state, ptrs, blocks) && (call.Allocate? ==> ClassOf(call.sz) < 32)
      modifies this, caches, Footprint(), vms`bits, vms`free, vms.storage
      ensures ok <==> old(Fine(call, blocks))
      ensures !ok ==> ptrs' == ptrs && blocks' == blocks && !Fine(call, blocks)
      ensures ok ==> Valid() && fresh(Footprint() - old(Footprint()))
      ensures ok ==> Pointers(state, ptrs', blocks') && state.all == old(state.all)
    {
      hide Whole, Headed, Footprint, InUse, Room, CanFree, BuddyAllocator.Buddy.Valid;
      ptrs', blocks' := ptrs, blocks;
      match call
      case Allocate(sz) =>
        var p;
        ghost var b;
        ok, p, b := Kmalloc(sz);
        if ok {
          ptrs', blocks' := ptrs + [p], blocks + [b];
        }
      case Release(i) =>
        if i >= |ptrs| {
          return false, ptrs, blocks;
        }
        ok := Kfree(ptrs[i], blocks[i]);
        if ok {
          ptrs', blocks' := ptrs[..i] + ptrs[i + 1..], blocks[..i] + blocks[i + 1..];
        }
    }
  }

  /** Two states of one region with the same blocks in use. */
  ghost predicate SameBlocks(s: State, s': State) {
    s.all == s'.all && forall b :: InUse(s, b) <==> InUse(s', b)
  }

  /** A call of the heap: allocate so many bytes, or free the pointer at this place among those held. */
  datatype Call = Allocate(sz: nat) | Release(i: nat)

  /** The pointers held are those behind the headers of the blocks in use. */
  ghost predicate Pointers(s: State, ptrs: seq<nat>, blocks: seq<Block>) {
    && |ptrs| == |blocks| && (forall i | 0 <= i < |ptrs| :: ptrs[i] == AddrOf(blocks[i]) + WORD_SIZE)
    && (forall i, j | 0 <= i < j < |blocks| :: blocks[i] != blocks[j])
    && (forall b :: InUse(s, b) <==> b in blocks)
  }

  /** Any run of calls on a new heap. `done` of them were carried out; the next one, if there is one, would go wrong. If
      there is none, no two blocks that are held overlap, and when none is held, the region is as it was. */
  method Run(vms: Buddy, calls: seq<Call>) returns (h: Heap, done: nat, ptrs: seq<nat>, ghost blocks: seq<Block>)
    requires vms.Valid() && vms.start % 0x1000_0000 == 0
    requires forall c | c in calls && c.Allocate? :: ClassOf(c.sz) < 32
    modifies vms`bits, vms`free, vms.storage
    ensures done <= |calls| && |h.caches| == CACHES && forall b | b in blocks :: b.Small? ==> b.k < CACHES
    ensures done < |calls| ==> !h.Fine(calls[done], blocks)
    ensures done == |calls| ==> h.Valid() && h.vms == vms && Pointers(h.state, ptrs, blocks)
    ensures done == |calls| ==> forall i, j | 0 <= i < j < |blocks| :: Apart(RangeOf(blocks[i]), RangeOf(blocks[j]))
    ensures done == |calls| && ptrs == [] ==> vms.free == old(vms.free) && vms.bits == old(vms.bits)
  {
    hide Heap.Whole, Heap.Valid, InUse, BuddyAllocator.Buddy.Valid;
    vms.BitsOfFree();
    h := new Heap(vms);
    ptrs, blocks := [], [];
    done := 0;
    h.Known(ptrs, blocks);
    while done < |calls|
      invariant 0 <= done <= |calls| && |h.caches| == CACHES && forall b | b in blocks :: b.Small? ==> b.k < CACHES
      invariant h.Valid() && h.vms == vms && Pointers(h.state, ptrs, blocks) && h.state.all == old(vms.free)
      invariant fresh(h) && fresh(h.Footprint()) && forall k | 0 <= k < |h.caches| :: fresh(h.caches[k])
      decreases |calls| - done
    {
      ghost var before := h.Footprint();
      var ok;
      ok, ptrs, blocks := h.Perform(calls[done], ptrs, blocks);
      if !ok {
        return;
      }
      assert h.Footprint() <= before + (h.Footprint() - before);
      h.Known(ptrs, blocks);
      done := done + 1;
    }
    h.HeldApart(ptrs, blocks);
    h.NoneHeld(ptrs, blocks);
  }
}
