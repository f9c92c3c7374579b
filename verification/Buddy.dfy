/** The buddy allocator of src/adt/buddy.c, over bitmaps that share one array of bytes. */
module BuddyAllocator {
  import opened Options
  import opened Powers
  import opened Bitmaps
  import opened BuddyForest

  /** `range_t` of src/include/hal.h. */
  datatype Range = Range(start: nat, extent: nat)

  /** The outcomes of `buddy_alloc`: an address, `~0ULL`, or the panic at line 97. */
  datatype AllocResult = Block(addr: nat) | Exhausted | TooLarge

  const PAGE: nat := 4096

  /** Bits in the bitmap of order `k`. */
  function BitCount(size: nat, k: nat): nat {
    Shr(size, MIN_LOG2 + k)
  }

  /** Where `buddy_init` puts the bitmap of order `k`, counted from the start of the overhead storage. */
  function Layout(size: nat, k: nat): nat {
    if k == 0 then 0 else Layout(size, k - 1) + ByteCount(BitCount(size, k - 1))
  }

  lemma {:induction false} LayoutOrdered(size: nat, k: nat, k': nat)
    requires k < k'
    ensures Layout(size, k) + ByteCount(BitCount(size, k)) <= Layout(size, k')
  {
    if k + 1 < k' { LayoutOrdered(size, k, k' - 1); }
  }

  lemma LayoutMonotone(size: nat, k: nat, k': nat)
    requires k <= k'
    ensures Layout(size, k) <= Layout(size, k')
  {
    if k < k' { LayoutOrdered(size, k, k'); }
  }

  /** `buddy_calc_overhead` budgets exactly the bytes that `buddy_init` lays out. */
  method CalcOverhead(r: Range) returns (accum: nat)
    ensures accum == Layout(r.extent, TOP + 1)
  {
    accum := 0;
    for i := MIN_LOG2 to MAX_LOG2 + 1
      invariant accum == Layout(r.extent, i - MIN_LOG2)
    {
      assert BitCount(r.extent, i - MIN_LOG2) == Shr(r.extent, i);
      accum := accum + Shr(r.extent, i) / 8 + 1;
    }
  }

  /** What `buddy_alloc` promises of a region at `start` with free pages `f`: the panic, `~0ULL` exactly when no block
      of the order is wholly free, and otherwise the first block inside the best fit. */
  ghost predicate AllocOutcome(start: nat, f: set<nat>, sz: nat, r: AllocResult, block: nat)
    requires sz > 2048
  {
    var l := OrderOf(sz) + MIN_LOG2;
    if l > MAX_LOG2 then r == TooLarge
    else if forall i: nat :: !Free(f, OrderOf(sz), i) then r == Exhausted
    else
      && r == Block(start + Shl(block, l))
      && exists j: nat, i: nat :: BestFit(Forest(f), OrderOf(sz), j, i) && block == FirstInside(OrderOf(sz), j, i)
  }

  /** The order of the blocks that requests of `sz` bytes are served with. */
  function OrderOf(sz: nat): (k: nat)
    requires sz > 2048
    ensures k == Log2RoundUp(sz) - MIN_LOG2
  {
    Log2RoundUpLeast(sz, 11);
    assert Pow2(11) == 2048 by { Pow2Values(); }
    Log2RoundUp(sz) - MIN_LOG2
  }

  /** Equal bitmaps give equal answers, however the region came to be in its state. */
  lemma AllocDetermined(start: nat, f: set<nat>, f': set<nat>, sz: nat,
                        r: AllocResult, block: nat, r': AllocResult, block': nat)
    requires sz > 2048 && Forest(f) == Forest(f')
    requires AllocOutcome(start, f, sz, r, block) && AllocOutcome(start, f', sz, r', block')
    ensures r == r' && (r.Block? ==> block == block')
  {
    ForestInjective(f, f');
    if r.Block? {
      var k := OrderOf(sz);
      var j: nat, i: nat :| BestFit(Forest(f), k, j, i) && block == FirstInside(k, j, i);
      var j': nat, i': nat :| BestFit(Forest(f), k, j', i') && block' == FirstInside(k, j', i');
      assert j == j';
    }
  }

  /** Page `p` of a region at `start` lies wholly inside `r`. */
  ghost predicate PageInside(start: nat, p: nat, r: Range) {
    r.start <= start + p * PAGE && start + (p + 1) * PAGE <= r.start + r.extent
  }

  /** The whole pages of the region that lie inside `r`. */
  ghost function WholePages(start: nat, size: nat, r: Range): set<nat> {
    PagesInside(start, size / PAGE, r)
  }

  /** Those among the first `n` pages. */
  ghost function PagesInside(start: nat, n: nat, r: Range): set<nat> {
    if n == 0 then {} else PagesInside(start, n - 1, r) + if PageInside(start, n - 1, r) then {n - 1} else {}
  }

  lemma {:induction false} InPagesInside(start: nat, n: nat, r: Range, p: nat)
    ensures p in PagesInside(start, n, r) <==> p < n && PageInside(start, p, r)
  {
    if n > 0 { InPagesInside(start, n - 1, r, p); }
  }

  lemma InWholePages(start: nat, size: nat, r: Range, p: nat)
    ensures p in WholePages(start, size, r) <==> p < size / PAGE && PageInside(start, p, r)
  {
    InPagesInside(start, size / PAGE, r, p);
  }

  /** Ranges with the same whole pages. */
  lemma SameWholePages(start: nat, size: nat, r: Range, r': Range)
    requires forall p: nat :: PageInside(start, p, r) <==> PageInside(start, p, r')
    ensures WholePages(start, size, r) == WholePages(start, size, r')
  {
    forall p: nat
      ensures p in WholePages(start, size, r) <==> p in WholePages(start, size, r')
    {
      InWholePages(start, size, r, p);
      InWholePages(start, size, r', p);
    }
  }

  lemma NoWholePages(start: nat, size: nat, r: Range)
    requires forall p: nat :: !PageInside(start, p, r)
    ensures WholePages(start, size, r) == {}
  {
    forall p: nat
      ensures p !in WholePages(start, size, r)
    {
      InWholePages(start, size, r, p);
    }
  }

  /** Blocks below the number of pages have bit numbers below the bit count. */
  lemma BlockInRange(size: nat, k: nat, i: nat)
    requires Below(Pages(k, i), size / PAGE)
    ensures i < BitCount(size, k) && Sibling(i) <= BitCount(size, k)
  {
    var w := Pow2(k);
    PagesAreRuns(k, i, i * w + w - 1);
    Pow2Add(MIN_LOG2, k);
    Pow2Values();
    assert i * w + w <= size / PAGE;
    assert (i + 1) * (PAGE * w) == (i * w + w) * PAGE;
    ShrAtLeast(size, MIN_LOG2 + k, i + 1);
  }

  lemma SplitInRange(size: nat, k: nat, i: nat)
    requires Below(Pages(k + 1, i), size / PAGE)
    ensures i <= BitCount(size, k + 1) && 2 * i + 1 <= BitCount(size, k)
  {
    PagesHalve(k, i);
    BlockInRange(size, k + 1, i);
    BlockInRange(size, k, 2 * i);
  }

  /** The bitmap of order `k`, as `buddy_init` places it. */
  ghost function BitmapAt(storage: array<bv8>, base: nat, size: nat, k: nat): Bitmap {
    Bitmap(storage, base + Layout(size, k), BitCount(size, k))
  }

  /** The pages of the block that `buddy_free(addr, sz)` frees in a region at `start`. */
  ghost function BlockPages(start: nat, addr: nat, sz: nat): set<nat>
    requires sz > 0 && Log2RoundUp(sz) >= MIN_LOG2 && addr >= start
  {
    Pages(Log2RoundUp(sz) - MIN_LOG2, Shr(addr - start, Log2RoundUp(sz)))
  }

  /** The same seen from outside: a free block is taken, or nothing changes. */
  ghost predicate BlockTaken(start: nat, f: set<nat>, sz: nat, r: AllocResult, block: nat, f': set<nat>)
    requires sz > 2048
  {
    && AllocOutcome(start, f, sz, r, block)
    && (r.Block? ==> && Pages(OrderOf(sz), block) <= f
                     && BlockPages(start, r.addr, sz) == Pages(OrderOf(sz), block))
    && f' == if r.Block? then f - Pages(OrderOf(sz), block) else f
  }

  /** The first `n` bitmaps, one after another. */
  ghost function BitmapsFor(storage: array<bv8>, base: nat, size: nat, n: nat): (r: seq<Bitmap>)
    ensures |r| == n
  {
    if n == 0 then [] else BitmapsFor(storage, base, size, n - 1) + [BitmapAt(storage, base, size, n - 1)]
  }

  /** The set of bit numbers of order `k`, given the storage's contents. */
  ghost function OrderBits(contents: seq<bv8>, base: nat, size: nat, k: nat): set<nat>
    requires base + Layout(size, k + 1) <= |contents|
  {
    BitsOf(contents[base + Layout(size, k)..base + Layout(size, k + 1)])
  }

  /** The sets of the first `n` orders. */
  ghost function Decode(contents: seq<bv8>, base: nat, size: nat, n: nat): (r: Orders)
    requires base + Layout(size, n) <= |contents|
    ensures |r| == n
  {
    if n == 0 then [] else Decode(contents, base, size, n - 1) + [OrderBits(contents, base, size, n - 1)]
  }

  lemma {:induction false} BitmapsForAt(storage: array<bv8>, base: nat, size: nat, n: nat, k: nat)
    requires k < n
    ensures BitmapsFor(storage, base, size, n)[k] == BitmapAt(storage, base, size, k)
  {
    if k < n - 1 { BitmapsForAt(storage, base, size, n - 1, k); }
  }

  lemma {:induction false} DecodeAt(contents: seq<bv8>, base: nat, size: nat, n: nat, k: nat)
    requires k < n && base + Layout(size, n) <= |contents|
    ensures base + Layout(size, k + 1) <= |contents|
    ensures Decode(contents, base, size, n)[k] == OrderBits(contents, base, size, k)
  {
    if k < n - 1 { DecodeAt(contents, base, size, n - 1, k); }
  }

  lemma SliceKept(before: seq<bv8>, after: seq<bv8>, lo: nat, hi: nat, a: nat, b: nat)
    requires SameOutside(before, after, lo, hi) && a <= b <= |before| && (b <= lo || hi <= a)
    ensures after[a..b] == before[a..b]
  {
  }

  /** Writing only bytes of the bitmap of order `k` changes no other order's set. */
  lemma DecodeWrite(before: seq<bv8>, after: seq<bv8>, base: nat, size: nat, n: nat, k: nat)
    requires SameOutside(before, after, base + Layout(size, k), base + Layout(size, k + 1))
    requires base + Layout(size, n) <= |before|
    ensures forall k' | 0 <= k' < n && k' != k :: Decode(after, base, size, n)[k'] == Decode(before, base, size, n)[k']
  {
    forall k' | 0 <= k' < n && k' != k
      ensures Decode(after, base, size, n)[k'] == Decode(before, base, size, n)[k']
    {
      if k' < k { LayoutOrdered(size, k', k); } else { LayoutOrdered(size, k, k'); }
      DecodeAt(before, base, size, n, k');
      DecodeAt(after, base, size, n, k');
      SliceKept(before, after, base + Layout(size, k), base + Layout(size, k + 1),
                base + Layout(size, k'), base + Layout(size, k' + 1));
    }
  }

  /** The same, for an update that leaves the set `s` at order `k`. */
  lemma DecodeUpdate(before: seq<bv8>, after: seq<bv8>, base: nat, size: nat, n: nat, k: nat, s: set<nat>)
    requires SameOutside(before, after, base + Layout(size, k), base + Layout(size, k + 1))
    requires k < n && base + Layout(size, n) <= |before|
    requires base + Layout(size, k + 1) <= |before| && OrderBits(after, base, size, k) == s
    ensures Decode(after, base, size, n) == Decode(before, base, size, n)[k := s]
    ensures SameOutside(before, after, base, base + Layout(size, n))
  {
    LayoutOrdered(size, k, n);
    DecodeAt(after, base, size, n, k);
    DecodeWrite(before, after, base, size, n, k);
  }

  /** An aligned block in page numbers and in addresses. */
  lemma BlockAddresses(offs: nat, k: nat, p: nat)
    requires AlignedFor(offs, MIN_LOG2 + k)
    ensures p in Pages(k, Shr(offs, MIN_LOG2 + k)) <==> offs <= p * PAGE < offs + Pow2(MIN_LOG2 + k)
    ensures offs % PAGE == 0 && Pow2(MIN_LOG2 + k) % PAGE == 0
  {
    var idx, w := Shr(offs, MIN_LOG2 + k), Pow2(k);
    Pow2Add(MIN_LOG2, k);
    Pow2Values();
    ShlIsTimes(idx, MIN_LOG2 + k);
    RunScaled(idx, w, p);
    PagesAreRuns(k, idx, p);
  }

  lemma RunScaled(i: nat, w: nat, p: nat)
    ensures i * w <= p < i * w + w <==> i * (PAGE * w) <= p * PAGE < i * (PAGE * w) + PAGE * w
    ensures (i * (PAGE * w)) % PAGE == 0 && (PAGE * w) % PAGE == 0
  {
    var m := i * w;
    assert i * (PAGE * w) == PAGE * m;
  }

  /** Writing only outside an allocator's own bytes changes none of its sets. */
  lemma {:induction false} WindowKept(before: seq<bv8>, after: seq<bv8>, lo: nat, hi: nat, base: nat, size: nat, n: nat)
    requires SameOutside(before, after, lo, hi) && base + Layout(size, n) <= |before|
    requires base + Layout(size, n) <= lo || hi <= base
    ensures Decode(after, base, size, n) == Decode(before, base, size, n)
  {
    if n > 0 {
      WindowKept(before, after, lo, hi, base, size, n - 1);
      SliceKept(before, after, lo, hi, base + Layout(size, n - 1), base + Layout(size, n));
    }
  }

  /** Moving `b` from the pages `w` still to be freed over to the free pages `f`. */
  lemma PassOver(f: set<nat>, b: set<nat>, w: set<nat>, w': set<nat>)
    requires w == b + w' && b !! w' && w !! f
    ensures b <= w && b !! f && w' !! f + b && (f + b) + w' == f + w
  {
  }

  /** Taking an aligned chunk off the front of a range takes exactly that block off the range's whole pages. */
  lemma ChunkPages(start: nat, size: nat, r: Range, k: nat, sz: nat)
    requires start % PAGE == 0 && start <= r.start && r.start + r.extent <= start + size
    requires AlignedFor(r.start - start, MIN_LOG2 + k) && sz == Pow2(MIN_LOG2 + k) <= r.extent
    ensures var block, rest := Pages(k, Shr(r.start - start, MIN_LOG2 + k)), Range(r.start + sz, r.extent - sz);
            && rest.start % PAGE == 0
            && WholePages(start, size, r) == block + WholePages(start, size, rest)
            && block !! WholePages(start, size, rest) && Below(block, size / PAGE)
  {
    BlockAddresses(r.start - start, k, 0);
    var block, rest := Pages(k, Shr(r.start - start, MIN_LOG2 + k)), Range(r.start + sz, r.extent - sz);
    forall p: nat
      ensures p in WholePages(start, size, r) <==> p in block || p in WholePages(start, size, rest)
      ensures p in block ==> p !in WholePages(start, size, rest) && p < size / PAGE
    {
      BlockAddresses(r.start - start, k, p);
      InWholePages(start, size, r, p);
      InWholePages(start, size, rest, p);
    }
  }

  /** The loop of `buddy_init`: one cleared bitmap after another, from `base` on. */
  method LayOut(storage: array<bv8>, base: nat, size: nat) returns (orders: seq<Bitmap>)
    requires base + Layout(size, TOP + 1) <= storage.Length
    modifies storage
    ensures orders == BitmapsFor(storage, base, size, TOP + 1)
    ensures Decode(storage[..], base, size, TOP + 1) == EmptyOrders(TOP + 1)
    ensures SameOutside(old(storage[..]), storage[..], base, base + Layout(size, TOP + 1))
  {
    orders := [];
    var offset := base;
    for i := 0 to TOP + 1
      invariant offset == base + Layout(size, i) <= storage.Length
      invariant orders == BitmapsFor(storage, base, size, i)
      invariant Decode(storage[..], base, size, i) == EmptyOrders(i)
      invariant SameOutside(old(storage[..]), storage[..], base, offset)
    {
      LayoutMonotone(size, i + 1, TOP + 1);
      ghost var before := storage[..];
      var bitmap := BitmapInit(storage, offset, BitCount(size, i));
      orders := orders + [bitmap];
      offset := offset + BitCount(size, i) / 8 + 1;
      DecodeWrite(before, storage[..], base, size, i, i);
      assert Decode(storage[..], base, size, i) == Decode(before, base, size, i);
    }
  }

  /** The bytes of the bitmap of order `k`. */
  lemma LayoutPlace(storage: array<bv8>, base: nat, size: nat, k: nat)
    requires base + Layout(size, k + 1) <= storage.Length
    ensures var b := BitmapAt(storage, base, size, k);
            b.Fits() && b.base + b.Length() == base + Layout(size, k + 1)
            && b.Bits() == OrderBits(storage[..], base, size, k)
  {
  }

  class Buddy {
    var start: nat
    var size: nat
    var orders: seq<Bitmap>
    ghost var storage: array<bv8>
    ghost var base: nat
    /** The sets the bitmaps stand for, and the free pages they describe. */
    ghost var bits: Orders
    ghost var free: set<nat>

    /** The end of this allocator's own bytes of the shared storage. */
    ghost function Limit(): nat
      reads this
    {
      base + Layout(size, TOP + 1)
    }

    /** The bitmaps are in place, and `bits` is what the given contents of the storage stand for. */
    ghost predicate ShapeIn(contents: seq<bv8>)
      reads this
    {
      && Limit() <= |contents| == storage.Length
      && orders == BitmapsFor(storage, base, size, TOP + 1)
      && bits == Decode(contents, base, size, TOP + 1)
    }

    ghost predicate Shape()
      reads this, storage
    {
      ShapeIn(storage[..])
    }

    ghost predicate ValidIn(contents: seq<bv8>)
      reads this
    {
      && ShapeIn(contents)
      && start % PAGE == 0 && start + size <= 0x1_0000_0000_0000_0000 && size < 0x1000_0000_0000
      && Below(free, size / PAGE) && bits == Forest(free)
    }

    ghost predicate Valid()
      reads this, storage
    {
      ValidIn(storage[..])
    }

    /** Another allocator's writes to the shared storage do no harm. */
    lemma KeptByOthers(before: seq<bv8>, lo: nat, hi: nat)
      requires ValidIn(before) && SameOutside(before, storage[..], lo, hi) && (Limit() <= lo || hi <= base)
      ensures Valid()
    {
      WindowKept(before, storage[..], lo, hi, base, size, TOP + 1);
    }

    /** `buddy_init`: the bitmaps are laid out one after another and cleared; `startFreed` frees the whole region. */
    constructor Init(storage: array<bv8>, base: nat, r: Range, startFreed: bool)
      requires r.start % PAGE == 0 && r.start + r.extent <= 0x1_0000_0000_0000_0000 && r.extent < 0x1000_0000_0000
      requires base + Layout(r.extent, TOP + 1) <= storage.Length
      modifies storage
      ensures Valid() && start == r.start && size == r.extent && this.storage == storage && this.base == base
      ensures free == if startFreed then WholePages(start, size, r) else {}
      ensures SameOutside(old(storage[..]), storage[..], base, Limit())
    {
      start, size := r.start, r.extent;
      this.storage, this.base := storage, base;
      bits, free := EmptyOrders(TOP + 1), {};
      orders := [];
      new;
      orders := LayOut(storage, base, size);
      ForestOfNothing();
      if startFreed {
        FreeRange(r);
      }
    }

    /** The bitmap of order `k` is in place, and stands for `bits[k]`. */
    lemma Access(k: nat)
      requires Shape() && k <= TOP
      ensures orders[k] == BitmapAt(storage, base, size, k) && orders[k].Fits()
      ensures orders[k].Bits() == bits[k] && base + Layout(size, k + 1) <= storage.Length
    {
      BitmapsForAt(storage, base, size, TOP + 1, k);
      DecodeAt(storage[..], base, size, TOP + 1, k);
    }

    lemma FreeBelow()
      requires Valid()
      ensures Below(free, size / PAGE)
    {
    }

    lemma BitsOfFree()
      requires Valid()
      ensures bits == Forest(free)
    {
    }

    method SetBit(k: nat, i: nat)
      requires Shape() && k <= TOP && i <= BitCount(size, k)
      modifies storage, this`bits
      ensures Shape() && bits == With(old(bits), k, i)
      ensures SameOutside(old(storage[..]), storage[..], base, Limit())
    {
      hide Layout, Decode, BitmapsFor, OrderBits, Bitmaps.BitsOf;
      ghost var before := storage[..];
      Access(k);
      LayoutPlace(storage, base, size, k);
      orders[k].Set(i);
      LayoutPlace(storage, base, size, k);
      bits := With(bits, k, i);
      DecodeUpdate(before, storage[..], base, size, TOP + 1, k, bits[k]);
    }

    method ClearBit(k: nat, i: nat)
      requires Shape() && k <= TOP && i <= BitCount(size, k)
      modifies storage, this`bits
      ensures Shape() && bits == Without(old(bits), k, i)
      ensures SameOutside(old(storage[..]), storage[..], base, Limit())
    {
      hide Layout, Decode, BitmapsFor, OrderBits, Bitmaps.BitsOf;
      ghost var before := storage[..];
      Access(k);
      LayoutPlace(storage, base, size, k);
      orders[k].Clear(i);
      LayoutPlace(storage, base, size, k);
      bits := Without(bits, k, i);
      DecodeUpdate(before, storage[..], base, size, TOP + 1, k, bits[k]);
    }

    method TestBit(k: nat, i: nat) returns (r: bool)
      requires Shape() && k <= TOP && i <= BitCount(size, k)
      ensures r <==> i in bits[k]
    {
      Access(k);
      r := orders[k].IsSet(i);
    }

    /** One round of the loop in `buddy_free`: set the bit, and if the buddy's bit is set too, clear both. */
    method FreeOrMerge(k: nat, idx: nat) returns (merged: bool)
      requires Shape() && k <= TOP
      requires idx <= BitCount(size, k) && Sibling(idx) <= BitCount(size, k)
      modifies storage, this`bits
      ensures Shape()
      ensures merged <==> k < TOP && Sibling(idx) in old(bits)[k]
      ensures bits == if merged then Without(Without(old(bits), k, idx), k, Sibling(idx)) else With(old(bits), k, idx)
      ensures SameOutside(old(storage[..]), storage[..], base, Limit())
    {
      SetBit(k, idx);
      merged := false;
      if k != TOP {
        merged := TestBit(k, Sibling(idx));
        if merged {
          ClearBit(k, idx);
          assert bits[k] == old(bits)[k] - {idx};
          assert bits == Without(old(bits), k, idx);
          ClearBit(k, Sibling(idx));
        }
      }
    }

    /** The loop of `buddy_free`: while the buddy is free too, go up an order. */
    method FreeBlock(order: nat, block: nat)
      requires Valid() && order <= TOP
      requires Below(Pages(order, block), size / PAGE) && Pages(order, block) !! free
      modifies storage, this`bits, this`free
      ensures Valid() && free == old(free) + Pages(order, block)
      ensures SameOutside(old(storage[..]), storage[..], base, Limit())
    {
      var k, idx := order, block;
      ghost var g, target := free, free + Pages(k, idx);
      var merged := true;
      while merged
        invariant k <= TOP && Shape()
        invariant merged ==> Pages(k, idx) !! g && g + Pages(k, idx) == target && bits == Forest(g)
        invariant !merged ==> bits == Forest(target)
        invariant SameOutside(old(storage[..]), storage[..], base, Limit())
        decreases merged, TOP - k
      {
        assert Below(Pages(k, idx), size / PAGE);
        BlockInRange(size, k, idx);
        merged := FreeOrMerge(k, idx);
        if merged {
          Coalesce(g, k, idx);
          g := g - Pages(k, Sibling(idx));
          idx := idx / 2;
          k := k + 1;
        } else {
          Settle(g, k, idx);
        }
      }
      free := target;
    }

    /** Frees blocks one after another. */
    method FreeAll(blocks: seq<(nat, nat)>)
      requires Valid() && Returnable(free, size / PAGE, blocks)
      modifies storage, this`bits, this`free
      decreases |blocks|
      ensures Valid() && free == old(free) + AllPages(blocks) && bits == Forest(old(free) + AllPages(blocks))
      ensures SameOutside(old(storage[..]), storage[..], base, Limit())
    {
      hide ShapeIn, Forest, Below, Pages;
      if blocks != [] {
        FreeBlock(blocks[0].0, blocks[0].1);
        FreeAll(blocks[1..]);
        assert old(free) + Pages(blocks[0].0, blocks[0].1) + AllPages(blocks[1..]) == old(free) + AllPages(blocks);
      } else {
        assert old(free) + {} == old(free);
      }
    }

    /** `buddy_free`. */
    method Free(addr: nat, sz: nat)
      requires Valid() && 0 < sz && MIN_LOG2 <= Log2RoundUp(sz) <= MAX_LOG2 && start <= addr
      requires Below(BlockPages(start, addr, sz), size / PAGE) && BlockPages(start, addr, sz) !! free
      modifies storage, this`bits, this`free
      ensures Valid() && free == old(free) + BlockPages(start, addr, sz)
      ensures SameOutside(old(storage[..]), storage[..], base, Limit())
    {
      var logSz := Log2RoundUp(sz);
      FreeBlock(logSz - MIN_LOG2, Shr(addr - start, logSz));
    }

    /** `bitmap_first_set` on the bitmap of order `k`. */
    method FirstSet(k: nat) returns (r: Option<nat>)
      requires Valid() && k <= TOP
      ensures r.None? ==> bits[k] == {}
      ensures r.Some? ==> r.value in bits[k] && forall i | i in bits[k] :: r.value <= i
    {
      Access(k);
      BitsInRange(k);
      r := orders[k].FirstSet();
      Access(k);
      assert r.None? ==> forall i | i in bits[k] :: i < BitCount(size, k) < i;
    }

    lemma BitsInRange(k: nat)
      requires Valid() && k <= TOP
      ensures forall i | i in bits[k] :: i < BitCount(size, k)
    {
      forall i | i in bits[k]
        ensures i < BitCount(size, k)
      {
        ForestBit(free, k, i);
        BlockInRange(size, k, i);
      }
    }

    /** One round of the splitting loop: clear the block's bit and set both halves' bits, one order down. */
    method Split(k: nat, idx: nat)
      requires Shape() && 0 < k <= TOP && idx <= BitCount(size, k)
      requires 2 * idx + 1 <= BitCount(size, k - 1)
      modifies storage, this`bits
      ensures Shape()
      ensures bits == With(With(Without(old(bits), k, idx), k - 1, 2 * idx + 1), k - 1, 2 * idx)
      ensures SameOutside(old(storage[..]), storage[..], base, Limit())
    {
      ClearBit(k, idx);
      SetBit(k - 1, 2 * idx);
      SetBit(k - 1, 2 * idx + 1);
      assert bits[k - 1] == old(bits)[k - 1] + {2 * idx + 1} + {2 * idx};
    }

    /** `buddy_alloc`. Requests of 2048 bytes or less would index a bitmap below the first and are the caller's error.
        `block` is the number of the block that is handed out. */
    method Alloc(sz: nat) returns (r: AllocResult, ghost block: nat)
      requires Valid() && sz > 2048
      modifies storage, this`bits, this`free
      ensures Valid() && BlockTaken(start, old(free), sz, r, block, free)
      ensures !r.Block? ==> bits == old(bits)
      ensures SameOutside(old(storage[..]), storage[..], base, Limit())
    {
      hide ShapeIn, Forest, Layout, Pow2, Below;
      block := 0;
      var k := OrderOf(sz);
      if k > TOP {
        return TooLarge, block;
      }
      SearchComplete(free, k);
      var j, found := Search(k);
      if found.None? {
        return Exhausted, block;
      }
      var idx := TakeBlock(k, j, found.value);
      block := idx;
      r := Block(start + Shl(idx, MIN_LOG2 + k));
      ShrOfShl(idx, MIN_LOG2 + k);
    }

    /** The search loop of `buddy_alloc`. */
    method Search(k: nat) returns (j: nat, found: Option<nat>)
      requires Valid() && k <= TOP
      ensures found.None? ==> forall j' | k <= j' <= TOP :: bits[j'] == {}
      ensures found.Some? ==> BestFit(bits, k, j, found.value)
    {
      j, found := k, None;
      while j <= TOP
        invariant k <= j <= TOP + 1 && found == None && forall j' | k <= j' < j :: bits[j'] == {}
      {
        found := FirstSet(j);
        if found.Some? {
          break;
        }
        j := j + 1;
      }
    }

    /** The splitting loop of `buddy_alloc`, and the clearing of the block's bit that follows it. */
    method TakeBlock(k: nat, order: nat, found: nat) returns (idx: nat)
      requires Valid() && k <= order <= TOP && found in bits[order]
      modifies storage, this`bits, this`free
      ensures Valid() && idx == FirstInside(k, order, found)
      ensures Pages(k, idx) <= old(free) && free == old(free) - Pages(k, idx)
      ensures SameOutside(old(storage[..]), storage[..], base, Limit())
    {
      hide Layout, Pages, BitCount, Decode, BitmapsFor;
      var j := order;
      idx := found;
      RemoveBlock(free, order, found);
      ghost var g := free - Pages(order, found);
      while j != k
        invariant k <= j <= order && Shape()
        invariant bits == With(Forest(g), j, idx) && FirstInside(k, j, idx) == FirstInside(k, order, found)
        invariant Pages(j, idx) !! g && g + Pages(j, idx) == old(free)
        invariant SameOutside(old(storage[..]), storage[..], base, Limit())
        decreases j
      {
        SplitBlock(g, j - 1, idx);
        Leftmost(k, j, idx);
        SplitInRange(size, j - 1, idx);
        Split(j, idx);
        g := g + Pages(j - 1, 2 * idx + 1);
        idx := 2 * idx;
        j := j - 1;
      }
      HeldBitClear(g, j, idx);
      BlockInRange(size, k, idx);
      ClearBit(k, idx);
      free := g;
    }

    /** `buddy_free_range`: round the start up to a page, then free the largest aligned block that fits until none
        does. */
    method FreeRange(range: Range)
      requires Valid() && start <= range.start && range.start + range.extent <= start + size
      requires WholePages(start, size, range) !! free
      modifies storage, this`bits, this`free
      ensures Valid() && free == old(free) + WholePages(start, size, range)
      ensures SameOutside(old(storage[..]), storage[..], base, Limit())
    {
      var r := range;
      if r.start % PAGE != 0 {
        if r.extent < PAGE {
          NoWholePages(start, size, range);
          return;
        }
        var up := r.start / PAGE * PAGE + PAGE;
        r := Range(up, r.extent - (up - r.start));
        SameWholePages(start, size, r, range);
      }
      ghost var left := WholePages(start, size, range);
      while r.extent >= PAGE && r.start % PAGE == 0
        invariant r.start % PAGE == 0 && start <= r.start && r.start + r.extent <= start + size
        invariant Valid() && left == WholePages(start, size, r) && left !! free
        invariant free + left == old(free) + WholePages(start, size, range)
        invariant SameOutside(old(storage[..]), storage[..], base, Limit())
        decreases r.extent
      {
        ghost var i;
        r, i := FreeChunk(r);
        left := WholePages(start, size, r);
      }
      NoWholePages(start, size, r);
    }

    /** One chunk of `buddy_free_range`: free the block of order `i`, the largest that fits, at the front. */
    method FreeChunk(r: Range) returns (rest: Range, ghost i: nat)
      requires Valid() && start <= r.start && r.start + r.extent <= start + size
      requires r.extent >= PAGE && r.start % PAGE == 0 && WholePages(start, size, r) !! free
      modifies storage, this`bits, this`free
      ensures Valid() && rest.start + rest.extent == r.start + r.extent && rest.start == r.start + Pow2(i)
      ensures Largest(r.start - start, r.extent, i)
      ensures rest.extent < r.extent && rest.start % PAGE == 0
      ensures WholePages(start, size, rest) !! free
      ensures free + WholePages(start, size, rest) == old(free) + WholePages(start, size, r)
      ensures SameOutside(old(storage[..]), storage[..], base, Limit())
    {
      var order, sz := ChooseChunk(r.start - start, r.extent);
      i := order;
      rest := Range(r.start + sz, r.extent - sz);
      ghost var block := Pages(i - MIN_LOG2, Shr(r.start - start, i));
      ChunkPages(start, size, r, i - MIN_LOG2, sz);
      PassOver(free, block, WholePages(start, size, r), WholePages(start, size, rest));
      Log2RoundUpExact(i);
      assert BlockPages(start, r.start, sz) == block;
      Free(r.start, sz);
    }
  }

  /** Two allocators with the same free pages are given the same blocks back, in whatever order each: they end up with
      the same bitmaps, bit for bit. */
  method FreeInAnyOrder(a: Buddy, b: Buddy, blocks: seq<(nat, nat)>, blocks': seq<(nat, nat)>)
    requires a.Valid() && b.Valid() && a != b && a.storage != b.storage && a.free == b.free
    requires Returnable(a.free, a.size / PAGE, blocks) && Returnable(b.free, b.size / PAGE, blocks')
    requires multiset(blocks) == multiset(blocks')
    modifies a.storage, a`bits, a`free, b.storage, b`bits, b`free
    ensures a.Valid() && b.Valid() && a.bits == b.bits && a.free == b.free
  {
    hide Buddy.ValidIn, Forest, AllPages;
    ghost var f := a.free;
    a.FreeAll(blocks);
    b.FreeAll(blocks');
    FreeingOrderIrrelevant(f, blocks, blocks');
    ForestInjective(a.free, b.free);
  }

  /** The largest order of a block that starts at the offset and fits. */
  ghost predicate Largest(offs: nat, extent: nat, i: nat) {
    && MIN_LOG2 <= i <= MAX_LOG2 && Pow2(i) <= extent && AlignedFor(offs, i)
    && forall i' | i < i' <= MAX_LOG2 :: Pow2(i') > extent || !AlignedFor(offs, i')
  }

  /** The inner loop of `buddy_free_range`: the largest order that fits and is aligned. */
  method ChooseChunk(offs: nat, extent: nat) returns (i: nat, sz: nat)
    requires extent >= PAGE && offs % PAGE == 0
    ensures Largest(offs, extent, i) && 0 < sz == Pow2(i)
  {
    Pow2Values();
    MultiplesAligned(offs / PAGE, MIN_LOG2);
    i := MAX_LOG2;
    while Pow2(i) > extent || !AlignedFor(offs, i)
      invariant MIN_LOG2 <= i <= MAX_LOG2
      invariant forall i' | i < i' <= MAX_LOG2 :: Pow2(i') > extent || !AlignedFor(offs, i')
      decreases i
    {
      i := i - 1;
    }
    sz := Pow2(i);
  }
}
