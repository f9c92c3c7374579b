/** Physical memory from early boot on: src/early_pmm.c, then src/pmm.c over three buddy allocators. */
module PhysicalMemory {
  import opened Options
  import opened Powers
  import opened Bitmaps
  import BuddyForest
  import opened BuddyAllocator
  import opened EarlyMemory
  import opened Zones

  /** `pmm_init_stage`. */
  datatype Stage = Start | Early | Full

  class Memory {
    var stage: Stage
    var earlyRanges: seq<Range>
    var earlyMaxExtent: nat
    /** `allocators`, indexed by PAGE_REQ_*; their bitmaps share one mapping. */
    var allocators: seq<Buddy>
    ghost var storage: array<bv8>
    /** The boot ranges as first given, the pages cut off them early, and what was left when the zones were filled. */
    ghost var initial: seq<Range>
    ghost var early: set<nat>
    ghost var handed: seq<Range>
    /** The free pages of each zone, and the pages that callers hold. */
    ghost var free: seq<set<nat>>
    ghost var held: seq<set<nat>>

    ghost predicate EarlyValid()
      reads `initial, `earlyMaxExtent, `earlyRanges, `early
    {
      && earlyMaxExtent < WORD64 && AllApart(initial) && AllWithin(initial, earlyMaxExtent)
      && Cut(initial, earlyRanges, early)
    }

    /** Zone `z` is set up in its own part of the storage. */
    ghost predicate ZoneValid(z: nat)
      requires z < |allocators| && z < |free| && earlyMaxExtent < WORD64
      reads `allocators, `free, `earlyMaxExtent, `storage, allocators[z], storage
    {
      ZoneValidIn(z, storage[..])
    }

    ghost predicate ZoneValidIn(z: nat, contents: seq<bv8>)
      requires z < |allocators| && z < |free| && earlyMaxExtent < WORD64
      reads `allocators, `free, `earlyMaxExtent, `storage, allocators[z]
    {
      var bd := allocators[z];
      && bd.storage == storage && bd.ValidIn(contents) && bd.free == free[z]
      && bd.start == ZoneRange(earlyMaxExtent, z).start && bd.size == ZoneRange(earlyMaxExtent, z).extent
    }

    ghost function ZoneStart(z: nat): nat
      requires earlyMaxExtent < WORD64
      reads this
    {
      ZoneRange(earlyMaxExtent, z).start
    }

    ghost function ZoneEnd(z: nat): nat
      requires earlyMaxExtent < WORD64
      reads this
    {
      ZoneRange(earlyMaxExtent, z).start + ZoneRange(earlyMaxExtent, z).extent
    }

    ghost predicate WindowsApart()
      reads `allocators, `free, allocators
    {
      && |allocators| == |free| == 3
      && allocators[0] != allocators[1] && allocators[0] != allocators[2] && allocators[1] != allocators[2]
      && allocators[1].Limit() <= allocators[2].base && allocators[2].Limit() <= allocators[0].base
    }

    ghost predicate ZonesValid()
      reads `allocators, `free, `earlyMaxExtent, `storage, allocators, storage
    {
      && WindowsApart() && MB <= earlyMaxExtent < WORD64
      && forall z | 0 <= z < 3 :: ZoneValid(z)
    }

    ghost predicate Valid()
      reads this, allocators, storage
    {
      stage == Full && ZonesValid() && Accounted(free, held, earlyMaxExtent, handed)
    }

    lemma Facts()
      requires Valid()
      ensures MB <= earlyMaxExtent < WORD64 && |allocators| == |free| == |held| == 3
      ensures Accounted(free, held, earlyMaxExtent, handed)
    {
    }

    /** How the zones' pages came from the boot ranges. No operation after start-up touches any of this. */
    ghost predicate BootValid()
      reads `initial, `earlyMaxExtent, `handed, `early
    {
      AllApart(initial) && AllWithin(initial, earlyMaxExtent) && Cut(initial, handed, early)
    }

    constructor ()
      ensures stage == Start
    {
      stage, earlyRanges, earlyMaxExtent, allocators := Start, [], 0, [];
    }

    /** `init_physical_memory_early`. */
    method InitEarly(ranges: seq<Range>, max: nat)
      requires stage == Start && |ranges| < 64 && max < WORD64 && AllApart(ranges) && AllWithin(ranges, max)
      modifies this
      ensures stage == Early && EarlyValid()
      ensures earlyRanges == initial == ranges && earlyMaxExtent == max && early == {}
    {
      earlyRanges, earlyMaxExtent, stage := ranges, max, Early;
      initial, early := ranges, {};
    }

    /** `early_alloc_page`: the first page of the first usable range; `None` stands for the panic. */
    method EarlyAllocPage() returns (r: Option<nat>)
      requires stage == Early && EarlyValid()
      modifies this`earlyRanges, this`early
      ensures EarlyValid()
      ensures r.None? <==> EarlyPages(old(earlyRanges)) == 0
      ensures r.Some? ==> EarlyPages(earlyRanges) == EarlyPages(old(earlyRanges)) - 1
      ensures r.None? ==> earlyRanges == old(earlyRanges) && early == old(early)
                          && forall i | 0 <= i < |earlyRanges| :: !Usable(earlyRanges[i])
      ensures r.Some? ==> r.value !in old(early) && early == old(early) + {r.value}
      ensures r.Some? ==>
                exists i :: 0 <= i < |old(earlyRanges)| && TakenFrom(old(earlyRanges), i, r.value, earlyRanges)
    {
      NoEarlyPages(earlyRanges);
      for i := 0 to |earlyRanges|
        invariant forall k | 0 <= k < i :: !Usable(earlyRanges[k])
        invariant earlyRanges == old(earlyRanges) && early == old(early)
      {
        if earlyRanges[i].extent <= PAGE || earlyRanges[i].start >= GB4 {
          continue;
        }
        if earlyRanges[i].start < MB {
          continue;
        }
        CutOne(initial, earlyRanges, early, i);
        OneEarlyPage(earlyRanges, i);
        r := Some(earlyRanges[i].start);
        early := early + {earlyRanges[i].start};
        earlyRanges := earlyRanges[i := Bumped(earlyRanges[i])];
        assert TakenFrom(old(earlyRanges), i, r.value, earlyRanges);
        return;
      }
      r := None;
    }

    /** Work on one zone leaves the other two as they were. */
    lemma OtherZonesKept(z: nat, before: seq<bv8>)
      requires WindowsApart() && MB <= earlyMaxExtent < WORD64 && z < 3 && ZoneValid(z)
      requires SameOutside(before, storage[..], allocators[z].base, allocators[z].Limit())
      requires forall z' | 0 <= z' < 3 && z' != z :: ZoneValidIn(z', before)
      ensures ZonesValid()
    {
      var lo, hi := allocators[z].base, allocators[z].Limit();
      forall z' | 0 <= z' < 3
        ensures ZoneValid(z')
      {
        if z' != z {
          assert ZoneValidIn(z', before);
          allocators[z'].KeptByOthers(before, lo, hi);
        }
      }
    }

    method ZoneAlloc(z: nat, sz: nat) returns (r: AllocResult, ghost block: nat)
      requires ZonesValid() && z < 3 && sz > 2048
      modifies this`free, storage, allocators[z]
      ensures ZonesValid() && AllocOutcome(ZoneStart(z), old(free[z]), sz, r, block)
      ensures r.Block? ==> BuddyForest.Pages(OrderOf(sz), block) <= old(free[z])
      ensures free == if r.Block? then old(free)[z := old(free[z]) - BuddyForest.Pages(OrderOf(sz), block)]
              else old(free)
    {
      hide AllocOutcome, BuddyAllocator.Buddy.ShapeIn, BuddyForest.Forest, BuddyForest.Below, BlockPages, WholePages;
      ghost var before := storage[..];
      assert ZoneValid(z);
      r, block := allocators[z].Alloc(sz);
      free := free[z := allocators[z].free];
      forall z' | 0 <= z' < 3 && z' != z
        ensures ZoneValidIn(z', before)
      {
        assert old(ZoneValid(z'));
      }
      OtherZonesKept(z, before);
    }

    method ZoneFree(z: nat, addr: nat, sz: nat)
      requires ZonesValid() && z < 3
      requires 0 < sz && BuddyForest.MIN_LOG2 <= Log2RoundUp(sz) <= BuddyForest.MAX_LOG2 && ZoneStart(z) <= addr
      requires BuddyForest.Below(BlockPages(ZoneStart(z), addr, sz), ZoneRange(earlyMaxExtent, z).extent / PAGE)
      requires BlockPages(ZoneStart(z), addr, sz) !! free[z]
      modifies this`free, storage, allocators[z]
      ensures ZonesValid() && free == old(free)[z := old(free[z]) + BlockPages(ZoneStart(z), addr, sz)]
    {
      hide AllocOutcome, BuddyAllocator.Buddy.ShapeIn, BuddyForest.Forest, BuddyForest.Below, BlockPages, WholePages;
      ghost var before := storage[..];
      assert ZoneValid(z);
      allocators[z].Free(addr, sz);
      free := free[z := allocators[z].free];
      forall z' | 0 <= z' < 3 && z' != z
        ensures ZoneValidIn(z', before)
      {
        assert old(ZoneValid(z'));
      }
      OtherZonesKept(z, before);
    }

    method ZoneFreeRange(z: nat, r: Range)
      requires ZonesValid() && z < 3 && ZoneStart(z) <= r.start && r.start + r.extent <= ZoneEnd(z)
      requires ZoneShare(earlyMaxExtent, z, r) !! free[z]
      modifies this`free, storage, allocators[z]
      ensures ZonesValid() && free == old(free)[z := old(free[z]) + ZoneShare(earlyMaxExtent, z, r)]
    {
      hide AllocOutcome, BuddyAllocator.Buddy.ShapeIn, BuddyForest.Forest, BuddyForest.Below, BlockPages, WholePages;
      ghost var before := storage[..];
      assert ZoneValid(z);
      allocators[z].FreeRange(r);
      free := free[z := allocators[z].free];
      forall z' | 0 <= z' < 3 && z' != z
        ensures ZoneValidIn(z', before)
      {
        assert old(ZoneValid(z'));
      }
      OtherZonesKept(z, before);
    }

    /** `if (r.extent > 0) buddy_free_range(&allocators[z], r)`. */
    method ZoneFreePiece(z: nat, r: Range)
      requires ZonesValid() && z < 3 && (r.extent > 0 ==> ZoneStart(z) <= r.start && r.start + r.extent <= ZoneEnd(z))
      requires ZoneShare(earlyMaxExtent, z, r) !! free[z]
      modifies this`free, storage, allocators[z]
      ensures ZonesValid() && free == old(free)[z := old(free[z]) + ZoneShare(earlyMaxExtent, z, r)]
    {
      if r.extent > 0 {
        ZoneFreeRange(z, r);
      } else {
        NoWholePages(ZoneStart(z), ZoneRange(earlyMaxExtent, z).extent, r);
        assert free[z] + {} == free[z];
      }
    }

    /** One round of the loop that hands the boot ranges over: the range is split among the zones. */
    method HandOver(r: Range) returns (left: Range)
      requires ZonesValid() && r.start + r.extent <= earlyMaxExtent
      requires forall z | 0 <= z < 3 :: ZoneShare(earlyMaxExtent, z, r) !! free[z]
      modifies this`free, storage, allocators
      ensures ZonesValid() && forall z | 0 <= z < 3 :: free[z] == old(free[z]) + ZoneShare(earlyMaxExtent, z, r)
      ensures Above(r, left)
    {
      var low, rest := SplitRange(r, MB);
      var middle, high := SplitRange(rest, GB4);
      SharesSplit(earlyMaxExtent, r, low, middle, high);
      ZoneFreePiece(UNDER1MB, low);
      ZoneFreePiece(UNDER4GB, middle);
      ZoneFreePiece(NONE, high);
      left := high;
    }

    /** The loop of init_physical_memory that hands every boot range over. */
    method HandOverAll()
      requires EarlyValid() && ZonesValid() && free == [{}, {}, {}]
      modifies this`earlyRanges, this`free, storage, allocators
      ensures ZonesValid() && Accounted(free, [{}, {}, {}], earlyMaxExtent, old(earlyRanges))
      ensures |earlyRanges| == |old(earlyRanges)|
      ensures forall i | 0 <= i < |earlyRanges| :: Above(old(earlyRanges[i]), earlyRanges[i])
    {
      hide Above;
      ghost var rs := earlyRanges;
      for i := 0 to |earlyRanges|
        invariant ZonesValid() && |earlyRanges| == |rs| && forall j | i <= j < |rs| :: earlyRanges[j] == rs[j]
        invariant Accounted(free, [{}, {}, {}], earlyMaxExtent, rs[..i])
        invariant forall j | 0 <= j < i :: Above(rs[j], earlyRanges[j])
      {
        assert rs[i].start + rs[i].extent == initial[i].start + initial[i].extent <= earlyMaxExtent;
        NextShares(free, earlyMaxExtent, initial, rs, early, i);
        var left := HandOver(earlyRanges[i]);
        earlyRanges := earlyRanges[i := left];
      }
      assert rs[..|rs|] == rs;
    }

    method InstallZones(bitmaps: array<bv8>, lowBytes: nat, middleBytes: nat)
      requires MB <= earlyMaxExtent < 0x1000_0000_0000
      requires lowBytes == Layout(ZoneRange(earlyMaxExtent, UNDER1MB).extent, BuddyForest.TOP + 1)
      requires middleBytes == Layout(ZoneRange(earlyMaxExtent, UNDER4GB).extent, BuddyForest.TOP + 1)
      requires lowBytes + middleBytes +
               Layout(ZoneRange(earlyMaxExtent, NONE).extent, BuddyForest.TOP + 1) <= bitmaps.Length
      modifies bitmaps, this`allocators, this`storage, this`free
      ensures ZonesValid() && free == [{}, {}, {}] && storage == bitmaps
      ensures forall z | 0 <= z < 3 :: fresh(allocators[z])
    {
      hide BuddyAllocator.Buddy.Limit, BuddyAllocator.Buddy.ShapeIn, Layout, ZoneRange, BuddyForest.Forest;
      var bds := NewZones(earlyMaxExtent, bitmaps, lowBytes, middleBytes);
      storage, allocators, free := bitmaps, bds, [{}, {}, {}];
      forall z | 0 <= z < 3
        ensures ZoneValid(z)
      {
        assert NewZone(bds[z], earlyMaxExtent, z, bitmaps, bitmaps[..]);
      }
    }

    /** `init_physical_memory`; false stands for the panic when the early allocator cannot back the bitmaps.
        The source counts on at least a megabyte of memory (see ZonesRight). */
    method Init() returns (ok: bool)
      requires stage == Early && EarlyValid() && MB <= earlyMaxExtent < 0x1000_0000_0000
      modifies this
      ensures initial == old(initial) && earlyMaxExtent == old(earlyMaxExtent) && old(early) <= early
      ensures ok <==> BitmapPages(earlyMaxExtent) <= EarlyPages(old(earlyRanges))
      ensures ok ==> |early| == |old(early)| + BitmapPages(earlyMaxExtent)
      ensures ok ==> storage.Length == BitmapPages(earlyMaxExtent) * PAGE
      ensures ok ==> Valid() && BootValid() && held == [{}, {}, {}]
      ensures ok ==> fresh(storage) && forall z | 0 <= z < 3 :: fresh(allocators[z])
    {
      hide Valid, BootValid, EarlyValid, ZoneRange, Layout;
      var low, middle := ZoneRange(earlyMaxExtent, UNDER1MB), ZoneRange(earlyMaxExtent, UNDER4GB);
      var high := ZoneRange(earlyMaxExtent, NONE);
      var lowBytes := CalcOverhead(low);
      var middleBytes := CalcOverhead(middle);
      var highBytes := CalcOverhead(high);
      var pages := RoundToPages(lowBytes + middleBytes + highBytes);
      ok := TakeEarlyPages(pages);
      if !ok {
        return;
      }
      FillZones(pages * PAGE, lowBytes, middleBytes);
    }

    /** The rest of `init_physical_memory`, with so many bytes for the bitmaps. */
    method FillZones(bytes: nat, lowBytes: nat, middleBytes: nat)
      requires EarlyValid() && MB <= earlyMaxExtent < 0x1000_0000_0000
      requires lowBytes == Layout(ZoneRange(earlyMaxExtent, UNDER1MB).extent, BuddyForest.TOP + 1)
      requires middleBytes == Layout(ZoneRange(earlyMaxExtent, UNDER4GB).extent, BuddyForest.TOP + 1)
      requires lowBytes + middleBytes + Layout(ZoneRange(earlyMaxExtent, NONE).extent, BuddyForest.TOP + 1) <= bytes
      modifies this
      ensures initial == old(initial) && earlyMaxExtent == old(earlyMaxExtent) && early == old(early)
      ensures Valid() && BootValid() && held == [{}, {}, {}]
      ensures fresh(storage) && storage.Length == bytes && forall z | 0 <= z < 3 :: fresh(allocators[z])
    {
      hide ZoneValid, BuddyAllocator.Buddy.Limit, Accounted, Cut, AllApart, AllWithin, Layout, ZoneRange;
      var bitmaps := new bv8[bytes];
      handed, held := earlyRanges, [{}, {}, {}];
      InstallZones(bitmaps, lowBytes, middleBytes);
      HandOverAll();
      stage := Full;
    }

    /** The loop that maps an early page for every page of bitmaps. */
    method TakeEarlyPages(n: nat) returns (ok: bool)
      requires stage == Early && EarlyValid()
      modifies this`earlyRanges, this`early
      ensures EarlyValid() && old(early) <= early && (ok <==> n <= EarlyPages(old(earlyRanges)))
      ensures |early| == |old(early)| + if ok then n else EarlyPages(old(earlyRanges))
    {
      hide EarlyValid, EarlyPages, Usable, TakenFrom;
      for i := 0 to n
        invariant EarlyValid() && old(early) <= early && |early| == |old(early)| + i
        invariant EarlyPages(earlyRanges) == EarlyPages(old(earlyRanges)) - i
      {
        var page := EarlyAllocPage();
        if page.None? {
          return false;
        }
      }
      ok := true;
    }

    /** `buddy_alloc` on one zone, with the callers' holdings brought up to date. */
    method AllocFrom(z: nat, num: nat) returns (r: AllocResult)
      requires Valid() && z < 3 && num > 0
      modifies this`held, this`free, storage, allocators[z]
      ensures Valid() && Granted(earlyMaxExtent, z, num, r, old(free), old(held), free, held)
    {
      ghost var block;
      assert ZoneValid(z);
      r, block := ZoneAlloc(z, Bytes(num));
      TakenIsGranted(earlyMaxExtent, z, num, r, block, old(free), held, free, handed);
      if r.Block? {
        held := held[z := held[z] + BlockIn(earlyMaxExtent, z, r.addr, num)];
      }
    }

    /** There is a block for `num` pages above 4GB. */
    ghost predicate TopHas(num: nat)
      requires num > 0 && |free| == 3
      reads this`free
    {
      BuddyForest.HasBlock(free[NONE], OrderOf(Bytes(num)))
    }

    /** `alloc_pages`. A request for any memory that finds none above 4GB falls back to the middle zone. `zone` is
        where the block came from, or was last looked for. The byte count is a 32-bit product in the source. */
    method AllocPages(req: nat, num: nat) returns (r: AllocResult, ghost zone: nat)
      requires Valid() && req < 3 && 0 < num < 0x10_0000
      modifies this`held, this`free, storage, allocators
      ensures Valid() && Permitted(req, zone)
      ensures Granted(earlyMaxExtent, zone, num, r, old(free), old(held), free, held)
      ensures r.Block? <==> OrderOf(Bytes(num)) <= BuddyForest.TOP && CanGrant(old(free), req, num)
      ensures r == Exhausted <==> OrderOf(Bytes(num)) <= BuddyForest.TOP && !CanGrant(old(free), req, num)
      ensures r.Block? && req == NONE ==> (zone == NONE <==> old(TopHas(num)))
    {
      hide Valid, Granted, Bytes, OrderOf;
      Facts();
      ghost var before, was := free, held;
      zone := req;
      r := AllocFrom(req, num);
      GrantTells(earlyMaxExtent, req, num, r, before, was, free, held);
      if r == Exhausted && req == NONE {
        zone := UNDER4GB;
        r := AllocFrom(UNDER4GB, num);
        GrantTells(earlyMaxExtent, zone, num, r, before, was, free, held);
      }
    }

    /** `free_pages`: the block goes back to the zone its address lies in. */
    method FreePages(pages: nat, num: nat)
      requires Valid() && 0 < num < 0x10_0000 && OrderOf(Bytes(num)) <= BuddyForest.TOP
      requires BlockIn(earlyMaxExtent, ZoneOf(pages), pages, num) <= held[ZoneOf(pages)]
      modifies this`held, this`free, storage, allocators
      ensures Valid()
      ensures var z := ZoneOf(pages);
              && held == old(held)[z := old(held[z]) - BlockIn(earlyMaxExtent, z, pages, num)]
              && free == old(free)[z := old(free[z]) + BlockIn(earlyMaxExtent, z, pages, num)]
    {
      var req := ZoneOf(pages);
      ghost var b := BlockIn(earlyMaxExtent, req, pages, num);
      ZonePagesBelow(earlyMaxExtent, req, handed);
      Balance(free, held, earlyMaxExtent, handed, req, b);
      ZoneFree(req, pages, Bytes(num));
      assert free == old(free)[req := old(free[req]) + b];
      held := held[req := held[req] - b];
    }

    /** `free_page`, on the address of page `p` of zone `z`. */
    method FreePage(page: nat, ghost z: nat, ghost p: nat)
      requires Valid() && z < 3 && p in held[z] && page == PageAddr(earlyMaxExtent, z, p)
      modifies this`held, this`free, storage, allocators
      ensures Valid() && held == old(held)[z := old(held[z]) - {p}] && free == old(free)[z := old(free[z]) + {p}]
    {
      HeldInZone(free, held, earlyMaxExtent, handed, z, p);
      OnePage(earlyMaxExtent, z, p);
      FreePages(page, 1);
    }
  }

  /** The three calls of `buddy_init`, each on its own part of the one mapping. */
  method NewZones(max: nat, bitmaps: array<bv8>, lowBytes: nat, middleBytes: nat) returns (bds: seq<Buddy>)
    requires MB <= max < 0x1000_0000_0000
    requires lowBytes == Layout(ZoneRange(max, UNDER1MB).extent, BuddyForest.TOP + 1)
    requires middleBytes == Layout(ZoneRange(max, UNDER4GB).extent, BuddyForest.TOP + 1)
    requires lowBytes + middleBytes + Layout(ZoneRange(max, NONE).extent, BuddyForest.TOP + 1) <= bitmaps.Length
    modifies bitmaps
    ensures |bds| == 3 && bds[0] != bds[1] && bds[0] != bds[2] && bds[1] != bds[2]
    ensures forall z | 0 <= z < 3 :: fresh(bds[z]) && NewZone(bds[z], max, z, bitmaps, bitmaps[..])
    ensures bds[1].Limit() <= bds[2].base && bds[2].Limit() <= bds[0].base
  {
    hide NewZone, BuddyAllocator.Buddy.Valid, BuddyAllocator.Buddy.ValidIn, ZoneRange, Layout;
    var low := NewZoneAt(max, bitmaps, 0, UNDER1MB);
    ghost var before := bitmaps[..];
    var middle := NewZoneAt(max, bitmaps, lowBytes, UNDER4GB);
    StaysNew(low, max, UNDER1MB, bitmaps, before, middle.base, middle.Limit());
    before := bitmaps[..];
    var high := NewZoneAt(max, bitmaps, lowBytes + middleBytes, NONE);
    StaysNew(low, max, UNDER1MB, bitmaps, before, high.base, high.Limit());
    StaysNew(middle, max, UNDER4GB, bitmaps, before, high.base, high.Limit());
    bds := [high, low, middle];
  }

  method NewZoneAt(max: nat, bitmaps: array<bv8>, offset: nat, z: nat) returns (bd: Buddy)
    requires MB <= max < 0x1000_0000_0000 && z < 3
    requires offset + Layout(ZoneRange(max, z).extent, BuddyForest.TOP + 1) <= bitmaps.Length
    modifies bitmaps
    ensures fresh(bd) && NewZone(bd, max, z, bitmaps, bitmaps[..])
    ensures bd.base == offset && bd.Limit() == offset + Layout(ZoneRange(max, z).extent, BuddyForest.TOP + 1)
    ensures SameOutside(old(bitmaps[..]), bitmaps[..], bd.base, bd.Limit())
  {
    bd := new Buddy.Init(bitmaps, offset, ZoneRange(max, z), false);
  }

  /** An allocator for zone `z` as it starts out, with these bytes in the storage. */
  ghost predicate NewZone(bd: Buddy, max: nat, z: nat, bitmaps: array<bv8>, contents: seq<bv8>)
    requires max < WORD64
    reads bd
  {
    && bd.storage == bitmaps && bd.ValidIn(contents) && bd.free == {}
    && bd.start == ZoneRange(max, z).start && bd.size == ZoneRange(max, z).extent
  }

  lemma StaysNew(bd: Buddy, max: nat, z: nat, bitmaps: array<bv8>, before: seq<bv8>, lo: nat, hi: nat)
    requires max < WORD64 && NewZone(bd, max, z, bitmaps, before)
    requires SameOutside(before, bitmaps[..], lo, hi) && (bd.Limit() <= lo || hi <= bd.base)
    ensures NewZone(bd, max, z, bitmaps, bitmaps[..])
  {
    bd.KeptByOthers(before, lo, hi);
  }

  /** Page `a` was the first page of range `i`, the first usable one, and nothing else changed. */
  ghost predicate TakenFrom(rs: seq<Range>, i: nat, a: nat, rs': seq<Range>)
    requires i < |rs|
  {
    && Usable(rs[i]) && (forall k | 0 <= k < i :: !Usable(rs[k]))
    && a == rs[i].start && rs' == rs[i := Bumped(rs[i])]
  }

  /** The outcome of asking zone `z` for `num` pages: a block of its free pages that nobody holds becomes held, or
      there is no free block of the order, or the request is too large for any. */
  ghost predicate Granted(max: nat, z: nat, num: nat, r: AllocResult,
                          free: seq<set<nat>>, held: seq<set<nat>>, free': seq<set<nat>>, held': seq<set<nat>>)
    requires max < WORD64 && num > 0
  {
    && z < 3 && |free| == |held| == 3
    && (r == TooLarge <==> OrderOf(Bytes(num)) > BuddyForest.TOP)
    && (r == Exhausted ==> forall i: nat :: !BuddyForest.Free(free[z], OrderOf(Bytes(num)), i))
    && if r.Block? then
         var b := BlockIn(max, z, r.addr, num);
         && ZoneOf(r.addr) == z && b <= free[z] && b !! held[z]
         && ZoneRange(max, z).start <= r.addr && AlignedFor(r.addr - ZoneRange(max, z).start, Log2RoundUp(Bytes(num)))
         && free' == free[z := free[z] - b] && held' == held[z := held[z] + b]
       else free' == free && held' == held
  }

  /** There is a block for `num` pages in the zone asked for, or, if any memory will do, between 1MB and 4GB. */
  ghost predicate CanGrant(free: seq<set<nat>>, req: nat, num: nat)
    requires num > 0 && |free| == 3 && req < 3
  {
    || BuddyForest.HasBlock(free[req], OrderOf(Bytes(num)))
    || (req == NONE && BuddyForest.HasBlock(free[UNDER4GB], OrderOf(Bytes(num))))
  }

  lemma GrantTells(max: nat, z: nat, num: nat, r: AllocResult,
                   free: seq<set<nat>>, held: seq<set<nat>>, free': seq<set<nat>>, held': seq<set<nat>>)
    requires max < WORD64 && num > 0 && Granted(max, z, num, r, free, held, free', held')
    ensures r == TooLarge <==> OrderOf(Bytes(num)) > BuddyForest.TOP
    ensures r.Block? ==> BuddyForest.HasBlock(free[z], OrderOf(Bytes(num)))
    ensures r == Exhausted ==> !BuddyForest.HasBlock(free[z], OrderOf(Bytes(num)))
    ensures !r.Block? ==> free' == free && held' == held
  {
    hide Bytes, OrderOf, Pow2;
    if r.Block? {
      assert BuddyForest.Free(free[z], OrderOf(Bytes(num)),
             Shr(r.addr - ZoneRange(max, z).start, Log2RoundUp(Bytes(num))));
    }
  }

  /** What a zone's allocator answers, seen from the callers' side. */
  lemma TakenIsGranted(max: nat, z: nat, num: nat, r: AllocResult, block: nat,
                       free: seq<set<nat>>, held: seq<set<nat>>, free': seq<set<nat>>, rs: seq<Range>)
    requires MB <= max < WORD64 && z < 3 && num > 0 && Accounted(free, held, max, rs)
    requires AllocOutcome(ZoneRange(max, z).start, free[z], Bytes(num), r, block)
    requires r.Block? ==> BuddyForest.Pages(OrderOf(Bytes(num)), block) <= free[z]
    requires free' == if r.Block? then free[z := free[z] - BuddyForest.Pages(OrderOf(Bytes(num)), block)] else free
    ensures var held' := if r.Block? then held[z := held[z] + BlockIn(max, z, r.addr, num)] else held;
            Granted(max, z, num, r, free, held, free', held') && Accounted(free', held', max, rs)
  {
    hide Pow2, Log2RoundUp, BuddyForest.Pages, BlockIn, ZoneOf, BuddyForest.BestFit, BuddyForest.Forest;
    if r.Block? {
      ZonePagesBelow(max, z, rs);
      AddressOfBlock(max, z, num, block);
      ghost var b := BlockIn(max, z, r.addr, num);
      assert free' == free[z := free[z] - b];
      Balance(free, held, max, rs, z, b);
      assert b !! held[z];
    }
  }

  /** The pages for the bitmaps of all three zones. */
  function BitmapPages(max: nat): nat
    requires max < WORD64
  {
    var n := BuddyForest.TOP + 1;
    RoundToPages(Layout(ZoneRange(max, UNDER1MB).extent, n) + Layout(ZoneRange(max, UNDER4GB).extent, n)
                 + Layout(ZoneRange(max, NONE).extent, n))
  }

  /** `round_to_page_size(x) >> get_page_shift()`. */
  function RoundToPages(x: nat): (n: nat)
    ensures x <= n * PAGE < x + PAGE
  {
    if x % PAGE != 0 then x / PAGE + 1 else x / PAGE
  }
}
