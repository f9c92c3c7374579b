/** The three zones of src/pmm.c: their extents, the splitting of boot ranges among them, and which pages they get. */
module Zones {
  import opened Powers
  import BuddyForest
  import opened BuddyAllocator
  import opened EarlyMemory

  /** The PAGE_REQ_* requests of src/include/hal.h, which also index the allocators. */
  const NONE: nat := 0
  const UNDER1MB: nat := 1
  const UNDER4GB: nat := 2
  const WORD64: nat := 0x1_0000_0000_0000_0000

  /** Unsigned 64-bit subtraction. */
  function Sub64(x: nat, y: nat): (r: nat)
    requires x < WORD64 && y < WORD64
    ensures r < WORD64 && (r + y == x || r + y == x + WORD64)
  {
    if x >= y then x - y else x + WORD64 - y
  }

  /** `rs[z]` of init_physical_memory; taking the maximum with zero does nothing to an unsigned value. */
  function ZoneRange(max: nat, z: nat): Range
    requires max < WORD64
  {
    if z == UNDER1MB then Range(0, Min(max, MB))
    else if z == UNDER4GB then Range(MB, Sub64(Min(max, GB4), MB))
    else Range(GB4, if max > GB4 then max - GB4 else 0)
  }

  ghost predicate InZone(max: nat, z: nat, addr: nat)
    requires max < WORD64
  {
    InRange(ZoneRange(max, z), addr)
  }

  ghost predicate InSomeZone(max: nat, addr: nat)
    requires max < WORD64
  {
    exists z: nat :: z < 3 && InZone(max, z, addr)
  }

  /** The zones cover the addresses below `max`, and no others. */
  ghost predicate ZonesCover(max: nat)
    requires max < WORD64
  {
    forall addr: nat :: addr < max <==> InSomeZone(max, addr)
  }

  /** With less than a megabyte of memory the extent of the middle zone wraps around; otherwise the zones are right. */
  lemma ZonesRight(max: nat)
    requires max < WORD64
    ensures ZonesCover(max) <==> max >= MB
  {
    if max >= MB {
      forall addr: nat
        ensures addr < max <==> InSomeZone(max, addr)
      {
        if addr < max { assert InZone(max, ZoneOf(addr), addr); }
      }
    } else {
      assert InZone(max, UNDER4GB, MB);
      assert InSomeZone(max, MB);
    }
  }

  /** The zone that `free_pages` gives an address back to. */
  function ZoneOf(addr: nat): (z: nat)
    ensures z < 3
  {
    if addr < MB then UNDER1MB else if addr < GB4 then UNDER4GB else NONE
  }

  /** An address goes back to the zone it lies in, so the zones do not overlap. */
  lemma ZoneOfRight(max: nat, z: nat, addr: nat)
    requires MB <= max < WORD64 && z < 3 && InZone(max, z, addr)
    ensures ZoneOf(addr) == z
  {
  }

  /** `split_range`: the part of `r` below `loc` is returned, the part from `loc` on is left in `rest`. */
  method SplitRange(r: Range, loc: nat) returns (below: Range, rest: Range)
    ensures forall b: nat :: InRange(below, b) <==> InRange(r, b) && b < loc
    ensures forall b: nat :: InRange(rest, b) <==> InRange(r, b) && b >= loc
    ensures below.extent > 0 ==> r.start == below.start && below.start + below.extent <= loc
    ensures rest.extent > 0 ==> loc <= rest.start && rest.start + rest.extent == r.start + r.extent
    ensures below.extent + rest.extent == r.extent
  {
    if r.start >= loc {
      below, rest := Range(r.start, 0), r;
    } else if r.start + r.extent <= loc {
      below, rest := r, Range(r.start, 0);
    } else {
      below := Range(r.start, loc - r.start);
      rest := Range(loc, r.extent - below.extent);
    }
  }

  /** The part of `r` from 4GB on. */
  ghost predicate Above(r: Range, rest: Range) {
    forall b: nat :: InRange(rest, b) <==> InRange(r, b) && b >= GB4
  }

  /** The start address of page `p` of zone `z`. */
  function PageAddr(max: nat, z: nat, p: nat): nat
    requires max < WORD64
  {
    ZoneRange(max, z).start + p * PAGE
  }

  /** The pages of zone `z` that lie wholly inside one of the ranges. */
  ghost function ZonePages(max: nat, z: nat, rs: seq<Range>): set<nat>
    requires max < WORD64
  {
    if rs == [] then {}
    else ZonePages(max, z, rs[..|rs| - 1]) + ZoneShare(max, z, rs[|rs| - 1])
  }

  lemma {:induction false} InZonePages(max: nat, z: nat, rs: seq<Range>, p: nat)
    requires max < WORD64
    ensures p in ZonePages(max, z, rs) <==>
            exists i | 0 <= i < |rs| :: p in ZoneShare(max, z, rs[i])
  {
    if rs != [] {
      var rs' := rs[..|rs| - 1];
      InZonePages(max, z, rs', p);
      assert forall i | 0 <= i < |rs'| :: rs'[i] == rs[i];
    }
  }

  lemma {:induction false} ZonePagesBelow(max: nat, z: nat, rs: seq<Range>)
    requires max < WORD64
    ensures BuddyForest.Below(ZonePages(max, z, rs), ZoneRange(max, z).extent / PAGE)
  {
    if rs != [] {
      ZonePagesBelow(max, z, rs[..|rs| - 1]);
      var last := ZoneShare(max, z, rs[|rs| - 1]);
      forall p | p in last
        ensures p < ZoneRange(max, z).extent / PAGE
      {
        InZoneShare(max, z, rs[|rs| - 1], p);
      }
    }
  }

  /** The account of the zones: free and held pages are disjoint, and together are all that each zone was given. */
  ghost predicate Accounted(free: seq<set<nat>>, held: seq<set<nat>>, max: nat, rs: seq<Range>)
    requires max < WORD64
  {
    && |free| == |held| == 3
    && forall z | 0 <= z < 3 :: free[z] !! held[z] && free[z] + held[z] == ZonePages(max, z, rs)
  }

  /** Pages move between free and held without breaking the account. */
  lemma Balance(free: seq<set<nat>>, held: seq<set<nat>>, max: nat, rs: seq<Range>, z: nat, b: set<nat>)
    requires max < WORD64 && Accounted(free, held, max, rs) && z < 3
    ensures b <= free[z] ==> Accounted(free[z := free[z] - b], held[z := held[z] + b], max, rs)
    ensures b <= held[z] ==> Accounted(free[z := free[z] + b], held[z := held[z] - b], max, rs)
  {
  }

  lemma HeldInZone(free: seq<set<nat>>, held: seq<set<nat>>, max: nat, rs: seq<Range>, z: nat, p: nat)
    requires max < WORD64 && Accounted(free, held, max, rs) && z < 3 && p in held[z]
    ensures p < ZoneRange(max, z).extent / PAGE
  {
    ZonePagesBelow(max, z, rs);
  }

  /** One page given back by its address is just that page, in its own zone. */
  lemma OnePage(max: nat, z: nat, p: nat)
    requires MB <= max < WORD64 && z < 3 && p < ZoneRange(max, z).extent / PAGE
    ensures ZoneOf(PageAddr(max, z, p)) == z && BlockIn(max, z, PageAddr(max, z, p), 1) == {p}
    ensures OrderOf(Bytes(1)) == 0
  {
    Log2RoundUpExact(BuddyForest.MIN_LOG2);
    Pow2Values();
    ShrUnique(p * PAGE, BuddyForest.MIN_LOG2, p);
    forall q: nat
      ensures q in BuddyForest.Pages(0, p) <==> q == p
    {
      BuddyForest.PagesAreRuns(0, p, q);
    }
  }

  /** Ranges that do not overlap share no whole page. */
  lemma ZonePagesApart(max: nat, z: nat, rs: seq<Range>, r: Range)
    requires max < WORD64 && forall i | 0 <= i < |rs| :: Apart(rs[i], r)
    ensures ZonePages(max, z, rs) !! ZoneShare(max, z, r)
  {
    forall p | p in ZonePages(max, z, rs)
      ensures p !in ZoneShare(max, z, r)
    {
      InZonePages(max, z, rs, p);
      var i :| 0 <= i < |rs| && p in ZoneShare(max, z, rs[i]);
      InZoneShare(max, z, rs[i], p);
      InZoneShare(max, z, r, p);
    }
  }

  /** Handing over range `i` after those before it adds its share, all of it new. */
  lemma NextShare(max: nat, z: nat, initial: seq<Range>, rs: seq<Range>, early: set<nat>, i: nat)
    requires max < WORD64 && AllApart(initial) && Cut(initial, rs, early) && i < |rs|
    ensures ZoneShare(max, z, rs[i]) !! ZonePages(max, z, rs[..i])
    ensures ZonePages(max, z, rs[..i + 1]) == ZonePages(max, z, rs[..i]) + ZoneShare(max, z, rs[i])
  {
    forall j | 0 <= j < i
      ensures Apart(rs[j], rs[i])
    {
      assert Apart(initial[j], initial[i]);
    }
    ZonePagesApart(max, z, rs[..i], rs[i]);
    assert rs[..i + 1][..i] == rs[..i];
  }

  /** The same for all three zones, when so far they hold exactly the shares of the ranges before. */
  lemma NextShares(free: seq<set<nat>>, max: nat, initial: seq<Range>, rs: seq<Range>, early: set<nat>, i: nat)
    requires max < WORD64 && AllApart(initial) && Cut(initial, rs, early) && i < |rs|
    requires Accounted(free, [{}, {}, {}], max, rs[..i])
    ensures forall z | 0 <= z < 3 :: ZoneShare(max, z, rs[i]) !! free[z]
    ensures forall z | 0 <= z < 3 :: ZonePages(max, z, rs[..i + 1]) == free[z] + ZoneShare(max, z, rs[i])
  {
    forall z: nat | z < 3 { NextShare(max, z, initial, rs, early, i); }
  }

  /** No page of any zone overlaps a page that the early allocator gave out. */
  lemma EarlyNeverReissued(max: nat, initial: seq<Range>, now: seq<Range>, early: set<nat>, z: nat, p: nat, a: nat)
    requires max < WORD64 && AllApart(initial) && Cut(initial, now, early)
    requires p in ZonePages(max, z, now) && a in early
    ensures Apart(PageAt(PageAddr(max, z, p)), PageAt(a))
  {
    InZonePages(max, z, now, p);
    var i :| 0 <= i < |now| && p in ZoneShare(max, z, now[i]);
    InZoneShare(max, z, now[i], p);
    EarlyNeverRemains(initial, now, early, a, i);
  }

  /** Two pages of the zones are the same page or do not overlap. */
  lemma PagesNeverShared(max: nat, rs: seq<Range>, z: nat, p: nat, z': nat, p': nat)
    requires MB <= max < WORD64 && z < 3 && z' < 3 && p in ZonePages(max, z, rs) && p' in ZonePages(max, z', rs)
    ensures (z, p) == (z', p') || Apart(PageAt(PageAddr(max, z, p)), PageAt(PageAddr(max, z', p')))
  {
    ZonePagesBelow(max, z, rs);
    ZonePagesBelow(max, z', rs);
  }

  /** A byte of a range whose page is not wholly inside that range: the fragments no allocator can use. */
  ghost predicate Fragment(rs: seq<Range>, b: nat) {
    exists i :: 0 <= i < |rs| && InRange(rs[i], b) && !PageInside(0, b / PAGE, rs[i])
  }

  /** A byte whose page lies wholly inside a range: the page is in the range's share of the zone of the byte. */
  lemma PageOfByte(max: nat, r: Range, b: nat) returns (z: nat, p: nat)
    requires MB <= max < WORD64 && r.start + r.extent <= max && PageInside(0, b / PAGE, r)
    ensures z < 3 && p in ZoneShare(max, z, r) && InRange(PageAt(PageAddr(max, z, p)), b)
  {
    z := ZoneOf(b);
    p := b / PAGE - ZoneRange(max, z).start / PAGE;
    InZoneShare(max, z, r, p);
  }

  /** A byte of a page of a zone. */
  ghost predicate InZonePage(max: nat, now: seq<Range>, b: nat)
    requires max < WORD64
  {
    exists z: nat, p: nat :: z < 3 && p in ZonePages(max, z, now) && InRange(PageAt(PageAddr(max, z, p)), b)
  }

  /** A byte of a page of a zone lies in a range that has its page wholly inside. */
  lemma ZonePageInside(max: nat, now: seq<Range>, b: nat) returns (i: nat)
    requires max < WORD64 && InZonePage(max, now, b)
    ensures i < |now| && InRange(now[i], b) && PageInside(0, b / PAGE, now[i])
  {
    hide InRange, PageInside, ZoneRange, ZonePages, ZoneShare, PageAddr;
    var z: nat, p: nat :| z < 3 && p in ZonePages(max, z, now) && InRange(PageAt(PageAddr(max, z, p)), b);
    InZonePages(max, z, now, p);
    i :| 0 <= i < |now| && p in ZoneShare(max, z, now[i]);
    InZoneShare(max, z, now[i], p);
    FromStart(max, z, p, now[i]);
    ByteOfPage(ZoneRange(max, z).start / PAGE + p, b, now[i]);
  }

  lemma FromStart(max: nat, z: nat, p: nat, r: Range)
    requires max < WORD64
    ensures PageAddr(max, z, p) == (ZoneRange(max, z).start / PAGE + p) * PAGE
    ensures PageInside(ZoneRange(max, z).start, p, r) <==> PageInside(0, ZoneRange(max, z).start / PAGE + p, r)
  {
  }

  lemma ByteOfPage(q: nat, b: nat, r: Range)
    requires InRange(PageAt(q * PAGE), b) && PageInside(0, q, r)
    ensures b / PAGE == q && InRange(r, b) && PageInside(0, b / PAGE, r)
  {
  }

  /** Every byte of the boot memory was given out early, is in a page of a zone, or is in a fragment, and never in two
      of these. */
  lemma BootMemoryAccounted(max: nat, initial: seq<Range>, now: seq<Range>, early: set<nat>, b: nat)
    requires MB <= max < WORD64 && AllWithin(initial, max) && AllApart(initial) && Cut(initial, now, early)
    requires exists i :: 0 <= i < |initial| && InRange(initial[i], b)
    ensures InEarly(early, b) || Fragment(now, b) || InZonePage(max, now, b)
    ensures !(InEarly(early, b) && Fragment(now, b)) && !(InEarly(early, b) && InZonePage(max, now, b))
    ensures !(Fragment(now, b) && InZonePage(max, now, b))
  {
    EarlyConserves(initial, now, early, b);
    if InZonePage(max, now, b) {
      var i := ZonePageInside(max, now, b);
      forall j | 0 <= j < |now| && j != i ensures !InRange(now[j], b) { RangesApart(initial, now, early, i, j, b); }
    } else if !InEarly(early, b) && !Fragment(now, b) {
      var i :| 0 <= i < |now| && InRange(now[i], b);
      assert initial[i].start + initial[i].extent <= max;
      var z, p := PageOfByte(max, now[i], b);
      InZonePages(max, z, now, p);
    }
  }

  lemma RangesApart(initial: seq<Range>, now: seq<Range>, early: set<nat>, i: nat, j: nat, b: nat)
    requires AllApart(initial) && Cut(initial, now, early) && i < |now| && j < |now| && i != j
    ensures !InRange(now[i], b) || !InRange(now[j], b)
  {
    if i < j { assert Apart(initial[i], initial[j]); } else { assert Apart(initial[j], initial[i]); }
  }

  /** The whole pages of `r` in zone `z`. */
  ghost function ZoneShare(max: nat, z: nat, r: Range): set<nat>
    requires max < WORD64
  {
    WholePages(ZoneRange(max, z).start, ZoneRange(max, z).extent, r)
  }

  lemma InZoneShare(max: nat, z: nat, r: Range, p: nat)
    requires max < WORD64
    ensures p in ZoneShare(max, z, r) <==>
            p < ZoneRange(max, z).extent / PAGE && PageInside(ZoneRange(max, z).start, p, r)
  {
    InWholePages(ZoneRange(max, z).start, ZoneRange(max, z).extent, r, p);
  }

  /** Splitting at the zone boundaries loses no whole page: a zone's share of `r` is its share of its own piece. */
  lemma SharesSplit(max: nat, r: Range, low: Range, middle: Range, high: Range)
    requires MB <= max < WORD64 && r.start + r.extent <= max
    requires forall b: nat :: InRange(low, b) <==> InRange(r, b) && b < MB
    requires forall b: nat :: InRange(middle, b) <==> InRange(r, b) && MB <= b < GB4
    requires forall b: nat :: InRange(high, b) <==> InRange(r, b) && GB4 <= b
    ensures ZoneShare(max, UNDER1MB, low) == ZoneShare(max, UNDER1MB, r)
    ensures ZoneShare(max, UNDER4GB, middle) == ZoneShare(max, UNDER4GB, r)
    ensures ZoneShare(max, NONE, high) == ZoneShare(max, NONE, r)
  {
    SameShare(max, UNDER1MB, low, r);
    SameShare(max, UNDER4GB, middle, r);
    SameShare(max, NONE, high, r);
  }

  lemma SameShare(max: nat, z: nat, piece: Range, r: Range)
    requires MB <= max < WORD64 && z < 3
    requires forall b: nat | InZone(max, z, b) :: InRange(piece, b) <==> InRange(r, b)
    ensures ZoneShare(max, z, piece) == ZoneShare(max, z, r)
  {
    forall p: nat
      ensures p in ZoneShare(max, z, piece) <==> p in ZoneShare(max, z, r)
    {
      InZoneShare(max, z, piece, p);
      InZoneShare(max, z, r, p);
      InsideByEnds(ZoneRange(max, z).start, p, piece);
      InsideByEnds(ZoneRange(max, z).start, p, r);
      if p < ZoneRange(max, z).extent / PAGE {
        assert InZone(max, z, PageAddr(max, z, p)) && InZone(max, z, PageAddr(max, z, p) + PAGE - 1);
      }
    }
  }

  lemma InsideByEnds(start: nat, p: nat, r: Range)
    ensures PageInside(start, p, r) <==> InRange(r, start + p * PAGE) && InRange(r, start + p * PAGE + PAGE - 1)
  {
  }

  /** The pages of the block at `addr` that `num` pages of zone `z` are served with. */
  ghost function BlockIn(max: nat, z: nat, addr: nat, num: nat): set<nat>
    requires max < WORD64 && num > 0
  {
    if addr < ZoneRange(max, z).start then {} else BlockPages(ZoneRange(max, z).start, addr, Bytes(num))
  }

  /** `num * get_page_size()`, short of overflow. */
  function Bytes(num: nat): (sz: nat)
    requires num > 0
    ensures sz > 2048 && sz == num * PAGE && Log2RoundUp(sz) == OrderOf(sz) + BuddyForest.MIN_LOG2
  {
    num * PAGE
  }

  /** Zones that may serve a request: its own, and the middle zone for a request without requirements. */
  predicate Permitted(req: nat, z: nat) {
    z == req || (req == NONE && z == UNDER4GB)
  }

  /** The address handed out for a block names that block again, and lies in the zone it came from. */
  lemma AddressOfBlock(max: nat, z: nat, num: nat, block: nat)
    requires MB <= max < WORD64 && z < 3 && num > 0
    requires BuddyForest.Below(BuddyForest.Pages(OrderOf(Bytes(num)), block), ZoneRange(max, z).extent / PAGE)
    ensures var addr := ZoneRange(max, z).start + Shl(block, Log2RoundUp(Bytes(num)));
            && BlockIn(max, z, addr, num) == BuddyForest.Pages(OrderOf(Bytes(num)), block) && ZoneOf(addr) == z
            && AlignedFor(addr - ZoneRange(max, z).start, Log2RoundUp(Bytes(num)))
  {
    var k := OrderOf(Bytes(num));
    ShrOfShl(block, Log2RoundUp(Bytes(num)));
    ShlAdd(block, k, BuddyForest.MIN_LOG2);
    ShlIsTimes(Shl(block, k), BuddyForest.MIN_LOG2);
    Pow2Values();
    BuddyForest.PagesNonempty(k, block);
  }
}
