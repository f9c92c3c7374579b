/** src/vmspace.c: a virtual region handed out by one buddy allocator and backed by physical blocks of another. */
module VirtualSpace {
  import opened Powers
  import BuddyForest
  import opened BuddyAllocator
  import opened EarlyMemory
  import opened Zones
  import opened PhysicalMemory
  import Paging

  const WORD32: nat := 0x1_0000_0000

  /** `n` pages mapped one after another from `v` to the frames from `p` on; frame addresses are 32 bits wide. */
  ghost function MapRun(m: map<nat, nat>, v: nat, p: nat, n: nat): map<nat, nat> {
    if n == 0 then m else MapRun(m, v, p, n - 1)[v + (n - 1) * PAGE := (p + (n - 1) * PAGE) % WORD32]
  }

  lemma {:induction false} MapRunAt(m: map<nat, nat>, v: nat, p: nat, n: nat, a: nat)
    ensures a in MapRun(m, v, p, n) <==> a in m || exists i | 0 <= i < n :: a == v + i * PAGE
    ensures (exists i | 0 <= i < n :: a == v + i * PAGE) ==> MapRun(m, v, p, n)[a] == (p + (a - v)) % WORD32
    ensures a in m && !(exists i | 0 <= i < n :: a == v + i * PAGE) ==> MapRun(m, v, p, n)[a] == m[a]
  {
    if n > 0 { MapRunAt(m, v, p, n - 1, a); }
  }

  ghost predicate Unmapped(m: map<nat, nat>, v: nat, n: nat) {
    forall i | 0 <= i < n :: v + i * PAGE !in m
  }

  /** What is left of `m` after the `n` pages from `v` on are unmapped. */
  ghost function UnmapRun(m: map<nat, nat>, v: nat, n: nat): map<nat, nat> {
    if n == 0 then m else UnmapRun(m, v, n - 1) - {v + (n - 1) * PAGE}
  }

  lemma {:induction false} UnmapRunAt(m: map<nat, nat>, v: nat, n: nat, a: nat)
    ensures a in UnmapRun(m, v, n) <==> a in m && !exists i | 0 <= i < n :: a == v + i * PAGE
    ensures a in UnmapRun(m, v, n) ==> UnmapRun(m, v, n)[a] == m[a]
  {
    if n > 0 { UnmapRunAt(m, v, n - 1, a); }
  }

  /** Unmapping what was mapped where nothing was before. */
  lemma UnmapUndoesMap(m: map<nat, nat>, v: nat, p: nat, n: nat)
    requires Unmapped(m, v, n)
    ensures UnmapRun(MapRun(m, v, p, n), v, n) == m
  {
    var m' := UnmapRun(MapRun(m, v, p, n), v, n);
    forall a: nat
      ensures a in m' <==> a in m
      ensures a in m ==> m'[a] == m[a]
    {
      MapRunAt(m, v, p, n, a);
      UnmapRunAt(MapRun(m, v, p, n), v, n, a);
    }
  }

  /** The mappings say of page `q` what the flat map of the page tables says. */
  ghost predicate AgreeAt(m: map<nat, nat>, flat: Paging.Flat, q: nat) {
    (q * PAGE in m <==> q in flat) && (q in flat && q * PAGE in m ==> m[q * PAGE] == flat[q].frame * PAGE)
  }

  ghost predicate Agree(m: map<nat, nat>, flat: Paging.Flat) {
    forall q: nat :: AgreeAt(m, flat, q)
  }

  lemma OneMapped(m: map<nat, nat>, flat: Paging.Flat, q: nat, p: nat, flags: nat)
    requires Agree(m, flat) && p % PAGE == 0
    ensures Agree(m[q * PAGE := p % WORD32], flat[q := Paging.NewMapping(p, flags)])
  {
    assert p % WORD32 == p % WORD32 / PAGE * PAGE;
    var m', flat' := m[q * PAGE := p % WORD32], flat[q := Paging.NewMapping(p, flags)];
    forall r: nat ensures AgreeAt(m', flat', r) { assert AgreeAt(m, flat, r); }
  }

  /** Mapping a run, and unmapping one, is what the page tables do (see Paging.AddressSpace.Map and Unmap). */
  lemma {:induction false} MapRunAgrees(m: map<nat, nat>, flat: Paging.Flat, q: nat, p: nat, n: nat, flags: nat)
    requires Agree(m, flat) && p % PAGE == 0
    ensures Agree(MapRun(m, q * PAGE, p, n), Paging.Mapped(flat, q, p, n, flags))
  {
    hide Agree, Paging.NewMapping;
    if n > 0 {
      MapRunAgrees(m, flat, q, p, n - 1, flags);
      PageSums(q, p, n - 1);
      OneMapped(MapRun(m, q * PAGE, p, n - 1), Paging.Mapped(flat, q, p, n - 1, flags), q + n - 1, p + (n - 1) * PAGE,
                flags);
    }
  }

  lemma PageSums(q: nat, p: nat, n: nat)
    ensures q * PAGE + n * PAGE == (q + n) * PAGE && (p % PAGE == 0 ==> (p + n * PAGE) % PAGE == 0)
  {
    if p % PAGE == 0 { assert p + n * PAGE == (p / PAGE + n) * PAGE; }
  }

  lemma OneUnmapped(m: map<nat, nat>, flat: Paging.Flat, q: nat)
    requires Agree(m, flat)
    ensures Agree(m - {q * PAGE}, flat - {q})
  {
    var m', flat' := m - {q * PAGE}, flat - {q};
    forall r: nat ensures AgreeAt(m', flat', r) { assert AgreeAt(m, flat, r); }
  }

  lemma {:induction false} UnmapRunAgrees(m: map<nat, nat>, flat: Paging.Flat, q: nat, n: nat)
    requires Agree(m, flat)
    ensures Agree(UnmapRun(m, q * PAGE, n), Paging.Removed(flat, q, n))
  {
    hide Agree;
    if n > 0 {
      UnmapRunAgrees(m, flat, q, n - 1);
      OneUnmapped(UnmapRun(m, q * PAGE, n - 1), Paging.Removed(flat, q, n - 1), q + n - 1);
    }
  }

  /** The `n` pages numbered from `p` on. */
  ghost function Run(p: nat, n: nat): set<nat> {
    if n == 0 then {} else Run(p, n - 1) + {p + n - 1}
  }

  lemma {:induction false} InRun(p: nat, n: nat, q: nat)
    ensures q in Run(p, n) <==> p <= q < p + n
  {
    if n > 0 { InRun(p, n - 1, q); }
  }

  /** Pages as zone and number: which frame is behind each page of a virtual block. */
  type Frames = seq<(nat, nat)>

  /** The sets of the zones without these pages, and with them. */
  ghost function Minus(s: seq<set<nat>>, frames: Frames): (r: seq<set<nat>>)
    requires |s| == 3
    ensures |r| == 3
  {
    if frames == [] then s
    else
      var r, last := Minus(s, frames[..|frames| - 1]), frames[|frames| - 1];
      if last.0 < 3 then r[last.0 := r[last.0] - {last.1}] else r
  }

  ghost function Plus(s: seq<set<nat>>, frames: Frames): (r: seq<set<nat>>)
    requires |s| == 3
    ensures |r| == 3
  {
    if frames == [] then s
    else
      var r, last := Plus(s, frames[..|frames| - 1]), frames[|frames| - 1];
      if last.0 < 3 then r[last.0 := r[last.0] + {last.1}] else r
  }

  lemma {:induction false} MinusKeeps(s: seq<set<nat>>, frames: Frames, z: nat, q: nat)
    requires |s| == 3 && z < 3 && q in s[z] && (z, q) !in frames
    ensures q in Minus(s, frames)[z]
  {
    if frames != [] {
      var last := frames[|frames| - 1];
      assert last in frames && last == (last.0, last.1);
      MinusKeeps(s, frames[..|frames| - 1], z, q);
    }
  }

  /** Behind the pages from `v` on are these frames, no frame twice, and all of them held. */
  ghost predicate Behind(m: map<nat, nat>, v: nat, frames: Frames, max: nat, held: seq<set<nat>>)
    requires max < WORD64 && |held| == 3
  {
    && (forall i, j | 0 <= i < j < |frames| :: frames[i] != frames[j])
    && forall i | 0 <= i < |frames| :: FrameOk(m, v + i * PAGE, frames[i], max, held)
  }

  ghost predicate FrameOk(m: map<nat, nat>, a: nat, frame: (nat, nat), max: nat, held: seq<set<nat>>)
    requires max < WORD64 && |held| == 3
  {
    frame.0 < 3 && frame.1 in held[frame.0] && a in m && m[a] == PageAddr(max, frame.0, frame.1)
  }

  /** After `i` pages have gone back, the next one and its mapping are still there. */
  lemma StillThere(m: map<nat, nat>, v: nat, frames: Frames, max: nat, held: seq<set<nat>>, i: nat)
    requires max < WORD64 && |held| == 3 && Behind(m, v, frames, max, held) && i < |frames|
    ensures FrameOk(UnmapRun(m, v, i), v + i * PAGE, frames[i], max, Minus(held, frames[..i]))
    ensures frames[..i + 1][..i] == frames[..i]
  {
    assert FrameOk(m, v + i * PAGE, frames[i], max, held);
    UnmapRunAt(m, v, i, v + i * PAGE);
    MinusKeeps(held, frames[..i], frames[i].0, frames[i].1);
  }

  /** The frames of a run of pages of one zone. */
  ghost function RunFrames(z: nat, p: nat, n: nat): (r: Frames)
    ensures |r| == n && forall i | 0 <= i < n :: r[i] == (z, p + i)
  {
    if n == 0 then [] else RunFrames(z, p, n - 1) + [(z, p + n - 1)]
  }

  lemma {:induction false} RunMoved(s: seq<set<nat>>, z: nat, p: nat, n: nat)
    requires |s| == 3 && z < 3
    ensures Minus(s, RunFrames(z, p, n)) == s[z := s[z] - Run(p, n)]
    ensures Plus(s, RunFrames(z, p, n)) == s[z := s[z] + Run(p, n)]
  {
    if n > 0 {
      RunMoved(s, z, p, n - 1);
      var f := RunFrames(z, p, n);
      assert f[..n - 1] == RunFrames(z, p, n - 1) && f[n - 1] == (z, p + n - 1);
      assert s[z] - Run(p, n - 1) - {p + n - 1} == s[z] - Run(p, n);
      assert s[z] + Run(p, n - 1) + {p + n - 1} == s[z] + Run(p, n);
      assert Minus(s, f) == s[z := s[z] - Run(p, n - 1)][z := s[z] - Run(p, n)];
      assert Plus(s, f) == s[z := s[z] + Run(p, n - 1)][z := s[z] + Run(p, n)];
    } else {
      assert s[z] - {} == s[z] && s[z] + {} == s[z] && s[z := s[z]] == s;
    }
  }

  lemma RunBehind(m: map<nat, nat>, v: nat, n: nat, max: nat, held: seq<set<nat>>, z: nat, p: nat)
    requires max < WORD64 && |held| == 3 && z < 3 && Backed(m, v, n, max, z, p) && Run(p, n) <= held[z]
    ensures Behind(m, v, RunFrames(z, p, n), max, held)
  {
    forall i | 0 <= i < n
      ensures FrameOk(m, v + i * PAGE, RunFrames(z, p, n)[i], max, held)
    {
      InRun(p, n, p + i);
    }
  }

  /** A physical block is a run of pages of its zone, starting at its address and as long as a power of two. */
  lemma BlockIsRun(max: nat, z: nat, addr: nat, num: nat) returns (p: nat)
    requires MB <= max < WORD64 && z < 3 && num > 0
    requires ZoneRange(max, z).start <= addr && AlignedFor(addr - ZoneRange(max, z).start, Log2RoundUp(Bytes(num)))
    ensures addr == PageAddr(max, z, p)
    ensures BlockIn(max, z, addr, num) == Run(p, Pow2(OrderOf(Bytes(num))))
  {
    hide Pow2, Log2RoundUp, Shl, Shr, Run, BuddyForest.Pages;
    var start, k, l := ZoneRange(max, z).start, OrderOf(Bytes(num)), Log2RoundUp(Bytes(num));
    var idx := Shr(addr - start, l);
    p := Shl(idx, k);
    ShlAdd(idx, k, BuddyForest.MIN_LOG2);
    ShlIsTimes(p, BuddyForest.MIN_LOG2);
    ShlIsTimes(idx, k);
    Pow2Values();
    forall q: nat
      ensures q in BuddyForest.Pages(k, idx) <==> q in Run(p, Pow2(k))
    {
      InRun(p, Pow2(k), q);
      BuddyForest.PagesAreRuns(k, idx, q);
    }
  }

  /** Of a block of `Pow2(k)` pages, the `num` pages that were asked for come back. The state is then as before the
      allocation iff the request was for a power of two pages; otherwise the rest of the block stays held for good. */
  lemma PhysicalRestored(free: seq<set<nat>>, z: nat, p: nat, num: nat)
    requires z < |free| && num > 0 && Run(p, Pow2(OrderOf(Bytes(num)))) <= free[z]
    ensures num <= Pow2(OrderOf(Bytes(num)))
    ensures var taken := free[z := free[z] - Run(p, Pow2(OrderOf(Bytes(num))))];
            taken[z := taken[z] + Run(p, num)] == free <==> num == Pow2(OrderOf(Bytes(num)))
  {
    var k := OrderOf(Bytes(num));
    Pow2Add(BuddyForest.MIN_LOG2, k);
    Pow2Values();
    var taken := free[z := free[z] - Run(p, Pow2(k))];
    var back := taken[z := taken[z] + Run(p, num)];
    if num < Pow2(k) {
      InRun(p, Pow2(k), p + num);
      InRun(p, num, p + num);
      assert p + num !in back[z];
    } else {
      assert back[z] == free[z];
    }
  }

  /** A request is for a power of two bytes exactly when the block it gets is no larger than the request. */
  lemma PowerOfTwoRequest(num: nat)
    requires num > 0
    ensures num == Pow2(OrderOf(Bytes(num))) <==> exists j: nat :: num == Pow2(j)
  {
    if j: nat :| num == Pow2(j) {
      Pow2Add(j, BuddyForest.MIN_LOG2);
      Pow2Values();
      Log2RoundUpExact(j + BuddyForest.MIN_LOG2);
    }
  }

  /** The `n` pages from `v` on are mapped to the frames of the pages of zone `z` numbered from `p` on. */
  ghost predicate Backed(m: map<nat, nat>, v: nat, n: nat, max: nat, z: nat, p: nat)
    requires max < WORD64
  {
    forall i | 0 <= i < n :: v + i * PAGE in m && m[v + i * PAGE] == PageAddr(max, z, p + i)
  }

  lemma FrameCut(max: nat, z: nat, p: nat, i: nat)
    requires MB <= max < WORD64 && z < 3 && p + i < ZoneRange(max, z).extent / PAGE
    ensures (PageAddr(max, z, p) % WORD32 + i * PAGE) % WORD32 == PageAddr(max, z, p + i) % WORD32
    ensures PageAddr(max, z, p + i) % WORD32 == PageAddr(max, z, p + i) <==> z != NONE
  {
    hide ZoneRange;
    var a, b := PageAddr(max, z, p), i * PAGE;
    assert PageAddr(max, z, p + i) == a + b;
    CutSum(a, b);
    ZoneBounds(max, z, p + i);
  }

  lemma CutSum(a: nat, b: nat)
    ensures (a % WORD32 + b) % WORD32 == (a + b) % WORD32
  {
    assert a % WORD32 + b == a + b - a / WORD32 * WORD32;
  }

  lemma ZoneBounds(max: nat, z: nat, p: nat)
    requires MB <= max < WORD64 && z < 3 && p < ZoneRange(max, z).extent / PAGE
    ensures PageAddr(max, z, p) < WORD32 <==> z != NONE
  {
  }

  lemma FrameAt(m: map<nat, nat>, v: nat, n: nat, max: nat, z: nat, p: nat, i: nat)
    requires MB <= max < WORD64 && z < 3 && i < n && p + i < ZoneRange(max, z).extent / PAGE
    ensures var m' := MapRun(m, v, PageAddr(max, z, p) % WORD32, n);
            v + i * PAGE in m' && (m'[v + i * PAGE] == PageAddr(max, z, p + i) <==> z != NONE)
  {
    MapRunAt(m, v, PageAddr(max, z, p) % WORD32, n, v + i * PAGE);
    FrameCut(max, z, p, i);
  }

  /** Frame addresses are cut to 32 bits on their way to the page tables. The pages of a block below 4GB are backed by
      its own frames; a block of the top zone is not, so giving its pages back would free others. */
  lemma FramesRight(m: map<nat, nat>, v: nat, n: nat, max: nat, z: nat, p: nat)
    requires MB <= max < WORD64 && z < 3 && n > 0 && p + n <= ZoneRange(max, z).extent / PAGE
    ensures Backed(MapRun(m, v, PageAddr(max, z, p) % WORD32, n), v, n, max, z, p) <==> z != NONE
  {
    hide MapRun, PageAddr, ZoneRange;
    var m' := MapRun(m, v, PageAddr(max, z, p) % WORD32, n);
    forall i | 0 <= i < n
      ensures v + i * PAGE in m' && (m'[v + i * PAGE] == PageAddr(max, z, p + i) <==> z != NONE)
    {
      FrameAt(m, v, n, max, z, p, i);
    }
    FrameAt(m, v, n, max, z, p, 0);
    assert Backed(m', v, n, max, z, p) ==> m'[v + 0 * PAGE] == PageAddr(max, z, p + 0);
  }

  /** The pages kept for the bitmaps of a region of `sz` bytes. */
  ghost function Room(sz: nat): nat {
    RoundToPages(Layout(sz, BuddyForest.TOP + 1))
  }

  ghost function Overhead(sz: nat): nat {
    Room(sz) * PAGE
  }

  /** A smaller region needs no more room for its bitmaps. */
  lemma {:induction false} LayoutShrinks(sz: nat, sz': nat, k: nat)
    requires sz <= sz'
    ensures Layout(sz, k) <= Layout(sz', k)
  {
    if k > 0 {
      LayoutShrinks(sz, sz', k - 1);
      ShrMonotone(sz, sz', BuddyForest.MIN_LOG2 + k - 1);
    }
  }

  lemma {:induction false} ShrSmall(x: nat, n: nat)
    requires x <= WORD32
    ensures Shr(x, BuddyForest.MIN_LOG2 + n) <= 0x10_0000
  {
    if n > 0 {
      ShrSmall(x, n - 1);
    } else {
      Pow2Values();
      ShrBounds(x, BuddyForest.MIN_LOG2);
    }
  }

  lemma {:induction false} LayoutSmall(sz: nat, k: nat)
    requires sz <= WORD32
    ensures k <= Layout(sz, k) <= 0x2_0001 * k
  {
    if k > 0 {
      LayoutSmall(sz, k - 1);
      ShrSmall(sz, k - 1);
    }
  }

  lemma OverheadSmall(sz: nat)
    requires sz <= WORD32
    ensures 0 < Room(sz) < 0x10_0000
  {
    LayoutSmall(sz, BuddyForest.TOP + 1);
  }

  /** The `n` pages from `v` on, not mapped before, are now mapped to a physical block. */
  ghost predicate BitmapsBacked(v: nat, n: nat, before: map<nat, nat>, phys: AllocResult, after: map<nat, nat>) {
    phys.Block? && Unmapped(before, v, n) && after == MapRun(before, v, phys.addr, n)
  }

  /** The pages of a new region: all that lie wholly before the room for its bitmaps. */
  ghost function NewPages(addr: nat, sz: nat): set<nat>
    requires Overhead(sz) <= sz
  {
    WholePages(addr, sz - Overhead(sz), Range(addr, sz - Overhead(sz)))
  }

  /** There is a physical block for the bitmaps, and nothing is mapped where they go. */
  ghost predicate InitFine(addr: nat, sz: nat, free: seq<set<nat>>, mapped: map<nat, nat>)
    requires sz <= WORD32 && Overhead(sz) <= sz && |free| == 3
  {
    OverheadSmall(sz);
    var n := Room(sz);
    OrderOf(Bytes(n)) <= BuddyForest.TOP && CanGrant(free, NONE, n) && Unmapped(mapped, addr + sz - Overhead(sz), n)
  }

  class VmSpace {
    var allocator: Buddy
    /** The pages mapped in the current address space and their frames: what the page tables come to. */
    var mappings: map<nat, nat>
    const pmm: Memory

    ghost predicate Valid()
      reads this, allocator, allocator.storage, pmm, pmm.allocators, pmm.storage
    {
      && allocator.Valid() && pmm.Valid() && allocator.start + allocator.size <= WORD32
      && allocator.storage != pmm.storage && allocator !in pmm.allocators
    }

    /** The allocator of `vmspace_init`: room for the bitmaps is kept at the end of the region, sized for the whole of
        it, and the rest starts out free. */
    constructor Over(addr: nat, sz: nat, pmm: Memory, mapped: map<nat, nat>)
      requires addr % PAGE == 0 && sz % PAGE == 0 && addr + sz <= WORD32 && Overhead(sz) <= sz && pmm.Valid()
      ensures Valid() && this.pmm == pmm && mappings == mapped && fresh(allocator) && fresh(allocator.storage)
      ensures allocator.start == addr && allocator.size == sz - Overhead(sz)
      ensures allocator.free == NewPages(addr, sz)
    {
      hide Layout, WholePages, PhysicalMemory.Memory.Valid, BuddyAllocator.Buddy.Valid, Shr;
      this.pmm, mappings := pmm, mapped;
      var overhead := CalcOverhead(Range(addr, sz));
      overhead := RoundToPages(overhead) * PAGE;
      var storage := new bv8[overhead];
      LayoutShrinks(sz - overhead, sz, BuddyForest.TOP + 1);
      var r := Range(addr, sz - overhead);
      var bd := new Buddy.Init(storage, 0, r, false);
      bd.FreeRange(r);
      allocator := bd;
    }

    /** `vmspace_init` in an address space with the mappings `mapped`: the room for the bitmaps is backed by one
        physical block. `ok` is false if there is none, which the source does not notice, or if a page of the room is
        mapped already. */
    static method Init(addr: nat, sz: nat, pmm: Memory, mapped: map<nat, nat>)
      returns (vms: VmSpace?, ok: bool, ghost phys: AllocResult, ghost zone: nat)
      requires addr % PAGE == 0 && sz % PAGE == 0 && addr + sz <= WORD32 && Overhead(sz) <= sz && pmm.Valid()
      modifies pmm`free, pmm`held, pmm.allocators, pmm.storage
      ensures ok <==> InitFine(addr, sz, old(pmm.free), mapped)
      ensures ok ==> vms != null && fresh(vms) && vms.Valid() && vms.pmm == pmm
      ensures ok ==> fresh(vms.allocator) && fresh(vms.allocator.storage)
      ensures ok ==> vms.allocator.start == addr && vms.allocator.size == sz - Overhead(sz)
      ensures ok ==> vms.allocator.free == NewPages(addr, sz)
      ensures ok ==> BitmapsBacked(addr + sz - Overhead(sz), Room(sz), mapped, phys, vms.mappings)
      ensures ok ==> Permitted(NONE, zone) && Granted(pmm.earlyMaxExtent, zone, Room(sz), phys,
                                                      old(pmm.free), old(pmm.held), pmm.free, pmm.held)
    {
      hide Layout, PhysicalMemory.Memory.Valid, BuddyAllocator.Buddy.Valid, Granted, MapRun, CanGrant, Unmapped,
        NewPages, OrderOf, Permitted;
      var overhead := CalcOverhead(Range(addr, sz));
      var n := RoundToPages(overhead);
      OverheadSmall(sz);
      pmm.Facts();
      var pages;
      pages, zone := pmm.AllocPages(NONE, n);
      phys := pages;
      if !pages.Block? {
        return null, false, phys, zone;
      }
      var space := new VmSpace.Over(addr, sz, pmm, mapped);
      ok := space.Map(addr + sz - n * PAGE, pages.addr, n);
      vms := space;
    }

    /** `map` of `n` pages; false stands for the panic on a page that is already mapped. */
    method Map(v: nat, p: nat, n: nat) returns (ok: bool)
      modifies this`mappings
      ensures ok <==> Unmapped(old(mappings), v, n)
      ensures ok ==> mappings == MapRun(old(mappings), v, p, n)
    {
      for i := 0 to n
        invariant Unmapped(old(mappings), v, i)
        invariant mappings == MapRun(old(mappings), v, p, i)
      {
        MapRunAt(old(mappings), v, p, i, v + i * PAGE);
        if v + i * PAGE in mappings {
          return false;
        }
        mappings := mappings[v + i * PAGE := (p + i * PAGE) % WORD32];
      }
      ok := true;
    }

    /** `vmspace_alloc`. With `allocPhys` the pages asked for are mapped to one physical block, which starts at page
        `page` of zone `zone`. They are backed by the block's own frames exactly if there was no block for them above
        4GB. `ok` is false when an assertion or a panic stops the kernel. */
    method Alloc(sz: nat, allocPhys: bool)
      returns (r: AllocResult, ok: bool, ghost block: nat, ghost phys: AllocResult, ghost zone: nat, ghost page: nat)
      requires Valid() && sz % PAGE == 0 && 0 < sz < WORD32
      modifies this`mappings, allocator`bits, allocator`free, allocator.storage, pmm`free, pmm`held, pmm.allocators,
               pmm.storage
      ensures ok ==> Valid()
      ensures ok <==> r != TooLarge && (allocPhys && r.Block? ==>
                        CanGrant(old(pmm.free), NONE, sz / PAGE) && Unmapped(old(mappings), r.addr, sz / PAGE))
      ensures BlockTaken(allocator.start, old(allocator.free), sz, r, block, allocator.free)
      ensures ok && !(allocPhys && r.Block?) ==>
                mappings == old(mappings) && pmm.free == old(pmm.free) && pmm.held == old(pmm.held)
      ensures ok && allocPhys && r.Block? ==>
                && phys.Block? && Permitted(NONE, zone) && Unmapped(old(mappings), r.addr, sz / PAGE)
                && Granted(pmm.earlyMaxExtent, zone, sz / PAGE, phys, old(pmm.free), old(pmm.held), pmm.free, pmm.held)
                && mappings == MapRun(old(mappings), r.addr, phys.addr % WORD32, sz / PAGE)
      ensures ok && allocPhys && r.Block? ==>
                && phys.addr == PageAddr(pmm.earlyMaxExtent, zone, page)
                && (Backed(mappings, r.addr, sz / PAGE, pmm.earlyMaxExtent, zone, page)
                    <==> !old(pmm.TopHas(sz / PAGE)))
    {
      hide BuddyAllocator.Buddy.Valid, AllocOutcome, Backed, MapRun;
      phys, zone, page := Exhausted, 0, 0;
      r, block := TakeVirtual(sz);
      OrderServed(allocator.start, old(allocator.free), sz, r, block);
      if r == TooLarge {
        return r, false, block, phys, zone, page;
      }
      ok := true;
      if allocPhys && r.Block? {
        ok, phys, zone := Back(r.addr, sz / PAGE);
        if ok {
          page := GrantedRun(pmm.earlyMaxExtent, zone, sz / PAGE, phys,
                             old(pmm.free), old(pmm.held), pmm.free, pmm.held, pmm.handed);
          FramesRight(old(mappings), r.addr, sz / PAGE, pmm.earlyMaxExtent, zone, page);
        }
      }
    }

    lemma PmmFacts()
      requires Valid()
      ensures |pmm.free| == 3 && |pmm.held| == 3
    {
    }

    method TakeVirtual(sz: nat) returns (r: AllocResult, ghost block: nat)
      requires Valid() && sz > 2048
      modifies allocator`bits, allocator`free, allocator.storage
      ensures Valid() && BlockTaken(allocator.start, old(allocator.free), sz, r, block, allocator.free)
    {
      r, block := allocator.Alloc(sz);
    }

    /** Maps one physical block under `n` pages; `ok` is false when an assertion or a panic stops the kernel. */
    method Back(v: nat, n: nat) returns (ok: bool, ghost phys: AllocResult, ghost zone: nat)
      requires Valid() && 0 < n < 0x10_0000
      modifies this`mappings, pmm`free, pmm`held, pmm.allocators, pmm.storage
      ensures ok ==> Valid() && phys.Block? && Permitted(NONE, zone) && Unmapped(old(mappings), v, n)
      ensures ok ==> Granted(pmm.earlyMaxExtent, zone, n, phys, old(pmm.free), old(pmm.held), pmm.free, pmm.held)
      ensures ok ==> mappings == MapRun(old(mappings), v, phys.addr % WORD32, n)
      ensures ok ==> (zone == NONE <==> old(pmm.TopHas(n)))
      ensures ok <==> OrderOf(Bytes(n)) <= BuddyForest.TOP && CanGrant(old(pmm.free), NONE, n)
                      && Unmapped(old(mappings), v, n)
    {
      var pages;
      pages, zone := pmm.AllocPages(NONE, n);
      phys := pages;
      if !pages.Block? {
        return false, phys, zone;
      }
      ok := Map(v, pages.addr % WORD32, n);
    }

    /** `vmspace_free`. With `freePhys` the frames behind the pages are given back one page at a time; without, the
        caller has unmapped the pages already. */
    method Free(sz: nat, addr: nat, freePhys: bool, ghost frames: Frames)
      requires Valid() && sz % PAGE == 0 && 0 < sz < WORD32 && OrderOf(sz) <= BuddyForest.TOP && allocator.start <= addr
      requires BuddyForest.Below(BlockPages(allocator.start, addr, sz), allocator.size / PAGE)
      requires BlockPages(allocator.start, addr, sz) !! allocator.free
      requires freePhys ==> |frames| == sz / PAGE && Behind(mappings, addr, frames, pmm.earlyMaxExtent, pmm.held)
      modifies this`mappings, allocator`bits, allocator`free, allocator.storage
      modifies pmm`free, pmm`held, pmm.allocators, pmm.storage
      ensures Valid() && allocator.free == old(allocator.free + BlockPages(allocator.start, addr, sz))
      ensures !freePhys ==> mappings == old(mappings) && pmm.free == old(pmm.free) && pmm.held == old(pmm.held)
      ensures freePhys ==> mappings == UnmapRun(old(mappings), addr, sz / PAGE)
      ensures freePhys ==> pmm.held == Minus(old(pmm.held), frames) && pmm.free == Plus(old(pmm.free), frames)
    {
      hide PhysicalMemory.Memory.Valid, BuddyAllocator.Buddy.ValidIn, Behind, Plus, Minus, UnmapRun, BlockPages, Pow2;
      if freePhys {
        FreeBacking(addr, sz / PAGE, frames);
      }
      allocator.Free(addr, sz);
    }

    /** The body of that loop: free the frame behind one page, then unmap the page. */
    method FreeAndUnmap(v: nat, ghost z: nat, ghost q: nat)
      requires pmm.Valid() && z < 3 && q in pmm.held[z] && v in mappings
      requires mappings[v] == PageAddr(pmm.earlyMaxExtent, z, q)
      modifies this`mappings, pmm`free, pmm`held, pmm.allocators, pmm.storage
      ensures pmm.Valid() && mappings == old(mappings) - {v}
      ensures pmm.held == old(pmm.held)[z := old(pmm.held[z]) - {q}]
      ensures pmm.free == old(pmm.free)[z := old(pmm.free[z]) + {q}]
    {
      pmm.FreePage(mappings[v], z, q);
      mappings := mappings - {v};
    }

    /** The loop of `vmspace_free`. */
    method FreeBacking(addr: nat, n: nat, ghost frames: Frames)
      requires pmm.Valid() && n == |frames| && Behind(mappings, addr, frames, pmm.earlyMaxExtent, pmm.held)
      modifies this`mappings, pmm`free, pmm`held, pmm.allocators, pmm.storage
      ensures pmm.Valid() && mappings == UnmapRun(old(mappings), addr, n)
      ensures pmm.held == Minus(old(pmm.held), frames) && pmm.free == Plus(old(pmm.free), frames)
    {
      hide PhysicalMemory.Memory.Valid;
      ghost var mapped, held, free := mappings, pmm.held, pmm.free;
      pmm.Facts();
      for i := 0 to n
        invariant pmm.Valid() && mappings == UnmapRun(mapped, addr, i)
        invariant pmm.held == Minus(held, frames[..i]) && pmm.free == Plus(free, frames[..i])
      {
        StillThere(mapped, addr, frames, pmm.earlyMaxExtent, held, i);
        FreeAndUnmap(addr + i * PAGE, frames[i].0, frames[i].1);
      }
      assert frames[..n] == frames;
    }

    /** Allocating with backing and freeing again leaves the virtual allocator, bit for bit, and the mappings as they
        were, and the physical allocators too iff the request was for a power of two pages. What is ruled out is a
        request that finds a block above 4GB: the pages then have other frames behind them (see Alloc). */
    method AllocThenFree(sz: nat) returns (r: AllocResult, ok: bool, ghost block: nat)
      requires Valid() && sz % PAGE == 0 && 0 < sz < WORD32 && !pmm.TopHas(sz / PAGE)
      modifies this`mappings, allocator`bits, allocator`free, allocator.storage
      modifies pmm`free, pmm`held, pmm.allocators, pmm.storage
      ensures AllocOutcome(allocator.start, old(allocator.free), sz, r, block)
      ensures ok <==> r != TooLarge && (r.Block? ==>
                        CanGrant(old(pmm.free), NONE, sz / PAGE) && Unmapped(old(mappings), r.addr, sz / PAGE))
      ensures ok && r.Block? ==> Valid() && mappings == old(mappings)
      ensures ok && r.Block? ==> allocator.free == old(allocator.free) && allocator.bits == old(allocator.bits)
      ensures ok && r.Block? ==> (pmm.free == old(pmm.free) <==> exists j: nat :: sz / PAGE == Pow2(j))
    {
      hide AllocOutcome, Accounted, Granted, BlockTaken, MapRun, UnmapRun, Behind, Plus, Minus, Run, RunFrames, Pow2,
        OrderOf, BlockPages, BuddyForest.Below, Bytes, PhysicalMemory.Memory.Valid, BuddyAllocator.Buddy.Valid;
      ghost var phys, zone, p;
      ghost var n, max, first, free, held := sz / PAGE, pmm.earlyMaxExtent, allocator.free, pmm.free, pmm.held;
      pmm.Facts();
      allocator.FreeBelow();
      allocator.BitsOfFree();
      r, ok, block, phys, zone, p := Alloc(sz, true);
      OutcomeOf(allocator.start, first, sz, r, block, allocator.free);
      if ok && r.Block? {
        pmm.Facts();
        ghost var free', held', taken := pmm.free, pmm.held, allocator.free;
        ghost var q := GrantedRun(max, zone, n, phys, free, held, free', held', pmm.handed);
        assert q == p;
        TakenGoesBack(allocator.start, allocator.size, first, sz, r, block, taken);
        RunBehind(mappings, r.addr, n, max, held', zone, p);
        Free(sz, r.addr, true, RunFrames(zone, p, n));
        allocator.BitsOfFree();
        RunMoved(free', zone, p, n);
        UnmapUndoesMap(old(mappings), r.addr, phys.addr % WORD32, n);
        PhysicalRestored(free, zone, p, n);
        PowerOfTwoRequest(n);
      }
    }
  }

  /** A request that is served in the virtual region is not too large for the physical one. */
  lemma OrderServed(start: nat, f: set<nat>, sz: nat, r: AllocResult, block: nat)
    requires sz % PAGE == 0 && sz > 2048 && AllocOutcome(start, f, sz, r, block)
    ensures Bytes(sz / PAGE) == sz && (r == TooLarge <==> OrderOf(sz) > BuddyForest.TOP)
  {
  }

  /** A virtual block that was handed out can be given back, which undoes its allocation. */
  lemma TakenGoesBack(start: nat, size: nat, f: set<nat>, sz: nat, r: AllocResult, block: nat, f': set<nat>)
    requires sz > 2048 && BuddyForest.Below(f, size / PAGE) && BlockTaken(start, f, sz, r, block, f') && r.Block?
    ensures OrderOf(sz) <= BuddyForest.TOP && start <= r.addr
    ensures BuddyForest.Below(BlockPages(start, r.addr, sz), size / PAGE)
    ensures BlockPages(start, r.addr, sz) !! f' && f' + BlockPages(start, r.addr, sz) == f
  {
  }

  lemma OutcomeOf(start: nat, f: set<nat>, sz: nat, r: AllocResult, block: nat, f': set<nat>)
    requires sz > 2048 && BlockTaken(start, f, sz, r, block, f')
    ensures AllocOutcome(start, f, sz, r, block)
  {
  }

  /** A grant frees no block above 4GB. */
  lemma TopStays(max: nat, z: nat, num: nat, r: AllocResult, free: seq<set<nat>>, held: seq<set<nat>>,
                 free': seq<set<nat>>, held': seq<set<nat>>, k: nat)
    requires max < WORD64 && num > 0 && Granted(max, z, num, r, free, held, free', held')
    ensures BuddyForest.HasBlock(free'[NONE], k) ==> BuddyForest.HasBlock(free[NONE], k)
  {
    if i: nat :| BuddyForest.Free(free'[NONE], k, i) { assert BuddyForest.Free(free[NONE], k, i); }
  }

  /** A run from the start: a new virtual region serves a request with backing, and is as new when that is freed. `up`
      says whether there is a region at all; `phys` is the block for its bitmaps, and `mid`, `kept` and `placed` are the
      free and held pages and the mappings then. */
  method FirstRun(addr: nat, sz: nat, pmm: Memory, mapped: map<nat, nat>, want: nat)
    returns (vms: VmSpace?, up: bool, ok: bool, r: AllocResult, ghost block: nat, ghost phys: AllocResult,
             ghost zone: nat, ghost mid: seq<set<nat>>, ghost kept: seq<set<nat>>, ghost placed: map<nat, nat>)
    requires addr % PAGE == 0 && sz % PAGE == 0 && addr + sz <= WORD32 && Overhead(sz) <= sz && pmm.Valid()
    requires want % PAGE == 0 && 0 < want < WORD32 && !pmm.TopHas(want / PAGE)
    modifies pmm`free, pmm`held, pmm.allocators, pmm.storage
    ensures up <==> InitFine(addr, sz, old(pmm.free), mapped)
    ensures up ==> BitmapsBacked(addr + sz - Overhead(sz), Room(sz), mapped, phys, placed)
    ensures up ==> Permitted(NONE, zone) && Granted(pmm.earlyMaxExtent, zone, Room(sz), phys,
                                                    old(pmm.free), old(pmm.held), mid, kept)
    ensures up ==> |mid| == 3 && AllocOutcome(addr, NewPages(addr, sz), want, r, block)
    ensures ok <==> up && r != TooLarge && (r.Block? ==>
                      CanGrant(mid, NONE, want / PAGE) && Unmapped(placed, r.addr, want / PAGE))
    ensures ok && r.Block? ==> vms != null && vms.Valid() && vms.allocator.free == NewPages(addr, sz)
    ensures ok && r.Block? ==> vms.mappings == placed && (pmm.free == mid <==> exists j: nat :: want / PAGE == Pow2(j))
  {
    hide VmSpace.Valid, Granted, Layout, WholePages, BitmapsBacked, PhysicalMemory.Memory.Valid, OrderOf, Bytes;
    r, ok, block, mid, kept, placed := Exhausted, false, 0, [], [], map[];
    ghost var free, held := pmm.free, pmm.held;
    pmm.Facts();
    OverheadSmall(sz);
    vms, up, phys, zone := VmSpace.Init(addr, sz, pmm, mapped);
    if up {
      mid, kept, placed := pmm.free, pmm.held, vms.mappings;
      TopStays(pmm.earlyMaxExtent, zone, Room(sz), phys, free, held, pmm.free, pmm.held,
               OrderOf(Bytes(want / PAGE)));
      vms.PmmFacts();
      r, ok, block := vms.AllocThenFree(want);
    }
  }

  /** The pages of a granted block, the first `num` of which are now held. */
  lemma GrantedRun(max: nat, z: nat, num: nat, r: AllocResult,
                   free: seq<set<nat>>, held: seq<set<nat>>, free': seq<set<nat>>, held': seq<set<nat>>, rs: seq<Range>)
    returns (p: nat)
    requires max < WORD64 && Accounted(free, held, max, rs)
    requires MB <= max < WORD64 && num > 0 && Granted(max, z, num, r, free, held, free', held') && r.Block?
    ensures r.addr == PageAddr(max, z, p) && Run(p, num) <= held'[z]
    ensures Run(p, Pow2(OrderOf(Bytes(num)))) <= free[z]
    ensures free' == free[z := free[z] - Run(p, Pow2(OrderOf(Bytes(num))))]
    ensures p + num <= ZoneRange(max, z).extent / PAGE
  {
    ZonePagesBelow(max, z, rs);
    p := BlockIsRun(max, z, r.addr, num);
    var len := Pow2(OrderOf(Bytes(num)));
    InRun(p, len, p);
    assert p in free[z];
    PhysicalRestored(free, z, p, num);
    InRun(p, len, p + num - 1);
    forall q | q in Run(p, num)
      ensures q in held'[z]
    {
      InRun(p, num, q);
      InRun(p, len, q);
    }
  }
}
