/** The object caches of src/slab.c. */
module SlabAllocator {
  import Powers
  import Bitmaps
  import opened Options
  import opened SlabLayout
  import BuddyForest
  import opened BuddyAllocator
  import opened Chunks

  /** A slab: its address, the bitmap in front of its footer, and the footer. */
  class Slab {
    const addr: nat
    const bitmap: array<bv8>
    var next: Slab?

    constructor (addr: nat, bitmapSize: nat, next: Slab?)
      ensures this.addr == addr && this.next == next && fresh(bitmap) && bitmap.Length == bitmapSize
      ensures Bitmaps.BitsOf(bitmap[..]) == {}
    {
      this.addr, this.next := addr, next;
      bitmap := new bv8[bitmapSize](_ => 0);
      new;
      assert forall i: nat | i < 8 * bitmapSize :: bitmap[..][i / 8] == 0;
    }
  }

  /** The objects of each slab that are handed out. */
  type Live = map<nat, set<nat>>

  /** One object more is handed out. */
  ghost function With(live: Live, a: nat, idx: nat): Live {
    live[a := (if a in live then live[a] else {}) + {idx}]
  }

  ghost predicate IsLive(live: Live, a: nat, idx: nat) {
    a in live && idx in live[a]
  }

  ghost predicate Below(s: set<nat>, n: nat) {
    forall i | i in s :: i < n
  }

  /** The block of the virtual region that a slab is. */
  function SlabAt(a: nat): Chunk {
    Chunk(a, SLAB_LOG2)
  }

  function At(list: seq<Slab>, i: int): Slab? {
    if 0 <= i < |list| then list[i] else null
  }

  ghost predicate Full(s: set<nat>, n: nat) {
    forall i: nat | i < n :: i in s
  }

  /** The first free object of a slab. */
  ghost predicate FirstClear(s: set<nat>, n: nat, idx: nat) {
    idx < n && idx !in s && forall i: nat | i < idx :: i in s
  }

  // ---------- bytes

  lemma AllOnes(b: bv8, j: nat)
    requires j < 8
    ensures b == 0xFF ==> Bitmaps.TestBit(b, j)
    ensures b == 0 ==> !Bitmaps.TestBit(b, j)
  {
  }

  lemma SomeClear(b: bv8) returns (j: nat)
    requires b != 0xFF
    ensures j < 8 && !Bitmaps.TestBit(b, j)
  {
    j := Bitmaps.NonzeroByte(!b);
  }

  /** `lsb_clear`, of a byte that is not all ones. */
  method LsbClear(byte: bv8) returns (i: nat)
    requires byte != 0xFF
    ensures i < 8 && !Bitmaps.TestBit(byte, i) && forall j: nat | j < i :: Bitmaps.TestBit(byte, j)
  {
    i := 0;
    var b := byte;
    ghost var k := SomeClear(byte);
    while b & 1 == 1
      invariant i <= k && b == Bitmaps.Shifted(byte, i)
      invariant forall j: nat | j < i :: Bitmaps.TestBit(byte, j)
      decreases k - i
    {
      Bitmaps.ShiftedLowBit(byte, i);
      i := i + 1;
      b := b >> 1;
    }
    Bitmaps.ShiftedLowBit(byte, i);
  }

  lemma InByte(bytes: seq<bv8>, j: nat)
    requires j < 8 * |bytes|
    ensures j in Bitmaps.BitsOf(bytes) <==> Bitmaps.TestBit(bytes[j / 8], j % 8)
  {
  }

  /** The search of one slab in `find_empty_obj`. */
  method FindClear(bitmap: array<bv8>, nobjs: nat) returns (r: Option<nat>)
    requires nobjs <= 8 * bitmap.Length
    ensures r.None? ==> Full(Bitmaps.BitsOf(bitmap[..]), nobjs)
    ensures r.Some? ==> FirstClear(Bitmaps.BitsOf(bitmap[..]), nobjs, r.value)
  {
    ghost var used := Bitmaps.BitsOf(bitmap[..]);
    var i := 0;
    while i < bitmap.Length
      invariant 0 <= i <= bitmap.Length && forall j: nat | j < 8 * i :: j in used
    {
      if bitmap[i] != 0xFF {
        var l := LsbClear(bitmap[i]);
        var idx := i * 8 + l;
        forall j: nat | j <= idx ensures j in used <==> j < idx { InByte(bitmap[..], j); }
        return if idx >= nobjs then None else Some(idx);
      }
      forall j: nat | j < 8 * (i + 1) ensures j in used { InByte(bitmap[..], j); AllOnes(bitmap[i], j % 8); }
      i := i + 1;
    }
    r := None;
  }

  /** `all_unused`: it looks closely at a byte that is not zero only if objects end in it. */
  method AllUnused(bitmap: array<bv8>, nobjs: nat) returns (r: bool)
    requires Below(Bitmaps.BitsOf(bitmap[..]), nobjs)
    ensures r <==> Bitmaps.BitsOf(bitmap[..]) == {}
  {
    ghost var used := Bitmaps.BitsOf(bitmap[..]);
    for i := 0 to bitmap.Length
      invariant forall j: nat | j < 8 * i :: j !in used
    {
      if bitmap[i] != 0 {
        if (i + 1) * 8 < nobjs {
          ghost var k := Bitmaps.NonzeroByte(bitmap[i]);
          InByte(bitmap[..], 8 * i + k);
          return false;
        }
        var val, j := bitmap[i], i * 8;
        while j < nobjs
          invariant 8 * i <= j && j <= 8 * i + 8 && val == Bitmaps.Shifted(bitmap[i], j - 8 * i)
          invariant forall m: nat | m < j :: m !in used
        {
          Bitmaps.ShiftedLowBit(bitmap[i], j - 8 * i);
          InByte(bitmap[..], j);
          if val & 1 != 0 {
            return false;
          }
          val := val >> 1;
          j := j + 1;
        }
      } else {
        forall j: nat | j < 8 * (i + 1)
          ensures j !in used
        {
          if j / 8 == i { InByte(bitmap[..], j); AllOnes(bitmap[i], j % 8); }
        }
      }
    }
    assert used == {};
    r := true;
  }

  // ---------- caches

  /** `slab_cache_t`. */
  class Cache {
    const size: nat
    var first: Slab?
    /** The slabs of this cache in memory, by address. */
    var slabs: map<nat, Slab>
    /** The slabs that are listed, from `first` on. */
    ghost var list: seq<Slab>
    ghost var live: Live
    /** Contain the slabs and their bitmaps. */
    ghost var repr: set<Slab>
    ghost var arrays: set<array<bv8>>

    ghost predicate LinkOf(i: nat)
      requires i < |list|
      reads this`list, {list[i]}`next
    {
      list[i].next == At(list, i + 1)
    }

    ghost predicate Linked()
      reads this`first, this`list, this`slabs, this`repr, repr`next
    {
      && first == At(list, 0)
      && (forall i | 0 <= i < |list| :: list[i] in repr && list[i].addr in slabs && slabs[list[i].addr] == list[i])
      && (forall i | 0 <= i < |list| :: LinkOf(i))
      && OnceEach(list)
    }

    /** The set bits of the slab at `a` are exactly its live objects. */
    ghost predicate BitsFit(a: nat)
      requires size > 0 && a in slabs
      reads this`slabs, this`live, slabs[a].bitmap
    {
      && slabs[a].addr == a && Aligned(a) && slabs[a].bitmap.Length == BitmapSize(size)
      && a in live && Bitmaps.BitsOf(slabs[a].bitmap[..]) == live[a] && Below(live[a], NumObjs(size)) && live[a] != {}
    }

    ghost predicate SlabsFit()
      requires size > 0
      reads this`slabs, this`live, this`repr, this`arrays, arrays
    {
      && (forall a | a in slabs :: slabs[a] in repr && slabs[a].bitmap in arrays)
      && (forall a | a in slabs :: BitsFit(a))
      && (forall a, b | a in slabs && b in slabs && a != b :: slabs[a].bitmap != slabs[b].bitmap)
      && (forall a | a in live :: a in slabs)
    }

    ghost predicate Valid()
      reads this, repr, arrays
    {
      0 < size <= SLAB_SIZE / 2 && Linked() && SlabsFit()
    }

    /** The slabs are blocks of the virtual region in use. */
    ghost predicate SlabsHeld(held: set<Chunk>)
      reads this`slabs
    {
      forall a | a in slabs :: SlabAt(a) in held
    }

    /** What the virtual region of the cache must be like. */
    ghost predicate Region(vms: Buddy, held: set<Chunk>)
      reads this`slabs, this`arrays, vms, vms.storage
    {
      && vms.Valid() && vms.start % 0x1000_0000 == 0 && vms.storage !in arrays
      && Held(vms.start, vms.size, vms.free, held) && SlabsHeld(held)
    }

    /** `slab_cache_create`. */
    constructor (size: nat)
      requires 0 < size <= SLAB_SIZE / 2
      ensures Valid() && this.size == size && live == map[] && list == [] && repr == {} && arrays == {}
    {
      this.size, first, slabs := size, null, map[];
      list, live, repr, arrays := [], map[], {}, {};
    }

    /** `mark`. */
    method Mark(obj: nat, used: bool, ghost a: nat, ghost idx: nat)
      requires 0 < size <= SLAB_SIZE / 2 && a in slabs && slabs[a].bitmap.Length == BitmapSize(size)
      requires Aligned(a) && idx < NumObjs(size) && obj == Addr(a, idx, size)
      modifies slabs[a].bitmap
      ensures var before := old(Bitmaps.BitsOf(slabs[a].bitmap[..]));
              Bitmaps.BitsOf(slabs[a].bitmap[..]) == if used then before + {idx} else before - {idx}
    {
      ObjectInSlab(a, idx, size);
      SmallFits(size);
      var bitmap := slabs[Start(obj)].bitmap;
      var i := Index(obj, size);
      if used {
        Bitmaps.SetInBytes(bitmap[..], i);
        bitmap[i / 8] := bitmap[i / 8] | Bitmaps.Mask(i % 8);
      } else {
        Bitmaps.ClearInBytes(bitmap[..], i);
        bitmap[i / 8] := bitmap[i / 8] & !Bitmaps.Mask(i % 8);
      }
    }

    /** All listed slabs before position `k` are full. */
    ghost predicate FullUpTo(k: nat)
      requires size > 0 && k <= |list|
      reads this`list, this`live
    {
      forall i | 0 <= i < k :: list[i].addr in live && Full(live[list[i].addr], NumObjs(size))
    }

    /** `find_empty_obj`: the first free object of the first listed slab that has one. */
    method FindEmpty() returns (obj: Option<nat>, ghost k: nat, ghost idx: nat)
      requires Valid()
      ensures obj.None? <==> FullUpTo(|list|)
      ensures obj.Some? ==> k < |list| && list[k].addr in live
      ensures obj.Some? ==> list[k].addr in slabs && slabs[list[k].addr] == list[k]
      ensures obj.Some? ==> FirstClear(live[list[k].addr], NumObjs(size), idx)
      ensures obj.Some? ==> obj.value == Addr(list[k].addr, idx, size)
    {
      hide OnceEach, Bitmaps.BitsOf, NumObjs, BitmapSize, Aligned, Below;
      var f := first;
      k, idx := 0, 0;
      SmallFits(size);
      while f != null
        invariant k <= |list| && f == At(list, k) && FullUpTo(k)
        decreases |list| - k
      {
        assert LinkOf(k) && BitsFit(f.addr);
        var r := FindClear(f.bitmap, NumObjs(size));
        if r.Some? {
          idx := r.value;
          assert !Full(live[list[k].addr], NumObjs(size));
          return Some(f.addr + Offset(r.value, size)), k, idx;
        }
        f := f.next;
        k := k + 1;
      }
      obj := None;
    }

    /** A new slab at `addr`, put in front of the list, with its first object taken. */
    method NewSlab(addr: nat)
      requires Valid() && Aligned(addr) && addr !in slabs
      modifies this`first, this`slabs, this`list, this`live, this`repr, this`arrays
      ensures Valid() && addr !in old(live) && live == With(old(live), addr, 0)
      ensures addr in slabs && slabs == old(slabs)[addr := slabs[addr]] && list == [slabs[addr]] + old(list)
      ensures old(repr) <= repr && fresh(repr - old(repr)) && old(arrays) <= arrays && fresh(arrays - old(arrays))
    {
      hide Linked, SlabsFit, Bitmaps.BitsOf, BitmapSize, NumObjs, Aligned;
      SmallFits(size);
      var slab := new Slab(addr, BitmapSize(size), first);
      LiveListed(addr);
      Prepend(slab);
      FirstObject(addr);
      assert {} + {0} == {0};
    }

    lemma LiveListed(a: nat)
      requires size > 0 && SlabsFit()
      ensures a in live ==> a in slabs
    {
    }

    /** Takes the first object of a slab that has none taken. */
    method FirstObject(a: nat)
      requires 0 < size <= SLAB_SIZE / 2 && Linked() && SlabsFitBut(a) && a in slabs && slabs[a].addr == a && Aligned(a)
      requires slabs[a].bitmap.Length == BitmapSize(size) && Bitmaps.BitsOf(slabs[a].bitmap[..]) == {}
      requires 0 < NumObjs(size)
      modifies this`live, slabs[a].bitmap
      ensures Valid() && live == old(live)[a := {0}]
    {
      hide Linked, Bitmaps.BitsOf, BitmapSize, NumObjs, Aligned;
      Mark(Addr(a, 0, size), true, a, 0);
      assert {} + {0} == {0};
      live := live[a := {0}];
      forall b | b in slabs
        ensures BitsFit(b)
      {
        assert b != a ==> old(BitsFit(b));
      }
    }

    method Prepend(slab: Slab)
      requires Valid() && slab.addr !in slabs && slab !in repr && slab.bitmap !in arrays && slab.next == first
      modifies this`first, this`slabs, this`list, this`repr, this`arrays
      ensures Linked() && SlabsFitBut(slab.addr) && slabs == old(slabs)[slab.addr := slab] && list == [slab] + old(list)
      ensures repr == old(repr) + {slab} && arrays == old(arrays) + {slab.bitmap}
    {
      hide Linked, Bitmaps.BitsOf, BitmapSize, NumObjs, Below, Aligned;
      Link(slab);
      arrays := arrays + {slab.bitmap};
      forall a | a in slabs && a != slab.addr
        ensures BitsFit(a)
      {
        assert old(BitsFit(a));
      }
    }

    /** Puts a slab in front of the list. */
    method Link(slab: Slab)
      requires Linked() && slab.addr !in slabs && slab !in repr && slab.next == first
      modifies this`first, this`slabs, this`list, this`repr
      ensures Linked() && repr == old(repr) + {slab} && slabs == old(slabs)[slab.addr := slab]
      ensures list == [slab] + old(list)
    {
      ghost var before := list;
      first := slab;
      slabs := slabs[slab.addr := slab];
      list, repr := [slab] + list, repr + {slab};
      forall i | 0 <= i < |list|
        ensures LinkOf(i)
      {
        if i > 0 { assert list[i] == before[i - 1] && old(LinkOf(i - 1)); }
      }
    }

    /** `slab_cache_alloc`. A new slab is taken from the virtual region only if all listed slabs are full; the source
        does not notice if there is none, for which `ok` is false. `held` are the blocks of the region in use. */
    method Alloc(vms: Buddy, ghost held: set<Chunk>) returns (ok: bool, obj: nat, ghost a: nat, ghost idx: nat)
      requires Valid() && Region(vms, held)
      modifies this`first, this`slabs, this`list, this`live, this`repr, this`arrays, arrays
      modifies vms`bits, vms`free, vms.storage
      ensures ok <==> !old(FullUpTo(|list|)) || BuddyForest.HasBlock(old(vms.free), SLAB_LOG2 - BuddyForest.MIN_LOG2)
      ensures ok ==> Valid() && Region(vms, held + {SlabAt(a)}) && obj == Addr(a, idx, size) && idx < NumObjs(size)
      ensures ok ==> !IsLive(old(live), a, idx) && live == With(old(live), a, idx) && Aligned(a)
      ensures ok ==> CanFree(a, idx)
      ensures !ok ==> vms.free == old(vms.free) && list == old(list) && live == old(live)
      ensures ok && old(FullUpTo(|list|)) ==> TakenFrom(vms.start, old(vms.free), SlabAt(a), vms.free)
      ensures ok && old(FullUpTo(|list|)) ==> idx == 0 && SlabAt(a) !in held && list == [slabs[a]] + old(list)
      ensures ok && !old(FullUpTo(|list|)) ==> a in old(live) && list == old(list) && vms.free == old(vms.free)
      ensures old(repr) <= repr && fresh(repr - old(repr)) && old(arrays) <= arrays && fresh(arrays - old(arrays))
    {
      hide Valid, Region, FullUpTo;
      var o, k, i := FindEmpty();
      if o.None? {
        ok, obj := Grow(vms, held);
        a, idx := obj, 0;
      } else {
        a, idx := list[k].addr, i;
        ok, obj := true, o.value;
        SlabFacts(vms, held, a);
        assert held + {SlabAt(a)} == held;
        Take(obj, a, idx);
      }
    }

    lemma SlabFacts(vms: Buddy, held: set<Chunk>, a: nat)
      requires Valid() && Region(vms, held) && a in slabs
      ensures Aligned(a) && SlabAt(a) in held && a in live && vms.storage !in arrays
    {
      assert BitsFit(a);
    }

    /** The part of `slab_cache_alloc` that gets a new slab; its first object is taken. */
    method Grow(vms: Buddy, ghost held: set<Chunk>) returns (ok: bool, addr: nat)
      requires Valid() && Region(vms, held)
      modifies this`first, this`slabs, this`list, this`live, this`repr, this`arrays
      modifies vms`bits, vms`free, vms.storage
      ensures ok <==> BuddyForest.HasBlock(old(vms.free), SLAB_LOG2 - BuddyForest.MIN_LOG2)
      ensures ok ==> Valid() && Region(vms, held + {SlabAt(addr)}) && addr == Addr(addr, 0, size) && 0 < NumObjs(size)
      ensures ok ==> TakenFrom(vms.start, old(vms.free), SlabAt(addr), vms.free)
      ensures !ok ==> vms.free == old(vms.free) && list == old(list) && live == old(live)
      ensures ok ==> addr !in old(live) && live == With(old(live), addr, 0) && Aligned(addr) && SlabAt(addr) !in held
      ensures ok ==> addr in slabs && list == [slabs[addr]] + old(list)
      ensures old(repr) <= repr && fresh(repr - old(repr)) && old(arrays) <= arrays && fresh(arrays - old(arrays))
    {
      hide Linked, SlabsFit, Held, TakenFrom, With, BuddyAllocator.Buddy.Valid, BuddyForest.HasBlock;
      SmallFits(size);
      ok, addr := TakeSlab(vms, held);
      if ok {
        assert addr in slabs ==> SlabAt(addr) in held;
        NewSlab(addr);
      }
    }

    /** `vmspace_alloc` of a slab. */
    method TakeSlab(vms: Buddy, ghost held: set<Chunk>) returns (ok: bool, addr: nat)
      requires Region(vms, held)
      modifies vms`bits, vms`free, vms.storage
      ensures ok <==> BuddyForest.HasBlock(old(vms.free), SLAB_LOG2 - BuddyForest.MIN_LOG2)
      ensures ok ==> Region(vms, held + {SlabAt(addr)}) && SlabAt(addr) !in held && Aligned(addr)
      ensures ok ==> TakenFrom(vms.start, old(vms.free), SlabAt(addr), vms.free)
      ensures !ok ==> vms.free == old(vms.free)
    {
      hide Held, Powers.Pow2, Powers.Log2RoundUp, BuddyAllocator.Buddy.Valid, BuddyForest.Pages;
      SlabPower();
      ghost var free := vms.free;
      vms.FreeBelow();
      var r;
      ghost var block;
      r, block := vms.Alloc(SLAB_SIZE);
      if !r.Block? {
        return false, 0;
      }
      ok, addr := true, r.addr;
      HeldTake(vms.start, vms.size, free, held, SLAB_SIZE, r, block, vms.free);
      SlabsAligned(vms.start, addr);
    }

    /** Marks an object of a slab that there is. */
    method Take(obj: nat, ghost a: nat, ghost idx: nat)
      requires Valid() && a in slabs && idx < NumObjs(size) && obj == Addr(a, idx, size)
      modifies this`live, arrays
      ensures Valid() && live == With(old(live), a, idx)
    {
      hide Linked, Bitmaps.BitsOf, BitmapSize, Aligned;
      assert BitsFit(a);
      Mark(obj, true, a, idx);
      live := With(live, a, idx);
      forall b | b in slabs
        ensures BitsFit(b)
      {
        assert old(BitsFit(b));
      }
    }

    ghost predicate SlabsFitBut(a: nat)
      requires size > 0
      reads this`slabs, this`live, this`repr, this`arrays, arrays
    {
      && (forall b | b in slabs :: slabs[b] in repr && slabs[b].bitmap in arrays)
      && (forall b | b in slabs && b != a :: BitsFit(b))
      && (forall b, c | b in slabs && c in slabs && b != c :: slabs[b].bitmap != slabs[c].bitmap)
      && (forall b | b in live :: b in slabs)
    }

    /** The first half of `slab_cache_free`. */
    method Unmark(obj: nat, ghost a: nat, ghost idx: nat) returns (unused: bool)
      requires 0 < size <= SLAB_SIZE / 2 && SlabsFit() && IsLive(live, a, idx) && obj == Addr(a, idx, size)
      modifies arrays
      ensures SlabsFitBut(a) && a in slabs && Bitmaps.BitsOf(slabs[a].bitmap[..]) == live[a] - {idx}
      ensures slabs[a].addr == a && Aligned(a) && slabs[a].bitmap.Length == BitmapSize(size)
      ensures Below(live[a], NumObjs(size))
      ensures (unused <==> live[a] == {idx}) && (unused <==> live[a] - {idx} == {})
    {
      assert BitsFit(a);
      ObjectInSlab(a, idx, size);
      Mark(obj, false, a, idx);
      unused := AllUnused(slabs[Start(obj)].bitmap, NumObjs(size));
      assert live[a] - {idx} == {} <==> live[a] == {idx};
      forall b | b in slabs && b != a
        ensures BitsFit(b)
      {
        assert old(BitsFit(b));
      }
    }

    /** Takes a slab out of the list: the rest of the list is dropped with it if it is the first. Looking for a slab
        that is not listed runs past the end of the list through a null pointer, for which `ok` is false: what it finds
        there is not part of this model. */
    method Unlist(slab: Slab) returns (ok: bool)
      requires Linked() && list != []
      modifies this`first, this`list, repr`next
      ensures ok <==> slab in old(list)
      ensures ok ==> Linked() && list == if old(list)[0] == slab then [] else Without(old(list), slab)
      ensures !ok ==> list == old(list)
    {
      var f2 := first;
      if f2 == slab {
        first := null;
        list := [];
        return true;
      }
      ghost var k := 0;
      while f2.next != slab
        invariant k < |list| && f2 == list[k] && slab !in list[..k + 1]
        decreases |list| - k
      {
        assert LinkOf(k);
        if f2.next == null {
          return false;
        }
        f2 := f2.next;
        k := k + 1;
      }
      assert LinkOf(k);
      WithoutAt(list, k + 1);
      Bypass(f2, slab, k);
      ok := true;
    }

    method Bypass(f2: Slab, slab: Slab, ghost k: nat)
      requires Linked() && k + 1 < |list| && f2 == list[k] && slab == list[k + 1]
      modifies this`list, repr`next
      ensures Linked() && list == old(list[..k + 1] + list[k + 2..])
    {
      assert LinkOf(k) && LinkOf(k + 1);
      ghost var before := list;
      f2.next := slab.next;
      list := before[..k + 1] + before[k + 2..];
      forall i | 0 <= i < |list|
        ensures LinkOf(i)
      {
        ghost var j := if i <= k then i else i + 1;
        assert list[i] == before[j] && old(LinkOf(j));
      }
    }

    /** Freeing object `idx` of the slab at `a` gives the slab back. */
    ghost predicate Last(a: nat, idx: nat)
      reads this`live
    {
      a in live && live[a] == {idx}
    }

    /** `slab_cache_free` gets by without a failed assertion and without running past the end of the list. */
    ghost predicate CanFree(a: nat, idx: nat)
      reads this`list, this`live, this`slabs
    {
      list != [] && (Last(a, idx) ==> a in slabs && slabs[a] in list)
    }

    /** `slab_cache_free` of a live object. */
    method Free(vms: Buddy, obj: nat, ghost a: nat, ghost idx: nat, ghost held: set<Chunk>) returns (ok: bool)
      requires Valid() && Region(vms, held) && IsLive(live, a, idx) && obj == Addr(a, idx, size)
      modifies this`first, this`slabs, this`list, this`live, repr`next, arrays, vms`bits, vms`free, vms.storage
      ensures ok <==> old(CanFree(a, idx))
      ensures !ok ==> list == old(list) && live == old(live) && slabs == old(slabs)
      ensures ok ==> Valid()
      ensures ok && !old(Last(a, idx)) ==> live == old(live)[a := old(live)[a] - {idx}] && list == old(list)
      ensures ok && !old(Last(a, idx)) ==> Region(vms, held) && vms.free == old(vms.free)
      ensures ok && old(Last(a, idx)) ==> live == old(live) - {a} && Region(vms, held - {SlabAt(a)})
      ensures ok && old(Last(a, idx)) ==> vms.start <= a && vms.free == old(vms.free + PagesOf(vms.start, SlabAt(a)))
      ensures ok && old(Last(a, idx)) ==>
                list == if old(list)[0] == old(slabs)[a] then [] else Without(old(list), old(slabs)[a])
    {
      hide Held, Linked, BuddyAllocator.Buddy.Valid, SlabsFitBut, Bitmaps.BitsOf;
      var f := SlabOf(obj, a, idx);
      if first == null {
        assert list == [] by { EmptyList(); }
        return false;
      }
      assert list != [] by { EmptyList(); }
      var unused := Unmark(obj, a, idx);
      if unused {
        ok := GiveBack(vms, f, held);
      } else {
        Keep(a, idx);
        ok := true;
      }
    }

    lemma EmptyList()
      requires Linked()
      ensures list == [] <==> first == null
    {
    }

    /** The slab that an object lies in. */
    method SlabOf(obj: nat, ghost a: nat, ghost idx: nat) returns (f: Slab)
      requires Valid() && IsLive(live, a, idx) && obj == Addr(a, idx, size)
      ensures a in slabs && f == slabs[a] && f.addr == a
    {
      assert BitsFit(a);
      ObjectInSlab(a, idx, size);
      f := slabs[Start(obj)];
    }

    /** The last part of `slab_cache_free`: the slab leaves the list and goes back to the virtual region. */
    method GiveBack(vms: Buddy, f: Slab, ghost held: set<Chunk>) returns (ok: bool)
      requires 0 < size <= SLAB_SIZE / 2 && Linked() && list != [] && SlabsFitBut(f.addr) && Region(vms, held)
      requires f.addr in slabs && slabs[f.addr] == f
      modifies this`first, this`slabs, this`list, this`live, repr`next, vms`bits, vms`free, vms.storage
      ensures ok <==> f in old(list)
      ensures !ok ==> list == old(list) && live == old(live) && slabs == old(slabs)
      ensures ok ==> Valid() && live == old(live) - {f.addr} && Region(vms, held - {SlabAt(f.addr)})
      ensures ok ==> vms.start <= f.addr && InRegion(vms.start, SlabAt(f.addr))
      ensures ok ==> vms.free == old(vms.free) + PagesOf(vms.start, SlabAt(f.addr))
      ensures ok ==> list == if old(list)[0] == f then [] else Without(old(list), f)
    {
      hide Held, Linked, BuddyAllocator.Buddy.Valid, SlabsFitBut, SlabsFit;
      assert SlabAt(f.addr) in held && OnceEach(list) by { LinkedOnce(); }
      ghost var before := list;
      ok := Unlist(f);
      if ok {
        WithoutHas(before, f);
        Forget(f.addr);
        ReturnSlab(vms, f.addr, held);
      }
    }

    lemma LinkedOnce()
      requires Linked()
      ensures OnceEach(list)
    {
    }

    /** A slab that is not listed any more is gone. */
    method Forget(a: nat)
      requires 0 < size <= SLAB_SIZE / 2 && Linked() && SlabsFitBut(a) && a in slabs && slabs[a] !in list
      requires slabs[a].addr == a
      modifies this`slabs, this`live
      ensures Valid() && slabs == old(slabs) - {a} && live == old(live) - {a}
    {
      hide Bitmaps.BitsOf, BitmapSize, NumObjs, Below, Aligned;
      assert forall i | 0 <= i < |list| :: list[i].addr != a;
      slabs, live := slabs - {a}, live - {a};
      forall b | b in slabs ensures BitsFit(b) { assert old(BitsFit(b)); }
    }

    /** `vmspace_free` of a slab. */
    method ReturnSlab(vms: Buddy, a: nat, ghost held: set<Chunk>)
      requires Region(vms, held) && SlabAt(a) in held && a !in slabs
      modifies vms`bits, vms`free, vms.storage
      ensures vms.start <= a && InRegion(vms.start, SlabAt(a)) && Region(vms, held - {SlabAt(a)})
      ensures vms.free == old(vms.free) + PagesOf(vms.start, SlabAt(a))
    {
      SlabPower();
      HeldGive(vms.start, vms.size, vms.free, held, SlabAt(a));
      vms.Free(a, SLAB_SIZE);
    }

    ghost method Keep(a: nat, idx: nat)
      requires 0 < size <= SLAB_SIZE / 2 && Linked() && SlabsFitBut(a) && a in slabs && a in live
      requires live[a] - {idx} != {}
      requires slabs[a].addr == a && Aligned(a) && slabs[a].bitmap.Length == BitmapSize(size)
      requires Below(live[a], NumObjs(size))
      requires Bitmaps.BitsOf(slabs[a].bitmap[..]) == live[a] - {idx}
      modifies this`live
      ensures Valid() && live == old(live)[a := old(live)[a] - {idx}]
    {
      live := live[a := live[a] - {idx}];
      forall b | b in slabs ensures BitsFit(b) { assert b != a ==> old(BitsFit(b)); }
    }
  }

  /** The list without one slab. */
  function Without(list: seq<Slab>, slab: Slab): seq<Slab> {
    if list == [] then [] else if list[0] == slab then list[1..] else [list[0]] + Without(list[1..], slab)
  }

  lemma {:induction false} WithoutAt(list: seq<Slab>, k: nat)
    requires k < |list| && forall i | 0 <= i < k :: list[i] != list[k]
    ensures Without(list, list[k]) == list[..k] + list[k + 1..]
  {
    if k > 0 {
      WithoutAt(list[1..], k - 1);
      assert list[1..][..k - 1] == list[1..k];
    }
  }

  ghost predicate OnceEach(list: seq<Slab>) {
    forall i, j | 0 <= i < j < |list| :: list[i] != list[j]
  }

  lemma {:induction false} WithoutHas(list: seq<Slab>, slab: Slab)
    requires OnceEach(list)
    ensures forall s :: s in Without(list, slab) <==> s in list && s != slab
  {
    if list != [] && list[0] != slab { WithoutHas(list[1..], slab); }
  }

  /** While every slab is listed, giving one back keeps it so, unless it is the first of several: then the others are
      lost. */
  lemma FirstLosesRest(slabs: map<nat, Slab>, list: seq<Slab>, a: nat)
    requires list != [] && a in slabs && forall b | b in slabs :: slabs[b] in list && slabs[b].addr == b
    requires forall i | 0 <= i < |list| :: list[i].addr in slabs && slabs[list[i].addr] == list[i]
    requires OnceEach(list)
    ensures var list' := if list[0] == slabs[a] then [] else Without(list, slabs[a]);
            (forall b | b in slabs && b != a :: slabs[b] in list') <==> list[0] != slabs[a] || |list| == 1
  {
    WithoutHas(list, slabs[a]);
    if list[0] == slabs[a] {
      if |list| > 1 { assert list[1].addr != a; }
    } else {
      assert forall b | b in slabs && b != a :: slabs[b] != slabs[a];
    }
  }
}
