/** How src/slab.c divides a slab of 8KB into objects, a bitmap and a footer. */
module SlabLayout {
  import opened Powers

  const SLAB_SIZE: nat := 0x2000
  const SLAB_LOG2: nat := 13
  const FOOTER_SIZE: nat := 4
  const UNSIGNED: int := 0x1_0000_0000

  /** `size * idx`: where object `idx` of a slab starts. */
  function Offset(idx: nat, size: nat): nat {
    if idx == 0 then 0 else Offset(idx - 1, size) + size
  }

  lemma {:induction false} OffsetIs(idx: nat, size: nat)
    ensures Offset(idx, size) == size * idx
  {
    if idx > 0 {
      OffsetIs(idx - 1, size);
      assert size * idx == size * (idx - 1) + size;
    }
  }

  lemma {:induction false} OffsetAdd(a: nat, b: nat, size: nat)
    ensures Offset(a + b, size) == Offset(a, size) + Offset(b, size)
  {
    if b > 0 { OffsetAdd(a, b - 1, size); }
  }

  lemma {:induction false} OffsetMonotone(a: nat, size: nat, size': nat)
    requires size <= size'
    ensures Offset(a, size) <= Offset(a, size')
  {
    if a > 0 { OffsetMonotone(a - 1, size, size'); }
  }

  lemma NextOffset(a: nat, size: nat)
    ensures Offset(a + 1, size) == Offset(a, size) + size
  {
  }

  lemma OffsetUp(a: nat, b: nat, size: nat)
    requires a <= b
    ensures Offset(a, size) <= Offset(b, size)
  {
    OffsetAdd(a, b - a, size);
  }

  lemma OffsetLess(a: nat, b: nat, size: nat)
    requires Offset(a, size) < Offset(b, size)
    ensures a < b
  {
    if b <= a { OffsetUp(b, a, size); }
  }

  lemma Quotient(x: nat, size: nat)
    requires size > 0
    ensures Offset(x / size, size) <= x < Offset(x / size, size) + size
  {
    OffsetIs(x / size, size);
    assert x == size * (x / size) + x % size;
  }

  lemma QuotientUnique(x: nat, size: nat, q: nat)
    requires size > 0 && Offset(q, size) <= x < Offset(q + 1, size)
    ensures x / size == q
  {
    Quotient(x, size);
    OffsetLess(x / size, q + 1, size);
    OffsetLess(q, x / size + 1, size);
  }

  /** `BITMAP_SIZE`. */
  function BitmapSize(size: nat): nat
    requires size > 0
  {
    SLAB_SIZE / size / 8 + 1
  }

  /** `num_objs_per_slab`, in unsigned arithmetic. */
  function NumObjs(size: nat): nat
    requires size > 0
  {
    (SLAB_SIZE / size - (BitmapSize(size) + FOOTER_SIZE) / size - 1) % UNSIGNED
  }

  /** There is an object, and all of them leave room for the bitmap and the footer and have a bit each. */
  predicate Fits(size: nat)
    requires size > 0
  {
    && NumObjs(size) >= 1 && Offset(NumObjs(size), size) + BitmapSize(size) + FOOTER_SIZE <= SLAB_SIZE
    && NumObjs(size) <= 8 * BitmapSize(size)
  }

  lemma SmallOverhead(n: nat, m: nat, size: nat)
    requires n >= 2 && size > 0 && Offset(m, size) <= n / 8 + 1 + FOOTER_SIZE && SLAB_SIZE < Offset(n + 1, size)
    ensures m + 1 < n
  {
    if size >= 6 {
      OffsetMonotone(n - 1, 6, size);
      OffsetIs(n - 1, 6);
    } else {
      OffsetMonotone(n + 1, size, 5);
      OffsetIs(n + 1, 5);
      OffsetMonotone(n - 1, 1, size);
      OffsetIs(n - 1, 1);
    }
    OffsetLess(m, n - 1, size);
  }

  lemma RoomFor(n: nat, m: nat, size: nat)
    requires 0 < size <= SLAB_SIZE / 2 && Offset(n, size) <= SLAB_SIZE < Offset(n + 1, size)
    requires Offset(m, size) <= n / 8 + 1 + FOOTER_SIZE < Offset(m + 1, size)
    ensures n - m - 1 > 0 && Offset(n - m - 1, size) + n / 8 + 1 + FOOTER_SIZE <= SLAB_SIZE
  {
    assert Offset(2, size) == Offset(1, size) + size == 2 * size;
    OffsetLess(2, n + 1, size);
    SmallOverhead(n, m, size);
    OffsetAdd(n - m - 1, m + 1, size);
  }

  lemma QuotientBound(x: nat, size: nat)
    requires size > 0
    ensures x / size <= x
  {
    Quotient(x, size);
    OffsetMonotone(x / size, 1, size);
    OffsetIs(x / size, 1);
  }

  /** A quotient as the count of whole objects. */
  lemma Whole(x: nat, size: nat) returns (q: nat)
    requires size > 0
    ensures q == x / size && q <= x && Offset(q, size) <= x < Offset(q + 1, size)
  {
    q := x / size;
    Quotient(x, size);
    QuotientBound(x, size);
    NextOffset(q, size);
  }

  lemma SmallFits(size: nat)
    requires 0 < size <= SLAB_SIZE / 2
    ensures Fits(size)
  {
    hide Offset, NumObjs, BitmapSize, Fits;
    var n := Whole(SLAB_SIZE, size);
    var m := Whole(BitmapSize(size) + FOOTER_SIZE, size);
    BitmapIs(size, n);
    RoomFor(n, m, size);
    FitsAs(size, n, m);
  }

  lemma BitmapIs(size: nat, n: nat)
    requires size > 0 && n == SLAB_SIZE / size
    ensures BitmapSize(size) == n / 8 + 1
  {
  }

  lemma FitsAs(size: nat, n: nat, m: nat)
    requires size > 0 && n == SLAB_SIZE / size <= SLAB_SIZE && m == (BitmapSize(size) + FOOTER_SIZE) / size
    requires n - m - 1 > 0 && Offset(n - m - 1, size) + n / 8 + 1 + FOOTER_SIZE <= SLAB_SIZE
    ensures Fits(size)
  {
    hide Offset;
    BitmapIs(size, n);
    assert NumObjs(size) == n - m - 1;
  }

  /** One more object would fit exactly if what does not divide evenly is no more for the bitmap and the footer than
      for the slab; two more never would. */
  lemma RoomLeft(size: nat)
    requires 0 < size <= SLAB_SIZE / 2
    ensures Offset(NumObjs(size) + 1, size) + BitmapSize(size) + FOOTER_SIZE <= SLAB_SIZE
       <==> (BitmapSize(size) + FOOTER_SIZE) % size <= SLAB_SIZE % size
    ensures Offset(NumObjs(size) + 2, size) + BitmapSize(size) + FOOTER_SIZE > SLAB_SIZE
  {
    hide Offset, NumObjs, BitmapSize, Fits;
    var o := BitmapSize(size) + FOOTER_SIZE;
    var n := Whole(SLAB_SIZE, size);
    var m := Whole(o, size);
    BitmapIs(size, n);
    RoomFor(n, m, size);
    CountIs(size, n, m);
    OffsetAdd(n - m, m, size);
    NextOffset(n - m, size);
    Rest(SLAB_SIZE, size);
    Rest(o, size);
  }

  lemma Rest(x: nat, size: nat)
    requires size > 0
    ensures x == Offset(x / size, size) + x % size && x % size < size
  {
    OffsetIs(x / size, size);
  }

  lemma CountIs(size: nat, n: nat, m: nat)
    requires size > 0 && n == SLAB_SIZE / size <= SLAB_SIZE && m == (BitmapSize(size) + FOOTER_SIZE) / size
    requires n - m - 1 > 0
    ensures NumObjs(size) == n - m - 1
  {
  }

  /** For the object sizes of the heap, and all other powers of two above one, the count is the largest that fits. */
  lemma CountIsLargest(l: nat)
    requires 1 <= l <= 12
    ensures 0 < Pow2(l) <= SLAB_SIZE / 2
    ensures Offset(NumObjs(Pow2(l)) + 1, Pow2(l)) + BitmapSize(Pow2(l)) + FOOTER_SIZE > SLAB_SIZE
  {
    hide Offset, NumObjs, BitmapSize;
    Pow2Small(l);
    RestMore(Pow2(l));
    RoomLeft(Pow2(l));
  }

  predicate SmallPower(size: nat) {
    || size == 2 || size == 4 || size == 8 || size == 16 || size == 32 || size == 64
    || size == 128 || size == 256 || size == 512 || size == 1024 || size == 2048 || size == 4096
  }

  lemma Pow2Small(l: nat)
    requires 1 <= l <= 12
    ensures SmallPower(Pow2(l)) && (l < 12 ==> Pow2(l) <= 2048)
    ensures Pow2(l) <= 2048 ==> SmallPower(2 * Pow2(l))
  {
    Pow2Values();
    if l > 1 {
      Pow2Small(l - 1);
      if l < 12 { Pow2Increasing(l, 12); }
    }
  }

  lemma RestMore(size: nat)
    requires SmallPower(size)
    ensures (BitmapSize(size) + FOOTER_SIZE) % size > SLAB_SIZE % size
  {
  }

  lemma LargeFails(size: nat)
    requires size > SLAB_SIZE / 2
    ensures !Fits(size)
  {
    var n, m := SLAB_SIZE / size, (BitmapSize(size) + FOOTER_SIZE) / size;
    QuotientUnique(BitmapSize(size) + FOOTER_SIZE, size, 0);
    if size <= SLAB_SIZE {
      assert Offset(2, size) == Offset(1, size) + size == 2 * size;
      QuotientUnique(SLAB_SIZE, size, 1);
    } else {
      QuotientUnique(SLAB_SIZE, size, 0);
      OffsetMonotone(UNSIGNED - 1, 1, size);
      OffsetIs(UNSIGNED - 1, 1);
    }
  }

  /** The layout is right exactly for objects of at most half a slab. (Larger ones get no object at all, or thousands of
      millions.) */
  lemma LayoutFits(size: nat)
    requires size > 0
    ensures Fits(size) <==> size <= SLAB_SIZE / 2
  {
    if size <= SLAB_SIZE / 2 { SmallFits(size); } else { LargeFails(size); }
  }

  /** The address of object `idx` of the slab at `slab`. */
  function Addr(slab: nat, idx: nat, size: nat): nat {
    slab + Offset(idx, size)
  }

  /** `START_FOR_PTR`. */
  function Start(addr: nat): nat {
    addr - addr % SLAB_SIZE
  }

  /** `BITMAP_IDX`. */
  function Index(addr: nat, size: nat): nat
    requires size > 0
  {
    (addr - Start(addr)) / size
  }

  predicate Aligned(slab: nat) {
    slab % SLAB_SIZE == 0
  }

  lemma OffsetInSlab(slab: nat, off: nat)
    requires Aligned(slab) && off < SLAB_SIZE
    ensures Start(slab + off) == slab
  {
  }

  /** An object lies between the start of its slab and the bitmap, and its address tells its slab and index. */
  lemma ObjectInSlab(slab: nat, idx: nat, size: nat)
    requires Aligned(slab) && 0 < size <= SLAB_SIZE / 2 && idx < NumObjs(size)
    ensures slab <= Addr(slab, idx, size)
    ensures Addr(slab, idx, size) + size <= slab + SLAB_SIZE - FOOTER_SIZE - BitmapSize(size)
    ensures Start(Addr(slab, idx, size)) == slab && Index(Addr(slab, idx, size), size) == idx
  {
    SmallFits(size);
    OffsetAdd(idx + 1, NumObjs(size) - idx - 1, size);
    OffsetInSlab(slab, Offset(idx, size));
    QuotientUnique(Offset(idx, size), size, idx);
  }

  lemma SlabsApart(a: nat, b: nat)
    requires Aligned(a) && Aligned(b) && a < b
    ensures a + SLAB_SIZE <= b
  {
  }

  /** Different objects share no byte, in one slab or in two. */
  lemma ObjectsApart(a: nat, i: nat, b: nat, j: nat, size: nat)
    requires Aligned(a) && Aligned(b) && 0 < size <= SLAB_SIZE / 2 && i < NumObjs(size) && j < NumObjs(size)
    requires a != b || i != j
    ensures Addr(a, i, size) + size <= Addr(b, j, size) || Addr(b, j, size) + size <= Addr(a, i, size)
  {
    ObjectInSlab(a, i, size);
    ObjectInSlab(b, j, size);
    if a == b {
      if i < j { OffsetAdd(i + 1, j - i - 1, size); } else { OffsetAdd(j + 1, i - j - 1, size); }
    } else if a < b {
      SlabsApart(a, b);
    } else {
      SlabsApart(b, a);
    }
  }

  lemma SlabPower()
    ensures Pow2(SLAB_LOG2) == SLAB_SIZE && Log2RoundUp(SLAB_SIZE) == SLAB_LOG2
  {
    Pow2Values();
    Pow2Add(12, 1);
    Log2RoundUpExact(SLAB_LOG2);
  }

  lemma StartAligned(start: nat)
    requires start % 0x1000_0000 == 0
    ensures start / SLAB_SIZE * SLAB_SIZE == start
  {
    assert start == start / 0x1000_0000 * 0x8000 * SLAB_SIZE;
  }

  lemma SumAligned(a: nat, b: nat)
    ensures Aligned(a * SLAB_SIZE + b * SLAB_SIZE)
  {
  }

  /** The mask works because a block is aligned relative to a region that starts at a multiple of 2^28. */
  lemma SlabsAligned(start: nat, addr: nat)
    requires start % 0x1000_0000 == 0 && start <= addr && AlignedFor(addr - start, SLAB_LOG2)
    ensures Aligned(addr)
  {
    hide Pow2, Shl, Shr, Log2RoundUp, Aligned;
    var i := Shr(addr - start, SLAB_LOG2);
    ShlIsTimes(i, SLAB_LOG2);
    SlabPower();
    StartAligned(start);
    SumAligned(start / SLAB_SIZE, i);
  }
}
