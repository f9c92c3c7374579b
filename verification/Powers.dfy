/** Powers of two and the rounded-up base-2 logarithm of src/include/math.h. */
module Powers {

  function Min(a: nat, b: nat): nat { if a < b then a else b }

  function Pow2(k: nat): (r: nat)
    ensures r >= 1
  {
    if k == 0 then 1 else 2 * Pow2(k - 1)
  }

  lemma {:induction false} Pow2Add(a: nat, b: nat)
    ensures Pow2(a + b) == Pow2(a) * Pow2(b)
  {
    if a > 0 {
      Pow2Add(a - 1, b);
      assert Pow2(a + b) == 2 * Pow2(a - 1 + b);
    }
  }

  lemma {:induction false} Pow2Increasing(a: nat, b: nat)
    requires a < b
    ensures Pow2(a) < Pow2(b)
  {
    if a + 1 < b { Pow2Increasing(a, b - 1); }
  }

  /** The values of the powers the kernel names by number. */
  lemma Pow2Values()
    ensures Pow2(3) == 8 && Pow2(9) == 512 && Pow2(12) == 4096 && Pow2(16) == 65536
    ensures Pow2(28) == 0x1000_0000 && Pow2(31) == 0x8000_0000 && Pow2(32) == 0x1_0000_0000
  {
    assert Pow2(4) == 16 && Pow2(8) == 256;
    Pow2Add(4, 4); Pow2Add(8, 1); Pow2Add(8, 4); Pow2Add(8, 8); Pow2Add(16, 12); Pow2Add(28, 3); Pow2Add(16, 16);
  }

  /** `x >> n`. */
  function Shr(x: nat, n: nat): nat {
    if n == 0 then x else Shr(x, n - 1) / 2
  }

  /** `x << n`. */
  function Shl(x: nat, n: nat): nat
    decreases n
  {
    if n == 0 then x else Shl(2 * x, n - 1)
  }

  lemma HalfOfProduct(q: nat, h: nat)
    ensures (q / 2) * (2 * h) <= q * h && q * h + h <= (q / 2) * (2 * h) + 2 * h
  {
    var m := q / 2;
    assert m * (2 * h) == 2 * (m * h);
    if q == 2 * m {
      assert q * h == 2 * (m * h);
    } else {
      assert q == 2 * m + 1;
      assert q * h == 2 * (m * h) + h;
    }
  }

  lemma {:induction false} ShrBounds(x: nat, n: nat)
    ensures Shr(x, n) * Pow2(n) <= x < Shr(x, n) * Pow2(n) + Pow2(n)
  {
    if n > 0 {
      ShrBounds(x, n - 1);
      var q, h := Shr(x, n - 1), Pow2(n - 1);
      HalfOfProduct(q, h);
    }
  }

  lemma {:induction false} ShlIsTimes(x: nat, n: nat)
    ensures Shl(x, n) == x * Pow2(n)
    decreases n
  {
    if n > 0 {
      ShlIsTimes(2 * x, n - 1);
      assert (2 * x) * Pow2(n - 1) == x * (2 * Pow2(n - 1));
    }
  }

  lemma CancelLess(a: int, b: int, d: nat)
    requires a * d < b * d
    ensures a < b
  {
    assert (b - a) * d > 0;
  }

  lemma ShrAtLeast(x: nat, n: nat, q: nat)
    requires q * Pow2(n) <= x
    ensures q <= Shr(x, n)
  {
    ShrBounds(x, n);
    assert (Shr(x, n) + 1) * Pow2(n) == Shr(x, n) * Pow2(n) + Pow2(n);
    CancelLess(q, Shr(x, n) + 1, Pow2(n));
  }

  lemma {:induction false} ShrMonotone(x: nat, y: nat, n: nat)
    requires x <= y
    ensures Shr(x, n) <= Shr(y, n)
  {
    if n > 0 { ShrMonotone(x, y, n - 1); }
  }

  lemma ShrUnique(x: nat, n: nat, q: nat)
    requires q * Pow2(n) <= x < q * Pow2(n) + Pow2(n)
    ensures Shr(x, n) == q
  {
    ShrAtLeast(x, n, q);
    ShrBounds(x, n);
    assert (q + 1) * Pow2(n) == q * Pow2(n) + Pow2(n);
    CancelLess(Shr(x, n), q + 1, Pow2(n));
  }

  lemma ShrOfShl(x: nat, n: nat)
    ensures Shr(Shl(x, n), n) == x
  {
    ShlIsTimes(x, n);
    ShrUnique(Shl(x, n), n, x);
  }

  lemma {:induction false} ShlAdd(x: nat, m: nat, n: nat)
    ensures Shl(x, m + n) == Shl(Shl(x, m), n)
    decreases m
  {
    if m > 0 { ShlAdd(2 * x, m - 1, n); }
  }

  /** `addr & ~(~0 << n) == 0`: the low `n` bits are clear. */
  predicate AlignedFor(addr: nat, n: nat) {
    Shl(Shr(addr, n), n) == addr
  }

  lemma MultiplesAligned(q: nat, n: nat)
    ensures AlignedFor(q * Pow2(n), n)
  {
    ShrUnique(q * Pow2(n), n, q);
    ShlIsTimes(q, n);
  }

  lemma {:induction false} ShrStep(x: nat, n: nat)
    ensures Shr(x, n + 1) == Shr(x / 2, n)
  {
    if n > 0 { ShrStep(x, n - 1); }
  }

  lemma {:induction false} ShrShr(x: nat, m: nat, n: nat)
    ensures Shr(Shr(x, m), n) == Shr(x, m + n)
  {
    if n > 0 { ShrShr(x, m, n - 1); }
  }

  /** `31 - __builtin_clz(n)`: the position of the highest set bit. */
  function FloorLog2(n: nat): (l: nat)
    requires n > 0
    ensures Pow2(l) <= n < 2 * Pow2(l)
  {
    if n == 1 then 0 else 1 + FloorLog2(n / 2)
  }

  /** The order of the smallest power of two that is at least `n`. */
  function Log2RoundUp(n: nat): (l: nat)
    requires n > 0
    ensures n <= Pow2(l) && (l > 0 ==> Pow2(l - 1) < n)
  {
    var l2 := FloorLog2(n);
    if n == Pow2(l2) then l2 else l2 + 1
  }

  lemma Log2RoundUpUnique(n: nat, l: nat)
    requires n > 0 && n <= Pow2(l) && (l > 0 ==> Pow2(l - 1) < n)
    ensures Log2RoundUp(n) == l
  {
    var m := Log2RoundUp(n);
    if m < l {
      if m < l - 1 { Pow2Increasing(m, l - 1); }
    } else if l < m {
      if l < m - 1 { Pow2Increasing(l, m - 1); }
    }
  }

  /** Rounding a power of two up does nothing. */
  lemma Log2RoundUpExact(k: nat)
    ensures Log2RoundUp(Pow2(k)) == k
  {
    Log2RoundUpUnique(Pow2(k), k);
  }

  /** A block of the rounded-up order is the smallest block that holds the request. */
  lemma Log2RoundUpLeast(n: nat, k: nat)
    requires n > 0
    ensures n <= Pow2(k) <==> Log2RoundUp(n) <= k
  {
    var l := Log2RoundUp(n);
    if l < k { Pow2Increasing(l, k); }
    if k < l && k < l - 1 { Pow2Increasing(k, l - 1); }
  }
}
