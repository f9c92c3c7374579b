/** The byte-level bitmap of src/adt/bitmap.c, refined to a set of bit numbers. */
module Bitmaps {
  import opened Options

  /** `1 << bit` as a byte. */
  function Mask(bit: nat): bv8
    requires bit < 8
  {
    match bit
    case 0 => 1 case 1 => 2 case 2 => 4 case 3 => 8
    case 4 => 16 case 5 => 32 case 6 => 64 case _ => 128
  }

  predicate TestBit(b: bv8, bit: nat)
    requires bit < 8
  {
    b & Mask(bit) != 0
  }

  /** The set of bit numbers that a run of bytes stands for: bit `i` lives in byte `i / 8`. */
  ghost function BitsOf(bytes: seq<bv8>): (r: set<nat>)
  {
    set i: nat | i < 8 * |bytes| && TestBit(bytes[i / 8], i % 8)
  }

  lemma SetBitEffect(b: bv8, bit: nat, j: nat)
    requires bit < 8 && j < 8
    ensures TestBit(b | Mask(bit), j) <==> j == bit || TestBit(b, j)
  {
  }

  lemma ClearBitEffect(b: bv8, bit: nat, j: nat)
    requires bit < 8 && j < 8
    ensures TestBit(b & !Mask(bit), j) <==> j != bit && TestBit(b, j)
  {
  }

  /** `b` shifted right one place, `n` times over. */
  ghost function Shifted(b: bv8, n: nat): bv8 {
    if n == 0 then b else Shifted(b, n - 1) >> 1
  }

  lemma ShiftedLowBit(b: bv8, n: nat)
    requires n < 8
    ensures Shifted(b, n) & 1 != 0 <==> TestBit(b, n)
  {
    assert Shifted(b, 1) == b >> 1;
    assert Shifted(b, 2) == b >> 2;
    assert Shifted(b, 3) == b >> 3;
    assert Shifted(b, 4) == b >> 4;
    assert Shifted(b, 5) == b >> 5;
    assert Shifted(b, 6) == b >> 6;
    assert Shifted(b, 7) == b >> 7;
  }

  lemma NonzeroByte(b: bv8) returns (j: nat)
    requires b != 0
    ensures j < 8 && TestBit(b, j)
  {
    j := if TestBit(b, 0) then 0 else if TestBit(b, 1) then 1 else if TestBit(b, 2) then 2 else if TestBit(b, 3) then 3
         else if TestBit(b, 4) then 4 else if TestBit(b, 5) then 5 else if TestBit(b, 6) then 6 else 7;
  }

  /** Setting one bit of one byte adds exactly that number to the set. */
  lemma {:induction false} SetInBytes(bytes: seq<bv8>, idx: nat)
    requires idx < 8 * |bytes|
    ensures BitsOf(bytes[idx / 8 := bytes[idx / 8] | Mask(idx % 8)]) == BitsOf(bytes) + {idx}
  {
    var after := bytes[idx / 8 := bytes[idx / 8] | Mask(idx % 8)];
    forall i: nat | i < 8 * |bytes|
      ensures i in BitsOf(after) <==> i == idx || i in BitsOf(bytes)
    {
      if i / 8 == idx / 8 { SetBitEffect(bytes[idx / 8], idx % 8, i % 8); }
    }
  }

  /** Clearing one bit of one byte removes exactly that number from the set. */
  lemma {:induction false} ClearInBytes(bytes: seq<bv8>, idx: nat)
    requires idx < 8 * |bytes|
    ensures BitsOf(bytes[idx / 8 := bytes[idx / 8] & !Mask(idx % 8)]) == BitsOf(bytes) - {idx}
  {
    var after := bytes[idx / 8 := bytes[idx / 8] & !Mask(idx % 8)];
    forall i: nat | i < 8 * |bytes|
      ensures i in BitsOf(after) <==> i != idx && i in BitsOf(bytes)
    {
      if i / 8 == idx / 8 { ClearBitEffect(bytes[idx / 8], idx % 8, i % 8); }
    }
  }

  /** Index of the least significant set bit; the source leaves a zero byte undefined. */
  method LsbSet(byte: bv8) returns (i: nat)
    requires byte != 0
    ensures i < 8 && TestBit(byte, i)
    ensures forall j: nat | j < i :: !TestBit(byte, j)
  {
    i := 0;
    var b := byte;
    ghost var k := NonzeroByte(byte);
    while b & 1 == 0
      invariant i <= k && b == Shifted(byte, i)
      invariant forall j: nat | j < i :: !TestBit(byte, j)
      decreases k - i
    {
      ShiftedLowBit(byte, i);
      i := i + 1;
      b := b >> 1;
    }
    ShiftedLowBit(byte, i);
  }

  /** Two contents of the same storage that differ at most in bytes `lo` to `hi`. */
  ghost predicate SameOutside(before: seq<bv8>, after: seq<bv8>, lo: int, hi: int) {
    |before| == |after| && forall j | 0 <= j < |before| && !(lo <= j < hi) :: after[j] == before[j]
  }

  /** The bytes a bitmap of `maxExtent` bits occupies. */
  function ByteCount(maxExtent: nat): nat {
    maxExtent / 8 + 1
  }

  /** A `bitmap_t`: a pointer into storage that may be shared with other bitmaps, and a bit count.
      The two fields never change after initialisation; the bytes pointed at do. */
  datatype Bitmap = Bitmap(data: array<bv8>, base: nat, maxExtent: nat) {

    function Length(): nat {
      ByteCount(maxExtent)
    }

    ghost predicate Fits() {
      base + Length() <= data.Length
    }

    /** This bitmap's own bytes, in given contents of the storage. */
    ghost function BytesIn(contents: seq<bv8>): seq<bv8>
      requires base + Length() <= |contents|
    {
      contents[base..base + Length()]
    }

    ghost function Bytes(): seq<bv8>
      requires Fits()
      reads data
    {
      BytesIn(data[..])
    }

    ghost function Bits(): set<nat>
      requires Fits()
      reads data
    {
      BitsOf(Bytes())
    }

    method Store(byte: nat, b: bv8)
      requires Fits() && byte < Length()
      modifies data
      ensures Bytes() == old(Bytes())[byte := b]
      ensures SameOutside(old(data[..]), data[..], base, base + Length())
    {
      data[base + byte] := b;
    }

    method Set(idx: nat)
      requires Fits() && idx <= maxExtent
      modifies data
      ensures Bits() == old(Bits()) + {idx}
      ensures SameOutside(old(data[..]), data[..], base, base + Length())
    {
      SetInBytes(Bytes(), idx);
      Store(idx / 8, data[base + idx / 8] | Mask(idx % 8));
    }

    method Clear(idx: nat)
      requires Fits() && idx <= maxExtent
      modifies data
      ensures Bits() == old(Bits()) - {idx}
      ensures SameOutside(old(data[..]), data[..], base, base + Length())
    {
      ClearInBytes(Bytes(), idx);
      Store(idx / 8, data[base + idx / 8] & !Mask(idx % 8));
    }

    method IsSet(idx: nat) returns (r: bool)
      requires Fits() && idx <= maxExtent
      ensures r <==> idx in Bits()
    {
      r := data[base + idx / 8] & Mask(idx % 8) != 0;
    }

    /** The least set bit, searched byte by byte. A bit numbered `maxExtent` itself is accepted, later ones are not. */
    method FirstSet() returns (r: Option<nat>)
      requires Fits()
      ensures r.None? ==> forall i | i in Bits() :: i > maxExtent
      ensures r.Some? ==> r.value in Bits() && r.value <= maxExtent
      ensures r.Some? ==> forall i | i in Bits() :: r.value <= i
    {
      var i := 0;
      while i < maxExtent / 8 + 1
        invariant 0 <= i <= Length()
        invariant forall j | j in Bits() :: j >= 8 * i
      {
        if data[base + i] != 0 {
          var l := LsbSet(data[base + i]);
          var idx := i * 8 + l;
          assert idx / 8 == i && idx % 8 == l;
          assert forall j | j in Bits() && j / 8 == i :: j % 8 >= l;
          return if idx > maxExtent then None else Some(idx);
        }
        assert forall j | j in Bits() :: j / 8 != i;
        i := i + 1;
      }
      r := None;
    }
  }

  /** `bitmap_init`: takes `maxExtent / 8 + 1` bytes of storage and zeroes exactly those. */
  method BitmapInit(storage: array<bv8>, base: nat, maxExtent: nat) returns (b: Bitmap)
    requires base + ByteCount(maxExtent) <= storage.Length
    modifies storage
    ensures b == Bitmap(storage, base, maxExtent) && b.Bits() == {}
    ensures SameOutside(old(storage[..]), storage[..], base, base + ByteCount(maxExtent))
  {
    b := Bitmap(storage, base, maxExtent);
    var i := 0;
    while i < maxExtent / 8 + 1
      invariant 0 <= i <= ByteCount(maxExtent)
      invariant forall j | base <= j < base + i :: storage[j] == 0
      invariant forall j | 0 <= j < storage.Length && !(base <= j < base + i) :: storage[j] == old(storage[j])
    {
      storage[base + i] := 0;
      i := i + 1;
    }
    assert forall k | 0 <= k < 8 * ByteCount(maxExtent) :: storage[base..base + i][k / 8] == 0;
  }
}
