/** The data of a file of src/fs_vfat.c: the bytes of its clusters, one after the other, and what the copy loop of
    `write` does to them. Cluster `c` is row `c - 2` of the data area. */
module FatData {
  import opened FatChains

  type Row = seq<nat>

  /** What `find_free_cluster` returns if there is none. */
  const NO_CLUSTER: nat := 0xFFFF_FFFF

  predicate Square(rows: seq<Row>, size: nat) {
    forall i | 0 <= i < |rows| :: |rows[i]| == size
  }

  predicate Placed(rows: seq<Row>, cs: seq<nat>) {
    forall i | 0 <= i < |cs| :: 2 <= cs[i] < |rows| + 2
  }

  lemma PlacedAt(rows: seq<Row>, size: nat, cs: seq<nat>, k: nat)
    requires Square(rows, size) && Placed(rows, cs) && k < |cs|
    ensures 2 <= cs[k] < |rows| + 2 && |rows[cs[k] - 2]| == size
  {
  }

  /** The bytes of a file. */
  function Concat(rows: seq<Row>, cs: seq<nat>): Row
    requires Placed(rows, cs)
  {
    if cs == [] then [] else rows[cs[0] - 2] + Concat(rows, cs[1..])
  }

  /** Replaces the bytes of `s` from `o` on by `b`. */
  function Splice(s: Row, o: nat, b: Row): (t: Row)
    requires o + |b| <= |s|
    ensures |t| == |s|
  {
    if o == 0 then b + s[|b|..] else [s[0]] + Splice(s[1..], o - 1, b)
  }

  lemma {:induction false} SpliceIs(s: Row, o: nat, b: Row)
    requires o + |b| <= |s|
    ensures Splice(s, o, b) == s[..o] + b + s[o + |b|..]
  {
    if o > 0 {
      SpliceIs(s[1..], o - 1, b);
      assert s == [s[0]] + s[1..];
    }
  }

  /** A slice of a concatenation that lies in one part. */
  lemma SpliceParts(s: Row, t: Row, o: nat, b: Row)
    ensures o + |b| <= |s| ==> Splice(s + t, o, b) == Splice(s, o, b) + t
    ensures o >= |s| && o + |b| <= |s + t| ==> Splice(s + t, o, b) == s + Splice(t, o - |s|, b)
  {
    if o + |b| <= |s| {
      SpliceIs(s + t, o, b);
      SpliceIs(s, o, b);
    } else if o >= |s| && o + |b| <= |s + t| {
      SpliceIs(s + t, o, b);
      SpliceIs(t, o - |s|, b);
    }
  }

  /** Which cluster of a file an offset lies in, and where: the quotient and the remainder of the source's divisions. */
  function Quot(offset: nat, size: nat): nat
    requires size > 0
  {
    if offset < size then 0 else 1 + Quot(offset - size, size)
  }

  function Rem(offset: nat, size: nat): (r: nat)
    requires size > 0
    ensures r < size
  {
    if offset < size then offset else Rem(offset - size, size)
  }

  lemma {:induction false} QuotRem(offset: nat, size: nat)
    requires size > 0
    ensures offset / size == Quot(offset, size) && offset % size == Rem(offset, size)
  {
    if offset < size {
      DivUnique(offset, size, 0, offset);
    } else {
      QuotRem(offset - size, size);
      assert offset - size == ((offset - size) / size) * size + (offset - size) % size;
      DivUnique(offset, size, (offset - size) / size + 1, (offset - size) % size);
    }
  }

  lemma DivUnique(x: nat, size: nat, q: nat, r: nat)
    requires size > 0 && r < size && x == q * size + r
    ensures x / size == q && x % size == r
  {
    var d := x / size - q;
    assert x == (x / size) * size + x % size;
    assert d * size == r - x % size;
    assert d > 0 ==> d * size >= size;
    assert d < 0 ==> d * size + size <= 0;
  }

  /** A chunk that does not reach past the end of its cluster ends in it or at its end. */
  lemma {:induction false} QuotStep(offset: nat, n: nat, size: nat)
    requires size > 0 && n <= size - Rem(offset, size)
    ensures Quot(offset + n, size) == Quot(offset, size) + if n == size - Rem(offset, size) then 1 else 0
    ensures n == size - Rem(offset, size) ==> Rem(offset + n, size) == 0
  {
    if offset >= size {
      QuotStep(offset - size, n, size);
      assert offset + n - size == offset - size + n;
    }
  }

  /** The clusters when the loop comes to `offset`: `free`, the first free cluster, is added if it lies past the end. */
  function Extended(size: nat, free: nat, cs: seq<nat>, offset: nat): seq<nat>
    requires size > 0
  {
    if Quot(offset, size) >= |cs| then cs + [free] else cs
  }

  /** One round copies `n` bytes to cluster `k` of the file. */
  function CopyChunk(rows: seq<Row>, size: nat, cs: seq<nat>, offset: nat, chunk: Row): (rows': seq<Row>)
    requires size > 0 && Square(rows, size) && Placed(rows, cs) && Quot(offset, size) < |cs|
    requires Rem(offset, size) + |chunk| <= size
    ensures Square(rows', size) && |rows'| == |rows|
  {
    var c := cs[Quot(offset, size)];
    rows[c - 2 := Splice(rows[c - 2], Rem(offset, size), chunk)]
  }

  ghost predicate Untouched(rows: seq<Row>, rows': seq<Row>, cs: seq<nat>) {
    |rows'| == |rows| && forall r | 0 <= r < |rows| :: HasRow(cs, r) || rows'[r] == rows[r]
  }

  predicate HasRow(cs: seq<nat>, r: nat) {
    r + 2 in cs
  }

  lemma UntouchedTrans(rows: seq<Row>, rows1: seq<Row>, rows2: seq<Row>, cs: seq<nat>)
    requires Untouched(rows, rows1, cs) && Untouched(rows1, rows2, cs)
    ensures Untouched(rows, rows2, cs)
  {
  }

  lemma CopyUntouched(rows: seq<Row>, size: nat, cs: seq<nat>, offset: nat, chunk: Row, ds: seq<nat>)
    requires size > 0 && Square(rows, size) && Placed(rows, cs) && Quot(offset, size) < |cs|
    requires Rem(offset, size) + |chunk| <= size && cs <= ds
    ensures Untouched(rows, CopyChunk(rows, size, cs, offset, chunk), ds)
  {
    assert cs[Quot(offset, size)] == ds[Quot(offset, size)];
    assert HasRow(ds, cs[Quot(offset, size)] - 2);
  }

  lemma {:induction false} ConcatLength(rows: seq<Row>, size: nat, cs: seq<nat>)
    requires Placed(rows, cs) && Square(rows, size)
    ensures |Concat(rows, cs)| == |cs| * size
  {
    if cs != [] {
      ConcatLength(rows, size, cs[1..]);
      assert |cs| * size == size + (|cs| - 1) * size;
    }
  }

  lemma {:induction false} ConcatFrame(rows: seq<Row>, rows': seq<Row>, cs: seq<nat>)
    requires Placed(rows, cs) && |rows| == |rows'| && forall i | 0 <= i < |cs| :: rows'[cs[i] - 2] == rows[cs[i] - 2]
    ensures Concat(rows', cs) == Concat(rows, cs)
  {
    if cs != [] { ConcatFrame(rows, rows', cs[1..]); }
  }

  lemma DistinctTail(cs: seq<nat>, k: nat)
    requires Distinct(cs) && 0 < k < |cs|
    ensures Distinct(cs[1..]) && cs[k] != cs[0] && cs[1..][k - 1] == cs[k]
  {
  }

  /** Copying into one row is splicing into the file. */
  lemma {:induction false} CopySplices(rows: seq<Row>, size: nat, cs: seq<nat>, offset: nat, chunk: Row)
    requires size > 0 && Square(rows, size) && Placed(rows, cs) && Distinct(cs) && Quot(offset, size) < |cs|
    requires Rem(offset, size) + |chunk| <= size
    ensures offset + |chunk| <= |Concat(rows, cs)|
    ensures Concat(CopyChunk(rows, size, cs, offset, chunk), cs) == Splice(Concat(rows, cs), offset, chunk)
    decreases |cs|
  {
    hide Splice;
    var rows' := CopyChunk(rows, size, cs, offset, chunk);
    SpliceParts(rows[cs[0] - 2], Concat(rows, cs[1..]), offset, chunk);
    if offset < size {
      CopyKeepsTail(rows, rows', cs);
    } else {
      DistinctTail(cs, Quot(offset, size));
      CopySplices(rows, size, cs[1..], offset - size, chunk);
      assert rows' == CopyChunk(rows, size, cs[1..], offset - size, chunk);
    }
  }

  lemma CopyKeepsTail(rows: seq<Row>, rows': seq<Row>, cs: seq<nat>)
    requires cs != [] && Placed(rows, cs) && Distinct(cs) && |rows'| == |rows|
    requires forall r | 0 <= r < |rows| && r != cs[0] - 2 :: rows'[r] == rows[r]
    ensures Placed(rows', cs[1..]) && Concat(rows', cs[1..]) == Concat(rows, cs[1..])
  {
    ConcatFrame(rows, rows', cs[1..]);
  }

  lemma {:induction false} SpliceSplice(s: Row, o: nat, a: Row, b: Row)
    requires o + |a| + |b| <= |s|
    ensures Splice(Splice(s, o, a), o + |a|, b) == Splice(s, o, a + b)
  {
    var t := Splice(s, o, a);
    SpliceIs(s, o, a);
    SpliceIs(t, o + |a|, b);
    SpliceIs(s, o, a + b);
  }

  /** The file's bytes are as before, except for those from `offset` on, which are `done`. */
  ghost predicate IsSplice(rows: seq<Row>, rows': seq<Row>, cs: seq<nat>, offset: nat, done: Row) {
    && Placed(rows, cs) && Placed(rows', cs)
    && if done == [] then Concat(rows', cs) == Concat(rows, cs)
       else && offset + |done| <= |Concat(rows, cs)|
            && Concat(rows', cs) == Splice(Concat(rows, cs), offset, done)
  }

  lemma SpliceMore(rows: seq<Row>, rows1: seq<Row>, size: nat, cs: seq<nat>, offset: nat, done: Row, chunk: Row)
    requires size > 0 && Square(rows1, size) && Distinct(cs) && IsSplice(rows, rows1, cs, offset, done)
    requires Quot(offset + |done|, size) < |cs| && Rem(offset + |done|, size) + |chunk| <= size && chunk != []
    ensures IsSplice(rows, CopyChunk(rows1, size, cs, offset + |done|, chunk), cs, offset, done + chunk)
  {
    CopySplices(rows1, size, cs, offset + |done|, chunk);
    if done == [] {
      assert done + chunk == chunk;
    } else {
      SpliceSplice(Concat(rows, cs), offset, done, chunk);
    }
  }

  lemma PlacedTail(rows: seq<Row>, cs: seq<nat>)
    requires Placed(rows, cs) && cs != []
    ensures Placed(rows, cs[1..])
  {
  }

  lemma {:induction false} ConcatSnoc(rows: seq<Row>, cs: seq<nat>, c: nat)
    requires Placed(rows, cs) && 2 <= c < |rows| + 2 && Placed(rows, cs + [c])
    ensures Concat(rows, cs + [c]) == Concat(rows, cs) + rows[c - 2]
  {
    hide Placed;
    if cs == [] {
      assert cs + [c] == [c] && [c][1..] == [];
    } else {
      assert (cs + [c])[1..] == cs[1..] + [c];
      PlacedTail(rows, cs + [c]);
      PlacedTail(rows, cs);
      ConcatSnoc(rows, cs[1..], c);
    }
  }

  /** Adding a cluster that nothing was written to yet. */
  lemma SpliceGrown(rows: seq<Row>, rows1: seq<Row>, cs: seq<nat>, c: nat, offset: nat, done: Row)
    requires IsSplice(rows, rows1, cs, offset, done) && 2 <= c < |rows| + 2 && c < |rows1| + 2
    requires rows1[c - 2] == rows[c - 2]
    ensures IsSplice(rows, rows1, cs + [c], offset, done)
  {
    assert Placed(rows, cs + [c]) && Placed(rows1, cs + [c]);
    ConcatSnoc(rows, cs, c);
    ConcatSnoc(rows1, cs, c);
    if done != [] { SpliceParts(Concat(rows, cs), rows[c - 2], offset, done); }
  }

  // ---------- every byte of the data area, also when a cluster occurs more than once in a file

  /** Byte `o` of the file with the clusters `cs` is byte `j` of row `r`. */
  predicate Falls(size: nat, cs: seq<nat>, o: nat, r: nat, j: nat)
    requires size > 0
  {
    Quot(o, size) < |cs| && cs[Quot(o, size)] == r + 2 && Rem(o, size) == j
  }

  /** What byte `j` of row `r`, which was `was`, comes to when `done` is written from `offset` on: the last byte that
      falls there. */
  function LastByte(was: nat, size: nat, cs: seq<nat>, offset: nat, done: Row, r: nat, j: nat): nat
    requires size > 0
  {
    if done == [] then was
    else
      var i := |done| - 1;
      if Falls(size, cs, offset + i, r, j) then done[i] else LastByte(was, size, cs, offset, done[..i], r, j)
  }

  ghost predicate RowLast(was: Row, row: Row, size: nat, cs: seq<nat>, offset: nat, done: Row, r: nat)
    requires size > 0
  {
    |row| == |was| && forall j | 0 <= j < |row| :: row[j] == LastByte(was[j], size, cs, offset, done, r, j)
  }

  ghost predicate LastWins(rows0: seq<Row>, rows: seq<Row>, size: nat, cs: seq<nat>, offset: nat, done: Row)
    requires size > 0
  {
    |rows| == |rows0| && forall r | 0 <= r < |rows| :: RowLast(rows0[r], rows[r], size, cs, offset, done, r)
  }

  lemma {:induction false} RemStep(offset: nat, n: nat, size: nat)
    requires size > 0 && n < size - Rem(offset, size)
    ensures Quot(offset + n, size) == Quot(offset, size) && Rem(offset + n, size) == Rem(offset, size) + n
  {
    if offset >= size {
      RemStep(offset - size, n, size);
      assert offset + n - size == offset - size + n;
    }
  }

  /** A chunk that fits in the cluster where it starts. */
  lemma {:induction false} LastOfChunk(was: nat, size: nat, cs: seq<nat>, offset: nat, done: Row, chunk: Row, r: nat,
                                       j: nat)
    requires size > 0
    requires Quot(offset + |done|, size) < |cs| && Rem(offset + |done|, size) + |chunk| <= size
    ensures var o := Rem(offset + |done|, size);
            LastByte(was, size, cs, offset, done + chunk, r, j) ==
            if cs[Quot(offset + |done|, size)] == r + 2 && o <= j < o + |chunk| then chunk[j - o]
            else LastByte(was, size, cs, offset, done, r, j)
    decreases |chunk|
  {
    if chunk == [] {
      assert done + chunk == done;
    } else {
      var n := |chunk| - 1;
      assert (done + chunk)[..|done| + n] == done + chunk[..n];
      RemStep(offset + |done|, n, size);
      LastOfChunk(was, size, cs, offset, done, chunk[..n], r, j);
    }
  }

  /** Clusters added behind those written to change nothing. */
  lemma {:induction false} LastExtended(was: nat, size: nat, cs: seq<nat>, free: nat, offset: nat, done: Row, r: nat,
                                        j: nat)
    requires size > 0 && (done != [] ==> Quot(offset + |done| - 1, size) < |cs|)
    ensures LastByte(was, size, cs + [free], offset, done, r, j) == LastByte(was, size, cs, offset, done, r, j)
    decreases |done|
  {
    if done != [] {
      var i := |done| - 1;
      if i > 0 { QuotUp(offset + i - 1, size); }
      LastExtended(was, size, cs, free, offset, done[..i], r, j);
    }
  }

  lemma {:induction false} QuotUp(o: nat, size: nat)
    requires size > 0
    ensures Quot(o, size) <= Quot(o + 1, size)
  {
    if o >= size {
      QuotUp(o - size, size);
      assert o + 1 - size == o - size + 1;
    }
  }

  lemma CopyLasts(rows0: seq<Row>, rows: seq<Row>, size: nat, cs: seq<nat>, offset: nat, done: Row, chunk: Row)
    requires size > 0 && Square(rows, size) && Placed(rows, cs) && LastWins(rows0, rows, size, cs, offset, done)
    requires Quot(offset + |done|, size) < |cs| && Rem(offset + |done|, size) + |chunk| <= size
    ensures LastWins(rows0, CopyChunk(rows, size, cs, offset + |done|, chunk), size, cs, offset, done + chunk)
  {
    hide Quot, Rem, LastByte;
    var rows1, c := CopyChunk(rows, size, cs, offset + |done|, chunk), cs[Quot(offset + |done|, size)];
    PlacedAt(rows, size, cs, Quot(offset + |done|, size));
    SpliceIs(rows[c - 2], Rem(offset + |done|, size), chunk);
    forall r | 0 <= r < |rows|
      ensures RowLast(rows0[r], rows1[r], size, cs, offset, done + chunk, r)
    {
      assert RowLast(rows0[r], rows[r], size, cs, offset, done, r);
      forall j | 0 <= j < |rows1[r]|
        ensures rows1[r][j] == LastByte(rows0[r][j], size, cs, offset, done + chunk, r, j)
      {
        LastOfChunk(rows0[r][j], size, cs, offset, done, chunk, r, j);
      }
    }
  }

  lemma ExtendLasts(rows0: seq<Row>, rows: seq<Row>, size: nat, cs: seq<nat>, free: nat, offset: nat, done: Row)
    requires size > 0 && LastWins(rows0, rows, size, cs, offset, done)
    requires done != [] ==> Quot(offset + |done| - 1, size) < |cs|
    ensures LastWins(rows0, rows, size, cs + [free], offset, done)
  {
    hide Quot, LastByte;
    forall r | 0 <= r < |rows|
      ensures RowLast(rows0[r], rows[r], size, cs + [free], offset, done, r)
    {
      assert RowLast(rows0[r], rows[r], size, cs, offset, done, r);
      forall j | 0 <= j < |rows[r]|
        ensures rows[r][j] == LastByte(rows0[r][j], size, cs + [free], offset, done, r, j)
      {
        LastExtended(rows0[r][j], size, cs, free, offset, done, r, j);
      }
    }
  }

  // ---------- the state of the copy loop of `write`

  /** How many clusters a file of `n` bytes needs. */
  function Blocks(n: nat, size: nat): nat
    requires size > 0
  {
    if n == 0 then 0 else Quot(n - 1, size) + 1
  }

  lemma {:induction false} QuotLess(x: nat, size: nat, n: nat)
    requires size > 0
    ensures Quot(x, size) < n <==> x < n * size
  {
    if n > 0 && x >= size {
      QuotLess(x - size, size, n - 1);
      assert n * size == (n - 1) * size + size;
    } else if n > 0 {
      assert n * size >= size;
    }
  }

  /** A write that ends at `end` adds at most one cluster exactly if it ends at most one cluster past the allocated
      length. */
  lemma AtMostOneAdded(end: nat, size: nat, n: nat)
    requires size > 0
    ensures Max(n, Blocks(end, size)) <= n + 1 <==> end <= (n + 1) * size
  {
    if end > 0 { QuotLess(end - 1, size, n + 1); }
  }

  lemma BlocksOfEnd(offset: nat, n: nat, size: nat)
    requires size > 0 && 0 < n <= size - Rem(offset, size)
    ensures Blocks(offset + n, size) == Quot(offset, size) + 1
  {
    QuotStep(offset, n - 1, size);
  }

  function Max(a: nat, b: nat): nat { if a < b then b else a }

  /** The loop started with the clusters `cs0` and the data `rows0`; it has written `done` from `offset0` on, and has
      added `free` to the file's clusters as often as they did not suffice. */
  ghost predicate Written(rows0: seq<Row>, rows: seq<Row>, size: nat, free: nat, cs0: seq<nat>, cs: seq<nat>,
                          offset0: nat, done: Row)
    requires size > 0
  {
    && Changed(rows0, rows, size, free, cs0, cs, offset0, done)
    && |cs| == Max(|cs0|, if done == [] then 0 else Blocks(offset0 + |done|, size))
    && LastWins(rows0, rows, size, cs, offset0, done)
  }

  ghost predicate Changed(rows0: seq<Row>, rows: seq<Row>, size: nat, free: nat, cs0: seq<nat>, cs: seq<nat>,
                          offset0: nat, done: Row)
  {
    && Square(rows, size) && |rows| == |rows0| && Placed(rows, cs) && |cs| >= |cs0|
    && cs == cs0 + Repeat(free, |cs| - |cs0|)
    && Untouched(rows0, rows, cs)
    && (Distinct(cs) ==> IsSplice(rows0, rows, cs, offset0, done))
  }

  lemma WrittenFacts(rows0: seq<Row>, rows: seq<Row>, size: nat, free: nat, cs0: seq<nat>, cs: seq<nat>, offset0: nat,
                     done: Row)
    requires size > 0 && Written(rows0, rows, size, free, cs0, cs, offset0, done)
    ensures |cs| == Max(|cs0|, if done == [] then 0 else Blocks(offset0 + |done|, size))
    ensures Square(rows, size) && Placed(rows, cs) && cs == cs0 + Repeat(free, |cs| - |cs0|)
    ensures Untouched(rows0, rows, cs)
  {
  }

  lemma WrittenStart(rows: seq<Row>, size: nat, free: nat, cs: seq<nat>, offset: nat)
    requires size > 0 && Square(rows, size) && Placed(rows, cs)
    ensures Written(rows, rows, size, free, cs, cs, offset, [])
  {
    assert cs + Repeat(free, 0) == cs;
  }

  lemma Extend(rows0: seq<Row>, rows: seq<Row>, size: nat, free: nat, cs0: seq<nat>, cs: seq<nat>, offset0: nat,
               done: Row)
    requires size > 0 && Changed(rows0, rows, size, free, cs0, cs, offset0, done) && Placed(rows, [free])
    ensures Changed(rows0, rows, size, free, cs0, cs + [free], offset0, done)
  {
    var cs1 := cs + [free];
    RepeatSnoc(free, |cs| - |cs0|);
    assert cs1 == cs0 + (Repeat(free, |cs| - |cs0|) + [free]);
    assert [free][0] == free;
    forall r | 0 <= r < |rows0| && HasRow(cs, r) ensures HasRow(cs1, r) {}
    if Distinct(cs1) {
      assert cs1[|cs|] == free && forall i | 0 <= i < |cs| :: cs[i] == cs1[i];
      assert Distinct(cs) && !HasRow(cs, free - 2);
      SpliceGrown(rows0, rows, cs, free, offset0, done);
    }
  }

  lemma CopyMore(rows0: seq<Row>, rows: seq<Row>, size: nat, free: nat, cs0: seq<nat>, cs: seq<nat>, offset0: nat,
                 done: Row, chunk: Row)
    requires size > 0 && Changed(rows0, rows, size, free, cs0, cs, offset0, done) && chunk != []
    requires Quot(offset0 + |done|, size) < |cs| && Rem(offset0 + |done|, size) + |chunk| <= size
    ensures var rows1 := CopyChunk(rows, size, cs, offset0 + |done|, chunk);
            Changed(rows0, rows1, size, free, cs0, cs, offset0, done + chunk)
  {
    var rows1 := CopyChunk(rows, size, cs, offset0 + |done|, chunk);
    CopyUntouched(rows, size, cs, offset0 + |done|, chunk, cs);
    UntouchedTrans(rows0, rows, rows1, cs);
    if Distinct(cs) { SpliceMore(rows0, rows, size, cs, offset0, done, chunk); }
  }

  /** The number of clusters after one round at offset `o`. */
  lemma LengthMore(size: nat, n0: nat, n: nat, o: nat, started: bool, k: nat)
    requires size > 0 && n == Max(n0, if started then Blocks(o, size) else 0) && Quot(o, size) <= n
    requires 0 < k <= size - Rem(o, size) && (started ==> o > 0 && Rem(o, size) == 0)
    ensures (if Quot(o, size) >= n then n + 1 else n) == Max(n0, Blocks(o + k, size))
  {
    BlocksOfEnd(o, k, size);
    if started { BlocksOfMultiple(o, size); }
  }

  lemma WrittenMore(rows0: seq<Row>, rows: seq<Row>, size: nat, free: nat, cs0: seq<nat>, cs: seq<nat>, cs1: seq<nat>,
                    offset0: nat, done: Row, chunk: Row)
    requires size > 0 && Written(rows0, rows, size, free, cs0, cs, offset0, done) && chunk != []
    requires var o := offset0 + |done|;
             && Quot(o, size) <= |cs| && (done == [] || Rem(o, size) == 0) && Rem(o, size) + |chunk| <= size
             && (Quot(o, size) == |cs| ==> Placed(rows, [free])) && cs1 == Extended(size, free, cs, o)
    ensures Placed(rows, cs1) && Quot(offset0 + |done|, size) < |cs1|
    ensures var rows1 := CopyChunk(rows, size, cs1, offset0 + |done|, chunk);
            Written(rows0, rows1, size, free, cs0, cs1, offset0, done + chunk)
  {
    var o := offset0 + |done|;
    LengthMore(size, |cs0|, |cs|, o, done != [], |chunk|);
    if Quot(o, size) == |cs| {
      Extend(rows0, rows, size, free, cs0, cs, offset0, done);
      ExtendLasts(rows0, rows, size, cs, free, offset0, done);
    }
    CopyLasts(rows0, rows, size, cs1, offset0, done, chunk);
    CopyMore(rows0, rows, size, free, cs0, cs1, offset0, done, chunk);
  }

  lemma BlocksOfMultiple(offset: nat, size: nat)
    requires size > 0 && offset > 0 && Rem(offset, size) == 0
    ensures Blocks(offset, size) == Quot(offset, size)
    decreases offset
  {
    if offset > size { BlocksOfMultiple(offset - size, size); }
  }

  /** What fits in the clusters of a file. */
  lemma {:induction false} QuotFits(rows: seq<Row>, size: nat, cs: seq<nat>, n: nat)
    requires size > 0 && Square(rows, size) && Placed(rows, cs)
    ensures n < |Concat(rows, cs)| ==> Quot(n, size) < |cs|
    ensures n <= |Concat(rows, cs)| ==> Quot(n, size) <= |cs| && Blocks(n, size) <= |cs|
  {
    if cs != [] && n >= size { QuotFits(rows, size, cs[1..], n - size); }
  }

  /** A piece of one row is a slice of the file. */
  lemma {:induction false} RowIsSlice(rows: seq<Row>, size: nat, cs: seq<nat>, offset: nat, n: nat)
    requires size > 0 && Square(rows, size) && Placed(rows, cs) && Quot(offset, size) < |cs|
    requires Rem(offset, size) + n <= size
    ensures offset + n <= |Concat(rows, cs)|
    ensures var o := Rem(offset, size);
            rows[cs[Quot(offset, size)] - 2][o..o + n] == Concat(rows, cs)[offset..offset + n]
  {
    var head, rest := rows[cs[0] - 2], Concat(rows, cs[1..]);
    if offset >= size {
      RowIsSlice(rows, size, cs[1..], offset - size, n);
      assert (head + rest)[offset..offset + n] == rest[offset - size..offset - size + n];
    }
  }

  ghost predicate Disjoint(cs: seq<nat>, ds: seq<nat>) {
    forall i | 0 <= i < |ds| :: ds[i] !in cs
  }

  /** A file whose clusters are not among those written keeps its bytes. */
  lemma OthersKept(rows: seq<Row>, rows': seq<Row>, cs: seq<nat>, ds: seq<nat>)
    requires Untouched(rows, rows', cs) && Placed(rows, ds) && Disjoint(cs, ds)
    ensures Placed(rows', ds) && Concat(rows', ds) == Concat(rows, ds)
  {
    forall i | 0 <= i < |ds|
      ensures rows'[ds[i] - 2] == rows[ds[i] - 2]
    {
      assert !HasRow(cs, ds[i] - 2);
    }
    ConcatFrame(rows, rows', ds);
  }

  lemma SpliceFrame(rows: seq<Row>, rows1: seq<Row>, rows': seq<Row>, cs: seq<nat>, ds: seq<nat>, offset: nat,
                    done: Row)
    requires Untouched(rows, rows1, ds) && Placed(rows, cs) && Disjoint(ds, cs)
    requires IsSplice(rows1, rows', cs, offset, done)
    ensures IsSplice(rows, rows', cs, offset, done)
  {
    OthersKept(rows, rows1, ds, cs);
  }

  lemma UntouchedMore(rows: seq<Row>, rows': seq<Row>, cs: seq<nat>, ds: seq<nat>)
    requires Untouched(rows, rows', cs)
    ensures Untouched(rows, rows', cs + ds) && Untouched(rows, rows', ds + cs)
  {
    forall r | 0 <= r < |rows| && HasRow(cs, r) ensures HasRow(cs + ds, r) && HasRow(ds + cs, r) {}
  }

  lemma PlacedKept(rows: seq<Row>, rows': seq<Row>, cs: seq<nat>, ds: seq<nat>)
    requires Untouched(rows, rows', ds) && Placed(rows, cs)
    ensures Placed(rows', cs)
  {
  }

  /** A write stops short exactly if it ends past the file's clusters and the volume is full. */
  lemma ShortIffFull(size: nat, free: nat, n: nat, cs: seq<nat>, offset: nat, len: nat, count: nat)
    requires size > 0 && count <= len && (free == NO_CLUSTER ==> |cs| == n)
    requires |cs| == Max(n, if count == 0 then 0 else Blocks(offset + count, size))
    requires count < len ==> free == NO_CLUSTER && Quot(offset + count, size) == |cs| == n
    ensures count == len <==> len == 0 || free != NO_CLUSTER || offset + len <= n * size
  {
    QuotLess(offset + count, size, n);
    if len > 0 { QuotLess(offset + len - 1, size, n); }
  }

  /** The size that a write leaves in the directory entry: it is the end of what was asked for. */
  function NewSize(was: nat, offset: nat, len: nat): nat {
    if offset + len > was then (offset + len) % 0x1_0000_0000 else was
  }

  /** The size is right if it is the end of the file's bytes: those there were, and those that were written. */
  predicate SizeRight(was: nat, offset: nat, count: nat, size: nat) {
    size == if count == 0 then was else Max(was, offset + count)
  }

  /** The size recorded is right exactly if the write stayed within the old size, or wrote something and all it was
      asked to. The largest size that a directory entry can record is 2^32 - 1. */
  lemma SizeRightIff(was: nat, offset: nat, len: nat, count: nat)
    requires was < 0x1_0000_0000 && count <= len
    ensures offset + len < 0x1_0000_0000 ==>
              (SizeRight(was, offset, count, NewSize(was, offset, len)) <==> offset + len <= was || 0 < count == len)
    ensures offset + len >= 0x1_0000_0000 && 0 < count == len ==>
            !SizeRight(was, offset, count, NewSize(was, offset, len))
  {
  }

  /** Writing to clusters that the file has already. */
  lemma WrittenInside(rows0: seq<Row>, rows: seq<Row>, size: nat, free: nat, cs0: seq<nat>, cs: seq<nat>, offset: nat,
                      buf: Row, count: nat)
    requires size > 0 && Square(rows0, size) && Placed(rows0, cs0) && Distinct(cs0) && count <= |buf|
    requires offset + |buf| <= |Concat(rows0, cs0)|
    requires Written(rows0, rows, size, free, cs0, cs, offset, buf[..count])
    requires count < |buf| ==> Quot(offset + count, size) == |cs0|
    ensures cs == cs0 && count == |buf| && Placed(rows, cs) && Untouched(rows0, rows, cs)
    ensures Concat(rows, cs) == Splice(Concat(rows0, cs0), offset, buf)
  {
    QuotFits(rows0, size, cs0, offset + count);
    assert buf[..count] == buf;
    QuotFits(rows0, size, cs0, offset + |buf|);
    RepeatAll(free, 0);
    assert cs0 + [] == cs0;
    if buf == [] { SpliceIs(Concat(rows0, cs0), offset, []); }
  }

  /** A whole write: `free` was added to the clusters `cs0` as often as they did not suffice; if that left them
      distinct, the file's bytes are as before but for `done`; and only clusters of the file and of its directory
      changed. Outside the directory, each byte is the last that was written to it, distinct or not. */
  ghost predicate WriteDone(rows0: seq<Row>, rows: seq<Row>, size: nat, free: nat, cs0: seq<nat>, cs: seq<nat>,
                            dir: seq<nat>, offset: nat, done: Row)
    requires size > 0
  {
    && |cs| == Max(|cs0|, if done == [] then 0 else Blocks(offset + |done|, size))
    && cs == cs0 + Repeat(free, |cs| - |cs0|)
    && (Distinct(cs) ==> IsSplice(rows0, rows, cs, offset, done))
    && Untouched(rows0, rows, dir + cs)
    && forall r | 0 <= r < |rows0| && !HasRow(dir, r) :: RowLast(rows0[r], rows[r], size, cs, offset, done, r)
  }

  lemma WrittenIsDone(rows0: seq<Row>, rows1: seq<Row>, rows: seq<Row>, size: nat, free: nat, cs0: seq<nat>,
                      cs: seq<nat>, dir: seq<nat>, offset: nat, done: Row)
    requires size > 0 && Untouched(rows0, rows1, dir) && Written(rows1, rows, size, free, cs0, cs, offset, done)
    requires Disjoint(dir, cs)
    ensures WriteDone(rows0, rows, size, free, cs0, cs, dir, offset, done)
  {
    UntouchedMore(rows0, rows1, dir, cs);
    UntouchedMore(rows1, rows, cs, dir);
    UntouchedTrans(rows0, rows1, rows, dir + cs);
    if Distinct(cs) { SpliceFrame(rows0, rows1, rows, cs, dir, offset, done); }
    forall r | 0 <= r < |rows0| && !HasRow(dir, r)
      ensures RowLast(rows0[r], rows[r], size, cs, offset, done, r)
    {
      assert RowLast(rows1[r], rows[r], size, cs, offset, done, r) && rows1[r] == rows0[r];
    }
  }
}
