/** Files on a FAT volume, from src/fs_vfat.c. The table is a sequence of words and the data area a sequence of rows of
    one cluster each; both stand for the device seen through its cache. */
module Fat {
  import opened FatChains
  import opened FatData

  const TWO_TO_32: nat := 0x1_0000_0000
  const TWO_TO_64: nat := 0x1_0000_0000_0000_0000

  /** Offsets in a directory entry. */
  const ADATE: nat := 18
  const MTIME: nat := 22
  const MDATE: nat := 24
  const SIZE: nat := 28
  const ENTRY_SIZE: nat := 32

  /** `vfat_file_t`. */
  class File {
    var clusters: seq<nat>
    var chainRead: bool
    var size: nat
    const dirFile: File?
    const dirOffset: nat
    /** The clusters of the file, also when only the first has been read. */
    ghost var chain: seq<nat>

    ghost function Dir(): set<File> {
      if dirFile == null then {} else {dirFile}
    }

    constructor (cluster: nat, dirFile: File?, dirOffset: nat, size: nat, ghost chain: seq<nat>)
      requires chain != [] && chain[0] == cluster
      ensures clusters == [cluster] && !chainRead && this.size == size && this.chain == chain
      ensures this.dirFile == dirFile && this.dirOffset == dirOffset
    {
      clusters, chainRead, this.size, this.dirFile, this.dirOffset := [cluster], false, size, dirFile, dirOffset;
      this.chain := chain;
    }
  }

  /** The bytes that `read` delivers: the subtraction is one of 64-bit words. */
  function ReadLength(size: nat, offset: nat, sz: nat): nat
    requires size < TWO_TO_32 && offset < TWO_TO_64
  {
    var most := if offset <= size then size - offset else TWO_TO_64 - (offset - size);
    if sz > most then most else sz
  }

  /** A read that starts within the file delivers what is asked for, or all that there is from there on. One that starts
      behind it is not cut, short of wrapping around to the size. */
  lemma ReadDelivers(size: nat, offset: nat, sz: nat)
    requires size < TWO_TO_32 && offset < TWO_TO_64
    ensures var n := ReadLength(size, offset, sz);
            && n <= sz && (offset <= size ==> offset + n <= size && (n == sz || offset + n == size))
            && (offset > size ==> n == sz || offset + n == TWO_TO_64 + size)
  {
  }

  /** `read` stays within the file's size exactly if it starts within it, or is asked for nothing. */
  lemma ReadBounded(size: nat, offset: nat, sz: nat)
    requires size < TWO_TO_32 && offset < TWO_TO_64
    ensures offset + ReadLength(size, offset, sz) <= size || sz == 0 <==> offset <= size || sz == 0
  {
  }

  /** The first cluster from `i` on whose table word is zero. */
  function FreeFrom(fat: seq<nat>, i: nat, n: nat): nat
    requires n <= |fat|
    decreases n - i
  {
    if i >= n then NO_CLUSTER else if fat[i] == 0 then i else FreeFrom(fat, i + 1, n)
  }

  lemma {:induction false} FreeFromFirst(fat: seq<nat>, i: nat, n: nat)
    requires n <= |fat| && n < NO_CLUSTER
    ensures var c := FreeFrom(fat, i, n);
            && (c != NO_CLUSTER ==> i <= c < n && fat[c] == 0)
            && forall j | i <= j < n && j < c :: fat[j] != 0
    decreases n - i
  {
    if i < n && fat[i] != 0 { FreeFromFirst(fat, i + 1, n); }
  }

  /** No cluster was added, or one whose number does not count as an end of chain. */
  ghost predicate Grown(w: Width, cs0: seq<nat>, cs: seq<nat>) {
    |cs| == |cs0| || (|cs| == |cs0| + 1 && BelowEoc(w, cs))
  }

  /** The table after `n` clusters were added, which are all the same. */
  lemma Committed(w: Width, fat: seq<nat>, cs0: seq<nat>, free: nat, n: nat)
    requires cs0 != [] && Leads(w, fat, cs0) && InTable(fat, cs0) && 2 <= free < |fat| && fat[free] == 0 && n > 0
    ensures var cs := cs0 + Repeat(free, n);
            InTable(fat, cs) && (Grown(w, cs0, cs) <==> Leads(w, WriteChain(w, fat, cs), cs))
            && (Grown(w, cs0, cs) ==> Distinct(cs))
  {
    var cs := cs0 + Repeat(free, n);
    RepeatInTable(fat, cs0, free, n);
    RepeatAll(free, n);
    if Grown(w, cs0, cs) {
      assert n == 1 && Repeat(free, 1) == [free];
      AppendRoundTrip(w, fat, cs0, free, 1);
      LeadsDistinct(w, WriteChain(w, fat, cs), cs);
    } else if Leads(w, WriteChain(w, fat, cs), cs) {
      NotGrown(w, fat, cs0, free, n);
    }
  }

  /** A chain on the disk repeats no cluster, and passes none that counts as its end. */
  lemma NotGrown(w: Width, fat: seq<nat>, cs0: seq<nat>, free: nat, n: nat)
    requires cs0 != [] && Leads(w, fat, cs0) && InTable(fat, cs0) && 2 <= free < |fat| && fat[free] == 0 && n > 0
    requires var cs := cs0 + Repeat(free, n); InTable(fat, cs) && Leads(w, WriteChain(w, fat, cs), cs)
    ensures Grown(w, cs0, cs0 + Repeat(free, n))
  {
    var cs := cs0 + Repeat(free, n);
    LeadsDistinct(w, WriteChain(w, fat, cs), cs);
    RepeatAll(free, n);
    if n > 1 { TwiceIsNotDistinct(cs0, free, n); }
    LeadsNonZero(w, fat, cs0);
    ChainRoundTrip(w, fat, cs);
  }

  lemma TwiceIsNotDistinct(cs0: seq<nat>, free: nat, n: nat)
    requires n > 1
    ensures !Distinct(cs0 + Repeat(free, n))
  {
    var cs := cs0 + Repeat(free, n);
    RepeatAll(free, n);
    assert cs[|cs0|] == cs[|cs0| + 1];
  }

  lemma WriteKeepsReserved(w: Width, fat: seq<nat>, cs: seq<nat>, rows: seq<Row>)
    requires InTable(fat, cs) && Placed(rows, cs) && |fat| >= 2
    ensures var fat' := WriteChain(w, fat, cs); |fat'| == |fat| && fat'[0] == fat[0] && fat'[1] == fat[1]
  {
    WriteChainKeeps(w, fat, cs);
  }

  function LittleEndian(n: nat): Row {
    [n % 0x100, n / 0x100 % 0x100, n / 0x1_0000 % 0x100, n / 0x100_0000 % 0x100]
  }

  /** A directory whose entry at `at` has a new date of access, date and time of change and perhaps size. */
  function Stamped(d: Row, at: nat, date: Row, time: Row, newSize: bool, size: nat): (r: Row)
    requires at + ENTRY_SIZE <= |d| && |date| == |time| == 2
    ensures |r| == |d|
  {
    var d1 := Splice(Splice(Splice(d, at + ADATE, date), at + MDATE, date), at + MTIME, time);
    if newSize then Splice(d1, at + SIZE, LittleEndian(size)) else d1
  }

  lemma LittleEndianIs(n: nat)
    requires n < TWO_TO_32
    ensures var b := LittleEndian(n);
            && |b| == 4 && (forall i | 0 <= i < 4 :: b[i] < 0x100)
            && n == b[0] + 0x100 * b[1] + 0x1_0000 * b[2] + 0x100_0000 * b[3]
  {
    assert n / 0x1_0000 == n / 0x100 / 0x100 && n / 0x100_0000 == n / 0x100 / 0x100 / 0x100;
  }

  /** The fields of the entry, by their offsets, and all other bytes. */
  lemma StampedAt(d: Row, at: nat, date: Row, time: Row, newSize: bool, size: nat)
    requires at + ENTRY_SIZE <= |d| && |date| == |time| == 2 && size < TWO_TO_32
    ensures var r := Stamped(d, at, date, time, newSize, size);
            && r[at + 18..at + 20] == date && r[at + 22..at + 24] == time && r[at + 24..at + 26] == date
            && (newSize ==> size == r[at + 28] + 0x100 * r[at + 29] + 0x1_0000 * r[at + 30] + 0x100_0000 * r[at + 31])
            && forall i | 0 <= i < |d| && !(at + 18 <= i < at + 20) && !(at + 22 <= i < at + 26)
                        && !(newSize && at + 28 <= i < at + 32) :: r[i] == d[i]
  {
    hide Splice, LittleEndian;
    LittleEndianIs(size);
    var d1 := Splice(d, at + ADATE, date);
    var d2 := Splice(d1, at + MDATE, date);
    var d3 := Splice(d2, at + MTIME, time);
    SpliceAt(d, at + ADATE, date);
    SpliceAt(d1, at + MDATE, date);
    SpliceAt(d2, at + MTIME, time);
    SpliceAt(d3, at + SIZE, LittleEndian(size));
    var r := Stamped(d, at, date, time, newSize, size);
    assert forall i | 0 <= i < |d| && !(at + 28 <= i < at + 32) :: r[i] == d3[i];
  }

  lemma SpliceAt(s: Row, o: nat, b: Row)
    requires o + |b| <= |s|
    ensures forall i | 0 <= i < |s| :: Splice(s, o, b)[i] == if o <= i < o + |b| then b[i - o] else s[i]
  {
    hide Splice;
    SpliceIs(s, o, b);
  }

  lemma FreeDisjoint(w: Width, fat: seq<nat>, ds: seq<nat>, cs: seq<nat>, free: nat, n: nat)
    requires Leads(w, fat, ds) && !IsEoc(w, ds[0]) && Disjoint(cs, ds) && Disjoint(ds, cs)
    requires n > 0 ==> free < |fat| && fat[free] == 0
    ensures Disjoint(cs + Repeat(free, n), ds) && Disjoint(ds, cs + Repeat(free, n))
  {
    RepeatAll(free, n);
    if n > 0 { FreeIsNew(w, fat, ds, free); }
  }

  /** Writing one file's chain leaves another's alone. */
  lemma ChainKept(w: Width, fat: seq<nat>, cs: seq<nat>, ds: seq<nat>)
    requires InTable(fat, cs) && Leads(w, fat, ds) && Disjoint(cs, ds) && InTable(fat, ds)
    ensures Leads(w, WriteChain(w, fat, cs), ds) && InTable(WriteChain(w, fat, cs), ds)
  {
    WriteChainKeeps(w, fat, cs);
    LeadsFrame(w, fat, WriteChain(w, fat, cs), ds);
  }

  lemma GrownOnce(w: Width, rows0: seq<Row>, rows: seq<Row>, size: nat, free: nat, cs0: seq<nat>, cs: seq<nat>,
                  dir: seq<nat>, offset: nat, buf: Row)
    requires size > 0 && WriteDone(rows0, rows, size, free, cs0, cs, dir, offset, buf) && buf != []
    requires offset + |buf| <= (|cs0| + 1) * size
    requires offset + |buf| <= |cs0| * size || BelowEoc(w, cs0 + [free])
    ensures Grown(w, cs0, cs) && |cs| >= |cs0| && cs == cs0 + Repeat(free, |cs| - |cs0|)
    ensures |cs| > |cs0| ==> offset + |buf| > |cs0| * size
  {
    hide Quot, IsSplice, RowLast, Untouched;
    AtMostOneAdded(offset + |buf|, size, |cs0|);
    QuotLess(offset + |buf| - 1, size, |cs0|);
    if |cs| > |cs0| { assert Repeat(free, 1) == [free]; }
  }

  lemma BytesWritten(rows0: seq<Row>, rows: seq<Row>, size: nat, free: nat, cs0: seq<nat>, cs: seq<nat>, dir: seq<nat>,
                     offset: nat, buf: Row)
    requires size > 0 && WriteDone(rows0, rows, size, free, cs0, cs, dir, offset, buf) && Distinct(cs) && buf != []
    ensures Placed(rows, cs) && offset + |buf| <= |Concat(rows, cs)|
    ensures Concat(rows, cs)[offset..offset + |buf|] == buf
  {
    SpliceIs(Concat(rows0, cs), offset, buf);
  }

  class Volume {
    const width: Width
    const clusterSize: nat
    const numClusters: nat
    const hint: nat
    var fat: seq<nat>
    var rows: seq<Row>

    /** The geometry is consistent, and the two reserved table words are not zero. */
    ghost predicate Valid()
      reads this
    {
      && clusterSize > 0 && Square(rows, clusterSize) && numClusters <= |fat| && numClusters <= |rows| + 2
      && numClusters < NO_CLUSTER && |fat| >= 2 && fat[0] != 0 && fat[1] != 0
    }

    constructor (width: Width, clusterSize: nat, numClusters: nat, hint: nat, fat: seq<nat>, rows: seq<Row>)
      requires clusterSize > 0 && Square(rows, clusterSize) && numClusters <= |fat| && numClusters <= |rows| + 2
      requires numClusters < NO_CLUSTER && |fat| >= 2 && fat[0] != 0 && fat[1] != 0
      ensures Valid() && this.fat == fat && this.rows == rows && this.width == width && this.hint == hint
      ensures this.clusterSize == clusterSize && this.numClusters == numClusters
    {
      this.width, this.clusterSize, this.numClusters, this.hint := width, clusterSize, numClusters, hint;
      this.fat, this.rows := fat, rows;
    }

    /** The chain of the file is on the disk, and in memory once it has been read. */
    ghost predicate FileOk(f: File)
      reads this, f
    {
      && Leads(width, fat, f.chain) && InTable(fat, f.chain) && Placed(rows, f.chain)
      && f.clusters == if f.chainRead then f.chain else [f.chain[0]]
    }

    ghost function Bytes(f: File): Row
      requires FileOk(f)
      reads this, f
    {
      Concat(rows, f.chain)
    }

    /** `find_free_cluster`: nothing marks the cluster as taken. */
    method FindFree() returns (c: nat)
      requires Valid()
      ensures c == FreeFrom(fat, hint, numClusters)
    {
      var i := hint;
      while i < numClusters
        invariant FreeFrom(fat, hint, numClusters) == FreeFrom(fat, i, numClusters)
      {
        if fat[i] == 0 {
          return i;
        }
        i := i + 1;
      }
      return NO_CLUSTER;
    }

    /** `get_next_cluster`. */
    method NextCluster(cluster: nat) returns (next: nat)
      requires 0 < cluster < |fat|
      ensures next == Next(width, fat[cluster])
    {
      next := Next(width, fat[cluster]);
    }

    /** `set_next_cluster`. */
    method SetNext(cluster: nat, next: nat)
      requires cluster < |fat|
      modifies this`fat
      ensures fat == old(fat)[cluster := Linked(width, old(fat)[cluster], next)]
    {
      fat := fat[cluster := Linked(width, fat[cluster], next)];
    }

    /** `read_cluster_chain`: it ends, and finds the whole chain. */
    method ReadChain(f: File)
      requires FileOk(f) && !f.chainRead
      modifies f`clusters, f`chainRead
      ensures FileOk(f) && f.chainRead
    {
      ghost var k := 0;
      var cluster := f.clusters[0];
      if |f.chain| > 1 { LeadsBelow(width, fat, f.chain); }
      while !IsEoc(width, cluster)
        invariant k < |f.chain| && f.clusters == f.chain[..k + 1] && !f.chainRead
        invariant !IsEoc(width, cluster) ==> cluster == f.chain[k]
        invariant IsEoc(width, cluster) ==> k == |f.chain| - 1
        decreases |f.chain| - k, !IsEoc(width, cluster)
      {
        LeadsAt(width, fat, f.chain, k);
        cluster := NextCluster(cluster);
        if !IsEoc(width, cluster) {
          f.clusters := f.clusters + [cluster];
          k := k + 1;
        }
      }
      assert f.chain[..k + 1] == f.chain;
      f.chainRead := true;
    }

    /** `write_cluster_chain`. */
    method WriteChainOut(f: File)
      requires f.chainRead && InTable(fat, f.clusters)
      modifies this`fat
      ensures fat == WriteChain(width, old(fat), f.clusters)
    {
      ghost var cs := f.clusters;
      for i := 0 to |f.clusters|
        invariant f.clusters == cs && |fat| == |old(fat)|
        invariant WriteChain(width, fat, cs[i..]) == WriteChain(width, old(fat), cs)
      {
        var cluster := f.clusters[i];
        var next := if i != |f.clusters| - 1 then f.clusters[i + 1] else Eoc(width);
        assert cs[i..][1..] == cs[i + 1..] && cs[i..][0] == cluster;
        SetNext(cluster, next);
      }
    }

    ghost function Free(): nat
      requires numClusters <= |fat|
      reads this
    {
      FreeFrom(fat, hint, numClusters)
    }

    lemma FreeIsPlaced()
      requires Valid()
      ensures Free() == NO_CLUSTER || (2 <= Free() < |fat| && Placed(rows, [Free()]) && fat[Free()] == 0)
    {
      FreeFromFirst(fat, hint, numClusters);
    }

    /** What the copy loop of `write` keeps. */
    ghost predicate Copying(f: File, rows0: seq<Row>, cs0: seq<nat>, offset0: nat, done: Row)
      reads this, f`clusters
    {
      && Valid() && Written(rows0, rows, clusterSize, Free(), cs0, f.clusters, offset0, done)
      && Quot(offset0 + |done|, clusterSize) <= |f.clusters| && (Free() == NO_CLUSTER ==> f.clusters == cs0)
    }

    /** One round of the copy loop; `n == 0` means that there was no free cluster. */
    method CopyRound(f: File, offset: nat, left: Row, ghost rows0: seq<Row>, ghost cs0: seq<nat>, ghost offset0: nat,
                     ghost done: Row) returns (n: nat)
      requires Copying(f, rows0, cs0, offset0, done) && offset == offset0 + |done| && left != []
      requires done != [] ==> Rem(offset, clusterSize) == 0
      modifies this`rows, f`clusters
      ensures n <= |left| && Copying(f, rows0, cs0, offset0, done + left[..n])
      ensures n == 0 ==> f.clusters == old(f.clusters) && Free() == NO_CLUSTER
      ensures n == 0 ==> Quot(offset, clusterSize) == |f.clusters|
      ensures 0 < n < |left| ==> Rem(offset + n, clusterSize) == 0
    {
      hide Written, Placed, Square, Quot, Rem, CopyChunk, FreeFrom;
      QuotRem(offset, clusterSize);
      var k, o := offset / clusterSize, offset % clusterSize;
      n := if |left| >= clusterSize - o then clusterSize - o else |left|;
      ghost var cs, chunk := f.clusters, left[..n];
      var found := Reach(f, k, offset);
      if !found {
        n := 0;
        assert done + left[..0] == done;
        return;
      }
      WrittenMore(rows0, rows, clusterSize, Free(), cs0, cs, f.clusters, offset0, done, chunk);
      CopyTo(f.clusters, k, o, left[..n], offset);
      QuotStep(offset, n, clusterSize);
      assert |done + chunk| == |done| + n;
    }

    /** Makes sure that the file has a cluster `k`, if there is room. */
    method Reach(f: File, k: nat, ghost offset: nat) returns (found: bool)
      requires Valid() && k == Quot(offset, clusterSize) <= |f.clusters|
      modifies f`clusters
      ensures found <==> k < |old(f.clusters)| || Free() != NO_CLUSTER
      ensures f.clusters == if found then Extended(clusterSize, Free(), old(f.clusters), offset) else old(f.clusters)
      ensures !found ==> k == |f.clusters|
      ensures found && k == |old(f.clusters)| ==> Placed(rows, [Free()])
    {
      FreeIsPlaced();
      found := true;
      if k >= |f.clusters| {
        var c := FindFree();
        if c == NO_CLUSTER {
          return false;
        }
        f.clusters := f.clusters + [c];
      }
    }

    /** The `memcpy` of `write`. */
    method CopyTo(clusters: seq<nat>, k: nat, o: nat, chunk: Row, ghost offset: nat)
      requires Valid() && Placed(rows, clusters) && k < |clusters| && o + |chunk| <= clusterSize
      requires k == Quot(offset, clusterSize) && o == Rem(offset, clusterSize)
      modifies this`rows
      ensures Valid() && rows == CopyChunk(old(rows), clusterSize, clusters, offset, chunk)
    {
      var row := rows[clusters[k] - 2];
      SpliceIs(row, o, chunk);
      rows := rows[clusters[k] - 2 := row[..o] + chunk + row[o + |chunk|..]];
    }

    /** The copy loop of `write`. */
    method CopyIn(f: File, offset0: nat, buf: Row) returns (count: nat)
      requires Valid() && Placed(rows, f.clusters) && Quot(offset0, clusterSize) <= |f.clusters|
      modifies this`rows, f`clusters
      ensures Valid() && count <= |buf| && (Free() == NO_CLUSTER ==> f.clusters == old(f.clusters))
      ensures Written(old(rows), rows, clusterSize, Free(), old(f.clusters), f.clusters, offset0, buf[..count])
      ensures count < |buf| ==> Full(Free(), offset0 + count, f.clusters, |old(f.clusters)|)
    {
      hide Written, Placed, Square, Quot, Rem, FreeFrom;
      ghost var rows0, cs0 := rows, f.clusters;
      WrittenStart(rows, clusterSize, Free(), cs0, offset0);
      count := 0;
      var n := 1;
      assert buf[..0] == [];
      while count < |buf| && n > 0
        invariant 0 <= count <= |buf| && Copying(f, rows0, cs0, offset0, buf[..count])
        invariant 0 < count < |buf| ==> Rem(offset0 + count, clusterSize) == 0
        invariant n == 0 ==> Full(Free(), offset0 + count, f.clusters, |cs0|)
        decreases |buf| - count, n
      {
        ghost var done, left := buf[..count], buf[count..];
        n := CopyRound(f, offset0 + count, buf[count..], rows0, cs0, offset0, done);
        assert done + left[..n] == buf[..count + n];
        count := count + n;
      }
    }

    /** The volume is full, and the file's `n` clusters too. */
    ghost predicate Full(free: nat, offset: nat, cs: seq<nat>, n: nat)
      requires clusterSize > 0
    {
      free == NO_CLUSTER && Quot(offset, clusterSize) == |cs| == n
    }

    /** `len` bytes from `offset` on fit in the file's `n` clusters, or there is a free one. */
    ghost predicate HasRoom(free: nat, n: nat, offset: nat, len: nat) {
      len == 0 || free != NO_CLUSTER || offset + len <= n * clusterSize
    }

    /** `write` without the directory entry. If more clusters are needed, the first free one is added as often; the file
        is in order afterwards if that was at most once. */
    method WritePlain(f: File, offset0: nat, buf: Row) returns (count: nat)
      requires Valid() && FileOk(f) && Quot(offset0, clusterSize) <= |f.chain|
      modifies this`fat, this`rows, f`clusters, f`chainRead, f`chain
      ensures Valid() && f.chainRead && count <= |buf|
      ensures Written(old(rows), rows, clusterSize, old(Free()), old(f.chain), f.clusters, offset0, buf[..count])
      ensures count < |buf| ==> Full(old(Free()), offset0 + count, f.clusters, |old(f.chain)|)
      ensures count == |buf| <==> HasRoom(old(Free()), |old(f.chain)|, offset0, |buf|)
      ensures InTable(old(fat), f.clusters) && (|f.clusters| > |old(f.chain)| ==> old(Free()) != NO_CLUSTER)
      ensures fat == if |f.clusters| > |old(f.chain)| then WriteChain(width, old(fat), f.clusters) else old(fat)
      ensures f.chain == f.clusters && (FileOk(f) <==> Grown(width, old(f.chain), f.clusters))
      ensures Grown(width, old(f.chain), f.clusters) ==> Distinct(f.clusters)
    {
      hide Written, Placed, Square, Quot, FreeFrom, Leads, InTable, WriteChain, Concat;
      if !f.chainRead {
        ReadChain(f);
      }
      ghost var cs0 := f.chain;
      var before := |f.clusters|;
      ghost var rows0 := rows;
      count := CopyIn(f, offset0, buf);
      WrittenFacts(rows0, rows, clusterSize, Free(), cs0, f.clusters, offset0, buf[..count]);
      ShortIffFull(clusterSize, Free(), |cs0|, f.clusters, offset0, |buf|, count);
      RepeatAll(Free(), 0);
      if |f.clusters| > before {
        Commit(f);
      } else {
        LeadsDistinct(width, fat, cs0);
        assert f.clusters == cs0 + [] == cs0;
      }
    }

    /** The end of `write` for a file that got new clusters. */
    method Commit(f: File)
      requires Valid() && Leads(width, fat, f.chain) && InTable(fat, f.chain) && Placed(rows, f.clusters) && f.chainRead
      requires |f.clusters| > |f.chain| && f.clusters == f.chain + Repeat(Free(), |f.clusters| - |f.chain|)
      requires Free() != NO_CLUSTER
      modifies this`fat, f`chain
      ensures Valid() && InTable(old(fat), f.clusters) && fat == WriteChain(width, old(fat), f.clusters)
      ensures f.chain == f.clusters && (FileOk(f) <==> Grown(width, old(f.chain), f.clusters))
      ensures Grown(width, old(f.chain), f.clusters) ==> Distinct(f.clusters)
    {
      FreeIsPlaced();
      Committed(width, fat, f.chain, Free(), |f.clusters| - |f.chain|);
      WriteKeepsReserved(width, fat, f.clusters, rows);
      WriteChainKeeps(width, fat, f.clusters);
      WriteChainOut(f);
      f.chain := f.clusters;
    }

    /** `write` to a part of a file that has its clusters already. */
    method WriteInside(f: File, offset: nat, buf: Row)
      requires Valid() && FileOk(f) && offset + |buf| <= |Bytes(f)|
      modifies this`fat, this`rows, f`clusters, f`chainRead, f`chain
      ensures Valid() && FileOk(f) && f.chain == old(f.chain) && fat == old(fat)
      ensures |Bytes(f)| == |old(Bytes(f))| && Bytes(f) == Splice(old(Bytes(f)), offset, buf)
      ensures Untouched(old(rows), rows, f.chain)
    {
      QuotFits(rows, clusterSize, f.chain, offset);
      LeadsDistinct(width, fat, f.chain);
      ghost var rows0, cs0, free := rows, f.chain, Free();
      var count := WritePlain(f, offset, buf);
      WrittenInside(rows0, rows, clusterSize, free, cs0, f.clusters, offset, buf, count);
    }

    /** The fields of a directory entry that `write` brings up to date. */
    method UpdateEntry(f: File, dir: File, newSize: bool, date: Row, time: Row)
      requires Valid() && FileOk(dir) && f.dirOffset + ENTRY_SIZE <= |Bytes(dir)| && |date| == |time| == 2
      modifies this`fat, this`rows, dir`clusters, dir`chainRead, dir`chain
      ensures Valid() && FileOk(dir) && dir.chain == old(dir.chain) && fat == old(fat)
      ensures Bytes(dir) == Stamped(old(Bytes(dir)), f.dirOffset, date, time, newSize, f.size)
      ensures Untouched(old(rows), rows, dir.chain)
    {
      ghost var rows0, rows1, cs := rows, rows, dir.chain;
      WriteInside(dir, f.dirOffset + ADATE, date);
      rows1 := rows;
      WriteInside(dir, f.dirOffset + MDATE, date);
      UntouchedTrans(rows0, rows1, rows, cs);
      rows1 := rows;
      WriteInside(dir, f.dirOffset + MTIME, time);
      UntouchedTrans(rows0, rows1, rows, cs);
      if newSize {
        rows1 := rows;
        WriteInside(dir, f.dirOffset + SIZE, LittleEndian(f.size));
        UntouchedTrans(rows0, rows1, rows, cs);
      }
    }

    /** The entry of the file lies in its directory, which shares no cluster with it. */
    ghost predicate EntryOk(f: File)
      reads this, f, f.dirFile
    {
      f.dirFile == null
      || (&& f.dirFile != f && FileOk(f.dirFile) && f.dirOffset + ENTRY_SIZE <= |Bytes(f.dirFile)|
          && Disjoint(f.chain, f.dirFile.chain) && Disjoint(f.dirFile.chain, f.chain)
          && !IsEoc(width, f.dirFile.chain[0]))
    }

    ghost function DirChain(f: File): seq<nat>
      reads f.Dir()
    {
      if f.dirFile == null then [] else f.dirFile.chain
    }

    /** `write` as a file's owner calls it. The entry's size is brought up to date before it is known whether there is
        room. */
    method Write(f: File, offset: nat, buf: Row, date: Row, time: Row) returns (count: nat)
      requires Valid() && FileOk(f) && EntryOk(f) && Quot(offset, clusterSize) <= |f.chain| && |date| == |time| == 2
      modifies this`fat, this`rows, f`clusters, f`chainRead, f`chain, f`size
      modifies f.Dir()`clusters, f.Dir()`chainRead, f.Dir()`chain
      ensures Valid() && f.chainRead && count <= |buf|
      ensures count < |buf| ==> Full(old(Free()), offset + count, f.clusters, |old(f.chain)|)
      ensures count == |buf| <==> HasRoom(old(Free()), |old(f.chain)|, offset, |buf|)
      ensures f.size == if f.dirFile != null then NewSize(old(f.size), offset, |buf|) else old(f.size)
      ensures WriteDone(old(rows), rows, clusterSize, old(Free()), old(f.chain), f.clusters, old(DirChain(f)), offset,
                        buf[..count])
      ensures InTable(old(fat), f.clusters)
      ensures fat == if |f.clusters| > |old(f.chain)| then WriteChain(width, old(fat), f.clusters) else old(fat)
      ensures f.chain == f.clusters && (FileOk(f) <==> Grown(width, old(f.chain), f.clusters))
      ensures Grown(width, old(f.chain), f.clusters) ==> Distinct(f.clusters)
      ensures f.dirFile != null ==> FileOk(f.dirFile) && f.dirFile.chain == old(f.dirFile.chain)
      ensures f.dirFile != null ==>
                Bytes(f.dirFile) ==
                Stamped(old(Bytes(f.dirFile)), f.dirOffset, date, time, |buf| + offset > old(f.size), f.size)
    {
      hide Written, WriteDone, Placed, Square, Quot, FreeFrom, Leads, InTable, WriteChain, Grown, Full, HasRoom, Concat,
        Disjoint, Stamped;
      if f.dirFile != null {
        count := WriteWithEntry(f, f.dirFile, offset, buf, date, time);
      } else {
        ghost var rows0, cs0, free := rows, f.chain, Free();
        count := WritePlain(f, offset, buf);
        WrittenIsDone(rows0, rows0, rows, clusterSize, free, cs0, f.clusters, [], offset, buf[..count]);
      }
    }

    method WriteWithEntry(f: File, d: File, offset: nat, buf: Row, date: Row, time: Row) returns (count: nat)
      requires Valid() && FileOk(f) && FileOk(d) && d != f && Quot(offset, clusterSize) <= |f.chain|
      requires |date| == |time| == 2
      requires Disjoint(f.chain, d.chain) && Disjoint(d.chain, f.chain) && !IsEoc(width, d.chain[0])
      requires f.dirOffset + ENTRY_SIZE <= |Bytes(d)|
      modifies this`fat, this`rows, f`clusters, f`chainRead, f`chain, f`size, d`clusters, d`chainRead, d`chain
      ensures Valid() && f.chainRead && count <= |buf|
      ensures f.size == NewSize(old(f.size), offset, |buf|)
      ensures count < |buf| ==> Full(old(Free()), offset + count, f.clusters, |old(f.chain)|)
      ensures count == |buf| <==> HasRoom(old(Free()), |old(f.chain)|, offset, |buf|)
      ensures WriteDone(old(rows), rows, clusterSize, old(Free()), old(f.chain), f.clusters, old(d.chain),
                        offset, buf[..count])
      ensures InTable(old(fat), f.clusters)
      ensures fat == if |f.clusters| > |old(f.chain)| then WriteChain(width, old(fat), f.clusters) else old(fat)
      ensures f.chain == f.clusters && (FileOk(f) <==> Grown(width, old(f.chain), f.clusters))
      ensures Grown(width, old(f.chain), f.clusters) ==> Distinct(f.clusters)
      ensures FileOk(d) && d.chain == old(d.chain)
      ensures Bytes(d) == Stamped(old(Bytes(d)), f.dirOffset, date, time, |buf| + offset > old(f.size), f.size)
    {
      hide Valid, FileOk, Bytes, WriteDone, Quot, FreeFrom, InTable, WriteChain, Grown, Full, HasRoom, Disjoint,
        Untouched, Stamped, NewSize;
      ghost var rows0 := rows;
      var grows := GrowSize(f, offset, |buf|);
      UpdateBeside(f, d, grows, date, time);
      count := WriteBeside(f, offset, buf, d, rows0);
    }

    /** The start of `write`: the chain is read, and the size grows at once. */
    method GrowSize(f: File, offset: nat, len: nat) returns (grows: bool)
      requires Valid() && FileOk(f)
      modifies f`clusters, f`chainRead, f`size
      ensures FileOk(f) && f.chainRead && grows == (len + offset > old(f.size))
      ensures f.size == NewSize(old(f.size), offset, len)
    {
      if !f.chainRead {
        ReadChain(f);
      }
      grows := len + offset > f.size;
      if grows {
        f.size := (len + offset) % TWO_TO_32;
      }
    }

    /** Updating the entry leaves the file itself alone. */
    method UpdateBeside(f: File, d: File, newSize: bool, date: Row, time: Row)
      requires Valid() && FileOk(d) && f.dirOffset + ENTRY_SIZE <= |Bytes(d)| && |date| == |time| == 2
      requires FileOk(f) && f != d
      modifies this`fat, this`rows, d`clusters, d`chainRead, d`chain
      ensures Valid() && FileOk(d) && d.chain == old(d.chain) && fat == old(fat) && FileOk(f)
      ensures Bytes(d) == Stamped(old(Bytes(d)), f.dirOffset, date, time, newSize, f.size)
      ensures Untouched(old(rows), rows, d.chain)
    {
      hide Placed, Square, FreeFrom, Leads, InTable, Concat, Untouched, Stamped;
      ghost var rows0 := rows;
      UpdateEntry(f, d, newSize, date, time);
      PlacedKept(rows0, rows, f.chain, d.chain);
    }

    /** The rest of `write` after the entry in the directory `d` was brought up to date; `rows0` is the data before. */
    method WriteBeside(f: File, offset: nat, buf: Row, ghost d: File, ghost rows0: seq<Row>) returns (count: nat)
      requires Valid() && FileOk(f) && FileOk(d) && d != f && Quot(offset, clusterSize) <= |f.chain|
      requires Disjoint(f.chain, d.chain) && Disjoint(d.chain, f.chain) && !IsEoc(width, d.chain[0])
      requires Untouched(rows0, rows, d.chain) && f.chainRead
      modifies this`fat, this`rows, f`clusters, f`chainRead, f`chain
      ensures Valid() && f.chainRead && count <= |buf|
      ensures count < |buf| ==> Full(old(Free()), offset + count, f.clusters, |old(f.chain)|)
      ensures count == |buf| <==> HasRoom(old(Free()), |old(f.chain)|, offset, |buf|)
      ensures WriteDone(rows0, rows, clusterSize, old(Free()), old(f.chain), f.clusters, d.chain, offset, buf[..count])
      ensures InTable(old(fat), f.clusters)
      ensures fat == if |f.clusters| > |old(f.chain)| then WriteChain(width, old(fat), f.clusters) else old(fat)
      ensures f.chain == f.clusters && (FileOk(f) <==> Grown(width, old(f.chain), f.clusters))
      ensures Grown(width, old(f.chain), f.clusters) ==> Distinct(f.clusters)
      ensures FileOk(d) && Bytes(d) == old(Bytes(d))
    {
      hide Written, WriteDone, Placed, Square, Quot, FreeFrom, Leads, InTable, WriteChain, Grown, Full, HasRoom, Concat,
        Disjoint, Untouched;
      ghost var rows1, cs0, fat0, free, ds := rows, f.chain, fat, Free(), d.chain;
      FreeIsPlaced();
      count := WritePlain(f, offset, buf);
      WrittenFacts(rows1, rows, clusterSize, free, cs0, f.clusters, offset, buf[..count]);
      FreeDisjoint(width, fat0, ds, cs0, free, |f.clusters| - |cs0|);
      WrittenIsDone(rows0, rows1, rows, clusterSize, free, cs0, f.clusters, ds, offset, buf[..count]);
      OthersKept(rows1, rows, f.clusters, ds);
      ChainKept(width, fat0, f.clusters, ds);
    }

    /** `read`; only the directory entry's date of access changes. */
    method Read(f: File, offset: nat, sz: nat, date: Row) returns (buf: Row)
      requires Valid() && FileOk(f) && EntryOk(f) && |date| == 2 && f.size < TWO_TO_32 && offset < TWO_TO_64
      requires offset + ReadLength(f.size, offset, sz) <= |Bytes(f)|
      modifies this`fat, this`rows, f`clusters, f`chainRead
      modifies f.Dir()`clusters, f.Dir()`chainRead, f.Dir()`chain
      ensures Valid() && FileOk(f) && fat == old(fat) && Bytes(f) == old(Bytes(f))
      ensures buf == Bytes(f)[offset..offset + ReadLength(f.size, offset, sz)] && |buf| <= sz
      ensures offset <= f.size ==> offset + |buf| <= f.size && (|buf| == sz || offset + |buf| == f.size)
      ensures f.dirFile == null ==> rows == old(rows)
      ensures f.dirFile != null ==> FileOk(f.dirFile) && f.dirFile.chain == old(f.dirFile.chain)
      ensures f.dirFile != null ==> Untouched(old(rows), rows, f.dirFile.chain)
      ensures f.dirFile != null ==> Bytes(f.dirFile) == Splice(old(Bytes(f.dirFile)), f.dirOffset + ADATE, date)
    {
      var left := ReadLength(f.size, offset, sz);
      if !f.chainRead {
        ReadChain(f);
      }
      if f.dirFile != null {
        ghost var rows0 := rows;
        WriteInside(f.dirFile, f.dirOffset + ADATE, date);
        OthersKept(rows0, rows, f.dirFile.chain, f.chain);
      }
      buf := ReadOut(f, offset, left);
    }

    /** At most one cluster is needed behind those of the file, and there is one whose number is not an end of chain. */
    ghost predicate Extends(f: File, offset: nat, len: nat)
      requires numClusters <= |fat|
      reads this, f
    {
      && offset + len <= (|f.chain| + 1) * clusterSize && HasRoom(Free(), |f.chain|, offset, len)
      && (offset + len <= |f.chain| * clusterSize || BelowEoc(width, f.chain + [Free()]))
    }

    /** A write that extends the file by at most one cluster leaves file and directory in order, with the bytes in place
        and a size that covers them. */
    method WriteInOrder(f: File, offset: nat, buf: Row, date: Row, time: Row) returns (count: nat)
      requires Valid() && FileOk(f) && EntryOk(f) && Quot(offset, clusterSize) <= |f.chain| && |date| == |time| == 2
      requires Extends(f, offset, |buf|) && f.size < TWO_TO_32 && offset + |buf| < TWO_TO_32 && buf != []
      requires offset + |buf| <= f.size || f.dirFile != null
      modifies this`fat, this`rows, f`clusters, f`chainRead, f`chain, f`size
      modifies f.Dir()`clusters, f.Dir()`chainRead, f.Dir()`chain
      ensures Valid() && FileOk(f) && EntryOk(f) && count == |buf| && offset + |buf| <= f.size < TWO_TO_32
      ensures offset + |buf| <= |Bytes(f)| && Bytes(f)[offset..offset + |buf|] == buf
    {
      hide Placed, Square, Quot, FreeFrom, Leads, InTable, WriteChain, Grown, Full, Concat, Disjoint, Stamped,
        WriteDone;
      ghost var rows0, cs0, fat0, free, ds := rows, f.chain, fat, Free(), DirChain(f);
      FreeIsPlaced();
      count := Write(f, offset, buf, date, time);
      assert buf[..count] == buf;
      GrownOnce(width, rows0, rows, clusterSize, free, cs0, f.clusters, ds, offset, buf);
      BytesWritten(rows0, rows, clusterSize, free, cs0, f.clusters, ds, offset, buf);
      if f.dirFile != null { FreeDisjoint(width, fat0, ds, cs0, free, |f.clusters| - |cs0|); }
    }

    /** What is written is read back. */
    method WriteThenRead(f: File, offset: nat, buf: Row, date: Row, time: Row) returns (got: Row)
      requires Valid() && FileOk(f) && EntryOk(f) && Quot(offset, clusterSize) <= |f.chain| && |date| == |time| == 2
      requires Extends(f, offset, |buf|) && f.size < TWO_TO_32 && offset + |buf| < TWO_TO_32 && buf != []
      requires offset + |buf| <= f.size || f.dirFile != null
      modifies this`fat, this`rows, f`clusters, f`chainRead, f`chain, f`size
      modifies f.Dir()`clusters, f.Dir()`chainRead, f.Dir()`chain
      ensures Valid() && FileOk(f) && got == buf
    {
      hide Placed, Square, Quot, FreeFrom, Leads, InTable, Concat, Disjoint, Extends;
      var count := WriteInOrder(f, offset, buf, date, time);
      got := Read(f, offset, count, date);
    }

    /** The copy loop of `read`. */
    method ReadOut(f: File, offset0: nat, sz0: nat) returns (buf: Row)
      requires Valid() && FileOk(f) && f.chainRead && offset0 + sz0 <= |Bytes(f)|
      ensures buf == Bytes(f)[offset0..offset0 + sz0]
    {
      hide FileOk, Bytes;
      var offset, sz := offset0, sz0;
      buf := [];
      while sz > 0
        invariant 0 <= sz && offset + sz == offset0 + sz0 && offset0 <= offset && buf == Bytes(f)[offset0..offset]
      {
        var n, piece := ReadRound(f, offset, sz);
        assert Bytes(f)[offset0..offset] + Bytes(f)[offset..offset + n] == Bytes(f)[offset0..offset + n];
        buf := buf + piece;
        offset, sz := offset + n, sz - n;
      }
    }

    /** One round of that loop: what is wanted of one cluster. */
    method ReadRound(f: File, offset: nat, sz: nat) returns (n: nat, piece: Row)
      requires Valid() && FileOk(f) && f.chainRead && sz > 0 && offset + sz <= |Bytes(f)|
      ensures 0 < n <= sz && piece == Bytes(f)[offset..offset + n]
    {
      hide Square, Placed, Leads, InTable, Concat, Quot, Rem;
      QuotRem(offset, clusterSize);
      QuotFits(rows, clusterSize, f.chain, offset);
      var k, o := offset / clusterSize, offset % clusterSize;
      n := if sz >= clusterSize - o then clusterSize - o else sz;
      RowIsSlice(rows, clusterSize, f.chain, offset, n);
      PlacedAt(rows, clusterSize, f.chain, k);
      piece := rows[f.clusters[k] - 2][o..o + n];
    }
  }

  /** What a chain says at its `k`-th cluster. */
  lemma {:induction false} LeadsAt(w: Width, fat: seq<nat>, cs: seq<nat>, k: nat)
    requires Leads(w, fat, cs) && k < |cs| && !IsEoc(w, cs[0])
    ensures 0 < cs[k] < |fat|
    ensures if k == |cs| - 1 then IsEoc(w, Next(w, fat[cs[k]])) else cs[k + 1] == Next(w, fat[cs[k]])
    decreases k
  {
    if k > 0 { LeadsAt(w, fat, cs[1..], k - 1); }
  }
}
