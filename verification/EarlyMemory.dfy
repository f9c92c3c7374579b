/** The bump allocator of src/early_pmm.c: pages are taken off the front of the boot ranges, in place. */
module EarlyMemory {
  import opened Bitmaps
  import opened Powers
  import opened BuddyAllocator

  const MB: nat := 0x10_0000
  const GB4: nat := 0x1_0000_0000

  ghost predicate InRange(r: Range, b: nat) {
    r.start <= b < r.start + r.extent
  }

  ghost predicate Apart(r: Range, r': Range) {
    r.start + r.extent <= r'.start || r'.start + r'.extent <= r.start
  }

  ghost predicate AllApart(rs: seq<Range>) {
    forall i, j | 0 <= i < j < |rs| :: Apart(rs[i], rs[j])
  }

  ghost predicate AllWithin(rs: seq<Range>, max: nat) {
    forall i | 0 <= i < |rs| :: rs[i].start + rs[i].extent <= max
  }

  /** The page of bytes at `a`. */
  function PageAt(a: nat): Range {
    Range(a, PAGE)
  }

  /** A range that `early_alloc_page` is willing to take from: more than a page left, and a start in [1MB, 4GB). */
  predicate Usable(r: Range) {
    r.extent > PAGE && MB <= r.start < GB4
  }

  /** What is left of `r` after its first page was taken. */
  function Bumped(r: Range): Range
    requires r.extent >= PAGE
  {
    Range(r.start + PAGE, r.extent - PAGE)
  }

  /** How many pages the range can give: each but the last, even if that is only a part, as long as it
      starts below 4GB. */
  function RangePages(r: Range): nat {
    if r.extent > 0 && MB <= r.start < GB4 then Min((r.extent - 1) / PAGE, (GB4 - r.start + PAGE - 1) / PAGE) else 0
  }

  /** How many pages the early allocator can still give. */
  function EarlyPages(rs: seq<Range>): nat {
    if rs == [] then 0 else EarlyPages(rs[..|rs| - 1]) + RangePages(rs[|rs| - 1])
  }

  lemma UsablePages(r: Range)
    ensures Usable(r) <==> RangePages(r) > 0
    ensures Usable(r) ==> RangePages(Bumped(r)) == RangePages(r) - 1
  {
    if Usable(r) {
      assert (r.extent - PAGE - 1) / PAGE == (r.extent - 1) / PAGE - 1;
      if r.start + PAGE < GB4 { assert (GB4 - r.start - 1) / PAGE == (GB4 - r.start + PAGE - 1) / PAGE - 1; }
    }
  }

  lemma {:induction false} NoEarlyPages(rs: seq<Range>)
    ensures EarlyPages(rs) == 0 <==> forall i | 0 <= i < |rs| :: !Usable(rs[i])
  {
    if rs != [] {
      NoEarlyPages(rs[..|rs| - 1]);
      UsablePages(rs[|rs| - 1]);
    }
  }

  lemma {:induction false} OneEarlyPage(rs: seq<Range>, i: nat)
    requires i < |rs| && Usable(rs[i])
    ensures EarlyPages(rs[i := Bumped(rs[i])]) == EarlyPages(rs) - 1
  {
    var n, rs' := |rs| - 1, rs[i := Bumped(rs[i])];
    if i < n {
      OneEarlyPage(rs[..n], i);
      assert rs'[..n] == rs[..n][i := Bumped(rs[i])];
    } else {
      UsablePages(rs[i]);
      assert rs'[..n] == rs[..n];
    }
  }

  /** The pages `early` were cut off the fronts of `initial`, and `now` is exactly what remains. */
  ghost predicate Cut(initial: seq<Range>, now: seq<Range>, early: set<nat>) {
    && |now| == |initial|
    && (forall i | 0 <= i < |now| ::
          initial[i].start <= now[i].start && now[i].start + now[i].extent == initial[i].start + initial[i].extent)
    && (forall a | a in early :: exists i :: 0 <= i < |now| && CutFrom(initial, now, i, a))
    && (forall a, a' | a in early && a' in early && a != a' :: Apart(PageAt(a), PageAt(a')))
    && (forall i, b: nat | 0 <= i < |now| && initial[i].start <= b < now[i].start :: InEarly(early, b))
  }

  /** Page `a` lies in the part already cut off range `i`. */
  ghost predicate CutFrom(initial: seq<Range>, now: seq<Range>, i: nat, a: nat)
    requires i < |now| == |initial|
  {
    initial[i].start <= a && a + PAGE <= now[i].start && MB <= a < GB4
  }

  ghost predicate InEarly(early: set<nat>, b: nat) {
    exists a :: a in early && InRange(PageAt(a), b)
  }

  /** Nothing that remains overlaps a page already given out. */
  lemma EarlyNeverRemains(initial: seq<Range>, now: seq<Range>, early: set<nat>, a: nat, i: nat)
    requires AllApart(initial) && Cut(initial, now, early) && a in early && i < |now|
    ensures now[i].extent > 0 ==> Apart(PageAt(a), now[i])
  {
    var k: nat :| k < |now| && CutFrom(initial, now, k, a);
    if k < i { assert Apart(initial[k], initial[i]); }
    if i < k { assert Apart(initial[i], initial[k]); }
  }

  /** Every byte of the boot memory is in a page given out or still remains, and never both. */
  lemma EarlyConserves(initial: seq<Range>, now: seq<Range>, early: set<nat>, b: nat)
    requires AllApart(initial) && Cut(initial, now, early)
    ensures (exists i | 0 <= i < |initial| :: InRange(initial[i], b))
       <==> InEarly(early, b) || exists i | 0 <= i < |now| :: InRange(now[i], b)
    ensures InEarly(early, b) ==> forall i | 0 <= i < |now| :: !InRange(now[i], b)
  {
    if i: nat :| i < |initial| && InRange(initial[i], b) {
      if b >= now[i].start { assert InRange(now[i], b); }
    }
    if InEarly(early, b) {
      var a :| a in early && InRange(PageAt(a), b);
      var k: nat :| k < |now| && CutFrom(initial, now, k, a);
      assert InRange(initial[k], b);
      forall i: nat | i < |now| { EarlyNeverRemains(initial, now, early, a, i); }
    }
    if i: nat :| i < |now| && InRange(now[i], b) {
      assert InRange(initial[i], b);
    }
  }

  /** Taking one page from a usable range keeps the account straight. */
  lemma CutOne(initial: seq<Range>, now: seq<Range>, early: set<nat>, i: nat)
    requires AllApart(initial) && Cut(initial, now, early) && i < |now| && Usable(now[i])
    ensures now[i].start !in early
    ensures Cut(initial, now[i := Bumped(now[i])], early + {now[i].start})
  {
    var now', early' := now[i := Bumped(now[i])], early + {now[i].start};
    forall a | a in early
      ensures Apart(PageAt(a), PageAt(now[i].start))
      ensures exists k :: 0 <= k < |now'| && CutFrom(initial, now', k, a)
    {
      EarlyNeverRemains(initial, now, early, a, i);
      var k: nat :| k < |now| && CutFrom(initial, now, k, a);
      assert CutFrom(initial, now', k, a);
    }
    assert CutFrom(initial, now', i, now[i].start);
    forall j: nat, b: nat | j < |now'| && initial[j].start <= b < now'[j].start
      ensures InEarly(early', b)
    {
      if j == i && b >= now[i].start {
        assert InRange(PageAt(now[i].start), b);
      } else {
        assert InEarly(early, b);
      }
    }
  }
}
