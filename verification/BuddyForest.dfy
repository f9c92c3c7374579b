/** The tree of buddy blocks, and the canonical form that src/adt/buddy.c keeps its bitmaps in.

    Pages are numbered from the start of the region. Block `i` of order `k` is the run of `Pow2(k)` pages
    starting at page `i * Pow2(k)`; the kernel's sizes 2^12 to 2^28 are the orders 0 to 16. */
module BuddyForest {
  import opened Powers

  const MIN_LOG2: nat := 12
  const MAX_LOG2: nat := 28
  const TOP: nat := MAX_LOG2 - MIN_LOG2

  /** One set of bit numbers for each order. */
  type Orders = seq<set<nat>>

  /** The pages of block `i` of order `k`: those whose number, shifted right by `k`, is `i`. */
  ghost function Pages(k: nat, i: nat): set<nat> {
    set p: nat | p < Shl(i + 1, k) && Shr(p, k) == i
  }

  ghost predicate Below(s: set<nat>, n: nat) {
    forall p | p in s :: p < n
  }

  ghost function With(o: Orders, k: nat, i: nat): Orders
    requires k < |o|
  {
    o[k := o[k] + {i}]
  }

  ghost function Without(o: Orders, k: nat, i: nat): Orders
    requires k < |o|
  {
    o[k := o[k] - {i}]
  }

  /** `x ^ 1`: the sibling of a node. */
  function Sibling(i: nat): nat {
    if i % 2 == 0 then i + 1 else i - 1
  }

  ghost predicate Free(f: set<nat>, k: nat, i: nat) {
    Pages(k, i) <= f
  }

  /** Some block of order `k` is wholly free. */
  ghost predicate HasBlock(f: set<nat>, k: nat) {
    exists i: nat :: Free(f, k, i)
  }

  /** A wholly free block that is not part of a larger wholly free block. */
  ghost predicate Maximal(f: set<nat>, k: nat, i: nat) {
    Free(f, k, i) && (k < TOP ==> !Free(f, k + 1, i / 2))
  }

  /** The numbers of the maximal wholly free blocks of order `k`. */
  ghost function MaximalBlocks(f: set<nat>, k: nat): set<nat> {
    set p | p in f && Maximal(f, k, Shr(p, k)) :: Shr(p, k)
  }

  ghost function ForestBelow(f: set<nat>, n: nat): (r: Orders)
    ensures |r| == n
  {
    if n == 0 then [] else ForestBelow(f, n - 1) + [MaximalBlocks(f, n - 1)]
  }

  /** The canonical form: the bitmaps that the free pages `f` call for. */
  ghost function Forest(f: set<nat>): (r: Orders)
    ensures |r| == TOP + 1
  {
    ForestBelow(f, TOP + 1)
  }

  // ---------- the geometry of blocks

  lemma PagesAreBlocks(k: nat, i: nat, p: nat)
    ensures p in Pages(k, i) <==> Shr(p, k) == i
  {
    ShrBounds(p, k);
    ShlIsTimes(i + 1, k);
    assert (i + 1) * Pow2(k) == i * Pow2(k) + Pow2(k);
  }

  /** A block is a run of `Pow2(k)` pages. */
  lemma PagesAreRuns(k: nat, i: nat, p: nat)
    ensures p in Pages(k, i) <==> i * Pow2(k) <= p < i * Pow2(k) + Pow2(k)
  {
    PagesAreBlocks(k, i, p);
    ShrBounds(p, k);
    if i * Pow2(k) <= p < i * Pow2(k) + Pow2(k) { ShrUnique(p, k, i); }
  }

  lemma PagesHalve(k: nat, i: nat)
    ensures Pages(k + 1, i) == Pages(k, 2 * i) + Pages(k, 2 * i + 1)
    ensures Pages(k, 2 * i) !! Pages(k, 2 * i + 1)
  {
    forall p: nat
      ensures p in Pages(k + 1, i) <==> p in Pages(k, 2 * i) || p in Pages(k, 2 * i + 1)
    {
      PagesAreBlocks(k + 1, i, p);
      PagesAreBlocks(k, 2 * i, p);
      PagesAreBlocks(k, 2 * i + 1, p);
    }
  }

  lemma {:induction false} PagesNonempty(k: nat, i: nat)
    ensures Shl(i, k) in Pages(k, i)
    decreases k
  {
    if k == 0 {
      PagesAreBlocks(0, i, i);
    } else {
      PagesNonempty(k - 1, 2 * i);
      PagesHalve(k - 1, i);
    }
  }

  /** Two blocks are nested or disjoint: the smaller lies in the ancestor it climbs to, and meets no other block. */
  lemma Nested(k: nat, m: nat, j: nat, i: nat)
    requires k <= j
    ensures Shr(m, j - k) == i ==> Pages(k, m) <= Pages(j, i)
    ensures Shr(m, j - k) != i ==> Pages(k, m) !! Pages(j, i)
  {
    forall p | p in Pages(k, m)
      ensures p in Pages(j, i) <==> Shr(m, j - k) == i
    {
      PagesAreBlocks(k, m, p);
      PagesAreBlocks(j, i, p);
      ShrShr(p, k, j - k);
    }
  }

  /** The FIXME at lines 180-181: if both halves lie below `n` pages, so does their parent. */
  lemma ParentInExtent(k: nat, i: nat, n: nat)
    requires Below(Pages(k, i), n) && Below(Pages(k, Sibling(i)), n)
    ensures Below(Pages(k + 1, i / 2), n)
  {
    PagesHalve(k, i / 2);
  }

  // ---------- the canonical form determines, and is determined by, the free pages

  lemma {:induction false} ForestBelowAt(f: set<nat>, n: nat, k: nat)
    requires k < n
    ensures ForestBelow(f, n)[k] == MaximalBlocks(f, k)
  {
    if k < n - 1 { ForestBelowAt(f, n - 1, k); }
  }

  /** Bit `i` of order `k` is set iff the block is wholly free and its parent, below the top order, is not. */
  lemma ForestBit(f: set<nat>, k: nat, i: nat)
    requires k <= TOP
    ensures i in Forest(f)[k] <==> Maximal(f, k, i)
  {
    ForestBelowAt(f, TOP + 1, k);
    PagesNonempty(k, i);
    PagesAreBlocks(k, i, Shl(i, k));
  }

  ghost predicate SameBits(f: set<nat>, o: Orders) {
    |o| == TOP + 1 && forall k: nat, i: nat | k <= TOP :: i in o[k] <==> Maximal(f, k, i)
  }

  lemma ForestUnique(f: set<nat>, o: Orders)
    ensures o == Forest(f) <==> SameBits(f, o)
  {
    forall k: nat, i: nat | k <= TOP { ForestBit(f, k, i); }
    if SameBits(f, o) {
      forall k: nat | k <= TOP
        ensures o[k] == Forest(f)[k]
      {
        assert forall i: nat :: i in o[k] <==> i in Forest(f)[k];
      }
    }
  }

  lemma {:induction false} Climb(f: set<nat>, k: nat, i: nat) returns (j: nat)
    requires k <= TOP && Free(f, k, i)
    ensures k <= j <= TOP && Shr(i, j - k) in Forest(f)[j] && Maximal(f, j, Shr(i, j - k))
    decreases TOP - k
  {
    if k < TOP && Free(f, k + 1, i / 2) {
      j := Climb(f, k + 1, i / 2);
      ShrStep(i, j - k - 1);
    } else {
      j := k;
      ForestBit(f, k, i);
    }
  }

  /** The bitmaps lose nothing: different free pages have different bitmaps. */
  lemma ForestInjective(f: set<nat>, f': set<nat>)
    requires Forest(f) == Forest(f')
    ensures f == f'
  {
    ForestIncludes(f, f');
    ForestIncludes(f', f);
  }

  lemma ForestIncludes(f: set<nat>, f': set<nat>)
    requires Forest(f) == Forest(f')
    ensures f <= f'
  {
    forall p | p in f
      ensures p in f'
    {
      forall q: nat { PagesAreBlocks(0, p, q); }
      var j := Climb(f, 0, p);
      PagesAreBlocks(j, Shr(p, j), p);
      ForestBit(f', j, Shr(p, j));
    }
  }

  /** Set bits stand for disjoint blocks: no page is listed twice, at one order or at two. */
  lemma BitsDisjoint(f: set<nat>, k: nat, i: nat, k': nat, i': nat)
    requires k <= k' <= TOP && i in Forest(f)[k] && i' in Forest(f)[k'] && (k, i) != (k', i')
    ensures Pages(k, i) !! Pages(k', i')
  {
    ForestBit(f, k, i);
    ForestBit(f, k', i');
    Nested(k, i, k', i');
    if k < k' {
      ShrStep(i, k' - k - 1);
      Nested(k + 1, i / 2, k', i');
    }
  }

  // ---------- adding and removing one block

  ghost predicate CanAdd(f: set<nat>, k: nat, i: nat) {
    k <= TOP && Pages(k, i) !! f && (k < TOP ==> !Free(f, k, Sibling(i)))
  }

  lemma FreeAfterAdd(f: set<nat>, j: nat, i: nat, k: nat, m: nat)
    requires CanAdd(f, j, i) && k <= TOP
    ensures Free(f + Pages(j, i), k, m) <==> Free(f, k, m) || (k <= j && Shr(m, j - k) == i)
  {
    hide Pages, Shr;
    if k <= j {
      Nested(k, m, j, i);
    } else {
      var n := k - j - 1;
      Nested(j, i, k, m);
      Nested(j, Sibling(i), k, m);
      ShrStep(i, n);
      ShrStep(Sibling(i), n);
      PagesHalve(j, i / 2);
      PagesNonempty(j, i);
    }
  }

  lemma MaximalAfterAdd(f: set<nat>, j: nat, i: nat, k: nat, m: nat)
    requires CanAdd(f, j, i) && k <= TOP
    ensures Maximal(f + Pages(j, i), k, m) <==> (k == j && m == i) || Maximal(f, k, m)
  {
    FreeAfterAdd(f, j, i, k, m);
    if k < TOP { FreeAfterAdd(f, j, i, k + 1, m / 2); }
    if k < j { ShrStep(m, j - k - 1); }
    if k <= j && Shr(m, j - k) == i {
      Nested(k, m, j, i);
      PagesNonempty(k, m);
    }
    if k == j && m == i && k < TOP {
      PagesHalve(k, i / 2);
    }
  }

  /** Freeing a block whose buddy is not wholly free sets one bit and changes no other. */
  lemma AddBlock(f: set<nat>, k: nat, i: nat)
    requires CanAdd(f, k, i)
    ensures Forest(f + Pages(k, i)) == With(Forest(f), k, i)
    ensures Without(With(Forest(f), k, i), k, i) == Forest(f)
  {
    var g := f + Pages(k, i);
    ForestUnique(f, Forest(f));
    forall k': nat, m: nat | k' <= TOP { MaximalAfterAdd(f, k, i, k', m); }
    ForestUnique(g, With(Forest(f), k, i));
    HeldBitClear(f, k, i);
  }

  /** A held block has no bit set: setting its bit can be undone. */
  lemma HeldBitClear(f: set<nat>, k: nat, i: nat)
    requires k <= TOP && Pages(k, i) !! f
    ensures i !in Forest(f)[k] && Without(With(Forest(f), k, i), k, i) == Forest(f)
  {
    ForestBit(f, k, i);
    PagesNonempty(k, i);
    assert Forest(f)[k] + {i} - {i} == Forest(f)[k];
  }

  /** Taking a block whose bit is set clears that bit and changes no other. */
  lemma RemoveBlock(f: set<nat>, k: nat, i: nat)
    requires k <= TOP && i in Forest(f)[k]
    ensures Pages(k, i) <= f && CanAdd(f - Pages(k, i), k, i)
    ensures Forest(f - Pages(k, i)) == Without(Forest(f), k, i)
    ensures With(Without(Forest(f), k, i), k, i) == Forest(f)
  {
    var g := f - Pages(k, i);
    ForestBit(f, k, i);
    PagesHalve(k, i / 2);
    assert g + Pages(k, i) == f;
    AddBlock(g, k, i);
  }

  /** A freed block whose buddy's bit is clear, or of the top order, settles where it is. */
  lemma Settle(f: set<nat>, k: nat, i: nat)
    requires k <= TOP && Pages(k, i) !! f && (k < TOP ==> Sibling(i) !in Forest(f)[k])
    ensures Forest(f + Pages(k, i)) == With(Forest(f), k, i)
  {
    if k < TOP {
      PagesHalve(k, i / 2);
      PagesNonempty(k, i);
      ForestBit(f, k, Sibling(i));
    }
    AddBlock(f, k, i);
  }

  /** A freed block whose buddy's bit is set merges with it into their parent, one order up. */
  lemma Coalesce(f: set<nat>, k: nat, i: nat)
    requires k < TOP && Pages(k, i) !! f && Sibling(i) in Forest(f)[k]
    ensures Forest(f - Pages(k, Sibling(i))) == Without(Without(Forest(f), k, i), k, Sibling(i))
    ensures Pages(k + 1, i / 2) !! f - Pages(k, Sibling(i))
    ensures f - Pages(k, Sibling(i)) + Pages(k + 1, i / 2) == f + Pages(k, i)
  {
    PagesHalve(k, i / 2);
    HeldBitClear(f, k, i);
    RemoveBlock(f, k, Sibling(i));
    assert Forest(f)[k] - {i} == Forest(f)[k];
    assert Without(Forest(f), k, i) == Forest(f);
  }

  /** Splitting a held block: with its right half given back, the left half is what is still held. */
  lemma SplitBlock(f: set<nat>, k: nat, i: nat)
    requires k < TOP && Pages(k + 1, i) !! f
    ensures Without(With(Forest(f), k + 1, i), k + 1, i) == Forest(f)
    ensures Forest(f + Pages(k, 2 * i + 1)) == With(Forest(f), k, 2 * i + 1)
    ensures Pages(k, 2 * i) !! f + Pages(k, 2 * i + 1)
    ensures f + Pages(k + 1, i) == f + Pages(k, 2 * i + 1) + Pages(k, 2 * i)
  {
    HeldBitClear(f, k + 1, i);
    PagesHalve(k, i);
    PagesNonempty(k, 2 * i);
    assert Sibling(2 * i + 1) == 2 * i;
    AddBlock(f, k, 2 * i + 1);
  }

  /** All pages held: every bitmap is empty. */
  ghost function EmptyOrders(n: nat): (r: Orders)
    ensures |r| == n && forall k | 0 <= k < n :: r[k] == {}
  {
    if n == 0 then [] else EmptyOrders(n - 1) + [{}]
  }

  lemma ForestOfNothing()
    ensures Forest({}) == EmptyOrders(TOP + 1)
  {
    forall k: nat, i: nat | k <= TOP
      ensures !Maximal({}, k, i)
    {
      PagesNonempty(k, i);
    }
    ForestUnique({}, EmptyOrders(TOP + 1));
  }

  // ---------- what an allocation takes

  /** The search at lines 104-112: the first order from `k` up with a set bit, and the least bit of that order. */
  ghost predicate BestFit(o: Orders, k: nat, j: nat, i: nat) {
    && |o| == TOP + 1 && k <= j <= TOP && i in o[j]
    && (forall j' | k <= j' < j :: o[j'] == {})
    && (forall i' | i' in o[j] :: i <= i')
  }

  /** The search succeeds exactly when some block of order `k` is wholly free. */
  lemma SearchComplete(f: set<nat>, k: nat)
    requires k <= TOP
    ensures (exists j | k <= j <= TOP :: Forest(f)[j] != {}) <==> exists i: nat :: Free(f, k, i)
  {
    if i: nat :| Free(f, k, i) {
      var j := Climb(f, k, i);
      assert Forest(f)[j] != {};
    }
    if j :| k <= j <= TOP && Forest(f)[j] != {} {
      var i :| i in Forest(f)[j];
      ForestBit(f, j, i);
      Leftmost(k, j, i);
      assert Free(f, k, FirstInside(k, j, i));
    }
  }

  /** The first block of order `k` inside block `i` of order `j`. */
  function FirstInside(k: nat, j: nat, i: nat): nat
    requires k <= j
  {
    Shl(i, j - k)
  }

  lemma {:induction false} Leftmost(k: nat, j: nat, i: nat)
    requires k <= j
    ensures Pages(k, FirstInside(k, j, i)) <= Pages(j, i)
    ensures k < j ==> FirstInside(k, j, i) == FirstInside(k, j - 1, 2 * i)
    decreases j - k
  {
    if k < j {
      PagesHalve(j - 1, i);
      Leftmost(k, j - 1, 2 * i);
    }
  }

  // ---------- histories

  /** The pages of a list of blocks, each an order and a number. */
  ghost function AllPages(blocks: seq<(nat, nat)>): set<nat> {
    if blocks == [] then {} else Pages(blocks[0].0, blocks[0].1) + AllPages(blocks[1..])
  }

  lemma {:induction false} InAllPages(blocks: seq<(nat, nat)>, p: nat)
    ensures p in AllPages(blocks) <==> exists b | b in multiset(blocks) :: p in Pages(b.0, b.1)
  {
    if blocks != [] {
      InAllPages(blocks[1..], p);
      assert blocks == [blocks[0]] + blocks[1..];
      assert multiset(blocks) == multiset{blocks[0]} + multiset(blocks[1..]);
    }
  }

  /** Blocks inside the first `n` pages that share no page with each other or with the free pages. */
  ghost predicate Returnable(f: set<nat>, n: nat, blocks: seq<(nat, nat)>)
    decreases |blocks|
  {
    blocks == []
    || (&& blocks[0].0 <= TOP && Below(Pages(blocks[0].0, blocks[0].1), n) && Pages(blocks[0].0, blocks[0].1) !! f
        && Returnable(f + Pages(blocks[0].0, blocks[0].1), n, blocks[1..]))
  }

  /** Blocks given back in any order leave the same bitmaps, bit for bit. */
  lemma FreeingOrderIrrelevant(f: set<nat>, blocks: seq<(nat, nat)>, blocks': seq<(nat, nat)>)
    requires multiset(blocks) == multiset(blocks')
    ensures Forest(f + AllPages(blocks)) == Forest(f + AllPages(blocks'))
  {
    forall p: nat
      ensures p in AllPages(blocks) <==> p in AllPages(blocks')
    {
      InAllPages(blocks, p);
      InAllPages(blocks', p);
    }
    assert AllPages(blocks) == AllPages(blocks');
  }

  /** A block taken out and given back in pieces leaves the bitmaps as before iff the pieces are the whole block. */
  lemma PiecesRestore(f: set<nat>, k: nat, i: nat, pieces: seq<(nat, nat)>)
    requires Free(f, k, i) && AllPages(pieces) <= Pages(k, i)
    ensures Forest(f - Pages(k, i) + AllPages(pieces)) == Forest(f) <==> AllPages(pieces) == Pages(k, i)
  {
    var g := f - Pages(k, i) + AllPages(pieces);
    if AllPages(pieces) == Pages(k, i) {
      assert g == f;
    }
    if Forest(g) == Forest(f) {
      ForestInjective(g, f);
    }
  }
}
