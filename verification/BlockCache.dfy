/** The disk block cache of src/block_cache.c: an intrusive doubly linked list of pages in order of use, shared by the
    caches of a group, and a hash table for each cache. */
module BlockCache {
  import opened LruOrder
  import HashTables
  import opened Options

  type Block = seq<nat>
  type List = seq<Entry<Page>>
  type Table = HashTables.HashTable<Page?>

  const PAGE_SIZE: nat := 4096

  /** `page_t`. */
  class Page {
    const cache: DiskCache
    const offset: nat
    const frame: nat
    var useCount: nat
    var next: Page?
    var prev: Page?

    constructor (cache: DiskCache, offset: nat, frame: nat)
      ensures this.cache == cache && this.offset == offset && this.frame == frame && useCount == 1
      ensures next == null && prev == null
    {
      this.cache, this.offset, this.frame, useCount, next, prev := cache, offset, frame, 1, null, null;
    }
  }

  /** `disk_cache_t`; the device is reduced to the contents of its blocks. */
  class DiskCache {
    /** Its position in the group. */
    ghost const id: nat
    const disk: nat -> Block
    const pages: Table

    constructor (ghost id: nat, disk: nat -> Block)
      ensures this.id == id && this.disk == disk && pages.Valid() && pages.contents == map[] && pages.zero == null
      ensures fresh(pages) && fresh(pages.buckets)
    {
      this.id, this.disk := id, disk;
      pages := new HashTables.HashTable(1031, null);
    }
  }

  function At(list: List, i: int): Page? {
    if 0 <= i < |list| then list[i].page else null
  }

  ghost function PageOf(list: List, c: nat, b: nat): Page? {
    match Lookup(list, c, b)
    case None => null
    case Some(e) => e.page
  }

  lemma PageOfDropped(list: List, k: nat, c: nat, b: nat)
    requires DistinctKeys(list) && k < |list|
    ensures PageOf(Drop(list, k), c, b) == if Is(list[k], c, b) then null else PageOf(list, c, b)
  {
    if Is(list[k], c, b) { LookupOwn(list, k); } else { LookupAfterDrop(list, k, c, b); }
  }

  /** What makes the entries of one list fit together: no key and no frame occurs twice. */
  ghost predicate Apart(list: List) {
    DistinctKeys(list) && forall i, j | 0 <= i < j < |list| :: list[i].page.frame != list[j].page.frame
  }

  /** `after` differs from `before` in one entry of one table. */
  ghost predicate OneEntry(before: List, after: List, c: nat, b: nat, pg: Page?) {
    forall c': nat, b': nat ::
      PageOf(after, c', b') == if c' == c && b' == b then pg else PageOf(before, c', b')
  }

  lemma TablesAfterDrop(list: List, k: nat)
    requires DistinctKeys(list) && k < |list|
    ensures OneEntry(list, Drop(list, k), list[k].cache, list[k].block, null)
  {
    forall c: nat, b: nat
      ensures PageOf(Drop(list, k), c, b) == if c == list[k].cache && b == list[k].block then null
              else PageOf(list, c, b)
    {
      PageOfDropped(list, k, c, b);
    }
  }

  ghost predicate SamePages(before: List, after: List) {
    forall c: nat, b: nat :: PageOf(after, c, b) == PageOf(before, c, b)
  }

  /** Changing a use count, or moving an entry to the front, changes neither which pages are cached nor their frames. */
  lemma UpdateSamePages(list: List, k: nat, n: nat)
    requires Apart(list) && k < |list|
    ensures var list' := list[k := WithUses(list[k], n)]; SamePages(list, list') && Apart(list')
  {
    forall c: nat, b: nat
      ensures PageOf(list[k := WithUses(list[k], n)], c, b) == PageOf(list, c, b)
    {
      LookupAfterUpdate(list, k, n, c, b);
    }
  }

  lemma MoveSamePages(list: List, k: nat)
    requires Apart(list) && k < |list|
    ensures var list' := [list[k]] + Drop(list, k); SamePages(list, list') && Apart(list')
  {
    var e, d := list[k], Drop(list, k);
    forall c: nat, b: nat
      ensures PageOf([e] + d, c, b) == PageOf(list, c, b)
    {
      assert ([e] + d)[1..] == d;
      if Is(e, c, b) { LookupOwn(list, k); } else { LookupAfterDrop(list, k, c, b); }
    }
    DropKeepsApart(list, k);
    forall j | 0 <= j < |d|
      ensures !Is(d[j], e.cache, e.block) && d[j].page.frame != e.page.frame
    {
      var j' := if j < k then j else j + 1;
      assert d[j] == list[j'] && (j' < k ==> !Is(e, d[j].cache, d[j].block));
    }
  }

  lemma TablesAfterMiss(list: List, e: Entry<Page>)
    requires !Cached(list, e.cache, e.block) && e.uses == 1
    ensures OneEntry(list, [e] + list, e.cache, e.block, e.page)
  {
    forall c: nat, b: nat
      ensures PageOf([e] + list, c, b) == if c == e.cache && b == e.block then e.page else PageOf(list, c, b)
    {
      LookupAfterGet(list, e.cache, e.block, e.page, c, b);
    }
  }

  lemma ConsKeepsApart(list: List, e: Entry<Page>)
    requires Apart(list) && !Cached(list, e.cache, e.block)
    requires forall i | 0 <= i < |list| :: list[i].page.frame != e.page.frame
    ensures Apart([e] + list)
  {
    var s := [e] + list;
    forall i, j | 0 <= i < j < |s|
      ensures !Is(s[j], s[i].cache, s[i].block) && s[i].page.frame != s[j].page.frame
    {
      assert s[j] == list[j - 1];
    }
  }

  lemma DropKeepsApart(list: List, k: nat)
    requires Apart(list) && k < |list|
    ensures Apart(Drop(list, k))
  {
    var d := Drop(list, k);
    assert forall i | 0 <= i < |d| :: d[i] == list[if i < k then i else i + 1];
  }

  /** What the eviction loop still does to the list, with `k` entries to look at and `n` pages to go. */
  ghost function EvictFrom(s: List, k: nat, n: nat): List
    requires k <= |s|
    decreases k
  {
    if n == 0 || k == 0 then s
    else if s[k - 1].uses == 0 then EvictFrom(Drop(s, k - 1), k - 1, n - 1)
    else EvictFrom(s, k - 1, n)
  }

  ghost predicate EnoughFrom(s: List, k: nat, n: nat)
    requires k <= |s|
    decreases k
  {
    if n == 0 || k == 0 then n == 0
    else if s[k - 1].uses == 0 then EnoughFrom(Drop(s, k - 1), k - 1, n - 1)
    else EnoughFrom(s, k - 1, n)
  }

  lemma EvictPeel(s: List, k: nat, n: nat)
    requires k < |s| && n > 0
    ensures s[k].uses == 0 ==> EvictFrom(s, k + 1, n) == EvictFrom(Drop(s, k), k, n - 1)
    ensures s[k].uses == 0 ==> EnoughFrom(s, k + 1, n) == EnoughFrom(Drop(s, k), k, n - 1)
    ensures s[k].uses > 0 ==> EvictFrom(s, k + 1, n) == EvictFrom(s, k, n)
    ensures s[k].uses > 0 ==> EnoughFrom(s, k + 1, n) == EnoughFrom(s, k, n)
  {
  }

  lemma {:induction false} LoopEvicts(s: List, k: nat, n: nat)
    requires k <= |s|
    ensures EvictFrom(s, k, n) == Evict(s[..k], n) + s[k..]
    ensures EnoughFrom(s, k, n) <==> Unused(s[..k]) >= n
    decreases k
  {
    if n > 0 && k > 0 {
      var front := s[..k][..k - 1];
      assert s[..k - 1] == front;
      if s[k - 1].uses == 0 {
        LoopEvicts(Drop(s, k - 1), k - 1, n - 1);
        assert Drop(s, k - 1)[..k - 1] == front && Drop(s, k - 1)[k - 1..] == s[k..];
      } else {
        LoopEvicts(s, k - 1, n);
        assert Evict(front, n) + s[k - 1..] == Evict(front, n) + [s[k - 1]] + s[k..];
      }
    }
  }

  lemma WholeLoopEvicts(s: List, n: nat)
    ensures EvictFrom(s, |s|, n) == Evict(s, n) && (EnoughFrom(s, |s|, n) <==> Unused(s) >= n)
  {
    LoopEvicts(s, |s|, n);
    assert s[..|s|] == s && s[|s|..] == [] && Evict(s, n) + [] == Evict(s, n);
  }

  class Group {
    var mru: Page?
    var lru: Page?
    /** The pages from `mru` to `lru`. */
    ghost var list: List
    /** Contains every page of the list. */
    ghost var repr: set<Page>
    /** Physical memory, by frame, as far as it holds cached blocks. */
    var memory: map<nat, Block>
    /** The frames that `alloc_page` can still give. */
    var pool: set<nat>
    ghost var caches: seq<DiskCache>
    ghost var tables: set<Table>
    ghost var chains: set<array<seq<HashTables.Bucket<Page?>>>>

    ghost predicate LinksOf(i: nat)
      requires i < |list|
      reads this`list, list[i].page`prev, list[i].page`next
    {
      list[i].page.prev == At(list, i - 1) && list[i].page.next == At(list, i + 1)
    }

    /** The pages are linked in the order of the list, both ways. */
    ghost predicate Linked()
      reads this`mru, this`lru, this`list, this`repr, repr`prev, repr`next
    {
      && mru == At(list, 0) && lru == At(list, |list| - 1)
      && (forall i | 0 <= i < |list| :: list[i].page in repr)
      && (forall i | 0 <= i < |list| :: LinksOf(i))
      && (forall i, j | 0 <= i < j < |list| :: list[i].page != list[j].page)
    }

    /** The part of `touch` and of `evict` that takes a page out of the list. */
    method Unlink(pg: Page, ghost k: nat)
      requires Linked() && k < |list| && list[k].page == pg
      modifies this`mru, this`lru, this`list, repr`prev, repr`next
      ensures Linked() && list == Drop(old(list), k)
    {
      ghost var s := list;
      assert LinksOf(k);
      assert k > 0 ==> s[k - 1].page in repr && LinksOf(k - 1);
      assert k + 1 < |s| ==> s[k + 1].page in repr && LinksOf(k + 1);
      if pg.prev != null {
        pg.prev.next := pg.next;
      }
      if pg.next != null {
        pg.next.prev := pg.prev;
      }
      if pg == lru {
        lru := pg.prev;
      }
      if pg == mru {
        mru := pg.next;
      }
      list := Drop(s, k);
      forall i | 0 <= i < |list|
        ensures LinksOf(i)
      {
        var j := if i < k then i else i + 1;
        assert list[i] == s[j] && old(LinksOf(j));
      }
    }

    /** The part of `touch` and of `disk_cache_get` that puts a page in front. */
    method PushFront(pg: Page, ghost e: Entry<Page>)
      requires Linked() && e.page == pg && forall i | 0 <= i < |list| :: list[i].page != pg
      modifies this`mru, this`lru, this`list, this`repr, repr`prev, pg`prev, pg`next
      ensures Linked() && list == [e] + old(list) && repr == old(repr) + {pg}
    {
      ghost var s := list;
      assert s != [] ==> s[0].page in repr && LinksOf(0);
      if mru != null {
        mru.prev := pg;
      }
      pg.prev := null;
      pg.next := mru;
      mru := pg;
      if lru == null {
        lru := pg;
      }
      list, repr := [e] + s, repr + {pg};
      forall i | 0 <= i < |list|
        ensures LinksOf(i)
      {
        if i > 0 { assert list[i] == s[i - 1] && old(LinksOf(i - 1)); }
      }
    }

    /** `touch`. */
    method Touch(pg: Page, ghost k: nat)
      requires Linked() && k < |list| && list[k].page == pg
      modifies this`mru, this`lru, this`list, this`repr, repr`prev, repr`next
      ensures Linked() && list == [old(list)[k]] + Drop(old(list), k) && repr == old(repr)
    {
      if pg == mru {
        assert k == 0 && list == [list[0]] + Drop(list, 0);
        return;
      }
      ghost var e := list[k];
      Unlink(pg, k);
      PushFront(pg, e);
    }

    /** The entry says what the page's fields say, and its frame holds the block of its device. */
    ghost predicate EntryFits(e: Entry<Page>)
      reads this`caches, this`pool, this`memory, e.page`useCount
    {
      && e.cache < |caches| && e.page.cache == caches[e.cache] && e.page.offset == e.block * PAGE_SIZE
      && e.page.useCount == e.uses && e.page.frame !in pool
      && e.page.frame in memory && memory[e.page.frame] == caches[e.cache].disk(e.block)
    }

    /** The non-zero entries of the table of cache `c` are the pages of the list that belong to it, by block number. */
    ghost predicate TableFits(l: List, c: nat)
      requires c < |caches|
      reads this`caches, caches[c].pages, caches[c].pages.buckets
    {
      && caches[c].id == c && caches[c].pages.Valid() && caches[c].pages.zero == null
      && forall b: nat :: HashTables.Value(caches[c].pages.contents, b, null) == PageOf(l, c, b)
    }

    ghost predicate TablesFit(l: List)
      reads this`caches, this`tables, this`chains, tables, chains
    {
      && (forall c | 0 <= c < |caches| :: caches[c].pages in tables && caches[c].pages.buckets in chains)
      && (forall c, d | 0 <= c < d < |caches| :: caches[c].pages != caches[d].pages
                                               && caches[c].pages.buckets != caches[d].pages.buckets)
      && (forall c | 0 <= c < |caches| :: TableFits(l, c))
    }

    ghost predicate EntriesFit(l: List)
      reads this`caches, this`pool, this`memory, this`repr, repr`useCount
    {
      forall i | 0 <= i < |l| :: l[i].page in repr && EntryFits(l[i])
    }

    ghost predicate Valid()
      reads this, repr, tables, chains
    {
      Linked() && Apart(list) && EntriesFit(list) && TablesFit(list)
    }

    /** Writes one entry of a hash table, as the list changes from `before` to `after`. */
    method Record(cache: DiskCache, block: nat, pg: Page?, ghost before: List, ghost after: List,
                  ghost entries: List)
      requires TablesFit(before) && cache.id < |caches| && cache == caches[cache.id]
      requires OneEntry(before, after, cache.id, block, pg)
      requires Linked() && EntriesFit(entries)
      modifies tables, chains
      ensures TablesFit(after) && Linked() && EntriesFit(entries)
    {
      assert TableFits(before, cache.id);
      cache.pages.Set(block, pg);
      forall c | 0 <= c < |caches|
        ensures TableFits(after, c)
      {
        assert old(TableFits(before, c));
      }
    }

    constructor (pool: set<nat>)
      ensures Valid() && list == [] && caches == [] && this.pool == pool && repr == {} && tables == {} && chains == {}
    {
      mru, lru, this.pool, memory := null, null, pool, map[];
      list, repr, caches, tables, chains := [], {}, [], {}, {};
    }

    lemma EntryKey(k: nat)
      requires k < |list| && EntriesFit(list) && TablesFit(list)
      ensures var pg := list[k].page;
              && pg.cache.id == list[k].cache < |caches| && pg.cache == caches[pg.cache.id]
              && pg.offset / PAGE_SIZE == list[k].block
    {
      assert EntryFits(list[k]) && TableFits(list, list[k].cache);
    }

    /** `free_page` for a page that has left the list. */
    method FreeFrame(ghost before: List, ghost k: nat, frame: nat)
      requires EntriesFit(before) && Apart(before) && k < |before| && frame == before[k].page.frame
      requires Linked() && TablesFit(before) && list == Drop(before, k)
      modifies this`pool
      ensures EntriesFit(list) && Linked() && TablesFit(before) && Apart(list)
      ensures pool == old(pool) + {frame} && frame !in old(pool)
    {
      hide LinksOf, TablesFit, DistinctKeys;
      assert EntryFits(before[k]);
      DropKeepsApart(before, k);
      pool := pool + {frame};
      forall i | 0 <= i < |before| - 1
        ensures Drop(before, k)[i].page in repr && EntryFits(Drop(before, k)[i])
      {
        ghost var j := if i < k then i else i + 1;
        assert Drop(before, k)[i] == before[j] && old(EntryFits(before[j])) && before[j].page.frame != frame;
      }
    }

    /** `evict`: the page's neighbour towards the front is returned. */
    method EvictPage(pg: Page, ghost k: nat) returns (prev: Page?)
      requires Valid() && k < |list| && list[k].page == pg
      modifies this`mru, this`lru, this`list, this`pool, repr`prev, repr`next, tables, chains
      ensures Valid() && list == Drop(old(list), k) && prev == At(old(list), k - 1)
      ensures pool == old(pool) + {pg.frame} && |pool| == |old(pool)| + 1 && |list| == |old(list)| - 1
    {
      hide Linked, TablesFit, EntriesFit;
      ghost var s := list;
      PageFields(k);
      EntryKey(k);
      prev := pg.prev;
      Unlink(pg, k);
      FreeFrame(s, k, pg.frame);
      TablesAfterDrop(s, k);
      Record(pg.cache, pg.offset / PAGE_SIZE, null, s, list, list);
    }

    lemma PageFields(k: nat)
      requires Valid() && k < |list|
      ensures list[k].page.useCount == list[k].uses && list[k].page.prev == At(list, k - 1)
      ensures list[k].page.frame in memory && list[k].page in repr
    {
      assert EntryFits(list[k]) && LinksOf(k);
    }

    lemma Ends()
      requires Valid()
      ensures mru == At(list, 0) && lru == At(list, |list| - 1)
    {
    }

    /** One round of the loop of `disk_cache_group_evict`. */
    method EvictOrSkip(pg: Page, n: nat, ghost k: nat) returns (prev: Page?, left: nat)
      requires Valid() && k < |list| && list[k].page == pg && n > 0
      modifies this`mru, this`lru, this`list, this`pool, repr`prev, repr`next, tables, chains
      ensures Valid() && k <= |list| && prev == At(list, k - 1)
      ensures EvictFrom(list, k, left) == EvictFrom(old(list), k + 1, n)
      ensures EnoughFrom(list, k, left) == EnoughFrom(old(list), k + 1, n)
      ensures old(pool) <= pool && |pool| + |list| == old(|pool| + |list|)
    {
      hide Valid, EvictFrom, EnoughFrom;
      PageFields(k);
      EvictPeel(list, k, n);
      if pg.useCount == 0 {
        prev := EvictPage(pg, k);
        left := n - 1;
        assert At(list, k - 1) == At(old(list), k - 1);
      } else {
        prev, left := pg.prev, n;
      }
    }

    /** `disk_cache_group_evict`. */
    method EvictBytes(bytes: nat) returns (all: bool)
      requires Valid()
      modifies this`mru, this`lru, this`list, this`pool, repr`prev, repr`next, tables, chains
      ensures Valid() && list == Evict(old(list), bytes / PAGE_SIZE)
      ensures all <==> Unused(old(list)) >= bytes / PAGE_SIZE
      ensures old(pool) <= pool && |pool| + |list| == old(|pool| + |list|)
    {
      hide Valid, Evict, Unused;
      ghost var s, k := list, |list|;
      Ends();
      var n: nat := bytes / PAGE_SIZE;
      var pg := lru;
      while n > 0 && pg != null
        invariant Valid() && 0 <= k <= |list| && pg == At(list, k - 1)
        invariant EvictFrom(list, k, n) == EvictFrom(s, |s|, bytes / PAGE_SIZE)
        invariant EnoughFrom(list, k, n) == EnoughFrom(s, |s|, bytes / PAGE_SIZE)
        invariant old(pool) <= pool && |pool| + |list| == old(|pool| + |list|)
        decreases k
      {
        k := k - 1;
        pg, n := EvictOrSkip(pg, n, k);
      }
      WholeLoopEvicts(s, bytes / PAGE_SIZE);
      all := n == 0;
    }

    lemma SameTables(before: List, after: List)
      requires TablesFit(before) && SamePages(before, after)
      ensures TablesFit(after)
    {
      forall c | 0 <= c < |caches|
        ensures TableFits(after, c)
      {
        assert TableFits(before, c);
      }
    }

    method SetUses(pg: Page, uses: nat, ghost k: nat)
      requires Valid() && k < |list| && list[k].page == pg
      modifies this`list, pg`useCount
      ensures Valid() && list == old(list)[k := WithUses(old(list)[k], uses)]
    {
      hide Linked, TablesFit, EntriesFit;
      ghost var t := list[k := WithUses(list[k], uses)];
      UpdateSamePages(list, k, uses);
      SameTables(list, t);
      SetCount(pg, uses, k);
      Relist(t);
    }

    method SetCount(pg: Page, uses: nat, ghost k: nat)
      requires EntriesFit(list) && Apart(list) && k < |list| && list[k].page == pg
      modifies pg`useCount
      ensures EntriesFit(list[k := WithUses(list[k], uses)])
    {
      pg.useCount := uses;
      ghost var t := list[k := WithUses(list[k], uses)];
      forall i | 0 <= i < |t|
        ensures t[i].page in repr && EntryFits(t[i])
      {
        assert old(EntryFits(list[i]));
      }
    }

    /** The links do not depend on the use counts. */
    ghost method Relist(t: List)
      requires Linked() && |t| == |list| && forall i | 0 <= i < |t| :: t[i].page == list[i].page
      modifies this`list
      ensures Linked() && list == t
    {
      ghost var s := list;
      list := t;
      forall i | 0 <= i < |list| ensures LinksOf(i) { assert old(LinksOf(i)); }
    }

    /** The hit of `disk_cache_get`. */
    method Hit(pg: Page, ghost k: nat)
      requires Valid() && k < |list| && list[k].page == pg
      modifies this`mru, this`lru, this`list, this`repr, repr
      ensures Valid() && list == [WithUses(old(list)[k], old(list)[k].uses + 1)] + Drop(old(list), k)
      ensures repr == old(repr)
    {
      hide Linked, TablesFit, EntriesFit;
      ghost var s := list;
      PageFields(k);
      SetUses(pg, pg.useCount + 1, k);
      ghost var t := list;
      MoveSamePages(t, k);
      SameTables(t, [t[k]] + Drop(t, k));
      MoveToFront(pg, k);
      assert Drop(t, k) == Drop(s, k);
    }

    /** `touch`, when the tables and entries are ready for it. */
    method MoveToFront(pg: Page, ghost k: nat)
      requires Linked() && k < |list| && list[k].page == pg && EntriesFit(list)
      requires Apart([list[k]] + Drop(list, k)) && TablesFit([list[k]] + Drop(list, k))
      modifies this`mru, this`lru, this`list, this`repr, repr`prev, repr`next
      ensures Valid() && list == [old(list)[k]] + Drop(old(list), k) && repr == old(repr)
    {
      Touch(pg, k);
    }

    /** A page newly got from the physical memory manager, filled from the device. */
    method NewPage(cache: DiskCache, block: nat) returns (pg: Page, ghost e: Entry<Page>)
      requires EntriesFit(list) && cache.id < |caches| && cache == caches[cache.id] && pool != {}
      requires Apart(list) && !Cached(list, cache.id, block) && Linked() && TablesFit(list)
      modifies this`pool, this`memory, this`repr
      ensures Linked() && TablesFit(list) && EntriesFit([e] + list) && Apart([e] + list)
      ensures e == Entry(pg, cache.id, block, 1) && fresh(pg) && pg.offset == block * PAGE_SIZE && pg.cache == cache
      ensures pg.frame in old(pool) && pool == old(pool) - {pg.frame} && repr == old(repr) + {pg}
      ensures memory == old(memory)[pg.frame := cache.disk(block)]
    {
      hide Linked, TablesFit, EntriesFit, Apart;
      var frame :| frame in pool;
      pg := new Page(cache, block * PAGE_SIZE, frame);
      e := Entry(pg, cache.id, block, 1);
      FillPage(pg, block, e);
    }

    /** The frame of a new page is taken, and filled from the device. */
    method FillPage(pg: Page, block: nat, ghost e: Entry<Page>)
      requires EntriesFit(list) && Apart(list) && Linked() && TablesFit(list)
      requires e == Entry(pg, pg.cache.id, block, 1) && !Cached(list, e.cache, block)
      requires e.cache < |caches| && pg.cache == caches[e.cache] && pg.frame in pool
      requires pg.offset == block * PAGE_SIZE && pg.useCount == 1 && pg !in repr
      modifies this`pool, this`memory, this`repr
      ensures Linked() && TablesFit(list) && EntriesFit([e] + list) && Apart([e] + list)
      ensures pool == old(pool) - {pg.frame} && repr == old(repr) + {pg}
      ensures memory == old(memory)[pg.frame := pg.cache.disk(block)]
    {
      hide LinksOf, TablesFit, Apart;
      OldFrames(pg.frame);
      pool, repr, memory := pool - {pg.frame}, repr + {pg}, memory[pg.frame := pg.cache.disk(block)];
      forall i | 0 <= i < |list|
        ensures list[i].page in old(repr) && EntryFits(list[i])
      {
        assert old(EntryFits(list[i]));
      }
      ConsKeepsApart(list, e);
    }

    lemma OldFrames(frame: nat)
      requires EntriesFit(list) && frame in pool
      ensures forall i | 0 <= i < |list| :: list[i].page.frame != frame
    {
      assert forall i | 0 <= i < |list| :: EntryFits(list[i]);
    }

    /** The miss of `disk_cache_get`. */
    method Miss(cache: DiskCache, block: nat) returns (pg: Page)
      requires Valid() && cache.id < |caches| && cache == caches[cache.id] && pool != {}
      requires !Cached(list, cache.id, block)
      modifies this`mru, this`lru, this`list, this`repr, this`pool, this`memory, repr, tables, chains
      ensures Valid() && list == [Entry(pg, cache.id, block, 1)] + old(list)
      ensures repr == old(repr) + {pg} && fresh(pg)
      ensures pg.frame in memory && memory[pg.frame] == cache.disk(block)
      ensures pg.frame in old(pool) && pool == old(pool) - {pg.frame}
    {
      hide TablesFit, EntriesFit, Apart, LinksOf;
      ghost var s := list;
      ghost var e;
      pg, e := NewPage(cache, block);
      TablesAfterMiss(s, e);
      Record(cache, block, pg, s, [e] + s, [e] + s);
      InsertFront(pg, e);
    }

    /** The new page heads the list, when all else is ready for it. */
    method InsertFront(pg: Page, ghost e: Entry<Page>)
      requires Linked() && Apart([e] + list) && EntriesFit([e] + list) && TablesFit([e] + list) && e.page == pg
      requires forall i | 0 <= i < |list| :: list[i].page != pg
      modifies this`mru, this`lru, this`list, this`repr, repr`prev, pg`prev, pg`next
      ensures Valid() && list == [e] + old(list) && repr == old(repr) + {pg}
    {
      PushFront(pg, e);
    }

    /** The look-up in the cache's hash table with which `get`, `release`, `is_cached` and `get_n_handles` start. */
    method FindPage(cache: DiskCache, addr: nat) returns (pg: Page?)
      requires Valid() && cache.id < |caches| && cache == caches[cache.id]
      ensures pg == PageOf(list, cache.id, addr / PAGE_SIZE)
      ensures pg != null <==> Cached(list, cache.id, addr / PAGE_SIZE)
      ensures pg != null ==> pg.useCount == Uses(list, cache.id, addr / PAGE_SIZE)
      ensures pg != null ==> pg.frame in memory && memory[pg.frame] == cache.disk(addr / PAGE_SIZE)
    {
      assert TableFits(list, cache.id);
      pg := cache.pages.Get(addr / PAGE_SIZE);
      if pg != null {
        assert EntryFits(list[Find(list, cache.id, addr / PAGE_SIZE)]);
      }
    }

    /** `disk_cache_get`. The frame is what gets mapped for the caller. A miss without a free frame fails an assertion,
        which stops the kernel, so nothing is promised about the state then. */
    method Get(cache: DiskCache, addr: nat) returns (ok: bool, frame: nat)
      requires Valid() && cache.id < |caches| && cache == caches[cache.id]
      modifies this`mru, this`lru, this`list, this`repr, this`pool, this`memory, repr, tables, chains
      ensures ok <==> Cached(old(list), cache.id, addr / PAGE_SIZE) || old(pool) != {}
      ensures ok ==> Valid() && list != [] && list == LruOrder.Get(old(list), cache.id, addr / PAGE_SIZE, list[0].page)
      ensures ok ==> frame == list[0].page.frame && frame in memory && memory[frame] == cache.disk(addr / PAGE_SIZE)
      ensures ok ==> |pool| + |list| == old(|pool| + |list|) && fresh(repr - old(repr))
      ensures !ok ==> Valid() && list == old(list) && pool == old(pool) && repr == old(repr)
    {
      hide Valid, Evict, Unused;
      var pg := FindPage(cache, addr);
      if pg != null {
        Hit(pg, Find(list, cache.id, addr / PAGE_SIZE));
        ok, frame := true, pg.frame;
      } else if pool == {} {
        ok, frame := false, 0;
      } else {
        pg := Miss(cache, addr / PAGE_SIZE);
        ok, frame := true, pg.frame;
      }
    }

    /** `disk_cache_release`; the caller holds the page. */
    method Release(cache: DiskCache, addr: nat)
      requires Valid() && cache.id < |caches| && cache == caches[cache.id]
      requires Allowed(list, OpRelease(cache.id, addr / PAGE_SIZE))
      modifies this`list, repr`useCount
      ensures Valid() && list == LruOrder.Release(old(list), cache.id, addr / PAGE_SIZE)
    {
      var pg := FindPage(cache, addr);
      ghost var k := Find(list, cache.id, addr / PAGE_SIZE);
      assert list[k].page in repr;
      SetUses(pg, pg.useCount - 1, k);
    }

    /** `disk_cache_is_cached`. */
    method IsCached(cache: DiskCache, addr: nat) returns (r: bool)
      requires Valid() && cache.id < |caches| && cache == caches[cache.id]
      ensures r <==> Cached(list, cache.id, addr / PAGE_SIZE)
    {
      var pg := FindPage(cache, addr);
      r := pg != null;
    }

    /** `disk_cache_get_n_handles`. */
    method Handles(cache: DiskCache, addr: nat) returns (n: nat)
      requires Valid() && cache.id < |caches| && cache == caches[cache.id]
      ensures n == Uses(list, cache.id, addr / PAGE_SIZE)
    {
      var pg := FindPage(cache, addr);
      n := if pg != null then pg.useCount else 0;
    }

    /** `disk_cache_new`. */
    method NewCache(disk: nat -> Block) returns (cache: DiskCache)
      requires Valid()
      modifies this`caches, this`tables, this`chains
      ensures Valid() && caches == old(caches) + [cache] && cache.id == |old(caches)| && cache.disk == disk
      ensures fresh(cache) && fresh(tables - old(tables)) && fresh(chains - old(chains))
    {
      hide Linked, Apart, EntriesFit, TablesFit;
      cache := new DiskCache(|caches|, disk);
      AddCache(cache);
    }

    /** A cache with an empty table joins the group. */
    ghost method AddCache(cache: DiskCache)
      requires Valid() && cache.id == |caches| && cache.pages.Valid() && cache.pages.zero == null
      requires cache.pages.contents == map[] && cache.pages !in tables && cache.pages.buckets !in chains
      modifies this`caches, this`tables, this`chains
      ensures Valid() && caches == old(caches) + [cache]
      ensures tables == old(tables) + {cache.pages} && chains == old(chains) + {cache.pages.buckets}
    {
      hide Linked, Apart;
      EntriesKnown();
      ghost var before := caches;
      caches, tables, chains := caches + [cache], tables + {cache.pages}, chains + {cache.pages.buckets};
      forall c | 0 <= c < |caches|
        ensures TableFits(list, c)
      {
        if c < |before| { assert caches[c] == before[c] && old(TableFits(list, c)); }
      }
      forall i | 0 <= i < |list|
        ensures list[i].page in repr && EntryFits(list[i])
      {
        assert old(EntryFits(list[i]));
      }
    }

    lemma EntriesKnown()
      requires EntriesFit(list)
      ensures forall b: nat :: PageOf(list, |caches|, b) == null
    {
      assert forall i | 0 <= i < |list| :: EntryFits(list[i]);
    }

    /** Nothing stops the kernel: the cache is one of the group, a miss finds a frame, and what is released is held. */
    ghost predicate Fine(call: Call)
      reads this
    {
      match call
      case CallGet(c, addr) => c < |caches| && (Cached(list, c, addr / PAGE_SIZE) || pool != {})
      case CallRelease(c, addr) => c < |caches| && Uses(list, c, addr / PAGE_SIZE) > 0
      case CallEvict(_) => true
    }

    /** One call on the caches `made`, which are those of the group; `op` is what it does to the list. */
    method Perform(made: seq<DiskCache>, call: Call) returns (ok: bool, ghost op: Op<Page>)
      requires Valid() && made == caches
      modifies this`mru, this`lru, this`list, this`repr, this`pool, this`memory, repr, tables, chains
      ensures ok <==> old(Fine(call))
      ensures ok ==> Valid() && fresh(repr - old(repr)) && Says(call, op)
      ensures ok ==> Allowed(old(list), op) && list == Step(old(list), op)
      ensures ok ==> |pool| + |list| == old(|pool| + |list|)
      ensures !ok ==> Valid() && list == old(list) && pool == old(pool) && repr == old(repr)
    {
      hide Valid, Evict, Find, LruOrder.Get;
      op := OpEvict(0);
      ok := true;
      match call
      case CallGet(c, addr) =>
        if c >= |made| {
          return false, op;
        }
        CacheAt(c);
        var frame;
        ok, frame := Get(made[c], addr);
        if ok {
          op := OpGet(c, addr / PAGE_SIZE, list[0].page);
        }
      case CallRelease(c, addr) =>
        if c >= |made| {
          return false, op;
        }
        CacheAt(c);
        var n := Handles(made[c], addr);
        if n == 0 {
          return false, op;
        }
        op := OpRelease(c, addr / PAGE_SIZE);
        Release(made[c], addr);
      case CallEvict(bytes) =>
        op := OpEvict(bytes / PAGE_SIZE);
        var all := EvictBytes(bytes);
    }

    lemma CacheAt(c: nat)
      requires Valid() && c < |caches|
      ensures caches[c].id == c
    {
      assert TableFits(list, c);
    }
  }

  /** A call of the block cache, with the cache by its position in the group. */
  datatype Call = CallGet(cache: nat, addr: nat) | CallRelease(cache: nat, addr: nat) | CallEvict(bytes: nat)

  ghost predicate Says(call: Call, op: Op<Page>) {
    match call
    case CallGet(c, addr) => op.OpGet? && op.cache == c && op.block == addr / PAGE_SIZE
    case CallRelease(c, addr) => op == OpRelease(c, addr / PAGE_SIZE)
    case CallEvict(bytes) => op == OpEvict(bytes / PAGE_SIZE)
  }

  /** Any run of calls on new caches of a new group. `done` of them were carried out; the next one, if there is one,
      would stop the kernel. */
  method Run(pool: set<nat>, disks: seq<nat -> Block>, calls: seq<Call>)
    returns (g: Group, done: nat, ghost ops: seq<Op<Page>>, ghost states: seq<List>)
    ensures g.Valid() && |g.caches| == |disks| && |g.pool| + |g.list| == |pool|
    ensures done <= |calls| && (done < |calls| ==> !g.Fine(calls[done]))
    ensures |ops| == done && forall i | 0 <= i < done :: Says(calls[i], ops[i])
    ensures IsRun(ops, states) && g.list == states[done] && ByLastGet(g.list, ops)
    ensures forall c, b :: Uses(g.list, c, b) == Gets(ops, c, b) - Releases(ops, c, b)
  {
    hide Group.Valid, Step, Allowed, Gets, Releases, Uses, ByLastGet;
    g := new Group(pool);
    var made: seq<DiskCache> := [];
    for i := 0 to |disks|
      invariant g.Valid() && g.caches == made && |made| == i && g.list == [] && g.pool == pool
      invariant fresh(g) && fresh(g.repr) && fresh(g.tables) && fresh(g.chains)
    {
      ghost var tables, chains := g.tables, g.chains;
      var cache := g.NewCache(disks[i]);
      made := made + [cache];
    }
    done, ops, states := 0, [], [[]];
    var ok := true;
    while ok && done < |calls|
      invariant g.Valid() && g.caches == made && |g.pool| + |g.list| == |pool|
      invariant fresh(g) && fresh(g.repr) && fresh(g.tables) && fresh(g.chains)
      invariant 0 <= done <= |calls| && |ops| == done && forall j | 0 <= j < done :: Says(calls[j], ops[j])
      invariant IsRun(ops, states) && g.list == states[done]
      invariant !ok ==> done < |calls| && !g.Fine(calls[done])
      decreases |calls| - done, ok
    {
      ghost var op;
      ok, op := g.Perform(made, calls[done]);
      if ok {
        ops, states := ops + [op], states + [g.list];
        done := done + 1;
      }
    }
    RunsKeepOrder(ops, states);
    forall c, b ensures Uses(g.list, c, b) == Gets(ops, c, b) - Releases(ops, c, b) { UsesCounted(ops, states, c, b); }
  }
}
