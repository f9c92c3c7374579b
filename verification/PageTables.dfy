/** 32-bit paging as the processor does it (section 4.3 of the Intel SDM, volume 3A), and the recursive page directory
    of src/x86/vmm.c through which the kernel edits its own tables. */
module Paging {
  import opened Options

  /** Physical memory: the word with a given index in a given frame. Words never written read as zero. */
  type Memory = map<(nat, nat), nat>

  /** A physical address: a frame and an offset in it. */
  datatype Place = Place(frame: nat, offset: nat)

  function Load(m: Memory, frame: nat, i: nat): nat {
    if (frame, i) in m then m[(frame, i)] else 0
  }

  /** A table or directory entry: the frame number above twelve flag bits. Bit 0 is PRESENT, bit 1 WRITE, bit 2 USER,
      bit 9 EXECUTE and bit 10 COW. */
  function FrameOf(e: nat): nat { e / 0x1000 }

  function FlagsOf(e: nat): nat { e % 0x1000 }

  predicate Present(e: nat) { e % 2 == 1 }

  predicate Writeable(e: nat) { e % 4 == 3 }

  function DirIndex(v: nat): nat { v / 0x40_0000 }

  function TableIndex(v: nat): nat { v / 0x1000 % 0x400 }

  /** The page directory entry of `v`, and the page table entry it leads to. */
  function Pde(m: Memory, dir: nat, v: nat): nat {
    Load(m, dir, DirIndex(v))
  }

  function Pte(m: Memory, dir: nat, v: nat): nat {
    Load(m, FrameOf(Pde(m, dir, v)), TableIndex(v))
  }

  /** The processor's walk for a supervisor write with CR0.WP set: the frame and the offset in it, or a page fault. */
  function Translate(m: Memory, dir: nat, v: nat): Option<Place> {
    if Writeable(Pde(m, dir, v)) && Writeable(Pte(m, dir, v)) then Some(Place(FrameOf(Pte(m, dir, v)), v % 0x1000))
    else None
  }

  /** What the tables say about the page of `v`: its frame number and its raw flags. */
  function Lookup(m: Memory, dir: nat, v: nat): Option<(nat, nat)> {
    if Present(Pde(m, dir, v)) && Present(Pte(m, dir, v)) then Some((FrameOf(Pte(m, dir, v)), FlagsOf(Pte(m, dir, v))))
    else None
  }

  /** PAGE_TABLE_ENTRY and PAGE_DIR_ENTRY, with RPDT_BASE, 1023, as the base. */
  function PageTableEntry(v: nat): nat {
    1023 * 0x40_0000 + v / 0x1000 * 4
  }

  function PageDirEntry(v: nat): nat {
    1023 * 0x40_0000 + 1023 * 0x1000 + v / 0x40_0000 * 4
  }

  /** Directory entry 1023 points back at the directory, present and writeable, as line 442 leaves it. */
  predicate Recursive(m: Memory, dir: nat) {
    Load(m, dir, 1023) == dir * 0x1000 + 3
  }

  /** Every page table has its own frame and none is the directory; directory entries are writeable. */
  ghost predicate TablesApart(m: Memory, dir: nat) {
    && (forall i | 0 <= i < 1023 && Present(Load(m, dir, i)) ::
          FrameOf(Load(m, dir, i)) != dir && Writeable(Load(m, dir, i)))
    && (forall i, j | 0 <= i < j < 1023 && Present(Load(m, dir, i)) && Present(Load(m, dir, j)) ::
          FrameOf(Load(m, dir, i)) != FrameOf(Load(m, dir, j)))
  }

  lemma EntryPieces(v: nat)
    requires v < 0x1_0000_0000
    ensures DirIndex(PageTableEntry(v)) == 1023 && TableIndex(PageTableEntry(v)) == DirIndex(v) < 1024
    ensures PageTableEntry(v) % 0x1000 == TableIndex(v) * 4
    ensures DirIndex(PageDirEntry(v)) == 1023 == TableIndex(PageDirEntry(v))
    ensures PageDirEntry(v) % 0x1000 == DirIndex(v) * 4
  {
    var d, t := DirIndex(v), TableIndex(v);
    PageNumber(v);
    TopPieces(d, t * 4);
    TopPieces(1023, d * 4);
  }

  /** An entry put together from a frame number and flags comes apart again. */
  lemma EntryParts(frame: nat, flags: nat)
    requires flags < 0x1000
    ensures FrameOf(frame * 0x1000 + flags) == frame && FlagsOf(frame * 0x1000 + flags) == flags
    ensures Present(frame * 0x1000 + flags) <==> Present(flags)
    ensures Writeable(frame * 0x1000 + flags) <==> Writeable(flags)
  {
    LowTwo(frame * 0x400, flags);
    LowOne(frame * 0x800, flags);
  }

  lemma LowTwo(n: nat, flags: nat)
    ensures (4 * n + flags) % 4 == flags % 4
  {
    assert 4 * n + flags == 4 * (n + flags / 4) + flags % 4;
  }

  lemma LowOne(n: nat, flags: nat)
    ensures (2 * n + flags) % 2 == flags % 2
  {
    assert 2 * n + flags == 2 * (n + flags / 2) + flags % 2;
  }

  lemma PageNumber(v: nat)
    ensures v / 0x1000 == DirIndex(v) * 0x400 + TableIndex(v) && TableIndex(v) < 0x400
  {
  }

  /** The pages of one table, in the window and in the address space. */
  lemma WithinTable(base: nat, i: nat)
    requires base % 0x40_0000 == 0 && i < 1024
    ensures DirIndex(base + i * 0x1000) == DirIndex(base) && TableIndex(base + i * 0x1000) == i
    ensures PageTableEntry(base) + i * 4 == PageTableEntry(base + i * 0x1000)
  {
    RunPieces(DirIndex(base), i);
  }

  lemma RunPieces(d: nat, i: nat)
    requires i < 1024
    ensures var x := d * 0x40_0000 + i * 0x1000;
            x / 0x40_0000 == d && x / 0x1000 == d * 0x400 + i && (d * 0x400 + i) % 0x400 == i
  {
  }

  lemma TopPieces(d: nat, offset: nat)
    requires d < 1024 && offset < 0x1000
    ensures DirIndex(1023 * 0x40_0000 + d * 0x1000 + offset) == 1023
    ensures TableIndex(1023 * 0x40_0000 + d * 0x1000 + offset) == d
    ensures (1023 * 0x40_0000 + d * 0x1000 + offset) % 0x1000 == offset
  {
  }

  /** The window at PAGE_TABLE_ENTRY reaches exactly the page table entry of `v`: no page fault as long as there is a
      table, and the word written is the one the processor's own walk for `v` reads last. */
  lemma TableWindow(m: Memory, dir: nat, v: nat)
    requires Recursive(m, dir) && v < 0x1_0000_0000
    ensures Translate(m, dir, PageTableEntry(v)) ==
            if Writeable(Pde(m, dir, v)) then Some(Place(FrameOf(Pde(m, dir, v)), TableIndex(v) * 4)) else None
  {
    EntryPieces(v);
    EntryParts(dir, 3);
  }

  /** The window at PAGE_DIR_ENTRY reaches exactly the directory entry of `v`. */
  lemma DirectoryWindow(m: Memory, dir: nat, v: nat)
    requires Recursive(m, dir) && v < 0x1_0000_0000
    ensures Translate(m, dir, PageDirEntry(v)) == Some(Place(dir, DirIndex(v) * 4))
  {
    EntryPieces(v);
    EntryParts(dir, 3);
  }

  // ---------- the flags

  /** PAGE_WRITE is 1, PAGE_EXECUTE 2, PAGE_USER 4 and PAGE_COW 8. */
  function ToX86(flags: nat): nat {
    (if flags % 2 == 1 then 0x2 else 0) + (if flags / 4 % 2 == 1 then 0x4 else 0)
    + (if flags / 2 % 2 == 1 then 0x200 else 0) + (if flags / 8 % 2 == 1 then 0x400 else 0)
  }

  function FromX86(flags: nat): nat {
    (if flags / 0x2 % 2 == 1 then 1 else 0) + (if flags / 0x200 % 2 == 1 then 2 else 0)
    + (if flags / 0x4 % 2 == 1 then 4 else 0) + (if flags / 0x400 % 2 == 1 then 8 else 0)
  }

  /** The flags that `map_one_page` keeps: a copy-on-write page is not writeable. */
  function Kept(flags: nat): nat {
    if flags / 8 % 2 == 1 then flags - flags % 2 else flags
  }

  /** The entry written for a page: the low half of the frame address, the flags and PRESENT. */
  function NewEntry(p: nat, flags: nat): nat {
    p % 0x1_0000_0000 / 0x1000 * 0x1000 + ToX86(Kept(flags)) + 1
  }

  lemma FlagsRoundTrip(p: nat, flags: nat)
    requires flags < 16
    ensures var e := NewEntry(p, flags);
            && Present(e) && FrameOf(e) == p % 0x1_0000_0000 / 0x1000 && FromX86(FlagsOf(e)) == Kept(flags)
  {
    FlagBits(Kept(flags));
    EntryParts(p % 0x1_0000_0000 / 0x1000, ToX86(Kept(flags)) + 1);
  }

  lemma FlagBits(flags: nat)
    requires flags < 16
    ensures Present(ToX86(flags) + 1) && ToX86(flags) + 1 < 0x1000 && FromX86(ToX86(flags) + 1) == flags
  {
    var a, b, c, d := flags % 2, flags / 2 % 2, flags / 4 % 2, flags / 8 % 2;
    assert flags == a + 2 * b + 4 * c + 8 * d;
    var x := 2 * a + 4 * c + 0x200 * b + 0x400 * d + 1;
    assert x == ToX86(flags) + 1;
    PackedBits(a, b, c, d);
  }

  lemma PackedBits(a: nat, b: nat, c: nat, d: nat)
    requires a < 2 && b < 2 && c < 2 && d < 2
    ensures var x := 2 * a + 4 * c + 0x200 * b + 0x400 * d + 1;
            x % 2 == 1 && x / 0x2 % 2 == a && x / 0x4 % 2 == c && x / 0x200 % 2 == b && x / 0x400 % 2 == d
  {
  }

  /** Which bits an entry has: PRESENT; WRITE, unless the page is copied on writing; USER; EXECUTE; and COW. */
  lemma EntryBits(p: nat, flags: nat)
    requires flags < 16
    ensures var e, write, cow := NewEntry(p, flags), flags % 2, flags / 8 % 2;
            && e < 0x1_0000_0000 && FrameOf(e) == p % 0x1_0000_0000 / 0x1000
            && FlagsOf(e) == 1 + 2 * (write * (1 - cow)) + 4 * (flags / 4 % 2) + 0x200 * (flags / 2 % 2) + 0x400 * cow
            && (Writeable(e) <==> write == 1 && cow == 0)
  {
    KeptBits(flags);
    EntryParts(p % 0x1_0000_0000 / 0x1000, ToX86(Kept(flags)) + 1);
  }

  /** COW takes WRITE away, and nothing else changes. */
  lemma KeptBits(flags: nat)
    requires flags < 16
    ensures var k := Kept(flags);
            && k < 16 && k % 2 == flags % 2 * (1 - flags / 8 % 2)
            && k / 2 % 2 == flags / 2 % 2 && k / 4 % 2 == flags / 4 % 2 && k / 8 % 2 == flags / 8 % 2
  {
  }

  // ---------- the tables as a flat map

  /** A page as the kernel sees it: its frame number and its flags. */
  datatype Mapping = Mapping(frame: nat, flags: nat)

  type Flat = map<nat, Mapping>

  /** The entry of the page of `v`, seen as a mapping. */
  function View(m: Memory, dir: nat, v: nat): Option<Mapping> {
    match Lookup(m, dir, v)
    case None => None
    case Some(e) => Some(Mapping(e.0, FromX86(e.1)))
  }

  function At(flat: Flat, page: nat): Option<Mapping> {
    if page in flat then Some(flat[page]) else None
  }

  /** Below the window, that is in the first 1023 directory entries. */
  predicate Ordinary(v: nat) {
    v < 1023 * 0x40_0000
  }

  /** Page by page, the two levels of tables come to the flat map. */
  ghost predicate Refines(m: Memory, dir: nat, flat: Flat) {
    forall v: nat | Ordinary(v) :: View(m, dir, v) == At(flat, v / 0x1000)
  }

  ghost predicate Sound(m: Memory, dir: nat, flat: Flat) {
    Recursive(m, dir) && TablesApart(m, dir) && Refines(m, dir, flat)
  }

  /** A write to the page of `v` gets through the processor's walk exactly if the flat map has the page, with WRITE, and
      then to the frame that it says. */
  lemma TranslateIs(m: Memory, dir: nat, flat: Flat, v: nat)
    requires Sound(m, dir, flat) && Ordinary(v)
    ensures var page := v / 0x1000;
            Translate(m, dir, v) ==
            if page in flat && flat[page].flags % 2 == 1 then Some(Place(flat[page].frame, v % 0x1000)) else None
  {
    assert View(m, dir, v) == At(flat, v / 0x1000);
    WriteBit(Pte(m, dir, v));
  }

  lemma WriteBit(e: nat)
    ensures Writeable(e) <==> Present(e) && FromX86(FlagsOf(e)) % 2 == 1
  {
    LowTwo(e / 4, e % 4);
    LowTwelve(e);
    LowestOf(FlagsOf(e));
  }

  lemma LowTwelve(e: nat)
    ensures FlagsOf(e) / 2 % 2 == e / 2 % 2
  {
    assert e == 0x1000 * (e / 0x1000) + e % 0x1000;
    assert e / 2 == 2 * (0x400 * (e / 0x1000)) + e % 0x1000 / 2;
    LowOne(0x400 * (e / 0x1000), e % 0x1000 / 2);
  }

  lemma LowestOf(f: nat)
    ensures FromX86(f) % 2 == 1 <==> f / 0x2 % 2 == 1
  {
    var b, c, d := f / 0x200 % 2 == 1, f / 0x4 % 2 == 1, f / 0x400 % 2 == 1;
    assert FromX86(f) == (if f / 0x2 % 2 == 1 then 1 else 0)
                         + 2 * ((if b then 1 else 0) + (if c then 2 else 0) + (if d then 4 else 0));
  }

  /** Writing the page table entry of `v` changes the mapping of its page and of no other. */
  lemma SetEntry(m: Memory, dir: nat, flat: Flat, v: nat, w: nat)
    requires Sound(m, dir, flat) && Ordinary(v) && Present(Pde(m, dir, v))
    ensures Sound(m[(FrameOf(Pde(m, dir, v)), TableIndex(v)) := w], dir,
                  if Present(w) then flat[v / 0x1000 := Mapping(FrameOf(w), FromX86(FlagsOf(w)))]
                  else flat - {v / 0x1000})
  {
    var t := FrameOf(Pde(m, dir, v));
    var m' := m[(t, TableIndex(v)) := w];
    assert t != dir;
    assert forall i :: Load(m', dir, i) == Load(m, dir, i);
    forall v': nat | Ordinary(v')
      ensures Lookup(m', dir, v') == if v' / 0x1000 != v / 0x1000 then Lookup(m, dir, v')
                                     else if Present(w) then Some((FrameOf(w), FlagsOf(w))) else None
    {
      if v' / 0x1000 != v / 0x1000 {
        PageNumber(v);
        PageNumber(v');
        if DirIndex(v') < DirIndex(v) || DirIndex(v) < DirIndex(v') {
          assert Present(Pde(m, dir, v')) ==> FrameOf(Pde(m, dir, v')) != t;
        }
      }
    }
  }

  /** The frames that alloc_page is going to return next: each once, and none in use as a table. */
  ghost predicate PoolFresh(m: Memory, dir: nat, pool: seq<nat>) {
    && (forall k, k' | 0 <= k < k' < |pool| :: pool[k] != pool[k'])
    && (forall k | 0 <= k < |pool| :: pool[k] != dir && TableFree(m, dir, pool[k]))
  }

  ghost predicate TableFree(m: Memory, dir: nat, t: nat) {
    forall i | 0 <= i < 1023 && Present(Load(m, dir, i)) :: FrameOf(Load(m, dir, i)) != t
  }

  /** A new directory entry, whose table still holds whatever its frame held before. */
  lemma NewTable(m: Memory, dir: nat, v: nat, t: nat)
    requires Recursive(m, dir) && TablesApart(m, dir) && Ordinary(v) && !Present(Pde(m, dir, v))
    requires t != dir && TableFree(m, dir, t)
    ensures var m' := m[(dir, DirIndex(v)) := t * 0x1000 + 7];
            && Recursive(m', dir) && TablesApart(m', dir) && Pde(m', dir, v) == t * 0x1000 + 7
            && forall v': nat | Ordinary(v') && DirIndex(v') != DirIndex(v) :: Lookup(m', dir, v') == Lookup(m, dir, v')
  {
    EntryParts(t, 7);
    var m' := m[(dir, DirIndex(v)) := t * 0x1000 + 7];
    assert forall i | 0 <= i && i != DirIndex(v) :: Load(m', dir, i) == Load(m, dir, i);
  }

  /** The first `n` words of frame `t` set to zero. */
  ghost function Cleared(m: Memory, t: nat, n: nat): Memory {
    if n == 0 then m else Cleared(m, t, n - 1)[(t, n - 1) := 0]
  }

  lemma {:induction false} ClearedAt(m: Memory, t: nat, n: nat, frame: nat, i: nat)
    ensures Load(Cleared(m, t, n), frame, i) == if frame == t && i < n then 0 else Load(m, frame, i)
  {
    if n > 0 { ClearedAt(m, t, n - 1, frame, i); }
  }

  /** A new table, once cleared, maps nothing: the flat map is as before. */
  lemma NewTableCleared(m: Memory, dir: nat, flat: Flat, v: nat, t: nat, pool: seq<nat>)
    requires Sound(m, dir, flat) && Ordinary(v) && !Present(Pde(m, dir, v))
    requires PoolFresh(m, dir, [t] + pool)
    ensures var m' := Cleared(m[(dir, DirIndex(v)) := t * 0x1000 + 7], t, 1024);
            Sound(m', dir, flat) && PoolFresh(m', dir, pool) && Pde(m', dir, v) == t * 0x1000 + 7
  {
    var m1 := m[(dir, DirIndex(v)) := t * 0x1000 + 7];
    var m' := Cleared(m1, t, 1024);
    assert ([t] + pool)[0] == t && forall k | 0 <= k < |pool| :: ([t] + pool)[k + 1] == pool[k];
    NewTable(m, dir, v, t);
    EntryParts(t, 7);
    forall i: nat
      ensures Load(m', dir, i) == if i == DirIndex(v) then t * 0x1000 + 7 else Load(m, dir, i)
    {
      ClearedAt(m1, t, 1024, dir, i);
    }
    forall v': nat | Ordinary(v')
      ensures Lookup(m', dir, v') == Lookup(m, dir, v')
    {
      ClearedAt(m1, t, 1024, FrameOf(Pde(m', dir, v')), TableIndex(v'));
      PageNumber(v');
    }
  }

  /** The directory of `m'` has the tables of that of `m`, and one for entry `i`. */
  ghost predicate TableAdded(m: Memory, m': Memory, dir: nat, i: nat) {
    forall d: nat | d < 1023 :: Present(Load(m', dir, d)) <==> Present(Load(m, dir, d)) || d == i
  }

  lemma ClearedAdds(m: Memory, dir: nat, i: nat, t: nat)
    requires t != dir
    ensures TableAdded(m, Cleared(m[(dir, i) := t * 0x1000 + 7], t, 1024), dir, i)
  {
    var m1 := m[(dir, i) := t * 0x1000 + 7];
    EntryParts(t, 7);
    forall d: nat { ClearedAt(m1, t, 1024, dir, d); }
  }

  /** The directory entries without a table among those of the `n` pages from `v` on. */
  ghost function NewTables(m: Memory, dir: nat, v: nat, n: nat): set<nat> {
    if n == 0 then {}
    else
      var u := v + (n - 1) * 0x1000;
      NewTables(m, dir, v, n - 1) + if Present(Pde(m, dir, u)) then {} else {DirIndex(u)}
  }

  lemma Added(s: set<nat>, x: nat)
    ensures |s + {x}| == |s| + if x in s then 0 else 1
  {
    if x in s { assert s + {x} == s; }
  }

  lemma {:induction false} NewTablesGrow(m: Memory, dir: nat, v: nat, k: nat, n: nat)
    requires k <= n
    ensures |NewTables(m, dir, v, k)| <= |NewTables(m, dir, v, n)|
  {
    if k < n {
      NewTablesGrow(m, dir, v, k, n - 1);
      Added(NewTables(m, dir, v, n - 1), DirIndex(v + (n - 1) * 0x1000));
      assert NewTables(m, dir, v, n - 1) + {} == NewTables(m, dir, v, n - 1);
    }
  }

  /** The tables that there are after `i` pages of a run. */
  ghost predicate TablesAfter(m: Memory, m': Memory, dir: nat, v: nat, i: nat) {
    forall d: nat | d < 1023 :: Present(Load(m', dir, d)) <==> Present(Load(m, dir, d)) || d in NewTables(m, dir, v, i)
  }

  lemma NoNewTables(m: Memory, dir: nat, v: nat)
    ensures NewTables(m, dir, v, 0) == {} && TablesAfter(m, m, dir, v, 0)
  {
  }

  lemma IndexBelow(v: nat)
    ensures DirIndex(v) < 1023 <==> Ordinary(v)
  {
  }

  lemma OnePageMore(m: Memory, dir: nat, v: nat, i: nat)
    ensures var s, u := NewTables(m, dir, v, i), v + i * 0x1000;
            NewTables(m, dir, v, i + 1) == if Present(Pde(m, dir, u)) then s else s + {DirIndex(u)}
  {
    hide DirIndex, Present, Pde;
    assert NewTables(m, dir, v, i) + {} == NewTables(m, dir, v, i);
  }

  /** The next page of the run needs a new table exactly if none of the pages before it did. */
  lemma NextTable(m: Memory, m': Memory, m'': Memory, dir: nat, v: nat, i: nat)
    requires TablesAfter(m, m', dir, v, i) && Ordinary(v + i * 0x1000)
    ensures |NewTables(m, dir, v, i + 1)| ==
            |NewTables(m, dir, v, i)| + if Present(Pde(m', dir, v + i * 0x1000)) then 0 else 1
    ensures TableAdded(m', m'', dir, DirIndex(v + i * 0x1000)) ==> TablesAfter(m, m'', dir, v, i + 1)
  {
    hide DirIndex, Present, Load, Ordinary, NewTables;
    var u := v + i * 0x1000;
    IndexBelow(u);
    Added(NewTables(m, dir, v, i), DirIndex(u));
    OnePageMore(m, dir, v, i);
  }

  /** Where a word of the window is, in terms of the table. */
  lemma TableWord(m: Memory, dir: nat, v: nat)
    requires Recursive(m, dir) && v < 0x1_0000_0000 && Writeable(Pde(m, dir, v))
    ensures PageTableEntry(v) % 4 == 0 && Translate(m, dir, PageTableEntry(v)).Some?
    ensures var place := Translate(m, dir, PageTableEntry(v)).value;
            place.frame == FrameOf(Pde(m, dir, v)) && place.offset / 4 == TableIndex(v)
  {
    hide DirIndex, TableIndex, FrameOf, Load;
    TableWindow(m, dir, v);
  }

  /** While a table is cleared through the window, the window stays where it is. */
  lemma ClearedWord(m: Memory, dir: nat, base: nat, t: nat, i: nat)
    requires Recursive(m, dir) && Ordinary(base) && base % 0x40_0000 == 0 && i < 1024
    requires Writeable(Pde(m, dir, base)) && FrameOf(Pde(m, dir, base)) == t != dir
    ensures (PageTableEntry(base) + i * 4) % 4 == 0
    ensures var r := Translate(Cleared(m, t, i), dir, PageTableEntry(base) + i * 4);
            r.Some? && r.value.frame == t && r.value.offset / 4 == i
  {
    hide DirIndex, TableIndex, FrameOf, Load, Cleared, Translate, Writeable, PageTableEntry;
    WithinTable(base, i);
    InTable(base, i);
    ClearedAt(m, t, i, dir, 1023);
    ClearedAt(m, t, i, dir, DirIndex(base));
    TableWord(Cleared(m, t, i), dir, base + i * 0x1000);
  }

  lemma InTable(base: nat, i: nat)
    requires Ordinary(base) && base % 0x40_0000 == 0 && i < 1024
    ensures base + i * 0x1000 < 0x1_0000_0000
  {
  }

  class AddressSpace {
    var mem: Memory
    const dir: nat
    var pool: seq<nat>
    /** The flat map that the tables come to. */
    ghost var flat: Flat

    ghost predicate Valid()
      reads this
    {
      Sound(mem, dir, flat) && PoolFresh(mem, dir, pool)
    }

    /** Line 442 of init_virtual_memory: the boot directory, identity mapped at that point, gets its recursive entry. */
    constructor (mem: Memory, dir: nat, pool: seq<nat>, ghost flat: Flat)
      requires TablesApart(mem, dir) && Refines(mem, dir, flat) && PoolFresh(mem, dir, pool)
      ensures Valid() && this.dir == dir && this.pool == pool && this.flat == flat
    {
      this.mem := mem[(dir, 1023) := dir * 0x1000 + 3];
      this.dir, this.pool, this.flat := dir, pool, flat;
      new;
      assert forall i | 0 <= i < 1023 :: Load(this.mem, dir, i) == Load(mem, dir, i);
      forall v: nat | Ordinary(v)
        ensures View(this.mem, dir, v) == At(flat, v / 0x1000)
      {
        assert View(mem, dir, v) == At(flat, v / 0x1000);
      }
      forall k | 0 <= k < |pool|
        ensures TableFree(this.mem, dir, pool[k])
      {
        assert TableFree(mem, dir, pool[k]);
      }
    }

    /** A word read or written through a virtual address; the precondition says that the processor does not fault. */
    method Read(va: nat) returns (w: nat)
      requires va % 4 == 0 && Translate(mem, dir, va).Some?
      ensures var place := Translate(mem, dir, va).value; w == Load(mem, place.frame, place.offset / 4)
    {
      var place := Translate(mem, dir, va).value;
      w := Load(mem, place.frame, place.offset / 4);
    }

    method Write(va: nat, w: nat)
      requires va % 4 == 0 && Translate(mem, dir, va).Some?
      modifies this`mem
      ensures var place := Translate(old(mem), dir, va).value; mem == old(mem)[(place.frame, place.offset / 4) := w]
    {
      var place := Translate(mem, dir, va).value;
      mem := mem[(place.frame, place.offset / 4) := w];
    }

    /** `*PAGE_DIR_ENTRY(RPDT_BASE, v)`. */
    method ReadDirEntry(v: nat) returns (w: nat)
      requires Recursive(mem, dir) && v < 0x1_0000_0000
      ensures w == Pde(mem, dir, v)
    {
      DirectoryWindow(mem, dir, v);
      w := Read(PageDirEntry(v));
    }

    /** `*PAGE_TABLE_ENTRY(RPDT_BASE, v)`, when there is a table. */
    method ReadTableEntry(v: nat) returns (w: nat)
      requires Recursive(mem, dir) && v < 0x1_0000_0000 && Writeable(Pde(mem, dir, v))
      ensures w == Pte(mem, dir, v)
    {
      TableWindow(mem, dir, v);
      w := Read(PageTableEntry(v));
    }

    method WriteTableEntry(v: nat, w: nat)
      requires Recursive(mem, dir) && v < 0x1_0000_0000 && Writeable(Pde(mem, dir, v))
      modifies this`mem
      ensures mem == old(mem)[(FrameOf(Pde(old(mem), dir, v)), TableIndex(v)) := w]
    {
      hide Translate, Pde, FrameOf, TableIndex, PageTableEntry, Writeable, Recursive;
      TableWord(mem, dir, v);
      Write(PageTableEntry(v), w);
    }

    /** `ensure_page_table_mapped`; false stands for the panic when alloc_page has no page to give. */
    method EnsureTable(v: nat) returns (ok: bool)
      requires Valid() && Ordinary(v)
      modifies this`mem, this`pool
      ensures ok ==> Valid() && Writeable(Pde(mem, dir, v)) && TableAdded(old(mem), mem, dir, DirIndex(v))
      ensures ok ==> |pool| == |old(pool)| - if Present(Pde(old(mem), dir, v)) then 0 else 1
      ensures !ok <==> old(pool) == [] && !Present(Pde(old(mem), dir, v))
    {
      DirectoryWindow(mem, dir, v);
      var pde := Read(PageDirEntry(v));
      if Present(pde) {
        return true;
      }
      if pool == [] {
        return false;
      }
      var t := pool[0];
      pool := pool[1..];
      NewTable(mem, dir, v, t);
      NewTableCleared(mem, dir, flat, v, t, pool);
      Write(PageDirEntry(v), t * 0x1000 + 7);
      EntryParts(t, 7);
      ClearTable(v / 0x40_0000 * 0x40_0000, t);
      ClearedAdds(old(mem), dir, DirIndex(v), t);
      ok := true;
    }

    /** `memset(PAGE_TABLE_ENTRY(RPDT_BASE, v), 0, 0x1000)`, word by word through the window. */
    method ClearTable(base: nat, t: nat)
      requires Recursive(mem, dir) && Ordinary(base) && base % 0x40_0000 == 0
      requires Writeable(Pde(mem, dir, base)) && FrameOf(Pde(mem, dir, base)) == t != dir
      modifies this`mem
      ensures mem == Cleared(old(mem), t, 1024)
    {
      hide Translate, Recursive, Pde, FrameOf, Writeable, PageTableEntry;
      for i := 0 to 1024
        invariant mem == Cleared(old(mem), t, i)
      {
        ClearedWord(old(mem), dir, base, t, i);
        Write(PageTableEntry(base) + i * 4, 0);
      }
    }

    /** `map_one_page`; false stands for a panic. */
    method MapOne(v: nat, p: nat, flags: nat) returns (ok: bool)
      requires Valid() && Ordinary(v) && flags < 16
      modifies this`mem, this`pool, this`flat
      ensures ok <==> v / 0x1000 !in old(flat) && (old(pool) != [] || Present(Pde(old(mem), dir, v)))
      ensures ok ==> Valid() && flat == old(flat)[v / 0x1000 := NewMapping(p, flags)]
      ensures ok ==> TableAdded(old(mem), mem, dir, DirIndex(v))
      ensures ok ==> |pool| == |old(pool)| - if Present(Pde(old(mem), dir, v)) then 0 else 1
      ensures ok ==> Translate(mem, dir, v) ==
                     if flags % 2 == 1 && flags / 8 % 2 == 0 then Some(Place(p % 0x1_0000_0000 / 0x1000, v % 0x1000))
                     else None
    {
      hide Ordinary, FrameOf, TableIndex, DirIndex, Writeable, NewEntry, TablesApart, PoolFresh, FromX86, Kept, FlagsOf,
        Recursive, Refines;
      ViewIs(mem, dir, flat, v);
      ok := EnsureTable(v);
      if !ok {
        return;
      }
      ViewIs(mem, dir, flat, v);
      var pte := ReadTableEntry(v);
      if Present(pte) {
        return false;
      }
      FlagsRoundTrip(p, flags);
      SetEntry(mem, dir, flat, v, NewEntry(p, flags));
      PoolKept(mem, dir, pool, FrameOf(Pde(mem, dir, v)), TableIndex(v), NewEntry(p, flags));
      WriteTableEntry(v, NewEntry(p, flags));
      flat := flat[v / 0x1000 := NewMapping(p, flags)];
      TranslateIs(mem, dir, flat, v);
      KeptBits(flags);
    }

    /** What the flat map and the tables say about a page. */
    lemma ViewIs(m: Memory, dir: nat, flat: Flat, v: nat)
      requires Sound(m, dir, flat) && Ordinary(v)
      ensures v < 0x1_0000_0000
      ensures At(flat, v / 0x1000) == if Present(Pde(m, dir, v)) && Present(Pte(m, dir, v))
              then Some(Mapping(FrameOf(Pte(m, dir, v)), FromX86(FlagsOf(Pte(m, dir, v))))) else None
      ensures Present(Pde(m, dir, v)) ==> Writeable(Pde(m, dir, v)) && FrameOf(Pde(m, dir, v)) != dir
    {
      assert View(m, dir, v) == At(flat, v / 0x1000);
    }

    /** `unmap_one_page`; false stands for a panic. The translation cache is not part of the model. */
    method UnmapOne(v: nat) returns (ok: bool)
      requires Valid() && Ordinary(v)
      modifies this`mem, this`flat
      ensures ok <==> v / 0x1000 in old(flat)
      ensures Valid() && flat == old(flat) - {v / 0x1000} && Translate(mem, dir, v) == None
    {
      hide Ordinary, FrameOf, TableIndex, DirIndex, Writeable, NewEntry, NewMapping, TablesApart, PoolFresh;
      ViewIs(mem, dir, flat, v);
      var pde := ReadDirEntry(v);
      if !Present(pde) {
        TranslateIs(mem, dir, flat, v);
        return false;
      }
      var pte := ReadTableEntry(v);
      if !Present(pte) {
        TranslateIs(mem, dir, flat, v);
        return false;
      }
      SetEntry(mem, dir, flat, v, 0);
      PoolKept(mem, dir, pool, FrameOf(pde), TableIndex(v), 0);
      WriteTableEntry(v, 0);
      flat := flat - {v / 0x1000};
      TranslateIs(mem, dir, flat, v);
      ok := true;
    }

    /** `get_mapping`; `None` stands for `~0ULL`. */
    method GetMapping(v: nat) returns (r: Option<Mapping>)
      requires Valid() && Ordinary(v)
      ensures r == At(flat, v / 0x1000)
    {
      hide Ordinary, FrameOf, TableIndex, DirIndex, Writeable, TablesApart, PoolFresh;
      ViewIs(mem, dir, flat, v);
      var pde := ReadDirEntry(v);
      if !Present(pde) {
        return None;
      }
      var pte := ReadTableEntry(v);
      r := if !Present(pte) then None else Some(Mapping(FrameOf(pte), FromX86(FlagsOf(pte))));
    }

    /** `map`: stops at the first panic. It succeeds exactly if no page of the run is mapped and there are frames for
        the tables that are missing. */
    method Map(v: nat, p: nat, n: nat, flags: nat) returns (ok: bool)
      requires Valid() && v % 0x1000 == 0 && v + n * 0x1000 <= 1023 * 0x40_0000 && flags < 16
      modifies this`mem, this`pool, this`flat
      ensures ok ==> Valid() && flat == Mapped(old(flat), v / 0x1000, p, n, flags)
      ensures ok <==> NoneMapped(old(flat), v / 0x1000, n) && |NewTables(old(mem), dir, v, n)| <= |old(pool)|
    {
      hide Valid, NewTables, Pde, NewMapping;
      ok := true;
      ghost var page := v / 0x1000;
      NoNewTables(mem, dir, v);
      for i := 0 to n
        invariant Valid() && flat == Mapped(old(flat), page, p, i, flags) && NoneMapped(old(flat), page, i)
        invariant TablesAfter(old(mem), mem, dir, v, i) && |pool| + |NewTables(old(mem), dir, v, i)| == |old(pool)|
      {
        ghost var before := mem;
        NewTablesGrow(old(mem), dir, v, i + 1, n);
        MappedAt(old(flat), page, p, i, flags, page + i);
        PageOfRun(v, i);
        ok := MapOne(v + i * 0x1000, p + i * 0x1000, flags);
        NextTable(old(mem), before, mem, dir, v, i);
        if !ok {
          return;
        }
      }
    }

    /** `unmap`: stops at the first panic. */
    method Unmap(v: nat, n: nat) returns (ok: bool)
      requires Valid() && v % 0x1000 == 0 && v + n * 0x1000 <= 1023 * 0x40_0000
      modifies this`mem, this`flat
      ensures ok ==> Valid() && flat == Removed(old(flat), v / 0x1000, n)
      ensures ok <==> forall q | v / 0x1000 <= q < v / 0x1000 + n :: q in old(flat)
    {
      ok := true;
      ghost var page := v / 0x1000;
      for i := 0 to n
        invariant Valid() && flat == Removed(old(flat), page, i)
        invariant forall q | page <= q < page + i :: q in old(flat)
      {
        RemovedAt(old(flat), page, i, page + i);
        PageOfRun(v, i);
        ok := UnmapOne(v + i * 0x1000);
        if !ok {
          return;
        }
      }
    }
  }

  ghost function Removed(flat: Flat, page: nat, n: nat): Flat {
    if n == 0 then flat else Removed(flat, page, n - 1) - {page + n - 1}
  }

  lemma {:induction false} RemovedAt(flat: Flat, page: nat, n: nat, q: nat)
    ensures At(Removed(flat, page, n), q) == if page <= q < page + n then None else At(flat, q)
  {
    if n > 0 { RemovedAt(flat, page, n - 1, q); }
  }

  /** Unmapping a run that was mapped over nothing gives the old flat map back. */
  lemma UnmapUndoesMap(flat: Flat, page: nat, p: nat, n: nat, flags: nat)
    requires NoneMapped(flat, page, n)
    ensures Removed(Mapped(flat, page, p, n, flags), page, n) == flat
  {
    var flat' := Removed(Mapped(flat, page, p, n, flags), page, n);
    forall q: nat
      ensures At(flat', q) == At(flat, q)
    {
      MappedAt(flat, page, p, n, flags, q);
      RemovedAt(Mapped(flat, page, p, n, flags), page, n, q);
    }
    assert forall q: nat :: q in flat' <==> At(flat', q).Some?;
    assert forall q: nat :: q in flat <==> At(flat, q).Some?;
  }

  /** What `map_one_page` records: the frame below 4GB, and no WRITE together with COW. */
  function NewMapping(p: nat, flags: nat): Mapping {
    Mapping(p % 0x1_0000_0000 / 0x1000, Kept(flags))
  }

  ghost predicate NoneMapped(flat: Flat, page: nat, n: nat) {
    forall q | page <= q < page + n :: q !in flat
  }

  lemma PageOfRun(v: nat, i: nat)
    ensures (v + i * 0x1000) / 0x1000 == v / 0x1000 + i
  {
  }

  ghost function Mapped(flat: Flat, page: nat, p: nat, n: nat, flags: nat): Flat {
    if n == 0 then flat
    else Mapped(flat, page, p, n - 1, flags)[page + n - 1 := NewMapping(p + (n - 1) * 0x1000, flags)]
  }

  /** Mapping a run of pages gives each its own frame, in order, and touches no other page. */
  lemma {:induction false} MappedAt(flat: Flat, page: nat, p: nat, n: nat, flags: nat, q: nat)
    ensures At(Mapped(flat, page, p, n, flags), q) ==
            if page <= q < page + n then Some(NewMapping(p + (q - page) * 0x1000, flags)) else At(flat, q)
  {
    if n > 0 { MappedAt(flat, page, p, n - 1, flags, q); }
  }

  /** Writes to a table leave the directory, and so the pool's freshness, alone. */
  lemma PoolKept(m: Memory, dir: nat, pool: seq<nat>, t: nat, i: nat, w: nat)
    requires PoolFresh(m, dir, pool) && t != dir
    ensures PoolFresh(m[(t, i) := w], dir, pool)
  {
    var m' := m[(t, i) := w];
    assert forall k: nat :: Load(m', dir, k) == Load(m, dir, k);
    forall k | 0 <= k < |pool|
      ensures pool[k] != dir && TableFree(m', dir, pool[k])
    {
      assert TableFree(m, dir, pool[k]);
    }
  }
}
