/** The file allocation table of src/fs_vfat.c as a sequence of words, and the cluster chains written in it. */
module FatChains {

  /** FAT12 volumes stop the kernel at the first chain. */
  datatype Width = Fat16 | Fat32

  /** `eoc_value`. The value for FAT32 has one F less than the standard's. */
  function Eoc(w: Width): nat {
    match w
    case Fat16 => 0xFFF8
    case Fat32 => 0x0FFFFF8
  }

  predicate IsEoc(w: Width, cluster: nat) {
    cluster >= Eoc(w)
  }

  /** What the standard takes for the end of a chain. */
  predicate StandardEnd(w: Width, cluster: nat) {
    cluster >= if w == Fat16 then 0xFFF8 else 0x0FFFFFF8
  }

  /** Every end of the standard is one here; a number that is none ends a chain nevertheless exactly on FAT32, from a
      sixteenth of the numbers on. */
  lemma EndsEarly(w: Width, cluster: nat)
    ensures StandardEnd(w, cluster) ==> IsEoc(w, cluster)
    ensures IsEoc(w, cluster) && !StandardEnd(w, cluster) <==> w == Fat32 && 0x00FFFFF8 <= cluster < 0x0FFFFFF8
  {
  }

  /** The part of a table word that holds a cluster number. */
  function Next(w: Width, word: nat): nat {
    match w
    case Fat16 => word % 0x1_0000
    case Fat32 => word % 0x1000_0000
  }

  /** A table word with a new cluster number; FAT32 keeps the upper four bits. */
  function Linked(w: Width, word: nat, next: nat): nat {
    match w
    case Fat16 => next % 0x1_0000
    case Fat32 => word / 0x1000_0000 * 0x1000_0000 + next % 0x1000_0000
  }

  /** Words have 16 or 32 bits, and the cluster numbers in them 16 or 28. */
  predicate IsWord(w: Width, word: nat) {
    word < if w == Fat16 then 0x1_0000 else 0x1_0000_0000
  }

  /** What is written is read back exactly if it is a cluster number; writing what is there changes nothing, and neither
      does what was there before, short of the upper bits of a FAT32 word, which are kept. */
  lemma LinkReadBack(w: Width, word: nat, next: nat, next': nat)
    requires IsWord(w, word)
    ensures var word' := Linked(w, word, next);
            && IsWord(w, word') && (Next(w, word') == next <==> next < if w == Fat16 then 0x1_0000 else 0x1000_0000)
            && (w == Fat32 ==> word' / 0x1000_0000 == word / 0x1000_0000)
            && Linked(w, word', next') == Linked(w, word, next')
    ensures Linked(w, word, Next(w, word)) == word
  {
    if w == Fat32 {
      var hi := word / 0x1000_0000;
      UpperBits(hi, next % 0x1000_0000);
      UpperBits(hi, next' % 0x1000_0000);
    }
  }

  lemma UpperBits(hi: nat, lo: nat)
    requires lo < 0x1000_0000
    ensures (hi * 0x1000_0000 + lo) / 0x1000_0000 == hi && (hi * 0x1000_0000 + lo) % 0x1000_0000 == lo
  {
  }

  /** `write_cluster_chain`. */
  function WriteChain(w: Width, fat: seq<nat>, cs: seq<nat>): seq<nat>
    requires InTable(fat, cs)
    decreases |cs|
  {
    if cs == [] then fat
    else
      var next := if |cs| > 1 then cs[1] else Eoc(w);
      WriteChain(w, fat[cs[0] := Linked(w, fat[cs[0]], next)], cs[1..])
  }

  predicate InTable(fat: seq<nat>, cs: seq<nat>) {
    forall i | 0 <= i < |cs| :: cs[i] < |fat|
  }

  ghost predicate Distinct(cs: seq<nat>) {
    forall i, j | 0 <= i < j < |cs| :: cs[i] != cs[j]
  }

  ghost predicate NonZero(cs: seq<nat>) {
    forall i | 0 <= i < |cs| :: cs[i] != 0
  }

  /** Reading the table from `cs[0]` on finds exactly the clusters `cs`, and never the null cluster. */
  predicate Leads(w: Width, fat: seq<nat>, cs: seq<nat>)
    decreases |cs|
  {
    && cs != []
    && if IsEoc(w, cs[0]) then |cs| == 1
       else
         && 0 < cs[0] < |fat|
         && var next := Next(w, fat[cs[0]]);
            if IsEoc(w, next) then |cs| == 1 else |cs| > 1 && cs[1] == next && Leads(w, fat, cs[1..])
  }

  /** There is at most one chain from a cluster. */
  lemma {:induction false} LeadsUnique(w: Width, fat: seq<nat>, cs: seq<nat>, ds: seq<nat>)
    requires Leads(w, fat, cs) && Leads(w, fat, ds) && cs[0] == ds[0]
    ensures cs == ds
    decreases |cs|
  {
    if |cs| > 1 {
      LeadsUnique(w, fat, cs[1..], ds[1..]);
      assert cs == [cs[0]] + cs[1..] && ds == [ds[0]] + ds[1..];
    }
  }

  /** A chain depends on the table words of its own clusters only. */
  lemma {:induction false} LeadsFrame(w: Width, fat: seq<nat>, fat': seq<nat>, cs: seq<nat>)
    requires |fat| == |fat'|
    requires forall i | 0 <= i < |cs| :: cs[i] < |fat| ==> Next(w, fat'[cs[i]]) == Next(w, fat[cs[i]])
    requires Leads(w, fat, cs)
    ensures Leads(w, fat', cs)
    decreases |cs|
  {
    if |cs| > 1 { LeadsFrame(w, fat, fat', cs[1..]); }
  }

  /** Writing a chain changes no word outside it, and no upper bits. */
  lemma {:induction false} WriteChainKeeps(w: Width, fat: seq<nat>, cs: seq<nat>)
    requires InTable(fat, cs)
    ensures var fat' := WriteChain(w, fat, cs);
            && |fat'| == |fat| && (forall c | 0 <= c < |fat| && c !in cs :: fat'[c] == fat[c])
            && (w == Fat32 ==> forall c | 0 <= c < |fat| :: fat'[c] / 0x1000_0000 == fat[c] / 0x1000_0000)
    decreases |cs|
  {
    if cs != [] {
      var next := if |cs| > 1 then cs[1] else Eoc(w);
      WriteChainKeeps(w, fat[cs[0] := Linked(w, fat[cs[0]], next)], cs[1..]);
    }
  }

  lemma {:induction false} WriteChainLinks(w: Width, fat: seq<nat>, cs: seq<nat>, i: nat)
    requires InTable(fat, cs) && Distinct(cs) && i < |cs|
    ensures var fat' := WriteChain(w, fat, cs); |fat'| == |fat| && LinkAt(w, fat', cs, i)
    decreases |cs|
  {
    var next := if |cs| > 1 then cs[1] else Eoc(w);
    var fat1 := fat[cs[0] := Linked(w, fat[cs[0]], next)];
    if i > 0 {
      WriteChainLinks(w, fat1, cs[1..], i - 1);
    } else {
      WriteChainKeeps(w, fat1, cs[1..]);
      assert cs[0] !in cs[1..];
    }
  }

  /** The word of cluster `cs[i]` names the next cluster, or the end. */
  predicate LinkAt(w: Width, fat: seq<nat>, cs: seq<nat>, i: nat)
    requires i < |cs| && cs[i] < |fat|
  {
    Next(w, fat[cs[i]]) == Next(w, if i + 1 < |cs| then cs[i + 1] else Eoc(w))
  }

  ghost predicate BelowEoc(w: Width, cs: seq<nat>) {
    forall i | 0 <= i < |cs| :: !IsEoc(w, cs[i])
  }

  /** Writing a chain and reading it back gives the chain, exactly when no cluster number counts as an end of chain. */
  lemma ChainRoundTrip(w: Width, fat: seq<nat>, cs: seq<nat>)
    requires cs != [] && InTable(fat, cs) && Distinct(cs) && NonZero(cs)
    ensures Leads(w, WriteChain(w, fat, cs), cs) <==> |cs| == 1 || BelowEoc(w, cs)
  {
    var fat' := WriteChain(w, fat, cs);
    WriteChainKeeps(w, fat, cs);
    forall i: nat | i < |cs|
      ensures LinkAt(w, fat', cs, i)
    {
      WriteChainLinks(w, fat, cs, i);
    }
    if |cs| == 1 || BelowEoc(w, cs) { SuffixLeads(w, fat', cs, 0); }
    if Leads(w, fat', cs) && |cs| > 1 { LeadsBelow(w, fat', cs); }
  }

  lemma {:induction false} SuffixLeads(w: Width, fat: seq<nat>, cs: seq<nat>, i: nat)
    requires i < |cs| && InTable(fat, cs) && NonZero(cs) && (|cs| == 1 || BelowEoc(w, cs))
    requires forall j: nat | j < |cs| :: LinkAt(w, fat, cs, j)
    ensures Leads(w, fat, cs[i..])
    decreases |cs| - i
  {
    assert LinkAt(w, fat, cs, i) && cs[i..][0] == cs[i];
    if i + 1 < |cs| {
      SuffixLeads(w, fat, cs, i + 1);
      assert cs[i..][1..] == cs[i + 1..];
      assert !IsEoc(w, cs[i + 1]) && !IsEoc(w, cs[i]);
    }
  }

  lemma {:induction false} LeadsBelow(w: Width, fat: seq<nat>, cs: seq<nat>)
    requires Leads(w, fat, cs) && |cs| > 1
    ensures BelowEoc(w, cs)
    decreases |cs|
  {
    if |cs| > 2 { LeadsBelow(w, fat, cs[1..]); }
    forall i | 0 <= i < |cs| ensures !IsEoc(w, cs[i]) {
      if i > 1 { assert cs[i] == cs[1..][i - 1]; }
    }
  }

  /** A cluster whose table word is zero is on no chain. */
  lemma {:induction false} FreeIsNew(w: Width, fat: seq<nat>, cs: seq<nat>, c: nat)
    requires Leads(w, fat, cs) && !IsEoc(w, cs[0]) && c < |fat| && fat[c] == 0
    ensures c !in cs
    decreases |cs|
  {
    if |cs| > 1 {
      assert cs[1] == cs[1..][0];
      FreeIsNew(w, fat, cs[1..], c);
      assert cs == [cs[0]] + cs[1..];
    }
  }

  lemma {:induction false} LeadsSuffix(w: Width, fat: seq<nat>, cs: seq<nat>, k: nat)
    requires Leads(w, fat, cs) && k < |cs|
    ensures Leads(w, fat, cs[k..])
    decreases k
  {
    if k > 0 {
      LeadsSuffix(w, fat, cs[1..], k - 1);
      assert cs[1..][k - 1..] == cs[k..];
    } else {
      assert cs[0..] == cs;
    }
  }

  /** A chain that ends never comes back to a cluster. */
  lemma LeadsDistinct(w: Width, fat: seq<nat>, cs: seq<nat>)
    requires Leads(w, fat, cs)
    ensures Distinct(cs)
  {
    forall i, j | 0 <= i < j < |cs|
      ensures cs[i] != cs[j]
    {
      LeadsSuffix(w, fat, cs, i);
      LeadsSuffix(w, fat, cs, j);
      if cs[i] == cs[j] { LeadsUnique(w, fat, cs[i..], cs[j..]); }
    }
  }

  function Repeat(c: nat, n: nat): seq<nat> {
    if n == 0 then [] else [c] + Repeat(c, n - 1)
  }

  lemma {:induction false} RepeatSnoc(c: nat, n: nat)
    ensures Repeat(c, n) + [c] == Repeat(c, n + 1) && |Repeat(c, n)| == n
  {
    if n > 0 { RepeatSnoc(c, n - 1); }
  }

  lemma RepeatInTable(fat: seq<nat>, cs: seq<nat>, c: nat, n: nat)
    requires InTable(fat, cs) && c < |fat|
    ensures InTable(fat, cs + Repeat(c, n)) && InTable(fat, cs + [c])
  {
    RepeatAll(c, n);
  }

  lemma {:induction false} RepeatOnly(w: Width, fat: seq<nat>, c: nat, n: nat)
    requires c < |fat| && n > 0 && InTable(fat, Repeat(c, n))
    ensures WriteChain(w, fat, Repeat(c, n)) == fat[c := Linked(w, fat[c], Eoc(w))]
    decreases n
  {
    var s := Repeat(c, n);
    RepeatAll(c, n);
    assert s[1..] == Repeat(c, n - 1);
    if n > 1 {
      var fat1 := fat[c := Linked(w, fat[c], c)];
      RepeatOnly(w, fat1, c, n - 1);
      assert fat1[c := Linked(w, fat1[c], Eoc(w))] == fat[c := Linked(w, fat[c], Eoc(w))];
    }
  }

  /** A chain that repeats its last cluster is written just as if it did not. */
  lemma {:induction false} RepeatedTail(w: Width, fat: seq<nat>, cs: seq<nat>, c: nat, n: nat)
    requires InTable(fat, cs) && c < |fat| && n > 0
    requires InTable(fat, cs + Repeat(c, n)) && InTable(fat, cs + [c])
    ensures WriteChain(w, fat, cs + Repeat(c, n)) == WriteChain(w, fat, cs + [c])
    decreases |cs|
  {
    var s, t := cs + Repeat(c, n), cs + [c];
    if cs == [] {
      assert s == Repeat(c, n) && t == [c];
      RepeatOnly(w, fat, c, n);
    } else {
      RepeatAll(c, n);
      assert |s| > 1 && |t| > 1 && s[0] == t[0] == cs[0] && s[1] == t[1];
      var fat1 := fat[cs[0] := Linked(w, fat[cs[0]], t[1])];
      assert s[1..] == cs[1..] + Repeat(c, n) && t[1..] == cs[1..] + [c];
      RepeatedTail(w, fat1, cs[1..], c, n);
    }
  }

  lemma {:induction false} RepeatAll(c: nat, n: nat)
    ensures |Repeat(c, n)| == n && forall i | 0 <= i < n :: Repeat(c, n)[i] == c
  {
    if n > 0 { RepeatAll(c, n - 1); }
  }

  /** When `n` new clusters were asked for, the same free cluster came back each time; the chain on disk then holds the
      chain in memory exactly if that was at most one. */
  lemma AppendRoundTrip(w: Width, fat: seq<nat>, cs: seq<nat>, c: nat, n: nat)
    requires cs != [] && Leads(w, fat, cs) && BelowEoc(w, cs + [c]) && InTable(fat, cs)
    requires 0 < c < |fat| && fat[c] == 0
    ensures InTable(fat, cs + Repeat(c, n))
    ensures var fat' := if n == 0 then fat else WriteChain(w, fat, cs + Repeat(c, n));
            && Leads(w, fat', if n == 0 then cs else cs + [c])
            && (Leads(w, fat', cs + Repeat(c, n)) <==> n <= 1)
  {
    RepeatInTable(fat, cs, c, n);
    RepeatAll(c, n);
    var s, t := cs + Repeat(c, n), cs + [c];
    assert c == t[|cs|] && !IsEoc(w, t[0]);
    FreeIsNew(w, fat, cs, c);
    LeadsNonZero(w, fat, cs);
    LeadsDistinct(w, fat, cs);
    if n == 0 {
      assert s == cs;
    } else {
      RepeatedTail(w, fat, cs, c, n);
      assert Distinct(t) && NonZero(t);
      ChainRoundTrip(w, fat, t);
      var fat' := WriteChain(w, fat, s);
      assert Leads(w, fat', t) && s[0] == t[0] && |s| == |cs| + n;
      if n == 1 {
        assert s == t;
      } else if Leads(w, fat', s) {
        LeadsUnique(w, fat', s, t);
        assert false;
      }
    }
  }

  lemma {:induction false} LeadsNonZero(w: Width, fat: seq<nat>, cs: seq<nat>)
    requires Leads(w, fat, cs)
    ensures NonZero(cs)
    decreases |cs|
  {
    if |cs| > 1 { LeadsNonZero(w, fat, cs[1..]); }
    forall i | 0 <= i < |cs| ensures cs[i] != 0 {
      if i > 0 { assert cs[i] == cs[1..][i - 1]; }
    }
  }
}
