/** The chained hash table of src/adt/hashtable.c, refined to a map. A chain is kept as the sequence of its buckets,
    in the order the source walks them. */
module HashTables {

  datatype Bucket<D> = Bucket(key: nat, data: D)

  /** What walking a chain for `key` finds; `zero` stands for "absent". */
  function Walk<D>(chain: seq<Bucket<D>>, key: nat, zero: D): D {
    if chain == [] then zero
    else if chain[0].key == key then chain[0].data
    else Walk(chain[1..], key, zero)
  }

  lemma {:induction false} WalkMiss<D>(chain: seq<Bucket<D>>, key: nat, zero: D)
    requires forall j | 0 <= j < |chain| :: chain[j].key != key
    ensures Walk(chain, key, zero) == zero
  {
    if chain != [] { WalkMiss(chain[1..], key, zero); }
  }

  lemma {:induction false} WalkHit<D>(chain: seq<Bucket<D>>, i: nat, zero: D)
    requires i < |chain| && forall j | 0 <= j < i :: chain[j].key != chain[i].key
    ensures Walk(chain, chain[i].key, zero) == chain[i].data
  {
    if i > 0 { WalkHit(chain[1..], i - 1, zero); }
  }

  /** Rewriting the first bucket of a key changes what is found for that key only. */
  lemma {:induction false} WalkUpdate<D>(chain: seq<Bucket<D>>, i: nat, data: D, key: nat, zero: D)
    requires i < |chain| && forall j | 0 <= j < i :: chain[j].key != chain[i].key
    ensures Walk(chain[i := Bucket(chain[i].key, data)], key, zero) ==
            if key == chain[i].key then data else Walk(chain, key, zero)
  {
    var chain' := chain[i := Bucket(chain[i].key, data)];
    if i > 0 {
      assert chain'[1..] == chain[1..][i - 1 := Bucket(chain[i].key, data)];
      WalkUpdate(chain[1..], i - 1, data, key, zero);
    } else {
      assert chain'[1..] == chain[1..];
    }
  }

  ghost predicate InChain<D>(chain: seq<Bucket<D>>, key: nat) {
    exists i :: 0 <= i < |chain| && chain[i].key == key
  }

  ghost function Value<D>(m: map<nat, D>, key: nat, zero: D): D {
    if key in m then m[key] else zero
  }

  /** Chain `h` of `n` holds the part of the map whose keys hash to `h`, each key once. */
  ghost predicate ChainValid<D>(chain: seq<Bucket<D>>, h: nat, n: nat, contents: map<nat, D>, zero: D)
    requires n > 0
  {
    && (forall i | 0 <= i < |chain| :: chain[i].key % n == h)
    && (forall i, j | 0 <= i < j < |chain| :: chain[i].key != chain[j].key)
    && (forall k: nat | k % n == h :: (InChain(chain, k) <==> k in contents)
                                      && Walk(chain, k, zero) == Value(contents, k, zero))
  }

  lemma ChainRewritten<D>(chain: seq<Bucket<D>>, i: nat, h: nat, n: nat, contents: map<nat, D>, zero: D, data: D)
    requires n > 0 && ChainValid(chain, h, n, contents, zero) && i < |chain|
    ensures ChainValid(chain[i := Bucket(chain[i].key, data)], h, n, contents[chain[i].key := data], zero)
  {
    var chain' := chain[i := Bucket(chain[i].key, data)];
    forall k: nat | k % n == h
      ensures InChain(chain', k) <==> InChain(chain, k)
      ensures Walk(chain', k, zero) == if k == chain[i].key then data else Walk(chain, k, zero)
    {
      if j: nat :| j < |chain| && chain[j].key == k { assert chain'[j].key == k; }
      if j: nat :| j < |chain'| && chain'[j].key == k { assert chain[j].key == k; }
      WalkUpdate(chain, i, data, k, zero);
    }
  }

  lemma ChainPrepended<D>(chain: seq<Bucket<D>>, key: nat, h: nat, n: nat, contents: map<nat, D>, zero: D, data: D)
    requires n > 0 && ChainValid(chain, h, n, contents, zero) && key % n == h && !InChain(chain, key)
    ensures ChainValid([Bucket(key, data)] + chain, h, n, contents[key := data], zero)
  {
    var chain' := [Bucket(key, data)] + chain;
    assert chain'[1..] == chain;
    forall k: nat | k % n == h
      ensures InChain(chain', k) <==> k == key || InChain(chain, k)
    {
      if j: nat :| j < |chain| && chain[j].key == k { assert chain'[j + 1].key == k; }
      if k == key { assert chain'[0].key == k; }
    }
  }

  class HashTable<D> {
    const zero: D
    const buckets: array<seq<Bucket<D>>>
    /** The table as a map; a key that is not in it, or that maps to zero, is absent. */
    ghost var contents: map<nat, D>

    ghost predicate Valid()
      reads this, buckets
    {
      && buckets.Length > 0
      && forall h | 0 <= h < buckets.Length :: ChainValid(buckets[h], h, buckets.Length, contents, zero)
    }

    constructor (nbuckets: nat, zero: D)
      requires nbuckets > 0
      ensures Valid() && contents == map[] && fresh(buckets) && this.zero == zero
    {
      this.zero := zero;
      buckets := new seq<Bucket<D>>[nbuckets](_ => []);
      contents := map[];
    }

    /** `hashtable_get64`. */
    method Get(key: nat) returns (r: D)
      requires Valid()
      ensures r == Value(contents, key, zero)
    {
      var h := key % buckets.Length;
      var chain := buckets[h];
      for i := 0 to |chain|
        invariant forall j | 0 <= j < i :: chain[j].key != key
      {
        if chain[i].key == key {
          WalkHit(chain, i, zero);
          return chain[i].data;
        }
      }
      WalkMiss(chain, key, zero);
      return zero;
    }

    /** `hashtable_set64`: rewrite the key's bucket in place, or put a new one at the head of the chain. */
    method Set(key: nat, data: D)
      requires Valid()
      modifies this`contents, buckets
      ensures Valid() && contents == old(contents)[key := data]
    {
      var h := key % buckets.Length;
      var chain := buckets[h];
      contents := contents[key := data];
      for i := 0 to |chain|
        invariant buckets[..] == old(buckets[..]) && contents == old(contents)[key := data]
        invariant forall j | 0 <= j < i :: chain[j].key != key
      {
        if chain[i].key == key {
          ChainRewritten(chain, i, h, buckets.Length, old(contents), zero, data);
          buckets[h] := chain[i := Bucket(key, data)];
          return;
        }
      }
      ChainPrepended(chain, key, h, buckets.Length, old(contents), zero, data);
      buckets[h] := [Bucket(key, data)] + chain;
    }
  }
}
