/** The keyboard scan tables of scripts/scantable.py: a table from scan codes to strings is written as a run of bytes,
    where a string is followed by a zero, and a zero followed by a number skips that many codes. */
module ScanTable {
  import opened Options

  type Bytes = seq<nat>

  const CODES: nat := 256

  /** What the parser of the table files guarantees: strings are not empty; and they are C strings. */
  ghost predicate Strings(m: map<nat, Bytes>) {
    forall k | k in m :: m[k] != [] && NulFree(m[k])
  }

  predicate NulFree(s: Bytes) {
    forall i | 0 <= i < |s| :: 0 < s[i] < 256
  }

  function Lookup(m: map<nat, Bytes>, n: nat): Option<Bytes> {
    if n in m && n < CODES then Some(m[n]) else None
  }

  /** `_how_many_zeroes`: the length of the run of unused codes at `i`. */
  function Unused(m: map<nat, Bytes>, i: nat): nat
    decreases CODES - i, m
  {
    if i in m || i >= CODES then 0 else 1 + Unused(m, i + 1)
  }

  lemma {:induction false} UnusedRun(m: map<nat, Bytes>, i: nat)
    requires i <= CODES
    ensures i + Unused(m, i) <= CODES && forall k | i <= k < i + Unused(m, i) :: k !in m
    ensures i + Unused(m, i) < CODES ==> i + Unused(m, i) in m
    ensures i < CODES && i !in m ==> Unused(m, i) > 0
    decreases CODES - i
  {
    if i < CODES && i !in m { UnusedRun(m, i + 1); }
  }

  /** The bytes for the codes from `i` on. */
  function Encode(m: map<nat, Bytes>, i: nat): Bytes
    decreases CODES - i, m
  {
    if i >= CODES then []
    else if i in m then m[i] + [0] + Encode(m, i + 1)
    else [0, Unused(m, i)] + Encode(m, i + Unused(m, i))
  }

  /** The bytes up to the next zero. */
  function CString(t: Bytes): (s: Bytes)
    ensures |s| <= |t| && s == t[..|s|] && (|s| < |t| ==> t[|s|] == 0) && forall i | 0 <= i < |s| :: s[i] != 0
  {
    if t == [] || t[0] == 0 then [] else [t[0]] + CString(t[1..])
  }

  lemma {:induction false} CStringOf(s: Bytes, t: Bytes)
    requires NulFree(s)
    ensures CString(s + [0] + t) == s
  {
    if s == [] {
      assert ([] + [0] + t)[0] == 0;
    } else {
      assert (s + [0] + t)[0] == s[0] && (s + [0] + t)[1..] == s[1..] + [0] + t;
      CStringOf(s[1..], t);
    }
  }

  /** Every skip has its number and every string its zero. */
  predicate Formed(t: Bytes)
    decreases |t|
  {
    || t == []
    || (t[0] == 0 && |t| >= 2 && Formed(t[2..]))
    || (t[0] != 0 && |CString(t)| < |t| && Formed(t[|CString(t)| + 1..]))
  }

  /** What looking for code `n` finds in the bytes for the codes from `i` on. */
  function Look(t: Bytes, i: nat, n: nat): Option<Bytes>
    requires Formed(t)
    decreases |t|
  {
    if t == [] then None
    else if t[0] == 0 then
      if n < i + t[1] then None else Look(t[2..], i + t[1], n)
    else if i == n then Some(CString(t))
    else Look(t[|CString(t)| + 1..], i + 1, n)
  }

  lemma LookString(s: Bytes, rest: Bytes, i: nat, n: nat)
    requires s != [] && NulFree(s) && Formed(rest)
    ensures var t := s + [0] + rest; Formed(t) && Look(t, i, n) == if i == n then Some(s) else Look(rest, i + 1, n)
  {
    var t := s + [0] + rest;
    CStringOf(s, rest);
    assert t[0] == s[0] && t[|s| + 1..] == rest;
  }

  lemma LookRun(k: nat, rest: Bytes, i: nat, n: nat)
    requires Formed(rest)
    ensures var t := [0, k] + rest; Formed(t) && Look(t, i, n) == if n < i + k then None else Look(rest, i + k, n)
  {
    var t := [0, k] + rest;
    assert t[0] == 0 && t[1] == k && t[2..] == rest;
  }

  lemma {:induction false} EncodeFormed(m: map<nat, Bytes>, i: nat)
    requires Strings(m)
    ensures Formed(Encode(m, i))
    decreases CODES - i
  {
    if i < CODES {
      if i in m {
        EncodeFormed(m, i + 1);
        LookString(m[i], Encode(m, i + 1), 0, 0);
      } else {
        UnusedRun(m, i);
        EncodeFormed(m, i + Unused(m, i));
        LookRun(Unused(m, i), Encode(m, i + Unused(m, i)), 0, 0);
      }
    }
  }

  /** Looking a code up in the encoding of a table gives what the table has for it. */
  lemma {:induction false} RoundTrip(m: map<nat, Bytes>, i: nat, n: nat)
    requires Strings(m) && i <= CODES && i <= n
    ensures Formed(Encode(m, i)) && Look(Encode(m, i), i, n) == Lookup(m, n)
    decreases CODES - i
  {
    if i < CODES {
      var j := if i in m then i + 1 else i + Unused(m, i);
      var rest := Encode(m, j);
      UnusedRun(m, i);
      EncodeFormed(m, j);
      if i in m {
        LookString(m[i], rest, i, n);
      } else {
        LookRun(Unused(m, i), rest, i, n);
      }
      if j <= n { RoundTrip(m, j, n); }
    }
  }

  ghost predicate AllBytes(t: Bytes) {
    forall i | 0 <= i < |t| :: t[i] < 256
  }

  ghost predicate SomeFrom(m: map<nat, Bytes>, i: nat) {
    exists k :: i <= k < CODES && k in m
  }

  /** Every number of the encoding is a byte, exactly if the table is not empty. */
  lemma {:induction false} EncodeBytes(m: map<nat, Bytes>, i: nat)
    requires Strings(m)
    ensures AllBytes(Encode(m, i)) <==> i > 0 || SomeFrom(m, 0)
    decreases CODES - i
  {
    if i < CODES {
      if i in m {
        EncodeBytes(m, i + 1);
        var t := Encode(m, i + 1);
        assert AllBytes(m[i] + [0] + t) by { assert forall k | 0 <= k < |m[i]| :: m[i][k] < 256; }
      } else {
        UnusedRun(m, i);
        var n := Unused(m, i);
        EncodeBytes(m, i + n);
        assert Encode(m, i) == [0, n] + Encode(m, i + n);
        assert Encode(m, i)[1] == n;
        if i == 0 && SomeFrom(m, 0) {
          var k :| 0 <= k < CODES && k in m;
          assert !(0 <= k < n);
        }
      }
    }
  }

  lemma AppendRun(m: map<nat, Bytes>, t: Bytes, i: nat)
    requires i < CODES && i !in m
    ensures (t + [0, Unused(m, i)]) + Encode(m, i + Unused(m, i)) == t + Encode(m, i)
  {
    assert Encode(m, i) == [0, Unused(m, i)] + Encode(m, i + Unused(m, i));
  }

  lemma AppendString(m: map<nat, Bytes>, t: Bytes, i: nat)
    requires i < CODES && i in m
    ensures ((t + m[i]) + [0]) + Encode(m, i + 1) == t + Encode(m, i)
  {
    assert Encode(m, i) == m[i] + [0] + Encode(m, i + 1);
  }

  /** The place behind the string at `idx` and its zero. */
  function Behind(t: Bytes, idx: nat): nat
    requires idx <= |t|
  {
    idx + |CString(t[idx..])| + 1
  }

  /** The rest of the table from `idx` on decides the look-up. */
  ghost predicate Pending(t: Bytes, idx: nat, i: nat, n: nat, result: Option<Bytes>) {
    idx <= |t| && Formed(t[idx..]) && result == Look(t[idx..], i, n)
  }

  lemma PendingAtStart(t: Bytes, n: nat)
    requires Formed(t)
    ensures Pending(t, 0, 0, n, Look(t, 0, n))
  {
    assert t[0..] == t;
  }

  lemma PendingAtEnd(t: Bytes, i: nat, n: nat, result: Option<Bytes>)
    requires Pending(t, |t|, i, n, result)
    ensures result == None
  {
  }

  /** One round of the loops of the look-ups, at a run of unused codes. */
  lemma PendingSkip(t: Bytes, idx: nat, i: nat, n: nat, result: Option<Bytes>)
    requires Pending(t, idx, i, n, result) && idx < |t| && t[idx] == 0
    ensures idx + 2 <= |t|
    ensures if n < i + t[idx + 1] then result == None else Pending(t, idx + 2, i + t[idx + 1], n, result)
  {
    assert t[idx..][2..] == t[idx + 2..];
  }

  /** The same at a string. */
  lemma PendingString(t: Bytes, idx: nat, i: nat, n: nat, result: Option<Bytes>)
    requires Pending(t, idx, i, n, result) && idx < |t| && t[idx] != 0
    ensures Behind(t, idx) <= |t|
    ensures if i == n then result == Some(CString(t[idx..])) else Pending(t, Behind(t, idx), i + 1, n, result)
  {
    hide CString;
    var rest := t[idx..];
    assert rest[|CString(rest)| + 1..] == t[idx + |CString(rest)| + 1..];
  }

  /** The answer of the emitted look-up, a place or nothing, as a string. */
  predicate Points(t: Bytes, r: Option<nat>, s: Option<Bytes>) {
    match s
    case None => r == None
    case Some(str) => r.Some? && r.value < |t| && CString(t[r.value..]) == str
  }

  /** `generate_table`; `ok` says whether its closing assertion holds. */
  method GenerateTable(table: map<nat, Bytes>) returns (t: Bytes, ok: bool)
    requires Strings(table)
    ensures t == Encode(table, 0) && (ok <==> SomeFrom(table, 0))
  {
    t := [];
    var i := 0;
    while i < CODES
      invariant 0 <= i <= CODES && t + Encode(table, i) == Encode(table, 0)
    {
      UnusedRun(table, i);
      if i !in table {
        var n := CountUnused(table, i);
        if n == 0 {
          break;
        }
        AppendRun(table, t, i);
        t := t + [0, n];
        i := i + n;
      } else {
        AppendString(table, t, i);
        t := t + table[i];
        t := t + [0];
        i := i + 1;
      }
    }
    assert t + [] == t;
    EncodeBytes(table, 0);
    ok := CheckBytes(t);
  }

  method CheckBytes(t: Bytes) returns (ok: bool)
    ensures ok <==> AllBytes(t)
  {
    ok := true;
    for k := 0 to |t|
      invariant ok <==> forall j | 0 <= j < k :: t[j] < 256
    {
      if t[k] >= 256 { ok := false; }
    }
  }

  method CountUnused(table: map<nat, Bytes>, i0: nat) returns (n: nat)
    requires i0 <= CODES
    ensures n == Unused(table, i0)
  {
    var i := i0;
    n := 0;
    while i !in table && i < CODES
      invariant n + Unused(table, i) == Unused(table, i0) && i <= CODES
      decreases CODES - i
    {
      i, n := i + 1, n + 1;
    }
  }

  /** `lookup_table`. */
  method LookupTable(table: Bytes, n: nat) returns (r: Option<Bytes>)
    requires Formed(table)
    ensures r == Look(table, 0, n)
  {
    hide Formed, Look, CString, Pending;
    ghost var result := Look(table, 0, n);
    var i, idx := 0, 0;
    PendingAtStart(table, n);
    while idx < |table|
      invariant 0 <= idx <= |table| && i >= 0 && Pending(table, idx, i, n, result)
      decreases |table| - idx
    {
      if table[idx] == 0 {
        PendingSkip(table, idx, i, n, result);
        i := i + table[idx + 1];
        idx := idx + 2;
        if n < i {
          return None;
        }
      } else {
        PendingString(table, idx, i, n, result);
        var s := StringAt(table, idx);
        if i == n {
          return Some(s);
        }
        idx := idx + |s| + 1;
        i := i + 1;
      }
    }
    PendingAtEnd(table, i, n, result);
    return None;
  }

  /** `_c_string_at`. */
  method StringAt(table: Bytes, idx0: nat) returns (arr: Bytes)
    requires idx0 <= |table| && idx0 + |CString(table[idx0..])| < |table|
    ensures arr == CString(table[idx0..])
  {
    arr := [];
    var idx := idx0;
    while table[idx] != 0
      invariant idx0 <= idx < |table| && arr + CString(table[idx..]) == CString(table[idx0..])
      invariant idx + |CString(table[idx..])| < |table|
      decreases |table| - idx
    {
      assert table[idx..][1..] == table[idx + 1..];
      arr := arr + [table[idx]];
      idx := idx + 1;
    }
  }

  method SkipString(t: Bytes, idx0: nat) returns (idx: nat)
    requires idx0 <= |t| && Behind(t, idx0) <= |t|
    ensures idx == Behind(t, idx0) > idx0
  {
    var s := StringAt(t, idx0);
    idx := idx0 + |s| + 1;
  }

  /** The look-up emitted as C: it returns the place of the string. */
  method LookupScantable(t: Bytes, code: nat, escaped: bool) returns (r: Option<nat>)
    requires Formed(t) && code < 256
    ensures Points(t, r, Look(t, 0, if escaped && code < 0x80 then code + 0x80 else code))
  {
    r := FindCode(t, if escaped && code < 0x80 then code + 0x80 else code);
  }

  /** Its loop. */
  method FindCode(t: Bytes, n: nat) returns (r: Option<nat>)
    requires Formed(t)
    ensures Points(t, r, Look(t, 0, n))
  {
    hide Formed, Look, CString, Pending, Behind;
    ghost var result := Look(t, 0, n);
    var i, idx := 0, 0;
    PendingAtStart(t, n);
    while idx < |t|
      invariant 0 <= idx <= |t| && i >= 0 && Pending(t, idx, i, n, result)
      decreases |t| - idx
    {
      if t[idx] == 0 {
        PendingSkip(t, idx, i, n, result);
        i := i + t[idx + 1];
        idx := idx + 2;
        if n < i {
          return None;
        }
      } else {
        PendingString(t, idx, i, n, result);
        if i == n {
          return Some(idx);
        }
        idx := SkipString(t, idx);
        i := i + 1;
      }
    }
    PendingAtEnd(t, i, n, result);
    return None;
  }

  /** Both look-ups find in a generated table what the original table says. */
  lemma GeneratedLooksUp(m: map<nat, Bytes>, n: nat)
    requires Strings(m)
    ensures Formed(Encode(m, 0)) && Look(Encode(m, 0), 0, n) == Lookup(m, n)
  {
    RoundTrip(m, 0, n);
  }
}
