/** Integers as text: `convert_int` of src/snprintf.c, and `strtoul` and `strtol` of src/stdlib.c. */
module IntText {

  /** `unsigned long` has 32 bits; `convert_int` works on 64. */
  const TWO_TO_31: int := 0x8000_0000
  const TWO_TO_32: int := 0x1_0000_0000
  const TWO_TO_63: int := 0x8000_0000_0000_0000
  const TWO_TO_64: int := 0x1_0000_0000_0000_0000

  const NUL: char := 0 as char

  predicate Radix(r: nat) {
    r == 8 || r == 10 || r == 16
  }

  const CHARS: string := "0123456789abcdef"
  const TRANS_CHARS: string := "0123456789ABCDEF"

  function Digit(d: nat, upper: bool): char
    requires d < 16
  {
    (if upper then TRANS_CHARS else CHARS)[d]
  }

  /** `digit_value`. */
  function DigitValue(c: char): int {
    if '0' <= c <= '9' then c as int - '0' as int
    else if 'a' <= c <= 'f' then c as int - 'a' as int + 10
    else if 'A' <= c <= 'F' then c as int - 'A' as int + 10
    else -1
  }

  /** `isdigit_for_base`. */
  predicate IsDigit(c: char, base: nat) {
    if base == 2 then c == '0' || c == '1'
    else if base == 8 then '0' <= c < '8'
    else if base == 10 then '0' <= c <= '9'
    else if base == 16 then '0' <= c <= '9' || 'a' <= c <= 'f' || 'A' <= c <= 'F'
    else false
  }

  /** The digits of a base are the characters with a value below it. */
  lemma DigitOfBase(c: char, base: nat)
    ensures IsDigit(c, base) <==> (base == 2 || base == 8 || base == 10 || base == 16) && 0 <= DigitValue(c) < base
  {
  }

  lemma DigitBack(d: nat, upper: bool, r: nat)
    requires Radix(r) && d < r
    ensures IsDigit(Digit(d, upper), r) && DigitValue(Digit(d, upper)) == d
    ensures Digit(d, upper) != NUL && Digit(d, upper) != 'x' && Digit(d, upper) != 'X' && Digit(d, upper) != '-'
  {
    assert CHARS[0] == '0' && CHARS[1] == '1' && CHARS[2] == '2' && CHARS[3] == '3';
    assert CHARS[4] == '4' && CHARS[5] == '5';
  }

  /** The digits of `i`, none for zero. */
  function Digits(i: nat, r: nat, upper: bool): string
    requires Radix(r)
  {
    if i == 0 then [] else Digits(i / r, r, upper) + [Digit(i % r, upper)]
  }

  function Zeros(n: int): string
    decreases n
  {
    if n <= 0 then [] else ['0'] + Zeros(n - 1)
  }

  /** What is printed for the 64-bit word `i`. */
  function Printed(i: nat, r: nat, precision: int, upper: bool, signed: bool): string
    requires i < TWO_TO_64 && Radix(r)
  {
    var negative := signed && i >= TWO_TO_63;
    var digits := Digits(if negative then TWO_TO_64 - i else i, r, upper);
    (if negative then "-" else "") + Zeros(precision - |digits|) + digits
  }

  /** The number that digits stand for. */
  function Value(s: string, r: nat): int {
    if s == [] then 0 else Value(s[..|s| - 1], r) * r + DigitValue(s[|s| - 1])
  }

  predicate AllDigits(s: string, r: nat) {
    forall i | 0 <= i < |s| :: IsDigit(s[i], r) && s[i] != NUL && s[i] != 'x' && s[i] != 'X' && s[i] != '-'
  }

  /** The character for a digit, with letters of the one case or the other. */
  predicate InCase(c: char, upper: bool) {
    '0' <= c <= '9' || if upper then 'A' <= c <= 'F' else 'a' <= c <= 'f'
  }

  lemma DigitCase(d: nat, upper: bool)
    requires d < 16
    ensures InCase(Digit(d, upper), upper) && (Digit(d, upper) == '0' <==> d == 0)
    ensures d < 10 <==> '0' <= Digit(d, upper) <= '9'
  {
    assert CHARS[0] == '0' && TRANS_CHARS[0] == '0';
  }

  /** No leading zero, and all letters of the case asked for. */
  lemma {:induction false} DigitsShape(i: nat, r: nat, upper: bool)
    requires Radix(r)
    ensures i > 0 ==> Digits(i, r, upper) != [] && Digits(i, r, upper)[0] != '0'
    ensures forall k | 0 <= k < |Digits(i, r, upper)| :: InCase(Digits(i, r, upper)[k], upper)
    decreases i
  {
    if i > 0 {
      DivMod(i, r);
      DigitsShape(i / r, r, upper);
      DigitCase(i % r, upper);
    }
  }

  /** What is printed: a minus exactly for a negative number, and behind it no more zeros than the
      precision asks for. */
  lemma PrintedShape(i: nat, r: nat, precision: int, upper: bool, signed: bool)
    requires i < TWO_TO_64 && Radix(r)
    ensures var s := Printed(i, r, precision, upper, signed);
            var at := if signed && i >= TWO_TO_63 then 1 else 0;
            && |s| >= at && (at == 1 ==> s[0] == '-') && (|s| - at <= precision || |s| == at || s[at] != '0')
            && forall k | at <= k < |s| :: InCase(s[k], upper)
  {
    var at := if signed && i >= TWO_TO_63 then 1 else 0;
    var n := if at == 1 then TWO_TO_64 - i else i;
    var digits := Digits(n, r, upper);
    var zeros := Zeros(precision - |digits|);
    ZerosIs(precision - |digits|);
    DigitsShape(n, r, upper);
    var s := Printed(i, r, precision, upper, signed);
    assert s == (if at == 1 then "-" else "") + zeros + digits;
    assert forall k | at <= k < |s| ::
        s[k] == if k - at < |zeros| then zeros[k - at] else digits[k - at - |zeros|];
  }

  lemma DivMod(i: nat, r: nat)
    requires Radix(r)
    ensures i == (i / r) * r + i % r && i % r < r && (i > 0 ==> i / r < i)
  {
  }

  lemma Snoc(s: string, c: char, r: nat)
    ensures Value(s + [c], r) == Value(s, r) * r + DigitValue(c)
    ensures AllDigits(s, r) && AllDigits([c], r) ==> AllDigits(s + [c], r)
  {
    assert (s + [c])[..|s + [c]| - 1] == s;
    assert AllDigits([c], r) ==> [c][0] == c && IsDigit(c, r);
  }

  lemma {:induction false} DigitsValue(i: nat, r: nat, upper: bool)
    requires Radix(r)
    ensures Value(Digits(i, r, upper), r) == i && AllDigits(Digits(i, r, upper), r)
    decreases i
  {
    if i > 0 {
      DivMod(i, r);
      DigitsValue(i / r, r, upper);
      DigitBack(i % r, upper, r);
      Snoc(Digits(i / r, r, upper), Digit(i % r, upper), r);
    }
  }

  lemma {:induction false} ZerosIs(n: int)
    ensures |Zeros(n)| == if n > 0 then n else 0
    ensures forall i | 0 <= i < |Zeros(n)| :: Zeros(n)[i] == '0'
    decreases n
  {
    if n > 0 { ZerosIs(n - 1); }
  }

  lemma {:induction false} ZerosValue(z: string, s: string, r: nat)
    requires forall i | 0 <= i < |z| :: z[i] == '0'
    ensures Value(z + s, r) == Value(s, r)
    decreases |z| + |s|
  {
    if s != [] {
      assert (z + s)[..|z + s| - 1] == z + s[..|s| - 1];
      ZerosValue(z, s[..|s| - 1], r);
    } else if z != [] {
      assert z + s == z && z[..|z| - 1] + [] == z[..|z| - 1];
      ZerosValue(z[..|z| - 1], [], r);
    }
  }

  /** The magnitude part of what is printed: at least `precision` digits that stand for the number. */
  lemma PaddedDigits(i: nat, r: nat, precision: int, upper: bool) returns (s: string)
    requires Radix(r)
    ensures s == Zeros(precision - |Digits(i, r, upper)|) + Digits(i, r, upper)
    ensures Value(s, r) == i && AllDigits(s, r) && |s| >= precision
  {
    var d := Digits(i, r, upper);
    s := Zeros(precision - |d|) + d;
    ZerosIs(precision - |d|);
    DigitsValue(i, r, upper);
    ZerosValue(Zeros(precision - |d|), d, r);
  }

  // ---------- printing

  /** No number of 64 bits has more digits than the temporary buffer has room for. */
  lemma DigitsFit(i: nat, r: nat, upper: bool)
    requires i < TWO_TO_64 && Radix(r)
    ensures |Digits(i, r, upper)| <= 22
  {
    assert Power8(22) == 0x4_0000_0000_0000_0000 by {
      assert Power8(8) == 0x100_0000 && Power8(16) == 0x1_0000_0000_0000;
    }
    FewDigits(i, r, upper, 22);
  }

  function Power8(n: nat): nat {
    if n == 0 then 1 else 8 * Power8(n - 1)
  }

  lemma {:induction false} FewDigits(i: nat, r: nat, upper: bool, n: nat)
    requires Radix(r) && i < Power8(n)
    ensures |Digits(i, r, upper)| <= n
    decreases n
  {
    hide Digits, Digit;
    if i > 0 {
      LastDigit(i, r, upper);
      DropDigit(i, r, Power8(n - 1));
      FewDigits(i / r, r, upper, n - 1);
    } else {
      NoDigits(r, upper);
    }
  }

  lemma DropDigit(i: nat, r: nat, m: nat)
    requires Radix(r) && i < 8 * m
    ensures i / r < m
  {
    if r == 8 { assert i / 8 < m; } else if r == 10 { assert i / 10 < m; } else { assert i / 16 < m; }
  }

  lemma NoDigits(r: nat, upper: bool)
    requires Radix(r)
    ensures Digits(0, r, upper) == []
  {
  }

  lemma LastDigit(i: nat, r: nat, upper: bool)
    requires Radix(r) && i > 0
    ensures Digits(i, r, upper) == Digits(i / r, r, upper) + [Digit(i % r, upper)] && i / r < i
  {
    DivMod(i, r);
  }

  /** The first loop of `convert_int`: the digits, the last one first. */
  method TakeDigits(tmpbuf: array<char>, i0: nat, r: nat, upper: bool) returns (j: nat)
    requires Radix(r) && |Digits(i0, r, upper)| < tmpbuf.Length
    modifies tmpbuf
    ensures j == |Digits(i0, r, upper)| && tmpbuf[j] == NUL
    ensures forall k | 0 <= k < j :: tmpbuf[k] == Digits(i0, r, upper)[j - 1 - k]
  {
    var i: nat := i0;
    hide Digits, Digit;
    ghost var all := Digits(i0, r, upper);
    NoDigits(r, upper);
    j := 0;
    while i != 0
      invariant 0 <= j && |Digits(i, r, upper)| + j == |all| && Digits(i, r, upper) == all[..|all| - j]
      invariant forall k | 0 <= k < j :: tmpbuf[k] == all[|all| - 1 - k]
    {
      LastDigit(i, r, upper);
      assert all[..|all| - j][..|all| - j - 1] == all[..|all| - j - 1];
      tmpbuf[j] := Digit(i % r, upper);
      j := j + 1;
      i := i / r;
    }
    tmpbuf[j] := NUL;
  }

  method PutZeros(buf: array<char>, at0: nat, n: int) returns (at: nat)
    requires at0 + |Zeros(n)| <= buf.Length
    modifies buf
    ensures at == at0 + |Zeros(n)| && buf[..at] == old(buf[..at0]) + Zeros(n)
    ensures forall k | at <= k < buf.Length :: buf[k] == old(buf[k])
  {
    ghost var zeros := Zeros(n);
    ZerosIs(n);
    at := at0;
    for k := 0 to if n > 0 then n else 0
      invariant at == at0 + k && buf[..at] == old(buf[..at0]) + zeros[..k]
      invariant forall k | at <= k < buf.Length :: buf[k] == old(buf[k])
    {
      buf[at] := '0';
      at := at + 1;
    }
  }

  /** The last loop of `convert_int`. */
  method PutReversed(buf: array<char>, at0: nat, tmpbuf: array<char>, j0: nat, ghost s: string) returns (at: nat)
    requires buf != tmpbuf && j0 == |s| <= tmpbuf.Length && at0 + j0 <= buf.Length
    requires forall k | 0 <= k < j0 :: tmpbuf[k] == s[j0 - 1 - k]
    modifies buf
    ensures at == at0 + j0 && buf[..at] == old(buf[..at0]) + s
    ensures forall k | at <= k < buf.Length :: buf[k] == old(buf[k])
  {
    var j := j0;
    at := at0;
    while j != 0
      invariant 0 <= j <= j0 && at == at0 + (j0 - j) && buf[..at] == old(buf[..at0]) + s[..j0 - j]
      invariant forall k | at <= k < buf.Length :: buf[k] == old(buf[k])
    {
      j := j - 1;
      buf[at] := tmpbuf[j];
      at := at + 1;
    }
  }

  /** `convert_int`. */
  method ConvertInt(buf: array<char>, word: nat, r: nat, precision: int, upper: bool, signed: bool)
    requires word < TWO_TO_64 && Radix(r) && |Printed(word, r, precision, upper, signed)| < buf.Length
    modifies buf
    ensures var s := Printed(word, r, precision, upper, signed); buf[..|s|] == s && buf[|s|] == NUL
    ensures forall k | |Printed(word, r, precision, upper, signed)| < k < buf.Length :: buf[k] == old(buf[k])
  {
    var i := word;
    var negative := false;
    if signed && i >= TWO_TO_63 {
      negative := true;
      i := TWO_TO_64 - i;
    }
    DigitsFit(i, r, upper);
    var tmpbuf := new char[32];
    var j := TakeDigits(tmpbuf, i, r, upper);
    ghost var digits := Digits(i, r, upper);
    var at := 0;
    if negative {
      buf[0] := '-';
      at := 1;
    }
    assert buf[..at] == if negative then "-" else "";
    at := PutZeros(buf, at, precision - j);
    at := PutReversed(buf, at, tmpbuf, j, digits);
    buf[at] := NUL;
  }

  // ---------- parsing

  /** The end of the run of digits at `at`. */
  function RunEnd(s: string, base: nat, at: nat): (end: nat)
    requires at <= |s|
    ensures at <= end <= |s|
    decreases |s| - at
  {
    if at < |s| && IsDigit(s[at], base) then RunEnd(s, base, at + 1) else at
  }

  /** The base that is used: 0 asks for it to be guessed, and stays 0 if that fails. */
  function BaseOf(s: string, base: nat): nat {
    if base != 0 then base
    else if |s| > 1 && s[0] == '0' && (s[1] == 'x' || s[1] == 'X') then 16
    else if |s| > 0 && s[0] == '0' then 8
    else if |s| > 0 && IsDigit(s[0], 10) then 10
    else 0
  }

  predicate HasPrefix(s: string, base: nat) {
    base == 16 && |s| > 1 && s[0] == '0' && (s[1] == 'x' || s[1] == 'X')
  }

  /** A string without its closing zero. */
  predicate NulFree(s: string) {
    forall i | 0 <= i < |s| :: s[i] != NUL
  }

  /** What `strtoul` returns, and the place that it stores through `endptr`: the longest run of digits of the base
      behind an optional prefix, as a 32-bit word. */
  function ParseUnsigned(s: string, base0: nat): (nat, nat) {
    var base := BaseOf(s, base0);
    if base == 0 then (0, 0)
    else
      var from := if HasPrefix(s, base) then 2 else 0;
      var end := RunEnd(s, base, from);
      (Value(s[from..end], base) % TWO_TO_32, end)
  }

  /** A 32-bit word as a signed number. */
  function Signed(n: nat): (v: int)
    requires n < TWO_TO_32
    ensures -TWO_TO_31 <= v < TWO_TO_31 && v % TWO_TO_32 == n
  {
    if n < TWO_TO_31 then n else n - TWO_TO_32
  }

  /** The negative of a 32-bit signed number, in 32 bits. */
  function Negated(n: int): (v: int)
    requires -TWO_TO_31 <= n < TWO_TO_31
    ensures -TWO_TO_31 <= v < TWO_TO_31 && (v + n) % TWO_TO_32 == 0
  {
    if n == -TWO_TO_31 then n else -n
  }

  function ParseSigned(s: string, base: nat): (int, nat) {
    if s != [] && s[0] == '-' then
      var r := ParseUnsigned(s[1..], base);
      (Negated(Signed(r.0)), r.1 + 1)
    else
      var r := ParseUnsigned(s, base);
      (Signed(r.0), r.1)
  }

  lemma AddDigit(v: int, base: nat, d: int)
    ensures (v % TWO_TO_32 * base % TWO_TO_32 + d) % TWO_TO_32 == (v * base + d) % TWO_TO_32
  {
    var q, m := v / TWO_TO_32, v % TWO_TO_32;
    assert v * base == (q * base) * TWO_TO_32 + m * base by { assert v == q * TWO_TO_32 + m; }
    ModAdd(m * base + d, q * base);
    var k := m * base / TWO_TO_32;
    ModAdd(m * base % TWO_TO_32 + d, k);
  }

  lemma ModAdd(x: int, q: int)
    ensures (q * TWO_TO_32 + x) % TWO_TO_32 == x % TWO_TO_32
  {
  }

  /** `strtoul`. */
  method Strtoul(s: string, base0: nat) returns (n: nat, at: nat)
    requires NulFree(s)
    ensures (n, at) == ParseUnsigned(s, base0)
  {
    var base := base0;
    if base == 0 && |s| > 1 && s[0] == '0' && (s[1] == 'x' || s[1] == 'X') {
      base := 16;
    } else if base == 0 && |s| > 0 && s[0] == '0' {
      base := 8;
    } else if base == 0 && |s| > 0 && IsDigit(s[0], 10) {
      base := 10;
    }
    if base == 0 {
      return 0, 0;
    }
    at := 0;
    if base == 16 && |s| > 1 && s[0] == '0' && (s[1] == 'x' || s[1] == 'X') {
      at := 2;
    }
    n, at := Accumulate(s, at, base);
  }

  /** The loop of `strtoul`. */
  method Accumulate(s: string, from: nat, base: nat) returns (accum: nat, at: nat)
    requires from <= |s|
    ensures at == RunEnd(s, base, from) && accum == Value(s[from..at], base) % TWO_TO_32
  {
    at, accum := from, 0;
    while at < |s| && IsDigit(s[at], base)
      invariant from <= at <= |s| && accum == Value(s[from..at], base) % TWO_TO_32
      invariant RunEnd(s, base, at) == RunEnd(s, base, from)
      decreases |s| - at
    {
      var next := s[from..at + 1];
      assert next[..|next| - 1] == s[from..at] && next[|next| - 1] == s[at];
      AddDigit(Value(s[from..at], base), base, DigitValue(s[at]));
      accum := accum * base % TWO_TO_32;
      accum := (accum + DigitValue(s[at])) % TWO_TO_32;
      at := at + 1;
    }
  }

  /** `strtol`. */
  method Strtol(s: string, base: nat) returns (v: int, at: nat)
    requires NulFree(s)
    ensures (v, at) == ParseSigned(s, base)
  {
    var n;
    if s != [] && s[0] == '-' {
      n, at := Strtoul(s[1..], base);
      v, at := Negated(Signed(n)), at + 1;
    } else {
      n, at := Strtoul(s, base);
      v := Signed(n);
    }
  }

  // ---------- round trips

  lemma {:induction false} RunOfAll(s: string, r: nat, at: nat)
    requires AllDigits(s, r) && at <= |s|
    ensures RunEnd(s, r, at) == |s|
    decreases |s| - at
  {
    if at < |s| { RunOfAll(s, r, at + 1); }
  }

  /** A run of digits is parsed to the number that it stands for. */
  lemma ParseAll(s: string, r: nat)
    requires Radix(r) && AllDigits(s, r)
    ensures ParseUnsigned(s, r) == (Value(s, r) % TWO_TO_32, |s|)
  {
    RunOfAll(s, r, 0);
    assert !HasPrefix(s, r);
    assert s[0..|s|] == s;
  }

  /** The base that the caller gives, or the one that the text asks for. */
  predicate BaseFits(base0: nat, prefix: string, digits: string, base: nat) {
    if base0 != 0 then base0 == base
    else if prefix != "" then base == 16
    else digits != [] && base == if digits[0] == '0' then 8 else 10
  }

  lemma {:induction false} RunInside(s: string, base: nat, at: nat, end: nat)
    requires at <= end <= |s| && (forall i | at <= i < end :: IsDigit(s[i], base))
    requires end < |s| ==> !IsDigit(s[end], base)
    ensures RunEnd(s, base, at) == end
    decreases end - at
  {
    if at < end { RunInside(s, base, at + 1, end); }
  }

  /** A number in a text: an optional "0x" in base 16, a run of digits, and whatever follows. The run is parsed to the
      number that it stands for, and the place returned is the end of the run. */
  lemma ParseParts(prefix: string, digits: string, rest: string, base0: nat, base: nat)
    requires prefix == "" || (base == 16 && (prefix == "0x" || prefix == "0X"))
    requires (forall i | 0 <= i < |digits| :: IsDigit(digits[i], base)) && (rest != [] ==> !IsDigit(rest[0], base))
    requires BaseFits(base0, prefix, digits, base) && base != 0
    requires prefix == "" && digits == "0" ==> rest == "" || (rest[0] != 'x' && rest[0] != 'X')
    ensures ParseUnsigned(prefix + digits + rest, base0) == (Value(digits, base) % TWO_TO_32, |prefix| + |digits|)
  {
    hide IsDigit, BaseOf, HasPrefix, Value, BaseFits;
    var s := prefix + digits + rest;
    var n := |prefix| + |digits|;
    assert forall i | |prefix| <= i < n :: s[i] == digits[i - |prefix|];
    assert n < |s| ==> s[n] == rest[0];
    RunInside(s, base, |prefix|, n);
    assert s[|prefix|..n] == digits;
    if |digits| > 1 { NotAnX(digits[1], base); }
    BaseFound(prefix, digits, rest, base0, base);
  }

  lemma NotAnX(c: char, base: nat)
    requires IsDigit(c, base)
    ensures c != 'x' && c != 'X'
  {
  }

  lemma BaseFound(prefix: string, digits: string, rest: string, base0: nat, base: nat)
    requires prefix == "" || (base == 16 && (prefix == "0x" || prefix == "0X"))
    requires BaseFits(base0, prefix, digits, base) && base != 0
    requires digits != [] ==> IsDigit(digits[0], base)
    requires |digits| > 1 ==> digits[1] != 'x' && digits[1] != 'X'
    requires prefix == "" && digits == "0" ==> rest == "" || (rest[0] != 'x' && rest[0] != 'X')
    requires prefix == "" && digits == "" && rest != "" ==> !IsDigit(rest[0], base)
    ensures var s := prefix + digits + rest; BaseOf(s, base0) == base && (HasPrefix(s, base) <==> prefix != "")
  {
    var s := prefix + digits + rest;
    if prefix != "" {
      assert s[0] == prefix[0] && s[1] == prefix[1];
    } else if digits != "" {
      assert s[0] == digits[0] && (|s| > 1 ==> s[1] == if |digits| > 1 then digits[1] else rest[0]);
    } else {
      assert s == rest;
    }
  }

  /** Without a base, a text that does not start with a digit is not parsed at all. */
  lemma NothingParsed(s: string)
    requires s == "" || !('0' <= s[0] <= '9')
    ensures ParseUnsigned(s, 0) == (0, 0)
  {
  }

  /** The 64-bit word for a signed number. */
  function Word(v: int): nat
    requires -TWO_TO_63 <= v < TWO_TO_63
  {
    if v < 0 then v + TWO_TO_64 else v
  }

  function Magnitude(v: int): nat {
    if v < 0 then -v else v
  }

  lemma PrintedParts(v: int, r: nat, precision: int, upper: bool, signed: bool)
    requires Radix(r) && if signed then -TWO_TO_63 <= v < TWO_TO_63 else 0 <= v < TWO_TO_64
    ensures var digits := Digits(Magnitude(v), r, upper);
            Printed(if signed then Word(v) else v, r, precision, upper, signed)
            == (if v < 0 then "-" else "") + (Zeros(precision - |digits|) + digits)
  {
    var digits := Digits(Magnitude(v), r, upper);
    var sign := if v < 0 then "-" else "";
    assert sign + Zeros(precision - |digits|) + digits == sign + (Zeros(precision - |digits|) + digits);
  }

  /** `strtoul` undoes the printing of every 32-bit word, in each radix, in either case of letters and with any
      precision, and at least `precision` digits are printed. */
  lemma UnsignedRoundTrip(v: nat, r: nat, precision: int, upper: bool)
    requires v < TWO_TO_32 && Radix(r)
    ensures var s := Printed(v, r, precision, upper, false);
            ParseUnsigned(s, r) == (v, |s|) && |s| >= precision && NulFree(s)
  {
    var t := PaddedDigits(v, r, precision, upper);
    PrintedParts(v, r, precision, upper, false);
    ParseAll(t, r);
    Unsigned(t, r, v);
  }

  /** `strtol` undoes the printing of every signed 32-bit number. */
  lemma SignedRoundTrip(v: int, r: nat, precision: int, upper: bool)
    requires -TWO_TO_31 <= v < TWO_TO_31 && Radix(r)
    ensures var s := Printed(Word(v), r, precision, upper, true);
            ParseSigned(s, r) == (v, |s|) && |s| >= precision && NulFree(s)
  {
    var t := PaddedDigits(Magnitude(v), r, precision, upper);
    PrintedParts(v, r, precision, upper, true);
    ParseAll(t, r);
    SignBefore(t, r, v);
  }

  lemma Unsigned(t: string, r: nat, v: nat)
    requires AllDigits(t, r) && v < TWO_TO_32 && ParseUnsigned(t, r) == (v % TWO_TO_32, |t|)
    ensures var s := "" + t; ParseUnsigned(s, r) == (v, |s|) && NulFree(s)
  {
    assert "" + t == t;
  }

  lemma SignBefore(t: string, r: nat, v: int)
    requires Radix(r) && AllDigits(t, r) && -TWO_TO_31 <= v < TWO_TO_31
    requires ParseUnsigned(t, r) == (Magnitude(v) % TWO_TO_32, |t|)
    ensures var s := (if v < 0 then "-" else "") + t; ParseSigned(s, r) == (v, |s|) && NulFree(s)
  {
    hide ParseUnsigned, IsDigit, Value;
    if v < 0 {
      assert ("-" + t)[1..] == t && ("-" + t)[0] == '-';
    } else {
      assert "" + t == t;
    }
  }
}
