/**
  The few pieces of Python's `str` behaviour that the audiobook creator relies on:
  `isspace`, `isalnum` (ASCII part), `strip`/`lstrip`/`rstrip` with no argument,
  `str(n)` and the `02d` format of a non-negative integer.
  Strings are sequences of characters.
 */
module PyStrings {

  /** `c.isspace()`: the whitespace code points Python's `str` methods recognise. */
  predicate IsSpace(c: char)
  {
    var n := c as int;
    || 9 <= n <= 13
    || 28 <= n <= 32
    || n == 0x85 || n == 0xA0 || n == 0x1680
    || 0x2000 <= n <= 0x200A
    || n == 0x2028 || n == 0x2029 || n == 0x202F || n == 0x205F || n == 0x3000
  }

  /** `c.isalnum()`, restricted to ASCII letters and digits. */
  predicate IsAlnum(c: char)
  {
    '0' <= c <= '9' || 'A' <= c <= 'Z' || 'a' <= c <= 'z'
  }

  /** `s.isspace()`: true of a non-empty string made only of whitespace. */
  predicate IsSpaceString(s: string)
  {
    |s| > 0 && forall i :: 0 <= i < |s| ==> IsSpace(s[i])
  }

  /** `s.lstrip()`: the suffix left after dropping the leading whitespace. */
  function LStrip(s: string): (r: string)
    ensures |r| <= |s| && r == s[|s| - |r|..]
    ensures r == [] || !IsSpace(r[0])
    ensures forall i :: 0 <= i < |s| - |r| ==> IsSpace(s[i])
    decreases |s|
  {
    if s != [] && IsSpace(s[0]) then LStrip(s[1..]) else s
  }

  /** `s.rstrip()`: the prefix left after dropping the trailing whitespace. */
  function RStrip(s: string): (r: string)
    ensures |r| <= |s| && r == s[..|r|]
    ensures r == [] || !IsSpace(r[|r| - 1])
    ensures forall i :: |r| <= i < |s| ==> IsSpace(s[i])
    decreases |s|
  {
    if s != [] && IsSpace(s[|s| - 1]) then RStrip(s[..|s| - 1]) else s
  }

  /** `r` is `s` with its first `lead` characters and everything after `r` removed, all of them whitespace. */
  predicate Trims(s: string, r: string, lead: int)
  {
    && 0 <= lead <= |s| - |r| && r == s[lead..lead + |r|]
    && (forall k :: 0 <= k < lead ==> IsSpace(s[k]))
    && (forall k :: lead + |r| <= k < |s| ==> IsSpace(s[k]))
  }

  /** `s.strip()`: whitespace dropped at both ends, nothing changed in between. */
  function Strip(s: string): (r: string)
    ensures |r| <= |s|
    ensures r == [] || (!IsSpace(r[0]) && !IsSpace(r[|r| - 1]))
  {
    LStrip(RStrip(s))
  }

  /** `strip()` removes a whitespace prefix and a whitespace suffix and keeps the middle unchanged. */
  lemma StripTrims(s: string)
    ensures exists lead :: Trims(s, Strip(s), lead)
  {
    var t := RStrip(s);
    assert Trims(s, Strip(s), |t| - |Strip(s)|);
  }

  /** Stripping a string that neither starts nor ends with whitespace changes nothing. */
  lemma StripNoOp(s: string)
    requires s == [] || (!IsSpace(s[0]) && !IsSpace(s[|s| - 1]))
    ensures Strip(s) == s && RStrip(s) == s && LStrip(s) == s
  {
  }

  /** A trailing space never survives `strip`. */
  lemma StripTrailingSpace(s: string)
    ensures Strip(s + " ") == Strip(s)
  {
    var t := s + " ";
    assert IsSpace(t[|t| - 1]);
    assert t[..|t| - 1] == s;
    assert RStrip(t) == RStrip(s);
  }

  /** `a` occurs in `b` with its characters in the same order, possibly with gaps. */
  ghost predicate IsSubseq(a: string, b: string)
    decreases |b|
  {
    a == [] || (b != [] && ((a[0] == b[0] && IsSubseq(a[1..], b[1..])) || IsSubseq(a, b[1..])))
  }

  lemma {:induction false} SubseqDropFirst(a: string, b: string)
    requires a != [] && IsSubseq(a, b)
    ensures IsSubseq(a[1..], b)
    decreases |b|
  {
    if a[0] == b[0] && IsSubseq(a[1..], b[1..]) {
    } else {
      SubseqDropFirst(a, b[1..]);
    }
  }

  lemma {:induction false} SubseqDropLast(a: string, b: string)
    requires a != [] && IsSubseq(a, b)
    ensures IsSubseq(a[..|a| - 1], b)
    decreases |b|
  {
    if |a| == 1 {
      assert a[..0] == [];
    } else if a[0] == b[0] && IsSubseq(a[1..], b[1..]) {
      SubseqDropLast(a[1..], b[1..]);
      assert a[1..][..|a| - 2] == a[..|a| - 1][1..];
    } else {
      SubseqDropLast(a, b[1..]);
    }
  }

  /** Stripping keeps a subsequence a subsequence. */
  lemma {:induction false} SubseqStrip(t: string, s: string)
    requires IsSubseq(t, s)
    ensures IsSubseq(RStrip(t), s) && IsSubseq(Strip(t), s)
  {
    SubseqRStrip(t, s);
    SubseqLStrip(RStrip(t), s);
  }

  lemma {:induction false} SubseqLStrip(t: string, s: string)
    requires IsSubseq(t, s)
    ensures IsSubseq(LStrip(t), s)
    decreases |t|
  {
    if t != [] && IsSpace(t[0]) {
      SubseqDropFirst(t, s);
      SubseqLStrip(t[1..], s);
    }
  }

  lemma {:induction false} SubseqRStrip(t: string, s: string)
    requires IsSubseq(t, s)
    ensures IsSubseq(RStrip(t), s)
    decreases |t|
  {
    if t != [] && IsSpace(t[|t| - 1]) {
      SubseqDropLast(t, s);
      SubseqRStrip(t[..|t| - 1], s);
    }
  }

  predicate IsDigits(s: string)
  {
    forall i :: 0 <= i < |s| ==> '0' <= s[i] <= '9'
  }

  function DigitChar(d: nat): (c: char)
    requires d < 10
    ensures '0' <= c <= '9'
  {
    ('0' as int + d) as char
  }

  /** `str(n)` for a non-negative integer: its decimal digits, without leading zeros. */
  function Decimal(n: nat): (r: string)
    ensures 1 <= |r| && IsDigits(r)
    ensures DigitsValue(r) == n
    ensures (r[0] == '0') == (n == 0)
    ensures (|r| == 1) == (n < 10)
    ensures (|r| <= 2) == (n < 100)
    decreases n
  {
    if n < 10 then [DigitChar(n)]
    else
      var d := Decimal(n / 10) + [DigitChar(n % 10)];
      assert d[..|d| - 1] == Decimal(n / 10);
      d
  }

  /** The number a string of decimal digits denotes (leading zeros allowed). */
  function DigitsValue(s: string): nat
    requires IsDigits(s)
    decreases |s|
  {
    if s == [] then 0 else DigitsValue(s[..|s| - 1]) * 10 + (s[|s| - 1] as int - '0' as int)
  }

  /**
    `f"{n:02d}"` for a non-negative `n`: the digits of `n`, zero-padded on the left to
    width 2, so a leading zero appears only for `n < 10`.
   */
  function Format02(n: nat): (r: string)
    ensures IsDigits(r) && |r| >= 2
    ensures (|r| == 2) == (n < 100)
    ensures (r[0] == '0') == (n < 10)
  {
    var d := Decimal(n);
    if |d| < 2 then "0" + d else d
  }

  lemma {:induction false} LeadingZero(s: string)
    requires IsDigits(s)
    ensures IsDigits("0" + s) && DigitsValue("0" + s) == DigitsValue(s)
    decreases |s|
  {
    if s != [] {
      assert ("0" + s)[..|s|] == "0" + s[..|s| - 1];
      LeadingZero(s[..|s| - 1]);
    }
  }

  /** Reading the formatted index back gives the index: the `02d` format loses nothing. */
  lemma Format02RoundTrip(n: nat)
    ensures DigitsValue(Format02(n)) == n
  {
    LeadingZero(Decimal(n));
  }

  lemma Format02Examples()
    ensures Format02(1) == "01" && Format02(100) == "100"
  {
    assert DigitChar(0) == '0' && DigitChar(1) == '1';
    assert Decimal(1) == "1";
    assert Decimal(10) == Decimal(1) + [DigitChar(0)];
    assert Decimal(100) == Decimal(10) + [DigitChar(0)];
  }

  lemma AppendAssoc<T>(a: seq<T>, b: seq<T>, c: seq<T>)
    ensures a + (b + c) == a + b + c
  {
  }

  lemma SplitLast<T>(s: seq<T>)
    requires s != []
    ensures s == s[..|s| - 1] + [s[|s| - 1]]
  {
  }

  /** Equal strings with a common prefix have equal remainders. */
  lemma PrefixCancel(p: string, x: string, y: string)
    requires p + x == p + y
    ensures x == y
  {
    assert x == (p + x)[|p|..];
  }

  /** Equal strings with a common prefix and suffix have equal middles. */
  lemma MiddleEqual(p: string, x: string, y: string, q: string)
    requires p + x + q == p + y + q
    ensures x == y
  {
    assert |x| == |y|;
    assert x == (p + x + q)[|p|..|p| + |x|];
    assert y == (p + y + q)[|p|..|p| + |y|];
  }

  /** Distinct numbers are formatted differently. */
  lemma Format02Injective(m: nat, n: nat)
    ensures Format02(m) == Format02(n) <==> m == n
  {
    Format02RoundTrip(m);
    Format02RoundTrip(n);
  }
}
