/**
  File and folder names in the audiobook creator: `sanitize_filename`, which keeps
  only letters, digits, spaces and underscores and strips both ends, and the rule
  that decides whether a custom name replaces the uploaded file's stem.
 */
module Naming {
  import opened PyStrings

  /** The characters a name may keep: `c.isalnum() or c in (' ', '_')`. */
  predicate IsKept(c: char)
  {
    IsAlnum(c) || c == ' ' || c == '_'
  }

  /** `''.join(c for c in s if c.isalnum() or c in (' ', '_'))`. */
  function KeepAllowed(s: string): (r: string)
    ensures |r| <= |s|
    ensures forall i :: 0 <= i < |r| ==> IsKept(r[i])
    decreases |s|
  {
    if s == [] then []
    else (if IsKept(s[0]) then [s[0]] else []) + KeepAllowed(s[1..])
  }

  /** The kept characters appear in the input, in the same order. */
  lemma {:induction false} KeepAllowedSubseq(s: string)
    ensures IsSubseq(KeepAllowed(s), s)
    decreases |s|
  {
    if s != [] {
      var rest := KeepAllowed(s[1..]);
      KeepAllowedSubseq(s[1..]);
      if IsKept(s[0]) {
        assert ([s[0]] + rest)[1..] == rest;
      } else {
        assert KeepAllowed(s) == rest;
      }
    }
  }

  /** Filtering distributes over concatenation: each character is kept or dropped on its own. */
  lemma {:induction false} KeepAllowedAppend(a: string, b: string)
    ensures KeepAllowed(a + b) == KeepAllowed(a) + KeepAllowed(b)
    decreases |a|
  {
    if a == [] {
      assert a + b == b;
    } else {
      assert (a + b)[0] == a[0];
      assert (a + b)[1..] == a[1..] + b;
      KeepAllowedAppend(a[1..], b);
    }
  }

  /** Filtering leaves a string unchanged exactly when every character is already allowed. */
  lemma {:induction false} KeepAllowedFixes(s: string)
    ensures KeepAllowed(s) == s <==> forall i :: 0 <= i < |s| ==> IsKept(s[i])
    decreases |s|
  {
    if s != [] {
      KeepAllowedFixes(s[1..]);
      if !IsKept(s[0]) {
        assert |KeepAllowed(s)| < |s|;
      }
    }
  }

  /** `sanitize_filename(s)`. */
  function SanitizeFilename(s: string): (r: string)
    ensures forall i :: 0 <= i < |r| ==> IsKept(r[i])
    ensures r == [] || (r[0] != ' ' && r[|r| - 1] != ' ')
  {
    Strip(KeepAllowed(s))
  }

  /** The sanitised name is an order-preserving subsequence of the input. */
  lemma SanitizeSubseq(s: string)
    ensures IsSubseq(SanitizeFilename(s), s)
  {
    KeepAllowedSubseq(s);
    SubseqStrip(KeepAllowed(s), s);
  }

  /** Sanitising a sanitised name changes nothing. */
  lemma SanitizeIdempotent(s: string)
    ensures SanitizeFilename(SanitizeFilename(s)) == SanitizeFilename(s)
  {
    var r := SanitizeFilename(s);
    KeepAllowedFixes(r);
    StripNoOp(r);
  }

  /**
    The name used for the output folder and files: the sanitised custom name when the
    toggle is on and the custom name holds a non-whitespace character, the stem otherwise.
   */
  function ChooseBookName(stem: string, useCustomNaming: bool, customName: string): (r: string)
    ensures (useCustomNaming && exists i :: 0 <= i < |customName| && !IsSpace(customName[i])) ==>
      r == SanitizeFilename(customName)
    ensures !(useCustomNaming && exists i :: 0 <= i < |customName| && !IsSpace(customName[i])) ==>
      r == stem
  {
    if useCustomNaming && customName != "" && !IsSpaceString(customName) then SanitizeFilename(customName)
    else stem
  }

  /** A custom name made only of punctuation is accepted and gives the empty name. */
  lemma PunctuationOnlyName(stem: string)
    ensures ChooseBookName(stem, true, "!!!") == ""
  {
    assert !IsSpace('!');
    assert KeepAllowed("!!!") == "";
  }
}
