/**
  The sentence-bounded chunker `split_text(text, max_chars)`.

  The text is first cut into sentences by `re.split('(?<=[.!?]) +', text)`: a cut
  falls at every maximal run of `' '` that directly follows `.`, `!` or `?`, and the run
  itself is dropped. The sentences are then packed greedily, in order, into a buffer
  `current_chunk` that holds each sentence followed by one space; when the next
  sentence would not fit the budget, the stripped buffer is closed as a chunk and a
  new buffer starts with that sentence. The last buffer is closed when it is non-empty.
 */
module Chunker {
  import opened PyStrings

  predicate IsTerminator(c: char)
  {
    c == '.' || c == '!' || c == '?'
  }

  /** Position `k` of `s` starts a match of `(?<=[.!?]) +`. */
  predicate IsBoundary(s: string, k: int)
  {
    1 <= k < |s| && IsTerminator(s[k - 1]) && s[k] == ' '
  }

  /** The leftmost match position at or after `from`, or `|s|` when there is none. */
  function FindBoundary(s: string, from: nat): (b: nat)
    requires from <= |s|
    ensures from <= b <= |s|
    ensures b < |s| ==> IsBoundary(s, b)
    ensures forall k :: from <= k < b ==> !IsBoundary(s, k)
    decreases |s| - from
  {
    if from == |s| || IsBoundary(s, from) then from else FindBoundary(s, from + 1)
  }

  /** The end of the greedy ` +` run starting at `from`. */
  function SpaceRunEnd(s: string, from: nat): (e: nat)
    requires from <= |s|
    ensures from <= e <= |s|
    ensures forall k :: from <= k < e ==> s[k] == ' '
    ensures e == |s| || s[e] != ' '
    decreases |s| - from
  {
    if from < |s| && s[from] == ' ' then SpaceRunEnd(s, from + 1) else from
  }

  /** No split point lies inside `p`. */
  predicate Unbroken(p: string)
  {
    forall k :: 0 <= k < |p| ==> !IsBoundary(p, k)
  }

  /**
    The shape of every list the splitter returns: at least one piece, no piece holds a
    split point, every piece but the last is non-empty and ends with a terminator, and
    no piece but the first starts with a space (the whole run was consumed).
   */
  predicate WellFormed(sents: seq<string>)
  {
    && |sents| >= 1
    && (forall k :: 0 <= k < |sents| ==> Unbroken(sents[k]))
    && (forall k :: 0 <= k < |sents| - 1 ==> sents[k] != [] && IsTerminator(sents[k][|sents[k]| - 1]))
    && (forall k :: 1 <= k < |sents| ==> sents[k] == [] || sents[k][0] != ' ')
  }

  /** `' '.join(sents)`. */
  function JoinSpace(sents: seq<string>): string
    decreases |sents|
  {
    if sents == [] then "" else if |sents| == 1 then sents[0] else sents[0] + " " + JoinSpace(sents[1..])
  }

  /** `re.split('(?<=[.!?]) +', s)`. */
  function SplitSentences(s: string): (r: seq<string>)
    ensures |r| >= 1
    decreases |s|
  {
    var b := FindBoundary(s, 0);
    if b == |s| then [s]
    else
      var e := SpaceRunEnd(s, b);
      [s[..b]] + SplitSentences(s[e..])
  }

  /** Every result of the splitter is well formed, and its first sentence is a prefix of the text. */
  lemma {:induction false} SplitWellFormed(s: string)
    ensures var r := SplitSentences(s);
      WellFormed(r) && |r[0]| <= |s| && r[0] == s[..|r[0]|]
    decreases |s|
  {
    var b := FindBoundary(s, 0);
    if b == |s| {
      assert Unbroken(s);
    } else {
      var e := SpaceRunEnd(s, b);
      var head := s[..b];
      var rest := SplitSentences(s[e..]);
      SplitWellFormed(s[e..]);
      assert Unbroken(head) by {
        forall k | 0 <= k < |head|
          ensures !IsBoundary(head, k)
        {
          assert IsBoundary(head, k) ==> IsBoundary(s, k);
        }
      }
      assert rest[0] == [] || rest[0][0] != ' ' by {
        if rest[0] != [] {
          assert rest[0][0] == s[e];
        }
      }
      ConsWellFormed(head, rest);
    }
  }

  /** A terminated, unbroken sentence in front of a well-formed list whose first piece does not start with a space. */
  lemma ConsWellFormed(head: string, rest: seq<string>)
    requires head != [] && IsTerminator(head[|head| - 1]) && Unbroken(head)
    requires WellFormed(rest) && (rest[0] == [] || rest[0][0] != ' ')
    ensures WellFormed([head] + rest)
  {
    var r := [head] + rest;
    forall k | 1 <= k < |r|
      ensures r[k] == rest[k - 1]
    {
    }
  }

  /** Dropping the separating runs never lengthens the text. */
  lemma {:induction false} SplitShrinks(s: string)
    ensures |JoinSpace(SplitSentences(s))| <= |s|
    decreases |s|
  {
    var b := FindBoundary(s, 0);
    if b < |s| {
      var e := SpaceRunEnd(s, b);
      var rest := SplitSentences(s[e..]);
      SplitShrinks(s[e..]);
      assert ([s[..b]] + rest)[1..] == rest;
    }
  }

  /** A piece without a split point is not split. */
  lemma UnbrokenNoSplit(p: string)
    requires Unbroken(p)
    ensures SplitSentences(p) == [p]
  {
    assert FindBoundary(p, 0) == |p|;
  }

  /**
    A terminated, unbroken sentence, one space and a text that does not start with a
    space: the sentence is split off, the space dropped, and the text split on its own.
   */
  lemma SplitCons(p: string, tail: string)
    requires p != [] && IsTerminator(p[|p| - 1]) && Unbroken(p)
    requires tail == [] || tail[0] != ' '
    ensures SplitSentences(p + " " + tail) == [p] + SplitSentences(tail)
  {
    var s := p + " " + tail;
    forall k | 0 <= k < |p|
      ensures !IsBoundary(s, k)
    {
      assert IsBoundary(s, k) ==> IsBoundary(p, k);
    }
    assert IsBoundary(s, |p|);
    assert FindBoundary(s, 0) == |p|;
    assert SpaceRunEnd(s, |p|) == |p| + 1 by {
      assert SpaceRunEnd(s, |p|) == SpaceRunEnd(s, |p| + 1);
    }
    assert s[..|p|] == p;
    assert s[|p| + 1..] == tail;
  }

  /** Splitting a well-formed sentence list joined by single spaces gives the list back. */
  lemma {:induction false} SplitJoin(sents: seq<string>)
    requires WellFormed(sents)
    ensures SplitSentences(JoinSpace(sents)) == sents
    decreases |sents|
  {
    var p := sents[0];
    if |sents| == 1 {
      UnbrokenNoSplit(p);
    } else {
      var rest := sents[1..];
      var tail := JoinSpace(rest);
      assert WellFormed(rest) by {
        assert forall k :: 0 <= k < |rest| ==> rest[k] == sents[k + 1];
      }
      assert tail == [] || tail[0] != ' ' by {
        if |rest| > 1 {
          assert rest[0] != [] && tail[0] == rest[0][0];
        }
      }
      SplitCons(p, tail);
      SplitJoin(rest);
      assert sents == [p] + rest;
    }
  }

  /** No split point is followed by a second space. */
  predicate SingleSpaced(s: string)
  {
    forall k :: 0 <= k < |s| && IsBoundary(s, k) ==> k + 1 == |s| || s[k + 1] != ' '
  }

  /** When every split point is a single space, joining the sentences gives the text back. */
  lemma {:induction false} JoinSplit(s: string)
    requires SingleSpaced(s)
    ensures JoinSpace(SplitSentences(s)) == s
    decreases |s|
  {
    var b := FindBoundary(s, 0);
    if b < |s| {
      var suffix := s[b + 1..];
      assert b + 1 == |s| || s[b + 1] != ' ' by {
        assert IsBoundary(s, b);
      }
      SplitHead(s);
      SuffixSingleSpaced(s, b + 1);
      JoinSplit(suffix);
      JoinCons(s[..b], SplitSentences(suffix));
    }
  }

  /** A split point followed by a single space: the splitter drops exactly that space. */
  lemma SplitHead(s: string)
    requires FindBoundary(s, 0) < |s|
    requires var b := FindBoundary(s, 0); b + 1 == |s| || s[b + 1] != ' '
    ensures var b := FindBoundary(s, 0);
      && SplitSentences(s) == [s[..b]] + SplitSentences(s[b + 1..])
      && s == s[..b] + " " + s[b + 1..]
  {
    var b := FindBoundary(s, 0);
    assert SpaceRunEnd(s, b) == b + 1 by {
      assert IsBoundary(s, b);
    }
    SpliceSpace(s, b);
  }

  lemma SpliceSpace(s: string, b: nat)
    requires b < |s| && s[b] == ' '
    ensures s == s[..b] + " " + s[b + 1..]
  {
    assert s[..b + 1] == s[..b] + " ";
  }

  lemma SuffixSingleSpaced(s: string, e: nat)
    requires SingleSpaced(s) && e <= |s|
    ensures SingleSpaced(s[e..])
  {
    var suffix := s[e..];
    forall k | 0 <= k < |suffix| && IsBoundary(suffix, k)
      ensures k + 1 == |suffix| || suffix[k + 1] != ' '
    {
      assert IsBoundary(s, e + k);
    }
  }

  lemma JoinCons(p: string, rest: seq<string>)
    requires rest != []
    ensures JoinSpace([p] + rest) == p + " " + JoinSpace(rest)
  {
    assert ([p] + rest)[1..] == rest;
  }

  /** Newlines, tabs and other characters never cause a split: a text without `' '` is one sentence. */
  lemma NoSpaceNoSplit(s: string)
    requires forall i :: 0 <= i < |s| ==> s[i] != ' '
    ensures SplitSentences(s) == [s]
  {
    assert FindBoundary(s, 0) == |s|;
  }

  /** `n` spaces. */
  function Spaces(n: nat): (r: string)
    ensures |r| == n && forall i :: 0 <= i < n ==> r[i] == ' '
  {
    seq(n, _ => ' ')
  }

  /** The pieces joined back together with `gaps[k]` spaces between piece `k` and piece `k + 1`. */
  function JoinGaps(pieces: seq<string>, gaps: seq<nat>): string
    requires |pieces| == |gaps| + 1
    decreases |gaps|
  {
    if gaps == [] then pieces[0] else pieces[0] + Spaces(gaps[0]) + JoinGaps(pieces[1..], gaps[1..])
  }

  /** The length of each run of spaces the splitter drops, in order: one non-empty run between consecutive pieces. */
  function Gaps(s: string): (g: seq<nat>)
    ensures |g| == |SplitSentences(s)| - 1
    ensures forall k :: 0 <= k < |g| ==> g[k] >= 1
    decreases |s|
  {
    var b := FindBoundary(s, 0);
    if b == |s| then []
    else
      var e := SpaceRunEnd(s, b);
      assert IsBoundary(s, b);
      var rest := Gaps(s[e..]);
      PositiveCons(e - b, rest);
      [e - b] + rest
  }

  lemma PositiveCons(n: nat, rest: seq<nat>)
    requires n >= 1 && forall k :: 0 <= k < |rest| ==> rest[k] >= 1
    ensures forall k :: 0 <= k < |[n] + rest| ==> ([n] + rest)[k] >= 1
  {
    forall k | 1 <= k < |[n] + rest|
      ensures ([n] + rest)[k] >= 1
    {
      assert ([n] + rest)[k] == rest[k - 1];
    }
  }

  /** Only the separating runs are lost, whatever their length: putting them back between the pieces gives the text. */
  lemma {:induction false} SplitGaps(s: string)
    ensures s == JoinGaps(SplitSentences(s), Gaps(s))
    decreases |s|
  {
    var b := FindBoundary(s, 0);
    if b < |s| {
      var e := SpaceRunEnd(s, b);
      SplitGaps(s[e..]);
      GapsStep(s, b, e, SplitSentences(s[e..]), Gaps(s[e..]));
    }
  }

  /** A run of spaces from `b` to `e` followed by a text rebuilt from its pieces. */
  lemma GapsStep(s: string, b: nat, e: nat, rest: seq<string>, gaps: seq<nat>)
    requires b <= e <= |s| && forall k :: b <= k < e ==> s[k] == ' '
    requires |rest| == |gaps| + 1 && s[e..] == JoinGaps(rest, gaps)
    ensures s == JoinGaps([s[..b]] + rest, [e - b] + gaps)
  {
    SpliceRun(s, b, e);
    JoinGapsCons(s[..b], rest, e - b, gaps);
  }

  lemma SpliceRun(s: string, b: nat, e: nat)
    requires b <= e <= |s| && forall k :: b <= k < e ==> s[k] == ' '
    ensures s == s[..b] + Spaces(e - b) + s[e..]
  {
    assert s[b..e] == Spaces(e - b);
    assert s == s[..b] + s[b..e] + s[e..];
  }

  lemma JoinGapsCons(p: string, rest: seq<string>, n: nat, gaps: seq<nat>)
    requires |rest| == |gaps| + 1
    ensures JoinGaps([p] + rest, [n] + gaps) == p + Spaces(n) + JoinGaps(rest, gaps)
  {
    assert ([p] + rest)[1..] == rest;
    assert ([n] + gaps)[1..] == gaps;
  }

  /** The `current_chunk` string after appending each sentence of `group` followed by `" "`. */
  function Buffer(group: seq<string>): string
    decreases |group|
  {
    if group == [] then "" else Buffer(group[..|group| - 1]) + group[|group| - 1] + " "
  }

  /** The loop state: the groups already closed as chunks and the group in `current_chunk`. */
  datatype Packing = Packing(closed: seq<seq<string>>, open: seq<string>)

  /** One iteration of the loop of `split_text`. */
  function Step(p: Packing, sentence: string, maxChars: int): Packing
  {
    if |Buffer(p.open)| + |sentence| <= maxChars then Packing(p.closed, p.open + [sentence])
    else Packing(p.closed + [p.open], [sentence])
  }

  /** The loop state after processing `sents` in order. */
  function Pack(sents: seq<string>, maxChars: int): Packing
    decreases |sents|
  {
    if sents == [] then Packing([], [])
    else Step(Pack(sents[..|sents| - 1], maxChars), sents[|sents| - 1], maxChars)
  }

  /** The sentence groups whose buffers become the chunks (the last one only if non-empty). */
  function Groups(sents: seq<string>, maxChars: int): seq<seq<string>>
  {
    var p := Pack(sents, maxChars);
    if Buffer(p.open) != "" then p.closed + [p.open] else p.closed
  }

  function ChunkTexts(groups: seq<seq<string>>): seq<string>
  {
    seq(|groups|, k requires 0 <= k < |groups| => Strip(Buffer(groups[k])))
  }

  /** What `split_text(text, max_chars)` returns. */
  function Chunked(text: string, maxChars: int): seq<string>
  {
    ChunkTexts(Groups(SplitSentences(text), maxChars))
  }

  /** The loop of `split_text`, proved to compute `Chunked`. */
  method SplitText(text: string, maxChars: int) returns (chunks: seq<string>)
    ensures chunks == Chunked(text, maxChars)
  {
    var sentences := SplitSentences(text);
    chunks := [];
    var current := "";
    for i := 0 to |sentences|
      invariant chunks == ChunkTexts(Pack(sentences[..i], maxChars).closed)
      invariant current == Buffer(Pack(sentences[..i], maxChars).open)
    {
      var sentence := sentences[i];
      LoopStep(sentences, i, maxChars, chunks, current);
      if |current| + |sentence| <= maxChars {
        current := current + sentence + " ";
      } else {
        chunks := chunks + [Strip(current)];
        current := sentence + " ";
      }
    }
    LoopExit(text, maxChars, chunks, current);
    if current != "" {
      chunks := chunks + [Strip(current)];
    }
    assert chunks == Chunked(text, maxChars);
  }

  /** One iteration of the loop, stated on the packing of the sentences seen so far. */
  lemma LoopStep(sents: seq<string>, i: nat, maxChars: int, chunks: seq<string>, current: string)
    requires i < |sents|
    requires chunks == ChunkTexts(Pack(sents[..i], maxChars).closed)
    requires current == Buffer(Pack(sents[..i], maxChars).open)
    ensures var q := Pack(sents[..i + 1], maxChars);
      var fits := |current| + |sents[i]| <= maxChars;
      && Buffer(q.open) == (if fits then current else "") + sents[i] + " "
      && ChunkTexts(q.closed) == chunks + (if fits then [] else [Strip(current)])
  {
    PackPrefix(sents, i, maxChars);
    StepBuffers(Pack(sents[..i], maxChars), sents[i], maxChars);
  }

  /** After the loop, the last buffer becomes a chunk exactly when it is non-empty. */
  lemma LoopExit(text: string, maxChars: int, chunks: seq<string>, current: string)
    requires var sents := SplitSentences(text);
      && chunks == ChunkTexts(Pack(sents[..|sents|], maxChars).closed)
      && current == Buffer(Pack(sents[..|sents|], maxChars).open)
    ensures current != "" ==> Chunked(text, maxChars) == chunks + [Strip(current)]
    ensures current == "" ==> Chunked(text, maxChars) == chunks
  {
    var sents := SplitSentences(text);
    assert sents[..|sents|] == sents;
    ChunkTextsAppend(Pack(sents, maxChars).closed, Pack(sents, maxChars).open);
  }

  lemma PackPrefix(sents: seq<string>, i: nat, maxChars: int)
    requires i < |sents|
    ensures Pack(sents[..i + 1], maxChars) == Step(Pack(sents[..i], maxChars), sents[i], maxChars)
  {
    assert sents[..i + 1][..i] == sents[..i];
  }

  /** What one iteration does to `chunks` and `current_chunk`. */
  lemma StepBuffers(p: Packing, sentence: string, maxChars: int)
    ensures var fits := |Buffer(p.open)| + |sentence| <= maxChars;
      var q := Step(p, sentence, maxChars);
      && Buffer(q.open) == (if fits then Buffer(p.open) else "") + sentence + " "
      && ChunkTexts(q.closed) == ChunkTexts(p.closed) + (if fits then [] else [Strip(Buffer(p.open))])
  {
    if |Buffer(p.open)| + |sentence| <= maxChars {
      BufferAppend(p.open, sentence);
    } else {
      BufferAppend([], sentence);
      ChunkTextsAppend(p.closed, p.open);
    }
  }

  lemma BufferAppend(group: seq<string>, s: string)
    ensures Buffer(group + [s]) == Buffer(group) + s + " "
  {
    assert (group + [s])[..|group|] == group;
  }

  lemma ChunkTextsAppend(groups: seq<seq<string>>, g: seq<string>)
    ensures ChunkTexts(groups + [g]) == ChunkTexts(groups) + [Strip(Buffer(g))]
  {
  }

  /** The sentences of a list of groups, in order. */
  function Flatten(groups: seq<seq<string>>): seq<string>
    decreases |groups|
  {
    if groups == [] then [] else Flatten(groups[..|groups| - 1]) + groups[|groups| - 1]
  }

  /** A group of two or more sentences fits the budget once joined. */
  predicate Fits(group: seq<string>, maxChars: int)
  {
    |group| >= 2 ==> |JoinSpace(group)| <= maxChars
  }

  /** `next` starts with a sentence that did not fit after `group`. */
  predicate Overflows(group: seq<string>, next: seq<string>, maxChars: int)
  {
    next != [] && |Buffer(group)| + |next[0]| > maxChars
  }

  lemma {:induction false} JoinSpaceAppend(group: seq<string>, s: string)
    requires group != []
    ensures JoinSpace(group + [s]) == JoinSpace(group) + " " + s
    decreases |group|
  {
    if |group| > 1 {
      assert (group + [s])[1..] == group[1..] + [s];
      JoinSpaceAppend(group[1..], s);
    }
  }

  /** The buffer is the sentences joined by single spaces, plus one trailing space. */
  lemma {:induction false} BufferIsJoin(group: seq<string>)
    requires group != []
    ensures Buffer(group) == JoinSpace(group) + " "
    decreases |group|
  {
    var init := group[..|group| - 1];
    var last := group[|group| - 1];
    assert Buffer(group) == Buffer(init) + last + " ";
    if init == [] {
      assert JoinSpace(group) == last;
    } else {
      BufferIsJoin(init);
      JoinSpaceAppend(init, last);
      SplitLast(group);
    }
  }

  /** Every sentence goes into exactly one group, and the groups keep the sentence order. */
  lemma {:induction false} PackCovers(sents: seq<string>, maxChars: int)
    ensures Flatten(Pack(sents, maxChars).closed) + Pack(sents, maxChars).open == sents
    decreases |sents|
  {
    if sents != [] {
      var init := sents[..|sents| - 1];
      var p := Pack(init, maxChars);
      var last := sents[|sents| - 1];
      PackCovers(init, maxChars);
      StepCovers(p, last, maxChars);
      SplitLast(sents);
    }
  }

  lemma StepCovers(p: Packing, sentence: string, maxChars: int)
    ensures var q := Step(p, sentence, maxChars);
      Flatten(q.closed) + q.open == Flatten(p.closed) + p.open + [sentence]
  {
    if |Buffer(p.open)| + |sentence| <= maxChars {
      AppendAssoc(Flatten(p.closed), p.open, [sentence]);
    } else {
      FlattenAppend(p.closed, p.open);
    }
  }

  lemma FlattenAppend(groups: seq<seq<string>>, g: seq<string>)
    ensures Flatten(groups + [g]) == Flatten(groups) + g
  {
    assert (groups + [g])[..|groups|] == groups;
  }

  /** Only the very first group can be empty; it is empty exactly when the first sentence exceeds the budget. */
  lemma {:induction false} PackShape(sents: seq<string>, maxChars: int)
    requires sents != []
    ensures var all := Pack(sents, maxChars).closed + [Pack(sents, maxChars).open];
      && Pack(sents, maxChars).open != []
      && (forall k :: 0 < k < |all| ==> all[k] != [])
      && ((all[0] == []) == (|sents[0]| > maxChars))
    decreases |sents|
  {
    var init := sents[..|sents| - 1];
    var s := sents[|sents| - 1];
    var p := Pack(init, maxChars);
    if init != [] {
      PackShape(init, maxChars);
      assert init[0] == sents[0];
      var all := p.closed + [p.open];
      if |Buffer(p.open)| + |s| <= maxChars {
        var all' := p.closed + [p.open + [s]];
        forall k | 0 < k < |all'|
          ensures all'[k] != []
        {
          if k < |p.closed| {
            assert all'[k] == all[k];
          }
        }
        assert all'[0] == [] <==> all[0] == [];
      } else {
        var all' := p.closed + [p.open] + [[s]];
        forall k | 0 < k < |all'|
          ensures all'[k] != []
        {
          if k < |all| {
            assert all'[k] == all[k];
          }
        }
        assert all'[0] == all[0];
      }
    }
  }

  /** Every group of two or more sentences fits the budget. */
  lemma {:induction false} PackFits(sents: seq<string>, maxChars: int)
    ensures AllFit(Pack(sents, maxChars).closed + [Pack(sents, maxChars).open], maxChars)
    decreases |sents|
  {
    if sents != [] {
      var init := sents[..|sents| - 1];
      var s := sents[|sents| - 1];
      var p := Pack(init, maxChars);
      PackFits(init, maxChars);
      assert AllFit(p.closed + [p.open], maxChars);
      if |Buffer(p.open)| + |s| <= maxChars {
        if p.open != [] {
          BufferIsJoin(p.open);
          JoinSpaceAppend(p.open, s);
        }
        var all' := p.closed + [p.open + [s]];
        forall k | 0 <= k < |all'|
          ensures Fits(all'[k], maxChars)
        {
          if k < |p.closed| {
            assert all'[k] == (p.closed + [p.open])[k];
          }
        }
      } else {
        assert AllFit(p.closed + [p.open] + [[s]], maxChars);
      }
    }
  }

  predicate AllFit(groups: seq<seq<string>>, maxChars: int)
  {
    forall k :: 0 <= k < |groups| ==> Fits(groups[k], maxChars)
  }

  /** Greediness: each group after the first begins with a sentence that did not fit after the previous group. */
  lemma {:induction false} PackGreedy(sents: seq<string>, maxChars: int)
    ensures var all := Pack(sents, maxChars).closed + [Pack(sents, maxChars).open];
      forall k :: 0 <= k < |all| - 1 ==> Overflows(all[k], all[k + 1], maxChars)
    decreases |sents|
  {
    if sents != [] {
      var init := sents[..|sents| - 1];
      var s := sents[|sents| - 1];
      var p := Pack(init, maxChars);
      var all := p.closed + [p.open];
      PackGreedy(init, maxChars);
      if init != [] {
        PackShape(init, maxChars);
        if |Buffer(p.open)| + |s| <= maxChars {
          var all' := p.closed + [p.open + [s]];
          forall k | 0 <= k < |all'| - 1
            ensures Overflows(all'[k], all'[k + 1], maxChars)
          {
            assert Overflows(all[k], all[k + 1], maxChars);
            assert all'[k] == all[k];
            assert all'[k + 1][0] == all[k + 1][0];
          }
        } else {
          var all' := p.closed + [p.open] + [[s]];
          forall k | 0 <= k < |all'| - 1
            ensures Overflows(all'[k], all'[k + 1], maxChars)
          {
            if k < |all| - 1 {
              assert Overflows(all[k], all[k + 1], maxChars);
            }
          }
        }
      }
    }
  }

  /** The groups of a non-empty sentence list: the closed groups and the final buffer. */
  lemma GroupsOfSentences(sents: seq<string>, maxChars: int)
    requires sents != []
    ensures Groups(sents, maxChars) == Pack(sents, maxChars).closed + [Pack(sents, maxChars).open]
  {
    PackShape(sents, maxChars);
    var open := Pack(sents, maxChars).open;
    assert Buffer(open) == Buffer(open[..|open| - 1]) + open[|open| - 1] + " ";
  }

  /**
    The packing of `split_text`: the groups cover the sentences once each, in order; only
    the first group may be empty, and it is exactly when the first sentence exceeds the
    budget; every group of two or more sentences fits; and each new group was opened by a
    sentence that did not fit after the previous one.
   */
  lemma GroupsSpec(sents: seq<string>, maxChars: int)
    requires sents != []
    ensures var g := Groups(sents, maxChars);
      && |g| >= 1
      && Flatten(g) == sents
      && (forall k :: 0 < k < |g| ==> g[k] != [])
      && ((g[0] == []) == (|sents[0]| > maxChars))
      && (forall k :: 0 <= k < |g| ==> Fits(g[k], maxChars))
      && (forall k :: 0 <= k < |g| - 1 ==> Overflows(g[k], g[k + 1], maxChars))
  {
    var p := Pack(sents, maxChars);
    GroupsOfSentences(sents, maxChars);
    PackCovers(sents, maxChars);
    assert (p.closed + [p.open])[..|p.closed|] == p.closed;
    PackShape(sents, maxChars);
    PackFits(sents, maxChars);
    assert AllFit(p.closed + [p.open], maxChars);
    PackGreedy(sents, maxChars);
  }

  /** Each chunk is the `strip()` of its group's sentences joined by single spaces. */
  lemma ChunkIsJoinedGroup(groups: seq<seq<string>>, k: nat)
    requires k < |groups|
    ensures |ChunkTexts(groups)| == |groups|
    ensures ChunkTexts(groups)[k] == Strip(JoinSpace(groups[k]))
  {
    if groups[k] != [] {
      BufferIsJoin(groups[k]);
      StripTrailingSpace(JoinSpace(groups[k]));
    }
  }

  /**
    The budget of `split_text`: a chunk built from two or more sentences is at most
    `maxChars` long, so (for a non-negative budget) a longer chunk is a single sentence.
   */
  lemma ChunkBudget(text: string, maxChars: int, k: nat)
    requires k < |Chunked(text, maxChars)|
    ensures var g := Groups(SplitSentences(text), maxChars);
      && |Chunked(text, maxChars)| == |g|
      && Chunked(text, maxChars)[k] == Strip(JoinSpace(g[k]))
      && (|g[k]| >= 2 ==> |Chunked(text, maxChars)[k]| <= maxChars)
      && (|Chunked(text, maxChars)[k]| > maxChars >= 0 ==> |g[k]| == 1)
  {
    var g := Groups(SplitSentences(text), maxChars);
    ChunkIsJoinedGroup(g, k);
    assert Fits(g[k], maxChars) by {
      GroupsFit(SplitSentences(text), maxChars);
    }
  }

  lemma GroupsFit(sents: seq<string>, maxChars: int)
    ensures AllFit(Groups(sents, maxChars), maxChars)
  {
    var p := Pack(sents, maxChars);
    PackFits(sents, maxChars);
    assert forall k :: 0 <= k < |p.closed| ==> p.closed[k] == (p.closed + [p.open])[k];
  }

  /** `split_text` always returns at least one chunk. */
  lemma ChunkedNonEmpty(text: string, maxChars: int)
    ensures |Chunked(text, maxChars)| >= 1
  {
    GroupsSpec(SplitSentences(text), maxChars);
  }

  /** When the first sentence alone exceeds the budget, the first chunk is `""`. */
  lemma FirstChunkEmpty(text: string, maxChars: int)
    requires |SplitSentences(text)[0]| > maxChars
    ensures |Chunked(text, maxChars)| >= 2 && Chunked(text, maxChars)[0] == ""
  {
    var g := Groups(SplitSentences(text), maxChars);
    GroupsSpec(SplitSentences(text), maxChars);
  }

  /** Empty text gives `[""]` for a non-negative budget and `["", ""]` for a negative one. */
  lemma EmptyText(maxChars: int)
    ensures Chunked("", maxChars) == if maxChars >= 0 then [""] else ["", ""]
  {
    assert FindBoundary("", 0) == 0;
    assert SplitSentences("") == [""];
    assert [""][..0] == [];
    assert Buffer([""]) == " ";
    assert Strip(" ") == "";
  }

  /** A sentence list whose single-space join fits the budget stays one group. */
  lemma {:induction false} PackAllFit(sents: seq<string>, maxChars: int)
    requires |JoinSpace(sents)| <= maxChars
    ensures Pack(sents, maxChars) == Packing([], sents)
    decreases |sents|
  {
    if sents != [] {
      var init := sents[..|sents| - 1];
      var s := sents[|sents| - 1];
      SplitLast(sents);
      if init != [] {
        JoinSpaceAppend(init, s);
        BufferIsJoin(init);
      }
      PackAllFit(init, maxChars);
    }
  }

  /** A text no longer than the budget is one chunk: its sentences re-joined by single spaces, stripped. */
  lemma ShortTextOneChunk(text: string, maxChars: int)
    requires |text| <= maxChars
    ensures Chunked(text, maxChars) == [Strip(JoinSpace(SplitSentences(text)))]
  {
    var sents := SplitSentences(text);
    assert Groups(sents, maxChars) == [sents] by {
      SplitShrinks(text);
      PackAllFit(sents, maxChars);
      GroupsOfSentences(sents, maxChars);
    }
    ChunkIsJoinedGroup([sents], 0);
  }
}
