/**
  The generation loop run by the "Generate Audiobook" button: for every selected
  section, in order, the content is split with `split_text(content, max_chars=4000000)`
  and `generate_output_file` is called once per chunk, with the section's position in
  the selected list and the chunk's position in the section. A call that returns `None`
  is reported as a failure naming the section title and the chunk number, and the loop
  goes on; a call that returns a path is reported as generated.

  The user interface is reduced to what the loop records: the sequence of calls it
  makes (`Job`s) and the sequence of messages it shows (`Notice`s). The synthesiser is
  a function from a call to its exit status.
 */
module Generation {
  import opened Wrappers
  import Chunker
  import TtsHandler

  /** The budget the loop passes to `split_text`. */
  const MaxChars: int := 4000000

  /** A selected section: its title and its (possibly edited) content. */
  datatype Section = Section(title: string, content: string)

  /** The arguments of one call of `generate_output_file`. */
  datatype Job = Job(text: string, voice: string, bookName: string, sectionIndex: nat, chunkIndex: nat)

  /** A message of the loop: the path of a generated file, or a failed section title and chunk number. */
  datatype Notice = Generated(path: string) | Failed(title: string, chunkNumber: nat)

  /** The chunks the loop makes of a section. */
  function Chunks(section: Section): seq<string>
  {
    Chunker.Chunked(section.content, MaxChars)
  }

  /** The chunks of every section, section by section. */
  function ChunkLists(sections: seq<Section>): seq<seq<string>>
  {
    seq(|sections|, i requires 0 <= i < |sections| => Chunks(sections[i]))
  }

  function Titles(sections: seq<Section>): seq<string>
  {
    seq(|sections|, i requires 0 <= i < |sections| => sections[i].title)
  }

  /** The calls made for the chunks of the section at position `i`. */
  function SectionJobs(chunks: seq<string>, voice: string, bookName: string, i: nat): seq<Job>
  {
    seq(|chunks|, j requires 0 <= j < |chunks| => Job(chunks[j], voice, bookName, i, j))
  }

  /** All calls made for sections chunked as `chunked`, section by section. */
  function PlanJobs(chunked: seq<seq<string>>, voice: string, bookName: string): seq<Job>
    decreases |chunked|
  {
    if chunked == [] then []
    else
      var n := |chunked| - 1;
      PlanJobs(chunked[..n], voice, bookName) + SectionJobs(chunked[n], voice, bookName, n)
  }

  /**
    The message shown after a call for section `title` that exited with `exitCode`;
    `path` is the section's output path.
   */
  function NoticeFor(title: string, job: Job, exitCode: int, path: string): Notice
  {
    if exitCode != 0 then Failed(title, job.chunkIndex + 1) else Generated(path)
  }

  /** The messages for the calls of one section, all of which write to `path`. */
  function SectionNotices(title: string, jobs: seq<Job>, path: string, status: Job -> int): seq<Notice>
  {
    seq(|jobs|, k requires 0 <= k < |jobs| => NoticeFor(title, jobs[k], status(jobs[k]), path))
  }

  /** All messages shown for sections titled `titles` and chunked as `chunked`. */
  function PlanNotices(titles: seq<string>, chunked: seq<seq<string>>, voice: string, bookName: string,
                       status: Job -> int): seq<Notice>
    requires |titles| == |chunked|
    decreases |chunked|
  {
    if chunked == [] then []
    else
      var n := |chunked| - 1;
      PlanNotices(titles[..n], chunked[..n], voice, bookName, status)
        + SectionNotices(titles[n], SectionJobs(chunked[n], voice, bookName, n), TtsHandler.OutputPath(bookName, n), status)
  }

  /** The calls the loop makes for `sections`. */
  function PlannedJobs(sections: seq<Section>, voice: string, bookName: string): seq<Job>
  {
    PlanJobs(ChunkLists(sections), voice, bookName)
  }

  /** The messages the loop shows for `sections`. */
  function ExpectedNotices(sections: seq<Section>, voice: string, bookName: string, status: Job -> int): seq<Notice>
  {
    PlanNotices(Titles(sections), ChunkLists(sections), voice, bookName, status)
  }

  /** The number of chunks of all sections. */
  function Total(chunked: seq<seq<string>>): nat
    decreases |chunked|
  {
    if chunked == [] then 0 else Total(chunked[..|chunked| - 1]) + |chunked[|chunked| - 1]|
  }

  /**
    The inner loop for the section at position `i`: one call per chunk, in order, each
    reported whatever became of the others; the book folder exists once a call was made.
   */
  method GenerateChunks(title: string, chunks: seq<string>, voice: string, bookName: string, i: nat,
                        status: Job -> int, ghost dirs: set<string>)
    returns (jobs: seq<Job>, notices: seq<Notice>, ghost dirs': set<string>)
    ensures jobs == SectionJobs(chunks, voice, bookName, i)
    ensures notices == SectionNotices(title, jobs, TtsHandler.OutputPath(bookName, i), status)
    ensures dirs' == if chunks == [] then dirs else dirs + {TtsHandler.BookFolder(bookName)}
  {
    ghost var planned := SectionJobs(chunks, voice, bookName, i);
    ghost var expected := SectionNotices(title, planned, TtsHandler.OutputPath(bookName, i), status);
    jobs := [];
    notices := [];
    dirs' := dirs;
    for j := 0 to |chunks|
      invariant jobs == planned[..j]
      invariant notices == expected[..j]
      invariant dirs' == if j == 0 then dirs else dirs + {TtsHandler.BookFolder(bookName)}
    {
      var job := Job(chunks[j], voice, bookName, i, j);
      var outputFile;
      outputFile, dirs' := TtsHandler.GenerateOutputFile(chunks[j], voice, bookName, i, j, status(job), dirs');
      jobs := jobs + [job];
      if outputFile.None? {
        notices := notices + [Failed(title, j + 1)];
      } else {
        notices := notices + [Generated(outputFile.value)];
      }
      PrefixStep(planned, j);
      PrefixStep(expected, j);
    }
    PrefixWhole(planned);
    PrefixWhole(expected);
  }

  lemma PrefixStep<T>(s: seq<T>, j: nat)
    requires j < |s|
    ensures s[..j + 1] == s[..j] + [s[j]]
  {
  }

  lemma PrefixWhole<T>(s: seq<T>)
    ensures s[..|s|] == s
  {
  }

  /**
    The loop of the "Generate Audiobook" button. Every chunk of every section is sent
    to the synthesiser whatever happened to the earlier ones, and the book folder exists
    afterwards as soon as one call was made.
   */
  method GenerateAudiobook(sections: seq<Section>, voice: string, bookName: string,
                           status: Job -> int, ghost dirs: set<string>)
    returns (jobs: seq<Job>, notices: seq<Notice>, ghost dirs': set<string>)
    ensures jobs == PlannedJobs(sections, voice, bookName)
    ensures notices == ExpectedNotices(sections, voice, bookName, status)
    ensures dirs' == if sections == [] then dirs else dirs + {TtsHandler.BookFolder(bookName)}
  {
    jobs := [];
    notices := [];
    dirs' := dirs;
    for i := 0 to |sections|
      invariant jobs == PlannedJobs(sections[..i], voice, bookName)
      invariant notices == ExpectedNotices(sections[..i], voice, bookName, status)
      invariant dirs' == if i == 0 then dirs else dirs + {TtsHandler.BookFolder(bookName)}
    {
      var chunks := Chunker.SplitText(sections[i].content, MaxChars);
      Chunker.ChunkedNonEmpty(sections[i].content, MaxChars);
      var sectionJobs, sectionNotices;
      sectionJobs, sectionNotices, dirs' := GenerateChunks(sections[i].title, chunks, voice, bookName, i, status, dirs');
      PlannedStep(sections, voice, bookName, status, i);
      jobs := jobs + sectionJobs;
      notices := notices + sectionNotices;
    }
    assert sections[..|sections|] == sections;
  }

  /** What one iteration of the outer loop adds to the calls and to the messages. */
  lemma PlannedStep(sections: seq<Section>, voice: string, bookName: string, status: Job -> int, i: nat)
    requires i < |sections|
    ensures var added := SectionJobs(Chunks(sections[i]), voice, bookName, i);
      && PlannedJobs(sections[..i + 1], voice, bookName) == PlannedJobs(sections[..i], voice, bookName) + added
      && ExpectedNotices(sections[..i + 1], voice, bookName, status)
         == ExpectedNotices(sections[..i], voice, bookName, status)
            + SectionNotices(sections[i].title, added, TtsHandler.OutputPath(bookName, i), status)
  {
    var chunked := ChunkLists(sections[..i + 1]);
    var titles := Titles(sections[..i + 1]);
    assert chunked[..i] == ChunkLists(sections[..i]);
    assert titles[..i] == Titles(sections[..i]);
    assert chunked[i] == Chunks(sections[i]) && titles[i] == sections[i].title;
  }

  /** Call `a` is made before call `b`: an earlier section, or an earlier chunk of the same section. */
  predicate Before(a: Job, b: Job)
  {
    a.sectionIndex < b.sectionIndex || (a.sectionIndex == b.sectionIndex && a.chunkIndex < b.chunkIndex)
  }

  /** A call for an existing chunk, carrying that chunk, the chosen voice and the book name. */
  predicate JobOf(chunked: seq<seq<string>>, voice: string, bookName: string, job: Job)
  {
    && job.sectionIndex < |chunked|
    && job.chunkIndex < |chunked[job.sectionIndex]|
    && job.text == chunked[job.sectionIndex][job.chunkIndex]
    && job.voice == voice && job.bookName == bookName
  }

  /**
    One call per chunk, in section-then-chunk order: there are as many calls as chunks,
    every call is for a chunk of the section it names, and each call is made before
    every call that comes after it in that order.
   */
  lemma {:induction false} JobsInOrder(chunked: seq<seq<string>>, voice: string, bookName: string)
    ensures var jobs := PlanJobs(chunked, voice, bookName);
      && |jobs| == Total(chunked)
      && (forall k :: 0 <= k < |jobs| ==> JobOf(chunked, voice, bookName, jobs[k]))
      && (forall k, l :: 0 <= k < l < |jobs| ==> Before(jobs[k], jobs[l]))
    decreases |chunked|
  {
    if chunked != [] {
      var n := |chunked| - 1;
      var prev := chunked[..n];
      JobsInOrder(prev, voice, bookName);
      var earlier := PlanJobs(prev, voice, bookName);
      var last := SectionJobs(chunked[n], voice, bookName, n);
      var jobs := earlier + last;
      forall k | 0 <= k < |jobs|
        ensures JobOf(chunked, voice, bookName, jobs[k])
      {
        if k < |earlier| {
          assert JobOf(prev, voice, bookName, earlier[k]);
          assert chunked[earlier[k].sectionIndex] == prev[earlier[k].sectionIndex];
        } else {
          assert jobs[k] == last[k - |earlier|];
        }
      }
      forall k, l | 0 <= k < l < |jobs|
        ensures Before(jobs[k], jobs[l])
      {
        if l < |earlier| {
          assert Before(earlier[k], earlier[l]);
        } else if k < |earlier| {
          assert JobOf(prev, voice, bookName, earlier[k]);
          assert jobs[l] == last[l - |earlier|];
        } else {
          assert jobs[k] == last[k - |earlier|] && jobs[l] == last[l - |earlier|];
        }
      }
    }
  }

  /** Call `k` of the loop sends a chunk of the selected section whose position it carries. */
  lemma CallSendsChunk(sections: seq<Section>, voice: string, bookName: string, k: nat)
    requires k < |PlannedJobs(sections, voice, bookName)|
    ensures var job := PlannedJobs(sections, voice, bookName)[k];
      && job.sectionIndex < |sections|
      && job.chunkIndex < |Chunks(sections[job.sectionIndex])|
      && job.text == Chunks(sections[job.sectionIndex])[job.chunkIndex]
  {
    var chunked := ChunkLists(sections);
    JobsInOrder(chunked, voice, bookName);
    assert JobOf(chunked, voice, bookName, PlanJobs(chunked, voice, bookName)[k]);
  }

  /** Chunk `j` of section `i` is sent by the call at position `Total(chunked[..i]) + j`. */
  lemma {:induction false} JobAt(chunked: seq<seq<string>>, voice: string, bookName: string, i: nat, j: nat)
    requires i < |chunked| && j < |chunked[i]|
    ensures var jobs := PlanJobs(chunked, voice, bookName);
      && Total(chunked[..i]) + j < |jobs|
      && jobs[Total(chunked[..i]) + j] == Job(chunked[i][j], voice, bookName, i, j)
    decreases |chunked|
  {
    var n := |chunked| - 1;
    var prev := chunked[..n];
    JobsInOrder(prev, voice, bookName);
    if i == n {
      assert prev == chunked[..i];
    } else {
      JobAt(prev, voice, bookName, i, j);
      assert prev[..i] == chunked[..i];
      assert prev[i] == chunked[i];
    }
  }

  /**
    `notice` reports `job`: a failure, with the title of the job's section and the chunk
    number counted from 1, exactly when the synthesiser's exit status is not 0, and
    otherwise the output path of the job's section.
   */
  predicate Reports(titles: seq<string>, bookName: string, status: Job -> int, job: Job, notice: Notice)
  {
    && job.sectionIndex < |titles|
    && (notice.Failed? <==> status(job) != 0)
    && (notice.Failed? ==> notice == Failed(titles[job.sectionIndex], job.chunkIndex + 1))
    && (notice.Generated? ==> notice == Generated(TtsHandler.OutputPath(bookName, job.sectionIndex)))
  }

  /** Message `k` reports call `k`, and there is one message per call. */
  lemma {:induction false} NoticesMatchJobs(titles: seq<string>, chunked: seq<seq<string>>, voice: string,
                                            bookName: string, status: Job -> int)
    requires |titles| == |chunked|
    ensures var jobs := PlanJobs(chunked, voice, bookName);
      var notices := PlanNotices(titles, chunked, voice, bookName, status);
      && |notices| == |jobs|
      && forall k :: 0 <= k < |jobs| ==> Reports(titles, bookName, status, jobs[k], notices[k])
    decreases |chunked|
  {
    if chunked != [] {
      var n := |chunked| - 1;
      var prevTitles := titles[..n];
      var prev := chunked[..n];
      NoticesMatchJobs(prevTitles, prev, voice, bookName, status);
      JobsInOrder(prev, voice, bookName);
      var earlier := PlanJobs(prev, voice, bookName);
      var earlierNotices := PlanNotices(prevTitles, prev, voice, bookName, status);
      var last := SectionJobs(chunked[n], voice, bookName, n);
      var lastNotices := SectionNotices(titles[n], last, TtsHandler.OutputPath(bookName, n), status);
      var jobs := earlier + last;
      var notices := earlierNotices + lastNotices;
      forall k | 0 <= k < |jobs|
        ensures Reports(titles, bookName, status, jobs[k], notices[k])
      {
        if k < |earlier| {
          ReportsEarlier(titles, n, bookName, status, earlier[k], earlierNotices[k]);
          assert jobs[k] == earlier[k] && notices[k] == earlierNotices[k];
        } else {
          var m := k - |earlier|;
          assert jobs[k] == last[m] && notices[k] == lastNotices[m];
          ReportsLast(titles, chunked[n], voice, bookName, n, status, m);
        }
      }
    }
  }

  /** A message that reports a call of the first `n` sections still reports it once more sections follow. */
  lemma ReportsEarlier(titles: seq<string>, n: nat, bookName: string, status: Job -> int, job: Job, notice: Notice)
    requires n <= |titles|
    requires Reports(titles[..n], bookName, status, job, notice)
    ensures Reports(titles, bookName, status, job, notice)
  {
    assert titles[job.sectionIndex] == titles[..n][job.sectionIndex];
  }

  /** Message `m` of the last section reports call `m` of that section. */
  lemma ReportsLast(titles: seq<string>, chunks: seq<string>, voice: string, bookName: string, n: nat,
                    status: Job -> int, m: nat)
    requires n < |titles| && m < |chunks|
    ensures var last := SectionJobs(chunks, voice, bookName, n);
      Reports(titles, bookName, status, last[m],
              SectionNotices(titles[n], last, TtsHandler.OutputPath(bookName, n), status)[m])
  {
    var last := SectionJobs(chunks, voice, bookName, n);
    assert last[m].sectionIndex == n;
  }

  /**
    Two calls are written to the same output path exactly when they belong to the same
    section: the chunks of one section overwrite each other's file.
   */
  lemma SamePathIffSameSection(chunked: seq<seq<string>>, voice: string, bookName: string, k: nat, l: nat)
    requires k < |PlanJobs(chunked, voice, bookName)| && l < |PlanJobs(chunked, voice, bookName)|
    ensures var jobs := PlanJobs(chunked, voice, bookName);
      TtsHandler.OutputPath(jobs[k].bookName, jobs[k].sectionIndex) == TtsHandler.OutputPath(jobs[l].bookName, jobs[l].sectionIndex)
      <==> jobs[k].sectionIndex == jobs[l].sectionIndex
  {
    var jobs := PlanJobs(chunked, voice, bookName);
    JobsInOrder(chunked, voice, bookName);
    assert JobOf(chunked, voice, bookName, jobs[k]) && JobOf(chunked, voice, bookName, jobs[l]);
    TtsHandler.OutputPathInjective(bookName, jobs[k].sectionIndex, jobs[l].sectionIndex);
  }

  /** Sections that each have a chunk have at least one chunk each in total. */
  lemma {:induction false} TotalAtLeast(chunked: seq<seq<string>>)
    requires forall i :: 0 <= i < |chunked| ==> chunked[i] != []
    ensures Total(chunked) >= |chunked|
    decreases |chunked|
  {
    if chunked != [] {
      TotalAtLeast(chunked[..|chunked| - 1]);
    }
  }

  /** Some call is for the section at position `i`. */
  predicate Called(jobs: seq<Job>, i: nat)
  {
    exists k :: 0 <= k < |jobs| && jobs[k].sectionIndex == i
  }

  /** Sections that each have a chunk each get a call. */
  lemma EachListCalled(chunked: seq<seq<string>>, voice: string, bookName: string)
    requires forall i :: 0 <= i < |chunked| ==> chunked[i] != []
    ensures var jobs := PlanJobs(chunked, voice, bookName);
      forall i :: 0 <= i < |chunked| ==> Called(jobs, i)
  {
    var jobs := PlanJobs(chunked, voice, bookName);
    forall i | 0 <= i < |chunked|
      ensures Called(jobs, i)
    {
      JobAt(chunked, voice, bookName, i, 0);
      var k := Total(chunked[..i]);
      assert jobs[k].sectionIndex == i;
    }
  }

  /** Every selected section gets at least one call, so there are at least as many calls as sections. */
  lemma EverySectionCalled(sections: seq<Section>, voice: string, bookName: string)
    ensures var jobs := PlannedJobs(sections, voice, bookName);
      && (forall i :: 0 <= i < |sections| ==> Called(jobs, i))
      && |jobs| >= |sections|
  {
    var chunked := ChunkLists(sections);
    assert |chunked| == |sections|;
    forall i | 0 <= i < |chunked|
      ensures chunked[i] != []
    {
      Chunker.ChunkedNonEmpty(sections[i].content, MaxChars);
    }
    EachListCalled(chunked, voice, bookName);
    TotalAtLeast(chunked);
    JobsInOrder(chunked, voice, bookName);
  }
}
