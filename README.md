# Audiobook creator: text-to-job path, modelled in Dafny

The audiobook creator turns the selected sections of an e-book into WAV files, one
synthesiser call per chunk of text. This project models the part of it that decides
what gets synthesised and where the audio goes:

- `split_text` (`chunker.dfy`, module `Chunker`). It splits a section's text into
  sentences wherever one or more spaces follow `.`, `!` or `?`. It then packs
  consecutive sentences greedily into chunks under a character budget. The splitter is
  written by hand (`SplitSentences`) as the leftmost, greedy, non-overlapping matching
  of the pattern `(?<=[.!?]) +`. The loop is the method `SplitText`, proved to compute
  the function `Chunked`, which is a left fold (`Pack`) whose state mirrors the
  `chunks` list and the `current_chunk` buffer.
- `sanitize_filename` and the custom-name rule (`naming.dfy`, module `Naming`).
- `generate_output_file` (`tts_handler.dfy`, module `TtsHandler`). It covers the folder
  name (filtered and right-stripped only), `os.path.join` on POSIX paths, the `02d`
  file index, directory creation and the result, which is the path or `None`. The
  external synthesiser is reduced to its exit status, and the directories on disk are
  reduced to a ghost set of paths.
- The loop behind the "Generate Audiobook" button (`generation.dfy`, module
  `Generation`). For each selected section it splits the content with a budget of
  4000000 characters and makes one call per chunk. It shows a message for each call
  and goes on after a failure. The synthesiser is a function from a call's arguments
  to an exit status. The loop's output is the sequence of calls and the sequence of
  messages.
- Python's `str` behaviour that these rely on (`pystrings.dfy`, module `PyStrings`):
  - `isspace` with Python's whitespace set;
  - `isalnum` on ASCII;
  - `strip`, `lstrip` and `rstrip`;
  - `str(n)` and the `02d` format.
- `OUTPUT_FOLDER` is the constant `TtsHandler.OutputFolder`. `Option` lives in
  `wrappers.dfy`.

Behaviours of the code that the model keeps exactly:

- Empty text gives `[""]`, not an empty list.
- If the first sentence alone exceeds the budget, the first chunk is `""`.
- A failed synthesiser call yields `None`. The synthesiser's error output is only
  printed.
- The handler right-strips the folder name (tts_handler.py:19), while
  `sanitize_filename` strips both ends (app.py:64). A leading space survives in the
  folder name.
- Every selected section is chunked, with the fixed budget of 4000000 characters
  (app.py:96).

## Model

| member | source | states |
|---|---|---|
| Chunker.SplitSentences | app.py:50 | The split gives at least one piece. The shape of the pieces is in `SplitWellFormed`, and their relation to the text in `SplitGaps` |
| Chunker.FindBoundary | app.py:50 | The leftmost position at or after `from` where a space follows `.`, `!` or `?`, with no such position before it |
| Chunker.SpaceRunEnd | app.py:50 | The greedy end of the run of spaces: everything skipped is `' '` and the next character is not |
| Chunker.SplitWellFormed | app.py:50 | Every split result is well formed: no piece contains a split point; every piece but the last ends with `.`, `!` or `?`; no piece but the first starts with a space, because the whole run of spaces is dropped |
| Chunker.SplitJoin | app.py:50 | Joining a well-formed sentence list with single spaces and splitting the result gives the list back |
| Chunker.JoinSplit | app.py:50 | When every split point is a single space, joining the pieces with `' '` gives the text back: nothing but the separating spaces is lost |
| Chunker.Gaps | app.py:50 | The runs of spaces the split drops: one run of at least one space between each pair of consecutive pieces |
| Chunker.SplitGaps | app.py:50 | For any text, however long its runs of spaces, putting each dropped run back between its two pieces gives the text. Only the separating spaces are lost |
| Chunker.NoSpaceNoSplit | app.py:50 | A text without `' '` is never split, whatever newlines or tabs it contains |
| Chunker.SplitShrinks | app.py:50 | The pieces rejoined with single spaces are no longer than the text |
| Chunker.SplitText | app.py:49-61 | The loop returns exactly `Chunked(text, maxChars)`, the stripped buffers of the greedy packing |
| Chunker.PackCovers | app.py:53-58 | Each sentence lands in exactly one group, in order: the closed groups followed by the open buffer concatenate to the sentence list |
| Chunker.PackFits | app.py:54-58 | Every group of two or more sentences, joined by single spaces, fits the budget |
| Chunker.PackGreedy | app.py:54-58 | Each new group starts with a sentence that did not fit after the previous group |
| Chunker.PackShape | app.py:54-58 | Only the first group can be empty, and it is empty exactly when the first sentence exceeds the budget |
| Chunker.GroupsSpec | app.py:53-60 | For the groups that become chunks: coverage in order, the non-empty groups, the budget and greediness together |
| Chunker.ChunkIsJoinedGroup | app.py:55-60 | Each chunk is the `strip()` of its group's sentences joined by single spaces |
| Chunker.ChunkBudget | app.py:54-58 | A chunk of two or more sentences is at most `maxChars` long. With a non-negative budget, a longer chunk is a single sentence |
| Chunker.ChunkedNonEmpty | app.py:59-61 | `split_text` returns at least one chunk |
| Chunker.FirstChunkEmpty | app.py:54-57 | If the first sentence exceeds the budget, there are at least two chunks and the first is `""` |
| Chunker.EmptyText | app.py:50-61 | Empty text gives `[""]`, or `["", ""]` with a negative budget |
| Chunker.ShortTextOneChunk | app.py:53-60 | A text no longer than the budget is one chunk: its sentences rejoined by single spaces, stripped |
| PyStrings.LStrip | app.py:64 | `lstrip()` returns a suffix that does not start with whitespace, after dropping only whitespace |
| PyStrings.RStrip | tts_handler.py:19 | `rstrip()` returns a prefix that does not end with whitespace, after dropping only whitespace |
| PyStrings.Strip | app.py:57 | `strip()` is no longer than its input, and its result is empty or neither of its ends is whitespace |
| PyStrings.StripTrims | app.py:57 | `strip()` gives the part of the string between a whitespace-only prefix and a whitespace-only suffix, unchanged |
| PyStrings.StripNoOp | app.py:64 | Stripping a string with no whitespace at either end changes nothing |
| PyStrings.StripTrailingSpace | app.py:55-57 | The `" "` appended after each sentence never survives `strip()` |
| PyStrings.Decimal | tts_handler.py:24 | `str(n)` is a digit string whose value is `n`. It starts with `0` only for `n == 0`. It has one digit exactly when `n < 10` and at most two exactly when `n < 100` |
| PyStrings.Format02 | tts_handler.py:24 | `02d` gives at least two digits, exactly two when `n < 100`, and a leading `0` exactly when `n < 10`: padding never goes past width two |
| PyStrings.Format02RoundTrip | tts_handler.py:24 | Reading the formatted index back as a decimal number gives the index |
| PyStrings.Format02Injective | tts_handler.py:24 | Two indices format alike exactly when they are equal |
| PyStrings.Format02Examples | tts_handler.py:24 | `1` is formatted as `01` and `100` as `100` |
| Naming.KeepAllowed | app.py:64 | The filter keeps only letters, digits, `' '` and `'_'`, and never lengthens the name |
| Naming.KeepAllowedSubseq | app.py:64 | The kept characters are an order-preserving subsequence of the input |
| Naming.KeepAllowedAppend | app.py:64 | Filtering a concatenation is the concatenation of the filtered parts |
| Naming.KeepAllowedFixes | app.py:64 | Filtering leaves a name unchanged exactly when all its characters are allowed |
| Naming.SanitizeFilename | app.py:63-64 | The result holds only letters, digits, `' '` and `'_'`, and neither starts nor ends with a space |
| Naming.SanitizeSubseq | app.py:64 | The sanitised name is an order-preserving subsequence of the input |
| Naming.SanitizeIdempotent | app.py:64 | Sanitising a sanitised name changes nothing |
| Naming.ChooseBookName | app.py:83-90 | The sanitised custom name replaces the stem exactly when the toggle is on and the custom name has a non-whitespace character. Otherwise the stem stays |
| Naming.PunctuationOnlyName | app.py:86-88 | The custom name `"!!!"` is accepted and gives the empty name |
| TtsHandler.FolderName | tts_handler.py:19 | The folder name holds only allowed characters and does not end with a space |
| TtsHandler.FolderNameSubseq | tts_handler.py:19 | The folder name is an order-preserving subsequence of the book name |
| TtsHandler.FolderNameKeepsLeadingSpace | tts_handler.py:19 | The app's `sanitize_filename` is the handler's folder name with its leading whitespace stripped as well |
| TtsHandler.LeadingSpaceExample | tts_handler.py:19 | `" Tale?"` gives the folder name `" Tale"`, while `sanitize_filename` gives `"Tale"` |
| TtsHandler.FolderNameOfSanitized | tts_handler.py:19 | The handler leaves a name already produced by `sanitize_filename` unchanged |
| TtsHandler.JoinBookFolder | tts_handler.py:20 | `os.path.join(OUTPUT_FOLDER, name)` is `OUTPUT_FOLDER` followed by the name, because the root ends in `/` and the name never starts with one |
| TtsHandler.JoinOutputPath | tts_handler.py:25 | Joining the book folder with the file name gives `OUTPUT_FOLDER/<name>/<name>_NN.wav`. An empty name gives `OUTPUT_FOLDER/_NN.wav` |
| TtsHandler.JoinIntoFolder | tts_handler.py:25 | For a non-empty folder name, the join inserts exactly one `/` |
| TtsHandler.JoinIntoRoot | tts_handler.py:25 | For an empty folder name, the file goes directly into `OUTPUT_FOLDER` |
| TtsHandler.FileNameWidth | tts_handler.py:24 | Section index 0 gives `_01.wav` and index 99 gives `_100.wav` |
| TtsHandler.OutputPathInjective | tts_handler.py:20-25 | For one book, two section indices give the same output path exactly when they are equal |
| TtsHandler.OutputPathSplit | tts_handler.py:24-25 | Every path of a book is one prefix fixed by the book name, followed by `_NN.wav` |
| TtsHandler.FolderNameDropsCharacter | tts_handler.py:19 | A name of allowed characters that does not end in whitespace, followed by a disallowed character, has itself as folder name |
| TtsHandler.DroppedCharacterPath | tts_handler.py:19-25 | For such a name, the path is `OUTPUT_FOLDER` + name + `/` + name + `_NN.wav` |
| TtsHandler.OutputPathExample | tts_handler.py:19-25 | `"My Book!"` with section index 0 gives `./static/output/My Book/My Book_01.wav` |
| TtsHandler.GenerateOutputFile | tts_handler.py:15-49 | The book folder exists afterwards even when the synthesiser fails. The path is returned exactly when the exit status is 0, and `None` otherwise. The path depends only on the book name and section index |
| Generation.GenerateChunks | app.py:97-102 | The inner loop makes one call per chunk, in order, with the section and chunk positions. It shows `Generated: <path>` or `Failed(<title>, <chunk number j+1>)` per call, and creates the book folder once there is a chunk |
| Generation.GenerateAudiobook | app.py:95-105 | The outer loop makes exactly the planned calls and shows exactly the planned messages, section after section. The book folder exists afterwards once any section was selected |
| Generation.PlannedStep | app.py:95-102 | One more section adds that section's calls and messages after the earlier ones |
| Generation.JobsInOrder | app.py:95-98 | There is one call per (section, chunk) pair, each carrying that chunk, the voice and the book name, in section-then-chunk order |
| Generation.JobAt | app.py:95-98 | Chunk `j` of section `i` is the call at position (chunks of earlier sections) + `j` |
| Generation.CallSendsChunk | app.py:95-98 | Every call sends a chunk of `split_text(content, 4000000)` of its own section |
| Generation.NoticesMatchJobs | app.py:98-102 | There is one message per call. It is a failure exactly when the exit status is non-zero. A failure names the section title and the 1-based chunk number. A success names the output path of the call's section |
| Generation.SamePathIffSameSection | app.py:97-98 | Two calls target the same file exactly when they belong to the same section: the chunks of a section overwrite each other |
| Generation.TotalAtLeast | app.py:96-97 | Sections that all have chunks give at least one call per section |
| Generation.EachListCalled | app.py:95-98 | When every section has a chunk, every section position has a call |
| Generation.EverySectionCalled | app.py:95-98 | Every selected section gets at least one call, because `split_text` never returns an empty list. So there are at least as many calls as sections |

## Left out

- `parse_epub` and `parse_mobi` (app.py:20-47) are left out: they are temporary files
  plus e-book and HTML parsing libraries. The selected sections are an input.
- The Streamlit interface (app.py:66-106) is left out, covering uploads, checkboxes,
  text areas, the voice selector, the toggle and message widgets. The selection,
  custom name and voice are inputs. Messages are the `Notice` values the loop returns.
- `os.path.splitext` (app.py:70) is not modelled: the upload's stem is an input of
  `ChooseBookName`.
- The progress fraction and status text (app.py:103-105) are left out: they are a
  floating-point widget update with no effect on the calls.
- The voice listing (app.py:79) is left out because it is directory I/O. The voice
  is a string input.
- The synthesiser command (tts_handler.py:16, 28-41) is left out, covering
  `model_path`, `shlex.quote`, the `echo` pipe, `--cuda` and `subprocess.run`. The
  outcome of a call is an exit status, an input to `GenerateOutputFile` and a
  function of the call's arguments in `GenerateAudiobook`.
- The printed messages on standard output and the synthesiser's error stream
  (tts_handler.py:45, 48) are left out.
- `os.makedirs` is modelled only as adding the folder to a set of existing paths. A
  filesystem error, which would end the loop with an exception, is not modelled.
- `VOICES_FOLDER` and `PIPER_LOCATION` (configuration.py:11, 17) are left out; they
  are used only by the command line.
- PyStrings.IsAlnum: Python's `isalnum` also accepts non-ASCII letters and digits;
  the model accepts only ASCII ones.
- The regular-expression engine is replaced by the splitter for the single pattern
  used (app.py:50).
- TtsHandler.PathJoin models `os.path.join` for two arguments on POSIX only.
- TtsHandler.OutputPathExample and Naming.PunctuationOnlyName state single concrete
  cases. `OutputPathExample` takes the book name as a parameter fixed by its
  precondition.
