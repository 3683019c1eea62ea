/**
  `generate_output_file(text, selected_voice, book_name, section_index, chunk_index)`:
  the folder and file names it derives from the book name and section index, the
  folder it creates, and its result, the output path when the synthesiser exits with
  status 0 and `None` otherwise. The synthesiser itself is reduced to its exit status,
  and the directories that exist on disk to a ghost set of paths.
 */
module TtsHandler {
  import opened Wrappers
  import opened PyStrings
  import Naming

  /** `OUTPUT_FOLDER` of the configuration. */
  const OutputFolder: string := "./static/output/"

  /** The folder name: the allowed characters in order, trailing whitespace removed (leading kept). */
  function FolderName(bookName: string): (r: string)
    ensures forall i :: 0 <= i < |r| ==> Naming.IsKept(r[i])
    ensures r == [] || r[|r| - 1] != ' '
  {
    RStrip(Naming.KeepAllowed(bookName))
  }

  /** The folder name is an order-preserving subsequence of the book name. */
  lemma FolderNameSubseq(bookName: string)
    ensures IsSubseq(FolderName(bookName), bookName)
  {
    Naming.KeepAllowedSubseq(bookName);
    SubseqStrip(Naming.KeepAllowed(bookName), bookName);
  }

  /** `os.path.join(a, b)` on POSIX paths. */
  function PathJoin(a: string, b: string): string
  {
    if |b| > 0 && b[0] == '/' then b
    else if a == "" || a[|a| - 1] == '/' then a + b
    else a + "/" + b
  }

  /** The folder the files of a book go into: `OUTPUT_FOLDER` followed by the folder name. */
  function BookFolder(bookName: string): string
  {
    OutputFolder + FolderName(bookName)
  }

  /** `f"_{section_index+1:02d}.wav"`: what follows the folder name in a file name. */
  function FileSuffix(sectionIndex: nat): string
  {
    "_" + Format02(sectionIndex + 1) + ".wav"
  }

  /** `f"{sanitized_book_name}_{section_index+1:02d}.wav"`. */
  function OutputFileName(bookName: string, sectionIndex: nat): string
  {
    FolderName(bookName) + FileSuffix(sectionIndex)
  }

  /** The directory part of every output path of a book: the output root itself when the folder name is empty. */
  function PathPrefix(bookName: string): string
  {
    if FolderName(bookName) == "" then OutputFolder else OutputFolder + FolderName(bookName) + "/"
  }

  /** The path of the file written for a section of a book. */
  function OutputPath(bookName: string, sectionIndex: nat): string
  {
    PathPrefix(bookName) + OutputFileName(bookName, sectionIndex)
  }

  /** Joining `OUTPUT_FOLDER` with the folder name adds no separator: the root already ends in `/`. */
  lemma JoinBookFolder(bookName: string)
    ensures PathJoin(OutputFolder, FolderName(bookName)) == BookFolder(bookName)
  {
    var name := FolderName(bookName);
    if name != "" {
      assert Naming.IsKept(name[0]);
    } else {
      assert OutputFolder + name == OutputFolder;
    }
  }

  /**
    Joining the book folder with the file name puts the file inside the folder, except that
    an empty folder name puts it directly in `OUTPUT_FOLDER`.
   */
  lemma JoinOutputPath(bookName: string, sectionIndex: nat)
    ensures PathJoin(BookFolder(bookName), OutputFileName(bookName, sectionIndex)) == OutputPath(bookName, sectionIndex)
  {
    var name := FolderName(bookName);
    if name == "" {
      JoinIntoRoot(name, FileSuffix(sectionIndex));
    } else {
      JoinIntoFolder(name, FileSuffix(sectionIndex));
    }
  }

  lemma JoinIntoRoot(name: string, suffix: string)
    requires name == "" && |suffix| > 0 && suffix[0] == '_'
    ensures PathJoin(OutputFolder + name, name + suffix) == OutputFolder + (name + suffix)
  {
    assert name + suffix == suffix;
    assert OutputFolder + name == OutputFolder;
  }

  lemma JoinIntoFolder(name: string, suffix: string)
    requires name != "" && forall i :: 0 <= i < |name| ==> Naming.IsKept(name[i])
    ensures PathJoin(OutputFolder + name, name + suffix) == OutputFolder + name + "/" + (name + suffix)
  {
    var folder := OutputFolder + name;
    assert (name + suffix)[0] == name[0] && Naming.IsKept(name[0]);
    assert folder[|folder| - 1] == name[|name| - 1] && Naming.IsKept(name[|name| - 1]);
  }

  /**
    One call of `generate_output_file`: the book folder is created (whatever the
    synthesiser then does), and the output path is returned exactly when the
    synthesiser's exit status is 0. Text, voice and chunk index do not affect the path.
   */
  method GenerateOutputFile(text: string, selectedVoice: string, bookName: string,
                            sectionIndex: nat, chunkIndex: nat, exitCode: int, ghost dirs: set<string>)
    returns (outputFile: Option<string>, ghost dirs': set<string>)
    ensures dirs' == dirs + {BookFolder(bookName)}
    ensures outputFile.Some? <==> exitCode == 0
    ensures outputFile.Some? ==> outputFile.value == OutputPath(bookName, sectionIndex)
  {
    var sanitizedBookName := FolderName(bookName);
    var bookOutputFolder := PathJoin(OutputFolder, sanitizedBookName);
    JoinBookFolder(bookName);
    dirs' := dirs + {bookOutputFolder};
    var outputFileName := sanitizedBookName + FileSuffix(sectionIndex);
    var outputFilePath := PathJoin(bookOutputFolder, outputFileName);
    JoinOutputPath(bookName, sectionIndex);
    if exitCode != 0 {
      outputFile := None;
    } else {
      outputFile := Some(outputFilePath);
    }
  }

  /** The part of every output path of a book that comes before `_NN.wav`. */
  function FilePrefix(bookName: string): string
  {
    PathPrefix(bookName) + FolderName(bookName)
  }

  lemma OutputPathSplit(bookName: string, sectionIndex: nat)
    ensures OutputPath(bookName, sectionIndex) == FilePrefix(bookName) + FileSuffix(sectionIndex)
  {
    AppendAssoc(PathPrefix(bookName), FolderName(bookName), FileSuffix(sectionIndex));
  }

  /** Different sections of one book never share an output path; all chunks of one section do. */
  lemma OutputPathInjective(bookName: string, i: nat, j: nat)
    ensures OutputPath(bookName, i) == OutputPath(bookName, j) <==> i == j
  {
    if OutputPath(bookName, i) == OutputPath(bookName, j) {
      OutputPathSplit(bookName, i);
      OutputPathSplit(bookName, j);
      PrefixCancel(FilePrefix(bookName), FileSuffix(i), FileSuffix(j));
      MiddleEqual("_", Format02(i + 1), Format02(j + 1), ".wav");
      Format02Injective(i + 1, j + 1);
    }
  }

  /** A title of allowed characters not ending in whitespace, followed by one dropped character, is its own folder name. */
  lemma FolderNameDropsCharacter(title: string, dropped: char)
    requires forall i :: 0 <= i < |title| ==> Naming.IsKept(title[i])
    requires title == [] || !IsSpace(title[|title| - 1])
    requires !Naming.IsKept(dropped)
    ensures FolderName(title + [dropped]) == title
  {
    Naming.KeepAllowedAppend(title, [dropped]);
    Naming.KeepAllowedFixes(title);
    assert Naming.KeepAllowed([dropped]) == [];
    assert title + [] == title;
  }

  /** ... and its files go into a folder named after the title, inside the output root. */
  lemma DroppedCharacterPath(title: string, dropped: char, sectionIndex: nat)
    requires title != [] && forall i :: 0 <= i < |title| ==> Naming.IsKept(title[i])
    requires !IsSpace(title[|title| - 1]) && !Naming.IsKept(dropped)
    ensures OutputPath(title + [dropped], sectionIndex) == OutputFolder + title + "/" + title + FileSuffix(sectionIndex)
  {
    var b := title + [dropped];
    FolderNameDropsCharacter(title, dropped);
    OutputPathSplit(b, sectionIndex);
  }

  /** `"My Book!"`, section 0: `./static/output/My Book/My Book_01.wav`. */
  lemma OutputPathExample(bookName: string)
    requires bookName == "My Book!"
    ensures OutputPath(bookName, 0) == "./static/output/My Book/My Book_01.wav"
  {
    assert bookName == "My Book" + ['!'];
    DroppedCharacterPath("My Book", '!', 0);
    FileNameWidth(0);
    MyBookLiteral();
  }

  lemma MyBookLiteral()
    ensures OutputFolder + "My Book" + "/" + "My Book" + "_01.wav" == "./static/output/My Book/My Book_01.wav"
  {
  }

  /** The index is padded to two digits and grows past them: section 99 is file `_100`. */
  lemma FileNameWidth(sectionIndex: nat)
    ensures sectionIndex == 0 ==> FileSuffix(sectionIndex) == "_01.wav"
    ensures sectionIndex == 99 ==> FileSuffix(sectionIndex) == "_100.wav"
  {
    Format02Examples();
    SuffixLiterals();
  }

  lemma SuffixLiterals()
    ensures "_" + "01" + ".wav" == "_01.wav" && "_" + "100" + ".wav" == "_100.wav"
  {
  }

  /** The folder name is the app's sanitised name before its leading whitespace is removed. */
  lemma FolderNameKeepsLeadingSpace(bookName: string)
    ensures Naming.SanitizeFilename(bookName) == LStrip(FolderName(bookName))
  {
  }

  /** Leading spaces survive in the folder name but not in `sanitize_filename`. */
  lemma LeadingSpaceExample()
    ensures FolderName(" Tale?") == " Tale" && Naming.SanitizeFilename(" Tale?") == "Tale"
  {
    TaleKept();
    assert RStrip(" Tale") == " Tale";
    TaleStripped();
  }

  lemma TaleKept()
    ensures Naming.KeepAllowed(" Tale?") == " Tale"
  {
    Naming.KeepAllowedAppend(" Tale", "?");
    assert " Tale?" == " Tale" + "?";
    Naming.KeepAllowedFixes(" Tale");
    assert Naming.KeepAllowed("?") == "";
  }

  lemma TaleStripped()
    ensures LStrip(" Tale") == "Tale"
  {
    assert " Tale"[1..] == "Tale";
    StripNoOp("Tale");
  }

  /** A name the app has already sanitised reaches the disk unchanged. */
  lemma FolderNameOfSanitized(s: string)
    ensures FolderName(Naming.SanitizeFilename(s)) == Naming.SanitizeFilename(s)
  {
    var r := Naming.SanitizeFilename(s);
    Naming.KeepAllowedFixes(r);
    StripNoOp(r);
  }
}
