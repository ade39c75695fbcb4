/** The Tauri commands of the back end that carry logic: `convert_batch`
    and the path choice of `get_dropped_file_path`. The LibreOffice call and
    the file dialog are inputs: a per-file conversion outcome and the list
    the dialog returned. */
module Backend {
  import opened Wrappers
  import opened Strings
  import opened Wire
  import RustPath

  /** What `convert_file` reported for one file. */
  datatype ConvertOutcome = Converted | Failed(message: string)

  // ---------------------------------------------------------------------
  // Output paths

  /** Where the PDF for `filePath` goes: `<dir>/<stem>.pdf` when an output
      directory is given, `<parent>/<stem>.pdf` otherwise, with "output"
      standing in for a missing stem and "." for a missing parent. Nothing
      is normalised. */
  function OutputPath(filePath: string, outputDir: Option<string>): (out: string)
  {
    var stem := match RustPath.FileStem(filePath)
      case Some(s) => s
      case None => "output";
    var dir := match outputDir
      case Some(d) => d
      case None => (match RustPath.Parent(filePath) case Some(q) => q case None => ".");
    dir + "/" + stem + ".pdf"
  }

  /** With an output directory, the PDF takes the stem of the input's file
      name inside that directory, which is used as given (a trailing '/'
      gives "//"); an input without a file name gives "output.pdf" there. */
  lemma OutputPathInDirectory(dir: string, filePath: string)
    ensures RustPath.FileName(filePath).None? ==>
      OutputPath(filePath, Some(dir)) == dir + "/output.pdf"
    ensures RustPath.FileName(filePath).Some? ==>
      OutputPath(filePath, Some(dir)) == dir + "/" + RustPath.Stem(RustPath.FileName(filePath).value) + ".pdf"
  {
  }

  /** When the text after the last '/' is a normal component, it names the
      PDF in the output directory. */
  lemma OutputPathInDirectoryByLastPiece(dir: string, filePath: string)
    requires RustPath.Significant(LastPiece(filePath, {'/'})) && LastPiece(filePath, {'/'}) != ".."
    ensures OutputPath(filePath, Some(dir)) ==
      dir + "/" + RustPath.Stem(LastPiece(filePath, {'/'})) + ".pdf"
  {
    RustPath.FileNameIsLastPiece(filePath);
    OutputPathInDirectory(dir, filePath);
  }

  /** A trailing separator is skipped when the file name is found: the
      PDF of `dir/name/` goes in `dir`, under the stem of `name`. */
  lemma OutputPathTrailingSeparator(dir: string, name: string)
    requires RustPath.Significant(LastPiece(dir, {'/'}))
    requires RustPath.Significant(name) && name != ".." && FreeOf(name, {'/'})
    ensures OutputPath(dir + "/" + name + "/", None) == dir + "/" + RustPath.Stem(name) + ".pdf"
  {
    RustPath.TrailingSeparatorSkipped(dir, name);
  }

  /** A path ending in ".." has no file name, so its PDF is "output.pdf"
      in the output directory: with "d", "a/.." gives "d/output.pdf". */
  lemma OutputPathOfParentReference(filePath: string, dir: string)
    requires LastPiece(filePath, {'/'}) == ".."
    ensures OutputPath(filePath, Some(dir)) == dir + "/output.pdf"
  {
    RustPath.ParentReferenceHasNoFileName(filePath);
  }

  /** Without an output directory, the PDF of `dir/name` goes next to it,
      in `dir` as written, with the same stem. */
  lemma OutputPathBesideInput(dir: string, name: string)
    requires RustPath.Significant(LastPiece(dir, {'/'}))
    requires RustPath.Significant(name) && name != ".." && FreeOf(name, {'/'})
    ensures OutputPath(dir + "/" + name, None) == dir + "/" + RustPath.Stem(name) + ".pdf"
  {
    RustPath.ParentOfChild(dir, name);
  }

  /** A bare relative name has an empty parent, so its PDF is placed at
      the filesystem root: "report.docx" becomes "/report.pdf". */
  lemma OutputPathOfBareName(name: string)
    requires RustPath.Significant(name) && name != ".." && FreeOf(name, {'/'})
    ensures OutputPath(name, None) == "/" + RustPath.Stem(name) + ".pdf"
  {
    RustPath.ParentOfBareName(name);
  }

  /** A file directly under the root gets a doubled separator:
      "/a.docx" becomes "//a.pdf". */
  lemma OutputPathOfRootChild(name: string)
    requires RustPath.Significant(name) && name != ".." && FreeOf(name, {'/'})
    ensures OutputPath("/" + name, None) == "//" + RustPath.Stem(name) + ".pdf"
  {
    RustPath.ParentOfRootChild(name);
  }

  /** The "." fallback is taken only for a path without a parent (the empty
      path or the root alone), which has no file name either, so its PDF is
      "./output.pdf". */
  lemma OutputPathWithoutParent(filePath: string)
    requires RustPath.Parent(filePath).None?
    ensures OutputPath(filePath, None) == "./output.pdf"
  {
    RustPath.NoParentNoFileName(filePath);
  }

  // ---------------------------------------------------------------------
  // convert_batch

  /** The progress reported when file `index` of `total` starts:
      `index / total * 100`, truncated. It is the largest whole percentage
      whose share of the batch does not exceed the files already done. */
  function ProgressAt(index: nat, total: nat): (p: nat)
    requires index < total
    ensures p * total <= index * 100 < (p + 1) * total
    ensures p < 100
    ensures index == 0 ==> p == 0
  {
    DivBounds(index * 100, total);
    DivBelow(index * 100, total, 100);
    index * 100 / total
  }

  /** `a / d` copies of `d` fit in `a`, one more does not. */
  lemma DivBounds(a: nat, d: nat)
    requires d > 0
    ensures (a / d) * d <= a < (a / d + 1) * d
  {
    assert a == (a / d) * d + a % d;
    assert (a / d + 1) * d == (a / d) * d + d;
  }

  /** Multiplying by a non-negative factor preserves order. */
  lemma MulMonotonic(k: int, q: int, d: int)
    requires k <= q && d >= 0
    ensures k * d <= q * d
  {
    assert q * d == k * d + (q - k) * d;
  }

  /** A quotient stays below `k` when the dividend is below `k * d`. */
  lemma DivBelow(a: nat, d: nat, k: nat)
    requires d > 0 && a < k * d
    ensures a / d < k
  {
    DivBounds(a, d);
    if a / d >= k {
      MulMonotonic(k, a / d, d);
    }
  }

  /** Division by a positive number preserves order. */
  lemma DivMonotonic(a: nat, b: nat, d: nat)
    requires a <= b && d > 0
    ensures a / d <= b / d
  {
    DivBounds(a, d);
    DivBounds(b, d);
    if a / d > b / d {
      MulMonotonic(b / d + 1, a / d, d);
    }
  }

  /** Later files start at no smaller progress. */
  lemma ProgressAtMonotonic(i: nat, j: nat, total: nat)
    requires i <= j < total
    ensures ProgressAt(i, total) <= ProgressAt(j, total)
  {
    DivMonotonic(i * 100, j * 100, total);
  }

  /** The event emitted before file `filePath` is converted. */
  function StartEvent(filePath: string, out: string, progress: nat): ConversionProgress
  {
    ConversionProgress(filePath, Some(out), progress, "converting", None)
  }

  /** The event emitted after file `filePath` is converted: "completed"
      with progress 100 and the output path, or "error" with progress 0, no
      output path and the converter's message. */
  function TerminalEvent(filePath: string, out: string, outcome: ConvertOutcome): ConversionProgress
  {
    match outcome
    case Converted => ConversionProgress(filePath, Some(out), 100, "completed", None)
    case Failed(message) => ConversionProgress(filePath, None, 0, "error", Some(message))
  }

  /** The output path of every file of a batch, by position. */
  function OutputPaths(files: seq<string>, outputDir: Option<string>): (outs: seq<string>)
    ensures |outs| == |files|
    ensures forall i :: 0 <= i < |files| ==> outs[i] == OutputPath(files[i], outputDir)
  {
    seq(|files|, i requires 0 <= i < |files| => OutputPath(files[i], outputDir))
  }

  /** The events emitted for the first `count` files, whose output paths
      are `outs`. */
  function EventsUpTo(files: seq<string>, outs: seq<string>, outcomes: nat -> ConvertOutcome,
                      count: nat): seq<ConversionProgress>
    requires count <= |files| == |outs|
  {
    if count == 0 then []
    else
      var i := count - 1;
      EventsUpTo(files, outs, outcomes, i)
        + [StartEvent(files[i], outs[i], ProgressAt(i, |files|))]
        + [TerminalEvent(files[i], outs[i], outcomes(i))]
  }

  /** Every event of a batch, in emission order. */
  function BatchEvents(files: seq<string>, outputDir: Option<string>,
                       outcomes: nat -> ConvertOutcome): seq<ConversionProgress>
  {
    EventsUpTo(files, OutputPaths(files, outputDir), outcomes, |files|)
  }

  /** `convert_batch`: walks the files in order, emitting a "converting"
      event before converting each one and a "completed" or "error" event
      after. It returns `Ok(())` whatever the per-file outcomes are. */
  method ConvertBatch(files: seq<string>, outputDir: Option<string>, outcomes: nat -> ConvertOutcome)
    returns (result: Result<(), string>, events: seq<ConversionProgress>)
    ensures result == Ok(())
    ensures events == BatchEvents(files, outputDir, outcomes)
  {
    ghost var outs := OutputPaths(files, outputDir);
    var totalFiles := |files|;
    events := [];
    var index := 0;
    while index < totalFiles
      invariant index <= totalFiles == |files|
      invariant events == EventsUpTo(files, outs, outcomes, index)
    {
      var filePath := files[index];
      var progress := ProgressAt(index, totalFiles);
      var outputPath := OutputPath(filePath, outputDir);
      events := events + [StartEvent(filePath, outputPath, progress)];
      var outcome := outcomes(index);
      events := events + [TerminalEvent(filePath, outputPath, outcome)];
      index := index + 1;
    }
    result := Ok(());
  }

  /** A batch emits exactly two events per file, in file order: the
      events of file `i` sit at positions `2 * i` and `2 * i + 1`. */
  lemma {:induction false} BatchEventLayout(files: seq<string>, outs: seq<string>,
                                            outcomes: nat -> ConvertOutcome, count: nat, i: nat)
    requires count <= |files| == |outs| && i < count
    ensures var events := EventsUpTo(files, outs, outcomes, count);
      |events| == 2 * count &&
      events[2 * i] == StartEvent(files[i], outs[i], ProgressAt(i, |files|)) &&
      events[2 * i + 1] == TerminalEvent(files[i], outs[i], outcomes(i))
  {
    var prev := EventsUpTo(files, outs, outcomes, count - 1);
    EventsUpToLength(files, outs, outcomes, count - 1);
    if i < count - 1 {
      BatchEventLayout(files, outs, outcomes, count - 1, i);
      var events := EventsUpTo(files, outs, outcomes, count);
      assert events[2 * i] == prev[2 * i] && events[2 * i + 1] == prev[2 * i + 1];
    }
  }

  /** Two events per file. */
  lemma {:induction false} EventsUpToLength(files: seq<string>, outs: seq<string>,
                                            outcomes: nat -> ConvertOutcome, count: nat)
    requires count <= |files| == |outs|
    ensures |EventsUpTo(files, outs, outcomes, count)| == 2 * count
  {
    if count > 0 {
      EventsUpToLength(files, outs, outcomes, count - 1);
    }
  }

  /** The two events of file `i`: first "converting" with the output path,
      the start progress and no error; then "completed" with progress 100
      and the same output path, or "error" with progress 0, no output path
      and the converter's message. */
  lemma BatchEventPattern(files: seq<string>, outputDir: Option<string>,
                          outcomes: nat -> ConvertOutcome, i: nat)
    requires i < |files|
    ensures var events := BatchEvents(files, outputDir, outcomes);
      var out := OutputPath(files[i], outputDir);
      |events| == 2 * |files| &&
      events[2 * i] == ConversionProgress(files[i], Some(out), ProgressAt(i, |files|), "converting", None) &&
      events[2 * i + 1] == match outcomes(i)
        case Converted => ConversionProgress(files[i], Some(out), 100, "completed", None)
        case Failed(message) => ConversionProgress(files[i], None, 0, "error", Some(message))
  {
    BatchEventLayout(files, OutputPaths(files, outputDir), outcomes, |files|, i);
  }

  /** Every event of a batch names one of the batch's files and carries a
      progress of at most 100. */
  lemma BatchEventsBounded(files: seq<string>, outputDir: Option<string>,
                           outcomes: nat -> ConvertOutcome)
    ensures forall e :: e in BatchEvents(files, outputDir, outcomes) ==> e.filePath in files && e.progress <= 100
  {
    EventsUpToBounded(files, OutputPaths(files, outputDir), outcomes, |files|);
  }

  lemma {:induction false} EventsUpToBounded(files: seq<string>, outs: seq<string>,
                                             outcomes: nat -> ConvertOutcome, count: nat)
    requires count <= |files| == |outs|
    ensures forall e :: e in EventsUpTo(files, outs, outcomes, count) ==> e.filePath in files && e.progress <= 100
  {
    if count > 0 {
      EventsUpToBounded(files, outs, outcomes, count - 1);
    }
  }

  // ---------------------------------------------------------------------
  // get_dropped_file_path

  /** Whether a picked path is the dropped file: its last '/'-piece equals
      `name`. The '\\' alternative is only consulted when splitting at '/'
      yields no piece. */
  function PickedMatches(path: string, name: string): bool
  {
    var last := match Last(Split(path, {'/'}))
      case Some(piece) => Some(piece)
      case None => Last(Split(path, {'\\'}));
    match last
    case Some(piece) => piece == name
    case None => false
  }

  /** The '\\' alternative is never used: a path matches exactly when the
      text after its last '/' is `name`, and a path without '/' is compared
      as a whole. */
  lemma PickedMatchesLastPiece(path: string, name: string)
    ensures PickedMatches(path, name) <==> LastPiece(path, {'/'}) == name
    ensures FreeOf(path, {'/'}) ==> (PickedMatches(path, name) <==> path == name)
  {
    LastOfSplit(path, {'/'});
    SplitSingle(path, {'/'});
    SplitLast(path, {'/'});
  }

  /** The position of the first picked path that matches `name`. */
  function FirstMatch(paths: seq<string>, name: string): (r: Option<nat>)
    ensures r.Some? ==> r.value < |paths| && PickedMatches(paths[r.value], name)
    ensures r.Some? ==> forall i :: 0 <= i < r.value ==> !PickedMatches(paths[i], name)
    ensures r.None? ==> forall i :: 0 <= i < |paths| ==> !PickedMatches(paths[i], name)
  {
    if paths == [] then None
    else if PickedMatches(paths[0], name) then Some(0)
    else match FirstMatch(paths[1..], name)
      case None => None
      case Some(i) => Some(i + 1)
  }

  const NoFileSelected := "No file selected"

  /** `get_dropped_file_path`, given what the file dialog returned (`None`
      when it was cancelled): the first picked path matching `name`, else
      the first picked path, else an error. */
  function DroppedFilePath(picked: Option<seq<string>>, name: string): (r: Result<string, string>)
    ensures r.Err? <==> picked.None? || picked.value == []
    ensures r.Err? ==> r.error == NoFileSelected
    ensures r.Ok? ==> r.value in picked.value
  {
    match picked
    case None => Err(NoFileSelected)
    case Some(paths) =>
      match FirstMatch(paths, name)
      case Some(i) => Ok(paths[i])
      case None => if |paths| > 0 then Ok(paths[0]) else Err(NoFileSelected)
  }

  /** The first matching path wins over later ones and over the fallback. */
  lemma DroppedFilePathPrefersFirstMatch(paths: seq<string>, name: string, i: nat)
    requires i < |paths| && PickedMatches(paths[i], name)
    requires forall j :: 0 <= j < i ==> !PickedMatches(paths[j], name)
    ensures DroppedFilePath(Some(paths), name) == Ok(paths[i])
  {
  }

  /** With no matching path the first picked path is returned. */
  lemma DroppedFilePathFallsBackToFirst(paths: seq<string>, name: string)
    requires |paths| > 0
    requires forall j :: 0 <= j < |paths| ==> !PickedMatches(paths[j], name)
    ensures DroppedFilePath(Some(paths), name) == Ok(paths[0])
  {
  }
}
