/** The front end's file queue as values: the `ConversionFile` record and
    every list transformation the App component's handlers and effects
    compute from the current list (add, remove, merge a progress event,
    reset for a batch, clear completed, the aggregates shown on screen). */
module Queue {
  import opened Wrappers
  import opened Strings
  import opened Sequences
  import opened Wire

  // ---------------------------------------------------------------------
  // Status

  /** A queue entry's status. The listener stores the event's status string
      with an unchecked cast, so a string outside the four known names is
      kept as it came. `Unrecognised` is only ever built from such a string
      (see `StatusFromWire`): an `Unrecognised` value holding one of the four
      names would compare differently from the source's string comparisons,
      but no operation of the model produces one. */
  datatype Status = Pending | Converting | Completed | Error | Unrecognised(raw: string)

  /** The four status names the interface declares. */
  predicate KnownStatusName(name: string)
  {
    name == "pending" || name == "converting" || name == "completed" || name == "error"
  }

  /** The string a status is written as. */
  function StatusName(status: Status): string
  {
    match status
    case Pending => "pending"
    case Converting => "converting"
    case Completed => "completed"
    case Error => "error"
    case Unrecognised(raw) => raw
  }

  /** A status as read from an event's `status` string. Reading loses
      nothing: the status is written back as the same string. */
  function StatusFromWire(name: string): (status: Status)
    ensures StatusName(status) == name
    ensures status.Unrecognised? <==> !KnownStatusName(name)
  {
    if name == "pending" then Pending
    else if name == "converting" then Converting
    else if name == "completed" then Completed
    else if name == "error" then Error
    else Unrecognised(name)
  }

  /** Every status that reading can produce is read back from its name. */
  lemma StatusRoundTrip(status: Status)
    requires status.Unrecognised? ==> !KnownStatusName(status.raw)
    ensures StatusFromWire(StatusName(status)) == status
  {
  }

  // ---------------------------------------------------------------------
  // Entries

  /** One queued file. `path` identifies it; `name` is what the list shows. */
  datatype ConversionFile = ConversionFile(
    path: string,
    name: string,
    outputPath: Option<string>,
    status: Status,
    progress: nat,
    error: Option<string>)

  /** The name shown for a path: the text after its last '/' or '\\', or the
      whole path when that text is empty. */
  function DisplayName(path: string): string
  {
    var last := LastPiece(path, {'/', '\\'});
    if last == [] then path else last
  }

  /** A shown name is a suffix of its path: the whole path when the path
      has no separator or ends with one, and otherwise the non-empty text
      after the last separator, which is shorter than the path. */
  lemma DisplayNameSpec(path: string)
    ensures var name := DisplayName(path);
      |name| <= |path| && name == path[|path| - |name|..] &&
      (FreeOf(path, {'/', '\\'}) ==> name == path) &&
      (|path| > 0 && path[|path| - 1] in {'/', '\\'} ==> name == path) &&
      (|path| > 0 && !FreeOf(path, {'/', '\\'}) && path[|path| - 1] !in {'/', '\\'} ==>
        name != [] && |name| < |path| && FreeOf(name, {'/', '\\'}) && path[|path| - |name| - 1] in {'/', '\\'})
  {
  }

  /** The name of a file inside a directory is the file's own name. */
  lemma DisplayNameInDirectory(dir: string, sep: char, file: string)
    requires sep == '/' || sep == '\\'
    requires file != [] && FreeOf(file, {'/', '\\'})
    ensures DisplayName(dir + [sep] + file) == file
  {
    var path := dir + [sep] + file;
    DisplayNameSpec(path);
    assert path[|path| - |file|..] == file;
    assert path[|path| - |file| - 1] == sep;
  }

  /** The entry `handleFilesAdded` creates for a path. */
  function NewEntry(path: string): ConversionFile
  {
    ConversionFile(path, DisplayName(path), None, Pending, 0, None)
  }

  /** `handleFilesAdded`: one new entry per added path, after the existing
      entries. */
  function Appended(files: seq<ConversionFile>, paths: seq<string>): (r: seq<ConversionFile>)
    ensures |r| == |files| + |paths|
    ensures r[..|files|] == files
    ensures forall i :: 0 <= i < |paths| ==>
      r[|files| + i].path == paths[i] && r[|files| + i].status == Pending &&
      r[|files| + i].progress == 0 && r[|files| + i].name == DisplayName(paths[i]) &&
      r[|files| + i].outputPath == None && r[|files| + i].error == None
  {
    files + seq(|paths|, i requires 0 <= i < |paths| => NewEntry(paths[i]))
  }

  /** Adding in two steps is adding everything at once. */
  lemma AppendedTwice(files: seq<ConversionFile>, first: seq<string>, second: seq<string>)
    ensures Appended(Appended(files, first), second) == Appended(files, first + second)
  {
    var once := Appended(files, first + second);
    var twice := Appended(Appended(files, first), second);
    forall i | 0 <= i < |once|
      ensures twice[i] == once[i]
    {
      if i < |files| {
        assert twice[i] == files[i];
      } else if i < |files| + |first| {
        assert twice[i] == NewEntry(first[i - |files|]);
      } else {
        assert twice[i] == NewEntry(second[i - |files| - |first|]);
      }
    }
  }

  /** The filter `handleRemoveFile` applies: every entry except the one at
      `index`, with the rest in order; an index outside the list removes
      nothing. */
  function Removed(files: seq<ConversionFile>, index: int): (r: seq<ConversionFile>)
    ensures 0 <= index < |files| ==> r == files[..index] + files[index + 1..] && |r| == |files| - 1
    ensures !(0 <= index < |files|) ==> r == files
  {
    WithoutIndexSlices(files, index, 0);
    WithoutIndex(files, index, 0)
  }

  // ---------------------------------------------------------------------
  // Progress events

  /** What the listener does to a matching entry: it takes the event's
      output path, progress, status and error, clearing what the event
      leaves out, and keeps the path and the name. */
  function Apply(f: ConversionFile, e: ConversionProgress): (g: ConversionFile)
    ensures g.path == f.path && g.name == f.name
    ensures g.outputPath == e.outputPath && g.progress == e.progress && g.error == e.error
    ensures StatusName(g.status) == e.status
  {
    f.(outputPath := e.outputPath, progress := e.progress, status := StatusFromWire(e.status), error := e.error)
  }

  /** The listener's update for one event: every entry whose path is the
      event's file path is overwritten, every other entry is kept. */
  function Merged(files: seq<ConversionFile>, e: ConversionProgress): (r: seq<ConversionFile>)
    ensures |r| == |files|
    ensures forall i :: 0 <= i < |files| ==>
      r[i] == if files[i].path == e.filePath then Apply(files[i], e) else files[i]
  {
    seq(|files|, i requires 0 <= i < |files| =>
      if files[i].path == e.filePath then Apply(files[i], e) else files[i])
  }

  /** Merging never changes which files are queued, or their names. */
  lemma MergedKeepsIdentity(files: seq<ConversionFile>, e: ConversionProgress)
    ensures var r := Merged(files, e);
      |r| == |files| && forall i :: 0 <= i < |files| ==> r[i].path == files[i].path && r[i].name == files[i].name
  {
  }

  /** An event for a path that is not queued changes nothing. */
  lemma MergedUnknownPath(files: seq<ConversionFile>, e: ConversionProgress)
    requires forall i :: 0 <= i < |files| ==> files[i].path != e.filePath
    ensures Merged(files, e) == files
  {
  }

  /** A second event for the same path replaces the first one entirely:
      the last write wins. */
  lemma MergedLastWins(files: seq<ConversionFile>, e1: ConversionProgress, e2: ConversionProgress)
    requires e1.filePath == e2.filePath
    ensures Merged(Merged(files, e1), e2) == Merged(files, e2)
  {
  }

  /** Receiving the same event twice is receiving it once. */
  lemma MergedIdempotent(files: seq<ConversionFile>, e: ConversionProgress)
    ensures Merged(Merged(files, e), e) == Merged(files, e)
  {
    MergedLastWins(files, e, e);
  }

  /** Events for different paths can arrive in either order. */
  lemma MergedCommute(files: seq<ConversionFile>, e1: ConversionProgress, e2: ConversionProgress)
    requires e1.filePath != e2.filePath
    ensures Merged(Merged(files, e1), e2) == Merged(Merged(files, e2), e1)
  {
  }

  /** The queue after the listener has handled `events`, in order. */
  function FoldEvents(files: seq<ConversionFile>, events: seq<ConversionProgress>): (r: seq<ConversionFile>)
    ensures |r| == |files|
    ensures forall i :: 0 <= i < |files| ==> r[i].path == files[i].path && r[i].name == files[i].name
  {
    if events == [] then files
    else Merged(FoldEvents(files, events[..|events| - 1]), events[|events| - 1])
  }

  /** Handling one more event is merging it into the queue so far. */
  lemma FoldEventsSnoc(files: seq<ConversionFile>, events: seq<ConversionProgress>, e: ConversionProgress)
    ensures FoldEvents(files, events + [e]) == Merged(FoldEvents(files, events), e)
  {
    assert (events + [e])[..|events|] == events;
  }

  /** Each entry ends as the last event for its path left it, or as it was
      when no event names its path. */
  lemma {:induction false} FoldEventsAt(files: seq<ConversionFile>, events: seq<ConversionProgress>, k: nat)
    requires k < |files|
    ensures FoldEvents(files, events)[k] ==
      match LastIndexOf(EventPaths(events), files[k].path)
      case None => files[k]
      case Some(n) => Apply(files[k], events[n])
  {
    if events != [] {
      var prefix := events[..|events| - 1];
      var last := events[|events| - 1];
      FoldEventsAt(files, prefix, k);
      var paths := EventPaths(events);
      assert EventPaths(prefix) == paths[..|paths| - 1];
      LastIndexBelowPrefix(paths, files[k].path, |paths| - 1);
    }
  }

  /** The file path of every event, in order. */
  function EventPaths(events: seq<ConversionProgress>): (paths: seq<string>)
    ensures |paths| == |events|
    ensures forall n :: 0 <= n < |events| ==> paths[n] == events[n].filePath
  {
    seq(|events|, n requires 0 <= n < |events| => events[n].filePath)
  }

  // ---------------------------------------------------------------------
  // Starting a batch

  /** The reset `handleConvert` applies before dispatching: every entry
      pending with progress 0, everything else about it kept. */
  function ResetForBatch(files: seq<ConversionFile>): (r: seq<ConversionFile>)
    ensures |r| == |files|
    ensures forall i :: 0 <= i < |files| ==>
      r[i] == files[i].(status := Pending, progress := 0)
  {
    seq(|files|, i requires 0 <= i < |files| => files[i].(status := Pending, progress := 0))
  }

  /** The paths `handleConvert` dispatches: every entry's path, in queue
      order, completed entries included. */
  function DispatchPaths(files: seq<ConversionFile>): (paths: seq<string>)
    ensures |paths| == |files|
    ensures forall i :: 0 <= i < |files| ==> paths[i] == files[i].path
  {
    seq(|files|, i requires 0 <= i < |files| => files[i].path)
  }

  /** Resetting keeps the dispatched paths. */
  lemma ResetKeepsPaths(files: seq<ConversionFile>)
    ensures DispatchPaths(ResetForBatch(files)) == DispatchPaths(files)
  {
  }

  /** The output directory `handleConvert` sends: none for the empty
      string. */
  function DispatchDir(outputDir: string): (dir: Option<string>)
    ensures dir.None? <==> outputDir == ""
    ensures dir.Some? ==> dir.value == outputDir
  {
    if outputDir == "" then None else Some(outputDir)
  }

  // ---------------------------------------------------------------------
  // Clearing completed entries and counting

  predicate IsCompleted(f: ConversionFile)
  {
    f.status == Completed
  }

  predicate IsError(f: ConversionFile)
  {
    f.status == Error
  }

  predicate NotCompleted(f: ConversionFile)
  {
    f.status != Completed
  }

  /** The filter `handleClearCompleted` applies. */
  function ClearedCompleted(files: seq<ConversionFile>): seq<ConversionFile>
  {
    Filter(files, NotCompleted)
  }

  /** Clearing removes exactly the completed entries: none is left, every
      other entry stays as often as it was queued, and the count drops by
      the number of completed entries. */
  lemma ClearedCompletedSpec(files: seq<ConversionFile>)
    ensures var r := ClearedCompleted(files);
      (forall i :: 0 <= i < |r| ==> r[i].status != Completed) &&
      (forall f :: f in files && f.status != Completed ==> f in r) &&
      (forall f :: f in r ==> f in files) &&
      |r| == |files| - CompletedCount(files)
  {
    var r := ClearedCompleted(files);
    forall f | true
      ensures f in r <==> f in files && NotCompleted(f)
    {
      FilterMembers(files, NotCompleted, f);
    }
    forall i | 0 <= i < |r|
      ensures r[i].status != Completed
    {
      assert r[i] in r;
    }
    FilterDisjointLength(files, IsCompleted, NotCompleted);
  }

  /** Clearing keeps each remaining entry's multiplicity. */
  lemma ClearedCompletedMultiset(files: seq<ConversionFile>, f: ConversionFile)
    ensures multiset(ClearedCompleted(files))[f] == if f.status == Completed then 0 else multiset(files)[f]
  {
    FilterMultiset(files, NotCompleted, f);
  }

  /** Clearing keeps the order of what remains: it clears each part of a
      queue separately. */
  lemma ClearedCompletedOrder(front: seq<ConversionFile>, back: seq<ConversionFile>)
    ensures ClearedCompleted(front + back) == ClearedCompleted(front) + ClearedCompleted(back)
  {
    FilterConcat(front, back, NotCompleted);
  }

  /** Clearing twice is clearing once. */
  lemma ClearedCompletedIdempotent(files: seq<ConversionFile>)
    ensures ClearedCompleted(ClearedCompleted(files)) == ClearedCompleted(files)
  {
    FilterIdempotent(files, NotCompleted);
  }

  /** `completedCount`. */
  function CompletedCount(files: seq<ConversionFile>): nat
  {
    |Filter(files, IsCompleted)|
  }

  /** `errorCount`. */
  function ErrorCount(files: seq<ConversionFile>): nat
  {
    |Filter(files, IsError)|
  }

  /** The number on the convert button's label. */
  function RemainingCount(files: seq<ConversionFile>): nat
  {
    |Filter(files, NotCompleted)|
  }

  /** No entry is counted both as completed and as failed. */
  lemma CountsBounded(files: seq<ConversionFile>)
    ensures CompletedCount(files) + ErrorCount(files) <= |files|
  {
    FilterDisjointLength(files, IsCompleted, IsError);
  }

  /** Every entry is either completed or counted on the button. */
  lemma CountsPartition(files: seq<ConversionFile>)
    ensures CompletedCount(files) + RemainingCount(files) == |files|
  {
    FilterDisjointLength(files, IsCompleted, NotCompleted);
  }

  /** `files.every(f => f.status === 'completed')`; true of the empty list. */
  predicate AllCompleted(files: seq<ConversionFile>)
  {
    forall i :: 0 <= i < |files| ==> files[i].status == Completed
  }

  /** The convert button's `disabled` condition. */
  predicate ConvertDisabled(isConverting: bool, files: seq<ConversionFile>)
  {
    isConverting || AllCompleted(files)
  }

  /** The button is disabled exactly while converting or when the label
      would count no file. */
  lemma ConvertDisabledIff(isConverting: bool, files: seq<ConversionFile>)
    ensures ConvertDisabled(isConverting, files) <==> isConverting || RemainingCount(files) == 0
  {
    var rest := Filter(files, NotCompleted);
    if AllCompleted(files) && |rest| > 0 {
      FilterMembers(files, NotCompleted, rest[0]);
    }
    if !AllCompleted(files) {
      var i :| 0 <= i < |files| && files[i].status != Completed;
      FilterMembers(files, NotCompleted, files[i]);
    }
  }

  // ---------------------------------------------------------------------
  // Overall progress

  /** `files.reduce((sum, f) => sum + f.progress, 0)`. */
  function TotalProgress(files: seq<ConversionFile>): nat
  {
    if files == [] then 0 else TotalProgress(files[..|files| - 1]) + files[|files| - 1].progress
  }

  /** The overall-progress effect: 0 for an empty queue, otherwise the
      mean progress, whose `|files|` copies add up to the total. */
  function OverallProgress(files: seq<ConversionFile>): (mean: real)
    ensures |files| == 0 ==> mean == 0.0
    ensures |files| > 0 ==> mean * (|files| as real) == TotalProgress(files) as real
  {
    if |files| == 0 then 0.0 else TotalProgress(files) as real / |files| as real
  }

  /** Progress values in [0, 100] add up to at most 100 per entry. */
  lemma {:induction false} TotalProgressBounded(files: seq<ConversionFile>)
    requires forall i :: 0 <= i < |files| ==> files[i].progress <= 100
    ensures TotalProgress(files) <= 100 * |files|
  {
    if files != [] {
      TotalProgressBounded(files[..|files| - 1]);
    }
  }

  /** When every entry's progress is in [0, 100], so is the overall
      progress. */
  lemma OverallProgressBounded(files: seq<ConversionFile>)
    requires forall i :: 0 <= i < |files| ==> files[i].progress <= 100
    ensures 0.0 <= OverallProgress(files) <= 100.0
  {
    if |files| > 0 {
      TotalProgressBounded(files);
      var n := |files| as real;
      var mean := OverallProgress(files);
      assert mean * n == TotalProgress(files) as real;
      assert TotalProgress(files) as real <= (100 * |files|) as real == 100.0 * n;
      ScaleBounds(mean, n, 100.0);
    }
  }

  /** A number whose `n`-fold lies in [0, `n` * `bound`] lies in
      [0, `bound`]. */
  lemma ScaleBounds(x: real, n: real, bound: real)
    requires n > 0.0 && 0.0 <= x * n <= bound * n
    ensures 0.0 <= x <= bound
  {
  }
}
