# Docx2PDF converter: the conversion queue, the batch driver and the progress bar

The application is a desktop wrapper around LibreOffice. It has two halves.

- **The React front end** (`src/App.tsx`) keeps a queue of `ConversionFile` records plus a few flags. Users add paths, remove entries, clear completed entries and start a batch. The component listens for `conversion-progress` events and merges each one into every entry with the same path. It shows the mean progress through `ProgressBar`, which clamps its input to [0, 100].
- **The Tauri back end** (`src-tauri/src/main.rs`) receives a batch in `convert_batch`. For each file in order it does three things: derives an output path (`<dir>/<stem>.pdf` or `<parent>/<stem>.pdf`), emits a "converting" event, and then emits "completed" or "error" depending on what LibreOffice reported. `get_dropped_file_path` picks one path from a file dialog's answer by comparing its last `/`-segment with a name.

The model, one module per concern:

- `Wrappers`: the `Option` and `Result` types.
- `Strings`: splitting at separator characters, as `split(/[\\/]/)` and `str::split` do.
- `Sequences`: `filter` by value and by index, and last-occurrence search.
- `Wire`: the `ConversionProgress` event and the `convert_batch` arguments.
- `RustPath`: the Unix behaviour of `Path::file_name`, `file_stem` and `parent`.
- `Backend`: output paths, the batch loop as a method whose event log is tied to a specification function, and the dialog path choice.
- `Queue`: every list transformation of the App component, as pure functions with lemmas.
- `App`: the component's state as a class whose methods are the handlers.
- `EndToEnd`: a whole batch folded into the queue.
- `ProgressBar`: the clamp.

The LibreOffice conversion is modelled as an oracle `outcomes: nat -> ConvertOutcome`, indexed by a file's position in the batch. Results of host calls the front end awaits are modelled as method parameters, with `None` standing for a failed call.

## Model

| member | source | states |
|---|---|---|
| Strings.Split | src-tauri/src/main.rs:67-69 | Splitting always yields at least one piece, so `.last()` on a split never comes back empty |
| Strings.SplitPiecesFree | src-tauri/src/main.rs:67-68 | No piece of a split contains a separator |
| Strings.SplitSingle | src/App.tsx:97 | A string splits into exactly one piece if and only if it contains no separator |
| Strings.SplitFirst | src-tauri/src/main.rs:115-116 | The first piece is the longest separator-free prefix, and a separator follows it when it is not the whole string |
| Strings.SplitLast | src/App.tsx:97 | The last piece is the longest separator-free suffix, and a separator precedes it when it is not the whole string |
| Strings.JoinSplit | src-tauri/src/main.rs:116 | Joining the pieces of a split at one separator gives back the original string, so a parent made of joined pieces is the path as written |
| Strings.LastPiece | src/App.tsx:97 | `split(...).pop()` is a suffix of the string, holds no separator, and is preceded by a separator unless it is the whole string |
| Strings.LastOfSplit | src-tauri/src/main.rs:67-69 | `.last()` of a split never comes back `None`: it is always the text after the last separator |
| Sequences.Filter | src/App.tsx:152 | Filtering never lengthens a list |
| Sequences.FilterMembers | src/App.tsx:152 | An element survives a filter if and only if it occurs in the list and satisfies the predicate |
| Sequences.FilterMultiset | src/App.tsx:152 | A filter keeps every kept element exactly as often as it occurs and drops every other element |
| Sequences.FilterConcat | src/App.tsx:152 | A filter preserves order: filtering a concatenation is concatenating the filtered parts |
| Sequences.FilterIdempotent | src/App.tsx:152 | Filtering twice with one predicate is filtering once |
| Sequences.FilterDisjointLength | src/App.tsx:156-157 | Two predicates that never hold together select at most the list's length between them, and exactly that length when every element satisfies one of them |
| Sequences.WithoutIndexSlices | src/App.tsx:107 | `filter((_, i) => i !== index)` is the list cut around `index`; an index outside the list drops nothing |
| Sequences.LastIndexOf | src-tauri/src/main.rs:110 | The result is the position of the last occurrence, with no occurrence after it; `None` means there is no occurrence |
| Sequences.LastIndexBelow | src/App.tsx:39-50 | The last occurrence below a bound, with no occurrence between it and the bound; `None` means none below the bound |
| Sequences.LastIndexBelowPrefix | src/App.tsx:39-50 | Searching below a bound is searching the prefix up to that bound |
| RustPath.LastSignificant | src-tauri/src/main.rs:116 | The index found for the last component lies in the searched range |
| RustPath.LastSignificantSpec | src-tauri/src/main.rs:116 | The search finds a component with no component after it, or reports that the range holds none |
| RustPath.FileStem | src-tauri/src/main.rs:110 | `file_stem` is `Some` exactly when `file_name` is, and its value is then the stem of the file name |
| RustPath.StemDropsLastExtension | src-tauri/src/main.rs:110 | A name `base.ext`, with `base` non-empty and `ext` free of '.', has stem `base`: only the last extension is dropped |
| RustPath.StemWithoutExtension | src-tauri/src/main.rs:110 | A name with no '.' after its first character is its own stem |
| RustPath.PiecesAround | src-tauri/src/main.rs:115-116 | The pieces of `a/b` are the pieces of `a` followed by the pieces of `b` |
| RustPath.HasRootIff | src-tauri/src/main.rs:115-116 | A path is rooted exactly when it starts with '/' |
| RustPath.ParentNoneIff | src-tauri/src/main.rs:116 | `parent()` is `None`, and the "." fallback is taken, exactly for a path that is empty or starts with '/' and has no component |
| RustPath.NoParentNoFileName | src-tauri/src/main.rs:116-120 | A path without a parent has no file name either |
| RustPath.FileNameIsLastPiece | src-tauri/src/main.rs:109-110 | When the text after the last '/' is a normal component, that text is the file name |
| RustPath.ParentOfChild | src-tauri/src/main.rs:115-116 | For `dir/name` with `dir` ending in a normal component, the parent is `dir` exactly as written and the file name is `name` |
| RustPath.ParentOfBareName | src-tauri/src/main.rs:115-116 | A bare relative name has the empty string as its parent and itself as its file name |
| RustPath.ParentOfRootChild | src-tauri/src/main.rs:115-116 | A name directly under the root has "/" as its parent |
| RustPath.TrailingSeparatorSkipped | src-tauri/src/main.rs:115-118 | A trailing '/' is skipped: `dir/name/` still has parent `dir`, as written, and file name `name` |
| RustPath.ParentReferenceHasNoFileName | src-tauri/src/main.rs:109-112 | A path whose text after the last '/' is ".." has no file name |
| Backend.OutputPathInDirectory | src-tauri/src/main.rs:107-113 | With an output directory `dir`, the PDF is `dir + "/" + stem + ".pdf"`, where `stem` is the stem of the file name. It is `dir + "/output.pdf"` when the input has no file name. `dir` is used unnormalised |
| Backend.OutputPathInDirectoryByLastPiece | src-tauri/src/main.rs:107-113 | When the text after the last '/' is a normal component, its stem names the PDF in the output directory |
| Backend.OutputPathTrailingSeparator | src-tauri/src/main.rs:114-122 | Without an output directory, the PDF of `dir/name/` goes in `dir` under the stem of `name`: the trailing '/' is skipped |
| Backend.OutputPathOfParentReference | src-tauri/src/main.rs:107-113 | An input ending in ".." has no file name, so its PDF is "output.pdf" in the output directory |
| Backend.OutputPathBesideInput | src-tauri/src/main.rs:114-122 | Without an output directory, the PDF of `dir/name` is placed in `dir` as written, under the same stem |
| Backend.OutputPathOfBareName | src-tauri/src/main.rs:114-122 | A bare relative name such as `report.docx` gets its PDF at `/report.pdf`, because its parent is empty |
| Backend.OutputPathOfRootChild | src-tauri/src/main.rs:114-122 | A file directly under the root gets a doubled separator: `/a.docx` becomes `//a.pdf` |
| Backend.OutputPathWithoutParent | src-tauri/src/main.rs:116-121 | The "." and "output" fallbacks meet only at a path with no parent, which yields `./output.pdf` |
| Backend.ProgressAt | src-tauri/src/main.rs:104 | The start progress `p` of file `i` of `n` is `i * 100 / n` rounded down, i.e. `p * n <= i * 100 < (p + 1) * n`. It is below 100, and 0 for the first file |
| Backend.ProgressAtMonotonic | src-tauri/src/main.rs:104 | A later file never starts at a lower progress than an earlier one |
| Backend.OutputPaths | src-tauri/src/main.rs:107-122 | One output path per file of the batch, derived from that file alone |
| Backend.ConvertBatch | src-tauri/src/main.rs:94-166 | The loop emits exactly the batch's specified event sequence, and the command returns `Ok(())` whatever the per-file outcomes |
| Backend.BatchEventLayout | src-tauri/src/main.rs:103-162 | The events for the first `count` files number `2 * count`; file `i`'s start and terminal events sit at positions `2i` and `2i+1` |
| Backend.EventsUpToLength | src-tauri/src/main.rs:103-162 | Each file adds exactly two events |
| Backend.BatchEventPattern | src-tauri/src/main.rs:124-162 | For a batch of n files, exactly 2n events are emitted. File `i`'s pair is first "converting" (its output path, its start progress, no error), then either "completed" (100, the same path) or "error" (0, no path, the message) |
| Backend.BatchEventsBounded | src-tauri/src/main.rs:103-162 | Every emitted event names a file of the batch and carries a progress of at most 100 |
| Backend.EventsUpToBounded | src-tauri/src/main.rs:103-162 | Every event for a prefix of the batch names a batch file and carries a progress of at most 100 |
| Backend.PickedMatchesLastPiece | src-tauri/src/main.rs:67-72 | The '\\' alternative is never used: a path matches exactly when the text after its last '/' equals the name, and a path without '/' is compared whole |
| Backend.FirstMatch | src-tauri/src/main.rs:65-73 | `find` returns a matching path with no match before it, or reports that none matches |
| Backend.DroppedFilePath | src-tauri/src/main.rs:63-82 | The result is an error ("No file selected") exactly when the dialog was cancelled or returned nothing; otherwise it is one of the picked paths |
| Backend.DroppedFilePathPrefersFirstMatch | src-tauri/src/main.rs:65-74 | The first path whose last segment equals the name is chosen |
| Backend.DroppedFilePathFallsBackToFirst | src-tauri/src/main.rs:75-76 | With no matching path, the first picked path is chosen |
| Queue.StatusFromWire | src/App.tsx:45 | The status read from an event writes back as the same string; it is unrecognised exactly when the string is not one of the four declared names |
| Queue.StatusRoundTrip | src/App.tsx:45 | Every readable status is read back from its own name |
| Queue.DisplayNameSpec | src/App.tsx:97 | The name is a suffix of the path. It is the whole path when the path has no '/' or '\\' or ends with one. When the path has a separator and does not end with one, the name is the non-empty, separator-free text after the last separator, shorter than the path |
| Queue.DisplayNameInDirectory | src/App.tsx:97 | A file inside a directory, under either separator, is shown by its own name |
| Queue.Appended | src/App.tsx:94-103 | Adding n paths appends exactly n entries. Existing entries are unchanged and in order. Each new entry has its path, its display name, "pending", 0, no output path and no error |
| Queue.AppendedTwice | src/App.tsx:102 | Adding in two steps is adding everything at once |
| Queue.Removed | src/App.tsx:107 | An index in range removes exactly that entry and keeps the rest in order; an index out of range changes nothing |
| Queue.Apply | src/App.tsx:41-47 | A matched entry keeps its path and name, and takes the event's output path, progress, status and error, with absent fields cleared |
| Queue.Merged | src/App.tsx:39-50 | The length is unchanged. Every entry with the event's path is overwritten by it, and every other entry is kept |
| Queue.MergedKeepsIdentity | src/App.tsx:39-50 | Merging never changes the length, or any entry's path or name |
| Queue.MergedUnknownPath | src/App.tsx:39-50 | An event for a path not in the queue changes nothing |
| Queue.MergedLastWins | src/App.tsx:39-50 | A second event for the same path replaces the first entirely |
| Queue.MergedIdempotent | src/App.tsx:39-50 | Receiving the same event twice is receiving it once |
| Queue.MergedCommute | src/App.tsx:39-50 | Events for different paths can be handled in either order |
| Queue.FoldEvents | src/App.tsx:36-51 | Handling a sequence of events keeps the length, and every entry's path and name |
| Queue.FoldEventsSnoc | src/App.tsx:36-51 | Handling one more event is merging it into the queue so far |
| Queue.FoldEventsAt | src/App.tsx:39-50 | Each entry ends as the last event for its path left it, or unchanged when no event names its path |
| Queue.ResetForBatch | src/App.tsx:135 | The reset sets every entry to "pending" with progress 0, keeps its path, name, output path and error, and keeps the length |
| Queue.DispatchPaths | src/App.tsx:139 | Every entry's path is dispatched, in queue order, completed entries included |
| Queue.ResetKeepsPaths | src/App.tsx:135-139 | Resetting does not change the dispatched paths |
| Queue.DispatchDir | src/App.tsx:140 | An empty output directory is sent as null, and any other is sent as it is |
| Queue.ClearedCompletedSpec | src/App.tsx:152 | Clearing removes exactly the completed entries: none is left, every other entry stays, nothing new appears, and the length drops by the completed count |
| Queue.ClearedCompletedMultiset | src/App.tsx:152 | Each remaining entry is kept as often as it was queued |
| Queue.ClearedCompletedOrder | src/App.tsx:152 | Clearing keeps the order of what remains |
| Queue.ClearedCompletedIdempotent | src/App.tsx:152 | Clearing twice is clearing once |
| Queue.CountsBounded | src/App.tsx:156-157 | `completedCount + errorCount` never exceeds the queue's length |
| Queue.CountsPartition | src/App.tsx:341 | The button's count of non-completed entries and the completed count add up to the queue's length |
| Queue.ConvertDisabledIff | src/App.tsx:322 | The convert button is disabled exactly while converting or when no non-completed entry is left to count |
| Queue.OverallProgress | src/App.tsx:62-70 | The overall progress is 0 for an empty queue, and otherwise a mean whose count-fold equals the total progress |
| Queue.TotalProgressBounded | src/App.tsx:67 | With every progress at most 100, the total is at most 100 per entry |
| Queue.OverallProgressBounded | src/App.tsx:62-70 | With every entry's progress in [0, 100], the overall progress is in [0, 100] |
| App.App.constructor | src/App.tsx:27-32 | The initial state: empty queue, no output directory, not converting, overall progress 0, availability unknown, check under way |
| App.App.RecomputeProgress | src/App.tsx:62-70 | The effect re-establishes that the shown progress is the queue's overall progress |
| App.App.OnProgress | src/App.tsx:36-51 | The listener merges the event into the queue and keeps the shown progress in step |
| App.App.AddFiles | src/App.tsx:94-103 | The new queue is the old one with the added entries appended |
| App.App.RemoveFile | src/App.tsx:105-109 | While converting nothing changes; otherwise the entry at the index is removed |
| App.App.StartConvert | src/App.tsx:128-141 | With an empty queue or a batch in flight nothing changes and nothing is sent. Otherwise the flag is set, every entry is reset, and a request is sent with every path and the output directory, empty meaning null |
| App.App.ConvertSettled | src/App.tsx:145-147 | The converting flag is cleared, on success and failure alike |
| App.App.ClearCompleted | src/App.tsx:150-154 | While converting nothing changes; otherwise the completed entries are cleared |
| App.App.ReceiveOutputDir | src/App.tsx:85-126 | The answer of the Downloads lookup (lines 85-92) or of the directory dialog (lines 119-126) becomes the output directory; a failed call leaves it unchanged |
| App.App.BeginLibreOfficeCheck | src/App.tsx:72-73 | The check is marked as under way |
| App.App.LibreOfficeChecked | src/App.tsx:74-82 | The answer is recorded, a failed check counting as unavailable, and the check is over |
| App.App.DeliverEvents | src/App.tsx:36-51 | After events are delivered one by one, the queue is their fold and the shown progress is in step |
| App.App.Convert | src/App.tsx:128-148 | After a whole conversion, the flag is down and the queue is the reset queue with every event of the back end's batch folded in |
| EndToEnd.FoldBatchUpTo | src/App.tsx:39-50 | Folding the events for the first `count` files leaves each entry as the terminal event of the last of those files with its path set it, or untouched |
| EndToEnd.BatchEntry | src/App.tsx:128-148 | After a batch, every entry is the reset entry updated by the terminal event of the last batch file with its path |
| EndToEnd.BatchSettlesEntry | src-tauri/src/main.rs:137-161 | After a batch each entry keeps its path and name, and the length is kept. A converted entry is "completed" with 100, its output path and no error. A failed entry is "error" with 0, no output path and the message |
| EndToEnd.BatchLeavesNothingPending | src/App.tsx:156-157 | After a batch, the completed and error counts add up to the queue's length |
| ProgressBar.Clamp | src/components/ProgressBar.tsx:6 | The clamped value is in [0, 100]. It equals the input inside that range, is 0 below it and is 100 above it |
| ProgressBar.ClampIdempotent | src/components/ProgressBar.tsx:6 | Clamping twice is clamping once |
| ProgressBar.ClampMonotonic | src/components/ProgressBar.tsx:6 | More progress never shows as less |
| ProgressBar.Render | src/components/ProgressBar.tsx:12-17 | The label and the bar width both come from the clamped value, never the raw one, and stay within [0, 100] |
| ProgressBar.OverallProgressShownAsIs | src/App.tsx:310 | When every entry's progress is in [0, 100], the overall progress is shown unclamped |

## Left out

- `src-tauri/src/libreoffice.rs` is not part of this model. It covers locating, extracting and running LibreOffice through processes and the filesystem. `convert_file` appears only through its outcome, a per-position oracle.
- `select_files`, `select_output_directory`, `open_pdf` and `check_for_updates` are dialog, opener and HTTP calls and are not modelled. What the dialogs return reaches the model as a parameter:
  - the answer of the dialog that `get_dropped_file_path` opens itself is `picked` of `Backend.DroppedFilePath`;
  - the answer of `select_files` is `paths` of `App.App.AddFiles`;
  - the answer of `select_output_directory` is `answer` of `App.App.ReceiveOutputDir`.
- The front end awaits `check_libreoffice` and `get_downloads_folder`, but the back end does not register either command. Their answers are inputs to `App.App.LibreOfficeChecked` and `App.App.ReceiveOutputDir`, with `None` standing for the call failing.
- Concurrency is not modelled:
  - the Mutex that serialises batches;
  - the asynchronous `listen`/`unlisten` lifecycle;
  - React's batching of state updates.
  
  Each handler and each event is one atomic step. `App.App.Convert` delivers a batch's events after the batch has run, so events do not interleave with other handlers.
- Every `app.emit` result is discarded, so a failed emit goes unnoticed. The model appends every event to the log. `App.App.Convert` and `EndToEnd.BatchSettlesEntry` assume every emitted event reaches the listener: delivery is lossless and in order.
- Backend.ProgressAt: the start progress is the exact floor of `index * 100 / total`; the `f32` division and its rounding before the `as u32` cast are not modelled.
- Queue.OverallProgress: the mean is a real number, not a JavaScript double, so rounding and NaN are not modelled. `Math.round` in the labels is left out too.
- Paths follow Unix `std::path` semantics over '/'. Windows prefixes and '\\' as a separator in the back end are not modelled, and neither is the non-UTF-8 case of `to_str`, which on Unix cannot arise from a `String`.
- `src/components/DropZone.tsx` and `src/components/FileList.tsx` are not part of this model. They hold drag state and rendering; their `.docx` filter and status labels are presentational.
- The JSX layout, CSS classes and OS-specific installation instructions are not modelled.
- Progress and event values are `nat`. A `u32` never goes negative, and the emitted values stay at or below 100.
