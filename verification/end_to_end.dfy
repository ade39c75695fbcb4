/** What a whole batch does to the queue: the back end's events for the
    dispatched paths, handled one by one by the front end's listener after
    the reset that starts the batch. */
module EndToEnd {
  import opened Wrappers
  import opened Sequences
  import opened Wire
  import opened Backend
  import opened Queue

  /** After a batch over the whole queue, every entry is as the second
      event of the last file of the batch with its path left it. */
  lemma BatchEntry(files: seq<ConversionFile>, outputDir: Option<string>,
                   outcomes: nat -> ConvertOutcome, k: nat)
    requires k < |files|
    ensures var paths := DispatchPaths(files);
      var final := FoldEvents(ResetForBatch(files), BatchEvents(paths, outputDir, outcomes));
      var j := LastIndexOf(paths, files[k].path);
      j.Some? &&
      final[k] == Apply(ResetForBatch(files)[k],
                        TerminalEvent(paths[j.value], OutputPaths(paths, outputDir)[j.value], outcomes(j.value)))
  {
    var paths := DispatchPaths(files);
    var reset := ResetForBatch(files);
    assert paths[k] == files[k].path;
    FoldBatchUpTo(reset, paths, OutputPaths(paths, outputDir), outcomes, |paths|, k);
  }

  /** Folding the events for the first `count` files into a queue leaves
      entry `k` as the terminal event of the last of those files with its
      path left it, or untouched when none has its path. */
  lemma {:induction false} FoldBatchUpTo(r: seq<ConversionFile>, paths: seq<string>, outs: seq<string>,
                                         outcomes: nat -> ConvertOutcome, count: nat, k: nat)
    requires count <= |paths| == |outs| && k < |r|
    ensures FoldEvents(r, EventsUpTo(paths, outs, outcomes, count))[k] ==
      match LastIndexBelow(paths, r[k].path, count)
      case None => r[k]
      case Some(j) => Apply(r[k], TerminalEvent(paths[j], outs[j], outcomes(j)))
  {
    if count > 0 {
      var i := count - 1;
      var prev := EventsUpTo(paths, outs, outcomes, i);
      var start := StartEvent(paths[i], outs[i], ProgressAt(i, |paths|));
      var terminal := TerminalEvent(paths[i], outs[i], outcomes(i));
      FoldEventsSnoc(r, prev + [start], terminal);
      FoldEventsSnoc(r, prev, start);
      FoldBatchUpTo(r, paths, outs, outcomes, i, k);
    }
  }

  /** After a batch over the whole queue, every entry is settled by the
      last file of the batch with its path: "completed" with progress 100,
      the derived output path and no error when that file converted, and
      "error" with progress 0, no output path and the converter's message
      when it failed. Its path and name are unchanged, and so is the
      queue's length. */
  lemma BatchSettlesEntry(files: seq<ConversionFile>, outputDir: Option<string>,
                          outcomes: nat -> ConvertOutcome, k: nat)
    requires k < |files|
    ensures var paths := DispatchPaths(files);
      var final := FoldEvents(ResetForBatch(files), BatchEvents(paths, outputDir, outcomes));
      var j := LastIndexOf(paths, files[k].path);
      j.Some? && |final| == |files| &&
      final[k].path == files[k].path && final[k].name == files[k].name &&
      match outcomes(j.value)
      case Converted =>
        final[k].status == Completed && final[k].progress == 100 &&
        final[k].outputPath == Some(OutputPath(files[k].path, outputDir)) && final[k].error == None
      case Failed(message) =>
        final[k].status == Error && final[k].progress == 0 &&
        final[k].outputPath == None && final[k].error == Some(message)
  {
    BatchEntry(files, outputDir, outcomes, k);
  }

  /** After a batch nothing is left pending: every entry is counted either
      as completed or as failed. */
  lemma BatchLeavesNothingPending(files: seq<ConversionFile>, outputDir: Option<string>,
                                  outcomes: nat -> ConvertOutcome)
    ensures var final := FoldEvents(ResetForBatch(files), BatchEvents(DispatchPaths(files), outputDir, outcomes));
      CompletedCount(final) + ErrorCount(final) == |files|
  {
    var final := FoldEvents(ResetForBatch(files), BatchEvents(DispatchPaths(files), outputDir, outcomes));
    forall k | 0 <= k < |final|
      ensures IsCompleted(final[k]) || IsError(final[k])
    {
      BatchSettlesEntry(files, outputDir, outcomes, k);
    }
    FilterDisjointLength(final, IsCompleted, IsError);
  }
}
