/** The App component's state and the handlers that change it. Each
    handler, and each delivered progress event, is one atomic step; the
    overall-progress effect runs as part of every step that changes the
    queue. Host calls the component awaits (the LibreOffice check, the
    Downloads folder, the directory dialog, `convert_batch`) are inputs:
    `None` stands for a call that failed. */
module App {
  import opened Wrappers
  import opened Wire
  import opened Queue
  import Backend

  class App {
    var files: seq<ConversionFile>
    var outputDir: string
    var isConverting: bool
    var overallProgress: real
    var libreOfficeAvailable: Option<bool>
    var isCheckingLibreOffice: bool

    /** The shown overall progress is the one computed from the queue. */
    ghost predicate Valid()
      reads this
    {
      overallProgress == OverallProgress(files)
    }

    /** The initial state: an empty queue, no output directory, not
        converting, availability unknown and the check under way. */
    constructor()
      ensures Valid()
      ensures files == [] && outputDir == "" && !isConverting && overallProgress == 0.0
      ensures libreOfficeAvailable == None && isCheckingLibreOffice
    {
      files := [];
      outputDir := "";
      isConverting := false;
      overallProgress := 0.0;
      libreOfficeAvailable := None;
      isCheckingLibreOffice := true;
    }

    /** The overall-progress effect. */
    method RecomputeProgress()
      modifies this`overallProgress
      ensures Valid()
    {
      if |files| == 0 {
        overallProgress := 0.0;
      } else {
        var total := TotalProgress(files);
        overallProgress := total as real / |files| as real;
      }
    }

    /** The `conversion-progress` listener: the event is merged into the
        queue whatever else is going on. */
    method OnProgress(e: ConversionProgress)
      requires Valid()
      modifies this`files, this`overallProgress
      ensures Valid()
      ensures files == Merged(old(files), e)
    {
      files := Merged(files, e);
      RecomputeProgress();
    }

    /** `handleFilesAdded`. */
    method AddFiles(paths: seq<string>)
      requires Valid()
      modifies this`files, this`overallProgress
      ensures Valid()
      ensures files == Appended(old(files), paths)
    {
      files := Appended(files, paths);
      RecomputeProgress();
    }

    /** `handleRemoveFile`: ignored while a batch is converting. */
    method RemoveFile(index: int)
      requires Valid()
      modifies this`files, this`overallProgress
      ensures Valid()
      ensures files == if isConverting then old(files) else Removed(old(files), index)
    {
      if !isConverting {
        files := Removed(files, index);
        RecomputeProgress();
      }
    }

    /** The synchronous part of `handleConvert`: nothing happens for an
        empty queue or while converting; otherwise the component marks
        itself converting, resets every entry and sends the request for
        `convert_batch`. */
    method StartConvert() returns (request: Option<BatchRequest>)
      requires Valid()
      modifies this`files, this`overallProgress, this`isConverting
      ensures Valid()
      ensures old(|files| == 0 || isConverting) ==>
        request.None? && files == old(files) && isConverting == old(isConverting)
      ensures old(|files| > 0 && !isConverting) ==>
        isConverting && files == ResetForBatch(old(files)) &&
        request == Some(BatchRequest(DispatchPaths(old(files)), DispatchDir(outputDir)))
    {
      if |files| == 0 || isConverting {
        return None;
      }
      isConverting := true;
      var paths := DispatchPaths(files);
      files := ResetForBatch(files);
      RecomputeProgress();
      request := Some(BatchRequest(paths, DispatchDir(outputDir)));
    }

    /** The `finally` of `handleConvert`: the flag is cleared whether the
        call succeeded or failed. */
    method ConvertSettled()
      modifies this`isConverting
      ensures !isConverting
    {
      isConverting := false;
    }

    /** `handleClearCompleted`: ignored while a batch is converting. */
    method ClearCompleted()
      requires Valid()
      modifies this`files, this`overallProgress
      ensures Valid()
      ensures files == if isConverting then old(files) else ClearedCompleted(old(files))
    {
      if !isConverting {
        files := ClearedCompleted(files);
        RecomputeProgress();
      }
    }

    /** `handleSelectOutputDir` and `loadDefaultOutputFolder`: the answer
        of the dialog or of the Downloads lookup becomes the output
        directory; a failed call leaves it as it was. */
    method ReceiveOutputDir(answer: Option<string>)
      modifies this`outputDir
      ensures outputDir == if answer.Some? then answer.value else old(outputDir)
    {
      if answer.Some? {
        outputDir := answer.value;
      }
    }

    /** The start of `checkLibreOffice`. */
    method BeginLibreOfficeCheck()
      modifies this`isCheckingLibreOffice
      ensures isCheckingLibreOffice
    {
      isCheckingLibreOffice := true;
    }

    /** The end of `checkLibreOffice`: the answer is recorded, a failed
        check counting as "not available", and the check is over. */
    method LibreOfficeChecked(answer: Option<bool>)
      modifies this`libreOfficeAvailable, this`isCheckingLibreOffice
      ensures libreOfficeAvailable == Some(answer.Some? && answer.value)
      ensures !isCheckingLibreOffice
    {
      if answer.Some? {
        libreOfficeAvailable := Some(answer.value);
      } else {
        libreOfficeAvailable := Some(false);
      }
      isCheckingLibreOffice := false;
    }

    /** The listener handling `events` in the order they were emitted. */
    method DeliverEvents(events: seq<ConversionProgress>)
      requires Valid()
      modifies this`files, this`overallProgress
      ensures Valid()
      ensures files == FoldEvents(old(files), events)
    {
      var n := 0;
      while n < |events|
        invariant n <= |events|
        invariant Valid()
        invariant files == FoldEvents(old(files), events[..n])
      {
        assert events[..n + 1] == events[..n] + [events[n]];
        FoldEventsSnoc(old(files), events[..n], events[n]);
        OnProgress(events[n]);
        n := n + 1;
      }
      assert events[..n] == events;
    }

    /** A whole conversion: `handleConvert` starts a batch, the back end
        converts the dispatched files with the given outcomes, every event
        reaches the listener, and the flag is cleared. Afterwards the queue
        holds the same files, each settled as its last conversion
        reported, and the flag is down. */
    method Convert(outcomes: nat -> Backend.ConvertOutcome)
      requires Valid() && |files| > 0 && !isConverting
      modifies this`files, this`overallProgress, this`isConverting
      ensures Valid() && !isConverting
      ensures files == FoldEvents(ResetForBatch(old(files)),
                                  Backend.BatchEvents(DispatchPaths(old(files)), DispatchDir(outputDir), outcomes))
    {
      var request := StartConvert();
      var result, events := Backend.ConvertBatch(request.value.files, request.value.outputDir, outcomes);
      DeliverEvents(events);
      ConvertSettled();
    }
  }
}
