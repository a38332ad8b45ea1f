/** The running/loading flags of js/pipeline.js and the transitions of
    `startPipeline`, `stopPipeline` and `teardownWebcam`. Loading the model
    and the camera are foreign, asynchronous calls: whether the library is
    present and whether loading succeeded are inputs. `startPipeline` is split
    at its first `await` so that a second start arriving while the first is
    still loading can be expressed. */
module Lifecycle {
  import State

  datatype Flags = Flags(running: bool, loading: bool)

  /** The flags together with the state of js/state.js that a start resets. */
  datatype Pipeline = Pipeline(flags: Flags, session: State.Session)

  /** How a start request ends. */
  datatype StartStatus =
    | AlreadyBusy     // ignored: running or loading already
    | LibraryMissing  // rejected before anything changed
    | Loading         // accepted; model and camera are being acquired
    | Started         // the frame loop was scheduled
    | Failed          // loading failed; camera released, flags cleared

  datatype StartResult = StartResult(pipeline: Pipeline, status: StartStatus)

  const Idle := Flags(false, false)

  /** `pipelineBusy()`: busy exactly when the flags are not both clear. */
  predicate Busy(flags: Flags): (b: bool)
    ensures !b <==> flags == Idle
  {
    flags.running || flags.loading
  }

  /** The flags are never both set. */
  predicate Exclusive(flags: Flags) {
    !(flags.running && flags.loading)
  }

  /** The synchronous part of `startPipeline`, up to its first `await`. */
  function BeginStart(p: Pipeline, libraryLoaded: bool): (r: StartResult)
    // A request while busy changes nothing.
    ensures Busy(p.flags) ==> r == StartResult(p, AlreadyBusy)
    // Without the classifier library the request is rejected and nothing changes.
    ensures !Busy(p.flags) && !libraryLoaded ==> r == StartResult(p, LibraryMissing)
    // Otherwise the pipeline is loading, and the module state is not yet touched.
    ensures !Busy(p.flags) && libraryLoaded ==>
      r.status == Loading && r.pipeline.flags == Flags(false, true) && r.pipeline.session == p.session
  {
    if Busy(p.flags) then StartResult(p, AlreadyBusy)
    else if !libraryLoaded then StartResult(p, LibraryMissing)
    else StartResult(p.(flags := p.flags.(loading := true)), Loading)
  }

  /** `teardownWebcam(message)`: the camera and the scheduled frame are
      released (not modelled) and the running flag is cleared. */
  function TeardownWebcam(p: Pipeline): (r: Pipeline)
    ensures !r.flags.running
    ensures r.flags.loading == p.flags.loading && r.session == p.session
  {
    p.(flags := p.flags.(running := false))
  }

  /** The rest of `startPipeline`, once loading the model and setting up the
      camera have either both succeeded (`acquired`) or one of them threw. */
  function CompleteStart(p: Pipeline, acquired: bool): (r: StartResult)
    // Success: running, no longer loading, and the buffer, history and tracker reset.
    ensures acquired ==>
      r.status == Started && r.pipeline.flags == Flags(true, false) &&
      r.pipeline.session == State.ResetState(p.session)
    // Failure: neither running nor loading, module state untouched.
    ensures !acquired ==> r == StartResult(Pipeline(Idle, p.session), Failed)
  {
    if acquired then
      var session := State.ResetState(p.session);
      StartResult(Pipeline(p.flags.(running := true, loading := false), session), Started)
    else
      var p' := p.(flags := p.flags.(loading := false));
      StartResult(TeardownWebcam(p'), Failed)
  }

  /** `startPipeline()` when nothing else happens while it awaits. */
  function StartPipeline(p: Pipeline, libraryLoaded: bool, acquired: bool): (r: StartResult)
    ensures Busy(p.flags) ==> r == StartResult(p, AlreadyBusy)
    ensures !Busy(p.flags) && !libraryLoaded ==> r == StartResult(p, LibraryMissing)
    ensures !Busy(p.flags) && libraryLoaded && acquired ==>
      r.status == Started && r.pipeline.flags == Flags(true, false) &&
      r.pipeline.session == State.ResetState(p.session)
    ensures !Busy(p.flags) && libraryLoaded && !acquired ==>
      r.status == Failed && r.pipeline == Pipeline(Idle, p.session)
  {
    var begun := BeginStart(p, libraryLoaded);
    if begun.status == Loading then CompleteStart(begun.pipeline, acquired) else begun
  }

  /** `stopPipeline(message)`. The loading flag is left as it is. */
  function StopPipeline(p: Pipeline): (r: Pipeline)
    ensures !r.flags.running
    ensures r.flags.loading == p.flags.loading && r.session == p.session
  {
    TeardownWebcam(p)
  }

  /** Every transition keeps the two flags from being set together, and
      after a start that ended, or a stop, the pipeline is not running
      unless the start succeeded. */
  lemma TransitionsKeepExclusive(p: Pipeline, libraryLoaded: bool, acquired: bool)
    requires Exclusive(p.flags)
    ensures Exclusive(BeginStart(p, libraryLoaded).pipeline.flags)
    ensures Exclusive(CompleteStart(p, acquired).pipeline.flags)
    ensures Exclusive(StopPipeline(p).flags)
    ensures Exclusive(TeardownWebcam(p).flags)
    ensures var r := StartPipeline(p, libraryLoaded, acquired);
      Exclusive(r.pipeline.flags) && (r.pipeline.flags.running <==> r.status == Started || (p.flags.running && r.status == AlreadyBusy))
  {
  }

  /** A second start while the first is still loading is ignored: both the
      flags and the module state are unchanged. */
  lemma SecondStartWhileLoadingIgnored(p: Pipeline, libraryLoaded: bool)
    requires !Busy(p.flags)
    ensures var first := BeginStart(p, true);
      BeginStart(first.pipeline, libraryLoaded) == StartResult(first.pipeline, AlreadyBusy)
  {
  }
}
