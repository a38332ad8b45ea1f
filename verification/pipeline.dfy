/** The per-frame decision policy of `handlePredictions` in js/pipeline.js,
    with every call into the user interface dropped: pick the most probable
    class, threshold it, turn its label into a letter, feed the letter
    tracker, and append a stabilised letter to the word buffer. */
module Pipeline {
  import opened Wrappers
  import opened Sequences
  import Tracker
  import State
  import Labels

  /** The configuration values the pipeline reads (js/config.js). */
  datatype Config = Config(
    stableFrames: int,
    bufferLimit: nat,
    historyLimit: nat,
    confidenceThreshold: real)

  /** The limits a configuration must respect for the bounds to hold. */
  predicate ValidConfig(config: Config) {
    config.stableFrames >= 1 && config.bufferLimit >= 1 && config.historyLimit >= 1
  }

  /** One class of the classifier's output for a frame. Probabilities are
      only ever compared, so they are modelled as reals. */
  datatype Prediction = Prediction(className: string, probability: real)

  /** What one frame leaves behind: the new state, and the letter locked into
      the buffer during the frame, if one was. */
  datatype Frame = Frame(session: State.Session, locked: Option<string>)

  /** The position of `predictions.reduce((prev, current) =>
      current.probability > prev.probability ? current : prev)`: a most
      probable prediction, the first one among equals. */
  function BestIndex(predictions: seq<Prediction>): (i: nat)
    requires |predictions| > 0
    ensures i < |predictions|
    ensures forall j :: 0 <= j < |predictions| ==>
      predictions[j].probability <= predictions[i].probability
    ensures forall j :: 0 <= j < i ==> predictions[j].probability < predictions[i].probability
  {
    if |predictions| == 1 then 0
    else
      var k := BestIndex(predictions[..|predictions| - 1]);
      if predictions[|predictions| - 1].probability > predictions[k].probability
      then |predictions| - 1
      else k
  }

  /** The frame's candidate letter: the best prediction's letter when its
      probability reaches the threshold, otherwise none. */
  function CandidateLetter(predictions: seq<Prediction>, threshold: real): (c: Option<string>)
    requires |predictions| > 0
    ensures var best := predictions[BestIndex(predictions)];
      c.None? <==> best.probability < threshold || Labels.Trim(best.className) == []
    ensures c.Some? ==> Truthy(c)
    ensures var best := predictions[BestIndex(predictions)];
      c.Some? ==> best.probability >= threshold && c == Labels.ExtractLetter(best.className)
  {
    var best := predictions[BestIndex(predictions)];
    if best.probability >= threshold then Labels.ExtractLetter(best.className) else None
  }

  /** The second half of `handlePredictions`, once the frame's candidate
      letter is known. */
  function HandleCandidate(session: State.Session, candidate: Option<string>, config: Config): (r: Frame)
    ensures r.session.tracker.requiredFrames == session.tracker.requiredFrames
    // No candidate: `push(null)` drops the streak, buffer and history are untouched.
    ensures !Truthy(candidate) ==>
      r == Frame(State.Session(Tracker.Initial(session.tracker.requiredFrames), session.store), None)
    // A candidate is pushed into the tracker.
    ensures Truthy(candidate) ==> r.session.tracker == Tracker.Push(session.tracker, candidate).tracker
    // Buffer and history change only with a letter that the tracker reported
    // and the buffer accepted.
    ensures r.locked.None? ==> r.session.store == session.store
    ensures r.locked.Some? ==>
      && r.locked == candidate
      && Tracker.Push(session.tracker, candidate).emitted == candidate
      && State.PushLetterToBuffer(session.store, candidate, config.bufferLimit, config.historyLimit) ==
           State.AppendResult(true, r.session.store)
    // A letter the tracker reports is offered to the buffer: the store is what
    // the offer leaves, and the letter is locked exactly when it was accepted.
    ensures Truthy(candidate) && Tracker.Push(session.tracker, candidate).emitted == candidate ==>
      var a := State.PushLetterToBuffer(session.store, candidate, config.bufferLimit, config.historyLimit);
      r.session.store == a.store && (r.locked == candidate <==> a.accepted)
  {
    if !Truthy(candidate) then
      Frame(State.Session(Tracker.Push(session.tracker, None).tracker, session.store), None)
    else
      var pushed := Tracker.Push(session.tracker, candidate);
      if Truthy(pushed.emitted) then
        var appended :=
          State.PushLetterToBuffer(session.store, pushed.emitted, config.bufferLimit, config.historyLimit);
        Frame(State.Session(pushed.tracker, appended.store),
              if appended.accepted then pushed.emitted else None)
      else
        Frame(State.Session(pushed.tracker, session.store), None)
  }

  /** `handlePredictions(predictions)`. */
  function HandlePredictions(session: State.Session, predictions: seq<Prediction>, config: Config)
    : (r: Frame)
    ensures r.session.tracker.requiredFrames == session.tracker.requiredFrames
    // No predictions: the streak is dropped, buffer and history are untouched.
    ensures predictions == [] ==>
      r == Frame(State.Session(Tracker.Reset(session.tracker), session.store), None)
    // No candidate: `push(null)` drops the streak, buffer and history are untouched.
    ensures predictions != [] && CandidateLetter(predictions, config.confidenceThreshold).None? ==>
      r == Frame(State.Session(Tracker.Initial(session.tracker.requiredFrames), session.store), None)
    // A candidate is pushed into the tracker.
    ensures predictions != [] && CandidateLetter(predictions, config.confidenceThreshold).Some? ==>
      r.session.tracker ==
        Tracker.Push(session.tracker, CandidateLetter(predictions, config.confidenceThreshold)).tracker
    // Buffer and history change only with a letter that the tracker reported
    // and the buffer accepted.
    ensures r.locked.None? ==> r.session.store == session.store
    ensures r.locked.Some? ==>
      && predictions != []
      && r.locked == CandidateLetter(predictions, config.confidenceThreshold)
      && Tracker.Push(session.tracker, r.locked).emitted == r.locked
      && State.PushLetterToBuffer(session.store, r.locked, config.bufferLimit, config.historyLimit) ==
           State.AppendResult(true, r.session.store)
    // A candidate the tracker reports is offered to the buffer: the store is
    // what the offer leaves, and the letter is locked exactly when it was accepted.
    ensures predictions != [] ==>
      var c := CandidateLetter(predictions, config.confidenceThreshold);
      Truthy(c) && Tracker.Push(session.tracker, c).emitted == c ==>
        var a := State.PushLetterToBuffer(session.store, c, config.bufferLimit, config.historyLimit);
        r.session.store == a.store && (r.locked == c <==> a.accepted)
  {
    if predictions == [] then
      Frame(State.Session(Tracker.Reset(session.tracker), session.store), None)
    else
      HandleCandidate(session, CandidateLetter(predictions, config.confidenceThreshold), config)
  }

  /** The session after handling every frame's predictions, in order. */
  function RunFrames(session: State.Session, frames: seq<seq<Prediction>>, config: Config): (r: State.Session) {
    if frames == [] then session
    else HandlePredictions(RunFrames(session, frames[..|frames| - 1], config), frames[|frames| - 1], config).session
  }

  /** What a frame feeds the tracker: nothing for an empty prediction list,
      otherwise its candidate letter. */
  function FrameCandidate(predictions: seq<Prediction>, threshold: real): (c: Option<string>) {
    if predictions == [] then None else CandidateLetter(predictions, threshold)
  }

  /** The session after handling every candidate, in order. */
  function RunCandidates(session: State.Session, candidates: seq<Option<string>>, config: Config): (r: State.Session) {
    if candidates == [] then session
    else HandleCandidate(RunCandidates(session, candidates[..|candidates| - 1], config),
                         candidates[|candidates| - 1], config).session
  }

  /** Each frame's candidate letter, in order. */
  function Candidates(frames: seq<seq<Prediction>>, threshold: real): (c: seq<Option<string>>)
    ensures |c| == |frames|
    ensures forall i :: 0 <= i < |frames| ==> c[i] == FrameCandidate(frames[i], threshold)
  {
    seq(|frames|, i requires 0 <= i < |frames| => FrameCandidate(frames[i], threshold))
  }

  /** A ties-go-to-the-first example: two equally probable classes pick the first. */
  lemma TieGoesToFirst(a: string, b: string, p: real)
    ensures BestIndex([Prediction(a, p), Prediction(b, p)]) == 0
  {
  }

  /** One frame keeps the store valid. */
  lemma FramePreservesValid(session: State.Session, predictions: seq<Prediction>, config: Config)
    requires ValidConfig(config)
    requires State.Valid(session.store, config.bufferLimit, config.historyLimit)
    ensures State.Valid(HandlePredictions(session, predictions, config).session.store,
                        config.bufferLimit, config.historyLimit)
  {
    var r := HandlePredictions(session, predictions, config);
    if r.locked.Some? {
      State.PushPreservesValid(session.store, r.locked, config.bufferLimit, config.historyLimit);
    }
  }

  /** Any sequence of frames keeps the store valid: the buffer within
      `bufferLimit` without an immediately repeated letter, the history
      within `historyLimit`. */
  lemma {:induction false} FramesPreserveValid(session: State.Session, frames: seq<seq<Prediction>>, config: Config)
    requires ValidConfig(config)
    requires State.Valid(session.store, config.bufferLimit, config.historyLimit)
    ensures State.Valid(RunFrames(session, frames, config).store, config.bufferLimit, config.historyLimit)
  {
    if frames != [] {
      FramesPreserveValid(session, frames[..|frames| - 1], config);
      FramePreservesValid(RunFrames(session, frames[..|frames| - 1], config), frames[|frames| - 1], config);
    }
  }

  /** The state after holding a letter for `n` frames from a freshly started
      session: the tracker counts `n` and has reported the letter once `n`
      reaches `stableFrames`, and buffer and history hold that single letter
      from then on. */
  ghost predicate HeldFor(session: State.Session, letter: string, config: Config, n: nat) {
    && session.tracker == Tracker.Tracker(config.stableFrames, if n == 0 then None else Some(letter), n,
                                          if n >= config.stableFrames then Some(letter) else None)
    && session.store == (if n >= config.stableFrames then State.Store([letter], [letter]) else State.EmptyStore)
  }

  /** One more frame of the held sign. */
  lemma HeldSignStep(session: State.Session, letter: string, config: Config, n: nat)
    requires ValidConfig(config)
    requires letter != ""
    requires HeldFor(session, letter, config, n)
    ensures HeldFor(HandleCandidate(session, Some(letter), config).session, letter, config, n + 1)
  {
    var pushed := Tracker.Push(session.tracker, Some(letter));
    assert pushed.emitted == (if n + 1 == config.stableFrames then Some(letter) else None);
    if n + 1 == config.stableFrames {
      var appended := State.PushLetterToBuffer(State.EmptyStore, Some(letter), config.bufferLimit, config.historyLimit);
      assert appended == State.AppendResult(true, State.Store([letter], [letter]));
    }
  }

  /** A frame acts on the session only through its candidate letter: an
      empty prediction list acts as a missing candidate, and any run of frames
      acts as the run of their candidates. */
  lemma {:induction false} FramesActThroughCandidates(session: State.Session, frames: seq<seq<Prediction>>, config: Config)
    ensures RunFrames(session, frames, config) ==
      RunCandidates(session, Candidates(frames, config.confidenceThreshold), config)
  {
    if frames != [] {
      var prefix := frames[..|frames| - 1];
      FramesActThroughCandidates(session, prefix, config);
      var c := Candidates(frames, config.confidenceThreshold);
      assert c[..|c| - 1] == Candidates(prefix, config.confidenceThreshold);
      var before := RunFrames(session, prefix, config);
      var last := frames[|frames| - 1];
      assert HandlePredictions(before, last, config).session ==
        HandleCandidate(before, FrameCandidate(last, config.confidenceThreshold), config).session;
    }
  }

  /** A freshly started session fed the same letter for `n` frames locks it
      exactly once, on frame `stableFrames`: buffer and history both end as
      that single letter, or stay empty before then. */
  lemma {:induction false} HeldLetterLocksOnce(letter: string, config: Config, n: nat)
    requires ValidConfig(config)
    requires letter != ""
    ensures var initial := State.Session(Tracker.Initial(config.stableFrames), State.EmptyStore);
      HeldFor(RunCandidates(initial, Repeat(Some(letter), n), config), letter, config, n)
  {
    if n > 0 {
      var initial := State.Session(Tracker.Initial(config.stableFrames), State.EmptyStore);
      assert Repeat(Some(letter), n)[..n - 1] == Repeat(Some(letter), n - 1);
      HeldLetterLocksOnce(letter, config, n - 1);
      HeldSignStep(RunCandidates(initial, Repeat(Some(letter), n - 1), config), letter, config, n - 1);
    }
  }

  /** A freshly started session shown the same confident sign for `n` frames
      locks its letter exactly once, on frame `stableFrames`: buffer and
      history both end as that single letter, or stay empty before then. */
  lemma HeldSignLocksOnce(predictions: seq<Prediction>, letter: string, config: Config, n: nat)
    requires ValidConfig(config)
    requires letter != ""
    ensures FrameCandidate(predictions, config.confidenceThreshold) == Some(letter) ==>
      var initial := State.Session(Tracker.Initial(config.stableFrames), State.EmptyStore);
      HeldFor(RunFrames(initial, Repeat(predictions, n), config), letter, config, n)
  {
    if FrameCandidate(predictions, config.confidenceThreshold) == Some(letter) {
      var initial := State.Session(Tracker.Initial(config.stableFrames), State.EmptyStore);
      FramesActThroughCandidates(initial, Repeat(predictions, n), config);
      assert Candidates(Repeat(predictions, n), config.confidenceThreshold) == Repeat(Some(letter), n);
      HeldLetterLocksOnce(letter, config, n);
    }
  }
}
