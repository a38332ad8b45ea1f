# Sign-letter stabiliser, word buffer and frame policy — a Dafny model

This project models the algorithmic core of a browser sign-language letter
recognizer. Each webcam frame is classified into labelled probabilities
by an opaque classifier. The per-frame policy keeps the most probable
class, drops it under a confidence threshold and turns its label into a
letter. It then feeds that letter to a debounce filter, the
`StableLetterTracker`. A letter the tracker reports is appended to a
bounded word buffer and to a bounded most-recent-first history. Starting and
stopping the pipeline go through a small running/loading flag guard.

Everything is modelled with immutable datatypes and pure step functions:

- `Tracker` (tracker.dfy): `StableLetterTracker.push`/`reset`, runs of pushes, and the
  at-most-once reporting properties.
- `State` (state.dfy): the word buffer and the history of js/state.js, `pushLetterToBuffer`,
  the resets, `getWordFromBuffer` and `resetState`. It also covers what any sequence of pushes
  leaves in the buffer and the history.
- `Labels` (labels.dfy): `extractLetter`, with ASCII `trim` and `toUpperCase`.
- `Pipeline` (pipeline.dfy): `handlePredictions` without its UI calls: best-prediction choice,
  thresholding, tracker feed, buffer append, and runs of frames.
- `Lifecycle` (lifecycle.dfy): `pipelineBusy`, `startPipeline`, `stopPipeline` and `teardownWebcam`
  as flag transitions. Library presence and load success are inputs.
- `Commands` (commands.dfy): the interpret and clear handlers of js/app.js, as compositions of
  the state operations.
- `Wrappers` and `Sequences`: `Option` (JavaScript `null`), string truthiness, and sequence
  vocabulary (`Join`, `LastN`, `Take`, `Reverse`, no adjacent duplicates).

Letters are strings, as in the source. `extractLetter` can return a whole
label with more than one character (for example `"12"`), so the buffer is a
sequence of strings. The word is their in-order concatenation. JavaScript's
`!letter` test is `Wrappers.Truthy`: `null` and `""` are both falsy. The
configuration values (`stableFrames`, `bufferLimit`, `historyLimit` and
`confidenceThreshold`) are parameters. The bound lemmas require positive
limits.

Behaviours of the code worth knowing, all modelled as written:

- `extractLetter` takes the first ASCII letter anywhere in a label of two or more
  characters, wherever the intended letter sits, so `"Letter_B"` gives `"L"`
  (`Labels.CompoundLabelGivesFirstLetter`).
- The limits in js/config.js are not validated: a zero `bufferLimit` or `historyLimit` is
  used as it is. The model accepts any limits, and the lemmas that need positive ones
  require `Pipeline.ValidConfig` or `bufferLimit >= 1`.
- `stopPipeline` clears only the running flag, not the loading flag (`Lifecycle.StopPipeline`).
- A reported letter is re-armed only by a falsy push, a `reset()`, or the report of a
  different letter (`Tracker.OtherReportRearms`: A, B, A held long enough reports A, B, A).
  A different letter shown too briefly to be reported leaves `lastReported` as it was, so
  A held, B glimpsed, then A held again reports A only once
  (`Tracker.UnreportedLetterDoesNotRearm`).

## Model

| member | source | states |
|---|---|---|
| Tracker.Initial | js/state.js:4-9 | A new tracker keeps the given `requiredFrames`, with no current letter, a zero count and nothing reported. |
| Tracker.Reset | js/state.js:31-35 | `reset()` returns the tracker to the state of a new one with the same `requiredFrames`. |
| Tracker.Push | js/state.js:11-29 | A falsy letter resets the tracker and reports nothing. A truthy letter becomes the current letter, and its count grows by one on a repeat or restarts at 1. Only the pushed letter can be reported. It is reported exactly when the count reaches `requiredFrames` and it differs from the last report, which is then recorded. |
| Tracker.NullPushIsReset | js/state.js:11-35 | `push(null)` equals `reset()`. After a reset, any push behaves as on a newly constructed tracker. |
| Tracker.CountIsTrailingStreak | js/state.js:17-22 | From a fresh tracker, `count` is the length of the final run of identical truthy inputs, and `currentLetter` is the last input. A falsy last input leaves count 0 and no current letter. |
| Tracker.EmissionsWerePushed | js/state.js:24-27 | Every reported letter is one of the pushed letters. |
| Tracker.ReportsAlternate | js/state.js:24-27 | With no reset in between, no two successive reports are equal, and the first report differs from the previous last report. `lastReported` is always the latest report, so a letter shown without being reported does not re-arm the previous one. |
| Tracker.RunAppend | js/state.js:11-29 | Pushing two runs one after the other is pushing their concatenation, and the reports are those of the first run followed by those of the second. |
| Tracker.ShortStreakUnreported | js/state.js:17-27 | A new letter held for fewer than `requiredFrames` frames is never reported. It only takes over the streak with count `n`, and `lastReported` is unchanged. |
| Tracker.LastReportedStaysSilent | js/state.js:24-27 | The last reported letter, held again for any number of frames, is not reported again. |
| Tracker.UnreportedLetterDoesNotRearm | js/state.js:11-29 | A letter held until reported, then a different letter shown for fewer than `requiredFrames` frames, then the first letter held again: the first letter is reported only once. |
| Tracker.FreshStreakReported | js/state.js:17-27 | A letter that is neither the current letter nor the last report, held for `requiredFrames` frames, is reported once, on the last of them, and becomes the last report. |
| Tracker.OtherReportRearms | js/state.js:24-27 | A held until reported, then B, then A again, each for `requiredFrames` frames, reports A, B, A: the report of a different letter re-arms A. |
| Tracker.HeldLetterReportedAtMostOnce | js/state.js:17-27 | Holding one letter for any number of frames, from any state, reports it at most once. |
| Tracker.HoldFromFresh | js/state.js:3-28 | From a fresh tracker, holding a letter for `n` frames reports it exactly once, on frame `requiredFrames`, and the tracker counts `n`. |
| State.PushLetterToBuffer | js/state.js:42-55 | A letter is accepted iff it is truthy and differs from the buffer's last letter. A refused letter changes nothing. An accepted letter ends the buffer, after the old buffer minus its head if it was at the limit. It also heads the history, whose last entry is popped on overflow. |
| State.PushKeepsNewestInBuffer | js/state.js:46-49 | Within its limit, an accepted letter leaves the buffer as the newest `bufferLimit` letters: the old buffer plus the letter, cut from the front. |
| State.PushKeepsNewestInHistory | js/state.js:50-53 | Within its limit, an accepted letter leaves the history as the newest `historyLimit` letters, most recent first: the letter before the old history, cut from the back. |
| State.PushPreservesValid | js/state.js:42-63 | Accepting a letter, `resetBuffer` and `resetHistory` keep both length bounds and the no-immediate-repeat property of the buffer. |
| State.FeedPreservesValid | js/state.js:42-55 | Any sequence of pushes keeps the store within its bounds and free of immediate repeats. |
| State.FeedKeepsNewestInBuffer | js/state.js:43-49 | After any sequence of pushes, the buffer is the last `bufferLimit` letters of the old buffer followed by the accepted letters, in order. |
| State.FeedKeepsNewestInHistory | js/state.js:50-53 | After any sequence of pushes, the history is the accepted letters newest first, followed by the old history, cut to `historyLimit`. |
| State.ImmediateRepeatRefused | js/state.js:44-45 | Offering the same letter twice in a row: the second offer is refused and changes neither buffer nor history. |
| State.ResetBuffer | js/state.js:57-59 | The buffer is emptied, the history is kept, and the word is then empty. |
| State.ResetHistory | js/state.js:61-63 | The history is emptied and the buffer is kept. |
| State.ResetState | js/state.js:77-81 | Buffer and history are emptied and the tracker returns to its initial state. |
| State.GetWordFromBuffer | js/state.js:73-75 | An empty buffer reads the empty word. Single-character letters are read one character each, in buffer order. |
| Sequences.JoinAppend | js/state.js:73-75 | The word of two buffers placed end to end is the first buffer's word followed by the second's. |
| State.WordIsBufferInOrder | js/state.js:73-75 | The word has one character per single-character letter, in buffer order. Appending a letter to the buffer appends it to the word. |
| Labels.Trim | js/pipeline.js:33 | The trimmed label is a slice of the label with only whitespace before and after it, and it neither starts nor ends with whitespace. |
| Labels.UpperString | js/pipeline.js:35-37 | `toUpperCase()`: the same length; each ASCII lower-case letter becomes the upper-case letter at the same place in the alphabet, and every other character is kept. |
| Labels.FirstLetter | js/pipeline.js:36 | Finds the position of the first ASCII letter (the first match of `/[a-z]/gi`), or none when the label has no ASCII letter. |
| Labels.ExtractLetter | js/pipeline.js:32-38 | No letter iff the trimmed label is empty. Any result is non-empty with no lower-case ASCII letter. A one-character label is that character upper-cased. A longer label gives its first ASCII letter upper-cased, or the whole label upper-cased when it has none. |
| Labels.TrimOfUnpadded | js/pipeline.js:33 | A label that neither starts nor ends with whitespace is unchanged by trimming. |
| Labels.SingleCharacterLabel | js/pipeline.js:35 | Any non-blank one-character label gives that character upper-cased: `"a"` gives `"A"` and `"5"` gives `"5"`. |
| Labels.BlankLabel | js/pipeline.js:33-34 | A label of whitespace only, the empty label included, gives no letter. |
| Labels.PaddingIgnored | js/pipeline.js:33 | Whitespace before and after a label does not change its letter. |
| Labels.CompoundLabelGivesFirstLetter | js/pipeline.js:36-37 | `"Letter_B"` gives `"L"`. |
| Labels.LabelWithoutLetters | js/pipeline.js:37 | `"12"` gives `"12"`. |
| Pipeline.BestIndex | js/pipeline.js:102 | The chosen prediction is at least as probable as every other, and strictly more probable than every earlier one: the first maximum wins. |
| Pipeline.TieGoesToFirst | js/pipeline.js:102 | Of two equally probable predictions, the first is chosen. |
| Pipeline.CandidateLetter | js/pipeline.js:102-104 | No candidate iff the best probability is under the threshold or the best label trims to empty. A candidate is truthy. It is the letter of the best prediction, whose probability meets the threshold. |
| Pipeline.HandleCandidate | js/pipeline.js:107-123 | A falsy candidate pushes `null`, which resets the tracker, and keeps the store. A truthy candidate is pushed into the tracker. When the tracker reports the candidate, the store is what `pushLetterToBuffer` leaves, and the letter is locked iff the buffer accepted it. Otherwise the store is unchanged. |
| Pipeline.HandlePredictions | js/pipeline.js:92-124 | No predictions resets the tracker and keeps the store. No candidate pushes `null`, which resets the tracker, and keeps the store. Otherwise the candidate is pushed. When the tracker reports the candidate, the store is what `pushLetterToBuffer` leaves, and the letter is locked iff the buffer accepted it. Otherwise the store is unchanged. |
| Pipeline.FramePreservesValid | js/pipeline.js:92-124 | One frame keeps the store within its bounds and free of immediate repeats. |
| Pipeline.FramesPreserveValid | js/pipeline.js:92-124 | Any sequence of frames keeps the store within its bounds and free of immediate repeats. |
| Pipeline.HeldSignStep | js/pipeline.js:114-123 | One more frame with the same candidate letter, from the state of a session that has held it for `n` frames, gives the state for `n + 1` frames. The letter enters buffer and history exactly on frame `stableFrames`. |
| Pipeline.FramesActThroughCandidates | js/pipeline.js:92-124 | A run of frames acts on the session exactly as the run of their candidate letters. An empty prediction list acts as a missing candidate. |
| Pipeline.HeldLetterLocksOnce | js/pipeline.js:107-123 | A freshly reset session fed one letter for `n` frames ends with buffer and history equal to that single letter iff `n >= stableFrames`, and both empty otherwise. |
| Pipeline.HeldSignLocksOnce | js/pipeline.js:92-124 | A freshly reset session shown, for `n` frames, one prediction list whose candidate is a letter, locks that letter exactly once and only from frame `stableFrames` on. |
| Lifecycle.Busy | js/pipeline.js:140-142 | The pipeline is busy unless both the running and the loading flag are clear. |
| Lifecycle.BeginStart | js/pipeline.js:140-154 | A start while running or loading is ignored and changes nothing. A start without the library is rejected and changes nothing. Otherwise the pipeline starts loading and the state is not yet touched. |
| Lifecycle.TeardownWebcam | js/pipeline.js:77-90 | Clears the running flag and nothing else. |
| Lifecycle.CompleteStart | js/pipeline.js:160-186 | On success the pipeline is running and not loading, with buffer, history and tracker reset. On failure it is neither running nor loading, and the state is untouched. |
| Lifecycle.StartPipeline | js/pipeline.js:144-187 | The whole start: ignored while busy, rejected without the library, idle on failure. On success it is running, with buffer, history and tracker reset by `resetState()`. |
| Lifecycle.StopPipeline | js/pipeline.js:189-197 | Not running afterwards, and the loading flag and the state are unchanged. |
| Lifecycle.TransitionsKeepExclusive | js/pipeline.js:140-197 | No transition sets both flags. After a start the pipeline runs iff the start succeeded or it was already running. |
| Lifecycle.SecondStartWhileLoadingIgnored | js/pipeline.js:144-154 | A second start while the first is still loading is ignored. |
| Commands.InterpretWord | js/app.js:21-30 | The word is the buffer joined in order. The buffer is emptied, the history is kept and the tracker is reset. |
| Commands.ClearBuffer | js/app.js:32-40 | The buffer is emptied, the history is kept and the tracker is reset. |
| Commands.InterpretReadsBufferInOrder | js/app.js:21-30 | Interpreting single-character letters gives those characters in order. A second interpretation reads the empty word. Interpreting leaves the same state as clearing. |

## Left out

- State.GetLetterBuffer, State.GetLetterHistory: defined without contracts. The copies `getLetterBuffer`/`getLetterHistory` return protect against aliasing, which cannot happen with values.
- Unicode `trim` and `toUpperCase` are not modelled. Only ASCII whitespace and ASCII lower-case letters are handled; other characters are kept as they are.
- Probabilities are reals. Floating-point behaviour such as NaN comparisons is not modelled.
- `loadModelWithFallback`, `setupWebcam` and the camera side of `teardownWebcam` are not modelled: they are foreign, asynchronous calls. The library check and the load outcome are inputs to `Lifecycle.BeginStart` and `Lifecycle.CompleteStart`.
- `loop` and `predictFrame` are not modelled: they do animation-frame scheduling and await the classifier. A session's frames are given as a sequence to `Pipeline.RunFrames`. The loop's check on the model and webcam objects, rather than on the flags, is not modelled either.
- `updateFps` is not modelled: it uses timing and floating-point formatting.
- All DOM rendering, status pills, the log and the prediction bars (js/ui.js) are not modelled, nor are the UI calls inside `handlePredictions`, `startPipeline`, `stopPipeline` and the js/app.js handlers. The start button handling in js/app.js is not modelled either.
- js/config.js holds constants only; they are passed as parameters (`Pipeline.Config`).
- Lifecycle.StartPipeline: it assumes nothing else happens while the start awaits. Interleavings such as a stop during loading are expressed by composing `BeginStart`, `StopPipeline` and `CompleteStart`. With the code as written, a successful load after such a stop still sets the running flag.
