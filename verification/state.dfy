/** The module-level state of js/state.js: the word buffer (a bounded FIFO
    that refuses an immediate repeat of its last letter), the letter history
    (bounded, most recent first) and the shared letter tracker. */
module State {
  import opened Wrappers
  import opened Sequences
  import Tracker

  /** The word buffer and the letter history. */
  datatype Store = Store(buffer: seq<string>, history: seq<string>)

  /** What `pushLetterToBuffer` returns, with the store it leaves behind. */
  datatype AppendResult = AppendResult(accepted: bool, store: Store)

  /** Everything js/state.js keeps between calls: the tracker and the store. */
  datatype Session = Session(tracker: Tracker.Tracker, store: Store)

  const EmptyStore := Store([], [])

  /** `Array.prototype.shift`, whose result is dropped: remove the head, if any. */
  function Shift(s: seq<string>): (r: seq<string>) {
    if s == [] then s else s[1..]
  }

  /** `Array.prototype.pop`, whose result is dropped: remove the tail, if any. */
  function Pop(s: seq<string>): (r: seq<string>) {
    if s == [] then s else s[..|s| - 1]
  }

  /** The store's invariant: both sequences within their limits and no letter
      immediately repeated in the buffer. */
  ghost predicate Valid(s: Store, bufferLimit: nat, historyLimit: nat) {
    && |s.buffer| <= bufferLimit
    && |s.history| <= historyLimit
    && NoAdjacentDuplicates(s.buffer)
  }

  /** `pushLetterToBuffer(letter)`, with the configured limits as parameters. */
  function PushLetterToBuffer(s: Store, letter: Option<string>, bufferLimit: nat, historyLimit: nat)
    : (r: AppendResult)
    // Accepted exactly when the letter is truthy and is not the buffer's last letter.
    ensures r.accepted <==>
      Truthy(letter) && (s.buffer == [] || s.buffer[|s.buffer| - 1] != letter.value)
    // A refused letter changes nothing.
    ensures !r.accepted ==> r.store == s
    // An accepted letter ends the buffer; what precedes it is the old buffer,
    // less its oldest letter exactly when the buffer was at its limit.
    ensures r.accepted ==>
      && r.store.buffer != []
      && r.store.buffer[|r.store.buffer| - 1] == letter.value
      && r.store.buffer[..|r.store.buffer| - 1] ==
           (if |s.buffer| >= bufferLimit && s.buffer != [] then s.buffer[1..] else s.buffer)
    // An accepted letter heads the history, which loses its last entry on overflow.
    ensures r.accepted ==>
      r.store.history ==
        (if |s.history| + 1 > historyLimit then ([letter.value] + s.history)[..|s.history|]
         else [letter.value] + s.history)
  {
    if !Truthy(letter) then
      AppendResult(false, s)
    else if s.buffer != [] && s.buffer[|s.buffer| - 1] == letter.value then
      AppendResult(false, s)
    else
      var buffer := if |s.buffer| >= bufferLimit then Shift(s.buffer) else s.buffer;
      var history := [letter.value] + s.history;
      var history' := if |history| > historyLimit then Pop(history) else history;
      AppendResult(true, Store(buffer + [letter.value], history'))
  }

  /** `resetBuffer()`: empty the buffer, keep the history. */
  function ResetBuffer(s: Store): (r: Store)
    ensures r.buffer == [] && r.history == s.history
    ensures GetWordFromBuffer(r) == ""
  {
    s.(buffer := [])
  }

  /** `resetHistory()`: empty the history, keep the buffer. */
  function ResetHistory(s: Store): (r: Store)
    ensures r.history == [] && r.buffer == s.buffer
  {
    s.(history := [])
  }

  /** `getLetterBuffer()`: a copy of the buffer (a value here, so copying is implicit). */
  function GetLetterBuffer(s: Store): (b: seq<string>) {
    s.buffer
  }

  /** `getLetterHistory()`: a copy of the history. */
  function GetLetterHistory(s: Store): (h: seq<string>) {
    s.history
  }

  /** `getWordFromBuffer()`: the buffer's letters joined in order. */
  function GetWordFromBuffer(s: Store): (w: string)
    // An empty buffer reads the empty word.
    ensures s.buffer == [] ==> w == ""
    // Single-character letters are read one character each, in buffer order.
    ensures (forall i :: 0 <= i < |s.buffer| ==> |s.buffer[i]| == 1) ==>
      |w| == |s.buffer| && forall i :: 0 <= i < |s.buffer| ==> w[i] == s.buffer[i][0]
  {
    if forall i :: 0 <= i < |s.buffer| ==> |s.buffer[i]| == 1 then
      JoinOfSingleCharacters(s.buffer);
      Join(s.buffer)
    else
      Join(s.buffer)
  }

  /** `resetState()`: empty buffer and history and reset the tracker. */
  function ResetState(session: Session): (r: Session)
    ensures r.store == EmptyStore
    ensures r.tracker == Tracker.Initial(session.tracker.requiredFrames)
  {
    Session(Tracker.Reset(session.tracker), ResetHistory(ResetBuffer(session.store)))
  }

  /** The store after offering every element of `letters` in order. */
  function Feed(s: Store, letters: seq<Option<string>>, bufferLimit: nat, historyLimit: nat): (r: Store) {
    if letters == [] then s
    else
      PushLetterToBuffer(Feed(s, letters[..|letters| - 1], bufferLimit, historyLimit),
                         letters[|letters| - 1], bufferLimit, historyLimit).store
  }

  /** The letters accepted while offering `letters` in order. */
  function Accepted(s: Store, letters: seq<Option<string>>, bufferLimit: nat, historyLimit: nat)
    : (a: seq<string>)
  {
    if letters == [] then []
    else
      var prefix := letters[..|letters| - 1];
      var x := letters[|letters| - 1];
      Accepted(s, prefix, bufferLimit, historyLimit) +
        if PushLetterToBuffer(Feed(s, prefix, bufferLimit, historyLimit), x, bufferLimit, historyLimit).accepted
        then [x.value] else []
  }

  /** Within its limit, an accepted letter leaves the buffer holding the
      newest `bufferLimit` letters. */
  lemma PushKeepsNewestInBuffer(s: Store, letter: Option<string>, bufferLimit: nat, historyLimit: nat)
    requires bufferLimit >= 1 && |s.buffer| <= bufferLimit
    ensures var r := PushLetterToBuffer(s, letter, bufferLimit, historyLimit);
      r.accepted ==> r.store.buffer == LastN(s.buffer + [letter.value], bufferLimit)
  {
    var r := PushLetterToBuffer(s, letter, bufferLimit, historyLimit);
    if r.accepted {
      var l := letter.value;
      if |s.buffer| >= bufferLimit {
        assert LastN(s.buffer + [l], bufferLimit) == s.buffer[1..] + [l];
      } else {
        assert LastN(s.buffer + [l], bufferLimit) == s.buffer + [l];
      }
    }
  }

  /** Within its limit, an accepted letter leaves the history holding the
      newest `historyLimit` letters, most recent first. */
  lemma PushKeepsNewestInHistory(s: Store, letter: Option<string>, bufferLimit: nat, historyLimit: nat)
    requires |s.history| <= historyLimit
    ensures var r := PushLetterToBuffer(s, letter, bufferLimit, historyLimit);
      r.accepted ==> r.store.history == Take([letter.value] + s.history, historyLimit)
  {
  }

  /** Every accepted push and every reset keeps the store valid. */
  lemma PushPreservesValid(s: Store, letter: Option<string>, bufferLimit: nat, historyLimit: nat)
    requires bufferLimit >= 1
    requires Valid(s, bufferLimit, historyLimit)
    ensures Valid(PushLetterToBuffer(s, letter, bufferLimit, historyLimit).store, bufferLimit, historyLimit)
    ensures Valid(ResetBuffer(s), bufferLimit, historyLimit)
    ensures Valid(ResetHistory(s), bufferLimit, historyLimit)
  {
    var r := PushLetterToBuffer(s, letter, bufferLimit, historyLimit);
    if r.accepted {
      var kept := if |s.buffer| >= bufferLimit then Shift(s.buffer) else s.buffer;
      SuffixKeepsNoAdjacentDuplicates(s.buffer, |s.buffer| - |kept|);
      assert kept == s.buffer[|s.buffer| - |kept|..];
      AppendKeepsNoAdjacentDuplicates(kept, letter.value);
    }
  }

  /** One step of `Feed` and `Accepted`. */
  lemma FeedStep(s: Store, letters: seq<Option<string>>, bufferLimit: nat, historyLimit: nat)
    requires letters != []
    ensures var prefix := letters[..|letters| - 1];
      var r := PushLetterToBuffer(Feed(s, prefix, bufferLimit, historyLimit), letters[|letters| - 1],
                                  bufferLimit, historyLimit);
      && Feed(s, letters, bufferLimit, historyLimit) == r.store
      && Accepted(s, letters, bufferLimit, historyLimit) ==
           Accepted(s, prefix, bufferLimit, historyLimit) + (if r.accepted then [letters[|letters| - 1].value] else [])
  {
  }

  /** Any sequence of pushes keeps a valid store valid. */
  lemma {:induction false} FeedPreservesValid(s: Store, letters: seq<Option<string>>, bufferLimit: nat, historyLimit: nat)
    requires bufferLimit >= 1
    requires Valid(s, bufferLimit, historyLimit)
    ensures Valid(Feed(s, letters, bufferLimit, historyLimit), bufferLimit, historyLimit)
  {
    if letters != [] {
      var prefix := letters[..|letters| - 1];
      FeedPreservesValid(s, prefix, bufferLimit, historyLimit);
      PushPreservesValid(Feed(s, prefix, bufferLimit, historyLimit), letters[|letters| - 1], bufferLimit, historyLimit);
    }
  }

  /** Over any sequence of pushes, a buffer within its limit holds the newest
      `bufferLimit` letters of the old buffer followed by the accepted ones. */
  lemma {:induction false} FeedKeepsNewestInBuffer(s: Store, letters: seq<Option<string>>, bufferLimit: nat, historyLimit: nat)
    requires bufferLimit >= 1
    requires |s.buffer| <= bufferLimit
    ensures Feed(s, letters, bufferLimit, historyLimit).buffer ==
      LastN(s.buffer + Accepted(s, letters, bufferLimit, historyLimit), bufferLimit)
  {
    if letters == [] {
      assert s.buffer + [] == s.buffer;
    } else {
      var prefix := letters[..|letters| - 1];
      var x := letters[|letters| - 1];
      FeedKeepsNewestInBuffer(s, prefix, bufferLimit, historyLimit);
      FeedStep(s, letters, bufferLimit, historyLimit);
      var p := Feed(s, prefix, bufferLimit, historyLimit);
      var a := Accepted(s, prefix, bufferLimit, historyLimit);
      PushKeepsNewestInBuffer(p, x, bufferLimit, historyLimit);
      var r := PushLetterToBuffer(p, x, bufferLimit, historyLimit);
      if r.accepted {
        LastNSnocAfter(s.buffer, a, x.value, bufferLimit);
      }
    }
  }

  /** Over any sequence of pushes, a history within its limit holds the
      accepted letters newest first followed by the old history, cut to
      `historyLimit`. */
  lemma {:induction false} FeedKeepsNewestInHistory(s: Store, letters: seq<Option<string>>, bufferLimit: nat, historyLimit: nat)
    requires |s.history| <= historyLimit
    ensures Feed(s, letters, bufferLimit, historyLimit).history ==
      Take(Reverse(Accepted(s, letters, bufferLimit, historyLimit)) + s.history, historyLimit)
  {
    if letters == [] {
      assert Reverse<string>([]) + s.history == s.history;
    } else {
      var prefix := letters[..|letters| - 1];
      var x := letters[|letters| - 1];
      FeedKeepsNewestInHistory(s, prefix, bufferLimit, historyLimit);
      FeedStep(s, letters, bufferLimit, historyLimit);
      var p := Feed(s, prefix, bufferLimit, historyLimit);
      var a := Accepted(s, prefix, bufferLimit, historyLimit);
      PushKeepsNewestInHistory(p, x, bufferLimit, historyLimit);
      var r := PushLetterToBuffer(p, x, bufferLimit, historyLimit);
      if r.accepted {
        assert Accepted(s, letters, bufferLimit, historyLimit) == a + [x.value];
        assert p.history == Take(Reverse(a) + s.history, historyLimit);
        assert r.store.history == Take([x.value] + p.history, historyLimit);
        TakeConsReversed(a, s.history, x.value, historyLimit);
      } else {
        assert Accepted(s, letters, bufferLimit, historyLimit) == a;
      }
    }
  }

  /** Offering the same letter twice in a row: the second offer is refused and
      changes neither buffer nor history. */
  lemma ImmediateRepeatRefused(s: Store, letter: string, bufferLimit: nat, historyLimit: nat)
    requires letter != ""
    ensures var first := PushLetterToBuffer(s, Some(letter), bufferLimit, historyLimit);
      var second := PushLetterToBuffer(first.store, Some(letter), bufferLimit, historyLimit);
      !second.accepted && second.store == first.store
  {
  }

  /** The word of a buffer is its letters in order: one character per letter
      when every letter is a single character, and the word of a buffer that
      grew by one letter is the old word followed by that letter. */
  lemma WordIsBufferInOrder(s: Store, letter: string)
    ensures (forall i :: 0 <= i < |s.buffer| ==> |s.buffer[i]| == 1) ==>
      |GetWordFromBuffer(s)| == |s.buffer| &&
      forall i :: 0 <= i < |s.buffer| ==> GetWordFromBuffer(s)[i] == s.buffer[i][0]
    ensures GetWordFromBuffer(s.(buffer := s.buffer + [letter])) == GetWordFromBuffer(s) + letter
  {
    if forall i :: 0 <= i < |s.buffer| ==> |s.buffer[i]| == 1 {
      JoinOfSingleCharacters(s.buffer);
    }
    assert (s.buffer + [letter])[..|s.buffer|] == s.buffer;
  }
}
