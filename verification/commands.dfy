/** The "interpret word" and "clear buffer" handlers of js/app.js, as
    compositions of the js/state.js operations (their display calls dropped). */
module Commands {
  import opened Sequences
  import Tracker
  import State

  datatype Interpreted = Interpreted(word: string, session: State.Session)

  /** `handleInterpretWord()`: read the word, empty the buffer, reset the tracker. */
  function InterpretWord(session: State.Session): (r: Interpreted)
    ensures r.word == Join(session.store.buffer)
    ensures r.session.store.buffer == [] && r.session.store.history == session.store.history
    ensures r.session.tracker == Tracker.Initial(session.tracker.requiredFrames)
  {
    Interpreted(State.GetWordFromBuffer(session.store),
                State.Session(Tracker.Reset(session.tracker), State.ResetBuffer(session.store)))
  }

  /** `handleClearBuffer()`: as interpreting, without reading the word. */
  function ClearBuffer(session: State.Session): (r: State.Session)
    ensures r.store.buffer == [] && r.store.history == session.store.history
    ensures r.tracker == Tracker.Initial(session.tracker.requiredFrames)
  {
    State.Session(Tracker.Reset(session.tracker), State.ResetBuffer(session.store))
  }

  /** Interpreting a buffer of single-character letters gives those
      characters in order ("HELLO" from H,E,L,L,O), the history is kept and
      a second interpretation reads the empty word. */
  lemma InterpretReadsBufferInOrder(session: State.Session)
    requires forall i :: 0 <= i < |session.store.buffer| ==> |session.store.buffer[i]| == 1
    ensures var r := InterpretWord(session);
      && |r.word| == |session.store.buffer|
      && (forall i :: 0 <= i < |r.word| ==> r.word[i] == session.store.buffer[i][0])
      && InterpretWord(r.session).word == ""
      && r.session == ClearBuffer(session)
  {
    JoinOfSingleCharacters(session.store.buffer);
  }
}
