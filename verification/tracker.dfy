/** The letter stabiliser of js/state.js (`StableLetterTracker`): a debounce
    filter over a stream of optional letters. A letter is reported once it
    has been seen `requiredFrames` times in a row, and never twice in a row
    unless the stream is interrupted by a falsy value in between. */
module Tracker {
  import opened Wrappers
  import opened Sequences

  datatype Tracker = Tracker(
    requiredFrames: int,
    currentLetter: Option<string>,
    count: nat,
    lastReported: Option<string>)

  /** What one call of `push` leaves behind: the new tracker and the letter
      it reported, if any. */
  datatype PushResult = PushResult(tracker: Tracker, emitted: Option<string>)

  /** A freshly constructed tracker: no current letter, an empty streak and
      nothing reported yet. */
  function Initial(requiredFrames: int): (r: Tracker)
    ensures r.requiredFrames == requiredFrames
    ensures r.currentLetter.None? && r.count == 0 && r.lastReported.None?
  {
    Tracker(requiredFrames, None, 0, None)
  }

  /** `reset()`: forget the streak and the last reported letter. */
  function Reset(t: Tracker): (r: Tracker)
    ensures r == Initial(t.requiredFrames)
  {
    Initial(t.requiredFrames)
  }

  /** `push(letter)`. */
  function Push(t: Tracker, letter: Option<string>): (r: PushResult)
    // A falsy letter reports nothing and returns the tracker to its initial state.
    ensures !Truthy(letter) ==> r.emitted == None && r.tracker == Initial(t.requiredFrames)
    ensures r.tracker.requiredFrames == t.requiredFrames
    // A truthy letter becomes the current letter; the streak grows or restarts at 1.
    ensures Truthy(letter) ==> r.tracker.currentLetter == letter
    ensures Truthy(letter) ==>
      r.tracker.count == (if t.currentLetter == letter then t.count + 1 else 1)
    // The only letter that can be reported is the one pushed ...
    ensures r.emitted == None || r.emitted == letter
    // ... and it is reported exactly when the streak is long enough and it was not the last report.
    ensures Truthy(letter) ==>
      (r.emitted == letter <==> r.tracker.count >= t.requiredFrames && t.lastReported != letter)
    // A report is remembered; otherwise the last report is kept.
    ensures Truthy(letter) ==>
      r.tracker.lastReported == (if r.emitted.Some? then letter else t.lastReported)
  {
    if !Truthy(letter) then
      PushResult(Reset(t), None)
    else
      var count := if letter == t.currentLetter then t.count + 1 else 1;
      var t' := t.(currentLetter := letter, count := count);
      if count >= t.requiredFrames && t.lastReported != letter then
        PushResult(t'.(lastReported := letter), letter)
      else
        PushResult(t', None)
  }

  /** The tracker after pushing every element of `inputs`, in order. */
  function Run(t: Tracker, inputs: seq<Option<string>>): (r: Tracker) {
    if inputs == [] then t
    else Push(Run(t, inputs[..|inputs| - 1]), inputs[|inputs| - 1]).tracker
  }

  /** The letters reported while pushing `inputs`, in order. */
  function Emissions(t: Tracker, inputs: seq<Option<string>>): (e: seq<string>) {
    if inputs == [] then []
    else
      var prefix := inputs[..|inputs| - 1];
      Emissions(t, prefix) +
        match Push(Run(t, prefix), inputs[|inputs| - 1]).emitted
        case Some(l) => [l]
        case None => []
  }

  /** `k` is the length of the streak at the end of `inputs`: the last `k`
      inputs all equal the last input, and the one before them (if any) does not. */
  ghost predicate TrailingStreak(inputs: seq<Option<string>>, k: nat) {
    && 0 < k <= |inputs|
    && (forall i :: |inputs| - k <= i < |inputs| ==> inputs[i] == inputs[|inputs| - 1])
    && (k < |inputs| ==> inputs[|inputs| - k - 1] != inputs[|inputs| - 1])
  }

  /** `push(null)` is `reset()`: both lead to the initial state, and pushing
      after a reset behaves as pushing into a newly constructed tracker. */
  lemma NullPushIsReset(t: Tracker, letter: Option<string>)
    ensures Push(t, None) == PushResult(Reset(t), None)
    ensures Push(Reset(t), letter) == Push(Initial(t.requiredFrames), letter)
  {
  }

  /** From a fresh tracker, `count` is the length of the streak of identical
      truthy inputs at the end of the stream, and `currentLetter` is the last
      input when it is truthy; a falsy last input leaves count 0. */
  lemma {:induction false} CountIsTrailingStreak(requiredFrames: int, inputs: seq<Option<string>>)
    ensures var t := Run(Initial(requiredFrames), inputs);
      if inputs != [] && Truthy(inputs[|inputs| - 1]) then
        t.currentLetter == inputs[|inputs| - 1] && TrailingStreak(inputs, t.count)
      else
        t.currentLetter == None && t.count == 0
  {
    if inputs != [] {
      var n := |inputs|;
      var prefix := inputs[..n - 1];
      var x := inputs[n - 1];
      CountIsTrailingStreak(requiredFrames, prefix);
      var p := Run(Initial(requiredFrames), prefix);
      var t := Run(Initial(requiredFrames), inputs);
      assert t == Push(p, x).tracker;
      if Truthy(x) {
        if p.currentLetter == x {
          assert prefix != [] && prefix[n - 2] == x;
          assert TrailingStreak(inputs, t.count) by {
            forall i | n - t.count <= i < n
              ensures inputs[i] == x
            {
              if i < n - 1 {
                assert inputs[i] == prefix[i];
              }
            }
          }
        } else {
          assert t.count == 1;
          if prefix != [] {
            assert inputs[n - 2] == prefix[n - 2];
          }
        }
      }
    }
  }

  /** Every reported letter was pushed. */
  lemma {:induction false} EmissionsWerePushed(t: Tracker, inputs: seq<Option<string>>)
    ensures forall i :: 0 <= i < |Emissions(t, inputs)| ==> Some(Emissions(t, inputs)[i]) in inputs
  {
    if inputs != [] {
      var prefix := inputs[..|inputs| - 1];
      EmissionsWerePushed(t, prefix);
      forall i | 0 <= i < |Emissions(t, prefix)|
        ensures Some(Emissions(t, prefix)[i]) in inputs
      {
        assert Some(Emissions(t, prefix)[i]) in prefix;
      }
    }
  }

  /** With no reset in between (every input truthy), two successively reported
      letters always differ, the first report differs from the letter last
      reported before the run, and `lastReported` tracks the latest report. */
  lemma {:induction false} ReportsAlternate(t: Tracker, inputs: seq<Option<string>>)
    requires forall i :: 0 <= i < |inputs| ==> Truthy(inputs[i])
    ensures var e := Emissions(t, inputs);
      && NoAdjacentDuplicates(e)
      && (e != [] && t.lastReported.Some? ==> e[0] != t.lastReported.value)
      && Run(t, inputs).lastReported == (if e == [] then t.lastReported else Some(e[|e| - 1]))
  {
    if inputs != [] {
      var prefix := inputs[..|inputs| - 1];
      var x := inputs[|inputs| - 1];
      assert forall i :: 0 <= i < |prefix| ==> prefix[i] == inputs[i];
      ReportsAlternate(t, prefix);
      var e := Emissions(t, prefix);
      var r := Push(Run(t, prefix), x);
      if r.emitted.Some? {
        assert Emissions(t, inputs) == e + [x.value];
        if e != [] {
          assert e[|e| - 1] != x.value;
        }
      } else {
        assert Emissions(t, inputs) == e;
      }
    }
  }

  /** Holding one letter, however long and from any state, reports it at most
      once; once reported it is the tracker's last report. */
  lemma {:induction false} HeldLetterReportedAtMostOnce(t: Tracker, letter: string, n: nat)
    requires letter != ""
    ensures var e := Emissions(t, Repeat(Some(letter), n));
      e == [] || (e == [letter] && Run(t, Repeat(Some(letter), n)).lastReported == Some(letter))
  {
    if n > 0 {
      assert Repeat(Some(letter), n)[..n - 1] == Repeat(Some(letter), n - 1);
      HeldLetterReportedAtMostOnce(t, letter, n - 1);
    }
  }

  /** From a fresh tracker with `requiredFrames >= 1`, holding a letter for `n`
      frames reports it exactly once, on frame `requiredFrames`, and then never
      again: the pattern A,A,A -> null,null,A for three required frames. */
  lemma {:induction false} HoldFromFresh(requiredFrames: int, letter: string, n: nat)
    requires requiredFrames >= 1
    requires letter != ""
    ensures Run(Initial(requiredFrames), Repeat(Some(letter), n)) ==
      Tracker(requiredFrames, if n == 0 then None else Some(letter), n,
              if n >= requiredFrames then Some(letter) else None)
    ensures Emissions(Initial(requiredFrames), Repeat(Some(letter), n)) ==
      (if n >= requiredFrames then [letter] else [])
  {
    if n > 0 {
      assert Repeat(Some(letter), n)[..n - 1] == Repeat(Some(letter), n - 1);
      HoldFromFresh(requiredFrames, letter, n - 1);
    }
  }

  /** Pushing `a` and then `b` is pushing `a + b`: the reports of the whole
      run are those of `a` followed by those of `b` from where `a` left off. */
  lemma {:induction false} RunAppend(t: Tracker, a: seq<Option<string>>, b: seq<Option<string>>)
    ensures Run(t, a + b) == Run(Run(t, a), b)
    ensures Emissions(t, a + b) == Emissions(t, a) + Emissions(Run(t, a), b)
  {
    if b != [] {
      var b' := b[..|b| - 1];
      assert (a + b)[..|a + b| - 1] == a + b';
      RunAppend(t, a, b');
    } else {
      assert a + b == a;
    }
  }

  /** A different letter held for fewer than `requiredFrames` frames is
      never reported: it only takes over the streak. */
  lemma {:induction false} ShortStreakUnreported(t: Tracker, letter: string, n: nat)
    requires letter != ""
    requires t.currentLetter != Some(letter)
    requires n < t.requiredFrames
    ensures Emissions(t, Repeat(Some(letter), n)) == []
    ensures Run(t, Repeat(Some(letter), n)) ==
      if n == 0 then t else t.(currentLetter := Some(letter), count := n)
  {
    if n > 0 {
      assert Repeat(Some(letter), n)[..n - 1] == Repeat(Some(letter), n - 1);
      ShortStreakUnreported(t, letter, n - 1);
    }
  }

  /** The letter last reported, held again for any number of frames, is not
      reported again and stays the last report. */
  lemma {:induction false} LastReportedStaysSilent(t: Tracker, letter: string, n: nat)
    requires letter != ""
    requires t.lastReported == Some(letter)
    ensures Emissions(t, Repeat(Some(letter), n)) == []
    ensures Run(t, Repeat(Some(letter), n)).lastReported == Some(letter)
  {
    if n > 0 {
      assert Repeat(Some(letter), n)[..n - 1] == Repeat(Some(letter), n - 1);
      LastReportedStaysSilent(t, letter, n - 1);
    }
  }

  /** A reported letter is re-armed only by a falsy push, a `reset()`, or the
      report of a different letter. A different letter shown too briefly to
      be reported leaves `lastReported` as it was, so A held, B glimpsed, then
      A held again reports A once (A,A,B,A,A gives A for two required frames). */
  lemma UnreportedLetterDoesNotRearm(requiredFrames: int, a: string, b: string, m: nat, n: nat)
    requires requiredFrames >= 1
    requires a != "" && b != "" && a != b
    requires m < requiredFrames
    ensures Emissions(Initial(requiredFrames),
      Repeat(Some(a), requiredFrames) + Repeat(Some(b), m) + Repeat(Some(a), n)) == [a]
  {
    var t0 := Initial(requiredFrames);
    var first := Repeat(Some(a), requiredFrames);
    var glimpse := Repeat(Some(b), m);
    HoldFromFresh(requiredFrames, a, requiredFrames);
    var t1 := Run(t0, first);
    ShortStreakUnreported(t1, b, m);
    var t2 := Run(t1, glimpse);
    LastReportedStaysSilent(t2, a, n);
    RunAppend(t0, first, glimpse);
    RunAppend(t0, first + glimpse, Repeat(Some(a), n));
  }

  /** A letter that is neither the current letter nor the last report, held
      for `requiredFrames` frames, is reported once, on the last of them. */
  lemma FreshStreakReported(t: Tracker, letter: string)
    requires letter != ""
    requires t.requiredFrames >= 1
    requires t.currentLetter != Some(letter) && t.lastReported != Some(letter)
    ensures Emissions(t, Repeat(Some(letter), t.requiredFrames)) == [letter]
    ensures Run(t, Repeat(Some(letter), t.requiredFrames)) ==
      t.(currentLetter := Some(letter), count := t.requiredFrames, lastReported := Some(letter))
  {
    var n := t.requiredFrames;
    assert Repeat(Some(letter), n)[..n - 1] == Repeat(Some(letter), n - 1);
    ShortStreakUnreported(t, letter, n - 1);
  }

  /** The report of a different letter re-arms a reported letter: A held,
      then B held, then A held again reports A, B and A (A,B,A gives A,B,A
      for one required frame). */
  lemma OtherReportRearms(requiredFrames: int, a: string, b: string)
    requires requiredFrames >= 1
    requires a != "" && b != "" && a != b
    ensures Emissions(Initial(requiredFrames),
      Repeat(Some(a), requiredFrames) + Repeat(Some(b), requiredFrames) + Repeat(Some(a), requiredFrames))
      == [a, b, a]
  {
    var t0 := Initial(requiredFrames);
    var first := Repeat(Some(a), requiredFrames);
    var second := Repeat(Some(b), requiredFrames);
    HoldFromFresh(requiredFrames, a, requiredFrames);
    var t1 := Run(t0, first);
    FreshStreakReported(t1, b);
    var t2 := Run(t1, second);
    FreshStreakReported(t2, a);
    RunAppend(t0, first, second);
    RunAppend(t0, first + second, Repeat(Some(a), requiredFrames));
  }
}
