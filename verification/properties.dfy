/** What the key transitions, the reset and the pacer promise, stated over the
    `Session` model. */
module SessionProperties {
  import opened Spaces
  import opened Session

  /** The skip target read from the space table is the next space after the
      cursor, or the end of the text: the table lookup agrees with a scan. */
  lemma SkipTargetIsNextBoundary(p: string, c: nat)
    requires c < |p|
    ensures BisectRight(SpaceTable(p), c) < |SpaceTable(p)|
    ensures SpaceTable(p)[BisectRight(SpaceTable(p), c)] == NextBoundary(p, c)
  {
    var t := SpaceTable(p);
    var i := BisectRight(t, c);
    var b := NextBoundary(p, c);
    assert t[|t| - 1] == |p| > c;
    assert i < |t|;
    // `b` is in the table: it is either a space or the sentinel.
    var j :| 0 <= j < |t| && t[j] == b;
    assert i <= j;
  }

  /** A reachable session only raises when a printable key arrives with the
      cursor past the last character; BACKSPACE never pops an empty list and a
      skip always finds its table entry. */
  lemma InvMakesKeysSafe(s: State, key: string)
    requires Inv(s)
    requires |key| == 1 ==> s.cursor < |s.plain|
    ensures CanAdd(s, key)
  {
    if IsSkip(s, key) {
      SkipTargetIsNextBoundary(s.plain, s.cursor);
    }
  }

  /** A new screen satisfies the session invariant. */
  lemma InitialInv(cfg: Config, plain: string)
    ensures Inv(Initial(cfg, plain))
  {
  }

  /** Every key event keeps the session invariant. */
  lemma KeyAddPreservesInv(s: State, key: string, regenerated: string)
    requires Inv(s) && CanAdd(s, key)
    ensures Inv(KeyAdd(s, key, regenerated))
  {
    if IsSkip(s, key) {
      SkipTargetIsNextBoundary(s.plain, s.cursor);
    }
  }

  /** Every pacer tick keeps the session invariant. */
  lemma MoveCursorBuddyPreservesInv(s: State)
    requires Inv(s)
    ensures Inv(MoveCursorBuddy(s))
  {
  }

  /** BACKSPACE at the start changes nothing; elsewhere it steps the cursor
      back by one and drops exactly the last span, keeping the others. */
  lemma Backspace(s: State, regenerated: string)
    requires CanAdd(s, BackspaceKey)
    ensures s.cursor == 0 ==> KeyAdd(s, BackspaceKey, regenerated) == s
    ensures s.cursor > 0 ==>
      var r := KeyAdd(s, BackspaceKey, regenerated);
      && r.cursor == s.cursor - 1
      && |r.spans| == |s.spans| - 1
      && (forall k :: 0 <= k < |r.spans| ==> r.spans[k] == s.spans[k])
      && r == s.(cursor := r.cursor, spans := r.spans)
  {
  }

  /** Typing the expected non-space character records one correct span over
      the cursor, advances by one and counts the key, whatever force-correct is. */
  lemma TypeExpected(s: State, regenerated: string)
    requires s.cursor < |s.plain| && s.plain[s.cursor] != ' '
    ensures
      var c := s.cursor;
      var r := KeyAdd(s, [s.plain[c]], regenerated);
      && r.spans == s.spans + [Span(c, c + 1, GetColor(s.cfg.blindMode, "correct"))]
      && r.cursor == c + 1
      && r.correctKeys == s.correctKeys + 1
      && r.started
      && r == s.(spans := r.spans, cursor := r.cursor, correctKeys := r.correctKeys, started := true)
  {
  }

  /** A wrong character where a non-space is expected is refused under
      force-correct; otherwise it records a mistake span and advances without
      counting. */
  lemma TypeWrong(s: State, key: string, regenerated: string)
    requires |key| == 1 && key != " "
    requires s.cursor < |s.plain| && s.plain[s.cursor] != ' ' && key != [s.plain[s.cursor]]
    ensures s.cfg.forceCorrect ==> KeyAdd(s, key, regenerated) == s
    ensures !s.cfg.forceCorrect ==>
      var c := s.cursor;
      KeyAdd(s, key, regenerated) ==
        s.(spans := s.spans + [Span(c, c + 1, GetColor(s.cfg.blindMode, "mistake"))],
           cursor := c + 1, started := true)
  {
  }

  /** A non-space where a space is expected is always refused. */
  lemma NonSpaceAtSpace(s: State, key: string, regenerated: string)
    requires |key| == 1 && key != " "
    requires s.cursor < |s.plain| && s.plain[s.cursor] == ' '
    ensures KeyAdd(s, key, regenerated) == s
  {
  }

  /** A space where a space is expected adds a placeholder span and advances,
      but is not counted as a correct key press. */
  lemma SpaceAtSpace(s: State, regenerated: string)
    requires s.cursor < |s.plain| && s.plain[s.cursor] == ' '
    ensures
      var r := KeyAdd(s, " ", regenerated);
      && r.spans == s.spans + [EmptySpan]
      && r.cursor == s.cursor + 1
      && r.correctKeys == s.correctKeys
      && r.started
  {
  }

  /** A space typed inside a word is refused under force-correct; otherwise it
      covers the rest of the word and the next space (or one position past the
      end of the text) with placeholder spans, leaves the cursor one past that
      space, and counts one correct key press. */
  lemma WordSkip(s: State, regenerated: string)
    requires Inv(s)
    requires s.cursor < |s.plain| && s.plain[s.cursor] != ' '
    ensures s.cfg.forceCorrect ==> KeyAdd(s, " ", regenerated) == s
    ensures !s.cfg.forceCorrect ==> (
      InvMakesKeysSafe(s, " ");
      var c := s.cursor;
      var ns := NextBoundary(s.plain, c);
      var r := KeyAdd(s, " ", regenerated);
      && r.spans == s.spans + Empties(ns - c + 1)
      && r.cursor == ns + 1
      && r.correctKeys == s.correctKeys + 1
      && r.started
      && r.plain == s.plain && r.buddy == s.buddy)
  {
    if !s.cfg.forceCorrect {
      SkipTargetIsNextBoundary(s.plain, s.cursor);
    }
  }

  /** Skipping from inside the last word leaves the cursor one past the end
      of the text. */
  lemma SkipInLastWordPassesEnd(s: State, regenerated: string)
    requires Inv(s) && !s.cfg.forceCorrect
    requires s.cursor < |s.plain| && s.plain[s.cursor] != ' '
    requires forall k :: s.cursor < k < |s.plain| ==> s.plain[k] != ' '
    ensures (InvMakesKeysSafe(s, " "); KeyAdd(s, " ", regenerated).cursor == |s.plain| + 1)
  {
    SkipTargetIsNextBoundary(s.plain, s.cursor);
    WordSkip(s, regenerated);
  }

  /** Erasing a position and typing its character again brings the cursor and
      the span count back, and leaves the older spans alone. */
  lemma BackspaceThenRetype(s: State, regenerated: string)
    requires Inv(s) && 0 < s.cursor <= |s.plain|
    ensures (
      var b := KeyAdd(s, BackspaceKey, regenerated);
      InvMakesKeysSafe(b, [s.plain[s.cursor - 1]]);
      var r := KeyAdd(b, [s.plain[s.cursor - 1]], regenerated);
      && r.cursor == s.cursor
      && |r.spans| == |s.spans|
      && r.spans[..|s.spans| - 1] == s.spans[..|s.spans| - 1])
  {
    var b := KeyAdd(s, BackspaceKey, regenerated);
    KeyAddPreservesInv(s, BackspaceKey, regenerated);
    InvMakesKeysSafe(b, [s.plain[s.cursor - 1]]);
  }

  /** A reset clears the position, the pacer, the count and `started`, and
      leaves a session that satisfies the invariant. */
  lemma ResetEstablishesInv(s: State, regenerated: string)
    ensures
      var r := KeyAdd(s, TabKey, regenerated);
      && r.cursor == 0 && r.buddy == 0 && r.correctKeys == 0 && !r.started
      && Inv(r)
  {
  }

  /** Without repeat-same a reset is the same as building a new screen over the
      regenerated paragraph. */
  lemma ResetIsNewScreen(s: State, regenerated: string)
    requires !s.cfg.repeatSame
    ensures ResetScreen(s, regenerated) == Initial(s.cfg, regenerated)
  {
  }

  /** Under repeat-same a second reset changes nothing more, and a reset
      before any key was recorded returns the session to its starting state. */
  lemma RepeatSameReset(s: State, g1: string, g2: string)
    requires s.cfg.repeatSame
    ensures ResetScreen(ResetScreen(s, g1), g2) == ResetScreen(s, g1)
    ensures s.spans == [] ==> ResetScreen(s, g1) == Initial(s.cfg, s.plain)
  {
  }

  /** `n` pacer ticks in a row. */
  function Ticks(s: State, n: nat): State
  {
    if n == 0 then s else MoveCursorBuddy(Ticks(s, n - 1))
  }

  /** After `n` ticks of a started session the pacer has moved `n` places,
      stopping at the last character; before the start it does not move. */
  lemma {:induction false} TicksStopAtLastCharacter(s: State, n: nat)
    ensures !s.started ==> Ticks(s, n) == s
    ensures s.started ==>
      var last := |s.plain| - 1;
      Ticks(s, n) == s.(buddy := if s.buddy >= last then s.buddy
                                 else if s.buddy + n <= last then s.buddy + n
                                 else last)
  {
    if n > 0 {
      TicksStopAtLastCharacter(s, n - 1);
    }
  }

  /** The size mapping is not monotonic: a big paragraph asks for fewer
      repetitions than the fallback used for any unrecognised size. */
  lemma RepetitionsNotMonotonic(other: string)
    requires other !in {"teensy", "small", "big"}
    ensures Repetitions("teensy") < Repetitions("small") < Repetitions("big") < Repetitions(other)
  {
  }

  /** Blind mode hides the outcome: two kinds get the same colour exactly when
      blind mode is on or both are, or both are not, "correct". */
  lemma ColourRevealsOutcome(blind: bool, k1: string, k2: string)
    ensures GetColor(blind, k1) == GetColor(blind, k2) <==>
            blind || ((k1 == "correct") == (k2 == "correct"))
  {
  }
}
