/** The reset as the widget performs it: the paragraph is regenerated but the
    space table built by the constructor is kept, so it can describe a text
    the session no longer shows. */
module StaleSpaceTable {
  import opened Spaces
  import opened Session
  import opened SessionProperties

  /** `reset_screen` line for line: the table is carried over unchanged. */
  function ResetScreenAsWritten(s: State, regenerated: string): (r: State)
    ensures r.spaces == s.spaces
    ensures r == ResetScreen(s, regenerated).(spaces := s.spaces)
  {
    var plain := if s.cfg.repeatSame then s.plain else regenerated;
    var spans := if s.cfg.repeatSame then s.spans[..if |s.spans| < 1 then |s.spans| else 1] else [];
    State(s.cfg, plain, spans, s.spaces, 0, 0, 0, false)
  }

  /** Key events as the widget handles them: TAB takes the as-written reset,
      so the table is never rebuilt; every other key is `KeyAdd`. */
  function KeyAddAsWritten(s: State, key: string, regenerated: string): (r: State)
    requires CanAdd(s, key)
    ensures r.spaces == s.spaces
  {
    if key == TabKey then ResetScreenAsWritten(s, regenerated) else KeyAdd(s, key, regenerated)
  }

  /** The widget and the corrected model agree on every key in every field
      but the space table. */
  lemma KeyAddAsWrittenDiffersOnlyInTable(s: State, key: string, regenerated: string)
    requires CanAdd(s, key)
    ensures KeyAddAsWritten(s, key, regenerated) == KeyAdd(s, key, regenerated).(spaces := s.spaces)
  {
  }

  /** Skips allowed, no repeat-same, no blind mode, pacer at 40 words a minute. */
  const NoForceCorrect := Config(false, false, false, 40)

  /** After a screen over "ab cd" resets onto "abcdef", a space typed at the
      start skips to the old space position 2, stopping inside the word with
      three placeholder spans, although the next boundary of the new text is
      its end. */
  lemma StaleTableSkipsIntoWord()
    ensures
      var s := ResetScreenAsWritten(Initial(NoForceCorrect, "ab cd"), "abcdef");
      && s.spaces == [2, 5]
      && s.spaces != SpaceTable(s.plain)
      && CanAdd(s, " ")
      && KeyAdd(s, " ", "").cursor == 3
      && s.plain[2] != ' '
      && NextBoundary(s.plain, 0) == 6
  {
    var s := ResetScreenAsWritten(Initial(NoForceCorrect, "ab cd"), "abcdef");
    assert SpaceTable("ab cd") == [2, 5];
    assert SpaceTable("abcdef") == [6];
    assert BisectRight([2, 5], 0) == 0;
  }

  /** With the table rebuilt on reset, the same keystroke skips the whole
      word to the end of the new text. */
  lemma RebuiltTableSkipsToBoundary()
    ensures
      var s := ResetScreen(Initial(NoForceCorrect, "ab cd"), "abcdef");
      && s.spaces == SpaceTable(s.plain)
      && CanAdd(s, " ")
      && KeyAdd(s, " ", "").cursor == 7
  {
    var s0 := Initial(NoForceCorrect, "ab cd");
    var s := ResetScreen(s0, "abcdef");
    ResetEstablishesInv(s0, "abcdef");
    assert s == KeyAdd(s0, TabKey, "abcdef");
    InvMakesKeysSafe(s, " ");
    WordSkip(s, "");
    assert NextBoundary(s.plain, 0) == 6;
  }

  /** Typing "abc" at the start of "abcd ef" keeps the table and leaves the
      cursor at 3, inside the first word. */
  lemma TypeAbc(s: State)
    requires s.plain == "abcd ef" && s.cursor == 0
    ensures CanAdd(s, "a")
    ensures var s2 := KeyAddAsWritten(s, "a", "");
      && CanAdd(s2, "b")
      && (var s3 := KeyAddAsWritten(s2, "b", "");
          && CanAdd(s3, "c")
          && (var s4 := KeyAddAsWritten(s3, "c", "");
              s4 == s.(spans := s4.spans, cursor := 3, correctKeys := s.correctKeys + 3, started := true)))
  {
    assert "a" == [s.plain[0]];
    TypeExpected(s, "");
    var s2 := KeyAddAsWritten(s, "a", "");
    assert "b" == [s2.plain[1]];
    TypeExpected(s2, "");
    var s3 := KeyAddAsWritten(s2, "b", "");
    assert "c" == [s3.plain[2]];
    TypeExpected(s3, "");
  }

  /** A screen over "ab" (table [2]) resets onto "abcd ef"; after "abc" a
      space inside the word asks `bisect` for an entry past 3, and there is
      none: the widget raises `IndexError` where a rebuilt table [4, 7] gives
      the skip its target. */
  lemma StaleTableCanRaise()
    ensures
      var s1 := ResetScreenAsWritten(Initial(NoForceCorrect, "ab"), "abcd ef");
      && s1 == KeyAddAsWritten(Initial(NoForceCorrect, "ab"), TabKey, "abcd ef")
      && s1.spaces == [2]
      && CanAdd(s1, "a")
      && (var s4 := KeyAddAsWritten(KeyAddAsWritten(KeyAddAsWritten(s1, "a", ""), "b", ""), "c", "");
          && s4.cursor == 3
          && IsSkip(s4, " ")
          && !CanAdd(s4, " ")
          && CanAdd(s4.(spaces := SpaceTable(s4.plain)), " "))
  {
    assert SpaceTable("ab") == [2];
    var s1 := ResetScreenAsWritten(Initial(NoForceCorrect, "ab"), "abcd ef");
    TypeAbc(s1);
    var s4 := KeyAddAsWritten(KeyAddAsWritten(KeyAddAsWritten(s1, "a", ""), "b", ""), "c", "");
    assert BisectRight([2], 3) == 1;
    SkipTargetIsNextBoundary(s4.plain, 3);
  }
}
