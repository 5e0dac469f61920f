/** The typing session held by the `Screen` widget: the paragraph, the span
    list overlaid on it, the cursor, the pacer ("cursor buddy"), the count of
    correct key presses and the `started` flag, with the transitions that
    change them. */
module Session {
  import opened Spaces

  /** A styled half-open range `[start, end)` of the paragraph. */
  datatype Span = Span(start: int, end: int, style: string)

  /** The placeholder span appended for a typed space and for skipped text. */
  const EmptySpan := Span(0, 0, "")

  /** The key names that reach the widget for TAB and BACKSPACE. */
  const TabKey := "ctrl+i"
  const BackspaceKey := "ctrl+h"

  /** The configuration fields the session consults. */
  datatype Config = Config(
    forceCorrect: bool,
    repeatSame: bool,
    blindMode: bool,
    buddySpeed: int)

  datatype State = State(
    cfg: Config,
    plain: string,
    spans: seq<Span>,
    spaces: seq<int>,
    cursor: nat,
    buddy: nat,
    correctKeys: nat,
    started: bool)

  /** `n` copies of the placeholder span. */
  function Empties(n: nat): (r: seq<Span>)
    ensures |r| == n
    ensures forall k :: 0 <= k < n ==> r[k] == EmptySpan
  {
    seq(n, _ => EmptySpan)
  }

  /** The style of a typed-character span. */
  function GetColor(blind: bool, kind: string): (colour: string)
    ensures blind ==> colour == "yellow"
    ensures !blind ==> (colour == "green" <==> kind == "correct")
    ensures !blind ==> colour in {"green", "red"}
  {
    if blind then "yellow" else if kind == "correct" then "green" else "red"
  }

  /** How many sentence repetitions the generator is asked for, by paragraph size. */
  function Repetitions(size: string): (times: nat)
    ensures size == "teensy" ==> times == 2
    ensures size == "small" ==> times == 5
    ensures size == "big" ==> times == 10
    ensures times in {2, 5, 10, 15}
    ensures times == 15 <==> size !in {"teensy", "small", "big"}
  {
    if size == "teensy" then 2
    else if size == "small" then 5
    else if size == "big" then 10
    else 15
  }

  /** The session a new screen starts with, over the paragraph `plain`. */
  function Initial(cfg: Config, plain: string): (r: State)
    ensures r.plain == plain && r.cfg == cfg && r.spans == []
    ensures r.spaces == SpaceTable(plain)
    ensures r.cursor == 0 && r.buddy == 0 && r.correctKeys == 0 && !r.started
  {
    State(cfg, plain, [], SpaceTable(plain), 0, 0, 0, false)
  }

  /** Everything a reachable session satisfies: the space table describes the
      current paragraph, the span list runs level with the cursor (one ahead at
      most, after a repeat-same reset), the cursor is at most one past the end
      of the text, and the pacer stays on a character. */
  predicate Inv(s: State) {
    && s.spaces == SpaceTable(s.plain)
    && s.cursor <= |s.spans| <= s.cursor + 1
    && s.cursor <= |s.plain| + 1
    && (s.buddy == 0 || s.buddy < |s.plain|)
  }

  /** Reset of the session as the widget does it, except that the space table
      is rebuilt for the paragraph the session continues with. Under
      repeat-same the paragraph stays and the span list keeps its first entry;
      otherwise `regenerated` is the newly generated paragraph. */
  function ResetScreen(s: State, regenerated: string): (r: State)
    ensures r.cursor == 0 && r.buddy == 0 && r.correctKeys == 0 && !r.started
    ensures r.cfg == s.cfg
    ensures r.spaces == SpaceTable(r.plain)
    ensures s.cfg.repeatSame ==> r.plain == s.plain && |r.spans| <= 1 && r.spans <= s.spans
    ensures s.cfg.repeatSame && s.spans != [] ==> r.spans == [s.spans[0]]
    ensures !s.cfg.repeatSame ==> r.plain == regenerated && r.spans == []
  {
    var plain := if s.cfg.repeatSame then s.plain else regenerated;
    var spans := if s.cfg.repeatSame then s.spans[..if |s.spans| < 1 then |s.spans| else 1] else [];
    State(s.cfg, plain, spans, SpaceTable(plain), 0, 0, 0, false)
  }

  /** One tick of the pacer timer. */
  function MoveCursorBuddy(s: State): (r: State)
    ensures r == s.(buddy := r.buddy)
    ensures !s.started ==> r == s
    ensures s.buddy <= r.buddy <= s.buddy + 1
    ensures r.buddy != s.buddy ==> r.buddy <= |s.plain| - 1
    ensures s.started && s.buddy < |s.plain| - 1 ==> r.buddy == s.buddy + 1
  {
    if s.started && s.buddy < |s.plain| - 1 then s.(buddy := s.buddy + 1) else s
  }

  /** The key would take the word-skip branch: a space typed where the text has
      something else, with force-correct off. */
  predicate IsSkip(s: State, key: string) {
    && key == " "
    && s.cursor < |s.plain|
    && s.plain[s.cursor] != ' '
    && !s.cfg.forceCorrect
  }

  /** The key would not raise: a printable key needs a character under the
      cursor, a skip needs a table entry past the cursor, and a backspace away
      from the start needs a span to pop. */
  predicate CanAdd(s: State, key: string) {
    && (key == BackspaceKey && s.cursor > 0 ==> |s.spans| > 0)
    && (|key| == 1 ==> s.cursor < |s.plain|)
    && (IsSkip(s, key) ==> Sorted(s.spaces) && BisectRight(s.spaces, s.cursor) < |s.spaces|)
  }

  /** The common tail of every accepted printable key. */
  function Accept(s: State): (r: State)
    ensures r == s.(cursor := r.cursor, started := true)
    ensures r.cursor == s.cursor + 1
  {
    s.(cursor := s.cursor + 1, started := true)
  }

  /** The table entry a skip from the cursor lands on. */
  function SkipTarget(s: State): (ns: nat)
    requires Sorted(s.spaces) && BisectRight(s.spaces, s.cursor) < |s.spaces|
    ensures ns > s.cursor
    ensures ns in s.spaces
    ensures forall k :: 0 <= k < |s.spaces| && s.spaces[k] > s.cursor ==> ns <= s.spaces[k]
  {
    s.spaces[BisectRight(s.spaces, s.cursor)]
  }

  /** One key event. `regenerated` is the paragraph the generator would hand a reset
      that does not repeat the same text. */
  function KeyAdd(s: State, key: string, regenerated: string): (r: State)
    requires CanAdd(s, key)
    // Only a reset changes the paragraph, the table, the pacer or the settings.
    ensures key != TabKey ==> r.plain == s.plain && r.spaces == s.spaces && r.buddy == s.buddy && r.cfg == s.cfg
    // Spans are appended at the tail or the last one is popped, never rewritten.
    ensures key != TabKey ==> s.spans <= r.spans || (r.spans <= s.spans && |r.spans| == |s.spans| - 1)
    // The span list keeps its offset from the cursor.
    ensures key != TabKey ==> |r.spans| - r.cursor == |s.spans| - s.cursor
    // The cursor moves back only by one, and only on BACKSPACE.
    ensures key != TabKey && r.cursor < s.cursor ==> key == BackspaceKey && r.cursor == s.cursor - 1
    ensures key != TabKey ==> s.correctKeys <= r.correctKeys <= s.correctKeys + 1
    // A printable key is either rejected outright or advances and starts the session.
    ensures |key| == 1 ==> r == s || (r.started && r.cursor > s.cursor)
    ensures |key| != 1 && key != TabKey ==> r.started == s.started
  {
    if key == TabKey then
      ResetScreen(s, regenerated)
    else if key == BackspaceKey then
      if s.cursor > 0 then s.(cursor := s.cursor - 1, spans := s.spans[..|s.spans| - 1]) else s
    else if |key| == 1 then
      var c := s.cursor;
      if key == " " then
        if s.plain[c] != ' ' then
          if !s.cfg.forceCorrect then
            var ns := SkipTarget(s);
            Accept(s.(spans := s.spans + Empties(ns - c + 1), cursor := ns,
                      correctKeys := s.correctKeys + 1))
          else
            s
        else
          Accept(s.(spans := s.spans + [EmptySpan]))
      else if key == [s.plain[c]] then
        Accept(s.(spans := s.spans + [Span(c, c + 1, GetColor(s.cfg.blindMode, "correct"))],
                  correctKeys := s.correctKeys + 1))
      else if s.plain[c] == ' ' || s.cfg.forceCorrect then
        s
      else
        Accept(s.(spans := s.spans + [Span(c, c + 1, GetColor(s.cfg.blindMode, "mistake"))]))
    else
      s
  }

  /** The span list handed to the renderer: the stored spans, then the cursor
      highlight, then the pacer highlight or a zero-width span when the pacer is
      switched off. */
  function Overlay(s: State): (r: seq<Span>)
    ensures |r| == |s.spans| + 2
    ensures r[..|s.spans|] == s.spans
    ensures r[|s.spans|].start == s.cursor && r[|s.spans|].end == s.cursor + 1
    ensures var p := r[|s.spans| + 1]; p.end - p.start == (if s.cfg.buddySpeed != 0 then 1 else 0)
    ensures s.cfg.buddySpeed != 0 ==> r[|s.spans| + 1].start == s.buddy
  {
    var pacer := if s.cfg.buddySpeed != 0 then Span(s.buddy, s.buddy + 1, "reverse magenta")
                 else Span(0, 0, "");
    s.spans + [Span(s.cursor, s.cursor + 1, "reverse")] + [pacer]
  }

  /** The race-bar sample: completion percentage and words per minute (five
      characters to a word), or `(0, 0)` before the first accepted key.
      `elapsed` is the time since the first accepted key, in seconds. */
  function RaceBar(s: State, elapsed: real): (r: (real, real))
    requires s.started ==> |s.plain| > 0 && elapsed != 0.0
    ensures !s.started ==> r == (0.0, 0.0)
    ensures s.started ==> r.0 * (|s.plain| as real) == 100.0 * (s.correctKeys as real)
    ensures s.started ==> r.1 * elapsed * 5.0 == 60.0 * (s.correctKeys as real)
  {
    if s.started then
      (100.0 * (s.correctKeys as real) / (|s.plain| as real),
       60.0 * (s.correctKeys as real) / elapsed / 5.0)
    else
      (0.0, 0.0)
  }
}
