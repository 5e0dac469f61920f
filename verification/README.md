# Typing session of the smassh `Screen` widget, in Dafny

This project models the typing session that the `Screen` widget of smassh
(a terminal typing trainer) keeps while the user types against a generated
paragraph. The session holds:

- the paragraph text;
- the ordered list of spans `[start, end)` with a style, overlaid on the text;
- the cursor;
- the pacer ("cursor buddy") position;
- the number of correct key presses;
- the `started` flag;
- the space boundary table: every index of a space in ascending order, then the length of the text.

The session is an immutable `State`, and each behaviour is a pure function on it:

- `KeyAdd` is one key event: TAB resets, BACKSPACE undoes one position, and a single character is a correct match, a mistake, a word skip or a rejection.
- `ResetScreen` is the reset, corrected to rebuild the space table (see "## Findings").
- `MoveCursorBuddy` is one pacer tick.
- `Overlay` is the span list handed to the renderer.
- `RaceBar` is the race-bar sample.
- `GetColor` and `Repetitions` are the colour choice and the paragraph-size mapping.

The lemmas in `SessionProperties` state what each branch of `KeyAdd` does. They
also state the session invariant that every transition keeps (`Inv`), and they
show that the skip target read from the table with `bisect_right` is the next
space after the cursor, or the end of the text.

Files:

- `spaces.dfy` (module `Spaces`): the space table, `bisect_right` as a
  specification and as the binary search, and the scanning definition of the
  next word boundary.
- `session.dfy` (module `Session`): the data model and the transitions.
- `properties.dfy` (module `SessionProperties`): the lemmas.
- `findings.dfy` (module `StaleSpaceTable`): the reset and the key handling
  as written, and the stale space table they leave behind.

Behaviour of the code that a reader might not expect, modelled as written:

- The word skip fires when a space is typed where the text has a non-space.
  It does not fire the other way round. A non-space typed where a space is
  expected is always rejected.
- After a skip the cursor sits one past the space it skipped to. A skip from
  inside the last word therefore leaves the cursor at `|plain| + 1`
  (`SkipInLastWordPassesEnd`).
- A correctly typed space adds a placeholder span but is not counted as a
  correct key press.
- Nothing in the widget detects the end of the text. No finish transition
  exists, and a printable key with the cursor at or past the end raises
  `IndexError`. That case is the precondition `CanAdd`.
- A repeat-same reset keeps the first span of the list (`spans[:1]`). The
  first typed character's span survives the reset, and the span list then
  runs one ahead of the cursor. `Inv` allows exactly that.
- The paragraph-size mapping is not monotonic: "big" gives 10 repetitions and
  any unknown size gives 15.

## Model

| member | source | states |
|---|---|---|
| Spaces.SpacesFrom | ui/widgets/screen.py:62 | the comprehension's list: strictly ascending, every entry a space index, and every space index is in it |
| Spaces.SpaceTable | ui/widgets/screen.py:62-64 | the table is the ascending space indices with the sentinel `len(plain)` last: sorted, sound and complete |
| Spaces.BisectRight | ui/widgets/screen.py:148-150 | `bisect_right` on a sorted list: every entry before the result is `<= x` and every entry from it on is `> x` |
| Spaces.BisectSearch | ui/widgets/screen.py:148-150 | the halving search of `bisect_right` finds the same position as the specification |
| Spaces.NextBoundary | ui/widgets/screen.py:145-158 | reference word boundary: the least position after the cursor holding a space, or the end of the text |
| Session.GetColor | ui/widgets/screen.py:92-96 | blind mode gives one colour whatever the outcome; otherwise green exactly for "correct", red for anything else |
| Session.Repetitions | ui/widgets/screen.py:119-126 | teensy asks for 2 repetitions, small for 5, big for 10, and any other size falls back to 15 (15 exactly for the sizes that are none of the three) |
| Session.Initial | ui/widgets/screen.py:62-71 | a new screen has no spans, a table describing its text, cursor, pacer and count at 0 and is not started |
| Session.ResetScreen | ui/widgets/screen.py:104-114 | a reset zeroes cursor, pacer and count and clears `started`; repeat-same keeps the text and at most the first span; otherwise the regenerated text with no spans; the table matches the text |
| Session.MoveCursorBuddy | ui/widgets/screen.py:98-102 | a pacer tick is a no-op before the start, moves the pacer by at most one, never past the last character, and changes nothing else |
| Session.SkipTarget | ui/widgets/screen.py:148-150 | the skip target is the least table entry strictly after the cursor, whatever table the session holds |
| Session.Empties | ui/widgets/screen.py:151-156 | `[empty_span] * n` is `n` placeholder spans and nothing else |
| Session.KeyAdd | ui/widgets/screen.py:132-194 | with TAB taking the corrected reset; outside TAB: text, table, pacer and settings stay; spans are only appended or the last one popped; the span count keeps its offset from the cursor; the cursor goes back only by one on BACKSPACE; the count rises by at most one; a printable key is rejected with no change or advances and starts the session |
| Session.Overlay | ui/widgets/screen.py:198-210 | the rendered list is the stored spans unchanged, then a one-character cursor highlight, then a one-character pacer highlight, or a zero-width span when the pacer is off |
| Session.RaceBar | ui/widgets/screen.py:80-90 | before the start the sample is (0, 0); after it, completion times the text length is 100 times the count, and speed times elapsed times 5 is 60 times the count |
| SessionProperties.SkipTargetIsNextBoundary | ui/widgets/screen.py:146-157 | the table entry `bisect_right` selects exists and is the next space after the cursor, or the end of the text |
| SessionProperties.InvMakesKeysSafe | ui/widgets/screen.py:138-164 | in a session reachable with the corrected reset, the only key that can raise is a printable one past the end: BACKSPACE never pops an empty list and a skip always finds its entry |
| SessionProperties.InitialInv | ui/widgets/screen.py:62-71 | a new screen satisfies the session invariant |
| SessionProperties.KeyAddPreservesInv | ui/widgets/screen.py:132-194 | every key event, with TAB taking the corrected reset, keeps the session invariant |
| SessionProperties.MoveCursorBuddyPreservesInv | ui/widgets/screen.py:98-102 | every pacer tick keeps the session invariant |
| SessionProperties.Backspace | ui/widgets/screen.py:138-141 | BACKSPACE at 0 changes nothing; otherwise the cursor drops by one and exactly the last span goes, the others unchanged |
| SessionProperties.TypeExpected | ui/widgets/screen.py:164-172 | the expected non-space appends one correct-coloured span over the cursor, advances by one and counts once, whatever force-correct is |
| SessionProperties.TypeWrong | ui/widgets/screen.py:174-189 | a wrong non-space is refused with no change under force-correct; otherwise one mistake span, cursor plus one, count unchanged |
| SessionProperties.NonSpaceAtSpace | ui/widgets/screen.py:174-179 | a non-space typed where a space is expected leaves the session unchanged, whatever force-correct is |
| SessionProperties.SpaceAtSpace | ui/widgets/screen.py:161-162 | a space where a space is expected appends a placeholder span and advances without counting |
| SessionProperties.WordSkip | ui/widgets/screen.py:145-160 | a space inside a word is refused under force-correct; otherwise it appends `next - c + 1` placeholders, leaves the cursor at `next + 1` and counts once, `next` being the next space or the end |
| SessionProperties.SkipInLastWordPassesEnd | ui/widgets/screen.py:148-157 | a skip from inside the last word leaves the cursor at one past the end of the text |
| SessionProperties.BackspaceThenRetype | ui/widgets/screen.py:138-189 | erasing a position and retyping its character restores the cursor and the span count and keeps the older spans |
| SessionProperties.ResetEstablishesInv | ui/widgets/screen.py:135-136 | TAB zeroes cursor, pacer and count, clears `started` and leaves a session satisfying the invariant |
| SessionProperties.ResetIsNewScreen | ui/widgets/screen.py:111-112 | without repeat-same, a reset equals constructing a new screen over the regenerated text |
| SessionProperties.RepeatSameReset | ui/widgets/screen.py:109-110 | under repeat-same a second reset changes nothing, and a reset before any span was recorded gives back the starting session |
| SessionProperties.TicksStopAtLastCharacter | ui/widgets/screen.py:98-102 | `n` ticks of a started session move the pacer by `n`, saturating at the last character; before the start they change nothing |
| SessionProperties.RepetitionsNotMonotonic | ui/widgets/screen.py:119-126 | the repetitions grow from teensy to small to big, but big asks for fewer than the fallback for any other size |
| SessionProperties.ColourRevealsOutcome | ui/widgets/screen.py:92-96 | two outcomes get the same colour exactly when blind mode is on or both or neither are "correct" |
| StaleSpaceTable.ResetScreenAsWritten | ui/widgets/screen.py:104-114 | the reset as written carries the constructor's space table over unchanged, otherwise agreeing with the corrected reset |
| StaleSpaceTable.KeyAddAsWritten | ui/widgets/screen.py:132-194 | key events as the widget handles them never change the space table |
| StaleSpaceTable.KeyAddAsWrittenDiffersOnlyInTable | ui/widgets/screen.py:135-136 | the widget's key handling and the corrected one agree on every key in every field except the space table |
| StaleSpaceTable.StaleTableSkipsIntoWord | ui/widgets/screen.py:104-114 | after a reset from "ab cd" onto "abcdef" the table is still [2, 5], and a space typed at the start stops inside the word at position 3 |
| StaleSpaceTable.TypeAbc | ui/widgets/screen.py:164-172 | typing "abc" at the start of "abcd ef" is three correct keys that leave the cursor at 3 and change neither text nor table |
| StaleSpaceTable.StaleTableCanRaise | ui/widgets/screen.py:146-150 | after a screen over "ab" resets onto "abcd ef" and "abc" is typed, a space finds no table entry past the cursor (the widget raises `IndexError`), while a rebuilt table has one |
| StaleSpaceTable.RebuiltTableSkipsToBoundary | ui/widgets/screen.py:62-64 | with the table rebuilt, the same space skips the whole word to one past the end of the new text |

## Findings

| source | as written | input that shows it | evidently intended | confidence | as-written member | corrected member |
|---|---|---|---|---|---|---|
| ui/widgets/screen.py:104-114 | `reset_screen` without repeat-same regenerates the paragraph but keeps `self.spaces`, which only the constructor (line 62) computes | screen over "ab cd", TAB with the new paragraph "abcdef", then a space: the skip lands at position 3, inside the word, instead of past the end; with a longer new text the `bisect` index can also fall off the table and raise `IndexError` | the table is rebuilt whenever the paragraph changes | medium, not executed | StaleSpaceTable.ResetScreenAsWritten | Session.ResetScreen |

`Session.KeyAdd` uses the corrected `Session.ResetScreen`. Everything else in
`KeyAdd` follows the widget as written. `StaleSpaceTable.KeyAddAsWritten` is the
widget's own key handling, and `StaleTableCanRaise` shows it raising.

## Left out

- Session.KeyAdd: TAB takes the corrected reset, which rebuilds the space table, so in the model the table always matches the text. The widget keeps the constructor's table (see "## Findings"). `StaleSpaceTable.KeyAddAsWritten` models that behaviour.
- SessionProperties.InvMakesKeysSafe: holds for sessions reached with the corrected reset. In the widget a skip after a regenerating TAB can look past the end of the stale table and raise `IndexError` (`StaleSpaceTable.StaleTableCanRaise`).
- SessionProperties.KeyAddPreservesInv: like `InvMakesKeysSafe`, it relies on the corrected reset. The widget's TAB breaks the first clause of `Inv` (the table matches the text).
- `console.bell()` and every `refresh()` call: terminal side effects with no state.
- The timers (`set_interval` with period `60 / (5 * speed)` and `0.2`): `MoveCursorBuddy` and `RaceBar` are single steps, and the schedule is not modelled.
- `start_time` and `time.time()`: the clock is a parameter. `RaceBar` takes the elapsed seconds, and the state has no timestamp.
- RaceBar: uses exact real arithmetic, so the rounding of Python floats is not modelled. A zero text length or zero elapsed time would raise `ZeroDivisionError`. RaceBar requires both to be nonzero once started.
- The paragraph generator (`chomsky`), the configuration lookup (`Parser().get_data`) and the terminal size: external code. A regenerated paragraph is an arbitrary input string (`regenerated`), and the line width `columns - 5` handed to the generator is not modelled.
- The rich `Panel`/`Text` objects and the textual `Message`/`emit` plumbing: `Overlay` models only the list of spans given to the renderer, and `RaceBar` models only the pair of numbers emitted.
- `FinishedTyping` is declared but never emitted by the widget, so no finish transition is modelled.
- Stored but never consulted settings (`speed_threshold`, `accuracy_threshhold`, `min_burst`, `tab_reset`, `difficulty`, `single_line_words`, `sound`, `caret_style`, `mistakes`, `mistakes_hashmap`): they have no behaviour to model.
- Keys that raise in the widget are outside the model, through the precondition `CanAdd`: a printable key with no character under the cursor, a skip whose `bisect` index falls off the table, and a BACKSPACE with nothing to pop.
- termtyper/ui/tui.py (screen switching, key forwarding, opening a browser) and the settings package's re-exports: UI plumbing with no session logic.
