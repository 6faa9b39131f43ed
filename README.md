# Clear the Points: the board's state machine

Clear the Points is a browser reaction game. The player types a count N and
presses Play. N numbered points appear, and the player must click them in
ascending order. A correct click marks the point; 300 ms later a callback
removes it and moves the expected id on by one. A wrong click ends the round
(GAME OVER). An empty board ends it as ALL CLEARED. A clock counts tenths of
a second while the round is being played.

All of this lives in one React component, `ClearThePoints`. Its seven state
cells are `points`, `pointCount`, `isPlaying`, `time`, `nextId`, `status` and
`clickedPoints`. Its behaviour is spread over two event handlers (Play and
point click), a 300 ms `setTimeout` callback set by the click handler, a
100 ms `setInterval` ticker, and an effect that notices an empty board.

The project has four modules:

- `PointList` (point_list.dfy): the ids dealt at the start of a round
  (`DealtIds`) and the filter that drops a removed point (`Without`). Lemmas
  tie the filter to independent descriptions: membership, multiplicities,
  order (`IsSubsequence`) and, on an ascending board, "removes at most one".
- `GameRules` (game_rules.dfy): the cells as one value (`Snapshot`), plus
  `pending`, the queue (oldest first) of ids whose removal callback is
  scheduled but has not fired. Each handler, callback and effect is a pure
  step function. `Event`, `Step` and `Run` describe whole runs. `Consistent`
  is the invariant of every reachable state. The lemmas cover the Play
  guard, the reset Play performs, the idempotence of the cleared check, the
  clock, the absorbing end states, a correct play-through, and the two
  quirks of the code.
- `GameBoard` (game_board.dfy): class `Game` holds the cells as fields and
  has one method per handler, callback and effect. Each method is proved to
  leave `State()` equal to the matching `GameRules` function of the old
  state, to keep `Valid()`, and to produce the field-by-field new state
  written out in its `ensures`.
- `Display` (display.dfy): the heading and the button label as functions of
  the status.

Timers and React scheduling are not modelled. The environment calls the
methods one at a time, in any order:

- `FireRemoval` is the oldest scheduled timeout firing.
- `Tick` is one period of the interval.
- `CheckCleared` is the effect running.
- `SetPointCount` is the input's change handler, with `parseInt`'s result
  given as a `PointCount` value: `Empty`, `NotANumber` or `Num(n)`.

`time` is a natural number of tenths of a second.

Behaviour of the code worth noting:

- A point is removed by a fixed 300 ms timeout per correct click, and the
  expected id moves on when that timeout fires, not at the click.
- Pressing Play does not cancel timeouts from the previous round. A removal
  still scheduled fires in the new round: it removes that id from the new
  board and moves `nextId` on (`StaleRemovalLeaksIntoNextRound`,
  `GameBoard.RestartLeavesStaleRemoval`). The removal also ignores GAME OVER
  and ALL CLEARED.
- Clicking the expected id twice before its timeout fires records it twice
  and schedules two increments, so the next id is skipped
  (`DoubleClickSkipsAnId`).
- The Play alert asks for a number "greater than 3", but 3 is accepted
  (`PlayGuard`).

## Model

| member | source | states |
|---|---|---|
| GameBoard.Game.constructor | src/components/layouts/index.tsx:11-17 | every cell starts at its `useState` initial value: no points, empty input, not playing, time 0, expected id 0, Idle, nothing clicked, nothing scheduled |
| GameBoard.Game.SetPointCount | src/components/layouts/index.tsx:46-49 | the input's value becomes the given parsed count and no other cell changes |
| GameBoard.Game.Play | src/components/layouts/index.tsx:51-63 | refuses (alert, nothing changes) unless the count is a number, not NaN, and at least 3; otherwise time 0, expected id 0, Playing, running, nothing clicked, and exactly `count` points with ids 0..count-1 in order; scheduled removals are kept |
| GameBoard.Game.Click | src/components/layouts/index.tsx:65-80 | ignored unless Playing; the expected id is appended to the clicked list and queued for removal, with board, expected id and status untouched; any other id gives GameOver and stops the run, leaving board and expected id as they were |
| GameBoard.Game.FireRemoval | src/components/layouts/index.tsx:71-74 | the oldest scheduled id leaves the queue; every point with that id is dropped, the others are kept in order, at most one point goes; the expected id grows by exactly 1; the status is neither read nor changed |
| GameBoard.Game.Tick | src/components/layouts/index.tsx:19-27 | the clock gains one tenth exactly when the status is Playing; nothing else changes |
| GameBoard.Game.CheckCleared | src/components/layouts/index.tsx:29-34 | an empty board while running and Playing becomes Cleared and stays running; otherwise nothing changes |
| GameBoard.RestartLeavesStaleRemoval | src/components/layouts/index.tsx:57-74 | through the class: a removal scheduled before Restart fires in the new round and leaves it with points 1 and 2, id 1 expected, nothing clicked |
| PointList.Span | src/components/layouts/index.tsx:38-39 | the ids k..n-1: n - k of them, ascending, all at least k and below n |
| PointList.DealtIds | src/components/layouts/index.tsx:38-39 | the `Array.from` ids of a round of `count` points: exactly `count` of them, ascending |
| PointList.Without | src/components/layouts/index.tsx:72 | the filter on `p.id !== id`: the removed id is gone, no id is added, the board never grows, and an ascending board stays ascending |
| GameRules.Initial | src/components/layouts/index.tsx:11-17 | the `useState` initial values form a consistent Idle state that is not running |
| GameRules.EnterCount | src/components/layouts/index.tsx:46-49 | only the input cell changes, to the parsed count; consistency is kept |
| GameRules.Play | src/components/layouts/index.tsx:51-63 | a refused count changes nothing; an accepted one gives a running Playing round of exactly `count` points with the input and the scheduled removals kept; consistency is kept |
| GameRules.Click | src/components/layouts/index.tsx:65-80 | no click touches the board, the expected id or the clock; the state is GameOver afterwards exactly when it was already, or a round was being played and the id was not the expected one; exactly one removal is scheduled exactly for the expected id while playing; consistency is kept |
| GameRules.FireRemoval | src/components/layouts/index.tsx:71-74 | the oldest scheduled id leaves the queue and the board, the board never grows, the expected id grows by exactly 1, and status, running flag, clock and clicked list are left alone; consistency is kept |
| GameRules.Tick | src/components/layouts/index.tsx:21-24 | the clock never goes back and no other cell changes; consistency is kept |
| GameRules.CheckCleared | src/components/layouts/index.tsx:29-34 | only the status can change, only from Playing, and the result is Cleared exactly when it was already or the board is empty while running and Playing; consistency is kept |
| PointList.DealtIdsAreTheRange | src/components/layouts/index.tsx:36-44 | a round of `count` points has exactly `count` ids, id i at index i, ascending, and holds exactly 0..count-1 |
| PointList.WithoutMembers | src/components/layouts/index.tsx:72 | after the filter an id is on the board exactly when it was before and differs from the removed id |
| PointList.WithoutKeepsOrder | src/components/layouts/index.tsx:72 | the filtered board is a subsequence of the old board: the survivors keep their order |
| PointList.WithoutCounts | src/components/layouts/index.tsx:72 | the filtered board has every other id with its old multiplicity and none of the removed id |
| PointList.WithoutAbsent | src/components/layouts/index.tsx:72 | removing an id that is not on the board leaves the board unchanged |
| PointList.WithoutOnAscending | src/components/layouts/index.tsx:72 | on an ascending board the filter keeps it ascending and shortens it by exactly one when the id is present, by none otherwise |
| GameRules.StepPreservesConsistent | src/components/layouts/index.tsx:11-80 | every event keeps the invariant: running exactly in Playing and Cleared, Idle only as the untouched start, board ascending |
| GameRules.RunPreservesConsistent | src/components/layouts/index.tsx:11-80 | any run of events from a consistent state ends in a consistent state |
| GameRules.ReachableIsConsistent | src/components/layouts/index.tsx:11-80 | every state reachable from the initial one is consistent |
| GameRules.PlayGuard | src/components/layouts/index.tsx:52-55 | Play changes nothing for an empty input, NaN or any number below 3, and starts a round for 3 |
| GameRules.PlayStartsFreshRound | src/components/layouts/index.tsx:57-62 | an accepted Play deals `count` ascending points with id i at index i, zeroes the clock and the expected id, empties the clicked list, sets Playing and running, and keeps scheduled removals |
| GameRules.CheckClearedIdempotent | src/components/layouts/index.tsx:29-34 | running the cleared check twice equals running it once |
| GameRules.TickAdvancesIffPlaying | src/components/layouts/index.tsx:19-27 | in a consistent state a tick adds one tenth when Playing and nothing otherwise |
| GameRules.TimeNeverDecreases | src/components/layouts/index.tsx:19-27 | over any run of events without Play the clock does not go back |
| GameRules.TerminalIsAbsorbing | src/components/layouts/index.tsx:19-80 | from Cleared or GameOver, any run without Play keeps the status, the running flag, the clock and the clicked list |
| GameRules.OneCorrectClick | src/components/layouts/index.tsx:65-74 | on a board k..n-1 with k expected, Playing and nothing scheduled from an earlier round, a correct click, its removal and the effect take the point off the board, move the expected id on by one, record the id, and clear the round exactly when it was the last point |
| GameRules.CorrectClicksClear | src/components/layouts/index.tsx:29-80 | with points k..n-1 left, k expected and nothing scheduled, clicking them in order ends Cleared, with an empty board, n expected, k..n-1 appended to the clicked list and the clock untouched |
| GameRules.FreshRoundCanBeCleared | src/components/layouts/index.tsx:51-80 | from any state with nothing scheduled from an earlier round, entering n >= 3, pressing Play and clicking 0..n-1 in order ends Cleared with 0..n-1 recorded and n expected, and no state after Play is GameOver |
| GameRules.StaleRemovalLeaksIntoNextRound | src/components/layouts/index.tsx:57-74 | from any state with nothing scheduled, enter 3, Play, click 0, Restart, then the old timeout: the new round is Playing with points 1 and 2 only and 1 expected |
| GameRules.DoubleClickSkipsAnId | src/components/layouts/index.tsx:68-74 | from any state with nothing scheduled, in a round of 3, clicking 0 twice before its removal records 0 twice and leads to expected id 2 with point 1 still on the board, so clicking 1 ends the game |
| Display.Title | src/components/layouts/index.tsx:82-93 | LET'S PLAY exactly for Idle and Playing, ALL CLEARED exactly for Cleared, GAME OVER exactly for GameOver; highlighted in `text-red-700` exactly for the two end states, no colour class otherwise |
| Display.ButtonLabel | src/components/layouts/index.tsx:120 | "Play" exactly when Idle, "Restart" otherwise |
| Display.RestartOnceStarted | src/components/layouts/index.tsx:120 | once a round has started the label stays Restart whatever events follow |
| Display.HighlightedIffFrozen | src/components/layouts/index.tsx:82-93 | after the first round has started, the heading is red exactly when the clock is frozen, and a red heading means clicks are ignored |

## Left out

- Point coordinates: the random `top`/`left` percentages use `Math.random` and floating point. Only the ids are modelled.
- The clock as a float with `toFixed(1)` formatting: `time` counts whole tenths, so the drift of repeatedly adding 0.1 is not modelled.
- `parseInt` semantics: the input handler's parsed value is taken as a `PointCount` (empty, NaN, or an integer).
- Timer and React scheduling: `setTimeout`, `setInterval`, `clearInterval`, effect dependency tracking and re-renders are not modelled. The environment calls the matching method instead. Each handler is assumed to see the cells as the previous call left them, that is, after a re-render. The cleared effect may be called at any time; outside its guard it does nothing.
- The 300 ms and 100 ms delays: there is no wall clock. A scheduled removal fires when the environment calls `FireRemoval`, oldest first, since all timeouts have the same delay.
- GameRules.Play: deals a round for every count of 3 or more. For a count of 2^32 or more, `Array.from` at index.tsx:38 throws a RangeError after the time, expected-id and status updates are queued, so the source never deals that round. This error path, and whatever React then commits, is not modelled, so `ReachableIsConsistent` also covers states that only such counts reach.
- GameBoard.Game.Play: same as GameRules.Play; a count of 2^32 or more is dealt like any other.
- GameBoard.Game.FireRemoval: requires a scheduled removal, because a timeout callback runs only after it has been scheduled.
- The `alert` itself: only whether it is shown is modelled, as Play's `refused` result. JSX, CSS, the `id + 1` label on each point and the red colouring of clicked points are not modelled.
- The unreachable last `return` of `renderTitle` (empty text and colour): the status type has only the four values that the earlier branches cover.
- src/components/common/button.tsx, src/components/common/input.tsx (styling wrappers) and vite.config.ts (build configuration) have no game logic.
