# Snake game engine and shell logic, in Dafny

This project models a browser snake game on a 16-by-16 board whose edges wrap
around. It has two parts.

- **The game engine** (`snakeLogic.js`) is a state-transition function over
  one game record:
  - a new session;
  - buffering a turn;
  - pausing;
  - the per-tick move with eating, tiered scoring (normal, silver and golden
    food) and self-collision;
  - placing food on a free cell.
- **The shell logic** (`main.js`) holds the small rules of the shell:
  - the fading trail of cells the tail leaves behind;
  - the `mm:ss` clock text;
  - the direction a swipe gesture stands for;
  - which input sources count in which control mode;
  - the movement step and the end of a round.

## How the model is built

The modules follow the program:

- `JsPrims` holds the JavaScript built-ins the code relies on:
  - truncating `%`;
  - `Math.max` and `Math.abs`;
  - integer `toString`;
  - `padStart`.
- `Board` holds the grid constants, positions, directions and wrap-around.
- `Food` holds `placeFood`.
- `Engine` holds the game record and its transitions.
- `Trail` holds the trail buffer rules.
- `Clock` holds `formatTime`.
- `Controls` holds the swipe and input-gating rules.
- `Ui` holds the mutable module-level variables of `main.js`, as the class
  `Ui.App`, and the handlers that update them.

The engine never mutates a state. Its operations return a new `State`. Most
are functions. Four are methods:

- `Engine.Tick` threads accumulators, as the source does.
- `Food.PlaceFood` fills a list in two nested loops, as the source does.
- `Engine.CreateInitialState` and `Engine.RestartGame` call `Food.PlaceFood`,
  and a function cannot call a method.

The two loop methods are proved against a specification:

- `Engine.TickOutcome` for the tick;
- `Food.FreeCells` and `Food.PickFree` for food placement.

The engine keeps an invariant, `Engine.Valid`:

- the snake is non-empty and on the board;
- it has no repeated cell unless the game is over;
- food is absent only in a finished game, and otherwise lies on a free cell;
- the buffered direction never reverses the current one.

Every engine operation preserves it.

The source's constants map to these definitions:

- `DIRECTIONS` (snakeLogic.js:3-8) is `Board.Direction`, with its vectors
  given by `Dx` and `Dy`.
- The starting snake (snakeLogic.js:17-21) is `Engine.InitialSnake`.
- The score deltas 1, 5 and 10 (snakeLogic.js:94, 98 and 102) are
  `Engine.Reward`. Food is `Option<Pos>`: the source's
`food: null` is `None`.

The random source `randomFn` becomes a `draw: nat` supplied by the caller.
`placeFood` picks the free cell at index `draw % |freeCells|`. Every draw
therefore gives a valid index, and `draw = i` with `i < |freeCells|` picks
exactly the `i`-th free cell in row-major order.

## Model

| member | source | states |
|---|---|---|
| JsPrims.JsRem | snakeLogic.js:149-150 | JavaScript `%` for a positive divisor: the Euclidean remainder on non-negative dividends, and the negated remainder of the negation (a value in (-n, 0]) on negative ones |
| JsPrims.Max | main.js:101 | `Math.max(a, b)` is at least both arguments and is one of them |
| JsPrims.Abs | main.js:452 | `Math.abs(a)` is non-negative and is a or -a |
| JsPrims.NatToDecimal | main.js:98-99 | the decimal numeral of a natural number is non-empty, has no leading zero, is one digit exactly below 10 and at most two below 100 |
| JsPrims.NatToDecimalValue | main.js:98-99 | the numeral is all digits and reads back as the number it was written from |
| JsPrims.IntToString | main.js:98-99 | `toString` of an integer: the numeral for non-negative values, '-' followed by the numeral of the magnitude for negative ones |
| JsPrims.PadStart | main.js:100 | `padStart(width, fill)` gives length max(length, width) and ends with the original string |
| JsPrims.PadStartPrefix | main.js:100 | every character in front of the original string is the fill character |
| JsPrims.PadStartValue | main.js:100 | zero-padding a numeral keeps it a numeral of the same value |
| JsPrims.LeadingZero | main.js:100 | one leading zero keeps a numeral's value |
| Board.PositionsEqual | snakeLogic.js:170-172 | coordinate-wise comparison holds exactly when the positions are equal |
| Board.IsOppositeDirection | snakeLogic.js:166-168 | the vectors sum to (0, 0) exactly when each direction is the reverse of the other; no direction is opposite to itself |
| Board.Move | snakeLogic.js:65-68 | `rawNewHead` is one unit step from the head, and stepping in the reverse direction leads back to it |
| Board.WrapPosition | snakeLogic.js:147-152 | `(c + n) % n` on each coordinate lands on the board for coordinates no smaller than -n, moves a nearby coordinate by a whole board width at most, and leaves on-board cells unchanged |
| Food.FreeBeforeMember | snakeLogic.js:130-135 | the list the nested loops have built on reaching cell (x, y) holds exactly the unoccupied board cells that come before (x, y) in row-major order |
| Food.FreeBeforeSorted | snakeLogic.js:130-135 | that list is strictly increasing in row-major order, so it is in scan order and has no repeats |
| Food.FreeCells | snakeLogic.js:127-135 | `freeCells` holds exactly the in-bounds unoccupied cells, in row-major order, and is empty exactly when the snake covers the board |
| Food.PickFree | snakeLogic.js:137-139 | no cell for an empty list, otherwise a member of the list; a draw below the length picks the cell at that index |
| Food.PlaceFood | snakeLogic.js:126-140 | the loops' result is the choice from `freeCells`; it is `null` exactly when the snake covers the board, and otherwise a board cell not on the snake |
| Engine.CreateInitialState | snakeLogic.js:16-37 | a fresh session: grid 16, snake (8,8),(7,8),(6,8), both directions right, normal food type, zero score and counters, neither over nor paused; the food is the chosen free cell, is present, and the state is valid |
| Engine.RestartGame | snakeLogic.js:56-58 | restarting yields exactly a fresh session as `createInitialState` does, nothing carried over |
| Engine.SetDirection | snakeLogic.js:39-46 | a finished game and a reversal are ignored; otherwise only `nextDirection` changes; the buffered direction never reverses the current one and validity is kept |
| Engine.TogglePause | snakeLogic.js:48-54 | a finished game is unchanged; otherwise only `paused` flips; validity is kept |
| Engine.TogglePauseTwice | snakeLogic.js:48-54 | pausing twice restores the state |
| Engine.NextFoodType | snakeLogic.js:154-164 | golden exactly for positive multiples of 10, silver exactly for positive multiples of 5 that are not multiples of 10, normal otherwise |
| Engine.HasSelfCollision | snakeLogic.js:142-145 | true exactly when the head's cell occurs again in the rest of the snake |
| Engine.SelfCollisionIsDuplicate | snakeLogic.js:142-145 | for a snake whose body repeats no cell, a self-collision is exactly a repeated cell in the whole snake |
| Engine.Eat | snakeLogic.js:92-105 | the food's reward (1, 5 or 10) is added and the matching counter goes up by one; the next food type follows the new normal count after normal food and is normal after silver or golden; no other field changes |
| Engine.Tick | snakeLogic.js:60-124 | the accumulator-threading tick yields the outcome `TickOutcome` describes: identity when over or paused; otherwise a wrapped move in `nextDirection`, growth exactly when the new head is the food, game over with only snake and direction changed on a self-collision, and scoring then re-placement on the grown snake after a meal, with game over when no cell is free |
| Engine.TickMonotone | snakeLogic.js:84-110 | a tick never lowers the score or any food counter, and a finished game stays finished |
| Engine.TickMovesSnake | snakeLogic.js:63-82 | in a running game the new head is the wrapped step from the old head, on the board; the direction becomes `nextDirection`; the new snake is the new head plus the whole old snake when eating and otherwise minus its last segment, of the same length; a collision changes only snake, direction and `gameOver` |
| Engine.TickPreservesValid | snakeLogic.js:60-124 | a tick from a valid state yields a valid state: the snake stays on the board, repeats no cell while running, and food never lies on the snake |
| Engine.MovedSnakeValid | snakeLogic.js:63-73 | the moved snake lies on the board, its kept body repeats no cell, and the old food is not on that body |
| Trail.KeepLast | main.js:86-88 | trimming keeps the last k entries in their original order, or everything when there are at most k |
| Trail.TrailAfterMove | main.js:80-89 | an occupied old tail leaves the trail unchanged; otherwise a life-3 particle for that cell is appended last, the entries before it are a suffix of the old trail, and the length is exactly min(old length + 1, 30), so trimming keeps the last 30; a valid trail stays valid |
| Trail.Aged | main.js:93 | every particle loses exactly one unit of life, order and length unchanged |
| Trail.Alive | main.js:94 | the kept particles are exactly those with positive life, never more than before |
| Trail.AliveAppend | main.js:94 | filtering distributes over concatenation, so survivors keep their relative order |
| Trail.Decayed | main.js:91-95 | after decay the trail holds exactly the old particles with life above 1, each with one life less; it is no longer, every life is positive, and a valid trail stays valid |
| Trail.DecayedAppend | main.js:91-95 | decay distributes over concatenation, so the survivors keep their relative order |
| Clock.TwoDigitField | main.js:98-103 | a padded field has length max(2, length of `toString`); it is the `toString` text itself when that already has two characters, '0' then the digit for values 0-9, and starts with '-' for negative values |
| Clock.TwoDigitFieldValue | main.js:98-103 | the field of a non-negative value is a numeral of that value |
| Clock.MinutesText | main.js:98-100 | the minutes field is at least two characters, exactly two below 100 minutes, and negative for a negative time |
| Clock.SecondsText | main.js:101-103 | the seconds field is always exactly two characters |
| Clock.MinutesValue | main.js:98-100 | for t >= 0 the minutes field is the numeral of floor(t / 60) |
| Clock.SecondsValue | main.js:101-103 | the seconds field is the numeral of t % 60 for t >= 0 and of 0 for negative t |
| Clock.FormatTime | main.js:97-105 | the text has at least five characters with ':' third from the end, and exactly five below 100 minutes |
| Clock.FormatTimeFields | main.js:104 | the text is the minutes field, ':' and the two-character seconds field, and each field can be cut back out |
| Clock.FormatTimeReadsBack | main.js:97-105 | for t >= 0 both fields are numerals, the seconds are below 60, and 60 times the minutes plus the seconds is t |
| Clock.SameFields | main.js:104 | equal texts have equal minutes and seconds fields |
| Clock.FormatTimeInjective | main.js:97-105 | distinct non-negative times give distinct texts |
| Clock.FormatTimeWidth | main.js:97-105 | below 100 minutes the text is exactly five characters, MM:SS |
| Clock.FormatTimeNegative | main.js:97-105 | a negative time shows a negative minute count and the seconds "00" |
| Controls.SwipeDirection | main.js:451-460 | no direction when both axes are below 24; otherwise the direction the gesture travels furthest along, ties going vertical |
| Controls.AcceptsInput | main.js:392-396 | input counts exactly while playing and when a swipe source matches swipe mode (buttons and keys match buttons mode) |
| Ui.App.constructor | main.js:53-69 | the initial shell: the given new session, an empty trail, the setup phase, the chosen control mode, no gesture under way and no end reason |
| Ui.App.PushTrailFromMove | main.js:80-89 | the trail becomes its `TrailAfterMove` successor for the previous tail and the next snake |
| Ui.App.DecayTrail | main.js:91-95 | the trail becomes its `Decayed` successor |
| Ui.App.HandleDirectionInput | main.js:392-399 | the state buffers the turn exactly when the input is accepted, and is otherwise unchanged; validity is kept |
| Ui.App.BeginSwipe | main.js:432-436 | the gesture start is recorded in swipe mode only |
| Ui.App.EndSwipe | main.js:443-463 | outside swipe mode or with no gesture nothing changes; otherwise the gesture is cleared and its classified direction, if any, goes through the direction input |
| Ui.App.EndGame | main.js:350-362 | a round already over or showing statistics is left alone; otherwise the state is finished and unpaused, the phase is game over and the reason recorded |
| Ui.App.Step | main.js:371-390 | nothing happens outside the playing phase; otherwise the state is the tick's result, the trail is decayed and pushed only when the tick moved the snake, a finished tick ends the round by collision, validity holds, and the score never drops |
| Ui.App.Commit | main.js:377-389 | after the tick: trail update only for a moving tick, the new state stored, and the round ended when the new state is over |

## Left out

- `sw.js` is not part of this model. It is a service-worker cache over the
  Cache API and the network.
- Rendering and DOM querying are not modelled:
  - `buildBoard`, `render` and its helpers, `hasNeighbor`, `updatePhaseVisibility`;
  - the `render()` and `preventDefault()` calls inside the handlers.
- Timers and scheduling are not modelled. This covers the movement, timer and
  countdown loops, and the timer's `endGame("timer")`. They are time-driven and
  asynchronous.
- Browser wiring is not modelled: event listeners, the keyboard mapping, the
  install prompt and service-worker registration. These are browser calls.
  The keyboard mapping is the code that calls the direction input with source "key".
- `moveSwipe` is not modelled: it only calls `preventDefault`.
- The round set-up and phase changes are not modelled beyond `endGame`:
  `prepareNewRound`, `resetToSetup`, the start button's handler,
  `startCountdownPhase`, `startPlayingPhase` and the statistics screen. They
  are driven by timers and the DOM.
- `Math.random` is replaced by the `draw` parameter, and the float-to-index
  conversion `Math.floor(r * length)` is not modelled.
- The string-keyed `Set` of occupied cells is a `set<Pos>`. Keys `"x,y"` never
  collide for integer coordinates, so the membership test is the same.
- Coordinates, times and pointer positions are integers. JavaScript numbers are
  floats, so fractional pointer coordinates and fractional times passed to
  `formatTime` are not modelled.
- The control mode is one of its two declared values. The change listener
  could store any string, and that case is not modelled.
- Ui.App.constructor: it takes the session that `createInitialState()`
  returned as a parameter, together with the chosen control mode, instead of
  calling it. `Engine.CreateInitialState` establishes what the constructor asks
  of that session.
- Ui.App.PushTrailFromMove: it requires a non-empty previous snake. On an
  empty one the source reads `prevTail` as `undefined` and throws at `.x`; that
  error path is not modelled. Every valid state has a non-empty snake.
- Engine.Tick: it requires `Ready(s)`, that is, a running game has a non-empty
  snake, food and a positive grid size. On a missing head or food the source
  would throw, and every valid state meets the requirement.
- Board.WrapPosition: it requires a positive grid size. The source would compute
  `NaN` coordinates for a zero grid size.
- Ui.App.Step: `nextState !== state` is a reference comparison in the source.
  It is modelled as "tick did not take its early return" (the game was neither
  over nor paused), because every other path of `tick` builds a new object.
