# Snake game engine

A Dafny model of the Snake mini-game embedded in the opticode landing page
(`src/components/SnakeGame.tsx`). The model keeps the game logic and leaves out the
canvas drawing and the browser plumbing.

The game is played on a 15 x 15 board. The snake is a head-first list of cells and starts
as the single cell (7, 7), heading right. Turns from the keyboard, swipes and the on-screen
D-pad go into a queue of at most four pending directions. A turn is refused if it reverses
the last queued direction, or the current heading when the queue is empty. It is also
refused if the queue is full.

A game is idle until it starts, then playing, then over.

Each animation frame runs a tick. The tick does nothing unless a game is running and the
current interval has passed since the last move. When it is due, the tick:

- moves the front of the queue into the heading;
- moves the head one cell that way;
- ends the game if the new head is off the board or on any body cell, the tail included;
- otherwise grows the snake by one cell when the new head is on the food (one point, new
  food on a free cell, the interval recomputed from the new score and never longer), or
  keeps the length by dropping the tail cell.

Ending a game folds the score into the session best and the personal best, as running
maxima.

The model has five modules:

- `Grid` (`grid.dfy`): cells, the four directions, the reverse of a direction, one step of
  movement, and the list of all 225 cells.
- `DirQueue` (`dir_queue.dfy`): the input rule shared by keyboard, swipe and D-pad. Its
  invariant is that in `[heading] + queue` no direction reverses the one before it.
- `Body` (`body.dfy`): what makes a snake well formed (in bounds, no cell twice, each cell
  beside the next), the collision test, the two kinds of move, and food placement. It
  proves that a free cell exists exactly when the snake is shorter than the board.
- `Speed` (`speed.dfy`): the tick interval as a function of the score.
- `Engine` (`engine.dfy`): class `Game`, the mutable game record plus the turn queue, whose
  methods change it in place (`Push`, `Steer`, `Start`, `EndGame`, `Tick`). Its invariant
  `Valid()` is built from two value-level predicates, `Consistent` and `Steering`, plus two
  facts about the best scores: the session best is never below the current score, and once
  the game is over the personal best is not below it either. The lemmas about the two
  predicates carry the proofs. Two client methods exercise the
  contracts: the queue rule, a frame that is not due, and a run into the left wall.

`Seqs` (`seqs.dfy`) holds two counting lemmas about sequences and sets.

When the snake eats the last free cell, the food loop of `randomFood` can never find a free
cell, so it never returns. The model's `EatLast` leaves the game as the source leaves it on
entering that loop: the snake has grown and the score has gone up, but the food and the
interval are unchanged.

## Model

| member | source | states |
|---|---|---|
| `Grid.Opp` | src/components/SnakeGame.tsx:22 | the reverse of a direction is never that direction |
| `Grid.Next` | src/components/SnakeGame.tsx:246-251 | the next head shares a side with the old head; it stays in the same row exactly for L and R, and its coordinates grow exactly for R and D |
| `Grid.NextOppUndoes` | src/components/SnakeGame.tsx:248-251 | one step in the reverse direction brings the head back to where it was |
| `Grid.NextInjective` | src/components/SnakeGame.tsx:248-251 | from one cell, two directions lead to the same cell only if they are equal |
| `Grid.AllCells` | src/components/SnakeGame.tsx:9 | the board has exactly GRID * GRID = 225 distinct cells, and they are exactly the in-bounds cells |
| `DirQueue.LastDir` | src/components/SnakeGame.tsx:317 | the direction a new turn is checked against is the last element of `[heading] + queue`: the last queued turn, or the heading when nothing is queued |
| `DirQueue.Enqueue` | src/components/SnakeGame.tsx:316-318 | the queue gains `d` at its end exactly when `d` does not reverse the last queued direction (or the heading, when the queue is empty) and fewer than QUEUE_MAX = 4 turns are queued; otherwise it is unchanged, so it never holds more than 4 |
| `DirQueue.Front` | src/components/SnakeGame.tsx:244 | a due tick's direction is the front of a non-empty queue, which together with the remaining queue makes up the whole queue; with an empty queue it is the heading |
| `DirQueue.Rest` | src/components/SnakeGame.tsx:244 | a due tick removes exactly the front element of a non-empty queue, and leaves an empty queue empty |
| `DirQueue.EnqueueKeepsNoReversal` | src/components/SnakeGame.tsx:316-318 | enqueueing keeps `[heading] + queue` free of adjacent reversals |
| `DirQueue.ShiftKeepsNoReversal` | src/components/SnakeGame.tsx:244 | shifting the front into the heading keeps the chain free of reversals, and the applied direction never reverses the previous heading |
| `Body.Hits` | src/components/SnakeGame.tsx:253-257 | a head on any body cell collides, the tail cell included; on a board the snake covers completely, every move collides |
| `Body.Slither` | src/components/SnakeGame.tsx:271-273 | a plain move keeps the length; the new head comes first and each later segment takes the cell of the one before it |
| `Body.Grow` | src/components/SnakeGame.tsx:262 | an eating move adds one segment in front and keeps the old body behind it |
| `Body.SlitherKeepsValid` | src/components/SnakeGame.tsx:253-273 | a plain move that passes the collision test leaves every cell in bounds, all cells distinct and consecutive cells adjacent |
| `Body.GrowKeepsValid` | src/components/SnakeGame.tsx:253-269 | an eating move that passes the collision test leaves every cell in bounds, all cells distinct and consecutive cells adjacent |
| `Body.FreeCellIff` | src/components/SnakeGame.tsx:39-45 | a well-formed snake never has more than 225 cells; a cell the food loop can stop at exists exactly when the snake is shorter than 225 cells |
| `Body.RandomFood` | src/components/SnakeGame.tsx:39-45 | the food is placed on an in-bounds cell not covered by the snake |
| `Speed.SpeedFromScore` | src/components/SnakeGame.tsx:34-37 | the interval lies between MIN_SPEED = 60 and BASE_SPEED = 300, and is BASE_SPEED at score 0 |
| `Speed.SpeedStep` | src/components/SnakeGame.tsx:34-37 | one more point never lengthens the interval |
| `Speed.SpeedNonIncreasing` | src/components/SnakeGame.tsx:33-37 | the interval never grows as the score grows |
| `Engine.Max` | src/components/SnakeGame.tsx:228-230 | the running maximum is at least both arguments and equals one of them |
| `Engine.PlainMoveKeepsConsistent` | src/components/SnakeGame.tsx:262-273 | a plain move keeps one point per extra segment, the food on the board and off the snake, and the interval that belongs to the score |
| `Engine.EatKeepsConsistent` | src/components/SnakeGame.tsx:264-270 | after eating, the grown snake is well formed and at most 225 long; new food on any free cell restores consistency at score + 1 with the interval of that score; a full board stays consistent with the old food and interval; a free cell exists exactly when the grown snake is shorter than the board |
| `Engine.MoveKeepsSteering` | src/components/SnakeGame.tsx:244-262 | a due tick's turn and move keep the queue bounded and reversal-free, never reverse the heading, and leave the segment behind the head opposite to the new heading |
| `Engine.HeadNeverEntersNeck` | src/components/SnakeGame.tsx:244-256 | while playing, a snake of two or more cells never steps its head back onto the segment behind it |
| `Engine.Game.constructor` | src/components/SnakeGame.tsx:56-66 | the initial record: idle, snake [(7,7)], heading R, food (11,7), score 0, interval 300, empty queue; the personal best is the stored one |
| `Engine.Game.Push` | src/components/SnakeGame.tsx:316-318 | a keyboard turn in any state updates the queue by the input rule and keeps the invariant |
| `Engine.Game.Steer` | src/components/SnakeGame.tsx:363-368 | a D-pad or swipe turn applies the input rule only while playing, and otherwise leaves the queue unchanged |
| `Engine.Game.Start` | src/components/SnakeGame.tsx:280-298 | a new game is playing, with snake [(7,7)], heading R, an empty queue, score 0, interval BASE_SPEED, last tick 0, food in bounds and off the snake; both best scores are kept |
| `Engine.Game.EndGame` | src/components/SnakeGame.tsx:221-236 | the game is over and the invariant is kept; the session best and the personal best become the maximum of their old value and the final score |
| `Engine.Game.Due` | src/components/SnakeGame.tsx:240-242 | a tick moves the snake only while playing, and never sooner than MIN_SPEED = 60 ms after the last move; a frame BASE_SPEED = 300 ms or more after the last move always moves it |
| `Engine.Game.Advanced` | src/components/SnakeGame.tsx:242-273 | a due tick grows the snake by at most one cell, adds at most one point, and consumes exactly one queued turn (or leaves an empty queue empty) |
| `Engine.Game.Tick` | src/components/SnakeGame.tsx:238-278 | outside a game, or before the interval has passed, nothing changes; otherwise the state changes as `Advanced` describes (turn from the front of the queue, then collision, plain move or eating); the invariant is kept |
| `Engine.Game.Advance` | src/components/SnakeGame.tsx:242-273 | a due tick takes the front of the queue as the heading, moves the head one cell, and then ends the game on a collision, keeps the length on a plain move, or grows and scores on eating |
| `Engine.Game.Crash` | src/components/SnakeGame.tsx:253-260 | a head off the board or on any body cell (the tail included) ends the game; snake, food and score are unchanged |
| `Engine.Game.Slide` | src/components/SnakeGame.tsx:262-273 | a move onto a free cell without food drops the tail; food, score and interval are unchanged |
| `Engine.Game.Eat` | src/components/SnakeGame.tsx:264-270 | a move onto the food grows the snake by one and adds one point; the food moves off the snake while a free cell is left |
| `Engine.Game.EatAndPlace` | src/components/SnakeGame.tsx:264-270 | eating with a free cell left puts the food on a free cell and sets the interval from the new score |
| `Engine.Game.EatLast` | src/components/SnakeGame.tsx:264-269 | eating the last free cell grows the snake to 225 cells and scores, with food and interval as they were |

## Left out

- Drawing: `draw`, `lerpRGB`, the eyes, the glow and the `roundRect` check. These are
  rendering with floating-point colours and geometry. The `frame` and `eatFlash` fields
  only feed drawing and are not modelled.
- `speedFromScore` works in floating point with `Math.exp`. The model uses its rounded
  integer values as a table: round(60 + 240 * e^(-s/12.5)) for scores 0 to 77, and 60 from
  78 on.
- Body.RandomFood: the retry loop over `Math.random` is reduced to the cell it stops at, a
  nondeterministic choice of a free in-bounds cell. The uniform distribution and the number
  of draws are not modelled.
- Engine.Game.Start: the starting food is any free cell, for the same reason.
- Engine.Game.EatLast: in the source the food loop never returns, and no later frame ever
  runs. The model returns from the tick, so a later tick is possible; it would collide,
  since every cell is taken.
- Scheduling: `requestAnimationFrame` and `cancelAnimationFrame`. The frame timestamp is
  taken as an integer parameter of `Tick`; the browser gives fractional milliseconds.
- Browser storage: the stored personal best is a parameter of the constructor. Writing it
  back (line 231) and parsing it (line 77) are not modelled.
- The React state mirrors (`setScore`, `setUiState`), `dispatchCursorGamePlaying`,
  event-listener registration, the key-name table, and the swipe-to-direction mapping from
  pixel deltas. A decoded direction is the input of `Push` or `Steer`.
- All other files of the site: page layout, text in two languages, popups, navigation,
  the custom cursor, scroll animations and the language context. They are presentational.
