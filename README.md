# Snake game: the game-logic layer

A model of the logic of a browser snake game (`script.js`). The page keeps
its state in module-level variables: the snake's body as a list of cells
(head first), the heading `dx`/`dy`, the food cell, the score, the tick
interval `gameSpeed`, and the board size `tileCount` (the board is square).
On every timer tick it moves the snake, eats or drops the tail, and on a
wall or self collision it shows the score and restarts. Arrow keys and
touch swipes change the heading.

The model has two modules:

- `SnakeRules` (`rules.dfy`) holds the rules as values. `Advance` is the
  body after one move. `GameOver` is the end-of-game test. `FirstFree` is
  rejection sampling over a finite stream of random draws, and
  `FirstFreeIsFirst` says what it finds. `KeyTurn` and
  `SwipeTurn` give the heading after one key event or one swipe.
- `SnakeGame` (`game.dfy`) holds class `Game`. Its fields are the page's
  variables, and its methods are the page's procedures, each proved against
  the functions of `SnakeRules`. `Game.Valid()` is the object invariant:
  a non-empty body, `score == 10 * (|snake| - 1)`, `50 <= gameSpeed <= 100`,
  and a heading that is one of (0,0), (0,±1), (±1,0). The constructor
  establishes it, and every method keeps it.

Randomness is an input. Each pair of `Math.random` calls (x, then y) becomes one element
of a `draws: seq<Cell>` argument. The caller promises nothing about the
draws; the contracts say what happens when they lie on the board. Methods
that may draw return the draws they did not use.

Points where the code does something a reader might not expect:

- The self-collision test runs on the body after the tail has been
  dropped. Moving into the cell the tail is leaving is therefore not a
  collision (`EnteringVacatedTailIsSafe`).
- A tick with heading (0,0) is not a no-op. It prepends a copy of the head,
  so a longer snake, or one standing on the food, ends the game at once
  (`StillTick`).
- A restart does not place new food. Food left on the start cell is eaten
  by the first stationary tick after a restart.
- A collision restarts the game within the same tick (script.js:20-23).
- The turn rule compares each event only with the current heading, so two
  events between ticks can reverse the snake (`TwoKeysCanReverse`).

## Model

| member | source | states |
|---|---|---|
| `SnakeRules.Advance` | script.js:46-60 | one move lengthens the body by at most one segment |
| `SnakeRules.AdvanceStaysInGrid` | script.js:17-24 | a move that does not end the game leaves every segment on the board if every segment was on it before |
| `SnakeRules.AdvanceKeepsNoRepeats` | script.js:17-24 | a move that does not end the game keeps a body without repeated cells free of repeats, so the game's bodies meet the hypothesis of the vacated-tail rule below (a one-segment start has no repeats) |
| `SnakeRules.EnteringVacatedTailIsSafe` | script.js:57-78 | for any body without repeated cells whose tail is on the board, a head that moves onto the tail cell without eating does not end the game, because the collision test runs after the tail is dropped |
| `SnakeRules.VacatedTailExample` | script.js:57-78 | an instance of that rule: a four-cell loop whose head steps right onto its tail |
| `SnakeRules.StillTick` | script.js:47-58 | with heading (0,0), a one-segment snake off the food is unchanged; a longer snake, or one on the food, ends the game |
| `SnakeRules.FirstFreeIsFirst` | script.js:62-68 | the food chosen is the first draw not on the snake, every earlier draw was on the snake, and the rest of the draws follow it; placement fails exactly when every draw is on the snake |
| `SnakeRules.KeyTurn` | script.js:95-100 | an arrow key is taken exactly when it shares no axis with the current heading, other keys change nothing; headings stay unit or zero, and one event never reverses a moving snake |
| `SnakeRules.TwoKeysCanReverse` | script.js:95-100 | "up" then the opposite horizontal arrow, given between two ticks, reverses a snake moving left or right |
| `SnakeRules.SwipeTurn` | script.js:120-136 | swipes under 10 units on both axes change nothing; otherwise the swipe acts as the arrow of its dominant axis, with ties going vertical, under the same acceptance rule as the keys |
| `SnakeGame.Game.constructor` | script.js:6-14 | the page's initial state: body [(10,10)], heading (0,0), food (15,15), score 0, interval 100 (script.js:9-14), and touch start (0,0) (script.js:103-104) |
| `SnakeGame.Game.GenerateFood` | script.js:62-68 | the recursive retry, scan included, places the food at the first draw not on the snake; that cell is not on the snake, and it is on the board when the draws are; when every draw is on the snake it fails and leaves the food on the last draw |
| `SnakeGame.Game.MoveSnake` | script.js:46-60 | the new head is the old head plus (dx,dy); on food: one segment longer, the tail of the new body is the whole old body, score +10, new food off the snake, interval down by 1 while above 50, food on the board when the draws are; if every draw is on the snake, the food is left on the last draw and the interval unchanged; otherwise: same length, the old body without its last cell follows the head, score, food and interval unchanged; keeps the invariant |
| `SnakeGame.Game.CheckGameOver` | script.js:71-80 | true exactly when the head is off the board or equals a later segment |
| `SnakeGame.Game.ResetGame` | script.js:82-88 | body [(10,10)], heading (0,0), score 0, interval 100; food untouched; keeps the invariant |
| `SnakeGame.Game.Step` | script.js:17-24 | one tick: the body becomes the moved body, or the game restarts exactly when the moved body ends the game; food is replaced only on eating, by the first free draw, and is then on the board when the draws are; the unused draws are returned; after a continued tick the interval drops by 1 on eating while above 50 and is otherwise unchanged; when food cannot be placed the tick stops with the snake grown, the heading kept, the score raised by 10, the interval unchanged and the food on the last draw; the board-containment of the body is kept across ticks |
| `SnakeGame.Game.KeyDown` | script.js:95-100 | the new heading is `KeyTurn` of the key and the old heading; keeps the invariant |
| `SnakeGame.Game.TouchStart` | script.js:106-111 | records the screen point where a touch begins |
| `SnakeGame.Game.HandleSwipe` | script.js:120-136 | the new heading is `SwipeTurn` of the displacement from the touch start and the old heading; keeps the invariant |

## Left out

- Drawing on the canvas and its colours (script.js:26-40): rendering only.
- The game-over `alert` and the score text in the page (script.js:21, 53, 88): browser output.
- The timer: `setTimeout(drawGame, gameSpeed)` and the immediate `drawGame()` call at the end of `resetGame` (script.js:42, 89). One tick is `Game.Step`. The page runs the tick after a restart synchronously inside `resetGame`, so no key or swipe can come in between; the caller's next `Step` stands for that tick only when it comes straight after the `Restarted` step, with no `KeyDown` or `HandleSwipe` in between.
- Event-listener registration, `preventDefault` and reading `changedTouches` (script.js:95, 106-118): the key and the screen coordinates are parameters.
- Key names: `event.key` strings become the datatype `Key`, with one constructor per arrow key and `OtherKey` for all the rest.
- `Math.random` (script.js:63-64): replaced by the supplied draws. The page's floor of a random fraction times `tileCount` is on the board; the model states the board-containment of the food under that assumption.
- SnakeGame.Game.GenerateFood: with a finite supply of draws it reports failure when every draw lands on the snake, and `Step` then reports `FoodUnplaced` without checking for game over. On the page the retry recurses through the `forEach` callback (script.js:66-67) until the stack overflows; the error escapes `moveSnake` and `drawGame` before `setTimeout` (script.js:42), so the game stops with the snake grown, the score raised by 10, the food on the last draw and `gameSpeed` not decremented. That is the state `FoodUnplaced` leaves; the model does not bound the stack depth, so it can also report success after more retries than the page's stack would allow.
- `tileCount` derived from the canvas width (script.js:6): a positive integer parameter of the constructor.
- JavaScript numbers are floating point. The model uses unbounded integers. The game's own values (cells, score, interval) stay integral, but the touch coordinates `screenX`/`screenY` (script.js:107-108, 114-115) can be fractional; the model takes screen coordinates as integers, so a swipe such as 9.5 units is not representable.
