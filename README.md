# snake-game core in Dafny

This project models the core of a browser snake game written in Rust. The game runs on a 10 by 10 board that wraps around at its edges. The model covers three source files:

- `src/utils.rs` (module `Utils`, plus `RustInt` for Rust's `i32` remainder): board coordinates, the four headings, and the torus wrap `translate`. It also covers the conversions between a heading and a unit step, and the "same or opposite heading" test that guards steering.
- `src/snake.rs` (module `Body`): the snake as a `class Snake` over a sequence of cells. Each cell is a Head, a Middle or a Tail, with raw coordinates and an orientation. `move` walks the body once; it is a `while` loop proved against the specification function `Moved`. `grow` duplicates the tail. `change_direction` stores the next heading unless it would reverse or repeat the current one.
- `src/core.rs` (module `GameCore`): the game state as a `class Core` holding the snake, the food and the score, with the eating and collision tests, food placement by rejection sampling, and the tick `move_snake`.

Rust's `%` truncates toward zero; `RustInt.TruncRem` models it, and `translate` is written over it exactly as the source spells it. The random sampler of `Food::new` yields coordinates in `0..10` on both axes; here its draws are a parameter `samples`, a finite list of in-grid coordinates.

## Model

| member | source | states |
|---|---|---|
| RustInt.TruncRem | src/utils.rs:17-26 | Rust's `%` on `i32`: the remainder is smaller in magnitude than the divisor and carries the sign of the dividend |
| RustInt.TruncRemVersusEuclidean | src/utils.rs:17-26 | the truncating remainder equals the Euclidean one, minus the divisor when the dividend is negative and not a multiple |
| Utils.AddSubCancel | src/utils.rs:42-62 | coordinate addition and subtraction undo each other |
| Utils.Add | src/utils.rs:42-51 | componentwise sum of two coordinates; `Utils.AddSubCancel` relates it to `Sub` |
| Utils.Sub | src/utils.rs:53-62 | componentwise difference of two coordinates; `Utils.AddSubCancel` relates it to `Add` |
| Utils.TranslateAxis | src/utils.rs:17-26 | one axis of the wrap: for a positive board size the result lies in `[0, max)` |
| Utils.Translate | src/utils.rs:15-28 | for a positive board size, both wrapped coordinates lie on the board |
| Utils.TranslateEuclidean | src/utils.rs:15-28 | the wrap with its negative-remainder fix-up is exactly the Euclidean remainder on each axis |
| Utils.TranslateIdempotent | src/utils.rs:15-28 | wrapping an already wrapped coordinate changes nothing |
| Utils.TranslateFixesGridCells | src/utils.rs:15-28 | a coordinate already on the board wraps to itself |
| Utils.TranslateSameCell | src/utils.rs:15-28 | two coordinates wrap to the same cell exactly when they differ by whole boards on both axes |
| Utils.StepChangesCell | src/utils.rs:15-40 | on a board at least 2 wide, one unit step in any heading always lands on a different cell |
| Utils.TranslateMinusOne | src/utils.rs:17-26 | (-1, -1) wraps to (9, 9) on the 10-wide board |
| Utils.ToCoords | src/utils.rs:31-40 | the `From<Direction>` table from heading to unit step; its properties are stated by `Utils.Headings`, `Utils.ToCoordsIsUnit` and `Utils.ToCoordsInjective` |
| Utils.Opposite | src/utils.rs:84-87 | the reverse of each heading, an independent table that `Utils.OppositeSumsToZero` ties to the zero-sum test of `is_same_or_opposite` |
| Utils.Headings | src/utils.rs:31-40 | the unit step of each heading (Up is y - 1, Down is y + 1, Right is x + 1, Left is x - 1) and its opposite heading |
| Utils.ToCoordsIsUnit | src/utils.rs:31-40 | every heading converts to a unit step along one axis |
| Utils.ToCoordsInjective | src/utils.rs:31-40 | two headings convert to the same step exactly when they are equal |
| Utils.OppositeDiffers | src/utils.rs:31-40 | no heading is its own opposite |
| Utils.OppositeSumsToZero | src/utils.rs:84-87 | two headings' steps cancel exactly when one is the opposite of the other |
| Utils.OppositeIsSymmetric | src/utils.rs:84-87 | being opposite is symmetric |
| Utils.IsSameOrOpposite | src/utils.rs:84-87 | `is_same_or_opposite`: equal headings, or steps summing to zero; `Utils.SameOrOppositeCases` and `Utils.SameOrOppositeIffSameAxis` characterise it |
| Utils.SameOrOppositeCases | src/utils.rs:84-87 | `is_same_or_opposite` holds exactly when the headings are equal or opposite |
| Utils.SameOrOppositeIffSameAxis | src/utils.rs:84-87 | `is_same_or_opposite` holds exactly when both headings move along the same axis, and it is symmetric |
| Utils.FromCoords | src/utils.rs:90-99 | the `From<Coords>` table from a step to an optional heading; `Utils.FromCoordsInverse` and `Utils.FromCoordsNone` characterise it |
| Utils.FromCoordsInverse | src/utils.rs:90-99 | converting a step back yields heading d exactly when d's step is the negated input: the conversion reads a step as the direction it came from |
| Utils.FromCoordsNone | src/utils.rs:90-99 | the conversion yields no heading exactly when the negated input is no heading's step |
| Utils.UnitStepHasDirection | src/utils.rs:90-99 | every unit step, negated, converts back to the heading whose step it is |
| Utils.FromCoordsOfStep | src/utils.rs:90-99 | the old position minus the new one after a step along d converts back to d |
| Utils.FromCoordsOfZero | src/utils.rs:97 | standing still converts to no heading |
| Body.Cell.MoveTo | src/snake.rs:106-108 | `move_to` replaces the coordinates and keeps kind and orientation |
| Body.InitialCells | src/snake.rs:24-27 | the starting body is well formed: a Head, then a Tail, and no other cells |
| Body.TranslateAll | src/snake.rs:37-42 | one wrapped coordinate per cell, in body order |
| Body.MovedDirection | src/snake.rs:60-76 | the single definition of the orientation rule of `move` (the head and the cell behind it face the new heading; a later cell faces the way its predecessor moved, else copies its orientation), shared by the move predicate and the cell-by-cell construction behind `Body.Moved`; `Body.MovedOrientation` states what it means |
| Body.Moved | src/snake.rs:54-79 | the body after one move is a move of the old body: kinds kept, head stepped, every other cell on its predecessor's old position, orientations by the rule of `move` |
| Body.MoveIsDeterministic | src/snake.rs:54-79 | the move rule determines the new body uniquely |
| Body.MovedCell | src/snake.rs:54-79 | kind, coordinates and orientation of each cell after a move |
| Body.MovedShape | src/snake.rs:54-79 | a move keeps the length and the Head/Middle/Tail layout, puts the head one step ahead facing d, and turns the second cell to d |
| Body.MovedOrientation | src/snake.rs:60-76 | a later cell faces the heading its predecessor moved in, or copies the predecessor's new orientation when that move was no unit step |
| Body.MovedGaps | src/snake.rs:54-79 | after a move the head is one step of d ahead of the second cell, and each later gap is the gap the cells in front had before |
| Body.MovedContiguous | src/snake.rs:54-79 | a move keeps an unbroken body unbroken, and each cell after the head then faces the step its predecessor just took, that is, toward the cell now in front of it |
| Body.Grown | src/snake.rs:44-52 | the body after `grow` has exactly one more cell; `Body.GrownShape` gives every cell |
| Body.GrownShape | src/snake.rs:44-52 | `grow` keeps every cell but the last, turns the last into a Middle, and appends a Tail on the old tail's cell with its orientation; the layout stays well formed |
| Body.GrownTranslated | src/snake.rs:37-52 | the grown body's wrapped coordinates are the old ones plus the old tail's cell once more |
| Body.GrownOccupiesNoNewCell | src/snake.rs:37-52 | growing covers exactly the board cells the body already covered |
| Body.GrownThenMovedContiguous | src/snake.rs:44-79 | growing breaks an unbroken body (the new tail sits on the old one), and the next move mends it |
| Body.NeckNeverCollides | src/snake.rs:54-79 | after a move the head never shares a board cell with the cell right behind it |
| Body.TwoMovesFromStart | src/snake.rs:22-79 | from the starting body, a move right and then a move up give the exact cells, and the head wraps to (1, 9) |
| Body.Snake.constructor | src/snake.rs:22-31 | `Snake::new`: Head and Tail both at (0, 0) facing Right, heading Right |
| Body.Snake.GetHead | src/snake.rs:33-35 | the first cell, which is the Head in a well-formed snake |
| Body.Snake.GetTranslatedCellCoords | src/snake.rs:37-42 | each cell's wrapped coordinates in body order, all on the board |
| Body.Snake.Grow | src/snake.rs:44-52 | the cells become the grown body; headings unchanged; validity kept |
| Body.Snake.Move | src/snake.rs:54-79 | the loop leaves exactly the moved body along the adopted next heading; a valid snake never turns back on itself |
| Body.Snake.ChangeDirection | src/snake.rs:81-85 | the next heading becomes d unless d is the same as or opposite to the current one; nothing else changes; validity kept |
| GameCore.StartingBodyCollides | src/snake.rs:22-31 | the starting body already has its head on its tail |
| GameCore.ShortSnakeNeverCollides | src/core.rs:52-61 | a two-cell snake never collides after a move |
| GameCore.FirstTickIsSafe | src/lib.rs:37-41 | the game loop moves before the first collision test, and that test fails whichever heading the first move takes and whether or not the move eats and grows the snake |
| GameCore.Core.constructor | src/core.rs:17-30 | `Core::new`: the starting snake, the first drawn food, score 0 |
| GameCore.Core.CheckEatingCondition | src/core.rs:48-50 | with food on the board, the snake eats exactly when its head is whole boards away from the food on both axes |
| GameCore.Core.CheckCollision | src/core.rs:52-61 | a collision is exactly the head sharing a board cell with some later cell; bodies shorter than 2 never collide |
| GameCore.Core.IncScore | src/core.rs:63-65 | the score goes up by one and the food stays |
| GameCore.Core.GenerateFood | src/core.rs:67-77 | food is placed exactly when some draw misses the body; it is then the first such draw, on the board and off the body; otherwise food and score are unchanged |
| GameCore.Core.MoveSnake | src/core.rs:32-39 | the snake moves; when its new head wraps onto the food and some draw misses the body, it eats: it grows by one, the score goes up by one and new food lies off the body; the tick ends as `OutOfDraws` only when the head is on the food and every draw lands on the body; in every case but eating only the move happens; the score stays the length minus two |

## Left out

- Drawing: `render`, the canvas context and every drawing helper in `src/core.rs` are not modelled.
- The browser game loop, frame timing and keyboard handling in `src/lib.rs`, and the pixel sizes in `src/config.rs`, are not modelled. `GameCore.FirstTickIsSafe` states a property of the loop's first frame, which moves before it tests for a collision.
- Randomness: `Food::new` and the sampler of `src/utils.rs:64-73` are replaced by the parameter `samples`. The constructor's first draw is its parameter `first`.
- GameCore.Core.GenerateFood: the source draws until it finds a free cell and spins forever on a full board. The model sees finitely many draws and reports `placed == false` when every one lands on the body.
- GameCore.Core.MoveSnake: when every draw lands on the body, the tick ends as `OutOfDraws` before growing and scoring. The source would keep drawing there.
- Integer widths: `i32` overflow of coordinates, `abs(i32::MIN)` and `usize` overflow of the score are not modelled; integers are unbounded.
- Body.Snake.GetHead, Body.Snake.Grow and GameCore.Core.CheckEatingCondition: require a non-empty body. On an empty body the source's `unwrap()` panics (src/snake.rs:34, src/snake.rs:45); no body the game builds has fewer than two cells.
- Utils.Translate: a board size of 0 is excluded by a precondition because Rust panics on it. Negative sizes are modelled but nothing is proved about them.
- Body.Snake.Move: requires a well-formed body (a Head, Middles, a Tail, at least two cells). The source assumes this without checking, and every snake it builds has it.
- GameCore.Core.MoveSnake: requires a well-formed body, for the same reason as `Body.Snake.Move`.
- The starting body puts Head and Tail on the same cell (0, 0), so it counts as a collision until the first move (`GameCore.StartingBodyCollides`). The game loop moves first, so this never ends a game.
- The first food is not checked against the body, unlike food placed after eating.
