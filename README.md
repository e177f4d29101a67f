# Conway's Game of Life in SDL2: the generation engine

This project models the generation engine of the two programs of
kolusask/Conway-s-game-of-life-in-SDL2. `clickable.c` is a 100 x 100 field
that the user edits with the mouse. `rand.c` is a 950 x 600 field seeded once
and then left to run. Both keep the field as a `bool field[WIDTH][HEIGHT]`
indexed `field[x][y]` and update it in place. Each generation follows rule
B3/S23 on a torus: a coordinate one step past an edge is read from the
opposite edge.

The two files carry the same engine code:

| clickable.c | rand.c | function |
|---|---|---|
| 32-36 | 34-38 | `clear_array` |
| 38-48 | 51-61 | `get_alive` |
| 50-57 | 63-70 | `count_neighbors` |
| 59-63 | 72-76 | `copy_array` |
| 107-115 | 97-105 | the step loop of `update` |

The model has one engine for both, generic in the array's dimensions. The
table below cites the `clickable.c` lines for it.

- `rules.dfy`, module `Rules`: the value-level specification. A `Grid` is a
  `seq<seq<bool>>` indexed `g[x][y]`. It defines:
  - `Get`: the wrapped read, written with the same two branches per axis as
    `get_alive`;
  - `Block`: the wrapped 3 x 3 block around a cell;
  - `Neighbors`: the live cells of that block, centre excluded;
  - `Next`: one B3/S23 generation;
  - `Dead`: the all-dead grid;
  - `Flip`: a grid with one cell inverted.

  The lemmas about these functions are in the same module.
- `field.dfy`, module `Field`: the C functions as imperative methods on an
  `array2<bool>` (`Length0` is WIDTH, `Length1` is HEIGHT). Each method is
  proved against `Rules` through the ghost function `Cells`, the grid an
  array holds.
- `clickable.dfy`, module `Clickable`: the constants of the interactive
  program and the mouse toggle of `edit`.
- `rand.dfy`, module `Rand`: the constants of the self-running program, both
  branches of `place_points` as two methods, and `update` at 950 x 600.

The random generator is a parameter. `PlaceRandom` receives the values that
successive `rand()` calls would return, as a sequence `draws`.

Three behaviours of the code are kept as written:
- `get_alive` accepts only coordinates at most one cell outside the grid
  (`OneStepOut`). It is not a general modulo.
- The field is mutated in place through the `temp` buffer, and the model does
  the same.
- The fixed pattern is placed without any bounds validation. Lemma
  `PointsInside` shows that none is needed for the pattern the program uses.

## Model

| member | source | states |
|---|---|---|
| Rules.Wrap | clickable.c:39-46 | the one-step wrap of a coordinate in [-1, n] always lands inside [0, n) |
| Rules.WrapIsModular | clickable.c:39-46 | on the accepted range, the wrap equals arithmetic modulo the axis length, (c + n) % n |
| Rules.GetIsModular | clickable.c:38-48 | the wrapped read is `g[(x + w) % w][(y + h) % h]`, the torus cell |
| Rules.Count | clickable.c:55 | a live cell adds exactly 1 to the count, a dead one 0 |
| Rules.Tally | clickable.c:52-55 | a partial count over the first k cells of the block is at most k, and below k once past the centre (index 4) |
| Rules.Neighbors | clickable.c:50-57 | the neighbour count is at most 8 |
| Rules.BlockAt | clickable.c:52-55 | offset (dx, dy) of the loop is cell 3(dx+1)+(dy+1) of the block, the wrapped cell (x+dx, y+dy) |
| Rules.TallyNine | clickable.c:52-55 | a whole block's count is the sum over its eight non-centre cells |
| Rules.NeighborsExplicit | clickable.c:50-57 | the count is the sum of the eight wrapped Moore neighbours, (0, 0) excluded |
| Rules.Next | clickable.c:107-113 | the next generation has the same WIDTH x HEIGHT shape; its cells are given by `NextAt` |
| Rules.NextAt | clickable.c:111 | a cell is alive next iff it has 3 live neighbours, or 2 and is alive now |
| Rules.NextIsLocal | clickable.c:107-115 | a cell's next state depends only on its old 3 x 3 block, never on cells already updated |
| Rules.Dead | clickable.c:32-36 | the cleared grid has the field's shape |
| Rules.DeadHasNoNeighbors | clickable.c:50-57 | in an all-dead grid every cell has 0 live neighbours |
| Rules.DeadStaysDead | clickable.c:107-115 | an all-dead field stays all-dead after a step |
| Rules.CornerSeesOrigin | clickable.c:38-48 | with only (0, 0) alive, the opposite corner (w-1, h-1) counts it as a neighbour (wrap on both axes) |
| Rules.Flip | clickable.c:138 | inverting one cell keeps the grid's shape; which cells change is given by `FlipChangesOne` |
| Rules.FlipChangesOne | clickable.c:138 | a flip changes the chosen cell and no other |
| Rules.FlipTwice | clickable.c:138 | flipping the same cell twice restores the grid |
| Field.ClearArray | clickable.c:32-36 | afterwards every cell is dead: the array holds `Dead` |
| Field.GetAlive | clickable.c:38-48 | the result is the wrapped cell `Get` of the array's grid, for every coordinate at most one step out |
| Field.CountNeighbors | clickable.c:50-57 | the result is in [0, 8] and equals `Neighbors`; every get_alive call is inside its accepted range |
| Field.CopyArray | clickable.c:59-63 | dst ends up equal to the old src, cell for cell and as a grid, and src is unchanged (also when dst is src) |
| Field.CellwiseIsNext | clickable.c:108-113 | a grid whose every cell follows B3/S23 over the old grid is `Next` of it, whatever order the cells were filled in |
| Field.Step | clickable.c:107-115 | after the step the array holds `Next` of the array before it |
| Clickable.CellOf | clickable.c:138 | pixel p lies in cell p / 7, which covers [7c, 7c + 7); pixels inside the 700 x 700 window give a column in [0, 100) and a row in [0, 100) |
| Clickable.Toggle | clickable.c:136-138 | a click inverts exactly the cell under the pointer: the array holds `Flip` of the old grid |
| Rand.PointsInside | rand.c:14-15 | the three cells (2,2), (3,3), (2,4) of the fixed pattern lie inside 950 x 600 |
| Rand.PlacePoints | rand.c:40-43 | each pattern cell becomes alive and every other cell keeps its state |
| Rand.DrawIndex | rand.c:45-47 | cell (x, y) is filled by draw x * 600 + y, which is below 950 * 600 |
| Rand.DrawIndexBijective | rand.c:45-47 | distinct cells use distinct draws, and each of the first 950 * 600 draws fills a cell |
| Rand.PlaceRandom | rand.c:44-48 | cell (x, y) is alive iff its draw, taken in x-outer, y-inner order, is odd |
| Rand.Update | rand.c:97-105 | one generation of the 950 x 600 field: the array holds `Next` of the old one |

## Left out

- SDL: window, renderer, drawing, the grid overlay and delays (`init_graphics`, `quit_graphics`, `draw_grid`, `draw`, `SDL_Delay`). These are I/O.
- `SDL_GetMouseState` (clickable.c:137). The pointer position becomes the parameters `px`, `py` of `Toggle`, which requires them inside the 700 x 700 window. The C code does not check this; it relies on SDL reporting clicks inside the window only.
- Event handling in `update` and `edit`: `SDL_PollEvent`, the key and quit cases, the returned `inputs` value and the `main` loops. These are event dispatch, not the engine. The DELETE key's action is `clear_array`, which is modelled as `Field.ClearArray`.
- The `readMouse` debounce of `edit`. It decides whether a click is handled, not what the toggle does.
- `srand(time(NULL))` and `rand()`. They are replaced by the `draws` parameter of `PlaceRandom`; the clock and the generator's algorithm are not modelled.
- The `#ifndef RANDOM` switch of `place_points`. Both branches are modelled, as `PlacePoints` and `PlaceRandom`; which one is compiled is not.
- C's `int` width. All coordinates and counts are far below 2^31, so overflow cannot occur.
- The uninitialised contents of `temp` before the step loop. Every cell is written before it is read, so the model starts from a fresh array.
- Rand.PlaceRandom: needs at least 950 * 600 draws up front, whereas the C code calls `rand()` on demand.
- Pattern behaviour of the step: a 2 x 2 block being a still life, a blinker having period 2, and a glider moving by (1, 1) every four steps are not proved. They are statements about particular grids, not about any one function of the code. Each needs the neighbour count of every cell near the pattern worked out one by one, and doing that with the eight-term count over wrapped cells is beyond what the verifier finishes in reasonable time. `NextAt`, `NextIsLocal`, `DeadStaysDead` and `CornerSeesOrigin` are the properties of the step that are proved.
