/** Value-level specification of one Game of Life generation (rule B3/S23)
    on a WIDTH x HEIGHT torus. A grid is indexed g[x][y], x in [0, w) and
    y in [0, h), the same way the C code indexes field[x][y]. */
module Rules {

  type Grid = seq<seq<bool>>

  /** g has w columns of h cells each. */
  predicate Shaped(g: Grid, w: nat, h: nat)
  {
    |g| == w && forall x :: 0 <= x < w ==> |g[x]| == h
  }

  /** A coordinate that the one-step wrap accepts: at most one cell outside
      the grid on either side of either axis. */
  predicate OneStepOut(w: nat, h: nat, x: int, y: int)
  {
    -1 <= x <= w && -1 <= y <= h
  }

  /** The one-step wrap on an axis of n cells: -1 stands for the last
      cell, n for the first one, any other coordinate for itself. */
  function Wrap(c: int, n: nat): (r: int)
    requires 0 < n && -1 <= c <= n
    ensures 0 <= r < n
  {
    if c == -1 then n - 1 else if c == n then 0 else c
  }

  /** The cell read for a coordinate at most one step out of range. */
  function Get(g: Grid, w: nat, h: nat, x: int, y: int): bool
    requires Shaped(g, w, h) && 0 < w && 0 < h
    requires OneStepOut(w, h, x, y)
  {
    g[Wrap(x, w)][Wrap(y, h)]
  }

  /** 1 for a live cell, 0 for a dead one (C's bool-to-int promotion). */
  function Count(alive: bool): (n: nat)
    ensures n <= 1 && (n == 1 <==> alive)
  {
    if alive then 1 else 0
  }

  /** The nine cells of the wrapped 3x3 block centred on (x, y), listed
      column by column (dx = -1, 0, 1) and, within a column, dy = -1, 0, 1;
      offset (dx, dy) sits at index 3 * (dx + 1) + (dy + 1), the cell itself at 4. */
  function Block(g: Grid, w: nat, h: nat, x: int, y: int): (b: seq<bool>)
    requires Shaped(g, w, h) && 0 <= x < w && 0 <= y < h
    ensures |b| == 9
  {
    [Get(g, w, h, x - 1, y - 1), Get(g, w, h, x - 1, y), Get(g, w, h, x - 1, y + 1),
     Get(g, w, h, x, y - 1),     Get(g, w, h, x, y),     Get(g, w, h, x, y + 1),
     Get(g, w, h, x + 1, y - 1), Get(g, w, h, x + 1, y), Get(g, w, h, x + 1, y + 1)]
  }

  /** The live cells among the first k cells of a block, the centre skipped. */
  function Tally(b: seq<bool>, k: nat): (n: nat)
    requires k <= |b|
    ensures n <= k && (4 < k ==> n < k)
  {
    if k == 0 then 0
    else Tally(b, k - 1) + (if k - 1 == 4 then 0 else Count(b[k - 1]))
  }

  /** The number of live cells among the eight wrapped Moore neighbours
      of (x, y): offsets (dx, dy) in {-1, 0, 1} x {-1, 0, 1} except (0, 0). */
  function Neighbors(g: Grid, w: nat, h: nat, x: int, y: int): (n: nat)
    requires Shaped(g, w, h)
    requires 0 <= x < w && 0 <= y < h
    ensures n <= 8
  {
    Tally(Block(g, w, h, x, y), 9)
  }

  /** B3/S23: a cell is alive in the next generation iff it has exactly
      three live neighbours, or it is alive and has exactly two. */
  predicate Lives(alive: bool, n: int)
  {
    n == 3 || (n == 2 && alive)
  }

  /** The next generation: every cell follows Lives, computed from g only. */
  function Next(g: Grid, w: nat, h: nat): (r: Grid)
    requires Shaped(g, w, h)
    ensures Shaped(r, w, h)
  {
    seq(w, x requires 0 <= x < w =>
      seq(h, y requires 0 <= y < h => Lives(g[x][y], Neighbors(g, w, h, x, y))))
  }

  /** The grid with every cell dead. */
  function Dead(w: nat, h: nat): (r: Grid)
    ensures Shaped(r, w, h)
  {
    seq(w, _ => seq(h, _ => false))
  }

  /** g with the single cell (cx, cy) inverted. */
  function Flip(g: Grid, w: nat, h: nat, cx: int, cy: int): (r: Grid)
    requires Shaped(g, w, h) && 0 <= cx < w && 0 <= cy < h
    ensures Shaped(r, w, h)
  {
    g[cx := g[cx][cy := !g[cx][cy]]]
  }

  /** Grids of the same shape that agree cell for cell are equal. */
  lemma SameGrid(a: Grid, b: Grid, w: nat, h: nat)
    requires Shaped(a, w, h) && Shaped(b, w, h)
    requires forall x, y :: 0 <= x < w && 0 <= y < h ==> a[x][y] == b[x][y]
    ensures a == b
  {
    forall x | 0 <= x < w
      ensures a[x] == b[x]
    {
    }
  }

  // ---------------------------------------------------------------------
  // Properties of the specification

  /** On the coordinates it accepts, the one-step wrap is arithmetic
      modulo the axis length, so Get reads g[(x + w) % w][(y + h) % h]. */
  lemma {:induction false} GetIsModular(g: Grid, w: nat, h: nat, x: int, y: int)
    requires Shaped(g, w, h) && 0 < w && 0 < h
    requires OneStepOut(w, h, x, y)
    ensures Get(g, w, h, x, y) == g[(x + w) % w][(y + h) % h]
  {
    WrapIsModular(x, w);
    WrapIsModular(y, h);
  }

  lemma WrapIsModular(c: int, n: nat)
    requires 0 < n && -1 <= c <= n
    ensures Wrap(c, n) == (c + n) % n
  {
  }

  /** A whole block's tally is the sum over its eight outer cells. */
  lemma {:induction false} TallyNine(b: seq<bool>)
    requires |b| == 9
    ensures Tally(b, 9) ==
              Count(b[0]) + Count(b[1]) + Count(b[2]) + Count(b[3]) +
              Count(b[5]) + Count(b[6]) + Count(b[7]) + Count(b[8])
  {
    assert Tally(b, 2) == Count(b[0]) + Count(b[1]);
    assert Tally(b, 4) == Tally(b, 2) + Count(b[2]) + Count(b[3]);
    assert Tally(b, 6) == Tally(b, 4) + Count(b[5]);
    assert Tally(b, 8) == Tally(b, 6) + Count(b[6]) + Count(b[7]);
  }

  /** Offset (dx, dy) of the block sits at index 3 * (dx + 1) + (dy + 1). */
  lemma BlockAt(g: Grid, w: nat, h: nat, x: int, y: int, dx: int, dy: int)
    requires Shaped(g, w, h) && 0 <= x < w && 0 <= y < h
    requires -1 <= dx <= 1 && -1 <= dy <= 1
    ensures Block(g, w, h, x, y)[3 * (dx + 1) + (dy + 1)] == Get(g, w, h, x + dx, y + dy)
  {
  }

  /** The count is the sum over the eight neighbours named one by one
      (west column, centre column without the cell itself, east column). */
  lemma {:induction false} NeighborsExplicit(g: Grid, w: nat, h: nat, x: int, y: int)
    requires Shaped(g, w, h) && 0 <= x < w && 0 <= y < h
    ensures Neighbors(g, w, h, x, y) ==
              Count(Get(g, w, h, x - 1, y - 1)) + Count(Get(g, w, h, x - 1, y)) + Count(Get(g, w, h, x - 1, y + 1)) +
              Count(Get(g, w, h, x, y - 1))                                       + Count(Get(g, w, h, x, y + 1)) +
              Count(Get(g, w, h, x + 1, y - 1)) + Count(Get(g, w, h, x + 1, y)) + Count(Get(g, w, h, x + 1, y + 1))
  {
    TallyNine(Block(g, w, h, x, y));
  }

  /** Each cell of the next generation follows B3/S23 over the old grid. */
  lemma NextAt(g: Grid, w: nat, h: nat, x: int, y: int)
    requires Shaped(g, w, h) && 0 <= x < w && 0 <= y < h
    ensures Next(g, w, h)[x][y] <==>
              Neighbors(g, w, h, x, y) == 3 || (Neighbors(g, w, h, x, y) == 2 && g[x][y])
  {
    assert Next(g, w, h)[x][y] == Lives(g[x][y], Neighbors(g, w, h, x, y));
  }

  /** A cell's next state depends only on the old 3x3 block around it,
      never on another cell of the new generation: two grids that agree
      on that block agree on the cell after the step. */
  lemma {:induction false} NextIsLocal(g1: Grid, g2: Grid, w: nat, h: nat, x: int, y: int)
    requires Shaped(g1, w, h) && Shaped(g2, w, h)
    requires 0 <= x < w && 0 <= y < h
    requires Block(g1, w, h, x, y) == Block(g2, w, h, x, y)
    ensures Next(g1, w, h)[x][y] == Next(g2, w, h)[x][y]
  {
    assert g1[x][y] == Block(g1, w, h, x, y)[4];
    assert g2[x][y] == Block(g2, w, h, x, y)[4];
    NextAt(g1, w, h, x, y);
    NextAt(g2, w, h, x, y);
  }

  /** An all-dead grid has no live neighbours anywhere, so it stays dead. */
  lemma {:induction false} DeadStaysDead(w: nat, h: nat)
    ensures Next(Dead(w, h), w, h) == Dead(w, h)
  {
    var d := Dead(w, h);
    var n := Next(d, w, h);
    forall x | 0 <= x < w
      ensures n[x] == d[x]
    {
      forall y | 0 <= y < h
        ensures n[x][y] == d[x][y]
      {
        DeadHasNoNeighbors(w, h, x, y);
      }
    }
  }

  lemma {:induction false} DeadHasNoNeighbors(w: nat, h: nat, x: int, y: int)
    requires 0 <= x < w && 0 <= y < h
    ensures Neighbors(Dead(w, h), w, h, x, y) == 0
  {
    TallyNine(Block(Dead(w, h), w, h, x, y));
  }

  /** Flip changes exactly the chosen cell. */
  lemma FlipChangesOne(g: Grid, w: nat, h: nat, cx: int, cy: int)
    requires Shaped(g, w, h) && 0 <= cx < w && 0 <= cy < h
    ensures forall x, y :: 0 <= x < w && 0 <= y < h ==>
              (Flip(g, w, h, cx, cy)[x][y] != g[x][y] <==> x == cx && y == cy)
  {
  }

  /** Flipping the same cell twice restores the grid. */
  lemma {:induction false} FlipTwice(g: Grid, w: nat, h: nat, cx: int, cy: int)
    requires Shaped(g, w, h) && 0 <= cx < w && 0 <= cy < h
    ensures Flip(Flip(g, w, h, cx, cy), w, h, cx, cy) == g
  {
    var f := Flip(Flip(g, w, h, cx, cy), w, h, cx, cy);
    assert f[cx] == g[cx];
  }

  /** Adjacency across the extreme corner: with only (0, 0) alive, the
      opposite corner (w - 1, h - 1) counts it as a neighbour. */
  lemma CornerSeesOrigin(w: nat, h: nat)
    requires 0 < w && 0 < h
    ensures Neighbors(Flip(Dead(w, h), w, h, 0, 0), w, h, w - 1, h - 1) >= 1
  {
  }
}
