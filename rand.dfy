/** The self-running program: a 950 x 600 torus seeded once, either with
    a fixed three-cell pattern or with one pseudo-random bit per cell, and
    then stepped until the window closes. */
module Rand {
  import opened Rules
  import Field

  const WIDTH: nat := 950
  const HEIGHT: nat := 600

  /** The fixed seed pattern, as (x, y) cells. */
  const Points: seq<(int, int)> := [(2, 2), (3, 3), (2, 4)]

  /** Every cell of the fixed pattern lies inside the grid. */
  lemma PointsInside()
    ensures forall k :: 0 <= k < |Points| ==>
              0 <= Points[k].0 < WIDTH && 0 <= Points[k].1 < HEIGHT
  {
  }

  /** g with every cell of Points made alive. */
  function Marked(g: Grid): (r: Grid)
    requires Shaped(g, WIDTH, HEIGHT)
    ensures Shaped(r, WIDTH, HEIGHT)
  {
    seq(WIDTH, x requires 0 <= x < WIDTH =>
      seq(HEIGHT, y requires 0 <= y < HEIGHT => g[x][y] || (x, y) in Points))
  }

  /** The fixed branch of place_points: each pattern cell is set alive,
      every other cell keeps its state. */
  method PlacePoints(arr: array2<bool>)
    requires arr.Length0 == WIDTH && arr.Length1 == HEIGHT
    modifies arr
    ensures forall x, y :: 0 <= x < WIDTH && 0 <= y < HEIGHT ==>
              arr[x, y] == (old(arr[x, y]) || (x, y) in Points)
    ensures Field.Cells(arr) == Marked(old(Field.Cells(arr)))
  {
    ghost var g := Field.Cells(arr);
    PointsInside();
    for i := 0 to |Points|
      invariant forall x, y :: 0 <= x < WIDTH && 0 <= y < HEIGHT ==>
                  arr[x, y] == (g[x][y] || (x, y) in Points[..i])
    {
      arr[Points[i].0, Points[i].1] := true;
      assert Points[..i + 1] == Points[..i] + [Points[i]];
    }
    assert Points[..|Points|] == Points;
    Field.CellsAre(arr, Marked(g));
  }

  /** The draw of the pseudo-random generator that cell (x, y) receives:
      the cells are filled column by column, x outer and y inner. */
  function DrawIndex(x: int, y: int): (k: int)
    requires 0 <= x < WIDTH && 0 <= y < HEIGHT
    ensures 0 <= k < WIDTH * HEIGHT
  {
    x * HEIGHT + y
  }

  /** The grid the random branch produces from a sequence of draws: a cell
      is alive iff its draw is odd. */
  function Drawn(draws: seq<nat>): (r: Grid)
    requires |draws| >= WIDTH * HEIGHT
    ensures Shaped(r, WIDTH, HEIGHT)
  {
    seq(WIDTH, x requires 0 <= x < WIDTH =>
      seq(HEIGHT, y requires 0 <= y < HEIGHT => draws[DrawIndex(x, y)] % 2 == 1))
  }

  /** The random branch of place_points, with the generator's outputs
      given as draws (the next call returns draws[next]). */
  method PlaceRandom(arr: array2<bool>, draws: seq<nat>)
    requires arr.Length0 == WIDTH && arr.Length1 == HEIGHT
    requires |draws| >= WIDTH * HEIGHT
    modifies arr
    ensures forall x, y :: 0 <= x < WIDTH && 0 <= y < HEIGHT ==>
              arr[x, y] == (draws[DrawIndex(x, y)] % 2 == 1)
    ensures Field.Cells(arr) == Drawn(draws)
  {
    var next := 0;
    for i := 0 to WIDTH
      invariant next == i * HEIGHT
      invariant forall x, y :: 0 <= x < i && 0 <= y < HEIGHT ==>
                  arr[x, y] == (draws[DrawIndex(x, y)] % 2 == 1)
    {
      for j := 0 to HEIGHT
        invariant next == i * HEIGHT + j
        invariant forall x, y :: 0 <= x < i && 0 <= y < HEIGHT ==>
                    arr[x, y] == (draws[DrawIndex(x, y)] % 2 == 1)
        invariant forall y :: 0 <= y < j ==> arr[i, y] == (draws[DrawIndex(i, y)] % 2 == 1)
      {
        arr[i, j] := draws[next] % 2 == 1;
        next := next + 1;
      }
    }
    Field.CellsAre(arr, Drawn(draws));
  }

  /** Distinct cells receive distinct draws, and every one of the first
      WIDTH * HEIGHT draws goes to some cell. */
  lemma DrawIndexBijective(x1: int, y1: int, x2: int, y2: int, k: int)
    requires 0 <= x1 < WIDTH && 0 <= y1 < HEIGHT
    requires 0 <= x2 < WIDTH && 0 <= y2 < HEIGHT
    requires 0 <= k < WIDTH * HEIGHT
    ensures DrawIndex(x1, y1) == DrawIndex(x2, y2) ==> x1 == x2 && y1 == y2
    ensures 0 <= k / HEIGHT < WIDTH && DrawIndex(k / HEIGHT, k % HEIGHT) == k
  {
  }

  /** One generation of update on the 950 x 600 field. */
  method Update(field: array2<bool>)
    requires field.Length0 == WIDTH && field.Length1 == HEIGHT
    modifies field
    ensures Field.Cells(field) == Next(old(Field.Cells(field)), WIDTH, HEIGHT)
  {
    Field.Step(field);
  }
}
