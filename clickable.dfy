/** The interactive program: a 100 x 100 torus drawn with 7-pixel cells,
    edited by mouse clicks between runs of the generation loop. */
module Clickable {
  import opened Rules
  import Field

  const WIDTH: nat := 100
  const HEIGHT: nat := 100
  const CELL_SIZE: nat := 7

  /** The cell column (or row) under a window coordinate: integer division
      by the cell size, so the cell c covers pixels [c * 7, c * 7 + 7). */
  function CellOf(p: int): (c: int)
    requires 0 <= p
    ensures c * CELL_SIZE <= p < c * CELL_SIZE + CELL_SIZE
    ensures 0 <= c
    ensures p < WIDTH * CELL_SIZE ==> c < WIDTH
    ensures p < HEIGHT * CELL_SIZE ==> c < HEIGHT
  {
    p / CELL_SIZE
  }

  /** A mouse click at window pixel (px, py) inverts the cell under it;
      every other cell keeps its state. */
  method Toggle(field: array2<bool>, px: int, py: int)
    requires field.Length0 == WIDTH && field.Length1 == HEIGHT
    requires 0 <= px < WIDTH * CELL_SIZE && 0 <= py < HEIGHT * CELL_SIZE
    modifies field
    ensures forall x, y :: 0 <= x < WIDTH && 0 <= y < HEIGHT ==>
              field[x, y] == (old(field[x, y]) != (x == CellOf(px) && y == CellOf(py)))
    ensures Field.Cells(field) == Flip(old(Field.Cells(field)), WIDTH, HEIGHT, CellOf(px), CellOf(py))
  {
    ghost var g := Field.Cells(field);
    field[px / CELL_SIZE, py / CELL_SIZE] := !field[px / CELL_SIZE, py / CELL_SIZE];
    FlipChangesOne(g, WIDTH, HEIGHT, CellOf(px), CellOf(py));
    Field.CellsAre(field, Flip(g, WIDTH, HEIGHT, CellOf(px), CellOf(py)));
  }
}
