/** The generation engine as the C code runs it: a WIDTH x HEIGHT
    bool matrix (array2, Length0 = WIDTH, Length1 = HEIGHT) updated in
    place by nested loops. Every method is proved against the value-level
    specification in Rules through Cells. */
module Field {
  import opened Rules

  /** The grid an array currently holds. */
  ghost function Cells(a: array2<bool>): (g: Grid)
    reads a
    ensures Shaped(g, a.Length0, a.Length1)
    ensures forall x, y :: 0 <= x < a.Length0 && 0 <= y < a.Length1 ==> g[x][y] == a[x, y]
  {
    seq(a.Length0, x requires 0 <= x < a.Length0 reads a =>
      seq(a.Length1, y requires 0 <= y < a.Length1 reads a => a[x, y]))
  }

  /** An array that agrees with g cell for cell holds g. */
  lemma CellsAre(a: array2<bool>, g: Grid)
    requires Shaped(g, a.Length0, a.Length1)
    requires forall x, y :: 0 <= x < a.Length0 && 0 <= y < a.Length1 ==> a[x, y] == g[x][y]
    ensures Cells(a) == g
  {
    var c := Cells(a);
    forall x | 0 <= x < a.Length0
      ensures c[x] == g[x]
    {
    }
  }

  /** clear_array: every cell becomes dead. */
  method ClearArray(arr: array2<bool>)
    modifies arr
    ensures forall x, y :: 0 <= x < arr.Length0 && 0 <= y < arr.Length1 ==> !arr[x, y]
    ensures Cells(arr) == Dead(arr.Length0, arr.Length1)
  {
    for i := 0 to arr.Length0
      invariant forall x, y :: 0 <= x < i && 0 <= y < arr.Length1 ==> !arr[x, y]
    {
      for j := 0 to arr.Length1
        invariant forall x, y :: 0 <= x < i && 0 <= y < arr.Length1 ==> !arr[x, y]
        invariant forall y :: 0 <= y < j ==> !arr[i, y]
      {
        arr[i, j] := false;
      }
    }
    CellsAre(arr, Dead(arr.Length0, arr.Length1));
  }

  /** get_alive: a coordinate one step past an edge is moved to the
      opposite edge by two explicit branches per axis; the cell it then
      reads is the wrapped cell of the specification. */
  method GetAlive(field: array2<bool>, x: int, y: int) returns (alive: bool)
    requires 0 < field.Length0 && 0 < field.Length1
    requires OneStepOut(field.Length0, field.Length1, x, y)
    ensures alive == Get(Cells(field), field.Length0, field.Length1, x, y)
  {
    var cx, cy := x, y;
    if cx == -1 {
      cx := field.Length0 - 1;
    } else if cx == field.Length0 {
      cx := 0;
    }
    if cy == -1 {
      cy := field.Length1 - 1;
    } else if cy == field.Length1 {
      cy := 0;
    }
    alive := field[cx, cy];
    GetIsModular(Cells(field), field.Length0, field.Length1, x, y);
  }

  /** count_neighbors: the loop adds up get_alive over the eight offsets
      around (x, y), each of which lies in the range get_alive accepts. */
  method CountNeighbors(field: array2<bool>, x: int, y: int) returns (result: int)
    requires 0 <= x < field.Length0 && 0 <= y < field.Length1
    ensures 0 <= result <= 8
    ensures result == Neighbors(Cells(field), field.Length0, field.Length1, x, y)
  {
    ghost var g, w, h := Cells(field), field.Length0, field.Length1;
    ghost var b := Block(g, w, h, x, y);
    result := 0;
    for i := -1 to 2
      invariant result == Tally(b, 3 * (i + 1))
    {
      for j := -1 to 2
        invariant result == Tally(b, 3 * (i + 1) + (j + 1))
      {
        if i != 0 || j != 0 {
          var alive := GetAlive(field, x + i, y + j);
          BlockAt(g, w, h, x, y, i, j);
          result := result + Count(alive);
        }
      }
    }
  }

  /** copy_array: dst receives src cell for cell; src keeps its contents
      (also when dst and src are the same array). */
  method CopyArray(dst: array2<bool>, src: array2<bool>)
    requires dst.Length0 == src.Length0 && dst.Length1 == src.Length1
    modifies dst
    ensures forall x, y :: 0 <= x < dst.Length0 && 0 <= y < dst.Length1 ==>
              dst[x, y] == old(src[x, y]) && src[x, y] == old(src[x, y])
    ensures Cells(dst) == old(Cells(src)) && Cells(src) == old(Cells(src))
  {
    ghost var s := Cells(src);
    for i := 0 to dst.Length0
      invariant forall x, y :: 0 <= x < dst.Length0 && 0 <= y < dst.Length1 ==> src[x, y] == s[x][y]
      invariant forall x, y :: 0 <= x < i && 0 <= y < dst.Length1 ==> dst[x, y] == s[x][y]
    {
      for j := 0 to dst.Length1
        invariant forall x, y :: 0 <= x < dst.Length0 && 0 <= y < dst.Length1 ==> src[x, y] == s[x][y]
        invariant forall x, y :: 0 <= x < i && 0 <= y < dst.Length1 ==> dst[x, y] == s[x][y]
        invariant forall y :: 0 <= y < j ==> dst[i, y] == s[i][y]
      {
        dst[i, j] := src[i, j];
      }
    }
    CellsAre(dst, s);
    CellsAre(src, s);
  }

  /** A grid of the right shape whose every cell follows B3/S23 over g
      is the next generation of g. The trigger lets a cell's rule be used
      only where that cell's neighbour count is at hand, which keeps the
      step's loop invariants free of neighbour arithmetic. */
  lemma CellwiseIsNext(g: Grid, w: nat, h: nat, r: Grid)
    requires Shaped(g, w, h) && Shaped(r, w, h)
    requires forall x, y {:trigger Neighbors(g, w, h, x, y)} :: 0 <= x < w && 0 <= y < h ==>
               r[x][y] == Lives(g[x][y], Neighbors(g, w, h, x, y))
    ensures r == Next(g, w, h)
  {
    var n := Next(g, w, h);
    forall x, y | 0 <= x < w && 0 <= y < h
      ensures r[x][y] == n[x][y]
    {
      NextAt(g, w, h, x, y);
    }
    SameGrid(r, n, w, h);
  }

  /** The next generation of g, described cell by cell under the same
      trigger as CellwiseIsNext. */
  lemma NextByCell(g: Grid, w: nat, h: nat) returns (r: Grid)
    requires Shaped(g, w, h)
    ensures Shaped(r, w, h)
    ensures forall x, y {:trigger Neighbors(g, w, h, x, y)} :: 0 <= x < w && 0 <= y < h ==>
              r[x][y] == Lives(g[x][y], Neighbors(g, w, h, x, y))
  {
    r := Next(g, w, h);
    forall x, y | 0 <= x < w && 0 <= y < h
      ensures r[x][y] == Lives(g[x][y], Neighbors(g, w, h, x, y))
    {
      NextAt(g, w, h, x, y);
    }
  }

  /** The step loop of update: every cell of temp is computed from the
      unchanged field, then field is cleared and temp copied back. The new
      field is the next generation of the old one. */
  method Step(field: array2<bool>)
    modifies field
    ensures Cells(field) == Next(old(Cells(field)), field.Length0, field.Length1)
  {
    ghost var g := Cells(field);
    var w, h := field.Length0, field.Length1;
    ghost var next := NextByCell(g, w, h);
    var temp := new bool[w, h];
    for i := 0 to w
      modifies temp
      invariant forall x, y :: 0 <= x < i && 0 <= y < h ==> temp[x, y] == next[x][y]
    {
      for j := 0 to h
        modifies temp
        invariant forall x, y :: 0 <= x < i && 0 <= y < h ==> temp[x, y] == next[x][y]
        invariant forall y :: 0 <= y < j ==> temp[i, y] == next[i][y]
      {
        var n := CountNeighbors(field, i, j);
        temp[i, j] := if n == 3 then true else if n == 2 then field[i, j] else false;
        assert temp[i, j] == Lives(field[i, j], n);
        assert temp[i, j] == next[i][j];
      }
    }
    ClearArray(field);
    CopyArray(field, temp);
    CellwiseIsNext(g, w, h, next);
    CellsAre(field, next);
  }
}
