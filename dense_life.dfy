/**
 * The dense engine of life.py: a fieldSize × fieldSize grid of ints indexed
 * field[y][x] (row y, column x), where 0 is a dead cell and 1 a live one.
 * A generation is computed against a deep copy of the grid; the outer ring
 * of cells is never updated.
 *
 * The grid is an `array2<int>` written in place. Its contents are read as a
 * `Grid` value (Cells) so that the rule can be stated as pure functions.
 */
module DenseLife {
  import opened Wrappers

  /** A grid as a value: g[y][x] is the cell in row y, column x. */
  type Grid = seq<seq<int>>

  // ---------------------------------------------------------------------
  // Grid values
  // ---------------------------------------------------------------------

  /** Python truthiness of a cell value, as in `if tempfield[...]`. */
  predicate Truthy(v: int) {
    v != 0
  }

  /** 1 for a truthy value, 0 otherwise: what one truthy test adds to `alive`. */
  function Count(v: int): nat {
    if Truthy(v) then 1 else 0
  }

  /** Every row is as long as there are rows: the shape life.py keeps. */
  predicate IsSquare(g: Grid) {
    forall y :: 0 <= y < |g| ==> |g[y]| == |g|
  }

  /** Every cell is 0 or 1. */
  predicate Binary(g: Grid) {
    forall y, x :: 0 <= y < |g| && 0 <= x < |g[y]| ==> g[y][x] == 0 || g[y][x] == 1
  }

  /** All eight neighbours of (y, x) lie inside g. */
  predicate Interior(g: Grid, y: int, x: int) {
    1 <= y && y + 1 < |g| && 1 <= x &&
    x + 1 < |g[y - 1]| && x + 1 < |g[y]| && x + 1 < |g[y + 1]|
  }

  /** The cells of an array, read as a grid. */
  function Cells(a: array2<int>): (g: Grid)
    reads a
    ensures |g| == a.Length0
    ensures forall y :: 0 <= y < a.Length0 ==> |g[y]| == a.Length1
    ensures forall y, x :: 0 <= y < a.Length0 && 0 <= x < a.Length1 ==> g[y][x] == a[y, x]
  {
    seq(a.Length0, (y: int) requires 0 <= y < a.Length0 reads a =>
      seq(a.Length1, (x: int) requires 0 <= x < a.Length1 reads a => a[y, x]))
  }

  /** Two arrays of the same shape and contents have the same grid. */
  lemma CellsEqual(a: array2<int>, g: Grid)
    requires |g| == a.Length0
    requires forall y :: 0 <= y < |g| ==> |g[y]| == a.Length1
    requires forall y, x :: 0 <= y < a.Length0 && 0 <= x < a.Length1 ==> a[y, x] == g[y][x]
    ensures Cells(a) == g
  {
    var c := Cells(a);
    forall y | 0 <= y < |g|
      ensures c[y] == g[y]
    {
    }
  }

  // ---------------------------------------------------------------------
  // listNeighbors
  // ---------------------------------------------------------------------

  /** Truthy cells among the first k of g[r][x-1], g[r][x], g[r][x+1]: the inner loop. */
  function RowRun(g: Grid, r: int, x: int, k: nat): nat
    requires 0 <= r < |g| && 1 <= x && x + 1 < |g[r]| && k <= 3
  {
    if k == 0 then 0 else RowRun(g, r, x, k - 1) + Count(g[r][x - 2 + k])
  }

  /** RowRun over the first j of the rows y-1, y, y+1: the outer loop. */
  function WindowRun(g: Grid, y: int, x: int, j: nat): nat
    requires Interior(g, y, x) && j <= 3
  {
    if j == 0 then 0 else WindowRun(g, y, x, j - 1) + RowRun(g, y - 2 + j, x, 3)
  }

  /** What listNeighbors returns: the truthy cells of the 3×3 block minus the centre's value. */
  function NeighborSum(g: Grid, y: int, x: int): int
    requires Interior(g, y, x)
  {
    WindowRun(g, y, x, 3) - g[y][x]
  }

  /** The live Moore neighbours of (y, x), one term per neighbour. */
  function LiveAround(g: Grid, y: int, x: int): (n: nat)
    requires Interior(g, y, x)
    ensures n <= 8
  {
    Count(g[y - 1][x - 1]) + Count(g[y - 1][x]) + Count(g[y - 1][x + 1]) +
    Count(g[y][x - 1]) + Count(g[y][x + 1]) +
    Count(g[y + 1][x - 1]) + Count(g[y + 1][x]) + Count(g[y + 1][x + 1])
  }

  /**
   * The 3×3 count minus the centre is the number of live neighbours, plus
   * the centre's truthiness less its value; for a 0/1 centre that is
   * exactly the number of live neighbours, in [0, 8].
   */
  lemma NeighborSumCountsNeighbours(g: Grid, y: int, x: int)
    requires Interior(g, y, x)
    ensures NeighborSum(g, y, x) == LiveAround(g, y, x) + Count(g[y][x]) - g[y][x]
    ensures g[y][x] == 0 || g[y][x] == 1 ==>
      NeighborSum(g, y, x) == LiveAround(g, y, x) && 0 <= NeighborSum(g, y, x) <= 8
  {
    forall r | y - 1 <= r <= y + 1
      ensures RowRun(g, r, x, 3) == Count(g[r][x - 1]) + Count(g[r][x]) + Count(g[r][x + 1])
    {
      assert RowRun(g, r, x, 1) == Count(g[r][x - 1]);
      assert RowRun(g, r, x, 2) == Count(g[r][x - 1]) + Count(g[r][x]);
    }
    assert WindowRun(g, y, x, 1) == RowRun(g, y - 1, x, 3);
    assert WindowRun(g, y, x, 2) == RowRun(g, y - 1, x, 3) + RowRun(g, y, x, 3);
  }

  /**
   * listNeighbors(x, y, tempfield): nested loops over the offsets -1, 0, 1
   * (rows outer, columns inner) counting truthy cells, then subtracting the
   * centre's value. The caller keeps (y, x) off the border, so every index
   * is in range.
   */
  method ListNeighbors(x: int, y: int, tempField: array2<int>) returns (alive: int)
    requires 1 <= y && y + 1 < tempField.Length0 && 1 <= x && x + 1 < tempField.Length1
    ensures Interior(Cells(tempField), y, x)
    ensures alive == NeighborSum(Cells(tempField), y, x)
    ensures tempField[y, x] == 0 || tempField[y, x] == 1 ==>
      alive == LiveAround(Cells(tempField), y, x)
  {
    ghost var g := Cells(tempField);
    alive := 0;
    for offsetY := -1 to 2
      invariant alive == WindowRun(g, y, x, offsetY + 1)
    {
      for offsetX := -1 to 2
        invariant alive == WindowRun(g, y, x, offsetY + 1) + RowRun(g, y + offsetY, x, offsetX + 1)
      {
        if tempField[y + offsetY, x + offsetX] != 0 {
          alive := alive + 1;
        }
      }
    }
    alive := alive - tempField[y, x];
    NeighborSumCountsNeighbours(g, y, x);
  }

  // ---------------------------------------------------------------------
  // advanceGeneration
  // ---------------------------------------------------------------------

  /** The outer ring of an n × n grid, which advanceGeneration skips. */
  predicate OnBorder(n: int, y: int, x: int) {
    x == 0 || x == n - 1 || y == 0 || y == n - 1
  }

  /**
   * The value advanceGeneration leaves at (y, x) given the snapshot g: a
   * border cell keeps its value; a truthy cell with count <= 1 or >= 4
   * becomes 0 and otherwise keeps its value; a 0 cell with count 3 becomes 1.
   */
  function NextValue(g: Grid, y: int, x: int): int
    requires IsSquare(g) && 0 <= y < |g| && 0 <= x < |g|
  {
    if OnBorder(|g|, y, x) then g[y][x]
    else
      var k := NeighborSum(g, y, x);
      if Truthy(g[y][x]) then (if k <= 1 || k >= 4 then 0 else g[y][x])
      else if k == 3 then 1 else g[y][x]
  }

  /** The grid after one advanceGeneration on g. */
  function Next(g: Grid): (r: Grid)
    requires IsSquare(g)
    ensures |r| == |g| && IsSquare(r)
    ensures forall y, x {:trigger r[y][x]} :: 0 <= y < |g| && 0 <= x < |g| && OnBorder(|g|, y, x) ==>
      r[y][x] == g[y][x]
    ensures Binary(g) ==> Binary(r)
  {
    seq(|g|, (y: int) requires 0 <= y < |g| =>
      seq(|g|, (x: int) requires 0 <= x < |g| => NextValue(g, y, x)))
  }

  /**
   * B3/S23 on an interior cell of a 0/1 grid, stated with the number of
   * live neighbours: a live cell dies iff it has at most 1 or at least 4,
   * and a dead cell is born iff it has exactly 3.
   */
  lemma NextRule(g: Grid, y: int, x: int)
    requires IsSquare(g) && Binary(g)
    requires 0 <= y < |g| && 0 <= x < |g| && !OnBorder(|g|, y, x)
    ensures Interior(g, y, x)
    ensures Next(g)[y][x] == 0 || Next(g)[y][x] == 1
    ensures g[y][x] == 1 ==>
      (Next(g)[y][x] == 0 <==> LiveAround(g, y, x) <= 1 || LiveAround(g, y, x) >= 4)
    ensures g[y][x] == 0 ==> (Next(g)[y][x] == 1 <==> LiveAround(g, y, x) == 3)
  {
    assert g[y][x] == 0 || g[y][x] == 1;
    NeighborSumCountsNeighbours(g, y, x);
  }

  /** A copy of an n × n grid with one cell replaced. */
  function SetCell(g: Grid, y: nat, x: nat, v: int): (r: Grid)
    requires y < |g| && x < |g[y]|
    ensures |r| == |g| && forall i :: 0 <= i < |g| ==> |r[i]| == |g[i]|
    ensures r[y][x] == v
    ensures forall i, j :: 0 <= i < |g| && 0 <= j < |g[i]| && (i, j) != (y, x) ==> r[i][j] == g[i][j]
  {
    g[y := g[y][x := v]]
  }

  /** Writing the same value at the same place twice is writing it once. */
  lemma SetCellIdempotent(g: Grid, y: nat, x: nat, v: int)
    requires y < |g| && x < |g[y]|
    ensures SetCell(SetCell(g, y, x, v), y, x, v) == SetCell(g, y, x, v)
  {
    var once := SetCell(g, y, x, v);
    assert once[y][x := v] == once[y];
  }

  /**
   * Python list indexing: i selects slot i when 0 <= i < n, slot i + n when
   * -n <= i < 0, and raises IndexError (None) otherwise.
   */
  function PyIndex(i: int, n: nat): (r: Option<nat>)
    ensures r.Some? <==> -(n as int) <= i < n
    ensures r.Some? ==> r.value < n && (r.value == i || r.value == i + n)
  {
    if 0 <= i < n then Some(i)
    else if -(n as int) <= i < 0 then Some(i + n)
    else None
  }

  /** The global state of life.py that the engine uses. */
  class Life {
    var field: array2<int>
    var fieldSize: int
    var steps: int
    var cellSize: int

    /** field is fieldSize × fieldSize. */
    predicate Valid()
      reads this
    {
      field.Length0 == fieldSize && field.Length1 == fieldSize
    }

    /** The module-level defaults: a 100 × 100 dead field, 40-pixel cells, 0 steps. */
    constructor ()
      ensures Valid() && fresh(field)
      ensures fieldSize == 100 && cellSize == 40 && steps == 0
      ensures forall y, x :: 0 <= y < 100 && 0 <= x < 100 ==> field[y, x] == 0
    {
      fieldSize := 100;
      cellSize := 40;
      steps := 0;
      field := new int[100, 100]((y, x) => 0);
    }

    /**
     * advanceGeneration: deep-copy the field, then for every cell off the
     * border count its neighbours in the copy and write the rule's verdict
     * into the field; finally count the step.
     */
    method AdvanceGeneration()
      requires Valid()
      modifies field, this`steps
      ensures Valid()
      ensures Cells(field) == Next(old(Cells(field)))
      ensures steps == old(steps) + 1
    {
      var tempField := CopyGrid(field);
      ghost var g := Cells(tempField);
      for y := 0 to tempField.Length0
        invariant Cells(tempField) == g && steps == old(steps)
        invariant forall i, j :: 0 <= i < y && 0 <= j < fieldSize ==> field[i, j] == NextValue(g, i, j)
        invariant forall i, j :: y <= i < fieldSize && 0 <= j < fieldSize ==> field[i, j] == g[i][j]
      {
        AdvanceRow(tempField, y);
      }
      steps := steps + 1;
      CellsEqual(field, Next(g));
    }

    /**
     * The inner loop of advanceGeneration for row y: every cell of the row
     * off the border takes the rule's value computed from the snapshot.
     */
    method AdvanceRow(tempField: array2<int>, y: int)
      requires Valid() && tempField != field
      requires tempField.Length0 == fieldSize && tempField.Length1 == fieldSize
      requires 0 <= y < fieldSize
      requires forall j :: 0 <= j < fieldSize ==> field[y, j] == tempField[y, j]
      modifies field
      ensures forall j :: 0 <= j < fieldSize ==> field[y, j] == NextValue(Cells(tempField), y, j)
      ensures forall i, j :: 0 <= i < fieldSize && i != y && 0 <= j < fieldSize ==>
        field[i, j] == old(field[i, j])
    {
      ghost var g := Cells(tempField);
      for x := 0 to tempField.Length1
        invariant forall j :: 0 <= j < x ==> field[y, j] == NextValue(g, y, j)
        invariant forall j :: x <= j < fieldSize ==> field[y, j] == g[y][j]
        invariant forall i, j :: 0 <= i < fieldSize && i != y && 0 <= j < fieldSize ==>
          field[i, j] == old(field[i, j])
      {
        if !(x == 0 || x == fieldSize - 1 || y == 0 || y == fieldSize - 1) {
          var neighbors := ListNeighbors(x, y, tempField);
          if tempField[y, x] != 0 {
            if neighbors <= 1 || neighbors >= 4 {
              field[y, x] := 0;
            }
          } else {
            if neighbors == 3 {
              field[y, x] := 1;
            }
          }
        }
      }
    }

    /**
     * modifyCell(pos, state): field[pos[1]][pos[0]] = state, with Python's
     * indexing. ok is false when either index raises IndexError, and then
     * nothing is written.
     */
    method ModifyCell(pos: (int, int), state: int) returns (ok: bool)
      requires Valid() && (state == 0 || state == 1)
      modifies field
      ensures ok <==> PyIndex(pos.1, fieldSize).Some? && PyIndex(pos.0, fieldSize).Some?
      ensures ok ==>
        Cells(field) ==
        SetCell(old(Cells(field)), PyIndex(pos.1, fieldSize).value, PyIndex(pos.0, fieldSize).value, state)
      ensures !ok ==> Cells(field) == old(Cells(field))
    {
      ghost var g := Cells(field);
      var row := PyIndex(pos.1, field.Length0);
      var col := PyIndex(pos.0, field.Length1);
      if row.None? || col.None? {
        return false;
      }
      field[row.value, col.value] := state;
      CellsEqual(field, SetCell(g, row.value, col.value, state));
      ok := true;
    }

    /**
     * Corrected modifyCell: a position outside the grid changes nothing, in
     * place of wrapping negative coordinates to the opposite edge.
     */
    method ModifyCellInBounds(pos: (int, int), state: int) returns (ok: bool)
      requires Valid() && (state == 0 || state == 1)
      modifies field
      ensures ok <==> 0 <= pos.0 < fieldSize && 0 <= pos.1 < fieldSize
      ensures ok ==> Cells(field) == SetCell(old(Cells(field)), pos.1, pos.0, state)
      ensures !ok ==> Cells(field) == old(Cells(field))
    {
      ghost var g := Cells(field);
      if !(0 <= pos.0 < field.Length1 && 0 <= pos.1 < field.Length0) {
        return false;
      }
      field[pos.1, pos.0] := state;
      CellsEqual(field, SetCell(g, pos.1, pos.0, state));
      ok := true;
    }

    /**
     * The integer part of zoom: cellSize moves by 2·scrollDelta only when
     * the result stays strictly between 0 and 200.
     */
    method Zoom(scrollDelta: int)
      modifies this`cellSize
      ensures 0 < old(cellSize) + 2 * scrollDelta < 200 ==> cellSize == old(cellSize) + 2 * scrollDelta
      ensures !(0 < old(cellSize) + 2 * scrollDelta < 200) ==> cellSize == old(cellSize)
      ensures 0 < old(cellSize) < 200 ==> 0 < cellSize < 200
    {
      if scrollDelta * 2 + cellSize <= 0 || scrollDelta * 2 + cellSize >= 200 {
        return;
      }
      cellSize := cellSize + scrollDelta * 2;
    }
  }

  /** copy.deepcopy of the field: a fresh array with the same cells. */
  method CopyGrid(a: array2<int>) returns (b: array2<int>)
    ensures fresh(b)
    ensures b.Length0 == a.Length0 && b.Length1 == a.Length1
    ensures Cells(b) == Cells(a)
  {
    b := new int[a.Length0, a.Length1]((y, x) requires 0 <= y < a.Length0 && 0 <= x < a.Length1 reads a => a[y, x]);
    CellsEqual(b, Cells(a));
  }

  /**
   * A click left of or above the grid lands on the opposite edge: with n
   * columns, x = -1 writes column n - 1.
   */
  lemma NegativeClickWraps(g: Grid, y: nat, v: int)
    requires IsSquare(g) && y < |g|
    ensures PyIndex(-1, |g|) == Some(|g| - 1)
    ensures SetCell(g, y, PyIndex(-1, |g|).value, v)[y][|g| - 1] == v
  {
  }
}
