/**
 * The two engines side by side. A 0/1 grid describes a set of live cells
 * when g[y][x] is 1 exactly for the cells (x, y) of that set. Away from the
 * border, the dense step computes standard B3/S23 on that set; the sparse
 * step does not (see SparseRules.NarrowBirth).
 */
module Agreement {
  import S = SparseRules
  import D = DenseLife

  /** g is a 0/1 grid whose 1s are exactly the cells of `cells` that lie inside it. */
  predicate Encodes(g: D.Grid, cells: seq<S.Cell>) {
    D.Binary(g) &&
    forall y, x :: 0 <= y < |g| && 0 <= x < |g[y]| ==> (g[y][x] == 1 <==> (x, y) in cells)
  }

  /** One grid cell counts as the sparse engine's membership test for the same position. */
  lemma CountIsLive(g: D.Grid, cells: seq<S.Cell>, y: int, x: int)
    requires Encodes(g, cells) && 0 <= y < |g| && 0 <= x < |g[y]|
    ensures D.Count(g[y][x]) == S.Live(cells, (x, y))
  {
    assert g[y][x] == 0 || g[y][x] == 1;
  }

  /** Around an interior cell, the grid and the list see the same live neighbours. */
  lemma LiveAroundIsNeighbourCount(g: D.Grid, cells: seq<S.Cell>, y: int, x: int)
    requires Encodes(g, cells) && D.Interior(g, y, x)
    ensures D.LiveAround(g, y, x) == S.NeighbourCount(cells, (x, y))
  {
    S.NeighbourCountExpanded(cells, x, y);
    CountIsLive(g, cells, y - 1, x - 1);
    CountIsLive(g, cells, y - 1, x);
    CountIsLive(g, cells, y - 1, x + 1);
    CountIsLive(g, cells, y, x - 1);
    CountIsLive(g, cells, y, x + 1);
    CountIsLive(g, cells, y + 1, x - 1);
    CountIsLive(g, cells, y + 1, x);
    CountIsLive(g, cells, y + 1, x + 1);
  }

  /**
   * An interior cell is live after the dense step iff it is live under the
   * standard rule applied to the same set of cells.
   */
  lemma DenseStepIsStandard(g: D.Grid, cells: seq<S.Cell>, y: int, x: int)
    requires D.IsSquare(g) && Encodes(g, cells)
    requires 0 <= y < |g| && 0 <= x < |g| && !D.OnBorder(|g|, y, x)
    ensures D.Next(g)[y][x] == 1 <==> (x, y) in S.StandardNext(cells)
  {
    D.NextRule(g, y, x);
    LiveAroundIsNeighbourCount(g, cells, y, x);
    assert g[y][x] == 1 <==> (x, y) in cells;
  }
}
