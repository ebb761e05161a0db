/**
 * Classic patterns under advance_state. On the block, the blinker and the
 * paste_copy glider every standard B3/S23 birth has a live neighbour with
 * one or two neighbours to offer it, so the narrow birth rule of
 * Conways_game_of_life.py (see SparseRules.NarrowBirth) leaves them intact:
 * the block is still, the blinker has period 2 and the glider reappears
 * moved by (1, 1) after four generations. The statements are about the
 * live-cell sets; the lists come out in survivors-then-births order.
 */
module LifePatterns {
  import opened SparseRules

  /** A cell that a live cell feeds is live after advance_state. */
  lemma BirthStep(cells: seq<Cell>, c: Cell, d: Cell)
    requires c in cells && Feeds(cells, c, d)
    ensures d in NextList(cells)
  {
    NextListWithinStandard(cells, d);
  }

  /** A dead cell without exactly three live neighbours stays dead across advance_state. */
  lemma NoBirthStep(cells: seq<Cell>, d: Cell)
    requires d !in cells && NeighbourCount(cells, d) != 3
    ensures d !in NextList(cells)
  {
    NextListWithinStandard(cells, d);
  }

  /** A 2x2 block. */
  const Block: seq<Cell> := [(0, 0), (1, 0), (0, 1), (1, 1)]

  /** A blinker lying horizontally, and the same blinker standing up. */
  const BlinkerH: seq<Cell> := [(0, 1), (1, 1), (2, 1)]
  const BlinkerV: seq<Cell> := [(1, 0), (1, 1), (1, 2)]

  /** The glider paste_copy places at mouse cell (0, 0), and the four generations after it. */
  const Glider0: seq<Cell> := [(2, 0), (2, 1), (2, 2), (1, 2), (0, 1)]
  const Glider1: seq<Cell> := [(2, 1), (2, 2), (1, 2), (1, 0), (3, 1)]
  const Glider2: seq<Cell> := [(2, 2), (1, 2), (3, 1), (2, 0), (3, 2)]
  const Glider3: seq<Cell> := [(2, 2), (3, 1), (3, 2), (1, 1), (2, 3)]
  const Glider4: seq<Cell> := [(3, 1), (3, 2), (2, 3), (1, 2), (3, 3)]

  /** amount_neighbours against glider phase 0: how many of its cells are adjacent to d. */
  lemma Glider0Sum(d: Cell)
    ensures NeighbourCount(Glider0, d) == AdjacentBit(d, (2, 0)) + AdjacentBit(d, (2, 1)) + AdjacentBit(d, (2, 2)) + AdjacentBit(d, (1, 2)) + AdjacentBit(d, (0, 1))
  {
    NeighbourCountIsAdjacentCount(Glider0, d);
    AdjacentCount5((2, 0), (2, 1), (2, 2), (1, 2), (0, 1), d);
  }

  /** Which cells of glider phase 0 keep two or three live neighbours, and which have one or two. */
  lemma Glider0LiveCounts(d: Cell)
    requires d in Glider0
    ensures NeighbourCount(Glider0, d) == 2 || NeighbourCount(Glider0, d) == 3 <==> d == (2, 1) || d == (2, 2) || d == (1, 2)
    ensures NeighbourCount(Glider0, d) == 1 || NeighbourCount(Glider0, d) == 2 <==> d == (2, 0) || d == (2, 2) || d == (0, 1)
  {
    Glider0Sum(d);
  }

  /** The dead cells around glider phase 0 with exactly three live neighbours. */
  lemma Glider0DeadCounts(d: Cell)
    requires d !in Glider0
    ensures NeighbourCount(Glider0, d) == 3 <==> d == (1, 0) || d == (3, 1)
  {
    Glider0Sum(d);
    if d.0 < -1 || d.0 > 3 {
    } else if d.0 == -1 {
    } else if d.0 == 0 {
    } else if d.0 == 1 {
    } else if d.0 == 2 {
    }
  }

  /** The cells born from glider phase 0: each has a live neighbour with one or two neighbours to offer it. */
  lemma Glider0Births(d: Cell)
    requires d == (1, 0) || d == (3, 1)
    ensures d in NextList(Glider0)
  {
    Glider0DeadCounts(d);
    if d == (1, 0) {
      Glider0LiveCounts(Glider0[0]);
      BirthStep(Glider0, Glider0[0], d);
    } else {
      Glider0LiveCounts(Glider0[0]);
      BirthStep(Glider0, Glider0[0], d);
    }
  }

  /** The cells of glider phase 0 that survive advance_state. */
  lemma Glider0Survivors(d: Cell)
    requires d in Glider0
    ensures d in NextList(Glider0) <==> d == (2, 1) || d == (2, 2) || d == (1, 2)
  {
    Glider0LiveCounts(d);
    NextListWithinStandard(Glider0, d);
  }

  /** No other dead cell comes alive. */
  lemma Glider0StaysDead(d: Cell)
    requires d !in Glider0 && !(d == (1, 0) || d == (3, 1))
    ensures d !in NextList(Glider0)
  {
    Glider0DeadCounts(d);
    NoBirthStep(Glider0, d);
  }

  /** advance_state takes glider phase 0 to Glider1, as a set of live cells. */
  lemma Glider0Step(d: Cell)
    ensures d in NextList(Glider0) <==> d in Glider1
  {
    assert d in Glider1 <==> d == (2, 1) || d == (2, 2) || d == (1, 2) || d == (1, 0) || d == (3, 1);
    if d in Glider0 {
      Glider0Survivors(d);
    } else if d == (1, 0) || d == (3, 1) {
      Glider0Births(d);
    } else {
      Glider0StaysDead(d);
    }
  }

  /** amount_neighbours against glider phase 1: how many of its cells are adjacent to d. */
  lemma Glider1Sum(d: Cell)
    ensures NeighbourCount(Glider1, d) == AdjacentBit(d, (2, 1)) + AdjacentBit(d, (2, 2)) + AdjacentBit(d, (1, 2)) + AdjacentBit(d, (1, 0)) + AdjacentBit(d, (3, 1))
  {
    NeighbourCountIsAdjacentCount(Glider1, d);
    AdjacentCount5((2, 1), (2, 2), (1, 2), (1, 0), (3, 1), d);
  }

  /** Which cells of glider phase 1 keep two or three live neighbours, and which have one or two. */
  lemma Glider1LiveCounts(d: Cell)
    requires d in Glider1
    ensures NeighbourCount(Glider1, d) == 2 || NeighbourCount(Glider1, d) == 3 <==> d == (2, 2) || d == (1, 2) || d == (3, 1)
    ensures NeighbourCount(Glider1, d) == 1 || NeighbourCount(Glider1, d) == 2 <==> d == (1, 2) || d == (1, 0) || d == (3, 1)
  {
    Glider1Sum(d);
  }

  /** The dead cells around glider phase 1 with exactly three live neighbours. */
  lemma Glider1DeadCounts(d: Cell)
    requires d !in Glider1
    ensures NeighbourCount(Glider1, d) == 3 <==> d == (2, 0) || d == (3, 2)
  {
    Glider1Sum(d);
    if d.0 < 0 || d.0 > 4 {
    } else if d.0 == 0 {
    } else if d.0 == 1 {
    } else if d.0 == 2 {
    } else if d.0 == 3 {
    }
  }

  /** The cells born from glider phase 1: each has a live neighbour with one or two neighbours to offer it. */
  lemma Glider1Births(d: Cell)
    requires d == (2, 0) || d == (3, 2)
    ensures d in NextList(Glider1)
  {
    Glider1DeadCounts(d);
    if d == (2, 0) {
      Glider1LiveCounts(Glider1[3]);
      BirthStep(Glider1, Glider1[3], d);
    } else {
      Glider1LiveCounts(Glider1[4]);
      BirthStep(Glider1, Glider1[4], d);
    }
  }

  /** The cells of glider phase 1 that survive advance_state. */
  lemma Glider1Survivors(d: Cell)
    requires d in Glider1
    ensures d in NextList(Glider1) <==> d == (2, 2) || d == (1, 2) || d == (3, 1)
  {
    Glider1LiveCounts(d);
    NextListWithinStandard(Glider1, d);
  }

  /** No other dead cell comes alive. */
  lemma Glider1StaysDead(d: Cell)
    requires d !in Glider1 && !(d == (2, 0) || d == (3, 2))
    ensures d !in NextList(Glider1)
  {
    Glider1DeadCounts(d);
    NoBirthStep(Glider1, d);
  }

  /** advance_state takes glider phase 1 to Glider2, as a set of live cells. */
  lemma Glider1Step(d: Cell)
    ensures d in NextList(Glider1) <==> d in Glider2
  {
    assert d in Glider2 <==> d == (2, 2) || d == (1, 2) || d == (3, 1) || d == (2, 0) || d == (3, 2);
    if d in Glider1 {
      Glider1Survivors(d);
    } else if d == (2, 0) || d == (3, 2) {
      Glider1Births(d);
    } else {
      Glider1StaysDead(d);
    }
  }

  /** amount_neighbours against glider phase 2: how many of its cells are adjacent to d. */
  lemma Glider2Sum(d: Cell)
    ensures NeighbourCount(Glider2, d) == AdjacentBit(d, (2, 2)) + AdjacentBit(d, (1, 2)) + AdjacentBit(d, (3, 1)) + AdjacentBit(d, (2, 0)) + AdjacentBit(d, (3, 2))
  {
    NeighbourCountIsAdjacentCount(Glider2, d);
    AdjacentCount5((2, 2), (1, 2), (3, 1), (2, 0), (3, 2), d);
  }

  /** Which cells of glider phase 2 keep two or three live neighbours, and which have one or two. */
  lemma Glider2LiveCounts(d: Cell)
    requires d in Glider2
    ensures NeighbourCount(Glider2, d) == 2 || NeighbourCount(Glider2, d) == 3 <==> d == (2, 2) || d == (3, 1) || d == (3, 2)
    ensures NeighbourCount(Glider2, d) == 1 || NeighbourCount(Glider2, d) == 2 <==> d == (1, 2) || d == (2, 0) || d == (3, 2)
  {
    Glider2Sum(d);
  }

  /** The dead cells around glider phase 2 with exactly three live neighbours. */
  lemma Glider2DeadCounts(d: Cell)
    requires d !in Glider2
    ensures NeighbourCount(Glider2, d) == 3 <==> d == (1, 1) || d == (2, 3)
  {
    Glider2Sum(d);
    if d.0 < 0 || d.0 > 4 {
    } else if d.0 == 0 {
    } else if d.0 == 1 {
    } else if d.0 == 2 {
    } else if d.0 == 3 {
    }
  }

  /** The cells born from glider phase 2: each has a live neighbour with one or two neighbours to offer it. */
  lemma Glider2Births(d: Cell)
    requires d == (1, 1) || d == (2, 3)
    ensures d in NextList(Glider2)
  {
    Glider2DeadCounts(d);
    if d == (1, 1) {
      Glider2LiveCounts(Glider2[1]);
      BirthStep(Glider2, Glider2[1], d);
    } else {
      Glider2LiveCounts(Glider2[1]);
      BirthStep(Glider2, Glider2[1], d);
    }
  }

  /** The cells of glider phase 2 that survive advance_state. */
  lemma Glider2Survivors(d: Cell)
    requires d in Glider2
    ensures d in NextList(Glider2) <==> d == (2, 2) || d == (3, 1) || d == (3, 2)
  {
    Glider2LiveCounts(d);
    NextListWithinStandard(Glider2, d);
  }

  /** No other dead cell comes alive. */
  lemma Glider2StaysDead(d: Cell)
    requires d !in Glider2 && !(d == (1, 1) || d == (2, 3))
    ensures d !in NextList(Glider2)
  {
    Glider2DeadCounts(d);
    NoBirthStep(Glider2, d);
  }

  /** advance_state takes glider phase 2 to Glider3, as a set of live cells. */
  lemma Glider2Step(d: Cell)
    ensures d in NextList(Glider2) <==> d in Glider3
  {
    assert d in Glider3 <==> d == (2, 2) || d == (3, 1) || d == (3, 2) || d == (1, 1) || d == (2, 3);
    if d in Glider2 {
      Glider2Survivors(d);
    } else if d == (1, 1) || d == (2, 3) {
      Glider2Births(d);
    } else {
      Glider2StaysDead(d);
    }
  }

  /** amount_neighbours against glider phase 3: how many of its cells are adjacent to d. */
  lemma Glider3Sum(d: Cell)
    ensures NeighbourCount(Glider3, d) == AdjacentBit(d, (2, 2)) + AdjacentBit(d, (3, 1)) + AdjacentBit(d, (3, 2)) + AdjacentBit(d, (1, 1)) + AdjacentBit(d, (2, 3))
  {
    NeighbourCountIsAdjacentCount(Glider3, d);
    AdjacentCount5((2, 2), (3, 1), (3, 2), (1, 1), (2, 3), d);
  }

  /** Which cells of glider phase 3 keep two or three live neighbours, and which have one or two. */
  lemma Glider3LiveCounts(d: Cell)
    requires d in Glider3
    ensures NeighbourCount(Glider3, d) == 2 || NeighbourCount(Glider3, d) == 3 <==> d == (3, 1) || d == (3, 2) || d == (2, 3)
    ensures NeighbourCount(Glider3, d) == 1 || NeighbourCount(Glider3, d) == 2 <==> d == (3, 1) || d == (1, 1) || d == (2, 3)
  {
    Glider3Sum(d);
  }

  /** The dead cells around glider phase 3 with exactly three live neighbours. */
  lemma Glider3DeadCounts(d: Cell)
    requires d !in Glider3
    ensures NeighbourCount(Glider3, d) == 3 <==> d == (1, 2) || d == (3, 3)
  {
    Glider3Sum(d);
    if d.0 < 0 || d.0 > 4 {
    } else if d.0 == 0 {
    } else if d.0 == 1 {
    } else if d.0 == 2 {
    } else if d.0 == 3 {
    }
  }

  /** The cells born from glider phase 3: each has a live neighbour with one or two neighbours to offer it. */
  lemma Glider3Births(d: Cell)
    requires d == (1, 2) || d == (3, 3)
    ensures d in NextList(Glider3)
  {
    Glider3DeadCounts(d);
    if d == (1, 2) {
      Glider3LiveCounts(Glider3[3]);
      BirthStep(Glider3, Glider3[3], d);
    } else {
      Glider3LiveCounts(Glider3[4]);
      BirthStep(Glider3, Glider3[4], d);
    }
  }

  /** The cells of glider phase 3 that survive advance_state. */
  lemma Glider3Survivors(d: Cell)
    requires d in Glider3
    ensures d in NextList(Glider3) <==> d == (3, 1) || d == (3, 2) || d == (2, 3)
  {
    Glider3LiveCounts(d);
    NextListWithinStandard(Glider3, d);
  }

  /** No other dead cell comes alive. */
  lemma Glider3StaysDead(d: Cell)
    requires d !in Glider3 && !(d == (1, 2) || d == (3, 3))
    ensures d !in NextList(Glider3)
  {
    Glider3DeadCounts(d);
    NoBirthStep(Glider3, d);
  }

  /** advance_state takes glider phase 3 to Glider4, as a set of live cells. */
  lemma Glider3Step(d: Cell)
    ensures d in NextList(Glider3) <==> d in Glider4
  {
    assert d in Glider4 <==> d == (3, 1) || d == (3, 2) || d == (2, 3) || d == (1, 2) || d == (3, 3);
    if d in Glider3 {
      Glider3Survivors(d);
    } else if d == (1, 2) || d == (3, 3) {
      Glider3Births(d);
    } else {
      Glider3StaysDead(d);
    }
  }

  /** amount_neighbours against the horizontal blinker: how many of its cells are adjacent to d. */
  lemma BlinkerHSum(d: Cell)
    ensures NeighbourCount(BlinkerH, d) == AdjacentBit(d, (0, 1)) + AdjacentBit(d, (1, 1)) + AdjacentBit(d, (2, 1))
  {
    NeighbourCountIsAdjacentCount(BlinkerH, d);
    AdjacentCount3((0, 1), (1, 1), (2, 1), d);
  }

  /** Which cells of the horizontal blinker keep two or three live neighbours, and which have one or two. */
  lemma BlinkerHLiveCounts(d: Cell)
    requires d in BlinkerH
    ensures NeighbourCount(BlinkerH, d) == 2 || NeighbourCount(BlinkerH, d) == 3 <==> d == (1, 1)
    ensures NeighbourCount(BlinkerH, d) == 1 || NeighbourCount(BlinkerH, d) == 2 <==> d == (0, 1) || d == (1, 1) || d == (2, 1)
  {
    BlinkerHSum(d);
  }

  /** The dead cells around the horizontal blinker with exactly three live neighbours. */
  lemma BlinkerHDeadCounts(d: Cell)
    requires d !in BlinkerH
    ensures NeighbourCount(BlinkerH, d) == 3 <==> d == (1, 0) || d == (1, 2)
  {
    BlinkerHSum(d);
    if d.0 < -1 || d.0 > 3 {
    } else if d.0 == -1 {
    } else if d.0 == 0 {
    } else if d.0 == 1 {
    } else if d.0 == 2 {
    }
  }

  /** The cells born from the horizontal blinker: each has a live neighbour with one or two neighbours to offer it. */
  lemma BlinkerHBirths(d: Cell)
    requires d == (1, 0) || d == (1, 2)
    ensures d in NextList(BlinkerH)
  {
    BlinkerHDeadCounts(d);
    if d == (1, 0) {
      BlinkerHLiveCounts(BlinkerH[0]);
      BirthStep(BlinkerH, BlinkerH[0], d);
    } else {
      BlinkerHLiveCounts(BlinkerH[0]);
      BirthStep(BlinkerH, BlinkerH[0], d);
    }
  }

  /** The cells of the horizontal blinker that survive advance_state. */
  lemma BlinkerHSurvivors(d: Cell)
    requires d in BlinkerH
    ensures d in NextList(BlinkerH) <==> d == (1, 1)
  {
    BlinkerHLiveCounts(d);
    NextListWithinStandard(BlinkerH, d);
  }

  /** No other dead cell comes alive. */
  lemma BlinkerHStaysDead(d: Cell)
    requires d !in BlinkerH && !(d == (1, 0) || d == (1, 2))
    ensures d !in NextList(BlinkerH)
  {
    BlinkerHDeadCounts(d);
    NoBirthStep(BlinkerH, d);
  }

  /** advance_state takes the horizontal blinker to BlinkerV, as a set of live cells. */
  lemma BlinkerHStep(d: Cell)
    ensures d in NextList(BlinkerH) <==> d in BlinkerV
  {
    assert d in BlinkerV <==> d == (1, 1) || d == (1, 0) || d == (1, 2);
    if d in BlinkerH {
      BlinkerHSurvivors(d);
    } else if d == (1, 0) || d == (1, 2) {
      BlinkerHBirths(d);
    } else {
      BlinkerHStaysDead(d);
    }
  }

  /** amount_neighbours against the vertical blinker: how many of its cells are adjacent to d. */
  lemma BlinkerVSum(d: Cell)
    ensures NeighbourCount(BlinkerV, d) == AdjacentBit(d, (1, 0)) + AdjacentBit(d, (1, 1)) + AdjacentBit(d, (1, 2))
  {
    NeighbourCountIsAdjacentCount(BlinkerV, d);
    AdjacentCount3((1, 0), (1, 1), (1, 2), d);
  }

  /** Which cells of the vertical blinker keep two or three live neighbours, and which have one or two. */
  lemma BlinkerVLiveCounts(d: Cell)
    requires d in BlinkerV
    ensures NeighbourCount(BlinkerV, d) == 2 || NeighbourCount(BlinkerV, d) == 3 <==> d == (1, 1)
    ensures NeighbourCount(BlinkerV, d) == 1 || NeighbourCount(BlinkerV, d) == 2 <==> d == (1, 0) || d == (1, 1) || d == (1, 2)
  {
    BlinkerVSum(d);
  }

  /** The dead cells around the vertical blinker with exactly three live neighbours. */
  lemma BlinkerVDeadCounts(d: Cell)
    requires d !in BlinkerV
    ensures NeighbourCount(BlinkerV, d) == 3 <==> d == (0, 1) || d == (2, 1)
  {
    BlinkerVSum(d);
    if d.0 < 0 || d.0 > 2 {
    } else if d.0 == 0 {
    } else if d.0 == 1 {
    }
  }

  /** The cells born from the vertical blinker: each has a live neighbour with one or two neighbours to offer it. */
  lemma BlinkerVBirths(d: Cell)
    requires d == (0, 1) || d == (2, 1)
    ensures d in NextList(BlinkerV)
  {
    BlinkerVDeadCounts(d);
    if d == (0, 1) {
      BlinkerVLiveCounts(BlinkerV[0]);
      BirthStep(BlinkerV, BlinkerV[0], d);
    } else {
      BlinkerVLiveCounts(BlinkerV[0]);
      BirthStep(BlinkerV, BlinkerV[0], d);
    }
  }

  /** The cells of the vertical blinker that survive advance_state. */
  lemma BlinkerVSurvivors(d: Cell)
    requires d in BlinkerV
    ensures d in NextList(BlinkerV) <==> d == (1, 1)
  {
    BlinkerVLiveCounts(d);
    NextListWithinStandard(BlinkerV, d);
  }

  /** No other dead cell comes alive. */
  lemma BlinkerVStaysDead(d: Cell)
    requires d !in BlinkerV && !(d == (0, 1) || d == (2, 1))
    ensures d !in NextList(BlinkerV)
  {
    BlinkerVDeadCounts(d);
    NoBirthStep(BlinkerV, d);
  }

  /** advance_state takes the vertical blinker to BlinkerH, as a set of live cells. */
  lemma BlinkerVStep(d: Cell)
    ensures d in NextList(BlinkerV) <==> d in BlinkerH
  {
    assert d in BlinkerH <==> d == (1, 1) || d == (0, 1) || d == (2, 1);
    if d in BlinkerV {
      BlinkerVSurvivors(d);
    } else if d == (0, 1) || d == (2, 1) {
      BlinkerVBirths(d);
    } else {
      BlinkerVStaysDead(d);
    }
  }

  /** amount_neighbours against the block: how many of its cells are adjacent to d. */
  lemma BlockSum(d: Cell)
    ensures NeighbourCount(Block, d) == AdjacentBit(d, (0, 0)) + AdjacentBit(d, (1, 0)) + AdjacentBit(d, (0, 1)) + AdjacentBit(d, (1, 1))
  {
    NeighbourCountIsAdjacentCount(Block, d);
    AdjacentCount4((0, 0), (1, 0), (0, 1), (1, 1), d);
  }

  /** Every block cell has three live neighbours and no dead cell has three. */
  lemma BlockCounts(d: Cell)
    ensures d in Block ==> NeighbourCount(Block, d) == 3
    ensures d !in Block ==> NeighbourCount(Block, d) != 3
  {
    BlockSum(d);
  }

  /** The block is a still life under advance_state. */
  lemma BlockIsStill(d: Cell)
    ensures d in NextList(Block) <==> d in Block
  {
    BlockCounts(d);
    if d in Block {
      NextListWithinStandard(Block, d);
    } else {
      NoBirthStep(Block, d);
    }
  }

  /** The blinker alternates between its two orientations, so it returns after two generations. */
  lemma BlinkerPeriodTwo(d: Cell)
    ensures d in NextList(BlinkerH) <==> d in BlinkerV
    ensures d in NextList(NextList(BlinkerH)) <==> d in BlinkerH
  {
    forall e ensures e in NextList(BlinkerH) <==> e in BlinkerV {
      BlinkerHStep(e);
    }
    NextListSameMembers(NextList(BlinkerH), BlinkerV, d);
    BlinkerVStep(d);
  }

  lemma GliderAfterTwo(d: Cell)
    ensures d in NextList(NextList(Glider0)) <==> d in Glider2
  {
    forall e ensures e in NextList(Glider0) <==> e in Glider1 {
      Glider0Step(e);
    }
    NextListSameMembers(NextList(Glider0), Glider1, d);
    Glider1Step(d);
  }

  lemma GliderAfterThree(d: Cell)
    ensures d in NextList(NextList(NextList(Glider0))) <==> d in Glider3
  {
    forall e ensures e in NextList(NextList(Glider0)) <==> e in Glider2 {
      GliderAfterTwo(e);
    }
    NextListSameMembers(NextList(NextList(Glider0)), Glider2, d);
    Glider2Step(d);
  }

  lemma GliderAfterFour(d: Cell)
    ensures d in NextList(NextList(NextList(NextList(Glider0)))) <==> d in Glider4
  {
    forall e ensures e in NextList(NextList(NextList(Glider0))) <==> e in Glider3 {
      GliderAfterThree(e);
    }
    NextListSameMembers(NextList(NextList(NextList(Glider0))), Glider3, d);
    Glider3Step(d);
  }

  /** Glider phase 4 is phase 0 moved by (1, 1). */
  lemma GliderFourIsShifted(d: Cell)
    ensures d in Glider4 <==> d in Shifted(Glider0, 1, 1)
  {
    ShiftedMember(Glider0, 1, 1, d);
  }

  /** Four generations of a moved list are the four generations of the original, moved. */
  lemma FourStepsShifted(b: seq<Cell>, dx: int, dy: int, d: Cell)
    ensures d in NextList(NextList(NextList(NextList(Shifted(b, dx, dy))))) <==>
            d in Shifted(NextList(NextList(NextList(NextList(b)))), dx, dy)
  {
    var a0 := Shifted(b, dx, dy);
    var a1, b1 := NextList(a0), NextList(b);
    forall e ensures e in a1 <==> e in Shifted(b1, dx, dy) {
      NextListCommutesWithShift(a0, b, dx, dy, e);
    }
    var a2, b2 := NextList(a1), NextList(b1);
    forall e ensures e in a2 <==> e in Shifted(b2, dx, dy) {
      NextListCommutesWithShift(a1, b1, dx, dy, e);
    }
    var a3, b3 := NextList(a2), NextList(b2);
    forall e ensures e in a3 <==> e in Shifted(b3, dx, dy) {
      NextListCommutesWithShift(a2, b2, dx, dy, e);
    }
    NextListCommutesWithShift(a3, b3, dx, dy, d);
  }

  /** paste_copy's glider at mouse cell (mx, my) is phase 0 moved by (mx, my). */
  lemma GliderIsShiftedPhase(mx: int, my: int)
    ensures Glider(mx, my) == Shifted(Glider0, mx, my)
  {
  }

  /** If n has the members of b moved by (1, 1), then n moved by (dx, dy) has those of b moved by (dx, dy), then by (1, 1). */
  lemma ShiftedTwiceMember(b: seq<Cell>, n: seq<Cell>, dx: int, dy: int, d: Cell)
    requires forall e :: e in n <==> e in Shifted(b, 1, 1)
    ensures d in Shifted(n, dx, dy) <==> d in Shifted(Shifted(b, dx, dy), 1, 1)
  {
    var e := (d.0 - dx, d.1 - dy);
    var back := (d.0 - 1, d.1 - 1);
    ShiftedMember(n, dx, dy, d);
    ShiftedMember(b, 1, 1, e);
    ShiftedMember(Shifted(b, dx, dy), 1, 1, d);
    ShiftedMember(b, dx, dy, back);
    assert (back.0 - dx, back.1 - dy) == (e.0 - 1, e.1 - 1);
  }

  /**
   * A pattern that reappears moved by (1, 1) after four generations does so
   * wherever it is placed.
   */
  lemma MovesDiagonallyAnywhere(b: seq<Cell>, dx: int, dy: int, d: Cell)
    requires forall e :: e in NextList(NextList(NextList(NextList(b)))) <==> e in Shifted(b, 1, 1)
    ensures d in NextList(NextList(NextList(NextList(Shifted(b, dx, dy))))) <==> d in Shifted(Shifted(b, dx, dy), 1, 1)
  {
    FourStepsShifted(b, dx, dy, d);
    ShiftedTwiceMember(b, NextList(NextList(NextList(NextList(b)))), dx, dy, d);
  }

  /** The glider placed at mouse cell (0, 0) reappears moved by (1, 1) after four generations. */
  lemma GliderPhaseZeroMoves(d: Cell)
    ensures d in NextList(NextList(NextList(NextList(Glider0)))) <==> d in Shifted(Glider0, 1, 1)
  {
    GliderAfterFour(d);
    GliderFourIsShifted(d);
  }

  /**
   * Four generations after paste_copy, wherever the mouse was, the glider is
   * the same shape moved one cell right and one down.
   */
  lemma GliderMovesDiagonally(mx: int, my: int, d: Cell)
    ensures d in NextList(NextList(NextList(NextList(Glider(mx, my))))) <==> d in Shifted(Glider(mx, my), 1, 1)
  {
    forall e ensures e in NextList(NextList(NextList(NextList(Glider0)))) <==> e in Shifted(Glider0, 1, 1) {
      GliderPhaseZeroMoves(e);
    }
    MovesDiagonallyAnywhere(Glider0, mx, my, d);
    GliderIsShiftedPhase(mx, my);
  }
}
