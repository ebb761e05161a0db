/**
 * The module-level state of Conways_game_of_life.py (pos_list, cell_size,
 * color, tempo) as one object, and the functions of that file that read or
 * update it. Each method is proved against the functions of SparseRules
 * and SaveFormat, whose properties are proved there.
 */
module SparseSession {
  import opened Wrappers
  import opened SparseRules
  import opened SaveFormat

  class Session {
    /** pos_list: the live cells, in the order they were added. */
    var cells: seq<Cell>
    /** cell_size: the side of a cell on screen, in pixels. */
    var cellSize: int
    /** color: index into the eight-entry color_list. */
    var color: int
    /** tempo: the speed of continuous advancing. */
    var tempo: int

    constructor ()
      ensures cells == [] && cellSize == 20 && color == 0 && tempo == 5
    {
      cells := [];
      cellSize := 20;
      color := 0;
      tempo := 5;
    }

    // -------------------------------------------------------------------
    // Queries against pos_list
    // -------------------------------------------------------------------

    /** amount_neighbours: how many of the eight cells around (x, y) are live. */
    method AmountNeighbours(x: int, y: int) returns (n: nat)
      ensures n == NeighbourCount(cells, (x, y)) && n <= 8
    {
      var around := AroundCell(x, y);
      n := 0;
      for i := 0 to |around|
        invariant n == CountLive(around[..i], cells)
      {
        CountLivePrefixStep(around, cells, i);
        if around[i] in cells {
          n := n + 1;
        }
      }
      assert around[..|around|] == around;
    }

    /** list_of_dead_neighbours: the dead cells around (x, y), in around_cell's order. */
    method ListOfDeadNeighbours(x: int, y: int) returns (lis: seq<Cell>)
      ensures lis == DeadAmong(AroundCell(x, y), cells)
      ensures forall d :: d in lis <==> Adjacent((x, y), d) && d !in cells
    {
      var around := AroundCell(x, y);
      lis := [];
      for i := 0 to |around|
        invariant lis == DeadAmong(around[..i], cells)
      {
        assert around[..i + 1][..i] == around[..i];
        if around[i] !in cells {
          lis := lis + [around[i]];
        }
      }
      assert around[..|around|] == around;
    }

    /** new_cell_possible: None stands for the "none" string new_cell_possible returns. */
    method NewCellPossible(x: int, y: int) returns (r: Option<seq<Cell>>)
      ensures r == Spawns(cells, (x, y))
    {
      var n := AmountNeighbours(x, y);
      if n == 2 || n == 1 {
        var dead := ListOfDeadNeighbours(x, y);
        var retList := [];
        for i := 0 to |dead|
          invariant retList == ThreeNeighbours(dead[..i], cells)
        {
          assert dead[..i + 1][..i] == dead[..i];
          var k := AmountNeighbours(dead[i].0, dead[i].1);
          if k == 3 {
            retList := retList + [dead[i]];
          }
        }
        assert dead[..|dead|] == dead;
        r := Some(retList);
      } else {
        r := None;
      }
    }

    /** cell_is_alive: a linear search of pos_list for (x, y). */
    method CellIsAlive(x: int, y: int) returns (alive: bool)
      ensures alive <==> (x, y) in cells
    {
      for i := 0 to |cells|
        invariant (x, y) !in cells[..i]
      {
        if cells[i] == (x, y) {
          return true;
        }
      }
      assert cells[..|cells|] == cells;
      return false;
    }

    // -------------------------------------------------------------------
    // Updates of pos_list
    // -------------------------------------------------------------------

    /** create_new_cell: toggle (x, y); see ToggleFlips and ToggleTwice. */
    method CreateNewCell(x: int, y: int)
      modifies this`cells
      ensures cells == Toggle(old(cells), (x, y))
    {
      var alive := CellIsAlive(x, y);
      if !alive {
        cells := cells + [(x, y)];
      } else {
        cells := RemoveFirst(cells, (x, y));
      }
    }

    /**
     * The first phase of advance_state (:166-180): against the unchanged
     * list, dead_cells collects the live cells that die and new_cells the
     * cells new_cell_possible offers, without repeats.
     */
    method DyingAndNewCells() returns (deadCells: seq<Cell>, newCells: seq<Cell>)
      ensures forall d {:trigger d in deadCells} :: d in deadCells <==> d in cells && Dies(cells, d)
      ensures newCells == NewCellsUpTo(cells, |cells|)
    {
      deadCells, newCells := [], [];
      for i := 0 to |cells|
        invariant forall d {:trigger d in deadCells} :: d in deadCells <==> d in cells[..i] && Dies(cells, d)
        invariant newCells == NewCellsUpTo(cells, i)
      {
        var pos := cells[i];
        assert cells[..i + 1] == cells[..i] + [pos];
        var neighbouringCells := AmountNeighbours(pos.0, pos.1);
        if neighbouringCells <= 1 || neighbouringCells >= 4 {
          deadCells := deadCells + [pos];
        }
        var possible := NewCellPossible(pos.0, pos.1);
        assert possible == Spawns(cells, cells[i]);
        if possible.Some? {
          newCells := AddNewCells(newCells, possible.value);
        }
        assert newCells == NewCellsUpTo(cells, i + 1);
      }
      assert cells[..|cells|] == cells;
    }

    /** The inner loop of advance_state (:178-180): append each candidate not yet in new_cells. */
    static method AddNewCells(newCells: seq<Cell>, candidates: seq<Cell>) returns (r: seq<Cell>)
      ensures r == AddAbsent(newCells, candidates)
    {
      r := newCells;
      for j := 0 to |candidates|
        invariant r == AddAbsent(newCells, candidates[..j])
      {
        assert candidates[..j + 1][..j] == candidates[..j];
        if candidates[j] !in r {
          r := r + [candidates[j]];
        }
      }
      assert candidates[..|candidates|] == candidates;
    }

    /**
     * advance_state: collect the changes against the unchanged list, then
     * remove the dying cells and append the new ones. See NextListMembers,
     * NextListNoDup and NextListSameMembers.
     */
    method AdvanceState()
      modifies this`cells
      ensures cells == NextList(old(cells))
    {
      var deadCells, newCells := DyingAndNewCells();
      RemoveDying(deadCells);
      AppendNew(newCells);
    }

    /** The removal phase of advance_state (:182-187): over a copy of pos_list, remove each cell listed in dead_cells. */
    method RemoveDying(deadCells: seq<Cell>)
      requires forall d {:trigger d in deadCells} :: d in deadCells <==> d in cells && Dies(cells, d)
      modifies this`cells
      ensures cells == Survivors(old(cells), old(cells))
    {
      var iterateList := cells;
      for k := 0 to |iterateList|
        invariant cells == Survivors(iterateList[..k], iterateList) + iterateList[k..]
      {
        var cell2 := iterateList[k];
        RemovalStep(iterateList, iterateList, k);
        if cell2 in deadCells {
          cells := RemoveFirst(cells, cell2);
        }
      }
      assert iterateList[..|iterateList|] == iterateList;
    }

    /** The append phase of advance_state (:189-190). */
    method AppendNew(newCells: seq<Cell>)
      modifies this`cells
      ensures cells == old(cells) + newCells
    {
      for m := 0 to |newCells|
        invariant cells == old(cells) + newCells[..m]
      {
        assert newCells[..m + 1] == newCells[..m] + [newCells[m]];
        cells := cells + [newCells[m]];
      }
      assert newCells[..|newCells|] == newCells;
    }

    /** move_camera: shift every cell; each step appends the shifted cell and removes the original. */
    method MoveCamera(changeX: int, changeY: int)
      modifies this`cells
      ensures cells == Shifted(old(cells), changeX, changeY)
    {
      var iterateList := cells;
      for i := 0 to |iterateList|
        invariant cells == iterateList[i..] + Shifted(iterateList[..i], changeX, changeY)
      {
        var cell := iterateList[i];
        var moved := (cell.0 + changeX, cell.1 + changeY);
        assert Shifted(iterateList[..i + 1], changeX, changeY) ==
          Shifted(iterateList[..i], changeX, changeY) + [moved];
        cells := cells + [moved];
        assert cells == [cell] + (iterateList[i + 1..] + Shifted(iterateList[..i + 1], changeX, changeY));
        cells := RemoveFirst(cells, cell);
      }
      assert iterateList[..|iterateList|] == iterateList;
    }

    /**
     * paste_copy: copy_list holds only the glider, so Python's indexing
     * accepts slots 0 and -1 and raises IndexError (ok == false, nothing
     * appended, and the game ends uncaught) for every other slot.
     */
    method PasteCopy(numberOfCopy: int, mouseCellX: int, mouseCellY: int) returns (ok: bool)
      modifies this`cells
      ensures ok <==> numberOfCopy == 0 || numberOfCopy == -1
      ensures cells == if ok then old(cells) + Glider(mouseCellX, mouseCellY) else old(cells)
    {
      ok := -1 <= numberOfCopy < 1;
      if ok {
        var copy := Glider(mouseCellX, mouseCellY);
        for i := 0 to |copy|
          invariant cells == old(cells) + copy[..i]
        {
          assert copy[..i + 1] == copy[..i] + [copy[i]];
          cells := cells + [copy[i]];
        }
        assert copy[..|copy|] == copy;
      }
    }

    /**
     * check_for_copy_inputs, as written: a digit key 0-9 (pygame's key codes
     * for them are the characters '0'-'9') pastes slot 0-9 at the mouse cell.
     * Only slot 0 exists, so keys 1-9 raise IndexError, which nothing
     * catches: ok == false means the game ends there without saving.
     */
    method CheckForCopyInputs(pressedKey: char, mouseX: nat, mouseY: nat) returns (ok: bool)
      requires cellSize > 0
      modifies this`cells
      ensures ok <==> pressedKey !in "123456789"
      ensures cells == if pressedKey == '0' then old(cells) + Glider(mouseX / cellSize, mouseY / cellSize) else old(cells)
    {
      ok := true;
      if pressedKey in "0123456789" {
        var copyIndex := pressedKey as int - '0' as int;
        ok := PasteCopy(copyIndex, mouseX / cellSize, mouseY / cellSize);
      }
    }

    /**
     * check_for_copy_inputs as evidently intended: a digit key whose copy
     * slot does not exist is ignored, so every key returns normally and only
     * key 0 pastes the glider.
     */
    method CheckForCopyInputsKnownSlot(pressedKey: char, mouseX: nat, mouseY: nat)
      requires cellSize > 0
      modifies this`cells
      ensures cells == if pressedKey == '0' then old(cells) + Glider(mouseX / cellSize, mouseY / cellSize) else old(cells)
    {
      if pressedKey in "0123456789" {
        var copyIndex := pressedKey as int - '0' as int;
        if 0 <= copyIndex < 1 {
          var _ := PasteCopy(copyIndex, mouseX / cellSize, mouseY / cellSize);
        }
      }
    }

    // -------------------------------------------------------------------
    // Save and load (the text of saved_cells.txt; opening the file is left out)
    // -------------------------------------------------------------------

    /** save_cells_onto_file: one line str(cell) + "\n" per live cell. */
    method SaveCellsOntoFile() returns (lines: seq<string>)
      ensures lines == SaveLines(cells)
    {
      lines := [];
      for i := 0 to |cells|
        invariant |lines| == i
        invariant forall k :: 0 <= k < i ==> lines[k] == Show(cells[k]) + "\n"
      {
        lines := lines + [Show(cells[i]) + "\n"];
      }
    }

    /**
     * load_cells: append the cell of every line; at the first line whose
     * int() raises, the load stops (ok == false) with the earlier lines'
     * cells already appended.
     */
    method LoadCells(lines: seq<string>) returns (ok: bool)
      modifies this`cells
      ensures ok <==> AllDecode(lines)
      ensures ok ==> cells == old(cells) + DecodeAll(lines)
      ensures !ok ==> (exists k :: 0 <= k < |lines| && Decode(lines[k]).None? &&
                                   AllDecode(lines[..k]) && cells == old(cells) + DecodeAll(lines[..k]))
    {
      for i := 0 to |lines|
        invariant AllDecode(lines[..i]) && cells == old(cells) + DecodeAll(lines[..i])
      {
        var r := ParseLine(lines[i]);
        if r.None? {
          return false;
        }
        DecodeAllSnoc(lines, i);
        cells := cells + [r.value];
      }
      assert lines[..|lines|] == lines;
      return true;
    }

    /**
     * load_cells with the sign-keeping reader DecodeSigned in place of the
     * digit scan; everything else as in LoadCells.
     */
    method LoadCellsSigned(lines: seq<string>) returns (ok: bool)
      modifies this`cells
      ensures ok <==> AllDecodeSigned(lines)
      ensures ok ==> cells == old(cells) + DecodeAllSigned(lines)
      ensures !ok ==> (exists k :: 0 <= k < |lines| && DecodeSigned(lines[k]).None? &&
                                   AllDecodeSigned(lines[..k]) && cells == old(cells) + DecodeAllSigned(lines[..k]))
    {
      for i := 0 to |lines|
        invariant AllDecodeSigned(lines[..i]) && cells == old(cells) + DecodeAllSigned(lines[..i])
      {
        var r := DecodeSigned(lines[i]);
        if r.None? {
          return false;
        }
        DecodeAllSignedSnoc(lines, i);
        cells := cells + [r.value];
      }
      assert lines[..|lines|] == lines;
      return true;
    }

    // -------------------------------------------------------------------
    // Counters
    // -------------------------------------------------------------------

    /** change_tempo: add change, pulling 11 back to 10 and 0 up to 1; steps of +-1 keep tempo in [1, 10]. */
    method ChangeTempo(change: int)
      modifies this`tempo
      ensures var t := old(tempo) + change; tempo == if t == 11 then 10 else if t == 0 then 1 else t
      ensures (change == 1 || change == -1) && 1 <= old(tempo) <= 10 ==> 1 <= tempo <= 10
    {
      tempo := tempo + change;
      if tempo == 11 {
        tempo := 10;
      } else if tempo == 0 {
        tempo := 1;
      }
    }

    /** change_cell_size: "plus" grows below 100, "minus" shrinks above 2; cell_size stays in [2, 100]. */
    method ChangeCellSize(operator: string)
      modifies this`cellSize
      ensures operator == "plus" ==> cellSize == if old(cellSize) < 100 then old(cellSize) + 1 else old(cellSize)
      ensures operator == "minus" ==> cellSize == if old(cellSize) > 2 then old(cellSize) - 1 else old(cellSize)
      ensures operator != "plus" && operator != "minus" ==> cellSize == old(cellSize)
      ensures 2 <= old(cellSize) <= 100 ==> 2 <= cellSize <= 100
    {
      if operator == "plus" {
        if cellSize < 100 {
          cellSize := cellSize + 1;
        }
      } else if operator == "minus" {
        if cellSize > 2 {
          cellSize := cellSize - 1;
        }
      }
    }

    /** change_color: step through the eight colors, wrapping from 7 to 0. */
    method ChangeColor()
      modifies this`color
      ensures 0 <= old(color) < 8 ==> color == (old(color) + 1) % 8
      ensures old(color) != 7 ==> color == old(color) + 1
    {
      if color != 7 {
        color := color + 1;
      } else {
        color := 0;
      }
    }
  }
}
