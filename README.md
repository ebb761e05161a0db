# Conway's Game of Life — two engines, modelled in Dafny

The repository holds two independent Game of Life programs. This project models the core of each and proves what it computes.

- **The sparse engine** (`Conways_game_of_life.py`) keeps the live cells in a list `pos_list` of integer pairs on an unbounded plane.
  - `advance_state` first collects, against the unchanged list, the cells that die and the cells that are born. It then removes the dying cells and appends the newborn ones.
  - Other functions toggle a cell, shift every cell (`move_camera`) and paste a glider.
  - The save file holds one `str((x, y))` per line. The loader scans each line's digits.
  - Three clamped counters hold the tempo, the cell size and the colour.
- **The dense engine** (`life.py`) keeps a `fieldSize × fieldSize` grid of 0/1 values, indexed `field[y][x]`.
  - `advanceGeneration` deep-copies the grid and counts each interior cell's neighbours in the copy with `listNeighbors`. It writes the B3/S23 verdict into the live grid and never touches the outer ring.
  - `modifyCell` writes one cell. `zoom` changes the integer cell size within bounds.

Modules:

- `Wrappers` (option.dfy): the `Option` type, used where a function of either program returns a sentinel or raises.
- `SparseRules` (sparse_rules.dfy): pure definitions of the sparse engine's neighbourhood, filters and generation step. Also holds the list edits it performs and the standard B3/S23 rule on the same cells.
- `SaveFormat` (save_format.dfy): the text `str((x, y))` writes, the digit-scanning parser of `load_cells`, and a sign-keeping reader.
- `SparseSession` (sparse_session.dfy): class `Session`, holding the module globals `pos_list`, `cell_size`, `color` and `tempo`. Its methods follow the source's loops and are proved against the functions above.
- `DenseLife` (dense_life.dfy): the rule as functions on a grid value, `ListNeighbors` as a method over an `array2<int>`, and class `Life`, holding `field`, `fieldSize`, `steps` and `cellSize`. Its methods write the array in place.
- `Agreement` (agreement.dfy): on a 0/1 grid that describes a set of cells, the dense step agrees with standard B3/S23 at every interior cell.
- `LifePatterns` (patterns.dfy): the block, the blinker and the pasted glider under `advance_state`: still life, period 2, and a move of (1, 1) every four generations wherever the glider is pasted, since `advance_state` commutes with `move_camera`.

How the source is read:

- A cell's coordinates are Dafny `int`s. Python integers are unbounded too, so no wrap-around arises.
- Python list operations are modelled exactly:
  - `list.remove` deletes the first occurrence.
  - `in` tests membership.
  - List indexing accepts `-n … n-1` and raises `IndexError` otherwise.
  - `int("")` raises `ValueError`.
- A raised exception is an `Option`/`bool` result that leaves the state as it was when the exception was raised. Neither program catches any of these exceptions, so each one ends the program on the spot, without saving:
  - PasteCopy and CheckForCopyInputs return false for the digit keys 1-9 (`Conways_game_of_life.py:78-97`); see Findings.
  - LoadCells returns false for an unreadable saved file, which happens at startup (`Conways_game_of_life.py:337`).
  - ModifyCell returns false for a click right of or below the grid (`life.py:139-144`).
- `Conways_game_of_life.py:139` puts `for …: if …: return True` on one line. Python does not accept that line. It is modelled as the linear search it evidently means.
- `advance_state` calls `new_cell_possible` twice (:175 and :178) on the same unchanged list. The two calls return the same value, so it is modelled as one call.

## Model

| member | source | states |
|---|---|---|
| SparseRules.AroundCell | Conways_game_of_life.py:99-102 | exactly eight cells, all distinct, none equal to (x, y), and d is among them iff d is a Moore neighbour of (x, y) |
| SparseRules.CountLiveIsSetSize | Conways_game_of_life.py:107-111 | counting the members of a duplicate-free list that occur in pos_list gives the size of the set of such members |
| SparseRules.NeighbourCountIsLiveNeighbours | Conways_game_of_life.py:104-111 | amount_neighbours equals the number of distinct live cells adjacent to (x, y), so a duplicated live cell is counted once; hence the count is in [0, 8] |
| SparseRules.NeighbourCountExpanded | Conways_game_of_life.py:104-111 | NeighbourCount (amount_neighbours, with Live as the `in` test) is the sum of one membership test per neighbour, in around_cell's order |
| SparseRules.CountLiveSameMembers | Conways_game_of_life.py:109 | the count depends only on which cells are live, not on their order or multiplicity in pos_list |
| SparseSession.Session.AmountNeighbours | Conways_game_of_life.py:104-111 | the counting loop returns the neighbour count of (x, y) in the current list, at most 8 |
| SparseRules.DeadAmong | Conways_game_of_life.py:113-119 | keeps exactly the listed cells that are not live, and keeps a duplicate-free list duplicate-free |
| SparseSession.Session.ListOfDeadNeighbours | Conways_game_of_life.py:113-119 | returns the dead cells around (x, y) in around_cell's order: d is in the result iff d is adjacent to (x, y) and not live |
| SparseRules.ThreeNeighbours | Conways_game_of_life.py:128-131 | keeps exactly the listed cells that have exactly three live neighbours |
| SparseRules.Spawns | Conways_game_of_life.py:121-134 | the result is a list iff (x, y) has 1 or 2 live neighbours ("none" otherwise), and the list holds exactly the dead neighbours of (x, y) with exactly three live neighbours |
| SparseSession.Session.NewCellPossible | Conways_game_of_life.py:121-134 | the method computes Spawns for (x, y) against the current list |
| SparseSession.Session.CellIsAlive | Conways_game_of_life.py:136-140 | true iff (x, y) is in pos_list |
| SparseRules.RemoveFirst | Conways_game_of_life.py:160 | list.remove of a present element shortens the list by one |
| SparseRules.RemoveFirstMultiset | Conways_game_of_life.py:160 | list.remove takes exactly one occurrence away |
| SparseRules.RemoveFirstAfter | Conways_game_of_life.py:187 | removing x from a + [x] + b, where x does not occur in a, gives a + b |
| SparseRules.ToggleFlips | Conways_game_of_life.py:152-160 | Toggle is create_new_cell's edit (append when dead, else RemoveFirst). On any list it leaves every other cell's status unchanged; when (x, y) is listed at most once it flips whether (x, y) is live; a duplicate-free list stays duplicate-free |
| SparseRules.ToggleTwice | Conways_game_of_life.py:152-160 | on any list, toggling a dead cell twice restores the list itself; when the cell is listed at most once, toggling it twice restores the set of live cells |
| SparseRules.ToggleDuplicateStaysLive | Conways_game_of_life.py:156-160 | when (x, y) occurs twice, a toggle removes one copy and the cell stays live |
| SparseSession.Session.CreateNewCell | Conways_game_of_life.py:152-160 | appends (x, y) when it is dead, otherwise removes its first occurrence |
| SparseRules.Survivors | Conways_game_of_life.py:168-173 | keeps exactly the listed cells whose neighbour count is 2 or 3, and is no longer than the input |
| SparseRules.SurvivorsNoDup | Conways_game_of_life.py:182-187 | removing the dying cells from a duplicate-free list leaves it duplicate-free |
| SparseRules.AddAbsent | Conways_game_of_life.py:178-180 | appending only the candidates not already present gives exactly the union of both lists, and never creates a duplicate |
| SparseRules.NewCellsUpTo | Conways_game_of_life.py:174-180 | new_cells never holds a duplicate |
| SparseRules.NewCellsUpToMembers | Conways_game_of_life.py:174-180 | after k live cells have been scanned, d is in new_cells iff one of those cells offered d through new_cell_possible |
| SparseRules.NewCellsAreBorn | Conways_game_of_life.py:121-134 | d is among the new cells iff d is dead, has exactly three live neighbours, and is adjacent to a live cell with 1 or 2 live neighbours |
| SparseRules.NextListMembers | Conways_game_of_life.py:162-190 | NextList is the list advance_state leaves (Survivors then NewCellsUpTo). d is in it iff d was live with 2 or 3 neighbours, or was dead and born under the rule above |
| SparseRules.NextListNoDup | Conways_game_of_life.py:166-190 | a duplicate-free pos_list stays duplicate-free through advance_state |
| SparseRules.NextListSameMembers | Conways_game_of_life.py:166-190 | the set of cells live after the step depends only on the set of cells live before it |
| SparseSession.Session.DyingAndNewCells | Conways_game_of_life.py:166-180 | against the unchanged list, dead_cells holds exactly the live cells with count <= 1 or >= 4, and new_cells is the deduplicated list of offered births in discovery order |
| SparseRules.RemovalStep | Conways_game_of_life.py:184-187 | one pass of the removal loop: the current cell is still in the list, removing it when it dies (and keeping it otherwise) filters one more cell |
| SparseSession.Session.RemoveDying | Conways_game_of_life.py:182-187 | removing each listed dying cell while iterating over a copy leaves exactly the survivors, in their original order |
| SparseSession.Session.AppendNew | Conways_game_of_life.py:189-190 | new_cells are appended in order after the survivors |
| SparseSession.Session.AdvanceState | Conways_game_of_life.py:162-190 | the new pos_list is the survivors in order followed by the new cells; NextListMembers, NextListNoDup and NextListSameMembers hold of it |
| SparseSession.Session.AddNewCells | Conways_game_of_life.py:178-180 | appending each offered cell that new_cells lacks yields AddAbsent: exactly the old new_cells plus the offered cells, duplicate-free when new_cells was |
| SparseRules.StandardNext | Conways_game_of_life.py:162-190 | corrected step: d is live next iff it is live with 2 or 3 live neighbours, or dead with exactly 3 |
| SparseRules.NextListWithinStandard | Conways_game_of_life.py:162-190 | survival in advance_state is exactly standard S23; every birth is a standard B3 birth, and a dead cell is born iff it is a B3 birth that a live neighbour with 1 or 2 neighbours offers |
| SparseRules.NarrowBirth | Conways_game_of_life.py:126-131 | for the live cells (0,0), (2,0), (1,2), the cell (1,1) is born under B3 but advance_state does not create it |
| SparseRules.Shifted | Conways_game_of_life.py:215-226 | shifting keeps the length of the list |
| SparseRules.ShiftedMember | Conways_game_of_life.py:215-226 | d is live after move_camera(dx, dy) iff (d.0 - dx, d.1 - dy) was live before |
| SparseRules.ShiftedNoDupAndBack | Conways_game_of_life.py:215-226 | shifting keeps a list duplicate-free, and shifting back by (-dx, -dy) restores the original list |
| SparseSession.Session.MoveCamera | Conways_game_of_life.py:215-226 | after the append-then-remove loop, pos_list is every old cell shifted by (dx, dy), in the old order |
| SparseRules.Glider | Conways_game_of_life.py:68-69 | copy slot 0 holds five distinct cells |
| SparseRules.PasteOverLiveDuplicates | Conways_game_of_life.py:73-74 | pasting the glider over a cell that is already live creates a duplicate in pos_list |
| SparseSession.Session.PasteCopy | Conways_game_of_life.py:65-74 | slots 0 and -1 append the glider at the mouse cell; any other slot raises IndexError and leaves pos_list unchanged |
| SparseSession.Session.CheckForCopyInputs | Conways_game_of_life.py:76-97 | as written: key 0 appends the glider at the mouse cell (pixel position floor-divided by cell_size); keys 1-9 raise IndexError with pos_list unchanged; other keys do nothing |
| SparseSession.Session.CheckForCopyInputsKnownSlot | Conways_game_of_life.py:76-97 | corrected: key 0 appends the glider at the mouse cell and every other key, digit or not, returns normally with pos_list unchanged |
| SaveFormat.NatToString | Conways_game_of_life.py:41 | the decimal text of a natural number is non-empty and all digits |
| SaveFormat.IntToStringFacts | Conways_game_of_life.py:41 | the text of an integer has no comma, its digits spell the absolute value, and it holds '-' iff the integer is negative |
| SaveFormat.SaveLines | Conways_game_of_life.py:35-43 | one saved line per live cell |
| SaveFormat.KeepDigits | Conways_game_of_life.py:57-60 | the scan keeps only digit characters and never lengthens the text |
| SaveFormat.KeepDigitsConcat | Conways_game_of_life.py:57-60 | scanning two pieces one after the other gives the concatenation of the digits of each piece |
| SaveFormat.CommaSplit | Conways_game_of_life.py:57-61 | the text before the first comma feeds x and everything after it feeds y; with no comma everything feeds x |
| SaveFormat.CommaSplitAt | Conways_game_of_life.py:61 | later commas only switch to y again, so they belong to the y part |
| SaveFormat.DigitsValueOfNatToString | Conways_game_of_life.py:63 | int() of the decimal text of n is n |
| SaveFormat.ScanIsSplit | Conways_game_of_life.py:57-61 | after the character loop, first_num holds the digits before the first comma, second_num the digits after it, and change_num says whether a comma was seen |
| SaveFormat.ParseLine | Conways_game_of_life.py:52-63 | the character loop yields the cell (int(first_num), int(second_num)), or None where either int() raises on an empty string |
| SaveFormat.DecodeShow | Conways_game_of_life.py:41-63 | Decode (the loader's reading of one line) applied to Show (the text str((x, y)) writes) gives (abs x, abs y) |
| SaveFormat.NegativeLoadsMirrored | Conways_game_of_life.py:41-63 | the saved cell (-3, 4) loads as (3, 4) |
| SaveFormat.DecodeAll | Conways_game_of_life.py:51-63 | loading a file whose every line parses appends one cell per line, in order |
| SaveFormat.SaveLoadRoundTrip | Conways_game_of_life.py:35-63 | every saved file loads completely, giving back each cell with its minus signs dropped |
| SaveFormat.SaveLoadNonNegative | Conways_game_of_life.py:35-63 | cells with non-negative coordinates survive save then load unchanged |
| SaveFormat.SignedFieldOf | Conways_game_of_life.py:57-63 | corrected reader: a field whose digits spell abs v and which holds '-' iff v < 0 reads as v |
| SaveFormat.DecodeSignedShow | Conways_game_of_life.py:41-63 | corrected reader: DecodeSigned applied to Show(c) gives back exactly c |
| SaveFormat.DecodeAllSigned | Conways_game_of_life.py:51-63 | corrected reader: one cell per line, in order |
| SaveFormat.SaveLoadSignedRoundTrip | Conways_game_of_life.py:35-63 | corrected reader: save then load gives back exactly pos_list |
| SparseSession.Session.SaveCellsOntoFile | Conways_game_of_life.py:35-43 | the lines written are str(cell) + "\n" for each live cell, in order |
| SparseSession.Session.LoadCells | Conways_game_of_life.py:45-63 | appends the cell of every line when all lines parse; otherwise stops at the first line whose int() raises, with the earlier lines' cells appended |
| SparseSession.Session.LoadCellsSigned | Conways_game_of_life.py:45-63 | load_cells with the corrected reader, with the same stopping behaviour |
| SparseSession.Session.ChangeTempo | Conways_game_of_life.py:321-328 | tempo moves by change, 11 is pulled back to 10 and 0 up to 1; steps of ±1 keep tempo in [1, 10] |
| SparseSession.Session.ChangeCellSize | Conways_game_of_life.py:204-213 | "plus" grows below 100, "minus" shrinks above 2, any other operator does nothing; cell_size stays in [2, 100] |
| SparseSession.Session.ChangeColor | Conways_game_of_life.py:262-268 | color steps through the eight colours and wraps from 7 to 0 |
| SparseSession.Session.constructor | Conways_game_of_life.py:11-23 | pos_list empty, cell_size 20, color 0, tempo 5 |
| DenseLife.LiveAround | life.py:88-94 | the number of live Moore neighbours is at most 8 |
| DenseLife.NeighborSumCountsNeighbours | life.py:88-94 | the 3×3 truthy count minus the centre's value is the live-neighbour count plus (truthiness − value) of the centre; for a 0/1 centre it is exactly the live-neighbour count, in [0, 8] |
| DenseLife.ListNeighbors | life.py:88-94 | the nested offset loops keep the running total equal to WindowRun (the 3×3 truthy count, row by row) and return the 3×3 count minus tempfield[y][x]; for a 0/1 centre this is the number of live neighbours; every index is in range for an interior cell |
| DenseLife.Next | life.py:105-122 | the grid keeps its dimensions, every border cell keeps its value, and a 0/1 grid stays 0/1 |
| DenseLife.NextRule | life.py:111-121 | NextValue (one cell of Next, the value the loop body writes) on a 0/1 grid: an interior live cell becomes 0 iff it has <= 1 or >= 4 live neighbours (else stays 1), and an interior dead cell becomes 1 iff it has exactly 3 |
| DenseLife.CopyGrid | life.py:107 | the deep copy is a fresh array with the same cells |
| DenseLife.Life.AdvanceRow | life.py:108-121 | one row of the loop: each cell of row y gets its next value computed from the snapshot; other rows are untouched |
| DenseLife.Life.AdvanceGeneration | life.py:105-122 | the new field is Next of the old field, read only from the deep copy, so the loop order does not matter; steps grows by exactly 1; the dimensions are unchanged |
| DenseLife.SetCell | life.py:37 | the written cell holds the new value and every other cell is unchanged |
| DenseLife.SetCellIdempotent | life.py:35-37 | repeating a write with the same arguments changes nothing more |
| DenseLife.PyIndex | life.py:37 | a Python index is accepted iff -n <= i < n, and selects slot i, or slot i + n for a negative i |
| DenseLife.Life.ModifyCell | life.py:35-37 | writes state at row pos[1], column pos[0] under Python indexing and changes no other cell; an out-of-range index raises and writes nothing |
| DenseLife.NegativeClickWraps | life.py:25-37 | a write at x = -1 lands in the last column |
| DenseLife.Life.ModifyCellInBounds | life.py:35-37 | corrected write: only positions inside the grid are written, and nothing changes otherwise |
| DenseLife.Life.Zoom | life.py:55-61 | cellSize moves by exactly 2·scrollDelta when the result stays strictly between 0 and 200, and is unchanged otherwise |
| DenseLife.Life.constructor | life.py:7-16 | a 100 × 100 field of dead cells, cellSize 40, steps 0 |
| Agreement.LiveAroundIsNeighbourCount | life.py:88-94 | on a grid describing a set of cells, the dense neighbour count of an interior cell equals the sparse engine's amount_neighbours for the same position |
| Agreement.DenseStepIsStandard | life.py:105-122 | an interior cell is live after advanceGeneration iff it is live under standard B3/S23 on the same set of cells |
| SparseRules.AdjacentCountIsSetSize | Conways_game_of_life.py:104-111 | on a duplicate-free list, counting the listed cells adjacent to c gives the size of the set of live neighbours of c |
| SparseRules.NeighbourCountIsAdjacentCount | Conways_game_of_life.py:104-111 | on a duplicate-free pos_list, amount_neighbours is the number of listed cells adjacent to (x, y) |
| LifePatterns.BirthStep | Conways_game_of_life.py:162-190 | a dead cell offered by a live cell with 1 or 2 neighbours is live after advance_state |
| LifePatterns.NoBirthStep | Conways_game_of_life.py:162-190 | a dead cell without exactly three live neighbours stays dead after advance_state |
| LifePatterns.BlockIsStill | Conways_game_of_life.py:162-190 | the 2x2 block is live after advance_state exactly where it was before |
| LifePatterns.BlinkerHStep | Conways_game_of_life.py:162-190 | the horizontal blinker becomes the vertical one |
| LifePatterns.BlinkerVStep | Conways_game_of_life.py:162-190 | the vertical blinker becomes the horizontal one |
| LifePatterns.BlinkerPeriodTwo | Conways_game_of_life.py:162-190 | the blinker returns to its own cells after two generations |
| LifePatterns.Glider0Step | Conways_game_of_life.py:162-190 | glider phase 0 becomes phase 1 under advance_state |
| LifePatterns.Glider1Step | Conways_game_of_life.py:162-190 | glider phase 1 becomes phase 2 under advance_state |
| LifePatterns.Glider2Step | Conways_game_of_life.py:162-190 | glider phase 2 becomes phase 3 under advance_state |
| LifePatterns.Glider3Step | Conways_game_of_life.py:162-190 | glider phase 3 becomes phase 4 under advance_state |
| SparseRules.NeighbourCountShifted | Conways_game_of_life.py:104-111 | amount_neighbours commutes with move_camera: d moved by (dx, dy) has as many live neighbours in the moved list as d has in the original |
| SparseRules.FeedsShifted | Conways_game_of_life.py:121-134 | a live cell offers a dead cell through new_cell_possible iff the two cells moved by (dx, dy) do so in the moved list |
| SparseRules.NextListShifted | Conways_game_of_life.py:162-190 | advance_state commutes with move_camera: d + (dx, dy) is live after a step of the moved list iff d is live after a step of the original |
| SparseRules.NextListCommutesWithShift | Conways_game_of_life.py:162-190 | a list with the cells of b moved by (dx, dy) steps to the cells of NextList(b) moved by (dx, dy) |
| LifePatterns.FourStepsShifted | Conways_game_of_life.py:215-226 | four generations of a moved list are four generations of the original, moved |
| LifePatterns.MovesDiagonallyAnywhere | Conways_game_of_life.py:162-190 | a pattern that reappears moved by (1, 1) after four generations does so wherever it is placed |
| LifePatterns.GliderIsShiftedPhase | Conways_game_of_life.py:65-74 | the glider pasted at mouse cell (mx, my) is the one pasted at (0, 0) moved by (mx, my) |
| LifePatterns.GliderMovesDiagonally | Conways_game_of_life.py:65-74 | for every mouse cell (mx, my), the glider paste_copy places there is, four advance_state steps later, the same cells moved by (1, 1) |

## Left out

- Rendering, fonts, the display, the clock, frame counting and the event loops are left out of both files. These are pygame calls whose code is not part of this model.
  - In `Conways_game_of_life.py`: display_all_cells, make_squares, display_tempo, display_running, execute_standard_functions, exit_game and the main loop.
  - In `life.py`: drawGrid, drawField, display_steps, main.
- Key and mouse dispatch other than check_for_copy_inputs (updating_bool_for_camera, moving_camera_continuously, inputs_for_zooming) is left out. It maps pygame key constants and mouse positions to calls of the modelled operations. CheckForCopyInputs takes the pressed key as the character pygame's key code stands for, and the mouse position in pixels.
- Opening and writing `saved_cells.txt` is left out. SaveCellsOntoFile returns the lines it would write, and LoadCells takes the lines it would read.
- configHandling in `life.py` is left out: JSON persistence of the settings and the field. On its first-run path it encodes the configuration twice (:82 passes a JSON string and :86 encodes it again).
- Floating-point camera arithmetic is left out:
  - `life.py`: the cameraPos initialiser, pixelPos2relPos, pixelPos2relPosEx, relPos2pixelPos, zoom's camera update and panning.
  - `Conways_game_of_life.py`: `round(cell_size * 0.1)`.
  - Zoom models only the integer cellSize guard and update.
- sleep and clock.tick timing is left out.
- DenseLife.ListNeighbors: requires 1 <= x, y and x + 1, y + 1 inside the grid. advanceGeneration only calls it that way. The model does not cover a direct call at x = 0 or y = 0, where Python's negative indexing would read the opposite edge.
- DenseLife.Life.AdvanceGeneration: requires the field to be fieldSize × fieldSize. A field of another shape could come only from a configuration file, which is not modelled.
- DenseLife.Life.ModifyCell: requires state to be 0 or 1, as the `Literal[1, 0]` annotation declares.

## Findings

| source | as written | input that shows it | evidently intended | confidence | as-written member | corrected member |
|---|---|---|---|---|---|---|
| Conways_game_of_life.py:126, 175-180 | a dead cell is born only when a live neighbour with 1 or 2 neighbours offers it | live cells (0,0), (2,0), (1,2): (1,1) has three live neighbours, but each live cell has 0 neighbours, so (1,1) is never born | Conway's B3 birth of every dead cell with exactly three live neighbours, as life.py does | not executed; high that it departs from B3/S23 | SparseRules.NarrowBirth | SparseRules.StandardNext |
| Conways_game_of_life.py:41, 57-63 | the loader keeps only digits, so a minus sign written by str() is dropped | the saved line "(-3, 4)" loads as (3, 4) | save then load restores pos_list, including cells moved to negative coordinates by move_camera | not executed; high | SaveFormat.NegativeLoadsMirrored | SaveFormat.SaveLoadSignedRoundTrip |
| Conways_game_of_life.py:76-97 | keys 1-9 index copy_list, which has one slot, so paste_copy raises IndexError; nothing catches it and the game ends without saving | pressing key 1 | a digit key without a copy slot does nothing | not executed; high | SparseSession.Session.CheckForCopyInputs | SparseSession.Session.CheckForCopyInputsKnownSlot |
| life.py:25-37 | a click left of or above the grid gives a negative index, which Python wraps to the opposite edge | pos = (-1, 5) on a 100-cell field writes field[5][99] | a click outside the grid changes no cell | not executed; medium | DenseLife.NegativeClickWraps | DenseLife.Life.ModifyCellInBounds |
