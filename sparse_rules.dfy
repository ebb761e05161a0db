/**
 * The generation rule of the sparse engine (Conways_game_of_life.py) as
 * functions of the list of live cells, `pos_list`, and the lemmas that say
 * what one generation does to that list.
 */
module SparseRules {
  import opened Wrappers

  /** A cell position (x, y) on the unbounded plane. */
  type Cell = (int, int)

  predicate NoDup(s: seq<Cell>) {
    forall i, j :: 0 <= i < j < |s| ==> s[i] != s[j]
  }

  /** Dropping the last entry of a duplicate-free list leaves it duplicate-free, without that entry. */
  lemma NoDupInit(s: seq<Cell>)
    requires NoDup(s) && s != []
    ensures NoDup(s[..|s| - 1]) && s[|s| - 1] !in s[..|s| - 1]
  {
    var p := s[..|s| - 1];
    forall i, j | 0 <= i < j < |p| ensures p[i] != p[j] { assert p[i] == s[i] && p[j] == s[j]; }
    forall i | 0 <= i < |p| ensures p[i] != s[|s| - 1] { assert p[i] == s[i]; }
  }

  /** d is one of the eight Moore neighbours of c. */
  predicate Adjacent(c: Cell, d: Cell) {
    d != c && -1 <= d.0 - c.0 <= 1 && -1 <= d.1 - c.1 <= 1
  }

  lemma NoDupSnoc(s: seq<Cell>, z: Cell)
    requires NoDup(s) && z !in s
    ensures NoDup(s + [z])
  {
    forall i, j | 0 <= i < j < |s| + 1
      ensures (s + [z])[i] != (s + [z])[j]
    {
      if j == |s| {
        assert (s + [z])[i] == s[i];
      }
    }
  }

  lemma NoDupConcat(a: seq<Cell>, b: seq<Cell>)
    requires NoDup(a) && NoDup(b)
    requires forall d :: d in a ==> d !in b
    ensures NoDup(a + b)
  {
    forall i, j | 0 <= i < j < |a + b|
      ensures (a + b)[i] != (a + b)[j]
    {
      if j < |a| {
        assert (a + b)[i] == a[i] && (a + b)[j] == a[j];
      } else if |a| <= i {
        assert (a + b)[i] == b[i - |a|] && (a + b)[j] == b[j - |a|];
      } else {
        assert (a + b)[i] == a[i] && (a + b)[j] == b[j - |a|];
        assert a[i] in a && b[j - |a|] in b;
      }
    }
  }

  // ---------------------------------------------------------------------
  // Neighbourhood (around_cell, amount_neighbours, list_of_dead_neighbours)
  // ---------------------------------------------------------------------

  /** The neighbour list of around_cell, in the order around_cell lists them. */
  function AroundCell(x: int, y: int): (r: seq<Cell>)
    ensures |r| == 8 && NoDup(r) && (x, y) !in r
    ensures forall d :: d in r <==> Adjacent((x, y), d)
  {
    var r := [(x - 1, y - 1), (x, y - 1), (x + 1, y - 1), (x - 1, y),
              (x + 1, y), (x - 1, y + 1), (x, y + 1), (x + 1, y + 1)];
    assert forall d :: Adjacent((x, y), d) ==>
      d == r[0] || d == r[1] || d == r[2] || d == r[3] ||
      d == r[4] || d == r[5] || d == r[6] || d == r[7];
    r
  }

  /** 1 when d is live, i.e. occurs in cells (the test `cell in pos_list`), else 0. */
  function Live(cells: seq<Cell>, d: Cell): nat {
    if d in cells then 1 else 0
  }

  /** How many members of ns are live. */
  function CountLive(ns: seq<Cell>, cells: seq<Cell>): (n: nat)
    ensures n <= |ns|
  {
    if ns == [] then 0
    else CountLive(ns[..|ns| - 1], cells) + Live(cells, ns[|ns| - 1])
  }

  /** The value amount_neighbours returns for c against pos_list = cells. */
  function NeighbourCount(cells: seq<Cell>, c: Cell): (n: nat)
    ensures n <= 8
  {
    CountLive(AroundCell(c.0, c.1), cells)
  }

  /** amount_neighbours written out: one membership test per neighbour, in around_cell's order. */
  lemma NeighbourCountExpanded(cells: seq<Cell>, x: int, y: int)
    ensures NeighbourCount(cells, (x, y)) ==
      Live(cells, (x - 1, y - 1)) + Live(cells, (x, y - 1)) + Live(cells, (x + 1, y - 1)) +
      Live(cells, (x - 1, y)) + Live(cells, (x + 1, y)) +
      Live(cells, (x - 1, y + 1)) + Live(cells, (x, y + 1)) + Live(cells, (x + 1, y + 1))
  {
    var ns := AroundCell(x, y);
    assert ns[..8] == ns;
    CountLivePrefixStep(ns, cells, 7);
    CountLivePrefixStep(ns, cells, 6);
    CountLivePrefixStep(ns, cells, 5);
    CountLivePrefixStep(ns, cells, 4);
    CountLivePrefixStep(ns, cells, 3);
    CountLivePrefixStep(ns, cells, 2);
    CountLivePrefixStep(ns, cells, 1);
    CountLivePrefixStep(ns, cells, 0);
  }

  lemma CountLivePrefixStep(ns: seq<Cell>, cells: seq<Cell>, k: nat)
    requires k < |ns|
    ensures CountLive(ns[..k + 1], cells) == CountLive(ns[..k], cells) + Live(cells, ns[k])
  {
    assert ns[..k + 1][..k] == ns[..k];
  }

  /** A set that gains at most the one new element z grows by one exactly when it gains z. */
  lemma SizeAfterSnoc(before: set<Cell>, after: set<Cell>, z: Cell, add: bool)
    requires z !in before
    requires forall d :: d in after <==> d in before || (d == z && add)
    ensures |after| == |before| + (if add then 1 else 0)
  {
    if add {
      assert after == before + {z};
    } else {
      assert after == before;
    }
  }

  /** Counting by membership: over a duplicate-free list it is the size of the live subset. */
  lemma {:induction false} CountLiveIsSetSize(ns: seq<Cell>, cells: seq<Cell>)
    requires NoDup(ns)
    ensures CountLive(ns, cells) == |set d | d in ns && d in cells|
  {
    if ns != [] {
      var p, z := ns[..|ns| - 1], ns[|ns| - 1];
      assert ns == p + [z];
      NoDupInit(ns);
      CountLiveIsSetSize(p, cells);
      var before := set d | d in p && d in cells;
      var after := set d | d in ns && d in cells;
      forall d ensures d in after <==> d in before || (d == z && z in cells) {
        assert d in ns <==> d in p || d == z;
      }
      SizeAfterSnoc(before, after, z, z in cells);
    }
  }

  /** amount_neighbours counts each live Moore neighbour once: duplicates in pos_list do not double-count. */
  lemma NeighbourCountIsLiveNeighbours(cells: seq<Cell>, c: Cell)
    ensures NeighbourCount(cells, c) == |set d | d in cells && Adjacent(c, d)|
  {
    var ns := AroundCell(c.0, c.1);
    CountLiveIsSetSize(ns, cells);
    assert (set d | d in ns && d in cells) == (set d | d in cells && Adjacent(c, d));
  }

  /** 1 when d is a Moore neighbour of c, else 0. */
  function AdjacentBit(c: Cell, d: Cell): nat {
    if Adjacent(c, d) then 1 else 0
  }

  /** How many entries of cells are Moore neighbours of c. */
  function AdjacentCount(cells: seq<Cell>, c: Cell): (n: nat)
    ensures n <= |cells|
  {
    if cells == [] then 0
    else AdjacentCount(cells[..|cells| - 1], c) + AdjacentBit(c, cells[|cells| - 1])
  }

  lemma {:induction false} AdjacentCountIsSetSize(cells: seq<Cell>, c: Cell)
    requires NoDup(cells)
    ensures AdjacentCount(cells, c) == |set d | d in cells && Adjacent(c, d)|
  {
    if cells != [] {
      var p, z := cells[..|cells| - 1], cells[|cells| - 1];
      assert cells == p + [z];
      NoDupInit(cells);
      AdjacentCountIsSetSize(p, c);
      var before := set d | d in p && Adjacent(c, d);
      var after := set d | d in cells && Adjacent(c, d);
      forall d ensures d in after <==> d in before || (d == z && Adjacent(c, z)) {
        assert d in cells <==> d in p || d == z;
      }
      SizeAfterSnoc(before, after, z, Adjacent(c, z));
    }
  }

  /**
   * On a duplicate-free pos_list, amount_neighbours is the number of listed
   * cells adjacent to c.
   */
  lemma NeighbourCountIsAdjacentCount(cells: seq<Cell>, c: Cell)
    requires NoDup(cells)
    ensures NeighbourCount(cells, c) == AdjacentCount(cells, c)
  {
    NeighbourCountIsLiveNeighbours(cells, c);
    AdjacentCountIsSetSize(cells, c);
  }

  lemma AdjacentCountSnoc(s: seq<Cell>, z: Cell, c: Cell)
    ensures AdjacentCount(s + [z], c) == AdjacentCount(s, c) + AdjacentBit(c, z)
  {
    assert (s + [z])[..|s|] == s;
  }

  lemma AdjacentCount3(a: Cell, b: Cell, e: Cell, d: Cell)
    ensures AdjacentCount([a, b, e], d) == AdjacentBit(d, a) + AdjacentBit(d, b) + AdjacentBit(d, e)
  {
    assert [a, b, e] == [a, b] + [e] && [a, b] == [a] + [b] && [a] == [] + [a];
    AdjacentCountSnoc([], a, d);
    AdjacentCountSnoc([a], b, d);
    AdjacentCountSnoc([a, b], e, d);
  }

  lemma AdjacentCount4(a: Cell, b: Cell, e: Cell, f: Cell, d: Cell)
    ensures AdjacentCount([a, b, e, f], d) == AdjacentBit(d, a) + AdjacentBit(d, b) + AdjacentBit(d, e) + AdjacentBit(d, f)
  {
    assert [a, b, e, f] == [a, b, e] + [f];
    AdjacentCountSnoc([a, b, e], f, d);
    AdjacentCount3(a, b, e, d);
  }

  lemma AdjacentCount5(a: Cell, b: Cell, e: Cell, f: Cell, g: Cell, d: Cell)
    ensures AdjacentCount([a, b, e, f, g], d) ==
      AdjacentBit(d, a) + AdjacentBit(d, b) + AdjacentBit(d, e) + AdjacentBit(d, f) + AdjacentBit(d, g)
  {
    assert [a, b, e, f, g] == [a, b, e, f] + [g];
    AdjacentCountSnoc([a, b, e, f], g, d);
    AdjacentCount4(a, b, e, f, d);
  }

  lemma {:induction false} CountLiveSameMembers(ns: seq<Cell>, a: seq<Cell>, b: seq<Cell>)
    requires forall d :: d in a <==> d in b
    ensures CountLive(ns, a) == CountLive(ns, b)
  {
    if ns != [] {
      CountLiveSameMembers(ns[..|ns| - 1], a, b);
    }
  }

  /** The members of ns that are dead (list_of_dead_neighbours filters around_cell with this). */
  function DeadAmong(ns: seq<Cell>, cells: seq<Cell>): (r: seq<Cell>)
    ensures forall d :: d in r <==> d in ns && d !in cells
    ensures NoDup(ns) ==> NoDup(r)
  {
    if ns == [] then []
    else
      var p, z := ns[..|ns| - 1], ns[|ns| - 1];
      assert ns == p + [z];
      var r0 := DeadAmong(p, cells);
      if z in cells then r0
      else
        assert NoDup(ns) ==> NoDup(p) && z !in p by {
          if NoDup(ns) {
            forall i | 0 <= i < |p| ensures p[i] != z && p[i] == ns[i] { assert p[i] == ns[i]; }
          }
        }
        assert NoDup(ns) ==> NoDup(r0 + [z]) by { if NoDup(ns) { NoDupSnoc(r0, z); } }
        r0 + [z]
  }

  /** The members of ns with exactly three live neighbours. */
  function ThreeNeighbours(ns: seq<Cell>, cells: seq<Cell>): (r: seq<Cell>)
    ensures forall d {:trigger d in r} :: d in r <==> d in ns && NeighbourCount(cells, d) == 3
  {
    if ns == [] then []
    else
      var p, z := ns[..|ns| - 1], ns[|ns| - 1];
      assert ns == p + [z];
      var r0 := ThreeNeighbours(p, cells);
      if NeighbourCount(cells, z) == 3 then r0 + [z] else r0
  }

  /**
   * new_cell_possible: None for its "none" result (c does not have 1 or 2
   * live neighbours), otherwise the dead neighbours of c that have exactly
   * three live neighbours.
   */
  function Spawns(cells: seq<Cell>, c: Cell): (r: Option<seq<Cell>>)
    ensures r.Some? <==> NeighbourCount(cells, c) == 1 || NeighbourCount(cells, c) == 2
    ensures r.Some? ==> forall d :: d in r.value <==>
      Adjacent(c, d) && d !in cells && NeighbourCount(cells, d) == 3
  {
    var n := NeighbourCount(cells, c);
    if n == 2 || n == 1 then Some(ThreeNeighbours(DeadAmong(AroundCell(c.0, c.1), cells), cells))
    else None
  }

  // ---------------------------------------------------------------------
  // One generation (advance_state)
  // ---------------------------------------------------------------------

  /** A live cell with at most one or at least four live neighbours dies. */
  predicate Dies(cells: seq<Cell>, c: Cell) {
    NeighbourCount(cells, c) <= 1 || NeighbourCount(cells, c) >= 4
  }

  /** The members of s that do not die against cells, in order. */
  function Survivors(s: seq<Cell>, cells: seq<Cell>): (r: seq<Cell>)
    ensures forall d {:trigger d in r} :: d in r <==> d in s && !Dies(cells, d)
    ensures |r| <= |s|
  {
    if s == [] then []
    else
      var p, z := s[..|s| - 1], s[|s| - 1];
      assert s == p + [z];
      var r0 := Survivors(p, cells);
      if Dies(cells, z) then r0 else r0 + [z]
  }

  lemma SurvivorsStep(s: seq<Cell>, cells: seq<Cell>, k: nat)
    requires k < |s|
    ensures Survivors(s[..k + 1], cells) ==
      if Dies(cells, s[k]) then Survivors(s[..k], cells) else Survivors(s[..k], cells) + [s[k]]
  {
    assert s[..k + 1][..k] == s[..k];
  }

  lemma {:induction false} SurvivorsNoDup(s: seq<Cell>, cells: seq<Cell>)
    requires NoDup(s)
    ensures NoDup(Survivors(s, cells))
  {
    if s != [] {
      var p, z := s[..|s| - 1], s[|s| - 1];
      assert s == p + [z];
      assert NoDup(p) && z !in p by {
        forall i | 0 <= i < |p| ensures p[i] != z && p[i] == s[i] { assert p[i] == s[i]; }
        forall i, j | 0 <= i < j < |p| ensures p[i] != p[j] { assert p[i] == s[i] && p[j] == s[j]; }
      }
      SurvivorsNoDup(p, cells);
      if !Dies(cells, z) { NoDupSnoc(Survivors(p, cells), z); }
    }
  }

  /** The inner loop at :178-180: append each cell of l that is not yet in acc. */
  function AddAbsent(acc: seq<Cell>, l: seq<Cell>): (r: seq<Cell>)
    ensures forall d :: d in r <==> d in acc || d in l
    ensures NoDup(acc) ==> NoDup(r)
  {
    if l == [] then acc
    else
      var p, z := l[..|l| - 1], l[|l| - 1];
      assert l == p + [z];
      var r0 := AddAbsent(acc, p);
      if z in r0 then r0
      else
        assert NoDup(acc) ==> NoDup(r0 + [z]) by { if NoDup(acc) { NoDupSnoc(r0, z); } }
        r0 + [z]
  }

  /** new_cells after the first k live cells of the outer loop at :168-180. */
  function NewCellsUpTo(cells: seq<Cell>, k: nat): (r: seq<Cell>)
    requires k <= |cells|
    ensures NoDup(r)
  {
    if k == 0 then []
    else
      var prev := NewCellsUpTo(cells, k - 1);
      match Spawns(cells, cells[k - 1])
      case None => prev
      case Some(l) => AddAbsent(prev, l)
  }

  /** c is a live cell with one or two live neighbours and d is a dead neighbour of c with three. */
  predicate Feeds(cells: seq<Cell>, c: Cell, d: Cell) {
    (NeighbourCount(cells, c) == 1 || NeighbourCount(cells, c) == 2) &&
    Adjacent(c, d) && d !in cells && NeighbourCount(cells, d) == 3
  }

  /** Conways_game_of_life.py's birth condition: d is fed by some live cell. */
  predicate Born(cells: seq<Cell>, d: Cell) {
    exists c :: c in cells && Feeds(cells, c, d)
  }

  /** The list advance_state leaves: survivors in their old order, then the new cells. */
  function NextList(cells: seq<Cell>): seq<Cell> {
    Survivors(cells, cells) + NewCellsUpTo(cells, |cells|)
  }

  lemma {:induction false} NewCellsUpToMembers(cells: seq<Cell>, k: nat, d: Cell)
    requires k <= |cells|
    ensures d in NewCellsUpTo(cells, k) <==> exists j :: 0 <= j < k && Feeds(cells, cells[j], d)
  {
    if k > 0 {
      NewCellsUpToMembers(cells, k - 1, d);
      var c := cells[k - 1];
      var prev := NewCellsUpTo(cells, k - 1);
      var now := NewCellsUpTo(cells, k);
      var sp := Spawns(cells, c);
      // d is new after step k iff it was new before or c feeds it
      assert d in now <==> d in prev || Feeds(cells, c, d) by {
        match sp
        case None =>
          assert now == prev;
        case Some(l) =>
          assert now == AddAbsent(prev, l);
      }
      if d in now {
        if d !in prev {
          assert Feeds(cells, cells[k - 1], d);
        } else {
          var j :| 0 <= j < k - 1 && Feeds(cells, cells[j], d);
          assert 0 <= j < k;
        }
      }
      if exists j :: 0 <= j < k && Feeds(cells, cells[j], d) {
        var j :| 0 <= j < k && Feeds(cells, cells[j], d);
        if j < k - 1 {
          assert d in prev;
        }
      }
    }
  }

  /** The new cells are exactly the cells Born in the old generation. */
  lemma NewCellsAreBorn(cells: seq<Cell>, d: Cell)
    ensures d in NewCellsUpTo(cells, |cells|) <==> Born(cells, d)
  {
    NewCellsUpToMembers(cells, |cells|, d);
    if Born(cells, d) {
      var c :| c in cells && Feeds(cells, c, d);
      var j :| 0 <= j < |cells| && cells[j] == c;
      assert Feeds(cells, cells[j], d);
    }
  }

  /**
   * After advance_state a cell is live iff it was live with two or three
   * live neighbours, or it was dead and Born (three live neighbours and a
   * live neighbour that itself has one or two).
   */
  lemma NextListMembers(cells: seq<Cell>, d: Cell)
    ensures d in NextList(cells) <==>
      (d in cells && (NeighbourCount(cells, d) == 2 || NeighbourCount(cells, d) == 3)) ||
      Born(cells, d)
  {
    NewCellsAreBorn(cells, d);
  }

  /** A duplicate-free pos_list stays duplicate-free across advance_state. */
  lemma NextListNoDup(cells: seq<Cell>)
    requires NoDup(cells)
    ensures NoDup(NextList(cells))
  {
    var a, b := Survivors(cells, cells), NewCellsUpTo(cells, |cells|);
    SurvivorsNoDup(cells, cells);
    forall d | d in a ensures d !in b {
      NewCellsAreBorn(cells, d);
    }
    NoDupConcat(a, b);
  }

  /**
   * Snapshot semantics: the live set after advance_state depends only on the
   * live set before it, not on the order or multiplicity of pos_list.
   */
  lemma NextListSameMembers(a: seq<Cell>, b: seq<Cell>, d: Cell)
    requires forall e :: e in a <==> e in b
    ensures d in NextList(a) <==> d in NextList(b)
  {
    forall e ensures NeighbourCount(a, e) == NeighbourCount(b, e) {
      CountLiveSameMembers(AroundCell(e.0, e.1), a, b);
    }
    NextListMembers(a, d);
    NextListMembers(b, d);
    if Born(a, d) {
      var c :| c in a && Feeds(a, c, d);
      assert c in b && Feeds(b, c, d);
    }
    if Born(b, d) {
      var c :| c in b && Feeds(b, c, d);
      assert c in a && Feeds(a, c, d);
    }
  }

  // ---------------------------------------------------------------------
  // The standard B3/S23 rule on the same live set
  // ---------------------------------------------------------------------

  /** Standard B3/S23: live next iff live with 2 or 3 live neighbours, or dead with exactly 3. */
  predicate StandardAlive(cells: seq<Cell>, d: Cell) {
    if d in cells then NeighbourCount(cells, d) == 2 || NeighbourCount(cells, d) == 3
    else NeighbourCount(cells, d) == 3
  }

  lemma {:induction false} CountLivePositive(ns: seq<Cell>, cells: seq<Cell>)
    requires CountLive(ns, cells) > 0
    ensures exists e :: e in ns && e in cells
  {
    var p := ns[..|ns| - 1];
    if ns[|ns| - 1] !in cells {
      CountLivePositive(p, cells);
      var e :| e in p && e in cells;
      assert e in ns;
    }
  }

  /** The live set of the next generation under the standard rule. */
  function StandardNext(cells: seq<Cell>): (r: set<Cell>)
    ensures forall d :: d in r <==> StandardAlive(cells, d)
  {
    var r := set c, d | c in cells && d in [c] + AroundCell(c.0, c.1) && StandardAlive(cells, d) :: d;
    forall d | StandardAlive(cells, d) ensures d in r {
      if d !in cells {
        CountLivePositive(AroundCell(d.0, d.1), cells);
        var c :| c in AroundCell(d.0, d.1) && c in cells;
        assert d in AroundCell(c.0, c.1);
      } else {
        assert d in [d] + AroundCell(d.0, d.1);
      }
    }
    r
  }

  /**
   * advance_state's generation agrees with the standard rule on every cell that
   * was live, and every cell it makes live is a standard birth; a standard
   * birth happens in advance_state only when Born holds.
   */
  lemma NextListWithinStandard(cells: seq<Cell>, d: Cell)
    ensures d in cells ==> (d in NextList(cells) <==> d in StandardNext(cells))
    ensures d in NextList(cells) ==> d in StandardNext(cells)
    ensures d !in cells ==> (d in NextList(cells) <==> d in StandardNext(cells) && Born(cells, d))
  {
    NextListMembers(cells, d);
    if Born(cells, d) {
      var c :| c in cells && Feeds(cells, c, d);
    }
  }

  /**
   * Three mutually non-adjacent live cells around an empty cell: the empty
   * cell has three live neighbours, so the standard rule makes it live, but
   * none of the three has one or two neighbours, so advance_state does not.
   */
  lemma NarrowBirth()
    ensures var cells := [(0, 0), (2, 0), (1, 2)];
      (1, 1) in StandardNext(cells) && (1, 1) !in NextList(cells)
  {
    var cells := [(0, 0), (2, 0), (1, 2)];
    NarrowBirthCounts(cells);
    NextListMembers(cells, (1, 1));
  }

  lemma NarrowBirthCounts(cells: seq<Cell>)
    requires cells == [(0, 0), (2, 0), (1, 2)]
    ensures NeighbourCount(cells, (1, 1)) == 3
    ensures forall c | c in cells :: NeighbourCount(cells, c) == 0
  {
    forall d ensures NeighbourCount(cells, d) == AdjacentBit(d, (0, 0)) + AdjacentBit(d, (2, 0)) + AdjacentBit(d, (1, 2)) {
      NeighbourCountIsAdjacentCount(cells, d);
      AdjacentCount3((0, 0), (2, 0), (1, 2), d);
    }
  }

  // ---------------------------------------------------------------------
  // Editing the list (create_new_cell, move_camera, paste_copy)
  // ---------------------------------------------------------------------

  /** Python's list.remove(x): drop the first occurrence of x. */
  function RemoveFirst(s: seq<Cell>, x: Cell): (r: seq<Cell>)
    requires x in s
    ensures |r| == |s| - 1
  {
    if s[0] == x then s[1..]
    else [s[0]] + RemoveFirst(s[1..], x)
  }

  /** list.remove(x) takes away exactly one x. */
  lemma {:induction false} RemoveFirstMultiset(s: seq<Cell>, x: Cell)
    requires x in s
    ensures multiset(RemoveFirst(s, x)) == multiset(s) - multiset{x}
  {
    assert s == [s[0]] + s[1..];
    if s[0] != x {
      RemoveFirstMultiset(s[1..], x);
    }
  }

  lemma {:induction false} RemoveFirstAfter(a: seq<Cell>, b: seq<Cell>, x: Cell)
    requires x !in a
    ensures RemoveFirst(a + [x] + b, x) == a + b
  {
    if a != [] {
      assert (a + [x] + b)[1..] == a[1..] + [x] + b;
      RemoveFirstAfter(a[1..], b, x);
      assert a == [a[0]] + a[1..];
    }
  }

  /**
   * One pass of advance_state's removal loop (:184-187): with the cells
   * before k already filtered, removing s[k] when it dies (and keeping it
   * otherwise) filters one more cell.
   */
  lemma RemovalStep(s: seq<Cell>, cells: seq<Cell>, k: nat)
    requires k < |s|
    ensures s[k] in Survivors(s[..k], cells) + s[k..]
    ensures Dies(cells, s[k]) ==>
      RemoveFirst(Survivors(s[..k], cells) + s[k..], s[k]) == Survivors(s[..k + 1], cells) + s[k + 1..]
    ensures !Dies(cells, s[k]) ==>
      Survivors(s[..k], cells) + s[k..] == Survivors(s[..k + 1], cells) + s[k + 1..]
  {
    var kept := Survivors(s[..k], cells);
    SurvivorsStep(s, cells, k);
    assert s[k..] == [s[k]] + s[k + 1..];
    if Dies(cells, s[k]) {
      assert s[k] !in kept;
      assert kept + s[k..] == kept + [s[k]] + s[k + 1..];
      RemoveFirstAfter(kept, s[k + 1..], s[k]);
    } else {
      assert kept + s[k..] == (kept + [s[k]]) + s[k + 1..];
    }
  }

  /** create_new_cell: append (x, y) when it is dead, remove its first occurrence when it is live. */
  function Toggle(cells: seq<Cell>, c: Cell): seq<Cell> {
    if c in cells then RemoveFirst(cells, c) else cells + [c]
  }

  /**
   * Toggle leaves every other cell's status alone on any list. It flips c
   * whenever c is listed at most once, and a duplicate-free list stays
   * duplicate-free.
   */
  lemma ToggleFlips(cells: seq<Cell>, c: Cell)
    ensures forall d :: d != c ==> (d in Toggle(cells, c) <==> d in cells)
    ensures multiset(cells)[c] <= 1 ==> (c in Toggle(cells, c) <==> c !in cells)
    ensures NoDup(cells) ==> NoDup(Toggle(cells, c))
  {
    var t := Toggle(cells, c);
    if c in cells {
      RemoveFirstMultiset(cells, c);
      assert multiset(t) == multiset(cells) - multiset{c};
      forall d | d != c ensures d in t <==> d in cells {
        assert multiset(t)[d] == multiset(cells)[d];
      }
      if multiset(cells)[c] <= 1 {
        assert multiset(t)[c] == 0;
      }
      if NoDup(cells) {
        ToggleRemoveKeepsNoDup(cells, c);
      }
    } else {
      assert forall d :: d in t <==> d in cells || d == c;
      if NoDup(cells) {
        NoDupSnoc(cells, c);
      }
    }
  }

  /** Removing the first occurrence of a listed cell keeps a duplicate-free list duplicate-free. */
  lemma ToggleRemoveKeepsNoDup(cells: seq<Cell>, c: Cell)
    requires NoDup(cells) && c in cells
    ensures NoDup(RemoveFirst(cells, c))
  {
    var i :| 0 <= i < |cells| && cells[i] == c;
    assert cells == cells[..i] + [c] + cells[i + 1..];
    assert c !in cells[..i];
    RemoveFirstAfter(cells[..i], cells[i + 1..], c);
    NoDupWithout(cells, i);
  }

  /** Dropping one entry of a duplicate-free list leaves it duplicate-free. */
  lemma NoDupWithout(s: seq<Cell>, i: nat)
    requires NoDup(s) && i < |s|
    ensures NoDup(s[..i] + s[i + 1..])
  {
    var t := s[..i] + s[i + 1..];
    forall j, k | 0 <= j < k < |t| ensures t[j] != t[k] {
      var j' := if j < i then j else j + 1;
      var k' := if k < i then k else k + 1;
      assert t[j] == s[j'] && t[k] == s[k'];
    }
  }

  /**
   * Toggling a dead cell twice restores the list exactly, on any list.
   * Toggling a cell listed at most once twice restores the set of live cells.
   */
  lemma ToggleTwice(cells: seq<Cell>, c: Cell)
    ensures c !in cells ==> Toggle(Toggle(cells, c), c) == cells
    ensures multiset(cells)[c] <= 1 ==> forall d :: d in Toggle(Toggle(cells, c), c) <==> d in cells
  {
    var t := Toggle(cells, c);
    ToggleFlips(cells, c);
    ToggleFlips(t, c);
    if c !in cells {
      RemoveFirstAfter(cells, [], c);
      assert cells + [c] + [] == cells + [c];
    } else if multiset(cells)[c] <= 1 {
      RemoveFirstMultiset(cells, c);
      assert multiset(t)[c] == 0;
      assert c !in t;
      assert multiset(t)[c] <= 1;
    }
  }

  /** With c listed twice, one toggle removes only one copy and c stays live. */
  lemma ToggleDuplicateStaysLive(cells: seq<Cell>, c: Cell)
    requires multiset(cells)[c] >= 2
    ensures c in Toggle(cells, c)
  {
    assert c in multiset(cells);
    RemoveFirstMultiset(cells, c);
    assert multiset(Toggle(cells, c))[c] >= 1;
  }

  /** Every cell of the list shifted by (dx, dy), in order (move_camera). */
  function Shifted(cells: seq<Cell>, dx: int, dy: int): (r: seq<Cell>)
    ensures |r| == |cells|
  {
    seq(|cells|, i requires 0 <= i < |cells| => (cells[i].0 + dx, cells[i].1 + dy))
  }

  /** Shifting is a bijection on positions: d is listed after the shift iff d - (dx, dy) was before. */
  lemma ShiftedMember(cells: seq<Cell>, dx: int, dy: int, d: Cell)
    ensures d in Shifted(cells, dx, dy) <==> (d.0 - dx, d.1 - dy) in cells
  {
    var s := Shifted(cells, dx, dy);
    var e := (d.0 - dx, d.1 - dy);
    if e in cells {
      var i :| 0 <= i < |cells| && cells[i] == e;
      assert s[i] == d;
    }
    if d in s {
      var i :| 0 <= i < |s| && s[i] == d;
      assert cells[i] == e;
    }
  }

  /** move_camera keeps a duplicate-free list duplicate-free, and the opposite move restores it. */
  lemma ShiftedNoDupAndBack(cells: seq<Cell>, dx: int, dy: int)
    ensures NoDup(cells) ==> NoDup(Shifted(cells, dx, dy))
    ensures Shifted(Shifted(cells, dx, dy), -dx, -dy) == cells
  {
    var s := Shifted(cells, dx, dy);
    if NoDup(cells) {
      forall i, j | 0 <= i < j < |s| ensures s[i] != s[j] {
        assert cells[i] != cells[j];
      }
    }
    var back := Shifted(s, -dx, -dy);
    forall i | 0 <= i < |cells| ensures back[i] == cells[i] {
      assert s[i] == (cells[i].0 + dx, cells[i].1 + dy);
    }
  }


  /** One neighbour's membership test is unchanged when both the list and the position move by (dx, dy). */
  lemma LiveShifted(cells: seq<Cell>, dx: int, dy: int, e: Cell)
    ensures Live(Shifted(cells, dx, dy), (e.0 + dx, e.1 + dy)) == Live(cells, e)
  {
    ShiftedMember(cells, dx, dy, (e.0 + dx, e.1 + dy));
  }

  /** amount_neighbours commutes with move_camera: a moved cell has as many live neighbours as before. */
  lemma NeighbourCountShifted(cells: seq<Cell>, dx: int, dy: int, d: Cell)
    ensures NeighbourCount(Shifted(cells, dx, dy), (d.0 + dx, d.1 + dy)) == NeighbourCount(cells, d)
  {
    var (x, y) := d;
    NeighbourCountExpanded(Shifted(cells, dx, dy), x + dx, y + dy);
    NeighbourCountExpanded(cells, x, y);
    LiveShifted(cells, dx, dy, (x - 1, y - 1));
    LiveShifted(cells, dx, dy, (x, y - 1));
    LiveShifted(cells, dx, dy, (x + 1, y - 1));
    LiveShifted(cells, dx, dy, (x - 1, y));
    LiveShifted(cells, dx, dy, (x + 1, y));
    LiveShifted(cells, dx, dy, (x - 1, y + 1));
    LiveShifted(cells, dx, dy, (x, y + 1));
    LiveShifted(cells, dx, dy, (x + 1, y + 1));
  }

  /** c feeds d exactly when c moved by (dx, dy) feeds d moved by (dx, dy) in the moved list. */
  lemma FeedsShifted(cells: seq<Cell>, dx: int, dy: int, c: Cell, d: Cell)
    ensures Feeds(cells, c, d) <==> Feeds(Shifted(cells, dx, dy), (c.0 + dx, c.1 + dy), (d.0 + dx, d.1 + dy))
  {
    ShiftedMember(cells, dx, dy, (d.0 + dx, d.1 + dy));
    NeighbourCountShifted(cells, dx, dy, c);
    NeighbourCountShifted(cells, dx, dy, d);
  }

  /** A birth of the original list is a birth of the moved list, one cell over. */
  lemma BornShifted(cells: seq<Cell>, dx: int, dy: int, d: Cell)
    requires Born(cells, d)
    ensures Born(Shifted(cells, dx, dy), (d.0 + dx, d.1 + dy))
  {
    var c :| c in cells && Feeds(cells, c, d);
    var s, c', d' := Shifted(cells, dx, dy), (c.0 + dx, c.1 + dy), (d.0 + dx, d.1 + dy);
    var i :| 0 <= i < |cells| && cells[i] == c;
    assert s[i] == c';
    FeedsShifted(cells, dx, dy, c, d);
    assert c' in s && Feeds(s, c', d');
  }

  /** A birth of the moved list is a birth of the original list, one cell back. */
  lemma BornUnshifted(cells: seq<Cell>, dx: int, dy: int, d: Cell)
    requires Born(Shifted(cells, dx, dy), (d.0 + dx, d.1 + dy))
    ensures Born(cells, d)
  {
    var c' :| c' in Shifted(cells, dx, dy) && Feeds(Shifted(cells, dx, dy), c', (d.0 + dx, d.1 + dy));
    var c := (c'.0 - dx, c'.1 - dy);
    assert c' == (c.0 + dx, c.1 + dy);
    ShiftedMember(cells, dx, dy, c');
    FeedsShifted(cells, dx, dy, c, d);
    assert c in cells;
  }

  /**
   * advance_state commutes with move_camera: d + (dx, dy) is live after a step
   * of the moved list iff d is live after a step of the original list.
   */
  lemma NextListShifted(cells: seq<Cell>, dx: int, dy: int, d: Cell)
    ensures (d.0 + dx, d.1 + dy) in NextList(Shifted(cells, dx, dy)) <==> d in NextList(cells)
  {
    var s := Shifted(cells, dx, dy);
    var d' := (d.0 + dx, d.1 + dy);
    NextListMembers(s, d');
    NextListMembers(cells, d);
    ShiftedMember(cells, dx, dy, d');
    NeighbourCountShifted(cells, dx, dy, d);
    if Born(cells, d) { BornShifted(cells, dx, dy, d); }
    if Born(s, d') { BornUnshifted(cells, dx, dy, d); }
  }

  /** A list with the members of b moved by (dx, dy) steps to the members of NextList(b) moved by (dx, dy). */
  lemma NextListCommutesWithShift(a: seq<Cell>, b: seq<Cell>, dx: int, dy: int, d: Cell)
    requires forall e :: e in a <==> e in Shifted(b, dx, dy)
    ensures d in NextList(a) <==> d in Shifted(NextList(b), dx, dy)
  {
    var e := (d.0 - dx, d.1 - dy);
    assert d == (e.0 + dx, e.1 + dy);
    NextListSameMembers(a, Shifted(b, dx, dy), d);
    NextListShifted(b, dx, dy, e);
    ShiftedMember(NextList(b), dx, dy, d);
  }
  /** The glider cells paste_copy appends for copy slot 0 with the mouse at (mx, my). */
  function Glider(mx: int, my: int): (r: seq<Cell>)
    ensures |r| == 5 && NoDup(r)
  {
    [(mx + 2, my), (mx + 2, my + 1), (mx + 2, my + 2), (mx + 1, my + 2), (mx, my + 1)]
  }

  /** paste_copy does not check for live cells: pasting over one lists it twice. */
  lemma PasteOverLiveDuplicates(cells: seq<Cell>, mx: int, my: int, k: nat)
    requires k < 5 && Glider(mx, my)[k] in cells
    ensures !NoDup(cells + Glider(mx, my))
  {
    var c := Glider(mx, my)[k];
    var i :| 0 <= i < |cells| && cells[i] == c;
    assert (cells + Glider(mx, my))[i] == (cells + Glider(mx, my))[|cells| + k];
  }
}
