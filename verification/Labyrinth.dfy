/**
 Searching and changing the map of the labyrinth game (os2025/labyrinth/labyrinth.c).
 */
module Labyrinth {

  datatype Cell = Cell(row: int, col: int)

  /** A map by its cells. */
  type Grid = map<Cell, char>

  predicate IsPlayer(c: char) { '0' <= c <= '9' }

  /** A player stands on empty space. */
  predicate IsEmpty(c: char) { c == '.' || IsPlayer(c) }

  ghost function AllCells(rows: nat, cols: nat): (cells: set<Cell>)
    ensures forall x :: x in cells <==> 0 <= x.row < rows && 0 <= x.col < cols
  {
    set row, col | 0 <= row < rows && 0 <= col < cols :: Cell(row, col)
  }

  ghost function EmptyCells(g: Grid): (cells: set<Cell>) { set x | x in g && IsEmpty(g[x]) }

  // ----- paths -----

  predicate Adjacent(a: Cell, b: Cell)
  {
    || (a.row == b.row && (a.col == b.col + 1 || b.col == a.col + 1))
    || (a.col == b.col && (a.row == b.row + 1 || b.row == a.row + 1))
  }

  ghost predicate IsPath(cells: set<Cell>, path: seq<Cell>)
  {
    && path != [] && (forall i :: 0 <= i < |path| ==> path[i] in cells)
    && (forall i :: 0 < i < |path| ==> Adjacent(path[i - 1], path[i]))
  }

  ghost predicate Joined(cells: set<Cell>, a: Cell, b: Cell)
  {
    exists path :: IsPath(cells, path) && path[0] == a && path[|path| - 1] == b
  }

  /** There are cells, and any two are joined by a path of 4-neighbours. */
  ghost predicate Connected(cells: set<Cell>)
  {
    cells != {} && forall a, b :: a in cells && b in cells ==> Joined(cells, a, b)
  }

  lemma {:induction false} JoinedSelf(cells: set<Cell>, a: Cell)
    requires a in cells
    ensures Joined(cells, a, a)
  {
    assert IsPath(cells, [a]) && [a][|[a]| - 1] == a;
  }

  lemma {:induction false} JoinedStep(cells: set<Cell>, a: Cell, b: Cell, c: Cell)
    requires Joined(cells, a, b) && Adjacent(b, c) && c in cells
    ensures Joined(cells, a, c)
  {
    var path :| IsPath(cells, path) && path[0] == a && path[|path| - 1] == b;
    assert IsPath(cells, path + [c]);
  }

  lemma {:induction false} JoinedBack(cells: set<Cell>, a: Cell, b: Cell)
    requires Joined(cells, a, b)
    ensures Joined(cells, b, a)
  {
    var path :| IsPath(cells, path) && path[0] == a && path[|path| - 1] == b;
    var n := |path|;
    var back := seq(n, i requires 0 <= i < n => path[n - 1 - i]);
    forall i | 0 < i < n ensures Adjacent(back[i - 1], back[i]) {
      assert Adjacent(path[n - 1 - i], path[n - i]);
    }
    assert IsPath(cells, back);
  }

  lemma {:induction false} JoinedOn(cells: set<Cell>, a: Cell, b: Cell, c: Cell)
    requires Joined(cells, a, b) && Joined(cells, b, c)
    ensures Joined(cells, a, c)
  {
    var path :| IsPath(cells, path) && path[0] == a && path[|path| - 1] == b;
    var more :| IsPath(cells, more) && more[0] == b && more[|more| - 1] == c;
    assert IsPath(cells, path + more[1..]);
    assert |more| == 1 ==> path + more[1..] == path;
  }

  /** No path leads out of a set that contains the neighbours of its cells. */
  lemma {:induction false} PathStays(cells: set<Cell>, seen: set<Cell>, path: seq<Cell>, i: nat)
    requires IsPath(cells, path) && path[0] in seen && i < |path|
    requires forall x, y :: x in seen && y in cells && Adjacent(x, y) ==> y in seen
    ensures path[i] in seen
  {
    if i > 0 {
      PathStays(cells, seen, path, i - 1);
      assert Adjacent(path[i - 1], path[i]);
    }
  }

  /** A closed set of cells joined with one of its cells is everything exactly if all is connected. */
  lemma {:induction false} ClosedIsAll(cells: set<Cell>, seen: set<Cell>, start: Cell)
    requires start in seen && seen <= cells
    requires forall x :: x in seen ==> Joined(cells, start, x)
    requires forall x, y :: x in seen && y in cells && Adjacent(x, y) ==> y in seen
    ensures seen == cells <==> Connected(cells)
  {
    if seen == cells {
      forall a, b | a in cells && b in cells ensures Joined(cells, a, b) {
        JoinedBack(cells, start, a);
        JoinedOn(cells, a, start, b);
      }
    } else if Connected(cells) {
      var x :| x in cells && x !in seen;
      assert Joined(cells, start, x);
      var path :| IsPath(cells, path) && path[0] == start && path[|path| - 1] == x;
      PathStays(cells, seen, path, |path| - 1);
    }
  }

  // ----- the search -----

  function Neighbour(c: Cell, i: nat): (d: Cell)
    requires i < 4
    ensures Adjacent(c, d)
  {
    if i == 0 then Cell(c.row - 1, c.col)
    else if i == 1 then Cell(c.row + 1, c.col)
    else if i == 2 then Cell(c.row, c.col - 1)
    else Cell(c.row, c.col + 1)
  }

  lemma {:induction false} NeighboursAreFour(c: Cell, d: Cell) returns (i: nat)
    requires Adjacent(c, d)
    ensures i < 4 && Neighbour(c, i) == d
  {
    i := if d.row < c.row then 0 else if d.row > c.row then 1 else if d.col < c.col then 2 else 3;
  }

  /** What has been seen since before is joined with at, and its neighbours have been seen too. */
  ghost predicate Searched(cells: set<Cell>, before: set<Cell>, seen: set<Cell>, at: Cell)
  {
    && before <= seen <= cells
    && (forall x :: x in seen && x !in before ==> Joined(cells, at, x))
    && (forall x, y :: x in seen && x !in before && y in cells && Adjacent(x, y) ==> y in seen)
  }

  /** A search from a neighbour, after what has been searched before. */
  lemma {:induction false} SearchedOn(cells: set<Cell>, before: set<Cell>, seen: set<Cell>, at: Cell, next: Cell, seen': set<Cell>)
    requires at in cells && next in cells && next !in seen && Adjacent(at, next)
    requires Searched(cells, before, seen, at) && Searched(cells, seen + {next}, seen', next)
    requires forall y :: y in cells && Adjacent(next, y) ==> y in seen'
    ensures Searched(cells, before, seen', at)
  {
    JoinedSelf(cells, at);
    JoinedStep(cells, at, at, next);
    forall x | x in seen' && x !in before ensures Joined(cells, at, x) {
      if x !in seen && x != next {
        JoinedOn(cells, at, next, x);
      }
    }
  }

  ghost function Seen(visited: array2<bool>): (cells: set<Cell>)
    reads visited
  {
    set x | x in AllCells(visited.Length0, visited.Length1) && visited[x.row, x.col]
  }

  // ----- the first cell of a kind -----

  const NOWHERE := Cell(-1, -1)

  /** Row by row. */
  predicate Before(a: Cell, b: Cell) { a.row < b.row || (a.row == b.row && a.col < b.col) }

  ghost predicate FirstWith(g: Grid, kind: char -> bool, pos: Cell)
  {
    if pos == NOWHERE then forall x :: x in g ==> !kind(g[x])
    else pos in g && kind(g[pos]) && NoneBefore(g, kind, pos)
  }

  ghost predicate NoneBefore(g: Grid, kind: char -> bool, pos: Cell)
  {
    forall x :: x in g && Before(x, pos) ==> !kind(g[x])
  }

  lemma {:induction false} NextColumn(g: Grid, kind: char -> bool, row: nat, col: nat)
    requires NoneBefore(g, kind, Cell(row, col)) && Cell(row, col) in g && !kind(g[Cell(row, col)])
    ensures NoneBefore(g, kind, Cell(row, col + 1))
  {
  }

  lemma {:induction false} NextRow(g: Grid, kind: char -> bool, row: nat, rows: nat, cols: nat)
    requires g.Keys == AllCells(rows, cols) && NoneBefore(g, kind, Cell(row, cols))
    ensures NoneBefore(g, kind, Cell(row + 1, 0))
    ensures row + 1 == rows ==> forall x :: x in g ==> !kind(g[x])
  {
  }

  // ----- a move -----

  function Towards(pos: Cell, direction: string): (next: Cell)
    requires direction in {"up", "down", "left", "right"}
    ensures Adjacent(pos, next)
  {
    if direction == "up" then Cell(pos.row - 1, pos.col)
    else if direction == "down" then Cell(pos.row + 1, pos.col)
    else if direction == "left" then Cell(pos.row, pos.col - 1)
    else Cell(pos.row, pos.col + 1)
  }

  /** The offsets of a direction, added up. */
  method FindTarget(pos: Cell, direction: string) returns (known: bool, next: Cell)
    ensures known == (direction in {"up", "down", "left", "right"})
    ensures known ==> next == Towards(pos, direction)
  {
    var rowOffset, colOffset := 0, 0;
    known := true;
    if direction == "up" {
      rowOffset := -1;
    } else if direction == "down" {
      rowOffset := 1;
    } else if direction == "left" {
      colOffset := -1;
    } else if direction == "right" {
      colOffset := 1;
    } else {
      known := false;
    }
    next := Cell(pos.row + rowOffset, pos.col + colOffset);
  }

  /** Where a player moves from: its first cell, or else the first empty one. */
  ghost predicate Located(g: Grid, id: char, pos: Cell)
  {
    if exists x :: x in g && g[x] == id then FirstWith(g, c => c == id, pos) && pos != NOWHERE
    else FirstWith(g, IsEmpty, pos)
  }

  ghost predicate MoveFrom(g: Grid, id: char, direction: string, pos: Cell, ok: bool, g': Grid)
  {
    if pos in g && direction in {"up", "down", "left", "right"} && Towards(pos, direction) in g
       && g[Towards(pos, direction)] == '.'
    then ok && g' == g[pos := '.'][Towards(pos, direction) := id]
    else !ok && g' == g
  }

  /** What a call of movePlayer does to the map. */
  ghost predicate MoveResult(g: Grid, id: char, direction: string, ok: bool, g': Grid)
  {
    exists pos :: Located(g, id, pos) && MoveFrom(g, id, direction, pos, ok, g')
  }

  /** A successful move keeps the empty cells exactly if what it moves stands on empty space. */
  lemma {:induction false} MoveKeepsExactly(g: Grid, id: char, direction: string, g': Grid)
    requires MoveResult(g, id, direction, true, g')
    ensures EmptyCells(g') == EmptyCells(g) <==> IsEmpty(id)
  {
    var pos :| Located(g, id, pos) && MoveFrom(g, id, direction, pos, true, g');
    var next := Towards(pos, direction);
    assert next in EmptyCells(g) && (next in EmptyCells(g') <==> IsEmpty(id));
    if IsEmpty(id) {
      assert IsEmpty(g[pos]);
    }
  }

  ghost predicate Called(g: Grid, id: char, direction: string, g': Grid)
  {
    MoveResult(g, id, direction, true, g') || MoveResult(g, id, direction, false, g')
  }

  /** The maps after each of a number of calls. */
  ghost predicate Calls(gs: seq<Grid>, ids: seq<char>, directions: seq<string>)
  {
    && |gs| == |ids| + 1 == |directions| + 1
    && forall k :: 0 <= k < |ids| ==>
         IsPlayer(ids[k]) && Called(gs[k], ids[k], directions[k], gs[k + 1])
  }

  /** Whatever the players do, the empty cells stay the same, and so does their being connected. */
  lemma {:induction false} PlayKeepsEmptyCells(gs: seq<Grid>, ids: seq<char>, directions: seq<string>, k: nat)
    requires Calls(gs, ids, directions) && k < |gs|
    ensures EmptyCells(gs[k]) == EmptyCells(gs[0])
    ensures Connected(EmptyCells(gs[k])) <==> Connected(EmptyCells(gs[0]))
  {
    if k > 0 {
      PlayKeepsEmptyCells(gs, ids, directions, k - 1);
      assert Called(gs[k - 1], ids[k - 1], directions[k - 1], gs[k]);
      if MoveResult(gs[k - 1], ids[k - 1], directions[k - 1], true, gs[k]) {
        MoveKeepsExactly(gs[k - 1], ids[k - 1], directions[k - 1], gs[k]);
      }
    }
  }

  ghost function CellsOf(g: Grid, id: char): (cells: set<Cell>) { set x | x in g && g[x] == id }

  /** A move leaves another player alone unless it starts from that player's cell, which happens
      only to a player who is not on the map yet. */
  lemma {:induction false} BystanderKept(g: Grid, id: char, direction: string, pos: Cell, g': Grid, other: char)
    requires Located(g, id, pos) && MoveFrom(g, id, direction, pos, true, g')
    requires IsPlayer(other) && other != id
    ensures CellsOf(g', other) == CellsOf(g, other) <==> g[pos] != other
    ensures g[pos] == other ==> CellsOf(g, id) == {}
  {
    assert pos in CellsOf(g, other) <==> g[pos] == other;
    assert pos !in CellsOf(g', other);
  }

  /** Player 0, not on the map yet, replaces player 1 on the first empty cell. */
  lemma {:induction false} BystanderLost(g: Grid)
    requires g == map[Cell(0, 0) := '1', Cell(0, 1) := '.']
    ensures MoveResult(g, '0', "right", true, map[Cell(0, 0) := '.', Cell(0, 1) := '0'])
  {
    assert Located(g, '0', Cell(0, 0));
    assert MoveFrom(g, '0', "right", Cell(0, 0), true, map[Cell(0, 0) := '.', Cell(0, 1) := '0']);
  }

  class Board {
    const tiles: array2<char>

    constructor (tiles: array2<char>)
      ensures this.tiles == tiles
    {
      this.tiles := tiles;
    }

    predicate Inside(row: int, col: int) { 0 <= row < tiles.Length0 && 0 <= col < tiles.Length1 }

    ghost function Cells(): (g: Grid)
      reads tiles
    {
      map x | x in AllCells(tiles.Length0, tiles.Length1) :: tiles[x.row, x.col]
    }

    predicate IsEmptySpace(row: int, col: int)
      reads tiles
      ensures IsEmptySpace(row, col) <==> Cell(row, col) in EmptyCells(Cells())
    {
      Inside(row, col) && (tiles[row, col] == '.' || '0' <= tiles[row, col] <= '9')
    }

    /** dfs: marks every cell that can be reached from here through cells not marked before. */
    method Dfs(row: int, col: int, visited: array2<bool>)
      requires visited.Length0 == tiles.Length0 && visited.Length1 == tiles.Length1
      requires Cell(row, col) in Seen(visited) && Seen(visited) <= EmptyCells(Cells())
      modifies visited
      ensures Searched(EmptyCells(Cells()), old(Seen(visited)), Seen(visited), Cell(row, col))
      ensures forall y :: y in EmptyCells(Cells()) && Adjacent(Cell(row, col), y) ==> y in Seen(visited)
      decreases EmptyCells(Cells()) - Seen(visited)
    {
      ghost var cells, before, at := EmptyCells(Cells()), Seen(visited), Cell(row, col);
      for i := 0 to 4
        invariant Searched(cells, before, Seen(visited), at)
        invariant forall k :: 0 <= k < i && Neighbour(at, k) in cells ==> Neighbour(at, k) in Seen(visited)
      {
        var next := Neighbour(Cell(row, col), i);
        if Inside(next.row, next.col) && !visited[next.row, next.col] && IsEmptySpace(next.row, next.col) {
          ghost var seen := Seen(visited);
          visited[next.row, next.col] := true;
          assert Seen(visited) == seen + {next};
          Dfs(next.row, next.col, visited);
          SearchedOn(cells, before, seen, at, next, Seen(visited));
        }
      }
      forall y | y in cells && Adjacent(at, y) ensures y in Seen(visited) {
        var k := NeighboursAreFour(at, y);
      }
    }

    /** findFirstEmptySpace */
    method FindFirstEmptySpace() returns (pos: Cell)
      ensures FirstWith(Cells(), IsEmpty, pos)
    {
      ghost var g := Cells();
      for row := 0 to tiles.Length0
        invariant NoneBefore(g, IsEmpty, Cell(row, 0)) && (row == tiles.Length0 ==> forall x :: x in g ==> !IsEmpty(g[x]))
      {
        for col := 0 to tiles.Length1
          invariant NoneBefore(g, IsEmpty, Cell(row, col))
        {
          assert g[Cell(row, col)] == tiles[row, col];
          if IsEmptySpace(row, col) {
            return Cell(row, col);
          }
          NextColumn(g, IsEmpty, row, col);
        }
        NextRow(g, IsEmpty, row, tiles.Length0, tiles.Length1);
      }
      return NOWHERE;
    }

    /** findPlayer */
    method FindPlayer(id: char) returns (pos: Cell)
      ensures FirstWith(Cells(), c => c == id, pos)
    {
      ghost var g, same := Cells(), c => c == id;
      for row := 0 to tiles.Length0
        invariant NoneBefore(g, same, Cell(row, 0)) && (row == tiles.Length0 ==> forall x :: x in g ==> !same(g[x]))
      {
        for col := 0 to tiles.Length1
          invariant NoneBefore(g, same, Cell(row, col))
        {
          assert g[Cell(row, col)] == tiles[row, col];
          if tiles[row, col] == id {
            return Cell(row, col);
          }
          NextColumn(g, same, row, col);
        }
        NextRow(g, same, row, tiles.Length0, tiles.Length1);
      }
      return NOWHERE;
    }

    /** isConnected: exactly if there is an empty cell and all empty cells are joined. */
    method IsConnected() returns (ok: bool)
      ensures ok <==> Connected(EmptyCells(Cells()))
    {
      ghost var cells := EmptyCells(Cells());
      var visited := new bool[tiles.Length0, tiles.Length1]((_, _) => false);
      var start := FindFirstEmptySpace();
      if start == NOWHERE {
        return false;
      }
      visited[start.row, start.col] := true;
      assert Seen(visited) == {start};
      Dfs(start.row, start.col, visited);
      JoinedSelf(cells, start);
      ClosedIsAll(cells, Seen(visited), start);
      ok := AllVisited(visited);
    }

    /** The scan at the end of isConnected. */
    method AllVisited(visited: array2<bool>) returns (ok: bool)
      requires visited.Length0 == tiles.Length0 && visited.Length1 == tiles.Length1
      requires Seen(visited) <= EmptyCells(Cells())
      ensures ok <==> Seen(visited) == EmptyCells(Cells())
    {
      for row := 0 to tiles.Length0
        invariant forall x :: x in EmptyCells(Cells()) && x.row < row ==> x in Seen(visited)
      {
        for col := 0 to tiles.Length1
          invariant forall x :: x in EmptyCells(Cells()) && Before(x, Cell(row, col)) ==> x in Seen(visited)
        {
          if IsEmptySpace(row, col) && !visited[row, col] {
            assert Cell(row, col) !in Seen(visited);
            return false;
          }
        }
      }
      return true;
    }

    /** Where a move starts: the player's cell, or the first empty one. */
    method Locate(id: char) returns (pos: Cell)
      ensures Located(Cells(), id, pos)
    {
      pos := FindPlayer(id);
      if pos == NOWHERE {
        pos := FindFirstEmptySpace();
      }
    }

    /** movePlayer, without saving and printing the map. */
    method MovePlayer(id: char, direction: string) returns (ok: bool)
      modifies tiles
      ensures MoveResult(old(Cells()), id, direction, ok, Cells())
    {
      ghost var g := Cells();
      var pos := Locate(id);
      if pos == NOWHERE {
        return false;
      }
      var known, next := FindTarget(pos, direction);
      if !known {
        return false;
      }
      if !Inside(next.row, next.col) {
        return false;
      }
      if !IsEmptySpace(next.row, next.col) || '0' <= tiles[next.row, next.col] <= '9' {
        return false;
      }
      tiles[pos.row, pos.col] := '.';
      tiles[next.row, next.col] := id;
      assert Cells() == g[pos := '.'][next := id];
      return true;
    }
  }
}
