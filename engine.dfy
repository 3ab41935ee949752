/**
 * The pipe-puzzle engine: a square map of cells, the start cell, the
 * player's rotate and lock actions, map generation and the connectivity
 * evaluation that marks every cell reachable from the start cell.
 */
module PipeEngine {
  import opened Common
  import opened Cells
  import opened Connectivity
  import opened Oracle

  class Engine {
    const Rows: int
    const Columns: int
    var Map: array2<Cell>
    var StartCell: Pos

    /**
     * The map is allocated [Rows, Columns], but the traversal and the
     * generator bound the first index by Columns and the second by Rows;
     * both agree only on a square map, the size the application uses.
     */
    ghost predicate Valid()
      reads this
    {
      1 <= Rows && Rows == Columns &&
      Map.Length0 == Rows && Map.Length1 == Columns &&
      0 <= StartCell.i < Columns && 0 <= StartCell.j < Rows
    }

    predicate InRange(i: int, j: int)
    {
      0 <= i < Rows && 0 <= j < Columns
    }

    /** The current map as a value. */
    ghost function Layout(): (g: Grid)
      reads this, Map
      requires Valid()
      ensures |g| == Rows && forall i :: 0 <= i < Rows ==> |g[i]| == Columns
      ensures forall i, j :: InRange(i, j) ==> g[i][j] == Map[i, j]
    {
      var m := Map;
      seq(Rows, i requires 0 <= i < Rows reads m =>
        seq(Columns, j requires 0 <= j < Columns reads m => m[i, j]))
    }

    /** The outcome ResetConnections promises: connected exactly when reachable from the start cell. */
    ghost predicate ConnectedIsReachable()
      reads this, Map
      requires Valid()
    {
      MarksReachable(Layout(), StartCell)
    }

    /** Every connected cell is reachable from the start cell in `g`. */
    ghost predicate Sound(g: Grid)
      reads this, Map
      requires Valid()
    {
      forall i, j :: InRange(i, j) && Map[i, j].connected ==> Reachable(g, StartCell, Pos(i, j))
    }

    /** The connector flags of the map are those of `g`. */
    ghost predicate FlagsOf(g: Grid)
      reads this, Map
      requires Valid()
    {
      |g| == Rows && (forall i :: 0 <= i < Rows ==> |g[i]| == Columns) &&
      forall i, j :: InRange(i, j) ==> SameFlags(Map[i, j], g[i][j])
    }

    /** Every edge of `g` out of `p` leads to a connected cell. */
    ghost predicate ClosedAt(g: Grid, p: Pos)
      reads this, Map
      requires Valid()
    {
      forall d :: CoveredSide(g, p, d)
    }

    /** The edge of `g` out of `p` toward `d`, if there is one, leads to a connected cell. */
    ghost predicate CoveredSide(g: Grid, p: Pos, d: Direction)
      reads this, Map
      requires Valid()
    {
      Edge(g, p, d) ==>
        var q := Step(p, d);
        InRange(q.i, q.j) && Map[q.i, q.j].connected
    }

    /** The cells not yet connected; the traversal's measure of progress. */
    ghost function Unconnected(): set<Pos>
      reads this, Map
      requires Valid()
    {
      set i, j | 0 <= i < Rows && 0 <= j < Columns && !Map[i, j].connected :: Pos(i, j)
    }

    /**
     * Marking more cells connected, and changing nothing else, shrinks the
     * set of unconnected cells and keeps every cell whose edges were covered covered.
     */
    twostate lemma MarksGrow(g: Grid)
      requires old(Valid()) && unchanged(this)
      requires forall x, y :: InRange(x, y) && old(Map[x, y].connected) ==> Map[x, y].connected
      ensures Valid() && Unconnected() <= old(Unconnected())
      ensures forall p, d :: old(CoveredSide(g, p, d)) ==> CoveredSide(g, p, d)
      ensures forall x, y :: InRange(x, y) && old(ClosedAt(g, Pos(x, y))) ==> ClosedAt(g, Pos(x, y))
    {
      forall q | q in Unconnected()
        ensures q in old(Unconnected())
      {
      }
      forall x, y | InRange(x, y) && old(ClosedAt(g, Pos(x, y)))
        ensures ClosedAt(g, Pos(x, y))
      {
        forall d
          ensures CoveredSide(g, Pos(x, y), d)
        {
          assert old(CoveredSide(g, Pos(x, y), d));
        }
      }
    }

    /** The win condition: every cell of the map is connected. */
    ghost predicate AllConnected()
      reads this, Map
      requires Valid()
    {
      forall i, j :: InRange(i, j) ==> Map[i, j].connected
    }

    /** A fresh engine; the map holds empty cells until the first Restart. */
    constructor (rows: int, columns: int)
      requires 1 <= rows && rows == columns
      ensures Valid() && Rows == rows && Columns == columns && StartCell == Pos(0, 0)
      ensures fresh(Map)
      ensures forall i, j :: InRange(i, j) ==> Map[i, j] == CreateEmptyCell(false)
    {
      Rows, Columns := rows, columns;
      Map := new Cell[rows, columns]((i, j) => CreateEmptyCell(false));
      StartCell := Pos(0, 0);
    }

    /** Turn cell (i, j) a quarter counter-clockwise; nothing else changes. */
    method RotateCellCCW(i: int, j: int)
      requires Valid() && InRange(i, j)
      modifies Map
      ensures Map[i, j] == RotateCCW(old(Map[i, j]))
      ensures forall x, y :: InRange(x, y) && (x != i || y != j) ==> Map[x, y] == old(Map[x, y])
    {
      var cell := Map[i, j];
      var temp := cell.left;
      cell := cell.(left := cell.up);
      cell := cell.(up := cell.right);
      cell := cell.(right := cell.down);
      cell := cell.(down := temp);
      Map[i, j] := cell;
    }

    /** Turn cell (i, j) a quarter clockwise; nothing else changes. */
    method RotateCellCW(i: int, j: int)
      requires Valid() && InRange(i, j)
      modifies Map
      ensures Map[i, j] == RotateCW(old(Map[i, j]))
      ensures forall x, y :: InRange(x, y) && (x != i || y != j) ==> Map[x, y] == old(Map[x, y])
    {
      var cell := Map[i, j];
      var temp := cell.left;
      cell := cell.(left := cell.down);
      cell := cell.(down := cell.right);
      cell := cell.(right := cell.up);
      cell := cell.(up := temp);
      Map[i, j] := cell;
    }

    /** Flip the lock of cell (i, j); nothing else changes. */
    method ToggleLock(i: int, j: int)
      requires Valid() && InRange(i, j)
      modifies Map
      ensures Map[i, j] == ToggleLocked(old(Map[i, j]))
      ensures forall x, y :: InRange(x, y) && (x != i || y != j) ==> Map[x, y] == old(Map[x, y])
    {
      Map[i, j] := Map[i, j].(locked := !Map[i, j].locked);
    }

    /** Engine.CheckSolution: true exactly when every cell is connected; nothing changes. */
    method CheckSolution() returns (solved: bool)
      requires Valid()
      ensures solved <==> AllConnected()
    {
      for i := 0 to Columns
        invariant forall x, y :: InRange(x, y) && x < i ==> Map[x, y].connected
      {
        for j := 0 to Rows
          invariant forall x, y :: InRange(x, y) && (x < i || (x == i && y < j)) ==> Map[x, y].connected
        {
          if !Map[i, j].connected {
            return false;
          }
        }
      }
      return true;
    }

    /** Engine.CreateRandomCell: each connector flag is a coin flip; the cell is neither connected nor locked. */
    static method CreateRandomCell(rng: Random) returns (c: Cell)
      modifies rng
      ensures !c.connected && !c.locked
    {
      var up := rng.Next(0, 2);
      var down := rng.Next(0, 2);
      var left := rng.Next(0, 2);
      var right := rng.Next(0, 2);
      c := Cell(up == 1, down == 1, left == 1, right == 1, false, false);
    }

    /**
     * Engine.InitMap: a fresh map of new cells, random ones when `randomize`
     * holds and empty ones otherwise; no cell is connected or locked.
     */
    method InitMap(randomize: bool, rng: Random)
      requires Valid()
      modifies this, rng
      ensures Valid() && fresh(Map) && StartCell == old(StartCell)
      ensures forall x, y :: InRange(x, y) ==> !Map[x, y].connected && !Map[x, y].locked
      ensures !randomize ==> forall x, y :: InRange(x, y) ==> Map[x, y] == CreateEmptyCell(false)
    {
      Map := new Cell[Rows, Columns]((x, y) => CreateEmptyCell(false));
      for i := 0 to Rows
        invariant Valid() && fresh(Map) && StartCell == old(StartCell)
        invariant forall x, y :: InRange(x, y) ==> !Map[x, y].connected && !Map[x, y].locked
        invariant !randomize ==> forall x, y :: InRange(x, y) ==> Map[x, y] == CreateEmptyCell(false)
      {
        for j := 0 to Columns
          invariant Valid() && fresh(Map) && StartCell == old(StartCell)
          invariant forall x, y :: InRange(x, y) ==> !Map[x, y].connected && !Map[x, y].locked
          invariant !randomize ==> forall x, y :: InRange(x, y) ==> Map[x, y] == CreateEmptyCell(false)
        {
          var cell := CreateEmptyCell(false);
          if randomize {
            cell := CreateRandomCell(rng);
          }
          Map[i, j] := cell;
        }
      }
    }

    /** Engine.CreateGameMatrix: a fresh rows x columns matrix of indices into CellTypes. */
    static method CreateGameMatrix(rows: nat, columns: nat, rng: Random) returns (matrix: array2<int>)
      modifies rng
      ensures fresh(matrix) && matrix.Length0 == rows && matrix.Length1 == columns
      ensures forall x, y :: 0 <= x < rows && 0 <= y < columns ==> 0 <= matrix[x, y] < |CellTypes|
    {
      matrix := new int[rows, columns]((x, y) => 0);
      for i := 0 to rows
        invariant forall x, y :: 0 <= x < rows && 0 <= y < columns ==> 0 <= matrix[x, y] < |CellTypes|
      {
        for j := 0 to columns
          invariant forall x, y :: 0 <= x < rows && 0 <= y < columns ==> 0 <= matrix[x, y] < |CellTypes|
        {
          matrix[i, j] := rng.Next(0, |CellTypes|);
        }
      }
    }

    /**
     * Engine.GenerateMap: for i below Columns and j below Rows, OR the flags of
     * cell type mapData[i, j] into Map[j, i], then turn that cell a random
     * number (0 to 3) of quarter turns counter-clockwise.
     */
    method GenerateMap(mapData: array2<int>, rng: Random)
      requires Valid() && mapData.Length0 == Rows && mapData.Length1 == Columns
      requires forall x, y :: 0 <= x < Rows && 0 <= y < Columns ==> 0 <= mapData[x, y] < |CellTypes|
      modifies Map, rng
      ensures forall x, y :: 0 <= x < Columns && 0 <= y < Rows ==>
        Generated(old(Map[y, x]), Map[y, x], CellTypes[mapData[x, y]])
      ensures forall x, y :: InRange(x, y) ==> Map[x, y].locked == old(Map[x, y].locked)
    {
      for i := 0 to Columns
        invariant forall x, y :: 0 <= x < Columns && 0 <= y < Rows && x >= i ==> Map[y, x] == old(Map[y, x])
        invariant forall x, y :: 0 <= x < Columns && 0 <= y < Rows && x < i ==>
          Generated(old(Map[y, x]), Map[y, x], CellTypes[mapData[x, y]])
      {
        for j := 0 to Rows
          invariant forall x, y :: 0 <= x < Columns && 0 <= y < Rows && (x > i || (x == i && y >= j)) ==> Map[y, x] == old(Map[y, x])
          invariant forall x, y :: 0 <= x < Columns && 0 <= y < Rows && (x < i || (x == i && y < j)) ==>
            Generated(old(Map[y, x]), Map[y, x], CellTypes[mapData[x, y]])
        {
          var cellType := CellTypes[mapData[i, j]];
          Map[j, i] := AddDirections(Map[j, i], cellType);
          var rand := rng.Next(0, 4);
          RotateTimesCCW(j, i, rand);
          assert Generated(old(Map[j, i]), Map[j, i], CellTypes[mapData[i, j]]);
        }
      }
      forall x, y | InRange(x, y)
        ensures Map[x, y].locked == old(Map[x, y].locked)
      {
        GeneratedKeepsFlags(old(Map[x, y]), Map[x, y], CellTypes[mapData[y, x]]);
      }
    }

    /** The `while (rand-- > 0)` loop of GenerateMap: `turns` quarter turns counter-clockwise of cell (i, j). */
    method RotateTimesCCW(i: int, j: int, turns: nat)
      requires Valid() && InRange(i, j)
      modifies Map
      ensures Map[i, j] == TurnsCCW(old(Map[i, j]), turns)
      ensures forall x, y :: InRange(x, y) && (x != i || y != j) ==> Map[x, y] == old(Map[x, y])
    {
      var rand := turns;
      while rand > 0
        invariant 0 <= rand <= turns
        invariant Map[i, j] == TurnsCCW(old(Map[i, j]), turns - rand)
        invariant forall x, y :: InRange(x, y) && (x != i || y != j) ==> Map[x, y] == old(Map[x, y])
      {
        rand := rand - 1;
        RotateCellCCW(i, j);
      }
    }

    /**
     * Engine.Restart: draw a start cell, build a fresh random map, OR random
     * cell types into it with random turns, and evaluate connectivity.
     */
    method Restart(rng: Random)
      requires Valid()
      modifies this, rng
      ensures Valid() && fresh(Map)
      ensures forall x, y :: InRange(x, y) ==> !Map[x, y].locked
      ensures ConnectedIsReachable() && Map[StartCell.i, StartCell.j].connected
    {
      var i := rng.Next(0, Columns);
      var j := rng.Next(0, Rows);
      StartCell := Pos(i, j);
      InitMap(true, rng);
      var mapData := CreateGameMatrix(Rows, Columns, rng);
      GenerateMap(mapData, rng);
      ResetConnections();
    }

    /**
     * Clear every `connected` mark, then mark exactly the cells reachable from
     * the start cell. Only the `connected` marks change.
     */
    method ResetConnections()
      requires Valid()
      modifies Map
      ensures forall x, y :: InRange(x, y) ==> SameButMark(Map[x, y], old(Map[x, y]))
      ensures ConnectedIsReachable() && Map[StartCell.i, StartCell.j].connected
    {
      ClearConnections();
      ghost var g := Layout();
      Connect(StartCell.i, StartCell.j, Any, g);
      MarksAreReachable(g);
    }

    /**
     * When the marks are sound for `g`, closed under the edges of `g` and hold
     * the start cell, they are exactly the cells reachable from the start cell.
     */
    lemma MarksAreReachable(g: Grid)
      requires Valid() && FlagsOf(g) && Sound(g)
      requires Map[StartCell.i, StartCell.j].connected
      requires forall x, y :: InRange(x, y) && Map[x, y].connected ==> ClosedAt(g, Pos(x, y))
      ensures ConnectedIsReachable()
    {
      var h := Layout();
      MarksClosed(g);
      forall p | InGrid(h, p)
        ensures At(h, p).connected <==> Reachable(h, StartCell, p)
      {
        ReachableFlagsOnly(g, h, StartCell, p);
        if Reachable(h, StartCell, p) {
          ClosedHoldsReachable(h, StartCell, p);
        }
      }
    }

    /** Marks closed under the edges of `g` are closed under the edges of the current map, which has the same flags. */
    lemma MarksClosed(g: Grid)
      requires Valid() && FlagsOf(g)
      requires forall x, y :: InRange(x, y) && Map[x, y].connected ==> ClosedAt(g, Pos(x, y))
      ensures Closed(Layout())
    {
      var h := Layout();
      forall p, d | Edge(h, p, d) && At(h, p).connected
        ensures At(h, Step(p, d)).connected
      {
        assert Edge(g, p, d);
        assert ClosedAt(g, p);
        assert CoveredSide(g, p, d);
      }
    }

    /** The first half of ResetConnections: every `connected` mark becomes false. */
    method ClearConnections()
      requires Valid()
      modifies Map
      ensures forall x, y :: InRange(x, y) ==> Map[x, y] == old(Map[x, y]).(connected := false)
    {
      for i := 0 to Rows
        invariant forall x, y :: InRange(x, y) ==>
          Map[x, y] == old(Map[x, y]).(connected := if x < i then false else old(Map[x, y].connected))
      {
        for j := 0 to Columns
          invariant forall x, y :: InRange(x, y) ==>
            Map[x, y] == old(Map[x, y]).(connected := if x < i || (x == i && y < j) then false else old(Map[x, y].connected))
        {
          Map[i, j] := Map[i, j].(connected := false);
        }
      }
    }

    /**
     * Engine.Connect: cross into (i, j) when it is not yet connected and has
     * its flag toward `direction` (the side the traversal came from), mark it
     * and continue through each of its own flags that points into the map.
     * `g` is the map before the traversal; only `connected` marks change,
     * every cell marked is reachable in `g`, and every cell this call marks
     * has all its edges leading to marked cells.
     */
    method Connect(i: int, j: int, direction: Direction, ghost g: Grid)
      requires Valid() && InRange(i, j)
      requires FlagsOf(g) && Sound(g)
      requires direction == Any ==> Pos(i, j) == StartCell
      requires direction != Any ==>
        var from := Step(Pos(i, j), direction);
        InGrid(g, from) && Reachable(g, StartCell, from) && ResolveDirection(At(g, from), Opposite(direction))
      modifies Map
      ensures forall x, y :: InRange(x, y) ==> SameButMark(Map[x, y], old(Map[x, y]))
      ensures forall x, y :: InRange(x, y) && old(Map[x, y].connected) ==> Map[x, y].connected
      ensures FlagsOf(g) && Sound(g)
      ensures ResolveDirection(old(Map[i, j]), direction) ==> Map[i, j].connected
      ensures forall x, y :: InRange(x, y) && Map[x, y].connected && !old(Map[x, y].connected) ==> ClosedAt(g, Pos(x, y))
      decreases Unconnected(), 2
    {
      var cell := Map[i, j];
      if !cell.connected && ResolveDirection(cell, direction) {
        Mark(i, j, direction, g);
        ConnectSides(i, j, g);
      }
    }

    /** The marking step of Engine.Connect: cell (i, j), entered from `direction`, becomes connected. */
    method Mark(i: int, j: int, direction: Direction, ghost g: Grid)
      requires Valid() && InRange(i, j)
      requires FlagsOf(g) && Sound(g) && !Map[i, j].connected
      requires direction == Any ==> Pos(i, j) == StartCell
      requires direction != Any ==>
        var from := Step(Pos(i, j), direction);
        InGrid(g, from) && Reachable(g, StartCell, from) && ResolveDirection(At(g, from), Opposite(direction))
      requires ResolveDirection(Map[i, j], direction)
      modifies Map
      ensures Map[i, j] == old(Map[i, j]).(connected := true)
      ensures forall x, y :: InRange(x, y) && Pos(x, y) != Pos(i, j) ==> Map[x, y] == old(Map[x, y])
      ensures FlagsOf(g) && Sound(g)
      ensures Unconnected() + {Pos(i, j)} <= old(Unconnected())
    {
      Map[i, j] := Map[i, j].(connected := true);
      if direction == Any {
        ReachableStart(g, StartCell);
      } else {
        var from := Step(Pos(i, j), direction);
        StepOpposite(Pos(i, j), direction);
        assert SameFlags(Map[i, j], At(g, Pos(i, j)));
        SameFlagsResolve(Map[i, j], At(g, Pos(i, j)), direction);
        ReachableStep(g, StartCell, from, Opposite(direction));
      }
    }

    /**
     * The four guarded continuations of Engine.Connect out of the marked cell
     * (i, j), in the source's order Left, Right, Up, Down; afterwards every
     * edge out of (i, j) leads to a marked cell.
     */
    method ConnectSides(i: int, j: int, ghost g: Grid)
      requires Valid() && InRange(i, j)
      requires FlagsOf(g) && Sound(g) && Map[i, j].connected
      modifies Map
      ensures forall x, y :: InRange(x, y) ==> SameButMark(Map[x, y], old(Map[x, y]))
      ensures forall x, y :: InRange(x, y) && old(Map[x, y].connected) ==> Map[x, y].connected
      ensures FlagsOf(g) && Sound(g) && ClosedAt(g, Pos(i, j))
      ensures forall x, y :: InRange(x, y) && Map[x, y].connected && !old(Map[x, y].connected) ==> ClosedAt(g, Pos(x, y))
      decreases Unconnected() + {Pos(i, j)}, 1
    {
      for k := 0 to 4
        invariant forall x, y :: InRange(x, y) ==> SameButMark(Map[x, y], old(Map[x, y]))
        invariant forall x, y :: InRange(x, y) && old(Map[x, y].connected) ==> Map[x, y].connected
        invariant FlagsOf(g) && Sound(g)
        invariant Unconnected() <= old(Unconnected())
        invariant forall x, y :: InRange(x, y) && Map[x, y].connected && !old(Map[x, y].connected) ==> ClosedAt(g, Pos(x, y))
        invariant forall d :: d != Any && SideIndex(d) < k ==> CoveredSide(g, Pos(i, j), d)
      {
        label before:
        ConnectSide(i, j, Side(k), g);
        MarksGrow@before(g);
      }
      assert ClosedAt(g, Pos(i, j)) by {
        forall d
          ensures CoveredSide(g, Pos(i, j), d)
        {
        }
      }
    }

    /**
     * One guarded continuation of Engine.Connect out of the marked cell (i, j):
     * when the cell has its flag toward `side` and the neighbour there lies in
     * the map, connect the neighbour, entered from the opposite side.
     */
    method ConnectSide(i: int, j: int, side: Direction, ghost g: Grid)
      requires Valid() && InRange(i, j) && side != Any
      requires FlagsOf(g) && Sound(g) && Map[i, j].connected
      modifies Map
      ensures forall x, y :: InRange(x, y) ==> SameButMark(Map[x, y], old(Map[x, y]))
      ensures forall x, y :: InRange(x, y) && old(Map[x, y].connected) ==> Map[x, y].connected
      ensures FlagsOf(g) && Sound(g)
      ensures CoveredSide(g, Pos(i, j), side)
      ensures forall x, y :: InRange(x, y) && Map[x, y].connected && !old(Map[x, y].connected) ==> ClosedAt(g, Pos(x, y))
      decreases Unconnected() + {Pos(i, j)}, 0
    {
      var cell := Map[i, j];
      var next := Step(Pos(i, j), side);
      assert SameFlags(cell, At(g, Pos(i, j)));
      SameFlagsResolve(cell, At(g, Pos(i, j)), side);
      if ResolveDirection(cell, side) && InRange(next.i, next.j) {
        StepOpposite(Pos(i, j), side);
        assert SameFlags(Map[next.i, next.j], At(g, next));
        SameFlagsResolve(Map[next.i, next.j], At(g, next), Opposite(side));
        Connect(next.i, next.j, Opposite(side), g);
      }
    }
  }
}
