/**
 * One cell of the pipe puzzle: four connector flags, the transient
 * `connected` mark and the player's `locked` mark, with the quarter-turn
 * rotations and the fixed table of cell types the engine draws from.
 */
module Cells {
  import opened Common

  /** Engine.Direction: `Any` is used only for the start of a traversal. */
  datatype Direction = Any | Left | Right | Up | Down

  datatype Cell = Cell(up: bool, down: bool, left: bool, right: bool, connected: bool, locked: bool)

  /**
   * Engine.CreateEmptyCell: a new cell with no connector flag set, unlocked,
   * and connected as asked.
   */
  function CreateEmptyCell(connected: bool): (c: Cell)
    ensures FlagCount(c) == 0 && forall d :: d != Any ==> !ResolveDirection(c, d)
    ensures c.connected == connected && !c.locked
  {
    Cell(false, false, false, false, connected, false)
  }

  /**
   * Engine.ResolveDirection: whether the cell has its connector flag toward
   * `d` set. `Any` accepts every cell; a side accepts only a cell with some
   * flag set.
   */
  function ResolveDirection(c: Cell, d: Direction): (r: bool)
    ensures d == Any ==> r
    ensures d != Any && r ==> FlagCount(c) > 0
  {
    match d
    case Any => true
    case Left => c.left
    case Right => c.right
    case Up => c.up
    case Down => c.down
  }

  /** The direction that faces back toward a cell from its neighbour in direction `d`. */
  function Opposite(d: Direction): (r: Direction)
    ensures (d == Any) == (r == Any)
    ensures d != Any ==> r != d
  {
    match d
    case Any => Any
    case Left => Right
    case Right => Left
    case Up => Down
    case Down => Up
  }

  /** The neighbouring coordinate in direction `d`: Left/Right move `i`, Up/Down move `j`. */
  function Step(p: Pos, d: Direction): Pos
  {
    match d
    case Any => p
    case Left => Pos(p.i - 1, p.j)
    case Right => Pos(p.i + 1, p.j)
    case Up => Pos(p.i, p.j - 1)
    case Down => Pos(p.i, p.j + 1)
  }

  /** The position of a side in the order Left, Right, Up, Down in which Engine.Connect visits them. */
  function SideIndex(d: Direction): nat
  {
    match d
    case Any => 4
    case Left => 0
    case Right => 1
    case Up => 2
    case Down => 3
  }

  /** The side visited `k`-th; the inverse of SideIndex. */
  function Side(k: int): (d: Direction)
    requires 0 <= k < 4
    ensures d != Any && SideIndex(d) == k
    ensures forall e :: e != Any && SideIndex(e) == k ==> e == d
  {
    if k == 0 then Left else if k == 1 then Right else if k == 2 then Up else Down
  }

  lemma StepOpposite(p: Pos, d: Direction)
    ensures Step(Step(p, d), Opposite(d)) == p
    ensures Opposite(Opposite(d)) == d
  {
  }

  /** Number of connector flags set. */
  function FlagCount(c: Cell): nat
  {
    (if c.up then 1 else 0) + (if c.down then 1 else 0) +
    (if c.left then 1 else 0) + (if c.right then 1 else 0)
  }

  /** The four connector flags of `a` and `b` agree (connected and locked may differ). */
  predicate SameFlags(a: Cell, b: Cell)
  {
    a.up == b.up && a.down == b.down && a.left == b.left && a.right == b.right
  }

  /** `a` and `b` differ at most in the `connected` mark. */
  predicate SameButMark(a: Cell, b: Cell)
  {
    SameFlags(a, b) && a.locked == b.locked
  }

  /** Engine.ToggleLock on one cell: only the lock flips. */
  function ToggleLocked(c: Cell): (r: Cell)
    ensures r.locked != c.locked
    ensures SameFlags(r, c) && r.connected == c.connected
  {
    c.(locked := !c.locked)
  }

  /** Toggling the lock twice restores the cell. */
  lemma ToggleTwice(c: Cell)
    ensures ToggleLocked(ToggleLocked(c)) == c
  {
  }

  /** Where a connector pointing toward `d` points after one counter-clockwise quarter turn. */
  function TurnedCCW(d: Direction): Direction
  {
    match d
    case Any => Any
    case Up => Left
    case Left => Down
    case Down => Right
    case Right => Up
  }

  /**
   * Engine.RotateCellCCW on one cell's flags: Left takes Up, Up takes Right,
   * Right takes Down and Down takes the old Left.
   */
  function RotateCCW(c: Cell): (r: Cell)
    ensures FlagCount(r) == FlagCount(c)
    ensures r.connected == c.connected && r.locked == c.locked
    ensures forall d :: ResolveDirection(r, TurnedCCW(d)) == ResolveDirection(c, d)
  {
    c.(left := c.up, up := c.right, right := c.down, down := c.left)
  }

  /**
   * Engine.RotateCellCW on one cell's flags: Left takes Down, Down takes Right,
   * Right takes Up and Up takes the old Left.
   */
  function RotateCW(c: Cell): (r: Cell)
    ensures FlagCount(r) == FlagCount(c)
    ensures r.connected == c.connected && r.locked == c.locked
    ensures forall d :: ResolveDirection(r, d) == ResolveDirection(c, TurnedCCW(d))
  {
    c.(left := c.down, down := c.right, right := c.up, up := c.left)
  }

  /** A clockwise turn undoes a counter-clockwise one and the other way round. */
  lemma RotationsInverse(c: Cell)
    ensures RotateCW(RotateCCW(c)) == c
    ensures RotateCCW(RotateCW(c)) == c
  {
  }

  /** `k` successive counter-clockwise quarter turns. */
  function TurnsCCW(c: Cell, k: nat): Cell
  {
    if k == 0 then c else RotateCCW(TurnsCCW(c, k - 1))
  }

  /** `k` successive clockwise quarter turns. */
  function TurnsCW(c: Cell, k: nat): Cell
  {
    if k == 0 then c else RotateCW(TurnsCW(c, k - 1))
  }

  /** The rotations form a group of order four. */
  lemma FourTurnsIdentity(c: Cell)
    ensures TurnsCCW(c, 4) == c
    ensures TurnsCW(c, 4) == c
  {
    assert TurnsCCW(c, 1) == RotateCCW(TurnsCCW(c, 0));
    assert TurnsCCW(c, 2) == RotateCCW(RotateCCW(c));
    assert TurnsCCW(c, 4) == RotateCCW(RotateCCW(TurnsCCW(c, 2)));
    assert TurnsCW(c, 1) == RotateCW(TurnsCW(c, 0));
    assert TurnsCW(c, 2) == RotateCW(RotateCW(c));
    assert TurnsCW(c, 4) == RotateCW(RotateCW(TurnsCW(c, 2)));
  }

  /** Any number of turns keeps the number of set connectors, `connected` and `locked`. */
  lemma {:induction false} TurnsKeepCount(c: Cell, k: nat)
    ensures FlagCount(TurnsCCW(c, k)) == FlagCount(c)
    ensures TurnsCCW(c, k).connected == c.connected && TurnsCCW(c, k).locked == c.locked
  {
    if k > 0 {
      TurnsKeepCount(c, k - 1);
    }
  }

  /**
   * Engine.cellTypes: the connector sets a generated cell may receive. The
   * source spells the directions as the strings "up", "down", "left" and
   * "right"; here they are the matching `Direction` values.
   */
  const CellTypes: seq<seq<Direction>> := [
    [Up],
    [Up, Right],
    [Up, Down],
    [Up, Down, Right],
    [Up, Down, Left, Right],
    []
  ]

  /** One case of the switch in Engine.GenerateMap: set the named flag. */
  function AddDirection(c: Cell, direction: Direction): Cell
  {
    match direction
    case Up => c.(up := true)
    case Down => c.(down := true)
    case Left => c.(left := true)
    case Right => c.(right := true)
    case Any => c
  }

  /** The foreach over one cell type in Engine.GenerateMap: apply AddDirection to each name in order. */
  function AddDirections(c: Cell, directions: seq<Direction>): Cell
    decreases |directions|
  {
    if |directions| == 0 then c else AddDirections(AddDirection(c, directions[0]), directions[1..])
  }

  /** After the foreach, the flag toward `d` is set exactly when it was set before or `d` is named in the type. */
  lemma {:induction false} AddDirectionsSets(c: Cell, directions: seq<Direction>, d: Direction)
    requires d != Any
    ensures ResolveDirection(AddDirections(c, directions), d) == (ResolveDirection(c, d) || d in directions)
    ensures AddDirections(c, directions).connected == c.connected
    ensures AddDirections(c, directions).locked == c.locked
    decreases |directions|
  {
    if |directions| > 0 {
      AddDirectionsSets(AddDirection(c, directions[0]), directions[1..], d);
      assert d in directions <==> d == directions[0] || d in directions[1..];
    }
  }

  lemma SameFlagsResolve(a: Cell, b: Cell, d: Direction)
    requires SameFlags(a, b)
    ensures ResolveDirection(a, d) == ResolveDirection(b, d)
  {
  }

  /**
   * ResolveDirection reads exactly the four connector flags: two cells
   * resolve every direction alike exactly when their flags agree.
   */
  lemma ResolveExactlyFlags(a: Cell, b: Cell)
    ensures SameFlags(a, b) <==> forall d :: ResolveDirection(a, d) == ResolveDirection(b, d)
  {
    if forall d :: ResolveDirection(a, d) == ResolveDirection(b, d) {
      assert ResolveDirection(a, Up) == ResolveDirection(b, Up);
      assert ResolveDirection(a, Down) == ResolveDirection(b, Down);
      assert ResolveDirection(a, Left) == ResolveDirection(b, Left);
      assert ResolveDirection(a, Right) == ResolveDirection(b, Right);
    }
  }

  /**
   * Each entry of the cell-type table names distinct sides, so ORing it into
   * an empty cell sets exactly the named flags and as many flags as it names.
   */
  lemma CellTypeFlags(k: int)
    requires 0 <= k < |CellTypes|
    ensures forall d :: d != Any ==> (ResolveDirection(AddDirections(CreateEmptyCell(false), CellTypes[k]), d) <==> d in CellTypes[k])
    ensures FlagCount(AddDirections(CreateEmptyCell(false), CellTypes[k])) == |CellTypes[k]|
  {
    var c := CreateEmptyCell(false);
    var t := AddDirections(c, CellTypes[k]);
    AddDirectionsSets(c, CellTypes[k], Up);
    AddDirectionsSets(c, CellTypes[k], Down);
    AddDirectionsSets(c, CellTypes[k], Left);
    AddDirectionsSets(c, CellTypes[k], Right);
    forall d | d != Any
      ensures ResolveDirection(t, d) <==> d in CellTypes[k]
    {
      AddDirectionsSets(c, CellTypes[k], d);
    }
  }

  /**
   * One iteration of Engine.GenerateMap on a cell: OR in the flags named by
   * `cellType`, then some number below four of counter-clockwise quarter turns.
   */
  ghost predicate Generated(before: Cell, after: Cell, cellType: seq<Direction>)
  {
    exists k :: 0 <= k < 4 && after == TurnsCCW(AddDirections(before, cellType), k)
  }

  /**
   * Generation ORs flags in and then turns the cell, so it never lowers the
   * cell's number of set flags (a turn may clear one flag and set another);
   * it keeps the `connected` and `locked` marks.
   */
  lemma GeneratedKeepsFlags(before: Cell, after: Cell, cellType: seq<Direction>)
    requires Generated(before, after, cellType)
    ensures FlagCount(after) >= FlagCount(before)
    ensures after.connected == before.connected && after.locked == before.locked
  {
    var k :| 0 <= k < 4 && after == TurnsCCW(AddDirections(before, cellType), k);
    var typed := AddDirections(before, cellType);
    AddDirectionsSets(before, cellType, Up);
    AddDirectionsSets(before, cellType, Down);
    AddDirectionsSets(before, cellType, Left);
    AddDirectionsSets(before, cellType, Right);
    TurnsKeepCount(typed, k);
  }
}
