/**
 * GameCreator: a randomized frontier-growth maze generator over a grid of
 * cells coloured WHITE (not reached), GRAY (queued) and BLACK (settled).
 * Each generator cell is a mutable object whose links point at other cells;
 * here a cell is identified by its coordinate, the matrix of cell objects is
 * a map from coordinates to cell records, and a link is the coordinate of
 * the linked cell.
 */
module MazeGen {
  import opened Common
  import opened Oracle

  const WHITE := 0
  const GRAY := 1
  const BLACK := 2

  /** GameCreator.Neighbour: a side name and the neighbouring cell on that side. */
  datatype Neighbour = Neighbour(direction: string, cell: Pos)

  /** GameCreator.Cell: the four links, the colour and the neighbour list. */
  datatype GenCell = GenCell(up: Option<Pos>, down: Option<Pos>, left: Option<Pos>, right: Option<Pos>,
                             color: int, neighbours: seq<Neighbour>)

  /** A freshly constructed cell: no links, WHITE, no neighbours. */
  const NewCell := GenCell(None, None, None, None, WHITE, [])

  /** The generator's matrix: cell (i, j) of a rows x columns grid is at key Pos(i, j). */
  type Matrix = map<Pos, GenCell>

  predicate InBounds(rows: int, columns: int, p: Pos)
  {
    0 <= p.i < rows && 0 <= p.j < columns
  }

  /** The matrix holds exactly the cells of the rows x columns grid. */
  ghost predicate Shaped(m: Matrix, rows: int, columns: int)
  {
    forall p :: p in m <==> InBounds(rows, columns, p)
  }

  /** The four side names the generator uses. */
  predicate IsSide(direction: string)
  {
    direction == "up" || direction == "down" || direction == "left" || direction == "right"
  }

  /**
   * The coordinate a side name points to, as EmptyMatrix lays the grid out:
   * "up" decreases the second index, "left" decreases the first.
   */
  function Toward(p: Pos, direction: string): Pos
  {
    if direction == "up" then Pos(p.i, p.j - 1)
    else if direction == "down" then Pos(p.i, p.j + 1)
    else if direction == "left" then Pos(p.i - 1, p.j)
    else if direction == "right" then Pos(p.i + 1, p.j)
    else p
  }

  /** The link field a side name selects. */
  function LinkOf(c: GenCell, direction: string): Option<Pos>
  {
    if direction == "up" then c.up
    else if direction == "down" then c.down
    else if direction == "left" then c.left
    else if direction == "right" then c.right
    else None
  }

  /**
   * CellExtensions.GetOppositeDirection: up and down swap, left and right
   * swap; any other name is an error (the source throws).
   */
  function GetOppositeDirection(n: Neighbour): (r: Option<string>)
    ensures r.Some? <==> IsSide(n.direction)
    ensures r.Some? ==> IsSide(r.value) && r.value != n.direction
    ensures r.Some? ==> forall p :: Toward(Toward(p, n.direction), r.value) == p
  {
    match n.direction
    case "up" => Some("down")
    case "down" => Some("up")
    case "left" => Some("right")
    case "right" => Some("left")
    case _ => None
  }

  /** GetOppositeDirection is an involution on the four side names. */
  lemma OppositeInvolution(n: Neighbour, p: Pos)
    requires IsSide(n.direction)
    ensures GetOppositeDirection(Neighbour(GetOppositeDirection(n).value, p)) == Some(n.direction)
  {
  }

  /** CellExtensions.ConnectionCount: the number of links that are set. */
  function ConnectionCount(c: GenCell): (n: nat)
    ensures n <= 4
    ensures n == 0 <==> c.up.None? && c.down.None? && c.left.None? && c.right.None?
  {
    (if c.up.Some? then 1 else 0) + (if c.down.Some? then 1 else 0) +
    (if c.left.Some? then 1 else 0) + (if c.right.Some? then 1 else 0)
  }

  /** CellExtensions.HasConnections: some link is set. */
  function HasConnections(c: GenCell): (r: bool)
    ensures r <==> ConnectionCount(c) > 0
  {
    c.up.Some? || c.down.Some? || c.left.Some? || c.right.Some?
  }

  /**
   * CellExtensions.SetConnection: set the link named by `direction` to
   * `target`; any other name changes nothing.
   */
  function SetConnection(c: GenCell, direction: string, target: Pos): (r: GenCell)
    ensures r.color == c.color && r.neighbours == c.neighbours
    ensures forall s :: IsSide(s) ==> LinkOf(r, s) == if s == direction then Some(target) else LinkOf(c, s)
    ensures !IsSide(direction) ==> r == c
  {
    match direction
    case "up" => c.(up := Some(target))
    case "down" => c.(down := Some(target))
    case "left" => c.(left := Some(target))
    case "right" => c.(right := Some(target))
    case _ => c
  }

  /** Setting an unset link adds exactly one to the connection count. */
  lemma SetConnectionCount(c: GenCell, direction: string, target: Pos)
    requires IsSide(direction) && LinkOf(c, direction).None?
    ensures ConnectionCount(SetConnection(c, direction, target)) == ConnectionCount(c) + 1
  {
  }

  /** CellExtensions.HasBlackNeighbour: some listed neighbour is BLACK. */
  predicate HasBlackNeighbour(m: Matrix, c: GenCell)
  {
    exists n :: n in c.neighbours && n.cell in m && m[n.cell].color == BLACK
  }

  /**
   * On a matrix whose cells list their grid neighbours, HasBlackNeighbour
   * holds exactly when a grid cell one step away on some side is BLACK.
   */
  lemma BlackNeighbourAdjacent(m: Matrix, rows: int, columns: int, p: Pos)
    requires Shaped(m, rows, columns) && p in m && m[p].neighbours == ExpectedNeighbours(rows, columns, p)
    ensures HasBlackNeighbour(m, m[p]) <==>
      exists d :: IsSide(d) && Toward(p, d) in m && m[Toward(p, d)].color == BLACK
  {
    if HasBlackNeighbour(m, m[p]) {
      var n :| n in m[p].neighbours && n.cell in m && m[n.cell].color == BLACK;
      NeighboursAdjacent(rows, columns, p, n);
      assert IsSide(n.direction) && Toward(p, n.direction) in m;
    }
    if exists d :: IsSide(d) && Toward(p, d) in m && m[Toward(p, d)].color == BLACK {
      var d :| IsSide(d) && Toward(p, d) in m && m[Toward(p, d)].color == BLACK;
      NeighboursComplete(rows, columns, p, d);
      assert Neighbour(d, Toward(p, d)) in m[p].neighbours;
    }
  }

  /**
   * The neighbour list EmptyMatrix gives cell `p`, in the order it is built:
   * "up" and "left" when the cell is created, "down" when the cell below it
   * is created, "right" when the cell to its right is created.
   */
  function ExpectedNeighbours(rows: int, columns: int, p: Pos): seq<Neighbour>
  {
    (if p.j > 0 then [Neighbour("up", Pos(p.i, p.j - 1))] else []) +
    (if p.i > 0 then [Neighbour("left", Pos(p.i - 1, p.j))] else []) +
    (if p.j < columns - 1 then [Neighbour("down", Pos(p.i, p.j + 1))] else []) +
    (if p.i < rows - 1 then [Neighbour("right", Pos(p.i + 1, p.j))] else [])
  }

  /** Every listed neighbour lies in the grid, on the side its name says. */
  lemma NeighboursAdjacent(rows: int, columns: int, p: Pos, n: Neighbour)
    requires InBounds(rows, columns, p) && n in ExpectedNeighbours(rows, columns, p)
    ensures IsSide(n.direction) && n.cell == Toward(p, n.direction) && InBounds(rows, columns, n.cell)
  {
  }

  /** Every grid cell one step away on a side is listed under that side's name. */
  lemma NeighboursComplete(rows: int, columns: int, p: Pos, direction: string)
    requires InBounds(rows, columns, p) && IsSide(direction) && InBounds(rows, columns, Toward(p, direction))
    ensures Neighbour(direction, Toward(p, direction)) in ExpectedNeighbours(rows, columns, p)
  {
  }

  /** The lists are symmetric: if `p` lists `q` under a side, `q` lists `p` under the opposite side. */
  lemma NeighboursSymmetric(rows: int, columns: int, p: Pos, n: Neighbour)
    requires InBounds(rows, columns, p) && n in ExpectedNeighbours(rows, columns, p)
    ensures IsSide(n.direction)
    ensures Neighbour(GetOppositeDirection(n).value, p) in ExpectedNeighbours(rows, columns, n.cell)
  {
  }

  /** No two entries of the list name the same cell. */
  predicate DistinctCells(ns: seq<Neighbour>)
  {
    forall a, b :: 0 <= a < b < |ns| ==> ns[a].cell != ns[b].cell
  }

  /** No cell is listed twice. */
  lemma NeighboursDistinct(rows: int, columns: int, p: Pos)
    ensures DistinctCells(ExpectedNeighbours(rows, columns, p))
  {
  }

  /** Cells created before EmptyMatrix reaches (i, j), in its row-by-row order. */
  predicate Before(q: Pos, i: int, j: int)
  {
    q.i < i || (q.i == i && q.j < j)
  }

  /** The neighbour list of `p` once every cell before (i, j) has been created. */
  function PartialNeighbours(rows: int, columns: int, p: Pos, i: int, j: int): seq<Neighbour>
  {
    (if p.j > 0 then [Neighbour("up", Pos(p.i, p.j - 1))] else []) +
    (if p.i > 0 then [Neighbour("left", Pos(p.i - 1, p.j))] else []) +
    (if p.j < columns - 1 && Before(Pos(p.i, p.j + 1), i, j) then [Neighbour("down", Pos(p.i, p.j + 1))] else []) +
    (if p.i < rows - 1 && Before(Pos(p.i + 1, p.j), i, j) then [Neighbour("right", Pos(p.i + 1, p.j))] else [])
  }

  /** How creating cell (i, j) extends the neighbour lists of the cells created so far. */
  lemma PartialStep(rows: int, columns: int, q: Pos, i: int, j: int)
    requires 0 <= i < rows && 0 <= j < columns && InBounds(rows, columns, q)
    requires Before(q, i, j + 1)
    ensures q == Pos(i, j) ==> (PartialNeighbours(rows, columns, q, i, j + 1) ==
      (if j > 0 then [Neighbour("up", Pos(i, j - 1))] else []) + (if i > 0 then [Neighbour("left", Pos(i - 1, j))] else []))
    ensures q == Pos(i, j - 1) ==> (PartialNeighbours(rows, columns, q, i, j + 1) ==
      PartialNeighbours(rows, columns, q, i, j) + [Neighbour("down", Pos(i, j))])
    ensures q == Pos(i - 1, j) ==> (PartialNeighbours(rows, columns, q, i, j + 1) ==
      PartialNeighbours(rows, columns, q, i, j) + [Neighbour("right", Pos(i, j))])
    ensures q != Pos(i, j) && q != Pos(i, j - 1) && q != Pos(i - 1, j) ==>
      PartialNeighbours(rows, columns, q, i, j + 1) == PartialNeighbours(rows, columns, q, i, j)
  {
  }

  /** A finished row: creating up to the end of row i is the same as up to the start of row i + 1. */
  lemma PartialRowDone(rows: int, columns: int, q: Pos, i: int)
    requires InBounds(rows, columns, q)
    ensures PartialNeighbours(rows, columns, q, i, columns) == PartialNeighbours(rows, columns, q, i + 1, 0)
  {
  }

  /** Once every cell is created, each list is the full neighbour list. */
  lemma PartialAllDone(rows: int, columns: int, q: Pos)
    requires InBounds(rows, columns, q)
    ensures PartialNeighbours(rows, columns, q, rows, 0) == ExpectedNeighbours(rows, columns, q)
  {
  }

  /** EmptyMatrix's progress: exactly the cells before (i, j) exist, each with its partial neighbour list. */
  ghost predicate Built(m: Matrix, rows: int, columns: int, i: int, j: int)
  {
    (forall q :: q in m <==> InBounds(rows, columns, q) && Before(q, i, j)) &&
    forall q :: q in m ==> m[q] == NewCell.(neighbours := PartialNeighbours(rows, columns, q, i, j))
  }

  /** Creating cell (i, j) and appending the back-links to its upper and left neighbours keeps Built. */
  lemma BuiltStep(m0: Matrix, m: Matrix, rows: int, columns: int, i: int, j: int)
    requires 0 <= i < rows && 0 <= j < columns && Built(m0, rows, columns, i, j)
    requires m.Keys == m0.Keys + {Pos(i, j)}
    requires m[Pos(i, j)] == NewCell.(neighbours :=
      (if j > 0 then [Neighbour("up", Pos(i, j - 1))] else []) + (if i > 0 then [Neighbour("left", Pos(i - 1, j))] else []))
    requires j > 0 ==> m[Pos(i, j - 1)] == m0[Pos(i, j - 1)].(neighbours := m0[Pos(i, j - 1)].neighbours + [Neighbour("down", Pos(i, j))])
    requires i > 0 ==> m[Pos(i - 1, j)] == m0[Pos(i - 1, j)].(neighbours := m0[Pos(i - 1, j)].neighbours + [Neighbour("right", Pos(i, j))])
    requires forall q :: q in m0 && q != Pos(i, j - 1) && q != Pos(i - 1, j) ==> m[q] == m0[q]
    ensures Built(m, rows, columns, i, j + 1)
  {
    forall q
      ensures q in m <==> InBounds(rows, columns, q) && Before(q, i, j + 1)
    {
      assert Before(q, i, j + 1) <==> Before(q, i, j) || q == Pos(i, j);
    }
    forall q | q in m
      ensures m[q] == NewCell.(neighbours := PartialNeighbours(rows, columns, q, i, j + 1))
    {
      PartialStep(rows, columns, q, i, j);
    }
  }

  /**
   * One step of EmptyMatrix: create cell (i, j), listing its upper and left
   * neighbours, and list it as the lower neighbour of the one above it and
   * the right neighbour of the one to its left.
   */
  method CreateCell(m0: Matrix, rows: int, columns: int, i: int, j: int) returns (m: Matrix)
    requires 0 <= i < rows && 0 <= j < columns && Built(m0, rows, columns, i, j)
    ensures Built(m, rows, columns, i, j + 1)
  {
    m := m0;
    var here := Pos(i, j);
    var cell := NewCell;
    if j > 0 {
      var up := Pos(i, j - 1);
      cell := cell.(neighbours := cell.neighbours + [Neighbour("up", up)]);
      m := m[up := m[up].(neighbours := m[up].neighbours + [Neighbour("down", here)])];
    }
    if i > 0 {
      var left := Pos(i - 1, j);
      cell := cell.(neighbours := cell.neighbours + [Neighbour("left", left)]);
      m := m[left := m[left].(neighbours := m[left].neighbours + [Neighbour("right", here)])];
    }
    m := m[here := cell];
    BuiltStep(m0, m, rows, columns, i, j);
  }

  /**
   * GameCreator.EmptyMatrix: a rows x columns matrix of new WHITE cells
   * without links, each listing its grid neighbours.
   */
  method EmptyMatrix(rows: nat, columns: nat) returns (m: Matrix)
    ensures Shaped(m, rows, columns)
    ensures forall p :: p in m ==> m[p] == NewCell.(neighbours := ExpectedNeighbours(rows, columns, p))
  {
    m := map[];
    for i := 0 to rows
      invariant Built(m, rows, columns, i, 0)
    {
      for j := 0 to columns
        invariant Built(m, rows, columns, i, j)
      {
        m := CreateCell(m, rows, columns, i, j);
      }
      forall q | q in m
        ensures m[q] == NewCell.(neighbours := PartialNeighbours(rows, columns, q, i + 1, 0))
      {
        PartialRowDone(rows, columns, q, i);
      }
    }
    forall q | q in m
      ensures m[q] == NewCell.(neighbours := ExpectedNeighbours(rows, columns, q))
    {
      PartialAllDone(rows, columns, q);
    }
  }

  /** GameCreator.Random: an integer from min to max inclusive (min itself when max is min - 1). */
  method Random(rng: Random, min: int, max: int) returns (r: int)
    requires min <= max + 1
    modifies rng
    ensures min <= max ==> min <= r <= max
    ensures max < min ==> r == min
  {
    r := rng.Next(min, max + 1);
  }

  /** A WHITE cell next to a BLACK one: a candidate for island repair. */
  ghost predicate Island(m: Matrix, p: Pos)
  {
    p in m && m[p].color == WHITE && HasBlackNeighbour(m, m[p])
  }

  /**
   * GameCreator.PickFromIslands: collect, in row-by-row order, the WHITE
   * cells with a BLACK neighbour and pick one; None when there is none.
   */
  method PickFromIslands(m: Matrix, rows: nat, columns: nat, rng: Random) returns (r: Option<Pos>)
    requires Shaped(m, rows, columns)
    modifies rng
    ensures r.None? <==> forall p :: p in m ==> !Island(m, p)
    ensures r.Some? ==> Island(m, r.value)
  {
    var collection: seq<Pos> := [];
    for i := 0 to rows
      invariant forall q :: q in collection <==> InBounds(rows, columns, q) && Before(q, i, 0) && Island(m, q)
    {
      for j := 0 to columns
        invariant forall q :: q in collection <==> InBounds(rows, columns, q) && Before(q, i, j) && Island(m, q)
      {
        var cell := m[Pos(i, j)];
        if cell.color == WHITE && HasBlackNeighbour(m, cell) {
          collection := collection + [Pos(i, j)];
        }
      }
    }
    if |collection| > 0 {
      var k := Random(rng, 0, |collection| - 1);
      r := Some(collection[k]);
      assert collection[k] in collection;
    } else {
      r := None;
      forall p | p in m
        ensures !Island(m, p)
      {
        assert p !in collection;
      }
    }
  }

  /** GameCreator.ConvertMatrix: a fresh rows x columns array holding the matrix's cells. */
  method ConvertMatrix(m: Matrix, rows: nat, columns: nat) returns (result: array2<GenCell>)
    requires Shaped(m, rows, columns)
    ensures fresh(result) && result.Length0 == rows && result.Length1 == columns
    ensures forall i, j :: 0 <= i < rows && 0 <= j < columns ==> result[i, j] == m[Pos(i, j)]
  {
    result := new GenCell[rows, columns]((i, j) => NewCell);
    for i := 0 to rows
      invariant forall x, y :: 0 <= x < i && 0 <= y < columns ==> result[x, y] == m[Pos(x, y)]
    {
      for j := 0 to columns
        invariant forall x, y :: (0 <= x < i && 0 <= y < columns) || (x == i && 0 <= y < j) ==> result[x, y] == m[Pos(x, y)]
      {
        result[i, j] := m[Pos(i, j)];
      }
    }
  }

  /**
   * List.FindAll on a neighbour list: the entries satisfying `f`, in order.
   */
  function FindAll(ns: seq<Neighbour>, f: Neighbour -> bool): (r: seq<Neighbour>)
    ensures forall n :: n in r <==> n in ns && f(n)
    ensures |r| <= |ns|
  {
    if |ns| == 0 then []
    else
      var rest := FindAll(ns[1..], f);
      assert forall n :: n in ns[1..] ==> n in ns;
      if f(ns[0]) then [ns[0]] + rest else rest
  }

  /** Filtering a list of distinct cells leaves a list of distinct cells. */
  lemma {:induction false} FindAllDistinct(ns: seq<Neighbour>, f: Neighbour -> bool)
    requires DistinctCells(ns)
    ensures DistinctCells(FindAll(ns, f))
  {
    if |ns| > 0 {
      assert DistinctCells(ns[1..]);
      FindAllDistinct(ns[1..], f);
      forall n | n in FindAll(ns[1..], f)
        ensures n.cell != ns[0].cell
      {
        var y :| 0 <= y < |ns| - 1 && ns[1..][y] == n;
        assert ns[y + 1] == n;
      }
    }
  }

  /** Some link of cell `c` points at `q`. */
  predicate LinkedTo(c: GenCell, q: Pos)
  {
    c.up == Some(q) || c.down == Some(q) || c.left == Some(q) || c.right == Some(q)
  }

  /** Every link of cell `p` points at the grid neighbour on its side, and that neighbour links back. */
  ghost predicate LinksAgreeAt(m: Matrix, p: Pos)
    requires p in m
  {
    (m[p].up.Some? ==> m[p].up.value == Pos(p.i, p.j - 1) && m[p].up.value in m && m[m[p].up.value].down == Some(p)) &&
    (m[p].down.Some? ==> m[p].down.value == Pos(p.i, p.j + 1) && m[p].down.value in m && m[m[p].down.value].up == Some(p)) &&
    (m[p].left.Some? ==> m[p].left.value == Pos(p.i - 1, p.j) && m[p].left.value in m && m[m[p].left.value].right == Some(p)) &&
    (m[p].right.Some? ==> m[p].right.value == Pos(p.i + 1, p.j) && m[p].right.value in m && m[m[p].right.value].left == Some(p))
  }

  ghost predicate LinksAgree(m: Matrix)
  {
    forall p {:trigger LinksAgreeAt(m, p)} :: p in m ==> LinksAgreeAt(m, p)
  }

  /** At most three links per cell, at most one on a cell not yet settled. */
  ghost predicate DegreeBounded(m: Matrix)
  {
    forall p :: p in m ==>
      ConnectionCount(m[p]) <= 3 && (m[p].color != BLACK ==> ConnectionCount(m[p]) <= 1)
  }

  ghost predicate ColorsValid(m: Matrix)
  {
    forall p :: p in m ==> m[p].color == WHITE || m[p].color == GRAY || m[p].color == BLACK
  }

  /**
   * The queue holds distinct unsettled cells, every GRAY cell among them; a
   * WHITE cell is queued only alone (the island just repaired); a WHITE cell
   * not queued has no links.
   */
  ghost predicate QueueOk(m: Matrix, queue: seq<Pos>)
  {
    (forall k :: 0 <= k < |queue| ==> queue[k] in m && m[queue[k]].color != BLACK) &&
    (forall a, b :: 0 <= a < b < |queue| ==> queue[a] != queue[b]) &&
    (forall k :: 0 <= k < |queue| && m[queue[k]].color == WHITE ==> |queue| == 1) &&
    (forall p :: p in m && m[p].color == GRAY ==> p in queue) &&
    (forall p :: p in m && m[p].color == WHITE && p !in queue ==> ConnectionCount(m[p]) == 0)
  }

  ghost predicate AllGray(m: Matrix, queue: seq<Pos>)
  {
    forall k :: 0 <= k < |queue| ==> queue[k] in m && m[queue[k]].color == GRAY
  }

  /** A cell the generator has reached: coloured, or queued. */
  ghost predicate Reached(m: Matrix, queue: seq<Pos>, p: Pos)
  {
    p in m && (m[p].color != WHITE || p in queue)
  }

  /**
   * The links form a tree over the reached cells: every reached cell but the
   * root has a parent of smaller rank it is linked to, and every link joins a
   * cell to its parent.
   */
  ghost predicate Tree(m: Matrix, queue: seq<Pos>, root: Pos, parent: map<Pos, Pos>, rank: map<Pos, nat>)
  {
    Parents(m, queue, root, parent, rank) && TreeEdges(m, parent)
  }

  /** Every reached cell but the root has a parent of smaller rank it is linked to. */
  ghost predicate Parents(m: Matrix, queue: seq<Pos>, root: Pos, parent: map<Pos, Pos>, rank: map<Pos, nat>)
  {
    root in rank && root !in parent &&
    (forall p :: p in rank <==> Reached(m, queue, p)) &&
    (forall p :: p in parent <==> p in rank && p != root) &&
    (forall p {:trigger parent[p]} :: p in parent ==>
      parent[p] in rank && rank[parent[p]] < rank[p] && p in m && LinkedTo(m[p], parent[p]))
  }

  /** Every link joins a cell to its parent. */
  ghost predicate TreeEdges(m: Matrix, parent: map<Pos, Pos>)
  {
    forall p, q :: p in m && LinkedTo(m[p], q) ==> (p in parent && parent[p] == q) || (q in parent && parent[q] == p)
  }

  /** The invariant of CreateGame's queue loop. */
  ghost predicate Inv(m: Matrix, queue: seq<Pos>, rows: int, columns: int, root: Pos, parent: map<Pos, Pos>, rank: map<Pos, nat>)
  {
    Framed(m, rows, columns) && Coloured(m, queue) && Tree(m, queue, root, parent, rank)
  }

  /** The matrix covers the grid and every cell lists its grid neighbours. */
  ghost predicate Framed(m: Matrix, rows: int, columns: int)
  {
    Shaped(m, rows, columns) &&
    forall p :: p in m ==> m[p].neighbours == ExpectedNeighbours(rows, columns, p)
  }

  /** The colour, link, degree and queue conditions of the loop. */
  ghost predicate Coloured(m: Matrix, queue: seq<Pos>)
  {
    ColorsValid(m) && LinksAgree(m) && DegreeBounded(m) && QueueOk(m, queue)
  }

  /** What CreateGame delivers. */
  ghost predicate Maze(m: Matrix, rows: int, columns: int, root: Pos, parent: map<Pos, Pos>, rank: map<Pos, nat>)
  {
    Shaped(m, rows, columns) &&
    (forall p :: p in m ==> m[p].neighbours == ExpectedNeighbours(rows, columns, p)) &&
    LinksAgree(m) &&
    (forall p :: p in m ==> ConnectionCount(m[p]) <= 3) &&
    (forall p :: p in m ==> m[p].color == WHITE || m[p].color == BLACK) &&
    (forall p :: p in m && m[p].color == WHITE ==> ConnectionCount(m[p]) == 0) &&
    Tree(m, [], root, parent, rank) && root in m && m[root].color == BLACK
  }

  /** The paired SetConnection calls of CreateGame: link `a` to the neighbour `n` and the neighbour back to `a`. */
  function Attach(m: Matrix, a: Pos, n: Neighbour): (r: Matrix)
    requires a in m && n.cell in m && IsSide(n.direction)
    ensures r.Keys == m.Keys
    ensures a != n.cell ==>
      LinkOf(r[a], n.direction) == Some(n.cell) && LinkOf(r[n.cell], GetOppositeDirection(n).value) == Some(a)
    ensures forall p :: p in m && p != a && p != n.cell ==> r[p] == m[p]
  {
    var m1 := m[a := SetConnection(m[a], n.direction, n.cell)];
    m1[n.cell := SetConnection(m1[n.cell], GetOppositeDirection(n).value, a)]
  }

  /**
   * Linking a cell to the grid neighbour on one of its sides, when one of the
   * two has no links yet, keeps every link matched by the link back and adds
   * one to the count of each of the two.
   */
  lemma AttachAgree(m: Matrix, a: Pos, n: Neighbour)
    requires LinksAgree(m) && a in m && n.cell in m && IsSide(n.direction)
    requires n.cell == Toward(a, n.direction)
    requires ConnectionCount(m[a]) == 0 || ConnectionCount(m[n.cell]) == 0
    ensures var m' := Attach(m, a, n);
      LinksAgree(m') && m'.Keys == m.Keys &&
      ConnectionCount(m'[a]) == ConnectionCount(m[a]) + 1 &&
      ConnectionCount(m'[n.cell]) == ConnectionCount(m[n.cell]) + 1 &&
      (forall p :: p in m ==> m'[p].color == m[p].color && m'[p].neighbours == m[p].neighbours) &&
      (forall p :: p in m && p != a && p != n.cell ==> m'[p] == m[p])
  {
    var b := n.cell;
    var opp := GetOppositeDirection(n).value;
    assert LinksAgreeAt(m, a) && LinksAgreeAt(m, b);
    assert LinkOf(m[a], n.direction).None?;
    assert LinkOf(m[b], opp).None?;
    SetConnectionCount(m[a], n.direction, b);
    var m1 := m[a := SetConnection(m[a], n.direction, b)];
    SetConnectionCount(m1[b], opp, a);
    forall p | p in m
      ensures LinksAgreeAt(Attach(m, a, n), p)
    {
      AttachAgreeAt(m, a, n, p);
    }
  }

  lemma AttachAgreeAt(m: Matrix, a: Pos, n: Neighbour, p: Pos)
    requires a in m && n.cell in m && p in m && IsSide(n.direction)
    requires n.cell == Toward(a, n.direction)
    requires LinksAgreeAt(m, a) && LinksAgreeAt(m, n.cell) && LinksAgreeAt(m, p)
    requires LinkOf(m[a], n.direction).None? && LinkOf(m[n.cell], GetOppositeDirection(n).value).None?
    ensures LinksAgreeAt(Attach(m, a, n), p)
  {
    var b := n.cell;
    if n.direction == "up" {
      AgreeUp(m, a, b, p);
    } else if n.direction == "down" {
      AgreeUp(m, b, a, p);
    } else if n.direction == "left" {
      AgreeLeft(m, a, b, p);
    } else {
      AgreeLeft(m, b, a, p);
    }
  }

  /** Linking `a` upward to `b` (and `b` downward to `a`) keeps the links of `p` matched. */
  lemma AgreeUp(m: Matrix, a: Pos, b: Pos, p: Pos)
    requires a in m && b in m && p in m && b == Pos(a.i, a.j - 1)
    requires LinksAgreeAt(m, a) && LinksAgreeAt(m, b) && LinksAgreeAt(m, p)
    requires m[a].up.None? && m[b].down.None?
    ensures LinksAgreeAt(m[a := m[a].(up := Some(b))][b := m[b].(down := Some(a))], p)
    ensures LinksAgreeAt(m[b := m[b].(down := Some(a))][a := m[a].(up := Some(b))], p)
  {
    assert m[a := m[a].(up := Some(b))][b := m[b].(down := Some(a))] == m[b := m[b].(down := Some(a))][a := m[a].(up := Some(b))];
  }

  /** Linking `a` leftward to `b` (and `b` rightward to `a`) keeps the links of `p` matched. */
  lemma AgreeLeft(m: Matrix, a: Pos, b: Pos, p: Pos)
    requires a in m && b in m && p in m && b == Pos(a.i - 1, a.j)
    requires LinksAgreeAt(m, a) && LinksAgreeAt(m, b) && LinksAgreeAt(m, p)
    requires m[a].left.None? && m[b].right.None?
    ensures LinksAgreeAt(m[a := m[a].(left := Some(b))][b := m[b].(right := Some(a))], p)
    ensures LinksAgreeAt(m[b := m[b].(right := Some(a))][a := m[a].(left := Some(b))], p)
  {
    assert m[a := m[a].(left := Some(b))][b := m[b].(right := Some(a))] == m[b := m[b].(right := Some(a))][a := m[a].(left := Some(b))];
  }

  /** The same step adds exactly the pair (a, b) to the linked pairs. */
  lemma AttachLinked(m: Matrix, a: Pos, n: Neighbour)
    requires LinksAgree(m) && a in m && n.cell in m && IsSide(n.direction)
    requires n.cell == Toward(a, n.direction)
    requires ConnectionCount(m[a]) == 0 || ConnectionCount(m[n.cell]) == 0
    ensures var m' := Attach(m, a, n);
      forall p, q :: p in m ==>
        (LinkedTo(m'[p], q) <==> LinkedTo(m[p], q) || (p == a && q == n.cell) || (p == n.cell && q == a))
  {
    var b := n.cell;
    var opp := GetOppositeDirection(n).value;
    assert LinksAgreeAt(m, a) && LinksAgreeAt(m, b);
    assert LinkOf(m[a], n.direction).None?;
    assert LinkOf(m[b], opp).None?;
    var m' := Attach(m, a, n);
    forall p, q | p in m
      ensures LinkedTo(m'[p], q) <==> LinkedTo(m[p], q) || (p == a && q == b) || (p == b && q == a)
    {
    }
  }

  /**
   * Growing the tree by one leaf: a cell `c` not reached before becomes
   * reached, linked to the reached cell `a` and to nothing else new; `a`
   * becomes its parent.
   */
  lemma TreeGrow(m: Matrix, queue: seq<Pos>, m': Matrix, queue': seq<Pos>,
                 root: Pos, parent: map<Pos, Pos>, rank: map<Pos, nat>, a: Pos, c: Pos)
    requires Tree(m, queue, root, parent, rank) && m'.Keys == m.Keys
    requires a in rank && c in m && !Reached(m, queue, c) && Reached(m', queue', c)
    requires forall p :: p in m && p != c ==> (Reached(m', queue', p) <==> Reached(m, queue, p))
    requires forall p, q :: p in m ==>
      (LinkedTo(m'[p], q) <==> LinkedTo(m[p], q) || (p == a && q == c) || (p == c && q == a))
    ensures Tree(m', queue', root, parent[c := a], rank[c := rank[a] + 1])
  {
    ParentsGrow(m, queue, m', queue', root, parent, rank, a, c);
    assert c !in rank;
    EdgesGrow(m, m', parent, a, c);
  }

  lemma ParentsGrow(m: Matrix, queue: seq<Pos>, m': Matrix, queue': seq<Pos>,
                    root: Pos, parent: map<Pos, Pos>, rank: map<Pos, nat>, a: Pos, c: Pos)
    requires Parents(m, queue, root, parent, rank) && m'.Keys == m.Keys
    requires a in rank && c in m && !Reached(m, queue, c) && Reached(m', queue', c)
    requires forall p :: p in m && p != c ==> (Reached(m', queue', p) <==> Reached(m, queue, p))
    requires forall p, q :: p in m ==>
      (LinkedTo(m'[p], q) <==> LinkedTo(m[p], q) || (p == a && q == c) || (p == c && q == a))
    ensures Parents(m', queue', root, parent[c := a], rank[c := rank[a] + 1])
  {
    var parent', rank' := parent[c := a], rank[c := rank[a] + 1];
    assert c !in rank && c !in parent;
    assert root in rank' && root !in parent';
    forall p
      ensures p in rank' <==> Reached(m', queue', p)
    {
      if p != c {
        assert p in rank <==> Reached(m, queue, p);
      }
    }
    assert forall p :: p in parent' <==> p in rank' && p != root;
    forall p | p in parent'
      ensures parent'[p] in rank' && rank'[parent'[p]] < rank'[p] && p in m' && LinkedTo(m'[p], parent'[p])
    {
      if p != c {
        assert parent[p] in rank;
      }
    }
  }

  lemma EdgesGrow(m: Matrix, m': Matrix, parent: map<Pos, Pos>, a: Pos, c: Pos)
    requires TreeEdges(m, parent) && m'.Keys == m.Keys && c !in parent
    requires forall p, q :: p in m ==>
      (LinkedTo(m'[p], q) <==> LinkedTo(m[p], q) || (p == a && q == c) || (p == c && q == a))
    ensures TreeEdges(m', parent[c := a])
  {
    var parent' := parent[c := a];
    forall p, q | p in m' && LinkedTo(m'[p], q)
      ensures (p in parent' && parent'[p] == q) || (q in parent' && parent'[q] == p)
    {
      if p == c && q == a {
        assert parent'[c] == a;
      } else if !(p == a && q == c) {
        assert LinkedTo(m[p], q);
        if p in parent && parent[p] == q {
          assert p != c && parent'[p] == q;
        } else {
          assert q in parent && parent[q] == p;
          assert q != c && parent'[q] == p;
        }
      }
    }
  }

  /** Recolouring a cell keeps its links, so the links stay matched. */
  lemma RecolorAgree(m: Matrix, c: Pos, color: int)
    requires LinksAgree(m) && c in m
    ensures var m' := m[c := m[c].(color := color)];
      LinksAgree(m') && forall p, q :: p in m ==> (LinkedTo(m'[p], q) <==> LinkedTo(m[p], q))
  {
    var m' := m[c := m[c].(color := color)];
    forall p | p in m'
      ensures LinksAgreeAt(m', p)
    {
      assert LinksAgreeAt(m, p);
    }
  }

  /** A tree over the same reached cells and the same links stays a tree. */
  lemma TreeSame(m: Matrix, queue: seq<Pos>, m': Matrix, queue': seq<Pos>,
                 root: Pos, parent: map<Pos, Pos>, rank: map<Pos, nat>)
    requires Tree(m, queue, root, parent, rank) && m'.Keys == m.Keys
    requires forall p :: p in m ==> (Reached(m', queue', p) <==> Reached(m, queue, p))
    requires forall p, q :: p in m ==> (LinkedTo(m'[p], q) <==> LinkedTo(m[p], q))
    ensures Tree(m', queue', root, parent, rank)
  {
    forall p
      ensures p in rank <==> Reached(m', queue', p)
    {
      assert p in rank <==> Reached(m, queue, p);
    }
  }

  /** Taking the head of the queue and colouring it BLACK keeps the invariant; the rest of the queue is GRAY. */
  lemma DequeueStep(m: Matrix, queue: seq<Pos>, rows: int, columns: int,
                    root: Pos, parent: map<Pos, Pos>, rank: map<Pos, nat>, item: Pos, m': Matrix, queue': seq<Pos>)
    requires Inv(m, queue, rows, columns, root, parent, rank) && |queue| > 0 && item == queue[0]
    requires item in m && m' == m[item := m[item].(color := BLACK)] && queue' == queue[1..]
    ensures Inv(m', queue', rows, columns, root, parent, rank) && AllGray(m', queue')
    ensures item in m' && m'[item].color == BLACK && ConnectionCount(m'[item]) <= 1
  {
    DequeueFramed(m, rows, columns, item, m');
    DequeueColoured(m, queue, item, m', queue');
    DequeueReached(m, queue, item, m', queue');
    TreeSame(m, queue, m', queue', root, parent, rank);
  }

  lemma DequeueFramed(m: Matrix, rows: int, columns: int, item: Pos, m': Matrix)
    requires Framed(m, rows, columns) && item in m && m' == m[item := m[item].(color := BLACK)]
    ensures Framed(m', rows, columns)
  {
  }

  lemma DequeueColoured(m: Matrix, queue: seq<Pos>, item: Pos, m': Matrix, queue': seq<Pos>)
    requires Coloured(m, queue) && |queue| > 0 && item == queue[0]
    requires item in m && m' == m[item := m[item].(color := BLACK)] && queue' == queue[1..]
    ensures Coloured(m', queue') && AllGray(m', queue')
    ensures forall p, q :: p in m ==> (LinkedTo(m'[p], q) <==> LinkedTo(m[p], q))
    ensures m'[item].color == BLACK && ConnectionCount(m'[item]) <= 1
  {
    RecolorAgree(m, item, BLACK);
    DequeueQueue(m, queue);
  }

  /** Dequeuing and blackening the head reaches the same cells. */
  lemma DequeueReached(m: Matrix, queue: seq<Pos>, item: Pos, m': Matrix, queue': seq<Pos>)
    requires |queue| > 0 && item == queue[0] && item in m
    requires m' == m[item := m[item].(color := BLACK)] && queue' == queue[1..]
    ensures forall p :: p in m ==> (Reached(m', queue', p) <==> Reached(m, queue, p))
  {
    forall p | p in m
      ensures Reached(m', queue', p) <==> Reached(m, queue, p)
    {
      assert p in queue <==> p == item || p in queue';
    }
  }

  lemma DequeueQueue(m: Matrix, queue: seq<Pos>)
    requires ColorsValid(m) && DegreeBounded(m) && QueueOk(m, queue) && |queue| > 0
    ensures var m' := m[queue[0] := m[queue[0]].(color := BLACK)];
      ColorsValid(m') && DegreeBounded(m') && QueueOk(m', queue[1..]) && AllGray(m', queue[1..])
  {
    var item := queue[0];
    var m' := m[item := m[item].(color := BLACK)];
    forall k | 0 <= k < |queue| - 1
      ensures queue[1..][k] in m' && m'[queue[1..][k]].color == GRAY
    {
      assert queue[k + 1] != queue[0];
      assert m[queue[k + 1]].color == WHITE ==> |queue| == 1;
    }
    forall p | p in m' && m'[p].color == GRAY
      ensures p in queue[1..]
    {
      assert p in queue && p != item;
    }
    forall p | p in m' && m'[p].color == WHITE && p !in queue[1..]
      ensures ConnectionCount(m'[p]) == 0
    {
      assert p != item && p !in queue;
    }
  }

  /**
   * The loop invariant survives a step that grows the tree by the leaf `c`
   * under `a`, given that the step keeps the colour, degree, queue and link
   * conditions.
   */
  lemma GrowInv(m: Matrix, queue: seq<Pos>, m': Matrix, queue': seq<Pos>, rows: int, columns: int,
                root: Pos, parent: map<Pos, Pos>, rank: map<Pos, nat>, a: Pos, c: Pos,
                parent': map<Pos, Pos>, rank': map<Pos, nat>)
    requires Inv(m, queue, rows, columns, root, parent, rank)
    requires Framed(m', rows, columns) && Coloured(m', queue') && m'.Keys == m.Keys
    requires a in rank && c in m && !Reached(m, queue, c) && Reached(m', queue', c)
    requires forall p :: p in m && p != c ==> (Reached(m', queue', p) <==> Reached(m, queue, p))
    requires forall p, q :: p in m ==>
      (LinkedTo(m'[p], q) <==> LinkedTo(m[p], q) || (p == a && q == c) || (p == c && q == a))
    requires parent' == parent[c := a] && rank' == rank[c := rank[a] + 1]
    ensures Inv(m', queue', rows, columns, root, parent', rank')
  {
    TreeGrow(m, queue, m', queue', root, parent, rank, a, c);
  }

  /** A step that changes only colours and links keeps the frame. */
  lemma KeepFramed(m: Matrix, m': Matrix, rows: int, columns: int)
    requires Framed(m, rows, columns)
    requires m'.Keys == m.Keys && forall p :: p in m ==> m'[p].neighbours == m[p].neighbours
    ensures Framed(m', rows, columns)
  {
  }

  /** Attach followed by colouring the linked neighbour GRAY, as the `connectionsToGenerate` loop does. */
  lemma BranchFacts(m: Matrix, a: Pos, n: Neighbour)
    requires LinksAgree(m) && a in m && n.cell in m && IsSide(n.direction)
    requires n.cell == Toward(a, n.direction) && ConnectionCount(m[n.cell]) == 0
    ensures var m1 := Attach(m, a, n);
      var m' := m1[n.cell := m1[n.cell].(color := GRAY)];
      LinksAgree(m') && m'.Keys == m.Keys &&
      ConnectionCount(m'[a]) == ConnectionCount(m[a]) + 1 && ConnectionCount(m'[n.cell]) == 1 &&
      m'[n.cell].color == GRAY &&
      (forall p :: p in m && p != n.cell ==> m'[p].color == m[p].color) &&
      (forall p :: p in m ==> m'[p].neighbours == m[p].neighbours) &&
      (forall p :: p in m && p != a && p != n.cell ==> m'[p] == m[p]) &&
      (forall p, q :: p in m ==>
        (LinkedTo(m'[p], q) <==> LinkedTo(m[p], q) || (p == a && q == n.cell) || (p == n.cell && q == a)))
  {
    AttachAgree(m, a, n);
    AttachLinked(m, a, n);
    RecolorAgree(Attach(m, a, n), n.cell, GRAY);
  }

  /**
   * One pass of the `connectionsToGenerate` loop: link the BLACK item to a WHITE
   * neighbour, colour the neighbour GRAY and queue it. The invariant holds
   * with the neighbour a new leaf of the tree, the item its parent.
   */
  lemma BranchStep(m: Matrix, queue: seq<Pos>, rows: int, columns: int,
                   root: Pos, parent: map<Pos, Pos>, rank: map<Pos, nat>, item: Pos, n: Neighbour,
                   m': Matrix, queue': seq<Pos>, parent': map<Pos, Pos>, rank': map<Pos, nat>)
    requires Inv(m, queue, rows, columns, root, parent, rank) && AllGray(m, queue)
    requires item in m && m[item].color == BLACK && ConnectionCount(m[item]) < 3
    requires n in m[item].neighbours && n.cell in m && m[n.cell].color == WHITE && IsSide(n.direction)
    requires item in rank
    requires m' == (var m1 := Attach(m, item, n); m1[n.cell := m1[n.cell].(color := GRAY)])
    requires queue' == queue + [n.cell] && parent' == parent[n.cell := item] && rank' == rank[n.cell := rank[item] + 1]
    ensures Inv(m', queue', rows, columns, root, parent', rank') && AllGray(m', queue')
    ensures ConnectionCount(m'[item]) == ConnectionCount(m[item]) + 1
    ensures forall p :: p in m && p != n.cell ==> m'[p].color == m[p].color
    ensures m'.Keys == m.Keys && m'[n.cell].color == GRAY && item != n.cell
  {
    var b := n.cell;
    NeighboursAdjacent(rows, columns, item, n);
    assert forall k :: 0 <= k < |queue| ==> queue[k] != b;
    assert b !in queue;
    BranchFacts(m, item, n);
    BranchQueue(m, queue, m', item, b);
    KeepFramed(m, m', rows, columns);
    forall p | p in m && p != b
      ensures Reached(m', queue', p) <==> Reached(m, queue, p)
    {
      assert p in queue' <==> p in queue;
    }
    GrowInv(m, queue, m', queue', rows, columns, root, parent, rank, item, b, parent', rank');
  }

  /** What Branch promises about the cells it links, kept across one more link to `b`. */
  lemma BranchTrack(m0: Matrix, queue0: seq<Pos>, m: Matrix, queue: seq<Pos>, parent: map<Pos, Pos>,
                    item: Pos, b: Pos, m': Matrix, queue': seq<Pos>, parent': map<Pos, Pos>)
    requires Tracked(m0, queue0, m, queue, parent, item)
    requires AllGray(m, queue) && b in m && m[b].color == WHITE && item != b
    requires m'.Keys == m.Keys && forall p :: p in m && p != b ==> m'[p].color == m[p].color
    requires ConnectionCount(m'[item]) == ConnectionCount(m[item]) + 1
    requires queue' == queue + [b] && parent' == parent[b := item]
    ensures Tracked(m0, queue0, m', queue', parent', item)
  {
    assert queue'[..|queue0|] == queue[..|queue0|];
    forall k | |queue0| <= k < |queue'|
      ensures queue'[k] in m0 && m0[queue'[k]].color == WHITE && queue'[k] in parent' && parent'[queue'[k]] == item
    {
      if k < |queue| {
        assert queue'[k] == queue[k] && m[queue[k]].color == GRAY;
      }
    }
  }

  /** Removing the chosen candidate and colouring it GRAY leaves the other candidates WHITE. */
  lemma CandidatesStep(m: Matrix, rows: int, columns: int, item: Pos, available: seq<Neighbour>, k: int,
                       m': Matrix, available': seq<Neighbour>)
    requires Candidates(m, rows, columns, item, available) && 0 <= k < |available|
    requires available' == RemoveAt(available, k)
    requires m'.Keys == m.Keys && forall p :: p in m && p != available[k].cell ==> m'[p].color == m[p].color
    ensures Candidates(m', rows, columns, item, available')
  {
  }

  /** Turning a WHITE cell GRAY keeps the set of cells not yet BLACK. */
  lemma UnsettledStep(m: Matrix, pending: set<Pos>, b: Pos, m': Matrix)
    requires Unsettled(m, pending) && b in m && m[b].color == WHITE
    requires m'.Keys == m.Keys && m'[b].color == GRAY && forall p :: p in m && p != b ==> m'[p].color == m[p].color
    ensures Unsettled(m', pending)
  {
  }

  lemma BranchQueue(m: Matrix, queue: seq<Pos>, m': Matrix, item: Pos, b: Pos)
    requires ColorsValid(m) && DegreeBounded(m) && QueueOk(m, queue) && AllGray(m, queue)
    requires item in m && b in m && item != b && b !in queue
    requires m[item].color == BLACK && m[b].color == WHITE
    requires m'.Keys == m.Keys && m'[b].color == GRAY && m'[item].color == BLACK
    requires ConnectionCount(m'[item]) <= 3 && ConnectionCount(m'[b]) == 1
    requires forall p :: p in m && p != item && p != b ==> m'[p] == m[p]
    requires LinksAgree(m')
    ensures Coloured(m', queue + [b]) && AllGray(m', queue + [b])
  {
    BranchQueued(m, queue, m', item, b);
  }

  /** The queue conditions after the linked neighbour `b` turns GRAY and joins the queue. */
  lemma BranchQueued(m: Matrix, queue: seq<Pos>, m': Matrix, item: Pos, b: Pos)
    requires QueueOk(m, queue) && AllGray(m, queue)
    requires item in m && b in m && item != b && b !in queue
    requires m[item].color == BLACK
    requires m'.Keys == m.Keys && m'[b].color == GRAY && m'[item].color == BLACK
    requires forall p :: p in m && p != item && p != b ==> m'[p] == m[p]
    ensures QueueOk(m', queue + [b]) && AllGray(m', queue + [b])
  {
    var queue' := queue + [b];
    forall k | 0 <= k < |queue'|
      ensures queue'[k] in m' && m'[queue'[k]].color == GRAY
    {
      if k < |queue| {
        assert queue'[k] == queue[k] && queue[k] != item && queue[k] != b;
      }
    }
    forall x, y | 0 <= x < y < |queue'|
      ensures queue'[x] != queue'[y]
    {
      assert queue'[x] == queue[x];
    }
    forall p | p in m' && m'[p].color == GRAY
      ensures p in queue'
    {
      if p != b {
        assert p in queue;
      }
    }
  }

  /**
   * The island repair: with the queue empty, link a WHITE
   * island to a BLACK neighbour with fewer than three links and queue the
   * island. The invariant holds with the island a new leaf of the tree.
   */
  lemma IslandStep(m: Matrix, rows: int, columns: int,
                   root: Pos, parent: map<Pos, Pos>, rank: map<Pos, nat>, island: Pos, n: Neighbour,
                   m': Matrix, queue': seq<Pos>, parent': map<Pos, Pos>, rank': map<Pos, nat>)
    requires Inv(m, [], rows, columns, root, parent, rank)
    requires island in m && m[island].color == WHITE
    requires n in m[island].neighbours && n.cell in m && m[n.cell].color == BLACK && ConnectionCount(m[n.cell]) < 3
    requires IsSide(n.direction) && n.cell in rank
    requires m' == Attach(m, island, n)
    requires queue' == [island] && parent' == parent[island := n.cell] && rank' == rank[island := rank[n.cell] + 1]
    ensures Inv(m', queue', rows, columns, root, parent', rank')
    ensures forall p :: p in m ==> m'[p].color == m[p].color
  {
    NeighboursAdjacent(rows, columns, island, n);
    assert ConnectionCount(m[island]) == 0;
    IslandFacts(m, island, n);
    IslandGrow(m, m', rows, columns, root, parent, rank, island, n, parent', rank');
  }

  lemma IslandGrow(m: Matrix, m': Matrix, rows: int, columns: int,
                   root: Pos, parent: map<Pos, Pos>, rank: map<Pos, nat>, island: Pos, n: Neighbour,
                   parent': map<Pos, Pos>, rank': map<Pos, nat>)
    requires Inv(m, [], rows, columns, root, parent, rank)
    requires island in m && n.cell in m && island != n.cell && n.cell in rank
    requires m[island].color == WHITE && m[n.cell].color == BLACK
    requires LinksAgree(m') && m'.Keys == m.Keys
    requires ConnectionCount(m'[island]) == 1 && ConnectionCount(m'[n.cell]) == ConnectionCount(m[n.cell]) + 1
    requires ConnectionCount(m[n.cell]) < 3
    requires forall p :: p in m ==> m'[p].color == m[p].color && m'[p].neighbours == m[p].neighbours
    requires forall p :: p in m && p != island && p != n.cell ==> m'[p] == m[p]
    requires forall p, q :: p in m ==>
      (LinkedTo(m'[p], q) <==> LinkedTo(m[p], q) || (p == island && q == n.cell) || (p == n.cell && q == island))
    requires parent' == parent[island := n.cell] && rank' == rank[island := rank[n.cell] + 1]
    ensures Inv(m', [island], rows, columns, root, parent', rank')
  {
    IslandQueue(m, m', island, n.cell);
    KeepFramed(m, m', rows, columns);
    ReachedIsland(m, m', island);
    GrowInv(m, [], m', [island], rows, columns, root, parent, rank, n.cell, island, parent', rank');
  }

  lemma ReachedIsland(m: Matrix, m': Matrix, island: Pos)
    requires m'.Keys == m.Keys && forall p :: p in m ==> m'[p].color == m[p].color
    ensures forall p :: p in m && p != island ==> (Reached(m', [island], p) <==> Reached(m, [], p))
    ensures island in m ==> Reached(m', [island], island)
  {
  }

  /** Attach as the island repair uses it: the island has no links yet. */
  lemma IslandFacts(m: Matrix, a: Pos, n: Neighbour)
    requires LinksAgree(m) && a in m && n.cell in m && IsSide(n.direction)
    requires n.cell == Toward(a, n.direction) && ConnectionCount(m[a]) == 0
    ensures var m' := Attach(m, a, n);
      LinksAgree(m') && m'.Keys == m.Keys &&
      ConnectionCount(m'[a]) == 1 && ConnectionCount(m'[n.cell]) == ConnectionCount(m[n.cell]) + 1 &&
      (forall p :: p in m ==> m'[p].color == m[p].color && m'[p].neighbours == m[p].neighbours) &&
      (forall p :: p in m && p != a && p != n.cell ==> m'[p] == m[p]) &&
      (forall p, q :: p in m ==>
        (LinkedTo(m'[p], q) <==> LinkedTo(m[p], q) || (p == a && q == n.cell) || (p == n.cell && q == a)))
  {
    AttachAgree(m, a, n);
    AttachLinked(m, a, n);
  }

  lemma IslandQueue(m: Matrix, m': Matrix, island: Pos, b: Pos)
    requires ColorsValid(m) && DegreeBounded(m) && QueueOk(m, [])
    requires island in m && b in m && island != b
    requires m[island].color == WHITE && m[b].color == BLACK
    requires m'.Keys == m.Keys && forall p :: p in m ==> m'[p].color == m[p].color
    requires ConnectionCount(m'[b]) <= 3 && ConnectionCount(m'[island]) == 1
    requires forall p :: p in m && p != island && p != b ==> m'[p] == m[p]
    requires LinksAgree(m')
    ensures Coloured(m', [island])
  {
  }

  /** When the queue is empty, the invariant is the maze CreateGame returns. */
  lemma FinalMaze(m: Matrix, rows: int, columns: int, root: Pos, parent: map<Pos, Pos>, rank: map<Pos, nat>)
    requires Inv(m, [], rows, columns, root, parent, rank)
    ensures Maze(m, rows, columns, root, parent, rank)
  {
    assert Reached(m, [], root);
  }

  /** A chain of links: every cell of `path` but the last links to the next one. */
  ghost predicate LinkChain(m: Matrix, path: seq<Pos>)
  {
    |path| >= 1 && forall k :: 0 <= k < |path| - 1 ==> path[k] in m && LinkedTo(m[path[k]], path[k + 1])
  }

  /** Following parents from a reached cell leads, link by link, to the root. */
  lemma {:induction false} ParentChain(m: Matrix, root: Pos, parent: map<Pos, Pos>, rank: map<Pos, nat>, p: Pos)
    requires Parents(m, [], root, parent, rank) && p in rank
    ensures exists path :: LinkChain(m, path) && path[0] == p && path[|path| - 1] == root
    decreases rank[p]
  {
    if p == root {
      assert LinkChain(m, [root]);
    } else {
      var q := parent[p];
      ParentChain(m, root, parent, rank, q);
      var path :| LinkChain(m, path) && path[0] == q && path[|path| - 1] == root;
      var longer := [p] + path;
      forall k | 0 <= k < |longer| - 1
        ensures longer[k] in m && LinkedTo(m[longer[k]], longer[k + 1])
      {
        if k > 0 {
          assert longer[k] == path[k - 1] && longer[k + 1] == path[k];
        }
      }
      assert LinkChain(m, longer) && longer[0] == p && longer[|longer| - 1] == root;
    }
  }

  /** The maze is connected: from every BLACK cell a chain of links leads to the start cell. */
  lemma MazeConnected(m: Matrix, rows: int, columns: int, root: Pos,
                      parent: map<Pos, Pos>, rank: map<Pos, nat>, p: Pos)
    requires Maze(m, rows, columns, root, parent, rank)
    requires p in m && m[p].color == BLACK
    ensures exists path :: LinkChain(m, path) && path[0] == p && path[|path| - 1] == root
  {
    assert Reached(m, [], p);
    ParentChain(m, root, parent, rank, p);
  }

  /** Before the loop: the start cell GRAY and queued, every other cell WHITE, no links. */
  lemma InitialInv(m: Matrix, rows: int, columns: int, root: Pos)
    requires Shaped(m, rows, columns) && root in m
    requires forall p :: p in m ==> m[p] == NewCell.(neighbours := ExpectedNeighbours(rows, columns, p))
    ensures Inv(m[root := m[root].(color := GRAY)], [root], rows, columns, root, map[], map[root := 0])
  {
    var m' := m[root := m[root].(color := GRAY)];
    assert forall p :: p in m' ==> LinksAgreeAt(m', p);
    assert forall p, q :: p in m' ==> !LinkedTo(m'[p], q);
  }

  /** The `availableConnections` filter: the neighbour is WHITE. */
  predicate WhiteNeighbour(m: Matrix, n: Neighbour)
  {
    n.cell in m && m[n.cell].color == WHITE
  }

  /** The `blackNeighbours` filter: the neighbour is BLACK and has fewer than three links. */
  predicate OpenBlackNeighbour(m: Matrix, n: Neighbour)
  {
    n.cell in m && m[n.cell].color == BLACK && ConnectionCount(m[n.cell]) < 3
  }

  /** List.RemoveAt: the list without its `k`-th entry. */
  function RemoveAt(s: seq<Neighbour>, k: int): (r: seq<Neighbour>)
    requires 0 <= k < |s|
    ensures |r| == |s| - 1
    ensures forall n :: n in r ==> n in s
    ensures DistinctCells(s) ==> DistinctCells(r) && forall n :: n in r ==> n.cell != s[k].cell
  {
    var r := s[..k] + s[k + 1..];
    assert forall x :: 0 <= x < |r| ==> r[x] == if x < k then s[x] else s[x + 1];
    r
  }

  /**
   * GameCreator.CreateGame: from a random start cell, settle queued cells
   * one by one, linking each to a random number of its WHITE neighbours and
   * queueing them; when the queue runs dry, link an island WHITE cell to a
   * BLACK neighbour with fewer than three links and carry on. The links form a tree
   * rooted at the start cell over the BLACK cells, no cell has more than
   * three links and WHITE cells have none.
   */
  method CreateGame(rows: nat, columns: nat, rng: Random)
    returns (result: array2<GenCell>, ghost maze: Matrix, ghost root: Pos,
             ghost parent: map<Pos, Pos>, ghost rank: map<Pos, nat>)
    requires rows >= 1 && columns >= 1
    modifies rng
    ensures Maze(maze, rows, columns, root, parent, rank)
    ensures Stuck(maze)
    ensures fresh(result) && result.Length0 == rows && result.Length1 == columns
    ensures forall i, j :: 0 <= i < rows && 0 <= j < columns ==> result[i, j] == maze[Pos(i, j)]
  {
    var m := EmptyMatrix(rows, columns);
    var si := Random(rng, 0, rows - 1);
    var sj := Random(rng, 0, columns - 1);
    var start := Pos(si, sj);
    InitialInv(m, rows, columns, start);
    m := m[start := m[start].(color := GRAY)];
    var queue := [start];
    root, parent, rank := start, map[], map[start := 0];
    ghost var pending := set p | p in m && m[p].color != BLACK;
    while |queue| > 0
      invariant Inv(m, queue, rows, columns, root, parent, rank)
      invariant Unsettled(m, pending)
      invariant |queue| == 0 ==> Stuck(m)
      decreases pending
    {
      m, queue, parent, rank, pending := Settle(m, queue, rows, columns, root, parent, rank, rng, pending);
    }
    FinalMaze(m, rows, columns, root, parent, rank);
    maze := m;
    result := ConvertMatrix(m, rows, columns);
  }

  /** The cells not yet BLACK. */
  ghost predicate Unsettled(m: Matrix, pending: set<Pos>)
  {
    forall p :: p in pending <==> p in m && m[p].color != BLACK
  }

  /** Blackening a cell that was not BLACK removes it, and only it, from the unsettled cells. */
  lemma UnsettledDequeue(m0: Matrix, pending0: set<Pos>, item: Pos, m: Matrix)
    requires Unsettled(m0, pending0) && item in m0 && m0[item].color != BLACK
    requires m == m0[item := m0[item].(color := BLACK)]
    ensures Unsettled(m, pending0 - {item}) && item in pending0
  {
  }

  /**
   * One pass of the `while (queue.Count > 0)` loop: dequeue and settle a cell, link it
   * to some WHITE neighbours, and repair an island if the queue ran dry.
   * One more cell is BLACK afterwards.
   */
  method Settle(m0: Matrix, queue0: seq<Pos>, rows: int, columns: int, ghost root: Pos,
                ghost parent0: map<Pos, Pos>, ghost rank0: map<Pos, nat>, rng: Random, ghost pending0: set<Pos>)
    returns (m: Matrix, queue: seq<Pos>, ghost parent: map<Pos, Pos>, ghost rank: map<Pos, nat>, ghost pending: set<Pos>)
    requires Inv(m0, queue0, rows, columns, root, parent0, rank0) && |queue0| > 0
    requires Unsettled(m0, pending0)
    modifies rng
    ensures Inv(m, queue, rows, columns, root, parent, rank)
    ensures Unsettled(m, pending) && pending < pending0
    ensures queue0[0] in m && m[queue0[0]].color == BLACK
    ensures queue == [] ==> Stuck(m)
  {
    var item := queue0[0];
    m := m0[item := m0[item].(color := BLACK)];
    queue := queue0[1..];
    DequeueStep(m0, queue0, rows, columns, root, parent0, rank0, item, m, queue);
    pending := pending0 - {item};
    UnsettledDequeue(m0, pending0, item, m);
    m, queue, parent, rank := Branch(m, queue, rows, columns, root, parent0, rank0, item, rng, pending);
    if |queue| == 0 {
      m, queue, parent, rank := RepairIsland(m, rows, columns, root, parent, rank, rng, pending);
    }
  }

  /**
   * The branching part of CreateGame, after `item` has been settled: pick how many
   * WHITE neighbours to link (at most two if the item already has a link,
   * three otherwise) and link that many, chosen at random, queueing each.
   * Every cell queued here was WHITE and becomes a child of `item`.
   */
  method Branch(m0: Matrix, queue0: seq<Pos>, rows: int, columns: int, ghost root: Pos,
                ghost parent0: map<Pos, Pos>, ghost rank0: map<Pos, nat>, item: Pos, rng: Random,
                ghost pending: set<Pos>)
    returns (m: Matrix, queue: seq<Pos>, ghost parent: map<Pos, Pos>, ghost rank: map<Pos, nat>)
    requires Inv(m0, queue0, rows, columns, root, parent0, rank0) && AllGray(m0, queue0)
    requires item in m0 && m0[item].color == BLACK && ConnectionCount(m0[item]) <= 1
    requires Unsettled(m0, pending)
    modifies rng
    ensures Inv(m, queue, rows, columns, root, parent, rank)
    ensures Unsettled(m, pending)
    ensures item in m && m[item].color == BLACK
    ensures |queue0| <= |queue| && queue[..|queue0|] == queue0
    ensures |queue| - |queue0| == ConnectionCount(m[item]) - ConnectionCount(m0[item])
    ensures |queue| - |queue0| <= if HasConnections(m0[item]) then 2 else 3
    ensures forall k :: |queue0| <= k < |queue| ==>
      queue[k] in m0 && m0[queue[k]].color == WHITE && queue[k] in parent && parent[queue[k]] == item
  {
    m, queue, parent, rank := m0, queue0, parent0, rank0;
    var available := FindAll(m[item].neighbours, (n: Neighbour) => WhiteNeighbour(m, n));
    NeighboursDistinct(rows, columns, item);
    FindAllDistinct(m[item].neighbours, (n: Neighbour) => WhiteNeighbour(m, n));
    var bound := if HasConnections(m[item]) then 2 else 3;
    var connectionsToGenerate := Random(rng, 0, if bound < |available| then bound else |available|);
    ghost var count0 := |available|;
    BranchingStart(m0, queue0, rows, columns, root, parent0, rank0, item, available, pending);
    for i := 0 to connectionsToGenerate
      invariant Branching(m0, queue0, m, queue, rows, columns, root, parent, rank, item, available, pending)
      invariant |queue| == |queue0| + i && |available| == count0 - i
      invariant ConnectionCount(m0[item]) + connectionsToGenerate <= 3 && connectionsToGenerate <= count0
    {
      m, queue, parent, rank, available := LinkBranch(m0, queue0, m, queue, rows, columns, root, parent, rank,
                                                      item, available, rng, pending);
    }
  }

  /**
   * The state of Branch between two links: the loop invariant, the WHITE
   * candidates left, and the cells linked so far, each queued, formerly
   * WHITE and a child of `item`.
   */
  ghost predicate Branching(m0: Matrix, queue0: seq<Pos>, m: Matrix, queue: seq<Pos>, rows: int, columns: int,
                            root: Pos, parent: map<Pos, Pos>, rank: map<Pos, nat>, item: Pos,
                            available: seq<Neighbour>, pending: set<Pos>)
  {
    Inv(m, queue, rows, columns, root, parent, rank) && AllGray(m, queue) && Unsettled(m, pending) &&
    item in m && m[item].color == BLACK &&
    Candidates(m, rows, columns, item, available) && Tracked(m0, queue0, m, queue, parent, item)
  }

  /** The candidates left: distinct WHITE neighbours of `item`. */
  ghost predicate Candidates(m: Matrix, rows: int, columns: int, item: Pos, available: seq<Neighbour>)
  {
    DistinctCells(available) &&
    forall n :: n in available ==>
      n in ExpectedNeighbours(rows, columns, item) && n.cell in m && m[n.cell].color == WHITE
  }

  /**
   * Compared with the state `m0`, `queue0` before Branch: the queue has grown
   * by the cells linked to `item`, one link each, every one of them formerly
   * WHITE and a child of `item`; no cell has turned WHITE.
   */
  ghost predicate Tracked(m0: Matrix, queue0: seq<Pos>, m: Matrix, queue: seq<Pos>, parent: map<Pos, Pos>, item: Pos)
  {
    item in m0 && item in m && |queue0| <= |queue| && queue[..|queue0|] == queue0 &&
    ConnectionCount(m[item]) == ConnectionCount(m0[item]) + (|queue| - |queue0|) &&
    m.Keys == m0.Keys && (forall p :: p in m && m[p].color == WHITE ==> m0[p].color == WHITE) &&
    forall k :: |queue0| <= k < |queue| ==>
      queue[k] in m0 && m0[queue[k]].color == WHITE && queue[k] in parent && parent[queue[k]] == item
  }

  lemma BranchingStart(m: Matrix, queue: seq<Pos>, rows: int, columns: int,
                       root: Pos, parent: map<Pos, Pos>, rank: map<Pos, nat>, item: Pos,
                       available: seq<Neighbour>, pending: set<Pos>)
    requires Inv(m, queue, rows, columns, root, parent, rank) && AllGray(m, queue) && Unsettled(m, pending)
    requires item in m && m[item].color == BLACK
    requires DistinctCells(available)
    requires forall n :: n in available <==> n in m[item].neighbours && WhiteNeighbour(m, n)
    ensures Branching(m, queue, m, queue, rows, columns, root, parent, rank, item, available, pending)
  {
    assert queue[..|queue|] == queue;
  }

  /** One pass of the `connectionsToGenerate` loop: pop a random candidate, link it both ways, colour it GRAY and queue it. */
  method LinkBranch(ghost m0: Matrix, ghost queue0: seq<Pos>, m: Matrix, queue: seq<Pos>, rows: int, columns: int,
                    ghost root: Pos, ghost parent: map<Pos, Pos>, ghost rank: map<Pos, nat>, item: Pos,
                    available: seq<Neighbour>, rng: Random, ghost pending: set<Pos>)
    returns (m': Matrix, queue': seq<Pos>, ghost parent': map<Pos, Pos>, ghost rank': map<Pos, nat>,
             available': seq<Neighbour>)
    requires Branching(m0, queue0, m, queue, rows, columns, root, parent, rank, item, available, pending)
    requires |available| > 0 && ConnectionCount(m[item]) < 3
    modifies rng
    ensures Branching(m0, queue0, m', queue', rows, columns, root, parent', rank', item, available', pending)
    ensures |queue'| == |queue| + 1 && |available'| == |available| - 1
  {
    var itemToPop := Random(rng, 0, |available| - 1);
    var connection := available[itemToPop];
    available' := RemoveAt(available, itemToPop);
    NeighboursAdjacent(rows, columns, item, connection);
    m' := Attach(m, item, connection);
    m' := m'[connection.cell := m'[connection.cell].(color := GRAY)];
    queue' := queue + [connection.cell];
    parent' := parent[connection.cell := item];
    rank' := rank[connection.cell := rank[item] + 1];
    LinkBranchStep(m0, queue0, m, queue, rows, columns, root, parent, rank, item, available, pending,
                   itemToPop, connection, m', queue', parent', rank', available');
  }

  /** LinkBranch keeps Branching. */
  lemma LinkBranchStep(m0: Matrix, queue0: seq<Pos>, m: Matrix, queue: seq<Pos>, rows: int, columns: int,
                       root: Pos, parent: map<Pos, Pos>, rank: map<Pos, nat>, item: Pos,
                       available: seq<Neighbour>, pending: set<Pos>, k: int, connection: Neighbour,
                       m': Matrix, queue': seq<Pos>, parent': map<Pos, Pos>, rank': map<Pos, nat>,
                       available': seq<Neighbour>)
    requires Branching(m0, queue0, m, queue, rows, columns, root, parent, rank, item, available, pending)
    requires 0 <= k < |available| && connection == available[k] && ConnectionCount(m[item]) < 3
    requires available' == RemoveAt(available, k)
    requires IsSide(connection.direction) && connection.cell in m
    requires m' == (var m1 := Attach(m, item, connection); m1[connection.cell := m1[connection.cell].(color := GRAY)])
    requires queue' == queue + [connection.cell] && parent' == parent[connection.cell := item]
    requires rank' == rank[connection.cell := rank[item] + 1]
    ensures Branching(m0, queue0, m', queue', rows, columns, root, parent', rank', item, available', pending)
  {
    NeighboursAdjacent(rows, columns, item, connection);
    assert Reached(m, queue, item);
    BranchStep(m, queue, rows, columns, root, parent, rank, item, connection, m', queue', parent', rank');
    LinkBranchRest(m0, queue0, m, queue, rows, columns, root, parent, rank, item, available, pending,
                   k, connection.cell, m', queue', parent', rank', available');
  }

  /** The candidate, tracking and unsettled parts of LinkBranchStep, given the loop invariant after the link. */
  lemma LinkBranchRest(m0: Matrix, queue0: seq<Pos>, m: Matrix, queue: seq<Pos>, rows: int, columns: int,
                       root: Pos, parent: map<Pos, Pos>, rank: map<Pos, nat>, item: Pos,
                       available: seq<Neighbour>, pending: set<Pos>, k: int, b: Pos,
                       m': Matrix, queue': seq<Pos>, parent': map<Pos, Pos>, rank': map<Pos, nat>,
                       available': seq<Neighbour>)
    requires Candidates(m, rows, columns, item, available) && Tracked(m0, queue0, m, queue, parent, item)
    requires Unsettled(m, pending) && AllGray(m, queue)
    requires 0 <= k < |available| && b == available[k].cell && available' == RemoveAt(available, k)
    requires Inv(m', queue', rows, columns, root, parent', rank') && AllGray(m', queue')
    requires item in m && m[item].color == BLACK && item != b
    requires m'.Keys == m.Keys && m'[b].color == GRAY
    requires forall p :: p in m && p != b ==> m'[p].color == m[p].color
    requires ConnectionCount(m'[item]) == ConnectionCount(m[item]) + 1
    requires queue' == queue + [b] && parent' == parent[b := item]
    ensures Branching(m0, queue0, m', queue', rows, columns, root, parent', rank', item, available', pending)
  {
    BranchTrack(m0, queue0, m, queue, parent, item, b, m', queue', parent');
    CandidatesStep(m, rows, columns, item, available, k, m', available');
    UnsettledStep(m, pending, b, m');
  }

  /**
   * Where the generator stops: no island is left, or some island has no
   * BLACK neighbour with fewer than three links (the picked one may be it).
   */
  ghost predicate Stuck(m: Matrix)
  {
    (forall p :: p in m ==> !Island(m, p)) ||
    exists p :: Island(m, p) && forall n :: n in m[p].neighbours ==> !OpenBlackNeighbour(m, n)
  }

  /**
   * The `queue.Count == 0` branch of CreateGame: pick an island
   * (a WHITE cell with a BLACK neighbour); if it has a BLACK neighbour with
   * fewer than three links, link the two and queue the island.
   */
  method RepairIsland(m0: Matrix, rows: int, columns: int, ghost root: Pos,
                      ghost parent0: map<Pos, Pos>, ghost rank0: map<Pos, nat>, rng: Random,
                      ghost pending: set<Pos>)
    returns (m: Matrix, queue: seq<Pos>, ghost parent: map<Pos, Pos>, ghost rank: map<Pos, nat>)
    requires Inv(m0, [], rows, columns, root, parent0, rank0) && rows >= 0 && columns >= 0
    requires Unsettled(m0, pending)
    modifies rng
    ensures Inv(m, queue, rows, columns, root, parent, rank)
    ensures Unsettled(m, pending)
    ensures queue == [] ==> m == m0 && Stuck(m0)
    ensures (forall p :: p in m0 ==> !Island(m0, p)) ==> queue == []
    ensures forall p :: p in m0 ==> p in m && m[p].color == m0[p].color
    ensures queue == [] || (|queue| == 1 && Island(m0, queue[0]) && IslandLinked(m0, queue[0], m))
  {
    m, queue, parent, rank := m0, [], parent0, rank0;
    var islandItem := PickFromIslands(m, rows, columns, rng);
    if islandItem.Some? {
      var island := islandItem.value;
      m, queue, parent, rank := LinkIsland(m0, rows, columns, root, parent0, rank0, island, rng, pending);
    }
  }

  /**
   * The island repair linked `island` to one of its listed BLACK neighbours
   * with fewer than three links, both ways, and changed nothing else.
   */
  ghost predicate IslandLinked(m0: Matrix, island: Pos, m: Matrix)
  {
    island in m0 &&
    exists n :: n in m0[island].neighbours && OpenBlackNeighbour(m0, n) && IsSide(n.direction) && m == Attach(m0, island, n)
  }

  /** The `blackNeighbours` branch: link the island to a random BLACK neighbour with fewer than three links, if it has one. */
  method LinkIsland(m0: Matrix, rows: int, columns: int, ghost root: Pos,
                    ghost parent0: map<Pos, Pos>, ghost rank0: map<Pos, nat>, island: Pos, rng: Random,
                    ghost pending: set<Pos>)
    returns (m: Matrix, queue: seq<Pos>, ghost parent: map<Pos, Pos>, ghost rank: map<Pos, nat>)
    requires Inv(m0, [], rows, columns, root, parent0, rank0) && island in m0 && m0[island].color == WHITE
    requires Unsettled(m0, pending)
    modifies rng
    ensures Inv(m, queue, rows, columns, root, parent, rank)
    ensures Unsettled(m, pending)
    ensures queue == [] || queue == [island]
    ensures (exists n :: n in m0[island].neighbours && OpenBlackNeighbour(m0, n)) <==> queue == [island]
    ensures queue == [island] ==> IslandLinked(m0, island, m)
    ensures queue == [] ==> m == m0
    ensures forall p :: p in m0 ==> p in m && m[p].color == m0[p].color
  {
    m, queue, parent, rank := m0, [], parent0, rank0;
    var blackNeighbours := FindAll(m[island].neighbours, (n: Neighbour) => OpenBlackNeighbour(m, n));
    if |blackNeighbours| > 0 {
      var k := Random(rng, 0, |blackNeighbours| - 1);
      var connection := blackNeighbours[k];
      assert connection in blackNeighbours;
      NeighboursAdjacent(rows, columns, island, connection);
      assert Reached(m, [], connection.cell);
      m := Attach(m, island, connection);
      queue := queue + [island];
      parent := parent[island := connection.cell];
      rank := rank[island := rank0[connection.cell] + 1];
      IslandStep(m0, rows, columns, root, parent0, rank0, island, connection, m, queue, parent, rank);
    }
  }
}
