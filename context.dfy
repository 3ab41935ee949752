/**
 * The game session behind the canvas: it owns one engine, starts a round
 * and turns each mouse click into a rotate or lock action, re-evaluates
 * connectivity and latches the win.
 */
module GameContext {
  import opened Common
  import opened Cells
  import opened Oracle
  import opened PipeEngine

  /** Mouse buttons as the browser numbers them. */
  const LEFT_BUTTON := 0
  const MIDDLE_BUTTON := 1
  const RIGHT_BUTTON := 2

  /**
   * What one click does to the clicked cell before connectivity is
   * re-evaluated: an unlocked cell turns counter-clockwise on the left button
   * and clockwise on the right one; the middle button flips the lock, on a
   * locked cell as on an unlocked one. Any other button changes nothing.
   */
  function ApplyClick(c: Cell, button: int): (r: Cell)
    ensures r.connected == c.connected
    ensures r.locked == (c.locked != (button == MIDDLE_BUTTON))
    ensures FlagCount(r) == FlagCount(c)
    ensures c.locked || button !in {LEFT_BUTTON, RIGHT_BUTTON} ==> SameFlags(r, c)
    ensures !c.locked && button == LEFT_BUTTON ==> forall d :: ResolveDirection(r, TurnedCCW(d)) == ResolveDirection(c, d)
    ensures !c.locked && button == RIGHT_BUTTON ==> forall d :: ResolveDirection(r, d) == ResolveDirection(c, TurnedCCW(d))
  {
    var turned :=
      if c.locked then c
      else if button == LEFT_BUTTON then RotateCCW(c)
      else if button == RIGHT_BUTTON then RotateCW(c)
      else c;
    if button == MIDDLE_BUTTON then ToggleLocked(turned) else turned
  }

  /**
   * A right click undoes a left click on an unlocked cell and the other way
   * round, and two middle clicks restore any cell.
   */
  lemma ClicksUndo(c: Cell)
    ensures !c.locked ==> ApplyClick(ApplyClick(c, RIGHT_BUTTON), LEFT_BUTTON) == c
    ensures !c.locked ==> ApplyClick(ApplyClick(c, LEFT_BUTTON), RIGHT_BUTTON) == c
    ensures ApplyClick(ApplyClick(c, MIDDLE_BUTTON), MIDDLE_BUTTON) == c
  {
    if !c.locked {
      RotationsInverse(c);
    }
    ToggleTwice(c);
  }

  class Context2D {
    var won: bool
    const engine: Engine

    ghost predicate Valid()
      reads this, engine
    {
      engine.Valid()
    }

    /** A session over a fresh square engine; nothing is won yet. */
    constructor (rows: int, columns: int)
      requires 1 <= rows && rows == columns
      ensures Valid() && !won && fresh(engine)
      ensures engine.Rows == rows && engine.Columns == columns
    {
      won := false;
      engine := new Engine(rows, columns);
    }

    /**
     * A new round: the win is cleared and the engine restarts, so the marks
     * are again exactly the cells reachable from the new start cell.
     */
    method Start(rng: Random)
      requires Valid()
      modifies this, engine, rng
      ensures Valid() && !won && fresh(engine.Map)
      ensures forall x, y :: engine.InRange(x, y) ==> !engine.Map[x, y].locked
      ensures engine.ConnectedIsReachable()
    {
      won := false;
      engine.Restart(rng);
    }

    /** The rotate or lock part of a click: only cell (i, j) changes, as ApplyClick says. */
    method Act(button: int, i: int, j: int)
      requires Valid() && engine.InRange(i, j)
      modifies engine.Map
      ensures engine.Map[i, j] == ApplyClick(old(engine.Map[i, j]), button)
      ensures forall x, y :: engine.InRange(x, y) && (x != i || y != j) ==> engine.Map[x, y] == old(engine.Map[x, y])
    {
      if !engine.Map[i, j].locked {
        if button == LEFT_BUTTON {
          engine.RotateCellCCW(i, j);
        } else if button == RIGHT_BUTTON {
          engine.RotateCellCW(i, j);
        }
      }
      if button == MIDDLE_BUTTON {
        engine.ToggleLock(i, j);
      }
    }

    /**
     * A click on cell (i, j). Once the round is won nothing changes any more.
     * Otherwise the clicked cell changes as ApplyClick says, every other cell
     * keeps its flags and lock, the marks become exactly the cells reachable
     * from the start cell, and the round is won exactly when every cell is
     * marked.
     */
    method Click(button: int, i: int, j: int)
      requires Valid() && engine.InRange(i, j)
      modifies this, engine.Map
      ensures Valid()
      ensures old(won) ==> won && unchanged(engine.Map)
      ensures !old(won) ==> SameButMark(engine.Map[i, j], ApplyClick(old(engine.Map[i, j]), button))
      ensures !old(won) ==> forall x, y :: engine.InRange(x, y) && (x != i || y != j) ==>
        SameButMark(engine.Map[x, y], old(engine.Map[x, y]))
      ensures !old(won) ==> engine.ConnectedIsReachable() && (won <==> engine.AllConnected())
    {
      if won {
        return;
      }
      Act(button, i, j);
      engine.ResetConnections();
      var solved := engine.CheckSolution();
      if solved {
        won := true;
      }
    }
  }
}
