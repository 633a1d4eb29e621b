/**
 * Pacman himself (pacman/src/pacman.cpp): a location and a direction.  The
 * movement thread repeats one step until the game ends; the model is that
 * one step, with the game's wall test passed in.
 */
module PacmanPlayer {
  import opened GameCommon

  /**
   * One iteration of move(): the cell ahead is entered unless it is a wall,
   * then the portal check runs on the location reached.
   */
  function StepResult(isWall: WallTest, loc: Location, dir: Direction): Location
  {
    var next := Neighbour(loc, dir);
    var moved := if !isWall(next.x, next.y) then next else loc;
    Wrap(moved, dir, moved)
  }

  /**
   * A step ends on the cell ahead when it is free, on the starting cell when
   * it is a wall, or on the far portal; away from the portals it never
   * enters a wall.
   */
  lemma StepCases(isWall: WallTest, loc: Location, dir: Direction)
    ensures var r := StepResult(isWall, loc, dir); var next := Neighbour(loc, dir);
      (r == next && !isWall(next.x, next.y)) ||
      (r == loc && isWall(next.x, next.y)) ||
      r == LeftPort || r == RightPort
    ensures var r := StepResult(isWall, loc, dir);
      r != LeftPort && r != RightPort && r != loc ==> !isWall(r.x, r.y)
  {
    var next := Neighbour(loc, dir);
    var moved := if !isWall(next.x, next.y) then next else loc;
    WrapCases(moved, dir, moved);
  }

  /**
   * Away from the portals, a free step followed by a step back (the way is
   * free, since the starting cell is free) returns to the start.
   */
  lemma StepBack(isWall: WallTest, loc: Location, dir: Direction)
    requires !isWall(loc.x, loc.y)
    requires var next := Neighbour(loc, dir); !isWall(next.x, next.y)
    requires loc != LeftPort && loc != RightPort
    requires Neighbour(loc, dir) != LeftPort && Neighbour(loc, dir) != RightPort
    ensures StepResult(isWall, StepResult(isWall, loc, dir), Reverse(dir)) == loc
  {
    var next := Neighbour(loc, dir);
    WrapCases(next, dir, next);
    assert StepResult(isWall, loc, dir) == next;
    NeighbourReverse(loc, dir);
    WrapCases(loc, Reverse(dir), loc);
  }

  /** Walking into the left portal heading W comes out at the right portal, and back. */
  lemma PortalRoundTrip(isWall: WallTest)
    requires !isWall(LeftPort.x, LeftPort.y) && !isWall(RightPort.x, RightPort.y)
    ensures StepResult(isWall, Neighbour(LeftPort, E), W) == RightPort
    ensures StepResult(isWall, Neighbour(RightPort, W), E) == LeftPort
  {
    NeighbourReverse(LeftPort, E);
    NeighbourReverse(RightPort, W);
  }

  class Pacman {
    var loc: Location
    var dir: Direction

    /** Pacman(g): starts at (PACMAN_X0, PACMAN_Y0) facing W. */
    constructor ()
      ensures loc == PacmanStart && dir == W
    {
      loc, dir := PacmanStart, W;
    }

    /** setDirection(d). */
    method SetDirection(d: Direction)
      modifies this
      ensures dir == d && loc == old(loc)
    {
      dir := d;
    }

    /** onStart(): back to the starting cell, facing W. */
    method OnStart()
      modifies this
      ensures loc == PacmanStart && dir == W
    {
      loc := PacmanStart;
      dir := W;
    }

    /** One iteration of the loop in move(). */
    method Step(isWall: WallTest)
      modifies this
      ensures dir == old(dir) && loc == StepResult(isWall, old(loc), old(dir))
    {
      var next := Location(loc.x + DX(dir), loc.y + DY(dir));
      if !isWall(next.x, next.y) {
        loc := next;
      }
      if loc == LeftPort && dir == W {
        loc := RightPort;
      } else if loc == RightPort && dir == E {
        loc := LeftPort;
      }
    }
  }
}
