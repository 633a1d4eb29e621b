/**
 * The board vocabulary of the Pacman game (pacman/src/common.hpp): grid
 * locations, the four directions, the ghost states and the fixed cells of
 * the board, with the one-cell step and the portal jump that Pacman and the
 * ghosts share.
 */
module GameCommon {

  /** A cell of the board: x grows to the east, y to the south. */
  datatype Location = Location(x: int, y: int)

  /** The four directions, N being up. */
  datatype Direction = N | E | S | W

  /** The ghost states; ScatterInt marks a fresh change into scatter mode. */
  datatype GhostState = Restart | Jail | Scatter | ScatterInt | Chase | Frightened | Dying

  /** Walls are decided by the game from its map; the game object is not part of this model, so the test is a parameter. */
  type WallTest = (int, int) -> bool

  const RightPort := Location(27, 15)
  const LeftPort := Location(0, 15)

  /** The four cells from which ghosts may not move up. */
  const NoUp: set<Location> := {Location(12, 12), Location(15, 12), Location(12, 25), Location(15, 25)}

  /** The first cell outside the ghost house. */
  const GhostExit := Location(13, 12)

  const BlinkyStart := Location(13, 12)
  const PacmanStart := Location(13, 25)

  const BlinkyCorner := Location(29, -1)
  const PinkyCorner := Location(-1, -1)
  const InkyCorner := Location(29, 29)
  const ClydeCorner := Location(-1, 29)

  /** `(d == E) - (d == W)`. */
  function DX(d: Direction): int
  {
    (if d == E then 1 else 0) - (if d == W then 1 else 0)
  }

  /** `(d == S) - (d == N)`. */
  function DY(d: Direction): int
  {
    (if d == S then 1 else 0) - (if d == N then 1 else 0)
  }

  /** The cell next to l in direction d. */
  function Neighbour(l: Location, d: Direction): Location
  {
    Location(l.x + DX(d), l.y + DY(d))
  }

  /** The cell k steps from l in direction d. */
  function Ahead(l: Location, d: Direction, k: nat): Location
  {
    if k == 0 then l else Neighbour(Ahead(l, d, k - 1), d)
  }

  /** The opposite direction. */
  function Reverse(d: Direction): (r: Direction)
    ensures r != d
  {
    match d
    case N => S
    case S => N
    case E => W
    case W => E
  }

  /** Reversing twice gives the direction back. */
  lemma ReverseReverse(d: Direction)
    ensures Reverse(Reverse(d)) == d
  {
  }

  /** Each direction moves exactly one cell, and distinct directions reach distinct cells. */
  lemma NeighbourDistinct(l: Location, d: Direction, e: Direction)
    ensures Neighbour(l, d) != l
    ensures Neighbour(l, d) == Neighbour(l, e) <==> d == e
  {
  }

  /** A step and a step in the opposite direction cancel out. */
  lemma NeighbourReverse(l: Location, d: Direction)
    ensures Neighbour(Neighbour(l, d), Reverse(d)) == l
  {
  }

  /** k steps move k cells along one axis. */
  lemma {:induction false} AheadOffset(l: Location, d: Direction, k: nat)
    ensures Ahead(l, d, k) == Location(l.x + k * DX(d), l.y + k * DY(d))
  {
    if k > 0 {
      AheadOffset(l, d, k - 1);
    }
  }

  /**
   * The portal check: at the left portal heading W the result is the right
   * portal, at the right portal heading E the left portal, otherwise the
   * location already chosen.
   */
  function Wrap(at: Location, d: Direction, otherwise: Location): Location
  {
    if at == LeftPort && d == W then RightPort
    else if at == RightPort && d == E then LeftPort
    else otherwise
  }

  /** The portals lead to each other, and no other cell or direction is affected. */
  lemma WrapCases(at: Location, d: Direction, otherwise: Location)
    ensures Wrap(at, d, otherwise) != otherwise ==> Wrap(at, d, otherwise) in {LeftPort, RightPort}
    ensures Wrap(LeftPort, W, otherwise) == RightPort && Wrap(RightPort, E, otherwise) == LeftPort
    ensures at != LeftPort && at != RightPort ==> Wrap(at, d, otherwise) == otherwise
    ensures d != W && d != E ==> Wrap(at, d, otherwise) == otherwise
  {
  }
}
