/**
 * The ghosts (pacman/src/ghost.cpp, pacman/src/ghost.hpp): the move mask a
 * ghost computes from the walls around it, the portal jump when it moves,
 * its state and target accessors, and the target each of the four ghosts
 * aims at in the current state.
 *
 * The four C++ subclasses differ only in onStart and in their target
 * formula; here one class carries the ghost's kind.  The choice among the
 * offered moves compares floating-point distances; the random override when
 * frightened compares its draw with the integer `1/++dirs` and never changes
 * that pick (FrightenedPickIsNearest).  The choice is a parameter of
 * UpdateLocation, required to be an offered direction.
 */
module Ghosts {
  import opened GameCommon

  datatype Kind = Blinky | Pinky | Inky | Clyde

  // ---------------------------------------------------------------------
  // getPossibleMoves
  // ---------------------------------------------------------------------

  /** The bit of each direction in the move mask: _N, _E, _S, _W. */
  function DirBit(d: Direction): bv8
  {
    match d
    case N => 0x1
    case E => 0x2
    case S => 0x4
    case W => 0x8
  }

  /** The cell in direction d is not a wall, and d is not N from a no-up cell. */
  predicate Open(isWall: WallTest, loc: Location, d: Direction)
  {
    var c := Neighbour(loc, d);
    !isWall(c.x, c.y) && (d == N ==> loc !in NoUp)
  }

  /** An open direction is offered unless it reverses the ghost, which only ScatterInt allows. */
  predicate Offered(isWall: WallTest, loc: Location, dir: Direction, st: GhostState, d: Direction)
  {
    Open(isWall, loc, d) && (d != Reverse(dir) || st == ScatterInt)
  }

  function BitIf(b: bool, d: Direction): bv8
  {
    if b then DirBit(d) else 0
  }

  /** The mask getPossibleMoves returns. */
  function Moves(isWall: WallTest, loc: Location, dir: Direction, st: GhostState): bv8
  {
    BitIf(Offered(isWall, loc, dir, st, W), W) | BitIf(Offered(isWall, loc, dir, st, N), N) |
    BitIf(Offered(isWall, loc, dir, st, S), S) | BitIf(Offered(isWall, loc, dir, st, E), E)
  }

  /** The state getPossibleMoves leaves: offering the reverse uses up ScatterInt. */
  function StateAfterMoves(isWall: WallTest, loc: Location, dir: Direction, st: GhostState): GhostState
  {
    if st == ScatterInt && Open(isWall, loc, Reverse(dir)) then Scatter else st
  }

  /** A direction's bit is set in the mask exactly when that direction is offered. */
  lemma MovesBit(isWall: WallTest, loc: Location, dir: Direction, st: GhostState, d: Direction)
    ensures Moves(isWall, loc, dir, st) & DirBit(d) != 0 <==> Offered(isWall, loc, dir, st, d)
  {
    var w, n, s, e :=
      Offered(isWall, loc, dir, st, W), Offered(isWall, loc, dir, st, N),
      Offered(isWall, loc, dir, st, S), Offered(isWall, loc, dir, st, E);
    assert Moves(isWall, loc, dir, st) == BitIf(w, W) | BitIf(n, N) | BitIf(s, S) | BitIf(e, E);
    match d
    case N =>
      assert (BitIf(w, W) | BitIf(n, N) | BitIf(s, S) | BitIf(e, E)) & 1 == BitIf(n, N);
    case E =>
      assert (BitIf(w, W) | BitIf(n, N) | BitIf(s, S) | BitIf(e, E)) & 2 == BitIf(e, E);
    case S =>
      assert (BitIf(w, W) | BitIf(n, N) | BitIf(s, S) | BitIf(e, E)) & 4 == BitIf(s, S);
    case W =>
      assert (BitIf(w, W) | BitIf(n, N) | BitIf(s, S) | BitIf(e, E)) & 8 == BitIf(w, W);
  }

  /**
   * What the mask promises: an offered direction leads to a cell that is not
   * a wall, N is never offered from a no-up cell, and the reverse of the
   * current direction is offered only in ScatterInt.
   */
  lemma MovesSound(isWall: WallTest, loc: Location, dir: Direction, st: GhostState, d: Direction)
    ensures Moves(isWall, loc, dir, st) & DirBit(d) != 0 ==>
      !isWall(Neighbour(loc, d).x, Neighbour(loc, d).y)
    ensures loc in NoUp ==> Moves(isWall, loc, dir, st) & DirBit(N) == 0
    ensures Moves(isWall, loc, dir, st) & DirBit(Reverse(dir)) != 0 ==> st == ScatterInt
  {
    MovesBit(isWall, loc, dir, st, d);
    MovesBit(isWall, loc, dir, st, N);
    MovesBit(isWall, loc, dir, st, Reverse(dir));
  }

  /**
   * The reversal is one-shot: offering it turns ScatterInt into Scatter, and
   * with that state the reverse is no longer offered; when it is not offered
   * the state is left alone.
   */
  lemma ReversalOnce(isWall: WallTest, loc: Location, dir: Direction, st: GhostState)
    ensures var st' := StateAfterMoves(isWall, loc, dir, st);
      (Moves(isWall, loc, dir, st) & DirBit(Reverse(dir)) != 0 <==> st' != st) &&
      (st' != st ==> st == ScatterInt && st' == Scatter) &&
      Moves(isWall, loc, dir, st') & DirBit(Reverse(dir)) == 0
  {
    var st' := StateAfterMoves(isWall, loc, dir, st);
    MovesBit(isWall, loc, dir, st, Reverse(dir));
    MovesBit(isWall, loc, dir, st', Reverse(dir));
  }

  /** The effect of one block of getPossibleMoves on the mask and the state. */
  function OfferStep(d: Direction, open: bool, dir: Direction, acc: (bv8, GhostState)): (bv8, GhostState)
  {
    var (m, st) := acc;
    if open && dir == Reverse(d) && st == ScatterInt then (m | DirBit(d), Scatter)
    else if open && dir != Reverse(d) then (m | DirBit(d), st)
    else (m, st)
  }

  /** The four blocks in the source's order compute the mask and the state after it. */
  lemma OfferSteps(isWall: WallTest, loc: Location, dir: Direction, st: GhostState)
    ensures OfferStep(E, Open(isWall, loc, E), dir,
              OfferStep(S, Open(isWall, loc, S), dir,
                OfferStep(N, Open(isWall, loc, N), dir,
                  OfferStep(W, Open(isWall, loc, W), dir, (0, st)))))
      == (Moves(isWall, loc, dir, st), StateAfterMoves(isWall, loc, dir, st))
  {
    var w, n, s, e := Open(isWall, loc, W), Open(isWall, loc, N), Open(isWall, loc, S), Open(isWall, loc, E);
    var ow, on, os, oe :=
      Offered(isWall, loc, dir, st, W), Offered(isWall, loc, dir, st, N),
      Offered(isWall, loc, dir, st, S), Offered(isWall, loc, dir, st, E);
    var a := OfferStep(W, w, dir, (0, st));
    assert a.0 == BitIf(ow, W) && (dir != E ==> a.1 == st);
    var b := OfferStep(N, n, dir, a);
    assert b.0 == BitIf(ow, W) | BitIf(on, N) && (dir !in {E, S} ==> b.1 == st);
    var c := OfferStep(S, s, dir, b);
    assert c.0 == BitIf(ow, W) | BitIf(on, N) | BitIf(os, S) && (dir == W ==> c.1 == st);
    var f := OfferStep(E, e, dir, c);
    assert f.0 == Moves(isWall, loc, dir, st);
  }

  // ---------------------------------------------------------------------
  // updateLocation
  // ---------------------------------------------------------------------

  /**
   * Where updateLocation puts the ghost: with no move offered it keeps its
   * place and direction; otherwise it steps in the chosen direction.  Either
   * way the portal check on the old location may send it to the far portal.
   */
  function NextPlace(moves: bv8, loc: Location, dir: Direction, choice: Direction): (Location, Direction)
  {
    var bestLoc := if moves == 0 then loc else Neighbour(loc, choice);
    var bestDir := if moves == 0 then dir else choice;
    (Wrap(loc, bestDir, bestLoc), bestDir)
  }

  /**
   * A ghost that moves takes an offered direction: it never enters a wall
   * except through a portal, and never turns back unless it was in ScatterInt.
   */
  lemma NextPlaceSound(isWall: WallTest, loc: Location, dir: Direction, st: GhostState, choice: Direction)
    requires Moves(isWall, loc, dir, st) & DirBit(choice) != 0
    ensures var (l, d) := NextPlace(Moves(isWall, loc, dir, st), loc, dir, choice);
      d == choice &&
      (l == Neighbour(loc, choice) || l == LeftPort || l == RightPort) &&
      (l != LeftPort && l != RightPort ==> !isWall(l.x, l.y)) &&
      (d == Reverse(dir) ==> st == ScatterInt)
  {
    MovesBit(isWall, loc, dir, st, choice);
    var m := Moves(isWall, loc, dir, st);
    assert m != 0;
    WrapCases(loc, choice, Neighbour(loc, choice));
  }

  /**
   * The state of updateLocation's scan as written: the best distance so far
   * (-1 before any), the direction picked, and the `dirs` counter.
   */
  datatype Pick = Pick(bestDist: real, bestDir: Direction, dirs: int)

  /**
   * One of the W, S, E blocks of updateLocation: the distance test, then,
   * when frightened, the chance test `u < 1/++dirs`, where u is the drawn
   * `(float) rand()/RAND_MAX` and `1/++dirs` divides integers.  The counter
   * only moves when frightened, since `&&` skips the increment otherwise.
   */
  function PickStep(p: Pick, d: Direction, dist: real, frightened: bool, u: real): (r: Pick)
    requires p.dirs >= 0
    ensures r.dirs >= p.dirs
  {
    var q := if p.bestDist < 0.0 || dist < p.bestDist then Pick(dist, d, p.dirs) else p;
    if frightened then
      var n := q.dirs + 1;
      if u < (1 / n) as real then Pick(q.bestDist, d, n) else q.(dirs := n)
    else q
  }

  /**
   * updateLocation's choice as written, over the offered directions of
   * `moves` in the order N, W, S, E; dist(d) is the floating-point distance
   * from the step in direction d to the target and u(d) the draw of d's
   * block.
   */
  function PickAsWritten(moves: bv8, dir: Direction, dist: Direction -> real,
                         frightened: bool, u: Direction -> real): Pick
  {
    var p0 := Pick(-1.0, dir, 0);
    var p1 := if moves & DirBit(N) != 0 then Pick(dist(N), N, 1) else p0;
    var p2 := if moves & DirBit(W) != 0 then PickStep(p1, W, dist(W), frightened, u(W)) else p1;
    var p3 := if moves & DirBit(S) != 0 then PickStep(p2, S, dist(S), frightened, u(S)) else p2;
    if moves & DirBit(E) != 0 then PickStep(p3, E, dist(E), frightened, u(E)) else p3
  }

  /**
   * The distance pick is an offered direction no farther from the target
   * than any other offered one.
   */
  lemma PickIsNearest(moves: bv8, dir: Direction, dist: Direction -> real, u: Direction -> real, d: Direction)
    requires forall e :: dist(e) >= 0.0
    requires moves & DirBit(d) != 0
    ensures var r := PickAsWritten(moves, dir, dist, false, u).bestDir;
      moves & DirBit(r) != 0 && dist(r) <= dist(d)
  {
  }

  /**
   * The frightened override never changes the pick: the first offered
   * direction compares its draw with 1/1 but is already the distance pick,
   * and every later one compares with 1/n == 0, which no draw in [0, 1] is
   * below.  So a frightened ghost moves like any other, against the source's
   * comment promising an equal chance for every direction.
   */
  lemma FrightenedPickIsNearest(moves: bv8, dir: Direction, dist: Direction -> real, u: Direction -> real)
    requires forall e :: dist(e) >= 0.0
    requires forall e :: 0.0 <= u(e) <= 1.0
    ensures PickAsWritten(moves, dir, dist, true, u).bestDir == PickAsWritten(moves, dir, dist, false, u).bestDir
  {
  }

  // ---------------------------------------------------------------------
  // Targets
  // ---------------------------------------------------------------------

  /** Pinky's chase target: four cells ahead of Pacman. */
  function PinkyChase(pac: Location, pacDir: Direction): (t: Location)
    ensures t == Ahead(pac, pacDir, 4)
  {
    AheadOffset(pac, pacDir, 4);
    Location(pac.x + 4 * DX(pacDir), pac.y + 4 * DY(pacDir))
  }

  /**
   * Inky's chase target: from Inky's own location, twice the vector from
   * Blinky to the cell two ahead of Pacman.
   */
  function InkyChase(loc: Location, pac: Location, pacDir: Direction, blinky: Location): (t: Location)
    ensures var b := Ahead(pac, pacDir, 2);
      t.x - loc.x == 2 * (b.x - blinky.x) && t.y - loc.y == 2 * (b.y - blinky.y)
  {
    AheadOffset(pac, pacDir, 2);
    var ax := pac.x + 2 * DX(pacDir);
    var ay := pac.y + 2 * DY(pacDir);
    Location(loc.x + 2 * (ax - blinky.x), loc.y + 2 * (ay - blinky.y))
  }

  /** With Blinky two cells ahead of Pacman, Inky targets its own cell; Blinky moving one cell moves the target two cells the other way. */
  lemma InkyChaseShift(loc: Location, pac: Location, pacDir: Direction, blinky: Location, d: Direction)
    ensures blinky == Ahead(pac, pacDir, 2) ==> InkyChase(loc, pac, pacDir, blinky) == loc
    ensures InkyChase(loc, pac, pacDir, Neighbour(blinky, d)) ==
      Ahead(InkyChase(loc, pac, pacDir, blinky), Reverse(d), 2)
  {
    AheadOffset(InkyChase(loc, pac, pacDir, blinky), Reverse(d), 2);
  }

  /** The corner each ghost heads for in scatter mode. */
  function Corner(k: Kind): Location
  {
    match k
    case Blinky => BlinkyCorner
    case Pinky => PinkyCorner
    case Inky => InkyCorner
    case Clyde => ClydeCorner
  }

  /**
   * The target part of each ghost's move loop: in Chase the ghost's own
   * formula, in Scatter or ScatterInt its corner, and a Dying ghost that has
   * reached its target takes the game's state.  Clyde chases Pacman only when
   * he is more than 8 cells away (clydeFar), which the game decides with a
   * floating-point distance.
   */
  function Aim(k: Kind, st: GhostState, tgt: Location, loc: Location,
               pac: Location, pacDir: Direction, blinky: Location,
               clydeFar: bool, gameState: GhostState): (r: (GhostState, Location))
    ensures st != Dying ==> r.0 == st
    ensures st == Dying ==> r.1 == tgt && (r.0 == if tgt == loc then gameState else Dying)
    ensures (st == Scatter || st == ScatterInt) ==> r.1 == Corner(k)
    ensures st == Chase && (k == Blinky || (k == Clyde && clydeFar)) ==> r.1 == pac
    ensures st == Chase && k == Pinky ==> r.1 == Ahead(pac, pacDir, 4)
    ensures st == Chase && k == Inky ==> r.1 == InkyChase(loc, pac, pacDir, blinky)
    ensures st == Chase && k == Clyde && !clydeFar ==> r.1 == ClydeCorner
    ensures st !in {Chase, Scatter, ScatterInt} ==> r.1 == tgt
  {
    if st == Chase then
      var t := match k
        case Blinky => pac
        case Pinky => PinkyChase(pac, pacDir)
        case Inky => InkyChase(loc, pac, pacDir, blinky)
        case Clyde => if clydeFar then pac else ClydeCorner;
      (st, t)
    else if st == Scatter || st == ScatterInt then (st, Corner(k))
    else if st == Dying && tgt == loc then (gameState, tgt)
    else (st, tgt)
  }

  // ---------------------------------------------------------------------
  // The object
  // ---------------------------------------------------------------------

  class Ghost {
    const kind: Kind
    var loc: Location
    var dir: Direction
    var st: GhostState
    var tgt: Location
    /** Set by restart(); the next loop iteration runs onStart. */
    var rstrt: bool

    /**
     * Ghost(g): at (0, 0) facing N, in Jail, targeting (0, 0).  The source
     * leaves the restart flag unset, so the contract says nothing about it.
     */
    constructor (k: Kind)
      ensures kind == k && loc == Location(0, 0) && dir == N && st == Jail && tgt == Location(0, 0)
    {
      kind := k;
      loc, dir, st, tgt := Location(0, 0), N, Jail, Location(0, 0);
      rstrt := false;
    }

    /** getPossibleMoves(): the mask of offered directions, W, N, S, E in that order. */
    method PossibleMoves(isWall: WallTest) returns (moves: bv8)
      modifies this
      ensures moves == Moves(isWall, old(loc), old(dir), old(st))
      ensures st == StateAfterMoves(isWall, old(loc), old(dir), old(st))
      ensures loc == old(loc) && dir == old(dir) && tgt == old(tgt) && rstrt == old(rstrt)
    {
      // The wall tests do not depend on the ghost's fields, so all four are
      // taken before the blocks run.
      var openW := !isWall(loc.x - 1, loc.y);
      var openN := !isWall(loc.x, loc.y - 1) && loc != Location(12, 12) && loc != Location(15, 12) &&
        loc != Location(12, 25) && loc != Location(15, 25);
      var openS := !isWall(loc.x, loc.y + 1);
      var openE := !isWall(loc.x + 1, loc.y);
      assert openN == Open(isWall, loc, N) by {
        assert (loc in NoUp) == (loc == Location(12, 12) || loc == Location(15, 12) ||
          loc == Location(12, 25) || loc == Location(15, 25));
      }
      assert openW == Open(isWall, loc, W) && openS == Open(isWall, loc, S) && openE == Open(isWall, loc, E);
      ghost var st0 := st;
      moves := 0;
      moves := Offer(W, openW, moves);
      moves := Offer(N, openN, moves);
      moves := Offer(S, openS, moves);
      moves := Offer(E, openE, moves);
      OfferSteps(isWall, loc, dir, st0);
    }

    /**
     * One of the four blocks of getPossibleMoves: when the cell in direction
     * d is open, d's bit is added unless d turns the ghost back; turning back
     * is allowed once in ScatterInt, which then becomes Scatter.
     */
    method Offer(d: Direction, open: bool, moves: bv8) returns (m: bv8)
      modifies this
      ensures (m, st) == OfferStep(d, open, dir, (moves, old(st)))
      ensures loc == old(loc) && dir == old(dir) && tgt == old(tgt) && rstrt == old(rstrt)
    {
      m := moves;
      if open {
        if dir == Reverse(d) && st == ScatterInt {
          st := Scatter;
          m := m | DirBit(d);
        } else if dir != Reverse(d) {
          m := m | DirBit(d);
        }
      }
    }

    /**
     * updateLocation(): `choice` is the offered direction the distance
     * comparison picks.  The ghost steps that way (or stays when nothing is
     * offered) and the portal check runs on its old location.
     */
    method UpdateLocation(isWall: WallTest, choice: Direction)
      requires var m := Moves(isWall, loc, dir, st); m != 0 ==> m & DirBit(choice) != 0
      modifies this
      ensures (loc, dir) == NextPlace(Moves(isWall, old(loc), old(dir), old(st)), old(loc), old(dir), choice)
      ensures st == StateAfterMoves(isWall, old(loc), old(dir), old(st))
      ensures tgt == old(tgt) && rstrt == old(rstrt)
    {
      var moves := PossibleMoves(isWall);
      var bestLoc, bestDir := loc, dir;
      if moves != 0 {
        bestLoc, bestDir := Neighbour(loc, choice), choice;
      }
      if loc == LeftPort && bestDir == W {
        bestLoc := RightPort;
      } else if loc == RightPort && bestDir == E {
        bestLoc := LeftPort;
      }
      loc, dir := bestLoc, bestDir;
    }

    /** setState(state). */
    method SetState(state: GhostState)
      modifies this
      ensures st == state && loc == old(loc) && dir == old(dir) && tgt == old(tgt) && rstrt == old(rstrt)
    {
      st := state;
    }

    /** getState(). */
    function GetState(): GhostState
      reads this
    {
      st
    }

    /** onDeath(): head for the ghost house exit. */
    method OnDeath()
      modifies this
      ensures tgt == GhostExit && loc == old(loc) && dir == old(dir) && st == old(st) && rstrt == old(rstrt)
    {
      tgt := GhostExit;
    }

    /** restart(): ask the move loop to run onStart. */
    method Restart()
      modifies this
      ensures rstrt && loc == old(loc) && dir == old(dir) && st == old(st) && tgt == old(tgt)
    {
      rstrt := true;
    }

    /**
     * onStart() as it ends: Blinky starts outside the ghost house, the other
     * three leave it through the exit once their wait is over; all take the
     * game's state.
     */
    method OnStart(gameState: GhostState)
      modifies this
      ensures !rstrt && st == gameState && dir == old(dir) && tgt == old(tgt)
      ensures loc == if kind == Blinky then BlinkyStart else GhostExit
    {
      rstrt := false;
      if kind == Blinky {
        loc := BlinkyStart;
      } else {
        loc := GhostExit;
      }
      st := gameState;
    }

    /** The target step at the top of each ghost's move loop. */
    method Target(pac: Location, pacDir: Direction, blinky: Location, clydeFar: bool, gameState: GhostState)
      modifies this
      ensures (st, tgt) == Aim(kind, old(st), old(tgt), old(loc), pac, pacDir, blinky, clydeFar, gameState)
      ensures loc == old(loc) && dir == old(dir) && rstrt == old(rstrt)
    {
      if st == Chase {
        match kind
        case Blinky =>
          tgt := pac;
        case Pinky =>
          tgt := Location(pac.x + 4 * DX(pacDir), pac.y + 4 * DY(pacDir));
        case Inky =>
          var ax := pac.x + 2 * DX(pacDir);
          var ay := pac.y + 2 * DY(pacDir);
          tgt := Location(loc.x + 2 * (ax - blinky.x), loc.y + 2 * (ay - blinky.y));
        case Clyde =>
          tgt := if clydeFar then pac else ClydeCorner;
      } else if st == Scatter || st == ScatterInt {
        tgt := Corner(kind);
      } else if st == Dying && tgt == loc {
        st := gameState;
      }
    }
  }
}
