/**
 * The Pacman board (Pacman/src/map.cpp, Pacman/src/map.hpp): a grid of
 * MAP_HEIGHT rows of MAP_WIDTH cells, each cell three characters wide with
 * a type decided from those characters.  The file is given as its text.
 */
module GameMap {
  import opened MapReader

  const Width := 84
  const Height := 33
  const CellSize := 3

  /** The cell types of map.hpp. */
  datatype CellType = Empty | Dot | NoDot | PowerUp | NoPowerUp | Wall | PortR | PortL | Door

  /** Raw characters and the type they decide. */
  datatype Cell = Cell(raw: seq<char>, kind: CellType)

  /** The three spaces of an empty cell. */
  const Blank := "   "

  /** The types that a cell's characters can spell. */
  predicate Drawn(t: CellType)
  {
    t !in {Wall, NoDot, NoPowerUp}
  }

  /** The characters spelling each drawn type. */
  function Glyph(t: CellType): (g: seq<char>)
    requires Drawn(t)
    ensures |g| == CellSize
  {
    match t
    case Dot => " . "
    case Empty => Blank
    case PowerUp => " O "
    case Door => "___"
    case PortR => "<  "
    case PortL => "  >"
  }

  /**
   * decideCellType: the type spelled by the characters, Wall for anything
   * else; an eaten dot or power-up is never read from the file.
   */
  function DecideCellType(raw: seq<char>): (t: CellType)
    ensures t != NoDot && t != NoPowerUp
  {
    if raw == " . " then Dot
    else if raw == Blank then Empty
    else if raw == " O " then PowerUp
    else if raw == "___" then Door
    else if raw == "<  " then PortR
    else if raw == "  >" then PortL
    else Wall
  }

  /**
   * Glyph and DecideCellType are inverse on the drawn types: every drawn
   * type is read back from its characters, and a cell that is not a wall
   * holds exactly the characters of its type.
   */
  lemma DecideGlyph(t: CellType, raw: seq<char>)
    ensures Drawn(t) ==> DecideCellType(Glyph(t)) == t
    ensures DecideCellType(raw) != Wall ==> Drawn(DecideCellType(raw)) && raw == Glyph(DecideCellType(raw))
  {
  }

  /** The cell that a read leaves: the characters stored last, or the cell as it was. */
  function Stored(before: Cell, s: Option<seq<char>>): Cell
  {
    match s
    case Some(raw) => Cell(raw, DecideCellType(raw))
    case None => before
  }

  /** The cell buffer and read position once one cell has been read from text at p. */
  method TakeCell(text: seq<char>, p: int, next: seq<char>) returns (cell: seq<char>, q: int)
    requires 0 <= p < |text| && |next| == CellSize
    ensures cell == Fetch(text[p..], next) && q == After(text, p, CellSize)
  {
    cell := next[0 := text[p]];
    q := p + 1;
    for i := 1 to CellSize
      invariant |cell| == CellSize && q == After(text, p, i)
      invariant forall k :: 0 <= k < CellSize ==>
        cell[k] == if k < i && p + k < |text| then text[p + k] else next[k]
    {
      if q < |text| {
        cell := cell[i := text[q]];
        q := q + 1;
      }
    }
  }

  class Map {
    /** `_cells[y][x]`: Height rows of Width cells. */
    const cells: array2<Cell>

    ghost predicate Valid()
      reads this
    {
      cells.Length0 == Height && cells.Length1 == Width
    }

    /**
     * Map(filename): every cell starts as three spaces (with a type the
     * source leaves unset, here blankKind), then the file is read.  next0
     * is the cell buffer's unset starting contents.
     */
    constructor (text: seq<char>, blankKind: CellType, next0: seq<char>)
      requires |next0| == CellSize
      ensures Valid() && fresh(cells)
      ensures forall y, x :: 0 <= y < Height && 0 <= x < Width ==>
        cells[y, x] == Stored(Cell(Blank, blankKind), Last(Writes(Width, Height, text, 0, 0, next0), y, x))
    {
      var a := new Cell[Height, Width];
      var blank := Cell(Blank, blankKind);
      for y := 0 to Height
        invariant forall i, j :: 0 <= i < y && 0 <= j < Width ==> a[i, j] == blank
      {
        for x := 0 to Width
          invariant forall i, j :: 0 <= i < y && 0 <= j < Width ==> a[i, j] == blank
          invariant forall j :: 0 <= j < x ==> a[y, j] == blank
        {
          a[y, x] := blank;
        }
      }
      cells := a;
      new;
      ReadFromFile(text, next0);
    }

    /** getCell(x, y). */
    function GetCell(x: int, y: int): Cell
      requires Valid() && 0 <= x < Width && 0 <= y < Height
      reads this, cells
    {
      cells[y, x]
    }

    /** setCell(x, y, c): only cell (x, y) changes. */
    method SetCell(x: int, y: int, c: Cell)
      requires Valid() && 0 <= x < Width && 0 <= y < Height
      modifies cells
      ensures GetCell(x, y) == c
      ensures forall j, i :: 0 <= j < Height && 0 <= i < Width && (i, j) != (x, y) ==>
        GetCell(i, j) == old(GetCell(i, j))
    {
      cells[y, x] := c;
    }

    /**
     * readFromFile: each cell the loop stores to inside the grid holds the
     * characters stored last and the type they decide; every other cell is
     * unchanged.  The store is guarded by the grid bounds (see Writes for
     * the stores the loop makes outside them).
     */
    method ReadFromFile(text: seq<char>, next0: seq<char>)
      requires Valid() && |next0| == CellSize
      modifies cells
      ensures forall y, x :: 0 <= y < Height && 0 <= x < Width ==>
        cells[y, x] == Stored(old(cells[y, x]), Last(Writes(Width, Height, text, 0, 0, next0), y, x))
    {
      var pos, row, col, next := 0, 0, 0, next0;
      ghost var done: seq<Store> := [];
      while pos < |text|
        invariant 0 <= pos <= |text| && 0 <= row && 0 <= col && |next| == CellSize
        invariant Writes(Width, Height, text, 0, 0, next0) == done + Writes(Width, Height, text[pos..], row, col, next)
        invariant forall y, x :: 0 <= y < Height && 0 <= x < Width ==>
          cells[y, x] == Stored(old(cells[y, x]), Last(done, y, x))
        decreases |text| - pos
      {
        if text[pos] == '\n' {
          WritesNewline(Width, Height, text, pos, row, col, next);
          next := next[0 := '\n'];
          pos := pos + 1;
          // the inner loop breaks; `row++ < _height` decides whether to go on
          if row < Height {
            row, col := row + 1, 0;
          } else {
            assert done + [] == done;
            return;
          }
        } else {
          var cell, q := TakeCell(text, pos, next);
          WritesCell(Width, Height, text, pos, row, col, next);
          var s := Store(row, col, cell);
          ghost var more := if col < Width then Writes(Width, Height, text[q..], row, col + 1, cell)
            else if row < Height then Writes(Width, Height, text[q..], row + 1, 0, cell)
            else [];
          Regroup(done, [s], more);
          if row < Height && col < Width {
            cells[row, col] := Cell(cell, DecideCellType(cell));
          }
          forall y, x | 0 <= y < Height && 0 <= x < Width
            ensures cells[y, x] == Stored(old(cells[y, x]), Last(done + [s], y, x))
          {
            LastSnoc(done, s, y, x);
          }
          done := done + [s];
          pos, next := q, cell;
          // `col++ < _width`, then `row++ < _height`
          if col < Width {
            col := col + 1;
          } else if row < Height {
            row, col := row + 1, 0;
          } else {
            assert done + [] == done;
            return;
          }
        }
      }
      assert done + [] == done;
    }
  }

  /**
   * A board file whose rows fit the grid reads back cell for cell: after
   * construction, cell (x, y) holds the x-th cell of line y when the line
   * has one, and is blank otherwise.
   */
  lemma BoardReadsBack(rows: seq<seq<seq<char>>>, blankKind: CellType, next0: seq<char>, y: int, x: int)
    requires |next0| == CellSize && |rows| <= Height
    requires forall r :: r in rows ==> CellsOf(CellSize, r) && |r| <= Width
    requires 0 <= y < Height && 0 <= x < Width
    ensures Stored(Cell(Blank, blankKind), Last(Writes(Width, Height, Render(rows), 0, 0, next0), y, x)) ==
      if y < |rows| && x < |rows[y]| then Cell(rows[y][x], DecideCellType(rows[y][x]))
      else Cell(Blank, blankKind)
  {
    ReadRendered(Width, Height, rows, next0, y, x);
  }
}
