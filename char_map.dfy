/**
 * The character map of the earlier game (HW5/src/map.cpp, HW5/src/map.hpp):
 * a grid of 24 rows of 80 cells, each cell one character.  The file is
 * given as its text; the read loop is the one of MapReader with one
 * character per cell.
 */
module CharMap {
  import opened MapReader

  const Width := 80
  const Height := 24

  /** The cell c holds once the read is over: the character stored last, or what it held before. */
  ghost predicate Holds(c: char, before: char, s: Option<seq<char>>)
  {
    match s
    case Some(raw) => raw == [c]
    case None => c == before
  }

  class Map {
    /** `_cells[y][x]`: Height rows of Width characters. */
    const cells: array2<char>

    ghost predicate Valid()
      reads this
    {
      cells.Length0 == Height && cells.Length1 == Width
    }

    /**
     * Map(filename): every cell starts as a space, then the file is read.
     * next0 is the read buffer's unset starting character.
     */
    constructor (text: seq<char>, next0: char)
      ensures Valid() && fresh(cells)
      ensures forall y, x :: 0 <= y < Height && 0 <= x < Width ==>
        Holds(cells[y, x], ' ', Last(Writes(Width, Height, text, 0, 0, [next0]), y, x))
    {
      var a := new char[Height, Width];
      for y := 0 to Height
        invariant forall i, j :: 0 <= i < y && 0 <= j < Width ==> a[i, j] == ' '
      {
        for x := 0 to Width
          invariant forall i, j :: 0 <= i < y && 0 <= j < Width ==> a[i, j] == ' '
          invariant forall j :: 0 <= j < x ==> a[y, j] == ' '
        {
          a[y, x] := ' ';
        }
      }
      cells := a;
      new;
      ReadFromFile(text, next0);
    }

    /** getCell(x, y). */
    function GetCell(x: int, y: int): char
      requires Valid() && 0 <= x < Width && 0 <= y < Height
      reads this, cells
    {
      cells[y, x]
    }

    /** setCell(x, y, c): only cell (x, y) changes. */
    method SetCell(x: int, y: int, c: char)
      requires Valid() && 0 <= x < Width && 0 <= y < Height
      modifies cells
      ensures GetCell(x, y) == c
      ensures forall j, i :: 0 <= j < Height && 0 <= i < Width && (i, j) != (x, y) ==>
        GetCell(i, j) == old(GetCell(i, j))
    {
      cells[y, x] := c;
    }

    /**
     * readFromFile: each cell the loop stores to inside the grid holds the
     * character stored last; every other cell is unchanged.  The store is
     * guarded by the grid bounds (see Writes for the stores the loop makes
     * outside them).
     */
    method ReadFromFile(text: seq<char>, next0: char)
      requires Valid()
      modifies cells
      ensures forall y, x :: 0 <= y < Height && 0 <= x < Width ==>
        Holds(cells[y, x], old(cells[y, x]), Last(Writes(Width, Height, text, 0, 0, [next0]), y, x))
    {
      var pos, row, col, next := 0, 0, 0, next0;
      ghost var done: seq<Store> := [];
      while pos < |text|
        invariant 0 <= pos <= |text| && 0 <= row && 0 <= col
        invariant Writes(Width, Height, text, 0, 0, [next0]) == done + Writes(Width, Height, text[pos..], row, col, [next])
        invariant forall y, x :: 0 <= y < Height && 0 <= x < Width ==>
          Holds(cells[y, x], old(cells[y, x]), Last(done, y, x))
        decreases |text| - pos
      {
        ghost var prev := next;
        next := text[pos];
        if next == '\n' {
          WritesNewline(Width, Height, text, pos, row, col, [prev]);
          assert [prev][0 := '\n'] == [next];
          pos := pos + 1;
          // the inner loop breaks; `row++ < _height` decides whether to go on
          if row < Height {
            row, col := row + 1, 0;
          } else {
            assert done + [] == done;
            return;
          }
        } else {
          WritesCell(Width, Height, text, pos, row, col, [prev]);
          assert Fetch(text[pos..], [prev]) == [next];
          assert After(text, pos, 1) == pos + 1;
          var s := Store(row, col, [next]);
          ghost var more := if col < Width then Writes(Width, Height, text[pos + 1..], row, col + 1, [next])
            else if row < Height then Writes(Width, Height, text[pos + 1..], row + 1, 0, [next])
            else [];
          Regroup(done, [s], more);
          if row < Height && col < Width {
            cells[row, col] := next;
          }
          forall y, x | 0 <= y < Height && 0 <= x < Width
            ensures Holds(cells[y, x], old(cells[y, x]), Last(done + [s], y, x))
          {
            LastSnoc(done, s, y, x);
          }
          done := done + [s];
          pos := pos + 1;
          // `col++ < _width`, then `row++ < _height`
          if col < Width {
            col := col + 1;
          } else if row < Height {
            row, col := row + 1, 0;
          } else {
            assert done + [] == done;
            return;
          }
        }
      }
      assert done + [] == done;
    }
  }

  /** The text of a map: each row's characters followed by '\n'. */
  function Lines(rows: seq<seq<char>>): seq<char>
  {
    if rows == [] then [] else rows[0] + ['\n'] + Lines(rows[1..])
  }

  /** A row of characters as a row of one-character cells. */
  function Cells(row: seq<char>): (r: seq<seq<char>>)
    ensures |r| == |row| && forall i :: 0 <= i < |row| ==> r[i] == [row[i]]
  {
    seq(|row|, i requires 0 <= i < |row| => [row[i]])
  }

  lemma {:induction false} FlatCells(row: seq<char>)
    ensures Flat(Cells(row)) == row
  {
    if row != [] {
      FlatCells(row[1..]);
      assert Cells(row)[1..] == Cells(row[1..]);
      assert row == [row[0]] + row[1..];
    }
  }

  /** The rows of a map as rows of one-character cells. */
  function CellRows(rows: seq<seq<char>>): (r: seq<seq<seq<char>>>)
    ensures |r| == |rows| && forall i :: 0 <= i < |rows| ==> r[i] == Cells(rows[i])
  {
    seq(|rows|, i requires 0 <= i < |rows| => Cells(rows[i]))
  }

  lemma {:induction false} LinesRender(rows: seq<seq<char>>)
    ensures Lines(rows) == Render(CellRows(rows))
  {
    if rows != [] {
      LinesRender(rows[1..]);
      FlatCells(rows[0]);
      assert CellRows(rows)[1..] == CellRows(rows[1..]);
    }
  }

  /** A line without '\n' makes cells the reader takes one by one. */
  lemma LineCells(row: seq<char>)
    requires '\n' !in row
    ensures CellsOf(1, Cells(row))
  {
    forall c | c in Cells(row) ensures |c| == 1 && |c| > 0 && c[0] != '\n' {
      var k :| 0 <= k < |row| && Cells(row)[k] == c;
      assert c == [row[k]];
    }
  }

  lemma RowsCells(rows: seq<seq<char>>)
    requires forall r :: r in rows ==> |r| <= Width && '\n' !in r
    ensures forall r :: r in CellRows(rows) ==> CellsOf(1, r) && |r| <= Width
  {
    forall r | r in CellRows(rows)
      ensures CellsOf(1, r) && |r| <= Width
    {
      var i :| 0 <= i < |rows| && CellRows(rows)[i] == r;
      assert rows[i] in rows;
      LineCells(rows[i]);
    }
  }

  /**
   * A map file of at most 24 lines of at most 80 characters, none of them
   * '\n', reads back character for character: cell (x, y) ends up holding
   * the x-th character of line y when the line has one, and is not stored
   * to otherwise (so the constructor leaves it a space).
   */
  lemma MapReadsBack(rows: seq<seq<char>>, next0: char, y: int, x: int)
    requires |rows| <= Height
    requires forall r :: r in rows ==> |r| <= Width && '\n' !in r
    requires 0 <= y < Height && 0 <= x < Width
    ensures Last(Writes(Width, Height, Lines(rows), 0, 0, [next0]), y, x) ==
      if y < |rows| && x < |rows[y]| then Some([rows[y][x]]) else None
  {
    LinesRender(rows);
    RowsCells(rows);
    ReadRendered(Width, Height, CellRows(rows), [next0], y, x);
  }
}
