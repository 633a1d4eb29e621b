/**
 * The read loop that both game maps share (Pacman/src/map.cpp:12-43 and
 * HW5/src/map.cpp:12-37): characters are read one cell at a time, a '\n'
 * ends the row, the end of input ends the read, and a row also ends once
 * the column counter passes the width.  A cell is one character in HW5 and
 * three in Pacman; a character read past the end of input leaves the
 * buffer's previous character in place.
 *
 * Writes lists, in order, every store the loop makes as (row, column, cell
 * characters), including the ones that fall outside the grid; Last says
 * what a cell ends up holding.
 */
module MapReader {

  datatype Option<T> = None | Some(value: T)

  /** One store `_cells[row][col] = cell`. */
  datatype Store = Store(row: int, col: int, raw: seq<char>)

  /**
   * The cell read at the front of rest: the first character and, for wider
   * cells, the following ones; `f.get` past the end of input leaves the
   * buffer's old character.
   */
  function Fetch(rest: seq<char>, next: seq<char>): (r: seq<char>)
    requires |rest| > 0 && |next| > 0
    ensures |r| == |next| && r[0] == rest[0]
    ensures |rest| >= |next| ==> r == rest[..|next|]
  {
    seq(|next|, i requires 0 <= i < |next| => if i < |rest| then rest[i] else next[i])
  }

  /**
   * The stores made by the loop from the rest of the input, at the top of
   * the inner loop with the given row, column and cell buffer.
   */
  function Writes(width: int, height: int, rest: seq<char>, row: int, col: int, next: seq<char>): seq<Store>
    requires |next| > 0
    decreases |rest|
  {
    if rest == [] then []
    else if rest[0] == '\n' then
      if row < height then Writes(width, height, rest[1..], row + 1, 0, next[0 := '\n']) else []
    else
      var n := Fetch(rest, next);
      var rest' := if |rest| < |next| then [] else rest[|next|..];
      if col < width then [Store(row, col, n)] + Writes(width, height, rest', row, col + 1, n)
      else if row < height then [Store(row, col, n)] + Writes(width, height, rest', row + 1, 0, n)
      else [Store(row, col, n)]
  }

  /** The characters of the last store to (y, x), if any. */
  function Last(ws: seq<Store>, y: int, x: int): Option<seq<char>>
  {
    if ws == [] then None
    else if ws[|ws| - 1].row == y && ws[|ws| - 1].col == x then Some(ws[|ws| - 1].raw)
    else Last(ws[..|ws| - 1], y, x)
  }

  /** A later store wins. */
  lemma {:induction false} LastConcat(a: seq<Store>, b: seq<Store>, y: int, x: int)
    ensures Last(a + b, y, x) == if Last(b, y, x).Some? then Last(b, y, x) else Last(a, y, x)
    decreases |b|
  {
    if b == [] {
      assert a + b == a;
    } else {
      assert (a + b)[..|a + b| - 1] == a + b[..|b| - 1];
      LastConcat(a, b[..|b| - 1], y, x);
    }
  }

  /** Appending one store changes only the cell it stores to. */
  lemma LastSnoc(ws: seq<Store>, s: Store, y: int, x: int)
    ensures Last(ws + [s], y, x) == if s.row == y && s.col == x then Some(s.raw) else Last(ws, y, x)
  {
    assert (ws + [s])[..|ws|] == ws;
  }

  /** Where the read position is once a cell has been taken from position p. */
  function After(text: seq<char>, p: int, size: nat): (q: int)
    requires 0 <= p <= |text|
    ensures p <= q <= |text|
  {
    if p + size < |text| then p + size else |text|
  }

  /** One iteration of the inner loop on a character other than '\n'. */
  lemma WritesCell(width: int, height: int, text: seq<char>, p: int, row: int, col: int, next: seq<char>)
    requires 0 <= p < |text| && text[p] != '\n' && |next| > 0
    ensures var n := Fetch(text[p..], next);
            var q := After(text, p, |next|);
      Writes(width, height, text[p..], row, col, next) ==
        [Store(row, col, n)] +
        (if col < width then Writes(width, height, text[q..], row, col + 1, n)
         else if row < height then Writes(width, height, text[q..], row + 1, 0, n)
         else [])
  {
    var rest := text[p..];
    var q := After(text, p, |next|);
    assert (if |rest| < |next| then [] else rest[|next|..]) == text[q..];
  }

  /** One iteration of the inner loop on '\n'. */
  lemma WritesNewline(width: int, height: int, text: seq<char>, p: int, row: int, col: int, next: seq<char>)
    requires 0 <= p < |text| && text[p] == '\n' && |next| > 0
    ensures Writes(width, height, text[p..], row, col, next) ==
      if row < height then Writes(width, height, text[p + 1..], row + 1, 0, next[0 := '\n']) else []
  {
    assert text[p..][1..] == text[p + 1..];
  }

  // ---------------------------------------------------------------------
  // Map text made of rows of cells
  // ---------------------------------------------------------------------

  /** The characters of a row's cells, one after another. */
  function Flat(cells: seq<seq<char>>): seq<char>
  {
    if cells == [] then [] else cells[0] + Flat(cells[1..])
  }

  /** A map file: each row's cells followed by '\n'. */
  function Render(rows: seq<seq<seq<char>>>): seq<char>
  {
    if rows == [] then [] else Flat(rows[0]) + ['\n'] + Render(rows[1..])
  }

  /** Cells of `size` characters, none starting with '\n'. */
  ghost predicate CellsOf(size: nat, cells: seq<seq<char>>)
  {
    forall c :: c in cells ==> |c| == size && |c| > 0 && c[0] != '\n'
  }

  /** The stores of one row read from column col. */
  function CellStores(cells: seq<seq<char>>, row: int, col: int): seq<Store>
  {
    if cells == [] then [] else [Store(row, col, cells[0])] + CellStores(cells[1..], row, col + 1)
  }

  /** The stores of the rows read from row `row`. */
  function RowStores(rows: seq<seq<seq<char>>>, row: int): seq<Store>
  {
    if rows == [] then [] else CellStores(rows[0], row, 0) + RowStores(rows[1..], row + 1)
  }

  /** The cell buffer once a row has been read and its '\n' taken. */
  function NextAfter(cells: seq<seq<char>>, next: seq<char>): (r: seq<char>)
    requires |next| > 0 && forall c :: c in cells ==> |c| == |next|
    ensures |r| == |next|
  {
    if cells == [] then next[0 := '\n'] else NextAfter(cells[1..], cells[0])
  }

  lemma Regroup<T>(a: seq<T>, b: seq<T>, c: seq<T>)
    ensures a + b + c == a + (b + c)
  {
  }

  lemma CellsOfTail(size: nat, cells: seq<seq<char>>)
    requires cells != [] && CellsOf(size, cells)
    ensures |cells[0]| == size && CellsOf(size, cells[1..])
  {
    assert cells[0] in cells;
    forall d | d in cells[1..] ensures |d| == size && |d| > 0 && d[0] != '\n' {
      assert d in cells;
    }
  }

  /** One cell read inside the width: it is stored at (row, col) and the column advances. */
  lemma ReadCell(width: int, height: int, c: seq<char>, more: seq<char>, row: int, col: int, next: seq<char>)
    requires |next| > 0 && |c| == |next| && c[0] != '\n' && col < width
    ensures Writes(width, height, c + more, row, col, next)
      == [Store(row, col, c)] + Writes(width, height, more, row, col + 1, c)
  {
    var input := c + more;
    assert input[0] == c[0];
    assert input[..|next|] == c;
    assert input[|next|..] == more;
  }

  /** A '\n' inside the height ends the row. */
  lemma ReadNewline(width: int, height: int, tail: seq<char>, row: int, col: int, next: seq<char>)
    requires |next| > 0 && row < height
    ensures Writes(width, height, ['\n'] + tail, row, col, next)
      == Writes(width, height, tail, row + 1, 0, next[0 := '\n'])
  {
    assert (['\n'] + tail)[1..] == tail;
  }

  /** Reading one row that fits the width stores its cells in order and moves to the next row. */
  lemma {:induction false} ReadRow(width: int, height: int, cells: seq<seq<char>>, tail: seq<char>,
                                   row: int, col: int, next: seq<char>)
    requires |next| > 0 && CellsOf(|next|, cells)
    requires 0 <= col && col + |cells| <= width && row < height
    ensures Writes(width, height, Flat(cells) + ['\n'] + tail, row, col, next)
      == CellStores(cells, row, col) + Writes(width, height, tail, row + 1, 0, NextAfter(cells, next))
    decreases |cells|
  {
    if cells == [] {
      assert Flat(cells) + ['\n'] + tail == ['\n'] + tail;
      ReadNewline(width, height, tail, row, col, next);
    } else {
      CellsOfTail(|next|, cells);
      ReadRow(width, height, cells[1..], tail, row, col + 1, cells[0]);
      ReadRowCons(width, height, cells, tail, row, col, next);
    }
  }

  /** The step of ReadRow: the first cell, then the rest of the row. */
  lemma ReadRowCons(width: int, height: int, cells: seq<seq<char>>, tail: seq<char>,
                    row: int, col: int, next: seq<char>)
    requires |next| > 0 && cells != [] && CellsOf(|next|, cells)
    requires 0 <= col && col < width
    requires Writes(width, height, Flat(cells[1..]) + ['\n'] + tail, row, col + 1, cells[0])
      == CellStores(cells[1..], row, col + 1) + Writes(width, height, tail, row + 1, 0, NextAfter(cells[1..], cells[0]))
    ensures Writes(width, height, Flat(cells) + ['\n'] + tail, row, col, next)
      == CellStores(cells, row, col) + Writes(width, height, tail, row + 1, 0, NextAfter(cells, next))
  {
    var c := cells[0];
    var more := Flat(cells[1..]) + ['\n'] + tail;
    assert c in cells;
    assert Flat(cells) + ['\n'] + tail == c + more by {
      Regroup(c, Flat(cells[1..]), ['\n'] + tail);
      Regroup(Flat(cells[1..]), ['\n'], tail);
      Regroup(c + Flat(cells[1..]), ['\n'], tail);
    }
    ReadCell(width, height, c, more, row, col, next);
  }

  /** Reading map text whose rows fit the grid stores each row's cells, row by row. */
  lemma {:induction false} ReadRows(width: int, height: int, rows: seq<seq<seq<char>>>, row: int, next: seq<char>)
    requires |next| > 0 && forall r :: r in rows ==> CellsOf(|next|, r) && |r| <= width
    requires row + |rows| <= height
    ensures Writes(width, height, Render(rows), row, 0, next) == RowStores(rows, row)
    decreases |rows|
  {
    if rows != [] {
      assert rows[0] in rows;
      ReadRow(width, height, rows[0], Render(rows[1..]), row, 0, next);
      forall r | r in rows[1..]
        ensures CellsOf(|next|, r) && |r| <= width
      {
        assert r in rows;
      }
      ReadRows(width, height, rows[1..], row + 1, NextAfter(rows[0], next));
    }
  }

  /** The cells of one row land in that row, from column col on. */
  lemma {:induction false} LastCellStores(cells: seq<seq<char>>, row: int, col: int, y: int, x: int)
    ensures Last(CellStores(cells, row, col), y, x) ==
      if y == row && col <= x < col + |cells| then Some(cells[x - col]) else None
    decreases |cells|
  {
    if cells != [] {
      LastCellStores(cells[1..], row, col + 1, y, x);
      LastConcat([Store(row, col, cells[0])], CellStores(cells[1..], row, col + 1), y, x);
    }
  }

  /** Row r of the rows lands in grid row row + r. */
  lemma {:induction false} LastRowStores(rows: seq<seq<seq<char>>>, row: int, y: int, x: int)
    ensures Last(RowStores(rows, row), y, x) ==
      if row <= y < row + |rows| && 0 <= x < |rows[y - row]| then Some(rows[y - row][x]) else None
    decreases |rows|
  {
    if rows != [] {
      LastRowStores(rows[1..], row + 1, y, x);
      LastCellStores(rows[0], row, 0, y, x);
      LastConcat(CellStores(rows[0], row, 0), RowStores(rows[1..], row + 1), y, x);
    }
  }

  /**
   * Map text of at most `height` rows of at most `width` cells each is read
   * back cell for cell: cell (y, x) ends up holding the x-th cell of row y
   * when there is one, and is not stored to otherwise.
   */
  lemma ReadRendered(width: int, height: int, rows: seq<seq<seq<char>>>, next: seq<char>, y: int, x: int)
    requires |next| > 0 && forall r :: r in rows ==> CellsOf(|next|, r) && |r| <= width
    requires |rows| <= height
    ensures Last(Writes(width, height, Render(rows), 0, 0, next), y, x) ==
      if 0 <= y < |rows| && 0 <= x < |rows[y]| then Some(rows[y][x]) else None
  {
    ReadRows(width, height, rows, 0, next);
    LastRowStores(rows, 0, y, x);
  }

  // ---------------------------------------------------------------------
  // The bound of the inner loop
  // ---------------------------------------------------------------------

  /**
   * `while (col++ < _width)` tests the column before counting it, so a row
   * holding more than `width` cells makes a store at column `width`, one
   * past the last column of the grid.
   */
  lemma {:induction false} LongRowStoresPastWidth(width: int, height: int, cells: seq<seq<char>>, tail: seq<char>,
                                                  row: int, col: int, next: seq<char>)
    requires |next| > 0 && CellsOf(|next|, cells)
    requires 0 <= col <= width && |cells| > width - col
    ensures Store(row, width, cells[width - col]) in Writes(width, height, Flat(cells) + tail, row, col, next)
    decreases width - col
  {
    var c := cells[0];
    var input := Flat(cells) + tail;
    var more := Flat(cells[1..]) + tail;
    assert c in cells;
    Regroup(c, Flat(cells[1..]), tail);
    assert input == c + more;
    assert input[0] == c[0] != '\n';
    assert input[..|next|] == c && input[|next|..] == more;
    if col < width {
      forall d | d in cells[1..]
        ensures |d| == |c| && d[0] != '\n'
      {
        assert d in cells;
      }
      LongRowStoresPastWidth(width, height, cells[1..], tail, row, col + 1, c);
      assert cells[1..][width - (col + 1)] == cells[width - col];
    }
  }
}
