/**
 * The editor's document (vim/src/document.hpp, vim/src/document.cpp).
 *
 * A document is a list of lines, each line keeping its own terminator
 * character, a cursor and a dirty flag. The pure functions below describe one
 * editing step each on a Buffer value; class Document performs the same steps
 * in place and is proved to agree with them. The lemmas state what the steps
 * mean for the document's text: the concatenation of all its lines.
 */
module TextBuffer {
  import opened Outcomes

  type Line = seq<char>

  datatype Cursor = Cursor(line: int, col: int)

  /** The value a Document holds: its lines, its cursor and its dirty flag. */
  datatype Buffer = Buffer(lines: seq<Line>, cursor: Cursor, dirty: bool)

  function Min(a: int, b: int): int { if a <= b then a else b }

  function Max(a: int, b: int): int { if a >= b then a else b }

  /** The characters the word motions treat as separators. */
  predicate IsBlank(ch: char) { ch == ' ' || ch == '\n' }

  /** The characters insert treats as line breaks. */
  predicate IsBreak(ch: char) { ch == '\n' || ch == '\r' }

  /** At least one line, and no line is empty (each holds at least its terminator). */
  predicate WellFormed(lines: seq<Line>)
  {
    |lines| > 0 && forall i :: 0 <= i < |lines| ==> |lines[i]| > 0
  }

  /** Every line ends with '\n'. */
  predicate Terminated(lines: seq<Line>)
  {
    forall i :: 0 <= i < |lines| ==> |lines[i]| > 0 && lines[i][|lines[i]| - 1] == '\n'
  }

  /** Every line holds exactly one '\n', as its last character: what a file read produces. */
  predicate OneLinePerLine(lines: seq<Line>)
  {
    Terminated(lines) &&
    forall i, j :: 0 <= i < |lines| && 0 <= j < |lines[i]| - 1 ==> lines[i][j] != '\n'
  }

  /** The cursor stands on a character of an existing line. */
  predicate OnText(lines: seq<Line>, c: Cursor)
  {
    0 <= c.line < |lines| && 0 <= c.col < |lines[c.line]|
  }

  /** Position a is not after position b (line first, then column). */
  predicate NotAfter(a: Cursor, b: Cursor)
  {
    a.line < b.line || (a.line == b.line && a.col <= b.col)
  }

  /** The text of the document: all lines, terminators included, one after another. */
  function Text(lines: seq<Line>): seq<char>
  {
    if lines == [] then [] else lines[0] + Text(lines[1..])
  }

  /** Where a cursor points into Text(lines). */
  function Offset(lines: seq<Line>, c: Cursor): int
    requires 0 <= c.line <= |lines|
  {
    |Text(lines[..c.line])| + c.col
  }

  // ---------------------------------------------------------------------
  // Facts about Text
  // ---------------------------------------------------------------------

  lemma {:induction false} TextAppend(a: seq<Line>, b: seq<Line>)
    ensures Text(a + b) == Text(a) + Text(b)
  {
    if a == [] {
      assert a + b == b;
    } else {
      assert (a + b)[1..] == a[1..] + b;
      TextAppend(a[1..], b);
    }
  }

  /** The text around one line. */
  lemma TextAround(lines: seq<Line>, k: int)
    requires 0 <= k < |lines|
    ensures Text(lines) == Text(lines[..k]) + lines[k] + Text(lines[k + 1..])
  {
    var tail := lines[k..];
    assert lines == lines[..k] + tail;
    TextAppend(lines[..k], tail);
    assert tail[0] == lines[k] && tail[1..] == lines[k + 1..];
  }

  /** Cutting A + s + C inside s. */
  lemma SliceInside(A: seq<char>, s: seq<char>, C: seq<char>, i: int)
    requires 0 <= i <= |s|
    ensures (A + s + C)[..|A| + i] == A + s[..i]
    ensures (A + s + C)[|A| + i..] == s[i..] + C
  {
    var t := A + s + C;
    assert forall m :: 0 <= m < |A| + i ==> t[m] == (A + s[..i])[m];
    assert forall m :: |A| + i <= m < |t| ==> t[m] == (s[i..] + C)[m - |A| - i];
  }

  /** A cursor on the text points inside it. */
  lemma OffsetInText(lines: seq<Line>, c: Cursor)
    requires OnText(lines, c)
    ensures 0 <= Offset(lines, c) < |Text(lines)|
  {
    TextAround(lines, c.line);
  }

  /** Removing the character at |A| + i - 1 of A + s + C removes s[i - 1]. */
  lemma RemoveInside(A: seq<char>, s: seq<char>, C: seq<char>, i: int)
    requires 0 < i <= |s|
    ensures (A + s + C)[|A| + i - 1] == s[i - 1]
    ensures (A + s + C)[..|A| + i - 1] + (A + s + C)[|A| + i..] == A + (s[..i - 1] + s[i..]) + C
  {
    SliceInside(A, s, C, i - 1);
    SliceInside(A, s, C, i);
    assert (A + s[..i - 1]) + (s[i..] + C) == A + (s[..i - 1] + s[i..]) + C;
  }

  /** Replacing lines by a non-empty one keeps the buffer well formed. */
  lemma WellFormedSplice(P: seq<Line>, x: Line, R: seq<Line>)
    requires forall i :: 0 <= i < |P| ==> |P[i]| > 0
    requires forall i :: 0 <= i < |R| ==> |R[i]| > 0
    requires |x| > 0
    ensures WellFormed(P + [x] + R)
  {
    var t := P + [x] + R;
    forall i | 0 <= i < |t|
      ensures |t[i]| > 0
    {
      if i < |P| {
        assert t[i] == P[i];
      } else if i > |P| {
        assert t[i] == R[i - |P| - 1];
      }
    }
  }

  lemma TextPair(a: Line, b: Line)
    ensures Text([a, b]) == a + b
  {
    assert [a, b][1..] == [b];
    assert |[b][1..]| == 0;
    assert Text([b]) == b + Text([]);
    assert Text([a, b]) == a + Text([b]);
  }

  // ---------------------------------------------------------------------
  // setCursor (document.cpp:83-100)
  // ---------------------------------------------------------------------

  /**
   * The cursor setCursor settles on: the line is clamped into the file, the
   * column to the line's last character before its terminator, or onto the
   * terminator itself when incNL is set.
   */
  function ClampCursor(lines: seq<Line>, line: int, col: int, incNL: bool): (r: Cursor)
    requires |lines| > 0
    ensures 0 <= r.line < |lines| && 0 <= r.col
    ensures r.col <= Max(0, |lines[r.line]| - (if incNL then 1 else 2))
    ensures 0 <= line < |lines| ==> r.line == line
    ensures 0 <= line < |lines| && 0 <= col <= |lines[line]| - (if incNL then 1 else 2) ==>
              r == Cursor(line, col)
    ensures WellFormed(lines) ==> OnText(lines, r)
  {
    var l := Min(Max(line, 0), |lines| - 1);
    var c := Max(col, 0);
    Cursor(l, Max(0, Min(c, |lines[l]| - (if incNL then 1 else 2))))
  }

  // ---------------------------------------------------------------------
  // insert (document.cpp:124-145)
  // ---------------------------------------------------------------------

  /**
   * insert(c): c goes in at the cursor and the cursor moves past it; a line
   * break also splits the line after c, and the cursor goes to the start of
   * the new line.
   */
  function InsertAtCursor(b: Buffer, c: char): (r: Buffer)
    requires OnText(b.lines, b.cursor)
    ensures WellFormed(b.lines) ==> WellFormed(r.lines)
  {
    var L, k := b.cursor.line, b.cursor.col;
    var s := b.lines[L];
    if IsBreak(c) then
      Buffer(b.lines[..L] + [s[..k] + [c], s[k..]] + b.lines[L + 1..], Cursor(L + 1, 0), true)
    else
      Buffer(b.lines[L := s[..k] + [c] + s[k..]], Cursor(L, k + 1), true)
  }

  /** insert's statements on a break character: the line is cut after c and the rest becomes the next line. */
  lemma SplitSteps(lines: seq<Line>, L: int, k: int, c: char)
    requires 0 <= L < |lines| && 0 <= k <= |lines[L]|
    ensures var s := lines[L];
      var f1 := lines[L := s[..k] + [c] + s[k..]];
      var f2 := f1[L := f1[L][..k + 1]];
      f2[..L + 1] + [f1[L][k + 1..]] + f2[L + 1..] == lines[..L] + [s[..k] + [c], s[k..]] + lines[L + 1..]
  {
    var s := lines[L];
    var f1 := lines[L := s[..k] + [c] + s[k..]];
    assert f1[L][..k + 1] == s[..k] + [c];
    assert f1[L][k + 1..] == s[k..];
  }

  /** Inserting puts c into the text at the cursor's offset and leaves the cursor just after it. */
  lemma InsertAtCursorText(b: Buffer, c: char)
    requires WellFormed(b.lines) && OnText(b.lines, b.cursor)
    ensures 0 <= Offset(b.lines, b.cursor) <= |Text(b.lines)|
    ensures var r := InsertAtCursor(b, c);
      WellFormed(r.lines) && OnText(r.lines, r.cursor) && r.dirty &&
      Text(r.lines) == Text(b.lines)[..Offset(b.lines, b.cursor)] + [c] + Text(b.lines)[Offset(b.lines, b.cursor)..] &&
      Offset(r.lines, r.cursor) == Offset(b.lines, b.cursor) + 1
  {
    OffsetInText(b.lines, b.cursor);
    var r := InsertAtCursor(b, c);
    var L, k := b.cursor.line, b.cursor.col;
    var s := b.lines[L];
    var P, R := b.lines[..L], b.lines[L + 1..];
    TextAround(b.lines, L);
    var T := Text(b.lines);
    var off := Offset(b.lines, b.cursor);
    assert T == Text(P) + s + Text(R);
    assert T[..off] == Text(P) + s[..k];
    assert T[off..] == s[k..] + Text(R);
    if IsBreak(c) {
      var a, d := s[..k] + [c], s[k..];
      assert r.lines == P + [a, d] + R;
      SplitText(P, a, d, R);
    } else {
      assert r.lines[..L] == P && r.lines[L + 1..] == R;
      TextAround(r.lines, L);
    }
    Regroup(Text(P), s[..k], c, s[k..], Text(R));
  }

  /** The groupings of the text around an inserted character. */
  lemma Regroup(x: seq<char>, y: seq<char>, c: char, z: seq<char>, w: seq<char>)
    ensures x + (y + [c] + z) + w == (x + y) + [c] + (z + w)
    ensures x + (y + [c]) + z + w == (x + y) + [c] + (z + w)
  {
  }

  /** The text of lines with one line split in two, and the text up to the end of the first part. */
  lemma SplitText(P: seq<Line>, a: Line, d: Line, R: seq<Line>)
    ensures Text(P + [a, d] + R) == Text(P) + a + d + Text(R)
    ensures (P + [a, d] + R)[..|P| + 1] == P + [a] && Text(P + [a]) == Text(P) + a
  {
    TextAppend(P + [a, d], R);
    TextAppend(P, [a, d]);
    TextPair(a, d);
    assert (P + [a, d] + R)[..|P| + 1] == P + [a];
    TextAppend(P, [a]);
    assert Text([a]) == a by { assert |[a][1..]| == 0; }
  }

  /** insert keeps every line terminated when the character is not '\r'. */
  lemma InsertKeepsTerminated(b: Buffer, c: char)
    requires OnText(b.lines, b.cursor) && Terminated(b.lines) && c != '\r'
    ensures Terminated(InsertAtCursor(b, c).lines)
  {
    var r := InsertAtCursor(b, c);
    var L, k := b.cursor.line, b.cursor.col;
    var s := b.lines[L];
    if IsBreak(c) {
      assert forall i :: 0 <= i < |r.lines| ==>
        r.lines[i] == (if i < L then b.lines[i] else if i == L then s[..k] + [c]
                       else if i == L + 1 then s[k..] else b.lines[i - 1]);
    }
  }

  // ---------------------------------------------------------------------
  // deleteChar (document.cpp:159-195)
  // ---------------------------------------------------------------------

  /** First half of deleteChar: at the start of a line below the first, join it onto the line above. */
  function JoinAtLineStart(b: Buffer): (r: Buffer)
    requires OnText(b.lines, b.cursor)
    ensures 0 <= r.cursor.line < |r.lines| && 0 <= r.cursor.col <= |r.lines[r.cursor.line]|
  {
    var L, k := b.cursor.line, b.cursor.col;
    if k == 0 && L > 0 then
      Buffer(b.lines[..L - 1] + [b.lines[L - 1] + b.lines[L]] + b.lines[L + 1..],
             Cursor(L - 1, |b.lines[L - 1]|), b.dirty)
    else b
  }

  /**
   * deleteChar(): removes the character before the cursor (after joining the
   * line onto the one above when at a line start) and returns it, or returns
   * '\0' when there is none. On a line holding one character the cursor
   * column is decremented and nothing is removed.
   */
  function DeleteBeforeCursor(b: Buffer): (r: (Buffer, char))
    requires OnText(b.lines, b.cursor)
    ensures WellFormed(b.lines) ==> WellFormed(r.0.lines)
  {
    var j := JoinAtLineStart(b);
    var L, k := j.cursor.line, j.cursor.col;
    var s := j.lines[L];
    if |s| == 1 then
      (j.(cursor := Cursor(L, k - 1)), '\0')
    else if k != 0 then
      (Buffer(j.lines[L := s[..k - 1] + s[k..]], Cursor(L, k - 1), true), s[k - 1])
    else
      (j, '\0')
  }

  /**
   * Deleting at the start of the text changes no line and returns '\0';
   * anywhere else it removes the character just before the cursor's offset,
   * returns it, and leaves the cursor at that character's offset.
   */
  lemma DeleteBeforeCursorText(b: Buffer)
    requires WellFormed(b.lines) && OnText(b.lines, b.cursor)
    ensures var (r, d) := DeleteBeforeCursor(b);
      WellFormed(r.lines) && 0 <= r.cursor.line < |r.lines| && r.cursor.col < |r.lines[r.cursor.line]| &&
      (Offset(b.lines, b.cursor) == 0 ==>
         r.lines == b.lines && d == '\0' && r.dirty == b.dirty &&
         r.cursor == Cursor(0, if |b.lines[0]| == 1 then -1 else 0)) &&
      (Offset(b.lines, b.cursor) != 0 ==> RemovesBefore(b, r, d))
  {
    var L, k := b.cursor.line, b.cursor.col;
    if k == 0 && L > 0 {
      DeleteJoining(b);
    } else if k != 0 {
      DeleteWithinLine(b);
    } else {
      assert Offset(b.lines, b.cursor) == 0;
    }
  }

  /**
   * The replace command of vim.cpp (345-352) moves the cursor one column
   * right with the terminator allowed, calls deleteChar, then insert with no
   * clamp in between.  On a first line holding only '\n' the delete leaves
   * column -1, so that insert would index before the line: the cursor left
   * is not on the text, which Document.Insert requires.
   */
  lemma ReplaceOnLoneFirstLine(lines: seq<Line>, col: int)
    requires WellFormed(lines) && |lines[0]| == 1
    ensures var b := DeleteBeforeCursor(Buffer(lines, ClampCursor(lines, 0, col + 1, true), false)).0;
      b.lines == lines && b.cursor == Cursor(0, -1) && !OnText(b.lines, b.cursor)
  {
  }

  /** r, d is b with the character before the cursor's offset removed and returned, cursor on its offset. */
  predicate RemovesBefore(b: Buffer, r: Buffer, d: char)
    requires OnText(b.lines, b.cursor)
  {
    var T, off := Text(b.lines), Offset(b.lines, b.cursor);
    0 < off <= |T| && d == T[off - 1] && Text(r.lines) == T[..off - 1] + T[off..] &&
    OnText(r.lines, r.cursor) && Offset(r.lines, r.cursor) == off - 1 && r.dirty
  }

  /** deleteChar at the start of a line below the first removes the terminator of the line above. */
  lemma DeleteJoining(b: Buffer)
    requires WellFormed(b.lines) && OnText(b.lines, b.cursor)
    requires b.cursor.col == 0 && b.cursor.line > 0
    ensures WellFormed(DeleteBeforeCursor(b).0.lines)
    ensures RemovesBefore(b, DeleteBeforeCursor(b).0, DeleteBeforeCursor(b).1)
  {
    DeleteJoiningText(b);
    DeleteJoiningCursor(b);
  }

  /** Joining at a line start: the resulting lines, as a splice of the old ones. */
  lemma DeleteJoiningShape(b: Buffer)
    requires WellFormed(b.lines) && OnText(b.lines, b.cursor)
    requires b.cursor.col == 0 && b.cursor.line > 0
    ensures var (r, d) := DeleteBeforeCursor(b);
      var L := b.cursor.line;
      var p := b.lines[L - 1];
      r.lines == b.lines[..L - 1] + [p[..|p| - 1] + b.lines[L]] + b.lines[L + 1..] &&
      d == p[|p| - 1] && r.cursor == Cursor(L - 1, |p| - 1) && r.dirty
  {
    var L := b.cursor.line;
    var p: Line, q: Line := b.lines[L - 1], b.lines[L];
    var j := JoinAtLineStart(b);
    assert j.lines == b.lines[..L - 1] + [p + q] + b.lines[L + 1..];
    assert (p + q)[..|p| - 1] == p[..|p| - 1] && (p + q)[|p|..] == q;
  }

  /** The text around two neighbouring lines. */
  lemma TextAroundPair(lines: seq<Line>, L: int)
    requires 0 < L < |lines|
    ensures Text(lines) == Text(lines[..L - 1]) + lines[L - 1] + (lines[L] + Text(lines[L + 1..]))
    ensures Text(lines[..L]) == Text(lines[..L - 1]) + lines[L - 1]
  {
    var P, p := lines[..L - 1], lines[L - 1];
    assert Text(lines[..L]) == Text(P) + p by {
      assert lines[..L] == P + [p];
      TextAppend(P, [p]);
      assert Text([p]) == p by { assert |[p][1..]| == 0; }
    }
    TextAround(lines, L);
    ConcatAssoc(Text(P), p, lines[L], Text(lines[L + 1..]));
  }

  lemma ConcatAssoc(a: seq<char>, b: seq<char>, c: seq<char>, d: seq<char>)
    ensures a + b + c + d == a + b + (c + d)
  {
  }

  lemma DeleteJoiningText(b: Buffer)
    requires WellFormed(b.lines) && OnText(b.lines, b.cursor)
    requires b.cursor.col == 0 && b.cursor.line > 0
    ensures var (r, d) := DeleteBeforeCursor(b);
      var T, off := Text(b.lines), Offset(b.lines, b.cursor);
      0 < off <= |T| && d == T[off - 1] && Text(r.lines) == T[..off - 1] + T[off..]
  {
    DeleteJoiningShape(b);
    JoinRemovesText(b.lines, b.cursor.line);
  }

  /** Removing the last character of line L - 1 and joining line L onto it. */
  lemma JoinRemovesText(lines: seq<Line>, L: int)
    requires WellFormed(lines) && 0 < L < |lines|
    ensures var p, T, off := lines[L - 1], Text(lines), |Text(lines[..L])|;
      0 < off <= |T| && p[|p| - 1] == T[off - 1] &&
      Text(lines[..L - 1] + [p[..|p| - 1] + lines[L]] + lines[L + 1..]) == T[..off - 1] + T[off..]
  {
    var p: Line, q: Line := lines[L - 1], lines[L];
    var P, R := lines[..L - 1], lines[L + 1..];
    var A, C := Text(P), q + Text(R);
    var p' := p[..|p| - 1];
    var u := P + [p' + q] + R;
    TextAroundPair(lines, L);
    assert Text(u) == A + p' + C by {
      TextAround(u, L - 1);
      assert u[..L - 1] == P && u[L..] == R;
      ConcatAssoc(A, p', q, Text(R));
    }
    RemoveInside(A, p, C, |p|);
    assert p' + p[|p|..] == p';
  }

  lemma DeleteJoiningCursor(b: Buffer)
    requires WellFormed(b.lines) && OnText(b.lines, b.cursor)
    requires b.cursor.col == 0 && b.cursor.line > 0
    ensures var r := DeleteBeforeCursor(b).0;
      WellFormed(r.lines) && OnText(r.lines, r.cursor) && r.dirty &&
      Offset(r.lines, r.cursor) == Offset(b.lines, b.cursor) - 1
  {
    DeleteJoiningShape(b);
    var r := DeleteBeforeCursor(b).0;
    var L := b.cursor.line;
    var p: Line := b.lines[L - 1];
    var P := b.lines[..L - 1];
    WellFormedSplice(P, p[..|p| - 1] + b.lines[L], b.lines[L + 1..]);
    assert r.lines[..L - 1] == P;
    TextAroundPair(b.lines, L);
  }

  /** deleteChar inside a line removes the character before the cursor. */
  lemma DeleteWithinLine(b: Buffer)
    requires WellFormed(b.lines) && OnText(b.lines, b.cursor)
    requires b.cursor.col != 0
    ensures WellFormed(DeleteBeforeCursor(b).0.lines)
    ensures RemovesBefore(b, DeleteBeforeCursor(b).0, DeleteBeforeCursor(b).1)
  {
    DeleteWithinLineText(b);
    DeleteWithinLineCursor(b);
  }

  lemma DeleteWithinLineText(b: Buffer)
    requires WellFormed(b.lines) && OnText(b.lines, b.cursor)
    requires b.cursor.col != 0
    ensures var (r, d) := DeleteBeforeCursor(b);
      var T, off := Text(b.lines), Offset(b.lines, b.cursor);
      0 < off <= |T| && d == T[off - 1] && Text(r.lines) == T[..off - 1] + T[off..]
  {
    var (r, d) := DeleteBeforeCursor(b);
    var L, k := b.cursor.line, b.cursor.col;
    var s := b.lines[L];
    var P, R := b.lines[..L], b.lines[L + 1..];
    var A, C := Text(P), Text(R);
    var s' := s[..k - 1] + s[k..];
    assert r.lines == b.lines[L := s'] && d == s[k - 1];
    assert Text(b.lines) == A + s + C by {
      TextAround(b.lines, L);
    }
    assert Text(r.lines) == A + s' + C by {
      assert r.lines[..L] == P && r.lines[L + 1..] == R;
      TextAround(r.lines, L);
    }
    RemoveInside(A, s, C, k);
  }

  lemma DeleteWithinLineCursor(b: Buffer)
    requires WellFormed(b.lines) && OnText(b.lines, b.cursor)
    requires b.cursor.col != 0
    ensures var r := DeleteBeforeCursor(b).0;
      WellFormed(r.lines) && OnText(r.lines, r.cursor) && r.dirty &&
      Offset(r.lines, r.cursor) == Offset(b.lines, b.cursor) - 1
  {
    var r := DeleteBeforeCursor(b).0;
    var L, k := b.cursor.line, b.cursor.col;
    var s := b.lines[L];
    var P, R := b.lines[..L], b.lines[L + 1..];
    assert r.lines == P + [s[..k - 1] + s[k..]] + R;
    WellFormedSplice(P, s[..k - 1] + s[k..], R);
    assert r.lines[..L] == P;
  }

  /** deleteChar keeps every line terminated. */
  lemma DeleteKeepsTerminated(b: Buffer)
    requires WellFormed(b.lines) && OnText(b.lines, b.cursor) && Terminated(b.lines)
    ensures Terminated(DeleteBeforeCursor(b).0.lines)
  {
    var j := JoinAtLineStart(b);
    if b.cursor.col == 0 && b.cursor.line > 0 {
      JoinKeepsTerminated(b.lines, b.cursor.line);
    }
    var L, k := j.cursor.line, j.cursor.col;
    var s := j.lines[L];
    if |s| != 1 && k != 0 {
      var t := s[..k - 1] + s[k..];
      assert k < |s| && t[|t| - 1] == s[|s| - 1];
      ReplaceKeepsTerminated(j.lines, L, t);
    }
  }

  /** Joining line L onto line L - 1 keeps every line terminated, and the cursor column lands inside the joined line. */
  lemma JoinKeepsTerminated(lines: seq<Line>, L: int)
    requires 0 < L < |lines| && Terminated(lines)
    ensures Terminated(lines[..L - 1] + [lines[L - 1] + lines[L]] + lines[L + 1..])
    ensures |lines[L - 1]| < |lines[L - 1] + lines[L]|
  {
    var r := lines[..L - 1] + [lines[L - 1] + lines[L]] + lines[L + 1..];
    forall i | 0 <= i < |r|
      ensures |r[i]| > 0 && r[i][|r[i]| - 1] == '\n'
    {
      if i < L - 1 {
        assert r[i] == lines[i];
      } else if i == L - 1 {
        assert r[i] == lines[L - 1] + lines[L];
      } else {
        assert r[i] == lines[i + 1];
      }
    }
  }

  /** No '\n' before the last character of any line but (possibly) line L. */
  ghost predicate NoInnerBreakBut(lines: seq<Line>, L: int)
  {
    forall i, m :: 0 <= i < |lines| && i != L && 0 <= m < |lines[i]| - 1 ==> lines[i][m] != '\n'
  }

  /**
   * deleteChar keeps each line's only '\n' as its last character: the '\n'
   * a join brings inside a line is the character deleted next.
   */
  lemma DeleteKeepsOneLinePerLine(b: Buffer)
    requires WellFormed(b.lines) && OnText(b.lines, b.cursor) && OneLinePerLine(b.lines)
    ensures OneLinePerLine(DeleteBeforeCursor(b).0.lines)
  {
    DeleteKeepsTerminated(b);
    var j := JoinAtLineStart(b);
    var L, k := j.cursor.line, j.cursor.col;
    var s := j.lines[L];
    if b.cursor.col == 0 && b.cursor.line > 0 {
      JoinKeepsTerminated(b.lines, b.cursor.line);
      JoinInnerBreak(b.lines, b.cursor.line);
    } else {
      assert NoInnerBreakBut(j.lines, L);
    }
    if |s| != 1 && k != 0 {
      DropKeepsOneNewline(s, k);
      ReplaceInnerBreak(j.lines, L, s[..k - 1] + s[k..]);
    }
  }

  /** After joining line L onto line L - 1, only the joined line holds an inner '\n': the old terminator of line L - 1. */
  lemma JoinInnerBreak(lines: seq<Line>, L: int)
    requires 0 < L < |lines| && OneLinePerLine(lines)
    ensures var p, q := lines[L - 1], lines[L];
      var s := p + q;
      NoInnerBreakBut(lines[..L - 1] + [s] + lines[L + 1..], L - 1) &&
      0 < |p| < |s| && s[|s| - 1] == '\n' &&
      forall m :: 0 <= m < |s| - 1 && m != |p| - 1 ==> s[m] != '\n'
  {
    var p, q := lines[L - 1], lines[L];
    var s := p + q;
    var r := lines[..L - 1] + [s] + lines[L + 1..];
    forall i, m | 0 <= i < |r| && i != L - 1 && 0 <= m < |r[i]| - 1
      ensures r[i][m] != '\n'
    {
      if i < L - 1 {
        assert r[i] == lines[i];
      } else {
        assert r[i] == lines[i + 1];
      }
    }
    forall m | 0 <= m < |s| - 1 && m != |p| - 1
      ensures s[m] != '\n'
    {
      if m < |p| {
        assert s[m] == p[m];
      } else {
        assert s[m] == q[m - |p|];
      }
    }
  }

  /** Putting a line with no inner '\n' at L leaves no inner '\n' anywhere. */
  lemma ReplaceInnerBreak(lines: seq<Line>, L: int, t: Line)
    requires 0 <= L < |lines| && NoInnerBreakBut(lines, L)
    requires forall m :: 0 <= m < |t| - 1 ==> t[m] != '\n'
    ensures NoInnerBreakBut(lines[L := t], -1)
  {
    var r := lines[L := t];
    forall i, m | 0 <= i < |r| && 0 <= m < |r[i]| - 1
      ensures r[i][m] != '\n'
    {
      if i != L {
        assert r[i] == lines[i];
      }
    }
  }

  /** Removing the character before column k keeps a line's only '\n' last, when no '\n' but the one at k - 1 came before the last. */
  lemma DropKeepsOneNewline(s: Line, k: int)
    requires 0 < k < |s| && s[|s| - 1] == '\n'
    requires forall m :: 0 <= m < |s| - 1 && m != k - 1 ==> s[m] != '\n'
    ensures var t := s[..k - 1] + s[k..];
      |t| > 0 && t[|t| - 1] == '\n' && forall m :: 0 <= m < |t| - 1 ==> t[m] != '\n'
  {
    var t := s[..k - 1] + s[k..];
    forall m | 0 <= m < |t| - 1
      ensures t[m] != '\n'
    {
      if m < k - 1 {
        assert t[m] == s[m];
      } else {
        assert t[m] == s[m + 1];
      }
    }
  }

  /** insert keeps each line's only '\n' as its last character when the character is not '\r'. */
  lemma InsertKeepsOneLinePerLine(b: Buffer, c: char)
    requires OnText(b.lines, b.cursor) && OneLinePerLine(b.lines) && c != '\r'
    ensures OneLinePerLine(InsertAtCursor(b, c).lines)
  {
    InsertKeepsTerminated(b, c);
    var r := InsertAtCursor(b, c);
    var L, k := b.cursor.line, b.cursor.col;
    var s := b.lines[L];
    if IsBreak(c) {
      assert forall i :: 0 <= i < |r.lines| ==>
        r.lines[i] == (if i < L then b.lines[i] else if i == L then s[..k] + [c]
                       else if i == L + 1 then s[k..] else b.lines[i - 1]);
      forall i, m | 0 <= i < |r.lines| && 0 <= m < |r.lines[i]| - 1
        ensures r.lines[i][m] != '\n'
      {
        if i == L {
          assert r.lines[i][m] == s[m];
        } else if i == L + 1 {
          assert r.lines[i][m] == s[k + m];
        } else if i > L + 1 {
          assert r.lines[i] == b.lines[i - 1];
        }
      }
    } else {
      var t := s[..k] + [c] + s[k..];
      forall m | 0 <= m < |t| - 1
        ensures t[m] != '\n'
      {
        if m < k {
          assert t[m] == s[m];
        } else if m > k {
          assert t[m] == s[m - 1];
        }
      }
    }
  }

  /** Replacing a line by a terminated one keeps every line terminated. */
  lemma ReplaceKeepsTerminated(lines: seq<Line>, L: int, t: Line)
    requires 0 <= L < |lines| && Terminated(lines) && |t| > 0 && t[|t| - 1] == '\n'
    ensures Terminated(lines[L := t])
  {
  }

  /**
   * Right after insert(c), deleteChar() returns c and restores the lines and
   * the cursor, a line break included (the split line is joined again).
   */
  lemma InsertThenDelete(b: Buffer, c: char)
    requires WellFormed(b.lines) && OnText(b.lines, b.cursor)
    ensures DeleteBeforeCursor(InsertAtCursor(b, c)) == (b.(dirty := true), c)
  {
    var i := InsertAtCursor(b, c);
    var L, k := b.cursor.line, b.cursor.col;
    var s := b.lines[L];
    if IsBreak(c) {
      var j := JoinAtLineStart(i);
      assert i.lines[L] == s[..k] + [c] && i.lines[L + 1] == s[k..];
      assert j.lines == b.lines[..L] + [s[..k] + [c] + s[k..]] + b.lines[L + 1..] by {
        assert i.lines[..L] == b.lines[..L];
        assert i.lines[L + 2..] == b.lines[L + 1..];
      }
      assert j.cursor == Cursor(L, k + 1);
      var t := s[..k] + [c] + s[k..];
      assert t[..k] + t[k + 1..] == s;
      assert j.lines[L := s] == b.lines;
    } else {
      var t := s[..k] + [c] + s[k..];
      assert t[..k] + t[k + 1..] == s;
      assert i.lines[L := s] == b.lines;
    }
  }

  // ---------------------------------------------------------------------
  // importFile and save (document.cpp:44-69, 206-216)
  // ---------------------------------------------------------------------

  /** Length of the first line of text: the index of its first '\n', or |text| if it has none. */
  function LineEnd(text: seq<char>): (n: nat)
    ensures n <= |text|
    ensures forall m :: 0 <= m < n ==> text[m] != '\n'
    ensures n < |text| ==> text[n] == '\n'
  {
    if text == [] || text[0] == '\n' then 0 else 1 + LineEnd(text[1..])
  }

  /**
   * The lines a file reads as: the text cut after every '\n', with a final
   * unterminated piece kept and given a '\n' of its own.
   */
  function Lines(text: seq<char>): seq<Line>
    decreases |text|
  {
    if text == [] then []
    else
      var n := LineEnd(text);
      [text[..n] + ['\n']] + Lines(if n < |text| then text[n + 1..] else [])
  }

  /**
   * importFile as written: the getline loop runs until eof and then drops the
   * last line read, which loses a final line that has no '\n'.
   */
  function ImportAsWritten(text: seq<char>): seq<Line>
    decreases |text|
  {
    if text == [] then []
    else
      var n := LineEnd(text);
      if n == |text| then [] else [text[..n + 1]] + ImportAsWritten(text[n + 1..])
  }

  /** A file whose last line has no '\n' loses that line on import. */
  lemma ImportDropsUnterminatedLine()
    ensures ImportAsWritten("a\nb") == ["a\n"]
    ensures Text(ImportAsWritten("a\nb")) != "a\nb"
    ensures Lines("a\nb") == ["a\n", "b\n"]
  {
    var t := "a\nb";
    assert LineEnd(t) == 1 by {
      assert t[1..] == "\nb";
      assert LineEnd("\nb") == 0;
    }
    assert t[2..] == "b" && t[..2] == "a\n" && t[..1] == "a";
    assert LineEnd("b") == 1 by {
      assert |"b"[1..]| == 0;
    }
    assert ImportAsWritten("b") == [];
    assert ImportAsWritten(t) == ["a\n"] + ImportAsWritten("b");
    assert Lines("b") == ["b\n"] by {
      assert "b"[..1] + ['\n'] == "b\n";
      assert Lines("b") == ["b"[..1] + ['\n']] + Lines([]);
    }
    assert Lines(t) == [t[..1] + ['\n']] + Lines("b");
    assert t[..1] + ['\n'] == "a\n";
    assert Text(["a\n"]) == "a\n" by { assert |["a\n"][1..]| == 0; }
  }

  /**
   * importFile with its loop written `while (getline(f, line))`: one line per
   * successful getline, each with its '\n' put back.
   */
  method ReadLines(text: seq<char>) returns (lines: seq<Line>)
    ensures lines == Lines(text)
  {
    lines := [];
    var pos := 0;
    assert text[0..] == text;
    while pos < |text|
      invariant 0 <= pos <= |text|
      invariant Lines(text) == lines + Lines(text[pos..])
      decreases |text| - pos
    {
      var j := ScanLine(text, pos);
      var next := if j < |text| then j + 1 else j;
      ReadStep(text, lines, pos, j, next);
      lines := lines + [text[pos..j] + ['\n']];
      pos := next;
    }
    assert |text[pos..]| == 0;
  }

  /** getline's scan: the index of the first '\n' at or after pos, or the end of the text. */
  method ScanLine(text: seq<char>, pos: nat) returns (j: nat)
    requires pos <= |text|
    ensures pos <= j <= |text|
    ensures forall m :: pos <= m < j ==> text[m] != '\n'
    ensures j < |text| ==> text[j] == '\n'
  {
    j := pos;
    while j < |text| && text[j] != '\n'
      invariant pos <= j <= |text|
      invariant forall m :: pos <= m < j ==> text[m] != '\n'
      decreases |text| - j
    {
      j := j + 1;
    }
  }

  /** The loop invariant of ReadLines is kept by one getline. */
  lemma ReadStep(text: seq<char>, lines: seq<Line>, pos: int, j: int, next: int)
    requires 0 <= pos <= j <= |text| && pos < |text|
    requires forall m :: pos <= m < j ==> text[m] != '\n'
    requires j < |text| ==> text[j] == '\n'
    requires next == if j < |text| then j + 1 else j
    requires Lines(text) == lines + Lines(text[pos..])
    ensures Lines(text) == lines + [text[pos..j] + ['\n']] + Lines(text[next..])
  {
    LinesStep(text, pos, j);
    assert text[next..] == if j < |text| then text[j + 1..] else [];
    SeqAssoc(lines, [text[pos..j] + ['\n']], Lines(text[next..]));
  }

  lemma SeqAssoc<T>(a: seq<T>, b: seq<T>, c: seq<T>)
    ensures a + (b + c) == a + b + c
  {
  }

  /** One getline: the first line of text[pos..] ends at the first '\n' from pos on. */
  lemma LinesStep(text: seq<char>, pos: int, j: int)
    requires 0 <= pos <= j <= |text| && pos < |text|
    requires forall m :: pos <= m < j ==> text[m] != '\n'
    requires j < |text| ==> text[j] == '\n'
    ensures Lines(text[pos..]) ==
      [text[pos..j] + ['\n']] + Lines(if j < |text| then text[j + 1..] else [])
  {
    var t := text[pos..];
    LineEndUnique(t, j - pos);
    assert t[..j - pos] == text[pos..j];
    if j < |text| {
      assert t[j - pos + 1..] == text[j + 1..];
    }
  }

  lemma {:induction false} LineEndUnique(t: seq<char>, n: int)
    requires 0 <= n <= |t|
    requires forall m :: 0 <= m < n ==> t[m] != '\n'
    requires n < |t| ==> t[n] == '\n'
    ensures LineEnd(t) == n
  {
    if n > 0 {
      LineEndUnique(t[1..], n - 1);
    }
  }

  /** Reading a non-empty text gives at least one line, each holding exactly one '\n' at its end. */
  lemma {:induction false} LinesShape(text: seq<char>)
    ensures OneLinePerLine(Lines(text))
    ensures text != [] ==> WellFormed(Lines(text))
    decreases |text|
  {
    if text != [] {
      var n := LineEnd(text);
      var rest := if n < |text| then text[n + 1..] else [];
      LinesShape(rest);
      var first := text[..n] + ['\n'];
      assert Lines(text) == [first] + Lines(rest);
      assert forall m :: 0 <= m < |first| - 1 ==> first[m] == text[m];
      OneLinePerLineCons(first, Lines(rest));
    }
  }

  /** A line with its only '\n' at its end, put before such lines. */
  lemma OneLinePerLineCons(first: Line, tail: seq<Line>)
    requires |first| > 0 && first[|first| - 1] == '\n'
    requires forall m :: 0 <= m < |first| - 1 ==> first[m] != '\n'
    requires OneLinePerLine(tail)
    ensures OneLinePerLine([first] + tail)
  {
    var all := [first] + tail;
    forall i | 1 <= i < |all|
      ensures all[i] == tail[i - 1]
    {
    }
  }

  /** Saving what was read gives the file back, with a '\n' added to a final line that lacked one. */
  lemma {:induction false} SaveAfterRead(text: seq<char>)
    ensures Text(Lines(text)) ==
      if text != [] && text[|text| - 1] != '\n' then text + ['\n'] else text
    decreases |text|
  {
    if text != [] {
      var n := LineEnd(text);
      var head := text[..n] + ['\n'];
      if n < |text| {
        var rest := text[n + 1..];
        assert Text(Lines(text)) == head + Text(Lines(rest)) by {
          FirstLine(text);
        }
        SaveAfterRead(rest);
        CutAtNewline(text, n);
        if rest == [] {
          assert text == head && text[|text| - 1] == '\n';
        } else if rest[|rest| - 1] != '\n' {
          SeqAssoc(head, rest, ['\n']);
        }
      } else {
        assert Text(Lines(text)) == text + ['\n'] by {
          FirstLine(text);
          assert text[..n] == text;
        }
      }
    }
  }

  /** The first line read from a non-empty text, and saving it before the rest. */
  lemma FirstLine(text: seq<char>)
    requires text != []
    ensures var n := LineEnd(text);
      Text(Lines(text)) == text[..n] + ['\n'] + Text(Lines(if n < |text| then text[n + 1..] else []))
  {
    var n := LineEnd(text);
    TextCons(text[..n] + ['\n'], Lines(if n < |text| then text[n + 1..] else []));
  }

  lemma TextCons(line: Line, lines: seq<Line>)
    ensures Text([line] + lines) == line + Text(lines)
  {
    assert ([line] + lines)[1..] == lines;
  }

  /** A text is its part before a '\n', the '\n', and its part after. */
  lemma CutAtNewline(text: seq<char>, n: int)
    requires 0 <= n < |text| && text[n] == '\n'
    ensures text == text[..n] + ['\n'] + text[n + 1..]
    ensures text[n + 1..] != [] ==> text[n + 1..][|text[n + 1..]| - 1] == text[|text| - 1]
  {
  }

  /** Reading what was saved gives the same lines, when each line holds exactly one '\n' at its end. */
  lemma {:induction false} ReadAfterSave(lines: seq<Line>)
    requires OneLinePerLine(lines)
    ensures Lines(Text(lines)) == lines
  {
    if lines != [] {
      var first := lines[0];
      var text := Text(lines);
      assert text == first + Text(lines[1..]);
      var n := |first| - 1;
      LineEndOfPrefix(first, Text(lines[1..]));
      assert LineEnd(text) == n;
      assert text[..n] + ['\n'] == first;
      assert text[n + 1..] == Text(lines[1..]);
      assert OneLinePerLine(lines[1..]) by {
        assert forall i :: 0 <= i < |lines| - 1 ==> lines[1..][i] == lines[i + 1];
      }
      ReadAfterSave(lines[1..]);
    }
  }

  /** The first line of `first + rest` ends at first's only '\n', its last character. */
  lemma {:induction false} LineEndOfPrefix(first: Line, rest: seq<char>)
    requires |first| > 0 && first[|first| - 1] == '\n'
    requires forall j :: 0 <= j < |first| - 1 ==> first[j] != '\n'
    ensures LineEnd(first + rest) == |first| - 1
    decreases |first|
  {
    if |first| > 1 {
      assert (first + rest)[1..] == first[1..] + rest;
      LineEndOfPrefix(first[1..], rest);
    }
  }

  /** The first position of the last line (the offset of Text's last line) and the text's last position. */
  function LastPosition(lines: seq<Line>): (r: Cursor)
    requires WellFormed(lines)
    ensures OnText(lines, r)
  {
    Cursor(|lines| - 1, |lines[|lines| - 1]| - 1)
  }

  /** A word starts here: a non-blank character at the line start or after a blank. */
  predicate WordStart(lines: seq<Line>, p: Cursor)
    requires OnText(lines, p)
  {
    !IsBlank(lines[p.line][p.col]) && (p.col == 0 || IsBlank(lines[p.line][p.col - 1]))
  }

  /** Position a is strictly before position b. */
  predicate Before(a: Cursor, b: Cursor)
  {
    a.line < b.line || (a.line == b.line && a.col < b.col)
  }

  // ---------------------------------------------------------------------
  // The word motions' results
  // ---------------------------------------------------------------------

  /** Every position from a up to, not including, z holds a blank. */
  ghost predicate BlanksFrom(lines: seq<Line>, a: Cursor, z: Cursor)
  {
    forall i, j {:trigger lines[i][j]} :: 0 <= i < |lines| && 0 <= j < |lines[i]| && NotAfter(a, Cursor(i, j)) && Before(Cursor(i, j), z)
      ==> IsBlank(lines[i][j])
  }

  /** The position after z in reading order: the next column, or the start of the next line. */
  function Following(lines: seq<Line>, z: Cursor): Cursor
    requires OnText(lines, z)
  {
    if z.col + 1 < |lines[z.line]| then Cursor(z.line, z.col + 1) else Cursor(z.line + 1, 0)
  }

  /** A run of blanks from a to z grows by one when z itself is blank. */
  lemma BlanksFromExtend(lines: seq<Line>, a: Cursor, z: Cursor)
    requires OnText(lines, z) && BlanksFrom(lines, a, z) && IsBlank(lines[z.line][z.col])
    ensures BlanksFrom(lines, a, Following(lines, z))
  {
    forall i, j | 0 <= i < |lines| && 0 <= j < |lines[i]| && NotAfter(a, Cursor(i, j)) && Before(Cursor(i, j), Following(lines, z))
      ensures IsBlank(lines[i][j])
    {
      if Cursor(i, j) != z {
        assert Before(Cursor(i, j), z);
      }
    }
  }

  /** Where nextWord's scan starts: one line down from a line holding only its terminator, unless that is the last line. */
  function NextWordStart(lines: seq<Line>, c: Cursor): (s: Cursor)
    requires WellFormed(lines) && OnText(lines, c)
    ensures OnText(lines, s) && NotAfter(c, s)
  {
    if |lines[c.line]| == 1 && c.line + 1 < |lines| then Cursor(c.line + 1, 0) else c
  }

  /** b is the first blank at or after s, on s's line. */
  ghost predicate FirstBlankFrom(lines: seq<Line>, s: Cursor, b: Cursor)
    requires OnText(lines, s)
  {
    OnText(lines, b) && b.line == s.line && s.col <= b.col && IsBlank(lines[b.line][b.col]) &&
    forall m :: s.col <= m < b.col ==> !IsBlank(lines[b.line][m])
  }

  /**
   * p ends the run of blanks from b: everything from b up to p is blank, no
   * line before p's holds only its terminator, and p is a non-blank, a line
   * holding only its terminator, or the last position.
   */
  ghost predicate BlankRun(lines: seq<Line>, b: Cursor, p: Cursor)
    requires WellFormed(lines)
  {
    OnText(lines, p) && NotAfter(b, p) && BlanksFrom(lines, b, p) &&
    (forall k :: 0 <= b.line <= k < p.line ==> |lines[k]| > 1) &&
    (IsBlank(lines[p.line][p.col]) ==> |lines[p.line]| == 1 || p == LastPosition(lines))
  }

  /**
   * What nextWord returns when its blank run ends at p: p, except that a
   * one-character word just before a line's terminator is passed over to
   * the next line's start (or to the last position on the last line).
   */
  function WordAfter(lines: seq<Line>, p: Cursor): (r: Cursor)
    requires WellFormed(lines) && OnText(lines, p)
    ensures OnText(lines, r) && NotAfter(p, r)
  {
    if !IsBlank(lines[p.line][p.col]) && p.col + 2 == |lines[p.line]| then
      (if p.line + 1 == |lines| then LastPosition(lines) else Cursor(p.line + 1, 0))
    else p
  }

  /** nextWord() from cursor c returns r, with b the first blank from the scan start and p the end of the blank run after it. */
  ghost predicate IsNextWord(lines: seq<Line>, c: Cursor, b: Cursor, p: Cursor, r: Cursor)
    requires WellFormed(lines) && OnText(lines, c)
  {
    FirstBlankFrom(lines, NextWordStart(lines, c), b) && BlankRun(lines, b, p) && r == WordAfter(lines, p)
  }

  /** nextWord's result is at or after the cursor, and starts a line, is the last position, or holds a non-blank. */
  lemma NextWordLands(lines: seq<Line>, c: Cursor, b: Cursor, p: Cursor, r: Cursor)
    requires WellFormed(lines) && OnText(lines, c) && IsNextWord(lines, c, b, p, r)
    ensures OnText(lines, r) && NotAfter(c, r)
    ensures r.col == 0 || r == LastPosition(lines) || !IsBlank(lines[r.line][r.col])
  {
  }

  /** IsNextWord leaves one result: b, p and then r are each determined. */
  lemma NextWordUnique(lines: seq<Line>, c: Cursor, b1: Cursor, p1: Cursor, r1: Cursor, b2: Cursor, p2: Cursor, r2: Cursor)
    requires WellFormed(lines) && OnText(lines, c)
    requires IsNextWord(lines, c, b1, p1, r1) && IsNextWord(lines, c, b2, p2, r2)
    ensures b1 == b2 && p1 == p2 && r1 == r2
  {
  }

  /** The cursor stands on a non-blank character followed by another: endOfWord then scans from the cursor itself. */
  predicate InsideWord(lines: seq<Line>, c: Cursor)
    requires OnText(lines, c)
  {
    c.col + 1 < |lines[c.line]| && !IsBlank(lines[c.line][c.col]) && !IsBlank(lines[c.line][c.col + 1])
  }

  /** When the first blank at or after start follows r, r ends the word at start (or precedes a blank start). */
  lemma WordEndAfter(lines: seq<Line>, start: Cursor, r: Cursor)
    requires OnText(lines, start) && FirstBlankFrom(lines, start, Cursor(r.line, r.col + 1))
    ensures start.line == r.line && (!IsBlank(lines[start.line][start.col]) ==> start.col <= r.col)
  {
  }

  /**
   * Every position after a up to and including z holds a blank, except the
   * last character of each line above z's, which prevWord's backward scan
   * steps over without reading it.
   */
  ghost predicate BlanksBack(lines: seq<Line>, a: Cursor, z: Cursor)
  {
    forall i, j {:trigger lines[i][j]} ::
      (0 <= i < |lines| && 0 <= j < |lines[i]| && Before(a, Cursor(i, j)) && NotAfter(Cursor(i, j), z) &&
       (i == z.line || j < |lines[i]| - 1)) ==> IsBlank(lines[i][j])
  }

  /**
   * One step of prevWord's blank scan: from a blank a other than (0, 0) it
   * moves one column back, or from column 0 to the column before the last
   * of the line above (0 when that line holds a single character).
   */
  function Preceding(lines: seq<Line>, a: Cursor): Cursor
    requires WellFormed(lines) && OnText(lines, a) && a != Cursor(0, 0)
  {
    if a.col > 0 then Cursor(a.line, a.col - 1)
    else Cursor(a.line - 1, if |lines[a.line - 1]| < 2 then 0 else |lines[a.line - 1]| - 2)
  }

  /** The blanks back to w grow by a blank a. */
  lemma BlanksBackExtend(lines: seq<Line>, a: Cursor, w: Cursor)
    requires WellFormed(lines) && OnText(lines, a) && a != Cursor(0, 0) && IsBlank(lines[a.line][a.col])
    requires NotAfter(a, w) && BlanksBack(lines, a, w)
    ensures BlanksBack(lines, Preceding(lines, a), w)
  {
    var q := Preceding(lines, a);
    forall i, j |
      0 <= i < |lines| && 0 <= j < |lines[i]| && Before(q, Cursor(i, j)) && NotAfter(Cursor(i, j), w) &&
      (i == w.line || j < |lines[i]| - 1)
      ensures IsBlank(lines[i][j])
    {
      if Cursor(i, j) != a {
        assert Before(a, Cursor(i, j));
      }
    }
  }

  /** Where prevWord's scan starts: the cursor, or from column 0 the previous line's last character. */
  function PrevWordStart(lines: seq<Line>, c: Cursor): (s: Cursor)
    requires WellFormed(lines) && OnText(lines, c) && c != Cursor(0, 0)
    ensures OnText(lines, s)
  {
    if c.col == 0 then Cursor(c.line - 1, |lines[c.line - 1]| - 1) else c
  }

  /** The word that holds e starts at r: e's line, r.col <= e.col, no blank in between, a blank or the line start before. */
  predicate WordOf(lines: seq<Line>, e: Cursor, r: Cursor)
    requires OnText(lines, e)
  {
    r.line == e.line && 0 <= r.col <= e.col &&
    (forall m :: r.col <= m <= e.col ==> !IsBlank(lines[e.line][m])) &&
    (r.col == 0 || IsBlank(lines[e.line][r.col - 1]))
  }

  /**
   * prevWord() from cursor c returns r; from (0, 0) it returns (0, 0).
   * Otherwise w is where the scan back over the non-blanks from the start
   * stops (a blank, or column 0), and the rest is BackFrom.
   */
  ghost predicate IsPrevWord(lines: seq<Line>, c: Cursor, w: Cursor, e: Cursor, r: Outcome<Cursor>)
    requires WellFormed(lines) && OnText(lines, c)
  {
    if c == Cursor(0, 0) then r == Ok(c)
    else
      var s := PrevWordStart(lines, c);
      OnText(lines, w) && w.line == s.line && w.col <= s.col &&
      (forall m :: w.col < m <= s.col ==> !IsBlank(lines[w.line][m])) &&
      (w.col == 0 || IsBlank(lines[w.line][w.col])) &&
      BackFrom(lines, w, e, r)
  }

  /**
   * prevWord from w, where its first scan stopped: on a non-blank w the
   * result is w itself.  From a blank w, e is where the scan back over
   * blanks stops, with no line holding a single character between: a line
   * holding a single character makes the scan read column -1
   * (out_of_range); a blank (0, 0) gives (0, 0); a non-blank gives the start
   * of its word.
   */
  ghost predicate BackFrom(lines: seq<Line>, w: Cursor, e: Cursor, r: Outcome<Cursor>)
    requires OnText(lines, w)
  {
    if !IsBlank(lines[w.line][w.col]) then r == Ok(w)
    else
      OnText(lines, e) && NotAfter(e, w) && BlanksBack(lines, e, w) &&
      (forall k :: e.line < k < w.line ==> |lines[k]| > 1) &&
      if |lines[e.line]| == 1 && e.line < w.line then r == OutOfRange
      else if IsBlank(lines[e.line][e.col]) then e == Cursor(0, 0) && r == Ok(e)
      else (e.line == w.line || e.col < |lines[e.line]| - 1) && r.Ok? && WordOf(lines, e, r.value)
  }

  /** IsPrevWord leaves one result. */
  lemma PrevWordUnique(lines: seq<Line>, c: Cursor, w1: Cursor, e1: Cursor, r1: Outcome<Cursor>, w2: Cursor, e2: Cursor, r2: Outcome<Cursor>)
    requires WellFormed(lines) && OnText(lines, c)
    requires IsPrevWord(lines, c, w1, e1, r1) && IsPrevWord(lines, c, w2, e2, r2)
    ensures r1 == r2
  {
  }

  /** nextWord's first loop: on to the first blank at or after s, stepping one past it and back. */
  method ToBlank(lines: seq<Line>, s: Cursor) returns (c: int)
    requires OnText(lines, s) && Terminated(lines)
    ensures FirstBlankFrom(lines, s, Cursor(s.line, c))
  {
    var l, whitespace := s.line, false;
    c := s.col;
    while !whitespace
      invariant s.col <= c <= |lines[l]|
      invariant forall m :: s.col <= m < c - 1 ==> !IsBlank(lines[l][m])
      invariant !whitespace ==> c < |lines[l]| && (c == s.col || !IsBlank(lines[l][c - 1]))
      invariant whitespace ==> s.col < c && IsBlank(lines[l][c - 1])
      decreases |lines[l]| - c
    {
      whitespace := IsBlank(lines[l][c]);
      c := c + 1;
    }
    c := c - 1;
  }

  /**
   * nextWord's second loop: from the blank b it reads on past blanks, moving
   * to the next line's start after each '\n'; it stops after reading a
   * non-blank, after reading a line holding only its terminator, or at the
   * end of the document.  p is the position it read last.
   */
  method SkipBlanks(lines: seq<Line>, b: Cursor) returns (l: int, c: int, ghost p: Cursor)
    requires WellFormed(lines) && OneLinePerLine(lines) && OnText(lines, b) && IsBlank(lines[b.line][b.col])
    ensures BlankRun(lines, b, p) && ScanStop(lines, p, l, c)
  {
    var whitespace := true;
    l, c, p := b.line, b.col, b;
    while whitespace
      invariant 0 <= l < |lines|
      invariant whitespace ==> BlanksBefore(lines, b, l, c)
      invariant !whitespace ==> BlankRun(lines, b, p) && ScanStop(lines, p, l, c)
      decreases |lines| - l, if whitespace then 1 else 0, |lines[l]| - c
    {
      p := Cursor(l, c);
      ScanEnds(lines, b, l, c);
      var ch := lines[l][c];
      whitespace := IsBlank(ch);
      if whitespace && |lines[l]| > 1 && (c + 1 < |lines[l]| || l + 1 < |lines|) {
        ScanOn(lines, b, l, c);
      }
      c := c + 1;
      if ch == '\n' {
        if |lines[l]| == 1 {
          whitespace := false;
        } else {
          c := 0;
          l := l + 1;
        }
      }
      if l >= |lines| {
        l := |lines| - 1;
        c := |lines[l]| - 1;
        whitespace := false;
      }
    }
  }

  /** nextWord's blank scan stands on (l, c) having read only blanks from b, and no line holding only its terminator. */
  ghost predicate BlanksBefore(lines: seq<Line>, b: Cursor, l: int, c: int)
  {
    OnText(lines, Cursor(l, c)) && NotAfter(b, Cursor(l, c)) && BlanksFrom(lines, b, Cursor(l, c)) &&
    forall k :: 0 <= b.line <= k < l ==> |lines[k]| > 1
  }

  /** Where nextWord's blank scan leaves (l, c) when it stops at p: one past a non-blank, column 1 of a line holding only its terminator, or the last position. */
  predicate ScanStop(lines: seq<Line>, p: Cursor, l: int, c: int)
    requires WellFormed(lines) && OnText(lines, p)
  {
    l == p.line &&
    if !IsBlank(lines[p.line][p.col]) then c == p.col + 1
    else if |lines[l]| == 1 then c == 1
    else p == LastPosition(lines) && c == p.col
  }

  /** A blank read by nextWord's blank scan, on a line longer than its terminator and not the last position, lets the scan go on at the following position. */
  lemma ScanOn(lines: seq<Line>, b: Cursor, l: int, c: int)
    requires WellFormed(lines) && OneLinePerLine(lines) && BlanksBefore(lines, b, l, c)
    requires IsBlank(lines[l][c]) && |lines[l]| > 1 && (c + 1 < |lines[l]| || l + 1 < |lines|)
    ensures lines[l][c] == '\n' ==> BlanksBefore(lines, b, l + 1, 0)
    ensures lines[l][c] != '\n' ==> BlanksBefore(lines, b, l, c + 1)
  {
    BlanksFromExtend(lines, b, Cursor(l, c));
    BreakIsLast(lines, l, c);
  }

  /** Where nextWord's blank scan stops, the blanks it read form a BlankRun. */
  lemma ScanEnds(lines: seq<Line>, b: Cursor, l: int, c: int)
    requires WellFormed(lines) && BlanksBefore(lines, b, l, c)
    ensures !IsBlank(lines[l][c]) || |lines[l]| == 1 || Cursor(l, c) == LastPosition(lines) ==> BlankRun(lines, b, Cursor(l, c))
  {
  }

  /** With one '\n' per line, a column holds '\n' exactly when it is the line's last. */
  lemma BreakIsLast(lines: seq<Line>, l: int, c: int)
    requires OneLinePerLine(lines) && 0 <= l < |lines| && 0 <= c < |lines[l]|
    ensures lines[l][c] == '\n' <==> c == |lines[l]| - 1
  {
  }

  /** endOfWord's loop: the column of the first blank at or after `start` on its line. */
  method BlankAfter(lines: seq<Line>, start: Cursor) returns (c: int)
    requires OnText(lines, start) && Terminated(lines)
    ensures FirstBlankFrom(lines, start, Cursor(start.line, c))
  {
    var l := start.line;
    c := start.col;
    while !IsBlank(lines[l][c])
      invariant start.col <= c < |lines[l]|
      invariant forall m :: start.col <= m < c ==> !IsBlank(lines[l][m])
      decreases |lines[l]| - c
    {
      c := c + 1;
    }
  }

  /** prevWord's first loop: back from s over non-blanks, stopping at a blank or at column 0. */
  method NonBlanksBack(lines: seq<Line>, s: Cursor) returns (idx: int)
    requires OnText(lines, s)
    ensures 0 <= idx <= s.col && (idx == 0 || IsBlank(lines[s.line][idx]))
    ensures forall m :: idx < m <= s.col ==> !IsBlank(lines[s.line][m])
  {
    idx := s.col;
    while !IsBlank(lines[s.line][idx]) && idx > 0
      invariant 0 <= idx <= s.col
      invariant forall m :: idx < m <= s.col ==> !IsBlank(lines[s.line][m])
      decreases idx
    {
      idx := idx - 1;
    }
  }

  /** prevWord's last loop: back from the non-blank e to the start of its word. */
  method WordBegin(lines: seq<Line>, e: Cursor) returns (col: int)
    requires OnText(lines, e) && !IsBlank(lines[e.line][e.col])
    ensures WordOf(lines, e, Cursor(e.line, col))
  {
    var c := e.col;
    while c >= 0 && !IsBlank(lines[e.line][c])
      invariant -1 <= c <= e.col
      invariant forall m :: c < m <= e.col ==> !IsBlank(lines[e.line][m])
      decreases c + 1
    {
      c := c - 1;
    }
    return c + 1;
  }

  /** prevWord from w: back over blanks, then to the start of the word reached (BackFrom). */
  method ScanBack(lines: seq<Line>, w: Cursor) returns (r: Outcome<Cursor>, ghost e: Cursor)
    requires WellFormed(lines) && OnText(lines, w) && (w.col == 0 || IsBlank(lines[w.line][w.col]))
    ensures BackFrom(lines, w, e, r)
  {
    var l, c := w.line, w.col;
    e := w;
    while true
      invariant 0 <= l <= w.line && -1 <= c < |lines[l]|
      invariant l < w.line ==> c <= |lines[l]| - 2
      invariant c < 0 ==> |lines[l]| == 1 && l < w.line
      invariant NotAfter(Cursor(l, c), w)
      invariant BlanksBack(lines, Cursor(l, if c < 0 then 0 else c), w)
      invariant forall k :: l < k < w.line ==> |lines[k]| > 1
      invariant Cursor(l, c) != w ==> IsBlank(lines[w.line][w.col])
      decreases l, c + 1
    {
      if c < 0 {
        e := Cursor(l, 0);
        return OutOfRange, e;
      }
      if !IsBlank(lines[l][c]) {
        break;
      }
      if c == 0 && l == 0 {
        e := Cursor(0, 0);
        return Ok(Cursor(0, 0)), e;
      }
      BlanksBackExtend(lines, Cursor(l, c), w);
      if c == 0 {
        l := l - 1;
        c := |lines[l]| - 1;
      }
      c := c - 1;
    }
    e := Cursor(l, c);
    c := WordBegin(lines, Cursor(l, c));
    return Ok(Cursor(l, c)), e;
  }

  // ---------------------------------------------------------------------
  // The document object
  // ---------------------------------------------------------------------

  class Document {
    var file: seq<Line>
    var cursor: Cursor
    var dirty: bool

    /**
     * Every line keeps at least its terminator and the cursor is on an
     * existing line. The column may be -1: deleteChar leaves it there on a
     * first line that holds only its terminator.
     */
    ghost predicate Valid()
      reads this
    {
      WellFormed(file) && 0 <= cursor.line < |file| && cursor.col < |file[cursor.line]|
    }

    function State(): Buffer
      reads this
    {
      Buffer(file, cursor, dirty)
    }

    /** Document(fn): the lines read from the file's text, cursor at (0, 0), not dirty. */
    constructor (text: seq<char>)
      requires text != []
      ensures Valid() && OnText(file, cursor)
      ensures file == Lines(text) && cursor == Cursor(0, 0) && !dirty
    {
      var lines := ReadLines(text);
      LinesShape(text);
      file := lines;
      cursor := Cursor(0, 0);
      dirty := false;
    }

    /** setCursor(line, col, incNL) */
    method SetCursor(line: int, col: int, incNL: bool) returns (c: Cursor)
      requires Valid()
      modifies this`cursor
      ensures Valid() && OnText(file, cursor)
      ensures c == cursor == ClampCursor(file, line, col, incNL)
    {
      var l := Min(Max(line, 0), |file| - 1);
      var k := Max(col, 0);
      cursor := Cursor(l, k);
      cursor := cursor.(line := Min(cursor.line, |file| - 1));
      cursor := cursor.(col := Max(0, Min(cursor.col, |file[l]| - (if incNL then 1 else 2))));
      c := cursor;
    }

    function GetCursor(): (c: Cursor)
      reads this
      requires Valid()
      ensures 0 <= c.line < |file|
    {
      cursor
    }

    /** insert(c) */
    method Insert(c: char)
      requires Valid() && OnText(file, cursor)
      modifies this
      ensures State() == InsertAtCursor(old(State()), c)
      ensures Valid() && OnText(file, cursor)
    {
      ghost var before := State();
      InsertAtCursorText(before, c);
      SplitSteps(file, cursor.line, cursor.col, c);
      dirty := true;
      var s := file[cursor.line];
      file := file[cursor.line := s[..cursor.col] + [c] + s[cursor.col..]];
      cursor := cursor.(col := cursor.col + 1);
      if IsBreak(c) {
        var L := cursor.line;
        var newline := file[L][cursor.col..];
        file := file[L := file[L][..cursor.col]];
        cursor := cursor.(line := L + 1);
        file := file[..L + 1] + [newline] + file[L + 1..];
        cursor := cursor.(col := 0);
      }
    }

    /** deleteChar() */
    method DeleteChar() returns (deleted: char)
      requires Valid() && OnText(file, cursor)
      modifies this
      ensures (State(), deleted) == DeleteBeforeCursor(old(State()))
      ensures Valid()
    {
      ghost var before := State();
      if cursor.col == 0 && cursor.line > 0 {
        ghost var L := cursor.line;
        cursor := cursor.(line := cursor.line - 1);
        cursor := cursor.(col := |file[cursor.line]|);
        file := file[cursor.line := file[cursor.line] + file[cursor.line + 1]];
        file := file[..cursor.line + 1] + file[cursor.line + 2..];
        assert file == before.lines[..L - 1] + [before.lines[L - 1] + before.lines[L]] + before.lines[L + 1..];
      }
      ghost var joined := State();
      assert joined == JoinAtLineStart(before);
      deleted := '\0';
      if |file[cursor.line]| == 1 {
        cursor := cursor.(col := cursor.col - 1);
      } else if cursor.col != 0 {
        dirty := true;
        deleted := file[cursor.line][cursor.col - 1];
        cursor := cursor.(col := cursor.col - 1);
        var s := file[cursor.line];
        file := file[cursor.line := s[..cursor.col] + s[cursor.col + 1..]];
        assert s[..cursor.col] + s[cursor.col + 1..] == s[..cursor.col + 1 - 1] + s[cursor.col + 1..];
      }
      DeleteBeforeCursorText(before);
    }

    /** save(): the bytes written to the file. */
    method Save() returns (out: seq<char>)
      requires Valid()
      ensures out == Text(file)
    {
      out := [];
      var currLine := 0;
      while currLine < |file|
        invariant 0 <= currLine <= |file|
        invariant out == Text(file[..currLine])
      {
        TextAppend(file[..currLine], [file[currLine]]);
        assert Text([file[currLine]]) == file[currLine] by { assert [file[currLine]][1..] == []; }
        assert file[..currLine + 1] == file[..currLine] + [file[currLine]];
        out := out + file[currLine];
        currLine := currLine + 1;
      }
      assert file[..|file|] == file;
    }

    /** getLine(i): the line, or the empty string outside the file. */
    function GetLine(i: int): (r: Line)
      reads this
      requires Valid()
      ensures r != [] <==> 0 <= i < |file|
      ensures 0 <= i < |file| ==> r == file[i]
    {
      if i < 0 || i >= |file| then [] else file[i]
    }

    function IsDirty(): bool
      reads this
    {
      dirty
    }

    method SetDirty(d: bool)
      modifies this`dirty
      ensures dirty == d
    {
      dirty := d;
    }

    /** getDimensions: the number of lines and of characters, terminators included. */
    method GetDimensions() returns (nLines: int, nChars: int)
      ensures nLines == |file|
      ensures nChars == |Text(file)|
    {
      nLines := |file|;
      nChars := 0;
      var i := 0;
      while i < nLines
        invariant 0 <= i <= nLines
        invariant nChars == |Text(file[..i])|
      {
        TextAppend(file[..i], [file[i]]);
        assert Text([file[i]]) == file[i] by { assert [file[i]][1..] == []; }
        assert file[..i + 1] == file[..i] + [file[i]];
        nChars := nChars + |file[i]|;
        i := i + 1;
      }
      assert file[..nLines] == file;
    }

    /**
     * nextWord(): the scan runs to the first blank b at or after its start,
     * then past the blanks from b to p (IsNextWord); the result is at or after
     * the cursor and starts a line, is the document's last position, or holds
     * a non-blank character.
     */
    method NextWord() returns (r: Cursor, ghost b: Cursor, ghost p: Cursor)
      requires Valid() && OnText(file, cursor) && OneLinePerLine(file)
      ensures IsNextWord(file, cursor, b, p, r)
      ensures OnText(file, r) && NotAfter(cursor, r)
      ensures r.col == 0 || r == LastPosition(file) || !IsBlank(file[r.line][r.col])
    {
      var lines := file;
      var l, c := cursor.line, cursor.col;
      if |lines[l]| == 1 {
        l := if l + 1 == |lines| then l else l + 1;
      }
      ghost var s := NextWordStart(lines, cursor);
      assert s == Cursor(l, c);
      c := ToBlank(lines, Cursor(l, c));
      b := Cursor(l, c);
      l, c, p := SkipBlanks(lines, Cursor(l, c));
      if |lines[l]| == 1 {
        r := Cursor(l, 0);
      } else if l + 1 == |lines| && c + 1 == |lines[l]| {
        r := Cursor(l, c);
      } else if c + 1 == |lines[l]| {
        r := Cursor(l + 1, 0);
      } else {
        r := Cursor(l, c - 1);
      }
      NextWordLands(lines, cursor, b, p, r);
    }

    /**
     * prevWord(): at (0, 0) it stays there; otherwise the scan runs back over
     * the non-blanks to w, then back over the blanks to e, and returns the
     * start of e's word, (0, 0), or out_of_range when the blank scan steps
     * onto a line holding only its terminator and reads column -1
     * (IsPrevWord).  A result other than (0, 0) starts a word, at or before
     * the cursor.
     */
    method PrevWord() returns (r: Outcome<Cursor>, ghost w: Cursor, ghost e: Cursor)
      requires Valid() && OnText(file, cursor)
      ensures IsPrevWord(file, cursor, w, e, r)
      ensures cursor == Cursor(0, 0) ==> r == Ok(Cursor(0, 0))
      ensures r.Ok? ==> OnText(file, r.value) && NotAfter(r.value, cursor)
      ensures r.Ok? && r.value != Cursor(0, 0) ==> WordStart(file, r.value)
    {
      var lines := file;
      var c, l := cursor.col, cursor.line;
      w, e := cursor, cursor;
      if c == 0 && l > 0 {
        l := l - 1;
        c := |lines[l]| - 1;
      } else if c == 0 {
        return Ok(Cursor(0, 0)), w, e;
      }
      var idx := NonBlanksBack(lines, Cursor(l, c));
      // The source's early return `if (idx - c > 1)` can never be taken, as idx <= c.
      c := idx;
      w := Cursor(l, c);
      r, e := ScanBack(lines, Cursor(l, c));
    }

    /**
     * endOfWord(): the scan starts at `start`, the cursor itself when it is
     * inside a word with more of the word after it, and otherwise nextWord's
     * result (with nextWord's b and p); the result ends the run of non-blank
     * characters that begins there, so its next character is the first blank
     * at or after `start` (column -1 when `start` is itself a blank at the
     * start of its line).
     */
    method EndOfWord() returns (r: Cursor, ghost start: Cursor, ghost b: Cursor, ghost p: Cursor)
      requires Valid() && OnText(file, cursor) && OneLinePerLine(file)
      ensures OnText(file, start) && NotAfter(cursor, start) && start.line == r.line
      ensures InsideWord(file, cursor) ==> start == cursor
      ensures !InsideWord(file, cursor) ==> IsNextWord(file, cursor, b, p, start)
      ensures start == cursor || start.col == 0 || start == LastPosition(file) || !IsBlank(file[start.line][start.col])
      ensures FirstBlankFrom(file, start, Cursor(r.line, r.col + 1))
      ensures !IsBlank(file[start.line][start.col]) ==> start.col <= r.col
    {
      var lines := file;
      var l, c := cursor.line, cursor.col;
      b, p := cursor, cursor;
      // The source's two branches (on a blank; before a blank) both move to nextWord().
      var moves := IsBlank(lines[l][c]) || (c < |lines[l]| - 1 && IsBlank(lines[l][c + 1]));
      assert moves == !InsideWord(lines, cursor);
      if moves {
        var curs;
        curs, b, p := NextWord();
        l, c := curs.line, curs.col;
      }
      start := Cursor(l, c);
      // The source's end-of-file test `c == file[l].size()` can never hold here, as c < file[l].size().
      c := BlankAfter(lines, Cursor(l, c));
      r := Cursor(l, c - 1);
      WordEndAfter(lines, start, r);

    }
  }
}
