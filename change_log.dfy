/**
 * The undo/redo log of the editor (vim/src/change.hpp).
 *
 * The source keeps a doubly linked list of Change nodes (a sentinel, then
 * Insertion and Deletion records) and one shared cell naming the current
 * node. Here the list is the sequence `records`, the shared cell is the
 * index `current`, and a node's prev/next are the neighbouring indices.
 *
 * A record (kind, diff, line, col) is what the key loop stores:
 *   - an Insertion of c made with the cursor at (L, k) is recorded as (c, L, k + 1);
 *   - a Deletion made with the cursor at (L, k) that removed d is recorded as (d, L, k).
 * Undo and redo position the cursor from the record and call back into the
 * buffer's insert and deleteChar.
 */
module ChangeLog {
  import opened TextBuffer

  datatype Kind = Sentinel | Insertion | Deletion

  /** One node of the list: what changed, and where. */
  datatype Change = Change(kind: Kind, diff: char, line: int, col: int)

  /** The node the key loop creates first: a plain Change holding '\0'. */
  const Origin: Change := Change(Sentinel, '\0', 0, 0)

  // ---------------------------------------------------------------------
  // Replaying a record against the buffer
  // ---------------------------------------------------------------------

  /** setCursor(line, col, incNL) on a buffer value. */
  function Place(b: Buffer, line: int, col: int, incNL: bool): (r: Buffer)
    requires WellFormed(b.lines)
    ensures r.lines == b.lines && r.dirty == b.dirty
    ensures OnText(r.lines, r.cursor)
  {
    b.(cursor := ClampCursor(b.lines, line, col, incNL))
  }

  /**
   * doInsert as written: setCursor(line, col - 1), insert(diff),
   * setCursor(line, col - 1), all with incNL left at false.
   */
  function InsertAsWritten(b: Buffer, c: Change): (r: Buffer)
    requires WellFormed(b.lines)
    ensures WellFormed(r.lines)
  {
    var p := Place(b, c.line, c.col - 1, false);
    InsertAtCursorText(p, c.diff);
    Place(InsertAtCursor(p, c.diff), c.line, c.col - 1, false)
  }

  /** doDelete as written: setCursor(line, col) with incNL false, then deleteChar. */
  function DeleteAsWritten(b: Buffer, c: Change): (r: Buffer)
    requires WellFormed(b.lines)
    ensures WellFormed(r.lines)
  {
    var p := Place(b, c.line, c.col, false);
    DeleteBeforeCursorText(p);
    DeleteBeforeCursor(p).0
  }

  /**
   * doInsert with the cursor placed as the recording site placed it
   * (setCursor with incNL set), so that a column on the line terminator is
   * kept instead of being pulled back by one.
   */
  function ReplayInsert(b: Buffer, c: Change): (r: Buffer)
    requires WellFormed(b.lines)
    ensures WellFormed(r.lines)
  {
    var p := Place(b, c.line, c.col - 1, true);
    InsertAtCursorText(p, c.diff);
    Place(InsertAtCursor(p, c.diff), c.line, c.col - 1, true)
  }

  /**
   * Where the character a record's deletion must remove sits just before the
   * cursor: for an inserted line break that is the start of the line the
   * break opened, otherwise the recorded position.
   */
  function DeletePoint(c: Change): Cursor
  {
    if c.kind == Insertion && IsBreak(c.diff) then Cursor(c.line + 1, 0) else Cursor(c.line, c.col)
  }

  /** doDelete with the cursor placed at DeletePoint, keeping the terminator column. */
  function ReplayDelete(b: Buffer, c: Change): (r: Buffer)
    requires WellFormed(b.lines)
    ensures WellFormed(r.lines)
  {
    var at := DeletePoint(c);
    var p := Place(b, at.line, at.col, true);
    DeleteBeforeCursorText(p);
    DeleteBeforeCursor(p).0
  }

  /** What undoing record c does to the buffer (Insertion::undo and Deletion::undo), with the corrected doInsert/doDelete. */
  function UndoEffect(b: Buffer, c: Change): (r: Buffer)
    requires WellFormed(b.lines)
    ensures WellFormed(r.lines)
  {
    match c.kind
    case Insertion => ReplayDelete(b, c)
    case Deletion => ReplayInsert(b, c)
    case Sentinel => b
  }

  /** What redoing record c does to the buffer (Insertion::redo and Deletion::redo), with the corrected doInsert/doDelete. */
  function RedoEffect(b: Buffer, c: Change): (r: Buffer)
    requires WellFormed(b.lines)
    ensures WellFormed(r.lines)
  {
    match c.kind
    case Insertion => ReplayInsert(b, c)
    case Deletion => ReplayDelete(b, c)
    case Sentinel => b
  }

  /** The record the key loop makes for insert(ch) with the cursor at b.cursor. */
  function InsertionRecord(b: Buffer, ch: char): (c: Change)
    ensures c.kind == Insertion && c.diff == ch
    ensures OnText(b.lines, b.cursor) ==> DeletePoint(c) == InsertAtCursor(b, ch).cursor
  {
    Change(Insertion, ch, b.cursor.line, b.cursor.col + 1)
  }

  /** The record the key loop makes for a deleteChar that removed d with the cursor at b.cursor. */
  function DeletionRecord(b: Buffer, d: char): (c: Change)
    ensures c.kind == Deletion && c.diff == d && DeletePoint(c) == b.cursor
  {
    Change(Deletion, d, b.cursor.line, b.cursor.col)
  }

  // ---------------------------------------------------------------------
  // Undo and redo restore what the edit changed
  // ---------------------------------------------------------------------

  /** Undoing a recorded insertion restores the lines and the cursor from before it. */
  lemma UndoInsertRestores(b: Buffer, ch: char)
    requires WellFormed(b.lines) && OnText(b.lines, b.cursor)
    ensures UndoEffect(InsertAtCursor(b, ch), InsertionRecord(b, ch)) == b.(dirty := true)
  {
    InsertAtCursorText(b, ch);
    var r := InsertAtCursor(b, ch);
    var c := InsertionRecord(b, ch);
    assert Place(r, DeletePoint(c).line, DeletePoint(c).col, true) == r;
    InsertThenDelete(b, ch);
  }

  /** Redoing a recorded insertion after undoing it puts the inserted character back. */
  lemma RedoInsertAfterUndo(b: Buffer, ch: char)
    requires WellFormed(b.lines) && OnText(b.lines, b.cursor)
    ensures var c := InsertionRecord(b, ch);
      RedoEffect(UndoEffect(InsertAtCursor(b, ch), c), c) == InsertAtCursor(b, ch).(cursor := b.cursor)
  {
    UndoInsertRestores(b, ch);
    var c := InsertionRecord(b, ch);
    var u := b.(dirty := true);
    assert Place(u, c.line, c.col - 1, true) == u;
    InsertAtCursorText(u, ch);
    var r := InsertAtCursor(u, ch);
    assert r == InsertAtCursor(b, ch);
    assert ClampCursor(r.lines, c.line, c.col - 1, true) == b.cursor by {
      if IsBreak(ch) {
        assert r.lines[b.cursor.line] == b.lines[b.cursor.line][..b.cursor.col] + [ch];
      } else {
        assert |r.lines[b.cursor.line]| == |b.lines[b.cursor.line]| + 1;
      }
    }
  }

  /**
   * Undoing a recorded deletion of a character inside a line puts the
   * character back: the lines are as before the deletion, and the cursor is
   * left on the restored character.
   */
  lemma UndoDeleteRestores(b: Buffer)
    requires WellFormed(b.lines) && OnText(b.lines, b.cursor)
    requires b.cursor.col != 0 && !IsBreak(b.lines[b.cursor.line][b.cursor.col - 1])
    ensures var (r, d) := DeleteBeforeCursor(b);
      UndoEffect(r, DeletionRecord(b, d)) ==
        Buffer(b.lines, Cursor(b.cursor.line, b.cursor.col - 1), true)
  {
    DeleteBeforeCursorText(b);
    var (r, d) := DeleteBeforeCursor(b);
    var L, k := b.cursor.line, b.cursor.col;
    var s := b.lines[L];
    var c := DeletionRecord(b, d);
    assert r.lines == b.lines[L := s[..k - 1] + s[k..]] && r.cursor == Cursor(L, k - 1) && d == s[k - 1];
    assert Place(r, L, k - 1, true) == r;
    var q := InsertAtCursor(r, d);
    assert q.lines == b.lines by {
      assert s[..k - 1] + s[k..] == s[..k - 1] + s[k - 1..][1..];
      assert (s[..k - 1] + s[k..])[..k - 1] == s[..k - 1];
      assert (s[..k - 1] + s[k..])[k - 1..] == s[k..];
      assert s[..k - 1] + [s[k - 1]] + s[k..] == s;
    }
    assert q.cursor == Cursor(L, k);
  }

  /** Redoing a recorded deletion after undoing it removes the same character again. */
  lemma RedoDeleteAfterUndo(b: Buffer)
    requires WellFormed(b.lines) && OnText(b.lines, b.cursor)
    requires b.cursor.col != 0 && !IsBreak(b.lines[b.cursor.line][b.cursor.col - 1])
    ensures var (r, d) := DeleteBeforeCursor(b);
      var c := DeletionRecord(b, d);
      RedoEffect(UndoEffect(r, c), c) == r
  {
    UndoDeleteRestores(b);
    var (r, d) := DeleteBeforeCursor(b);
    var c := DeletionRecord(b, d);
    var u := Buffer(b.lines, Cursor(b.cursor.line, b.cursor.col - 1), true);
    assert Place(u, c.line, c.col, true) == b.(dirty := true);
  }

  // ---------------------------------------------------------------------
  // The positioning as written (Findings)
  // ---------------------------------------------------------------------

  /**
   * As written, undoing the insertion of 'c' at the end of "ab" deletes the
   * 'b' instead: setCursor(0, 3) without incNL stops on 'c', one column
   * early. The corrected replay restores "ab\n".
   */
  lemma UndoInsertAsWrittenDeletesNeighbour()
    ensures var b := Buffer(["ab\n"], Cursor(0, 2), false);
      var r := InsertAtCursor(b, 'c');
      var rec := InsertionRecord(b, 'c');
      r.lines == ["abc\n"] &&
      DeleteAsWritten(r, rec).lines == ["ac\n"] &&
      UndoEffect(r, rec).lines == ["ab\n"]
  {
    var b := Buffer(["ab\n"], Cursor(0, 2), false);
    var r := InsertAtCursor(b, 'c');
    assert "ab\n"[..2] + ['c'] + "ab\n"[2..] == "abc\n";
    assert r.lines == ["abc\n"];
    assert ClampCursor(r.lines, 0, 3, false) == Cursor(0, 2);
    var s := "abc\n";
    assert s[..1] + s[2..] == "ac\n";
    UndoInsertRestores(b, 'c');
  }

  /**
   * As written, undoing the deletion of the 'b' of "ab" re-inserts it before
   * the 'a': setCursor(0, 1) without incNL is pulled back to column 0 on the
   * line "a\n". The corrected replay restores "ab\n".
   */
  lemma UndoDeleteAsWrittenMisplaces()
    ensures var b := Buffer(["ab\n"], Cursor(0, 2), false);
      var (r, d) := DeleteBeforeCursor(b);
      var rec := DeletionRecord(b, d);
      r.lines == ["a\n"] && d == 'b' &&
      InsertAsWritten(r, rec).lines == ["ba\n"] &&
      UndoEffect(r, rec).lines == ["ab\n"]
  {
    var b := Buffer(["ab\n"], Cursor(0, 2), false);
    var s := "ab\n";
    assert s[..1] + s[2..] == "a\n";
    var (r, d) := DeleteBeforeCursor(b);
    assert r.lines == ["a\n"] && d == 'b';
    assert ClampCursor(r.lines, 0, 1, false) == Cursor(0, 0);
    var t := "a\n";
    assert t[..0] + ['b'] + t[0..] == "ba\n";
    UndoDeleteRestores(b);
  }

  // ---------------------------------------------------------------------
  // The list of changes as a value
  // ---------------------------------------------------------------------

  /** The nodes in list order and the index held by the shared current cell. */
  datatype Log = Log(records: seq<Change>, current: nat)

  /**
   * records[0] is the sentinel made when the editor starts; every other node
   * is an Insertion or a Deletion; current names a node of the list.
   */
  predicate LogValid(g: Log)
  {
    g.current < |g.records| && g.records[0] == Origin &&
    forall i :: 0 < i < |g.records| ==> g.records[i].kind != Sentinel
  }

  /**
   * addChange(c): every node after the current one is discarded, c is linked
   * after it and becomes current.
   */
  function AfterAdd(g: Log, c: Change): (r: Log)
    requires LogValid(g) && c.kind != Sentinel
    ensures LogValid(r)
    ensures r.current == g.current + 1 == |r.records| - 1
    ensures r.records[..r.current] == g.records[..g.current + 1] && r.records[r.current] == c
  {
    Log(g.records[..g.current + 1] + [c], g.current + 1)
  }

  /**
   * undo(): nothing when the current node holds '\0' (the sentinel, or a
   * deletion that removed nothing); otherwise the current node is undone on
   * the buffer and its predecessor becomes current.
   */
  function AfterUndo(g: Log, b: Buffer): (Log, Buffer)
    requires LogValid(g) && WellFormed(b.lines)
  {
    var c := g.records[g.current];
    if c.diff == '\0' then (g, b) else (g.(current := g.current - 1), UndoEffect(b, c))
  }

  /**
   * redo(): nothing when the current node has no successor; otherwise the
   * successor's own edit is replayed and the successor becomes current.
   */
  function AfterRedo(g: Log, b: Buffer): (Log, Buffer)
    requires LogValid(g) && WellFormed(b.lines)
  {
    if g.current + 1 < |g.records| then
      (g.(current := g.current + 1), RedoEffect(b, g.records[g.current + 1]))
    else (g, b)
  }

  /** undo keeps the list and moves current back by one exactly when the current node holds a character. */
  lemma UndoMovesBack(g: Log, b: Buffer)
    requires LogValid(g) && WellFormed(b.lines)
    ensures var (g', b') := AfterUndo(g, b);
      LogValid(g') && WellFormed(b'.lines) && g'.records == g.records &&
      (g'.current == g.current - 1 <==> g.records[g.current].diff != '\0') &&
      (g'.current == g.current <==> g.records[g.current].diff == '\0') &&
      (g'.current == g.current ==> b' == b)
  {
  }

  /** Straight after addChange there is nothing to redo. */
  lemma RedoAfterAddIsNoOp(g: Log, c: Change, b: Buffer)
    requires LogValid(g) && c.kind != Sentinel && WellFormed(b.lines)
    ensures AfterRedo(AfterAdd(g, c), b) == (AfterAdd(g, c), b)
  {
  }

  /** A redo after an undo that moved brings current back to the same node. */
  lemma RedoAfterUndoReturns(g: Log, b: Buffer)
    requires LogValid(g) && WellFormed(b.lines)
    requires g.records[g.current].diff != '\0'
    ensures var (g', b') := AfterUndo(g, b); AfterRedo(g', b').0 == g
  {
    UndoMovesBack(g, b);
  }

  /**
   * Recording an insertion and undoing it gives back the buffer from before
   * the insertion, and leaves current on the node that was current then.
   */
  lemma UndoRecordedInsertion(g: Log, b: Buffer, ch: char)
    requires LogValid(g) && WellFormed(b.lines) && OnText(b.lines, b.cursor) && ch != '\0'
    ensures var g1 := AfterAdd(g, InsertionRecord(b, ch));
      AfterUndo(g1, InsertAtCursor(b, ch)) == (g1.(current := g.current), b.(dirty := true))
  {
    UndoInsertRestores(b, ch);
  }

  /**
   * Recording the deletion of a character inside a line and undoing it gives
   * back the lines from before the deletion.
   */
  lemma UndoRecordedDeletion(g: Log, b: Buffer)
    requires LogValid(g) && WellFormed(b.lines) && OnText(b.lines, b.cursor)
    requires b.cursor.col != 0 && !IsBreak(b.lines[b.cursor.line][b.cursor.col - 1])
    requires b.lines[b.cursor.line][b.cursor.col - 1] != '\0'
    ensures var (r, d) := DeleteBeforeCursor(b);
      var g1 := AfterAdd(g, DeletionRecord(b, d));
      AfterUndo(g1, r) == (g1.(current := g.current), Buffer(b.lines, Cursor(b.cursor.line, b.cursor.col - 1), true))
  {
    UndoDeleteRestores(b);
  }

  /** Undo then redo of a recorded insertion leaves the inserted text in place again. */
  lemma RedoRecordedInsertion(g: Log, b: Buffer, ch: char)
    requires LogValid(g) && WellFormed(b.lines) && OnText(b.lines, b.cursor) && ch != '\0'
    ensures var g1 := AfterAdd(g, InsertionRecord(b, ch));
      var (g2, b2) := AfterUndo(g1, InsertAtCursor(b, ch));
      AfterRedo(g2, b2) == (g1, InsertAtCursor(b, ch).(cursor := b.cursor))
  {
    UndoRecordedInsertion(g, b, ch);
    RedoInsertAfterUndo(b, ch);
  }

  /** Undo then redo of a recorded deletion gives the buffer the deletion left. */
  lemma RedoRecordedDeletion(g: Log, b: Buffer)
    requires LogValid(g) && WellFormed(b.lines) && OnText(b.lines, b.cursor)
    requires b.cursor.col != 0 && !IsBreak(b.lines[b.cursor.line][b.cursor.col - 1])
    requires b.lines[b.cursor.line][b.cursor.col - 1] != '\0'
    ensures var (r, d) := DeleteBeforeCursor(b);
      var g1 := AfterAdd(g, DeletionRecord(b, d));
      var (g2, b2) := AfterUndo(g1, r);
      AfterRedo(g2, b2) == (g1, r)
  {
    UndoRecordedDeletion(g, b);
    RedoDeleteAfterUndo(b);
  }

  // ---------------------------------------------------------------------
  // The list of changes as an object
  // ---------------------------------------------------------------------

  /** The change list with its shared current cell. */
  class History {
    var records: seq<Change>
    var current: nat

    function Contents(): Log
      reads this
    {
      Log(records, current)
    }

    ghost predicate Valid()
      reads this
    {
      LogValid(Contents())
    }

    /** new Change(doc, '\0'): a list holding only the sentinel. */
    constructor ()
      ensures Valid() && records == [Origin] && current == 0
    {
      records := [Origin];
      current := 0;
    }

    method AddChange(c: Change)
      requires Valid() && c.kind != Sentinel
      modifies this
      ensures Valid() && Contents() == AfterAdd(old(Contents()), c)
    {
      records := records[..current + 1] + [c];
      current := current + 1;
    }

    /** doInsert(c) on the document. */
    method DoInsert(doc: Document, c: Change)
      requires doc.Valid()
      modifies doc
      ensures doc.Valid()
      ensures doc.State() == ReplayInsert(old(doc.State()), c)
    {
      var _ := doc.SetCursor(c.line, c.col - 1, true);
      doc.Insert(c.diff);
      var _ := doc.SetCursor(c.line, c.col - 1, true);
    }

    /** doDelete(c) on the document. */
    method DoDelete(doc: Document, c: Change)
      requires doc.Valid()
      modifies doc
      ensures doc.Valid()
      ensures doc.State() == ReplayDelete(old(doc.State()), c)
    {
      var at := DeletePoint(c);
      var _ := doc.SetCursor(at.line, at.col, true);
      var _ := doc.DeleteChar();
    }

    /** undo(): undoes the current record through the corrected doInsert/doDelete and steps back. */
    method Undo(doc: Document)
      requires Valid() && doc.Valid()
      modifies this, doc
      ensures Valid() && doc.Valid()
      ensures (Contents(), doc.State()) == AfterUndo(old(Contents()), old(doc.State()))
    {
      var c := records[current];
      if c.diff != '\0' {
        match c.kind {
          case Insertion =>
            DoDelete(doc, c);
          case Deletion =>
            DoInsert(doc, c);
          case Sentinel =>
        }
        current := current - 1;
      }
    }

    /** redo(): redoes the next record through the corrected doInsert/doDelete and steps forward. */
    method Redo(doc: Document)
      requires Valid() && doc.Valid()
      modifies this, doc
      ensures Valid() && doc.Valid()
      ensures (Contents(), doc.State()) == AfterRedo(old(Contents()), old(doc.State()))
    {
      if current + 1 < |records| {
        var c := records[current + 1];
        match c.kind {
          case Insertion =>
            DoInsert(doc, c);
          case Deletion =>
            DoDelete(doc, c);
          case Sentinel =>
        }
        current := current + 1;
      }
    }
  }
}
