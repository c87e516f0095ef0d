/**
 * A text buffer: the rope's text, the file it belongs to, the dirty flag,
 * the cursor, the viewport and the pending auto-save deadline.
 */
module Buffers {
  import opened Wrappers
  import opened Text
  import TextLines
  import opened Paths
  import opened Cursors

  /** Scroll state. `height` and `scrollOff` are 16-bit in the source; both fit in a `nat`. */
  datatype Viewport = Viewport(topLine: nat, height: nat, scrollOff: nat)

  const DefaultViewport := Viewport(0, 24, 5)

  function Min(a: nat, b: nat): nat { if a <= b then a else b }

  /** `usize::saturating_sub`. */
  function SatSub(a: nat, b: nat): nat { if a >= b then a - b else 0 }

  /**
   * The scroll margin actually used: the configured one, narrowed so that
   * the cursor line still fits inside the window.
   */
  function EffectiveScrollOff(vp: Viewport): (off: nat)
    ensures off <= vp.scrollOff
    ensures vp.height > 0 ==> off < vp.height
    ensures vp.scrollOff < vp.height ==> off == vp.scrollOff
  {
    if vp.height == 0 then 0 else Min(vp.scrollOff, vp.height - 1)
  }

  /**
   * The first visible line after `scroll_to_cursor` with the cursor on
   * line `row`: the window moves up when the cursor comes within the
   * margin of its top and down when it comes within the margin of its
   * bottom. The cursor line is always visible and the bottom margin is kept.
   */
  function ScrollTop(row: nat, vp: Viewport): (top: nat)
    ensures top <= row
    ensures vp.height > 0 ==> row + EffectiveScrollOff(vp) < top + vp.height
    ensures vp.topLine + EffectiveScrollOff(vp) <= row && row + EffectiveScrollOff(vp) < vp.topLine + vp.height
            ==> top == vp.topLine
  {
    var off := EffectiveScrollOff(vp);
    var t1 := if row < vp.topLine + off then SatSub(row, off) else vp.topLine;
    if vp.height > 0 && row + off >= t1 + vp.height then row + off + 1 - vp.height else t1
  }

  /** Where `clamp_cursor` puts the cursor: on an existing line, no further right than its end. */
  function Clamp(t: string, c: CursorState): (d: CursorState)
    ensures d.row < TextLines.LineCount(t)
    ensures d.col <= ByteLen(TextLines.LineText(t, d.row))
    ensures d.desiredCol == c.desiredCol && d.selection == c.selection
    ensures d.row <= c.row && d.col <= c.col
    ensures c.row < TextLines.LineCount(t) ==> d.row == c.row
    ensures d.row == c.row && c.col <= ByteLen(TextLines.LineText(t, c.row)) ==> d == c
  {
    var row := Min(c.row, TextLines.LineCount(t) - 1);
    c.(row := row, col := Min(c.col, ByteLen(TextLines.LineText(t, row))))
  }

  /** Clamping twice is clamping once. */
  lemma {:induction false} ClampIdempotent(t: string, c: CursorState)
    ensures Clamp(t, Clamp(t, c)) == Clamp(t, c)
  {
  }

  /** A cursor inside its line names a byte offset inside the text. */
  lemma {:induction false} InLineOffset(t: string, row: nat, col: nat)
    requires row < TextLines.LineCount(t) && col <= ByteLen(TextLines.LineText(t, row))
    ensures TextLines.LineStartByte(t, row) + col <= ByteLen(t)
  {
    TextLines.LineTextSlice(t, row);
    PrefixByteLen(t, TextLines.LineStart(t, row), TextLines.LineText(t, row));
  }

  /**
   * A jump followed by `clamp_cursor` always leaves a cursor that is valid
   * in the text, with the jump's column as the sticky column; a target
   * that already lies inside its line is reached exactly.
   */
  lemma {:induction false} MoveToClamped(t: string, c: CursorState, r: nat, col: nat)
    ensures var d := Clamp(t, c.MoveTo(r, col));
      && CursorIn(t, d.row, d.col)
      && d.desiredCol == col && d.selection == c.selection
      && (r < TextLines.LineCount(t) && col <= ByteLen(TextLines.LineText(t, r)) ==> d.Pos() == Position(r, col))
  {
    var d := Clamp(t, c.MoveTo(r, col));
    InLineOffset(t, d.row, d.col);
  }

  /**
   * A buffer held by value, as the inactive tabs are: the same fields as
   * `Buffer`, moved in and out of the tab map whole.
   */
  datatype BufferState = BufferState(
    text: string,
    path: Option<Path>,
    dirty: bool,
    cursor: CursorState,
    viewport: Viewport,
    saveDebounce: Option<int>)
  {
    /** The cursor names an existing line and a byte offset inside the text. */
    ghost predicate Valid() {
      CursorIn(text, cursor.row, cursor.col)
    }

    /** Unsaved edits, or an auto-save still scheduled. */
    predicate Pending() {
      dirty || saveDebounce.Some?
    }
  }

  class Buffer {
    /** The rope's contents. */
    var text: string
    var path: Option<Path>
    var dirty: bool
    var cursor: CursorState
    var viewport: Viewport
    /** Deadline (milliseconds) of the pending auto-save, if one is scheduled. */
    var saveDebounce: Option<int>

    /** The cursor names an existing line and a byte offset inside the text. */
    ghost predicate Valid()
      reads this
    {
      CursorIn(text, cursor.row, cursor.col)
    }

    /** `Buffer::new`: an empty, clean buffer with no file. */
    constructor ()
      ensures text == "" && path == None && !dirty
      ensures cursor == DefaultCursor && viewport == DefaultViewport && saveDebounce == None
      ensures Valid()
    {
      text := "";
      path := None;
      dirty := false;
      cursor := DefaultCursor;
      viewport := DefaultViewport;
      saveDebounce := None;
    }

    /** `Buffer::from_file`, given the text read from `p`. */
    constructor FromFile(p: Path, contents: string)
      ensures text == contents && path == Some(p) && !dirty
      ensures cursor == DefaultCursor && viewport == DefaultViewport && saveDebounce == None
      ensures Valid()
    {
      text := contents;
      path := Some(p);
      dirty := false;
      cursor := DefaultCursor;
      viewport := DefaultViewport;
      saveDebounce := None;
    }

    /** Moves a buffer held by value back into an object. */
    constructor FromState(s: BufferState)
      ensures State() == s
    {
      text := s.text;
      path := s.path;
      dirty := s.dirty;
      cursor := s.cursor;
      viewport := s.viewport;
      saveDebounce := s.saveDebounce;
    }

    /** The buffer's fields as a value. */
    function State(): (s: BufferState)
      reads this
      ensures s.Valid() == Valid()
      ensures s.Pending() <==> dirty || saveDebounce.Some?
    {
      BufferState(text, path, dirty, cursor, viewport, saveDebounce)
    }

    /** `Buffer::line_count`. */
    function LineCount(): (n: nat)
      reads this`text
      ensures n >= 1
      ensures n == 1 <==> '\n' !in text
    {
      TextLines.SingleLine(text);
      TextLines.LineCount(text)
    }

    /**
     * `Buffer::line_text`: None past the last line; otherwise the line
     * without its ending, which holds no '\n'.
     */
    function LineText(idx: nat): (r: Option<string>)
      reads this
      ensures r.None? <==> idx >= LineCount()
      ensures r.Some? ==>
        && '\n' !in r.value
        && |r.value| <= |TextLines.RopeLine(text, idx)|
        && TextLines.RopeLine(text, idx) == r.value + TextLines.RopeLine(text, idx)[|r.value|..]
        && TextLines.IsLineEnding(TextLines.RopeLine(text, idx)[|r.value|..])
    {
      if idx >= TextLines.LineCount(text) then None
      else
        var s := TextLines.LineText(text, idx);
        TextLines.LineTextSpec(text, idx);
        assert TextLines.RopeLine(text, idx) == s + TextLines.RopeLine(text, idx)[|s|..];
        Some(s)
    }

    /** `cursor_byte_offset`: the start of the cursor's line plus its column. */
    function CursorByteOffset(): (b: nat)
      requires Valid()
      reads this
      ensures b <= ByteLen(text)
      ensures b >= cursor.col
    {
      TextLines.LineStartByte(text, cursor.row) + cursor.col
    }

    /**
     * `insert_char`: puts `ch` at the cursor and moves the cursor past it;
     * only a '\n' adds a line.
     */
    method InsertChar(ch: char)
      requires Valid()
      modifies this
      ensures Valid()
      ensures var k := TextLines.CharIndexAt(old(text), old(CursorByteOffset()));
        text == old(text)[..k] + [ch] + old(text)[k..]
      ensures cursor == old(cursor).(col := old(cursor.col) + Utf8Len(ch))
      ensures CursorByteOffset() == old(CursorByteOffset()) + Utf8Len(ch)
      ensures LineCount() == old(LineCount()) + (if ch == '\n' then 1 else 0)
      ensures dirty && path == old(path) && viewport == old(viewport) && saveDebounce == old(saveDebounce)
    {
      var k := TextLines.CharIndexAt(text, CursorByteOffset());
      var t := text[..k] + [ch] + text[k..];
      InsertKeepsCursor(text, cursor.row, cursor.col, ch, k, t);
      text := t;
      cursor := cursor.(col := cursor.col + Utf8Len(ch));
      dirty := true;
    }

    /**
     * `insert_newline`: puts a '\n' at the cursor and moves the cursor to
     * the start of the next line.
     */
    method InsertNewline()
      requires Valid()
      modifies this
      ensures Valid()
      ensures var k := TextLines.CharIndexAt(old(text), old(CursorByteOffset()));
        text == old(text)[..k] + ['\n'] + old(text)[k..]
      ensures cursor == old(cursor).(row := old(cursor.row) + 1, col := 0, desiredCol := 0)
      ensures LineCount() == old(LineCount()) + 1
      ensures dirty && path == old(path) && viewport == old(viewport) && saveDebounce == old(saveDebounce)
    {
      var k := TextLines.CharIndexAt(text, CursorByteOffset());
      var t := text[..k] + ['\n'] + text[k..];
      InsertKeepsCursor(text, cursor.row, cursor.col, '\n', k, t);
      text := t;
      cursor := cursor.(row := cursor.row + 1, col := 0, desiredCol := 0);
      dirty := true;
    }

    /** `delete_char_before` (backspace); see `Backspace` for its three cases. */
    method DeleteCharBefore()
      requires Valid()
      modifies this
      ensures Valid()
      ensures (text, cursor) == Backspace(old(text), old(cursor))
      ensures dirty == (old(dirty) || old(cursor.row) > 0 || old(cursor.col) > 0)
      ensures path == old(path) && viewport == old(viewport) && saveDebounce == old(saveDebounce)
    {
      if cursor.col == 0 && cursor.row == 0 {
        return;
      }
      if cursor.col == 0 {
        var joined := JoinWithPrevious(text, cursor);
        BackspaceJoins(text, cursor);
        text, cursor := joined.0, joined.1;
      } else {
        var removed := RemoveCharBefore(text, cursor);
        BackspaceMovesCursor(text, cursor);
        text, cursor := removed.0, removed.1;
      }
      dirty := true;
    }

    /** `clamp_cursor`: works from any cursor, valid or not. */
    method ClampCursor()
      modifies this
      ensures cursor == Clamp(text, old(cursor))
      ensures Valid()
      ensures text == old(text) && path == old(path) && dirty == old(dirty)
      ensures viewport == old(viewport) && saveDebounce == old(saveDebounce)
    {
      var maxRow := TextLines.LineCount(text) - 1;
      var row := if cursor.row <= maxRow then cursor.row else maxRow;
      var lineLen := ByteLen(TextLines.LineText(text, row));
      var col := if cursor.col <= lineLen then cursor.col else lineLen;
      InLineOffset(text, row, col);
      cursor := cursor.(row := row, col := col);
    }

    /** `scroll_to_cursor`, with the margin narrowed to fit the window. */
    method ScrollToCursor()
      modifies this
      ensures viewport == old(viewport).(topLine := ScrollTop(cursor.row, old(viewport)))
      ensures text == old(text) && cursor == old(cursor) && path == old(path)
      ensures dirty == old(dirty) && saveDebounce == old(saveDebounce)
    {
      var off := EffectiveScrollOff(viewport);
      var height := viewport.height;
      if cursor.row < viewport.topLine + off {
        viewport := viewport.(topLine := SatSub(cursor.row, off));
      }
      if height > 0 && cursor.row + off >= viewport.topLine + height {
        viewport := viewport.(topLine := cursor.row + off + 1 - height);
      }
    }
  }

  /** A cursor (row, col) names an existing line of `t` and a byte offset inside `t`. */
  ghost predicate CursorIn(t: string, row: nat, col: nat)
  {
    row < TextLines.LineCount(t) && TextLines.LineStartByte(t, row) + col <= ByteLen(t)
  }

  /**
   * The character removed by backspace when col > 0 lies inside the
   * cursor's line: it is the one ending at (or containing) the cursor's byte.
   */
  lemma {:induction false} DeletePoint(t: string, c: CursorState)
    requires CursorIn(t, c.row, c.col) && c.col > 0
    ensures var k := TextLines.CharIndexAt(t, TextLines.LineStartByte(t, c.row) + c.col);
      && TextLines.LineStart(t, c.row) < k
      && TextLines.LineStartByte(t, c.row) <= ByteLen(t[..k - 1])
  {
    var b := TextLines.LineStartByte(t, c.row) + c.col;
    TextLines.CharIndexAtLineStart(t, c.row, b);
    TextLines.ByteLenPrefixLe(t, TextLines.LineStart(t, c.row), TextLines.CharIndexAt(t, b) - 1);
  }


  /**
   * The text and cursor after `delete_char_before`. At the very start
   * nothing changes; at the start of a later line that line is joined to
   * the previous one; elsewhere one character before the cursor goes.
   */
  function Backspace(t: string, c: CursorState): (r: (string, CursorState))
    requires CursorIn(t, c.row, c.col)
    ensures c.row > 0 || c.col > 0 ==> |r.0| + 1 == |t| && r.1.row <= c.row
    ensures r.1.desiredCol == c.desiredCol && r.1.selection == c.selection
  {
    if c.row == 0 && c.col == 0 then (t, c)
    else if c.col == 0 then JoinWithPrevious(t, c)
    else RemoveCharBefore(t, c)
  }

  /**
   * Backspace at the start of line `c.row > 0`: the '\n' ending the
   * previous line goes and the cursor moves to where that line's text ended.
   */
  function JoinWithPrevious(t: string, c: CursorState): (r: (string, CursorState))
    requires CursorIn(t, c.row, c.col) && c.row > 0
    ensures |r.0| + 1 == |t| && r.1.row + 1 == c.row
  {
    var k := TextLines.LineStart(t, c.row);
    (t[..k - 1] + t[k..], c.(row := c.row - 1, col := ByteLen(TextLines.LineText(t, c.row - 1))))
  }

  /**
   * Backspace inside a line: the character ending at (or containing) the
   * cursor's byte offset goes and the cursor moves to where it began.
   */
  function RemoveCharBefore(t: string, c: CursorState): (r: (string, CursorState))
    requires CursorIn(t, c.row, c.col) && c.col > 0
    ensures |r.0| + 1 == |t| && r.1.row == c.row && r.1.col < c.col
  {
    var b := TextLines.LineStartByte(t, c.row) + c.col;
    var k := TextLines.CharIndexAt(t, b);
    DeletePoint(t, c);
    (t[..k - 1] + t[k..], c.(col := ByteLen(t[..k - 1]) - TextLines.LineStartByte(t, c.row)))
  }

  /** Backspace keeps the cursor valid. */
  lemma {:induction false} BackspaceValid(t: string, c: CursorState)
    requires CursorIn(t, c.row, c.col)
    ensures CursorIn(Backspace(t, c).0, Backspace(t, c).1.row, Backspace(t, c).1.col)
  {
    if c.row == 0 && c.col == 0 {
    } else if c.col == 0 {
      BackspaceJoins(t, c);
    } else {
      BackspaceRemovesChar(t, c);
      BackspaceMovesCursor(t, c);
    }
  }

  /** At the start of a later line, backspace joins it to the previous line. */
  lemma {:induction false} BackspaceJoins(t: string, c: CursorState)
    requires CursorIn(t, c.row, c.col) && c.row > 0
    ensures var k := TextLines.LineStart(t, c.row);
      var d := JoinWithPrevious(t, c);
      && t[k - 1] == '\n'
      && d.0 == t[..k - 1] + t[k..]
      && TextLines.LineCount(d.0) == TextLines.LineCount(t) - 1
      && d.1.row == c.row - 1
      && d.1.col == ByteLen(TextLines.LineText(t, c.row - 1))
      && CursorIn(d.0, d.1.row, d.1.col)
  {
    var k := TextLines.LineStart(t, c.row);
    JoinLines(t, c.row, k, t[..k - 1] + t[k..]);
  }

  /**
   * Inside a line, backspace removes the one character before the cursor's
   * byte offset, a character of the cursor's line, and keeps the row.
   */
  lemma {:induction false} BackspaceRemovesChar(t: string, c: CursorState)
    requires CursorIn(t, c.row, c.col) && c.col > 0
    ensures var k := TextLines.CharIndexAt(t, TextLines.LineStartByte(t, c.row) + c.col);
      var d := RemoveCharBefore(t, c);
      && TextLines.LineStart(t, c.row) < k
      && d.0 == t[..k - 1] + t[k..]
      && |d.0| + 1 == |t|
      && d.1.row == c.row && d.1.desiredCol == c.desiredCol && d.1.selection == c.selection
  {
    DeletePoint(t, c);
  }

  /**
   * After that removal the cursor is valid on the same line and sits where
   * the removed character began; when the cursor was on a character
   * boundary the column drops by exactly that character's byte length.
   */
  lemma {:induction false} BackspaceMovesCursor(t: string, c: CursorState)
    requires CursorIn(t, c.row, c.col) && c.col > 0
    ensures var b := TextLines.LineStartByte(t, c.row) + c.col;
      var k := TextLines.CharIndexAt(t, b);
      var d := RemoveCharBefore(t, c);
      && CursorIn(d.0, d.1.row, d.1.col)
      && TextLines.LineStartByte(d.0, c.row) + d.1.col == ByteLen(t[..k - 1])
      && (b == ByteLen(t[..k]) ==> d.1.col + Utf8Len(t[k - 1]) == c.col)
  {
    DeleteKeepsCursor(t, c);
  }



  /** At the very start of the text backspace changes nothing. */
  lemma {:induction false} BackspaceAtStart(t: string, c: CursorState)
    requires CursorIn(t, c.row, c.col) && c.row == 0 && c.col == 0
    ensures Backspace(t, c) == (t, c)
  {
  }

  /**
   * An edit at or after the cursor's line start keeps the cursor valid
   * relative to that line: the line still exists and starts where it did.
   */
  lemma {:induction false} EditKeepsLineStart(t: string, u: string, row: nat, k: nat)
    requires row < TextLines.LineCount(t)
    requires TextLines.LineStart(t, row) <= k <= |t| && k <= |u| && u[..k] == t[..k]
    ensures row < TextLines.LineCount(u)
    ensures TextLines.LineStart(u, row) == TextLines.LineStart(t, row)
    ensures TextLines.LineStartByte(u, row) == TextLines.LineStartByte(t, row)
  {
    CommonSlice(t, u, k, 0, TextLines.LineStart(t, row));
    TextLines.LineStartStable(t, u, row);
  }

  lemma {:induction false} InsertByteLen(t: string, k: nat, ch: char)
    requires k <= |t|
    ensures ByteLen(t[..k] + [ch] + t[k..]) == ByteLen(t) + Utf8Len(ch)
  {
    ByteLenInsert(t[..k], ch, t[k..]);
    ByteLenAppend(t[..k], t[k..]);
    TakeDrop(t, k);
  }

  lemma {:induction false} InsertCount(t: string, k: nat, ch: char)
    requires k <= |t|
    ensures Count(t[..k] + [ch] + t[k..], '\n') == Count(t, '\n') + (if ch == '\n' then 1 else 0)
  {
    CountInsert(t[..k], ch, t[k..], '\n');
    CountAppend(t[..k], t[k..], '\n');
    TakeDrop(t, k);
  }

  /**
   * Inserting a character at the cursor (`u` is the new text) keeps the
   * cursor's line start, leaves the cursor just past the character still
   * inside the text, and adds a line exactly when the character is '\n'.
   */
  lemma {:induction false} InsertKeepsCursor(t: string, row: nat, col: nat, ch: char, k: nat, u: string)
    requires CursorIn(t, row, col)
    requires k == TextLines.CharIndexAt(t, TextLines.LineStartByte(t, row) + col)
    requires u == t[..k] + [ch] + t[k..]
    ensures CursorIn(u, row, col + Utf8Len(ch))
    ensures TextLines.LineStartByte(u, row) == TextLines.LineStartByte(t, row)
    ensures TextLines.LineCount(u) == TextLines.LineCount(t) + (if ch == '\n' then 1 else 0)
    ensures ch == '\n' ==> CursorIn(u, row + 1, 0)
  {
    var b := TextLines.LineStartByte(t, row) + col;
    TextLines.CharIndexAtLineStart(t, row, b);
    assert u[..k] == t[..k];
    EditKeepsLineStart(t, u, row, k);
    InsertByteLen(t, k, ch);
    InsertCount(t, k, ch);
  }

  /**
   * Removing the character that ends at (or contains) the cursor's byte
   * offset, when col > 0, stays inside the cursor's line: the line keeps
   * its start and the cursor lands where that character began.
   */
  lemma {:induction false} DeleteKeepsCursor(t: string, c: CursorState)
    requires CursorIn(t, c.row, c.col) && c.col > 0
    ensures var k := TextLines.CharIndexAt(t, TextLines.LineStartByte(t, c.row) + c.col);
      var u := t[..k - 1] + t[k..];
      && TextLines.LineStartByte(t, c.row) <= ByteLen(t[..k - 1])
      && CursorIn(u, c.row, ByteLen(t[..k - 1]) - TextLines.LineStartByte(t, c.row))
      && TextLines.LineStartByte(u, c.row) == TextLines.LineStartByte(t, c.row)
      && (TextLines.LineStartByte(t, c.row) + c.col == ByteLen(t[..k])
          ==> ByteLen(t[..k - 1]) + Utf8Len(t[k - 1]) == TextLines.LineStartByte(t, c.row) + c.col)
  {
    DeletePoint(t, c);
    var k := TextLines.CharIndexAt(t, TextLines.LineStartByte(t, c.row) + c.col);
    DeleteKeepsCursorAt(t, c.row, c.col, k);
  }

  /** `DeleteKeepsCursor` with the removal point `k` named. */
  lemma {:induction false} DeleteKeepsCursorAt(t: string, row: nat, col: nat, k: nat)
    requires CursorIn(t, row, col) && col > 0
    requires k == TextLines.CharIndexAt(t, TextLines.LineStartByte(t, row) + col)
    requires TextLines.LineStart(t, row) < k
    ensures var u := t[..k - 1] + t[k..];
      && TextLines.LineStartByte(t, row) <= ByteLen(t[..k - 1])
      && CursorIn(u, row, ByteLen(t[..k - 1]) - TextLines.LineStartByte(t, row))
      && TextLines.LineStartByte(u, row) == TextLines.LineStartByte(t, row)
      && (TextLines.LineStartByte(t, row) + col == ByteLen(t[..k])
          ==> ByteLen(t[..k - 1]) + Utf8Len(t[k - 1]) == TextLines.LineStartByte(t, row) + col)
  {
    var u := t[..k - 1] + t[k..];
    EditPrefix(t, k - 1, t[k..]);
    EditKeepsLineStart(t, u, row, k - 1);
    TextLines.ByteLenPrefixLe(t, TextLines.LineStart(t, row), k - 1);
    DeleteKeepsRow(t, row, k);
    ByteLenAppend(t[..k - 1], t[k..]);
    ByteLenTakeLast(t, k);
  }


  /** Removing one character lowers the '\n' count by one exactly when it is a '\n'. */
  lemma {:induction false} DeleteCount(t: string, k: nat)
    requires 0 < k <= |t|
    ensures Count(t[..k - 1] + t[k..], '\n') == Count(t, '\n') - (if t[k - 1] == '\n' then 1 else 0)
  {
    SplitBefore(t, k);
    CountInsert(t[..k - 1], t[k - 1], t[k..], '\n');
    CountAppend(t[..k - 1], t[k..], '\n');
  }

  /** Removing the character before `k` (at or after the start of line `row`) keeps line `row`. */
  lemma {:induction false} DeleteKeepsRow(t: string, row: nat, k: nat)
    requires row < TextLines.LineCount(t) && TextLines.LineStart(t, row) < k <= |t|
    ensures row < TextLines.LineCount(t[..k - 1] + t[k..])
  {
    DeleteCount(t, k);
    if t[k - 1] == '\n' {
      TextLines.NewlineAfterStart(t, row, k - 1);
    }
  }

  /**
   * Removing the '\n' just before line `row > 0` (which starts at `k`)
   * merges that line into the previous one, which keeps its start; the
   * end of the previous line's old text is a valid cursor position in
   * the result `u`.
   */
  lemma {:induction false} JoinLines(t: string, row: nat, k: nat, u: string)
    requires 0 < row < TextLines.LineCount(t)
    requires k == TextLines.LineStart(t, row)
    requires u == t[..k - 1] + t[k..]
    ensures t[k - 1] == '\n'
    ensures TextLines.LineCount(u) == TextLines.LineCount(t) - 1
    ensures CursorIn(u, row - 1, ByteLen(TextLines.LineText(t, row - 1)))
  {
    DeleteCount(t, k);
    EditPrefix(t, k - 1, t[k..]);
    JoinedLineEnd(t, row, k - 1, u);
  }

  /** Text of the line before `row` ends before the edit point `k - 1`, so it keeps its place and bytes. */
  lemma {:induction false} JoinedLineEnd(t: string, row: nat, j: nat, u: string)
    requires 0 < row < TextLines.LineCount(t)
    requires j + 1 == TextLines.LineStart(t, row)
    requires j <= |u| && u[..j] == t[..j]
    ensures row - 1 < TextLines.LineCount(u)
    ensures TextLines.LineStartByte(u, row - 1) + ByteLen(TextLines.LineText(t, row - 1)) <= ByteLen(u)
  {
    TextLines.LineTextEndByte(t, row, j);
    EditKeepsPreviousLineStart(t, u, row, j);
    ByteLenCommonPrefix(t, u, j);
  }

  /** `EditKeepsLineStart` for the line before `row`. */
  lemma {:induction false} EditKeepsPreviousLineStart(t: string, u: string, row: nat, k: nat)
    requires 0 < row < TextLines.LineCount(t)
    requires TextLines.LineStart(t, row - 1) <= k <= |t| && k <= |u| && u[..k] == t[..k]
    ensures row - 1 < TextLines.LineCount(u)
    ensures TextLines.LineStartByte(u, row - 1) == TextLines.LineStartByte(t, row - 1)
  {
    EditKeepsLineStart(t, u, row - 1, k);
  }

  // ---------------------------------------------------------------------
  // The source as written, where the model above departs from it

  /**
   * `scroll_to_cursor` computed as the source does, in `usize` and with the
   * configured margin as it is: `None` when `top_line + height - scroll_off`
   * underflows (a panic in a debug build).
   */
  function ScrollTopAsWritten(row: nat, vp: Viewport): (top: Option<nat>)
    ensures top.None? ==> vp.height < vp.scrollOff
  {
    var off := vp.scrollOff;
    var t1 := if row < vp.topLine + off then SatSub(row, off) else vp.topLine;
    if t1 + vp.height < off then None
    else if row >= t1 + vp.height - off then Some(row + off + 1 - vp.height)
    else Some(t1)
  }

  /** While the margin fits inside the window, the source and `ScrollTop` agree. */
  lemma {:induction false} ScrollAgreesWhenMarginFits(row: nat, vp: Viewport)
    requires vp.scrollOff < vp.height
    ensures ScrollTopAsWritten(row, vp) == Some(ScrollTop(row, vp))
  {
    assert EffectiveScrollOff(vp) == vp.scrollOff;
  }

  /**
   * A window of three lines with the default margin of five: the source
   * either underflows or scrolls past the cursor, while `ScrollTop` keeps
   * the cursor on screen.
   */
  lemma ScrollAsWrittenLosesCursor()
    ensures ScrollTopAsWritten(0, Viewport(0, 3, 5)) == None
    ensures ScrollTopAsWritten(10, Viewport(5, 3, 5)) == Some(13)
    ensures ScrollTop(10, Viewport(5, 3, 5)) == 10
  {
  }

  /**
   * `insert_char` as written: ropey's `insert_char` takes a character index
   * but is handed the cursor's byte offset; past the last character it
   * panics (`None`).
   */
  function InsertAtByteAsWritten(t: string, byteIdx: nat, ch: char): (r: Option<string>)
    ensures r.Some? <==> byteIdx <= |t|
    ensures r.Some? ==> |r.value| == |t| + 1 && r.value[byteIdx] == ch
  {
    if byteIdx <= |t| then Some(t[..byteIdx] + [ch] + t[byteIdx..]) else None
  }

  /** On ASCII text bytes and characters coincide, so the source inserts where `InsertChar` does. */
  lemma {:induction false} InsertAgreesOnAscii(t: string, b: nat, ch: char)
    requires forall i :: 0 <= i < |t| ==> t[i] as int < 0x80
    requires b <= |t|
    ensures b <= ByteLen(t) && TextLines.CharIndexAt(t, b) == b
    ensures InsertAtByteAsWritten(t, b, ch) == Some(t[..b] + [ch] + t[b..])
  {
    ByteLenAscii(t);
    ByteLenAscii(t[..b]);
    TextLines.CharIndexAtBoundary(t, b);
  }

  /**
   * After a two-byte character the cursor's byte offset overshoots the
   * character index: typing 'x' after the 'é' of "éa" lands after the 'a',
   * typing after a final 'é' panics, and Enter (`insert_newline`) after the
   * 'é' of "éa" breaks the line after the 'a'; `InsertChar` and
   * `InsertNewline` insert right after the 'é'.
   */
  lemma InsertAfterAccentAsWritten()
    ensures InsertAtByteAsWritten("\U{E9}a", 2, 'x') == Some("\U{E9}ax")
    ensures InsertAtByteAsWritten("\U{E9}", 2, 'x') == None
    ensures InsertAtByteAsWritten("\U{E9}a", 2, '\n') == Some("\U{E9}a\n")
    ensures ByteLen("\U{E9}a") == 3 && TextLines.CharIndexAt("\U{E9}a", 2) == 1
  {
    var t := "\U{E9}a";
    assert t[..2] + ['x'] + t[2..] == "\U{E9}ax";
    assert t[..2] + ['\n'] + t[2..] == "\U{E9}a\n";
    assert t[..1] == "\U{E9}";
    assert ByteLen(t[..1]) == 2;
    TextLines.CharIndexAtBoundary(t, 1);
  }

  /**
   * ropey's `remove(lo..hi)` on character indices: characters `lo` up to
   * `hi` go; a range past the last character panics (`None`).
   */
  function RemoveAsWritten(t: string, lo: nat, hi: nat): (r: Option<string>)
    ensures r.Some? <==> lo <= hi <= |t|
    ensures r.Some? ==> |r.value| + (hi - lo) == |t| && r.value[..lo] == t[..lo]
  {
    if lo <= hi <= |t| then Some(t[..lo] + t[hi..]) else None
  }

  /** Byte offset `b` falls between two characters of `t`. */
  predicate OnCharBoundary(t: string, b: nat)
    requires b <= ByteLen(t)
  {
    ByteLen(t[..TextLines.CharIndexAt(t, b)]) == b
  }

  /**
   * `delete_char_before` as written: both `remove` calls are handed byte
   * offsets where ropey expects character indices, and
   * `byte_slice(..byte_idx)` panics when the offset falls inside a
   * character. `None` is a panic.
   */
  function BackspaceAsWritten(t: string, c: CursorState): (r: Option<(string, CursorState)>)
    requires CursorIn(t, c.row, c.col)
    ensures c.row == 0 && c.col == 0 ==> r == Some((t, c))
    ensures r.Some? && c.row > 0 && c.col == 0 ==> |r.value.0| + 1 == |t| && r.value.1.row + 1 == c.row
    ensures r.Some? && c.col > 0 ==> |r.value.0| < |t| && r.value.1.row == c.row && r.value.1.col < c.col
  {
    if c.row == 0 && c.col == 0 then Some((t, c))
    else if c.col == 0 then JoinAsWritten(t, c)
    else RemoveBeforeAsWritten(t, c)
  }

  /** The join branch as written: `remove(byte_idx - 1..byte_idx)` on the line start's byte offset. */
  function JoinAsWritten(t: string, c: CursorState): (r: Option<(string, CursorState)>)
    requires CursorIn(t, c.row, c.col) && c.row > 0
    ensures r.Some? ==> |r.value.0| + 1 == |t| && r.value.1.row + 1 == c.row
  {
    var b := TextLines.LineStartByte(t, c.row) + c.col;
    ByteLenTakeLast(t, TextLines.LineStart(t, c.row));
    match RemoveAsWritten(t, b - 1, b)
    case None => None
    case Some(u) => Some((u, c.(row := c.row - 1, col := ByteLen(TextLines.LineText(t, c.row - 1)))))
  }

  /**
   * The in-line branch as written: `byte_slice(..byte_idx)` panics off a
   * character boundary; otherwise the previous character's byte length is
   * removed as that many characters.
   */
  function RemoveBeforeAsWritten(t: string, c: CursorState): (r: Option<(string, CursorState)>)
    requires CursorIn(t, c.row, c.col) && c.col > 0
    ensures r.Some? ==> |r.value.0| < |t| && r.value.1.row == c.row && r.value.1.col < c.col
  {
    var b := TextLines.LineStartByte(t, c.row) + c.col;
    if !OnCharBoundary(t, b) then None
    else
      var k := TextLines.CharIndexAt(t, b);
      PrevCharWidth(t, c);
      var w := Utf8Len(t[k - 1]);
      match RemoveAsWritten(t, b - w, b)
      case None => None
      case Some(u) => Some((u, c.(col := c.col - w)))
  }

  /** On a boundary inside a line, the character before the cursor is no wider than the column. */
  lemma {:induction false} PrevCharWidth(t: string, c: CursorState)
    requires CursorIn(t, c.row, c.col) && c.col > 0
    requires OnCharBoundary(t, TextLines.LineStartByte(t, c.row) + c.col)
    ensures var k := TextLines.CharIndexAt(t, TextLines.LineStartByte(t, c.row) + c.col);
      0 < k <= |t| && Utf8Len(t[k - 1]) <= c.col
  {
    var k := TextLines.CharIndexAt(t, TextLines.LineStartByte(t, c.row) + c.col);
    DeletePoint(t, c);
    ByteLenTakeLast(t, k);
  }

  /**
   * After a two-byte character the byte offsets handed to `remove`
   * overshoot: backspace at the start of the second line of "é\nb" removes
   * the 'b' and keeps the '\n' (where `Backspace` joins the lines),
   * backspace after the 'a' of "éa" removes past the end, and backspace
   * with the column inside the 'é' slices off a character boundary.
   */
  lemma BackspaceAfterAccentAsWritten()
    ensures BackspaceAsWritten("\U{E9}\nb", CursorState(1, 0, 0, None))
            == Some(("\U{E9}\n", CursorState(0, 2, 0, None)))
    ensures Backspace("\U{E9}\nb", CursorState(1, 0, 0, None)).0 == "\U{E9}b"
    ensures BackspaceAsWritten("\U{E9}a", CursorState(0, 3, 0, None)) == None
    ensures BackspaceAsWritten("\U{E9}", CursorState(0, 1, 0, None)) == None
  {
    var t := "\U{E9}\nb";
    assert t[..2] == "\U{E9}\n" && t[..2][..1] == t[..1] && t[..1][..0] == "";
    assert Count(t[..1], '\n') == 0;
    assert Count(t[..2], '\n') == 1;
    TextLines.LineStartUnique(t, 1, 2);
    assert ByteLen(t[..1]) == 2;
    assert ByteLen(t[..2]) == 3;
    assert t[..1] == "\U{E9}";
    assert TextLines.LineStartByte(t, 1) == 3;
    assert t[..2] + t[3..] == "\U{E9}\n";
    assert TextLines.LineText(t, 0) == "\U{E9}";
    assert ByteLen("\U{E9}") == 2;
    var a := "\U{E9}a";
    assert a[..2] == a;
    assert ByteLen(a) == 3;
    TextLines.CharIndexAtBoundary(a, 2);
    var e := "\U{E9}";
    assert e[..1] == e;
    assert ByteLen(e) == 2;
    assert TextLines.CharIndexAt(e, 1) == 1;
  }

  /** On ASCII text bytes and characters coincide, so the source's backspace is `Backspace`. */
  lemma {:induction false} BackspaceAgreesOnAscii(t: string, c: CursorState)
    requires forall i :: 0 <= i < |t| ==> t[i] as int < 0x80
    requires CursorIn(t, c.row, c.col)
    ensures BackspaceAsWritten(t, c) == Some(Backspace(t, c))
  {
    if c.row == 0 && c.col == 0 {
    } else if c.col == 0 {
      JoinAgreesOnAscii(t, c);
    } else {
      RemoveAgreesOnAscii(t, c);
    }
  }

  /** The join case of `BackspaceAgreesOnAscii`: the line start's byte offset is its index. */
  lemma {:induction false} JoinAgreesOnAscii(t: string, c: CursorState)
    requires forall i :: 0 <= i < |t| ==> t[i] as int < 0x80
    requires CursorIn(t, c.row, c.col) && c.row > 0 && c.col == 0
    ensures JoinAsWritten(t, c) == Some(JoinWithPrevious(t, c))
  {
    var ks := TextLines.LineStart(t, c.row);
    ByteLenAscii(t[..ks]);
    assert TextLines.LineStartByte(t, c.row) == ks;
  }

  /** The in-line case of `BackspaceAgreesOnAscii`: every offset is a boundary and every character one byte. */
  lemma {:induction false} RemoveAgreesOnAscii(t: string, c: CursorState)
    requires forall i :: 0 <= i < |t| ==> t[i] as int < 0x80
    requires CursorIn(t, c.row, c.col) && c.col > 0
    ensures RemoveBeforeAsWritten(t, c) == Some(RemoveCharBefore(t, c))
  {
    var b := TextLines.LineStartByte(t, c.row) + c.col;
    AsciiCharIndex(t, b);
    ByteLenAscii(t[..b - 1]);
    assert Utf8Len(t[b - 1]) == 1;
  }

  /** In ASCII text every byte offset is the character index it names. */
  lemma {:induction false} AsciiCharIndex(t: string, b: nat)
    requires forall i :: 0 <= i < |t| ==> t[i] as int < 0x80
    requires b <= ByteLen(t)
    ensures b <= |t| && ByteLen(t[..b]) == b && TextLines.CharIndexAt(t, b) == b && OnCharBoundary(t, b)
  {
    ByteLenAscii(t);
    ByteLenAscii(t[..b]);
    TextLines.CharIndexAtBoundary(t, b);
  }
}
