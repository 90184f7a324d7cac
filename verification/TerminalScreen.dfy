/** The 25 by 60 grid of src/core/gui/TerminalWindow.cpp, changed in place. */
module TerminalScreen {
  import opened Machine32
  import opened Bytes
  import opened TerminalLayout

  class Screen {
    const buffer: array2<Byte>
    const colorBuffer: array2<Word>
    var cursorRow: int
    var cursorCol: int
    var ansiState: int
    var ansiVal: int
    var currentColor: Word
    ghost var page: seq<seq<Cell>>  // everything printed since the last Clear

    predicate Sized() {
      && buffer.Length0 == colorBuffer.Length0 == TERM_H
      && buffer.Length1 == colorBuffer.Length1 == TERM_W
      && buffer as object != colorBuffer
    }

    constructor ()
      ensures Sized() && fresh(buffer) && fresh(colorBuffer)
    {
      buffer := new Byte[TERM_H, TERM_W];
      colorBuffer := new Word[TERM_H, TERM_W];
      cursorRow, cursorCol, ansiState, ansiVal, currentColor := 0, 0, 0, 0, WHITE;
      page := [[]];
    }

    function CellOf(r: int, c: int): Cell
      requires Sized() && 0 <= r < TERM_H && 0 <= c < TERM_W
      reads buffer, colorBuffer
    {
      Cell(buffer[r, c], colorBuffer[r, c])
    }

    ghost function State(): Layout
      reads this
    {
      Layout(page, Pen(ansiState, ansiVal, currentColor))
    }

    /** The cursor is behind the last cell of the page. */
    ghost predicate AtEnd()
      reads this
    {
      Sized() && Proper(page) && Hidden(page) + cursorRow == |page| - 1 && cursorCol == Column(page)
    }

    /** The grid looks like the last 25 rows of the page. */
    ghost predicate Valid()
      reads this, buffer, colorBuffer
    {
      AtEnd() && forall r, c :: 0 <= r < TERM_H && 0 <= c < TERM_W ==> Looks(CellOf(r, c), Visible(page, r, c))
    }

    /** Even its empty cells have the page's colour, which is so until a character is erased. */
    ghost predicate Exact()
      requires Sized()
      reads this, buffer, colorBuffer
    {
      forall r, c :: 0 <= r < TERM_H && 0 <= c < TERM_W ==> CellOf(r, c) == Visible(page, r, c)
    }

    /** The cursor never leaves the grid; its column may be just past the last one. */
    lemma CursorInBounds()
      requires Valid()
      ensures 0 <= cursorRow < TERM_H && 0 <= cursorCol <= TERM_W
    {
      assert |page[|page| - 1]| <= TERM_W;
    }

    method ClearRow(r: int)
      requires Sized() && 0 <= r < TERM_H
      modifies buffer, colorBuffer
      ensures forall c :: 0 <= c < TERM_W ==> CellOf(r, c) == BLANK
      ensures forall k, c :: 0 <= k < TERM_H && k != r && 0 <= c < TERM_W ==> CellOf(k, c) == old(CellOf(k, c))
    {
      var c := 0;
      while c < TERM_W
        invariant 0 <= c <= TERM_W
        invariant forall d :: 0 <= d < c ==> buffer[r, d] == 0 && colorBuffer[r, d] == WHITE
        invariant forall k, d :: 0 <= k < TERM_H && k != r && 0 <= d < TERM_W ==> CellOf(k, d) == old(CellOf(k, d))
      {
        buffer[r, c] := 0;
        colorBuffer[r, c] := WHITE;
        c := c + 1;
      }
    }

    method Clear()
      requires Sized()
      modifies this, buffer, colorBuffer
      ensures Valid() && Exact()
      ensures State() == Layout([[]], Pen(0, old(ansiVal), WHITE))
    {
      var r := 0;
      while r < TERM_H
        invariant 0 <= r <= TERM_H
        invariant ansiVal == old(ansiVal)
        invariant forall k, c :: 0 <= k < r && 0 <= c < TERM_W ==> CellOf(k, c) == BLANK
      {
        ClearRow(r);
        r := r + 1;
      }
      cursorRow := 0;
      cursorCol := 0;
      currentColor := WHITE;
      ansiState := 0;
      page := [[]];
    }

    /** Copy row `r` over the row above it. */
    method CopyRowUp(r: int)
      requires Sized() && 0 < r < TERM_H
      modifies buffer, colorBuffer
      ensures forall c :: 0 <= c < TERM_W ==> CellOf(r - 1, c) == old(CellOf(r, c))
      ensures forall k, c :: 0 <= k < TERM_H && k != r - 1 && 0 <= c < TERM_W ==> CellOf(k, c) == old(CellOf(k, c))
    {
      var c := 0;
      while c < TERM_W
        invariant 0 <= c <= TERM_W
        invariant forall d :: 0 <= d < c ==> CellOf(r - 1, d) == old(CellOf(r, d))
        invariant forall k, d :: 0 <= k < TERM_H && k != r - 1 && 0 <= d < TERM_W ==> CellOf(k, d) == old(CellOf(k, d))
      {
        buffer[r - 1, c] := buffer[r, c];
        colorBuffer[r - 1, c] := colorBuffer[r, c];
        c := c + 1;
      }
    }

    method Scroll()
      requires Sized()
      modifies this`cursorRow, buffer, colorBuffer
      ensures cursorRow == old(cursorRow) - 1
      ensures forall r, c :: 0 <= r < TERM_H - 1 && 0 <= c < TERM_W ==> CellOf(r, c) == old(CellOf(r + 1, c))
      ensures forall r, c :: r == TERM_H - 1 && 0 <= c < TERM_W ==> CellOf(r, c) == BLANK
    {
      var r := 1;
      while r < TERM_H
        invariant 1 <= r <= TERM_H && cursorRow == old(cursorRow)
        invariant forall k, c :: 0 <= k < r - 1 && 0 <= c < TERM_W ==> CellOf(k, c) == old(CellOf(k + 1, c))
        invariant forall k, c :: r - 1 <= k < TERM_H && 0 <= c < TERM_W ==> CellOf(k, c) == old(CellOf(k, c))
      {
        CopyRowUp(r);
        r := r + 1;
      }
      ClearRow(TERM_H - 1);
      cursorRow := cursorRow - 1;
    }

    /** Move to the start of the next row, scrolling when there is none. */
    method LineBreak()
      requires Valid()
      modifies this`cursorRow, this`cursorCol, this`page, buffer, colorBuffer
      ensures Valid() && page == old(page) + [[]] && (old(Exact()) ==> Exact())
    {
      ghost var rows := page;
      cursorRow := cursorRow + 1;
      cursorCol := 0;
      if cursorRow >= TERM_H {
        Scroll();
      }
      page := page + [[]];
      forall r, c | 0 <= r < TERM_H && 0 <= c < TERM_W
        ensures Looks(CellOf(r, c), Visible(page, r, c)) && (old(Exact()) ==> CellOf(r, c) == Visible(page, r, c))
      {
        VisibleAfterBreak(rows, r, c);
      }
    }

    /** Write one character behind the last one. */
    method WriteCell(c: Byte)
      requires Valid() && cursorCol < TERM_W
      modifies this`cursorCol, this`page, buffer, colorBuffer
      ensures Valid() && page == AddItem(old(page), Glyph(Cell(c, currentColor))) && (old(Exact()) ==> Exact())
    {
      CursorInBounds();
      ghost var rows, cell := page, Cell(c, currentColor);
      buffer[cursorRow, cursorCol] := c;
      colorBuffer[cursorRow, cursorCol] := currentColor;
      cursorCol := cursorCol + 1;
      page := AddItem(rows, Glyph(cell));
      forall r, d | 0 <= r < TERM_H && 0 <= d < TERM_W
        ensures Looks(CellOf(r, d), Visible(page, r, d)) && (old(Exact()) ==> CellOf(r, d) == Visible(page, r, d))
      {
        VisibleAfterCell(rows, cell, r, d);
      }
    }

    /** The text part of `PutChar`. */
    method PutText(c: Byte)
      requires Valid()
      modifies this`cursorRow, this`cursorCol, this`page, buffer, colorBuffer
      ensures Valid() && (old(Exact()) ==> Exact())
      ensures page == AddItem(old(page), if c == NEWLINE then Break else Glyph(Cell(c, currentColor)))
    {
      if c == NEWLINE {
        LineBreak();
        return;
      }
      ghost var rows := page;
      if cursorCol >= TERM_W {
        LineBreak();
      }
      ghost var cell := Cell(c, currentColor);
      WriteCell(c);
      assert (rows + [[]])[..|rows|] == rows && [] + [cell] == [cell];
    }

    /** `PutChar` is one step of the layout. */
    method PutChar(c: Byte)
      requires Valid()
      modifies this, buffer, colorBuffer
      ensures Valid() && State() == Put(old(State()), c) && (old(Exact()) ==> Exact())
    {
      if ansiState == 0 {
        if c == 0x1B {
          ansiState := 1;
          return;
        }
      } else if ansiState == 1 {
        if c == '[' as int {
          ansiState := 2;
          ansiVal := 0;
          return;
        } else {
          ansiState := 0;
        }
      } else if ansiState == 2 {
        if '0' as int <= c <= '9' as int {
          ansiVal := Wrap32(ansiVal * 10 + (c - '0' as int));
          return;
        } else if c == 'm' as int {
          if ansiVal == 0 { currentColor := 0xFFFFFF; }
          else if ansiVal == 30 { currentColor := 0x000000; }
          else if ansiVal == 31 { currentColor := 0xFF0000; }
          else if ansiVal == 32 { currentColor := 0x00FF00; }
          else if ansiVal == 33 { currentColor := 0xFFFF00; }
          else if ansiVal == 34 { currentColor := 0x0000FF; }
          else if ansiVal == 35 { currentColor := 0xFF00FF; }
          else if ansiVal == 36 { currentColor := 0x00FFFF; }
          else if ansiVal == 37 { currentColor := 0xFFFFFF; }
          ansiState := 0;
          return;
        } else if c == ';' as int {
          ansiVal := 0;
          return;
        } else {
          ansiState := 0;
        }
      }
      PutText(c);
    }

    /** `Print`: after it the grid shows the page extended by the whole string. */
    method Print(str: seq<Byte>)
      requires Valid() && 0 !in str  // up to the NUL that ends it
      modifies this, buffer, colorBuffer
      ensures Valid() && State() == PutAll(old(State()), str) && (old(Exact()) ==> Exact())
    {
      var i := 0;
      while i < |str|
        invariant 0 <= i <= |str| && Valid() && (old(Exact()) ==> Exact())
        invariant State() == PutAll(old(State()), str[..i])
      {
        PutChar(str[i]);
        PutSplit(old(State()), str[..i], [str[i]]);
        assert str[..i + 1] == str[..i] + [str[i]];
        i := i + 1;
      }
      assert str[..i] == str;
    }

    /** The echo of a backspace: the character before the cursor disappears, within the cursor's row. */
    method EchoErase()
      requires Valid()
      modifies this`cursorCol, this`page, buffer
      ensures Valid() && page == EraseLast(old(page))
    {
      ghost var rows := page;
      CursorInBounds();
      page := EraseLast(rows);
      if cursorCol > 0 {
        cursorCol := cursorCol - 1;
        buffer[cursorRow, cursorCol] := 0;
      }
      forall r, c | 0 <= r < TERM_H && 0 <= c < TERM_W ensures Looks(CellOf(r, c), Visible(page, r, c)) {
        VisibleAfterErase(rows, r, c);
      }
    }

    /** A cleared screen on which a stream is printed shows the last 25 rows of its page. */
    method ClearAndPrint(str: seq<Byte>)
      requires Sized() && 0 !in str
      modifies this, buffer, colorBuffer
      ensures page == Page(Pen(0, old(ansiVal), WHITE), str)
      ensures forall r, c :: 0 <= r < TERM_H && 0 <= c < TERM_W ==> CellOf(r, c) == Visible(page, r, c)
      ensures 0 <= cursorRow < TERM_H && 0 <= cursorCol <= TERM_W
    {
      Clear();
      Print(str);
      PutAllMakesPage(Pen(0, old(ansiVal), WHITE), str);
      CursorInBounds();
    }
  }
}
