/** `Editor::Render` of src/core/shell/Editor.cpp: the text on the terminal's grid, and the cursor. */
module EditorView {
  import opened Machine32
  import opened Bytes
  import opened TerminalLayout
  import opened TerminalScreen

  const TEXT_ROWS := TERM_H - 1  // the last row is the status line
  const GREEN: Word := 0x00FF00
  const STATUS := "[EDIT] Ctrl+S: Save | Ctrl+Q: Quit"

  function ItemOf(c: Byte): Item { if c == NEWLINE then Break else Glyph(Cell(c, WHITE)) }

  function Items(s: seq<Byte>): seq<Item> { seq(|s|, i requires 0 <= i < |s| => ItemOf(s[i])) }

  /** The rows a plain text takes: the terminal's own layout, without escape sequences. */
  function TextPage(s: seq<Byte>): seq<seq<Cell>> { AllRows(Paragraphs(Items(s))) }

  /** Row and column behind the last cell. */
  function End(rows: seq<seq<Cell>>): (int, int)
    requires |rows| > 0
  {
    (|rows| - 1, |rows[|rows| - 1]|)
  }

  predicate Before(a: (int, int), b: (int, int)) { a.0 < b.0 || (a.0 == b.0 && a.1 < b.1) }

  lemma PageProper(s: seq<Byte>)
    ensures Proper(TextPage(s))
  {
    AllRowsProper(Paragraphs(Items(s)));
  }

  /** One more character is one more item on the page. */
  lemma PageStep(s: seq<Byte>, i: nat)
    requires i < |s|
    ensures Proper(TextPage(s[..i])) && TextPage(s[..i + 1]) == AddItem(TextPage(s[..i]), ItemOf(s[i]))
  {
    PageProper(s[..i]);
    assert Items(s[..i + 1]) == Items(s[..i]) + [ItemOf(s[i])];
    PageSnoc(Items(s[..i]), ItemOf(s[i]));
  }

  lemma EmptyPage()
    ensures TextPage([]) == [[]]
  {
    ItemsMakePage(Items([]));
  }

  lemma StepGrows(rows: seq<seq<Cell>>, item: Item)
    requires Proper(rows)
    ensures |rows| <= |AddItem(rows, item)| <= |rows| + 1
    ensures forall r :: 0 <= r < |rows| - 1 ==> AddItem(rows, item)[r] == rows[r]
    ensures Before(End(rows), End(AddItem(rows, item)))
  {}

  /** Rows in front of the last one are final, and the end of the page only moves forward. */
  lemma {:induction false} PageGrows(s: seq<Byte>, i: nat, j: nat)
    requires i <= j <= |s|
    ensures Proper(TextPage(s[..i])) && Proper(TextPage(s[..j]))
    ensures |TextPage(s[..i])| <= |TextPage(s[..j])|
    ensures forall r :: 0 <= r < |TextPage(s[..i])| - 1 ==> TextPage(s[..j])[r] == TextPage(s[..i])[r]
    ensures i < j ==> Before(End(TextPage(s[..i])), End(TextPage(s[..j])))
    decreases j - i
  {
    if i == j {
      PageProper(s[..i]);
    } else {
      PageGrows(s, i, j - 1);
      PageStep(s, j - 1);
      StepGrows(TextPage(s[..j - 1]), ItemOf(s[j - 1]));
    }
  }

  /** The text fits the rows above the status line. */
  predicate Fits(s: seq<Byte>) { |TextPage(s)| <= TEXT_ROWS }

  /** How many characters are drawn before the text area overflows, from `i` on. */
  function Shown(s: seq<Byte>, i: nat): (n: nat)
    requires i <= |s|
    ensures i <= n <= |s|
    ensures n < |s| ==> !Fits(s[..n])
    ensures forall k {:trigger Fits(s[..k])} :: i <= k < n ==> Fits(s[..k])
    decreases |s| - i
  {
    if i == |s| || !Fits(s[..i]) then i else Shown(s, i + 1)
  }

  /** Where the cursor is put. */
  function CursorAt(s: seq<Byte>, k: nat): (int, int)
    requires k <= |s|
  {
    var n := Shown(s, 0);
    PageProper(s[..n]);
    PageProper(s[..k]);
    if k == |s| then End(TextPage(s[..n])) else if k < n then End(TextPage(s[..k])) else (0, 0)
  }

  lemma ShownFits(s: seq<Byte>, k: nat)
    requires k <= Shown(s, 0)
    ensures k == 0 || Fits(s[..k - 1])
  {
    assert k > 0 ==> Fits(s[..k - 1]);
  }

  lemma {:induction false} FitsBefore(s: seq<Byte>, i: nat, j: nat)
    requires i <= j <= |s|
    ensures Fits(s[..j]) ==> Fits(s[..i])
  {
    PageGrows(s, i, j);
  }

  lemma ShownStops(s: seq<Byte>, n: nat, j: nat)
    requires n <= j <= |s| && !Fits(s[..n])
    ensures !Fits(s[..j])
  {
    FitsBefore(s, n, j);
  }

  /** Drawing stops behind the first text that does not fit. */
  lemma ShownIff(s: seq<Byte>, k: nat)
    requires k <= |s|
    ensures k <= Shown(s, 0) <==> k == 0 || Fits(s[..k - 1])
  {
    if k <= Shown(s, 0) {
      ShownFits(s, k);
    } else {
      ShownStops(s, Shown(s, 0), k - 1);
    }
  }

  /**
    The cursor stands behind the text before it exactly when that text fits, or is the whole
    text and fits without its last character.
  */
  lemma CursorRight(s: seq<Byte>, k: nat)
    requires k <= |s|
    ensures Proper(TextPage(s[..k]))
    ensures CursorAt(s, k) == End(TextPage(s[..k])) <==> Fits(s[..k]) || (k == |s| > 0 && Fits(s[..k - 1]))
  {
    var n := Shown(s, 0);
    PageProper(s[..k]);
    ShownIff(s, k);
    if k == 0 {
      EmptyPage();
      assert s[..0] == [];
    }
    if n <= k {
      PageGrows(s, n, k);
    }
    if k < n {
      PageGrows(s, k, n - 1);
      ShownIff(s, n);
    }
  }

  function Newlines(n: nat): seq<Byte> { seq(n, _ => NEWLINE) }

  lemma {:induction false} NewlinesPage(n: nat)
    ensures TextPage(Newlines(n)) == seq<seq<Cell>>(n + 1, _ => [])
  {
    if n == 0 {
      EmptyPage();
      assert Newlines(0) == [] && [[]] == seq<seq<Cell>>(1, _ => []);
    } else {
      NewlinesPage(n - 1);
      PageStep(Newlines(n), n - 1);
      assert Newlines(n)[..n] == Newlines(n) && Newlines(n)[..n - 1] == Newlines(n - 1);
    }
  }

  /** In a text of more than 24 line breaks, the cursor in front of the last one, on row 24 or below, is put at the top left. */
  lemma CursorAtTop(n: nat, k: nat)
    requires TEXT_ROWS <= k < n
    ensures CursorAt(Newlines(n), k) == (0, 0) && End(TextPage(Newlines(n)[..k])) == (k, 0)
  {
    var s := Newlines(n);
    assert s[..k] == Newlines(k) && s[..k - 1] == Newlines(k - 1) && s[..TEXT_ROWS] == Newlines(TEXT_ROWS);
    NewlinesPage(k);
    NewlinesPage(TEXT_ROWS);
    ShownIff(s, TEXT_ROWS + 1);
  }

  /** The end of the drawn text, or of a beginning of it. */
  lemma EndOnGrid(s: seq<Byte>, n: nat)
    requires n <= Shown(s, 0)
    ensures Proper(TextPage(s[..n])) && |TextPage(s[..n])| <= TERM_H
    ensures 0 <= End(TextPage(s[..n])).0 < TERM_H && 0 <= End(TextPage(s[..n])).1 <= TERM_W
  {
    PageProper(s[..n]);
    var rows := TextPage(s[..n]);
    assert |rows[|rows| - 1]| <= TERM_W;
    if n > 0 {
      ShownFits(s, n);
      PageStep(s, n - 1);
      StepGrows(TextPage(s[..n - 1]), ItemOf(s[n - 1]));
    } else {
      EmptyPage();
      assert s[..0] == [];
    }
  }

  /** The cursor never leaves the grid; its column may be just past the last one. */
  lemma CursorOnGrid(s: seq<Byte>, k: nat)
    requires k <= |s|
    ensures 0 <= CursorAt(s, k).0 < TERM_H && 0 <= CursorAt(s, k).1 <= TERM_W
  {
    var n := Shown(s, 0);
    EndOnGrid(s, n);
    if k < n {
      EndOnGrid(s, k);
    }
  }

  // ----- The loop -----

  /** The grid shows exactly these rows. */
  ghost predicate Shows(w: Screen, rows: seq<seq<Cell>>)
    requires w.Sized()
    reads w.buffer, w.colorBuffer
  {
    forall r, c :: 0 <= r < TERM_H && 0 <= c < TERM_W ==> w.CellOf(r, c) == CellAt(rows, r, c)
  }

  method Draw(w: Screen, row: int, col: int, ch: Byte, color: Word)
    requires w.Sized() && 0 <= row < TERM_H && 0 <= col < TERM_W
    modifies w.buffer, w.colorBuffer
    ensures forall r, c :: 0 <= r < TERM_H && 0 <= c < TERM_W ==>
              w.CellOf(r, c) == if r == row && c == col then Cell(ch, color) else old(w.CellOf(r, c))
  {
    w.buffer[row, col] := ch;
    w.colorBuffer[row, col] := color;
  }

  /** Where the cells of a page are after one more item. */
  lemma CellStep(rows: seq<seq<Cell>>, item: Item)
    requires Proper(rows)
    ensures var rows' := AddItem(rows, item);
            forall r, c :: 0 <= r && 0 <= c ==>
              CellAt(rows', r, c) ==
              if item.Glyph? && (r, c + 1) == End(rows') then item.cell else CellAt(rows, r, c)
  {}

  /** Draw one character behind the rows on the grid. */
  method DrawChar(w: Screen, ghost rows: seq<seq<Cell>>, row: int, col: int, c: Byte) returns (row': int, col': int)
    requires w.Sized() && Proper(rows) && Shows(w, rows) && (row, col) == End(rows) && row < TEXT_ROWS
    modifies w.buffer, w.colorBuffer
    ensures Shows(w, AddItem(rows, ItemOf(c))) && (row', col') == End(AddItem(rows, ItemOf(c)))
    ensures row' <= TEXT_ROWS && (row' == TEXT_ROWS ==> col' <= 1)
  {
    row', col' := row, col;
    assert |rows[|rows| - 1]| <= TERM_W;
    if c == NEWLINE {
      row' := row + 1;
      col' := 0;
    } else if col < TERM_W {
      Draw(w, row, col, c, 0xFFFFFF);
      col' := col + 1;
    } else {
      row' := row + 1;
      col' := 0;
      Draw(w, row', col', c, 0xFFFFFF);
      col' := col' + 1;
    }
    CellStep(rows, ItemOf(c));
  }

  method DrawStatus(w: Screen)
    requires w.Sized()
    modifies w.buffer, w.colorBuffer
    ensures forall r, c :: 0 <= r < TEXT_ROWS && 0 <= c < TERM_W ==> w.CellOf(r, c) == old(w.CellOf(r, c))
    ensures forall r, c :: r == TEXT_ROWS && 0 <= c < TERM_W ==>
              w.CellOf(r, c) == if c < |STATUS| then Cell(STATUS[c] as int, GREEN) else old(w.CellOf(r, c))
  {
    var i := 0;
    while i < |STATUS| && i < TERM_W
      invariant 0 <= i <= |STATUS|
      invariant forall r, c :: 0 <= r < TEXT_ROWS && 0 <= c < TERM_W ==> w.CellOf(r, c) == old(w.CellOf(r, c))
      invariant forall r, c :: r == TEXT_ROWS && 0 <= c < TERM_W ==>
                  w.CellOf(r, c) == if c < i then Cell(STATUS[c] as int, GREEN) else old(w.CellOf(r, c))
    {
      Draw(w, TERM_H - 1, i, STATUS[i] as int, 0x00FF00);
      i := i + 1;
    }
  }

  lemma ShownNext(s: seq<Byte>, i: nat)
    requires i < |s| && Fits(s[..i])
    ensures Shown(s, i) == Shown(s, i + 1)
  {}

  /** The first `n` characters are on the grid, and they end at this place. */
  ghost predicate Drawn(w: Screen, s: seq<Byte>, n: nat, row: int, col: int)
    reads w.buffer, w.colorBuffer
  {
    && w.Sized() && n <= |s| && Proper(TextPage(s[..n]))
    && Shows(w, TextPage(s[..n])) && (row, col) == End(TextPage(s[..n]))
  }

  /** The cursor position known behind `n` characters. */
  ghost function Found(s: seq<Byte>, k: nat, n: nat): (int, int)
    requires k <= |s|
  {
    PageProper(s[..k]);
    if k < n then End(TextPage(s[..k])) else (0, 0)
  }

  /** Draw character `i` of the text. */
  method DrawNext(w: Screen, ghost s: seq<Byte>, ghost i: nat, row: int, col: int, c: Byte) returns (row': int, col': int)
    requires Drawn(w, s, i, row, col) && i < |s| && c == s[i] && row < TEXT_ROWS
    modifies w.buffer, w.colorBuffer
    ensures Drawn(w, s, i + 1, row', col')
    ensures Shown(s, i) == Shown(s, i + 1) && (row' >= TEXT_ROWS <==> !Fits(s[..i + 1]))
  {
    PageStep(s, i);
    ShownNext(s, i);
    row', col' := DrawChar(w, TextPage(s[..i]), row, col, c);
  }

  lemma ShownHere(s: seq<Byte>, n: nat)
    requires n <= |s| && (n < |s| ==> !Fits(s[..n]))
    ensures Shown(s, n) == n
  {}

  /** The text `s`, as far as it is drawn, and the cursor position found on the way. */
  method DrawText(w: Screen, content: array<Byte>, ghost s: seq<Byte>, contentSize: int, cursorIdx: int)
    returns (cx: int, cy: int)
    requires w.Sized() && 0 <= cursorIdx <= contentSize <= content.Length && s == content[..contentSize]
    modifies w, w.buffer, w.colorBuffer
    ensures w.Sized() && Shows(w, TextPage(s[..Shown(s, 0)]))
    ensures (cy, cx) == CursorAt(s, cursorIdx)
  {
    w.Clear();
    ghost var n := 0;
    EmptyPage();
    assert s[..0] == [];
    var row, col := 0, 0;
    cx, cy := 0, 0;
    var i := 0;
    while i < contentSize
      invariant 0 <= i <= contentSize && n == i && content[..contentSize] == s
      invariant Drawn(w, s, n, row, col) && row < TEXT_ROWS
      invariant Shown(s, 0) == Shown(s, n) && (cy, cx) == Found(s, cursorIdx, n)
    {
      var c := content[i];
      if i == cursorIdx {
        cx, cy := col, row;
      }
      assert c == s[i];
      row, col := DrawNext(w, s, i, row, col, c);
      n := i + 1;
      if row >= TERM_H - 1 { break; }
      i := i + 1;
    }
    ShownHere(s, n);
    if cursorIdx == contentSize {
      cx, cy := col, row;
    }
  }

  lemma SameBeginning(drawn: seq<seq<Cell>>, whole: seq<seq<Cell>>, all: bool)
    requires |drawn| <= |whole| && forall r :: 0 <= r < |drawn| - 1 ==> whole[r] == drawn[r]
    requires if all then drawn == whole else |drawn| > TEXT_ROWS
    ensures forall r, c :: 0 <= r < TEXT_ROWS && 0 <= c ==> CellAt(drawn, r, c) == CellAt(whole, r, c)
  {}

  lemma NextRowFree(rows: seq<seq<Cell>>, item: Item)
    requires Proper(rows) && |rows| <= TEXT_ROWS
    ensures forall c :: c > 0 ==> CellAt(AddItem(rows, item), TEXT_ROWS, c) == BLANK
  {}

  lemma NextStatusRowFree(s: seq<Byte>, n: nat)
    requires 0 < n <= |s| && Fits(s[..n - 1])
    ensures forall c :: c > 0 ==> CellAt(TextPage(s[..n]), TEXT_ROWS, c) == BLANK
  {
    PageStep(s, n - 1);
    NextRowFree(TextPage(s[..n - 1]), ItemOf(s[n - 1]));
  }

  /** The row under the status line holds at most one cell of the text, in the first column. */
  lemma StatusRowFree(s: seq<Byte>, n: nat)
    requires n <= Shown(s, 0)
    ensures forall c :: c > 0 ==> CellAt(TextPage(s[..n]), TEXT_ROWS, c) == BLANK
  {
    if n > 0 {
      ShownFits(s, n);
      NextStatusRowFree(s, n);
    } else {
      EmptyPage();
      assert s[..0] == [];
    }
  }

  /** What is drawn before the text area overflows is the beginning of the whole page. */
  lemma ShownIsEnough(s: seq<Byte>)
    ensures var drawn := TextPage(s[..Shown(s, 0)]);
            && (forall r, c :: 0 <= r < TEXT_ROWS && 0 <= c ==> CellAt(drawn, r, c) == CellAt(TextPage(s), r, c))
            && (forall r, c :: r == TEXT_ROWS && c > 0 ==> CellAt(drawn, r, c) == BLANK)
  {
    var n := Shown(s, 0);
    assert s[..|s|] == s;
    PageGrows(s, n, |s|);
    StatusRowFree(s, n);
    SameBeginning(TextPage(s[..n]), TextPage(s), n == |s|);
  }

  /** The rows above the status line show the beginning of the text's page, all of it that fits. */
  method Render(w: Screen, content: array<Byte>, contentSize: int, cursorIdx: int)
    requires w.Sized() && 0 <= cursorIdx <= contentSize <= content.Length
    modifies w, w.buffer, w.colorBuffer
    ensures forall r, c :: 0 <= r < TEXT_ROWS && 0 <= c < TERM_W ==>
              w.CellOf(r, c) == CellAt(TextPage(content[..contentSize]), r, c)
    ensures forall r, c :: r == TEXT_ROWS && 0 <= c < TERM_W ==>
              w.CellOf(r, c) == if c < |STATUS| then Cell(STATUS[c] as int, GREEN) else BLANK
    ensures (w.cursorRow, w.cursorCol) == CursorAt(content[..contentSize], cursorIdx)
  {
    ghost var s := content[..contentSize];
    var cx, cy := DrawText(w, content, s, contentSize, cursorIdx);
    w.cursorRow := cy;
    w.cursorCol := cx;
    ShownIsEnough(s);
    DrawStatus(w);
    assert content[..contentSize] == s;
  }
}
