/**
  What a terminal stream means, independently of any grid: escape sequences set the
  colour, newlines separate paragraphs, and each paragraph is cut into rows of 60 cells.
*/
module TerminalLayout {
  import opened Machine32
  import opened Bytes

  const TERM_W := 60
  const TERM_H := 25
  const WHITE: Word := 0xFFFFFF
  const ESC: Byte := 0x1B
  const NEWLINE: Byte := 0x0A

  datatype Cell = Cell(ch: Byte, color: Word)

  /** A cell that nothing has been written to. */
  const BLANK := Cell(0, WHITE)

  /** The escape-sequence parser and the current colour. */
  datatype Pen = Pen(state: int, val: int, color: Word)

  /** A 32-bit signed integer. */
  function Wrap32(x: int): int { (x + 0x8000_0000) % TWO_32 - 0x8000_0000 }

  /** The colour an `m` sequence selects; unknown numbers select none. */
  function ColorFor(val: int, current: Word): Word {
    if val == 0 then WHITE
    else if val == 30 then 0x000000
    else if val == 31 then 0xFF0000
    else if val == 32 then 0x00FF00
    else if val == 33 then 0xFFFF00
    else if val == 34 then 0x0000FF
    else if val == 35 then 0xFF00FF
    else if val == 36 then 0x00FFFF
    else if val == 37 then WHITE
    else current
  }

  /** One byte through the parser: the new pen, and whether the byte is text. */
  function PenStep(pen: Pen, c: Byte): (Pen, bool) {
    if pen.state == 1 && c == '[' as int then (pen.(state := 2, val := 0), false)
    else if pen.state == 1 then (pen.(state := 0), true)
    else if pen.state == 2 && '0' as int <= c <= '9' as int then
      (pen.(val := Wrap32(pen.val * 10 + (c - '0' as int))), false)
    else if pen.state == 2 && c == 'm' as int then (pen.(state := 0, color := ColorFor(pen.val, pen.color)), false)
    else if pen.state == 2 && c == ';' as int then (pen.(val := 0), false)
    else if pen.state == 2 then (pen.(state := 0), true)
    else if pen.state == 0 && c == ESC then (pen.(state := 1), false)
    else (pen, true)
  }

  // ----- The meaning of a whole stream -----

  datatype Item = Break | Glyph(cell: Cell)

  /** The text in a stream, each character with its colour. */
  function Interpret(pen: Pen, s: seq<Byte>): seq<Item>
    decreases |s|
  {
    if s == [] then []
    else
      var (pen', text) := PenStep(pen, s[0]);
      (if !text then [] else if s[0] == NEWLINE then [Break] else [Glyph(Cell(s[0], pen'.color))])
      + Interpret(pen', s[1..])
  }

  function Prepend(x: Item, ps: seq<seq<Cell>>): (r: seq<seq<Cell>>)
    requires |ps| > 0
    ensures |r| > 0
  {
    if x.Break? then [[]] + ps else [[x.cell] + ps[0]] + ps[1..]
  }

  /** The paragraphs between the line breaks. */
  function Paragraphs(items: seq<Item>): (ps: seq<seq<Cell>>)
    ensures |ps| > 0
  {
    if items == [] then [[]] else Prepend(items[0], Paragraphs(items[1..]))
  }

  function Append(ps: seq<seq<Cell>>, x: Item): (r: seq<seq<Cell>>)
    requires |ps| > 0
    ensures |r| > 0
  {
    var n := |ps| - 1;
    if x.Break? then ps + [[]] else ps[..n] + [ps[n] + [x.cell]]
  }

  /** A paragraph in rows of `TERM_W`: a full last row is not followed by an empty one. */
  function Rows(p: seq<Cell>): (rows: seq<seq<Cell>>)
    ensures |rows| > 0
    decreases |p|
  {
    if |p| <= TERM_W then [p] else [p[..TERM_W]] + Rows(p[TERM_W..])
  }

  function AllRows(ps: seq<seq<Cell>>): seq<seq<Cell>> {
    if ps == [] then [] else Rows(ps[0]) + AllRows(ps[1..])
  }

  /** The unbounded page that a stream describes. */
  function Page(pen: Pen, s: seq<Byte>): seq<seq<Cell>> {
    AllRows(Paragraphs(Interpret(pen, s)))
  }

  // ----- The same, one byte at a time -----

  /** A page under construction; the cursor is behind the last cell of the last row. */
  datatype Layout = Layout(rows: seq<seq<Cell>>, pen: Pen)

  predicate Proper(rows: seq<seq<Cell>>) {
    |rows| > 0 && forall i :: 0 <= i < |rows| ==> |rows[i]| <= TERM_W
  }

  function AddItem(rows: seq<seq<Cell>>, item: Item): (r: seq<seq<Cell>>)
    requires Proper(rows)
    ensures Proper(r)
  {
    var n := |rows| - 1;
    if item.Break? then rows + [[]]
    else if |rows[n]| >= TERM_W then rows + [[item.cell]]
    else rows[..n] + [rows[n] + [item.cell]]
  }

  function Put(l: Layout, c: Byte): (r: Layout)
    requires Proper(l.rows)
    ensures Proper(r.rows)
  {
    var (pen, text) := PenStep(l.pen, c);
    if !text then l.(pen := pen)
    else Layout(AddItem(l.rows, if c == NEWLINE then Break else Glyph(Cell(c, pen.color))), pen)
  }

  function PutAll(l: Layout, s: seq<Byte>): (r: Layout)
    requires Proper(l.rows)
    ensures Proper(r.rows)
    decreases |s|
  {
    if s == [] then l else PutAll(Put(l, s[0]), s[1..])
  }

  /** Splitting a stream anywhere, even inside an escape sequence, changes nothing. */
  lemma {:induction false} PutSplit(l: Layout, s: seq<Byte>, t: seq<Byte>)
    requires Proper(l.rows)
    ensures PutAll(l, s + t) == PutAll(PutAll(l, s), t)
    decreases |s|
  {
    if s == [] {
      assert s + t == t;
    } else {
      PutSplit(Put(l, s[0]), s[1..], t);
      assert (s + t)[1..] == s[1..] + t;
    }
  }

  function AddItems(rows: seq<seq<Cell>>, items: seq<Item>): (r: seq<seq<Cell>>)
    requires Proper(rows)
    ensures Proper(r)
    decreases |items|
  {
    if items == [] then rows else AddItems(AddItem(rows, items[0]), items[1..])
  }

  lemma {:induction false} AddItemsSplit(rows: seq<seq<Cell>>, whole: seq<Item>, xs: seq<Item>, ys: seq<Item>)
    requires Proper(rows) && whole == xs + ys
    ensures AddItems(rows, whole) == AddItems(AddItems(rows, xs), ys)
    decreases |xs|
  {
    if xs == [] {
      assert whole == ys;
    } else {
      assert whole[0] == xs[0] && whole[1..] == xs[1..] + ys;
      AddItemsSplit(AddItem(rows, xs[0]), whole[1..], xs[1..], ys);
    }
  }

  /** Bytes reach the page through the items they stand for. */
  lemma {:induction false} PutIsItems(l: Layout, s: seq<Byte>)
    requires Proper(l.rows)
    ensures PutAll(l, s).rows == AddItems(l.rows, Interpret(l.pen, s))
    decreases |s|
  {
    if s != [] {
      PutIsItems(Put(l, s[0]), s[1..]);
      var (pen', text) := PenStep(l.pen, s[0]);
      var rest := Interpret(pen', s[1..]);
      if text {
        var item := if s[0] == NEWLINE then Break else Glyph(Cell(s[0], pen'.color));
        assert Interpret(l.pen, s) == [item] + rest;
        assert ([item] + rest)[1..] == rest;
      } else {
        assert Interpret(l.pen, s) == rest;
      }
    }
  }

  lemma PrependAppend(x: Item, ps: seq<seq<Cell>>, y: Item)
    requires |ps| > 0
    ensures Prepend(x, Append(ps, y)) == Append(Prepend(x, ps), y)
  {
    var l, r := Prepend(x, Append(ps, y)), Append(Prepend(x, ps), y);
    assert |l| == |r|;
    forall i | 0 <= i < |l| ensures l[i] == r[i] {}
  }

  lemma {:induction false} ParagraphsSnoc(items: seq<Item>, x: Item)
    ensures Paragraphs(items + [x]) == Append(Paragraphs(items), x)
  {
    if items == [] {
      assert items + [x] == [x] && [x][1..] == items;
      assert Paragraphs([x]) == Prepend(x, Paragraphs(items));
      assert x.Glyph? ==> [x.cell] + [] == [] + [x.cell];
      assert Prepend(x, [[]]) == Append([[]], x);
    } else {
      ParagraphsSnoc(items[1..], x);
      assert (items + [x])[1..] == items[1..] + [x];
      PrependAppend(items[0], Paragraphs(items[1..]), x);
    }
  }

  lemma {:induction false} AllRowsSplit(ps: seq<seq<Cell>>, qs: seq<seq<Cell>>)
    ensures AllRows(ps + qs) == AllRows(ps) + AllRows(qs)
  {
    if ps == [] {
      assert ps + qs == qs;
    } else {
      AllRowsSplit(ps[1..], qs);
      assert (ps + qs)[1..] == ps[1..] + qs;
    }
  }

  lemma {:induction false} RowsProper(p: seq<Cell>)
    ensures Proper(Rows(p))
    decreases |p|
  {
    if |p| > TERM_W {
      RowsProper(p[TERM_W..]);
    }
  }

  /** Only the last row matters to `AddItem`. */
  lemma AddItemBehind(front: seq<seq<Cell>>, rows: seq<seq<Cell>>, item: Item)
    requires Proper(rows) && Proper(front + rows)
    ensures AddItem(front + rows, item) == front + AddItem(rows, item)
  {
    var n := |rows| - 1;
    assert (front + rows)[..|front| + n] == front + rows[..n];
  }

  /** Adding a cell to a paragraph is adding it to its rows. */
  lemma {:induction false} RowsSnoc(p: seq<Cell>, c: Cell)
    requires Proper(Rows(p))
    ensures Rows(p + [c]) == AddItem(Rows(p), Glyph(c))
    decreases |p|
  {
    if |p| > TERM_W {
      var q := p[TERM_W..];
      RowsProper(q);
      RowsSnoc(q, c);
      assert (p + [c])[TERM_W..] == q + [c] && (p + [c])[..TERM_W] == p[..TERM_W];
      AddItemBehind([p[..TERM_W]], Rows(q), Glyph(c));
    } else if |p| == TERM_W {
      assert (p + [c])[TERM_W..] == [c] && (p + [c])[..TERM_W] == p;
    }
  }

  lemma {:induction false} AllRowsProper(ps: seq<seq<Cell>>)
    requires |ps| > 0
    ensures Proper(AllRows(ps))
  {
    RowsProper(ps[0]);
    if |ps| > 1 {
      AllRowsProper(ps[1..]);
    }
  }

  /** One more item extends the page by one item. */
  lemma PageSnoc(items: seq<Item>, x: Item)
    requires Proper(AllRows(Paragraphs(items)))
    ensures AllRows(Paragraphs(items + [x])) == AddItem(AllRows(Paragraphs(items)), x)
  {
    var ps := Paragraphs(items);
    var n := |ps| - 1;
    ParagraphsSnoc(items, x);
    if x.Break? {
      AllRowsSplit(ps, [[]]);
      assert AllRows([[]]) == [[]];
    } else {
      assert ps == ps[..n] + [ps[n]];
      AllRowsSplit(ps[..n], [ps[n]]);
      AllRowsSplit(ps[..n], [ps[n] + [x.cell]]);
      assert AllRows([ps[n]]) == Rows(ps[n]) && AllRows([ps[n] + [x.cell]]) == Rows(ps[n] + [x.cell]);
      RowsProper(ps[n]);
      RowsSnoc(ps[n], x.cell);
      AddItemBehind(AllRows(ps[..n]), Rows(ps[n]), x);
    }
  }

  lemma {:induction false} ItemsMakePage(items: seq<Item>)
    ensures Proper([[]]) && AddItems([[]], items) == AllRows(Paragraphs(items))
    decreases |items|
  {
    if items == [] {
      assert AllRows([[]]) == [[]];
    } else {
      var n := |items| - 1;
      var front, x := items[..n], items[n];
      assert items == front + [x];
      ItemsMakePage(front);
      AllRowsProper(Paragraphs(front));
      AddItemsSplit([[]], items, front, [x]);
      PageSnoc(front, x);
    }
  }

  /** Feeding a stream byte by byte to an empty page builds the page the stream describes. */
  lemma PutAllMakesPage(pen: Pen, s: seq<Byte>)
    ensures Proper([[]]) && PutAll(Layout([[]], pen), s).rows == Page(pen, s)
  {
    PutIsItems(Layout([[]], pen), s);
    ItemsMakePage(Interpret(pen, s));
  }

  // ----- Taking characters back -----

  /** What a backspace does to the page: it stays in the last row. */
  function EraseLast(rows: seq<seq<Cell>>): (r: seq<seq<Cell>>)
    requires Proper(rows)
    ensures Proper(r)
  {
    var n := |rows| - 1;
    if rows[n] == [] then rows else rows[..n] + [rows[n][..|rows[n]| - 1]]
  }

  function EraseTimes(rows: seq<seq<Cell>>, n: nat): (r: seq<seq<Cell>>)
    requires Proper(rows)
    ensures Proper(r)
    decreases n
  {
    if n == 0 then rows else EraseTimes(EraseLast(rows), n - 1)
  }

  predicate Glyphs(items: seq<Item>) { forall i :: 0 <= i < |items| ==> items[i].Glyph? }

  /** How far the last row is filled. */
  function Column(rows: seq<seq<Cell>>): nat
    requires Proper(rows)
  {
    |rows[|rows| - 1]|
  }

  lemma {:induction false} EraseKeepsRows(rows: seq<seq<Cell>>, n: nat)
    requires Proper(rows)
    ensures |EraseTimes(rows, n)| == |rows|
    decreases n
  {
    if n > 0 {
      EraseKeepsRows(EraseLast(rows), n - 1);
    }
  }

  /** Characters fill the last row, and then start others. */
  lemma {:induction false} GlyphsFill(rows: seq<seq<Cell>>, items: seq<Item>)
    requires Proper(rows) && Glyphs(items)
    ensures |AddItems(rows, items)| >= |rows|
    ensures |AddItems(rows, items)| == |rows| <==> Column(rows) + |items| <= TERM_W
    ensures Column(rows) + |items| <= TERM_W ==> Column(AddItems(rows, items)) == Column(rows) + |items|
    decreases |items|
  {
    if items != [] {
      GlyphsFill(AddItem(rows, items[0]), items[1..]);
    }
  }

  lemma EraseUndoesCell(rows: seq<seq<Cell>>, item: Item)
    requires Proper(rows) && item.Glyph? && Column(rows) < TERM_W
    ensures EraseLast(AddItem(rows, item)) == rows
  {
    var n := |rows| - 1;
    assert (rows[n] + [item.cell])[..|rows[n]|] == rows[n];
    assert rows[..n] + [rows[n]] == rows;
  }

  lemma AddLast(rows: seq<seq<Cell>>, items: seq<Item>, front: seq<Item>, x: Item)
    requires Proper(rows) && items == front + [x]
    ensures AddItems(rows, items) == AddItem(AddItems(rows, front), x)
  {
    AddItemsSplit(rows, items, front, [x]);
  }

  lemma {:induction false} EraseUndoes(rows: seq<seq<Cell>>, items: seq<Item>)
    requires Proper(rows) && Glyphs(items) && Column(rows) + |items| <= TERM_W
    ensures EraseTimes(AddItems(rows, items), |items|) == rows
    decreases |items|
  {
    if items != [] {
      var n := |items| - 1;
      AddLast(rows, items, items[..n], items[n]);
      GlyphsFill(rows, items[..n]);
      EraseUndoesCell(AddItems(rows, items[..n]), items[n]);
      EraseUndoes(rows, items[..n]);
    }
  }

  /**
    As many backspaces as characters have been typed take these off the page exactly when they
    all fit the row they started in; those that were wrapped into another row stay behind.
  */
  lemma EchoUndoneIff(rows: seq<seq<Cell>>, items: seq<Item>)
    requires Proper(rows) && Glyphs(items)
    ensures EraseTimes(AddItems(rows, items), |items|) == rows <==> Column(rows) + |items| <= TERM_W
  {
    GlyphsFill(rows, items);
    EraseKeepsRows(AddItems(rows, items), |items|);
    if Column(rows) + |items| <= TERM_W {
      EraseUndoes(rows, items);
    }
  }

  // ----- What is visible of a page -----

  /** The number of rows that have scrolled off the top. */
  function Hidden(rows: seq<seq<Cell>>): nat {
    if |rows| <= TERM_H then 0 else |rows| - TERM_H
  }

  function CellAt(rows: seq<seq<Cell>>, r: int, c: int): Cell {
    if 0 <= r < |rows| && 0 <= c < |rows[r]| then rows[r][c] else BLANK
  }

  /** The cell of a 25 by 60 window on the end of the page. */
  function Visible(rows: seq<seq<Cell>>, r: int, c: int): Cell {
    CellAt(rows, Hidden(rows) + r, c)
  }

  /** A line break scrolls the window by one row when it is full. */
  lemma VisibleAfterBreak(rows: seq<seq<Cell>>, r: int, c: int)
    requires Proper(rows) && 0 <= r < TERM_H
    ensures Visible(rows + [[]], r, c) ==
            if |rows| < TERM_H then Visible(rows, r, c)
            else if r < TERM_H - 1 then Visible(rows, r + 1, c)
            else BLANK
  {}

  /** A new cell appears behind the last row, and nothing else moves. */
  lemma VisibleAfterCell(rows: seq<seq<Cell>>, cell: Cell, r: int, c: int)
    requires Proper(rows) && 0 <= r < TERM_H && 0 <= c && |rows[|rows| - 1]| < TERM_W
    ensures Visible(AddItem(rows, Glyph(cell)), r, c) ==
            if Hidden(rows) + r == |rows| - 1 && c == |rows[|rows| - 1]| then cell else Visible(rows, r, c)
  {}

  /** The erased cell is blank, and nothing moves. */
  lemma VisibleAfterErase(rows: seq<seq<Cell>>, r: int, c: int)
    requires Proper(rows) && 0 <= r < TERM_H && 0 <= c
    ensures Visible(EraseLast(rows), r, c) ==
            if Hidden(rows) + r == |rows| - 1 && c == Column(rows) - 1 then BLANK else Visible(rows, r, c)
  {}

  /** Two cells that cannot be told apart on the screen: an empty one has no visible colour. */
  predicate Looks(a: Cell, b: Cell) { a.ch == b.ch && (a.ch != 0 ==> a.color == b.color) }
}
