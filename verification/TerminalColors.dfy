/** What the escape sequences of a terminal stream do, stated without the parser. */
module TerminalColors {
  import opened Machine32
  import opened Bytes
  import opened TerminalLayout
  import opened TerminalScreen

  const BRACKET: Byte := 0x5B
  const SEMICOLON: Byte := 0x3B
  const LETTER_M: Byte := 0x6D
  const ZERO: Byte := 0x30
  const INT_LIMIT := 0x8000_0000

  /** A number in decimal. */
  function Decimal(n: nat): (s: seq<Byte>)
    ensures s != []
  {
    if n < 10 then [ZERO + n] else Decimal(n / 10) + [ZERO + n % 10]
  }

  /** The colours of the numbers that select one. */
  const COLORS: map<int, Word> := map[
    0 := 0xFFFFFF, 30 := 0x000000, 31 := 0xFF0000, 32 := 0x00FF00, 33 := 0xFFFF00,
    34 := 0x0000FF, 35 := 0xFF00FF, 36 := 0x00FFFF, 37 := 0xFFFFFF]

  /** The colour behind a sequence with this last number. */
  function Selected(n: nat, color: Word): Word {
    if n in COLORS then COLORS[n] else color
  }

  /** The last of the numbers; an empty list stands for 0. */
  function LastOf(ns: seq<nat>): nat { if ns == [] then 0 else ns[|ns| - 1] }

  /** The numbers in decimal, with semicolons between them. */
  function Parameters(ns: seq<nat>): seq<Byte> {
    if ns == [] then []
    else if |ns| == 1 then Decimal(ns[0])
    else Parameters(ns[..|ns| - 1]) + [SEMICOLON] + Decimal(ns[|ns| - 1])
  }

  /** A whole sequence: ESC, a bracket, the numbers and an `m`. */
  function Sequence(ns: seq<nat>): seq<Byte> { [ESC, BRACKET] + Parameters(ns) + [LETTER_M] }

  // ----- One byte behind a stream -----

  lemma PutLast(l: Layout, s: seq<Byte>, c: Byte)
    requires Proper(l.rows)
    ensures PutAll(l, s + [c]) == Put(PutAll(l, s), c)
  {
    PutSplit(l, s, [c]);
    var a := PutAll(l, s);
    assert PutAll(a, [c]) == PutAll(Put(a, c), []);
  }

  /** Inside a sequence, with this number read so far. */
  predicate Inside(l: Layout, rows: seq<seq<Cell>>, n: int, color: Word) {
    l == Layout(rows, Pen(2, n, color))
  }

  /** One more digit. */
  lemma PutDigit(l: Layout, rows: seq<seq<Cell>>, n: nat, d: nat, color: Word)
    requires Proper(rows) && Inside(l, rows, n, color) && d < 10 && 10 * n + d < INT_LIMIT
    ensures Inside(Put(l, ZERO + d), rows, 10 * n + d, color)
  {}

  /** A number in decimal is read as this number. */
  lemma {:induction false} PutDecimal(l: Layout, rows: seq<seq<Cell>>, n: nat, color: Word)
    requires Proper(rows) && Inside(l, rows, 0, color) && n < INT_LIMIT
    ensures Inside(PutAll(l, Decimal(n)), rows, n, color)
  {
    if n < 10 {
      PutLast(l, [], ZERO + n);
      assert [] + [ZERO + n] == [ZERO + n];
      PutDigit(l, rows, 0, n, color);
    } else {
      PutDecimal(l, rows, n / 10, color);
      PutLast(l, Decimal(n / 10), ZERO + n % 10);
      PutDigit(PutAll(l, Decimal(n / 10)), rows, n / 10, n % 10, color);
    }
  }

  predicate Small(ns: seq<nat>) { forall i :: 0 <= i < |ns| ==> ns[i] < INT_LIMIT }

  /** Of several numbers only the last one counts. */
  lemma {:induction false} PutParameters(l: Layout, rows: seq<seq<Cell>>, ns: seq<nat>, color: Word)
    requires Proper(rows) && Inside(l, rows, 0, color) && Small(ns)
    ensures Inside(PutAll(l, Parameters(ns)), rows, LastOf(ns), color)
    decreases |ns|
  {
    if |ns| == 1 {
      PutDecimal(l, rows, ns[0], color);
    } else if |ns| > 1 {
      var front, n := ns[..|ns| - 1], ns[|ns| - 1];
      PutParameters(l, rows, front, color);
      PutLast(l, Parameters(front), SEMICOLON);
      var a := PutAll(l, Parameters(front) + [SEMICOLON]);
      assert Inside(a, rows, 0, color);
      PutDecimal(a, rows, n, color);
      PutSplit(l, Parameters(front) + [SEMICOLON], Decimal(n));
    }
  }

  lemma PutOpen(l: Layout)
    requires Proper(l.rows) && l.pen.state == 0
    ensures Inside(PutAll(l, [ESC, BRACKET]), l.rows, 0, l.pen.color)
  {
    PutLast(l, [ESC], BRACKET);
    PutLast(l, [], ESC);
    assert [] + [ESC] == [ESC] && [ESC] + [BRACKET] == [ESC, BRACKET];
  }

  /**
    A colour sequence adds nothing to the page, and the colour behind it is the one that its last
    number selects; any other number keeps the colour.
  */
  lemma SequenceSelects(l: Layout, ns: seq<nat>)
    requires Proper(l.rows) && l.pen.state == 0 && Small(ns)
    ensures var r := PutAll(l, Sequence(ns));
            r.rows == l.rows && r.pen.state == 0 && r.pen.color == Selected(LastOf(ns), l.pen.color)
  {
    var open := PutAll(l, [ESC, BRACKET]);
    PutOpen(l);
    PutSplit(l, [ESC, BRACKET], Parameters(ns));
    PutParameters(open, l.rows, ns, l.pen.color);
    PutLast(l, [ESC, BRACKET] + Parameters(ns), LETTER_M);
  }

  // ----- Text -----

  /** A character as text in this colour. */
  function TextItem(c: Byte, color: Word): Item { if c == 0x0A then Break else Glyph(Cell(c, color)) }

  function TextItems(s: seq<Byte>, color: Word): seq<Item> { seq(|s|, i requires 0 <= i < |s| => TextItem(s[i], color)) }

  /** ESC and a byte that is no bracket: this byte is text. */
  lemma EscapedByte(l: Layout, c: Byte)
    requires Proper(l.rows) && l.pen.state == 0 && c != BRACKET
    ensures PutAll(l, [ESC, c]) == Layout(AddItem(l.rows, TextItem(c, l.pen.color)), l.pen)
  {
    PutLast(l, [ESC], c);
    PutLast(l, [], ESC);
    assert [] + [ESC] == [ESC] && [ESC] + [c] == [ESC, c];
  }

  /** A byte that does not belong in a sequence ends it, and is text in the old colour. */
  lemma BrokenSequence(l: Layout, ns: seq<nat>, c: Byte)
    requires Proper(l.rows) && l.pen.state == 0 && Small(ns)
    requires c != LETTER_M && c != SEMICOLON && !(ZERO <= c < ZERO + 10)
    ensures var r := PutAll(l, [ESC, BRACKET] + Parameters(ns) + [c]);
            r.rows == AddItem(l.rows, TextItem(c, l.pen.color)) && r.pen.state == 0 && r.pen.color == l.pen.color
  {
    var open := PutAll(l, [ESC, BRACKET]);
    PutOpen(l);
    PutSplit(l, [ESC, BRACKET], Parameters(ns));
    PutParameters(open, l.rows, ns, l.pen.color);
    PutLast(l, [ESC, BRACKET] + Parameters(ns), c);
  }

  /** A stream without ESC is all text in the current colour. */
  lemma {:induction false} PlainText(l: Layout, s: seq<Byte>)
    requires Proper(l.rows) && l.pen.state == 0 && ESC !in s
    ensures PutAll(l, s) == Layout(AddItems(l.rows, TextItems(s, l.pen.color)), l.pen)
    decreases |s|
  {
    if s != [] {
      assert s[0] in s && ESC !in s[1..];
      PlainText(Put(l, s[0]), s[1..]);
      var items := TextItems(s, l.pen.color);
      assert items[0] == TextItem(s[0], l.pen.color) && items[1..] == TextItems(s[1..], l.pen.color);
    }
  }

  // ----- Coloured text -----

  /** A colour sequence and text behind it. */
  datatype Segment = Segment(numbers: seq<nat>, text: seq<Byte>)

  predicate ProperSegments(segments: seq<Segment>) {
    forall i :: 0 <= i < |segments| ==> Small(segments[i].numbers) && ESC !in segments[i].text
  }

  function Stream(segments: seq<Segment>): seq<Byte> {
    if segments == [] then [] else Sequence(segments[0].numbers) + segments[0].text + Stream(segments[1..])
  }

  /** The text, each segment in the colour selected in front of it. */
  function Colored(segments: seq<Segment>, color: Word): seq<Item> {
    if segments == [] then []
    else
      var c := Selected(LastOf(segments[0].numbers), color);
      TextItems(segments[0].text, c) + Colored(segments[1..], c)
  }

  /** Any stream of coloured text shows exactly this text in these colours. */
  lemma {:induction false} ColoredText(l: Layout, segments: seq<Segment>)
    requires Proper(l.rows) && l.pen.state == 0 && ProperSegments(segments)
    ensures var r := PutAll(l, Stream(segments));
            r.rows == AddItems(l.rows, Colored(segments, l.pen.color)) && r.pen.state == 0
    decreases |segments|
  {
    if segments != [] {
      var first, rest := segments[0], segments[1..];
      var sequence := Sequence(first.numbers);
      var a := PutAll(l, sequence);
      var b := PutAll(a, first.text);
      SequenceSelects(l, first.numbers);
      PlainText(a, first.text);
      ColoredText(b, rest);
      PutSplit(l, sequence, first.text);
      PutSplit(l, sequence + first.text, Stream(rest));
      var items := TextItems(first.text, a.pen.color);
      AddItemsSplit(l.rows, items + Colored(rest, a.pen.color), items, Colored(rest, a.pen.color));
    }
  }

  /** A cleared screen on which coloured text is printed shows the last 25 rows of this text, in its colours. */
  method ClearAndPrintColored(w: Screen, str: seq<Byte>, ghost segments: seq<Segment>)
    requires w.Sized() && 0 !in str && ProperSegments(segments) && str == Stream(segments)
    modifies w, w.buffer, w.colorBuffer
    ensures forall r, c :: 0 <= r < TERM_H && 0 <= c < TERM_W ==>
              w.CellOf(r, c) == Visible(AddItems([[]], Colored(segments, 0xFFFFFF)), r, c)
  {
    w.Clear();
    ColoredText(w.State(), segments);
    w.Print(str);
  }
}
