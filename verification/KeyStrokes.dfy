/** Runs of key strokes at the command line, as scancodes and characters come in, stated by what is shown. */
module KeyStrokes {
  import opened Machine32
  import opened Bytes
  import opened LineEditing
  import opened CommandLine

  /** One call of `OnKeyDown`; `names` are the commands and files that completion would find. */
  datatype Stroke = Stroke(scancode: int, ascii: Byte, names: seq<seq<Byte>>)

  predicate Proper(strokes: seq<Stroke>) { forall i :: 0 <= i < |strokes| ==> ProperNames(strokes[i].names) }

  /** A scancode without a meaning of its own. */
  predicate Plain(scancode: int) {
    scancode != 0x0E && scancode != 0x0F && scancode != 0x1C && scancode != 0x48 && scancode != 0x50
  }

  function Keys(strokes: seq<Stroke>): (keys: seq<Key>)
    ensures |keys| == |strokes|
  {
    seq(|strokes|, i requires 0 <= i < |strokes| => KeyOf(strokes[i].scancode, strokes[i].ascii, strokes[i].names))
  }

  /** The line after a run of strokes. */
  function After(l: Line, strokes: seq<Stroke>): (r: Line)
    requires 0 <= l.index <= |l.history|
    ensures 0 <= r.index <= |r.history|
  {
    PressAll(l, Keys(strokes))
  }

  lemma {:induction false} PressSplit(l: Line, whole: seq<Key>, xs: seq<Key>, ys: seq<Key>)
    requires 0 <= l.index <= |l.history| && whole == xs + ys
    ensures PressAll(l, whole) == PressAll(PressAll(l, xs), ys)
    decreases |xs|
  {
    if xs == [] {
      assert whole == ys;
    } else {
      assert whole[0] == xs[0] && whole[1..] == xs[1..] + ys;
      PressSplit(Press(l, xs[0]), whole[1..], xs[1..], ys);
    }
  }

  lemma AfterSplit(l: Line, xs: seq<Stroke>, ys: seq<Stroke>)
    requires 0 <= l.index <= |l.history|
    ensures After(l, xs + ys) == After(After(l, xs), ys)
  {
    assert Keys(xs + ys) == Keys(xs) + Keys(ys);
    PressSplit(l, Keys(xs + ys), Keys(xs), Keys(ys));
  }

  lemma AfterOne(l: Line, st: Stroke)
    requires 0 <= l.index <= |l.history|
    ensures After(l, [st]) == Press(l, KeyOf(st.scancode, st.ascii, st.names))
  {
    var k := KeyOf(st.scancode, st.ascii, st.names);
    assert Keys([st]) == [k];
    assert PressAll(l, [k]) == PressAll(Press(l, k), []);
  }

  // ----- Up after Enter -----

  /** `k` strokes of the Up key. */
  function Ups(k: nat): seq<Stroke> { seq(k, _ => Stroke(0x48, 0, [])) }

  lemma {:induction false} UpsAreUps(l: Line, k: nat)
    requires 0 <= l.index <= |l.history|
    ensures After(l, Ups(k)) == UpTimes(l, k)
  {
    if k == 0 {
      assert Keys(Ups(0)) == [];
    } else {
      UpsAreUps(l, k - 1);
      assert Ups(k) == Ups(k - 1) + [Stroke(0x48, 0, [])];
      AfterSplit(l, Ups(k - 1), [Stroke(0x48, 0, [])]);
      AfterOne(After(l, Ups(k - 1)), Stroke(0x48, 0, []));
    }
  }

  lemma {:induction false} UpsRecall(l: Line, k: nat)
    requires l.index == |l.history| > 0 && k > 0
    ensures After(l, Ups(k)).history == l.history
    ensures After(l, Ups(k)) == UpTimes(l, k)
    ensures After(l, Ups(k)).text == l.history[if k <= |l.history| then |l.history| - k else 0]
  {
    UpsAreUps(l, k);
    UpRecalls(l, k);
  }

  /** The line that `k` Up keys bring back of these lines: the k-th last one, but none before the last ten. */
  function Recalled(lines: seq<seq<Byte>>, k: nat): seq<Byte>
    requires lines != [] && k > 0
  {
    var oldest := if |lines| <= 10 then 0 else |lines| - 10;
    lines[if |lines| - k < oldest then oldest else |lines| - k]
  }

  lemma LastRecalled(lines: seq<seq<Byte>>, k: nat)
    requires lines != [] && k > 0
    ensures var h := Last(lines, 10); |h| > 0 && h[if k <= |h| then |h| - k else 0] == Recalled(lines, k)
  {}

  /** A line that is entered is remembered as the last one, and the prompt is empty again. */
  lemma EnterStroke(l: Line, names: seq<seq<Byte>>, ascii: Byte)
    requires Valid(l) && l.text != []
    ensures var r := After(l, [Stroke(0x1C, ascii, names)]);
            r.text == [] && r.history == Last(l.history + [l.text], 10) && r.index == |r.history| > 0
  {
    AfterOne(l, Stroke(0x1C, ascii, names));
  }

  /** Enter on an empty line changes nothing. */
  lemma EmptyEnter(l: Line, names: seq<seq<Byte>>, ascii: Byte)
    requires 0 <= l.index <= |l.history| && l.text == []
    ensures After(l, [Stroke(0x1C, ascii, names)]) == l
  {
    AfterOne(l, Stroke(0x1C, ascii, names));
  }

  /** The line that this stroke enters, if any. */
  function EnteredNow(l: Line, st: Stroke): seq<seq<Byte>> {
    if st.scancode == 0x1C && l.text != [] then [l.text] else []
  }

  /** The non-empty lines that were on the command line when Enter came. */
  function Lines(l: Line, strokes: seq<Stroke>): seq<seq<Byte>>
    requires 0 <= l.index <= |l.history|
    decreases |strokes|
  {
    if strokes == [] then []
    else
      var n := |strokes| - 1;
      Lines(l, strokes[..n]) + EnteredNow(After(l, strokes[..n]), strokes[n])
  }

  lemma StrokeValid(l: Line, st: Stroke)
    requires Valid(l) && ProperNames(st.names)
    ensures Valid(After(l, [st]))
  {
    AfterOne(l, st);
    PressValid(l, KeyOf(st.scancode, st.ascii, st.names));
  }

  lemma HistoryStep(l: Line, st: Stroke, lines: seq<seq<Byte>>)
    requires Valid(l) && l.history == Last(lines, 10)
    ensures Press(l, KeyOf(st.scancode, st.ascii, st.names)).history ==
            Last(lines + EnteredNow(l, st), 10)
  {
    if st.scancode == 0x1C && l.text != [] {
      LastOfLast(lines, [l.text], 10);
    } else {
      assert lines + [] == lines;
    }
  }

  lemma StrokeHistory(l: Line, st: Stroke, lines: seq<seq<Byte>>)
    requires Valid(l) && ProperNames(st.names) && l.history == Last(lines, 10)
    ensures Valid(After(l, [st])) && After(l, [st]).history == Last(lines + EnteredNow(l, st), 10)
  {
    StrokeValid(l, st);
    AfterOne(l, st);
    HistoryStep(l, st, lines);
  }

  lemma Regroup(a: seq<seq<Byte>>, b: seq<seq<Byte>>, c: seq<seq<Byte>>)
    ensures a + b + c == a + (b + c)
  {}

  /** The history is the last ten of these lines. */
  lemma {:induction false} HistoryIsLines(l: Line, strokes: seq<Stroke>)
    requires Valid(l) && Proper(strokes)
    ensures Valid(After(l, strokes)) && After(l, strokes).history == Last(l.history + Lines(l, strokes), 10)
    decreases |strokes|
  {
    if strokes == [] {
      assert l.history + [] == l.history && Keys([]) == [];
    } else {
      var n := |strokes| - 1;
      var front, st := strokes[..n], strokes[n];
      HistoryIsLines(l, front);
      assert strokes == front + [st];
      AfterSplit(l, front, [st]);
      StrokeHistory(After(l, front), st, l.history + Lines(l, front));
      Regroup(l.history, Lines(l, front), EnteredNow(After(l, front), st));
    }
  }

  /**
    After any run of strokes that ends by entering a line, the prompt is empty, and `k` Up keys
    bring back the k-th last of all lines entered, down to the oldest of the last ten.
  */
  lemma UpAfterEnter(l: Line, strokes: seq<Stroke>, k: nat)
    requires Valid(l) && l.history == [] && Proper(strokes) && strokes != []
    requires strokes[|strokes| - 1].scancode == 0x1C && After(l, strokes[..|strokes| - 1]).text != []
    ensures Lines(l, strokes) != []
    ensures After(l, strokes).text == []
    ensures k > 0 ==> After(l, strokes + Ups(k)).text == Recalled(Lines(l, strokes), k)
  {
    var n := |strokes| - 1;
    var front, st := strokes[..n], strokes[n];
    assert strokes == front + [st];
    HistoryIsLines(l, front);
    HistoryIsLines(l, strokes);
    AfterSplit(l, front, [st]);
    EnterStroke(After(l, front), st.names, st.ascii);
    assert [] + Lines(l, strokes) == Lines(l, strokes);
    if k > 0 {
      AfterSplit(l, strokes, Ups(k));
      UpsRecall(After(l, strokes), k);
      LastRecalled(Lines(l, strokes), k);
    }
  }

  // ----- Typing -----

  /** These strokes type the text, with whatever scancodes that have no meaning of their own. */
  predicate Types(strokes: seq<Stroke>, t: seq<Byte>) {
    |strokes| == |t| && forall i :: 0 <= i < |t| ==> Plain(strokes[i].scancode) && strokes[i].ascii == t[i]
  }

  /** Typed text is appended, as long as the line has at most 120 bytes. */
  lemma {:induction false} TypingAppends(l: Line, strokes: seq<Stroke>, t: seq<Byte>)
    requires 0 <= l.index <= |l.history| && Types(strokes, t) && 0 !in t && |l.text| + |t| <= 120
    ensures After(l, strokes) == l.(text := l.text + t)
    decreases |t|
  {
    if t == [] {
      assert Keys(strokes) == [] && l.text + t == l.text;
    } else {
      var n := |t| - 1;
      assert t[n] in t;
      assert strokes == strokes[..n] + [strokes[n]] && l.text + t == l.text + t[..n] + [t[n]];
      TypingAppends(l, strokes[..n], t[..n]);
      AfterSplit(l, strokes[..n], [strokes[n]]);
      AfterOne(After(l, strokes[..n]), strokes[n]);
    }
  }

  function Backspaces(n: nat): seq<Stroke> { seq(n, _ => Stroke(0x0E, 0, [])) }

  /** Backspaces take away the end of the line. */
  lemma {:induction false} BackspacesCut(l: Line, n: nat)
    requires 0 <= l.index <= |l.history| && n <= |l.text|
    ensures After(l, Backspaces(n)) == l.(text := l.text[..|l.text| - n])
  {
    if n == 0 {
      assert Keys(Backspaces(0)) == [];
    } else {
      BackspacesCut(l, n - 1);
      assert Backspaces(n) == Backspaces(n - 1) + [Stroke(0x0E, 0, [])];
      AfterSplit(l, Backspaces(n - 1), [Stroke(0x0E, 0, [])]);
      AfterOne(After(l, Backspaces(n - 1)), Stroke(0x0E, 0, []));
      assert l.text[..|l.text| - (n - 1)][..|l.text| - n] == l.text[..|l.text| - n];
    }
  }

  /** The strokes of a text. */
  function TextStrokes(t: seq<Byte>): seq<Stroke> { seq(|t|, i requires 0 <= i < |t| => Stroke(0, t[i], [])) }

  const ENTER := Stroke(0x1C, 0x0A, [])

  /** Typing lines, each followed by Enter. */
  function LineStrokes(ts: seq<seq<Byte>>): seq<Stroke> {
    if ts == [] then [] else LineStrokes(ts[..|ts| - 1]) + (TextStrokes(ts[|ts| - 1]) + [ENTER])
  }

  predicate ProperLines(ts: seq<seq<Byte>>) { forall i :: 0 <= i < |ts| ==> IsText(ts[i]) && ts[i] != [] }

  lemma LastProper(ts: seq<seq<Byte>>)
    requires ProperLines(ts)
    ensures ProperLines(Last(ts, 10)) && |Last(ts, 10)| <= 10
  {}

  /** Typing lines at the first prompt leaves an empty prompt behind the last ten of them. */
  lemma {:induction false} LinesTyped(ts: seq<seq<Byte>>)
    requires ProperLines(ts)
    ensures After(Line([], [], 0), LineStrokes(ts)) == Line([], Last(ts, 10), |Last(ts, 10)|)
    decreases |ts|
  {
    var start := Line([], [], 0);
    if ts == [] {
      assert Keys([]) == [];
    } else {
      var front, t := ts[..|ts| - 1], ts[|ts| - 1];
      LinesTyped(front);
      var a := After(start, LineStrokes(front));
      TypingAppends(a, TextStrokes(t), t);
      assert [] + t == t && front + [t] == ts;
      AfterSplit(a, TextStrokes(t), [ENTER]);
      AfterSplit(start, LineStrokes(front), TextStrokes(t) + [ENTER]);
      LastProper(front);
      EnterStroke(After(a, TextStrokes(t)), [], 0x0A);
      LastOfLast(front, [t], 10);
    }
  }

  /** Type any lines, then Up `k` times: the k-th last line. */
  lemma UpAfterLines(ts: seq<seq<Byte>>, k: nat)
    requires ProperLines(ts) && ts != [] && k > 0
    ensures After(Line([], [], 0), LineStrokes(ts) + Ups(k)).text == Recalled(ts, k)
  {
    LinesTyped(ts);
    AfterSplit(Line([], [], 0), LineStrokes(ts), Ups(k));
    UpsRecall(After(Line([], [], 0), LineStrokes(ts)), k);
    LastRecalled(ts, k);
  }

  lemma LinesProper(ts: seq<seq<Byte>>)
    ensures Proper(LineStrokes(ts))
  {}

  /** A line of 120 bytes takes no more. */
  lemma FullLineRefuses(l: Line, st: Stroke)
    requires 0 <= l.index <= |l.history| && |l.text| >= 120 && Plain(st.scancode)
    ensures After(l, [st]) == l
  {
    AfterOne(l, st);
  }

  // ----- Down after Up -----

  /** `k` strokes of the Down key. */
  function Downs(k: nat): seq<Stroke> { seq(k, _ => Stroke(0x50, 0, [])) }

  lemma DownAfterUp(l: Line, k: nat)
    requires l.index == |l.history| && 0 < k <= |l.history|
    ensures Down(UpTimes(l, k)) == UpTimes(l, k - 1).(text := if k == 1 then [] else l.history[|l.history| - k + 1])
  {
    UpRecalls(l, k);
    if k > 1 {
      UpRecalls(l, k - 1);
    }
  }

  lemma DownStroke(l: Line, k: nat)
    requires l.index == |l.history| && l.text == [] && 0 < k <= |l.history|
    ensures After(UpTimes(l, k), [Stroke(0x50, 0, [])]) == UpTimes(l, k - 1)
  {
    AfterOne(UpTimes(l, k), Stroke(0x50, 0, []));
    DownAfterUp(l, k);
    if k > 1 {
      UpRecalls(l, k - 1);
    }
  }

  lemma {:induction false} DownsAreUps(l: Line, k: nat, j: nat)
    requires l.index == |l.history| && l.text == [] && j <= k <= |l.history|
    ensures After(UpTimes(l, k), Downs(j)) == UpTimes(l, k - j)
  {
    if j == 0 {
      assert Keys(Downs(0)) == [];
    } else {
      DownsAreUps(l, k, j - 1);
      assert Downs(j) == Downs(j - 1) + [Stroke(0x50, 0, [])];
      AfterSplit(UpTimes(l, k), Downs(j - 1), [Stroke(0x50, 0, [])]);
      DownStroke(l, k - j + 1);
    }
  }

  lemma DownsFrom(l: Line, k: nat, j: nat)
    requires l.index == |l.history| && l.text == [] && j <= k <= |l.history|
    ensures After(After(l, Ups(k)), Downs(j)).text == if j == k then [] else l.history[|l.history| - (k - j)]
  {
    UpsAreUps(l, k);
    DownsAreUps(l, k, j);
    if j < k {
      UpRecalls(l, k - j);
    } else {
      assert UpTimes(l, 0) == l;
    }
  }

  lemma DownAfterUps(start: Line, strokes: seq<Stroke>, l: Line, k: nat, j: nat)
    requires 0 <= start.index <= |start.history| && l == After(start, strokes)
    requires l.index == |l.history| && l.text == [] && j <= k <= |l.history|
    ensures After(start, strokes + Ups(k) + Downs(j)).text == if j == k then [] else l.history[|l.history| - (k - j)]
  {
    AfterSplit(start, strokes + Ups(k), Downs(j));
    AfterSplit(start, strokes, Ups(k));
    DownsFrom(l, k, j);
  }

  lemma RecalledIs(ts: seq<seq<Byte>>, d: nat)
    requires 0 < d <= |ts| && d <= 10
    ensures d <= |Last(ts, 10)| && Last(ts, 10)[|Last(ts, 10)| - d] == Recalled(ts, d)
  {
    LastRecalled(ts, d);
  }

  /** Type any lines, Up `k` times, Down `j` times: the line is the one that `k - j` Up keys bring back, or empty again. */
  lemma DownAfterLines(start: Line, ts: seq<seq<Byte>>, k: nat, j: nat, strokes: seq<Stroke>)
    requires start == Line([], [], 0) && ProperLines(ts) && j <= k <= |ts| && k <= 10
    requires strokes == LineStrokes(ts) + Ups(k) + Downs(j)
    ensures j == k ==> After(start, strokes).text == []
    ensures j < k ==> After(start, strokes).text == Recalled(ts, k - j)
  {
    LinesTyped(ts);
    DownAfterUps(start, LineStrokes(ts), After(start, LineStrokes(ts)), k, j);
    if j < k {
      RecalledIs(ts, k - j);
    }
  }

  // ----- Tab -----

  /** The first of the names that starts with `p`. */
  predicate FirstMatch(names: seq<seq<Byte>>, i: nat, p: seq<Byte>) {
    i < |names| && p <= names[i] && forall j :: 0 <= j < i ==> !(p <= names[j])
  }

  lemma {:induction false} StartsAt(s: seq<Byte>, i: nat, f: nat)
    requires f <= i <= |s| && (f == 0 || s[f - 1] == 0x20) && forall k :: f <= k < i ==> s[k] != 0x20
    ensures WordStart(s, i) == f
  {
    if f < i {
      StartsAt(s, i - 1, f);
    }
  }

  lemma WordAtEnd(front: seq<Byte>, p: seq<Byte>)
    requires 0x20 !in p && |p| <= 63 && (front == [] || front[|front| - 1] == 0x20)
    ensures Prefix(front + p) == p
  {
    var s := front + p;
    forall k | |front| <= k < |s| ensures s[k] != 0x20 {
      assert s[k] == p[k - |front|];
    }
    StartsAt(s, |s|, |front|);
    assert s[|front|..] == p;
  }

  /** Tab behind a word: the first name that starts with it takes its place, as far as the line has room. */
  lemma TabCompletes(l: Line, front: seq<Byte>, p: seq<Byte>, names: seq<seq<Byte>>, i: nat)
    requires 0 <= l.index <= |l.history| && l.text == front + p && IsText(l.text) && ProperNames(names)
    requires p != [] && 0x20 !in p && |p| <= 63 && (front == [] || front[|front| - 1] == 0x20)
    requires FirstMatch(names, i, p) && |front| + |names[i]| <= 120
    ensures After(l, [Stroke(0x0F, 0, names)]) == l.(text := front + names[i])
  {
    AfterOne(l, Stroke(0x0F, 0, names));
    WordAtEnd(front, p);
    assert FirstWith(names, p, 0) == i;
    TabText(l.text, names, p);
    assert l.text[..|l.text| - |p|] == front;
  }

  /** And where no name starts with the word, Tab changes nothing. */
  lemma TabFindsNone(l: Line, front: seq<Byte>, p: seq<Byte>, names: seq<seq<Byte>>)
    requires 0 <= l.index <= |l.history| && l.text == front + p
    requires 0x20 !in p && |p| <= 63 && (front == [] || front[|front| - 1] == 0x20)
    requires p == [] || forall j :: 0 <= j < |names| ==> !(p <= names[j])
    ensures After(l, [Stroke(0x0F, 0, names)]) == l
  {
    AfterOne(l, Stroke(0x0F, 0, names));
    WordAtEnd(front, p);
  }

  // ----- The buffers -----

  lemma AfterNext(l: Line, strokes: seq<Stroke>, i: nat)
    requires 0 <= l.index <= |l.history| && i < |strokes|
    ensures var st := strokes[i];
            After(l, strokes[..i + 1]) == Press(After(l, strokes[..i]), KeyOf(st.scancode, st.ascii, st.names))
  {
    assert strokes[..i + 1] == strokes[..i] + [strokes[i]];
    AfterSplit(l, strokes[..i], [strokes[i]]);
    AfterOne(After(l, strokes[..i]), strokes[i]);
  }

  /** Any run of strokes on the buffers. */
  method Play(w: CommandLine, strokes: seq<Stroke>)
    requires w.Valid() && Proper(strokes)
    modifies w, w.input, w.history
    ensures w.Valid() && w.State() == After(old(w.State()), strokes)
  {
    ghost var l := w.State();
    assert Keys(strokes[..0]) == [];
    var i := 0;
    while i < |strokes|
      invariant 0 <= i <= |strokes| && w.Valid() && w.State() == After(l, strokes[..i])
    {
      AfterNext(l, strokes, i);
      w.OnKeyDown(strokes[i].scancode, strokes[i].ascii, strokes[i].names);
      i := i + 1;
    }
    assert strokes[..i] == strokes;
  }

  /** Type lines at the first prompt, and press Up: the input buffer holds the line that is recalled. */
  method TypeLinesAndUp(ts: seq<seq<Byte>>, k: nat) returns (w: CommandLine)
    requires ProperLines(ts) && ts != [] && k > 0
    ensures w.Valid() && w.inputLen == |Recalled(ts, k)|
    ensures forall i :: 0 <= i < w.inputLen ==> w.input[i] == Recalled(ts, k)[i]
  {
    w := new CommandLine();
    UpAfterLines(ts, k);
    LinesProper(ts);
    Play(w, LineStrokes(ts) + Ups(k));
  }
}
