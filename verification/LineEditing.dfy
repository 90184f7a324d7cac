/** The command line, its history and its completion, as values (src/core/gui/TerminalWindow.cpp). */
module LineEditing {
  import opened Machine32
  import opened Bytes

  const MAX_LINE := 120
  const MAX_HISTORY := 10
  const MAX_PREFIX := 63
  const SPACE: Byte := 0x20

  /** The line being typed, the remembered lines, oldest first, and the position among them. */
  datatype Line = Line(text: seq<Byte>, history: seq<seq<Byte>>, index: int)

  predicate IsText(s: seq<Byte>) { |s| <= MAX_LINE && 0 !in s }

  ghost predicate Valid(l: Line) {
    && IsText(l.text)
    && |l.history| <= MAX_HISTORY
    && (forall k :: 0 <= k < |l.history| ==> IsText(l.history[k]) && l.history[k] != [])
    && 0 <= l.index <= |l.history|
  }

  function Last(lines: seq<seq<Byte>>, n: nat): seq<seq<Byte>> {
    if |lines| <= n then lines else lines[|lines| - n..]
  }

  // ----- Keys -----

  function Type(s: seq<Byte>, c: Byte): seq<Byte> {
    if c != 0 && |s| < MAX_LINE then s + [c] else s
  }

  function TypeAll(s: seq<Byte>, t: seq<Byte>): seq<Byte>
    decreases |t|
  {
    if t == [] then s else TypeAll(Type(s, t[0]), t[1..])
  }

  function Backspace(s: seq<Byte>): seq<Byte> {
    if s == [] then s else s[..|s| - 1]
  }

  function Enter(l: Line): Line {
    if l.text == [] then l
    else
      var history := Last(l.history + [l.text], MAX_HISTORY);
      Line([], history, |history|)
  }

  function Up(l: Line): Line
    requires 0 <= l.index <= |l.history|
  {
    if l.history == [] then l
    else
      var i := if l.index > 0 then l.index - 1 else 0;
      l.(text := l.history[i], index := i)
  }

  function Down(l: Line): Line
    requires 0 <= l.index <= |l.history|
  {
    if l.index == |l.history| then l
    else
      var i := l.index + 1;
      l.(text := if i < |l.history| then l.history[i] else [], index := i)
  }

  // ----- Completion -----

  /** Where the word that ends at `i` starts: behind the last space. */
  function WordStart(s: seq<Byte>, i: nat): (r: nat)
    requires i <= |s|
    ensures r <= i && (r > 0 ==> s[r - 1] == SPACE)
    ensures forall k :: r <= k < i ==> s[k] != SPACE
  {
    if i == 0 || s[i - 1] == SPACE then i else WordStart(s, i - 1)
  }

  /** The word behind the last space. */
  function LastWord(s: seq<Byte>): (w: seq<Byte>)
    ensures |w| <= |s| && s[|s| - |w|..] == w
  {
    s[WordStart(s, |s|)..]
  }

  function Shortened(w: seq<Byte>): (p: seq<Byte>)
    ensures p <= w && |p| <= MAX_PREFIX
  {
    if |w| <= MAX_PREFIX then w else w[..MAX_PREFIX]
  }

  /** At most 63 bytes of the last word are looked up. */
  function Prefix(s: seq<Byte>): (p: seq<Byte>)
    ensures |p| <= MAX_PREFIX && |p| <= |s|
  {
    Shortened(LastWord(s))
  }

  /** The index of the first name from `i` on that starts with `partial`, or the number of names. */
  function FirstWith(names: seq<seq<Byte>>, partial: seq<Byte>, i: nat): (r: nat)
    requires i <= |names|
    ensures i <= r <= |names|
    ensures r < |names| ==> partial <= names[r]
    ensures forall j :: i <= j < r ==> !(partial <= names[j])
    decreases |names| - i
  {
    if i == |names| || partial <= names[i] then i else FirstWith(names, partial, i + 1)
  }

  /** The completion of `partial`: commands are listed first, then files. */
  function Suggestion(names: seq<seq<Byte>>, partial: seq<Byte>): (r: Option<seq<Byte>>)
    ensures r.Some? ==> partial <= r.value
  {
    var i := FirstWith(names, partial, 0);
    if i < |names| then Some(names[i]) else None
  }

  /** Names are C strings. */
  predicate ProperNames(names: seq<seq<Byte>>) { forall i :: 0 <= i < |names| ==> 0 !in names[i] }

  /** The line with the first name that starts with `p` in place of its last |p| bytes. */
  function Completed(s: seq<Byte>, names: seq<seq<Byte>>, p: seq<Byte>): seq<Byte>
    requires |p| <= |s|
  {
    if p == [] then s
    else
      match Suggestion(names, p)
      case None => s
      case Some(name) => TypeAll(s[..|s| - |p|], name)
  }

  function Tab(s: seq<Byte>, names: seq<seq<Byte>>): seq<Byte> { Completed(s, names, Prefix(s)) }

  // ----- Laws -----

  /** A line holds no more than `MAX_LINE` bytes. */
  function Clip(s: seq<Byte>): (r: seq<Byte>)
    ensures r <= s
  {
    if |s| <= MAX_LINE then s else s[..MAX_LINE]
  }

  lemma ClipStep(s: seq<Byte>, c: Byte, rest: seq<Byte>)
    requires c != 0 && |s| <= MAX_LINE
    ensures Clip(Type(s, c) + rest) == Clip(s + ([c] + rest))
  {
    assert s + ([c] + rest) == (s + [c]) + rest;
  }

  lemma ClipNext(front: seq<Byte>, t: seq<Byte>, i: nat)
    requires i < |t| && t[i] != 0
    ensures Type(Clip(front + t[..i]), t[i]) == Clip(front + t[..i + 1])
  {
    assert front + t[..i + 1] == front + t[..i] + [t[i]];
  }

  lemma {:induction false} TypeAllAppends(s: seq<Byte>, t: seq<Byte>)
    requires 0 !in t && |s| <= MAX_LINE
    ensures TypeAll(s, t) == Clip(s + t)
    decreases |t|
  {
    if t != [] {
      assert t[0] in t && 0 !in t[1..];
      TypeAllAppends(Type(s, t[0]), t[1..]);
      ClipStep(s, t[0], t[1..]);
      assert [t[0]] + t[1..] == t;
    } else {
      assert s + t == s;
    }
  }

  lemma SuggestedText(names: seq<seq<Byte>>, partial: seq<Byte>)
    requires ProperNames(names) && Suggestion(names, partial).Some?
    ensures 0 !in Suggestion(names, partial).value
  {
    assert 0 !in names[FirstWith(names, partial, 0)];
  }

  lemma ClipText(s: seq<Byte>, k: nat, name: seq<Byte>)
    requires 0 !in s && k <= |s| && 0 !in name
    ensures IsText(Clip(s[..k] + name))
  {}

  /** A completion types the suggested name in place of the looked-up prefix `p`. */
  lemma TabText(s: seq<Byte>, names: seq<seq<Byte>>, p: seq<Byte>)
    requires IsText(s) && ProperNames(names)
    requires p != [] && |p| <= |s| && Suggestion(names, p).Some?
    ensures Completed(s, names, p) == Clip(s[..|s| - |p|] + Suggestion(names, p).value)
    ensures IsText(Completed(s, names, p))
  {
    var name := Suggestion(names, p).value;
    SuggestedText(names, p);
    TypeAllAppends(s[..|s| - |p|], name);
    ClipText(s, |s| - |p|, name);
  }

  /** A line's worth of retyped text starts with the kept part and the prefix. */
  lemma RetypedStart(s: seq<Byte>, k: nat, p: seq<Byte>, name: seq<Byte>)
    requires k + |p| == |s| <= MAX_LINE && p <= name
    ensures |s| <= |Clip(s[..k] + name)| && Clip(s[..k] + name)[..|s|] == s[..k] + p
  {
    assert (s[..k] + name)[..|s|] == s[..k] + name[..|p|];
  }

  lemma Differ(front: seq<Byte>, a: seq<Byte>, b: seq<Byte>)
    requires a != b
    ensures front + a != front + b
  {
    assert (front + a)[|front|..] == a && (front + b)[|front|..] == b;
  }

  /** Retyping the end of a text from position `k` on keeps it exactly when the end is `p`. */
  lemma ReplaceEnd(s: seq<Byte>, k: nat, p: seq<Byte>, name: seq<Byte>)
    requires k + |p| == |s| <= MAX_LINE && p <= name
    ensures s <= Clip(s[..k] + name) <==> s[k..] == p
  {
    RetypedStart(s, k, p, name);
    assert s == s[..k] + s[k..];
    if s[k..] != p {
      Differ(s[..k], s[k..], p);
    }
  }

  /** With a suggestion the line is kept exactly when the looked-up prefix is its end. */
  lemma TabReplaces(s: seq<Byte>, names: seq<seq<Byte>>, p: seq<Byte>)
    requires IsText(s) && ProperNames(names) && |p| <= |s|
    ensures s <= Completed(s, names, p) <==> p == [] || Suggestion(names, p).None? || s[|s| - |p|..] == p
  {
    if p != [] && Suggestion(names, p).Some? {
      TabText(s, names, p);
      ReplaceEnd(s, |s| - |p|, p, Suggestion(names, p).value);
    }
  }

  lemma EndOfWord(s: seq<Byte>, w: seq<Byte>, n: nat)
    requires n <= |w| <= |s| && s[|s| - |w|..] == w
    ensures s[|s| - n..] == w[|w| - n..]
  {
    assert s[|s| - |w|..][|w| - n..] == s[|s| - n..];
  }

  /** The end of a line behind a word: the whole word, or its last 63 bytes. */
  lemma WordEnd(s: seq<Byte>, w: seq<Byte>)
    requires |w| <= |s| && s[|s| - |w|..] == w
    ensures s[|s| - |Shortened(w)|..] == Shortened(w) <==> |w| <= MAX_PREFIX || w[..MAX_PREFIX] == w[|w| - MAX_PREFIX..]
  {
    EndOfWord(s, w, |Shortened(w)|);
    assert w[|w| - |w|..] == w;
  }

  lemma WordExtends(s: seq<Byte>, names: seq<seq<Byte>>, w: seq<Byte>)
    requires IsText(s) && ProperNames(names) && |w| <= |s| && s[|s| - |w|..] == w
    ensures s <= Completed(s, names, Shortened(w)) <==>
              (|w| <= MAX_PREFIX || Suggestion(names, Shortened(w)).None? || w[..MAX_PREFIX] == w[|w| - MAX_PREFIX..])
  {
    TabReplaces(s, names, Shortened(w));
    WordEnd(s, w);
  }

  /**
    Completion keeps what has been typed, for every last word of up to 63 bytes; for a
    longer one, exactly when there is no suggestion or the word's first 63 bytes are also its
    last ones.
  */
  lemma TabExtends(s: seq<Byte>, names: seq<seq<Byte>>)
    requires IsText(s) && ProperNames(names)
    ensures var w := LastWord(s);
            s <= Tab(s, names) <==>
              (|w| <= MAX_PREFIX || Suggestion(names, Prefix(s)).None? || w[..MAX_PREFIX] == w[|w| - MAX_PREFIX..])
  {
    WordExtends(s, names, LastWord(s));
  }

  lemma {:induction false} NoSpace(s: seq<Byte>, i: nat)
    requires i <= |s| && forall k :: 0 <= k < i ==> s[k] != SPACE
    ensures WordStart(s, i) == 0
  {
    if i > 0 {
      NoSpace(s, i - 1);
    }
  }

  lemma OnlyName(name: seq<Byte>)
    ensures Suggestion([name], name) == Some(name)
  {}

  /** A completed word that has one byte more than the looked-up prefix. */
  lemma TabShifts(s: seq<Byte>, names: seq<seq<Byte>>, p: seq<Byte>)
    requires IsText(s) && ProperNames(names) && p != [] && |s| == |p| + 1 && Suggestion(names, p) == Some(p)
    ensures Completed(s, names, p) == s[..1] + p
  {
    TabText(s, names, p);
  }

  lemma LongPrefix(s: seq<Byte>, p: seq<Byte>, last: Byte)
    requires |p| == MAX_PREFIX && s == p + [last] && forall k :: 0 <= k < |s| ==> s[k] != SPACE
    ensures Prefix(s) == p
  {
    NoSpace(s, |s|);
    assert s[0..] == s;
  }

  lemma LastDiffers(s: seq<Byte>, t: seq<Byte>, i: nat)
    requires i < |s| && i < |t| && s[i] != t[i]
    ensures !(s <= t)
  {}

  /** A word of 63 times `c` and another byte, completed by a name of 63 times `c`: the other byte is gone. */
  lemma TabLosesByte(c: Byte, last: Byte, name: seq<Byte>)
    requires c != 0 && c != SPACE && last != 0 && last != SPACE && last != c
    requires |name| == MAX_PREFIX && forall k :: 0 <= k < MAX_PREFIX ==> name[k] == c
    ensures Tab(name + [last], [name]) == [c] + name && !(name + [last] <= [c] + name)
  {
    var s := name + [last];
    LongPrefix(s, name, last);
    OnlyName(name);
    TabShifts(s, [name], name);
    assert s[..1] == [c];
    LastDiffers(s, [c] + name, MAX_PREFIX);
  }

  function UpTimes(l: Line, k: nat): (r: Line)
    requires 0 <= l.index <= |l.history|
    ensures 0 <= r.index <= |r.history| && r.history == l.history
    decreases k
  {
    if k == 0 then l else Up(UpTimes(l, k - 1))
  }

  /** On a fresh prompt, Up k times recalls the k-th most recent line, or the oldest. */
  lemma {:induction false} UpRecalls(l: Line, k: nat)
    requires l.index == |l.history| > 0 && k > 0
    ensures var i := if k <= |l.history| then |l.history| - k else 0;
            UpTimes(l, k).index == i && UpTimes(l, k).text == l.history[i]
  {
    if k > 1 {
      UpRecalls(l, k - 1);
    } else {
      assert UpTimes(l, 0) == l;
    }
  }

  function DownTimes(l: Line, k: nat): (r: Line)
    requires 0 <= l.index <= |l.history|
    ensures 0 <= r.index <= |r.history| && r.history == l.history
    decreases k
  {
    if k == 0 then l else DownTimes(Down(l), k - 1)
  }

  /** After going up, the same number of Down keys leads back to an empty line. */
  lemma {:induction false} DownUndoesUp(l: Line, k: nat)
    requires l.index == |l.history| && k <= |l.history|
    ensures DownTimes(UpTimes(l, k), k) == l.(text := if k == 0 then l.text else [])
  {
    if k > 0 {
      UpRecalls(l, k);
      var u := UpTimes(l, k);
      if k > 1 {
        UpRecalls(l, k - 1);
        assert Down(u) == UpTimes(l, k - 1);
        DownUndoesUp(l, k - 1);
      } else {
        assert DownTimes(Down(u), 0) == Down(u);
      }
    }
  }

  // ----- Runs -----

  datatype Key = TextKey(c: Byte) | BackspaceKey | EnterKey | UpKey | DownKey | TabKey(names: seq<seq<Byte>>)

  predicate ProperKey(k: Key) { k.TabKey? ==> ProperNames(k.names) }

  function Press(l: Line, k: Key): Line
    requires 0 <= l.index <= |l.history|
  {
    match k
    case TextKey(c) => l.(text := Type(l.text, c))
    case BackspaceKey => l.(text := Backspace(l.text))
    case EnterKey => Enter(l)
    case UpKey => Up(l)
    case DownKey => Down(l)
    case TabKey(names) => l.(text := Tab(l.text, names))
  }

  lemma PressValid(l: Line, k: Key)
    requires Valid(l) && ProperKey(k)
    ensures Valid(Press(l, k))
  {
    if k.TabKey? && Prefix(l.text) != [] && Suggestion(k.names, Prefix(l.text)).Some? {
      TabText(l.text, k.names, Prefix(l.text));
    }
  }

  /** The line, if any, that a key enters. */
  function EnteredBy(l: Line, k: Key): seq<seq<Byte>> {
    if k.EnterKey? && l.text != [] then [l.text] else []
  }

  /** The non-empty lines entered during a run, in order. */
  function Entered(l: Line, keys: seq<Key>): seq<seq<Byte>>
    requires 0 <= l.index <= |l.history|
    decreases |keys|
  {
    if keys == [] then [] else EnteredBy(l, keys[0]) + Entered(Press(l, keys[0]), keys[1..])
  }

  function PressAll(l: Line, keys: seq<Key>): (r: Line)
    requires 0 <= l.index <= |l.history|
    ensures 0 <= r.index <= |r.history|
    decreases |keys|
  {
    if keys == [] then l else PressAll(Press(l, keys[0]), keys[1..])
  }

  lemma LastOfLast(a: seq<seq<Byte>>, b: seq<seq<Byte>>, n: nat)
    ensures Last(Last(a, n) + b, n) == Last(a + b, n)
  {}

  lemma PressHistory(l: Line, k: Key)
    requires Valid(l)
    ensures Press(l, k).history == Last(l.history + EnteredBy(l, k), MAX_HISTORY)
  {
    assert l.history + [] == l.history;
  }

  /** The history is always the last ten non-empty lines that were entered. */
  lemma {:induction false} HistoryKeepsLast(l: Line, keys: seq<Key>)
    requires Valid(l) && forall k :: k in keys ==> ProperKey(k)
    ensures Valid(PressAll(l, keys))
    ensures PressAll(l, keys).history == Last(l.history + Entered(l, keys), MAX_HISTORY)
    decreases |keys|
  {
    if keys == [] {
      assert l.history + [] == l.history;
    } else {
      assert keys[0] in keys;
      PressValid(l, keys[0]);
      PressHistory(l, keys[0]);
      HistoryKeepsLast(Press(l, keys[0]), keys[1..]);
      var now, later := EnteredBy(l, keys[0]), Entered(Press(l, keys[0]), keys[1..]);
      LastOfLast(l.history + now, later, MAX_HISTORY);
      assert l.history + now + later == l.history + (now + later);
    }
  }
}
