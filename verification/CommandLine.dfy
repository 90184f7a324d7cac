/** The input buffer and history arrays of src/core/gui/TerminalWindow.cpp, changed in place. */
module CommandLine {
  import opened Machine32
  import opened Bytes
  import opened LineEditing

  const BUFFER := 128

  // Scancodes
  const SC_BACKSPACE := 0x0E
  const SC_TAB := 0x0F
  const SC_ENTER := 0x1C
  const SC_UP := 0x48
  const SC_DOWN := 0x50

  /** Which key a scancode and character stand for; a NUL character is no text. */
  function KeyOf(scancode: int, ascii: Byte, names: seq<seq<Byte>>): Key {
    if scancode == SC_TAB then TabKey(names)
    else if scancode == SC_ENTER then EnterKey
    else if scancode == SC_BACKSPACE then BackspaceKey
    else if scancode == SC_UP then UpKey
    else if scancode == SC_DOWN then DownKey
    else TextKey(ascii)
  }

  lemma NotPrefix(name: seq<Byte>, partial: seq<Byte>, i: nat)
    requires i < |partial| && (i >= |name| || name[i] != partial[i])
    ensures !(partial <= name)
  {}

  /** `strncmp(name, partial, strlen(partial)) == 0`. */
  method StartsWith(name: seq<Byte>, partial: seq<Byte>) returns (b: bool)
    requires 0 !in name && 0 !in partial
    ensures b == (partial <= name)
  {
    var s1, s2 := name + [0], partial + [0];
    var n, i := |partial|, 0;
    while n > 0 && s1[i] != 0 && s1[i] == s2[i]
      invariant 0 <= i <= |name| && 0 <= n && i + n == |partial|
      invariant name[..i] == partial[..i]
      decreases n
    {
      assert name[..i + 1] == name[..i] + [s1[i]] && partial[..i + 1] == partial[..i] + [s2[i]];
      i := i + 1;
      n := n - 1;
    }
    if n == 0 {
      assert name[..i] == partial;
      return true;
    }
    assert s2[i] in partial;
    if i < |name| {
      assert s1[i] in name;
    }
    b := s1[i] == s2[i];
    NotPrefix(name, partial, i);
  }

  /** `GetAutocompleteSuggestion`, over the registered commands followed by the listed files. */
  method Suggest(names: seq<seq<Byte>>, partial: seq<Byte>) returns (r: Option<seq<Byte>>)
    requires ProperNames(names) && 0 !in partial && partial != []
    ensures r == Suggestion(names, partial)
  {
    var i := 0;
    while i < |names|
      invariant 0 <= i <= |names|
      invariant forall j :: 0 <= j < i ==> !(partial <= names[j])
    {
      var starts := StartsWith(names[i], partial);
      if starts {
        assert FirstWith(names, partial, 0) == i;
        return Some(names[i]);
      }
      i := i + 1;
    }
    r := None;
  }

  class CommandLine {
    const input: array<Byte>
    var inputLen: int
    var inputCursor: int
    const history: array2<Byte>
    var historyCount: int
    var historyIdx: int
    ghost var text: seq<Byte>
    ghost var lines: seq<seq<Byte>>

    ghost function State(): Line
      reads this
    {
      Line(text, lines, historyIdx)
    }

    /** Byte `i` of a zero-padded line. */
    static ghost function Padded(s: seq<Byte>, i: int): Byte {
      if 0 <= i < |s| then s[i] else 0
    }

    ghost predicate Holds(k: int, s: seq<Byte>)
      requires 0 <= k < MAX_HISTORY && history.Length0 == MAX_HISTORY && history.Length1 == BUFFER
      reads history
    {
      forall i :: 0 <= i < BUFFER ==> history[k, i] == Padded(s, i)
    }

    /** The cursor stands at the end of the text, zeros follow it, and each line is stored the same way. */
    ghost predicate Valid()
      reads this, input, history
    {
      && input.Length == BUFFER && history.Length0 == MAX_HISTORY && history.Length1 == BUFFER
      && input as object != history
      && LineEditing.Valid(State())
      && inputLen == inputCursor == |text|
      && (forall i :: 0 <= i < BUFFER ==> input[i] == Padded(text, i))
      && historyCount == |lines|
      && forall k :: 0 <= k < |lines| ==> Holds(k, lines[k])
    }

    constructor ()
      ensures Valid() && State() == Line([], [], 0) && fresh(input) && fresh(history)
    {
      input := new Byte[BUFFER](_ => 0);
      history := new Byte[MAX_HISTORY, BUFFER];
      inputLen, inputCursor, historyCount, historyIdx := 0, 0, 0, 0;
      text, lines := [], [];
    }

    /** A printable key. */
    method TypeChar(ascii: Byte)
      requires Valid()
      modifies this`inputLen, this`inputCursor, this`text, input
      ensures Valid() && text == Type(old(text), ascii)
    {
      if ascii != 0 {
        if inputLen < 120 {
          input[inputLen] := ascii;
          inputLen := inputLen + 1;
          inputCursor := inputCursor + 1;
          text := text + [ascii];
        }
      }
    }

    /** Remove the byte before `cursor` by moving the rest of the line down. */
    static method CloseGap(a: array<Byte>, cursor: int, len: int)
      requires 0 < cursor <= len <= a.Length
      modifies a
      ensures a[..len - 1] == old(a[..cursor - 1]) + old(a[cursor..len])
      ensures a[len..] == old(a[len..])
    {
      var i := cursor;
      while i < len
        invariant cursor <= i <= len
        invariant a[..i - 1] == old(a[..cursor - 1]) + old(a[cursor..i])
        invariant a[i..] == old(a[i..])
      {
        assert a[i] == old(a[i..])[0] && a[i + 1..] == old(a[i..])[1..];
        a[i - 1] := a[i];
        i := i + 1;
      }
    }

    method EraseChar()
      requires Valid()
      modifies this`inputLen, this`inputCursor, this`text, input
      ensures Valid() && text == Backspace(old(text))
    {
      if inputCursor > 0 {
        CloseGap(input, inputCursor, inputLen);
        assert input[..inputLen - 1] == old(input[..inputLen - 1]);
        inputLen := inputLen - 1;
        inputCursor := inputCursor - 1;
        input[inputLen] := 0;
        text := text[..inputLen];
      }
    }

    /** Backspace until the line is empty. */
    method EraseLine()
      requires Valid()
      modifies this`inputLen, this`inputCursor, this`text, input
      ensures Valid() && text == []
    {
      while inputLen > 0
        invariant Valid()
        decreases inputLen
      {
        EraseChar();
      }
    }

    /** Type a remembered line, up to its NUL. */
    method Recall(k: int)
      requires Valid() && text == [] && 0 <= k < |lines|
      modifies this`inputLen, this`inputCursor, this`text, input
      ensures Valid() && text == lines[k]
    {
      ghost var l := lines[k];
      assert Holds(k, l) && IsText(l);
      assert forall d :: 0 <= d < |l| ==> l[d] in l;
      assert forall d :: 0 <= d < BUFFER ==> history[k, d] == Padded(l, d);
      var i := 0;
      while i < 128 && history[k, i] != 0
        invariant 0 <= i <= |l| && Valid() && text == l[..i]
        invariant forall d :: 0 <= d < BUFFER ==> history[k, d] == Padded(l, d)
        decreases |l| - i
      {
        TypeChar(history[k, i]);
        assert l[..i + 1] == l[..i] + [l[i]];
        i := i + 1;
      }
    }

    method KeyUp()
      requires Valid()
      modifies this, input
      ensures Valid() && State() == Up(old(State()))
    {
      if historyCount > 0 {
        if historyIdx > 0 {
          historyIdx := historyIdx - 1;
        }
        EraseLine();
        Recall(historyIdx);
      }
    }

    method KeyDown()
      requires Valid()
      modifies this, input
      ensures Valid() && State() == Down(old(State()))
    {
      if historyIdx < historyCount {
        historyIdx := historyIdx + 1;
        EraseLine();
        if historyIdx < historyCount {
          Recall(historyIdx);
        }
      }
    }

    /** Copy the input buffer to history row `k`. */
    method StoreLine(k: int)
      requires Valid() && 0 <= k < MAX_HISTORY
      modifies history
      ensures Holds(k, text)
      ensures forall j, i :: 0 <= j < MAX_HISTORY && j != k && 0 <= i < BUFFER ==> history[j, i] == old(history[j, i])
    {
      var i := 0;
      while i < 128
        invariant 0 <= i <= 128
        invariant forall d :: 0 <= d < i ==> history[k, d] == Padded(text, d)
        invariant forall j, d :: 0 <= j < MAX_HISTORY && j != k && 0 <= d < BUFFER ==> history[j, d] == old(history[j, d])
        invariant forall d :: 0 <= d < BUFFER ==> input[d] == Padded(text, d)
      {
        history[k, i] := input[i];
        i := i + 1;
      }
    }

    method CopyRow(j: int)
      requires history.Length0 == MAX_HISTORY && history.Length1 == BUFFER && 0 < j < MAX_HISTORY
      modifies history
      ensures forall i :: 0 <= i < BUFFER ==> history[j - 1, i] == old(history[j, i])
      ensures forall k, i :: 0 <= k < MAX_HISTORY && k != j - 1 && 0 <= i < BUFFER ==> history[k, i] == old(history[k, i])
    {
      var i := 0;
      while i < 128
        invariant 0 <= i <= 128
        invariant forall d :: 0 <= d < i ==> history[j - 1, d] == old(history[j, d])
        invariant forall k, d :: 0 <= k < MAX_HISTORY && k != j - 1 && 0 <= d < BUFFER ==> history[k, d] == old(history[k, d])
      {
        history[j - 1, i] := history[j, i];
        i := i + 1;
      }
    }

    /** Move rows 1..9 up by one. */
    method ShiftHistory()
      requires history.Length0 == MAX_HISTORY && history.Length1 == BUFFER
      modifies history
      ensures forall k, i :: 0 <= k < MAX_HISTORY - 1 && 0 <= i < BUFFER ==> history[k, i] == old(history[k + 1, i])
    {
      var j := 1;
      while j < 10
        invariant 1 <= j <= 10
        invariant forall k, i :: 0 <= k < j - 1 && 0 <= i < BUFFER ==> history[k, i] == old(history[k + 1, i])
        invariant forall k, i :: j - 1 <= k < MAX_HISTORY && 0 <= i < BUFFER ==> history[k, i] == old(history[k, i])
      {
        CopyRow(j);
        j := j + 1;
      }
    }

    /** Overwrite the last row, with the other nine in place. */
    method StoreLast(ghost kept: seq<seq<Byte>>)
      requires input.Length == BUFFER && history.Length0 == MAX_HISTORY && history.Length1 == BUFFER
      requires input as object != history && |kept| == 9 && historyCount == 10 && 0 <= historyIdx <= MAX_HISTORY
      requires IsText(text) && text != [] && inputLen == inputCursor == |text|
      requires forall i :: 0 <= i < BUFFER ==> input[i] == Padded(text, i)
      requires forall k :: 0 <= k < 9 ==> IsText(kept[k]) && kept[k] != []
      requires forall k :: 0 <= k < 9 ==> Holds(k, kept[k])
      modifies this`lines, history
      ensures Valid() && lines == kept + [text]
    {
      var i := 0;
      while i < 128
        invariant 0 <= i <= 128
        invariant forall d :: 0 <= d < i ==> history[9, d] == Padded(text, d)
        invariant forall j, d :: 0 <= j < 9 && 0 <= d < BUFFER ==> history[j, d] == old(history[j, d])
        invariant forall d :: 0 <= d < BUFFER ==> input[d] == Padded(text, d)
      {
        history[9, i] := input[i];
        i := i + 1;
      }
      lines := kept + [text];
      forall k | 0 <= k < MAX_HISTORY ensures Holds(k, lines[k]) {
        if k < 9 { assert old(Holds(k, kept[k])); }
      }
    }

    /** Remember the line that is about to be executed. */
    method Remember()
      requires Valid() && text != []
      modifies this`historyCount, this`historyIdx, this`lines, history
      ensures Valid() && text == old(text)
      ensures lines == Last(old(lines) + [text], MAX_HISTORY) && historyIdx == |lines|
    {
      ghost var before := lines;
      if historyCount < 10 {
        StoreLine(historyCount);
        historyCount := historyCount + 1;
        lines := lines + [text];
        forall k | 0 <= k < |lines| ensures Holds(k, lines[k]) {
          if k < |before| { assert old(Holds(k, before[k])); }
        }
      } else {
        ShiftHistory();
        ghost var kept := before[1..];
        forall k | 0 <= k < MAX_HISTORY - 1 ensures Holds(k, kept[k]) {
          assert old(Holds(k + 1, before[k + 1]));
        }
        StoreLast(kept);
      }
      historyIdx := historyCount;
    }

    method Prompt()
      requires Valid()
      modifies this`inputLen, this`inputCursor, this`text, input
      ensures Valid() && text == []
    {
      var i := 0;
      while i < 128
        invariant 0 <= i <= 128 && forall d :: 0 <= d < i ==> input[d] == 0
      {
        input[i] := 0;
        i := i + 1;
      }
      inputLen := 0;
      inputCursor := 0;
      text := [];
    }

    /** Enter: remember a non-empty line, hand it to the shell, and show an empty prompt. */
    method Execute()
      requires Valid()
      modifies this, input, history
      ensures Valid() && State() == Enter(old(State()))
    {
      if inputLen == 0 {
        Prompt();
        return;
      }
      Remember();
      Prompt();
    }

    /** The last word starts behind the last space. */
    static lemma WordAt(s: seq<Byte>, start: int)
      requires 0 <= start <= |s|
      requires forall d :: start <= d < |s| ==> s[d] != SPACE
      requires start > 0 ==> s[start - 1] == SPACE
      ensures LastWord(s) == s[start..]
    {
      assert WordStart(s, |s|) == start;
    }

    /** Where the last word starts. */
    method FindStart() returns (start: int)
      requires Valid() && inputLen > 0
      ensures 0 <= start <= |text| && LastWord(text) == text[start..]
    {
      start := 0;
      var i := inputLen - 1;
      while i >= 0
        invariant -1 <= i < inputLen && start == 0
        invariant forall d :: i < d < inputLen ==> text[d] != SPACE
      {
        assert input[i] == Padded(text, i);
        if input[i] == SPACE {
          start := i + 1;
          break;
        }
        i := i - 1;
      }
      WordAt(text, start);
    }

    static lemma PrefixText(s: seq<Byte>)
      requires 0 !in s
      ensures 0 !in Prefix(s)
    {
      var p, w := Prefix(s), LastWord(s);
      forall i | 0 <= i < |p| ensures p[i] != 0 {
        assert p[i] == w[i] == s[|s| - |w|..][i] == s[|s| - |w| + i];
      }
    }

    /** The prefix that completion looks up. */
    method FindPrefix() returns (prefix: seq<Byte>)
      requires Valid() && inputLen > 0
      ensures prefix == Prefix(text) && 0 !in prefix
    {
      var start := FindStart();
      prefix := [];
      var i := start;
      while i < inputLen && |prefix| < 63
        invariant start <= i <= inputLen && |prefix| == i - start <= 63
        invariant prefix == text[start..][..i - start]
      {
        assert input[i] == Padded(text, i);
        assert text[start..][..i + 1 - start] == text[start..][..i - start] + [input[i]];
        prefix := prefix + [input[i]];
        i := i + 1;
      }
      PrefixText(text);
    }

    /** Type `name` over the last `erase` bytes, or nothing: that is what Tab does to `s`. */
    static ghost predicate IsCompletion(s: seq<Byte>, names: seq<seq<Byte>>, erase: nat, name: Option<seq<Byte>>) {
      match name
      case None => Tab(s, names) == s
      case Some(n) => erase <= |s| && 0 !in n && Tab(s, names) == Clip(s[..|s| - erase] + n)
    }

    static lemma TabCases(s: seq<Byte>, names: seq<seq<Byte>>)
      requires IsText(s) && ProperNames(names) && Prefix(s) != []
      ensures Tab(s, names) ==
              match Suggestion(names, Prefix(s))
              case None => s
              case Some(name) => Clip(s[..|s| - |Prefix(s)|] + name)
      ensures Suggestion(names, Prefix(s)).Some? ==> 0 !in Suggestion(names, Prefix(s)).value
    {
      if Suggestion(names, Prefix(s)).Some? {
        TabText(s, names, Prefix(s));
        SuggestedText(names, Prefix(s));
      }
    }

    static method CompletionOf(ghost s: seq<Byte>, prefix: seq<Byte>, names: seq<seq<Byte>>) returns (name: Option<seq<Byte>>)
      requires IsText(s) && ProperNames(names) && prefix == Prefix(s) && 0 !in prefix
      ensures IsCompletion(s, names, |prefix|, name)
    {
      name := None;
      if |prefix| > 0 {
        TabCases(s, names);
        name := Suggest(names, prefix);
      }
    }

    method EraseTimes(n: nat)
      requires Valid() && n <= |text|
      modifies this`inputLen, this`inputCursor, this`text, input
      ensures Valid() && text == old(text)[..|old(text)| - n]
    {
      ghost var before := text;
      var i := 0;
      while i < n
        invariant 0 <= i <= n && Valid() && text == before[..|before| - i]
      {
        EraseChar();
        i := i + 1;
      }
    }

    method TypeString(s: seq<Byte>)
      requires Valid() && 0 !in s
      modifies this`inputLen, this`inputCursor, this`text, input
      ensures Valid() && text == Clip(old(text) + s)
    {
      ghost var front := text;
      assert forall k :: 0 <= k < |s| ==> s[k] in s;
      assert front + s[..0] == front;
      var i := 0;
      while i < |s|
        invariant 0 <= i <= |s| && Valid() && text == Clip(front + s[..i])
      {
        TypeChar(s[i]);
        ClipNext(front, s, i);
        i := i + 1;
      }
      assert s[..i] == s;
    }

    method Replace(erase: nat, name: seq<Byte>)
      requires Valid() && erase <= |text| && 0 !in name
      modifies this`inputLen, this`inputCursor, this`text, input
      ensures Valid() && text == Clip(old(text)[..|old(text)| - erase] + name)
    {
      EraseTimes(erase);
      TypeString(name);
    }

    /** Tab: erase the prefix and type the suggested name. */
    method Complete(names: seq<seq<Byte>>)
      requires Valid() && ProperNames(names)
      modifies this`inputLen, this`inputCursor, this`text, input
      ensures Valid() && text == Tab(old(text), names)
    {
      if inputLen > 0 {
        var prefix := FindPrefix();
        var name := CompletionOf(text, prefix, names);
        if name.Some? {
          Replace(|prefix|, name.value);
        }
      }
    }

    /** `OnKeyDown` in shell mode, with `names` the commands and files completion would find. */
    method OnKeyDown(scancode: int, ascii: Byte, names: seq<seq<Byte>>)
      requires Valid() && ProperNames(names)
      modifies this, input, history
      ensures Valid() && State() == Press(old(State()), KeyOf(scancode, ascii, names))
    {
      if scancode == SC_TAB { Complete(names); return; }
      if scancode == SC_ENTER { Execute(); return; }
      if scancode == SC_BACKSPACE { EraseChar(); return; }
      if scancode == SC_UP { KeyUp(); return; }
      if scancode == SC_DOWN { KeyDown(); return; }
      TypeChar(ascii);
    }
  }
}
