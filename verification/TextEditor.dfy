/** src/core/shell/Editor.cpp and the file commands of src/core/shell/shell.cpp, over the virtual files. */
module TextEditing {
  import opened Machine32
  import opened Bytes

  const MAX_TEXT := 10239

  /** The text before the cursor and the text behind it. */
  datatype Gap = Gap(before: seq<Byte>, after: seq<Byte>) {
    function Text(): seq<Byte> { before + after }
  }

  datatype Key = LeftKey | RightKey | EraseKey | InsertKey(c: Byte)

  function Press(g: Gap, k: Key): Gap {
    match k
    case LeftKey =>
      if g.before == [] then g else Gap(g.before[..|g.before| - 1], [g.before[|g.before| - 1]] + g.after)
    case RightKey =>
      if g.after == [] then g else Gap(g.before + [g.after[0]], g.after[1..])
    case EraseKey =>
      if g.before == [] then g else Gap(g.before[..|g.before| - 1], g.after)
    case InsertKey(c) =>
      if c == 0 || |g.before| + |g.after| >= MAX_TEXT then g else Gap(g.before + [c], g.after)
  }

  function PressAll(g: Gap, keys: seq<Key>): Gap
    decreases |keys|
  {
    if keys == [] then g else PressAll(Press(g, keys[0]), keys[1..])
  }

  /** What the buffer can hold: no NUL, and room for one behind it. */
  predicate Proper(g: Gap) { |g.before| + |g.after| <= MAX_TEXT && 0 !in g.before && 0 !in g.after }

  lemma PressProper(g: Gap, k: Key)
    requires Proper(g)
    ensures Proper(Press(g, k))
    ensures k.LeftKey? || k.RightKey? ==> Press(g, k).Text() == g.Text()
  {
    if k.LeftKey? && g.before != [] {
      var n := |g.before| - 1;
      assert g.before == g.before[..n] + [g.before[n]] && g.before[n] in g.before;
    }
    if k.RightKey? && g.after != [] {
      assert g.after == [g.after[0]] + g.after[1..] && g.after[0] in g.after;
    }
  }

  /** Over every key sequence the text stays NUL-free and shorter than its buffer. */
  lemma {:induction false} PressAllProper(g: Gap, keys: seq<Key>)
    requires Proper(g)
    ensures Proper(PressAll(g, keys))
    decreases |keys|
  {
    if keys != [] {
      PressProper(g, keys[0]);
      PressAllProper(Press(g, keys[0]), keys[1..]);
    }
  }

  function Inserts(s: seq<Byte>): seq<Key> {
    if s == [] then [] else [InsertKey(s[0])] + Inserts(s[1..])
  }

  function Erases(n: nat): seq<Key> { seq(n, _ => EraseKey) }

  lemma {:induction false} PressSplit(g: Gap, xs: seq<Key>, ys: seq<Key>)
    ensures PressAll(g, xs + ys) == PressAll(PressAll(g, xs), ys)
    decreases |xs|
  {
    if xs == [] {
      assert xs + ys == ys;
    } else {
      PressSplit(Press(g, xs[0]), xs[1..], ys);
      assert (xs + ys)[1..] == xs[1..] + ys;
    }
  }

  /** Typing puts the typed text between the two halves. */
  lemma {:induction false} TypingInserts(g: Gap, s: seq<Byte>)
    requires Proper(g) && 0 !in s && |g.before| + |g.after| + |s| <= MAX_TEXT
    ensures PressAll(g, Inserts(s)) == Gap(g.before + s, g.after)
    decreases |s|
  {
    if s == [] {
      assert g.before + s == g.before;
    } else {
      assert s[0] in s && 0 !in s[1..];
      PressProper(g, InsertKey(s[0]));
      TypingInserts(Press(g, InsertKey(s[0])), s[1..]);
      assert g.before + [s[0]] + s[1..] == g.before + s;
      assert Inserts(s)[1..] == Inserts(s[1..]);
    }
  }

  lemma {:induction false} ErasingRemoves(before: seq<Byte>, s: seq<Byte>, after: seq<Byte>)
    ensures PressAll(Gap(before + s, after), Erases(|s|)) == Gap(before, after)
    decreases |s|
  {
    if s == [] {
      assert before + s == before;
    } else {
      var n := |s| - 1;
      assert (before + s)[..|before| + n] == before + s[..n];
      assert Erases(|s|)[1..] == Erases(n);
      ErasingRemoves(before, s[..n], after);
    }
  }

  /** As many backspaces as typed characters undo the typing, wherever the cursor was. */
  lemma BackspaceUndoesTyping(g: Gap, s: seq<Byte>)
    requires Proper(g) && 0 !in s && |g.before| + |g.after| + |s| <= MAX_TEXT
    ensures PressAll(g, Inserts(s) + Erases(|s|)) == g
  {
    PressSplit(g, Inserts(s), Erases(|s|));
    TypingInserts(g, s);
    ErasingRemoves(g.before, s, g.after);
  }
}

module FileCommands {
  import opened Machine32
  import opened Bytes
  import opened CStrings
  import opened Ext4Layout
  import opened VirtualFiles
  import opened Ext4

  const COPY_BUFFER := 20480

  lemma {:induction false} CStrIsPrefix(c: seq<Byte>)
    ensures CStr(c) <= c && (|CStr(c)| < |c| ==> c[|CStr(c)|] == 0)
  {
    if c != [] && c[0] != 0 {
      CStrIsPrefix(c[1..]);
      assert c == [c[0]] + c[1..];
    }
  }

  /** A buffer that holds `c` and a NUL holds the C string of `c`. */
  lemma BufferHoldsCStr(buf: seq<Byte>, c: seq<Byte>)
    requires |c| < |buf| && buf[..|c|] == c && buf[|c|] == 0
    ensures Str(buf, CStr(c))
  {
    CStrIsPrefix(c);
    var s := CStr(c);
    assert buf[0..0 + |s|] == c[..|s|];
    assert |s| < |c| ==> buf[|s|] == c[|s|];
  }

  /** Read a file into a new buffer and take the string's length. */
  method ReadString(fs: FileSystem, src: Name) returns (buf: array<Byte>, len: nat)
    requires fs.Mounted() && fs.Valid() && fs.Readable(src) && |fs.ReadContent(src)| < COPY_BUFFER
    ensures fresh(buf) && len <= buf.Length && buf[..len] == CStr(fs.ReadContent(src))
  {
    ghost var c := fs.ReadContent(src);
    buf := new Byte[COPY_BUFFER];
    fs.ReadFile(src, buf);
    BufferHoldsCStr(buf[..], c);
    len := StrLen(buf, CStr(c));
    assert buf[..][0..0 + len] == CStr(c);
  }

  /** `cp`: the destination gets the C string in front of what the source reads as. */
  method CmdCp(fs: FileSystem, src: Name, dest: Name)
    requires fs.Mounted() && fs.Valid() && fs.Readable(src) && |fs.ReadContent(src)| < COPY_BUFFER
    requires Has(fs.files, dest) || !OnDiskList(fs.listing, dest)
    modifies fs, fs.nodes
    ensures fs.Valid() && fs.files == Write(old(fs.files), dest, CStr(old(fs.ReadContent(src))))
    ensures fresh(set n | n in fs.nodes && n !in old(fs.nodes))
  {
    var buf, len := ReadString(fs, src);
    fs.WriteFile(dest, buf, len);
  }

  /** `mv` is `cp` followed by `rm` of the source; see `MoveLaw`. */
  method CmdMv(fs: FileSystem, src: Name, dest: Name)
    requires fs.Mounted() && fs.Valid() && fs.Readable(src) && |fs.ReadContent(src)| < COPY_BUFFER
    requires Has(fs.files, dest) || !OnDiskList(fs.listing, dest)
    modifies fs, fs.nodes
    ensures fs.Valid()
    ensures old(Has(fs.files, src)) ==> fs.files == Move(old(fs.files), src, dest)
    ensures !old(Has(fs.files, src)) ==>
              fs.files == Remove(Write(old(fs.files), dest, CStr(fs.volume.Content(src))), src)
  {
    CmdCp(fs, src, dest);
    fs.Rm(src);
  }
}

module TextEditor {
  import opened Machine32
  import opened Bytes
  import opened CStrings
  import opened Ext4Layout
  import opened VirtualFiles
  import opened Ext4
  import opened TextEditing
  import FileCommands

  const BUFFER := 10240

  // Scancodes
  const SC_LEFT := 0x4B
  const SC_RIGHT := 0x4D
  const SC_UP := 0x48
  const SC_DOWN := 0x50
  const SC_BACKSPACE := 0x0E

  /** What a key does to the text; the up and down arrows move by one character. */
  function KeyOf(scancode: int, ascii: Byte): Key {
    if scancode == SC_LEFT || scancode == SC_UP then LeftKey
    else if scancode == SC_RIGHT || scancode == SC_DOWN then RightKey
    else if scancode == SC_BACKSPACE then EraseKey
    else InsertKey(ascii)
  }

  class Editor {
    const fs: FileSystem
    var filename: Name
    var content: array<Byte>
    var contentSize: int
    var cursorIdx: int
    ghost var gap: Gap

    constructor (fs: FileSystem)
      ensures this.fs == fs
    {
      this.fs := fs;
      filename := [];
      content := new Byte[0];
      contentSize, cursorIdx := 0, 0;
      gap := Gap([], []);
    }

    /** The buffer holds the text and a NUL, and the cursor stands between the two halves. */
    ghost predicate Valid()
      reads this, content
    {
      && content.Length == BUFFER && Proper(gap)
      && contentSize == |gap.Text()| && cursorIdx == |gap.before|
      && content[..contentSize] == gap.Text() && content[contentSize] == 0
    }

    /** Take over a buffer that holds `text`, with the cursor in front. */
    method Show(fname: Name, buffer: array<Byte>, size: int, ghost text: seq<Byte>)
      requires buffer.Length == BUFFER && size == |text| <= MAX_TEXT && 0 !in text
      requires buffer[..size] == text && buffer[size] == 0
      modifies this
      ensures Valid() && content == buffer && filename == fname && gap == Gap([], text)
    {
      filename := fname;
      content := buffer;
      contentSize := size;
      cursorIdx := 0;
      gap := Gap([], text);
      assert gap.Text() == text;
    }

    static method ClearBuffer(buffer: array<Byte>)
      modifies buffer
      ensures forall k :: 0 <= k < buffer.Length ==> buffer[k] == 0
    {
      var i := 0;
      while i < buffer.Length
        invariant 0 <= i <= buffer.Length
        invariant forall k :: 0 <= k < i ==> buffer[k] == 0
      {
        buffer[i] := 0;
        i := i + 1;
      }
    }

    /** A cleared buffer with the file read into it. */
    static method Load(fs: FileSystem, fname: Name) returns (buffer: array<Byte>)
      requires fs.Mounted() && fs.Valid() && fs.Readable(fname) && |fs.ReadContent(fname)| < BUFFER
      ensures fs.Valid() && fresh(buffer) && buffer.Length == BUFFER
      ensures var c := fs.ReadContent(fname); buffer[..|c|] == c && buffer[|c|] == 0
    {
      buffer := new Byte[BUFFER];
      ClearBuffer(buffer);
      fs.ReadFile(fname, buffer);
    }

    /** Open a file: its text up to the first NUL, with the cursor in front. */
    method Start(fname: Name)
      requires fs.Mounted() && fs.Valid() && fs.Readable(fname) && |fs.ReadContent(fname)| < BUFFER
      modifies this
      ensures Valid() && fs.Valid() && fresh(content) && filename == fname
      ensures gap == Gap([], CStr(fs.ReadContent(fname)))
    {
      ghost var c := fs.ReadContent(fname);
      var buffer := Load(fs, fname);
      FileCommands.BufferHoldsCStr(buffer[..], c);
      var size := StrLen(buffer, CStr(c));
      assert buffer[..size] == CStr(c);
      Show(fname, buffer, size, CStr(c));
    }

    method MoveLeft()
      requires Valid()
      modifies this`cursorIdx, this`gap
      ensures Valid() && gap == Press(old(gap), LeftKey)
    {
      PressProper(gap, LeftKey);
      if cursorIdx > 0 {
        cursorIdx := cursorIdx - 1;
      }
      gap := Press(gap, LeftKey);
    }

    method MoveRight()
      requires Valid()
      modifies this`cursorIdx, this`gap
      ensures Valid() && gap == Press(old(gap), RightKey)
    {
      PressProper(gap, RightKey);
      if cursorIdx < contentSize {
        cursorIdx := cursorIdx + 1;
      }
      gap := Press(gap, RightKey);
    }

    static method CloseGap(a: array<Byte>, cursor: int, len: int)
      requires 0 < cursor <= len <= a.Length
      modifies a
      ensures a[..len - 1] == old(a[..cursor - 1]) + old(a[cursor..len])
    {
      var i := cursor;
      while i < len
        invariant cursor <= i <= len
        invariant a[..i - 1] == old(a[..cursor - 1]) + old(a[cursor..i])
        invariant a[i..] == old(a[i..])
      {
        assert a[i] == old(a[i..])[0] && a[i + 1..] == old(a[i..])[1..];
        a[i - 1] := a[i];
        i := i + 1;
      }
    }

    /** Move the text behind the cursor down by one. */
    method Erase()
      requires Valid()
      modifies this`cursorIdx, this`contentSize, this`gap, content
      ensures Valid() && content == old(content) && gap == Press(old(gap), EraseKey)
    {
      if cursorIdx > 0 {
        PressProper(gap, EraseKey);
        CloseGap(content, cursorIdx, contentSize);
        contentSize := contentSize - 1;
        cursorIdx := cursorIdx - 1;
        content[contentSize] := 0;
        gap := Press(gap, EraseKey);
        assert content[..contentSize] == gap.Text();
      }
    }

    static method OpenGap(a: array<Byte>, cursor: int, len: int)
      requires 0 <= cursor <= len < a.Length
      modifies a
      ensures a[..cursor] == old(a[..cursor])
      ensures a[cursor + 1..len + 1] == old(a[cursor..len])
    {
      var i := len;
      while i > cursor
        invariant cursor <= i <= len
        invariant forall k :: 0 <= k <= i && k < a.Length ==> a[k] == old(a[k])
        invariant forall k :: cursor <= k < len && i <= k ==> a[k + 1] == old(a[k])
      {
        a[i] := a[i - 1];
        i := i - 1;
      }
    }

    /** Move the text behind the cursor up by one, and put the character in the gap. */
    static method PutInGap(a: array<Byte>, cursor: int, len: int, c: Byte, ghost g: Gap)
      requires cursor == |g.before| && len == |g.Text()| < a.Length && a[..len] == g.Text()
      modifies a
      ensures a[..len + 1] == Gap(g.before + [c], g.after).Text()
    {
      assert a[..cursor] == g.before && a[cursor..len] == g.after;
      OpenGap(a, cursor, len);
      a[cursor] := c;
      assert a[..len + 1] == a[..cursor] + [c] + a[cursor + 1..len + 1];
    }

    method Insert(ascii: Byte)
      requires Valid()
      modifies this`cursorIdx, this`contentSize, this`gap, content
      ensures Valid() && content == old(content) && gap == Press(old(gap), InsertKey(ascii))
    {
      if ascii != 0 {
        if contentSize < 10240 - 1 {
          PressProper(gap, InsertKey(ascii));
          PutInGap(content, cursorIdx, contentSize, ascii, gap);
          cursorIdx := cursorIdx + 1;
          contentSize := contentSize + 1;
          content[contentSize] := 0;
          gap := Press(gap, InsertKey(ascii));
        }
      }
    }

    /** A key without Ctrl. */
    method OnKeyDown(scancode: int, ascii: Byte)
      requires Valid()
      modifies this`cursorIdx, this`contentSize, this`gap, content
      ensures Valid() && content == old(content) && gap == Press(old(gap), KeyOf(scancode, ascii))
    {
      if scancode == SC_LEFT { MoveLeft(); return; }
      if scancode == SC_RIGHT { MoveRight(); return; }
      if scancode == SC_UP { MoveLeft(); return; }
      if scancode == SC_DOWN { MoveRight(); return; }
      if scancode == SC_BACKSPACE { Erase(); return; }
      Insert(ascii);
    }

    /** Ctrl+S: the file gets exactly the text. */
    method Save()
      requires Valid() && fs.Mounted() && fs.Valid()
      requires Has(fs.files, filename) || !OnDiskList(fs.listing, filename)
      modifies fs, fs.nodes
      ensures Valid() && fs.Valid() && gap == old(gap) && filename == old(filename)
      ensures fs.files == Write(old(fs.files), filename, gap.Text())
      ensures Has(fs.files, filename) && fs.ReadContent(filename) == gap.Text()
    {
      fs.WriteFile(filename, content, contentSize);
      ghost var i := Find(old(fs.files), filename, 0);
      FindIs(fs.files, filename, if i < |old(fs.files)| then i else 0);
    }

    /** Save, quit and reopen gives back exactly the text that was saved, with the cursor in front. */
    method SaveAndReopen()
      requires Valid() && fs.Mounted() && fs.Valid()
      requires Has(fs.files, filename) || !OnDiskList(fs.listing, filename)
      modifies this, fs, fs.nodes
      ensures Valid() && fs.Valid()
      ensures gap == Gap([], old(gap.Text()))
    {
      Save();
      CStrIsWhole(gap.Text());
      Start(filename);
    }
  }
}
