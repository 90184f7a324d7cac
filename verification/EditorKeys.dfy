/** Runs of key strokes in the editor, as scancodes and characters come in, stated by text and cursor position. */
module EditorKeys {
  import opened Machine32
  import opened Bytes
  import opened TextEditing
  import opened TextEditor

  /** One call of `OnKeyDown`. */
  datatype Stroke = Stroke(scancode: int, ascii: Byte)

  function Keys(strokes: seq<Stroke>): (keys: seq<Key>)
    ensures |keys| == |strokes|
  {
    seq(|strokes|, i requires 0 <= i < |strokes| => KeyOf(strokes[i].scancode, strokes[i].ascii))
  }

  function After(g: Gap, strokes: seq<Stroke>): Gap { PressAll(g, Keys(strokes)) }

  lemma AfterSplit(g: Gap, xs: seq<Stroke>, ys: seq<Stroke>)
    ensures After(g, xs + ys) == After(After(g, xs), ys)
  {
    assert Keys(xs + ys) == Keys(xs) + Keys(ys);
    PressSplit(g, Keys(xs), Keys(ys));
  }

  lemma AfterNone(g: Gap)
    ensures After(g, []) == g
  {
    assert Keys([]) == [];
  }

  lemma AfterNext(g: Gap, strokes: seq<Stroke>, n: nat)
    requires n < |strokes|
    ensures After(g, strokes[..n + 1]) == Press(After(g, strokes[..n]), KeyOf(strokes[n].scancode, strokes[n].ascii))
  {
    var k := KeyOf(strokes[n].scancode, strokes[n].ascii);
    assert strokes[..n + 1] == strokes[..n] + [strokes[n]];
    AfterSplit(g, strokes[..n], [strokes[n]]);
    assert Keys([strokes[n]]) == [k];
    var a := After(g, strokes[..n]);
    assert PressAll(a, [k]) == PressAll(Press(a, k), []);
  }

  // ----- Text and position -----

  /** The text `t` with the cursor at position `p`. */
  predicate At(g: Gap, t: seq<Byte>, p: int) {
    0 <= p <= |t| && g.before == t[..p] && g.after == t[p..]
  }

  lemma AtText(g: Gap, t: seq<Byte>, p: int)
    requires At(g, t, p)
    ensures g.Text() == t && |g.before| == p
  {}

  lemma OwnPosition(g: Gap)
    ensures At(g, g.Text(), |g.before|)
  {}

  /** Left and Up, Right and Down. */
  predicate Backwards(strokes: seq<Stroke>) { forall i :: 0 <= i < |strokes| ==> strokes[i].scancode == 0x4B || strokes[i].scancode == 0x48 }
  predicate Forwards(strokes: seq<Stroke>) { forall i :: 0 <= i < |strokes| ==> strokes[i].scancode == 0x4D || strokes[i].scancode == 0x50 }

  lemma LeftOne(g: Gap, t: seq<Byte>, p: nat)
    requires At(g, t, p)
    ensures At(Press(g, LeftKey), t, if p == 0 then 0 else p - 1)
  {}

  lemma {:induction false} BackwardsMoves(g: Gap, t: seq<Byte>, p: nat, strokes: seq<Stroke>, n: nat)
    requires At(g, t, p) && Backwards(strokes) && n <= |strokes|
    ensures At(After(g, strokes[..n]), t, if p < n then 0 else p - n)
  {
    if n == 0 {
      AfterNone(g);
    } else {
      BackwardsMoves(g, t, p, strokes, n - 1);
      AfterNext(g, strokes, n - 1);
      LeftOne(After(g, strokes[..n - 1]), t, if p < n - 1 then 0 else p - (n - 1));
    }
  }

  lemma RightOne(g: Gap, t: seq<Byte>, p: nat)
    requires At(g, t, p)
    ensures At(Press(g, RightKey), t, if p == |t| then p else p + 1)
  {}

  lemma {:induction false} ForwardsMoves(g: Gap, t: seq<Byte>, p: nat, strokes: seq<Stroke>, n: nat)
    requires At(g, t, p) && Forwards(strokes) && n <= |strokes|
    ensures At(After(g, strokes[..n]), t, if |t| < p + n then |t| else p + n)
  {
    if n == 0 {
      AfterNone(g);
    } else {
      ForwardsMoves(g, t, p, strokes, n - 1);
      AfterNext(g, strokes, n - 1);
      RightOne(After(g, strokes[..n - 1]), t, if |t| < p + n - 1 then |t| else p + n - 1);
    }
  }

  /** These strokes type `s`. */
  predicate Types(strokes: seq<Stroke>, s: seq<Byte>) {
    |strokes| == |s| && 0 !in s && forall i :: 0 <= i < |s| ==>
      var k := strokes[i].scancode;
      strokes[i].ascii == s[i] && k != 0x4B && k != 0x4D && k != 0x48 && k != 0x50 && k != 0x0E
  }

  lemma InsertOne(g: Gap, t: seq<Byte>, p: nat, c: Byte)
    requires At(g, t, p) && c != 0 && |t| < 10239
    ensures At(Press(g, InsertKey(c)), t[..p] + [c] + t[p..], p + 1)
  {}

  lemma Inserted(t: seq<Byte>, p: nat, s: seq<Byte>, n: nat)
    requires p <= |t| && 0 < n <= |s|
    ensures var u := t[..p] + s[..n - 1] + t[p..];
            u[..p + n - 1] + [s[n - 1]] + u[p + n - 1..] == t[..p] + s[..n] + t[p..]
  {
    var u := t[..p] + s[..n - 1] + t[p..];
    assert u[..p + n - 1] == t[..p] + s[..n - 1] && u[p + n - 1..] == t[p..];
  }

  /** Typed text lands at the cursor, which moves behind it. */
  lemma {:induction false} TypesAt(g: Gap, t: seq<Byte>, p: nat, strokes: seq<Stroke>, s: seq<Byte>, n: nat)
    requires At(g, t, p) && Types(strokes, s) && |t| + |s| <= 10239 && n <= |s|
    ensures At(After(g, strokes[..n]), t[..p] + s[..n] + t[p..], p + n)
  {
    if n == 0 {
      AfterNone(g);
      assert t[..p] + s[..0] + t[p..] == t;
    } else {
      TypesAt(g, t, p, strokes, s, n - 1);
      AfterNext(g, strokes, n - 1);
      assert s[n - 1] in s;
      InsertOne(After(g, strokes[..n - 1]), t[..p] + s[..n - 1] + t[p..], p + n - 1, s[n - 1]);
      Inserted(t, p, s, n);
    }
  }

  predicate Erases(strokes: seq<Stroke>) { forall i :: 0 <= i < |strokes| ==> strokes[i].scancode == 0x0E }

  lemma EraseOne(g: Gap, t: seq<Byte>, p: nat)
    requires At(g, t, p)
    ensures if p == 0 then Press(g, EraseKey) == g else At(Press(g, EraseKey), t[..p - 1] + t[p..], p - 1)
  {}

  /** Backspaces take away what is in front of the cursor, and stop at the start of the text. */
  lemma {:induction false} ErasesAt(g: Gap, t: seq<Byte>, p: nat, strokes: seq<Stroke>, n: nat)
    requires At(g, t, p) && Erases(strokes) && n <= |strokes|
    ensures var q := if p < n then 0 else p - n; At(After(g, strokes[..n]), t[..q] + t[p..], q)
  {
    if n == 0 {
      AfterNone(g);
      assert t[..p] + t[p..] == t;
    } else {
      ErasesAt(g, t, p, strokes, n - 1);
      AfterNext(g, strokes, n - 1);
      var q := if p < n - 1 then 0 else p - (n - 1);
      EraseOne(After(g, strokes[..n - 1]), t[..q] + t[p..], q);
      if q > 0 {
        assert (t[..q] + t[p..])[..q - 1] == t[..q - 1] && (t[..q] + t[p..])[q..] == t[p..];
      }
    }
  }

  lemma TypesWhole(g: Gap, t: seq<Byte>, p: nat, typing: seq<Stroke>, s: seq<Byte>)
    requires At(g, t, p) && Types(typing, s) && |t| + |s| <= 10239
    ensures After(g, typing).Text() == t[..p] + s + t[p..]
  {
    TypesAt(g, t, p, typing, s, |s|);
    assert typing[..|s|] == typing && s[..|s|] == s;
    AtText(After(g, typing), t[..p] + s + t[p..], p + |s|);
  }

  /** `k` times Left or Up, and then typing: the text goes in `k` characters further to the front. */
  lemma LeftThenType(g: Gap, moves: seq<Stroke>, typing: seq<Stroke>, s: seq<Byte>)
    requires Backwards(moves) && Types(typing, s) && |g.Text()| + |s| <= 10239
    ensures var t := g.Text();
            var p := if |g.before| < |moves| then 0 else |g.before| - |moves|;
            After(g, moves + typing).Text() == t[..p] + s + t[p..]
  {
    var p := if |g.before| < |moves| then 0 else |g.before| - |moves|;
    OwnPosition(g);
    assert moves[..|moves|] == moves;
    BackwardsMoves(g, g.Text(), |g.before|, moves, |moves|);
    AfterSplit(g, moves, typing);
    TypesWhole(After(g, moves), g.Text(), p, typing, s);
  }

  /** The same with Right or Down. */
  lemma RightThenType(g: Gap, moves: seq<Stroke>, typing: seq<Stroke>, s: seq<Byte>)
    requires Forwards(moves) && Types(typing, s) && |g.Text()| + |s| <= 10239
    ensures var t := g.Text();
            var p := if |t| < |g.before| + |moves| then |t| else |g.before| + |moves|;
            After(g, moves + typing).Text() == t[..p] + s + t[p..]
  {
    var t := g.Text();
    var p := if |t| < |g.before| + |moves| then |t| else |g.before| + |moves|;
    OwnPosition(g);
    assert moves[..|moves|] == moves;
    ForwardsMoves(g, t, |g.before|, moves, |moves|);
    AfterSplit(g, moves, typing);
    TypesWhole(After(g, moves), t, p, typing, s);
  }

  /** A full buffer takes no more. */
  lemma FullRefuses(g: Gap, st: Stroke)
    requires |g.Text()| >= 10239 && KeyOf(st.scancode, st.ascii).InsertKey?
    ensures After(g, [st]) == g
  {
    AfterNext(g, [st], 0);
    AfterNone(g);
    assert [st][..0] == [] && [st][..1] == [st];
  }

  // ----- The buffer -----

  /** Any run of strokes on the buffer. */
  method Play(e: Editor, strokes: seq<Stroke>)
    requires e.Valid()
    modifies e, e.content
    ensures e.Valid() && e.content == old(e.content) && e.gap == After(old(e.gap), strokes)
  {
    ghost var g := e.gap;
    AfterNone(g);
    assert strokes[..0] == [];
    var i := 0;
    while i < |strokes|
      invariant 0 <= i <= |strokes| && e.Valid() && e.content == old(e.content) && e.gap == After(g, strokes[..i])
    {
      AfterNext(g, strokes, i);
      e.OnKeyDown(strokes[i].scancode, strokes[i].ascii);
      i := i + 1;
    }
    assert strokes[..i] == strokes;
  }

  /** Left or Up `k` times and typing, on the buffer. */
  method LeftAndType(e: Editor, moves: seq<Stroke>, typing: seq<Stroke>, ghost s: seq<Byte>)
    requires e.Valid() && Backwards(moves) && Types(typing, s) && e.contentSize + |s| <= 10239
    modifies e, e.content
    ensures e.Valid() && e.contentSize == old(e.contentSize) + |s|
    ensures var p := if old(e.cursorIdx) < |moves| then 0 else old(e.cursorIdx) - |moves|;
            e.content[..e.contentSize] == old(e.content[..p]) + s + old(e.content[p..e.contentSize])
  {
    LeftThenType(e.gap, moves, typing, s);
    Play(e, moves + typing);
  }
}
