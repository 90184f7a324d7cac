/** The tokenizer of `Shell::Execute` (src/core/shell/shell.cpp) and the lines it is meant for. */
module ShellWords {
  import opened Machine32
  import opened Bytes
  import opened CStrings

  const MAX_ARGS := 16
  const SPACE: Byte := 0x20
  const QUOTE: Byte := 0x22

  /** The words so far, the bytes since the current word's start, and the two flags. */
  datatype Scan = Scan(argv: seq<seq<Byte>>, word: seq<Byte>, inQuotes: bool, inToken: bool)

  const START := Scan([], [], false, false)

  function Push(argv: seq<seq<Byte>>, word: seq<Byte>): seq<seq<Byte>> {
    if |argv| < MAX_ARGS then argv + [word] else argv
  }

  /** One byte through the scanner; the NUL behind the line ends a bare word like a space. */
  function Feed(st: Scan, c: Byte): Scan {
    if c == QUOTE then
      if st.inQuotes then Scan(Push(st.argv, st.word), [], false, false)
      else st.(inQuotes := true, word := [])
    else if st.inQuotes then st.(word := st.word + [c])
    else if c == SPACE || c == 0 then
      if st.inToken then Scan(Push(st.argv, st.word), [], false, false) else st
    else if st.inToken then st.(word := st.word + [c])
    else st.(word := [c], inToken := true)
  }

  function FeedAll(st: Scan, s: seq<Byte>): Scan
    decreases |s|
  {
    if s == [] then st else FeedAll(Feed(st, s[0]), s[1..])
  }

  /** The words the shell sees in a line. */
  function Words(line: seq<Byte>): seq<seq<Byte>> {
    FeedAll(START, line + [0]).argv
  }

  lemma {:induction false} FeedSplit(st: Scan, s: seq<Byte>, t: seq<Byte>)
    ensures FeedAll(st, s + t) == FeedAll(FeedAll(st, s), t)
    decreases |s|
  {
    if s == [] {
      assert s + t == t;
    } else {
      FeedSplit(Feed(st, s[0]), s[1..], t);
      assert (s + t)[1..] == s[1..] + t;
    }
  }

  // ----- Lines made of words -----

  /** A word as it is typed. */
  datatype Word = Bare(text: seq<Byte>) | Quoted(text: seq<Byte>)

  /** A word with a number of spaces before it. */
  datatype Item = Item(gap: nat, word: Word)

  predicate Proper(w: Word) {
    && QUOTE !in w.text && 0 !in w.text
    && (w.Bare? ==> w.text != [] && SPACE !in w.text)
  }

  function Spaces(n: nat): seq<Byte> { seq(n, _ => SPACE) }

  function Spelled(w: Word): seq<Byte> {
    if w.Bare? then w.text else [QUOTE] + w.text + [QUOTE]
  }

  function Line(items: seq<Item>): seq<Byte> {
    if items == [] then [] else Spaces(items[0].gap) + Spelled(items[0].word) + Line(items[1..])
  }

  function Texts(items: seq<Item>): seq<seq<Byte>> {
    if items == [] then [] else [items[0].word.text] + Texts(items[1..])
  }

  predicate AllProper(items: seq<Item>) { forall i :: 0 <= i < |items| ==> Proper(items[i].word) }

  /** A space follows every bare word that is not the last. */
  predicate Spaced(items: seq<Item>) {
    forall i, j {:trigger items[i], items[j]} :: 0 <= i && j == i + 1 < |items| && items[i].word.Bare? ==> items[j].gap > 0
  }

  predicate WellSpaced(items: seq<Item>) { AllProper(items) && Spaced(items) }

  function Take(argv: seq<seq<Byte>>): seq<seq<Byte>> {
    if |argv| <= MAX_ARGS then argv else argv[..MAX_ARGS]
  }

  /** The words a scan will have when the line ends here. */
  function Closed(st: Scan): seq<seq<Byte>> {
    if st.inToken then Push(st.argv, st.word) else st.argv
  }

  lemma {:induction false} FeedSpaces(st: Scan, n: nat)
    requires !st.inQuotes && (st.inToken || st.word == [])
    ensures FeedAll(st, Spaces(n)) == if n > 0 then Scan(Closed(st), [], false, false) else st
    decreases n
  {
    if n > 0 {
      assert Spaces(n)[1..] == Spaces(n - 1);
      FeedSpaces(Feed(st, SPACE), n - 1);
    }
  }

  lemma {:induction false} FeedBare(st: Scan, t: seq<Byte>)
    requires !st.inQuotes && st.inToken && QUOTE !in t && 0 !in t && SPACE !in t
    ensures FeedAll(st, t) == st.(word := st.word + t)
    decreases |t|
  {
    if t != [] {
      assert t[0] in t;
      assert QUOTE !in t[1..] && 0 !in t[1..] && SPACE !in t[1..];
      FeedBare(Feed(st, t[0]), t[1..]);
      assert st.word + [t[0]] + t[1..] == st.word + t;
    } else {
      assert st.word + t == st.word;
    }
  }

  lemma {:induction false} FeedQuoted(st: Scan, t: seq<Byte>)
    requires st.inQuotes && QUOTE !in t
    ensures FeedAll(st, t) == st.(word := st.word + t)
    decreases |t|
  {
    if t != [] {
      assert t[0] in t;
      assert QUOTE !in t[1..];
      FeedQuoted(Feed(st, t[0]), t[1..]);
      assert st.word + [t[0]] + t[1..] == st.word + t;
    } else {
      assert st.word + t == st.word;
    }
  }

  /** A quoted word, from wherever it starts. */
  lemma FeedQuote(st: Scan, text: seq<Byte>)
    requires !st.inQuotes && QUOTE !in text
    ensures FeedAll(st, [QUOTE] + text + [QUOTE]) == Scan(Push(st.argv, text), [], false, false)
  {
    var open := Feed(st, QUOTE);
    assert [QUOTE] + text + [QUOTE] == [QUOTE] + (text + [QUOTE]);
    assert ([QUOTE] + (text + [QUOTE]))[1..] == text + [QUOTE];
    FeedSplit(open, text, [QUOTE]);
    FeedQuoted(open, text);
    assert [] + text == text;
    var full := FeedAll(open, text);
    assert FeedAll(full, [QUOTE]) == FeedAll(Feed(full, QUOTE), []);
  }

  /** A proper word, scanned from between words. */
  lemma FeedWord(st: Scan, w: Word)
    requires !st.inQuotes && !st.inToken && Proper(w)
    ensures FeedAll(st, Spelled(w)) ==
            if w.Bare? then Scan(st.argv, w.text, false, true) else Scan(Push(st.argv, w.text), [], false, false)
  {
    if w.Bare? {
      var c, rest := w.text[0], w.text[1..];
      assert c in w.text;
      assert QUOTE !in rest && 0 !in rest && SPACE !in rest;
      FeedBare(Feed(st, c), rest);
      assert [c] + rest == w.text;
    } else {
      FeedQuote(st, w.text);
    }
  }

  lemma TailSpaced(items: seq<Item>)
    requires WellSpaced(items) && items != []
    ensures WellSpaced(items[1..])
    ensures items[0].word.Bare? && |items| > 1 ==> items[1..][0].gap > 0
  {
    var rest := items[1..];
    forall i, j | 0 <= i && j == i + 1 < |rest| && rest[i].word.Bare? ensures rest[j].gap > 0 {
      assert items[i + 1].word.Bare? && items[j + 1] == rest[j];
    }
  }

  lemma TakePush(argv: seq<seq<Byte>>, word: seq<Byte>, rest: seq<seq<Byte>>)
    requires |argv| <= MAX_ARGS
    ensures Take(Push(argv, word) + rest) == Take(argv + ([word] + rest))
  {
    if |argv| < MAX_ARGS {
      assert argv + [word] + rest == argv + ([word] + rest);
    } else {
      assert (argv + rest)[..MAX_ARGS] == argv == (argv + ([word] + rest))[..MAX_ARGS];
    }
  }

  lemma {:induction false} FeedItems(st: Scan, items: seq<Item>)
    requires !st.inQuotes && (st.inToken || st.word == []) && |st.argv| <= MAX_ARGS && WellSpaced(items)
    requires st.inToken && items != [] ==> items[0].gap > 0
    ensures var end := FeedAll(st, Line(items));
            !end.inQuotes && Closed(end) == Take(Closed(st) + Texts(items))
    decreases |items|
  {
    if items == [] {
      assert Closed(st) + Texts(items) == Closed(st);
    } else {
      var gap, w, rest := items[0].gap, items[0].word, items[1..];
      var a := FeedAll(st, Spaces(gap));
      var b := FeedAll(a, Spelled(w));
      FeedSpaces(st, gap);
      FeedWord(a, w);
      TailSpaced(items);
      FeedItems(b, rest);
      FeedSplit(st, Spaces(gap) + Spelled(w), Line(rest));
      FeedSplit(st, Spaces(gap), Spelled(w));
      TakePush(Closed(st), w.text, Texts(rest));
    }
  }

  /** The word that has just been read is joined to the one before it, or takes its place. */
  predicate Joined(st: Scan, items: seq<Item>) { st.inToken && items != [] && items[0].gap == 0 }

  /** One item adds at most one word, and none behind a bare word without a space. */
  lemma FeedItem(st: Scan, item: Item)
    requires !st.inQuotes && (st.inToken || st.word == []) && Proper(item.word)
    ensures var b := FeedAll(st, Spaces(item.gap) + Spelled(item.word));
            && !b.inQuotes && (b.inToken || b.word == []) && b.inToken == item.word.Bare?
            && |Closed(b)| <= |Closed(st)| + if st.inToken && item.gap == 0 then 0 else 1
  {
    var w := item.word;
    FeedSplit(st, Spaces(item.gap), Spelled(w));
    FeedSpaces(st, item.gap);
    var a := FeedAll(st, Spaces(item.gap));
    if !a.inToken {
      FeedWord(a, w);
    } else if w.Bare? {
      FeedBare(a, w.text);
    } else {
      FeedQuote(a, w.text);
    }
  }

  lemma SpacedTail(items: seq<Item>)
    requires !Spaced(items) && items != []
    ensures !Spaced(items[1..]) || (items[0].word.Bare? && |items| > 1 && items[1..][0].gap == 0)
  {
    var i, j :| 0 <= i && j == i + 1 < |items| && items[i].word.Bare? && items[j].gap == 0;
    if i > 0 {
      assert items[1..][i - 1] == items[i] && items[1..][j - 1] == items[j];
    }
  }

  /** A line never has more words than items, and fewer when a space is missing behind a bare word. */
  lemma {:induction false} FeedCount(st: Scan, items: seq<Item>)
    requires !st.inQuotes && (st.inToken || st.word == []) && AllProper(items)
    ensures var end := FeedAll(st, Line(items));
            && !end.inQuotes
            && |Closed(end)| <= |Closed(st)| + |items|
            && (Joined(st, items) || !Spaced(items) ==> |Closed(end)| < |Closed(st)| + |items|)
    decreases |items|
  {
    if items != [] {
      var first, rest := Spaces(items[0].gap) + Spelled(items[0].word), items[1..];
      FeedItem(st, items[0]);
      FeedSplit(st, first, Line(rest));
      FeedCount(FeedAll(st, first), rest);
      if !Spaced(items) {
        SpacedTail(items);
      }
    }
  }

  lemma {:induction false} TextsLength(items: seq<Item>)
    ensures |Texts(items)| == |items|
  {
    if items != [] {
      TextsLength(items[1..]);
    }
  }

  /** Outside quotes and words nothing is collected. */
  lemma {:induction false} FeedAllWord(st: Scan, s: seq<Byte>)
    requires st.inQuotes || st.inToken || st.word == []
    ensures var end := FeedAll(st, s); end.inQuotes || end.inToken || end.word == []
    decreases |s|
  {
    if s != [] {
      FeedAllWord(Feed(st, s[0]), s[1..]);
    }
  }

  /** What the line ends with does not depend on the spaces at its end. */
  lemma WordsAtEnd(items: seq<Item>, trailing: nat)
    requires AllProper(items)
    ensures Words(Line(items) + Spaces(trailing)) == Closed(FeedAll(START, Line(items)))
  {
    var s := Line(items);
    FeedCount(START, items);
    var a := FeedAll(START, s);
    FeedAllWord(START, s);
    assert s + Spaces(trailing) + [0] == s + (Spaces(trailing) + [0]);
    FeedSplit(START, s, Spaces(trailing) + [0]);
    FeedSplit(a, Spaces(trailing), [0]);
    FeedSpaces(a, trailing);
    var b := FeedAll(a, Spaces(trailing));
    assert FeedAll(b, [0]) == FeedAll(Feed(b, 0), []);
  }

  lemma Regroup(a: seq<Byte>, b: seq<Byte>, c: seq<Byte>)
    ensures a + (b + c) == a + b + c
  {}

  lemma TailSplit(whole: seq<Item>, items: seq<Item>, more: seq<Item>)
    requires whole == items + more && items != []
    ensures whole[0] == items[0] && whole[1..] == items[1..] + more
  {}

  lemma {:induction false} LineSplit(whole: seq<Item>, items: seq<Item>, more: seq<Item>)
    requires whole == items + more
    ensures Line(whole) == Line(items) + Line(more)
  {
    if items == [] {
      assert whole == more;
    } else {
      TailSplit(whole, items, more);
      LineSplit(whole[1..], items[1..], more);
      Regroup(Spaces(items[0].gap) + Spelled(items[0].word), Line(items[1..]), Line(more));
    }
  }

  lemma {:induction false} TextsSplit(whole: seq<Item>, items: seq<Item>, more: seq<Item>)
    requires whole == items + more
    ensures Texts(whole) == Texts(items) + Texts(more)
  {
    if items == [] {
      assert whole == more;
    } else {
      TailSplit(whole, items, more);
      TextsSplit(whole[1..], items[1..], more);
    }
  }

  lemma OneItem(item: Item)
    ensures Line([item]) == Spaces(item.gap) + Spelled(item.word)
  {
    assert [item][1..] == [];
  }

  /** At the end of a line the scanner is inside a word only if the last item is a bare word. */
  lemma EndsInBare(items: seq<Item>)
    requires AllProper(items)
    ensures var end := FeedAll(START, Line(items));
            !end.inQuotes && (end.inToken || end.word == [])
            && (end.inToken ==> items != [] && items[|items| - 1].word.Bare?)
  {
    if items != [] {
      var front, last := items[..|items| - 1], items[|items| - 1];
      assert items == front + [last];
      LineSplit(items, front, [last]);
      OneItem(last);
      FeedCount(START, front);
      FeedAllWord(START, Line(front));
      FeedSplit(START, Line(front), Line([last]));
      FeedItem(FeedAll(START, Line(front)), last);
    }
  }

  /** Once sixteen words are kept, nothing changes them. */
  lemma {:induction false} FullStays(st: Scan, s: seq<Byte>)
    requires |st.argv| == MAX_ARGS
    ensures FeedAll(st, s).argv == st.argv
    decreases |s|
  {
    if s != [] {
      FullStays(Feed(st, s[0]), s[1..]);
    }
  }

  /** A well-spaced line gives back its first 16 words. */
  lemma WordsOfSpaced(items: seq<Item>, trailing: nat)
    requires WellSpaced(items)
    ensures Words(Line(items) + Spaces(trailing)) == Take(Texts(items))
  {
    FeedItems(START, items);
    assert [] + Texts(items) == Texts(items);
    WordsAtEnd(items, trailing);
  }

  /** Behind sixteen words the next item's space, if it needs one, makes them final. */
  lemma SixteenAreFinal(items: seq<Item>, next: Item, rest: seq<Byte>)
    requires |items| == MAX_ARGS && WellSpaced(items)
    requires items[MAX_ARGS - 1].word.Bare? ==> next.gap > 0
    ensures FeedAll(START, Line(items) + (Spaces(next.gap) + rest)).argv == Texts(items)
  {
    FeedItems(START, items);
    TextsLength(items);
    assert [] + Texts(items) == Texts(items);
    EndsInBare(items);
    var a := FeedAll(START, Line(items));
    FeedSplit(START, Line(items), Spaces(next.gap) + rest);
    FeedSplit(a, Spaces(next.gap), rest);
    FeedSpaces(a, next.gap);
    FullStays(FeedAll(a, Spaces(next.gap)), rest);
  }

  lemma FrontSpaced(items: seq<Item>)
    requires |items| > MAX_ARGS && AllProper(items) && Spaced(items[..MAX_ARGS + 1])
    ensures WellSpaced(items[..MAX_ARGS])
    ensures items[MAX_ARGS - 1].word.Bare? ==> items[MAX_ARGS].gap > 0
  {
    var head, front := items[..MAX_ARGS + 1], items[..MAX_ARGS];
    assert head[MAX_ARGS - 1].word.Bare? ==> head[MAX_ARGS].gap > 0;
    forall i, j | 0 <= i && j == i + 1 < |front| && front[i].word.Bare? ensures front[j].gap > 0 {
      assert head[i].word.Bare? && head[j] == front[j];
    }
  }

  lemma ThreeParts(items: seq<Item>, n: nat)
    requires n < |items|
    ensures items == items[..n] + [items[n]] + items[n + 1..]
  {}

  lemma TextsOfFront(items: seq<Item>, front: seq<Item>, back: seq<Item>)
    requires items == front + back && |front| == MAX_ARGS
    ensures Take(Texts(items)) == Texts(front)
  {
    TextsSplit(items, front, back);
    TextsLength(front);
    TextsLength(items);
  }

  lemma LineRegrouped(front: seq<Byte>, gap: seq<Byte>, word: seq<Byte>, rest: seq<Byte>, end: seq<Byte>)
    ensures front + (gap + word) + rest + end + [0] == front + (gap + (word + (rest + (end + [0]))))
  {}

  lemma LineOfThree(items: seq<Item>, front: seq<Item>, next: Item, rest: seq<Item>)
    requires items == front + [next] + rest
    ensures Line(items) == Line(front) + (Spaces(next.gap) + Spelled(next.word)) + Line(rest)
  {
    LineSplit(items, front + [next], rest);
    LineSplit(front + [next], front, [next]);
    OneItem(next);
  }

  lemma WordsOfFront(items: seq<Item>, front: seq<Item>, next: Item, rest: seq<Item>, trailing: nat)
    requires items == front + [next] + rest
    requires |front| == MAX_ARGS && WellSpaced(front) && (front[MAX_ARGS - 1].word.Bare? ==> next.gap > 0)
    ensures Words(Line(items) + Spaces(trailing)) == Texts(front)
  {
    LineOfThree(items, front, next, rest);
    LineRegrouped(Line(front), Spaces(next.gap), Spelled(next.word), Line(rest), Spaces(trailing));
    SixteenAreFinal(front, next, Spelled(next.word) + (Line(rest) + (Spaces(trailing) + [0])));
  }

  lemma WordsOfLong(items: seq<Item>, front: seq<Item>, next: Item, rest: seq<Item>, trailing: nat)
    requires |items| > MAX_ARGS && AllProper(items) && Spaced(items[..MAX_ARGS + 1])
    requires front == items[..MAX_ARGS] && next == items[MAX_ARGS] && rest == items[MAX_ARGS + 1..]
    ensures Words(Line(items) + Spaces(trailing)) == Take(Texts(items))
  {
    FrontSpaced(items);
    ThreeParts(items, MAX_ARGS);
    TextsOfFront(items, front, items[MAX_ARGS..]);
    WordsOfFront(items, front, next, rest, trailing);
  }

  /**
    The tokenizer inverts quoting: a line whose first 17 words are well spaced gives back its
    first 16 words.
  */
  lemma WordsOfLine(items: seq<Item>, trailing: nat)
    requires AllProper(items) && Spaced(if |items| <= MAX_ARGS then items else items[..MAX_ARGS + 1])
    ensures Words(Line(items) + Spaces(trailing)) == Take(Texts(items))
  {
    if |items| <= MAX_ARGS {
      WordsOfSpaced(items, trailing);
    } else {
      WordsOfLong(items, items[..MAX_ARGS], items[MAX_ARGS], items[MAX_ARGS + 1..], trailing);
    }
  }

  /**
    The tokenizer gives back the words of a line of at most 16 proper words exactly when a
    space follows every bare word that is not the last.
  */
  lemma WordsIff(items: seq<Item>, trailing: nat)
    requires AllProper(items) && |items| <= MAX_ARGS
    ensures Words(Line(items) + Spaces(trailing)) == Texts(items) <==> Spaced(items)
  {
    TextsLength(items);
    if Spaced(items) {
      WordsOfLine(items, trailing);
    } else {
      WordsAtEnd(items, trailing);
      FeedCount(START, items);
    }
  }

  // ----- Lines with missing spaces -----

  /** Two items with no space behind the first one, a bare word, act as one: joined, or without the first. */
  function Fused(first: Item, second: Item): Item {
    Item(first.gap, if second.word.Bare? then Bare(first.word.text + second.word.text) else second.word)
  }

  /** The items that a line acts as. */
  function Merge(items: seq<Item>): seq<Item>
    decreases |items|
  {
    if |items| <= 1 then items
    else if items[0].word.Bare? && items[1].gap == 0 then Merge([Fused(items[0], items[1])] + items[2..])
    else [items[0]] + Merge(items[1..])
  }

  lemma FusedProper(first: Item, second: Item)
    requires Proper(first.word) && Proper(second.word) && first.word.Bare?
    ensures Proper(Fused(first, second).word)
  {}

  /** A quoted word directly behind a bare one takes its place. */
  lemma QuoteReplaces(st: Scan, bare: Word, quoted: Word)
    requires !st.inQuotes && !st.inToken && bare.Bare? && quoted.Quoted? && Proper(bare) && Proper(quoted)
    ensures FeedAll(FeedAll(st, bare.text), Spelled(quoted)) == FeedAll(st, Spelled(quoted))
  {
    FeedWord(st, bare);
    FeedQuote(FeedAll(st, bare.text), quoted.text);
    FeedQuote(st, quoted.text);
  }

  /** The scanner does not see the difference. */
  lemma FusedSame(st: Scan, first: Item, second: Item)
    requires !st.inQuotes && (st.inToken || st.word == []) && Proper(first.word) && Proper(second.word)
    requires first.word.Bare? && second.gap == 0 && (st.inToken ==> first.gap > 0)
    ensures FeedAll(st, Line([first, second])) == FeedAll(st, Line([Fused(first, second)]))
  {
    var gap, f := Spaces(first.gap), Fused(first, second);
    OneItem(f);
    OneItem(second);
    assert [first, second][1..] == [second] && Spaces(0) == [];
    assert Line([first, second]) == gap + first.word.text + Spelled(second.word);
    if second.word.Bare? {
      Regroup(gap, first.word.text, second.word.text);
    } else {
      FeedSpaces(st, first.gap);
      FeedSplit(st, gap + first.word.text, Spelled(second.word));
      FeedSplit(st, gap, first.word.text);
      FeedSplit(st, gap, Spelled(f.word));
      QuoteReplaces(FeedAll(st, gap), first.word, second.word);
    }
  }

  lemma FuseSame(st: Scan, items: seq<Item>)
    requires !st.inQuotes && (st.inToken || st.word == []) && |items| > 1 && AllProper(items)
    requires items[0].word.Bare? && items[1].gap == 0 && (st.inToken ==> items[0].gap > 0)
    ensures FeedAll(st, Line([Fused(items[0], items[1])] + items[2..])) == FeedAll(st, Line(items))
  {
    var f, rest := Fused(items[0], items[1]), items[2..];
    FusedSame(st, items[0], items[1]);
    assert items == [items[0], items[1]] + rest;
    LineSplit(items, [items[0], items[1]], rest);
    LineSplit([f] + rest, [f], rest);
    FeedSplit(st, Line([items[0], items[1]]), Line(rest));
    FeedSplit(st, Line([f]), Line(rest));
  }

  lemma FirstItem(st: Scan, items: seq<Item>, first: Item, rest: seq<Item>)
    requires items == [first] + rest
    ensures FeedAll(st, Line(items)) == FeedAll(FeedAll(st, Spaces(first.gap) + Spelled(first.word)), Line(rest))
  {
    LineSplit(items, [first], rest);
    OneItem(first);
    FeedSplit(st, Spaces(first.gap) + Spelled(first.word), Line(rest));
  }

  lemma {:induction false} MergeSame(st: Scan, items: seq<Item>)
    requires !st.inQuotes && (st.inToken || st.word == []) && AllProper(items)
    requires st.inToken && items != [] ==> items[0].gap > 0
    ensures FeedAll(st, Line(Merge(items))) == FeedAll(st, Line(items))
    decreases |items|
  {
    if |items| > 1 {
      if items[0].word.Bare? && items[1].gap == 0 {
        FusedProper(items[0], items[1]);
        FuseSame(st, items);
        MergeSame(st, [Fused(items[0], items[1])] + items[2..]);
      } else {
        var first, rest := items[0], items[1..];
        assert items == [first] + rest;
        FirstItem(st, items, first, rest);
        FirstItem(st, [first] + Merge(rest), first, Merge(rest));
        FeedItem(st, first);
        MergeSame(FeedAll(st, Spaces(first.gap) + Spelled(first.word)), rest);
      }
    }
  }

  lemma SpacedCons(first: Item, rest: seq<Item>)
    requires Proper(first.word) && WellSpaced(rest) && (first.word.Bare? && rest != [] ==> rest[0].gap > 0)
    ensures WellSpaced([first] + rest)
  {
    var items := [first] + rest;
    forall i, j | 0 <= i && j == i + 1 < |items| && items[i].word.Bare? ensures items[j].gap > 0 {
      assert items[j] == rest[i];
      assert i > 0 ==> items[i] == rest[i - 1] && rest[i - 1].word.Bare?;
    }
  }

  /** Merged items are well spaced; items that are well spaced already stay as they are. */
  lemma {:induction false} MergeSpaced(items: seq<Item>)
    requires AllProper(items)
    ensures WellSpaced(Merge(items))
    ensures items != [] ==> Merge(items) != [] && Merge(items)[0].gap == items[0].gap
    ensures Spaced(items) ==> Merge(items) == items
    decreases |items|
  {
    if |items| > 1 {
      if items[0].word.Bare? && items[1].gap == 0 {
        FusedProper(items[0], items[1]);
        MergeSpaced([Fused(items[0], items[1])] + items[2..]);
      } else {
        MergeSpaced(items[1..]);
        SpacedCons(items[0], Merge(items[1..]));
        if Spaced(items) {
          TailSpaced(items);
          assert [items[0]] + items[1..] == items;
        }
      }
    }
  }

  /** The words of every line: the first 16 of what is left after fusing where a space is missing. */
  lemma WordsMerged(items: seq<Item>, trailing: nat)
    requires AllProper(items)
    ensures Words(Line(items) + Spaces(trailing)) == Take(Texts(Merge(items)))
  {
    MergeSpaced(items);
    MergeSame(START, items);
    WordsAtEnd(items, trailing);
    WordsAtEnd(Merge(items), trailing);
    WordsOfSpaced(Merge(items), trailing);
  }

  /** Without the space, a bare word before a quoted one is dropped. */
  lemma QuoteDropsBareWord(bare: Word, quoted: Word)
    requires bare.Bare? && quoted.Quoted? && Proper(bare) && Proper(quoted)
    ensures Words(Spelled(bare) + Spelled(quoted)) == [quoted.text]
  {
    FeedWord(START, bare);
    var a := FeedAll(START, Spelled(bare));
    assert Spelled(bare) + Spelled(quoted) + [0] == Spelled(bare) + (Spelled(quoted) + [0]);
    FeedSplit(START, Spelled(bare), Spelled(quoted) + [0]);
    FeedSplit(a, Spelled(quoted), [0]);
    FeedQuote(a, quoted.text);
    var b := FeedAll(a, Spelled(quoted));
    assert FeedAll(b, [0]) == FeedAll(Feed(b, 0), []);
  }

  /** And a bare word directly behind a bare one is joined to it. */
  lemma BareJoinsBareWord(first: Word, second: Word)
    requires first.Bare? && second.Bare? && Proper(first) && Proper(second)
    ensures Words(Spelled(first) + Spelled(second)) == [first.text + second.text]
  {
    var both := Bare(first.text + second.text);
    var items := [Item(0, both)];
    assert items[1..] == [] && Spaces(0) == [];
    assert Line(items) + Spaces(0) == Spelled(first) + Spelled(second);
    assert Texts(items) == [both.text];
    WordsOfSpaced(items, 0);
  }

  // ----- The loop over the buffer -----

  /** The word pointers `argv` into the buffer stand for the scanned words. */
  ghost predicate Points(b: seq<Byte>, argv: seq<int>, words: seq<seq<Byte>>, hi: int) {
    && |argv| == |words|
    && forall k :: 0 <= k < |argv| ==> StrAt(b, argv[k], words[k]) && argv[k] + |words[k]| < hi
  }

  lemma WordKept(b: seq<Byte>, p: int, word: seq<Byte>, i: int)
    requires 0 <= i < |b| && StrAt(b, p, word) && p + |word| < i
    ensures StrAt(b[i := 0], p, word)
  {
    assert b[i := 0][p..p + |word|] == b[p..p + |word|];
  }

  lemma WordsKept(b: seq<Byte>, argv: seq<int>, words: seq<seq<Byte>>, i: int)
    requires 0 <= i < |b| && Points(b, argv, words, i)
    ensures Points(b[i := 0], argv, words, i)
  {
    forall k | 0 <= k < |argv| ensures StrAt(b[i := 0], argv[k], words[k]) {
      WordKept(b, argv[k], words[k], i);
    }
  }

  lemma NewWord(b: seq<Byte>, start: int, i: int, word: seq<Byte>)
    requires 0 <= start <= i < |b| && b[start..i] == word && 0 !in word
    ensures StrAt(b[i := 0], start, word)
  {
    assert b[i := 0][start..start + |word|] == b[start..i];
  }

  /** Terminate the word [start, i) and remember its pointer; earlier words are not touched. */
  method EndWord(buffer: array<Byte>, i: int, start: int, argv: seq<int>, ghost st: Scan) returns (argv': seq<int>)
    requires 0 <= start <= i < buffer.Length && |argv| <= MAX_ARGS
    requires buffer[start..i] == st.word && 0 !in st.word && Points(buffer[..], argv, st.argv, i)
    modifies buffer
    ensures buffer[..] == old(buffer[..])[i := 0]
    ensures |argv'| <= MAX_ARGS && Points(buffer[..], argv', Push(st.argv, st.word), i + 1)
  {
    ghost var b := buffer[..];
    buffer[i] := 0;
    assert buffer[..] == b[i := 0];
    WordsKept(b, argv, st.argv, i);
    NewWord(b, start, i, st.word);
    argv' := if |argv| < MAX_ARGS then argv + [start] else argv;
  }

  /** One byte more has been scanned. */
  lemma FeedNext(line: seq<Byte>, i: nat)
    requires i < |line|
    ensures FeedAll(START, line[..i + 1]) == Feed(FeedAll(START, line[..i]), line[i])
  {
    var st := FeedAll(START, line[..i]);
    assert line[..i + 1] == line[..i] + [line[i]];
    FeedSplit(START, line[..i], [line[i]]);
    assert FeedAll(st, [line[i]]) == FeedAll(Feed(st, line[i]), []);
  }

  /** Splitting in place: NULs are written behind the words, and `argv` points into the buffer. */
  method Tokenize(buffer: array<Byte>, len: int) returns (argv: seq<int>)
    requires 0 <= len && buffer.Length == len + 1 && Str(buffer[..], buffer[..len])
    modifies buffer
    ensures |argv| <= MAX_ARGS
    ensures Points(buffer[..], argv, Words(old(buffer[..len])), buffer.Length)
  {
    ghost var line := buffer[..len] + [0];
    assert buffer[..] == line;
    ghost var st := START;
    argv := [];
    var start, i := 0, 0;
    var inQuotes, inToken := false, false;
    while i <= len
      invariant 0 <= i <= len + 1
      invariant st == FeedAll(START, line[..i])
      invariant inQuotes == st.inQuotes && inToken == st.inToken && |argv| <= MAX_ARGS
      invariant Points(buffer[..], argv, st.argv, i)
      invariant buffer[i..] == line[i..]
      invariant inQuotes || inToken ==> 0 <= start <= i && buffer[start..i] == st.word
      invariant i <= len ==> 0 !in st.word
    {
      var c := buffer[i];
      assert c == line[i] == buffer[i..][0];
      assert buffer[i + 1..] == line[i..][1..] == line[i + 1..];
      assert i < len ==> line[i] in line[..len];
      FeedNext(line, i);
      ghost var next := Feed(st, c);
      assert start <= i ==> buffer[start..i + 1] == buffer[start..i] + [c];
      if c == QUOTE {
        if inQuotes {
          argv := EndWord(buffer, i, start, argv, st);
          inToken := false;
          inQuotes := false;
        } else {
          inQuotes := true;
          start := i + 1;
        }
      } else if inQuotes {
      } else if c == SPACE || c == 0 {
        if inToken {
          argv := EndWord(buffer, i, start, argv, st);
          inToken := false;
        }
      } else {
        if !inToken {
          assert buffer[i..i + 1] == [c];
          start := i;
          inToken := true;
        }
      }
      st := next;
      i := i + 1;
    }
    assert line[..i] == line;
  }
}
