/** `cd` of src/core/shell/shell.cpp: what it does to the path, and what that means for directories. */
module WorkingDirectory {
  import opened Machine32
  import opened Bytes
  import opened CStrings

  const SLASH: Byte := 0x2F
  const DOT: Byte := 0x2E
  const MAX_PATH := 63  // the environment value that follows the path holds 64 bytes
  const MAX_KEY := 31
  const MAX_ENVS := 16
  const PWD: seq<Byte> := [0x50, 0x57, 0x44]
  const PS1: seq<Byte> := [0x50, 0x53, 0x31]

  type Path = seq<Byte>

  /** The index of the last slash, or -1. */
  function LastSlash(s: Path): (r: int)
    ensures -1 <= r < |s|
    ensures r >= 0 ==> s[r] == SLASH
    ensures forall k :: r < k < |s| ==> s[k] != SLASH
  {
    if s == [] then -1
    else if s[|s| - 1] == SLASH then |s| - 1
    else LastSlash(s[..|s| - 1])
  }

  function DropTrailingSlash(s: Path): Path {
    if s != [] && s[|s| - 1] == SLASH then s[..|s| - 1] else s
  }

  /** `cd ..`: up to the last slash, but never above the root. */
  function Up(cwd: Path): Path {
    if |cwd| <= 1 then cwd
    else
      var t := DropTrailingSlash(cwd);
      var k := LastSlash(t);
      if k < 0 then cwd
      else if k == 0 then t[..1]
      else t[..k]
  }

  function Join(cwd: Path, name: Path): Path {
    if cwd != [] && cwd[|cwd| - 1] != SLASH then cwd + [SLASH] + name else cwd + name
  }

  /** `cd`, with or without an argument; `DirExists` accepts every path. */
  function Cd(cwd: Path, arg: Option<Path>): Path {
    match arg
    case None => [SLASH]
    case Some(path) =>
      if path == [DOT] then cwd
      else if path == [SLASH] then [SLASH]
      else if path == [DOT, DOT] then Up(cwd)
      else if path == [] || path[0] != SLASH then Join(cwd, path)
      else path
  }

  // ----- Directories as a stack of names -----

  predicate DirName(n: Path) {
    n != [] && SLASH !in n && 0 !in n && n != [DOT] && n != [DOT, DOT]
  }

  /** The names, each with a slash before it. */
  function Slashed(stack: seq<Path>): Path {
    if stack == [] then [] else Slashed(stack[..|stack| - 1]) + [SLASH] + stack[|stack| - 1]
  }

  function PathOf(stack: seq<Path>): Path {
    if stack == [] then [SLASH] else Slashed(stack)
  }

  /** Into a directory, along several, to one by its whole path, or one of the special forms. */
  datatype Move = Into(name: Path) | Along(names: seq<Path>) | To(names: seq<Path>) | Parent | Here | Root | Home

  predicate NamedStack(stack: seq<Path>) { forall i :: 0 <= i < |stack| ==> DirName(stack[i]) }

  /** The names of a move name directories. */
  predicate ProperMove(m: Move) {
    match m
    case Into(name) => DirName(name)
    case Along(names) => NamedStack(names) && names != []
    case To(names) => NamedStack(names)
    case _ => true
  }

  /** The names with slashes between them. */
  function Relative(names: seq<Path>): Path
    requires names != []
  {
    assert Slashed(names) != [];
    Slashed(names)[1..]
  }

  /** The argument of `cd` that makes the move. */
  function Argument(m: Move): Option<Path>
    requires ProperMove(m)
  {
    match m
    case Into(name) => Some(name)
    case Along(names) => Some(Relative(names))
    case To(names) => Some(PathOf(names))
    case Parent => Some([DOT, DOT])
    case Here => Some([DOT])
    case Root => Some([SLASH])
    case Home => None
  }

  /** The move among directories. */
  function Go(stack: seq<Path>, m: Move): seq<Path> {
    match m
    case Into(name) => stack + [name]
    case Along(names) => stack + names
    case To(names) => names
    case Parent => if stack == [] then [] else stack[..|stack| - 1]
    case Here => stack
    case Root => []
    case Home => []
  }

  lemma NoSlashAt(name: Path, k: nat)
    requires SLASH !in name && k < |name|
    ensures name[k] != SLASH
  {}

  lemma LastSlashIs(s: Path, r: nat)
    requires r < |s| && s[r] == SLASH && forall k :: r < k < |s| ==> s[k] != SLASH
    ensures LastSlash(s) == r
  {}

  lemma NameBehindSlash(front: Path, name: Path)
    requires SLASH !in name && name != []
    ensures LastSlash(front + [SLASH] + name) == |front|
    ensures (front + [SLASH] + name)[|front| + |name|] != SLASH
  {
    var s := front + [SLASH] + name;
    forall k | |front| < k < |s| ensures s[k] != SLASH {
      NoSlashAt(name, k - |front| - 1);
    }
    LastSlashIs(s, |front|);
  }

  lemma SlashedEnds(stack: seq<Path>)
    requires stack != [] && NamedStack(stack)
    ensures |Slashed(stack)| > 1 && Slashed(stack)[0] == SLASH && Slashed(stack)[|Slashed(stack)| - 1] != SLASH
  {
    var n := |stack| - 1;
    NameBehindSlash(Slashed(stack[..n]), stack[n]);
    if n > 0 {
      assert NamedStack(stack[..n]);
      SlashedEnds(stack[..n]);
    }
  }

  /** Going up from a path of names drops the last name. */
  lemma UpDrops(stack: seq<Path>)
    requires stack != [] && NamedStack(stack)
    ensures Up(PathOf(stack)) == PathOf(stack[..|stack| - 1])
  {
    var n := |stack| - 1;
    var front := Slashed(stack[..n]);
    SlashedEnds(stack);
    NameBehindSlash(front, stack[n]);
    assert Slashed(stack)[..|front|] == front;
    if n > 0 {
      assert NamedStack(stack[..n]);
      SlashedEnds(stack[..n]);
    } else {
      assert Slashed(stack)[..1] == [SLASH];
    }
  }

  lemma SlashedSnoc(stack: seq<Path>, name: Path)
    ensures Slashed(stack + [name]) == Slashed(stack) + [SLASH] + name
  {
    assert (stack + [name])[..|stack|] == stack;
  }

  lemma JoinsName(stack: seq<Path>, name: Path)
    requires NamedStack(stack)
    ensures Join(PathOf(stack), name) == Slashed(stack) + [SLASH] + name
  {
    if stack != [] {
      SlashedEnds(stack);
    } else {
      assert Slashed(stack) + [SLASH] + name == [SLASH] + name;
    }
  }

  lemma IntoMoves(stack: seq<Path>, name: Path)
    requires NamedStack(stack) && DirName(name)
    ensures NamedStack(stack + [name]) && Cd(PathOf(stack), Some(name)) == PathOf(stack + [name])
  {
    NoSlashAt(name, 0);
    SlashedSnoc(stack, name);
    JoinsName(stack, name);
    assert Cd(PathOf(stack), Some(name)) == Join(PathOf(stack), name);
  }

  lemma {:induction false} SlashedSplit(stack: seq<Path>, names: seq<Path>)
    ensures Slashed(stack + names) == Slashed(stack) + Slashed(names)
    decreases |names|
  {
    if names == [] {
      assert stack + names == stack;
    } else {
      var n := |names| - 1;
      assert stack + names == (stack + names[..n]) + [names[n]];
      SlashedSplit(stack, names[..n]);
      SlashedSnoc(stack + names[..n], names[n]);
    }
  }

  lemma {:induction false} SlashedStarts(names: seq<Path>)
    requires NamedStack(names) && names != []
    ensures |Slashed(names)| >= 2 * |names| && Slashed(names)[0] == SLASH && Slashed(names)[1] == names[0][0]
  {
    var n := |names| - 1;
    if n > 0 {
      assert NamedStack(names[..n]);
      SlashedStarts(names[..n]);
    } else {
      assert Slashed(names[..0]) == [];
    }
  }

  lemma {:induction false} SlashedText(names: seq<Path>)
    requires NamedStack(names)
    ensures 0 !in Slashed(names)
    decreases |names|
  {
    if names != [] {
      var n := |names| - 1;
      assert NamedStack(names[..n]);
      SlashedText(names[..n]);
    }
  }

  /** Such an argument is none of the special forms, and not an absolute path. */
  lemma RelativePath(names: seq<Path>)
    requires NamedStack(names) && names != []
    ensures var a := Relative(names); a != [] && a[0] != SLASH && a != [DOT] && a != [DOT, DOT]
    ensures Slashed(names) == [SLASH] + Relative(names)
  {
    SlashedStarts(names);
    NoSlashAt(names[0], 0);
    if |names| == 1 {
      assert Slashed(names[..0]) == [];
      assert Slashed(names)[1..] == names[0];
    }
  }

  /** A relative path of several names goes down all of them. */
  lemma AlongMoves(stack: seq<Path>, names: seq<Path>)
    requires NamedStack(stack) && NamedStack(names) && names != []
    ensures NamedStack(stack + names) && Cd(PathOf(stack), Some(Relative(names))) == PathOf(stack + names)
  {
    RelativePath(names);
    SlashedSplit(stack, names);
    JoinsName(stack, Relative(names));
    assert Slashed(stack) + [SLASH] + Relative(names) == Slashed(stack) + ([SLASH] + Relative(names));
  }

  /** An absolute path is taken as it is, wherever one was. */
  lemma AbsoluteIsPath(cwd: Path, a: Path)
    requires a != [] && a[0] == SLASH
    ensures Cd(cwd, Some(a)) == a
  {}

  lemma ToMoves(stack: seq<Path>, names: seq<Path>)
    requires NamedStack(names)
    ensures Cd(PathOf(stack), Some(PathOf(names))) == PathOf(names)
  {
    if names != [] {
      SlashedStarts(names);
    }
    AbsoluteIsPath(PathOf(stack), PathOf(names));
  }

  /** Every `cd` moves the stack of directories as its argument says. */
  lemma CdMoves(stack: seq<Path>, m: Move)
    requires NamedStack(stack) && ProperMove(m)
    ensures NamedStack(Go(stack, m)) && Cd(PathOf(stack), Argument(m)) == PathOf(Go(stack, m))
  {
    match m
    case Into(name) => IntoMoves(stack, name);
    case Along(names) => AlongMoves(stack, names);
    case To(names) => ToMoves(stack, names);
    case Parent =>
      if stack != [] {
        UpDrops(stack);
      }
    case _ =>
  }

  predicate ProperMoves(moves: seq<Move>) { forall i :: 0 <= i < |moves| ==> ProperMove(moves[i]) }

  function CdAll(cwd: Path, moves: seq<Move>): Path
    requires ProperMoves(moves)
    decreases |moves|
  {
    if moves == [] then cwd else CdAll(Cd(cwd, Argument(moves[0])), moves[1..])
  }

  function GoAll(stack: seq<Path>, moves: seq<Move>): seq<Path>
    decreases |moves|
  {
    if moves == [] then stack else GoAll(Go(stack, moves[0]), moves[1..])
  }

  /** Over every run, the working directory is the slash-joined stack of names. */
  lemma {:induction false} CwdIsStack(stack: seq<Path>, moves: seq<Move>)
    requires NamedStack(stack) && ProperMoves(moves)
    ensures NamedStack(GoAll(stack, moves)) && CdAll(PathOf(stack), moves) == PathOf(GoAll(stack, moves))
    decreases |moves|
  {
    if moves != [] {
      CdMoves(stack, moves[0]);
      CwdIsStack(Go(stack, moves[0]), moves[1..]);
    }
  }

  /** `cd name` and `cd ..` lead back to where one was. */
  lemma ThereAndBack(stack: seq<Path>, name: Path)
    requires NamedStack(stack) && DirName(name)
    ensures Cd(Cd(PathOf(stack), Some(name)), Some([DOT, DOT])) == PathOf(stack)
  {
    CdMoves(stack, Into(name));
    CdMoves(stack + [name], Parent);
    assert (stack + [name])[..|stack|] == stack;
  }

  function LastName(s: Path): Path { s[LastSlash(s) + 1..] }

  /** The last name stands behind the last slash. */
  lemma LastNameIs(stack: seq<Path>)
    requires stack != [] && NamedStack(stack)
    ensures NamedStack(stack[..|stack| - 1]) && stack == stack[..|stack| - 1] + [LastName(PathOf(stack))]
  {
    NameBehindSlash(Slashed(stack[..|stack| - 1]), stack[|stack| - 1]);
  }

  /** Different stacks of names have different paths. */
  lemma {:induction false} PathOfInjective(s: seq<Path>, t: seq<Path>)
    requires NamedStack(s) && NamedStack(t) && PathOf(s) == PathOf(t)
    ensures s == t
    decreases |s|
  {
    if s != [] { SlashedEnds(s); }
    if t != [] { SlashedEnds(t); }
    if s != [] && t != [] {
      UpDrops(s);
      UpDrops(t);
      LastNameIs(s);
      LastNameIs(t);
      PathOfInjective(s[..|s| - 1], t[..|t| - 1]);
    }
  }

  // ----- The environment -----

  datatype EnvVar = EnvVar(key: seq<Byte>, value: seq<Byte>)

  /** The first variable with this key, or the number of variables. */
  function KeyIndex(es: seq<EnvVar>, k: seq<Byte>, i: nat): (r: nat)
    requires i <= |es|
    ensures i <= r <= |es|
    ensures r < |es| ==> es[r].key == k
    ensures forall j :: i <= j < r ==> es[j].key != k
    decreases |es| - i
  {
    if i == |es| || es[i].key == k then i else KeyIndex(es, k, i + 1)
  }

  /** `SetEnv`: a new key is dropped when the table is full. */
  function SetIn(es: seq<EnvVar>, k: seq<Byte>, v: seq<Byte>): seq<EnvVar> {
    var i := KeyIndex(es, k, 0);
    if i < |es| then es[i := EnvVar(k, v)]
    else if |es| < MAX_ENVS then es + [EnvVar(k, v)]
    else es
  }

  function GetIn(es: seq<EnvVar>, k: seq<Byte>): Option<seq<Byte>> {
    var i := KeyIndex(es, k, 0);
    if i < |es| then Some(es[i].value) else None
  }

  lemma KeyIndexIs(es: seq<EnvVar>, k: seq<Byte>, i: nat)
    requires i <= |es| && (i < |es| ==> es[i].key == k) && forall j :: 0 <= j < i ==> es[j].key != k
    ensures KeyIndex(es, k, 0) == i
  {}

  /** A variable has its new value exactly when it existed or the table had room. */
  lemma SetGet(es: seq<EnvVar>, k: seq<Byte>, v: seq<Byte>)
    ensures GetIn(SetIn(es, k, v), k) == Some(v) <==> GetIn(es, k).Some? || |es| < MAX_ENVS
  {
    KeyIndexIs(SetIn(es, k, v), k, KeyIndex(es, k, 0));
  }

  /** Any other variable keeps its value. */
  lemma SetOther(es: seq<EnvVar>, k: seq<Byte>, v: seq<Byte>, other: seq<Byte>)
    requires other != k
    ensures GetIn(SetIn(es, k, v), other) == GetIn(es, other)
  {
    var i, j := KeyIndex(es, k, 0), KeyIndex(es, other, 0);
    var es' := SetIn(es, k, v);
    if j < |es| || |es'| == |es| {
      KeyIndexIs(es', other, j);
    } else {
      KeyIndexIs(es', other, |es'|);
    }
  }

  /** Does `cd` reach `SetCWD`? */
  predicate SetsCwd(cwd: Path, arg: Option<Path>) {
    arg == None
    || (arg.value != [DOT]
        && (arg.value == [DOT, DOT] ==> |cwd| > 1 && LastSlash(DropTrailingSlash(cwd)) >= 0))
  }

  function EnvAfter(es: seq<EnvVar>, cwd: Path, arg: Option<Path>): seq<EnvVar> {
    if SetsCwd(cwd, arg) then SetIn(es, PWD, Cd(cwd, arg)) else es
  }

  /** Once PWD holds the path it always does; before that, from the first `cd` that finds room in the table. */
  lemma PwdFollows(es: seq<EnvVar>, cwd: Path, arg: Option<Path>)
    ensures GetIn(es, PWD) == Some(cwd) ==> GetIn(EnvAfter(es, cwd, arg), PWD) == Some(Cd(cwd, arg))
    ensures SetsCwd(cwd, arg) ==>
              (GetIn(EnvAfter(es, cwd, arg), PWD) == Some(Cd(cwd, arg)) <==> GetIn(es, PWD).Some? || |es| < MAX_ENVS)
  {
    SetGet(es, PWD, Cd(cwd, arg));
  }

  // ----- The buffers -----

  class Shell {
    const cwd: array<Byte>     // 256 bytes
    const envs: array<EnvVar>  // 16 variables, with values of up to 63 bytes
    var envCount: int
    ghost var path: Path

    ghost predicate Valid()
      reads this, cwd
    {
      && cwd.Length == 256 && envs.Length == MAX_ENVS && 0 <= envCount <= MAX_ENVS
      && Str(cwd[..], path) && path != []
    }

    function Env(): seq<EnvVar>
      requires envs.Length == MAX_ENVS && 0 <= envCount <= MAX_ENVS
      reads this`envCount, envs
    {
      envs[..envCount]
    }

    method SetEnv(k: seq<Byte>, v: seq<Byte>)
      requires envs.Length == MAX_ENVS && 0 <= envCount <= MAX_ENVS && |k| <= MAX_KEY && |v| <= MAX_PATH
      modifies this`envCount, envs
      ensures 0 <= envCount <= MAX_ENVS && Env() == SetIn(old(Env()), k, v)
    {
      ghost var es := Env();
      var i := 0;
      while i < envCount
        invariant 0 <= i <= envCount && forall j :: 0 <= j < i ==> es[j].key != k
      {
        assert es[i] == envs[i];
        if envs[i].key == k {
          KeyIndexIs(es, k, i);
          envs[i] := EnvVar(k, v);
          assert Env() == es[i := EnvVar(k, v)];
          return;
        }
        i := i + 1;
      }
      KeyIndexIs(es, k, i);
      if envCount < 16 {
        envs[envCount] := EnvVar(k, v);
        envCount := envCount + 1;
        assert Env() == es + [EnvVar(k, v)];
      }
    }

    constructor (ps1: seq<Byte>)
      requires |ps1| <= MAX_PATH
      ensures Valid() && path == PathOf([]) && fresh(cwd) && fresh(envs)
      ensures Env() == [EnvVar(PS1, ps1)]
    {
      cwd := new Byte[256];
      envs := new EnvVar[MAX_ENVS](_ => EnvVar([], []));
      envCount := 0;
      path := [SLASH];
      new;
      cwd[0] := SLASH;
      cwd[1] := 0;
      assert cwd[..][0..1] == [SLASH];
      assert Env() == [];
      SetEnv(PS1, ps1);
    }

    method CopyPath(src: array<Byte>, ghost p: Path)
      requires cwd.Length == 256 && src != cwd && Str(src[..], p) && |p| <= MAX_PATH
      modifies cwd
      ensures Str(cwd[..], p)
    {
      assert forall k :: 0 <= k < |p| ==> p[k] in p && src[..][0..0 + |p|][k] == src[k];
      var i := 0;
      while src[i] != 0 && i < 255
        invariant 0 <= i <= |p| && cwd[..i] == p[..i]
        decreases |p| - i
      {
        assert p[..i + 1] == p[..i] + [src[i]];
        cwd[i] := src[i];
        i := i + 1;
      }
      cwd[i] := 0;
      assert cwd[..][0..0 + |p|] == p[..i] == p;
    }

    /** Copy the path, and export it as PWD. */
    method SetCwd(src: array<Byte>, ghost p: Path)
      requires Valid() && src != cwd && Str(src[..], p) && p != [] && |p| <= MAX_PATH
      modifies this`path, this`envCount, cwd, envs
      ensures Valid() && path == p && Env() == SetIn(old(Env()), PWD, p)
    {
      CopyPath(src, p);
      var len := StrLen(cwd, p);
      assert cwd[..len] == p;
      path := p;
      SetEnv(PWD, cwd[..len]);
    }

    /** Set the path to "/". */
    method GoToRoot()
      requires Valid()
      modifies this`path, this`envCount, cwd, envs
      ensures Valid() && path == [SLASH] && Env() == SetIn(old(Env()), PWD, [SLASH])
    {
      var root := new Byte[2];
      root[0], root[1] := SLASH, 0;
      assert root[..][0..1] == [SLASH];
      SetCwd(root, [SLASH]);
    }

    /** The argument of `cd`, if there is one. */
    static ghost function Given(arg: array?<Byte>, a: Path): Option<Path> { if arg == null then None else Some(a) }

    /** A relative path: a slash, unless there is one, and the name. */
    method Append(arg: array<Byte>, ghost a: Path)
      requires Valid() && arg != cwd && Str(arg[..], a)
      requires |Join(path, a)| <= MAX_PATH
      modifies this`path, this`envCount, cwd, envs
      ensures Valid() && path == Join(old(path), a) && Env() == SetIn(old(Env()), PWD, path)
    {
      var temp := new Byte[256];
      ghost var p := path;
      StrCpy(temp, cwd, p);
      var len := StrLen(temp, p);
      assert temp[len - 1] == temp[..][0..0 + |p|][len - 1];
      if temp[len - 1] != SLASH {
        temp[len] := SLASH;
        temp[len + 1] := 0;
        p := p + [SLASH];
        assert temp[..][0..0 + |p|] == p;
      }
      StrCat(temp, p, arg, a);
      SetCwd(temp, p + a);
    }

    /** The last slash among the first `len` bytes. */
    static method FindSlash(temp: array<Byte>, ghost t: Path, len: int) returns (lastSlash: int)
      requires len == |t| <= temp.Length && forall k :: 0 <= k < len ==> temp[k] == t[k]
      ensures lastSlash == LastSlash(t)
    {
      lastSlash := -1;
      var i := len - 1;
      while i >= 0
        invariant -1 <= i < len && lastSlash == -1
        invariant forall k :: i < k < len ==> t[k] != SLASH
      {
        if temp[i] == SLASH {
          lastSlash := i;
          LastSlashIs(t, i);
          break;
        }
        i := i - 1;
      }
    }

    /** End the string after `n` bytes. */
    static method Cut(a: array<Byte>, ghost t: Path, n: int)
      requires 0 <= n <= |t| < a.Length && 0 !in t && forall k :: 0 <= k < |t| ==> a[k] == t[k]
      modifies a
      ensures Str(a[..], t[..n])
    {
      a[n] := 0;
      assert a[..][0..0 + n] == t[..n];
    }

    method GoUp()
      requires Valid() && |path| <= MAX_PATH
      modifies this`path, this`envCount, cwd, envs
      ensures Valid() && path == Up(old(path))
      ensures Env() == EnvAfter(old(Env()), old(path), Some([DOT, DOT]))
    {
      var temp := new Byte[256];
      ghost var p := path;
      StrCpy(temp, cwd, p);
      var len := StrLen(temp, p);
      if len > 1 {
        assert forall k :: 0 <= k < len ==> temp[k] == temp[..][0..0 + |p|][k] == p[k];
        if temp[len - 1] == SLASH {
          temp[len - 1] := 0;
          len := len - 1;
        }
        ghost var t := DropTrailingSlash(p);
        assert forall k :: 0 <= k < len ==> temp[k] == t[k];
        var lastSlash := FindSlash(temp, t, len);
        if lastSlash >= 0 {
          Cut(temp, t, if lastSlash == 0 then 1 else lastSlash);
          SetCwd(temp, t[..if lastSlash == 0 then 1 else lastSlash]);
        }
      }
    }

    method CmdCd(arg: array?<Byte>, ghost a: Path)
      requires Valid() && |path| <= MAX_PATH && (arg != null ==> arg != cwd && Str(arg[..], a))
      requires |Cd(path, Given(arg, a))| <= MAX_PATH
      modifies this`path, this`envCount, cwd, envs
      ensures Valid() && path == Cd(old(path), Given(arg, a))
      ensures Env() == EnvAfter(old(Env()), old(path), Given(arg, a))
    {
      if arg == null {
        GoToRoot();
        return;
      }
      var here := StrEqual(arg, a, [DOT]);
      if here {
        return;
      }
      var root := StrEqual(arg, a, [SLASH]);
      if root {
        GoToRoot();
        return;
      }
      var up := StrEqual(arg, a, [DOT, DOT]);
      if up {
        GoUp();
        return;
      }
      assert a != [] ==> arg[0] == arg[..][0..0 + |a|][0] == a[0];
      if arg[0] != SLASH {
        Append(arg, a);
      } else {
        SetCwd(arg, a);
      }
    }

    /** The paths on the way fit the environment's 64-byte field. */
    static ghost predicate Short(stack: seq<Path>, moves: seq<Move>)
      decreases |moves|
    {
      |PathOf(stack)| <= MAX_PATH && (moves != [] ==> Short(Go(stack, moves[0]), moves[1..]))
    }

    static lemma ArgumentText(m: Move)
      requires ProperMove(m)
      ensures Argument(m).Some? ==> 0 !in Argument(m).value
    {
      if m.Along? || m.To? {
        SlashedText(m.names);
      }
    }

    /** The argument string in a buffer of its own, if the move has one. */
    static method ArgumentBuffer(m: Move) returns (arg: array?<Byte>)
      requires ProperMove(m)
      ensures arg == null <==> Argument(m) == None
      ensures arg != null ==> fresh(arg) && Str(arg[..], Argument(m).value)
    {
      arg := null;
      if Argument(m).Some? {
        var a := Argument(m).value;
        ArgumentText(m);
        arg := new Byte[|a| + 1](k requires 0 <= k < |a| + 1 => if k < |a| then a[k] else 0);
        assert arg[..][0..0 + |a|] == a;
      }
    }

    /** Any run of `cd` on the buffers: the path is that of the directory the moves lead to. */
    method RunCd(ghost stack: seq<Path>, moves: seq<Move>)
      requires Valid() && path == PathOf(stack) && NamedStack(stack) && Short(stack, moves)
      requires ProperMoves(moves)
      modifies this`path, this`envCount, cwd, envs
      ensures Valid() && path == PathOf(GoAll(stack, moves))
    {
      ghost var now := stack;
      var k := 0;
      while k < |moves|
        invariant 0 <= k <= |moves| && Valid() && path == PathOf(now) && NamedStack(now)
        invariant Short(now, moves[k..]) && GoAll(now, moves[k..]) == GoAll(stack, moves)
      {
        assert moves[k..][0] == moves[k] && moves[k..][1..] == moves[k + 1..];
        CdMoves(now, moves[k]);
        var arg := ArgumentBuffer(moves[k]);
        CmdCd(arg, Argument(moves[k]).GetOr([]));
        now := Go(now, moves[k]);
        k := k + 1;
      }
    }
  }
}
