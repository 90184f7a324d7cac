/** The snake of programs.cpp: its moves as a value, and the arrays they are made in. */
module SnakeRules {
  import opened Machine32

  const CELL_PIXELS := 16
  const MAX_LENGTH := 100

  // Scancodes
  const SC_W := 0x11
  const SC_A := 0x1E
  const SC_S := 0x1F
  const SC_D := 0x20

  datatype Cell = Cell(x: int, y: int)

  /** The body from head to tail, and the rest of the game's statics. */
  datatype Game = Game(w: int, h: int, body: seq<Cell>, direction: int, apple: Cell, score: int, over: bool, frames: int, seed: Word)

  /** The generator's next state, and the number below `max` it gives. */
  function NextSeed(seed: Word): Word { (seed * 1103515245 + 12345) % TWO_32 }

  function Random(seed: Word, max: int): int
    requires max > 0
  {
    NextSeed(seed) / 65536 % max
  }

  /** An apple one cell or more away from the border. */
  function PlaceApple(g: Game): Game
    requires g.w > 2 && g.h > 2
  {
    g.(apple := Cell(Random(g.seed, g.w - 2) + 1, Random(NextSeed(g.seed), g.h - 2) + 1),
       seed := NextSeed(NextSeed(g.seed)))
  }

  /** Three cells downwards from the centre, and no apple yet. */
  function StartBody(w: int, h: int, seed: Word): Game {
    Game(w, h, [Cell(w / 2, h / 2), Cell(w / 2, h / 2 + 1), Cell(w / 2, h / 2 + 2)], 0, Cell(0, 0), 0, false, 0, seed)
  }

  function Start(w: int, h: int, seed: Word): Game
    requires w > 2 && h > 2
  {
    PlaceApple(StartBody(w, h, seed))
  }

  /** A key turns the snake, but not back on itself. */
  function Turn(direction: int, scancode: int): int {
    if scancode == SC_W then if direction != 2 then 0 else direction
    else if scancode == SC_D then if direction != 3 then 1 else direction
    else if scancode == SC_S then if direction != 0 then 2 else direction
    else if scancode == SC_A then if direction != 1 then 3 else direction
    else direction
  }

  function Ahead(c: Cell, direction: int): Cell {
    if direction == 0 then Cell(c.x, c.y - 1)
    else if direction == 1 then Cell(c.x + 1, c.y)
    else if direction == 2 then Cell(c.x, c.y + 1)
    else if direction == 3 then Cell(c.x - 1, c.y)
    else c
  }

  predicate Inside(g: Game, c: Cell) { 0 <= c.x < g.w && 0 <= c.y < g.h }

  /** The body after moving its head to `c`: the tail stays when the snake grows. */
  function Advance(body: seq<Cell>, c: Cell, grow: bool): seq<Cell>
    requires body != []
  {
    [c] + if grow then body else body[..|body| - 1]
  }

  /** The head moves to a free cell; an apple there is eaten. */
  function Enter(g: Game, c: Cell): (r: Game)
    requires g.body != [] && g.w > 2 && g.h > 2
    ensures r.body != [] && r.w == g.w && r.h == g.h
  {
    var ate := c == g.apple;
    var fed := if ate then PlaceApple(g.(score := g.score + 10)) else g;
    fed.(body := Advance(g.body, c, ate && |g.body| < MAX_LENGTH - 1))
  }

  function Move(g: Game): (r: Game)
    requires g.body != [] && g.w > 2 && g.h > 2
    ensures r.body != [] && r.w == g.w && r.h == g.h
  {
    var c := Ahead(g.body[0], g.direction);
    if !Inside(g, c) || c in g.body then g.(over := true) else Enter(g, c)
  }

  /** One `Update`: any key restarts a finished game; the snake moves on every fifth call. */
  function Update(g: Game, scancode: int): (r: Game)
    requires g.body != [] && g.w > 2 && g.h > 2
    ensures r.body != [] && r.w == g.w && r.h == g.h
  {
    if g.over then Start(g.w, g.h, g.seed)
    else
      var g' := g.(direction := Turn(g.direction, scancode), frames := g.frames + 1);
      if g'.frames < 5 then g' else Move(g'.(frames := 0))
  }

  // ----- What every run keeps -----

  function Abs(x: int): int { if x < 0 then -x else x }

  predicate Neighbours(a: Cell, b: Cell) { Abs(a.x - b.x) + Abs(a.y - b.y) == 1 }

  /** A path in the grid that never meets itself. */
  ghost predicate SelfAvoiding(g: Game) {
    && (forall i :: 0 <= i < |g.body| ==> Inside(g, g.body[i]))
    && (forall i, j :: 0 <= i < j < |g.body| ==> g.body[i] != g.body[j])
    && (forall i, j {:trigger Neighbours(g.body[i], g.body[j])} :: 0 <= i && j == i + 1 < |g.body| ==> Neighbours(g.body[i], g.body[j]))
  }

  /** The length that goes with a score: three cells, one more for each apple, at most 99. */
  function LengthFor(score: int): int { if 3 + score / 10 < 99 then 3 + score / 10 else 99 }

  /** The direction back. */
  function Back(direction: int): int { (direction + 2) % 4 }

  ghost predicate Core(g: Game) {
    && g.w >= 3 && g.h >= 5
    && 0 <= g.direction <= 3 && 0 <= g.frames < 5
    && g.score >= 0 && g.score % 10 == 0 && |g.body| == LengthFor(g.score)
    && 1 <= g.apple.x <= g.w - 2 && 1 <= g.apple.y <= g.h - 2
    && SelfAvoiding(g)
  }

  /** Between two steps the neck is where the head came from. */
  ghost predicate Inv(g: Game) {
    && Core(g)
    && (g.frames == 0 && !g.over ==> g.body[1] == Ahead(g.body[0], Back(g.direction)))
  }

  lemma AdvanceAvoids(g: Game, c: Cell, grow: bool)
    requires SelfAvoiding(g) && |g.body| > 1
    requires Inside(g, c) && c !in g.body && Neighbours(c, g.body[0])
    ensures SelfAvoiding(g.(body := Advance(g.body, c, grow)))
  {
    var b, b' := g.body, Advance(g.body, c, grow);
    assert forall i :: 0 < i < |b'| ==> b'[i] == b[i - 1];
    forall i, j | 0 <= i && j == i + 1 < |b'| ensures Neighbours(b'[i], b'[j]) {
      if i > 0 {
        assert Neighbours(b[i - 1], b[j - 1]);
      }
    }
    forall i, j | 0 <= i < j < |b'| ensures b'[i] != b'[j] {
      if i == 0 {
        assert b[j - 1] in b;
      }
    }
  }

  /** The apple always lands inside the border, and nothing but the apple and the seed changes. */
  lemma AppleInside(g: Game)
    requires g.w > 2 && g.h > 2
    ensures var p := PlaceApple(g);
            && 1 <= p.apple.x <= g.w - 2 && 1 <= p.apple.y <= g.h - 2
            && p == g.(apple := p.apple, seed := p.seed)
  {}

  lemma ThreeDown(g: Game, x: int, y: int)
    requires 0 <= x < g.w && 0 <= y && y + 2 < g.h && g.body == [Cell(x, y), Cell(x, y + 1), Cell(x, y + 2)]
    ensures SelfAvoiding(g)
  {
    assert Neighbours(g.body[0], g.body[1]) && Neighbours(g.body[1], g.body[2]);
  }

  /** The first body is a path, wherever inside the border the apple goes. */
  lemma StartAt(w: int, h: int, seed: Word, apple: Cell, seed': Word)
    requires w >= 3 && h >= 5
    requires 1 <= apple.x <= w - 2 && 1 <= apple.y <= h - 2
    ensures Inv(StartBody(w, h, seed).(apple := apple, seed := seed'))
  {
    ThreeDown(StartBody(w, h, seed).(apple := apple, seed := seed'), w / 2, h / 2);
  }

  lemma StartInv(w: int, h: int, seed: Word)
    requires w >= 3 && h >= 5
    ensures Inv(Start(w, h, seed))
  {
    AppleInside(StartBody(w, h, seed));
    var p := Start(w, h, seed);
    StartAt(w, h, seed, p.apple, p.seed);
  }

  /** Eating keeps the path, wherever inside the border the next apple goes. */
  lemma EatInv(g: Game, apple: Cell, seed: Word)
    requires Core(g)
    requires var c := Ahead(g.body[0], g.direction); Inside(g, c) && c !in g.body
    requires 1 <= apple.x <= g.w - 2 && 1 <= apple.y <= g.h - 2
    ensures Core(g.(score := g.score + 10, apple := apple, seed := seed,
                   body := Advance(g.body, Ahead(g.body[0], g.direction), |g.body| < MAX_LENGTH - 1)))
  {
    var c, grow := Ahead(g.body[0], g.direction), |g.body| < MAX_LENGTH - 1;
    AdvanceAvoids(g, c, grow);
    assert SelfAvoiding(g.(body := Advance(g.body, c, grow)));
  }

  /** A step onto a free cell without an apple. */
  lemma PlainMoveInv(g: Game)
    requires Core(g)
    requires var c := Ahead(g.body[0], g.direction); Inside(g, c) && c !in g.body && c != g.apple
    ensures Inv(Move(g))
  {
    var c := Ahead(g.body[0], g.direction);
    AdvanceAvoids(g, c, false);
    assert SelfAvoiding(Move(g));
  }

  /** A step leaves the neck behind the head, wherever the keys since the last step have turned it. */
  lemma MoveInv(g: Game)
    requires Core(g)
    ensures Inv(Move(g))
  {
    var c := Ahead(g.body[0], g.direction);
    if Inside(g, c) && c !in g.body {
      if c == g.apple {
        var p := PlaceApple(g.(score := g.score + 10));
        AppleInside(g.(score := g.score + 10));
        EatInv(g, p.apple, p.seed);
      } else {
        PlainMoveInv(g);
      }
    }
  }

  /** Moves, growth, the end of a game and a restart all keep the invariant. */
  lemma UpdateInv(g: Game, scancode: int)
    requires Inv(g)
    ensures Inv(Update(g, scancode))
  {
    if g.over {
      StartInv(g.w, g.h, g.seed);
    } else {
      var g' := g.(direction := Turn(g.direction, scancode), frames := g.frames + 1);
      assert SelfAvoiding(g');
      if g'.frames == 5 {
        assert SelfAvoiding(g'.(frames := 0));
        MoveInv(g'.(frames := 0));
      }
    }
  }

  function Play(g: Game, keys: seq<int>): Game
    requires g.body != [] && g.w > 2 && g.h > 2
    decreases |keys|
  {
    if keys == [] then g
    else Play(Update(g, keys[0]), keys[1..])
  }

  /** Over every run the body is a self-avoiding path whose length goes with the score. */
  lemma {:induction false} PlayInv(g: Game, keys: seq<int>)
    requires Inv(g)
    ensures Inv(Play(g, keys))
    decreases |keys|
  {
    if keys != [] {
      UpdateInv(g, keys[0]);
      PlayInv(Update(g, keys[0]), keys[1..]);
    }
  }

  /** Within one game the snake never gets shorter and the score never drops. */
  lemma ScoreGrows(g: Game, scancode: int)
    requires Inv(g) && !g.over
    ensures Update(g, scancode).score >= g.score && |Update(g, scancode).body| >= |g.body|
    ensures Update(g, scancode).score > g.score ==> Update(g, scancode).body[0] == g.apple
  {}

  /** The direction after some keys. */
  function Turns(direction: int, keys: seq<int>): int
    decreases |keys|
  {
    if keys == [] then direction else Turns(Turn(direction, keys[0]), keys[1..])
  }

  /** One step's calls: the snake moves once, in the direction the keys lead to. */
  lemma {:induction false} StepUpdates(g: Game, keys: seq<int>)
    requires Core(g) && !g.over && |keys| + g.frames == 5
    ensures Play(g, keys) == Move(g.(direction := Turns(g.direction, keys), frames := 0))
    decreases |keys|
  {
    var g' := Update(g, keys[0]);
    if |keys| > 1 {
      StepUpdates(g', keys[1..]);
      assert g'.(direction := Turns(g.direction, keys), frames := 0) == g.(direction := Turns(g.direction, keys), frames := 0);
    } else {
      assert keys[1..] == [];
      assert Turns(Turn(g.direction, keys[0]), []) == Turn(g.direction, keys[0]);
    }
  }

  lemma {:induction false} TurnsInRange(direction: int, keys: seq<int>)
    requires 0 <= direction <= 3
    ensures 0 <= Turns(direction, keys) <= 3
    decreases |keys|
  {
    if keys != [] {
      TurnsInRange(Turn(direction, keys[0]), keys[1..]);
    }
  }

  /**
    For all five keys of a step, from every state a run can reach: the head moves onto the neck,
    which ends the game, exactly when the keys together turn the snake back on itself.
  */
  lemma NeckIff(g: Game, keys: seq<int>)
    requires Inv(g) && !g.over && g.frames == 0 && |keys| == 5
    ensures Ahead(g.body[0], Turns(g.direction, keys)) == g.body[1] <==> Turns(g.direction, keys) == Back(g.direction)
    ensures Turns(g.direction, keys) == Back(g.direction) ==> Play(g, keys).over && Play(g, keys).body == g.body
  {
    StepUpdates(g, keys);
    TurnsInRange(g.direction, keys);
    assert g.body[1] in g.body;
  }

  /** Any call after the end of a game starts another one: three cells downwards from the centre, heading up. */
  lemma Restarts(g: Game, key: int)
    requires Inv(g) && g.over
    ensures var r := Update(g, key); var x, y := g.w / 2, g.h / 2;
            && !r.over && r.score == 0 && r.frames == 0 && r.direction == 0
            && r.body == [Cell(x, y), Cell(x, y + 1), Cell(x, y + 2)]
            && 1 <= r.apple.x <= g.w - 2 && 1 <= r.apple.y <= g.h - 2
  {
    AppleInside(StartBody(g.w, g.h, g.seed));
  }

  /** None of these keys steers. */
  predicate Idle(keys: seq<int>) {
    forall i :: 0 <= i < |keys| ==> keys[i] != 0x11 && keys[i] != 0x1E && keys[i] != 0x1F && keys[i] != 0x20
  }

  lemma {:induction false} IdleTurns(direction: int, keys: seq<int>)
    requires Idle(keys)
    ensures Turns(direction, keys) == direction
    decreases |keys|
  {
    if keys != [] {
      IdleTurns(direction, keys[1..]);
    }
  }

  /** The head goes to (x, y), eating what is there; off the grid or onto the body it ends the game. */
  ghost predicate Goes(g: Game, r: Game, x: int, y: int)
    requires g.body != []
  {
    var c, n := Cell(x, y), |g.body|;
    if 0 <= x < g.w && 0 <= y < g.h && c !in g.body then
      && !r.over
      && (c == g.apple ==> r.score == g.score + 10 && r.body == if n < 99 then [c] + g.body else [c] + g.body[..n - 1])
      && (c != g.apple ==> r.score == g.score && r.apple == g.apple && r.body == [c] + g.body[..n - 1])
    else r.over && r.body == g.body && r.score == g.score
  }

  /** Placing an apple touches nothing but the apple and the seed. */
  lemma ApplePlaced(g: Game)
    requires g.w > 2 && g.h > 2
    ensures var p := PlaceApple(g); p == g.(apple := p.apple, seed := p.seed)
  {}

  lemma Entered(g: Game, c: Cell)
    requires g.body != [] && g.w > 2 && g.h > 2
    ensures var r := Enter(g, c);
            && r.over == g.over && r.direction == g.direction
            && r.score == (if c == g.apple then g.score + 10 else g.score) && (c != g.apple ==> r.apple == g.apple)
            && r.body == Advance(g.body, c, c == g.apple && |g.body| < 99)
  {
    ApplePlaced(g.(score := g.score + 10));
  }

  lemma Moved(g: Game)
    requires Core(g) && !g.over
    ensures var c := Ahead(g.body[0], g.direction); Goes(g, Move(g), c.x, c.y) && Move(g).direction == g.direction
  {
    var c := Ahead(g.body[0], g.direction);
    if Inside(g, c) && c !in g.body {
      Entered(g, c);
      assert Move(g) == Enter(g, c);
    } else {
      assert Move(g) == g.(over := true);
    }
  }

  lemma SteersTo(g: Game, key: int, rest: seq<int>)
    requires Inv(g) && !g.over && g.frames == 0 && |rest| == 4 && Idle(rest)
    ensures var d := Turn(g.direction, key); var c := Ahead(g.body[0], d); var r := Play(g, [key] + rest);
            r.direction == d && Goes(g, r, c.x, c.y)
  {
    var keys, d := [key] + rest, Turn(g.direction, key);
    assert keys[0] == key && keys[1..] == rest;
    IdleTurns(d, rest);
    assert Turns(g.direction, keys) == d;
    StepUpdates(g, keys);
    Moved(g.(direction := d, frames := 0));
  }

  /**
    Where the head is after a step in which `key` came first and no other key steered: W goes up,
    A left, S down and D right, except straight back; any other key keeps the direction.
  */
  lemma KeySteers(g: Game, key: int, rest: seq<int>)
    requires Inv(g) && !g.over && g.frames == 0 && |rest| == 4 && Idle(rest)
    ensures var h := g.body[0]; var r := Play(g, [key] + rest);
            && (key == 0x11 && g.direction != 2 ==> Goes(g, r, h.x, h.y - 1) && r.direction == 0)
            && (key == 0x20 && g.direction != 3 ==> Goes(g, r, h.x + 1, h.y) && r.direction == 1)
            && (key == 0x1F && g.direction != 0 ==> Goes(g, r, h.x, h.y + 1) && r.direction == 2)
            && (key == 0x1E && g.direction != 1 ==> Goes(g, r, h.x - 1, h.y) && r.direction == 3)
  {
    SteersTo(g, key, rest);
  }

  /** Without a key that steers, or with one straight back, the head goes on as before. */
  lemma GoesOn(g: Game, key: int, rest: seq<int>)
    requires Inv(g) && !g.over && g.frames == 0 && |rest| == 4 && Idle(rest)
    requires || Idle([key])
             || (key == 0x11 && g.direction == 2) || (key == 0x20 && g.direction == 3)
             || (key == 0x1F && g.direction == 0) || (key == 0x1E && g.direction == 1)
    ensures var h := g.body[0]; var r := Play(g, [key] + rest);
            && r.direction == g.direction
            && (g.direction == 0 ==> Goes(g, r, h.x, h.y - 1))
            && (g.direction == 1 ==> Goes(g, r, h.x + 1, h.y))
            && (g.direction == 2 ==> Goes(g, r, h.x, h.y + 1))
            && (g.direction == 3 ==> Goes(g, r, h.x - 1, h.y))
  {
    assert Idle([key]) ==> [key][0] == key && key != 0x11 && key != 0x1E && key != 0x1F && key != 0x20;
    SteersTo(g, key, rest);
  }

  /** How many of the keys change the direction. */
  function Effective(direction: int, keys: seq<int>): nat
    decreases |keys|
  {
    if keys == [] then 0
    else
      var d := Turn(direction, keys[0]);
      (if d == direction then 0 else 1) + Effective(d, keys[1..])
  }

  /** A single effective key never turns the snake back: what the guard is for. */
  lemma {:induction false} OneTurnSafe(direction: int, keys: seq<int>)
    requires 0 <= direction <= 3 && Effective(direction, keys) <= 1
    ensures Turns(direction, keys) != Back(direction)
    ensures Effective(direction, keys) == 0 ==> Turns(direction, keys) == direction
    decreases |keys|
  {
    if keys != [] {
      OneTurnSafe(Turn(direction, keys[0]), keys[1..]);
    }
  }

  function KeyFor(direction: int): int {
    if direction == 0 then SC_W else if direction == 1 then SC_D else if direction == 2 then SC_S else SC_A
  }

  /** A key to the side, and then the key back. */
  function Reversal(direction: int): seq<int> { [KeyFor((direction + 1) % 4), KeyFor(Back(direction)), 0, 0, 0] }

  lemma {:induction false} TurnsIdle(direction: int, n: nat)
    ensures Turns(direction, seq(n, _ => 0)) == direction
  {
    if n > 0 {
      assert seq(n, _ => 0)[1..] == seq(n - 1, _ => 0);
      TurnsIdle(direction, n - 1);
    }
  }

  lemma ReversalTurns(direction: int)
    requires 0 <= direction <= 3
    ensures Turns(direction, Reversal(direction)) == Back(direction)
  {
    var d1 := Turn(direction, Reversal(direction)[0]);
    var rest := Reversal(direction)[1..];
    var d2 := Turn(d1, rest[0]);
    TurnsIdle(d2, 3);
    assert rest[1..] == [0, 0, 0];
  }

  /** The guard against turning back can always be passed: from every reachable step two keys end the game. */
  lemma TurnGuardFails(g: Game)
    requires Inv(g) && !g.over && g.frames == 0
    ensures Play(g, Reversal(g.direction)).over
  {
    ReversalTurns(g.direction);
    NeckIff(g, Reversal(g.direction));
  }
}

module SnakeGame {
  import opened Machine32
  import opened SnakeRules

  class Snake {
    var screenW: int
    var screenH: int
    var gridW: int
    var gridH: int
    const snakeX: array<int>
    const snakeY: array<int>
    var snakeLength: int
    var direction: int
    var apple: Cell
    var score: int
    var gameOver: bool
    var frameCounter: int
    var randSeed: Word
    ghost var body: seq<Cell>

    constructor ()
      ensures snakeX.Length == snakeY.Length == MAX_LENGTH && snakeX != snakeY
      ensures randSeed == 12345 && fresh(snakeX) && fresh(snakeY)
    {
      snakeX, snakeY := new int[MAX_LENGTH], new int[MAX_LENGTH];
      screenW, screenH, gridW, gridH, snakeLength, direction := 0, 0, 0, 0, 0, 0;
      apple, score, gameOver, frameCounter, randSeed, body := Cell(0, 0), 0, false, 0, 12345, [];
    }

    ghost function State(): Game
      reads this
    {
      Game(gridW, gridH, body, direction, apple, score, gameOver, frameCounter, randSeed)
    }

    ghost predicate Arrays()
      reads this, snakeX, snakeY
    {
      && snakeX.Length == snakeY.Length == MAX_LENGTH && snakeX != snakeY
      && snakeLength == |body| <= MAX_LENGTH - 1
      && forall i :: 0 <= i < |body| ==> Cell(snakeX[i], snakeY[i]) == body[i]
    }

    ghost predicate Valid()
      reads this, snakeX, snakeY
    {
      && Arrays() && Inv(State())
      && gridW == screenW / CELL_PIXELS && gridH == screenH / CELL_PIXELS
    }

    method NextRandom(max: int) returns (r: int)
      requires max > 0
      modifies this`randSeed
      ensures r == Random(old(randSeed), max) && randSeed == NextSeed(old(randSeed))
    {
      randSeed := (randSeed * 1103515245 + 12345) % TWO_32;
      r := randSeed / 65536 % max;
    }

    method PutApple()
      requires gridW > 2 && gridH > 2
      modifies this`randSeed, this`apple
      ensures State() == PlaceApple(old(State()))
      ensures old(Arrays()) ==> Arrays()
    {
      var x := NextRandom(gridW - 2);
      var y := NextRandom(gridH - 2);
      apple := Cell(x + 1, y + 1);
    }

    /** Three cells downwards from the centre. */
    method PlaceBody(centerX: int, centerY: int)
      requires snakeX.Length == snakeY.Length == MAX_LENGTH && snakeX != snakeY
      modifies this`snakeLength, this`body, snakeX, snakeY
      ensures Arrays() && body == [Cell(centerX, centerY), Cell(centerX, centerY + 1), Cell(centerX, centerY + 2)]
    {
      snakeLength := 3;
      var i := 0;
      while i < snakeLength
        invariant 0 <= i <= snakeLength == 3
        invariant forall k :: 0 <= k < i ==> snakeX[k] == centerX && snakeY[k] == centerY + k
      {
        snakeX[i] := centerX;
        snakeY[i] := centerY + i;
        i := i + 1;
      }
      body := [Cell(centerX, centerY), Cell(centerX, centerY + 1), Cell(centerX, centerY + 2)];
    }

    /** Every static but the apple and the seed. */
    method Reset(screenWidth: int, screenHeight: int)
      requires snakeX.Length == snakeY.Length == MAX_LENGTH && snakeX != snakeY
      modifies this, snakeX, snakeY
      ensures Arrays() && screenW == screenWidth && screenH == screenHeight
      ensures State() == StartBody(screenWidth / CELL_PIXELS, screenHeight / CELL_PIXELS, old(randSeed))
    {
      screenW, screenH := screenWidth, screenHeight;
      gridW, gridH := screenWidth / CELL_PIXELS, screenHeight / CELL_PIXELS;
      PlaceBody(gridW / 2, gridH / 2);
      apple := Cell(0, 0);
      direction, score, gameOver, frameCounter := 0, 0, false, 0;
    }

    /** Start a game on a screen of at least 3 by 5 cells. */
    method Init(screenWidth: int, screenHeight: int)
      requires snakeX.Length == snakeY.Length == MAX_LENGTH && snakeX != snakeY
      requires screenWidth / CELL_PIXELS >= 3 && screenHeight / CELL_PIXELS >= 5
      modifies this, snakeX, snakeY
      ensures Valid() && screenW == screenWidth && screenH == screenHeight
      ensures State() == Start(screenWidth / CELL_PIXELS, screenHeight / CELL_PIXELS, old(randSeed))
    {
      Reset(screenWidth, screenHeight);
      StartInv(gridW, gridH, randSeed);
      PutApple();
    }

    /** Does the body contain this cell? */
    method Hits(x: int, y: int) returns (hit: bool)
      requires Arrays()
      ensures hit <==> Cell(x, y) in body
    {
      var i := 0;
      while i < snakeLength
        invariant 0 <= i <= |body|
        invariant forall k :: 0 <= k < i ==> body[k] != Cell(x, y)
      {
        assert Cell(snakeX[i], snakeY[i]) == body[i];
        if snakeX[i] == x && snakeY[i] == y {
          return true;
        }
        i := i + 1;
      }
      hit := false;
    }

    /** Shift the body by one cell, towards the tail, and put the head in front. */
    method Shift(newX: int, newY: int, grow: bool)
      requires Arrays() && body != [] && (grow ==> |body| < MAX_LENGTH - 1)
      modifies this`snakeLength, this`body, snakeX, snakeY
      ensures Arrays() && body == Advance(old(body), Cell(newX, newY), grow)
    {
      ghost var b := body;
      if grow {
        snakeLength := snakeLength + 1;
      }
      var i := snakeLength - 1;
      while i > 0
        invariant 0 <= i < snakeLength == |Advance(b, Cell(newX, newY), grow)|
        invariant forall k :: 0 <= k < |b| && k <= i ==> Cell(snakeX[k], snakeY[k]) == b[k]
        invariant forall k :: i < k < snakeLength ==> Cell(snakeX[k], snakeY[k]) == b[k - 1]
      {
        snakeX[i] := snakeX[i - 1];
        snakeY[i] := snakeY[i - 1];
        i := i - 1;
      }
      snakeX[0] := newX;
      snakeY[0] := newY;
      body := Advance(b, Cell(newX, newY), grow);
    }

    method ChangeDirection(scancode: int)
      modifies this`direction
      ensures direction == Turn(old(direction), scancode)
    {
      if scancode == SC_W {
        if direction != 2 { direction := 0; }
      } else if scancode == SC_D {
        if direction != 3 { direction := 1; }
      } else if scancode == SC_S {
        if direction != 0 { direction := 2; }
      } else if scancode == SC_A {
        if direction != 1 { direction := 3; }
      }
    }

    method MoveTo(newX: int, newY: int)
      requires Arrays() && body != [] && gridW > 2 && gridH > 2
      modifies this`score, this`apple, this`randSeed, this`snakeLength, this`body, snakeX, snakeY
      ensures Arrays() && State() == Enter(old(State()), Cell(newX, newY))
    {
      var ate := newX == apple.x && newY == apple.y;
      var grow := ate && snakeLength < MAX_LENGTH - 1;
      if ate {
        score := score + 10;
        PutApple();
      }
      Shift(newX, newY, grow);
    }

    /** The part of `Update` behind the frame counter. */
    method Step()
      requires Arrays() && body != [] && gridW > 2 && gridH > 2
      modifies this, snakeX, snakeY
      ensures Arrays() && State() == Move(old(State()))
      ensures screenW == old(screenW) && screenH == old(screenH)
    {
      assert Cell(snakeX[0], snakeY[0]) == body[0];
      var newX, newY := snakeX[0], snakeY[0];
      if direction == 0 { newY := newY - 1; }
      else if direction == 1 { newX := newX + 1; }
      else if direction == 2 { newY := newY + 1; }
      else if direction == 3 { newX := newX - 1; }
      if newX < 0 || newX >= gridW || newY < 0 || newY >= gridH {
        gameOver := true;
        return;
      }
      var hit := Hits(newX, newY);
      if hit {
        gameOver := true;
        return;
      }
      MoveTo(newX, newY);
    }

    method UpdateGame(scancode: int)
      requires Valid()
      modifies this, snakeX, snakeY
      ensures Valid() && State() == Update(old(State()), scancode)
    {
      UpdateInv(State(), scancode);
      if gameOver {
        Init(screenW, screenH);
        return;
      }
      ChangeDirection(scancode);
      frameCounter := frameCounter + 1;
      if frameCounter < 5 {
        return;
      }
      frameCounter := 0;
      Step();
    }
  }
}
