/** The snake game as functions on the board, and what holds in every state of every game. */
module SnakeSpec {

  const WIDTH := 20
  const HEIGHT := 10
  const MAX_LEN := WIDTH * HEIGHT
  const MAX_ATTEMPTS := 100

  datatype Pos = Pos(x: int, y: int)

  datatype Dir = Up | Down | Left | Right

  datatype State = Running | Over | Win | Paused

  /** `cells` is the whole body array; only the first `length` are the snake. */
  datatype Game = Game(cells: seq<Pos>, length: nat, dir: Dir, food: Pos, state: State, score: nat, seed: nat)

  // ----- random food -----

  function NextSeed(seed: nat): (r: nat)
    ensures r < 0x1_0000_0000
  {
    (seed * 1103515245 + 12345) % 0x1_0000_0000
  }

  function Draw(seed: nat): nat { seed / 65536 % 32768 }

  datatype Spawned = Spawned(food: Pos, seed: nat)

  /** One attempt: a cell of the board, and the seed after two draws. */
  function Attempt(seed: nat): Spawned {
    var s1 := NextSeed(seed);
    var s2 := NextSeed(s1);
    Spawned(Pos(Draw(s1) % WIDTH, Draw(s2) % HEIGHT), s2)
  }

  /** Attempts are made until a cell outside `body` is found, or `left` attempts are used up. */
  function Spawn(body: seq<Pos>, seed: nat, left: nat): Spawned
    requires left > 0
    decreases left
  {
    var a := Attempt(seed);
    if a.food !in body || left == 1 then a else Spawn(body, a.seed, left - 1)
  }

  /** Attempt number `k` of a search from `seed`. */
  function AttemptAt(seed: nat, k: nat): Spawned
    decreases k
  {
    if k == 0 then Attempt(seed) else AttemptAt(Attempt(seed).seed, k - 1)
  }

  /** The first of the attempts from number `k` on, up to number `last`, that misses the body; else the last. */
  function FirstOff(body: seq<Pos>, seed: nat, k: nat, last: nat): (r: nat)
    requires k <= last
    ensures k <= r <= last
    ensures forall j :: k <= j < r ==> AttemptAt(seed, j).food in body
    ensures r < last ==> AttemptAt(seed, r).food !in body
    decreases last - k
  {
    if k == last || AttemptAt(seed, k).food !in body then k else FirstOff(body, seed, k + 1, last)
  }

  lemma AttemptsShift(seed: nat, k: nat)
    ensures AttemptAt(seed, k + 1) == AttemptAt(Attempt(seed).seed, k)
  {
  }

  lemma {:induction false} FirstOffShift(body: seq<Pos>, seed: nat, k: nat, last: nat)
    requires k <= last
    ensures FirstOff(body, seed, k + 1, last + 1) == FirstOff(body, Attempt(seed).seed, k, last) + 1
    decreases last - k
  {
    hide Attempt, AttemptAt;
    AttemptsShift(seed, k);
    if k < last {
      FirstOffShift(body, seed, k + 1, last);
    }
  }

  /** The search takes the first attempt that misses the body; if all hit it, the last one. */
  lemma {:induction false} SpawnIsFirstOff(body: seq<Pos>, seed: nat, left: nat)
    requires left > 0
    ensures Spawn(body, seed, left) == AttemptAt(seed, FirstOff(body, seed, 0, left - 1))
    decreases left
  {
    hide Attempt;
    var a := Attempt(seed);
    assert AttemptAt(seed, 0) == a;
    if a.food in body && left > 1 {
      SpawnIsFirstOff(body, a.seed, left - 1);
      FirstOffShift(body, seed, 0, left - 2);
      AttemptsShift(seed, FirstOff(body, a.seed, 0, left - 2));
    }
  }

  // ----- moves -----

  predicate OnBoard(p: Pos) { 0 <= p.x < WIDTH && 0 <= p.y < HEIGHT }

  function Step(p: Pos, d: Dir): Pos {
    match d
    case Up => p.(y := p.y - 1)
    case Down => p.(y := p.y + 1)
    case Left => p.(x := p.x - 1)
    case Right => p.(x := p.x + 1)
  }

  function Opposite(d: Dir): Dir {
    match d
    case Up => Down
    case Down => Up
    case Left => Right
    case Right => Left
  }

  predicate Sized(g: Game) { |g.cells| == MAX_LEN && 0 < g.length <= MAX_LEN }

  /** The snake, head first. */
  function Body(g: Game): seq<Pos>
    requires Sized(g)
  {
    g.cells[..g.length]
  }

  function Init(tick: nat): Game {
    var cells := [Pos(10, 5), Pos(9, 5), Pos(8, 5)] + seq(MAX_LEN - 3, _ => Pos(0, 0));
    var f := Spawn(cells[..3], tick, MAX_ATTEMPTS);
    Game(cells, 3, Right, f.food, Running, 0, f.seed)
  }

  /** The body array after the shift: the head in front, every cell of the snake one place on, the last one gone. */
  function Shifted(cells: seq<Pos>, length: nat, head: Pos): (r: seq<Pos>)
    requires 0 < length <= |cells|
    ensures |r| == |cells|
  {
    [head] + cells[..length - 1] + cells[length..]
  }

  /** The snake has eaten: it is one longer, and new food is sought before it moves. */
  function Fed(g: Game): Game
    requires Sized(g) && g.length < MAX_LEN
  {
    var f := Spawn(g.cells[..g.length + 1], g.seed, MAX_ATTEMPTS);
    g.(score := g.score + 10, length := g.length + 1, food := f.food, seed := f.seed,
       state := if g.length + 1 >= MAX_LEN then Win else g.state)
  }

  lemma FedFrame(g: Game)
    requires Sized(g) && g.length < MAX_LEN && g.state == Running
    ensures var f := Fed(g);
            && f.cells == g.cells && f.length == g.length + 1 && f.dir == g.dir && Sized(f)
            && (f.state == Win <==> f.length >= MAX_LEN)
  {
    hide Spawn;
  }

  function Update(g: Game): Game
    requires Sized(g) && g.length < MAX_LEN
  {
    if g.state != Running then g
    else
      var head := Step(g.cells[0], g.dir);
      if !OnBoard(head) || head in Body(g) then g.(state := Over)
      else
        var fed := if head == g.food then Fed(g) else g;
        if fed.state == Win then fed else fed.(cells := Shifted(fed.cells, fed.length, head))
  }

  function Upper(key: char): char {
    if 'a' <= key <= 'z' then (key as int - 'a' as int + 'A' as int) as char else key
  }

  function Turned(d: Dir, key: char): Dir {
    if key == 'W' then (if d != Down then Up else d)
    else if key == 'S' then (if d != Up then Down else d)
    else if key == 'A' then (if d != Right then Left else d)
    else if key == 'D' then (if d != Left then Right else d)
    else d
  }

  function Input(g: Game, key: char, tick: nat): Game {
    var k := Upper(key);
    match g.state
    case Running => g.(dir := Turned(g.dir, k), state := if k == 'P' then Paused else Running)
    case Paused => if k == 'P' then g.(state := Running) else g
    case Over => if k == 'R' then Init(tick) else g
    case Win => if k == 'R' then Init(tick) else g
  }

  // ----- the invariant -----

  ghost predicate Apart(body: seq<Pos>) {
    forall i, j :: 0 <= i < j < |body| ==> body[i] != body[j]
  }

  predicate Adjacent(p: Pos, q: Pos) {
    (p.x == q.x && (p.y == q.y + 1 || q.y == p.y + 1)) || (p.y == q.y && (p.x == q.x + 1 || q.x == p.x + 1))
  }

  /** A snake: distinct cells of the board, each next to the one before. */
  ghost predicate IsSnake(body: seq<Pos>) {
    && Apart(body)
    && (forall i :: 0 <= i < |body| ==> OnBoard(body[i]))
    && forall i, j :: 0 <= i && j == i + 1 && j < |body| ==> Adjacent(body[i], body[j])
  }

  ghost predicate Inv(g: Game) {
    && Sized(g) && g.length >= 3 && OnBoard(g.food)
    && g.score == 10 * (g.length - 3)
    && (g.state == Win <==> g.length == MAX_LEN)
    && (g.state != Win ==> IsSnake(Body(g)))
  }

  lemma {:induction false} SpawnOnBoard(body: seq<Pos>, seed: nat, left: nat)
    requires left > 0
    ensures OnBoard(Spawn(body, seed, left).food)
    decreases left
  {
    hide NextSeed, Draw;
    if left > 1 {
      SpawnOnBoard(body, Attempt(seed).seed, left - 1);
    }
  }

  lemma InitInv(tick: nat)
    ensures Inv(Init(tick))
  {
    hide Spawn;
    var g := Init(tick);
    SpawnOnBoard(g.cells[..3], tick, MAX_ATTEMPTS);
    assert Body(g) == [Pos(10, 5), Pos(9, 5), Pos(8, 5)];
  }

  lemma StepAdjacent(p: Pos, d: Dir)
    ensures Adjacent(Step(p, d), p)
  {
  }

  /** A new head on a free neighbouring cell makes a longer snake; dropping the tail makes one of the old length. */
  lemma HeadOn(body: seq<Pos>, head: Pos)
    requires IsSnake(body) && body != [] && OnBoard(head) && head !in body && Adjacent(head, body[0])
    ensures IsSnake([head] + body) && IsSnake([head] + body[..|body| - 1])
  {
    var longer := [head] + body;
    assert forall i :: 1 <= i < |longer| ==> longer[i] == body[i - 1];
    var moved := [head] + body[..|body| - 1];
    assert forall i :: 0 <= i < |moved| ==> moved[i] == longer[i];
  }

  /** The shift is the head put in front of all but the last cell. */
  lemma ShiftedBody(cells: seq<Pos>, length: nat, head: Pos)
    requires 0 < length <= |cells|
    ensures Shifted(cells, length, head)[..length] == [head] + cells[..length - 1]
  {
  }

  /**
   What an update does to the snake: nothing, or it moves one step, growing exactly when the step is onto the
   food.
   */
  lemma UpdateMoves(g: Game)
    requires Inv(g) && g.state == Running
    ensures var g', head := Update(g), Step(g.cells[0], g.dir);
            && Sized(g')
            && (g'.state == Over <==> !OnBoard(head) || head in Body(g))
            && (g'.state == Over ==> g' == g.(state := Over))
            && (g'.state != Over ==> g'.score == g.score + if head == g.food then 10 else 0)
            && (g'.state == Running ==>
                  Body(g') == [head] + if head == g.food then Body(g) else Body(g)[..g.length - 1])
            && (g'.state == Win <==> g'.state != Over && head == g.food && g.length == MAX_LEN - 1)
            && g'.dir == g.dir
  {
    hide Spawn, IsSnake;
    var head := Step(g.cells[0], g.dir);
    if OnBoard(head) && head !in Body(g) {
      ShiftedBody(g.cells, g.length, head);
      ShiftedBody(g.cells, g.length + 1, head);
      assert g.cells[..g.length][..g.length - 1] == g.cells[..g.length - 1];
    }
  }

  lemma UpdateKeepsInv(g: Game)
    requires Inv(g) && g.state != Win
    ensures Inv(Update(g))
  {
    hide Spawn, IsSnake;
    if g.state == Running {
      UpdateMoves(g);
      var head := Step(g.cells[0], g.dir);
      SpawnOnBoard(g.cells[..g.length + 1], g.seed, MAX_ATTEMPTS);
      StepAdjacent(g.cells[0], g.dir);
      if OnBoard(head) && head !in Body(g) {
        HeadOn(Body(g), head);
      }
    }
  }

  lemma InputKeepsInv(g: Game, key: char, tick: nat)
    requires Inv(g)
    ensures Inv(Input(g, key, tick))
  {
    hide Init, IsSnake;
    InitInv(tick);
  }

  // ----- whole games -----

  datatype Op = UpdateOp | KeyOp(key: char, tick: nat)

  /** A finished game only waits for a key. */
  ghost predicate Happens(g: Game, op: Op, g': Game) {
    match op
    case UpdateOp => Sized(g) && g' == if g.state == Running && g.length < MAX_LEN then Update(g) else g
    case KeyOp(k, t) => g' == Input(g, k, t)
  }

  ghost predicate RunOf(gs: seq<Game>, ops: seq<Op>) {
    && |gs| == |ops| + 1
    && forall i, j :: 0 <= i < |ops| && j == i + 1 ==> Happens(gs[i], ops[i], gs[j])
  }

  /**
   In every state of every game the snake is one, its score goes with its length, and it fills the board
   exactly on winning.
   */
  lemma {:induction false} SnakeOverRuns(gs: seq<Game>, ops: seq<Op>, n: nat, tick: nat)
    requires RunOf(gs, ops) && gs[0] == Init(tick) && n < |gs|
    ensures Inv(gs[n])
    decreases n
  {
    hide Inv, Init, Update, Input;
    if n == 0 {
      InitInv(tick);
    } else {
      SnakeOverRuns(gs, ops, n - 1, tick);
      assert Happens(gs[n - 1], ops[n - 1], gs[n]);
      StepKeepsInv(gs[n - 1], ops[n - 1], gs[n]);
    }
  }

  lemma StepKeepsInv(g: Game, op: Op, g': Game)
    requires Inv(g) && Happens(g, op, g')
    ensures Inv(g')
  {
    hide Update, Input, IsSnake;
    match op {
      case UpdateOp => if g.state == Running { UpdateKeepsInv(g); }
      case KeyOp(k, t) => InputKeepsInv(g, k, t);
    }
  }

  // ----- turning back -----

  /** The snake runs into its own neck exactly when its direction is opposite to the one it last moved in. */
  lemma NeckIff(body: seq<Pos>, d: Dir, last: Dir)
    requires |body| >= 2 && body[0] == Step(body[1], last)
    ensures Step(body[0], d) == body[1] <==> d == Opposite(last)
  {
  }

  /**
   The guard on turns looks at the direction chosen last, not at the one moved in. One
   key between two updates cannot turn the snake back; two keys can, from every
   direction.
   */
  lemma OneKeyNeverTurnsBack(d: Dir, key: char)
    ensures Turned(d, Upper(key)) != Opposite(d)
  {
  }

  /** After a move and at most one key, the next step is not onto the neck. */
  lemma NoNeckAfterOneKey(g: Game, key: char, tick: nat)
    requires Inv(g) && g.state == Running && Update(g).state == Running
    requires Input(Update(g), key, tick).state == Running
    ensures var h := Input(Update(g), key, tick);
            Sized(h) && h.length >= 3 && Step(h.cells[0], h.dir) != h.cells[1]
              && Step(Update(g).cells[0], Update(g).dir) != h.cells[1]
  {
    hide Spawn, IsSnake;
    UpdateMoves(g);
    OneKeyNeverTurnsBack(g.dir, key);
    var g' := Update(g);
    assert g'.cells[0] == Step(g.cells[0], g.dir) && g'.cells[1] == g.cells[0] by {
      ShiftedBody(g.cells, g.length, Step(g.cells[0], g.dir));
    }
  }

  lemma TwoKeysTurnBack(d: Dir)
    ensures exists k1: char, k2: char :: Turned(Turned(d, k1), k2) == Opposite(d)
  {
    match d {
      case Up => assert Turned(Turned(d, 'A'), 'S') == Down;
      case Down => assert Turned(Turned(d, 'A'), 'W') == Up;
      case Left => assert Turned(Turned(d, 'W'), 'D') == Right;
      case Right => assert Turned(Turned(d, 'W'), 'A') == Left;
    }
  }

  /**
   From every start, pressing `W` and then `A` before the first update ends the game: the snake runs into its
   neck.
   */
  lemma TwoKeysEndGame(tick: nat)
    ensures var g0 := Init(tick);
            exists g1, g2, g3 ::
              && RunOf([g0, g1, g2, g3], [KeyOp('W', tick), KeyOp('A', tick), UpdateOp])
              && g2.state == Running && g3.state == Over && Sized(g2) && Step(g2.cells[0], g2.dir) == g2.cells[1]
  {
    hide Spawn;
    var g0 := Init(tick);
    var g1 := Input(g0, 'W', tick);
    var g2 := Input(g1, 'A', tick);
    var g3 := Update(g2);
    assert g2.cells[1] == Pos(9, 5) == Body(g2)[1];
    assert Happens(g0, KeyOp('W', tick), g1) && Happens(g1, KeyOp('A', tick), g2) && Happens(g2, UpdateOp, g3);
    assert RunOf([g0, g1, g2, g3], [KeyOp('W', tick), KeyOp('A', tick), UpdateOp]);
  }

  // ----- where food lands -----

  /**
   Food is sought before the snake moves and after its length grows, so the search
   avoids the old snake and the unused cell behind it, but not the new head. The food
   lands on the snake exactly when the attempt it takes is the cell just eaten, or is
   the last one and hits the old snake.
   */
  lemma FoodOnSnakeIff(g: Game)
    requires Inv(g) && g.state == Running && Update(g).state == Running && Step(g.cells[0], g.dir) == g.food
    ensures Sized(Update(g))
    ensures var k := FirstOff(g.cells[..g.length + 1], g.seed, 0, 99);
            Update(g).food in Body(Update(g)) <==> AttemptAt(g.seed, k).food in [g.food] + Body(g)
  {
    hide Spawn, AttemptAt, IsSnake, Apart;
    UpdateMoves(g);
    SpawnIsFirstOff(g.cells[..g.length + 1], g.seed, MAX_ATTEMPTS);
  }

  lemma AttemptValue(seed: nat, s1: nat, s2: nat)
    requires NextSeed(seed) == s1 && NextSeed(s1) == s2
    ensures Attempt(seed) == Spawned(Pos(Draw(s1) % WIDTH, Draw(s2) % HEIGHT), s2)
  {
  }

  lemma TwoAttemptsAlike()
    ensures Attempt(23963) == Spawned(Pos(11, 5), 3194468625) && Attempt(3194468625) == Spawned(Pos(11, 5), 1350383735)
  {
    AttemptValue(23963, 3717154104, 3194468625);
    AttemptValue(3194468625, 548612726, 1350383735);
  }

  /** A game that starts at tick 23963: its first update eats, and the new food is under the head. */
  lemma FoodUnderHead()
    ensures exists g :: RunOf([Init(23963), g], [UpdateOp])
              && Sized(g) && g.state == Running && g.length == 4 && g.food == g.cells[0] == Pos(11, 5)
  {
    hide Attempt, IsSnake;
    TwoAttemptsAlike();
    var g0 := Init(23963);
    var g := Update(g0);
    InitInv(23963);
    var longer := g0.cells[..4];
    assert longer == [Pos(10, 5), Pos(9, 5), Pos(8, 5), Pos(0, 0)];
    assert g0.food == Pos(11, 5) && g0.seed == 3194468625;
    UpdateMoves(g0);
    assert Happens(g0, UpdateOp, g);
    assert RunOf([g0, g], [UpdateOp]);
  }

  // ----- keys and cells -----

  /** The cell next to the head on the side of a key: row 0 is the top one. */
  function Beside(p: Pos, key: char): Pos {
    if key == 'W' || key == 'w' then Pos(p.x, p.y - 1)
    else if key == 'S' || key == 's' then Pos(p.x, p.y + 1)
    else if key == 'A' || key == 'a' then Pos(p.x - 1, p.y)
    else if key == 'D' || key == 'd' then Pos(p.x + 1, p.y)
    else p
  }

  predicate Steers(key: char) { key in "WSADwsad" }

  /** The key points back against the direction chosen last. */
  predicate Against(g: Game, key: char) {
    match g.dir
    case Up => key == 'S' || key == 's'
    case Down => key == 'W' || key == 'w'
    case Left => key == 'D' || key == 'd'
    case Right => key == 'A' || key == 'a'
  }

  /**
   In a running game a key that does not point back moves the head to the cell on that
   side, at the next update that does not end the game; the snake follows, longer by
   one if food was there.
   */
  lemma KeyMovesHead(g: Game, key: char, tick: nat)
    requires Inv(g) && g.state == Running && Steers(key) && !Against(g, key)
    ensures var g1 := Input(g, key, tick);
            && Sized(g1) && g1.length < MAX_LEN
            && var g2 := Update(g1);
               g2.state == Running ==>
                 && Sized(g2) && g2.cells[0] == Beside(g.cells[0], key)
                 && g2.cells[1] == g.cells[0]
                 && (g2.length == g.length + 1 <==> Beside(g.cells[0], key) == g.food)
                 && (g2.length == g.length || g2.length == g.length + 1)
  {
    hide Spawn, IsSnake;
    InputKeepsInv(g, key, tick);
    var g1 := Input(g, key, tick);
    UpdateKeepsInv(g1);
    assert Step(g.cells[0], g1.dir) == Beside(g.cells[0], key);
    UpdateMoves(g1);
    assert Update(g1).state == Running ==> Body(Update(g1))[0] == Update(g1).cells[0];
  }

  /** And the game is over at that update exactly if the cell is off the board or on the snake. */
  lemma KeyEndsGame(g: Game, key: char, tick: nat)
    requires Inv(g) && g.state == Running && Steers(key) && !Against(g, key)
    ensures var g1, p := Input(g, key, tick), Beside(g.cells[0], key);
            && Sized(g1) && g1.length < MAX_LEN
            && (Update(g1).state == Over <==> !(0 <= p.x < 20 && 0 <= p.y < 10) || p in g.cells[..g.length])
  {
    hide Spawn, IsSnake;
    InputKeepsInv(g, key, tick);
    var g1 := Input(g, key, tick);
    assert Step(g.cells[0], g1.dir) == Beside(g.cells[0], key);
  }

  /** A key that points back, and any key that does not steer or pause, changes nothing in a running game. */
  lemma KeyIgnored(g: Game, key: char, tick: nat)
    requires g.state == Running && (Against(g, key) || !(Steers(key) || key == 'P' || key == 'p'))
    ensures Input(g, key, tick) == g
  {
  }

  /** From every start the snake goes right from the middle of the board, and up after `W`, down after `S`. */
  lemma FirstMoves(tick: nat)
    ensures var g := Init(tick);
            && Sized(g) && g.cells[0] == Pos(10, 5) && g.length == 3 && g.state == Running
            && Sized(Update(g)) && Update(g).cells[0] == Pos(11, 5)
            && Sized(Input(g, 'W', tick)) && Sized(Update(Input(g, 'W', tick)))
            && Update(Input(g, 'W', tick)).cells[0] == Pos(10, 4)
            && Sized(Input(g, 's', tick)) && Sized(Update(Input(g, 's', tick)))
            && Update(Input(g, 's', tick)).cells[0] == Pos(10, 6)
  {
    hide Spawn;
    var g := Init(tick);
    assert Body(g) == [Pos(10, 5), Pos(9, 5), Pos(8, 5)];
  }

  /** The first food is the first attempt that misses the snake, among a hundred from the tick as seed. */
  lemma FirstFood(tick: nat)
    ensures var k := FirstOff([Pos(10, 5), Pos(9, 5), Pos(8, 5)], tick, 0, 99);
            Init(tick).food == AttemptAt(tick, k).food && Init(tick).seed == AttemptAt(tick, k).seed
  {
    hide Spawn, AttemptAt;
    assert Init(tick).cells[..3] == [Pos(10, 5), Pos(9, 5), Pos(8, 5)];
    SpawnIsFirstOff([Pos(10, 5), Pos(9, 5), Pos(8, 5)], tick, MAX_ATTEMPTS);
  }

  /** A paused game stands still, and takes no key but the one that goes on, where it was paused. */
  lemma PausedStands(g: Game, key: char, tick: nat)
    requires Sized(g) && g.length < MAX_LEN
    ensures g.state == Running && (key == 'P' || key == 'p') ==> Input(g, key, tick) == g.(state := Paused)
    ensures g.state == Paused ==> Update(g) == g
    ensures g.state == Paused && (key == 'P' || key == 'p') ==> Input(g, key, tick) == g.(state := Running)
    ensures g.state == Paused && key != 'P' && key != 'p' ==> Input(g, key, tick) == g
  {
  }

  /** A game that has ended stays so until it is started again. */
  lemma EndedStays(g: Game, key: char, tick: nat)
    requires Sized(g) && (g.state == Over || g.state == Win)
    ensures g.length < MAX_LEN ==> Update(g) == g
    ensures Input(g, key, tick) == if key == 'R' || key == 'r' then Init(tick) else g
  {
  }
}
