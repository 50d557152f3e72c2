/** The snake game over its body array, which each move shifts in place. */
module Snake {
  import opened SnakeSpec

  class SnakeGame {
    const body: array<Pos>
    var length: nat
    var direction: Dir
    var food: Pos
    var state: State
    var score: nat
    var randSeed: nat

    ghost function View(): Game
      reads this, body
    {
      Game(body[..], length, direction, food, state, score, randSeed)
    }

    ghost predicate Valid()
      reads this, body
    {
      Inv(View())
    }

    constructor (tick: nat)
      ensures Valid() && View() == SnakeSpec.Init(tick) && fresh(body)
    {
      body := new Pos[MAX_LEN](_ => Pos(0, 0));
      length, direction, food, state, score, randSeed := 0, Up, Pos(0, 0), Running, 0, 12345;
      new;
      Init(tick);
    }

    method SimpleRand() returns (r: nat)
      modifies this`randSeed
      ensures randSeed == NextSeed(old(randSeed)) && r == Draw(randSeed)
    {
      randSeed := (randSeed * 1103515245 + 12345) % 0x1_0000_0000;
      r := randSeed / 65536 % 32768;
    }

    method SpawnFood()
      requires 0 < length <= body.Length
      modifies this`food, this`randSeed
      ensures Spawned(food, randSeed) == Spawn(body[..length], old(randSeed), MAX_ATTEMPTS)
    {
      hide NextSeed, Draw;
      var attempts := 0;
      var valid := false;
      while !valid && attempts < MAX_ATTEMPTS
        invariant attempts <= MAX_ATTEMPTS
        invariant !valid && attempts < MAX_ATTEMPTS ==>
          Spawn(body[..length], old(randSeed), MAX_ATTEMPTS) == Spawn(body[..length], randSeed, MAX_ATTEMPTS - attempts)
        invariant valid || attempts == MAX_ATTEMPTS ==>
          Spawn(body[..length], old(randSeed), MAX_ATTEMPTS) == Spawned(food, randSeed)
        decreases MAX_ATTEMPTS - attempts
      {
        var x := SimpleRand();
        var y := SimpleRand();
        food := Pos(x % WIDTH, y % HEIGHT);
        var hit := Hits(food);
        valid := !hit;
        attempts := attempts + 1;
      }
    }

    /** Whether a cell is on the snake. */
    method Hits(p: Pos) returns (hit: bool)
      requires length <= body.Length
      ensures hit <==> p in body[..length]
    {
      var i := 0;
      while i < length
        invariant i <= length && p !in body[..i]
      {
        if body[i] == p {
          assert body[..length][i] == p;
          return true;
        }
        assert body[..i + 1] == body[..i] + [body[i]];
        i := i + 1;
      }
      return false;
    }

    method Init(tick: nat)
      requires body.Length == MAX_LEN
      modifies this, body
      ensures Valid() && View() == SnakeSpec.Init(tick)
    {
      hide Spawn, IsSnake;
      forall i | 0 <= i < body.Length {
        body[i] := Pos(0, 0);
      }
      length := 3;
      direction := Right;
      body[0] := Pos(WIDTH / 2, HEIGHT / 2);
      body[1] := Pos(body[0].x - 1, body[0].y);
      body[2] := Pos(body[0].x - 2, body[0].y);
      randSeed := tick;
      SpawnFood();
      state := Running;
      score := 0;
      assert body[..] == SnakeSpec.Init(tick).cells;
      assert body[..length] == body[..][..3];
      InitInv(tick);
    }

    /** Moves the snake on by one place: from the tail to the head, each cell takes the place of the one behind it. */
    method Shift(head: Pos)
      requires 0 < length <= body.Length
      modifies body
      ensures body[..] == Shifted(old(body[..]), length, head)
    {
      var i := length - 1;
      while i > 0
        invariant 0 <= i < length
        invariant forall j :: 0 <= j <= i ==> body[j] == old(body[j])
        invariant forall j :: i < j < length ==> body[j] == old(body[j - 1])
        invariant forall j :: length <= j < body.Length ==> body[j] == old(body[j])
      {
        body[i] := body[i - 1];
        i := i - 1;
      }
      body[0] := head;
    }

    /** The cell in front of the head. */
    method NextHead() returns (head: Pos)
      requires body.Length > 0
      ensures head == Step(body[0], direction)
    {
      head := body[0];
      match direction {
        case Up => head := head.(y := head.y - 1);
        case Down => head := head.(y := head.y + 1);
        case Left => head := head.(x := head.x - 1);
        case Right => head := head.(x := head.x + 1);
      }
    }

    /** The snake has reached the food: score, growth, new food, and the win once the board is full. */
    method Eat()
      requires Sized(View()) && length < MAX_LEN
      modifies this`score, this`length, this`food, this`randSeed, this`state
      ensures View() == Fed(old(View()))
    {
      hide Spawn;
      score := score + 10;
      if length < MAX_LEN {
        length := length + 1;
      }
      SpawnFood();
      assert body[..length] == body[..][..old(length) + 1];
      if length >= MAX_LEN {
        state := Win;
      }
    }

    method Update()
      requires Valid()
      modifies this, body
      ensures Valid()
      ensures Happens(old(View()), UpdateOp, View())
    {
      hide Spawn, IsSnake, Apart, Shifted, Fed, Step;
      ghost var g := View();
      if g.state == Running { UpdateKeepsInv(g); }
      if state != Running {
        return;
      }
      var head := NextHead();
      if head.x < 0 || head.x >= WIDTH || head.y < 0 || head.y >= HEIGHT {
        state := Over;
        return;
      }
      var hit := Hits(head);
      assert body[..length] == Body(g);
      if hit {
        state := Over;
        return;
      }
      var ateFood := head.x == food.x && head.y == food.y;
      if ateFood {
        Eat();
        FedFrame(g);
        if length >= MAX_LEN {
          return;
        }
      }
      Shift(head);
    }

    method Input(key: char, tick: nat)
      requires Valid()
      modifies this, body
      ensures Valid()
      ensures View() == SnakeSpec.Input(old(View()), key, tick)
    {
      hide IsSnake, Spawn, SnakeSpec.Init;
      InputKeepsInv(View(), key, tick);
      var k := Upper(key);
      if state == Running {
        if k == 'W' {
          if direction != Down {
            direction := Up;
          }
        } else if k == 'S' {
          if direction != Up {
            direction := Down;
          }
        } else if k == 'A' {
          if direction != Right {
            direction := Left;
          }
        } else if k == 'D' {
          if direction != Left {
            direction := Right;
          }
        } else if k == 'P' {
          state := Paused;
        }
      } else if state == Paused {
        if k == 'P' {
          state := Running;
        }
      } else if state == Over || state == Win {
        if k == 'R' {
          Init(tick);
        }
      }
    }
  }
}
