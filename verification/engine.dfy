/** The game engine: one mutable record of game state plus the queue of pending turns,
    changed in place by input, by the start button and by each animation-frame tick. */
module Engine {
  import opened Grid
  import opened DirQueue
  import opened Body
  import opened Speed

  datatype GameState = Idle | Playing | Over

  /** Where the snake starts. */
  const StartCell: Pt := Pt(7, 7)
  /** Where the food lies before the first game. */
  const InitialFood: Pt := Pt(11, 7)

  function Max(a: nat, b: nat): (m: nat)
    ensures m >= a && m >= b && (m == a || m == b)
  {
    if a >= b then a else b
  }

  /** What the snake, the food, the score and the interval keep true of one another:
      one point per segment beyond the first, food on the board and off the snake unless
      the snake has just filled the board, and the interval the score gives. */
  ghost predicate Consistent(snake: seq<Pt>, food: Pt, score: nat, speed: int) {
    ValidSnake(snake) &&
    score == |snake| - 1 &&
    InBounds(food) &&
    (food !in snake || |snake| == CellCount) &&
    // the interval belongs to the score, unless the last eat never got to update it
    (speed == SpeedFromScore(score) || |snake| == CellCount) &&
    MinSpeed <= speed <= BaseSpeed
  }

  /** What the heading and the pending turns keep true: the queue is bounded, no turn
      reverses the one before it, and while playing the segment behind the head lies
      opposite to the heading. */
  ghost predicate Steering(playing: bool, snake: seq<Pt>, dir: Dir, queue: seq<Dir>) {
    |queue| <= QueueMax &&
    NoReversal([dir] + queue) &&
    (playing && |snake| >= 2 ==> snake[1] == Next(snake[0], Opp(dir)))
  }

  /** A move onto a free cell that holds no food keeps the board consistent. */
  lemma PlainMoveKeepsConsistent(snake: seq<Pt>, d: Dir, food: Pt, score: nat, speed: int)
    requires Consistent(snake, food, score, speed)
    requires !Hits(snake, Next(snake[0], d)) && Next(snake[0], d) != food
    ensures Consistent(Slither(snake, Next(snake[0], d)), food, score, speed)
  {
    SlitherKeepsValid(snake, d);
    FreeCellIff(snake);
  }

  /** Eating the food keeps the board consistent, with new food on any free cell, or with the
      old food and interval when no free cell is left. */
  lemma EatKeepsConsistent(snake: seq<Pt>, d: Dir, food: Pt, score: nat, speed: int, newFood: Pt)
    requires Consistent(snake, food, score, speed)
    requires !Hits(snake, Next(snake[0], d)) && Next(snake[0], d) == food
    ensures var grown := Grow(snake, Next(snake[0], d));
      ValidSnake(grown) && |grown| <= CellCount &&
      (|grown| < CellCount <==> HasFreeCell(grown)) &&
      (|grown| == CellCount ==> Consistent(grown, food, score + 1, speed)) &&
      (InBounds(newFood) && newFood !in grown ==>
         Consistent(grown, newFood, score + 1, SpeedFromScore(score + 1)))
  {
    GrowKeepsValid(snake, d);
    FreeCellIff(Grow(snake, Next(snake[0], d)));
  }

  /** A due tick's turn and move keep the steering invariant. */
  lemma MoveKeepsSteering(snake: seq<Pt>, dir: Dir, queue: seq<Dir>, grown: bool)
    requires ValidSnake(snake) && Steering(true, snake, dir, queue)
    ensures var d := Front(dir, queue);
      var next := Next(snake[0], d);
      d != Opp(dir) &&
      Steering(true, if grown then Grow(snake, next) else Slither(snake, next), d, Rest(queue))
  {
    ShiftKeepsNoReversal(dir, queue);
    NextOppUndoes(snake[0], Front(dir, queue));
  }

  /** While playing, a snake of two or more cells never turns its head back into the
      segment behind it: the queue rule keeps the next heading off the reverse of the current one. */
  lemma HeadNeverEntersNeck(snake: seq<Pt>, dir: Dir, queue: seq<Dir>)
    requires ValidSnake(snake) && |snake| >= 2 && Steering(true, snake, dir, queue)
    ensures Next(snake[0], Front(dir, queue)) != snake[1]
  {
    ShiftKeepsNoReversal(dir, queue);
    NextInjective(snake[0], Front(dir, queue), Opp(dir));
  }

  class Game {
    var state: GameState
    /** Head first. */
    var snake: seq<Pt>
    /** The direction the snake last moved in, or will move in when the queue is empty. */
    var dir: Dir
    var food: Pt
    var score: nat
    /** Milliseconds between two moves. */
    var speed: int
    /** Timestamp of the last move. */
    var lastTick: int
    /** Pending turns, oldest first. */
    var queue: seq<Dir>
    /** Best score of this session. */
    var sessionBest: nat
    /** Personal best, as kept in the browser's storage. */
    var best: nat

    ghost predicate Valid()
      reads this
    {
      Consistent(snake, food, score, speed) &&
      Steering(state == Playing, snake, dir, queue) &&
      sessionBest >= score &&
      (state == Over ==> best >= score)
    }

    /** The state before the first game; `savedBest` is the stored personal best. */
    constructor (savedBest: nat)
      ensures Valid()
      ensures state == Idle && snake == [StartCell] && dir == R && food == InitialFood
      ensures score == 0 && speed == BaseSpeed && lastTick == 0 && queue == []
      ensures sessionBest == 0 && best == savedBest
    {
      state := Idle;
      snake := [StartCell];
      dir := R;
      food := InitialFood;
      score := 0;
      speed := BaseSpeed;
      lastTick := 0;
      queue := [];
      sessionBest := 0;
      best := savedBest;
    }

    /** The direction the next due tick will move in. */
    function Heading(): Dir
      reads this
    {
      Front(dir, queue)
    }

    /** The cell the head enters on the next due tick. */
    function Target(): Pt
      reads this
      requires |snake| >= 1
    {
      Next(snake[0], Heading())
    }

    /** A tick at time `ts` moves the snake: two moves are never closer than MinSpeed
        milliseconds, and a frame BaseSpeed milliseconds after the last move always moves. */
    predicate Due(ts: int)
      reads this
      requires Valid()
      ensures Due(ts) ==> state == Playing && ts >= lastTick + MinSpeed
      ensures state == Playing && ts >= lastTick + BaseSpeed ==> Due(ts)
    {
      state == Playing && ts - lastTick >= speed
    }

    /** A keyboard turn, taken in every state. */
    method Push(d: Dir)
      requires Valid()
      modifies this`queue
      ensures Valid()
      ensures queue == Enqueue(dir, old(queue), d)
    {
      EnqueueKeepsNoReversal(dir, queue, d);
      queue := Enqueue(dir, queue, d);
    }

    /** A swipe or D-pad turn, taken only while a game is running. */
    method Steer(d: Dir)
      requires Valid()
      modifies this`queue
      ensures Valid()
      ensures queue == if state == Playing then Enqueue(dir, old(queue), d) else old(queue)
    {
      if state != Playing {
        return;
      }
      Push(d);
    }

    /** Starts a new game; the best scores are kept. */
    method Start()
      requires Valid()
      modifies this
      ensures Valid()
      ensures state == Playing && snake == [StartCell] && dir == R && queue == []
      ensures InBounds(food) && food != StartCell
      ensures score == 0 && speed == BaseSpeed && lastTick == 0
      ensures sessionBest == old(sessionBest) && best == old(best)
    {
      state := Playing;
      snake := [StartCell];
      dir := R;
      queue := [];
      assert InBounds(Pt(0, 0)) && Pt(0, 0) !in [StartCell];
      food := RandomFood([StartCell]);
      score := 0;
      speed := BaseSpeed;
      lastTick := 0;
    }

    /** Ends the game and folds its score into both best scores. */
    method EndGame()
      requires Valid()
      modifies this`state, this`sessionBest, this`best
      ensures Valid()
      ensures state == Over
      ensures sessionBest == Max(old(sessionBest), score)
      ensures best == Max(old(best), score)
    {
      state := Over;
      sessionBest := Max(sessionBest, score);
      best := Max(best, score);
    }

    /** What a due tick at time `ts` does: it takes the front of the queue as the heading and
        moves the head one cell that way; a wall or any body cell ends the game, a plain
        move keeps the length, and eating grows the snake by one and scores a point. */
    twostate predicate Advanced(ts: int)
      reads this
      requires |old(snake)| >= 1
      ensures Advanced(ts) ==> |snake| == |old(snake)| || |snake| == |old(snake)| + 1
      ensures Advanced(ts) ==> score == old(score) || score == old(score) + 1
      ensures Advanced(ts) ==> |queue| == |old(queue)| - 1 || queue == old(queue) == []
    {
      var next := old(Target());
      lastTick == ts && dir == old(Heading()) && dir != Opp(old(dir)) &&
      queue == Rest(old(queue)) &&
      if Hits(old(snake), next) then
        // snake, food and score stay as they were
        state == Over && snake == old(snake) && food == old(food) && score == old(score) &&
        speed == old(speed) &&
        sessionBest == Max(old(sessionBest), score) && best == Max(old(best), score)
      else if next != old(food) then
        state == Playing && snake == Slither(old(snake), next) &&
        food == old(food) && score == old(score) && speed == old(speed) &&
        sessionBest == old(sessionBest) && best == old(best)
      else
        state == Playing && snake == Grow(old(snake), next) &&
        score == old(score) + 1 &&
        sessionBest == Max(old(sessionBest), score) && best == old(best) &&
        // new food off the snake, unless no free cell is left
        (|snake| < CellCount ==> food !in snake && speed == SpeedFromScore(score)) &&
        (|snake| == CellCount ==> food == old(food) && speed == old(speed))
    }

    /** One animation frame at time `ts`: outside a game, or before the interval has passed,
        nothing changes; otherwise the snake advances. */
    method Tick(ts: int)
      requires Valid()
      modifies this
      ensures Valid()
      ensures !old(Due(ts)) ==> unchanged(this)
      ensures old(Due(ts)) ==> Advanced(ts)
    {
      if state != Playing {
        return;
      }
      if ts - lastTick >= speed {
        Advance(ts);
      }
    }

    /** The work of a due tick. */
    method Advance(ts: int)
      requires Valid() && Due(ts)
      modifies this
      ensures Valid() && Advanced(ts)
    {
      var next := Target();
      if Hits(snake, next) {
        Crash(ts);
      } else if next == food {
        Eat(ts);
      } else {
        Slide(ts);
      }
    }

    /** A due tick whose head would leave the board or enter the body. */
    method Crash(ts: int)
      requires Valid() && Due(ts) && Hits(snake, Target())
      modifies this
      ensures Valid() && Advanced(ts)
    {
      MoveKeepsSteering(snake, dir, queue, false);
      var d := Heading();
      EndGame();
      lastTick, dir, queue := ts, d, Rest(queue);
    }

    /** A due tick onto a free cell without food: the tail cell is dropped. */
    method Slide(ts: int)
      requires Valid() && Due(ts) && !Hits(snake, Target()) && Target() != food
      modifies this
      ensures Valid() && Advanced(ts)
    {
      var d := Heading();
      var next := Next(snake[0], d);
      MoveKeepsSteering(snake, dir, queue, false);
      PlainMoveKeepsConsistent(snake, d, food, score, speed);
      lastTick, dir, queue, snake := ts, d, Rest(queue), Slither(snake, next);
    }

    /** A due tick onto the food: the snake grows and scores, and the food moves to a free
        cell if one is left. */
    method Eat(ts: int)
      requires Valid() && Due(ts) && !Hits(snake, Target()) && Target() == food
      modifies this
      ensures Valid() && Advanced(ts)
    {
      EatKeepsConsistent(snake, Heading(), food, score, speed, food);
      if |snake| + 1 < CellCount {
        EatAndPlace(ts);
      } else {
        EatLast(ts);
      }
    }

    /** Eating while a free cell remains: the food is placed on one of them. */
    method EatAndPlace(ts: int)
      requires Valid() && Due(ts) && !Hits(snake, Target()) && Target() == food
      requires |snake| + 1 < CellCount
      modifies this
      ensures Valid() && Advanced(ts)
    {
      var d := Heading();
      var grown := Grow(snake, food);
      MoveKeepsSteering(snake, dir, queue, true);
      EatKeepsConsistent(snake, d, food, score, speed, food);
      var f := RandomFood(grown);
      EatKeepsConsistent(snake, d, food, score, speed, f);
      lastTick, dir, queue, snake := ts, d, Rest(queue), grown;
      score, food, speed := score + 1, f, SpeedFromScore(score + 1);
      sessionBest := Max(sessionBest, score);
    }

    /** Eating the last free cell. The source's food loop then draws forever, so the game
        stays as it is when that loop is entered: food and interval are not updated. */
    method EatLast(ts: int)
      requires Valid() && Due(ts) && !Hits(snake, Target()) && Target() == food
      requires |snake| + 1 == CellCount
      modifies this
      ensures Valid() && Advanced(ts)
    {
      var d := Heading();
      MoveKeepsSteering(snake, dir, queue, true);
      EatKeepsConsistent(snake, d, food, score, speed, food);
      lastTick, dir, queue, snake, score := ts, d, Rest(queue), Grow(snake, food), score + 1;
      sessionBest := Max(sessionBest, score);
    }
  }

  /** A client of the engine: the queue rule refuses a reversal and a turn that reverses the
      last queued one, a frame before the interval changes nothing, and each due frame applies
      one queued turn. */
  method QueueClient() {
    var g := new Game(0);
    g.Start();
    g.Push(L);
    assert g.queue == [];
    g.Push(U);
    g.Push(D);
    assert g.queue == [U];
    g.Push(L);
    assert g.queue == [U, L];
    g.Tick(299);
    assert g.snake == [StartCell] && g.queue == [U, L];
    g.Tick(300);
    assert g.dir == U && g.snake[0] == Pt(7, 6) && g.queue == [L];
  }

  /** A client of the engine: a snake running left with every segment at or right of its head
      reaches the wall and the game ends there, with the score it had before that frame. */
  method WallClient(g: Game, t0: int)
    requires g.Valid() && g.state == Playing && g.dir == L && g.queue == [] && g.lastTick == t0
    requires forall i :: 0 <= i < |g.snake| ==> g.snake[i].x >= g.snake[0].x
    modifies g
  {
    var t := t0;
    while g.snake[0].x > 0
      invariant g.Valid() && g.state == Playing && g.dir == L && g.queue == []
      invariant g.lastTick == t
      invariant forall i :: 0 <= i < |g.snake| ==> g.snake[i].x >= g.snake[0].x
      decreases g.snake[0].x
    {
      t := t + BaseSpeed;
      g.Tick(t);
    }
    var before := g.score;
    g.Tick(t + BaseSpeed);
    assert g.state == Over && g.score == before;
  }
}
