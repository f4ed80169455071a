/**
 * The game environment: a snake (head first) on a square board, its
 * direction, the food, the score and the game-over flag, advanced one
 * action at a time.
 */
module SnakeEnvironment {
  import opened Wrappers
  import opened Geometry
  import opened SafetyLogic

  /** The informational message of a step. */
  datatype Message = NoMessage | WallCollision | SelfCollision | Completed

  /** Ways a step can fail: the game is already over, or there is no head to move. */
  datatype StepError = GameOver | EmptySnake

  /** The mutable part of the environment. */
  datatype EnvState = EnvState(snake: seq<Cell>, direction: Direction, food: Cell, score: int, done: bool)

  /** What the environment reports to the agent. */
  datatype Observation = Observation(snakeBody: seq<Cell>, food: Cell, direction: Direction, score: int, boardSize: int, done: bool)

  /** The outcome of a step besides the new state. */
  datatype Outcome = Outcome(reward: int, done: bool, message: Message)

  /** The snake every game starts with. */
  const InitialSnake: seq<Cell> := [Cell(5, 5), Cell(5, 6)]

  /**
   * The food generator over a stream of random draws: the first draw that is
   * not on the snake, or None when every draw so far is on it.
   */
  function FirstFree(draws: seq<Cell>, snake: seq<Cell>): (r: Option<Cell>)
    ensures r.Some? ==> r.value !in snake
    ensures r.Some? ==> exists i :: 0 <= i < |draws| && draws[i] == r.value && forall j :: 0 <= j < i ==> draws[j] in snake
    ensures r.None? <==> forall i :: 0 <= i < |draws| ==> draws[i] in snake
  {
    if draws == [] then None
    else if draws[0] !in snake then Some(draws[0])
    else
      var r := FirstFree(draws[1..], snake);
      assert r.Some? ==> exists i :: 0 <= i < |draws| && draws[i] == r.value && forall j :: 0 <= j < i ==> draws[j] in snake by {
        if r.Some? {
          var i :| 0 <= i < |draws| - 1 && draws[1..][i] == r.value && forall j :: 0 <= j < i ==> draws[1..][j] in snake;
          assert draws[i + 1] == r.value;
          assert forall j :: 0 <= j < i + 1 ==> draws[j] in snake by {
            forall j | 0 <= j < i + 1
              ensures draws[j] in snake
            {
              if j > 0 {
                assert draws[j] == draws[1..][j - 1];
              }
            }
          }
        }
      }
      assert r.None? ==> forall i :: 0 <= i < |draws| ==> draws[i] in snake by {
        if r.None? {
          forall i | 0 <= i < |draws|
            ensures draws[i] in snake
          {
            if i > 0 {
              assert draws[i] == draws[1..][i - 1];
            }
          }
        }
      }
      r
  }

  /** The sampling loop: draw until a cell off the snake turns up. */
  method GenerateFood(draws: seq<Cell>, snake: seq<Cell>) returns (food: Option<Cell>)
    ensures food == FirstFree(draws, snake)
  {
    var i := 0;
    while i < |draws|
      invariant 0 <= i <= |draws|
      invariant FirstFree(draws[i..], snake) == FirstFree(draws, snake)
    {
      var newFood := draws[i];
      assert draws[i..][1..] == draws[i + 1..];
      if newFood !in snake {
        return Some(newFood);
      }
      i := i + 1;
    }
    return None;
  }

  /** A step eats the food: the game is running and the head moves onto the food without colliding. */
  predicate Eats(s: EnvState, size: int, action: Direction)
  {
    && !s.done && s.snake != []
    && var head := Move(s.snake[0], action);
       InBounds(head, size) && head !in AllButTail(s.snake) && head == s.food
  }

  /** Every draw is a cell of the board, as the generator draws each coordinate from `[0, size)`. */
  predicate OnBoard(draws: seq<Cell>, size: int)
  {
    forall c :: c in draws ==> InBounds(c, size)
  }

  /**
   * The food generator can place the next food whenever the step eats: its
   * draws lie on the board and one of them is off the grown snake.
   */
  predicate DrawsSuffice(s: EnvState, size: int, action: Direction, draws: seq<Cell>)
  {
    Eats(s, size, action) ==> OnBoard(draws, size) && FirstFree(draws, [s.food] + s.snake).Some?
  }

  /** The new state and outcome of one step. */
  function StepState(s: EnvState, size: int, action: Direction, draws: seq<Cell>): (EnvState, Result<Outcome, StepError>)
    requires DrawsSuffice(s, size, action, draws)
  {
    if s.done then (s, Failure(GameOver))
    else
      var turned := s.(direction := action);
      if s.snake == [] then (turned, Failure(EmptySnake))
      else
        var head := Move(s.snake[0], action);
        if !InBounds(head, size) then (turned.(done := true), Success(Outcome(-10, true, WallCollision)))
        else if head in AllButTail(s.snake) then (turned.(done := true), Success(Outcome(-10, true, SelfCollision)))
        else
          var next :=
            if head == s.food then
              var grown := [head] + s.snake;
              turned.(snake := grown, score := s.score + 1, food := FirstFree(draws, grown).value)
            else turned.(snake := [head] + s.snake[..|s.snake| - 1]);
          var reward := if head == s.food then 10 else -1;
          if |next.snake| == size * size then (next.(done := true), Success(Outcome(100, true, Completed)))
          else (next, Success(Outcome(reward, false, NoMessage)))
  }

  /** The environment's invariant: a non-empty snake without repeated cells, food off the snake, and one point per growth. */
  predicate Inv(s: EnvState)
  {
    s.snake != [] && Distinct(s.snake) && s.food !in s.snake && s.score == |s.snake| - 2
  }

  class SnakeEnv {
    const size: int
    var snake: seq<Cell>
    var direction: Direction
    var food: Cell
    var score: int
    var done: bool

    function State(): EnvState
      reads this
    {
      EnvState(snake, direction, food, score, done)
    }

    /** A fresh game: the initial snake heading up, food from the generator, score 0, running. */
    constructor(size: int, draws: seq<Cell>)
      requires OnBoard(draws, size) && FirstFree(draws, InitialSnake).Some?
      ensures this.size == size
      ensures State() == EnvState(InitialSnake, Up, FirstFree(draws, InitialSnake).value, 0, false)
    {
      this.size := size;
      snake := InitialSnake;
      direction := Up;
      var f := GenerateFood(draws, InitialSnake);
      food := f.value;
      score := 0;
      done := false;
    }

    /** The observation handed to the agent: the fields, with the board size. */
    function GetState(): (o: Observation)
      reads this
      ensures o.snakeBody == snake && o.food == food && o.direction == direction
      ensures o.score == score && o.boardSize == size && o.done == done
    {
      Observation(snake, food, direction, score, size, done)
    }

    /**
     * Advances the game by one action: stores the direction, ends the game on
     * a wall or self collision, grows onto the food (placing new food) or
     * moves, and ends the game once the snake fills the board.
     */
    method Step(action: Direction, draws: seq<Cell>) returns (r: Result<(Observation, Outcome), StepError>)
      requires DrawsSuffice(State(), size, action, draws)
      modifies this
      ensures State() == StepState(old(State()), size, action, draws).0
      ensures StepState(old(State()), size, action, draws).1.Failure? ==>
        r == Failure(StepState(old(State()), size, action, draws).1.error)
      ensures StepState(old(State()), size, action, draws).1.Success? ==>
        r == Success((GetState(), StepState(old(State()), size, action, draws).1.value))
    {
      if done {
        return Failure(GameOver);
      }
      direction := action;
      if snake == [] {
        return Failure(EmptySnake);
      }
      var newHead := Move(snake[0], direction);
      if !InBounds(newHead, size) {
        done := true;
        return Success((GetState(), Outcome(-10, true, WallCollision)));
      }
      if newHead in AllButTail(snake) {
        done := true;
        return Success((GetState(), Outcome(-10, true, SelfCollision)));
      }
      var reward;
      if newHead == food {
        snake := [newHead] + snake;
        score := score + 1;
        var f := GenerateFood(draws, snake);
        food := f.value;
        reward := 10;
      } else {
        snake := [newHead] + snake;
        snake := snake[..|snake| - 1];
        reward := -1;
      }
      if |snake| == size * size {
        done := true;
        return Success((GetState(), Outcome(100, true, Completed)));
      }
      return Success((GetState(), Outcome(reward, done, NoMessage)));
    }

    /** Starts over: the initial snake heading up, new food, score 0, running. */
    method Reset(draws: seq<Cell>) returns (o: Observation)
      requires OnBoard(draws, size) && FirstFree(draws, InitialSnake).Some?
      modifies this
      ensures State() == EnvState(InitialSnake, Up, FirstFree(draws, InitialSnake).value, 0, false)
      ensures o == GetState()
    {
      snake := InitialSnake;
      direction := Up;
      var f := GenerateFood(draws, snake);
      food := f.value;
      score := 0;
      done := false;
      return GetState();
    }
  }

  // ---------------------------------------------------------------------------
  // Properties of a step

  /** A step on a finished game fails and changes nothing. */
  lemma StepAfterGameOver(s: EnvState, size: int, action: Direction, draws: seq<Cell>)
    requires s.done
    ensures StepState(s, size, action, draws) == (s, Failure(GameOver))
  {
  }

  /** A colliding step ends the game with −10, keeps the snake, and still records the new direction. */
  lemma StepCollision(s: EnvState, size: int, action: Direction, draws: seq<Cell>)
    requires !s.done && s.snake != [] && IsCollision(Move(s.snake[0], action), size, s.snake)
    ensures var (t, out) := StepState(s, size, action, draws);
      && t.snake == s.snake && t.food == s.food && t.score == s.score
      && t.done && t.direction == action
      && out.Success? && out.value.reward == -10 && out.value.done
  {
  }

  /** Eating grows the snake by its new head, adds a point, places food off the snake, and pays 10 (100 on a full board). */
  lemma StepEat(s: EnvState, size: int, action: Direction, draws: seq<Cell>)
    requires Eats(s, size, action) && DrawsSuffice(s, size, action, draws)
    ensures var (t, out) := StepState(s, size, action, draws);
      && t.snake == [Move(s.snake[0], action)] + s.snake
      && |t.snake| == |s.snake| + 1
      && t.score == s.score + 1
      && t.food !in t.snake
      && out.Success?
      && out.value.reward == (if |t.snake| == size * size then 100 else 10)
  {
  }

  /** An ordinary move shifts the snake: new head in front, old tail gone, same length, reward −1 (100 on a full board). */
  lemma StepMove(s: EnvState, size: int, action: Direction, draws: seq<Cell>)
    requires !s.done && s.snake != []
    requires !IsCollision(Move(s.snake[0], action), size, s.snake) && Move(s.snake[0], action) != s.food
    ensures var (t, out) := StepState(s, size, action, draws);
      && t.snake[0] == Move(s.snake[0], action)
      && t.snake[1..] == AllButTail(s.snake)
      && |t.snake| == |s.snake|
      && t.food == s.food && t.score == s.score
      && out.Success?
      && out.value.reward == (if |t.snake| == size * size then 100 else -1)
  {
    var t := StepState(s, size, action, draws).0;
    assert t.snake == [Move(s.snake[0], action)] + s.snake[..|s.snake| - 1];
  }

  /** A snake that fills the board ends the game with reward 100. */
  lemma StepFullBoard(s: EnvState, size: int, action: Direction, draws: seq<Cell>)
    requires !s.done && s.snake != [] && !IsCollision(Move(s.snake[0], action), size, s.snake)
    requires DrawsSuffice(s, size, action, draws)
    requires |StepState(s, size, action, draws).0.snake| == size * size
    ensures StepState(s, size, action, draws).0.done
    ensures StepState(s, size, action, draws).1 == Success(Outcome(100, true, Completed))
  {
  }

  /** Every successful step keeps the invariant. */
  lemma StepKeepsInv(s: EnvState, size: int, action: Direction, draws: seq<Cell>)
    requires Inv(s) && DrawsSuffice(s, size, action, draws)
    ensures Inv(StepState(s, size, action, draws).0)
  {
    if !s.done {
      var head := Move(s.snake[0], action);
      if InBounds(head, size) && head !in AllButTail(s.snake) {
        if head == s.food {
          DistinctConcat([head], s.snake);
        } else {
          var rest := s.snake[..|s.snake| - 1];
          assert rest == AllButTail(s.snake);
          assert Distinct(rest);
          DistinctConcat([head], rest);
          assert s.food !in rest;
        }
      }
    }
  }

  /** A fresh or reset game satisfies the invariant. */
  lemma InitialInv(draws: seq<Cell>)
    requires FirstFree(draws, InitialSnake).Some?
    ensures Inv(EnvState(InitialSnake, Up, FirstFree(draws, InitialSnake).value, 0, false))
  {
  }
  /** Snake `[(2,2), (2,3)]` on a 5 by 5 board with food at (2,1): moving up eats it, growing to three segments with score 1 and new food elsewhere. */
  lemma EatScenario(draws: seq<Cell>)
    requires OnBoard(draws, 5) && FirstFree(draws, [Cell(2, 1), Cell(2, 2), Cell(2, 3)]).Some?
    ensures var s := EnvState([Cell(2, 2), Cell(2, 3)], Up, Cell(2, 1), 0, false);
      var (t, out) := StepState(s, 5, Up, draws);
      |t.snake| == 3 && t.score == 1 && t.food != Cell(2, 1) && out == Success(Outcome(10, false, NoMessage))
  {
    var s := EnvState([Cell(2, 2), Cell(2, 3)], Up, Cell(2, 1), 0, false);
    assert AllButTail(s.snake) == [Cell(2, 2)];
    assert [Cell(2, 1)] + s.snake == [Cell(2, 1), Cell(2, 2), Cell(2, 3)];
  }

  /** Snake `[(0,1), (1,1)]` on a 3 by 3 board: moving left leaves the board and ends the game with −10. */
  lemma WallScenario(food: Cell, draws: seq<Cell>)
    ensures var (t, out) := StepState(EnvState([Cell(0, 1), Cell(1, 1)], Left, food, 0, false), 3, Left, draws);
      t.done && out == Success(Outcome(-10, true, WallCollision))
  {
  }

  /** An ordinary move on a board the snake does not fill: the new head in front of the old snake minus its tail, reward −1. */
  lemma OrdinaryStep(s: EnvState, size: int, action: Direction, draws: seq<Cell>)
    requires !s.done && s.snake != [] && |s.snake| != size * size
    requires InBounds(Move(s.snake[0], action), size)
    requires Move(s.snake[0], action) !in AllButTail(s.snake) && Move(s.snake[0], action) != s.food
    ensures DrawsSuffice(s, size, action, draws)
    ensures StepState(s, size, action, draws) ==
      (s.(direction := action, snake := [Move(s.snake[0], action)] + AllButTail(s.snake)), Success(Outcome(-1, false, NoMessage)))
  {
    assert s.snake[..|s.snake| - 1] == AllButTail(s.snake);
  }

  /**
   * Snake `[(2,2), (3,2), (3,3), (2,3)]` on a 5 by 5 board with food at (0,0)
   * throughout, off the snake's path, moved up, left, down and right: the last move enters (2,2), which is the
   * tail at that moment, so it is an ordinary move rather than a self collision.
   */
  lemma TailChaseScenario(draws: seq<Cell>)
    ensures var s0 := EnvState([Cell(2, 2), Cell(3, 2), Cell(3, 3), Cell(2, 3)], Up, Cell(0, 0), 0, false);
      var s1 := EnvState([Cell(2, 1), Cell(2, 2), Cell(3, 2), Cell(3, 3)], Up, Cell(0, 0), 0, false);
      var s2 := EnvState([Cell(1, 1), Cell(2, 1), Cell(2, 2), Cell(3, 2)], Left, Cell(0, 0), 0, false);
      var s3 := EnvState([Cell(1, 2), Cell(1, 1), Cell(2, 1), Cell(2, 2)], Down, Cell(0, 0), 0, false);
      && StepState(s0, 5, Up, draws).0 == s1
      && StepState(s1, 5, Left, draws).0 == s2
      && StepState(s2, 5, Down, draws).0 == s3
      && StepState(s3, 5, Right, draws).1 == Success(Outcome(-1, false, NoMessage))
  {
    var s0 := EnvState([Cell(2, 2), Cell(3, 2), Cell(3, 3), Cell(2, 3)], Up, Cell(0, 0), 0, false);
    assert AllButTail(s0.snake) == [Cell(2, 2), Cell(3, 2), Cell(3, 3)];
    OrdinaryStep(s0, 5, Up, draws);
    var s1 := EnvState([Cell(2, 1), Cell(2, 2), Cell(3, 2), Cell(3, 3)], Up, Cell(0, 0), 0, false);
    assert AllButTail(s1.snake) == [Cell(2, 1), Cell(2, 2), Cell(3, 2)];
    OrdinaryStep(s1, 5, Left, draws);
    var s2 := EnvState([Cell(1, 1), Cell(2, 1), Cell(2, 2), Cell(3, 2)], Left, Cell(0, 0), 0, false);
    assert AllButTail(s2.snake) == [Cell(1, 1), Cell(2, 1), Cell(2, 2)];
    OrdinaryStep(s2, 5, Down, draws);
    var s3 := EnvState([Cell(1, 2), Cell(1, 1), Cell(2, 1), Cell(2, 2)], Down, Cell(0, 0), 0, false);
    assert AllButTail(s3.snake) == [Cell(1, 2), Cell(1, 1), Cell(2, 1)];
    OrdinaryStep(s3, 5, Right, draws);
  }

  /**
   * With the snake on the board, an eating step never fills the board: the
   * generator needs a free cell of the board to place the next food, so a
   * step whose growth would leave none is excluded, just as the sampling loop
   * would never return.
   */
  lemma NoBoardFillingEat(s: EnvState, size: int, action: Direction, draws: seq<Cell>)
    requires Inv(s) && forall c :: c in s.snake ==> InBounds(c, size)
    requires Eats(s, size, action) && DrawsSuffice(s, size, action, draws)
    ensures |StepState(s, size, action, draws).0.snake| < size * size
    ensures StepState(s, size, action, draws).1 == Success(Outcome(10, false, NoMessage))
  {
    var grown := [s.food] + s.snake;
    var f := FirstFree(draws, grown).value;
    assert f in draws;
    assert Distinct(grown) by {
      DistinctConcat([s.food], s.snake);
    }
    DistinctConcat(grown, [f]);
    forall c | c in grown + [f]
      ensures c in Grid(size)
    {
      InGrid(c, size);
    }
    DistinctWithin(grown + [f], Grid(size));
    GridCard(size);
  }
}
