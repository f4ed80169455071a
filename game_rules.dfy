/**
 * The rule tables: board dimensions and coordinate validity, the movement
 * deltas keyed by direction name, the relative-turn table, and the
 * validated game-state record. Directions and actions are names, as in the
 * tables themselves.
 */
module GameRules {
  import opened Wrappers
  import opened Geometry

  /** The reasons a rule object, a turn or a game state is refused. */
  datatype RuleError = InvalidWidth | InvalidHeight | InvalidDirection | InvalidRelativeAction

  /** The board dimensions. */
  datatype Rules = Rules(width: int, height: int)

  /** The validated state record handed to an agent. */
  datatype GameState = GameState(snakeBody: seq<Cell>, food: Cell, direction: string, width: int, height: int, score: int)

  /** The absolute directions, by name. */
  const DirectionNames: seq<string> := ["UP", "DOWN", "LEFT", "RIGHT"]

  /** The relative actions, by name. */
  const RelativeActions: seq<string> := ["STRAIGHT", "LEFT_TURN", "RIGHT_TURN"]

  /** Board dimensions: both must be positive; the width is checked first. */
  function NewRules(width: int, height: int): (r: Result<Rules, RuleError>)
    ensures r.Success? <==> width > 0 && height > 0
    ensures r.Success? ==> r.value.width == width && r.value.height == height
    ensures width <= 0 ==> r == Failure(InvalidWidth)
    ensures width > 0 && height <= 0 ==> r == Failure(InvalidHeight)
  {
    if !(width > 0) then Failure(InvalidWidth)
    else if !(height > 0) then Failure(InvalidHeight)
    else Success(Rules(width, height))
  }

  /** A coordinate lies on the board. */
  predicate IsValidCoordinate(rules: Rules, x: int, y: int)
  {
    0 <= x < rules.width && 0 <= y < rules.height
  }

  /** On a square board, a valid coordinate is exactly a cell in bounds. */
  lemma ValidCoordinateInBounds(size: int, x: int, y: int)
    ensures IsValidCoordinate(Rules(size, size), x, y) <==> InBounds(Cell(x, y), size)
  {
  }

  /** The coordinate change of each direction (x grows rightwards, y downwards). */
  function MovementRules(): map<string, (int, int)>
  {
    map["UP" := (0, -1), "DOWN" := (0, 1), "LEFT" := (-1, 0), "RIGHT" := (1, 0)]
  }

  /** The name of a direction. */
  function Name(d: Direction): (s: string)
    ensures s in DirectionNames
  {
    match d
    case Up => "UP"
    case Down => "DOWN"
    case Left => "LEFT"
    case Right => "RIGHT"
  }

  /** Every table key is a direction name and every delta is a unit step along one axis. */
  lemma MovementDeltasAreUnit(name: string)
    requires name in MovementRules()
    ensures name in DirectionNames
    ensures var (dx, dy) := MovementRules()[name];
      (dx == 0 && (dy == 1 || dy == -1)) || (dy == 0 && (dx == 1 || dx == -1))
  {
  }

  /** Opposite directions have opposite deltas. */
  lemma MovementDeltasOpposite(d: Direction)
    ensures Name(d) in MovementRules() && Name(Opposite(d)) in MovementRules()
    ensures MovementRules()[Name(Opposite(d))].0 == -MovementRules()[Name(d)].0
    ensures MovementRules()[Name(Opposite(d))].1 == -MovementRules()[Name(d)].1
  {
  }

  /** The movement table agrees with the way a head moves on the board. */
  lemma MovementMatchesMove(c: Cell, d: Direction)
    ensures Name(d) in MovementRules()
    ensures Move(c, d) == Cell(c.x + MovementRules()[Name(d)].0, c.y + MovementRules()[Name(d)].1)
  {
  }

  /** The relative-turn table: for each current direction, the direction each relative action leads to. */
  function TurnTable(): map<string, map<string, string>>
  {
    map[
      "UP" := map["STRAIGHT" := "UP", "LEFT_TURN" := "LEFT", "RIGHT_TURN" := "RIGHT"],
      "DOWN" := map["STRAIGHT" := "DOWN", "LEFT_TURN" := "RIGHT", "RIGHT_TURN" := "LEFT"],
      "LEFT" := map["STRAIGHT" := "LEFT", "LEFT_TURN" := "DOWN", "RIGHT_TURN" := "UP"],
      "RIGHT" := map["STRAIGHT" := "RIGHT", "LEFT_TURN" := "UP", "RIGHT_TURN" := "DOWN"]
    ]
  }

  /**
   * The absolute direction a relative action leads to; an unknown current
   * direction is refused first, then an unknown relative action.
   */
  function GetAbsoluteDirection(current: string, relative: string): (r: Result<string, RuleError>)
    ensures current !in DirectionNames ==> r == Failure(InvalidDirection)
    ensures current in DirectionNames && relative !in RelativeActions ==> r == Failure(InvalidRelativeAction)
    ensures r.Success? <==> current in DirectionNames && relative in RelativeActions
    ensures r.Success? ==> r.value in DirectionNames && r.value in MovementRules()
  {
    if current !in TurnTable() then Failure(InvalidDirection)
    else if relative !in TurnTable()[current] then Failure(InvalidRelativeAction)
    else Success(TurnTable()[current][relative])
  }

  /** Going straight keeps the direction. */
  lemma StraightKeepsDirection(current: string)
    requires current in DirectionNames
    ensures GetAbsoluteDirection(current, "STRAIGHT") == Success(current)
  {
  }

  /**
   * A left turn rotates the delta `(dx, dy)` to `(dy, -dx)` and a right turn
   * to `(-dy, dx)`: both give a perpendicular direction.
   */
  lemma TurnsRotateDelta(current: string)
    requires current in DirectionNames
    ensures var (dx, dy) := MovementRules()[current];
      var l := GetAbsoluteDirection(current, "LEFT_TURN").value;
      var r := GetAbsoluteDirection(current, "RIGHT_TURN").value;
      && MovementRules()[l] == (dy, -dx)
      && MovementRules()[r] == (-dy, dx)
      && dx * MovementRules()[l].0 + dy * MovementRules()[l].1 == 0
      && dx * MovementRules()[r].0 + dy * MovementRules()[r].1 == 0
  {
  }

  /** A left turn followed by a right turn, or a right turn followed by a left turn, restores the direction. */
  lemma OppositeTurnsCancel(current: string)
    requires current in DirectionNames
    ensures GetAbsoluteDirection(GetAbsoluteDirection(current, "LEFT_TURN").value, "RIGHT_TURN") == Success(current)
    ensures GetAbsoluteDirection(GetAbsoluteDirection(current, "RIGHT_TURN").value, "LEFT_TURN") == Success(current)
  {
  }

  /** Four left turns make a full circle. */
  lemma FourLeftTurns(current: string)
    requires current in DirectionNames
    ensures var a := GetAbsoluteDirection(current, "LEFT_TURN").value;
      var b := GetAbsoluteDirection(a, "LEFT_TURN").value;
      var c := GetAbsoluteDirection(b, "LEFT_TURN").value;
      GetAbsoluteDirection(c, "LEFT_TURN") == Success(current)
  {
  }

  /** Moving right and turning left leads up. */
  lemma RightThenLeftIsUp()
    ensures GetAbsoluteDirection("RIGHT", "LEFT_TURN") == Success("UP")
  {
  }

  /**
   * The game-state record: a direction outside the four names is refused;
   * the score counts the segments beyond an initial length of three.
   */
  function NewGameState(snakeBody: seq<Cell>, food: Cell, direction: string, width: int, height: int)
    : (r: Result<GameState, RuleError>)
    ensures r.Failure? <==> direction !in DirectionNames
    ensures r.Failure? ==> r.error == InvalidDirection
    ensures r.Success? ==> r.value.score == |snakeBody| - 3 && r.value.snakeBody == snakeBody
    ensures r.Success? ==> r.value.food == food && r.value.direction == direction
    ensures r.Success? ==> r.value.width == width && r.value.height == height
  {
    if direction !in ["UP", "DOWN", "LEFT", "RIGHT"] then Failure(InvalidDirection)
    else Success(GameState(snakeBody, food, direction, width, height, |snakeBody| - 3))
  }

  /** A snake of the initial length three scores zero; each further segment adds one. */
  lemma ScoreCountsGrowth(snakeBody: seq<Cell>, food: Cell, direction: string, width: int, height: int, c: Cell)
    requires direction in DirectionNames
    ensures |snakeBody| == 3 ==> NewGameState(snakeBody, food, direction, width, height).value.score == 0
    ensures NewGameState([c] + snakeBody, food, direction, width, height).value.score ==
      NewGameState(snakeBody, food, direction, width, height).value.score + 1
  {
  }
}
