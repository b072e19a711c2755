/** The game state of the page, held as one object: the snake's body (head
    first), its heading `(dx, dy)`, the food cell, the score, the tick
    interval `gameSpeed` in milliseconds, the square board size `tileCount`
    and the screen point where the current touch began. Each method below is
    one of the page's procedures acting on that state. */
module SnakeGame {
  import opened SnakeRules

  /** What one tick did. `FoodUnplaced` means food had to be regenerated but
      every supplied draw landed on the snake. On the page the retry recurses
      without bound and ends in a stack overflow that escapes the tick before
      the next one is scheduled: the snake has grown, the score has risen,
      the food sits on the last draw and the interval is unchanged, which is
      the state this outcome leaves. */
  datatype Tick = Continued | Restarted | FoodUnplaced

  class Game {
    const tileCount: int
    var snake: seq<Cell>
    var dx: int
    var dy: int
    var food: Cell
    var score: int
    var gameSpeed: int
    var touchStartX: int
    var touchStartY: int

    /** The object invariant: a non-empty body, ten points per segment
        grown, the interval within [50, 100], and a unit (or zero) heading. */
    ghost predicate Valid()
      reads this
    {
      tileCount > 0 &&
      |snake| > 0 &&
      score == FoodScore * (|snake| - 1) &&
      MinSpeed <= gameSpeed <= InitialSpeed &&
      IsDirection(Dir(dx, dy))
    }

    /** The state when the page loads, on a `tileCount x tileCount` board. */
    constructor (tileCount: int)
      requires tileCount > 0
      ensures Valid() && this.tileCount == tileCount
      ensures snake == [Start] && dx == 0 && dy == 0 && food == InitialFood
      ensures score == 0 && gameSpeed == InitialSpeed
      ensures touchStartX == 0 && touchStartY == 0
    {
      this.tileCount := tileCount;
      snake := [Start];
      dx, dy := 0, 0;
      food := InitialFood;
      score := 0;
      gameSpeed := InitialSpeed;
      touchStartX, touchStartY := 0, 0;
    }

    /** Re-draws the food from `draws` until it misses the snake. Each level
        takes one draw and scans the body; on a hit it draws again
        recursively and then goes on scanning with the new food. Runs out
        (`placed` false) only when every draw lands on the snake. */
    method GenerateFood(draws: seq<Cell>) returns (rest: seq<Cell>, placed: bool)
      modifies this`food
      decreases |draws|
      ensures placed <==> FirstFree(snake, draws).Placed?
      ensures placed ==> FirstFree(snake, draws) == Placed(food, rest)
      ensures placed ==> food !in snake
      ensures placed && (forall c :: c in draws ==> InGrid(c, tileCount)) ==> InGrid(food, tileCount)
      ensures !placed ==> rest == [] && food == if |draws| == 0 then old(food) else draws[|draws| - 1]
    {
      if |draws| == 0 {
        return [], false;
      }
      ghost var spec := FirstFree(snake, draws);
      food := draws[0];
      rest := draws[1..];
      placed := true;
      ghost var redrawn := false;
      var i := 0;
      while i < |snake|
        invariant 0 <= i <= |snake|
        invariant !redrawn ==> food == draws[0] && rest == draws[1..] && draws[0] !in snake[..i]
        invariant redrawn ==> spec == Placed(food, rest) && food !in snake
      {
        if snake[i] == food {
          assert !redrawn && draws[0] in snake;
          assert spec == FirstFree(snake, rest);
          rest, placed := GenerateFood(rest);
          if !placed {
            FirstFreeIsFirst(snake, draws);
            return;
          }
          redrawn := true;
        }
        assert snake[..i + 1] == snake[..i] + [snake[i]];
        i := i + 1;
      }
      if !redrawn {
        assert snake[..i] == snake;
      }
      FirstFreeIsFirst(snake, draws);
    }

    /** One move: prepend the new head, then either eat (score, new food,
        faster ticks) or drop the tail. */
    method MoveSnake(draws: seq<Cell>) returns (rest: seq<Cell>, placed: bool)
      requires Valid()
      modifies this`snake, this`score, this`food, this`gameSpeed
      ensures Valid()
      ensures snake == Advance(old(snake), Dir(dx, dy), old(food))
      ensures snake[0] == Cell(old(snake)[0].x + dx, old(snake)[0].y + dy)
      ensures snake[0] == old(food) ==>
                |snake| == |old(snake)| + 1 && snake[1..] == old(snake) &&
                score == old(score) + FoodScore &&
                (placed <==> FirstFree(snake, draws).Placed?) &&
                (placed ==> FirstFree(snake, draws) == Placed(food, rest) && food !in snake) &&
                gameSpeed == if placed && old(gameSpeed) > MinSpeed then old(gameSpeed) - 1 else old(gameSpeed)
      ensures snake[0] == old(food) && placed && (forall c :: c in draws ==> InGrid(c, tileCount)) ==>
                InGrid(food, tileCount)
      ensures snake[0] == old(food) && !placed ==>
                rest == [] && food == if |draws| == 0 then old(food) else draws[|draws| - 1]
      ensures snake[0] != old(food) ==>
                |snake| == |old(snake)| && snake[1..] == old(snake)[..|old(snake)| - 1] &&
                score == old(score) && food == old(food) && gameSpeed == old(gameSpeed) &&
                placed && rest == draws
    {
      var head := Cell(snake[0].x + dx, snake[0].y + dy);
      snake := [head] + snake;
      rest, placed := draws, true;
      if head == food {
        score := score + FoodScore;
        rest, placed := GenerateFood(draws);
        if !placed {
          return;
        }
        if gameSpeed > MinSpeed {
          gameSpeed := gameSpeed - 1;
        }
      } else {
        snake := snake[..|snake| - 1];
      }
    }

    /** True when the head is off the board or on another segment. */
    method CheckGameOver() returns (over: bool)
      requires |snake| > 0
      ensures over == GameOver(snake, tileCount)
    {
      var head := snake[0];
      if head.x < 0 || head.x >= tileCount || head.y < 0 || head.y >= tileCount {
        return true;
      }
      var i := 1;
      while i < |snake|
        invariant 1 <= i <= |snake|
        invariant forall j :: 1 <= j < i ==> snake[j] != head
      {
        if head == snake[i] {
          return true;
        }
        i := i + 1;
      }
      return false;
    }

    /** Back to a one-segment snake at the start cell, standing still, with
        score 0 and the initial interval. The food stays where it was. */
    method ResetGame()
      requires Valid()
      modifies this`snake, this`dx, this`dy, this`score, this`gameSpeed
      ensures Valid()
      ensures snake == [Start] && dx == 0 && dy == 0 && score == 0 && gameSpeed == InitialSpeed
    {
      snake := [Start];
      dx := 0;
      dy := 0;
      score := 0;
      gameSpeed := InitialSpeed;
    }

    /** One tick of the game loop: move, then restart if the move ended the
        game. */
    method Step(draws: seq<Cell>) returns (rest: seq<Cell>, outcome: Tick)
      requires Valid()
      modifies this`snake, this`dx, this`dy, this`score, this`food, this`gameSpeed
      ensures Valid()
      ensures var moved := Advance(old(snake), Dir(old(dx), old(dy)), old(food));
              var ate := moved[0] == old(food);
              (outcome == FoodUnplaced <==> ate && FirstFree(moved, draws).Exhausted?) &&
              (outcome == Restarted <==> !(ate && FirstFree(moved, draws).Exhausted?) && GameOver(moved, tileCount)) &&
              (outcome == Continued ==> snake == moved && Dir(dx, dy) == Dir(old(dx), old(dy))) &&
              (outcome == Restarted ==> snake == [Start] && Dir(dx, dy) == Still && score == 0 && gameSpeed == InitialSpeed) &&
              (outcome != FoodUnplaced ==> food == if ate then FirstFree(moved, draws).food else old(food)) &&
              (outcome == Continued ==> gameSpeed == if ate && old(gameSpeed) > MinSpeed then old(gameSpeed) - 1 else old(gameSpeed)) &&
              (outcome != FoodUnplaced ==> rest == if ate then FirstFree(moved, draws).rest else draws) &&
              (outcome != FoodUnplaced && ate && (forall c :: c in draws ==> InGrid(c, tileCount)) ==> InGrid(food, tileCount))
      ensures var moved := Advance(old(snake), Dir(old(dx), old(dy)), old(food));
              outcome == FoodUnplaced ==>
                snake == moved && Dir(dx, dy) == Dir(old(dx), old(dy)) &&
                score == old(score) + FoodScore && gameSpeed == old(gameSpeed) &&
                rest == [] && food == if |draws| == 0 then old(food) else draws[|draws| - 1]
      ensures outcome != FoodUnplaced && AllInGrid(old(snake), tileCount) && InGrid(Start, tileCount) ==>
                AllInGrid(snake, tileCount)
    {
      var placed;
      rest, placed := MoveSnake(draws);
      if !placed {
        outcome := FoodUnplaced;
        return;
      }
      var over := CheckGameOver();
      if over {
        ResetGame();
        outcome := Restarted;
      } else {
        if AllInGrid(old(snake), tileCount) {
          AdvanceStaysInGrid(old(snake), Dir(dx, dy), old(food), tileCount);
        }
        outcome := Continued;
      }
    }

    /** The keydown rule: an arrow key sets the heading only when it is
        perpendicular to the current one. */
    method KeyDown(key: Key)
      requires Valid()
      modifies this`dx, this`dy
      ensures Valid()
      ensures Dir(dx, dy) == KeyTurn(key, old(Dir(dx, dy)))
    {
      if key == ArrowUp && dy == 0 { dx := 0; dy := -1; }
      if key == ArrowDown && dy == 0 { dx := 0; dy := 1; }
      if key == ArrowLeft && dx == 0 { dx := -1; dy := 0; }
      if key == ArrowRight && dx == 0 { dx := 1; dy := 0; }
    }

    /** Records where a touch began. */
    method TouchStart(x: int, y: int)
      modifies this`touchStartX, this`touchStartY
      ensures touchStartX == x && touchStartY == y
    {
      touchStartX := x;
      touchStartY := y;
    }

    /** The swipe rule for a touch that ends at `(endX, endY)`. */
    method HandleSwipe(endX: int, endY: int)
      requires Valid()
      modifies this`dx, this`dy
      ensures Valid()
      ensures Dir(dx, dy) == SwipeTurn(endX - touchStartX, endY - touchStartY, old(Dir(dx, dy)))
    {
      var diffX := endX - touchStartX;
      var diffY := endY - touchStartY;
      if Abs(diffX) < SwipeThreshold && Abs(diffY) < SwipeThreshold {
        return;
      }
      if Abs(diffX) > Abs(diffY) {
        if diffX > 0 && dx == 0 { dx := 1; dy := 0; }
        else if diffX < 0 && dx == 0 { dx := -1; dy := 0; }
      } else {
        if diffY > 0 && dy == 0 { dx := 0; dy := 1; }
        else if diffY < 0 && dy == 0 { dx := 0; dy := -1; }
      }
    }
  }
}
