/** The rules of the snake game as values: grid cells, headings, the move of
    one tick, the game-over test, food placement from a stream of random
    draws, and the direction changes made by arrow keys and swipes. The
    stateful game in module SnakeGame is proved against these definitions. */
module SnakeRules {

  /** One grid cell, in tile units. */
  datatype Cell = Cell(x: int, y: int)

  /** A heading: the step `(dx, dy)` the head takes on every tick. */
  datatype Dir = Dir(dx: int, dy: int)

  /** The outcome of food placement over a finite stream of random draws:
      the cell chosen and the draws left over, or every draw was on the snake. */
  datatype Draw = Placed(food: Cell, rest: seq<Cell>) | Exhausted

  const Start := Cell(10, 10)
  const InitialFood := Cell(15, 15)
  const FoodScore := 10
  const InitialSpeed := 100
  const MinSpeed := 50
  const SwipeThreshold := 10

  const Still := Dir(0, 0)
  const Up := Dir(0, -1)
  const Down := Dir(0, 1)
  const Left := Dir(-1, 0)
  const Right := Dir(1, 0)

  predicate IsDirection(d: Dir) {
    d == Still || d == Up || d == Down || d == Left || d == Right
  }

  function Neg(d: Dir): Dir {
    Dir(-d.dx, -d.dy)
  }

  /** The two headings share no axis of motion: for unit headings, they are
      perpendicular or one of them is Still. */
  predicate Crosswise(a: Dir, b: Dir) {
    (a.dx == 0 || b.dx == 0) && (a.dy == 0 || b.dy == 0)
  }

  function Abs(n: int): nat {
    if n < 0 then -n else n
  }

  function Sign(n: int): int {
    if n > 0 then 1 else if n < 0 then -1 else 0
  }

  /** The square board `[0, n) x [0, n)`. */
  predicate InGrid(c: Cell, n: int) {
    0 <= c.x < n && 0 <= c.y < n
  }

  predicate AllInGrid(body: seq<Cell>, n: int) {
    forall i :: 0 <= i < |body| ==> InGrid(body[i], n)
  }

  // ---------------------------------------------------------------------
  // One tick
  // ---------------------------------------------------------------------

  function NextHead(body: seq<Cell>, d: Dir): Cell
    requires |body| > 0
  {
    Cell(body[0].x + d.dx, body[0].y + d.dy)
  }

  /** The body after one move: the new head is prepended, and the tail is
      dropped unless the new head lands on the food. */
  function Advance(body: seq<Cell>, d: Dir, food: Cell): (r: seq<Cell>)
    requires |body| > 0
    ensures |body| <= |r| <= |body| + 1
  {
    var head := NextHead(body, d);
    if head == food then [head] + body else [head] + body[..|body| - 1]
  }

  /** The game is over when the head is off the board or sits on another
      segment of the body. */
  predicate GameOver(body: seq<Cell>, n: int)
    requires |body| > 0
  {
    !InGrid(body[0], n) || exists i :: 1 <= i < |body| && body[i] == body[0]
  }

  /** A tick that does not end the game leaves every segment on the board. */
  lemma AdvanceStaysInGrid(body: seq<Cell>, d: Dir, food: Cell, n: int)
    requires |body| > 0 && AllInGrid(body, n)
    requires !GameOver(Advance(body, d, food), n)
    ensures AllInGrid(Advance(body, d, food), n)
  {
  }

  /** No cell of the body occurs twice. */
  predicate NoRepeats(body: seq<Cell>) {
    forall i, j :: 0 <= i < j < |body| ==> body[i] != body[j]
  }

  /** A tick that does not end the game keeps the body free of repeated
      cells: the only new cell is the head, and it meets no later segment. */
  lemma AdvanceKeepsNoRepeats(body: seq<Cell>, d: Dir, food: Cell, n: int)
    requires |body| > 0 && NoRepeats(body)
    requires !GameOver(Advance(body, d, food), n)
    ensures NoRepeats(Advance(body, d, food))
  {
  }

  /** Moving into the cell the tail vacates in the same tick is not a
      collision: the check looks at the body after the tail is dropped. For
      a body with no repeated cell whose tail is on the board, a head that
      steps onto that tail cell (without eating) does not end the game. */
  lemma EnteringVacatedTailIsSafe(body: seq<Cell>, d: Dir, food: Cell, n: int)
    requires |body| >= 2
    requires NoRepeats(body)
    requires NextHead(body, d) == body[|body| - 1] != food
    requires InGrid(body[|body| - 1], n)
    ensures !GameOver(Advance(body, d, food), n)
  {
  }

  /** An instance: a square loop of four cells, the head stepping right onto
      the tail. */
  lemma VacatedTailExample()
    ensures var body := [Cell(0, 0), Cell(0, 1), Cell(1, 1), Cell(1, 0)];
            var r := Advance(body, Right, Cell(5, 5));
            r[0] == body[|body| - 1] && !GameOver(r, 20)
  {
  }

  /** A tick with heading Still is not a no-op: it is one only for a
      one-segment snake that does not sit on the food. Otherwise the new head
      repeats the old one, so the game is over. */
  lemma StillTick(body: seq<Cell>, food: Cell, n: int)
    requires |body| > 0
    ensures |body| == 1 && body[0] != food ==> Advance(body, Still, food) == body
    ensures |body| >= 2 || body[0] == food ==> GameOver(Advance(body, Still, food), n)
  {
    var r := Advance(body, Still, food);
    assert NextHead(body, Still) == body[0];
    if |body| >= 2 || body[0] == food {
      assert r[1] == body[0];
    }
  }

  // ---------------------------------------------------------------------
  // Food placement
  // ---------------------------------------------------------------------

  /** Rejection sampling over a finite stream of draws: the first draw that
      is not on the body, with the draws after it. */
  function FirstFree(body: seq<Cell>, draws: seq<Cell>): Draw {
    if |draws| == 0 then Exhausted
    else if draws[0] !in body then Placed(draws[0], draws[1..])
    else FirstFree(body, draws[1..])
  }

  /** What FirstFree finds: a draw off the body, preceded only by draws on
      the body and followed by the draws it returns; it finds nothing exactly
      when every draw is on the body. */
  lemma {:induction false} FirstFreeIsFirst(body: seq<Cell>, draws: seq<Cell>)
    ensures var r := FirstFree(body, draws);
            (r.Placed? ==>
               var k := |draws| - |r.rest| - 1;
               0 <= k < |draws| && draws[k] == r.food && r.rest == draws[k + 1..] &&
               r.food !in body && forall j :: 0 <= j < k ==> draws[j] in body) &&
            (r.Exhausted? <==> forall c :: c in draws ==> c in body)
  {
    if |draws| > 0 && draws[0] in body {
      FirstFreeIsFirst(body, draws[1..]);
      var r := FirstFree(body, draws);
      if r.Placed? {
        var k := |draws| - |r.rest| - 1;
        forall j | 0 <= j < k
          ensures draws[j] in body
        {
          if j > 0 {
            assert draws[j] == draws[1..][j - 1];
          }
        }
      } else {
        forall c | c in draws
          ensures c in body
        {
          if c != draws[0] {
            assert c in draws[1..];
          }
        }
      }
    }
  }

  // ---------------------------------------------------------------------
  // Direction input
  // ---------------------------------------------------------------------

  /** The `key` value of a keydown event: the four arrow keys, and every
      other key as one. */
  datatype Key = ArrowUp | ArrowDown | ArrowLeft | ArrowRight | OtherKey

  function ArrowDir(key: Key): Dir
    requires key != OtherKey
  {
    match key
    case ArrowUp => Up
    case ArrowDown => Down
    case ArrowLeft => Left
    case ArrowRight => Right
  }

  /** The heading after one key event. An arrow key is taken exactly when it
      is perpendicular to the current heading; anything else changes nothing. */
  function KeyTurn(key: Key, d: Dir): (r: Dir)
    ensures r == if key != OtherKey && Crosswise(ArrowDir(key), d) then ArrowDir(key) else d
    ensures IsDirection(d) ==> IsDirection(r)
    ensures r != d ==> Crosswise(r, d)
    ensures IsDirection(d) && d != Still ==> r != Neg(d)
  {
    if key == ArrowUp && d.dy == 0 then Up
    else if key == ArrowDown && d.dy == 0 then Down
    else if key == ArrowLeft && d.dx == 0 then Left
    else if key == ArrowRight && d.dx == 0 then Right
    else d
  }

  /** Two key events between ticks can reverse the heading: the rule only
      compares each key with the heading the previous event left behind.
      Moving horizontally, "up" and then the opposite horizontal arrow turn
      the snake around. */
  lemma TwoKeysCanReverse()
    ensures KeyTurn(ArrowRight, KeyTurn(ArrowUp, Left)) == Neg(Left)
    ensures KeyTurn(ArrowLeft, KeyTurn(ArrowUp, Right)) == Neg(Right)
  {
    assert KeyTurn(ArrowUp, Left) == Up && KeyTurn(ArrowRight, Up) == Right;
    assert KeyTurn(ArrowUp, Right) == Up && KeyTurn(ArrowLeft, Up) == Left;
  }

  /** The unit step along the dominant axis of a swipe; ties go vertical. */
  function SwipeDir(diffX: int, diffY: int): Dir {
    if Abs(diffX) > Abs(diffY) then Dir(Sign(diffX), 0) else Dir(0, Sign(diffY))
  }

  /** The heading after a swipe by `(diffX, diffY)` screen units. Swipes
      shorter than the threshold on both axes change nothing; otherwise the
      swipe acts like the arrow key of its dominant axis. */
  function SwipeTurn(diffX: int, diffY: int, d: Dir): (r: Dir)
    ensures Abs(diffX) < SwipeThreshold && Abs(diffY) < SwipeThreshold ==> r == d
    ensures !(Abs(diffX) < SwipeThreshold && Abs(diffY) < SwipeThreshold) ==>
              IsDirection(SwipeDir(diffX, diffY)) && SwipeDir(diffX, diffY) != Still &&
              r == if Crosswise(SwipeDir(diffX, diffY), d) then SwipeDir(diffX, diffY) else d
    ensures IsDirection(d) ==> IsDirection(r)
    ensures IsDirection(d) && d != Still ==> r != Neg(d)
  {
    if Abs(diffX) < SwipeThreshold && Abs(diffY) < SwipeThreshold then d
    else if Abs(diffX) > Abs(diffY) then
      if diffX > 0 && d.dx == 0 then Right
      else if diffX < 0 && d.dx == 0 then Left
      else d
    else
      if diffY > 0 && d.dy == 0 then Down
      else if diffY < 0 && d.dy == 0 then Up
      else d
  }
}
