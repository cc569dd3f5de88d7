/**
  The game world: board size, snake, reward cell, a pending head cell and
  the game status, with the commands the host calls and the per-tick update.
 */
module Game {
  import opened Wrappers
  import opened Grid
  import opened SnakeBody
  import opened Reward

  datatype GameStatus = Win | Lose | Played

  /**
    `status == None` means the game has not started. `nextCell` is a head cell
    queued for the next tick; the game only ever stores `None` there.
   */
  datatype World = World(
    width: nat,
    size: nat,
    reward: Option<nat>,
    snake: Snake,
    nextCell: Option<SnakeCell>,
    status: Option<GameStatus>)

  /**
    What every world of a game satisfies: the board is `width × width`, the
    snake has a head and a neck and fits on the board, and every cell the world
    mentions is a cell of the board.
   */
  predicate Valid(w: World) {
    && 0 < w.width
    && w.size == w.width * w.width
    && 2 <= |w.snake.body| <= w.size
    && (forall i :: 0 <= i < |w.snake.body| ==> w.snake.body[i] < w.size)
    && (w.reward.Some? ==> w.reward.value < w.size)
    && (w.nextCell.Some? ==> w.nextCell.value < w.size)
  }

  /** The reward, when there is one, lies on a cell the snake does not occupy. */
  predicate RewardFree(w: World) {
    w.reward.Some? ==> w.reward.value !in w.snake.body
  }

  // ---------------------------------------------------------------------------
  // Construction, start and queries
  // ---------------------------------------------------------------------------

  /**
    A new world: a three-cell snake ending at `spawn` heading Down, a reward on
    the first draw that misses it, no pending cell and no status yet.
   */
  function New(width: nat, spawn: nat, draws: seq<nat>): (w: World)
    requires 0 < width && 2 <= spawn < width * width
    requires DrawsBelow(draws, width * width) && HasFreeDraw(draws, NewSnake(spawn, 3).body)
    ensures Valid(w) && RewardFree(w)
    ensures w.width == width && w.size == width * width
    ensures w.snake.body == [spawn, spawn - 1, spawn - 2] && w.snake.direction == Down
    ensures w.reward.Some? && w.nextCell == None && w.status == None
  {
    NewSnakeOfThree(spawn);
    var size := width * width;
    var snake := NewSnake(spawn, 3);
    World(width, size, Some(PickReward(size, snake.body, draws)), snake, None, None)
  }

  /** Starting the game sets the status to Played and changes nothing else. */
  function StartGame(w: World): (r: World)
    ensures r.status == Some(Played)
    ensures r.(status := w.status) == w
  {
    w.(status := Some(Played))
  }

  /** The status line shown to the player; each status has its own text. */
  function StatusInfo(w: World): (text: string)
    ensures text == "None!" <==> w.status == None
    ensures text == "You're Playing!" <==> w.status == Some(Played)
    ensures text == "You Win!" <==> w.status == Some(Win)
    ensures text == "You Lose!" <==> w.status == Some(Lose)
  {
    match w.status
    case Some(Lose) => "You Lose!"
    case Some(Win) => "You Win!"
    case Some(Played) => "You're Playing!"
    case None => "None!"
  }

  /** The head cell is one of the snake's cells, and on the board. */
  function SnakeHeadIdx(w: World): (h: SnakeCell)
    requires |w.snake.body| > 0
    ensures h in w.snake.body
    ensures Valid(w) ==> h < w.size
  {
    w.snake.body[0]
  }

  /** The snake's length never drops below two nor exceeds the board. */
  function SnakeLen(w: World): (n: nat)
    ensures n == |w.snake.body|
    ensures Valid(w) ==> 2 <= n <= w.size
  {
    |w.snake.body|
  }

  // ---------------------------------------------------------------------------
  // Direction change
  // ---------------------------------------------------------------------------

  /**
    A turn is refused when the cell it leads to from the head is the neck
    `body[1]`; otherwise the snake takes the new direction. Nothing else changes.
   */
  function ChangeDirection(w: World, d: Direction): (r: World)
    requires Valid(w)
    ensures r.(snake := w.snake) == w && r.snake.body == w.snake.body
    ensures NextCell(w.width, w.snake.body[0], d) == w.snake.body[1] ==> r == w
    ensures NextCell(w.width, w.snake.body[0], d) != w.snake.body[1] ==> r.snake.direction == d
    ensures r.snake.direction != w.snake.direction ==>
              NextCell(w.width, w.snake.body[0], r.snake.direction) != w.snake.body[1]
  {
    var next := NextCell(w.width, SnakeHeadIdx(w), d);
    if w.snake.body[1] == next then w
    else w.(snake := w.snake.(direction := d))
  }

  // ---------------------------------------------------------------------------
  // One tick
  // ---------------------------------------------------------------------------

  /** The cell the head moves to: the pending cell if any, else one step on. */
  function TickHead(w: World): (h: SnakeCell)
    requires Valid(w)
    ensures h < w.size
    ensures w.nextCell.None? ==> h == NextCell(w.width, w.snake.body[0], w.snake.direction)
    ensures w.nextCell.Some? ==> h == w.nextCell.value
  {
    match w.nextCell
    case None => NextCell(w.width, SnakeHeadIdx(w), w.snake.direction)
    case Some(c) => c
  }

  /** The body after this tick's shift, before any growth. */
  function Moved(w: World): (body: seq<SnakeCell>)
    requires Valid(w)
  {
    Advance(w.snake.body, TickHead(w))
  }

  /** The head runs into a segment that is still there after the shift. */
  predicate Collides(w: World)
    requires Valid(w)
  {
    TickHead(w) in w.snake.body[..|w.snake.body| - 1]
  }

  /** The head lands on the reward. */
  predicate EatsReward(w: World)
    requires Valid(w)
  {
    w.reward == Some(TickHead(w))
  }

  /** The snake already fills the board, so eating wins instead of growing. */
  predicate Full(w: World) {
    |w.snake.body| >= w.size
  }

  /**
    The draws of the random source for one tick are cells of the board, and
    when the snake eats without filling the board, one of them misses it.
   */
  predicate DrawsSuffice(w: World, draws: seq<nat>)
    requires Valid(w)
  {
    && DrawsBelow(draws, w.size)
    && (EatsReward(w) && !Full(w) ==> HasFreeDraw(draws, Moved(w)))
  }

  /**
    One tick of the game. The head moves (the pending cell is consumed), every
    segment follows the one before it, a head on a trailing segment loses, and
    a head on the reward either grows the snake by a copy of `body[1]` and
    places a new reward, or, on a full board, removes the reward and wins.
    The reward check runs even on a tick that loses.
   */
  function Update(w: World, draws: seq<nat>): (r: World)
    requires Valid(w) && DrawsSuffice(w, draws)
    ensures Valid(r)
    ensures r.width == w.width && r.size == w.size && r.snake.direction == w.snake.direction
    // movement
    ensures r.nextCell == None
    ensures |r.snake.body| >= |w.snake.body| && r.snake.body[0] == TickHead(w)
    ensures forall i :: 1 <= i < |w.snake.body| ==> r.snake.body[i] == w.snake.body[i - 1]
    // collision
    ensures !(EatsReward(w) && Full(w)) ==>
              (r.status == Some(Lose) <==> Collides(w) || w.status == Some(Lose))
    ensures !(EatsReward(w) && Full(w)) && !Collides(w) ==> r.status == w.status
    // reward
    ensures !EatsReward(w) ==> |r.snake.body| == |w.snake.body| && r.reward == w.reward
    ensures EatsReward(w) && !Full(w) ==>
              && |r.snake.body| == |w.snake.body| + 1
              && r.snake.body[|w.snake.body|] == r.snake.body[1] == w.snake.body[0]
              && r.reward.Some? && r.reward.value !in r.snake.body
              && exists k: nat :: IsFirstFree(draws, Moved(w), k) && draws[k] == r.reward.value
    ensures EatsReward(w) && Full(w) ==>
              r.reward == None && r.status == Some(Win) && |r.snake.body| == |w.snake.body| == w.size
  {
    var head := TickHead(w);
    var body := Advance(w.snake.body, head);
    assert body[1..] == w.snake.body[..|w.snake.body| - 1];
    var status := if head in body[1..] then Some(Lose) else w.status;
    if w.reward == Some(head) then
      if |body| < w.size then
        var cell := PickReward(w.size, body, draws);
        World(w.width, w.size, Some(cell), Snake(body + [body[1]], w.snake.direction), None, status)
      else
        World(w.width, w.size, None, Snake(body, w.snake.direction), None, Some(Win))
    else
      World(w.width, w.size, w.reward, Snake(body, w.snake.direction), None, status)
  }
}
