/**
  Properties of whole games: invariants that construction establishes and that
  direction changes and ticks preserve, stated over any sequence of commands.
 */
module GameLaws {
  import opened Wrappers
  import opened Grid
  import opened SnakeBody
  import opened Reward
  import opened Game

  /**
    A random source that eventually draws every cell of the board gives each
    tick the draws it needs: a snake shorter than the board always leaves a
    cell for the retry loop to find.
   */
  lemma CoveringDrawsSuffice(w: World, draws: seq<nat>)
    requires Valid(w) && DrawsBelow(draws, w.size) && Covers(draws, w.size)
    ensures DrawsSuffice(w, draws)
  {
    if EatsReward(w) && !Full(w) {
      CoverGivesFreeDraw(draws, Moved(w), w.size);
    }
  }

  /** In a game whose reward is off the snake, the head never eats and collides at once. */
  lemma EatingNeverCollides(w: World)
    requires Valid(w) && RewardFree(w) && EatsReward(w)
    ensures !Collides(w)
  {
  }

  /** A tick keeps the reward off the snake. */
  lemma UpdateKeepsRewardFree(w: World, draws: seq<nat>)
    requires Valid(w) && DrawsSuffice(w, draws) && RewardFree(w)
    ensures RewardFree(Update(w, draws))
  {
    var r := Update(w, draws);
    if !EatsReward(w) && r.reward.Some? {
      var body := w.snake.body;
      forall i | 0 <= i < |body|
        ensures r.snake.body[i] != r.reward.value
      {
        if i > 0 {
          assert r.snake.body[i] == body[i - 1];
        }
      }
    }
  }

  /**
    While the game is not lost, no cell is occupied twice except that the tail
    may repeat `body[1]` (the copy growth appends). A tick of a game in
    progress loses exactly when the head runs into the body, and otherwise
    leaves the moved body free of repeats.
   */
  lemma UpdateKeepsBodyDistinct(w: World, draws: seq<nat>)
    requires Valid(w) && DrawsSuffice(w, draws) && RewardFree(w)
    requires w.status != Some(Lose)
    requires Distinct(w.snake.body[..|w.snake.body| - 1])
    ensures var r := Update(w, draws);
            && (r.status == Some(Lose) <==> Collides(w))
            && (r.status != Some(Lose) ==> Distinct(Moved(w)))
            && (r.status != Some(Lose) ==> Distinct(r.snake.body[..|r.snake.body| - 1]))
  {
    var r := Update(w, draws);
    var body, n := w.snake.body, |w.snake.body|;
    var m := Moved(w);
    if EatsReward(w) {
      EatingNeverCollides(w);
    }
    if !Collides(w) {
      assert m == [TickHead(w)] + body[..n - 1];
      assert Distinct(m);
      if EatsReward(w) && !Full(w) {
        assert r.snake.body == m + [m[1]];
        assert r.snake.body[..|r.snake.body| - 1] == m;
      } else {
        assert r.snake.body == m;
      }
    }
  }

  /** The head's next step does not lead onto the neck. */
  predicate NeckSafe(w: World)
    requires Valid(w)
  {
    NextCell(w.width, w.snake.body[0], w.snake.direction) != w.snake.body[1]
  }

  /** A new snake heading Down does not face its own neck. */
  lemma NewIsNeckSafe(width: nat, spawn: nat, draws: seq<nat>)
    requires 0 < width && 2 <= spawn < width * width
    requires DrawsBelow(draws, width * width) && HasFreeDraw(draws, NewSnake(spawn, 3).body)
    ensures NeckSafe(New(width, spawn, draws))
  {
    var row, col := Row(width, spawn), Col(width, spawn);
    Decompose(width, spawn);
    NextCellOffBorder(width, spawn);
    NextCellIsTorusStep(width, spawn, Down);
    if row == width - 1 {
      assert NextCell(width, spawn, Down) == col;
      if col == spawn - 1 {
        assert (width - 1) * width == 1;
        assert width == 1 || width >= 2;
        if width >= 2 {
          MulMonotone(1, width - 1, width);
        }
        assert false;
      }
    }
  }

  /**
    A tick keeps the snake from facing its neck: the neck becomes the old head,
    and two steps in one direction never return on a board at least three wide.
   */
  lemma UpdateKeepsNeckSafe(w: World, draws: seq<nat>)
    requires Valid(w) && DrawsSuffice(w, draws)
    requires 3 <= w.width && w.nextCell == None
    ensures NeckSafe(Update(w, draws))
  {
    TwoStepsDoNotReturn(w.width, w.snake.body[0], w.snake.direction);
  }

  // ---------------------------------------------------------------------------
  // Whole games
  // ---------------------------------------------------------------------------

  /** What the host does to a started game: turn the snake or run one tick. */
  datatype Command = Turn(d: Direction) | Tick(draws: seq<nat>)

  /** Every tick's draws lie on the board and eventually cover it. */
  predicate FairTicks(cmds: seq<Command>, size: nat) {
    forall i :: 0 <= i < |cmds| && cmds[i].Tick? ==>
      DrawsBelow(cmds[i].draws, size) && Covers(cmds[i].draws, size)
  }

  /** One command of the host. */
  function Step(w: World, c: Command): (r: World)
    requires Valid(w)
    requires c.Tick? ==> DrawsBelow(c.draws, w.size) && Covers(c.draws, w.size)
    ensures Valid(r) && r.width == w.width && r.size == w.size
    ensures |r.snake.body| >= |w.snake.body|
  {
    match c
    case Turn(d) => ChangeDirection(w, d)
    case Tick(draws) =>
      CoveringDrawsSuffice(w, draws);
      Update(w, draws)
  }

  lemma FairTicksTail(cmds: seq<Command>, size: nat)
    requires cmds != [] && FairTicks(cmds, size)
    ensures FairTicks(cmds[1..], size)
  {
    forall i | 0 <= i < |cmds[1..]| && cmds[1..][i].Tick?
      ensures DrawsBelow(cmds[1..][i].draws, size) && Covers(cmds[1..][i].draws, size)
    {
      assert cmds[1..][i] == cmds[i + 1];
    }
  }

  /** The world after the host's commands, in order. */
  function Run(w: World, cmds: seq<Command>): (r: World)
    requires Valid(w) && FairTicks(cmds, w.size)
    ensures Valid(r) && r.width == w.width && r.size == w.size
    ensures |r.snake.body| >= |w.snake.body|
    decreases |cmds|
  {
    if cmds == [] then w
    else
      FairTicksTail(cmds, w.size);
      Run(Step(w, cmds[0]), cmds[1..])
  }

  /** The invariants of a game on a board at least three cells wide. */
  predicate GameInvariant(w: World) {
    && Valid(w)
    && 3 <= w.width
    && RewardFree(w)
    && NeckSafe(w)
    && w.nextCell == None
    && (InProgress(w) ==> Distinct(w.snake.body[..|w.snake.body| - 1]))
  }

  /** The game is not yet won or lost. */
  predicate InProgress(w: World) {
    w.status == None || w.status == Some(Played)
  }

  /** A new, started game on a board at least three cells wide satisfies the invariants. */
  lemma NewGameInvariant(width: nat, spawn: nat, draws: seq<nat>)
    requires 3 <= width && 2 <= spawn < width * width
    requires DrawsBelow(draws, width * width) && HasFreeDraw(draws, NewSnake(spawn, 3).body)
    ensures GameInvariant(New(width, spawn, draws))
    ensures GameInvariant(StartGame(New(width, spawn, draws)))
  {
    NewIsNeckSafe(width, spawn, draws);
    var w := New(width, spawn, draws);
    assert w.snake.body[..2] == [spawn, spawn - 1];
  }

  /** One command keeps the invariants. */
  lemma StepKeepsInvariant(w: World, c: Command)
    requires GameInvariant(w)
    requires c.Tick? ==> DrawsBelow(c.draws, w.size) && Covers(c.draws, w.size)
    ensures GameInvariant(Step(w, c))
  {
    match c
    case Turn(d) =>
    case Tick(draws) =>
      CoveringDrawsSuffice(w, draws);
      UpdateKeepsRewardFree(w, draws);
      UpdateKeepsNeckSafe(w, draws);
      if InProgress(w) {
        UpdateKeepsBodyDistinct(w, draws);
      }
  }

  /**
    Any sequence of commands keeps the invariants: the reward stays off the
    snake, the snake never faces its neck, no head cell is ever queued, and
    until the game is lost no cell is occupied twice but for the growth copy.
   */
  lemma {:induction false} RunKeepsInvariant(w: World, cmds: seq<Command>)
    requires GameInvariant(w) && FairTicks(cmds, w.size)
    ensures GameInvariant(Run(w, cmds))
    decreases |cmds|
  {
    if cmds != [] {
      StepKeepsInvariant(w, cmds[0]);
      FairTicksTail(cmds, w.size);
      RunKeepsInvariant(Step(w, cmds[0]), cmds[1..]);
    }
  }

  /** Commands that only turn the snake, as the host may send before the game starts. */
  predicate OnlyTurns(cmds: seq<Command>) {
    forall i :: 0 <= i < |cmds| ==> cmds[i].Turn?
  }

  /** Turns alone change nothing but the snake's direction: not its body, not the status. */
  lemma {:induction false} TurnsChangeOnlyDirection(w: World, cmds: seq<Command>)
    requires Valid(w) && OnlyTurns(cmds)
    ensures FairTicks(cmds, w.size)
    ensures Run(w, cmds).(snake := w.snake) == w
    ensures Run(w, cmds).snake.body == w.snake.body
    decreases |cmds|
  {
    if cmds != [] {
      assert cmds[0].Turn?;
      var v := Step(w, cmds[0]);
      assert OnlyTurns(cmds[1..]) by {
        forall i | 0 <= i < |cmds[1..]| ensures cmds[1..][i].Turn? {
          assert cmds[1..][i] == cmds[i + 1];
        }
      }
      TurnsChangeOnlyDirection(v, cmds[1..]);
    }
  }

  /**
    A game as the host plays it: built, turned any number of times before it
    starts (keyboard input reaches the engine before `start_game`), started
    once, then driven by turns and ticks. Every world it passes through
    satisfies the invariants, and the snake is never shorter than the three
    cells it started with.
   */
  lemma PlayKeepsInvariant(width: nat, spawn: nat, draws: seq<nat>, early: seq<Command>, cmds: seq<Command>)
    requires 3 <= width && 2 <= spawn < width * width
    requires DrawsBelow(draws, width * width) && HasFreeDraw(draws, NewSnake(spawn, 3).body)
    requires OnlyTurns(early) && FairTicks(cmds, width * width)
    ensures var w := StartGame(Run(New(width, spawn, draws), early));
            GameInvariant(Run(w, cmds)) && |Run(w, cmds).snake.body| >= 3
  {
    var w0 := New(width, spawn, draws);
    NewGameInvariant(width, spawn, draws);
    TurnsChangeOnlyDirection(w0, early);
    RunKeepsInvariant(w0, early);
    var w := StartGame(Run(w0, early));
    assert GameInvariant(w);
    RunKeepsInvariant(w, cmds);
  }

  /**
    On an 8-wide board a snake spawned at cell 20 moves Down to cell 28 on the
    first tick, its body following as `[28, 20, 19]`, and keeps playing.
   */
  lemma FirstTickOnEightWideBoard(draws: seq<nat>)
    requires DrawsBelow(draws, 64) && HasFreeDraw(draws, NewSnake(20, 3).body)
    requires New(8, 20, draws).reward != Some(28)
    ensures var r := Update(StartGame(New(8, 20, draws)), []);
            r.snake.body == [28, 20, 19] && r.status == Some(Played) && StatusInfo(r) == "You're Playing!"
  {
    TickFromCellTwenty(StartGame(New(8, 20, draws)));
  }

  lemma TickFromCellTwenty(w: World)
    requires Valid(w) && w.width == 8 && w.snake == Snake([20, 19, 18], Down)
    requires w.nextCell == None && w.reward != Some(28) && w.status == Some(Played)
    ensures DrawsSuffice(w, [])
    ensures var r := Update(w, []);
            r.snake.body == [28, 20, 19] && r.status == Some(Played)
  {
    MoveFromCellTwenty(w);
  }

  /** Heading Down from cell 20 of an 8-wide board, the head steps to 28 and the body to `[28, 20, 19]`. */
  lemma MoveFromCellTwenty(w: World)
    requires Valid(w) && w.width == 8 && w.snake == Snake([20, 19, 18], Down) && w.nextCell == None
    ensures TickHead(w) == 28 && !Collides(w)
    ensures Moved(w) == [28, 20, 19]
  {
    assert Row(8, 20) == 2;
    NextCellOffBorder(8, 20);
    var m := Moved(w);
    assert m[0] == 28 && m[1] == 20 && m[2] == 19;
  }

  /**
    From snake `[20, 19, 18]` heading Down on an 8-wide board with the reward
    on 28, a tick eats: the body grows to `[28, 20, 19, 20]`, the draw 20 is
    rejected because the snake occupies it, and the reward moves to 7.
   */
  lemma GrowFromCellTwenty(w: World)
    requires Valid(w) && w.width == 8 && w.snake == Snake([20, 19, 18], Down)
    requires w.nextCell == None && w.reward == Some(28) && w.status == Some(Played)
    ensures DrawsSuffice(w, [20, 7])
    ensures var r := Update(w, [20, 7]);
            r.snake.body == [28, 20, 19, 20] && r.reward == Some(7) && r.status == Some(Played)
  {
    MoveFromCellTwenty(w);
    SecondDrawIsSeven();
    EatingTick(w, [20, 7]);
  }
  /**
    A tick that eats on a board not yet full and does not collide grows the
    moved body by a copy of its second cell, places the first free draw as the
    reward, and keeps the status.
   */
  lemma EatingTick(w: World, draws: seq<nat>)
    requires Valid(w) && DrawsSuffice(w, draws)
    requires EatsReward(w) && !Full(w) && !Collides(w)
    ensures var m := Moved(w);
            Update(w, draws) == World(w.width, w.size, Some(PickReward(w.size, m, draws)),
                                      Snake(m + [m[1]], w.snake.direction), None, w.status)
  {
    assert Moved(w)[1..] == w.snake.body[..|w.snake.body| - 1];
  }

  /** Against the moved body `[28, 20, 19]`, the draw 20 is occupied and the draw 7 is taken. */
  lemma SecondDrawIsSeven()
    ensures HasFreeDraw([20, 7], [28, 20, 19])
    ensures PickReward(64, [28, 20, 19], [20, 7]) == 7
  {
    assert [20, 7][1] !in [28, 20, 19];
    var k := FirstFreeIndex([28, 20, 19], [20, 7]);
    assert [20, 7][0] in [28, 20, 19];
  }
}
