/**
  Placement of the reward cell.

  The game draws candidates from the host's random source until one is a cell
  the snake does not occupy. The random source is modelled by `draws`, the
  values it returns in order; each lies in `[0, max)`.
 */
module Reward {
  import opened SnakeBody

  /** Every draw is a cell of a board with `max` cells: the random source's range. */
  predicate DrawsBelow(draws: seq<nat>, max: nat) {
    forall i :: 0 <= i < |draws| ==> draws[i] < max
  }

  /** Some draw hits a cell that `body` does not occupy, so the retry loop stops. */
  predicate HasFreeDraw(draws: seq<nat>, body: seq<SnakeCell>) {
    exists i :: 0 <= i < |draws| && draws[i] !in body
  }

  /** Draw `k` is the first one that misses `body`. */
  predicate IsFirstFree(draws: seq<nat>, body: seq<SnakeCell>, k: nat) {
    && k < |draws|
    && draws[k] !in body
    && forall j :: 0 <= j < k ==> draws[j] in body
  }

  /** Every cell of a board with `max` cells is drawn at some point. */
  predicate Covers(draws: seq<nat>, max: nat) {
    forall c :: 0 <= c < max ==> c in draws
  }

  /** The position of the draw the retry loop accepts. */
  function FirstFreeIndex(body: seq<SnakeCell>, draws: seq<nat>): (k: nat)
    requires HasFreeDraw(draws, body)
    ensures IsFirstFree(draws, body, k)
    decreases |draws|
  {
    if draws[0] !in body then 0
    else
      assert HasFreeDraw(draws[1..], body) by {
        var i :| 0 <= i < |draws| && draws[i] !in body;
        assert draws[1..][i - 1] == draws[i];
      }
      1 + FirstFreeIndex(body, draws[1..])
  }

  /** The reward cell: the first draw that misses the snake. */
  function PickReward(max: nat, body: seq<SnakeCell>, draws: seq<nat>): (r: nat)
    requires DrawsBelow(draws, max) && HasFreeDraw(draws, body)
    ensures r < max && r !in body
    ensures exists k: nat :: IsFirstFree(draws, body, k) && draws[k] == r
  {
    draws[FirstFreeIndex(body, draws)]
  }

  /** The retry loop of the game, drawing until a candidate misses the snake. */
  method GenRewardCell(max: nat, body: seq<SnakeCell>, draws: seq<nat>) returns (r: nat)
    requires DrawsBelow(draws, max) && HasFreeDraw(draws, body)
    ensures r < max && r !in body
    ensures r == PickReward(max, body, draws)
  {
    var i := 0;
    while draws[i] in body
      invariant i < |draws|
      invariant forall j :: 0 <= j < i ==> draws[j] in body
      invariant exists j :: i <= j < |draws| && draws[j] !in body
      decreases |draws| - i
    {
      i := i + 1;
    }
    r := draws[i];
    assert IsFirstFree(draws, body, i);
    FirstFreeUnique(draws, body, i, FirstFreeIndex(body, draws));
  }

  lemma FirstFreeUnique(draws: seq<nat>, body: seq<SnakeCell>, a: nat, b: nat)
    requires IsFirstFree(draws, body, a) && IsFirstFree(draws, body, b)
    ensures a == b
  {
  }

  // ---------------------------------------------------------------------------
  // A body shorter than the board leaves a cell free
  // ---------------------------------------------------------------------------

  function Cells(body: seq<SnakeCell>): set<SnakeCell> {
    set x | x in body
  }

  /** The cells `0 .. max - 1` of a board with `max` cells. */
  function Board(max: nat): (b: set<nat>)
    ensures forall c: nat :: c in b <==> c < max
  {
    if max == 0 then {} else Board(max - 1) + {max - 1}
  }

  lemma {:induction false} CellsSize(body: seq<SnakeCell>)
    ensures |Cells(body)| <= |body|
  {
    if body != [] {
      var rest := body[1..];
      CellsSize(rest);
      assert Cells(body) == Cells(rest) + {body[0]};
    }
  }

  lemma {:induction false} BoardSize(max: nat)
    ensures |Board(max)| == max
  {
    if max > 0 {
      BoardSize(max - 1);
      assert Board(max) == Board(max - 1) + {max - 1};
    }
  }

  lemma SubsetSize(a: set<nat>, b: set<nat>)
    requires a <= b
    ensures |a| <= |b|
  {
    assert b == a + (b - a);
    assert a * (b - a) == {};
  }

  /** Pigeonhole: a body of fewer than `max` cells misses some cell of the board. */
  lemma FreeCellExists(body: seq<SnakeCell>, max: nat)
    requires |body| < max
    ensures exists c :: 0 <= c < max && c !in body
  {
    CellsSize(body);
    BoardSize(max);
    var b, s := Board(max), Cells(body);
    assert !(b <= s) by {
      if b <= s {
        SubsetSize(b, s);
        assert false;
      }
    }
    var c :| c in b && c !in s;
  }

  /**
    When every cell is eventually drawn and the snake is shorter than the
    board, the retry loop finds a free cell.
   */
  lemma CoverGivesFreeDraw(draws: seq<nat>, body: seq<SnakeCell>, max: nat)
    requires Covers(draws, max) && |body| < max
    ensures HasFreeDraw(draws, body)
  {
    FreeCellExists(body, max);
    var c :| 0 <= c < max && c !in body;
    assert c in draws;
    var i :| 0 <= i < |draws| && draws[i] == c;
  }
}
