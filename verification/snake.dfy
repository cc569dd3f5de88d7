/**
  The snake: its body as a sequence of cells, head first and tail last, and
  the direction it travels in.
 */
module SnakeBody {
  import opened Grid

  /** A cell occupied by the snake; two snake cells are equal when their indices are. */
  type SnakeCell = nat

  datatype Snake = Snake(body: seq<SnakeCell>, direction: Direction)

  /** No cell occurs twice in `s`. */
  predicate Distinct(s: seq<SnakeCell>) {
    forall i, j :: 0 <= i < j < |s| ==> s[i] != s[j]
  }

  /**
    The cells pushed by the spawning loop after `len` rounds: round `i` pushes
    `spawn - i`. The machine-word subtraction must not underflow, so `len`
    rounds need `len - 1 <= spawn`.
   */
  function SpawnBody(spawn: nat, len: nat): (body: seq<SnakeCell>)
    requires len <= spawn + 1
    ensures |body| == len
    ensures forall i :: 0 <= i < len ==> body[i] == spawn - i
  {
    if len == 0 then [] else SpawnBody(spawn, len - 1) + [spawn - (len - 1)]
  }

  /** A new snake of `len` cells ending at `spawn`, heading Down. */
  function NewSnake(spawn: nat, len: nat): (s: Snake)
    requires len <= spawn + 1
    ensures s.direction == Down
    ensures |s.body| == len
    ensures len > 0 ==> s.body[0] == spawn
    ensures forall i :: 0 < i < len ==> s.body[i] + 1 == s.body[i - 1]
    ensures Distinct(s.body)
  {
    Snake(SpawnBody(spawn, len), Down)
  }

  /** The game's three-cell snake is `[spawn, spawn - 1, spawn - 2]`. */
  lemma NewSnakeOfThree(spawn: nat)
    requires 2 <= spawn
    ensures NewSnake(spawn, 3) == Snake([spawn, spawn - 1, spawn - 2], Down)
  {
    var s := NewSnake(spawn, 3);
    assert s.body[0] == spawn && s.body[1] == spawn - 1 && s.body[2] == spawn - 2;
  }

  /**
    One movement step: the new head goes in front and every other segment
    takes the place of the one before it, so the old tail drops off.
   */
  function Advance(body: seq<SnakeCell>, head: SnakeCell): (r: seq<SnakeCell>)
    requires |body| > 0
    ensures |r| == |body|
    ensures r[0] == head
    ensures forall i :: 1 <= i < |body| ==> r[i] == body[i - 1]
    ensures multiset(r) + multiset{body[|body| - 1]} == multiset(body) + multiset{head}
  {
    assert body == body[..|body| - 1] + [body[|body| - 1]];
    [head] + body[..|body| - 1]
  }

  /**
    The in-place shift of the game: write the new head into slot 0, then copy
    each slot `i` from slot `i - 1` of a snapshot of the old body.
   */
  method ShiftBody(body: seq<SnakeCell>, head: SnakeCell) returns (r: seq<SnakeCell>)
    requires |body| > 0
    ensures r == Advance(body, head)
  {
    var tmp := body;
    r := body[0 := head];
    var i := 1;
    while i < |r|
      invariant 1 <= i <= |r| == |body|
      invariant r[0] == head
      invariant forall k :: 1 <= k < i ==> r[k] == tmp[k - 1]
      invariant forall k :: i <= k < |r| ==> r[k] == body[k]
    {
      r := r[i := tmp[i - 1]];
      i := i + 1;
    }
  }
}
