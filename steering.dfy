/**
 * Direction changes. UpdateDirection (main.c:202-216) lets at most one key
 * through per movement step, through the allowMove gate, and never one that
 * reverses the snake.
 */
module Steering {
  import opened Board

  /**
   * The direction keys pressed this frame. Each field is true when either of
   * its two keys was pressed: A or LEFT, D or RIGHT, W or UP, S or DOWN.
   */
  datatype Keys = Keys(left: bool, right: bool, up: bool, down: bool)

  /** The heading of the snake together with the allowMove gate. */
  datatype Heading = Heading(dir: Direction, allowMove: bool)

  /** The heading and gate after one call of UpdateDirection. */
  function Turn(dir: Direction, allowMove: bool, keys: Keys): (h: Heading)
    ensures !allowMove ==> h == Heading(dir, false)
    ensures h.allowMove ==> h == Heading(dir, allowMove)
    ensures h.dir != dir ==> allowMove && !h.allowMove
    ensures dir != None ==> h.dir != None && h.dir != Opposite(dir)
  {
    if keys.left && dir != Right && allowMove then Heading(Left, false)
    else if keys.right && dir != Left && allowMove then Heading(Right, false)
    else if keys.up && dir != Down && allowMove then Heading(Up, false)
    else if keys.down && dir != Up && allowMove then Heading(Down, false)
    else Heading(dir, allowMove)
  }

  /** The headings asked for this frame, in the order main.c tests them. */
  function Requests(keys: Keys): (r: seq<Direction>)
    ensures None !in r
  {
    (if keys.left then [Left] else [])
    + (if keys.right then [Right] else [])
    + (if keys.up then [Up] else [])
    + (if keys.down then [Down] else [])
  }

  /**
   * The first request that does not reverse dir, or None when there is none:
   * a reference statement of the rule, independent of the if-chain.
   */
  function FirstAcceptable(requests: seq<Direction>, dir: Direction): (d: Direction)
    ensures d == None || (d in requests && d != Opposite(dir))
    ensures d == None ==> forall i :: 0 <= i < |requests| ==> requests[i] == None || requests[i] == Opposite(dir)
  {
    if requests == [] then None
    else if requests[0] != None && requests[0] != Opposite(dir) then requests[0]
    else FirstAcceptable(requests[1..], dir)
  }

  /**
   * With the gate open, the first pressed key, in the order left, right, up,
   * down, that does not reverse the snake wins and closes the gate; otherwise
   * nothing changes.
   */
  lemma TurnTakesFirstAcceptable(dir: Direction, allowMove: bool, keys: Keys)
    ensures var d := FirstAcceptable(Requests(keys), dir);
            Turn(dir, allowMove, keys)
            == if allowMove && d != None then Heading(d, false) else Heading(dir, allowMove)
  {
  }

  /** The heading after UpdateDirection has run on each frame in turn. */
  function TurnAll(h: Heading, frames: seq<Keys>): Heading
    decreases |frames|
  {
    if frames == [] then h
    else TurnAll(Turn(h.dir, h.allowMove, frames[0]), frames[1..])
  }

  /** The number of those frames on which a key press got through the gate. */
  function Accepted(h: Heading, frames: seq<Keys>): nat
    decreases |frames|
  {
    if frames == [] then 0
    else
      var h' := Turn(h.dir, h.allowMove, frames[0]);
      (if h'.allowMove != h.allowMove then 1 else 0) + Accepted(h', frames[1..])
  }

  /**
   * Between two movement steps (which alone reopen the gate) at most one key
   * press is accepted, the heading changes at most once, and it never ends up
   * reversed with respect to the heading of the last step.
   */
  lemma {:induction false} OneTurnBetweenMoves(h: Heading, frames: seq<Keys>)
    ensures Accepted(h, frames) <= (if h.allowMove then 1 else 0)
    ensures !h.allowMove ==> TurnAll(h, frames) == h
    ensures TurnAll(h, frames).dir != h.dir ==> h.allowMove && !TurnAll(h, frames).allowMove
    ensures h.dir != None ==> TurnAll(h, frames).dir != Opposite(h.dir)
    decreases |frames|
  {
    if frames != [] {
      var h' := Turn(h.dir, h.allowMove, frames[0]);
      OneTurnBetweenMoves(h', frames[1..]);
      if h'.allowMove == h.allowMove {
        assert h' == h;
      } else {
        assert !h'.allowMove;
        if h'.dir != None {
          OppositeInvolutive(h.dir);
        }
      }
    }
  }
}
