/**
 * The whole game state as a value, and each operation of main.c as a
 * function on it. The class Game in module SnakeGame carries out the same
 * operations in place; these functions are what its methods are proved to
 * compute, and the lemmas below are what they mean.
 */
module Simulation {
  import opened Board
  import opened Ring
  import opened Apples
  import opened Steering

  /**
   * The globals `snake`, `apple`, `gameOver`, `allowMove` and `frameCounter`
   * (main.c:32-48), with the fields of the Snake struct laid out flat, and the
   * rand() values still to come.
   */
  datatype GameState = GameState(
    head: Vector2Int,
    tail: Vector2Int,
    parts: seq<Vector2Int>,
    length: int,
    curHeadIndex: int,
    curTailIndex: int,
    dir: Direction,
    apple: Vector2Int,
    gameOver: bool,
    allowMove: bool,
    frameCounter: int,
    draws: seq<nat>)

  /** Buffer size and cursor ranges the indexing of main.c relies on. */
  predicate Shaped(s: GameState) {
    |s.parts| == Capacity
    && 0 <= s.curHeadIndex < Capacity
    && 0 <= s.curTailIndex < Capacity
    && s.length >= 1
  }

  /** The body from tail to head: the cells IsSnakeSegment scans. */
  function Body(s: GameState): seq<Vector2Int>
    requires Shaped(s)
  {
    Window(s.parts, s.curTailIndex, s.length)
  }

  /** The body without its last entry: the cells HasSnakeCollidedWithItself scans. */
  function Neck(s: GameState): seq<Vector2Int>
    requires Shaped(s)
  {
    Window(s.parts, s.curTailIndex, s.length - 1)
  }

  /**
   * The ring invariant every operation keeps: the head cursor is the last
   * slot of the window, that slot holds the head, and the heading is set.
   */
  predicate Inv(s: GameState) {
    && Shaped(s)
    && s.curHeadIndex == (s.curTailIndex + s.length - 1) % Capacity
    && s.parts[s.curHeadIndex] == s.head
    && s.dir != None
  }

  /** The body fits in the ring and the tail field mirrors its first slot. */
  predicate Fits(s: GameState)
    requires Shaped(s)
  {
    s.length <= Capacity && s.tail == s.parts[s.curTailIndex]
  }

  /** No cell occurs twice. */
  predicate NoRepeats(cells: seq<Vector2Int>) {
    forall i, j :: 0 <= i < j < |cells| ==> cells[i] != cells[j]
  }

  // ---------------------------------------------------------------------
  // Operations
  // ---------------------------------------------------------------------

  /** InitSnake (main.c:155-164); only slot 0 of the buffer is written. */
  function InitSnake(s: GameState): (r: GameState)
    requires |s.parts| == Capacity
    ensures Shaped(r)
  {
    s.(length := 1, head := Center, tail := Center, parts := s.parts[0 := Center],
       curHeadIndex := 0, curTailIndex := 0, dir := Right)
  }

  /** GenerateNewApple (main.c:219-224): the first drawn cell off the body. */
  function GenerateNewApple(s: GameState): (r: GameState)
    requires Shaped(s) && CanPlaceApple(Body(s), s.draws)
    ensures Shaped(r)
  {
    var k := FirstFree(Body(s), s.draws);
    s.(apple := Sample(s.draws, k), draws := s.draws[2 * k + 2..])
  }

  /** InitGame (main.c:100-106). */
  function InitGame(s: GameState): (r: GameState)
    requires |s.parts| == Capacity && CanPlaceApple([Center], s.draws)
    ensures Inv(r) && Body(r) == [Center] && r.apple !in Body(r)
  {
    var t := InitSnake(s.(frameCounter := 0, gameOver := false, allowMove := false));
    assert Body(t) == [Center];
    GenerateNewApple(t)
  }

  /** The frame is one on which the snake moves: `frameCounter % 9 == 0` (main.c:168). */
  predicate MoveDue(s: GameState) {
    s.frameCounter % MoveInterval == 0
  }

  /** Advancing the head cursor and the head and storing it (main.c:171-189). */
  function Move(s: GameState): (r: GameState)
    requires Shaped(s)
    ensures Shaped(r)
  {
    var i := (s.curHeadIndex + 1) % Capacity;
    var h := Advance(s.dir, s.head);
    s.(curHeadIndex := i, head := h, parts := s.parts[i := h])
  }

  /** The moved head lands on the apple (HasSnakeCollidedWithApple after the move). */
  function Eats(s: GameState): (b: bool)
    requires Shaped(s)
    ensures b <==> Advance(s.dir, s.head) == s.apple
  {
    Move(s).head == s.apple
  }

  /** The growing branch before the new apple is drawn: `snake.length++` (main.c:195). */
  function Grown(s: GameState): (r: GameState)
    requires Shaped(s)
    ensures Shaped(r)
  {
    s.(length := s.length + 1)
  }

  /** The sliding branch: the tail cursor and the tail move on (main.c:192-193). */
  function Slid(s: GameState): (r: GameState)
    requires Shaped(s)
    ensures Shaped(r)
  {
    var t := (s.curTailIndex + 1) % Capacity;
    s.(curTailIndex := t, tail := s.parts[t])
  }

  /**
   * When this frame the snake moves onto the apple, rand() then delivers a
   * cell off the grown body: the condition for GenerateNewApple to return.
   */
  ghost predicate AppleReplaceable(s: GameState)
    requires Shaped(s)
  {
    MoveDue(s) && Eats(s) ==> CanPlaceApple(Body(Grown(Move(s))), s.draws)
  }

  /** UpdateSnake (main.c:167-199). */
  function UpdateSnake(s: GameState): (r: GameState)
    requires Shaped(s) && AppleReplaceable(s)
    ensures Shaped(r)
  {
    if !MoveDue(s) then s
    else
      var m := Move(s);
      var t := if m.head == m.apple then GenerateNewApple(Grown(m)) else Slid(m);
      t.(allowMove := true)
  }

  /** HasSnakeCollidedWithItself (main.c:240-247). */
  function Collided(s: GameState): (b: bool)
    requires Shaped(s)
    ensures b <==> exists i :: 0 <= i < s.length - 1 && Slot(s.parts, s.curTailIndex, i) == s.head
  {
    var n := Neck(s);
    assert forall i :: 0 <= i < |n| ==> n[i] == Slot(s.parts, s.curTailIndex, i);
    s.head in n
  }

  /** GameEnded (main.c:233-237). */
  predicate Ended(s: GameState)
    requires Shaped(s)
  {
    OutOfBounds(s.head) || Collided(s)
  }

  /** UpdateGame (main.c:116-125). */
  function UpdateGame(s: GameState): (r: GameState)
    requires Shaped(s) && AppleReplaceable(s)
    ensures Shaped(r)
  {
    var t := UpdateSnake(s);
    if Ended(t) then t.(gameOver := true) else t
  }

  /** UpdateDrawFrame without the drawing (main.c:109-113). */
  function UpdateDrawFrame(s: GameState): (r: GameState)
    requires Shaped(s) && AppleReplaceable(s)
    ensures Shaped(r)
  {
    var t := UpdateGame(s);
    t.(frameCounter := t.frameCounter + 1)
  }

  /** UpdateDirection (main.c:202-216). */
  function UpdateDirection(s: GameState, keys: Keys): (r: GameState)
    ensures r.(dir := s.dir, allowMove := s.allowMove) == s
    ensures Inv(s) ==> Inv(r)
  {
    var h := Turn(s.dir, s.allowMove, keys);
    s.(dir := h.dir, allowMove := h.allowMove)
  }

  /** One pass of the main loop (main.c:75-80): steer, then run a frame unless the heading is NONE. */
  function Frame(s: GameState, keys: Keys): (r: GameState)
    requires Shaped(s) && AppleReplaceable(UpdateDirection(s, keys))
    ensures Shaped(r)
  {
    var t := UpdateDirection(s, keys);
    if t.dir != None then UpdateDrawFrame(t) else t
  }

  // ---------------------------------------------------------------------
  // Properties
  // ---------------------------------------------------------------------

  /**
   * The ring invariant read off the body: the last
   * entry of the body is the head, the cursors are length - 1 slots apart and,
   * when the body fits, its first entry is the tail.
   */
  lemma BodyShape(s: GameState)
    requires Inv(s)
    ensures |Body(s)| == s.length && Body(s)[s.length - 1] == s.head
    ensures Body(s) == Neck(s) + [s.head]
    ensures (s.curHeadIndex - s.curTailIndex) % Capacity == (s.length - 1) % Capacity
    ensures Fits(s) ==> Body(s)[0] == s.tail
    ensures Fits(s) ==> (s.curHeadIndex - s.curTailIndex) % Capacity == s.length - 1
  {
    WindowLast(s.parts, s.curTailIndex, s.length);
    CursorDistance(s.curTailIndex, s.length);
    WrapOnce(s.curTailIndex);
    assert Body(s)[0] == s.parts[s.curTailIndex];
  }

  /** The head cursor `(t + length - 1) % Capacity` lies length - 1 slots after t, counted round the ring. */
  lemma CursorDistance(t: int, length: int)
    requires 0 <= t < Capacity && length >= 1
    ensures ((t + length - 1) % Capacity - t) % Capacity == (length - 1) % Capacity
    ensures length <= Capacity ==> ((t + length - 1) % Capacity - t) % Capacity == length - 1
  {
    ModAdd(t + length - 1, -t);
  }

  /** After InitGame: a one-cell snake at the centre heading right, and an apple off it. */
  lemma InitGameState(s: GameState)
    requires |s.parts| == Capacity && CanPlaceApple([Center], s.draws)
    ensures var r := InitGame(s);
      && Inv(r) && Fits(r) && Body(r) == [Center]
      && r.length == 1 && r.head == Center && r.tail == Center && r.parts[0] == Center
      && r.curHeadIndex == 0 && r.curTailIndex == 0 && r.dir == Right
      && !r.gameOver && !r.allowMove && r.frameCounter == 0
      && InApplePlane(r.apple) && r.apple != Center
      && r.parts[1..] == s.parts[1..]
  {
    var t := InitSnake(s.(frameCounter := 0, gameOver := false, allowMove := false));
    assert Body(t) == [Center];
  }

  /** On a frame that is not a multiple of 9, UpdateSnake changes nothing. */
  lemma IdleFrameChangesNothing(s: GameState)
    requires Shaped(s) && AppleReplaceable(s) && !MoveDue(s)
    ensures UpdateSnake(s) == s
  {
  }

  /**
   * A movement step: the head cursor moves one slot on, the head moves one
   * cell in the current heading and is stored at the new cursor, the gate
   * reopens, and the heading, the frame counter and the game-over flag stay.
   */
  lemma MoveStep(s: GameState)
    requires Shaped(s) && AppleReplaceable(s) && MoveDue(s)
    ensures var r := UpdateSnake(s);
      && r.curHeadIndex == (s.curHeadIndex + 1) % Capacity
      && r.head == Advance(s.dir, s.head)
      && r.parts == s.parts[r.curHeadIndex := r.head]
      && r.parts[r.curHeadIndex] == r.head
      && r.allowMove
      && r.dir == s.dir && r.frameCounter == s.frameCounter && r.gameOver == s.gameOver
  {
  }

  /**
   * Eating against sliding. On the apple the length grows by one, the tail
   * stays and a new apple is drawn off the grown body; elsewhere the tail
   * cursor moves on, the tail field follows it and the apple stays.
   */
  lemma EatOrSlide(s: GameState)
    requires Shaped(s) && AppleReplaceable(s) && MoveDue(s)
    ensures var r := UpdateSnake(s);
      if Eats(s) then
        && r.length == s.length + 1
        && r.curTailIndex == s.curTailIndex && r.tail == s.tail
        && InApplePlane(r.apple) && r.apple !in Body(r)
        && r.apple == Sample(s.draws, FirstFree(Body(r), s.draws))
      else
        && r.length == s.length
        && r.curTailIndex == (s.curTailIndex + 1) % Capacity
        && r.tail == r.parts[r.curTailIndex]
        && r.apple == s.apple && r.draws == s.draws
  {
  }

  /** UpdateSnake keeps the ring invariant, whatever the length. */
  lemma UpdateSnakeKeepsInv(s: GameState)
    requires Inv(s) && AppleReplaceable(s)
    ensures Inv(UpdateSnake(s))
  {
    if MoveDue(s) {
      MoveStep(s);
      EatOrSlide(s);
      ModAdd(s.curTailIndex + s.length - 1, 1);
      if !Eats(s) {
        ModAdd(s.curTailIndex + 1, s.length - 1);
      }
    }
  }

  /**
   * What a movement step does to the body while it fits in the ring: eating
   * appends the new head, sliding drops the tail cell and appends the new
   * head, and the body still fits afterwards.
   */
  lemma UpdateSnakeBody(s: GameState)
    requires Inv(s) && Fits(s) && AppleReplaceable(s) && MoveDue(s)
    requires Eats(s) ==> s.length < Capacity
    ensures var r := UpdateSnake(s);
      && Fits(r)
      && Body(r) == (if Eats(s) then Body(s) else Body(s)[1..]) + [r.head]
      && Neck(r) == (if Eats(s) then Body(s) else Body(s)[1..])
  {
    var r, m := UpdateSnake(s), Move(s);
    if Eats(s) {
      var g := Grown(m);
      GrowBody(s);
      assert r.parts == g.parts && r.curTailIndex == g.curTailIndex && r.length == g.length;
      assert Body(r) == Body(g);
      assert Neck(r) == Body(r)[..r.length - 1];
    } else {
      var u := Slid(m);
      SlideBody(s);
      assert r == u.(allowMove := true);
      assert Neck(r) == Body(r)[..r.length - 1];
    }
  }

  /** The eating half of UpdateSnakeBody, on the state before the new apple is drawn. */
  lemma GrowBody(s: GameState)
    requires Inv(s) && Fits(s) && s.length < Capacity
    ensures var g := Grown(Move(s));
      Fits(g) && Body(g) == Body(s) + [g.head]
  {
    var m := Move(s);
    var t, n := s.curTailIndex, s.length;
    ModAdd(t + n - 1, 1);
    WrapOnce(t + n);
    WindowGrow(s.parts, t, n, m.head);
  }

  /** The sliding half of UpdateSnakeBody. */
  lemma SlideBody(s: GameState)
    requires Inv(s) && Fits(s)
    ensures var u := Slid(Move(s));
      Fits(u) && Body(u) == Body(s)[1..] + [u.head]
  {
    var m := Move(s);
    var t, n := s.curTailIndex, s.length;
    ModAdd(t + n - 1, 1);
    WindowSlide(s.parts, t, n, m.head);
  }

  /**
   * What happens when a snake that already fills the ring eats: the head
   * cursor lands on the tail slot and overwrites it, so the body main.c
   * then scans starts and ends with the new head and the old tail cell is
   * lost, while the length exceeds the capacity.
   */
  lemma GrowthAtCapacityOverwritesTail(s: GameState)
    requires Inv(s) && Fits(s) && AppleReplaceable(s) && MoveDue(s)
    requires Eats(s) && s.length == Capacity
    ensures var r := UpdateSnake(s);
      && r.length == Capacity + 1
      && r.curHeadIndex == r.curTailIndex
      && Body(r) == [r.head] + Body(s)[1..] + [r.head]
  {
    var t := s.curTailIndex;
    ModAdd(t + Capacity - 1, 1);
    WrapOnce(t + Capacity);
    WindowOverflow(s.parts, t, Move(s).head);
  }

  /** UpdateGame raises the flag exactly when the moved snake has ended, and never lowers it. */
  lemma GameOverFlag(s: GameState)
    requires Shaped(s) && AppleReplaceable(s)
    ensures var r := UpdateGame(s);
      && r.gameOver == (s.gameOver || Ended(UpdateSnake(s)))
      && r.(gameOver := s.gameOver) == UpdateSnake(s)
  {
  }

  /**
   * Movement does not read the game-over flag: a finished game moves exactly
   * as a running one would.
   */
  lemma MovementIgnoresGameOver(s: GameState, b: bool)
    requires Shaped(s) && AppleReplaceable(s)
    ensures AppleReplaceable(s.(gameOver := b))
    ensures UpdateSnake(s.(gameOver := b)) == UpdateSnake(s).(gameOver := b)
  {
    if MoveDue(s) {
      var m := Move(s);
      assert Move(s.(gameOver := b)) == m.(gameOver := b);
      assert Grown(m.(gameOver := b)) == Grown(m).(gameOver := b);
      FlagIsNotPartOfBody(Grown(m), b);
      if Eats(s) {
        PlacementIgnoresGameOver(Grown(m), b);
      }
    }
  }

  /** The body does not depend on the flag. */
  lemma FlagIsNotPartOfBody(s: GameState, b: bool)
    requires Shaped(s)
    ensures Shaped(s.(gameOver := b)) && Body(s.(gameOver := b)) == Body(s)
  {
  }

  /** Neither does the apple GenerateNewApple draws. */
  lemma PlacementIgnoresGameOver(s: GameState, b: bool)
    requires Shaped(s) && CanPlaceApple(Body(s), s.draws)
    ensures CanPlaceApple(Body(s.(gameOver := b)), s.draws)
    ensures GenerateNewApple(s.(gameOver := b)) == GenerateNewApple(s).(gameOver := b)
  {
    FlagIsNotPartOfBody(s, b);
  }

  /** Only InitGame clears the flag: a frame never does. */
  lemma GameOverSticks(s: GameState, keys: Keys)
    requires Shaped(s) && AppleReplaceable(UpdateDirection(s, keys)) && s.gameOver
    ensures Frame(s, keys).gameOver
  {
  }

  /**
   * A frame keeps the ring invariant; since the heading is never NONE the
   * guard of the main loop always passes and the frame counter goes up.
   */
  lemma FrameKeepsInv(s: GameState, keys: Keys)
    requires Inv(s) && AppleReplaceable(UpdateDirection(s, keys))
    ensures Inv(Frame(s, keys))
    ensures Frame(s, keys).frameCounter == s.frameCounter + 1
  {
    var t := UpdateDirection(s, keys);
    assert Inv(t);
    UpdateSnakeKeepsInv(t);
  }

  /**
   * While the game runs, the body fits the ring and has no repeated cell: a
   * movement step that would repeat one is a self-collision, which raises the
   * flag in the same frame. That includes eating at full length, where the
   * new head overwrites the tail slot and so lies on the scanned neck.
   */
  lemma RunningBodyHasNoRepeats(s: GameState)
    requires Inv(s) && AppleReplaceable(s)
    requires !s.gameOver ==> Fits(s) && NoRepeats(Body(s))
    ensures var r := UpdateGame(s);
      !r.gameOver ==> Fits(r) && NoRepeats(Body(r))
  {
    var r := UpdateGame(s);
    var u := UpdateSnake(s);
    GameOverFlag(s);
    if s.gameOver || !MoveDue(s) {
    } else if Eats(s) && s.length == Capacity {
      UpdateSnakeKeepsInv(s);
      GrowthAtCapacityOverwritesTail(s);
      BodyShape(u);
      assert Neck(u)[0] == u.head;
      assert Collided(u);
    } else {
      UpdateSnakeBody(s);
      if !r.gameOver {
        FullBodyHasNoRepeats(s);
      }
    }
  }

  /** The step of RunningBodyHasNoRepeats for a snake that fits and does not collide. */
  lemma FullBodyHasNoRepeats(s: GameState)
    requires Inv(s) && Fits(s) && AppleReplaceable(s) && MoveDue(s)
    requires Eats(s) ==> s.length < Capacity
    requires NoRepeats(Body(s)) && !UpdateGame(s).gameOver
    ensures NoRepeats(Body(UpdateGame(s)))
  {
    var r := UpdateGame(s);
    var u := UpdateSnake(s);
    UpdateSnakeBody(s);
    var kept := if Eats(s) then Body(s) else Body(s)[1..];
    assert u.head !in kept;
    assert NoRepeats(kept);
    forall i, j | 0 <= i < j < |Body(r)|
      ensures Body(r)[i] != Body(r)[j]
    {
      if j == |kept| {
        assert Body(r)[i] == kept[i];
      } else {
        assert Body(r)[i] == kept[i] && Body(r)[j] == kept[j];
      }
    }
  }

  /**
   * The apple never lies on the body: drawing places it off the grown body,
   * and a slide moves the head off it and brings no other cell in.
   */
  lemma AppleStaysOffBody(s: GameState)
    requires Inv(s) && AppleReplaceable(s) && s.apple !in Body(s)
    ensures var r := UpdateGame(s);
      r.apple !in Body(r)
  {
    var r := UpdateGame(s);
    var u := UpdateSnake(s);
    GameOverFlag(s);
    FlagIsNotPartOfBody(u, r.gameOver);
    assert r == u.(gameOver := r.gameOver);
    if MoveDue(s) {
      EatOrSlide(s);
      if !Eats(s) {
        MoveStep(s);
        ModAdd(s.curTailIndex + s.length - 1, 1);
        if u.apple in Body(u) {
          WindowSlideCells(s.parts, s.curTailIndex, s.length, u.head, u.apple);
        }
      }
    }
  }

  /**
   * The boundary as written: a head stepping right from the last grid column
   * onto column COLS does not end the game; only the next step does.
   */
  lemma ColumnColsIsNotGameOver(s: GameState)
    requires Inv(s) && Fits(s) && AppleReplaceable(s) && MoveDue(s)
    requires s.length == 1 && s.dir == Right && !s.gameOver
    requires s.head == Vector2Int(Cols - 1, 0) && s.apple != Vector2Int(Cols, 0)
    ensures UpdateGame(s).head == Vector2Int(Cols, 0) && !UpdateGame(s).gameOver
    ensures OutOfBounds(Advance(Right, UpdateGame(s).head))
  {
    UpdateSnakeBody(s);
  }

  /**
   * The first movement step of a game whose apple sits just right of the
   * start cell: the snake eats it, grows to two cells, a new apple is drawn
   * off both, and the game goes on.
   */
  lemma EatFirstApple(s: GameState)
    requires Inv(s) && Fits(s) && AppleReplaceable(s) && MoveDue(s)
    requires s.length == 1 && s.head == Center && s.dir == Right && !s.gameOver
    requires s.apple == Vector2Int(Center.x + 1, Center.y)
    ensures var r := UpdateGame(s);
      && r.head == Vector2Int(16, 15) && r.length == 2
      && Body(r) == [Vector2Int(15, 15), Vector2Int(16, 15)]
      && r.apple != Vector2Int(15, 15) && r.apple != Vector2Int(16, 15)
      && !r.gameOver
  {
    BodyShape(s);
    UpdateSnakeBody(s);
    EatOrSlide(s);
  }
}
