/**
 * The game as main.c runs it: one object holding the globals of main.c,
 * with the snake's body in a fixed array written in place. Each method does
 * what its C function does, and its contract says which function of module
 * Simulation it computes.
 */
module SnakeGame {
  import opened Board
  import opened Ring
  import opened Apples
  import opened Steering
  import Simulation

  class Game {
    // The fields of the global `snake` (struct Snake, main.c:32-40).
    var head: Vector2Int
    var tail: Vector2Int
    const parts: array<Vector2Int>
    var length: int
    var curHeadIndex: int
    var curTailIndex: int
    var dir: Direction

    // The other globals (main.c:44-48).
    var apple: Vector2Int
    var gameOver: bool
    var allowMove: bool
    var frameCounter: int

    /** The values rand() returns from now on, in order. */
    var draws: seq<nat>

    /** The state as a value. */
    ghost function Model(): Simulation.GameState
      reads this, parts
    {
      Simulation.GameState(head, tail, parts[..], length, curHeadIndex, curTailIndex, dir,
                           apple, gameOver, allowMove, frameCounter, draws)
    }

    /** The ring invariant of Simulation.Inv holds of the current state. */
    ghost predicate Valid()
      reads this, parts
    {
      Simulation.Inv(Model())
    }

    /**
     * The globals as static initialisation leaves them, before main calls
     * InitGame: every number zero and the heading UP, the enumerator 0.
     */
    constructor (draws: seq<nat>)
      ensures fresh(parts) && parts.Length == Capacity
      ensures forall i :: 0 <= i < Capacity ==> parts[i] == Vector2Int(0, 0)
      ensures head == Vector2Int(0, 0) && tail == Vector2Int(0, 0) && apple == Vector2Int(0, 0)
      ensures length == 0 && curHeadIndex == 0 && curTailIndex == 0 && dir == Up
      ensures !gameOver && !allowMove && frameCounter == 0 && this.draws == draws
    {
      parts := new Vector2Int[Capacity](_ => Vector2Int(0, 0));
      head, tail, apple := Vector2Int(0, 0), Vector2Int(0, 0), Vector2Int(0, 0);
      length, curHeadIndex, curTailIndex, dir := 0, 0, 0, Up;
      gameOver, allowMove, frameCounter := false, false, 0;
      this.draws := draws;
    }

    /** One call of rand(): the next value of the oracle. */
    method Rand() returns (r: nat)
      requires |draws| >= 1
      modifies this`draws
      ensures r == old(draws[0]) && draws == old(draws[1..])
    {
      r := draws[0];
      draws := draws[1..];
    }

    /** InitSnake (main.c:155-164). */
    method InitSnake()
      requires parts.Length == Capacity
      modifies this, parts
      ensures Model() == Simulation.InitSnake(old(Model()))
      ensures length == 1 && head == Center && tail == Center && parts[0] == Center
      ensures curHeadIndex == 0 && curTailIndex == 0 && dir == Right
    {
      length := 1;
      head := Vector2Int(Cols / 2, Rows / 2);
      tail := head;
      parts[0] := head;
      curHeadIndex := 0;
      curTailIndex := 0;
      dir := Right;
    }

    /**
     * IsSnakeSegment (main.c:250-257): whether (x, y) is one of the length
     * slots from curTailIndex on.
     */
    method IsSnakeSegment(x: int, y: int) returns (r: bool)
      requires Simulation.Shaped(Model())
      ensures r <==> exists i :: 0 <= i < length && Slot(parts[..], curTailIndex, i) == Vector2Int(x, y)
      ensures r <==> Vector2Int(x, y) in Simulation.Body(Model())
    {
      var i := 0;
      while i < length
        invariant 0 <= i <= length
        invariant forall j :: 0 <= j < i ==> Slot(parts[..], curTailIndex, j) != Vector2Int(x, y)
      {
        if x == parts[(curTailIndex + i) % Capacity].x && y == parts[(curTailIndex + i) % Capacity].y {
          assert Simulation.Body(Model())[i] == Vector2Int(x, y);
          return true;
        }
        i := i + 1;
      }
      return false;
    }

    /**
     * HasSnakeCollidedWithItself (main.c:240-247): the same scan for the head,
     * over all slots but the last, which is the head's own.
     */
    method HasSnakeCollidedWithItself() returns (r: bool)
      requires Simulation.Shaped(Model())
      ensures r <==> exists i :: 0 <= i < length - 1 && Slot(parts[..], curTailIndex, i) == head
      ensures r == Simulation.Collided(Model())
    {
      var i := 0;
      while i < length - 1
        invariant 0 <= i <= length - 1
        invariant forall j :: 0 <= j < i ==> Slot(parts[..], curTailIndex, j) != head
      {
        if head.x == parts[(curTailIndex + i) % Capacity].x && head.y == parts[(curTailIndex + i) % Capacity].y {
          assert Simulation.Neck(Model())[i] == head;
          return true;
        }
        i := i + 1;
      }
      return false;
    }

    /** HasSnakeCollidedWithApple (main.c:227-230). */
    method HasSnakeCollidedWithApple() returns (r: bool)
      ensures r <==> head == apple
    {
      r := head.x == apple.x && head.y == apple.y;
    }

    /**
     * GameEnded (main.c:233-237): the head is past the strict bounds, or it
     * lies on the body; the scan runs only when the bounds test fails, as
     * with C's `||`.
     */
    method GameEnded() returns (r: bool)
      requires Simulation.Shaped(Model())
      ensures r <==> OutOfBounds(head) || Simulation.Collided(Model())
      ensures r == Simulation.Ended(Model())
    {
      r := head.x < 0 || head.x > Cols || head.y < 0 || head.y > Rows;
      if !r {
        r := HasSnakeCollidedWithItself();
      }
    }

    /** The body of the retry loop: `apple.x = rand() % COLS; apple.y = rand() % ROWS;`. */
    method DrawApple()
      requires |draws| >= 2
      modifies this`apple, this`draws
      ensures apple == Sample(old(draws), 0) && draws == old(draws[2..])
    {
      var ax := Rand();
      var ay := Rand();
      apple := Vector2Int(ax % Cols, ay % Rows);
    }

    /**
     * GenerateNewApple (main.c:219-224): draw a cell until it is not a body
     * segment. It returns only because some pair of the draws names a free cell.
     */
    method GenerateNewApple()
      requires Simulation.Shaped(Model())
      requires CanPlaceApple(Simulation.Body(Model()), draws)
      modifies this`apple, this`draws
      ensures Model() == Simulation.GenerateNewApple(old(Model()))
      ensures InApplePlane(apple) && apple !in Simulation.Body(Model())
    {
      ghost var body := Simulation.Body(Model());
      ghost var all := draws;
      ghost var k: nat := 0;
      DrawApple();
      var taken := IsSnakeSegment(apple.x, apple.y);
      while taken
        invariant 2 * k + 1 < |all| && apple == Sample(all, k) && draws == all[2 * k + 2..]
        invariant taken == (apple in body)
        invariant k <= FirstFree(body, all)
        decreases |draws|
      {
        assert k < FirstFree(body, all) by {
          assert Sample(all, k) in body;
        }
        assert Sample(draws, 0) == Sample(all, k + 1);
        DrawApple();
        k := k + 1;
        taken := IsSnakeSegment(apple.x, apple.y);
      }
      assert k == FirstFree(body, all);
      assert old(Model()).(apple := apple, draws := draws) == Model();
    }

    /** InitGame (main.c:100-106). */
    method InitGame()
      requires parts.Length == Capacity && CanPlaceApple([Center], draws)
      modifies this, parts
      ensures Model() == Simulation.InitGame(old(Model()))
      ensures Valid()
    {
      frameCounter := 0;
      gameOver := false;
      allowMove := false;
      InitSnake();
      assert Simulation.Body(Model()) == [Center];
      GenerateNewApple();
      Simulation.InitGameState(old(Model()));
    }

    /**
     * The first half of UpdateSnake (main.c:171-189): step the head cursor,
     * move the head one cell along dir and store it in the new head slot.
     */
    method MoveHead()
      requires Simulation.Shaped(Model())
      modifies this`curHeadIndex, this`head, parts
      ensures Model() == Simulation.Move(old(Model()))
    {
      curHeadIndex := (curHeadIndex + 1) % Capacity;
      head := Advance(dir, head);
      parts[curHeadIndex] := head;
    }

    /** UpdateSnake (main.c:167-199). */
    method UpdateSnake()
      requires Simulation.Shaped(Model()) && Simulation.AppleReplaceable(Model())
      modifies this, parts
      ensures Model() == Simulation.UpdateSnake(old(Model()))
    {
      if frameCounter % MoveInterval != 0 {
        return;
      }
      MoveHead();
      ghost var m := Model();
      var eaten := HasSnakeCollidedWithApple();
      if !eaten {
        curTailIndex := (curTailIndex + 1) % Capacity;
        tail := parts[curTailIndex];
        assert Model() == Simulation.Slid(m);
      } else {
        length := length + 1;
        assert Model() == Simulation.Grown(m);
        GenerateNewApple();
      }
      allowMove := true;
    }

    /** UpdateGame (main.c:116-125). */
    method UpdateGame()
      requires Simulation.Shaped(Model()) && Simulation.AppleReplaceable(Model())
      modifies this, parts
      ensures Model() == Simulation.UpdateGame(old(Model()))
    {
      UpdateSnake();
      var ended := GameEnded();
      if ended {
        gameOver := true;
        return;
      }
    }

    /** UpdateDrawFrame (main.c:109-113), without DrawGame. */
    method UpdateDrawFrame()
      requires Simulation.Shaped(Model()) && Simulation.AppleReplaceable(Model())
      modifies this, parts
      ensures Model() == Simulation.UpdateDrawFrame(old(Model()))
    {
      UpdateGame();
      frameCounter := frameCounter + 1;
    }

    /** UpdateDirection (main.c:202-216), with the pressed keys passed in. */
    method UpdateDirection(keys: Keys)
      modifies this`dir, this`allowMove
      ensures Model() == Simulation.UpdateDirection(old(Model()), keys)
    {
      if keys.left && dir != Right && allowMove {
        dir := Left;
        allowMove := false;
      } else if keys.right && dir != Left && allowMove {
        dir := Right;
        allowMove := false;
      } else if keys.up && dir != Down && allowMove {
        dir := Up;
        allowMove := false;
      } else if keys.down && dir != Up && allowMove {
        dir := Down;
        allowMove := false;
      }
    }

    /**
     * One pass of the main loop (main.c:75-80): read the keys, then run a
     * frame if the heading is not NONE, which under Valid() it never is.
     */
    method Frame(keys: Keys)
      requires Valid() && Simulation.AppleReplaceable(Simulation.UpdateDirection(Model(), keys))
      modifies this, parts
      ensures Model() == Simulation.Frame(old(Model()), keys)
      ensures Valid() && frameCounter == old(frameCounter) + 1
    {
      UpdateDirection(keys);
      if dir != None {
        UpdateDrawFrame();
      }
      Simulation.FrameKeepsInv(old(Model()), keys);
    }
  }
}
