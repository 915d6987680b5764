/**
 * The playing field of the snake game: its fixed dimensions, grid cells and
 * the five headings a snake can have (main.c:8-29).
 */
module Board {

  /** Grid height and width in cells (ROWS, COLS). */
  const Rows: int := 30
  const Cols: int := 30

  /** Frames per second the window loop is paced at (TARGET_FPS). */
  const TargetFps: int := 60

  /**
   * Frames between two movement steps: `(int)(TARGET_FPS * 0.15)`. The double
   * product 60 * 0.15 rounds to exactly 9.0, so the truncation gives 9.
   */
  const MoveInterval: int := 9

  /** Slots of the ring buffer holding the body: one per grid cell (ROWS * COLS). */
  const Capacity: int := Rows * Cols

  /** A grid cell; x grows to the right and y grows downwards. */
  datatype Vector2Int = Vector2Int(x: int, y: int)

  /** The heading of the snake; NONE is the fifth enumerator. */
  datatype Direction = Up | Down | Left | Right | None

  /** The cell the snake starts on: (COLS / 2, ROWS / 2). */
  const Center: Vector2Int := Vector2Int(Cols / 2, Rows / 2)

  /** The heading that points back the way d came. */
  function Opposite(d: Direction): (o: Direction)
    ensures o == d <==> d == None
  {
    match d
    case Up => Down
    case Down => Up
    case Left => Right
    case Right => Left
    case None => None
  }

  /** Reversing twice gives the heading back. */
  lemma OppositeInvolutive(d: Direction)
    ensures Opposite(Opposite(d)) == d
  {
  }

  /**
   * The cell one step from p in heading d; NONE leaves p where it is
   * (the switch in UpdateSnake).
   */
  function Advance(d: Direction, p: Vector2Int): (q: Vector2Int)
    ensures d == None <==> q == p
    ensures d != None ==> (q.x == p.x || q.y == p.y)
    ensures d != None ==> (q.x - p.x) * (q.x - p.x) + (q.y - p.y) * (q.y - p.y) == 1
  {
    match d
    case Left => p.(x := p.x - 1)
    case Right => p.(x := p.x + 1)
    case Up => p.(y := p.y - 1)
    case Down => p.(y := p.y + 1)
    case None => p
  }

  /**
   * The boundary half of GameEnded, exactly as written: strict `>` against
   * COLS and ROWS, so column COLS and row ROWS still count as inside.
   */
  predicate OutOfBounds(p: Vector2Int) {
    p.x < 0 || p.x > Cols || p.y < 0 || p.y > Rows
  }

  /** The cells an apple can be drawn on: `[0, COLS) x [0, ROWS)`. */
  predicate InApplePlane(p: Vector2Int) {
    0 <= p.x < Cols && 0 <= p.y < Rows
  }

  /**
   * The boundary test lets the head stand on a (COLS+1) x (ROWS+1) area: one
   * column and one row more than the grid, and more than the apple plane.
   */
  lemma InsideIsOneCellWider(p: Vector2Int)
    ensures !OutOfBounds(p) <==> 0 <= p.x <= Cols && 0 <= p.y <= Rows
    ensures InApplePlane(p) ==> !OutOfBounds(p)
    ensures !OutOfBounds(Vector2Int(Cols, p.y)) <==> 0 <= p.y <= Rows
    ensures OutOfBounds(Vector2Int(Cols + 1, p.y))
  {
  }
}
