/**
 * Apple placement. GenerateNewApple (main.c:219-224) draws `rand() % COLS`
 * and then `rand() % ROWS` until the cell is not a body segment. rand() is an
 * oracle here: `draws` lists the values it returns from now on, in order.
 */
module Apples {
  import opened Board

  /** The cell named by the k-th pair of draws: x from the first, y from the second. */
  function Sample(draws: seq<nat>, k: nat): (p: Vector2Int)
    requires 2 * k + 1 < |draws|
    ensures InApplePlane(p)
  {
    Vector2Int(draws[2 * k] % Cols, draws[2 * k + 1] % Rows)
  }

  /** Some pair of draws, from the from-th pair on, names a cell off the body. */
  ghost predicate FreeDrawFrom(body: seq<Vector2Int>, draws: seq<nat>, from: nat) {
    exists k: nat :: from <= k && 2 * k + 1 < |draws| && Sample(draws, k) !in body
  }

  /** The retry loop stops within the given draws: the condition under which it terminates. */
  ghost predicate CanPlaceApple(body: seq<Vector2Int>, draws: seq<nat>) {
    FreeDrawFrom(body, draws, 0)
  }

  /** The first pair of draws, from the from-th on, that names a cell off the body. */
  function FirstFreeFrom(body: seq<Vector2Int>, draws: seq<nat>, from: nat): (k: nat)
    requires FreeDrawFrom(body, draws, from)
    ensures from <= k && 2 * k + 1 < |draws|
    ensures Sample(draws, k) !in body
    ensures forall j :: from <= j < k ==> Sample(draws, j) in body
    decreases |draws| - 2 * from
  {
    if Sample(draws, from) !in body then from
    else FirstFreeFrom(body, draws, from + 1)
  }

  /** The pair of draws on which the retry loop stops. */
  function FirstFree(body: seq<Vector2Int>, draws: seq<nat>): (k: nat)
    requires CanPlaceApple(body, draws)
    ensures 2 * k + 1 < |draws|
    ensures Sample(draws, k) !in body
    ensures forall j :: 0 <= j < k ==> Sample(draws, j) in body
  {
    FirstFreeFrom(body, draws, 0)
  }

  /** A free pair preceded only by occupied ones is the one FirstFree finds. */
  lemma FirstFreeIsUnique(body: seq<Vector2Int>, draws: seq<nat>, k: nat)
    requires 2 * k + 1 < |draws| && Sample(draws, k) !in body
    requires forall j :: 0 <= j < k ==> Sample(draws, j) in body
    ensures CanPlaceApple(body, draws) && FirstFree(body, draws) == k
  {
  }

  /** The loop can only stop when some cell of the apple plane is off the body. */
  lemma PlacementNeedsFreeCell(body: seq<Vector2Int>, draws: seq<nat>)
    requires CanPlaceApple(body, draws)
    ensures exists p :: InApplePlane(p) && p !in body
  {
    var k: nat :| 2 * k + 1 < |draws| && Sample(draws, k) !in body;
    assert InApplePlane(Sample(draws, k));
  }

  /** Conversely, any free cell of the apple plane is reached by some run of rand(). */
  lemma FreeCellCanBeDrawn(body: seq<Vector2Int>, p: Vector2Int)
    requires InApplePlane(p) && p !in body
    ensures CanPlaceApple(body, [p.x, p.y])
    ensures FirstFree(body, [p.x, p.y]) == 0 && Sample([p.x, p.y], 0) == p
  {
    assert Sample([p.x, p.y], 0) == p;
  }
}
