/**
 * The body of the snake is kept in a ring buffer of Capacity slots. main.c
 * reads it as `parts[(curTailIndex + i) % (ROWS * COLS)]` for
 * `i < length` (main.c:241-256); Window is that reading.
 */
module Ring {
  import opened Board

  /** The i-th slot of the ring counted from slot start, wrapping at Capacity. */
  function Slot<T>(parts: seq<T>, start: int, i: nat): T
    requires |parts| == Capacity && 0 <= start < Capacity
  {
    parts[(start + i) % Capacity]
  }

  /** The len slots of the ring read from slot start onwards. */
  function Window<T>(parts: seq<T>, start: int, len: nat): seq<T>
    requires |parts| == Capacity && 0 <= start < Capacity
  {
    seq(len, i requires 0 <= i < len => Slot(parts, start, i))
  }

  /** An index below two laps of the ring wraps at most once. */
  lemma WrapOnce(k: int)
    requires 0 <= k < 2 * Capacity
    ensures k % Capacity == if k < Capacity then k else k - Capacity
  {
  }

  /** Adding to a slot number after reducing it lands on the same slot. */
  lemma {:induction false} ModAdd(a: int, b: int)
    ensures (a % Capacity + b) % Capacity == (a + b) % Capacity
  {
    var q := a / Capacity;
    assert a == q * Capacity + a % Capacity;
    assert a + b == (a % Capacity + b) + q * Capacity;
    ModShift(a % Capacity + b, q);
  }

  /** Whole laps do not change the slot. */
  lemma {:induction false} ModShift(k: int, q: int)
    ensures (k + q * Capacity) % Capacity == k % Capacity
  {
    var r := k % Capacity;
    var d := k / Capacity;
    assert k == d * Capacity + r;
    assert k + q * Capacity == (d + q) * Capacity + r;
  }

  /**
   * Writing the slot just past the window and widening the window by one
   * appends the written value, provided the window did not fill the ring.
   */
  lemma {:induction false} WindowGrow<T>(parts: seq<T>, start: int, len: nat, v: T)
    requires |parts| == Capacity && 0 <= start < Capacity
    requires len < Capacity
    ensures Window(parts[(start + len) % Capacity := v], start, len + 1)
         == Window(parts, start, len) + [v]
  {
    var after := parts[(start + len) % Capacity := v];
    var w, w' := Window(parts, start, len), Window(after, start, len + 1);
    WrapOnce(start + len);
    forall i | 0 <= i < len
      ensures w'[i] == w[i]
    {
      WrapOnce(start + i);
    }
    assert w' == w + [v];
  }

  /**
   * Writing the slot just past the window and moving its start one slot on
   * drops the first value and appends the written one.
   */
  lemma {:induction false} WindowSlide<T>(parts: seq<T>, start: int, len: nat, v: T)
    requires |parts| == Capacity && 0 <= start < Capacity
    requires 1 <= len <= Capacity
    ensures Window(parts[(start + len) % Capacity := v], (start + 1) % Capacity, len)
         == Window(parts, start, len)[1..] + [v]
  {
    var after := parts[(start + len) % Capacity := v];
    var w, w' := Window(parts, start, len), Window(after, (start + 1) % Capacity, len);
    WrapOnce(start + 1);
    WrapOnce(start + len);
    forall i | 0 <= i < len
      ensures w'[i] == (w[1..] + [v])[i]
    {
      ModAdd(start + 1, i);
      WrapOnce(start + 1 + i);
    }
  }

  /**
   * Whatever the length, every cell of the slid window is the written value
   * or a cell of the old window: sliding brings in no other cell.
   */
  lemma {:induction false} WindowSlideCells<T>(parts: seq<T>, start: int, len: nat, v: T, x: T)
    requires |parts| == Capacity && 0 <= start < Capacity
    requires len >= 1
    requires x in Window(parts[(start + len) % Capacity := v], (start + 1) % Capacity, len)
    ensures x == v || x in Window(parts, start, len)
  {
    var after := parts[(start + len) % Capacity := v];
    var w, w' := Window(parts, start, len), Window(after, (start + 1) % Capacity, len);
    var i :| 0 <= i < len && w'[i] == x;
    ModAdd(start + 1, i);
    if i + 1 < len && (start + 1 + i) % Capacity != (start + len) % Capacity {
      assert x == w[i + 1];
    }
  }

  /**
   * When the window already covers the whole ring, writing the slot past it
   * overwrites its first slot: the widened window starts and ends with the
   * written value, and the old first value is gone.
   */
  lemma {:induction false} WindowOverflow<T>(parts: seq<T>, start: int, v: T)
    requires |parts| == Capacity && 0 <= start < Capacity
    ensures (start + Capacity) % Capacity == start
    ensures Window(parts[start := v], start, Capacity + 1)
         == [v] + Window(parts, start, Capacity)[1..] + [v]
  {
    var after := parts[start := v];
    var w, w' := Window(parts, start, Capacity), Window(after, start, Capacity + 1);
    WrapOnce(start + Capacity);
    forall i | 0 <= i <= Capacity
      ensures w'[i] == ([v] + w[1..] + [v])[i]
    {
      WrapOnce(start + i);
    }
  }

  /** The last slot of a non-empty window. */
  lemma WindowLast<T>(parts: seq<T>, start: int, len: nat)
    requires |parts| == Capacity && 0 <= start < Capacity
    requires len >= 1
    ensures Window(parts, start, len)[len - 1] == parts[(start + len - 1) % Capacity]
    ensures Window(parts, start, len) == Window(parts, start, len - 1) + [parts[(start + len - 1) % Capacity]]
  {
  }
}
