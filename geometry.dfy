/**
 The integer arithmetic of the partitioning engine: its configuration
 constants, random draws, the split formula `divideSize`, the sizes of the two
 children of a split, the separability test and the block budget.
 */
module Geometry {
  import opened Wrappers

  const MIN_BLOCK_SIZE: int := 5
  const MIN_BLOCK_COUNT: int := 10
  const MAX_BLOCK_COUNT: int := 40000
  const MIN_DIVIDE_RANGE: nat := 2

  /** `Math.random()` returns a double of the form k / 2^53 with 0 <= k < 2^53.
      A draw is that numerator k; the fraction itself is k / DRAW_SCALE. */
  const DRAW_SCALE: nat := 0x20_0000_0000_0000

  type Draw = k: nat | k < DRAW_SCALE

  /** The size of a rectangle. */
  datatype Size = Size(width: int, height: int)

  /** `x >> n` on an integer: arithmetic shift, that is floor division by 2^n
      (Dafny's `/` by a positive divisor rounds down, as the shift does). */
  function ShiftRight(x: int, n: nat): int
    decreases n
  {
    if n == 0 then x else ShiftRight(x / 2, n - 1)
  }

  lemma ShiftRightValues(x: int)
    ensures ShiftRight(x, 1) == x / 2
    ensures ShiftRight(x, MIN_DIVIDE_RANGE) == x / 4
  {
  }

  /** `Math.floor(fraction * m)` for the fraction `draw / DRAW_SCALE`. */
  function Scale(draw: Draw, m: int): int
  {
    (draw * m) / DRAW_SCALE
  }

  /** Scaling a non-negative bound m by a fraction in [0, 1) lands in [0, m),
      and in {0} when m is 0. */
  lemma ScaleBounds(draw: Draw, m: int)
    requires m >= 0
    ensures 0 <= Scale(draw, m)
    ensures m == 0 ==> Scale(draw, m) == 0
    ensures m > 0 ==> Scale(draw, m) < m
  {
    var q := Scale(draw, m);
    assert 0 <= draw * m;
    if m > 0 {
      assert draw * m < DRAW_SCALE * m by {
        assert (DRAW_SCALE - draw) * m > 0;
      }
      assert q * DRAW_SCALE <= draw * m;
    }
  }

  /** Every value in [0, m) is reached by some draw, so the draws range
      over every outcome of `Math.floor(Math.random() * m)` for a bound m
      up to 2^53. */
  lemma ScaleOnto(m: int, r: int)
    requires 0 <= r < m <= DRAW_SCALE
    ensures exists k: Draw :: Scale(k, m) == r
  {
    var D := DRAW_SCALE;
    // k is the least numerator with k * m >= r * D.
    var k := (r * D + m - 1) / m;
    assert k * m <= r * D + m - 1 && r * D + m - 1 < (k + 1) * m;
    assert r * D <= k * m < r * D + m;
    assert k < D by {
      assert r * D + m - 1 < m * D by {
        assert r * D <= (m - 1) * D;
      }
    }
    assert r * D <= k * m < (r + 1) * D;
    assert Scale(k, m) == r;
  }

  /** `divideSize(oldSize)`: the extent of the first child along the split
      axis. JavaScript parses `1 + oldSize >> 1` as `(1 + oldSize) >> 1`. */
  function DivideSize(position: Draw, oldSize: int): int
  {
    Scale(position, ShiftRight(1 + oldSize, 1)) + 1 + ShiftRight(oldSize, MIN_DIVIDE_RANGE)
  }

  /** The split formula is a random part r in [0, (1 + n) / 2), or 0 when
      that range is empty, plus 1 + n / 4. So it is at least 1 on a
      non-negative extent, it is 1 on the extents 0 and 1, and on every
      extent of at least 2 it leaves both children an extent in [1, n - 1]. */
  lemma {:induction false} DivideSizeBounds(position: Draw, n: int)
    requires n >= 0
    ensures var r := DivideSize(position, n) - 1 - n / 4;
      0 <= r && (if (1 + n) / 2 == 0 then r == 0 else r < (1 + n) / 2)
    ensures 1 <= DivideSize(position, n)
    ensures n <= 1 ==> DivideSize(position, n) == 1
    ensures n >= 2 ==> DivideSize(position, n) <= n - 1
  {
    ShiftRightValues(1 + n);
    ShiftRightValues(n);
    ScaleBounds(position, (1 + n) / 2);
  }

  /** The split axis chosen by `splitBlock`: vertical (side by side) when the
      block is wider than it is high; ties split horizontally. */
  predicate SplitsVertically(width: int, height: int)
  {
    width > height
  }

  /** The sizes `updateChildrenSize` gives the first (left or top) and the
      second (right or bottom) child of a block of the given size. */
  function ChildSizes(width: int, height: int, vertical: bool, position: Draw): (r: (Size, Size))
    ensures vertical ==> r.0.width == DivideSize(position, width)
    ensures !vertical ==> r.0.height == DivideSize(position, height)
    ensures vertical ==>
      r.0.width + r.1.width == width && r.0.height == height && r.1.height == height
    ensures !vertical ==>
      r.0.height + r.1.height == height && r.0.width == width && r.1.width == width
  {
    if vertical then
      var split := DivideSize(position, width);
      (Size(split, height), Size(width - split, height))
    else
      var split := DivideSize(position, height);
      (Size(width, split), Size(width, height - split))
  }

  /** `isSeparable`: a block may be split when one of its extents exceeds
      MIN_BLOCK_SIZE. */
  predicate Separable(width: int, height: int)
  {
    width > MIN_BLOCK_SIZE || height > MIN_BLOCK_SIZE
  }

  /** The extent a block is split along: its width for a vertical split, its
      height otherwise. */
  function SplitExtent(width: int, height: int): int
  {
    if SplitsVertically(width, height) then width else height
  }

  /** On a separable block the axis chosen by the split is its larger
      extent, which is therefore above MIN_BLOCK_SIZE, and both children get
      a positive extent along it, smaller than the parent's. */
  lemma SeparableSplit(width: int, height: int, position: Draw)
    requires Separable(width, height)
    ensures SplitExtent(width, height) > MIN_BLOCK_SIZE
    ensures var c := ChildSizes(width, height, SplitsVertically(width, height), position);
      if SplitsVertically(width, height) then
        1 <= c.0.width <= width - 1 && 1 <= c.1.width <= width - 1
      else
        1 <= c.0.height <= height - 1 && 1 <= c.1.height <= height - 1
  {
    DivideSizeBounds(position, SplitExtent(width, height));
  }

  /** The number the user typed, or MAX_BLOCK_COUNT when it is not a number. */
  function UsersBlockCount(user: Option<int>): int
  {
    match user
    case None => MAX_BLOCK_COUNT
    case Some(n) => n
  }

  function Min(a: int, b: int): int { if a <= b then a else b }

  function Max(a: int, b: int): int { if a >= b then a else b }

  /** The user's count clamped to [MIN_BLOCK_COUNT, MAX_BLOCK_COUNT]. */
  function ClampedCount(user: Option<int>): (c: int)
    ensures MIN_BLOCK_COUNT <= c <= MAX_BLOCK_COUNT
    ensures MIN_BLOCK_COUNT <= UsersBlockCount(user) <= MAX_BLOCK_COUNT ==> c == UsersBlockCount(user)
    ensures UsersBlockCount(user) < MIN_BLOCK_COUNT ==> c == MIN_BLOCK_COUNT
    ensures UsersBlockCount(user) > MAX_BLOCK_COUNT ==> c == MAX_BLOCK_COUNT
  {
    Min(MAX_BLOCK_COUNT, Max(MIN_BLOCK_COUNT, UsersBlockCount(user)))
  }

  /** The initial `blockCount` of `generateMap`: a random draw from
      [MIN_BLOCK_COUNT, ClampedCount(user)), or MIN_BLOCK_COUNT when that
      range is empty. */
  function BlockBudget(user: Option<int>, draw: Draw): (b: int)
    ensures MIN_BLOCK_COUNT <= b <= Max(MIN_BLOCK_COUNT, ClampedCount(user) - 1)
    ensures b < MAX_BLOCK_COUNT
  {
    var maxBlockCount := ClampedCount(user) - MIN_BLOCK_COUNT;
    ScaleBounds(draw, maxBlockCount);
    Scale(draw, maxBlockCount) + MIN_BLOCK_COUNT
  }
}
