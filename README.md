# Rectangle-partitioning engine of `app.js`, in Dafny

`app.js` splits a desk into blocks. A block is a rectangle. Splitting it
gives it a left and a right child, which tile it side by side (a vertical
split, chosen when the block is wider than it is high) or one above the
other. `divideSize` decides where the cut falls, using a random fraction that
the block keeps. `generateMap` does the following:

- it draws a block budget from the number the user typed, clamped to
  [10, 40000];
- it splits the head of a first-in first-out queue of blocks, which is
  threaded through the blocks' `nextBlock` fields;
- it appends the separable children of each split block at the tail, until
  the budget is spent or the queue is empty;
- it reports `realBlockCount - blockCount` as the number of blocks drawn;
- `render` then walks the tree and places every leaf.

The model has six modules, one per file:

- `Wrappers` (`wrappers.dfy`): `Option`, the user's count once parsed.
- `Geometry` (`geometry.dfy`): the constants, random draws, `divideSize`,
  the children's sizes, `isSeparable` and the budget, as functions and
  lemmas.
- `Partition` (`partition.dfy`): the block tree as a value (`Tree`) and
  what a split does to it, addressed by paths from the root. It also holds
  `Positions`, the rectangles `render` draws.
- `Blocks` (`block.dfy`): the `Block` class. `SplitBlock` and
  `UpdateChildrenSize` update the fields in place. `Render` is the
  position walk of `render`. `Models` ties a block and everything below it
  to a `Tree`.
- `Schedule` (`schedule.dfy`): the bookkeeping of the loop, on values.
  `After(width, height, draws, h)` is the tree, the path of every block,
  its children's numbers and the queue after h splits. The lemmas prove
  that every state the loop reaches is consistent: exactly the first h
  queued blocks are split, in queue order, with the first h draws.
- `MapGeneration` (`generate.dfy`): `generateMap` and `saveToTail` on the
  heap, with the `nextBlock` queue. Ghost state numbers the blocks, so the
  loop's invariant can compare the heap with `Schedule.After`.

`Math.random()` returns k / 2^53 for an integer 0 <= k < 2^53. A `Draw` is
that numerator k, and the model takes `Math.floor(Math.random() * m)` to be
`(k * m) / 2^53`, the floor of the exact product. In JavaScript the product
is a double, rounded before `Math.floor`, so for some k it lands on the next
integer. The model's values cover the same range, [0, m) for m > 0 and 0
for m = 0 (`ScaleBounds`), and every value in it is reached by some draw
(`ScaleOnto`), so the properties below speak of every outcome the page can
produce. Each call to `Math.random()` becomes a parameter: `countDraw` for
the budget and `splitDraws[i]` for the i-th split.

Facts about `app.js` that the model keeps as written:

- `MIN_BLOCK_COUNT` is 10 (app.js:2).
- `1 + oldSize >> 1` parses as `(1 + oldSize) >> 1` (app.js:49).
- The budget is always drawn at random (app.js:82). With c the clamped
  count, it is `Math.floor(Math.random() * (c - 10)) + 10`, which lies in
  [10, max(10, c - 1)]: it is 10 when c is 10, and below c otherwise.
- `divideSize` is always at least 1 (app.js:49), and nothing guards a split
  along a very short extent. A split along an extent of 1 gives a child of
  size 0, and a split along an extent of 0 gives a child of size -1.

## Model

| member | source | states |
|---|---|---|
| Geometry.ScaleOnto | app.js:82 | for a bound m up to 2^53, every value in [0, m) is the scaled value of some draw |
| Geometry.Separable | app.js:22-24 | the definition of `isSeparable` on a size: the width or the height exceeds MIN_BLOCK_SIZE (5) |
| Geometry.DivideSize | app.js:48-50 | the definition of `divideSize`: the draw scaled to `(1 + n) >> 1`, plus 1, plus `n >> 2` |
| Geometry.ScaleBounds | app.js:82 | `Math.floor` of a fraction in [0, 1) times m lies in [0, m) when m > 0, and is 0 when m is 0 |
| Geometry.DivideSizeBounds | app.js:48-50 | `divideSize(n)` is r + 1 + n/4, with 0 <= r < (1 + n)/2, or r = 0 when that bound is 0; the result is at least 1; it is 1 when n <= 1; it is at most n - 1 when n >= 2 |
| Geometry.ChildSizes | app.js:33-47 | the first child's extent along the axis is `divideSize` of the parent's extent; the two children add up to the parent along the axis, and share the parent's extent across it |
| Geometry.SeparableSplit | app.js:22-49 | on a separable block, the split axis is an extent above 5, and both children get an extent in [1, n - 1] along it |
| Geometry.ClampedCount | app.js:80-81 | a count that is not a number means 40000; a count below 10 becomes 10, one above 40000 becomes 40000, and the others are kept |
| Geometry.BlockBudget | app.js:80-82 | the budget lies in [10, max(10, clamped count - 1)], so it is below 40000 |
| Partition.SplitLeaf | app.js:25-32 | a split keeps the block's size; it is vertical exactly when the block is wider than high; both children are leaves |
| Partition.TiledSplitCovers | app.js:33-47 | in a tiled tree, a split block's children add up to it along the axis and share its extent across it |
| Partition.LeafCountIsSplitCountPlusOne | app.js:25-31 | every split turns one leaf into two, so a tree has one more leaf than it has splits |
| Partition.Positions | app.js:51-57 | the definition of the position walk of `render`: a leaf draws its own rectangle at the corner; a split block draws its left child at the corner and its right child offset by the width (vertical) or height of the left child |
| Partition.PositionsAreLeaves | app.js:51-61 | `render` draws one rectangle per leaf; the i-th has the size of the i-th leaf in pre-order |
| Partition.FirstPositionAtOrigin | app.js:51-57 | the first rectangle drawn sits at the corner the walk started from |
| Partition.PositionsTranslate | app.js:51-57 | starting the walk elsewhere moves every rectangle by the same offset and keeps its size |
| Partition.PositionsInsideRoot | app.js:51-57 | in a tiled tree without negative sizes, every rectangle drawn lies inside the root's rectangle |
| Partition.PositionsCoverArea | app.js:51-57 | in a tiled tree, the areas of the rectangles drawn add up to the root's area |
| Partition.SplitAtTarget | app.js:25-32 | after a split, the block at the split path is what `splitBlock` makes of the leaf that was there |
| Partition.SplitAtOthers | app.js:25-32 | a split leaves every other block's size, split state, axis and draw as they were; every other leaf stays the same leaf |
| Partition.SplitAtLeafCount | app.js:25-32 | one split adds exactly one leaf |
| Partition.SplitAtTiled | app.js:25-47 | splitting a leaf keeps the tree tiled |
| Partition.SplitAtLeaves | app.js:25-32 | every leaf after a split is either one of the two new children or an old leaf that was not split |
| Partition.SplitAtInnerSplitsSeparable | app.js:84-97 | splitting the root, or a separable leaf below it, keeps every split below the root separable |
| Blocks.Block.constructor | app.js:18-21 | a new block has the given size, no children and no queue successor |
| Blocks.Block.SplitBlock | app.js:25-32 | the axis is vertical exactly when width > height (ties split horizontally), and the block stores the draw; the block gets two fresh, distinct, childless children sized by the split formula, while its own size and queue link are kept |
| Blocks.Block.UpdateChildrenSize | app.js:33-47 | each call, including a call after the parent's size changed, gives the children the sizes the formula gives for the parent's current size; the children then tile the parent along the stored axis |
| Blocks.Block.IsSeparable | app.js:22-24 | the definition of `isSeparable` on a block: `Separable` of its current width and height |
| Blocks.Block.Render | app.js:51-61 | the rectangles drawn below a block are `Positions` of its tree: pre-order; the left child keeps the corner; the right child is offset by the left child's width (vertical) or height |
| Schedule.Next | app.js:92-98 | the definition of one turn on values: the h-th queued block is split with the given draw; its children are numbered n and n + 1; the separable ones are queued, left first |
| Schedule.After | app.js:92-98 | the definition of the state after the first h turns, the i-th turn using the i-th draw |
| Schedule.InitialScheduled | app.js:84-85 | before the first split, the desk is the only block; it is queued and not split, although it never passed the separability test |
| Schedule.Step | app.js:92-98 | splitting the head of the queue and queueing its separable children keeps the bookkeeping consistent |
| Schedule.AfterScheduled | app.js:92-98 | after h splits: exactly the first h queued blocks are split, in queue order, with the first h draws; every queued block but the root is separable; each split queued its separable children, left first; every separable leaf is still waiting in the queue; the tree tiles the desk and has h + 1 leaves |
| Schedule.Advance | app.js:93-97 | one turn turns block a, a leaf, into a split with children numbered n and n + 1; every other block keeps its top; the separable children join the queue |
| MapGeneration.SaveToTail | app.js:86-91 | a separable block is linked behind the tail and becomes the tail; any other block leaves the queue alone; either way, the queue stays a chain ending at the returned tail |
| MapGeneration.ArenaModels | app.js:25-31 | when every block agrees with its subtree and is linked to its children, the heap below each block is its subtree |
| MapGeneration.SplitInArena | app.js:93 | `headBlock.splitBlock()` adds two fresh blocks, numbered n and n + 1, and keeps the heap equal to the nodes after the split |
| MapGeneration.QueueChildren | app.js:94-95 | the two `saveToTail` calls append the separable children, left first, and keep the chain |
| MapGeneration.Turn | app.js:93-97 | one turn of the loop keeps the heap in step with the bookkeeping of one more split, and moves the head to the next queued block |
| MapGeneration.SplitLoop | app.js:83-98 | the loop stops after h splits, with `blockCount` = budget - 1 - h; when it stops, the count has reached 0 or the queue is empty, and the heap matches `After(h)` |
| MapGeneration.Finish | app.js:99 | at the end, the blocks form a tiled tree of the desk's size, and the reported count equals its number of leaves, within 2 and the budget; the count is short of the budget only when no separable leaf is left; the root was split; every other split block is separable |
| MapGeneration.GenerateMap | app.js:77-102 | the blocks form a tiled tree of the desk; the reported count is its number of leaves, in [2, budget]; the count falls short only when no leaf could be split further; the root is split; every other split block is separable; `render(0, 0)` draws one rectangle per reported block; the tree is `After` of reported - 1 splits, so the queue facts of `Schedule.AfterScheduled` hold of it |

## Left out

- The page: the `document.getElementById` lookups, `getDeskSize`,
  `innerHTML`, `createElement`, `setElementPosition`, `appendChild`, the
  click listener and writing the count into `realBlockCountInput`. The
  desk size is passed in. The reported count and the drawn rectangles are
  returned.
- Floating point: each `Math.random()` result is its exact numerator over
  2^53. Doubles are not modelled.
- `parseInt`: the typed count arrives as an `Option<int>`, with `None` for
  "not a number".
- The 32-bit wrap of `>>`: it is modelled as floor division. Sizes are
  pixel counts far below 2^31.
- `handleClick`, `changeBlockColor`, `paintBlock` and `repaintGrid`: their
  bodies are empty. There is no colour palette or resize entry point in
  the code to model. Re-sizing is captured only in that
  `UpdateChildrenSize` may be called again after a block's size changed.
- The unused second argument of `new Block(…, '1')` and the global
  `lastBlockColor`.
- MapGeneration.GenerateMap: it requires one split draw per possible
  split. `Math.random()` never runs out, but a finite sequence of
  parameters can.
- `generateMap`'s loop body is split into the methods `SplitInArena`,
  `QueueChildren` and `Turn`, and its loop into `SplitLoop`. Each has the
  statements of the loop in the same order. Their ghost parameters carry
  the bookkeeping.
- Schedule.Next: it returns its state unchanged when the head of the queue
  is missing or already split. No state of the loop is like that
  (`AfterScheduled`).
