/**
 The `Block` class: a rectangle whose split fills in its axis, its draw and
 two fresh children in place, and whose children's sizes can be recomputed
 from its own size at any time. `Models` ties a block and everything below it
 to a `Partition.Tree` value, through which `Render` is specified.
 */
module Blocks {
  import opened Geometry
  import opened Partition

  class Block {
    var width: int
    var height: int
    var verticalSplit: bool
    /** The draw standing for `splitPosition`, the fraction in [0, 1). */
    var splitPosition: Draw
    var leftBlock: Block?
    var rightBlock: Block?
    /** The next block of `generateMap`'s candidate queue. */
    var nextBlock: Block?

    constructor (width: int, height: int)
      ensures this.width == width && this.height == height
      ensures leftBlock == null && rightBlock == null && nextBlock == null
    {
      this.width := width;
      this.height := height;
      leftBlock, rightBlock, nextBlock := null, null, null;
    }

    predicate IsSeparable()
      reads this`width, this`height
    {
      Separable(width, height)
    }

    /** The children have the sizes the split formula gives for this block's
        current size, stored axis and stored draw. */
    predicate ChildrenSized()
      reads this, leftBlock, rightBlock
    {
      leftBlock != null && rightBlock != null &&
      var c := ChildSizes(width, height, verticalSplit, splitPosition);
      leftBlock.width == c.0.width && leftBlock.height == c.0.height &&
      rightBlock.width == c.1.width && rightBlock.height == c.1.height
    }

    /** `splitBlock`, with `Math.random()` replaced by the draw `position`:
        picks the axis (vertical exactly when the block is wider than high),
        stores the draw, attaches two fresh leaves and sizes them. The block
        keeps its own size and its place in the queue. */
    method SplitBlock(position: Draw)
      modifies this
      ensures width == old(width) && height == old(height) && nextBlock == old(nextBlock)
      ensures verticalSplit <==> width > height
      ensures splitPosition == position
      ensures leftBlock != null && rightBlock != null && leftBlock != rightBlock
      ensures fresh(leftBlock) && fresh(rightBlock)
      ensures leftBlock.leftBlock == null && leftBlock.rightBlock == null && leftBlock.nextBlock == null
      ensures rightBlock.leftBlock == null && rightBlock.rightBlock == null && rightBlock.nextBlock == null
      ensures ChildrenSized()
    {
      verticalSplit := width > height;
      splitPosition := position;
      // Both children start with the parent's size; updateChildrenSize then
      // shrinks them along the split axis.
      leftBlock := new Block(width, height);
      rightBlock := new Block(width, height);
      UpdateChildrenSize();
    }

    /** `updateChildrenSize`: recomputes both children's sizes from this
        block's current size and its stored axis and draw. It may be called
        again after the block's size changed; each call leaves the children
        tiling the block and touches nothing but their sizes. */
    method UpdateChildrenSize()
      requires leftBlock != null && rightBlock != null && leftBlock != rightBlock
      requires leftBlock != this && rightBlock != this
      modifies leftBlock`width, leftBlock`height, rightBlock`width, rightBlock`height
      ensures ChildrenSized()
      ensures verticalSplit ==>
        leftBlock.width + rightBlock.width == width &&
        leftBlock.height == height && rightBlock.height == height
      ensures !verticalSplit ==>
        leftBlock.height + rightBlock.height == height &&
        leftBlock.width == width && rightBlock.width == width
    {
      if verticalSplit {
        var realSplitPosition := DivideSize(splitPosition, width);
        leftBlock.width := realSplitPosition;
        leftBlock.height := height;
        rightBlock.width := width - realSplitPosition;
        rightBlock.height := height;
      } else {
        var realSplitPosition := DivideSize(splitPosition, height);
        leftBlock.height := realSplitPosition;
        leftBlock.width := width;
        rightBlock.height := height - realSplitPosition;
        rightBlock.width := width;
      }
    }

    /** `render(left, top)` without the page: the rectangles of the leaves
        below this block, in the order in which `render` appends them. */
    method Render(left: int, top: int, ghost t: Tree) returns (rects: seq<Rect>)
      requires Models(this, t)
      ensures rects == Positions(t, left, top)
      decreases t
    {
      if leftBlock != null {
        var l := leftBlock.Render(left, top, t.left);
        var r := rightBlock.Render(
          left + (if verticalSplit then leftBlock.width else 0),
          top + (if verticalSplit then 0 else leftBlock.height),
          t.right);
        rects := l + r;
      } else {
        rects := [Rect(left, top, width, height)];
      }
    }
  }

  /** The block's own fields match the top of the tree: same size, a leaf
      exactly when it has no children, and the same axis and draw when
      split. */
  ghost predicate Agrees(b: Block, t: Tree)
    reads b`width, b`height, b`leftBlock, b`rightBlock, b`verticalSplit, b`splitPosition
  {
    b.width == t.width && b.height == t.height &&
    (t.Leaf? <==> b.leftBlock == null) && (t.Leaf? <==> b.rightBlock == null) &&
    (t.Split? ==> b.verticalSplit == t.vertical && b.splitPosition == t.position)
  }

  /** The block and everything below it are the tree t. */
  ghost predicate Models(b: Block, t: Tree)
    reads *
    decreases t
  {
    Agrees(b, t) &&
    (t.Split? ==> Models(b.leftBlock, t.left) && Models(b.rightBlock, t.right))
  }
}
