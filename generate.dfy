/**
 `generateMap` without the page: draws a block budget, then splits blocks
 taken from the head of a FIFO queue that is threaded through the blocks'
 `nextBlock` fields, appending the separable children of each split block
 at the tail, until the budget is spent or the queue runs out.

 Ghost state follows the heap: `all` lists every block created, in creation
 order, and `index` files each block under its number. The value side of
 the run, after h splits, is `Schedule.After(width, height, draws, h)`: the
 tree, the path of every block, the number of each split block's left child
 (`kid`) and the numbers of the blocks ever queued (`qi`). `HeapOk` ties the
 two together; each turn of the loop (`Turn`) keeps it, and `Finish` reads
 off what it means once the loop stops.
 */
module MapGeneration {
  import opened Wrappers
  import opened Geometry
  import opened Partition
  import opened Blocks
  import opened Schedule

  /** Once split, block b has its children at k and k + 1 in all. */
  ghost predicate KidLinked(b: Block, k: int, all: seq<Block>)
    reads b`leftBlock, b`rightBlock
  {
    b.leftBlock != null ==> 0 <= k && k + 1 < |all| && all[k] == b.leftBlock && all[k + 1] == b.rightBlock
  }

  /** Every block created agrees with its subtree and, once split, is
      linked to its children. */
  ghost predicate Arena(all: seq<Block>, kid: seq<int>, nodes: seq<Tree>)
    reads all`width, all`height, all`leftBlock, all`rightBlock, all`verticalSplit, all`splitPosition
  {
    |all| == |kid| == |nodes| &&
    (forall j {:trigger Agrees(all[j], nodes[j])} :: 0 <= j < |all| ==> Agrees(all[j], nodes[j])) &&
    (forall j {:trigger KidLinked(all[j], kid[j], all)} :: 0 <= j < |all| ==> KidLinked(all[j], kid[j], all))
  }

  /** Every block created is filed under its own number, so no two
      numbers hold the same block. */
  ghost predicate Numbered(all: seq<Block>, index: map<Block, int>)
  {
    forall j :: 0 <= j < |all| ==> all[j] in index && index[all[j]] == j
  }

  /** The queue threaded through `nextBlock`: each queued block points to
      the next one, and the last one is the tail and points nowhere. */
  ghost predicate Chain(all: seq<Block>, qi: seq<int>, tailBlock: Block)
    requires forall i :: 0 <= i < |qi| ==> 0 <= qi[i] < |all|
    reads all`nextBlock, tailBlock`nextBlock
  {
    |qi| >= 1 &&
    (forall i :: 0 <= i < |qi| - 1 ==> all[qi[i]].nextBlock == all[qi[i + 1]]) &&
    tailBlock == all[qi[|qi| - 1]] && tailBlock.nextBlock == null
  }

  /** `saveToTail`: a separable block is linked behind the tail and becomes
      the new tail; any other block is left out of the queue. Either way the
      queue stays a chain ending at the returned tail. */
  method SaveToTail(tailBlock: Block, block: Block, ghost all: seq<Block>, ghost qi: seq<int>, ghost k: int)
    returns (newTail: Block, ghost qi': seq<int>)
    requires (forall i :: 0 <= i < |qi| ==> 0 <= qi[i] < |all|) && 0 <= k < |all| && all[k] == block
    requires Chain(all, qi, tailBlock) && block.nextBlock == null && block != tailBlock
    modifies tailBlock`nextBlock
    ensures block.IsSeparable() ==> tailBlock.nextBlock == block && newTail == block
    ensures !block.IsSeparable() ==> tailBlock.nextBlock == old(tailBlock.nextBlock) && newTail == tailBlock
    ensures qi' == qi + (if block.IsSeparable() then [k] else []) && Chain(all, qi', newTail)
  {
    newTail := tailBlock;
    qi' := qi;
    if block.IsSeparable() {
      // Every queued block but the tail points to a block, so none of them
      // is the tail, whose link is the only one that changes.
      forall i | 0 <= i < |qi| - 1
        ensures all[qi[i]] != tailBlock
      {
        assert all[qi[i]].nextBlock == all[qi[i + 1]];
      }
      tailBlock.nextBlock := block;
      newTail := block;
      qi' := qi + [k];
      assert forall i :: 0 <= i < |qi| - 1 ==> all[qi'[i]].nextBlock == all[qi'[i + 1]];
    }
  }

  /** In a consistent arena the heap below each block is its subtree. */
  lemma {:induction false} ArenaModels(all: seq<Block>, kid: seq<int>, nodes: seq<Tree>, j: int)
    requires Arena(all, kid, nodes) && NodesLinked(nodes, kid) && 0 <= j < |all|
    ensures Models(all[j], nodes[j])
    decreases nodes[j]
  {
    var b, t := all[j], nodes[j];
    assert Agrees(b, t) && KidLinked(b, kid[j], all);
    if t.Split? {
      var k := kid[j];
      assert 0 <= k && k + 1 < |all| && nodes[k] == t.left && nodes[k + 1] == t.right;
      ArenaModels(all, kid, nodes, k);
      ArenaModels(all, kid, nodes, k + 1);
      assert Models(b.leftBlock, t.left) && Models(b.rightBlock, t.right);
    }
  }

  /** A block keeps agreeing with its subtree when a split elsewhere
      leaves that subtree's top as it was. */
  lemma AgreesSameTop(b: Block, x: Tree, y: Tree)
    requires Agrees(b, x) && SameTop(y, x)
    ensures Agrees(b, y)
  {
  }

  /** `splitBlock` on block a of the arena: the two fresh children join it
      as blocks n and n + 1, and the arena then matches the nodes after the
      split. No block's queue link changes. */
  method SplitInArena(headBlock: Block, position: Draw, ghost all: seq<Block>, ghost kid: seq<int>,
                      ghost nodes: seq<Tree>, ghost nodes': seq<Tree>, ghost a: int)
    returns (ghost all': seq<Block>)
    requires Arena(all, kid, nodes) && 0 <= a < |all| && headBlock == all[a]
    requires forall j :: 0 <= j < |all| && j != a ==> all[j] != headBlock
    requires TopsAfterSplit(nodes, nodes', a, position)
    modifies headBlock
    ensures headBlock.nextBlock == old(headBlock.nextBlock)
    ensures headBlock.leftBlock != null && headBlock.rightBlock != null
    ensures all' == all + [headBlock.leftBlock, headBlock.rightBlock]
    ensures fresh(headBlock.leftBlock) && fresh(headBlock.rightBlock) && headBlock.leftBlock != headBlock.rightBlock
    ensures headBlock.leftBlock.nextBlock == null && headBlock.rightBlock.nextBlock == null
    ensures Arena(all', kid[a := |all|] + [0, 0], nodes')
  {
    ghost var n := |all|;
    assert Agrees(headBlock, nodes[a]);
    headBlock.SplitBlock(position);
    all' := all + [headBlock.leftBlock, headBlock.rightBlock];
    ghost var kid' := kid[a := n] + [0, 0];
    forall j | 0 <= j < |all'|
      ensures Agrees(all'[j], nodes'[j])
    {
      if j < n && j != a {
        AgreesSameTop(all[j], nodes[j], nodes'[j]);
      }
    }
    forall j | 0 <= j < |all'|
      ensures KidLinked(all'[j], kid'[j], all')
    {
      if j < n && j != a {
        assert KidLinked(all[j], kid[j], all);
      }
    }
  }

  /** The two `saveToTail` calls of a turn, left child first: the queue
      grows by the separable ones among the blocks numbered n and n + 1. */
  method QueueChildren(tailBlock: Block, leftChild: Block, rightChild: Block,
                       ghost all: seq<Block>, ghost qi: seq<int>, ghost n: int)
    returns (newTail: Block, ghost qi': seq<int>)
    requires (forall i :: 0 <= i < |qi| ==> 0 <= qi[i] < |all|) && 0 <= n && n + 1 < |all|
    requires all[n] == leftChild && all[n + 1] == rightChild && leftChild != rightChild
    requires Chain(all, qi, tailBlock) && leftChild != tailBlock && rightChild != tailBlock
    requires leftChild.nextBlock == null && rightChild.nextBlock == null
    modifies tailBlock`nextBlock, leftChild`nextBlock
    ensures qi' == qi + old((if leftChild.IsSeparable() then [n] else []) + (if rightChild.IsSeparable() then [n + 1] else []))
    ensures (forall i :: 0 <= i < |qi'| ==> 0 <= qi'[i] < |all|) && Chain(all, qi', newTail)
  {
    ghost var qi1;
    newTail, qi1 := SaveToTail(tailBlock, leftChild, all, qi, n);
    newTail, qi' := SaveToTail(newTail, rightChild, all, qi1, n + 1);
  }

  /** Filing two new blocks under the next two numbers keeps every block
      under its own number. */
  lemma NumberedGrow(all: seq<Block>, index: map<Block, int>, all': seq<Block>)
    requires Numbered(all, index)
    requires |all'| == |all| + 2 && forall j :: 0 <= j < |all| ==> all'[j] == all[j]
    requires forall j :: 0 <= j < |all| ==> all[j] != all'[|all|] && all[j] != all'[|all| + 1]
    requires all'[|all|] != all'[|all| + 1]
    ensures var index' := index[all'[|all|] := |all|][all'[|all| + 1] := |all| + 1];
      Numbered(all', index') && index'.Keys == index.Keys + {all'[|all|], all'[|all| + 1]}
  {
  }

  /** The heap after h turns of the loop, against the bookkeeping: the
      blocks are the nodes, each under its own number, the first is the
      desk, the queue qi is threaded from the head through `nextBlock` up to
      the tail, and the head is the h-th queued block, or null once every
      queued block has been split. */
  ghost predicate HeapOk(nodes: seq<Tree>, kid: seq<int>, qi: seq<int>, h: nat, all: seq<Block>,
                         index: map<Block, int>, mainBlock: Block, headBlock: Block?, tailBlock: Block)
    reads all`width, all`height, all`leftBlock, all`rightBlock, all`verticalSplit, all`splitPosition
    reads all`nextBlock, tailBlock`nextBlock
  {
    Arena(all, kid, nodes) && Numbered(all, index) &&
    |all| >= 1 && all[0] == mainBlock &&
    (forall i :: 0 <= i < |qi| ==> 0 <= qi[i] < |all|) && Chain(all, qi, tailBlock) &&
    (headBlock != null <==> h < |qi|) && (headBlock != null ==> headBlock == all[qi[h]])
  }

  /** One turn of the loop: split the head, which becomes nodes'[a], queue
      its separable children, and move to the next block in the queue. */
  method Turn(headBlock: Block, tailBlock: Block, position: Draw,
              ghost all: seq<Block>, ghost index: map<Block, int>, ghost mainBlock: Block,
              ghost nodes: seq<Tree>, ghost nodes': seq<Tree>, ghost kid: seq<int>, ghost kid': seq<int>,
              ghost qi: seq<int>, ghost qi': seq<int>, ghost h: nat)
    returns (nextHead: Block?, newTail: Block, ghost all': seq<Block>, ghost index': map<Block, int>)
    requires HeapOk(nodes, kid, qi, h, all, index, mainBlock, headBlock, tailBlock)
    requires TopsAfterSplit(nodes, nodes', qi[h], position)
    requires kid' == kid[qi[h] := |all|] + [0, 0] && qi' == qi + Queued(nodes', |all|)
    modifies headBlock, tailBlock`nextBlock
    ensures HeapOk(nodes', kid', qi', h + 1, all', index', mainBlock, nextHead, newTail)
    ensures |all'| == |all| + 2 && index'.Keys == index.Keys + {all'[|all|], all'[|all| + 1]}
    ensures fresh(all'[|all|]) && fresh(all'[|all| + 1])
  {
    ghost var a, n := qi[h], |all|;
    all' := SplitInArena(headBlock, position, all, kid, nodes, nodes', a);
    var leftChild, rightChild := headBlock.leftBlock, headBlock.rightBlock;
    assert Chain(all', qi, tailBlock) by {
      assert forall i :: 0 <= i < |qi| ==> all'[qi[i]] == all[qi[i]];
    }
    assert Agrees(all'[n], nodes'[n]) && Agrees(all'[n + 1], nodes'[n + 1]);
    assert Queued(nodes', n) ==
      (if leftChild.IsSeparable() then [n] else []) + (if rightChild.IsSeparable() then [n + 1] else []);
    ghost var queued;
    newTail, queued := QueueChildren(tailBlock, leftChild, rightChild, all', qi, n);
    assert Arena(all', kid', nodes');
    assert Chain(all', queued, newTail);
    assert headBlock == all'[queued[h]];
    if h + 1 < |queued| {
      assert headBlock.nextBlock == all'[queued[h + 1]];
    } else {
      assert headBlock == newTail;
    }
    NumberedGrow(all, index, all');
    index' := index[all'[n] := n][all'[n + 1] := n + 1];
    nextHead := headBlock.nextBlock;
  }

  /** What the state at the end of the loop means: the heap is the tree,
      and the count is its number of leaves, short of the budget only when
      the queue ran dry. */
  lemma Finish(width: int, height: int, draws: seq<Draw>, h: nat, all: seq<Block>, index: map<Block, int>,
               mainBlock: Block, headBlock: Block?, tailBlock: Block, budget: int, blockCount: int,
               tree: Tree, reported: int)
    requires h <= |draws| && Live(width, height, draws, h)
    requires var s := After(width, height, draws, h);
      HeapOk(NodesAt(s.tree, s.paths), s.kid, s.qi, h, all, index, mainBlock, headBlock, tailBlock)
    requires MIN_BLOCK_COUNT <= budget && 0 <= blockCount == budget - 1 - h
    requires blockCount == 0 || headBlock == null
    requires tree == After(width, height, draws, h).tree && reported == budget - blockCount
    ensures Models(mainBlock, tree) && Tiled(tree)
    ensures tree.width == width && tree.height == height
    ensures reported == LeafCount(tree)
    ensures 2 <= reported <= budget
    ensures reported < budget ==> NoSeparableLeaf(tree)
    ensures tree.Split? && InnerSplitsSeparable(tree)
  {
    var s := After(width, height, draws, h);
    AfterScheduled(width, height, draws, h);
    NodesLinkedByPaths(s.tree, s.paths, s.kid, h);
    ArenaModels(all, s.kid, NodesAt(s.tree, s.paths), 0);
    if h + 1 < budget {
      NoSeparableLeafByPaths(s.tree);
    }
  }

  /** Blocks created since the start of a call, all but m, stay so when two
      more join. */
  twostate lemma StillFresh(new keys: set<Block>, m: Block, new x: Block, new y: Block, new keys': set<Block>)
    requires fresh(keys - {m}) && fresh(x) && fresh(y) && keys' == keys + {x, y}
    ensures fresh(keys' - {m})
  {
  }

  /** The loop of `generateMap`, from the desk block alone: split the head
      and move on, while the count decremented before every test is not
      zero and the queue is not exhausted. It returns the number h of
      splits, the final head, tail and count, and the blocks created. */
  method SplitLoop(mainBlock: Block, budget: int, splitDraws: seq<Draw>, ghost width: int, ghost height: int)
    returns (h: nat, headBlock: Block?, tailBlock: Block, blockCount: int,
             ghost all: seq<Block>, ghost index: map<Block, int>)
    requires mainBlock.width == width && mainBlock.height == height
    requires mainBlock.leftBlock == null && mainBlock.rightBlock == null && mainBlock.nextBlock == null
    requires MIN_BLOCK_COUNT <= budget <= |splitDraws| + 1
    modifies mainBlock
    ensures h <= |splitDraws| && Live(width, height, splitDraws, h)
    ensures var s := After(width, height, splitDraws, h);
      HeapOk(NodesAt(s.tree, s.paths), s.kid, s.qi, h, all, index, mainBlock, headBlock, tailBlock)
    ensures 0 <= blockCount == budget - 1 - h && (blockCount == 0 || headBlock == null)
  {
    headBlock, tailBlock := mainBlock, mainBlock;
    h := 0;  // splits so far, which is also the number of draws used
    all, index := [mainBlock], map[mainBlock := 0];
    // `while (--blockCount && headBlock)`: the count is decremented before
    // every test, the last one included.
    blockCount := budget - 1;
    while blockCount != 0 && headBlock != null
      invariant 0 <= blockCount == budget - 1 - h
      invariant Live(width, height, splitDraws, h)
      invariant var s := After(width, height, splitDraws, h);
        HeapOk(NodesAt(s.tree, s.paths), s.kid, s.qi, h, all, index, mainBlock, headBlock, tailBlock)
      invariant fresh(index.Keys - {mainBlock})
      decreases blockCount
    {
      ghost var s, s' := After(width, height, splitDraws, h), After(width, height, splitDraws, h + 1);
      Advance(width, height, splitDraws, h);
      ghost var all', index';
      headBlock, tailBlock, all', index' := Turn(headBlock, tailBlock, splitDraws[h], all, index, mainBlock,
                                                 NodesAt(s.tree, s.paths), NodesAt(s'.tree, s'.paths),
                                                 s.kid, s'.kid, s.qi, s'.qi, h);
      StillFresh(index.Keys, mainBlock, all'[|all|], all'[|all| + 1], index'.Keys);
      all, index := all', index';
      h := h + 1;
      blockCount := blockCount - 1;
    }
  }

  /** `generateMap(deskWidth, deskHeight)` without the page. The number the
      user typed arrives parsed (None when it is not a number), and the
      random draws arrive as arguments: `countDraw` for the budget and
      `splitDraws[i]` for the i-th split. The method returns the desk
      block, the count it reports, the tree its blocks form and the
      rectangles that `mainBlock.render(0, 0)` draws. */
  method GenerateMap(deskWidth: int, deskHeight: int, userCount: Option<int>, countDraw: Draw, splitDraws: seq<Draw>)
    returns (mainBlock: Block, reported: int, ghost tree: Tree, rects: seq<Rect>)
    requires |splitDraws| + 1 >= BlockBudget(userCount, countDraw)
    ensures fresh(mainBlock)
    // The blocks form the tree, which tiles the desk.
    ensures Models(mainBlock, tree) && Tiled(tree)
    ensures tree.width == deskWidth && tree.height == deskHeight
    // The reported count is the number of leaves, within the budget; short
    // of the budget only when no leaf is left that could be split.
    ensures reported == LeafCount(tree)
    ensures 2 <= reported <= BlockBudget(userCount, countDraw)
    // The tree is the state of the schedule after reported - 1 splits, so
    // what `AfterScheduled` proves of that state, the queue order included,
    // holds of it.
    ensures Live(deskWidth, deskHeight, splitDraws, reported - 1)
    ensures tree == After(deskWidth, deskHeight, splitDraws, reported - 1).tree
    ensures reported < BlockBudget(userCount, countDraw) ==> NoSeparableLeaf(tree)
    // The root is always split; every other split block is separable.
    ensures tree.Split? && InnerSplitsSeparable(tree)
    // One rectangle per leaf, drawn from the desk's top-left corner.
    ensures rects == Positions(tree, 0, 0) && |rects| == reported
  {
    mainBlock := new Block(deskWidth, deskHeight);
    var realBlockCount := BlockBudget(userCount, countDraw);
    var h, headBlock, tailBlock, blockCount, all, index :=
      SplitLoop(mainBlock, realBlockCount, splitDraws, deskWidth, deskHeight);
    reported := realBlockCount - blockCount;
    tree := After(deskWidth, deskHeight, splitDraws, h).tree;
    Finish(deskWidth, deskHeight, splitDraws, h, all, index, mainBlock, headBlock, tailBlock, realBlockCount, blockCount,
           tree, reported);
    rects := mainBlock.Render(0, 0, tree);
    PositionsAreLeaves(tree, 0, 0);
  }
}
