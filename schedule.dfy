/**
 The bookkeeping of `generateMap`'s loop, on values. Blocks are numbered in
 creation order: block k sits at `paths[k]` in the tree and, once split, has
 its children at `kid[k]` and `kid[k] + 1`. The queue is the list `qi` of the
 numbers of the blocks ever queued; its first `h` entries have been split,
 and the children queued by the i-th split are `qi[bounds[i]..bounds[i + 1]]`.
 */
module Schedule {
  import opened Geometry
  import opened Partition

  /** Block k exists, and its size makes it separable. */
  predicate SeparableAt(tree: Tree, paths: seq<Path>, k: int)
  {
    0 <= k < |paths| && ValidPath(tree, paths[k]) &&
    Separable(Get(tree, paths[k]).width, Get(tree, paths[k]).height)
  }

  /** What `saveToTail` appends for a split block j: its separable children,
      left before right. */
  function QueuedKids(tree: Tree, paths: seq<Path>, kid: seq<int>, j: int): seq<int>
    requires 0 <= j < |kid|
  {
    (if SeparableAt(tree, paths, kid[j]) then [kid[j]] else []) +
    (if SeparableAt(tree, paths, kid[j] + 1) then [kid[j] + 1] else [])
  }

  /** The creation-order numbering of the tree's blocks. */
  predicate PathsOk(tree: Tree, paths: seq<Path>, kid: seq<int>, h: nat)
  {
    |paths| == |kid| == 1 + 2 * h && paths[0] == [] &&
    (forall k :: 0 <= k < |paths| ==> ValidPath(tree, paths[k])) &&
    (forall i, j :: 0 <= i < j < |paths| ==> paths[i] != paths[j]) &&
    (forall k {:trigger Get(tree, paths[k])} :: 0 <= k < |paths| && Get(tree, paths[k]).Split? ==>
       0 <= kid[k] && kid[k] + 1 < |paths| &&
       paths[kid[k]] == paths[k] + [false] && paths[kid[k] + 1] == paths[k] + [true])
  }

  /** The tree after h splits of a desk of the given size. */
  predicate TreeOk(tree: Tree, width: int, height: int, h: nat)
  {
    tree.width == width && tree.height == height &&
    Tiled(tree) && InnerSplitsSeparable(tree) && LeafCount(tree) == h + 1 &&
    (h > 0 ==> tree.Split?)
  }

  /** The queue after h splits: the root first, each block at most once
      and in creation order, and the first h of them split. */
  predicate QueueShape(paths: seq<Path>, qi: seq<int>, h: nat, draws: seq<Draw>)
  {
    |qi| >= 1 && qi[0] == 0 && h <= |qi| && h <= |draws| &&
    (forall i :: 0 <= i < |qi| ==> 0 <= qi[i] < |paths|) &&
    (forall i, j :: 0 <= i < j < |qi| ==> qi[i] < qi[j])
  }

  /** Exactly the first h queued blocks are split, with the first h draws,
      and every queued block but the root is separable. */
  predicate QueueSplits(tree: Tree, paths: seq<Path>, kid: seq<int>, qi: seq<int>, h: nat, draws: seq<Draw>)
    requires PathsOk(tree, paths, kid, h) && QueueShape(paths, qi, h, draws)
  {
    (forall i :: 0 <= i < |qi| ==> (Get(tree, paths[qi[i]]).Split? <==> i < h)) &&
    (forall i :: 1 <= i < |qi| ==> SeparableAt(tree, paths, qi[i])) &&
    (forall i :: 0 <= i < h ==> Get(tree, paths[qi[i]]).position == draws[i])
  }

  /** The i-th split queued exactly its separable children, at
      qi[bounds[i]..bounds[i + 1]]. */
  predicate QueueBounds(tree: Tree, paths: seq<Path>, kid: seq<int>, qi: seq<int>, bounds: seq<int>, h: nat, draws: seq<Draw>)
    requires PathsOk(tree, paths, kid, h) && QueueShape(paths, qi, h, draws)
  {
    |bounds| == h + 1 && bounds[0] == 1 && bounds[h] == |qi| &&
    (forall i :: 0 <= i <= h ==> 1 <= bounds[i] <= |qi|) &&
    (forall i :: 0 <= i < h ==>
       bounds[i] <= bounds[i + 1] && qi[bounds[i]..bounds[i + 1]] == QueuedKids(tree, paths, kid, qi[i]))
  }

  predicate QueueOk(tree: Tree, paths: seq<Path>, kid: seq<int>, qi: seq<int>, bounds: seq<int>, h: nat, draws: seq<Draw>)
    requires PathsOk(tree, paths, kid, h)
  {
    QueueShape(paths, qi, h, draws) &&
    QueueSplits(tree, paths, kid, qi, h, draws) &&
    QueueBounds(tree, paths, kid, qi, bounds, h, draws)
  }

  /** Every leaf that could still be split is waiting in the queue. */
  ghost predicate PendingOk(tree: Tree, paths: seq<Path>, qi: seq<int>, h: nat)
    requires forall i :: 0 <= i < |qi| ==> 0 <= qi[i] < |paths|
  {
    forall q :: (ValidPath(tree, q) && Get(tree, q).Leaf? && Separable(Get(tree, q).width, Get(tree, q).height)) ==>
      exists i :: h <= i < |qi| && paths[qi[i]] == q
  }

  ghost predicate Scheduled(tree: Tree, paths: seq<Path>, kid: seq<int>, qi: seq<int>, bounds: seq<int>, h: nat,
                      draws: seq<Draw>, width: int, height: int)
  {
    PathsOk(tree, paths, kid, h) && TreeOk(tree, width, height, h) &&
    QueueOk(tree, paths, kid, qi, bounds, h, draws) && PendingOk(tree, paths, qi, h)
  }

  /** The state before the first split: the desk is the only block, the
      only block queued, and unsplit. */
  lemma InitialScheduled(width: int, height: int, draws: seq<Draw>)
    ensures Scheduled(Leaf(width, height), [[]], [0], [0], [1], 0, draws, width, height)
  {
    var t := Leaf(width, height);
    forall q | ValidPath(t, q) && Get(t, q).Leaf? && Separable(Get(t, q).width, Get(t, q).height)
      ensures exists i :: 0 <= i < 1 && [[]][[0][i]] == q
    {
      assert q == [];
      assert [[]][[0][0]] == q;
    }
  }

  /** The numbers of the blocks queued by splitting block a: its separable
      new children, numbered n and n + 1. */
  function NewlyQueued(tree: Tree, p: Path, n: int): seq<int>
    requires ValidPath(tree, p + [false]) && ValidPath(tree, p + [true])
  {
    (if Separable(Get(tree, p + [false]).width, Get(tree, p + [false]).height) then [n] else []) +
    (if Separable(Get(tree, p + [true]).width, Get(tree, p + [true]).height) then [n + 1] else [])
  }

  /** The tree after the head of the queue is split, and where its children are. */
  lemma {:induction false} StepTree(tree: Tree, paths: seq<Path>, kid: seq<int>, qi: seq<int>, bounds: seq<int>, h: nat,
                  draws: seq<Draw>, width: int, height: int)
    requires Scheduled(tree, paths, kid, qi, bounds, h, draws, width, height) && h < |qi| && h < |draws|
    ensures var p := paths[qi[h]];
      var t := SplitAt(tree, p, draws[h]);
      Get(tree, p).Leaf? && ValidPath(t, p) && Get(t, p) == SplitLeaf(Get(tree, p).width, Get(tree, p).height, draws[h]) &&
      ValidPath(t, p + [false]) && ValidPath(t, p + [true]) &&
      Get(t, p + [false]) == Get(t, p).left && Get(t, p + [true]) == Get(t, p).right
  {
    var p := paths[qi[h]];
    SplitAtTarget(tree, p, draws[h]);
    var t := SplitAt(tree, p, draws[h]);
    GetExtend(t, p, false);
    GetExtend(t, p, true);
  }

  lemma {:induction false} StepPaths(tree: Tree, paths: seq<Path>, kid: seq<int>, h: nat, a: int, position: Draw)
    requires PathsOk(tree, paths, kid, h) && 0 <= a < |paths| && Get(tree, paths[a]).Leaf?
    ensures var p, n := paths[a], |paths|;
      PathsOk(SplitAt(tree, p, position), paths + [p + [false], p + [true]], kid[a := n] + [0, 0], h + 1)
  {
    var p, n := paths[a], |paths|;
    var t := SplitAt(tree, p, position);
    var paths', kid' := paths + [p + [false], p + [true]], kid[a := n] + [0, 0];
    SplitAtTarget(tree, p, position);
    GetExtend(t, p, false);
    GetExtend(t, p, true);
    GetExtend(tree, p, false);
    GetExtend(tree, p, true);
    forall k | 0 <= k < |paths'|
      ensures ValidPath(t, paths'[k])
    {
      if k < n {
        SplitAtSizes(tree, p, position, paths[k]);
      }
    }
    forall i, j | 0 <= i < j < |paths'|
      ensures paths'[i] != paths'[j]
    {
      if j >= n && i < n {
        assert ValidPath(tree, paths[i]);
        assert !ValidPath(tree, paths'[j]);
      } else if j == n + 1 && i == n {
        assert paths'[i][|p|] != paths'[j][|p|];
      }
    }
    forall k | 0 <= k < |paths'| && Get(t, paths'[k]).Split?
      ensures 0 <= kid'[k] && kid'[k] + 1 < |paths'|
      ensures paths'[kid'[k]] == paths'[k] + [false] && paths'[kid'[k] + 1] == paths'[k] + [true]
    {
      if k < n && k != a {
        SplitAtOthers(tree, p, position, paths[k]);
      } else if k >= n {
        assert false;
      }
    }
  }

  /** The tree after h + 1 splits keeps the desk's size, stays tiled, has
      one leaf more, and the root remains the only block that may have been
      split without being separable. */
  lemma {:induction false} StepTreeOk(tree: Tree, paths: seq<Path>, kid: seq<int>, qi: seq<int>, bounds: seq<int>, h: nat,
                    draws: seq<Draw>, width: int, height: int)
    requires Scheduled(tree, paths, kid, qi, bounds, h, draws, width, height) && h < |qi| && h < |draws|
    ensures TreeOk(SplitAt(tree, paths[qi[h]], draws[h]), width, height, h + 1)
  {
    var p := paths[qi[h]];
    assert Get(tree, p).Leaf?;
    assert p == [] || Separable(Get(tree, p).width, Get(tree, p).height) by {
      if h > 0 {
        assert SeparableAt(tree, paths, qi[h]);
      }
    }
    SplitAtKeepsRoot(tree, p, draws[h]);
    SplitAtTiled(tree, p, draws[h]);
    SplitAtInnerSplitsSeparable(tree, p, draws[h]);
    SplitAtLeafCount(tree, p, draws[h]);
  }

  /** A split leaves the separability of every existing block as it was. */
  lemma SeparableAtStep(tree: Tree, paths: seq<Path>, a: int, position: Draw, extra: seq<Path>, k: int)
    requires 0 <= a < |paths| && ValidPath(tree, paths[a]) && Get(tree, paths[a]).Leaf?
    requires forall j :: 0 <= j < |paths| ==> ValidPath(tree, paths[j])
    requires 0 <= k < |paths|
    ensures SeparableAt(SplitAt(tree, paths[a], position), paths + extra, k) == SeparableAt(tree, paths, k)
  {
    SplitAtSizes(tree, paths[a], position, paths[k]);
    assert (paths + extra)[k] == paths[k];
  }

  /** The state right after block a, a leaf, is split and its children
      numbered n and n + 1. */
  predicate SplitStep(tree: Tree, paths: seq<Path>, kid: seq<int>, qi: seq<int>, h: nat, draws: seq<Draw>,
                      t: Tree, paths': seq<Path>, kid': seq<int>, qi': seq<int>)
    requires PathsOk(tree, paths, kid, h) && QueueShape(paths, qi, h, draws) && h < |qi| && h < |draws|
  {
    var a, n := qi[h], |paths|;
    var p := paths[a];
    Get(tree, p).Leaf? &&
    t == SplitAt(tree, p, draws[h]) &&
    paths' == paths + [p + [false], p + [true]] && kid' == kid[a := n] + [0, 0] &&
    ValidPath(t, p + [false]) && ValidPath(t, p + [true]) &&
    qi' == qi + NewlyQueued(t, p, n)
  }

  lemma StepQueueShape(tree: Tree, paths: seq<Path>, kid: seq<int>, qi: seq<int>, h: nat, draws: seq<Draw>,
                       t: Tree, paths': seq<Path>, kid': seq<int>, qi': seq<int>)
    requires PathsOk(tree, paths, kid, h) && QueueShape(paths, qi, h, draws) && h < |qi| && h < |draws|
    requires SplitStep(tree, paths, kid, qi, h, draws, t, paths', kid', qi')
    ensures QueueShape(paths', qi', h + 1, draws)
  {
    var n := |paths|;
    assert forall i :: |qi| <= i < |qi'| ==> qi'[i] == n || qi'[i] == n + 1;
    assert |qi'| == |qi| + 2 ==> qi'[|qi|] == n && qi'[|qi| + 1] == n + 1;
  }

  lemma StepSplitFlags(tree: Tree, paths: seq<Path>, kid: seq<int>, qi: seq<int>, h: nat, draws: seq<Draw>,
                       t: Tree, paths': seq<Path>, kid': seq<int>, qi': seq<int>)
    requires PathsOk(tree, paths, kid, h) && QueueShape(paths, qi, h, draws) && h < |qi| && h < |draws|
    requires QueueSplits(tree, paths, kid, qi, h, draws)
    requires SplitStep(tree, paths, kid, qi, h, draws, t, paths', kid', qi')
    requires PathsOk(t, paths', kid', h + 1) && QueueShape(paths', qi', h + 1, draws)
    ensures forall i :: 0 <= i < |qi'| ==> (Get(t, paths'[qi'[i]]).Split? <==> i < h + 1)
    ensures forall i :: 0 <= i < h + 1 ==> Get(t, paths'[qi'[i]]).position == draws[i]
  {
    var a, p := qi[h], paths[qi[h]];
    SplitAtTarget(tree, p, draws[h]);
    forall i | 0 <= i < |qi'|
      ensures Get(t, paths'[qi'[i]]).Split? <==> i < h + 1
      ensures i < h + 1 ==> Get(t, paths'[qi'[i]]).position == draws[i]
    {
      if i < |qi| && i != h {
        assert qi[i] != a;
        SplitAtOthers(tree, p, draws[h], paths[qi[i]]);
      } else if i >= |qi| {
        GetExtend(t, p, false);
        GetExtend(t, p, true);
      }
    }
  }

  lemma StepSeparable(tree: Tree, paths: seq<Path>, kid: seq<int>, qi: seq<int>, h: nat, draws: seq<Draw>,
                      t: Tree, paths': seq<Path>, kid': seq<int>, qi': seq<int>)
    requires PathsOk(tree, paths, kid, h) && QueueShape(paths, qi, h, draws) && h < |qi| && h < |draws|
    requires QueueSplits(tree, paths, kid, qi, h, draws)
    requires SplitStep(tree, paths, kid, qi, h, draws, t, paths', kid', qi')
    requires PathsOk(t, paths', kid', h + 1) && QueueShape(paths', qi', h + 1, draws)
    ensures forall i :: 1 <= i < |qi'| ==> SeparableAt(t, paths', qi'[i])
  {
    var a, p := qi[h], paths[qi[h]];
    forall i | 1 <= i < |qi|
      ensures SeparableAt(t, paths', qi'[i])
    {
      SeparableAtStep(tree, paths, a, draws[h], [p + [false], p + [true]], qi[i]);
    }
  }

  lemma StepQueueSplits(tree: Tree, paths: seq<Path>, kid: seq<int>, qi: seq<int>, h: nat, draws: seq<Draw>,
                        t: Tree, paths': seq<Path>, kid': seq<int>, qi': seq<int>)
    requires PathsOk(tree, paths, kid, h) && QueueShape(paths, qi, h, draws) && h < |qi| && h < |draws|
    requires QueueSplits(tree, paths, kid, qi, h, draws)
    requires SplitStep(tree, paths, kid, qi, h, draws, t, paths', kid', qi')
    requires PathsOk(t, paths', kid', h + 1)
    ensures QueueShape(paths', qi', h + 1, draws) && QueueSplits(t, paths', kid', qi', h + 1, draws)
  {
    StepQueueShape(tree, paths, kid, qi, h, draws, t, paths', kid', qi');
    StepSplitFlags(tree, paths, kid, qi, h, draws, t, paths', kid', qi');
    StepSeparable(tree, paths, kid, qi, h, draws, t, paths', kid', qi');
  }

  /** The children queued by an earlier split are still what that split
      queues, after one more split. */
  lemma StepOldBound(tree: Tree, paths: seq<Path>, kid: seq<int>, qi: seq<int>, bounds: seq<int>, h: nat, draws: seq<Draw>,
                     t: Tree, paths': seq<Path>, kid': seq<int>, qi': seq<int>, i: int)
    requires PathsOk(tree, paths, kid, h) && QueueShape(paths, qi, h, draws) && h < |qi| && h < |draws|
    requires QueueSplits(tree, paths, kid, qi, h, draws) && QueueBounds(tree, paths, kid, qi, bounds, h, draws)
    requires SplitStep(tree, paths, kid, qi, h, draws, t, paths', kid', qi')
    requires 0 <= i < h
    ensures 0 <= bounds[i] <= bounds[i + 1] <= |qi| <= |qi'| && 0 <= qi[i] < |kid'|
    ensures qi'[bounds[i]..bounds[i + 1]] == QueuedKids(t, paths', kid', qi'[i])
  {
    var a, n := qi[h], |paths|;
    var p := paths[a];
    var j := qi[i];
    assert j != a;
    assert Get(tree, paths[j]).Split?;
    assert qi'[bounds[i]..bounds[i + 1]] == qi[bounds[i]..bounds[i + 1]];
    SeparableAtStep(tree, paths, a, draws[h], [p + [false], p + [true]], kid[j]);
    SeparableAtStep(tree, paths, a, draws[h], [p + [false], p + [true]], kid[j] + 1);
    assert kid'[j] == kid[j];
  }

  /** The children queued by the new split are its separable ones. */
  lemma StepNewBound(tree: Tree, paths: seq<Path>, kid: seq<int>, qi: seq<int>, h: nat, draws: seq<Draw>,
                     t: Tree, paths': seq<Path>, kid': seq<int>, qi': seq<int>)
    requires PathsOk(tree, paths, kid, h) && QueueShape(paths, qi, h, draws) && h < |qi| && h < |draws|
    requires SplitStep(tree, paths, kid, qi, h, draws, t, paths', kid', qi')
    ensures 0 <= qi[h] < |kid'|
    ensures qi'[|qi|..|qi'|] == QueuedKids(t, paths', kid', qi'[h])
  {
    var a, n := qi[h], |paths|;
    var p := paths[a];
    assert qi'[|qi|..|qi'|] == NewlyQueued(t, p, n);
    assert kid'[a] == n;
    assert paths'[n] == p + [false] && paths'[n + 1] == p + [true];
  }

  lemma StepQueueBounds(tree: Tree, paths: seq<Path>, kid: seq<int>, qi: seq<int>, bounds: seq<int>, h: nat, draws: seq<Draw>,
                        t: Tree, paths': seq<Path>, kid': seq<int>, qi': seq<int>)
    requires PathsOk(tree, paths, kid, h) && QueueShape(paths, qi, h, draws) && h < |qi| && h < |draws|
    requires QueueSplits(tree, paths, kid, qi, h, draws) && QueueBounds(tree, paths, kid, qi, bounds, h, draws)
    requires SplitStep(tree, paths, kid, qi, h, draws, t, paths', kid', qi')
    requires PathsOk(t, paths', kid', h + 1) && QueueShape(paths', qi', h + 1, draws)
    ensures QueueBounds(t, paths', kid', qi', bounds + [|qi'|], h + 1, draws)
  {
    StepBoundSlices(tree, paths, kid, qi, bounds, h, draws, t, paths', kid', qi', bounds + [|qi'|]);
  }

  lemma StepBoundSlices(tree: Tree, paths: seq<Path>, kid: seq<int>, qi: seq<int>, bounds: seq<int>, h: nat, draws: seq<Draw>,
                        t: Tree, paths': seq<Path>, kid': seq<int>, qi': seq<int>, bounds': seq<int>)
    requires PathsOk(tree, paths, kid, h) && QueueShape(paths, qi, h, draws) && h < |qi| && h < |draws|
    requires QueueSplits(tree, paths, kid, qi, h, draws) && QueueBounds(tree, paths, kid, qi, bounds, h, draws)
    requires SplitStep(tree, paths, kid, qi, h, draws, t, paths', kid', qi') && bounds' == bounds + [|qi'|]
    ensures forall i {:trigger qi'[i]} :: 0 <= i < h + 1 ==>
      0 <= qi'[i] < |kid'| && bounds'[i] <= bounds'[i + 1] <= |qi'| &&
      qi'[bounds'[i]..bounds'[i + 1]] == QueuedKids(t, paths', kid', qi'[i])
  {
    forall i {:trigger qi'[i]} | 0 <= i < h + 1
      ensures 0 <= qi'[i] < |kid'| && bounds'[i] <= bounds'[i + 1] <= |qi'|
      ensures qi'[bounds'[i]..bounds'[i + 1]] == QueuedKids(t, paths', kid', qi'[i])
    {
      if i < h {
        StepOldBound(tree, paths, kid, qi, bounds, h, draws, t, paths', kid', qi', i);
      } else {
        StepNewBound(tree, paths, kid, qi, h, draws, t, paths', kid', qi');
      }
    }
  }

  lemma {:induction false} StepPending(tree: Tree, paths: seq<Path>, qi: seq<int>, h: nat, pos: Draw)
    requires (forall i :: 0 <= i < |qi| ==> 0 <= qi[i] < |paths|) && h < |qi|
    requires PendingOk(tree, paths, qi, h)
    requires ValidPath(tree, paths[qi[h]]) && Get(tree, paths[qi[h]]).Leaf?
    ensures var p, n := paths[qi[h]], |paths|;
      var t := SplitAt(tree, p, pos);
      var paths' := paths + [p + [false], p + [true]];
      ValidPath(t, p + [false]) && ValidPath(t, p + [true]) &&
      var qi' := qi + NewlyQueued(t, p, n);
      (forall i :: 0 <= i < |qi'| ==> 0 <= qi'[i] < |paths'|) &&
      PendingOk(t, paths', qi', h + 1)
  {
    var p, n := paths[qi[h]], |paths|;
    var t := SplitAt(tree, p, pos);
    SplitAtTarget(tree, p, pos);
    GetExtend(t, p, false);
    GetExtend(t, p, true);
    var paths' := paths + [p + [false], p + [true]];
    var qi' := qi + NewlyQueued(t, p, n);
    forall q | ValidPath(t, q) && Get(t, q).Leaf? && Separable(Get(t, q).width, Get(t, q).height)
      ensures exists i :: h + 1 <= i < |qi'| && paths'[qi'[i]] == q
    {
      SplitAtLeaves(tree, p, pos, q);
      if q == p + [false] {
        assert qi'[|qi|] == n && paths'[n] == q;
      } else if q == p + [true] {
        var i := |qi'| - 1;
        assert qi'[i] == n + 1 && paths'[n + 1] == q;
      } else {
        var i :| h <= i < |qi| && paths[qi[i]] == q;
        assert i != h;
        assert qi'[i] == qi[i];
      }
    }
  }

  /** The subtree at each block's path (a path that leads nowhere, which no
      state of the loop has, stands for the whole tree). */
  ghost function NodesAt(tree: Tree, paths: seq<Path>): (r: seq<Tree>)
    ensures |r| == |paths|
    ensures forall k {:trigger r[k]} :: 0 <= k < |paths| && ValidPath(tree, paths[k]) ==> r[k] == Get(tree, paths[k])
  {
    if paths == [] then []
    else
      var last := paths[|paths| - 1];
      NodesAt(tree, paths[..|paths| - 1]) + [if ValidPath(tree, last) then Get(tree, last) else tree]
  }

  /** Each split block's subtree has, as its children, the subtrees of the
      blocks numbered kid[j] and kid[j] + 1. */
  ghost predicate NodesLinked(nodes: seq<Tree>, kid: seq<int>)
  {
    |kid| == |nodes| &&
    forall j {:trigger kid[j]} :: 0 <= j < |nodes| && nodes[j].Split? ==>
      0 <= kid[j] && kid[j] + 1 < |nodes| && nodes[kid[j]] == nodes[j].left && nodes[kid[j] + 1] == nodes[j].right
  }

  lemma NodesLinkedByPaths(tree: Tree, paths: seq<Path>, kid: seq<int>, h: nat)
    requires PathsOk(tree, paths, kid, h)
    ensures NodesLinked(NodesAt(tree, paths), kid)
  {
    var nodes := NodesAt(tree, paths);
    forall j | 0 <= j < |nodes| && nodes[j].Split?
      ensures 0 <= kid[j] && kid[j] + 1 < |nodes|
      ensures nodes[kid[j]] == nodes[j].left && nodes[kid[j] + 1] == nodes[j].right
    {
      GetExtend(tree, paths[j], false);
      GetExtend(tree, paths[j], true);
    }
  }

  /** What one split does to the subtrees of the blocks, seen from their
      tops: block a, a leaf, becomes what `splitBlock` makes of it, the blocks
      numbered n and n + 1 are its children, and every other block keeps its
      size, its split state, its axis and its draw. */
  ghost predicate TopsAfterSplit(nodes: seq<Tree>, nodes': seq<Tree>, a: int, position: Draw)
  {
    var n := |nodes|;
    |nodes'| == n + 2 && 0 <= a < n && nodes[a].Leaf? &&
    (forall j :: 0 <= j < n && j != a ==> SameTop(nodes'[j], nodes[j])) &&
    nodes'[a] == SplitLeaf(nodes[a].width, nodes[a].height, position) &&
    nodes'[n] == nodes'[a].left && nodes'[n + 1] == nodes'[a].right
  }

  /** The numbers of the new children that `saveToTail` queues. */
  function Queued(nodes: seq<Tree>, n: int): seq<int>
    requires 0 <= n && n + 1 < |nodes|
  {
    (if Separable(nodes[n].width, nodes[n].height) then [n] else []) +
    (if Separable(nodes[n + 1].width, nodes[n + 1].height) then [n + 1] else [])
  }

  lemma StepTops(tree: Tree, paths: seq<Path>, kid: seq<int>, h: nat, a: int, position: Draw)
    requires PathsOk(tree, paths, kid, h) && 0 <= a < |paths| && Get(tree, paths[a]).Leaf?
    ensures var p, n := paths[a], |paths|;
      var t := SplitAt(tree, p, position);
      var paths' := paths + [p + [false], p + [true]];
      (forall k :: 0 <= k < |paths'| ==> ValidPath(t, paths'[k])) &&
      ValidPath(t, p + [false]) && ValidPath(t, p + [true]) &&
      TopsAfterSplit(NodesAt(tree, paths), NodesAt(t, paths'), a, position) &&
      Queued(NodesAt(t, paths'), n) == NewlyQueued(t, p, n)
  {
    var p, n := paths[a], |paths|;
    var t := SplitAt(tree, p, position);
    var paths' := paths + [p + [false], p + [true]];
    StepPaths(tree, paths, kid, h, a, position);
    SplitAtTarget(tree, p, position);
    GetExtend(t, p, false);
    GetExtend(t, p, true);
    var nodes, nodes' := NodesAt(tree, paths), NodesAt(t, paths');
    forall j | 0 <= j < n && j != a
      ensures SameTop(nodes'[j], nodes[j])
    {
      SplitAtOthers(tree, p, position, paths[j]);
    }
  }

  /** One turn of the loop, on values: splitting the head of the queue
      and queueing its separable children keeps the whole schedule
      consistent. */
  lemma Step(tree: Tree, paths: seq<Path>, kid: seq<int>, qi: seq<int>, bounds: seq<int>, h: nat,
             draws: seq<Draw>, width: int, height: int)
    requires Scheduled(tree, paths, kid, qi, bounds, h, draws, width, height) && h < |qi| && h < |draws|
    ensures var a, n := qi[h], |paths|;
      var p := paths[a];
      var t := SplitAt(tree, p, draws[h]);
      ValidPath(t, p + [false]) && ValidPath(t, p + [true]) &&
      var qi' := qi + NewlyQueued(t, p, n);
      Scheduled(t, paths + [p + [false], p + [true]], kid[a := n] + [0, 0], qi', bounds + [|qi'|], h + 1,
                draws, width, height)
  {
    var a, n := qi[h], |paths|;
    var p := paths[a];
    StepTree(tree, paths, kid, qi, bounds, h, draws, width, height);
    var t := SplitAt(tree, p, draws[h]);
    var paths', kid' := paths + [p + [false], p + [true]], kid[a := n] + [0, 0];
    var qi' := qi + NewlyQueued(t, p, n);
    assert SplitStep(tree, paths, kid, qi, h, draws, t, paths', kid', qi');
    StepTreeOk(tree, paths, kid, qi, bounds, h, draws, width, height);
    StepPaths(tree, paths, kid, h, a, draws[h]);
    StepQueueSplits(tree, paths, kid, qi, h, draws, t, paths', kid', qi');
    StepQueueBounds(tree, paths, kid, qi, bounds, h, draws, t, paths', kid', qi');
    StepPending(tree, paths, qi, h, draws[h]);
  }

  /** The whole bookkeeping of the loop as one value. */
  datatype Sched = Sched(tree: Tree, paths: seq<Path>, kid: seq<int>, qi: seq<int>, bounds: seq<int>)

  /** Before the first split: the desk alone, queued. */
  function Initial(width: int, height: int): Sched
  {
    Sched(Leaf(width, height), [[]], [0], [0], [1])
  }

  /** One turn: split the h-th queued block with draw d, number its
      children n and n + 1 and queue the separable ones. A state in which
      the h-th queued block is missing or already split, which no state of
      the loop is, is left as it is. */
  function Next(s: Sched, h: nat, d: Draw): Sched
  {
    if h < |s.qi| && 0 <= s.qi[h] < |s.paths| && s.qi[h] < |s.kid| &&
       ValidPath(s.tree, s.paths[s.qi[h]]) && Get(s.tree, s.paths[s.qi[h]]).Leaf? then
      var a, n := s.qi[h], |s.paths|;
      var p := s.paths[a];
      var t := SplitAt(s.tree, p, d);
      if ValidPath(t, p + [false]) && ValidPath(t, p + [true]) then
        var qi' := s.qi + NewlyQueued(t, p, n);
        Sched(t, s.paths + [p + [false], p + [true]], s.kid[a := n] + [0, 0], qi', s.bounds + [|qi'|])
      else
        s
    else
      s
  }

  /** The state after the first h turns, the i-th turn using draws[i]. */
  function After(width: int, height: int, draws: seq<Draw>, h: nat): Sched
    requires h <= |draws|
    decreases h
  {
    if h == 0 then Initial(width, height)
    else Next(After(width, height, draws, h - 1), h - 1, draws[h - 1])
  }

  /** Each of the first h turns found a block waiting in the queue. */
  predicate Live(width: int, height: int, draws: seq<Draw>, h: nat)
    requires h <= |draws|
    decreases h
  {
    h == 0 ||
    (Live(width, height, draws, h - 1) && h - 1 < |After(width, height, draws, h - 1).qi|)
  }

  /** Every state the loop reaches is consistent. */
  lemma {:induction false} AfterScheduled(width: int, height: int, draws: seq<Draw>, h: nat)
    requires h <= |draws| && Live(width, height, draws, h)
    ensures var s := After(width, height, draws, h);
      Scheduled(s.tree, s.paths, s.kid, s.qi, s.bounds, h, draws, width, height)
    decreases h
  {
    if h == 0 {
      InitialScheduled(width, height, draws);
    } else {
      var g := h - 1;
      AfterScheduled(width, height, draws, g);
      var s := After(width, height, draws, g);
      Step(s.tree, s.paths, s.kid, s.qi, s.bounds, g, draws, width, height);
      var a := s.qi[g];
      assert Get(s.tree, s.paths[a]).Leaf?;
    }
  }

  /** What one turn does, seen from the subtrees of the blocks: the facts
      the heap needs. */
  lemma Advance(width: int, height: int, draws: seq<Draw>, h: nat)
    requires h < |draws| && Live(width, height, draws, h) && h < |After(width, height, draws, h).qi|
    ensures var s, s' := After(width, height, draws, h), After(width, height, draws, h + 1);
      var a, n := s.qi[h], |s.paths|;
      Live(width, height, draws, h + 1) &&
      |s.kid| == n && 0 <= a < n &&
      TopsAfterSplit(NodesAt(s.tree, s.paths), NodesAt(s'.tree, s'.paths), a, draws[h]) &&
      s'.kid == s.kid[a := n] + [0, 0] &&
      s'.qi == s.qi + Queued(NodesAt(s'.tree, s'.paths), n)
  {
    var s := After(width, height, draws, h);
    AfterScheduled(width, height, draws, h);
    var a := s.qi[h];
    assert Get(s.tree, s.paths[a]).Leaf?;
    StepTops(s.tree, s.paths, s.kid, h, a, draws[h]);
  }
}
