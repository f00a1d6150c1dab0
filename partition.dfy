/**
 The value view of a block tree. A tree is a leaf rectangle or a block that
 was split, with the axis and the draw its split used and its two children.
 This module states what a well-formed tree is (every split tiles its block by
 the split formula), what `render` computes from it (the absolute rectangle of
 every leaf, parent first), and what one more split does to it.
 */
module Partition {
  import opened Geometry

  datatype Tree =
    | Leaf(width: int, height: int)
    | Split(width: int, height: int, vertical: bool, position: Draw, left: Tree, right: Tree)

  /** A leaf's absolute rectangle, as `render` hands it to the page. */
  datatype Rect = Rect(left: int, top: int, width: int, height: int)

  /** A direction from a block to one of its children: false for the left
      (or top) child, true for the right (or bottom) one. */
  type Path = seq<bool>

  /** `splitBlock` on a leaf of the given size, expressed on values. */
  function SplitLeaf(width: int, height: int, position: Draw): (t: Tree)
    ensures t.Split? && t.width == width && t.height == height
    ensures t.vertical <==> width > height
    ensures t.left.Leaf? && t.right.Leaf?
  {
    var vertical := SplitsVertically(width, height);
    var c := ChildSizes(width, height, vertical, position);
    Split(width, height, vertical, position, Leaf(c.0.width, c.0.height), Leaf(c.1.width, c.1.height))
  }

  /** Every split in the tree gave its children the sizes of the split
      formula, applied to the block's size with its stored axis and draw. */
  predicate Tiled(t: Tree)
  {
    match t
    case Leaf(_, _) => true
    case Split(w, h, v, p, l, r) =>
      var c := ChildSizes(w, h, v, p);
      l.width == c.0.width && l.height == c.0.height &&
      r.width == c.1.width && r.height == c.1.height &&
      Tiled(l) && Tiled(r)
  }

  /** The children of a split block in a tiled tree cover it exactly: they
      add up to it along the split axis and share its extent across it. */
  lemma TiledSplitCovers(t: Tree)
    requires Tiled(t) && t.Split?
    ensures t.vertical ==>
      t.left.width + t.right.width == t.width &&
      t.left.height == t.height && t.right.height == t.height
    ensures !t.vertical ==>
      t.left.height + t.right.height == t.height &&
      t.left.width == t.width && t.right.width == t.width
  {
  }

  function LeafCount(t: Tree): nat
  {
    match t
    case Leaf(_, _) => 1
    case Split(_, _, _, _, l, r) => LeafCount(l) + LeafCount(r)
  }

  function SplitCount(t: Tree): nat
  {
    match t
    case Leaf(_, _) => 0
    case Split(_, _, _, _, l, r) => 1 + SplitCount(l) + SplitCount(r)
  }

  /** Every split turns one leaf into two, so a tree has one leaf more than
      it has splits. */
  lemma {:induction false} LeafCountIsSplitCountPlusOne(t: Tree)
    ensures LeafCount(t) == SplitCount(t) + 1
  {
    match t
    case Leaf(_, _) =>
    case Split(_, _, _, _, l, r) =>
      LeafCountIsSplitCountPlusOne(l);
      LeafCountIsSplitCountPlusOne(r);
  }

  /** The sizes of the leaves, left (or top) subtree first. */
  function Leaves(t: Tree): seq<Size>
  {
    match t
    case Leaf(w, h) => [Size(w, h)]
    case Split(_, _, _, _, l, r) => Leaves(l) + Leaves(r)
  }

  /** `render(left, top)` without the page: the rectangle of every leaf,
      parent before children and left before right. The left child keeps
      the parent's corner; the right child is moved along the split axis by
      the left child's extent. */
  function Positions(t: Tree, left: int, top: int): seq<Rect>
  {
    match t
    case Leaf(w, h) => [Rect(left, top, w, h)]
    case Split(_, _, v, _, l, r) =>
      Positions(l, left, top) +
      Positions(r, left + (if v then l.width else 0), top + (if v then 0 else l.height))
  }

  /** `render` draws one rectangle per leaf, the i-th having the size of the
      i-th leaf in pre-order. */
  lemma {:induction false} PositionsAreLeaves(t: Tree, left: int, top: int)
    ensures |Positions(t, left, top)| == |Leaves(t)| == LeafCount(t)
    ensures forall i :: 0 <= i < |Leaves(t)| ==>
      Positions(t, left, top)[i].width == Leaves(t)[i].width &&
      Positions(t, left, top)[i].height == Leaves(t)[i].height
  {
    match t
    case Leaf(_, _) =>
    case Split(_, _, v, _, l, r) =>
      var rl := left + (if v then l.width else 0);
      var rt := top + (if v then 0 else l.height);
      PositionsAreLeaves(l, left, top);
      PositionsAreLeaves(r, rl, rt);
      var pl, pr := Positions(l, left, top), Positions(r, rl, rt);
      assert Positions(t, left, top) == pl + pr;
      forall i | 0 <= i < |Leaves(t)|
        ensures Positions(t, left, top)[i].width == Leaves(t)[i].width
        ensures Positions(t, left, top)[i].height == Leaves(t)[i].height
      {
        if i < |pl| {
          assert Positions(t, left, top)[i] == pl[i];
          assert Leaves(t)[i] == Leaves(l)[i];
        } else {
          assert Positions(t, left, top)[i] == pr[i - |pl|];
          assert Leaves(t)[i] == Leaves(r)[i - |pl|];
        }
      }
  }

  /** The first leaf drawn is the top-left one: it sits at the corner the
      walk started from. */
  lemma {:induction false} FirstPositionAtOrigin(t: Tree, left: int, top: int)
    ensures |Positions(t, left, top)| > 0
    ensures Positions(t, left, top)[0].left == left && Positions(t, left, top)[0].top == top
  {
    match t
    case Leaf(_, _) =>
    case Split(_, _, v, _, l, r) =>
      FirstPositionAtOrigin(l, left, top);
  }

  /** Moving the starting corner moves every drawn rectangle by the same
      offset and changes nothing else, so the walk can be restarted from
      any origin. */
  lemma {:induction false} PositionsTranslate(t: Tree, left: int, top: int, dx: int, dy: int)
    ensures |Positions(t, left + dx, top + dy)| == |Positions(t, left, top)|
    ensures forall i :: 0 <= i < |Positions(t, left, top)| ==>
      var a, b := Positions(t, left, top)[i], Positions(t, left + dx, top + dy)[i];
      b == Rect(a.left + dx, a.top + dy, a.width, a.height)
  {
    match t
    case Leaf(_, _) =>
    case Split(_, _, v, _, l, r) =>
      var rl := left + (if v then l.width else 0);
      var rt := top + (if v then 0 else l.height);
      PositionsTranslate(l, left, top, dx, dy);
      PositionsTranslate(r, rl, rt, dx, dy);
      var pl, pr := Positions(l, left, top), Positions(r, rl, rt);
      var ql, qr := Positions(l, left + dx, top + dy), Positions(r, rl + dx, rt + dy);
      var a: seq<Rect>, b: seq<Rect> := pl + pr, ql + qr;
      assert Positions(t, left + dx, top + dy) == b;
      forall i | 0 <= i < |a|
        ensures b[i] == Rect(a[i].left + dx, a[i].top + dy, a[i].width, a[i].height)
      {
        if i < |pl| {
          assert b[i] == ql[i] && a[i] == pl[i];
        } else {
          assert b[i] == qr[i - |pl|] && a[i] == pr[i - |pl|];
        }
      }
  }

  /** Every size in the tree is non-negative. */
  predicate NonNegative(t: Tree)
  {
    t.width >= 0 && t.height >= 0 &&
    match t
    case Leaf(_, _) => true
    case Split(_, _, _, _, l, r) => NonNegative(l) && NonNegative(r)
  }

  /** A rectangle lies within another. */
  predicate Inside(a: Rect, left: int, top: int, width: int, height: int)
  {
    left <= a.left && a.left + a.width <= left + width &&
    top <= a.top && a.top + a.height <= top + height
  }

  /** In a tiled tree without negative sizes every drawn leaf lies within
      the root's rectangle. */
  lemma {:induction false} PositionsInsideRoot(t: Tree, left: int, top: int)
    requires Tiled(t) && NonNegative(t)
    ensures forall i :: 0 <= i < |Positions(t, left, top)| ==>
      Inside(Positions(t, left, top)[i], left, top, t.width, t.height)
  {
    match t
    case Leaf(_, _) =>
    case Split(w, h, v, _, l, r) =>
      var rl := left + (if v then l.width else 0);
      var rt := top + (if v then 0 else l.height);
      TiledSplitCovers(t);
      PositionsInsideRoot(l, left, top);
      PositionsInsideRoot(r, rl, rt);
      var pl, pr := Positions(l, left, top), Positions(r, rl, rt);
      assert Positions(t, left, top) == pl + pr;
      forall i | 0 <= i < |pl + pr|
        ensures Inside((pl + pr)[i], left, top, w, h)
      {
        if i < |pl| {
          assert (pl + pr)[i] == pl[i];
          assert Inside(pl[i], left, top, l.width, l.height);
        } else {
          assert (pl + pr)[i] == pr[i - |pl|];
          assert Inside(pr[i - |pl|], rl, rt, r.width, r.height);
        }
      }
  }

  function Area(rects: seq<Rect>): int
  {
    if rects == [] then 0 else rects[0].width * rects[0].height + Area(rects[1..])
  }

  lemma {:induction false} AreaAppend(a: seq<Rect>, b: seq<Rect>)
    ensures Area(a + b) == Area(a) + Area(b)
  {
    if a == [] {
      assert a + b == b;
    } else {
      assert (a + b)[1..] == a[1..] + b;
      AreaAppend(a[1..], b);
    }
  }

  /** The leaves of a tiled tree cover exactly the root's area. */
  lemma {:induction false} PositionsCoverArea(t: Tree, left: int, top: int)
    requires Tiled(t)
    ensures Area(Positions(t, left, top)) == t.width * t.height
  {
    match t
    case Leaf(_, _) =>
    case Split(w, h, v, _, l, r) =>
      var rl := left + (if v then l.width else 0);
      var rt := top + (if v then 0 else l.height);
      TiledSplitCovers(t);
      PositionsCoverArea(l, left, top);
      PositionsCoverArea(r, rl, rt);
      AreaAppend(Positions(l, left, top), Positions(r, rl, rt));
      if v {
        assert l.width * h + r.width * h == (l.width + r.width) * h;
      } else {
        assert w * l.height + w * r.height == w * (l.height + r.height);
      }
  }

  // ---- Addressing blocks by path, and splitting one leaf ----

  predicate ValidPath(t: Tree, p: Path)
  {
    p == [] || (t.Split? && ValidPath(if p[0] then t.right else t.left, p[1..]))
  }

  /** The subtree at the end of a path. */
  function Get(t: Tree, p: Path): Tree
    requires ValidPath(t, p)
  {
    if p == [] then t else Get(if p[0] then t.right else t.left, p[1..])
  }

  /** The tree after `splitBlock` was called on the leaf at path p. */
  function SplitAt(t: Tree, p: Path, position: Draw): Tree
    requires ValidPath(t, p) && Get(t, p).Leaf?
  {
    if p == [] then SplitLeaf(t.width, t.height, position)
    else if p[0] then t.(right := SplitAt(t.right, p[1..], position))
    else t.(left := SplitAt(t.left, p[1..], position))
  }

  /** The subtree one step below the end of a path is a child of the
      subtree at its end. */
  lemma {:induction false} GetExtend(t: Tree, p: Path, b: bool)
    requires ValidPath(t, p)
    ensures ValidPath(t, p + [b]) <==> Get(t, p).Split?
    ensures ValidPath(t, p + [b]) ==>
      Get(t, p + [b]) == if b then Get(t, p).right else Get(t, p).left
  {
    if p != [] {
      assert (p + [b])[1..] == p[1..] + [b];
      GetExtend(if p[0] then t.right else t.left, p[1..], b);
    }
  }

  /** Splitting a leaf keeps the block's own size. */
  lemma {:induction false} SplitAtKeepsRoot(t: Tree, p: Path, position: Draw)
    requires ValidPath(t, p) && Get(t, p).Leaf?
    ensures SplitAt(t, p, position).width == t.width
    ensures SplitAt(t, p, position).height == t.height
    ensures p != [] ==> SplitAt(t, p, position).Split?
  {
  }

  /** At path p, the tree now holds exactly what `splitBlock` makes of the
      leaf that was there, and p's children are new leaves. */
  lemma {:induction false} SplitAtTarget(t: Tree, p: Path, position: Draw)
    requires ValidPath(t, p) && Get(t, p).Leaf?
    ensures ValidPath(SplitAt(t, p, position), p)
    ensures Get(SplitAt(t, p, position), p) == SplitLeaf(Get(t, p).width, Get(t, p).height, position)
  {
    if p != [] {
      SplitAtTarget(if p[0] then t.right else t.left, p[1..], position);
    }
  }

  /** The other blocks keep their size, their leaf-or-split state and, when
      split, their axis and draw. Leaves other than p stay the same leaf. */
  predicate SameTop(a: Tree, b: Tree)
  {
    a.width == b.width && a.height == b.height && a.Leaf? == b.Leaf? &&
    (a.Split? ==> a.vertical == b.vertical && a.position == b.position)
  }

  lemma {:induction false} SplitAtOthers(t: Tree, p: Path, position: Draw, q: Path)
    requires ValidPath(t, p) && Get(t, p).Leaf?
    requires ValidPath(t, q) && q != p
    ensures ValidPath(SplitAt(t, p, position), q)
    ensures SameTop(Get(SplitAt(t, p, position), q), Get(t, q))
    ensures Get(t, q).Leaf? ==> Get(SplitAt(t, p, position), q) == Get(t, q)
  {
    if p == [] {
      assert false;
    } else if q != [] {
      if p[0] == q[0] {
        assert p[1..] != q[1..];
        SplitAtOthers(if p[0] then t.right else t.left, p[1..], position, q[1..]);
      }
    }
  }

  /** A split changes the size of no block that was already there. */
  lemma SplitAtSizes(t: Tree, p: Path, position: Draw, q: Path)
    requires ValidPath(t, p) && Get(t, p).Leaf? && ValidPath(t, q)
    ensures ValidPath(SplitAt(t, p, position), q)
    ensures Get(SplitAt(t, p, position), q).width == Get(t, q).width
    ensures Get(SplitAt(t, p, position), q).height == Get(t, q).height
  {
    if q == p {
      SplitAtTarget(t, p, position);
    } else {
      SplitAtOthers(t, p, position, q);
    }
  }

  /** One split adds exactly one leaf. */
  lemma {:induction false} SplitAtLeafCount(t: Tree, p: Path, position: Draw)
    requires ValidPath(t, p) && Get(t, p).Leaf?
    ensures LeafCount(SplitAt(t, p, position)) == LeafCount(t) + 1
  {
    if p != [] {
      SplitAtLeafCount(if p[0] then t.right else t.left, p[1..], position);
    }
  }

  /** Splitting a leaf keeps the tree tiled. */
  lemma {:induction false} SplitAtTiled(t: Tree, p: Path, position: Draw)
    requires ValidPath(t, p) && Get(t, p).Leaf? && Tiled(t)
    ensures Tiled(SplitAt(t, p, position))
  {
    if p != [] {
      SplitAtTiled(if p[0] then t.right else t.left, p[1..], position);
      SplitAtKeepsRoot(if p[0] then t.right else t.left, p[1..], position);
    }
  }

  /** Every leaf of the split tree is a leaf of the old one other than p,
      or one of p's two new children. */
  lemma {:induction false} SplitAtLeaves(t: Tree, p: Path, position: Draw, q: Path)
    requires ValidPath(t, p) && Get(t, p).Leaf?
    requires ValidPath(SplitAt(t, p, position), q) && Get(SplitAt(t, p, position), q).Leaf?
    ensures q == p + [false] || q == p + [true] ||
            (ValidPath(t, q) && q != p && Get(t, q) == Get(SplitAt(t, p, position), q))
  {
    if p == [] {
      if q != [] {
        assert q[1..] == [] by {
          var c := if q[0] then SplitAt(t, p, position).right else SplitAt(t, p, position).left;
          assert c.Leaf?;
        }
        assert q == [q[0]];
        assert p + [q[0]] == [q[0]];
      }
    } else if q != [] {
      if p[0] == q[0] {
        SplitAtLeaves(if p[0] then t.right else t.left, p[1..], position, q[1..]);
        assert q == [q[0]] + q[1..];
        assert p + [false] == [p[0]] + (p[1..] + [false]);
        assert p + [true] == [p[0]] + (p[1..] + [true]);
      }
    }
  }

  /** No leaf of the tree could be split further. */
  predicate NoSeparableLeaf(t: Tree)
  {
    match t
    case Leaf(w, h) => !Separable(w, h)
    case Split(_, _, _, _, l, r) => NoSeparableLeaf(l) && NoSeparableLeaf(r)
  }

  /** A tree has no separable leaf when none of the leaves reached by a
      path is separable. */
  lemma {:induction false} NoSeparableLeafByPaths(t: Tree)
    requires forall q :: ValidPath(t, q) && Get(t, q).Leaf? ==> !Separable(Get(t, q).width, Get(t, q).height)
    ensures NoSeparableLeaf(t)
  {
    match t
    case Leaf(_, _) =>
      assert ValidPath(t, []);
    case Split(_, _, _, _, l, r) =>
      forall q | ValidPath(l, q) && Get(l, q).Leaf?
        ensures !Separable(Get(l, q).width, Get(l, q).height)
      {
        assert ([false] + q)[1..] == q;
        assert ValidPath(t, [false] + q);
      }
      forall q | ValidPath(r, q) && Get(r, q).Leaf?
        ensures !Separable(Get(r, q).width, Get(r, q).height)
      {
        assert ([true] + q)[1..] == q;
        assert ValidPath(t, [true] + q);
      }
      NoSeparableLeafByPaths(l);
      NoSeparableLeafByPaths(r);
  }

  /** Below the root, every block that was split is separable. */
  predicate SplitsSeparable(t: Tree)
  {
    match t
    case Leaf(_, _) => true
    case Split(w, h, _, _, l, r) => Separable(w, h) && SplitsSeparable(l) && SplitsSeparable(r)
  }

  /** Only the root may have been split without being separable. */
  predicate InnerSplitsSeparable(t: Tree)
  {
    t.Leaf? || (SplitsSeparable(t.left) && SplitsSeparable(t.right))
  }

  lemma {:induction false} SplitAtSplitsSeparable(t: Tree, p: Path, position: Draw)
    requires ValidPath(t, p) && Get(t, p).Leaf? && SplitsSeparable(t)
    requires Separable(Get(t, p).width, Get(t, p).height)
    ensures SplitsSeparable(SplitAt(t, p, position))
  {
    if p != [] {
      SplitAtSplitsSeparable(if p[0] then t.right else t.left, p[1..], position);
    }
  }

  /** Splitting the root, or a separable leaf below it, keeps every split
      below the root separable. */
  lemma {:induction false} SplitAtInnerSplitsSeparable(t: Tree, p: Path, position: Draw)
    requires ValidPath(t, p) && Get(t, p).Leaf? && InnerSplitsSeparable(t)
    requires p == [] || Separable(Get(t, p).width, Get(t, p).height)
    ensures InnerSplitsSeparable(SplitAt(t, p, position))
  {
    if p != [] {
      SplitAtSplitsSeparable(if p[0] then t.right else t.left, p[1..], position);
    }
  }
}
