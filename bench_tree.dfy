/**
 * RBTree (rstm-dev/bench/Tree.hpp): the red-black tree benchmark.  The
 * tree hangs below a black sentinel as its child 0; the object's state
 * here is that child, the root.  Inserting and removing walk down from
 * the root, relink and recolour, and then rebalance on the way back up;
 * each group of writes the source makes at one level becomes one local
 * rewrite of the path from the root (see RBTrees.Plug).
 */
module BenchTree {
  import opened RBTrees

  /** The walk down from the root that insert and remove begin with: stop at v's node or at the empty child where v belongs. */
  method Descend(root: Tree, v: int) returns (focus: Tree, path: seq<Frame>)
    ensures Plug(focus, path) == root && Fits(path, v)
    ensures focus.Nil? || focus.val == v
  {
    focus, path := root, [];
    while focus.Node? && focus.val != v
      invariant Plug(focus, path) == root && Fits(path, v)
      decreases focus
    {
      var d := if v < focus.val then L else R;
      var f := Frame(focus.color, focus.val, d, Child(focus, Flip(d)));
      assert Attach(f, Child(focus, d)) == focus;
      PlugAppend(Child(focus, d), path, f);
      path := path + [f];
      focus := Child(focus, d);
    }
  }

  /** A value on the right side of every node of an ordered path is not on it or beside it. */
  lemma {:induction false} OffPath(path: seq<Frame>, x: int)
    requires PathOrdered(path) && Fits(path, x)
    ensures x !in PathElements(path)
    decreases |path|
  {
    if |path| > 0 {
      assert Fits(path[1..], x) by {
        forall i | 0 <= i < |path| - 1
          ensures Side(path[1..][i].dir, x, path[1..][i].val)
        {
          assert path[1..][i] == path[i + 1];
        }
      }
      OffPath(path[1..], x);
      assert Side(path[0].dir, x, path[0].val);
    }
  }

  /** In a search tree, v is present exactly when the walk stops at a node (which then holds v). */
  lemma DescendFinds(focus: Tree, path: seq<Frame>, v: int)
    requires Ordered(Plug(focus, path)) && Fits(path, v)
    ensures v in Elements(Plug(focus, path)) <==> v in Elements(focus)
  {
    ElementsPlug(focus, path);
    OrderedPlug(focus, path);
    OffPath(path, v);
  }

  // ---------------------------------------------------------------------
  // insert

  /**
   * The state of insert's rebalancing loop: the tree holds `values` in
   * order with equal black heights; `child` is red with no red child, and
   * the only red node that may have a red parent is `child` itself.
   */
  ghost predicate Rising(child: Tree, path: seq<Frame>, values: set<int>)
  {
    var t := Plug(child, path);
    Ordered(t) && Elements(t) == values && BlackHeight(t) >= 0 &&
    child.Node? && child.color == Red && !RedViolation(Black, child) &&
    FramesOk(Black, path) && (|path| > 0 ==> path[0].color == Black)
  }

  /** The state the loop leaves: every check of isSane holds but perhaps the root's colour. */
  ghost predicate Settled(t: Tree, values: set<int>)
  {
    Ordered(t) && Elements(t) == values && BlackHeight(t) >= 0 && !RedViolation(Black, t)
  }

  /** Aunt red: parent and aunt turn black and the grandparent red; the grandparent is the next child. */
  function Recolor(g: Frame, p: Frame, child: Tree): Tree
  {
    Make(Red, g.dir, Make(Black, p.dir, child, p.val, p.sibling), g.val, Blacken(g.sibling))
  }

  /**
   * Aunt black: when child and parent lie on different sides, rotate the
   * child above the parent first; then the (new) parent turns black, the
   * grandparent red, and the parent is rotated above the grandparent.
   */
  function Rotate(g: Frame, p: Frame, child: Tree): Tree
    requires child.Node?
  {
    var top :=
      if p.dir != g.dir then
        Make(child.color, g.dir, Make(p.color, p.dir, Child(child, g.dir), p.val, p.sibling), child.val, Child(child, p.dir))
      else Attach(p, child);
    Make(Black, Flip(g.dir), Make(Red, g.dir, Child(top, Flip(g.dir)), g.val, g.sibling), top.val, Child(top, g.dir))
  }

  /** The conditions under which insert's loop rewrites the grandparent's subtree. */
  predicate RedPair(g: Frame, p: Frame, child: Tree)
  {
    g.color == Black && p.color == Red &&
    child.Node? && child.color == Red && !RedViolation(Black, child) &&
    !RedViolation(Red, p.sibling) && !RedViolation(Black, g.sibling)
  }

  lemma RecolorLocal(g: Frame, p: Frame, child: Tree)
    requires RedPair(g, p, child) && g.sibling.Node? && g.sibling.color == Red
    ensures Inorder(Recolor(g, p, child)) == Inorder(Attach(g, Attach(p, child)))
    ensures BlackHeight(Attach(g, Attach(p, child))) >= 0 ==>
              BlackHeight(Recolor(g, p, child)) == BlackHeight(Attach(g, Attach(p, child)))
    ensures Recolor(g, p, child).color == Red && !RedViolation(Black, Recolor(g, p, child))
  {
    RedMono(Black, p.sibling);
    BlackenOk(Black, g.sibling, Red);
  }

  /** Moving the middle of five sequences' separators: what every single and double rotation does to the in-order values. */
  lemma Regroup(s1: seq<int>, x: int, s2: seq<int>, y: int, s3: seq<int>, z: int, s4: seq<int>)
    ensures s1 + [x] + (s2 + [y] + s3) + [z] + s4 == s1 + [x] + s2 + [y] + (s3 + [z] + s4)
    ensures s1 + [x] + (s2 + [y] + (s3 + [z] + s4)) == s1 + [x] + s2 + [y] + (s3 + [z] + s4)
    ensures s1 + [x] + (s2 + [y] + s3 + [z] + s4) == s1 + [x] + s2 + [y] + (s3 + [z] + s4)
  {
  }

  /** The double rotation with the child on the right of a left parent. */
  lemma ZigZagL(a: Tree, ps: Tree, b1: Tree, b2: Tree, gv: int, pv: int, cv: int)
    ensures var t := Node(Black, Node(Red, ps, pv, Node(Red, b1, cv, b2)), gv, a);
            var t' := Node(Black, Node(Red, ps, pv, b1), cv, Node(Red, b2, gv, a));
            Inorder(t') == Inorder(t) && (BlackHeight(t) >= 0 ==> BlackHeight(t') == BlackHeight(t))
  {
    var c := Node(Red, b1, cv, b2);
    var x := Node(Red, ps, pv, c);
    var t := Node(Black, x, gv, a);
    var y, z := Node(Red, ps, pv, b1), Node(Red, b2, gv, a);
    var t' := Node(Black, y, cv, z);
    assert Inorder(c) == Inorder(b1) + [cv] + Inorder(b2);
    assert Inorder(x) == Inorder(ps) + [pv] + Inorder(c);
    assert Inorder(t) == Inorder(x) + [gv] + Inorder(a);
    assert Inorder(t') == Inorder(ps) + [pv] + Inorder(b1) + [cv] + (Inorder(b2) + [gv] + Inorder(a));
    Regroup(Inorder(ps), pv, Inorder(b1), cv, Inorder(b2), gv, Inorder(a));
    if BlackHeight(t) >= 0 {
      assert BlackHeight(x) >= 0 && BlackHeight(a) == BlackHeight(x);
      assert BlackHeight(c) >= 0 && BlackHeight(ps) == BlackHeight(c);
      assert BlackHeight(y) == BlackHeight(c) && BlackHeight(z) == BlackHeight(c);
    }
  }

  /** Its mirror image. */
  lemma ZigZagR(a: Tree, ps: Tree, b1: Tree, b2: Tree, gv: int, pv: int, cv: int)
    ensures var t := Node(Black, a, gv, Node(Red, Node(Red, b1, cv, b2), pv, ps));
            var t' := Node(Black, Node(Red, a, gv, b1), cv, Node(Red, b2, pv, ps));
            Inorder(t') == Inorder(t) && (BlackHeight(t) >= 0 ==> BlackHeight(t') == BlackHeight(t))
  {
    var c := Node(Red, b1, cv, b2);
    var x := Node(Red, c, pv, ps);
    var t := Node(Black, a, gv, x);
    var y, z := Node(Red, a, gv, b1), Node(Red, b2, pv, ps);
    var t' := Node(Black, y, cv, z);
    var A, P, B1, B2 := Inorder(a), Inorder(ps), Inorder(b1), Inorder(b2);
    assert Inorder(c) == B1 + [cv] + B2;
    assert Inorder(x) == Inorder(c) + [pv] + P;
    assert Inorder(t) == A + [gv] + Inorder(x);
    assert Inorder(t') == A + [gv] + B1 + [cv] + (B2 + [pv] + P);
    assert B1 + [cv] + B2 + [pv] + P == B1 + [cv] + (B2 + [pv] + P);
    Regroup(A, gv, B1, cv, B2, pv, P);
    if BlackHeight(t) >= 0 {
      assert BlackHeight(x) >= 0 && BlackHeight(a) == BlackHeight(x);
      assert BlackHeight(c) >= 0 && BlackHeight(ps) == BlackHeight(c);
      assert BlackHeight(y) == BlackHeight(c) && BlackHeight(z) == BlackHeight(c);
    }
  }

  lemma RotateLocal(g: Frame, p: Frame, child: Tree)
    requires RedPair(g, p, child) && !(g.sibling.Node? && g.sibling.color == Red)
    ensures Inorder(Rotate(g, p, child)) == Inorder(Attach(g, Attach(p, child)))
    ensures BlackHeight(Attach(g, Attach(p, child))) >= 0 ==>
              BlackHeight(Rotate(g, p, child)) == BlackHeight(Attach(g, Attach(p, child)))
    ensures Rotate(g, p, child).color == Black && !RedViolation(Black, Rotate(g, p, child))
  {
    if g.dir == p.dir {
      RotateStraight(g, p, child);
    } else {
      RotateBent(g, p, child);
    }
  }

  /** Child and parent on the same side: one rotation at the grandparent. */
  lemma RotateStraight(g: Frame, p: Frame, child: Tree)
    requires RedPair(g, p, child) && !(g.sibling.Node? && g.sibling.color == Red)
    requires g.dir == p.dir
    ensures Inorder(Rotate(g, p, child)) == Inorder(Attach(g, Attach(p, child)))
    ensures BlackHeight(Attach(g, Attach(p, child))) >= 0 ==>
              BlackHeight(Rotate(g, p, child)) == BlackHeight(Attach(g, Attach(p, child)))
    ensures Rotate(g, p, child).color == Black && !RedViolation(Black, Rotate(g, p, child))
  {
    var a, ps := g.sibling, p.sibling;
    RedMono(Black, ps);
    NotRedOk(a);
    var t, t' := Attach(g, Attach(p, child)), Rotate(g, p, child);
    if g.dir == L {
      assert t == Node(Black, Node(Red, child, p.val, ps), g.val, a);
      assert t' == Node(Black, child, p.val, Node(Red, ps, g.val, a));
    } else {
      assert t == Node(Black, a, g.val, Node(Red, ps, p.val, child));
      assert t' == Node(Black, Node(Red, a, g.val, ps), p.val, child);
    }
  }

  /** Child and parent on opposite sides: the child rises two levels. */
  lemma RotateBent(g: Frame, p: Frame, child: Tree)
    requires RedPair(g, p, child) && !(g.sibling.Node? && g.sibling.color == Red)
    requires g.dir != p.dir
    ensures Inorder(Rotate(g, p, child)) == Inorder(Attach(g, Attach(p, child)))
    ensures BlackHeight(Attach(g, Attach(p, child))) >= 0 ==>
              BlackHeight(Rotate(g, p, child)) == BlackHeight(Attach(g, Attach(p, child)))
    ensures Rotate(g, p, child).color == Black && !RedViolation(Black, Rotate(g, p, child))
  {
    var a, ps, b1, cv, b2 := g.sibling, p.sibling, child.left, child.val, child.right;
    RedMono(Black, ps);
    NotRedOk(a);
    RedMono(Red, b1);
    RedMono(Red, b2);
    var t, t' := Attach(g, Attach(p, child)), Rotate(g, p, child);
    if g.dir == L {
      ZigZagL(a, ps, b1, b2, g.val, p.val, cv);
      assert t == Node(Black, Node(Red, ps, p.val, Node(Red, b1, cv, b2)), g.val, a);
      assert t' == Node(Black, Node(Red, ps, p.val, b1), cv, Node(Red, b2, g.val, a));
    } else {
      ZigZagR(a, ps, b1, b2, g.val, p.val, cv);
      assert t == Node(Black, a, g.val, Node(Red, Node(Red, b1, cv, b2), p.val, ps));
      assert t' == Node(Black, Node(Red, a, g.val, b1), cv, Node(Red, b2, p.val, ps));
    }
  }

  /** Putting v as a red leaf where the walk stopped starts the rebalancing loop in its invariant. */
  lemma LeafRises(root: Tree, path: seq<Frame>, v: int)
    requires IsSane(root) && Plug(Nil, path) == root && Fits(path, v)
    ensures Rising(Node(Red, Nil, v, Nil), path, Elements(root) + {v})
  {
    var leaf := Node(Red, Nil, v, Nil);
    SaneOrdered(root);
    OrderedPlug(Nil, path);
    OrderedPlug(leaf, path);
    ElementsPlug(Nil, path);
    ElementsPlug(leaf, path);
    HeightPlug(Nil, path);
    HeightPlug(leaf, path);
    RedPlug(Black, Nil, path);
    if |path| > 0 {
      assert root.color == path[0].color;
    }
  }

  /** The loop stops when the child is the root or the root's child, or its parent is black. */
  lemma StopSettles(child: Tree, path: seq<Frame>, values: set<int>)
    requires Rising(child, path, values) && (|path| <= 1 || path[|path| - 1].color == Black)
    ensures Settled(Plug(child, path), values)
  {
    RedPlug(Black, child, path);
  }

  /** With a red parent, the grandparent exists and is black, and its subtree is what the loop rewrites. */
  lemma Grandparent(child: Tree, path: seq<Frame>, values: set<int>)
    requires Rising(child, path, values) && |path| >= 2 && path[|path| - 1].color == Red
    ensures var p, g, pre := path[|path| - 1], path[|path| - 2], path[..|path| - 2];
            RedPair(g, p, child) &&
            Plug(child, path) == Plug(Attach(g, Attach(p, child)), pre) &&
            FramesOk(Black, pre) && (|pre| > 0 ==> pre[0].color == Black) &&
            PlugHeight(pre, BlackHeight(Attach(g, Attach(p, child)))) >= 0
  {
    var p, g, pre := path[|path| - 1], path[|path| - 2], path[..|path| - 2];
    assert path == pre + [g] + [p];
    PlugAppend(child, pre + [g], p);
    PlugAppend(Attach(p, child), pre, g);
    FramesOkAppend(Black, pre + [g], p);
    FramesOkAppend(Black, pre, g);
    HeightPlug(Attach(g, Attach(p, child)), pre);
    if |pre| > 0 {
      assert pre[0] == path[0];
    }
  }

  lemma RecolorRises(child: Tree, path: seq<Frame>, values: set<int>)
    requires Rising(child, path, values) && |path| >= 2 && path[|path| - 1].color == Red
    requires path[|path| - 2].sibling.Node? && path[|path| - 2].sibling.color == Red
    ensures Rising(Recolor(path[|path| - 2], path[|path| - 1], child), path[..|path| - 2], values)
  {
    var p, g, pre := path[|path| - 1], path[|path| - 2], path[..|path| - 2];
    Grandparent(child, path, values);
    var t, t' := Attach(g, Attach(p, child)), Recolor(g, p, child);
    RecolorLocal(g, p, child);
    SameInorder(t, t', pre);
    HeightPlug(t, pre);
    HeightPlug(t', pre);
    PlugHeightBalanced(pre, BlackHeight(t));
  }

  lemma RotateSettles(child: Tree, path: seq<Frame>, values: set<int>)
    requires Rising(child, path, values) && |path| >= 2 && path[|path| - 1].color == Red
    requires !(path[|path| - 2].sibling.Node? && path[|path| - 2].sibling.color == Red)
    ensures Settled(Plug(Rotate(path[|path| - 2], path[|path| - 1], child), path[..|path| - 2]), values)
  {
    var p, g, pre := path[|path| - 1], path[|path| - 2], path[..|path| - 2];
    Grandparent(child, path, values);
    var t, t' := Attach(g, Attach(p, child)), Rotate(g, p, child);
    RotateLocal(g, p, child);
    SameInorder(t, t', pre);
    HeightPlug(t, pre);
    HeightPlug(t', pre);
    PlugHeightBalanced(pre, BlackHeight(t));
    RedPlug(Black, t', pre);
    NotRedOk(t');
  }

  /** Making the root black keeps every other check and settles the root's own. */
  lemma BlackenSettled(t: Tree, values: set<int>)
    requires Settled(t, values)
    ensures Settled(Blacken(t), values)
  {
    BlackenOk(Black, t, Black);
  }

  /**
   * insert's rebalancing loop and the final blackening of the root:
   * from a red child that may have a red parent to a tree passing every
   * check of isSane, with the same values.
   */
  method InsertFixup(leaf: Tree, start: seq<Frame>, ghost values: set<int>) returns (t: Tree)
    requires Rising(leaf, start, values)
    ensures Settled(t, values) && t.Node? && t.color == Black
  {
    var child, path := leaf, start;
    while true
      invariant Rising(child, path, values)
      decreases |path|
    {
      if |path| <= 1 || path[|path| - 1].color == Black {
        StopSettles(child, path, values);
        break;
      }
      var p, g := path[|path| - 1], path[|path| - 2];
      if g.sibling.Node? && g.sibling.color == Red {
        RecolorRises(child, path, values);
        child, path := Recolor(g, p, child), path[..|path| - 2];
      } else {
        // the next pass would stop at the parent, now black
        RotateSettles(child, path, values);
        child, path := Rotate(g, p, child), path[..|path| - 2];
        break;
      }
    }
    t := Plug(child, path);
    BlackenSettled(t, values);
    t := Blacken(t);
  }

  // ---------------------------------------------------------------------
  // remove

  /** A single rotation keeps the values' order, whatever the colours. */
  lemma RotateInorder(c1: Color, c2: Color, c3: Color, c4: Color, a: Tree, x: int, b: Tree, y: int, c: Tree)
    ensures Inorder(Node(c1, Node(c2, a, x, b), y, c)) == Inorder(Node(c3, a, x, Node(c4, b, y, c)))
  {
    assert Inorder(Node(c1, Node(c2, a, x, b), y, c)) == Inorder(a) + [x] + Inorder(b) + [y] + Inorder(c);
  }

  /** The walk down the left edge of a subtree to its leftmost node. */
  method Leftmost(sub: Tree) returns (lm: Tree, path: seq<Frame>)
    requires sub.Node?
    ensures Plug(lm, path) == sub && lm.Node? && lm.left.Nil?
    ensures forall i :: 0 <= i < |path| ==> path[i].dir == L
  {
    lm, path := sub, [];
    while lm.left.Node?
      invariant Plug(lm, path) == sub && lm.Node?
      invariant forall i :: 0 <= i < |path| ==> path[i].dir == L
      decreases lm
    {
      var f := Frame(lm.color, lm.val, L, lm.right);
      PlugAppend(lm.left, path, f);
      path := path + [f];
      lm := lm.left;
    }
  }

  /** Below a path that only goes left, a value that fits it is smaller than everything on and beside it. */
  lemma {:induction false} LeftPathAbove(path: seq<Frame>, x: int)
    requires PathOrdered(path) && Fits(path, x)
    requires forall i :: 0 <= i < |path| ==> path[i].dir == L
    ensures forall e :: e in PathElements(path) ==> x < e
    decreases |path|
  {
    if |path| > 0 {
      assert Fits(path[1..], x) by {
        forall i | 0 <= i < |path| - 1
          ensures Side(path[1..][i].dir, x, path[1..][i].val)
        {
          assert path[1..][i] == path[i + 1];
        }
      }
      assert Side(path[0].dir, x, path[0].val);
      LeftPathAbove(path[1..], x);
    }
  }

  /** The leftmost node of a search tree holds its least value. */
  lemma LeftmostLeast(lm: Tree, path: seq<Frame>)
    requires Ordered(Plug(lm, path)) && lm.Node? && lm.left.Nil?
    requires forall i :: 0 <= i < |path| ==> path[i].dir == L
    ensures forall e :: e in Elements(Plug(lm, path)) ==> lm.val <= e
  {
    OrderedPlug(lm, path);
    ElementsPlug(lm, path);
    LeftPathAbove(path, lm.val);
  }

  /** Replacing a subtree of a search tree by an ordered one holding the same values but v removes v from the whole. */
  lemma RemoveBelow(x: Tree, n: Tree, path: seq<Frame>, v: int)
    requires Ordered(Plug(x, path)) && Ordered(n) && v in Elements(x) && Elements(n) == Elements(x) - {v}
    ensures Ordered(Plug(n, path)) && Elements(Plug(n, path)) == Elements(Plug(x, path)) - {v}
  {
    OrderedPlug(x, path);
    OrderedPlug(n, path);
    ElementsPlug(x, path);
    ElementsPlug(n, path);
    OffPath(path, v);
  }

  /**
   * Splicing out a node with at most one child, by putting that child in
   * its place, removes its value and keeps the order.
   */
  lemma SpliceOut(y: Tree, path: seq<Frame>)
    requires Ordered(Plug(y, path)) && y.Node? && (y.left.Nil? || y.right.Nil?)
    ensures var child := if y.left.Node? then y.left else y.right;
            Ordered(Plug(child, path)) && Elements(Plug(child, path)) == Elements(Plug(y, path)) - {y.val}
  {
    var child := if y.left.Node? then y.left else y.right;
    OrderedPlug(y, path);
    RemoveBelow(y, child, path, y.val);
  }

  /** The set reasoning of CopyLocal: the right subtree's least value can stand between the two sides. */
  lemma CopySets(left: set<int>, v: int, right: set<int>, m: int, rest: set<int>)
    requires forall e :: e in left ==> e < v
    requires forall e :: e in right ==> v < e
    requires m in right && (forall e :: e in right ==> m <= e) && rest == right - {m}
    ensures forall e :: e in left ==> e < m
    ensures forall e :: e in rest ==> m < e
    ensures left + {m} + rest == (left + {v} + right) - {v}
  {
  }

  /** x with its value replaced by the least value of its right subtree, and that value's node spliced out. */
  lemma CopyLocal(x: Tree, lm: Tree, lpath: seq<Frame>)
    requires Ordered(x) && x.Node? && Plug(lm, lpath) == x.right
    requires lm.Node? && lm.left.Nil? && forall i :: 0 <= i < |lpath| ==> lpath[i].dir == L
    ensures var n := Node(x.color, x.left, lm.val, Plug(lm.right, lpath));
            Ordered(n) && Elements(n) == Elements(x) - {x.val}
  {
    var rest := Plug(lm.right, lpath);
    LeftmostLeast(lm, lpath);
    SpliceOut(lm, lpath);
    ElementsPlug(lm, lpath);
    CopySets(Elements(x.left), x.val, Elements(x.right), lm.val, Elements(rest));
  }

  /**
   * The node remove splices out: the one holding v, or, when that has two
   * children, the leftmost node of its right subtree, whose value is
   * first copied into it.
   */
  lemma CopyLeftmost(x: Tree, path: seq<Frame>, lm: Tree, lpath: seq<Frame>)
    requires Ordered(Plug(x, path)) && x.Node? && Plug(lm, lpath) == x.right
    requires lm.Node? && lm.left.Nil? && forall i :: 0 <= i < |lpath| ==> lpath[i].dir == L
    ensures var ypath := path + [Frame(x.color, lm.val, R, x.left)] + lpath;
            Ordered(Plug(lm.right, ypath)) &&
            Elements(Plug(lm.right, ypath)) == Elements(Plug(x, path)) - {x.val}
  {
    var f := Frame(x.color, lm.val, R, x.left);
    var rest := Plug(lm.right, lpath);
    var n := Attach(f, rest);
    assert n == Node(x.color, x.left, lm.val, rest);
    PlugConcat(lm.right, path + [f], lpath);
    PlugAppend(rest, path, f);
    OrderedPlug(x, path);
    CopyLocal(x, lm, lpath);
    RemoveBelow(x, n, path, x.val);
  }

  /**
   * The state of remove's rebalancing loop.  `focus` is the subtree at
   * curr's place: curr itself or, while curr is still the spliced-out
   * node (`detached`), the child that took its place; `color` is curr's
   * colour.  The tree holds `values` in order; the subtree at curr's
   * place is one black short of its sibling's black height, unless curr
   * is a detached red node; and no red violation is left once curr is
   * made black.
   */
  ghost predicate Sinking(focus: Tree, path: seq<Frame>, color: Color, detached: bool, values: set<int>)
  {
    var t := Plug(focus, path);
    var short := if detached && color == Red then 0 else 1;
    Ordered(t) && Elements(t) == values &&
    BlackHeight(focus) >= 0 && PlugHeight(path, BlackHeight(focus) + short) >= 0 &&
    FramesOk(Black, path) &&
    !RedViolation(LastColor(Black, path), if detached then focus else Blacken(focus)) &&
    (!detached ==> focus.Node? && focus.color == color) &&
    (color == Black || (|path| == 0 && detached) ==> !(focus.Node? && focus.color == Red)) &&
    (|path| > 0 ==> path[0].color == Black)
  }

  /**
   * After the splice: when the spliced node was black and its child red,
   * the child turns black and the spliced node red (which stops the loop
   * at once); otherwise the loop starts at the spliced node.
   */
  lemma ExtractSinks(root: Tree, y: Tree, ypath0: seq<Frame>, ypath: seq<Frame>, values: set<int>)
    requires IsSane(root) && Plug(y, ypath0) == root && SameShape(ypath0, ypath)
    requires y.Node? && (y.left.Nil? || y.right.Nil?)
    requires var child := if y.left.Node? then y.left else y.right;
             Ordered(Plug(child, ypath)) && Elements(Plug(child, ypath)) == values
    ensures var child := if y.left.Node? then y.left else y.right;
            var fix := y.color == Black && child.Node? && child.color == Red;
            Sinking(if fix then Blacken(child) else child, ypath, if fix then Red else y.color, true, values)
  {
    var child := if y.left.Node? then y.left else y.right;
    HeightPlug(y, ypath0);
    PlugHeightBalanced(ypath0, BlackHeight(y));
    RedPlug(Black, y, ypath0);
    SameShapeChecks(Black, ypath0, ypath, BlackHeight(y));
    if |ypath0| > 0 {
      assert root.color == ypath0[0].color;
    }
    assert BlackHeight(child) == 0;
    if y.color == Black && child.Node? && child.color == Red {
      BlackenOk(Black, child, LastColor(Black, ypath));
      SameInorder(child, Blacken(child), ypath);
    }
  }

  /** With curr black and below a parent, its sibling is a node one black higher than curr's subtree. */
  lemma Sibling(focus: Tree, path: seq<Frame>, detached: bool, values: set<int>)
    requires Sinking(focus, path, Black, detached, values) && |path| > 0
    ensures var p, pre := path[|path| - 1], path[..|path| - 1];
            var h := BlackHeight(focus);
            p.sibling.Node? && BlackHeight(p.sibling) == h + 1 &&
            Plug(focus, path) == Plug(Attach(p, focus), pre) &&
            PlugHeight(pre, h + 1 + (if p.color == Black then 1 else 0)) >= 0 &&
            FramesOk(Black, pre) && !(LastColor(Black, pre) == Red && p.color == Red) &&
            !RedViolation(p.color, p.sibling) && !RedViolation(Black, focus) &&
            !(focus.Node? && focus.color == Red) &&
            (|pre| > 0 ==> pre[0].color == Black) && (|pre| == 0 ==> p.color == Black)
  {
    var p, pre := path[|path| - 1], path[..|path| - 1];
    var h := BlackHeight(focus);
    assert path == pre + [p];
    PlugAppend(focus, pre, p);
    PlugHeightAppend(pre, p, h + 1);
    PlugHeightBalanced(pre, if h + 1 >= 0 && BlackHeight(p.sibling) == h + 1 then h + 1 + (if p.color == Black then 1 else 0) else -1);
    FramesOkAppend(Black, pre, p);
    RedMono(p.color, focus);
    if |pre| > 0 {
      assert pre[0] == path[0];
    }
  }

  /**
   * The red-sibling case: parent and sibling swap colours and the
   * sibling is rotated above the parent, so that curr keeps its place,
   * one level deeper, now with a black sibling (its former near nephew).
   */
  function PromoteSibling(path: seq<Frame>): seq<Frame>
    requires |path| > 0 && path[|path| - 1].sibling.Node?
  {
    var p, pre := path[|path| - 1], path[..|path| - 1];
    var s, c := p.sibling, p.dir;
    pre + [Frame(Black, s.val, c, Child(s, Flip(c))), Frame(Red, p.val, c, Child(s, c))]
  }

  lemma PromoteLocal(p: Frame, focus: Tree)
    requires p.sibling.Node? && p.sibling.color == Red
    ensures var s, c := p.sibling, p.dir;
            Inorder(Attach(Frame(Black, s.val, c, Child(s, Flip(c))), Attach(Frame(Red, p.val, c, Child(s, c)), focus))) ==
            Inorder(Attach(p, focus))
  {
    var s := p.sibling;
    if p.dir == L {
      RotateInorder(Black, Red, p.color, Red, focus, p.val, s.left, s.val, s.right);
    } else {
      RotateInorder(p.color, Red, Black, Red, s.left, s.val, s.right, p.val, focus);
    }
  }

  lemma PromoteKeeps(focus: Tree, path: seq<Frame>, detached: bool, values: set<int>)
    requires Sinking(focus, path, Black, detached, values) && |path| > 0
    requires path[|path| - 1].sibling.Node? && path[|path| - 1].sibling.color == Red
    ensures Sinking(focus, PromoteSibling(path), Black, detached, values)
  {
    Sibling(focus, path, detached, values);
    var p, pre := path[|path| - 1], path[..|path| - 1];
    var s, c := p.sibling, p.dir;
    var sf := Frame(Black, s.val, c, Child(s, Flip(c)));
    var pf := Frame(Red, p.val, c, Child(s, c));
    var h := BlackHeight(focus);
    assert PromoteSibling(path) == pre + [sf] + [pf];
    PlugAppend(focus, pre + [sf], pf);
    PlugAppend(Attach(pf, focus), pre, sf);
    PromoteLocal(p, focus);
    SameInorder(Attach(p, focus), Attach(sf, Attach(pf, focus)), pre);
    assert BlackHeight(Child(s, c)) == h + 1 && BlackHeight(Child(s, Flip(c))) == h + 1;
    PlugHeightAppend(pre + [sf], pf, h + 1);
    PlugHeightAppend(pre, sf, h + 1);
    FramesOkAppend(Black, pre + [sf], pf);
    FramesOkAppend(Black, pre, sf);
    NotRedOk(focus);
    RedMono(Red, Child(s, Flip(c)));
    if |pre| > 0 {
      assert (pre + [sf] + [pf])[0] == pre[0];
    }
  }

  /**
   * The far-nephew case: the sibling rises above the parent and takes the
   * parent's colour; parent and far nephew become black.
   */
  function RotateFar(p: Frame, focus: Tree): Tree
    requires p.sibling.Node?
  {
    var s, c := p.sibling, p.dir;
    Make(p.color, c, Make(Black, c, focus, p.val, Child(s, c)), s.val, Blacken(Child(s, Flip(c))))
  }

  lemma FarLocal(p: Frame, focus: Tree)
    requires p.sibling.Node? && p.sibling.color == Black
    requires Child(p.sibling, Flip(p.dir)).Node? && Child(p.sibling, Flip(p.dir)).color == Red
    requires BlackHeight(focus) >= 0 && BlackHeight(p.sibling) == BlackHeight(focus) + 1
    requires !RedViolation(Black, focus) && !RedViolation(p.color, p.sibling)
    ensures Inorder(RotateFar(p, focus)) == Inorder(Attach(p, focus))
    ensures BlackHeight(RotateFar(p, focus)) == BlackHeight(focus) + 1 + (if p.color == Black then 1 else 0)
    ensures RotateFar(p, focus).color == p.color && !RedViolation(Black, RotateFar(p, focus))
  {
    var s := p.sibling;
    var far := Child(s, Flip(p.dir));
    assert Inorder(Blacken(far)) == Inorder(far);
    BlackenOk(Black, far, p.color);
    if p.dir == L {
      RotateInorder(p.color, Black, p.color, Black, focus, p.val, s.left, s.val, s.right);
    } else {
      RotateInorder(p.color, Black, p.color, Black, s.left, s.val, s.right, p.val, focus);
    }
  }

  lemma FarSettles(focus: Tree, path: seq<Frame>, detached: bool, values: set<int>)
    requires Sinking(focus, path, Black, detached, values) && |path| > 0
    requires var p := path[|path| - 1];
             p.sibling.Node? && p.sibling.color == Black &&
             Child(p.sibling, Flip(p.dir)).Node? && Child(p.sibling, Flip(p.dir)).color == Red
    ensures var t := Plug(RotateFar(path[|path| - 1], focus), path[..|path| - 1]);
            Settled(t, values) && t.Node? && t.color == Black
  {
    Sibling(focus, path, detached, values);
    var p, pre := path[|path| - 1], path[..|path| - 1];
    var t' := RotateFar(p, focus);
    FarLocal(p, focus);
    SameInorder(Attach(p, focus), t', pre);
    HeightPlug(t', pre);
    RedPlug(Black, t', pre);
  }

  /**
   * The near-nephew case, first half: the near nephew is rotated above
   * the sibling and they swap colours, so that the far nephew is red.
   */
  function TurnSibling(p: Frame): Tree
    requires p.sibling.Node? && Child(p.sibling, p.dir).Node?
  {
    var s, c := p.sibling, p.dir;
    var n := Child(s, c);
    Make(Black, Flip(c), Make(Red, c, Child(n, Flip(c)), s.val, Child(s, Flip(c))), n.val, Child(n, c))
  }

  lemma TurnLocal(p: Frame)
    requires p.sibling.Node? && p.sibling.color == Black && BlackHeight(p.sibling) >= 1
    requires Child(p.sibling, p.dir).Node? && Child(p.sibling, p.dir).color == Red
    requires !(Child(p.sibling, Flip(p.dir)).Node? && Child(p.sibling, Flip(p.dir)).color == Red)
    requires !RedViolation(p.color, p.sibling)
    ensures Inorder(TurnSibling(p)) == Inorder(p.sibling)
    ensures BlackHeight(TurnSibling(p)) == BlackHeight(p.sibling)
    ensures !RedViolation(p.color, TurnSibling(p))
    ensures var far := Child(TurnSibling(p), Flip(p.dir)); far.Node? && far.color == Red
  {
    var s := p.sibling;
    var n := Child(s, p.dir);
    NotRedOk(Child(s, Flip(p.dir)));
    RedMono(Red, n.left);
    RedMono(Red, n.right);
    if p.dir == L {
      RotateInorder(Black, Red, Black, Red, s.left.left, s.left.val, s.left.right, s.val, s.right);
    } else {
      RotateInorder(Black, Red, Black, Red, s.left, s.val, s.right.left, s.right.val, s.right.right);
    }
  }

  lemma NearTurns(focus: Tree, path: seq<Frame>, detached: bool, values: set<int>)
    requires Sinking(focus, path, Black, detached, values) && |path| > 0
    requires var p := path[|path| - 1];
             p.sibling.Node? && p.sibling.color == Black &&
             !(Child(p.sibling, Flip(p.dir)).Node? && Child(p.sibling, Flip(p.dir)).color == Red) &&
             Child(p.sibling, p.dir).Node? && Child(p.sibling, p.dir).color == Red
    ensures var p, pre := path[|path| - 1], path[..|path| - 1];
            var p' := p.(sibling := TurnSibling(p));
            Sinking(focus, pre + [p'], Black, detached, values) &&
            Child(p'.sibling, Flip(p'.dir)).Node? && Child(p'.sibling, Flip(p'.dir)).color == Red &&
            p'.sibling.color == Black
  {
    Sibling(focus, path, detached, values);
    var p, pre := path[|path| - 1], path[..|path| - 1];
    var p' := p.(sibling := TurnSibling(p));
    TurnLocal(p);
    PlugAppend(focus, pre, p');
    if p.dir == L {
      assert Inorder(Attach(p', focus)) == Inorder(focus) + [p.val] + Inorder(p'.sibling);
      assert Inorder(Attach(p, focus)) == Inorder(focus) + [p.val] + Inorder(p.sibling);
    } else {
      assert Inorder(Attach(p', focus)) == Inorder(p'.sibling) + [p.val] + Inorder(focus);
      assert Inorder(Attach(p, focus)) == Inorder(p.sibling) + [p.val] + Inorder(focus);
    }
    SameInorder(Attach(p, focus), Attach(p', focus), pre);
    PlugHeightAppend(pre, p', BlackHeight(focus) + 1);
    FramesOkAppend(Black, pre, p');
    if |pre| > 0 {
      assert (pre + [p'])[0] == pre[0];
    }
  }

  /** The near-nephew case, whole: turn the sibling, then rotate as in the far-nephew case. */
  lemma NearSettles(focus: Tree, path: seq<Frame>, detached: bool, values: set<int>)
    requires Sinking(focus, path, Black, detached, values) && |path| > 0
    requires var p := path[|path| - 1];
             p.sibling.Node? && p.sibling.color == Black &&
             !(Child(p.sibling, Flip(p.dir)).Node? && Child(p.sibling, Flip(p.dir)).color == Red) &&
             Child(p.sibling, p.dir).Node? && Child(p.sibling, p.dir).color == Red
    ensures var p, pre := path[|path| - 1], path[..|path| - 1];
            var t := Plug(RotateFar(p.(sibling := TurnSibling(p)), focus), pre);
            Settled(t, values) && t.Node? && t.color == Black
  {
    var p, pre := path[|path| - 1], path[..|path| - 1];
    var p' := p.(sibling := TurnSibling(p));
    NearTurns(focus, path, detached, values);
    FarSettles(focus, pre + [p'], detached, values);
    assert (pre + [p'])[..|path| - 1] == pre;
  }

  /**
   * The case with both nephews black: the sibling turns red and curr
   * moves up to the parent, whose subtree is now the one that is short.
   */
  lemma MoveUpSinks(focus: Tree, path: seq<Frame>, detached: bool, values: set<int>)
    requires Sinking(focus, path, Black, detached, values) && |path| > 0
    requires var p := path[|path| - 1];
             p.sibling.Node? && p.sibling.color == Black &&
             !(Child(p.sibling, Flip(p.dir)).Node? && Child(p.sibling, Flip(p.dir)).color == Red) &&
             !(Child(p.sibling, p.dir).Node? && Child(p.sibling, p.dir).color == Red)
    ensures var p := path[|path| - 1];
            Sinking(Make(p.color, p.dir, focus, p.val, Redden(p.sibling)), path[..|path| - 1], p.color, false, values)
  {
    Sibling(focus, path, detached, values);
    var p, pre := path[|path| - 1], path[..|path| - 1];
    var s := p.sibling;
    var up := Make(p.color, p.dir, focus, p.val, Redden(s));
    assert Inorder(Redden(s)) == Inorder(s);
    if p.dir == L {
      assert Inorder(up) == Inorder(focus) + [p.val] + Inorder(s);
    } else {
      assert Inorder(up) == Inorder(s) + [p.val] + Inorder(focus);
    }
    SameInorder(Attach(p, focus), up, pre);
    NotRedOk(s.left);
    NotRedOk(s.right);
    assert BlackHeight(Redden(s)) == BlackHeight(focus);
  }

  /** When the loop stops, making curr black leaves a valid tree. */
  lemma SinkStops(focus: Tree, path: seq<Frame>, color: Color, detached: bool, values: set<int>)
    requires Sinking(focus, path, color, detached, values) && (|path| == 0 || color == Red)
    ensures var t := Plug(if detached then focus else Blacken(focus), path);
            Settled(t, values) && (t.Nil? || t.color == Black)
  {
    var e := if detached then focus else Blacken(focus);
    if !detached {
      assert Inorder(Blacken(focus)) == Inorder(focus);
      SameInorder(focus, e, path);
    }
    HeightPlug(e, path);
    RedPlug(Black, e, path);
  }

  /**
   * The rebalancing loop of remove.  The spliced-out node's place is
   * `start`; each pass either stops (curr red or at the root), rotates
   * and returns (a red nephew), or moves curr up; a red sibling is first
   * rotated above the parent.  Finally curr is made black.
   */
  method RemoveFixup(start: Tree, startPath: seq<Frame>, startColor: Color, ghost values: set<int>) returns (t: Tree)
    requires Sinking(start, startPath, startColor, true, values)
    ensures Settled(t, values) && (t.Nil? || t.color == Black)
  {
    var focus, path, color, detached := start, startPath, startColor, true;
    while |path| > 0 && color == Black
      invariant Sinking(focus, path, color, detached, values)
      decreases |path| + (if color == Black then 1 else 0)
    {
      Sibling(focus, path, detached, values);
      if path[|path| - 1].sibling.color == Red {
        PromoteKeeps(focus, path, detached, values);
        path := PromoteSibling(path);
        Sibling(focus, path, detached, values);
      }
      var p, pre := path[|path| - 1], path[..|path| - 1];
      var far := Child(p.sibling, Flip(p.dir));
      if far.Node? && far.color == Red {
        FarSettles(focus, path, detached, values);
        t := Plug(RotateFar(p, focus), pre);
        return;
      }
      var near := Child(p.sibling, p.dir);
      if near.Node? && near.color == Red {
        NearSettles(focus, path, detached, values);
        p := p.(sibling := TurnSibling(p));
        t := Plug(RotateFar(p, focus), pre);
        return;
      }
      MoveUpSinks(focus, path, detached, values);
      focus, path, color, detached := Make(p.color, p.dir, focus, p.val, Redden(p.sibling)), pre, p.color, false;
    }
    SinkStops(focus, path, color, detached, values);
    t := Plug(if detached then focus else Blacken(focus), path);
  }

  /** A settled tree of ints with a black root passes the sanity check. */
  lemma SettledSane(t: Tree, values: set<int>)
    requires Settled(t, values) && (t.Nil? || t.color == Black)
    requires forall x :: x in values ==> INT_MIN <= x <= INT_MAX
    ensures IsSane(t)
  {
    SaneOrdered(t);
  }

  /** Changing one frame's value keeps a path's shape. */
  lemma SwapShape(a: seq<Frame>, f: Frame, g: Frame, b: seq<Frame>)
    requires f.color == g.color && f.dir == g.dir && f.sibling == g.sibling
    ensures SameShape(a + [f] + b, a + [g] + b)
  {
    var s, t := a + [f] + b, a + [g] + b;
    forall i | 0 <= i < |s|
      ensures s[i].color == t[i].color && s[i].dir == t[i].dir && s[i].sibling == t[i].sibling
    {
      if i < |a| {
        assert s[i] == a[i] == t[i];
      } else if i > |a| {
        assert s[i] == b[i - |a| - 1] == t[i];
      }
    }
  }

  /** Where the copied value came from: the leftmost node's place in the tree before the copy. */
  lemma LeftmostPlace(x: Tree, path: seq<Frame>, lm: Tree, lpath: seq<Frame>)
    requires x.Node? && lm.Node? && Plug(lm, lpath) == x.right
    ensures Plug(lm, path + [Frame(x.color, x.val, R, x.left)] + lpath) == Plug(x, path)
  {
    var f := Frame(x.color, x.val, R, x.left);
    PlugConcat(lm, path + [f], lpath);
    PlugAppend(x.right, path, f);
  }

  /**
   * The benchmark's red-black tree of ints.  Parent pointers, child IDs
   * and the sentinel are implicit: the tree is the value `root`, and the
   * operations rebuild it the way the source's writes rewire it.
   */
  class RBTree {
    var root: Tree

    /** The source's isSane. */
    predicate Valid()
      reads this
    {
      IsSane(root)
    }

    ghost function Contents(): set<int>
      reads this
    {
      Elements(root)
    }

    constructor ()
      ensures Valid() && Contents() == {}
    {
      root := Nil;
    }

    method Lookup(v: int) returns (found: bool)
      ensures found ==> v in Contents()
      ensures Valid() ==> (found <==> v in Contents())
    {
      var focus, path := Descend(root, v);
      ElementsPlug(focus, path);
      if Valid() {
        SaneOrdered(root);
        DescendFinds(focus, path, v);
      }
      found := focus.Node?;
    }

    method Insert(v: int)
      requires Valid() && INT_MIN <= v <= INT_MAX
      modifies this
      ensures Valid() && Contents() == old(Contents()) + {v}
      ensures v in old(Contents()) ==> root == old(root)
    {
      SaneOrdered(root);
      var focus, path := Descend(root, v);
      DescendFinds(focus, path, v);
      if focus.Node? {
        return;
      }
      LeafRises(root, path, v);
      root := InsertFixup(Node(Red, Nil, v, Nil), path, Elements(root) + {v});
      SettledSane(root, old(Contents()) + {v});
    }

    method Remove(v: int)
      requires Valid()
      modifies this
      ensures Valid() && Contents() == old(Contents()) - {v}
      ensures v !in old(Contents()) ==> root == old(root)
    {
      SaneOrdered(root);
      var x, path := Descend(root, v);
      DescendFinds(x, path, v);
      if x.Nil? {
        return;
      }
      var y, ypath0, ypath := x, path, path;
      if x.left.Node? && x.right.Node? {
        var lm, lpath := Leftmost(x.right);
        CopyLeftmost(x, path, lm, lpath);
        LeftmostPlace(x, path, lm, lpath);
        SwapShape(path, Frame(x.color, x.val, R, x.left), Frame(x.color, lm.val, R, x.left), lpath);
        y := lm;
        ypath0 := path + [Frame(x.color, x.val, R, x.left)] + lpath;
        ypath := path + [Frame(x.color, lm.val, R, x.left)] + lpath;
      } else {
        SpliceOut(x, path);
      }
      var child := if y.left.Node? then y.left else y.right;
      ExtractSinks(root, y, ypath0, ypath, old(Contents()) - {v});
      var fix := y.color == Black && child.Node? && child.color == Red;
      root := RemoveFixup(if fix then Blacken(child) else child, ypath, if fix then Red else y.color, old(Contents()) - {v});
      SettledSane(root, old(Contents()) - {v});
    }

    method Modify(v: int)
      requires Valid() && INT_MIN <= v <= INT_MAX
      modifies this
      ensures Valid()
      ensures Contents() == if v in old(Contents()) then old(Contents()) - {v} else old(Contents()) + {v}
    {
      var found := Lookup(v);
      if found {
        Remove(v);
      } else {
        Insert(v);
      }
    }
  }
}
