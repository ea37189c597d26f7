/**
 * The red-black trees of the benchmark RBTree (rstm-dev/bench/Tree.hpp),
 * as values.  A node's parent pointer and child index (m_parent, m_ID)
 * are where the node sits in the tree; insert and remove walk down from
 * the root and then back up towards it, which the model does with the
 * path of nodes from the root to the current position (a zipper).
 */
module RBTrees {
  /** The bounds isSane checks the values against. */
  const INT_MIN: int := -0x8000_0000
  const INT_MAX: int := 0x7fff_ffff

  datatype Color = Red | Black

  /** RBNode without m_parent and m_ID. */
  datatype Tree = Nil | Node(color: Color, left: Tree, val: int, right: Tree)

  /** A child index: m_child[0] is L, m_child[1] is R. */
  datatype Dir = L | R

  /** 1 - ID */
  function Flip(d: Dir): (e: Dir)
    ensures e != d
  {
    if d == L then R else L
  }

  /** m_child[d] */
  function Child(t: Tree, d: Dir): Tree
    requires t.Node?
  {
    if d == L then t.left else t.right
  }

  /** A node of colour `c` holding `v` whose child `d` is `inner` and whose other child is `other`. */
  function Make(c: Color, d: Dir, inner: Tree, v: int, other: Tree): (t: Tree)
    ensures t.Node? && t.color == c && t.val == v && Child(t, d) == inner && Child(t, Flip(d)) == other
  {
    if d == L then Node(c, inner, v, other) else Node(c, other, v, inner)
  }

  function Blacken(t: Tree): Tree
  {
    if t.Nil? then Nil else t.(color := Black)
  }

  function Redden(t: Tree): Tree
  {
    if t.Nil? then Nil else t.(color := Red)
  }

  function Elements(t: Tree): set<int>
  {
    match t
    case Nil => {}
    case Node(_, l, v, r) => Elements(l) + {v} + Elements(r)
  }

  function Height(t: Tree): nat
  {
    match t
    case Nil => 0
    case Node(_, l, _, r) => 1 + if Height(l) < Height(r) then Height(r) else Height(l)
  }

  /** A binary search tree: every value on the left is smaller, every value on the right larger. */
  predicate Ordered(t: Tree)
  {
    match t
    case Nil => true
    case Node(_, l, v, r) =>
      Ordered(l) && Ordered(r) &&
      (forall x :: x in Elements(l) ==> x < v) && (forall x :: x in Elements(r) ==> v < x)
  }

  /** blackHeight: the number of black nodes on each path down, or -1 when two paths disagree. */
  function BlackHeight(t: Tree): (h: int)
    ensures h >= -1
  {
    match t
    case Nil => 0
    case Node(c, l, _, r) =>
      var bh0 := BlackHeight(l);
      var bh1 := BlackHeight(r);
      if bh0 >= 0 && bh1 == bh0 then (if c == Black then 1 + bh0 else bh0) else -1
  }

  /** redViolation: a red node in `t`, or `t` itself under a parent of colour `pc`, has a red parent. */
  predicate RedViolation(pc: Color, t: Tree)
    decreases t
  {
    match t
    case Nil => false
    case Node(c, l, _, r) => (pc == Red && c == Red) || RedViolation(c, l) || RedViolation(c, r)
  }

  /** A violation under a black parent is one under any parent, and one under any parent is one under a red parent. */
  lemma RedMono(pc: Color, t: Tree)
    ensures RedViolation(Black, t) ==> RedViolation(pc, t)
    ensures RedViolation(pc, t) ==> RedViolation(Red, t)
  {
  }

  /** A node that is not red has a violation under a red parent only if it has one under a black parent. */
  lemma NotRedOk(t: Tree)
    requires !(t.Node? && t.color == Red)
    ensures RedViolation(Red, t) == RedViolation(Black, t)
  {
  }

  /** Blackening a node that had no violation leaves none, whatever its parent. */
  lemma BlackenOk(pc: Color, t: Tree, qc: Color)
    requires !RedViolation(pc, t)
    ensures !RedViolation(qc, Blacken(t))
  {
    if t.Node? {
      RedMono(t.color, t.left);
      RedMono(t.color, t.right);
    }
  }

  /** inOrder: every value lies within the bounds, left subtrees below their node and right ones above. */
  predicate InOrder(t: Tree, lowerBound: int, upperBound: int)
  {
    match t
    case Nil => true
    case Node(_, l, v, r) =>
      lowerBound <= v && v <= upperBound && InOrder(l, lowerBound, v - 1) && InOrder(r, v + 1, upperBound)
  }

  /**
   * isSane: an empty tree, or a black root, equal black heights, no red
   * node with a red parent (the sentinel above the root is black) and
   * ordered ints.
   */
  predicate IsSane(root: Tree)
  {
    root.Nil? ||
    (root.color == Black && BlackHeight(root) >= 0 && !RedViolation(Black, root) &&
     InOrder(root, INT_MIN, INT_MAX))
  }

  /** inOrder's bounds check says exactly: a search tree whose values lie within the bounds. */
  lemma {:induction false} InOrderOrdered(t: Tree, lo: int, hi: int)
    ensures InOrder(t, lo, hi) <==> Ordered(t) && forall x :: x in Elements(t) ==> lo <= x <= hi
  {
    if t.Node? {
      var l, v, r := t.left, t.val, t.right;
      InOrderOrdered(l, lo, v - 1);
      InOrderOrdered(r, v + 1, hi);
      assert Elements(t) == Elements(l) + {v} + Elements(r);
      if InOrder(t, lo, hi) {
        assert forall x :: x in Elements(t) ==> lo <= x <= hi;
      }
      if Ordered(t) && forall x :: x in Elements(t) ==> lo <= x <= hi {
        assert forall x :: x in Elements(l) ==> lo <= x <= v - 1;
        assert forall x :: x in Elements(r) ==> v + 1 <= x <= hi;
      }
    }
  }

  /** A sane tree holds ints, in search-tree order. */
  lemma SaneOrdered(root: Tree)
    ensures IsSane(root) <==>
              root.Nil? ||
              (root.color == Black && BlackHeight(root) >= 0 && !RedViolation(Black, root) &&
               Ordered(root) && forall x :: x in Elements(root) ==> INT_MIN <= x <= INT_MAX)
  {
    InOrderOrdered(root, INT_MIN, INT_MAX);
  }

  /**
   * What the colour checks buy: with no red violation, no path is more
   * than twice as long as the black height (plus one for a red root).
   */
  lemma {:induction false} HeightBound(pc: Color, t: Tree)
    requires BlackHeight(t) >= 0 && !RedViolation(pc, t)
    ensures Height(t) <= 2 * BlackHeight(t) + (if t.Node? && t.color == Red then 1 else 0)
    decreases t
  {
    if t.Node? {
      HeightBound(t.color, t.left);
      HeightBound(t.color, t.right);
    }
  }

  /** A sane tree's height is at most twice its black height. */
  lemma SaneHeight(root: Tree)
    requires IsSane(root)
    ensures Height(root) <= 2 * BlackHeight(root)
  {
    if root.Node? {
      HeightBound(Black, root);
    }
  }

  /** The values in left-to-right order. */
  function Inorder(t: Tree): seq<int>
  {
    match t
    case Nil => []
    case Node(_, l, v, r) => Inorder(l) + [v] + Inorder(r)
  }

  predicate Increasing(s: seq<int>)
  {
    forall i, j :: 0 <= i < j < |s| ==> s[i] < s[j]
  }

  lemma IncreasingSplit(a: seq<int>, v: int, b: seq<int>)
    ensures Increasing(a + [v] + b) <==>
              Increasing(a) && Increasing(b) && (forall x :: x in a ==> x < v) && (forall x :: x in b ==> v < x)
  {
    var s := a + [v] + b;
    assert forall i :: 0 <= i < |a| ==> s[i] == a[i];
    assert s[|a|] == v;
    assert forall i :: 0 <= i < |b| ==> s[|a| + 1 + i] == b[i];
    if Increasing(s) {
      forall x | x in a
        ensures x < v
      {
        var i :| 0 <= i < |a| && a[i] == x;
        assert s[i] < s[|a|];
      }
      forall x | x in b
        ensures v < x
      {
        var i :| 0 <= i < |b| && b[i] == x;
        assert s[|a|] < s[|a| + 1 + i];
      }
      forall i, j | 0 <= i < j < |b|
        ensures b[i] < b[j]
      {
        assert s[|a| + 1 + i] < s[|a| + 1 + j];
      }
    }
    if Increasing(a) && Increasing(b) && (forall x :: x in a ==> x < v) && (forall x :: x in b ==> v < x) {
      forall i, j | 0 <= i < j < |s|
        ensures s[i] < s[j]
      {
        if i < |a| {
          assert s[i] in a;
        }
        if |a| < j {
          assert s[j] == b[j - |a| - 1];
          assert s[j] in b;
        }
      }
    }
  }

  /** A tree is a search tree exactly when its values read left to right increase. */
  lemma {:induction false} InorderFacts(t: Tree)
    ensures forall x :: x in Elements(t) <==> x in Inorder(t)
    ensures Ordered(t) <==> Increasing(Inorder(t))
  {
    if t.Node? {
      InorderFacts(t.left);
      InorderFacts(t.right);
      IncreasingSplit(Inorder(t.left), t.val, Inorder(t.right));
    }
  }

  /** Trees with the same values in the same order (a rotation, a recolouring) hold the same set, equally ordered. */
  lemma SameInorder(t: Tree, t': Tree, path: seq<Frame>)
    requires Inorder(t') == Inorder(t)
    ensures Elements(Plug(t', path)) == Elements(Plug(t, path))
    ensures Ordered(Plug(t', path)) == Ordered(Plug(t, path))
  {
    InorderFacts(t);
    InorderFacts(t');
    forall x
      ensures x in Elements(t') <==> x in Elements(t)
    {
      assert x in Elements(t') <==> x in Inorder(t');
      assert x in Elements(t) <==> x in Inorder(t);
    }
    assert Elements(t') == Elements(t);
    ElementsPlug(t, path);
    ElementsPlug(t', path);
    OrderedPlug(t, path);
    OrderedPlug(t', path);
  }

  // ---------------------------------------------------------------------
  // Paths from the root

  /**
   * A node on the path from the root: its colour and value, the child
   * index the path takes below it, and its other child.
   */
  datatype Frame = Frame(color: Color, val: int, dir: Dir, sibling: Tree)

  /** The node of frame `f` with `t` as its child on the path. */
  function Attach(f: Frame, t: Tree): Tree
  {
    Make(f.color, f.dir, t, f.val, f.sibling)
  }

  /** The whole tree: `t` put back below `path`, whose first frame is the root. */
  function Plug(t: Tree, path: seq<Frame>): Tree
    decreases |path|
  {
    if |path| == 0 then t else Attach(path[0], Plug(t, path[1..]))
  }

  /** A value that belongs below `path`: on the path's side of every node of it. */
  predicate Side(d: Dir, x: int, v: int)
  {
    if d == L then x < v else v < x
  }

  predicate Fits(path: seq<Frame>, x: int)
  {
    forall i :: 0 <= i < |path| ==> Side(path[i].dir, x, path[i].val)
  }

  /** The values on and beside `path`. */
  function PathElements(path: seq<Frame>): set<int>
    decreases |path|
  {
    if |path| == 0 then {} else {path[0].val} + Elements(path[0].sibling) + PathElements(path[1..])
  }

  /** The path's own ordering: each frame's sibling and the values below it on the right side of it. */
  predicate PathOrdered(path: seq<Frame>)
    decreases |path|
  {
    |path| == 0 ||
    (Ordered(path[0].sibling) &&
     (forall x :: x in Elements(path[0].sibling) ==> Side(Flip(path[0].dir), x, path[0].val)) &&
     (forall x :: x in PathElements(path[1..]) ==> Side(path[0].dir, x, path[0].val)) &&
     PathOrdered(path[1..]))
  }

  /** The black height a subtree of black height `h` below `path` gives the whole tree, -1 if it does not fit. */
  function PlugHeight(path: seq<Frame>, h: int): int
    decreases |path|
  {
    if |path| == 0 then h
    else
      var h' := PlugHeight(path[1..], h);
      if h' >= 0 && BlackHeight(path[0].sibling) == h' then h' + (if path[0].color == Black then 1 else 0) else -1
  }

  /** No red violation along `path` (below a node of colour `pc`) other than below its last frame. */
  predicate FramesOk(pc: Color, path: seq<Frame>)
    decreases |path|
  {
    |path| == 0 ||
    (!(pc == Red && path[0].color == Red) && !RedViolation(path[0].color, path[0].sibling) &&
     FramesOk(path[0].color, path[1..]))
  }

  /** The colour of the node just above the bottom of `path`. */
  function LastColor(pc: Color, path: seq<Frame>): Color
  {
    if |path| == 0 then pc else path[|path| - 1].color
  }

  lemma {:induction false} PlugConcat(t: Tree, a: seq<Frame>, b: seq<Frame>)
    ensures Plug(t, a + b) == Plug(Plug(t, b), a)
    decreases |a|
  {
    if |a| > 0 {
      assert (a + b)[0] == a[0] && (a + b)[1..] == a[1..] + b;
      PlugConcat(t, a[1..], b);
    } else {
      assert a + b == b;
    }
  }

  lemma PlugAppend(t: Tree, path: seq<Frame>, f: Frame)
    ensures Plug(t, path + [f]) == Plug(Attach(f, t), path)
  {
    PlugConcat(t, path, [f]);
  }

  /** A tree's values are the focus's and those on and beside the path. */
  lemma {:induction false} ElementsPlug(t: Tree, path: seq<Frame>)
    ensures Elements(Plug(t, path)) == Elements(t) + PathElements(path)
    decreases |path|
  {
    if |path| > 0 {
      ElementsPlug(t, path[1..]);
    }
  }

  /** Fitting below a path is fitting beside its top frame and below the rest. */
  lemma FitsCons(path: seq<Frame>)
    requires |path| > 0
    ensures forall x :: Fits(path, x) <==> Side(path[0].dir, x, path[0].val) && Fits(path[1..], x)
  {
    var f, rest := path[0], path[1..];
    forall x
      ensures Fits(path, x) <==> Side(f.dir, x, f.val) && Fits(rest, x)
    {
      if Side(f.dir, x, f.val) && Fits(rest, x) {
        forall i | 0 <= i < |path|
          ensures Side(path[i].dir, x, path[i].val)
        {
          if i > 0 {
            assert path[i] == rest[i - 1];
          }
        }
      }
      if Fits(path, x) {
        forall i | 0 <= i < |rest|
          ensures Side(rest[i].dir, x, rest[i].val)
        {
          assert rest[i] == path[i + 1];
        }
      }
    }
  }

  /** A tree is a search tree iff its focus is, the focus fits below the path, and the path is ordered. */
  lemma {:induction false} OrderedPlug(t: Tree, path: seq<Frame>)
    ensures Ordered(Plug(t, path)) <==>
              Ordered(t) && (forall x :: x in Elements(t) ==> Fits(path, x)) && PathOrdered(path)
    decreases |path|
  {
    if |path| > 0 {
      var rest := path[1..];
      OrderedPlug(t, rest);
      ElementsPlug(t, rest);
      FitsCons(path);
    }
  }

  /** blackHeight of a tree, computed from the focus's up the path. */
  lemma {:induction false} HeightPlug(t: Tree, path: seq<Frame>)
    ensures BlackHeight(Plug(t, path)) == PlugHeight(path, BlackHeight(t))
    decreases |path|
  {
    if |path| > 0 {
      HeightPlug(t, path[1..]);
    }
  }

  /** A balanced tree has a balanced focus. */
  lemma {:induction false} PlugHeightBalanced(path: seq<Frame>, h: int)
    requires PlugHeight(path, h) >= 0
    ensures h >= 0
    decreases |path|
  {
    if |path| > 0 {
      PlugHeightBalanced(path[1..], h);
    }
  }

  /** redViolation of a tree, split into the path's frames and the focus. */
  lemma {:induction false} RedPlug(pc: Color, t: Tree, path: seq<Frame>)
    ensures RedViolation(pc, Plug(t, path)) <==> !FramesOk(pc, path) || RedViolation(LastColor(pc, path), t)
    decreases |path|
  {
    if |path| > 0 {
      RedPlug(path[0].color, t, path[1..]);
      assert LastColor(path[0].color, path[1..]) == LastColor(pc, path);
    }
  }

  /** The path's colour check, extended by one frame at the bottom. */
  lemma {:induction false} FramesOkAppend(pc: Color, path: seq<Frame>, f: Frame)
    ensures FramesOk(pc, path + [f]) <==>
              FramesOk(pc, path) && !(LastColor(pc, path) == Red && f.color == Red) &&
              !RedViolation(f.color, f.sibling)
    decreases |path|
  {
    if |path| > 0 {
      assert (path + [f])[1..] == path[1..] + [f];
      FramesOkAppend(path[0].color, path[1..], f);
    }
  }

  /** The path's black height, extended by one frame at the bottom. */
  lemma {:induction false} PlugHeightAppend(path: seq<Frame>, f: Frame, h: int)
    ensures PlugHeight(path + [f], h) ==
              PlugHeight(path, if h >= 0 && BlackHeight(f.sibling) == h then h + (if f.color == Black then 1 else 0) else -1)
    decreases |path|
  {
    if |path| > 0 {
      assert (path + [f])[1..] == path[1..] + [f];
      PlugHeightAppend(path[1..], f, h);
    }
  }

  /** Two paths that differ only in their frames' values. */
  predicate SameShape(a: seq<Frame>, b: seq<Frame>)
  {
    |a| == |b| &&
    forall i :: 0 <= i < |a| ==> a[i].color == b[i].color && a[i].dir == b[i].dir && a[i].sibling == b[i].sibling
  }

  /** The colour checks along a path do not look at its values. */
  lemma {:induction false} SameShapeChecks(pc: Color, a: seq<Frame>, b: seq<Frame>, h: int)
    requires SameShape(a, b)
    ensures FramesOk(pc, a) == FramesOk(pc, b) && PlugHeight(a, h) == PlugHeight(b, h)
    ensures LastColor(pc, a) == LastColor(pc, b)
    decreases |a|
  {
    if |a| > 0 {
      assert SameShape(a[1..], b[1..]) by {
        forall i | 0 <= i < |a| - 1
          ensures a[1..][i].color == b[1..][i].color && a[1..][i].sibling == b[1..][i].sibling
        {
          assert a[1..][i] == a[i + 1] && b[1..][i] == b[i + 1];
        }
      }
      SameShapeChecks(a[0].color, a[1..], b[1..], h);
    }
  }
}
