/** The fix-up cases of insertion and removal on the ghost tree. */
module FixUp {
  import opened Hypertree
  import opened Shape
  import opened Balance
  import opened Links
  import opened Swap

  // ---- insertion ----

  /** A red node whose subtree is in order; the edge above it may be red as well. */
  ghost predicate RedSpot(path: Path, n: Tree) {
    && n.Branch? && n.color.Red? && Balanced(n) && Surrounds(path, BlackHeight(n))
  }

  /** A new red leaf in a balanced tree. */
  lemma {:induction false} LeafSpot(path: Path, index: DataIndex)
    requires Balanced(Plug(path, Leaf)) && RootColor(Plug(path, Leaf)).Black? && !path.Top?
    ensures RedSpot(path, Branch(index, Red, Leaf, Leaf)) && RootColor(Plug(path, Branch(index, Red, Leaf, Leaf))).Black?
  {
    PlugBalanced(path, Leaf);
    PlugRootColor(path, Leaf, Branch(index, Red, Leaf, Leaf));
  }

  /** Parent and uncle turn black, the grandparent red. */
  function UncleRecolored(path: Path, n: Tree): Tree
    requires !path.Top? && !path.up.Top?
  {
    Recolored(Above(Beside(path.up, Recolored(Above(path, n), Black)), Recolored(Sibling(path.up), Black)), Red)
  }

  lemma {:induction false} RedUncle(path: Path, n: Tree)
    requires RedSpot(path, n) && !path.Top? && path.color.Red? && !path.up.Top?
    requires RootColor(Sibling(path.up)).Red?
    ensures RedSpot(path.up.up, UncleRecolored(path, n))
    ensures path.up.up.Top? || RootColor(Plug(path.up.up, UncleRecolored(path, n))) == RootColor(Plug(path, n))
  {
    if !path.up.up.Top? {
      PlugRootColor(path.up.up, UncleRecolored(path, n), Above(path.up, Above(path, n)));
    }
    assert Surrounds(path.up, BlackHeight(n));
  }

  /** Single or double rotation, then grandparent and subtree root exchange colours. */
  function Rotated(path: Path, n: Tree): Tree
    requires !path.Top? && !path.up.Top? && n.Branch?
  {
    var p, g, s, u := path.index, path.up.index, Sibling(path), Sibling(path.up);
    var gc := path.up.color;
    match (path.up.LeftOf?, path.LeftOf?)
    case (true, true) => Branch(p, gc, n, Branch(g, Red, s, u))
    case (true, false) => Branch(n.index, gc, Branch(p, Red, s, n.left), Branch(g, Red, n.right, u))
    case (false, false) => Branch(p, gc, Branch(g, Red, u, s), n)
    case (false, true) => Branch(n.index, gc, Branch(g, Red, u, n.left), Branch(p, Red, n.right, s))
  }

  lemma {:induction false} BlackUncle(path: Path, n: Tree)
    requires RedSpot(path, n) && !path.Top? && path.color.Red? && !path.up.Top?
    requires RootColor(Sibling(path.up)).Black?
    ensures Balanced(Plug(path.up.up, Rotated(path, n)))
    ensures RootColor(Plug(path.up.up, Rotated(path, n))) == RootColor(Plug(path, n))
  {
    var t := Rotated(path, n);
    assert Surrounds(path.up, BlackHeight(n));
    assert Balanced(t.left) && Balanced(t.right);
    PlugBalanced(path.up.up, t);
    PlugRootColor(path.up.up, t, Above(path.up, Above(path, n)));
  }

  // ---- removal ----

  /** A position whose subtree, empty perhaps, is one black node short; all else is in order. */
  ghost predicate DoubleBlack(path: Path, t: Tree) {
    Balanced(t) && RootColor(t).Black? && Surrounds(path, BlackHeight(t) + 1)
  }

  /** Termination: a red parent means that the next round is the last. */
  function FixMeasure(path: Path): nat {
    if path.Top? then 0 else if path.color.Red? then 1 else Length(path) + 1
  }

  ghost predicate HasRedChild(t: Tree) {
    t.Branch? && (RootColor(t.left).Red? || RootColor(t.right).Red?)
  }

  lemma {:induction false} SiblingExists(path: Path, t: Tree)
    requires DoubleBlack(path, t) && !path.Top?
    ensures Sibling(path).Branch? && Balanced(Sibling(path))
    ensures Sibling(path).color.Red? ==>
              path.color.Black? && Sibling(path).left.Branch? && Sibling(path).right.Branch?
  {
    var s := Sibling(path);
    assert BlackHeight(s) == BlackHeight(t) + 1;
  }

  /** A black sibling with a red child lends a node by single or double rotation. */
  function Borrowed(path: Path, t: Tree): Tree
    requires !path.Top? && Sibling(path).Branch?
    requires Sibling(path).left.Branch? || Sibling(path).right.Branch?
    requires RootColor(Sibling(path).left).Red? || RootColor(Sibling(path).right).Red?
  {
    var s, p, pc := Sibling(path), path.index, path.color;
    if path.RightOf? then
      if RootColor(s.left).Red? then
        Branch(s.index, pc, Recolored(s.left, Black), Branch(p, Black, s.right, t))
      else
        Branch(s.right.index, pc, Branch(s.index, Black, s.left, s.right.left), Branch(p, Black, s.right.right, t))
    else
      if RootColor(s.right).Red? then
        Branch(s.index, pc, Branch(p, Black, t, s.left), Recolored(s.right, Black))
      else
        Branch(s.left.index, pc, Branch(p, Black, t, s.left.left), Branch(s.index, Black, s.left.right, s.right))
  }

  lemma {:induction false} BorrowBalanced(path: Path, t: Tree)
    requires DoubleBlack(path, t) && !path.Top?
    requires RootColor(Sibling(path)).Black? && HasRedChild(Sibling(path))
    ensures Balanced(Plug(path.up, Borrowed(path, t)))
    ensures RootColor(Plug(path.up, Borrowed(path, t))) == RootColor(Plug(path, t))
  {
    var b, s := Borrowed(path, t), Sibling(path);
    SiblingExists(path, t);
    assert Balanced(s.left) && Balanced(s.right) && BlackHeight(s.left) == BlackHeight(s.right) == BlackHeight(t);
    assert Balanced(b.left) && Balanced(b.right) && BlackHeight(b.left) == BlackHeight(b.right) == BlackHeight(t) + 1;
    PlugBalanced(path.up, b);
    PlugRootColor(path.up, b, Above(path, t));
  }

  /** The sibling turns red; the parent, if it was red, turns black. */
  function Merged(path: Path, t: Tree): Tree
    requires !path.Top?
  {
    Recolored(Above(Beside(Beside(path, t), Recolored(Sibling(path), Red)), t), Black)
  }

  lemma {:induction false} MergeBalanced(path: Path, t: Tree)
    requires DoubleBlack(path, t) && !path.Top?
    requires RootColor(Sibling(path)).Black? && !HasRedChild(Sibling(path))
    ensures path.color.Black? ==> DoubleBlack(path.up, Merged(path, t)) && FixMeasure(path.up) < FixMeasure(path)
    ensures path.color.Red? ==> Balanced(Plug(path.up, Merged(path, t)))
    ensures RootColor(Plug(path, t)).Black? ==> RootColor(Plug(path.up, Merged(path, t))).Black?
  {
    SiblingExists(path, t);
    var m := Merged(path, t);
    PlugBalanced(path.up, m);
    if !path.up.Top? {
      PlugRootColor(path.up, m, Above(path, t));
    }
  }

  /** A red sibling is rotated above the parent, which turns red. */
  function Lifted(path: Path): Path
    requires !path.Top? && Sibling(path).Branch?
  {
    var s, p := Sibling(path), path.index;
    if path.RightOf? then RightOf(s.right, p, Red, RightOf(s.left, s.index, Black, path.up))
    else LeftOf(p, Red, s.left, LeftOf(s.index, Black, s.right, path.up))
  }

  lemma {:induction false} LiftBalanced(path: Path, t: Tree)
    requires DoubleBlack(path, t) && !path.Top? && RootColor(Sibling(path)).Red?
    ensures DoubleBlack(Lifted(path), t) && FixMeasure(Lifted(path)) == 1 < FixMeasure(path)
    ensures RootColor(Plug(path, t)).Black? ==> RootColor(Plug(Lifted(path), t)).Black?
  {
    SiblingExists(path, t);
    assert Plug(Lifted(path), t) == Plug(path.up, Above(Lifted(path).up, Above(Lifted(path), t)));
    if !path.up.Top? {
      PlugRootColor(path.up, Above(Lifted(path).up, Above(Lifted(path), t)), Above(path, t));
    }
  }

  lemma {:induction false} ExchangedBalanced(t: Tree, a: DataIndex, b: DataIndex)
    ensures BlackHeight(Exchanged(t, a, b)) == BlackHeight(t) && RootColor(Exchanged(t, a, b)) == RootColor(t)
    ensures Balanced(Exchanged(t, a, b)) == Balanced(t)
  {
    if t.Branch? {
      ExchangedBalanced(t.left, a, b);
      ExchangedBalanced(t.right, a, b);
    }
  }

  /** Taking out a node with at most one child when it or the child is red. */
  lemma {:induction false} SpliceRed(path: Path, t: Tree)
    requires t.Branch? && (t.left.Leaf? || t.right.Leaf?) && Balanced(Plug(path, t))
    requires t.color.Red? || HasRedChild(t)
    ensures Balanced(Plug(path, Recolored(OnlyChild(t), Black)))
    ensures RootColor(Plug(path, t)).Black? ==> RootColor(Plug(path, Recolored(OnlyChild(t), Black))).Black?
  {
    PlugBalanced(path, t);
    PlugBalanced(path, Recolored(OnlyChild(t), Black));
    if !path.Top? {
      PlugRootColor(path, t, Recolored(OnlyChild(t), Black));
    }
  }

  /** Taking out a black node without a red child leaves its place one black node short. */
  lemma {:induction false} SpliceBlack(path: Path, t: Tree)
    requires t.Branch? && (t.left.Leaf? || t.right.Leaf?) && Balanced(Plug(path, t))
    requires t.color.Black? && !HasRedChild(t)
    ensures DoubleBlack(path, OnlyChild(t))
    ensures RootColor(Plug(path, t)).Black? ==> RootColor(Plug(path, OnlyChild(t))).Black?
  {
    PlugBalanced(path, t);
    if !path.Top? {
      PlugRootColor(path, t, OnlyChild(t));
    }
  }
}
