/** `lib/src/red_black_tree.rs`: a red-black tree with parent links inside a shared array. */
module RedBlackTrees {
  import opened Hypertree
  import opened Shape
  import opened Links
  import opened Swap
  import opened Balance
  import opened FixUp
  import opened Order

  /** `WellFormed` below, as a property of a memory. */
  ghost predicate WellFormedIn<V(!new)>(m: seq<Node<V>>, cmp: (V, V) -> Ordering, root: DataIndex, maxIndex: DataIndex, tree: Tree) {
    && |m| <= NIL && root == RootIndex(tree) && Linked(m, tree, NIL) && Distinct(tree)
    && Balanced(tree) && RootColor(tree).Black?
    && InRange(m, InOrder(tree)) && Sorted(cmp, Entries(m, InOrder(tree)))
    && (maxIndex == NIL || (InOrder(tree) != [] && maxIndex == Last(InOrder(tree))))
  }

  class RedBlackTree<V(!new)> {
    const data: array<Node<V>>
    /** `Ord` and `PartialEq` of the payload; the second may be stricter than the first. */
    const cmp: (V, V) -> Ordering
    const same: (V, V) -> bool
    var root: DataIndex
    var maxIndex: DataIndex
    ghost var tree: Tree

    /** The memory stores `tree`; nothing is said about colours or keys. */
    ghost predicate Consistent()
      reads this, data
    {
      data.Length <= NIL && root == RootIndex(tree) && Linked(data[..], tree, NIL) && Distinct(tree)
    }

    /** Opens a tree that is already stored in `data`. */
    constructor (data: array<Node<V>>, root: DataIndex, maxIndex: DataIndex,
                 cmp: (V, V) -> Ordering, same: (V, V) -> bool, ghost tree: Tree)
      requires data.Length <= NIL && root == RootIndex(tree) && Linked(data[..], tree, NIL) && Distinct(tree)
      ensures this.data == data && this.cmp == cmp && this.same == same
      ensures this.root == root && this.maxIndex == maxIndex && this.tree == tree
      ensures Consistent()
    {
      this.data, this.cmp, this.same := data, cmp, same;
      this.root, this.maxIndex, this.tree := root, maxIndex, tree;
    }

    /** The live entries in ascending key order. */
    ghost function Contents(): seq<Entry<V>>
      requires Consistent()
      reads this, data
    {
      LinkedRange(data[..], tree, NIL);
      Entries(data[..], InOrder(tree))
    }

    /** The invariant of the data structure. `maxIndex` is the last slot in key order, unless
        the tree was opened without it. */
    ghost predicate WellFormed()
      reads this, data
    {
      && Consistent() && Balanced(tree) && RootColor(tree).Black?
      && Sorted(cmp, Contents())
      && (maxIndex == NIL || (InOrder(tree) != [] && maxIndex == Last(InOrder(tree))))
    }

    // ---- reads ----

    predicate Readable(index: DataIndex) {
      index == NIL || index < data.Length
    }

    function GetLeftIndex(index: DataIndex): DataIndex
      requires Readable(index)
      reads data
    {
      if index == NIL then NIL else data[index].left
    }

    function GetRightIndex(index: DataIndex): DataIndex
      requires Readable(index)
      reads data
    {
      if index == NIL then NIL else data[index].right
    }

    function GetParentIndex(index: DataIndex): DataIndex
      requires Readable(index)
      reads data
    {
      if index == NIL then NIL else data[index].parent
    }

    function GetColor(index: DataIndex): Color
      requires Readable(index)
      reads data
    {
      if index == NIL then Black else data[index].color
    }

    predicate IsLeftChild(index: DataIndex)
      requires Readable(index) && (index == root || Readable(GetParentIndex(index)))
      reads this, data
    {
      index != root && GetLeftIndex(GetParentIndex(index)) == index
    }

    predicate IsRightChild(index: DataIndex)
      requires Readable(index) && (index == root || Readable(GetParentIndex(index)))
      reads this, data
    {
      index != root && GetRightIndex(GetParentIndex(index)) == index
    }

    /** What the reads above return at a position of the tree. */
    lemma {:induction false} View(path: Path, t: Tree)
      requires Consistent() && tree == Plug(path, t) && t.Branch?
      ensures t.index < data.Length && t.index != NIL && Readable(Parent(path))
      ensures data[t.index].parent == Parent(path) && data[t.index].color == t.color
      ensures data[t.index].left == RootIndex(t.left) && data[t.index].right == RootIndex(t.right)
      ensures Readable(data[t.index].left) && Readable(data[t.index].right)
      ensures data[t.index].left == NIL <==> t.left.Leaf?
      ensures data[t.index].right == NIL <==> t.right.Leaf?
      ensures GetColor(data[t.index].left) == RootColor(t.left) && GetColor(data[t.index].right) == RootColor(t.right)
      ensures root == t.index <==> path.Top?
      ensures path.Top? <==> Parent(path) == NIL
      ensures IsLeftChild(t.index) <==> path.LeftOf?
      ensures IsRightChild(t.index) <==> path.RightOf?
    {
      Focus(data[..], path, t);
      assert Linked(data[..], t.left, t.index) && Linked(data[..], t.right, t.index);
    }

    // ---- writes ----

    method SetLeftIndex(index: DataIndex, left: DataIndex)
      requires Readable(index)
      modifies data
      ensures data[..] == WithLeft(old(data[..]), index, left)
    {
      if index == NIL {
        return;
      }
      data[index] := data[index].(left := left);
    }

    method SetRightIndex(index: DataIndex, right: DataIndex)
      requires Readable(index)
      modifies data
      ensures data[..] == WithRight(old(data[..]), index, right)
    {
      if index == NIL {
        return;
      }
      data[index] := data[index].(right := right);
    }

    method SetParentIndex(index: DataIndex, parent: DataIndex)
      requires Readable(index)
      modifies data
      ensures data[..] == WithParent(old(data[..]), index, parent)
    {
      if index == NIL {
        return;
      }
      data[index] := data[index].(parent := parent);
    }

    /** The great-grandparent step shared by both rotations. */
    method ReplaceChild(parent: DataIndex, child: DataIndex, newChild: DataIndex)
      requires Readable(parent)
      modifies data
      ensures data[..] == WithChild(old(data[..]), parent, child, newChild)
    {
      if parent != NIL {
        if GetLeftIndex(parent) == child {
          SetLeftIndex(parent, newChild);
        }
        if GetRightIndex(parent) == child {
          SetRightIndex(parent, newChild);
        }
      }
    }

    /** `set_color` at a position of the tree; recolouring an absent node does nothing. */
    method SetColor(index: DataIndex, color: Color, ghost path: Path, ghost t: Tree)
      requires Consistent() && tree == Plug(path, t) && index == RootIndex(t)
      modifies `tree, data
      ensures Consistent() && tree == Plug(path, Recolored(t, color)) && InOrder(tree) == InOrder(old(tree))
      ensures SameOutside(old(data[..]), data[..], InOrder(tree)) && SameValues(old(data[..]), data[..])
    {
      Focus(data[..], path, t);
      RecolorLinked(data[..], path, t, color);
      tree := Plug(path, Recolored(t, color));
      PaintNode(index, color);
    }

    method PaintNode(index: DataIndex, color: Color)
      requires Readable(index)
      modifies data
      ensures data[..] == WithColor(old(data[..]), index, color)
    {
      if index == NIL {
        return;
      }
      data[index] := data[index].(color := color);
    }

    method RotateLeft(index: DataIndex, ghost path: Path, ghost g: Tree)
      requires Consistent() && tree == Plug(path, g)
      requires g.Branch? && g.right.Branch? && g.index == index
      modifies `root, `tree, data
      ensures Consistent() && tree == Plug(path, RotatedLeft(g)) && InOrder(tree) == InOrder(old(tree))
      ensures SameOutside(old(data[..]), data[..], InOrder(tree)) && SameValues(old(data[..]), data[..])
    {
      RotateLeftView(data[..], path, g);
      RotateLeftLinked(data[..], path, g);
      RotatedLeftOrder(path, g);
      var pIndex := GetRightIndex(index);
      var yIndex := GetLeftIndex(pIndex);
      var ggIndex := GetParentIndex(index);

      SetParentIndex(pIndex, ggIndex);
      SetLeftIndex(pIndex, index);
      SetParentIndex(yIndex, index);
      SetParentIndex(index, pIndex);
      SetRightIndex(index, yIndex);
      ReplaceChild(ggIndex, index, pIndex);
      if root == index {
        root := pIndex;
      }
      tree := Plug(path, RotatedLeft(g));
    }

    method RotateRight(index: DataIndex, ghost path: Path, ghost g: Tree)
      requires Consistent() && tree == Plug(path, g)
      requires g.Branch? && g.left.Branch? && g.index == index
      modifies `root, `tree, data
      ensures Consistent() && tree == Plug(path, RotatedRight(g)) && InOrder(tree) == InOrder(old(tree))
      ensures SameOutside(old(data[..]), data[..], InOrder(tree)) && SameValues(old(data[..]), data[..])
    {
      RotateRightView(data[..], path, g);
      RotateRightLinked(data[..], path, g);
      RotatedRightOrder(path, g);
      var pIndex := GetLeftIndex(index);
      var yIndex := GetRightIndex(pIndex);
      var ggIndex := GetParentIndex(index);

      SetParentIndex(pIndex, ggIndex);
      SetRightIndex(pIndex, index);
      SetParentIndex(yIndex, index);
      SetParentIndex(index, pIndex);
      SetLeftIndex(index, yIndex);
      ReplaceChild(ggIndex, index, pIndex);
      if root == index {
        root := pIndex;
      }
      tree := Plug(path, RotatedRight(g));
    }

    /** The left-right double rotation, shared by insertion and removal. */
    method RotateLeftRight(childIndex: DataIndex, index: DataIndex, ghost path: Path, ghost g: Tree)
      requires Consistent() && tree == Plug(path, g) && g.Branch? && g.left.Branch? && g.left.right.Branch?
      requires g.index == index && g.left.index == childIndex
      modifies `root, `tree, data
      ensures Consistent() && tree == Plug(path, RotatedRight(g.(left := RotatedLeft(g.left)))) && InOrder(tree) == InOrder(old(tree))
      ensures SameOutside(old(data[..]), data[..], InOrder(tree)) && SameValues(old(data[..]), data[..])
    {
      RotateLeft(childIndex, LeftOf(g.index, g.color, g.right, path), g.left);
      RotateRight(index, path, g.(left := RotatedLeft(g.left)));
    }

    /** The right-left double rotation, shared by insertion and removal. */
    method RotateRightLeft(childIndex: DataIndex, index: DataIndex, ghost path: Path, ghost g: Tree)
      requires Consistent() && tree == Plug(path, g) && g.Branch? && g.right.Branch? && g.right.left.Branch?
      requires g.index == index && g.right.index == childIndex
      modifies `root, `tree, data
      ensures Consistent() && tree == Plug(path, RotatedLeft(g.(right := RotatedRight(g.right)))) && InOrder(tree) == InOrder(old(tree))
      ensures SameOutside(old(data[..]), data[..], InOrder(tree)) && SameValues(old(data[..]), data[..])
    {
      RotateRight(childIndex, RightOf(g.left, g.index, g.color, path), g.right);
      RotateLeft(index, path, g.(right := RotatedRight(g.right)));
    }

    /** The child of a node that has at most one. */
    function GetChildIndex(index: DataIndex): DataIndex
      requires index < data.Length
      reads data
    {
      if data[index].left != NIL then data[index].left else data[index].right
    }

    /** Takes a node with at most one child out of the tree; its own record keeps stale links. */
    method UpdateParentChild(index: DataIndex, ghost path: Path, ghost t: Tree)
      requires Consistent() && tree == Plug(path, t)
      requires t.Branch? && t.index == index && (t.left.Leaf? || t.right.Leaf?)
      modifies `root, `tree, data
      ensures Consistent() && tree == Plug(path, OnlyChild(t))
      ensures SameOutside(old(data[..]), data[..], InOrder(old(tree))) && SameValues(old(data[..]), data[..])
    {
      Focus(data[..], path, t);
      SpliceLinked(data[..], path, t);
      SpliceDistinct(path, t);
      PlugRootSame(path, t, OnlyChild(t));
      var parentIndex := GetParentIndex(index);
      var childIndex := GetChildIndex(index);
      assert childIndex == RootIndex(OnlyChild(t));
      assert childIndex != index;
      SetParentIndex(childIndex, parentIndex);
      if IsLeftChild(index) {
        SetLeftIndex(parentIndex, childIndex);
      } else {
        SetRightIndex(parentIndex, childIndex);
      }
      if root == index {
        root := childIndex;
      }
      tree := Plug(path, OnlyChild(t));
    }

    // The four groups of writes in `swap_node_with_successor`.

    method LinkParents(isLeftA: bool, isLeftB: bool, a: DataIndex, b: DataIndex, ghost x: Node<V>, ghost y: Node<V>, parentA: DataIndex, parentB: DataIndex)
      requires Readable(parentA) && Readable(parentB) && parentA == x.parent && parentB == y.parent
      modifies data
      ensures ParentsRedirected(old(data[..]), data[..], isLeftA, isLeftB, a, b, x, y)
    {
      RedirectParents(data[..], isLeftA, isLeftB, a, b, x, y);
      if isLeftA {
        SetLeftIndex(parentA, b);
      } else {
        SetRightIndex(parentA, b);
      }
      if isLeftB {
        SetLeftIndex(parentB, a);
      } else {
        SetRightIndex(parentB, a);
      }
    }

    method LinkNodes(a: DataIndex, b: DataIndex, x: Node<V>, y: Node<V>)
      requires Readable(a) && Readable(b) && a != b
      modifies data
      ensures LinksTraded(old(data[..]), data[..], a, b, x, y)
    {
      TradeLinks(data[..], a, b, x, y);
      SetLeftIndex(a, y.left);
      SetRightIndex(a, y.right);
      SetParentIndex(a, y.parent);
      SetLeftIndex(b, x.left);
      SetRightIndex(b, x.right);
      SetParentIndex(b, x.parent);
    }

    method LinkChildren(a: DataIndex, b: DataIndex, x: Node<V>, y: Node<V>)
      requires Readable(x.left) && Readable(x.right) && Readable(y.left) && Readable(y.right)
      modifies data
      ensures ChildrenRedirected(old(data[..]), data[..], a, b, x, y)
    {
      RedirectChildren(data[..], a, b, x, y);
      SetParentIndex(x.left, b);
      SetParentIndex(y.left, a);
      SetParentIndex(x.right, b);
      SetParentIndex(y.right, a);
    }

    method RepairAndRecolor(a: DataIndex, b: DataIndex, x: Node<V>, y: Node<V>)
      requires a < data.Length && b < data.Length && a != b && a != NIL && b != NIL
      requires data[a].color == x.color && data[b].color == y.color
      modifies data
      ensures Finished(old(data[..]), data[..], a, b, x, y)
    {
      Finish(data[..], a, b, x, y);
      if y.parent == a {
        SetParentIndex(a, b);
        SetParentIndex(b, x.parent);
        SetRightIndex(b, a);
      }
      var colorA, colorB := GetColor(a), GetColor(b);
      PaintNode(a, colorB);
      PaintNode(b, colorA);
    }

    /** Exchanges a node that has two children with its in-order successor. */
    method SwapNodeWithSuccessor(a: DataIndex, b: DataIndex, ghost path: Path, ghost u: Tree)
      requires Consistent() && tree == Plug(path, u)
      requires u.Branch? && u.right.Branch? && u.index == a
      requires b == InOrder(u.right)[0] && b < data.Length && data[b].left == NIL
      modifies `root, `tree, data
      ensures Consistent() && tree == Exchanged(old(tree), a, b) && a < data.Length && data[a].left == NIL
      ensures SameOutside(old(data[..]), data[..], InOrder(old(tree))) && SameValues(old(data[..]), data[..])
    {
      SwapLinks(a, b, path, u);
      SuccessorFacts(old(data[..]), path, u, b);
      SwappedRoot(tree, a, b);
      if root == a {
        root := b;
      }
      tree := Exchanged(tree, a, b);
    }

    /** All writes of the exchange. */
    method SwapLinks(a: DataIndex, b: DataIndex, ghost path: Path, ghost u: Tree)
      requires Consistent() && tree == Plug(path, u)
      requires u.Branch? && u.right.Branch? && u.index == a
      requires b == InOrder(u.right)[0] && b < data.Length && data[b].left == NIL
      modifies data
      ensures Linked(data[..], Exchanged(tree, a, b), NIL) && Distinct(Exchanged(tree, a, b))
      ensures a < data.Length && data[a].left == NIL
      ensures SameOutside(old(data[..]), data[..], InOrder(tree)) && SameValues(old(data[..]), data[..])
    {
      ghost var m := data[..];
      SuccessorFacts(m, path, u, b);
      var x, y := data[a], data[b];
      var isLeftA, isLeftB := IsLeftChild(a), IsLeftChild(b);
      LinkParents(isLeftA, isLeftB, a, b, x, y, x.parent, y.parent);
      ghost var m1 := data[..];
      LinkNodes(a, b, x, y);
      ghost var m2 := data[..];
      LinkChildren(a, b, x, y);
      ghost var m3 := data[..];
      RepairAndRecolor(a, b, x, y);
      SwapAll(m, m1, m2, m3, data[..], path, u, b, isLeftA, isLeftB);
    }

    // ---- insertion ----

    /** One round of the insertion fix-up. It ends with a balanced tree or hands back the
        grandparent as the only node that may still have a red parent. */
    method InsertFix(index: DataIndex, ghost path: Path, ghost n: Tree) returns (next: DataIndex, ghost path': Path, ghost n': Tree)
      requires Consistent() && tree == Plug(path, n) && RedSpot(path, n) && n.index == index
      modifies `root, `tree, data
      ensures Consistent() && InOrder(tree) == InOrder(old(tree))
      ensures SameOutside(old(data[..]), data[..], InOrder(tree)) && SameValues(old(data[..]), data[..])
      ensures next == NIL ==> Balanced(tree)
      ensures next != NIL ==>
                tree == Plug(path', n') && RedSpot(path', n') && n'.index == next && Length(path') + 2 == Length(path)
      ensures RootColor(old(tree)).Black? || path.Top? ==> RootColor(tree).Black? || (next != NIL && path'.Top?)
    {
      path', n' := Top, Leaf;
      View(path, n);
      if root == index {
        SetColor(index, Black, path, n);
        PlugBalanced(path, Recolored(n, Black));
        return NIL, Top, Leaf;
      }
      ghost var p := Above(path, n);
      View(path.up, p);
      var parentIndex := GetParentIndex(index);
      var parentColor := GetColor(parentIndex);
      if parentColor == Black {
        PlugBalanced(path, n);
        return NIL, Top, Leaf;
      }
      var grandparentIndex := GetParentIndex(parentIndex);
      if !path.up.Top? {
        View(path.up.up, Above(path.up, p));
      }
      var uncleIndex := if GetLeftIndex(grandparentIndex) == parentIndex
                        then GetRightIndex(grandparentIndex) else GetLeftIndex(grandparentIndex);
      var uncleColor := GetColor(uncleIndex);
      if uncleColor == Red {
        RedUncle(path, n);
        InsertRecolor(parentIndex, uncleIndex, grandparentIndex, path, n);
        return grandparentIndex, path.up.up, UncleRecolored(path, n);
      }
      if grandparentIndex == NIL && parentColor == Red {
        SetColor(parentIndex, Black, path.up, p);
        PlugBalanced(path.up, Recolored(p, Black));
        return NIL, Top, Leaf;
      }
      BlackUncle(path, n);
      InsertRotate(index, parentIndex, grandparentIndex, path, n);
      next := NIL;
    }

    /** The four rotation cases of the insertion fix-up. */
    method InsertRotate(index: DataIndex, parentIndex: DataIndex, grandparentIndex: DataIndex, ghost path: Path, ghost n: Tree)
      requires Consistent() && tree == Plug(path, n) && n.Branch? && n.index == index && n.color.Red?
      requires !path.Top? && path.color.Red? && !path.up.Top?
      requires parentIndex == path.index && grandparentIndex == path.up.index
      modifies `root, `tree, data
      ensures Consistent() && tree == Plug(path.up.up, Rotated(path, n)) && InOrder(tree) == InOrder(old(tree))
      ensures SameOutside(old(data[..]), data[..], InOrder(tree)) && SameValues(old(data[..]), data[..])
    {
      ghost var p := Above(path, n);
      View(path, n);
      View(path.up, p);
      View(path.up.up, Above(path.up, p));
      var grandparentColor := GetColor(grandparentIndex);
      var parentColor := GetColor(parentIndex);
      var indexColor := GetColor(index);
      var parentIsLeft := IsLeftChild(parentIndex);
      var currentIsLeft := IsLeftChild(index);
      if parentIsLeft && currentIsLeft {
        InsertLeftLeft(index, parentIndex, grandparentIndex, parentColor, grandparentColor, path, n);
      } else if parentIsLeft && !currentIsLeft {
        InsertLeftRight(index, parentIndex, grandparentIndex, indexColor, grandparentColor, path, n);
      } else if !parentIsLeft && !currentIsLeft {
        InsertRightRight(index, parentIndex, grandparentIndex, parentColor, grandparentColor, path, n);
      } else if !parentIsLeft && currentIsLeft {
        InsertRightLeft(index, parentIndex, grandparentIndex, indexColor, grandparentColor, path, n);
      }
    }

    /** Case II, both red nodes on the left: one rotation. */
    method InsertLeftLeft(index: DataIndex, parentIndex: DataIndex, grandparentIndex: DataIndex,
                  parentColor: Color, grandparentColor: Color, ghost path: Path, ghost n: Tree)
      requires Consistent() && tree == Plug(path, n) && n.Branch? && n.index == index && n.color.Red?
      requires path.LeftOf? && path.color.Red? && path.up.LeftOf? && parentColor == Red && grandparentColor == path.up.color
      requires parentIndex == path.index && grandparentIndex == path.up.index
      modifies `root, `tree, data
      ensures Consistent() && tree == Plug(path.up.up, Rotated(path, n)) && InOrder(tree) == InOrder(old(tree))
      ensures SameOutside(old(data[..]), data[..], InOrder(tree)) && SameValues(old(data[..]), data[..])
    {
      ghost var up := path.up.up;
      ghost var p := Above(path, n);
      ghost var g := Above(path.up, p);
      RotateRight(grandparentIndex, up, g);
      SetColor(grandparentIndex, parentColor, RightOf(n, p.index, Red, up), RotatedRight(g).right);
      SetColor(parentIndex, grandparentColor, up, Branch(p.index, Red, n, Recolored(RotatedRight(g).right, Red)));
    }

    /** Case III, parent left and node right: two rotations. */
    method InsertLeftRight(index: DataIndex, parentIndex: DataIndex, grandparentIndex: DataIndex,
                  indexColor: Color, grandparentColor: Color, ghost path: Path, ghost n: Tree)
      requires Consistent() && tree == Plug(path, n) && n.Branch? && n.index == index && n.color.Red?
      requires path.RightOf? && path.color.Red? && path.up.LeftOf? && indexColor == Red && grandparentColor == path.up.color
      requires parentIndex == path.index && grandparentIndex == path.up.index
      modifies `root, `tree, data
      ensures Consistent() && tree == Plug(path.up.up, Rotated(path, n)) && InOrder(tree) == InOrder(old(tree))
      ensures SameOutside(old(data[..]), data[..], InOrder(tree)) && SameValues(old(data[..]), data[..])
    {
      ghost var up := path.up.up;
      ghost var p := Above(path, n);
      RotateLeftRight(parentIndex, grandparentIndex, up, Above(path.up, p));
      ghost var t := RotatedRight(Above(path.up, RotatedLeft(p)));
      SetColor(index, grandparentColor, up, t);
      SetColor(grandparentIndex, indexColor, RightOf(t.left, t.index, grandparentColor, up), t.right);
    }

    /** Case IV, both red nodes on the right: one rotation. */
    method InsertRightRight(index: DataIndex, parentIndex: DataIndex, grandparentIndex: DataIndex,
                  parentColor: Color, grandparentColor: Color, ghost path: Path, ghost n: Tree)
      requires Consistent() && tree == Plug(path, n) && n.Branch? && n.index == index && n.color.Red?
      requires path.RightOf? && path.color.Red? && path.up.RightOf? && parentColor == Red && grandparentColor == path.up.color
      requires parentIndex == path.index && grandparentIndex == path.up.index
      modifies `root, `tree, data
      ensures Consistent() && tree == Plug(path.up.up, Rotated(path, n)) && InOrder(tree) == InOrder(old(tree))
      ensures SameOutside(old(data[..]), data[..], InOrder(tree)) && SameValues(old(data[..]), data[..])
    {
      ghost var up := path.up.up;
      ghost var p := Above(path, n);
      ghost var g := Above(path.up, p);
      RotateLeft(grandparentIndex, up, g);
      SetColor(grandparentIndex, parentColor, LeftOf(p.index, Red, n, up), RotatedLeft(g).left);
      SetColor(parentIndex, grandparentColor, up, Branch(p.index, Red, Recolored(RotatedLeft(g).left, Red), n));
    }

    /** Case V, parent right and node left: two rotations. */
    method InsertRightLeft(index: DataIndex, parentIndex: DataIndex, grandparentIndex: DataIndex,
                  indexColor: Color, grandparentColor: Color, ghost path: Path, ghost n: Tree)
      requires Consistent() && tree == Plug(path, n) && n.Branch? && n.index == index && n.color.Red?
      requires path.LeftOf? && path.color.Red? && path.up.RightOf? && indexColor == Red && grandparentColor == path.up.color
      requires parentIndex == path.index && grandparentIndex == path.up.index
      modifies `root, `tree, data
      ensures Consistent() && tree == Plug(path.up.up, Rotated(path, n)) && InOrder(tree) == InOrder(old(tree))
      ensures SameOutside(old(data[..]), data[..], InOrder(tree)) && SameValues(old(data[..]), data[..])
    {
      ghost var up := path.up.up;
      ghost var p := Above(path, n);
      RotateRightLeft(parentIndex, grandparentIndex, up, Above(path.up, p));
      ghost var t := RotatedLeft(Above(path.up, RotatedRight(p)));
      SetColor(index, grandparentColor, up, t);
      SetColor(grandparentIndex, indexColor, LeftOf(t.index, grandparentColor, t.right, up), t.left);
    }

    /** The red-uncle case: two nodes turn black, the grandparent red. */
    method InsertRecolor(parentIndex: DataIndex, uncleIndex: DataIndex, grandparentIndex: DataIndex, ghost path: Path, ghost n: Tree)
      requires Consistent() && tree == Plug(path, n) && !path.Top? && !path.up.Top?
      requires parentIndex == path.index && uncleIndex == RootIndex(Sibling(path.up)) && grandparentIndex == path.up.index
      modifies `tree, data
      ensures Consistent() && tree == Plug(path.up.up, UncleRecolored(path, n)) && InOrder(tree) == InOrder(old(tree))
      ensures SameOutside(old(data[..]), data[..], InOrder(tree)) && SameValues(old(data[..]), data[..])
    {
      ghost var p1 := Recolored(Above(path, n), Black);
      ghost var u := Sibling(path.up);
      SetColor(parentIndex, Black, path.up, Above(path, n));
      SetColor(uncleIndex, Black, Beside(path.up, p1), u);
      SetColor(grandparentIndex, Red, path.up.up, Above(Beside(path.up, p1), Recolored(u, Black)));
    }

    // ---- removal ----

    /** The other child of `parentIndex`. */
    function GetSiblingIndex(index: DataIndex, parentIndex: DataIndex): DataIndex
      requires parentIndex < data.Length
      reads data
    {
      if data[parentIndex].left == index then data[parentIndex].right else data[parentIndex].left
    }

    /** One round of the removal fix-up. `currentIndex` is the root of a subtree that is one
        black node short and may be NIL. The round either ends with a balanced tree or moves
        the shortage to where `FixMeasure` is smaller: one level up, or below a red parent, and
        below a red parent the next round is the last. */
    method RemoveFix(currentIndex: DataIndex, parentIndex: DataIndex, ghost path: Path, ghost t: Tree)
      returns (nextIndex: DataIndex, nextParent: DataIndex, ghost path': Path, ghost t': Tree)
      requires Consistent() && tree == Plug(path, t) && DoubleBlack(path, t)
      requires currentIndex == RootIndex(t) && parentIndex == Parent(path)
      modifies `root, `tree, data
      ensures Consistent() && InOrder(tree) == InOrder(old(tree))
      ensures SameOutside(old(data[..]), data[..], InOrder(tree)) && SameValues(old(data[..]), data[..])
      ensures nextIndex == NIL && nextParent == NIL ==> Balanced(tree)
      ensures nextIndex != NIL || nextParent != NIL ==>
                && tree == Plug(path', t') && DoubleBlack(path', t') && FixMeasure(path') < FixMeasure(path)
                && nextIndex == RootIndex(t') && nextParent == Parent(path')
                && (path' == path.up || (!path'.Top? && path'.color.Red? && t' == t))
      ensures !path.Top? && path.color.Red? ==> nextIndex == NIL && nextParent == NIL
      ensures RootColor(old(tree)).Black? ==> RootColor(tree).Black?
    {
      path', t' := Top, Leaf;
      ShortSpot(path, t);
      if root == currentIndex {
        return NIL, NIL, Top, Leaf;
      }
      SiblingExists(path, t);
      ghost var s := Sibling(path);
      View(path.up, Above(path, t));
      View(Beside(path, t), s);
      var siblingIndex := GetSiblingIndex(currentIndex, parentIndex);
      var siblingColor := GetColor(siblingIndex);
      var parentColor := GetColor(parentIndex);
      var siblingHasRedChild := GetColor(GetLeftIndex(siblingIndex)) == Red || GetColor(GetRightIndex(siblingIndex)) == Red;

      // 3a
      if siblingColor == Black && siblingHasRedChild {
        BorrowBalanced(path, t);
        Borrow(siblingIndex, parentIndex, path, t);
        return NIL, NIL, Top, Leaf;
      }

      // 3b
      if siblingColor == Black {
        MergeBalanced(path, t);
        ghost var s1 := Recolored(s, Red);
        SetColor(siblingIndex, Red, Beside(path, t), s);
        ghost var merged := Above(Beside(path, t), s1);
        assert tree == Plug(path.up, merged);
        View(path.up, merged);
        if parentColor == Black {
          return parentIndex, GetParentIndex(parentIndex), path.up, Merged(path, t);
        } else {
          SetColor(parentIndex, Black, path.up, merged);
          return NIL, NIL, Top, Leaf;
        }
      }

      // 3c
      LiftBalanced(path, t);
      Lift(siblingIndex, parentIndex, path, t);
      return currentIndex, parentIndex, Lifted(path), t;
    }

    /** The shortage sits at the root exactly when the tests of the loop say so. */
    lemma {:induction false} ShortSpot(path: Path, t: Tree)
      requires Consistent() && tree == Plug(path, t)
      ensures root == RootIndex(t) <==> path.Top?
      ensures path.Top? ==> Balanced(t) == Balanced(tree)
    {
      Focus(data[..], path, t);
      PlugRoot(path, t);
      if !path.Top? {
        View(path.up, Above(path, t));
        LinkedRange(data[..], tree, NIL);
        assert tree.index in InOrder(tree);
      }
    }

    /** Case 3a: a child of the sibling is red. */
    method Borrow(siblingIndex: DataIndex, parentIndex: DataIndex, ghost path: Path, ghost t: Tree)
      requires Consistent() && tree == Plug(path, t) && !path.Top?
      requires siblingIndex == RootIndex(Sibling(path)) && parentIndex == path.index
      requires Sibling(path).Branch? && Sibling(path).color.Black? && HasRedChild(Sibling(path))
      modifies `root, `tree, data
      ensures Consistent() && tree == Plug(path.up, Borrowed(path, t)) && InOrder(tree) == InOrder(old(tree))
      ensures SameOutside(old(data[..]), data[..], InOrder(tree)) && SameValues(old(data[..]), data[..])
    {
      ghost var s := Sibling(path);
      View(path.up, Above(path, t));
      View(Beside(path, t), s);
      var siblingLeft := GetLeftIndex(siblingIndex);
      var siblingRight := GetRightIndex(siblingIndex);
      if GetColor(siblingLeft) == Red && IsLeftChild(siblingIndex) {
        BorrowLeftLeft(siblingIndex, parentIndex, path, t);
        return;
      }
      if GetColor(siblingRight) == Red && IsLeftChild(siblingIndex) {
        BorrowLeftRight(siblingIndex, parentIndex, path, t);
        return;
      }
      if GetColor(siblingRight) == Red && IsRightChild(siblingIndex) {
        BorrowRightRight(siblingIndex, parentIndex, path, t);
        return;
      }
      if GetColor(siblingLeft) == Red && IsRightChild(siblingIndex) {
        BorrowRightLeft(siblingIndex, parentIndex, path, t);
        return;
      }
      // The four tests above cover every sibling with a red child.
      assert false;
    }

    method BorrowLeftLeft(siblingIndex: DataIndex, parentIndex: DataIndex, ghost path: Path, ghost t: Tree)
      requires Consistent() && tree == Plug(path, t) && path.RightOf?
      requires siblingIndex == RootIndex(path.left) && parentIndex == path.index
      requires path.left.Branch? && path.left.color.Black? && RootColor(path.left.left).Red?
      modifies `root, `tree, data
      ensures Consistent() && tree == Plug(path.up, Borrowed(path, t)) && InOrder(tree) == InOrder(old(tree))
      ensures SameOutside(old(data[..]), data[..], InOrder(tree)) && SameValues(old(data[..]), data[..])
    {
      ghost var s, up := path.left, path.up;
      View(up, Above(path, t));
      View(Beside(path, t), s);
      var siblingColor, parentColor := GetColor(siblingIndex), GetColor(parentIndex);
      SetColor(GetLeftIndex(siblingIndex), Black, LeftOf(s.index, s.color, s.right, Beside(path, t)), s.left);
      ghost var s1 := s.(left := Recolored(s.left, Black));
      SetColor(parentIndex, siblingColor, up, Branch(path.index, path.color, s1, t));
      SetColor(siblingIndex, parentColor, LeftOf(path.index, Black, t, up), s1);
      RotateRight(parentIndex, up, Branch(path.index, Black, Recolored(s1, parentColor), t));
    }

    method BorrowLeftRight(siblingIndex: DataIndex, parentIndex: DataIndex, ghost path: Path, ghost t: Tree)
      requires Consistent() && tree == Plug(path, t) && path.RightOf?
      requires siblingIndex == RootIndex(path.left) && parentIndex == path.index
      requires path.left.Branch? && path.left.color.Black? && RootColor(path.left.left).Black? && RootColor(path.left.right).Red?
      modifies `root, `tree, data
      ensures Consistent() && tree == Plug(path.up, Borrowed(path, t)) && InOrder(tree) == InOrder(old(tree))
      ensures SameOutside(old(data[..]), data[..], InOrder(tree)) && SameValues(old(data[..]), data[..])
    {
      ghost var s, up := path.left, path.up;
      View(up, Above(path, t));
      View(Beside(path, t), s);
      var parentColor := GetColor(parentIndex);
      SetColor(GetRightIndex(siblingIndex), parentColor, RightOf(s.left, s.index, s.color, Beside(path, t)), s.right);
      ghost var s1 := s.(right := Recolored(s.right, parentColor));
      SetColor(parentIndex, Black, up, Branch(path.index, path.color, s1, t));
      SetColor(siblingIndex, Black, LeftOf(path.index, Black, t, up), s1);
      RotateLeftRight(siblingIndex, parentIndex, up, Branch(path.index, Black, s1, t));
    }

    method BorrowRightRight(siblingIndex: DataIndex, parentIndex: DataIndex, ghost path: Path, ghost t: Tree)
      requires Consistent() && tree == Plug(path, t) && path.LeftOf?
      requires siblingIndex == RootIndex(path.right) && parentIndex == path.index
      requires path.right.Branch? && path.right.color.Black? && RootColor(path.right.right).Red?
      modifies `root, `tree, data
      ensures Consistent() && tree == Plug(path.up, Borrowed(path, t)) && InOrder(tree) == InOrder(old(tree))
      ensures SameOutside(old(data[..]), data[..], InOrder(tree)) && SameValues(old(data[..]), data[..])
    {
      ghost var s, up := path.right, path.up;
      View(up, Above(path, t));
      View(Beside(path, t), s);
      var siblingColor, parentColor := GetColor(siblingIndex), GetColor(parentIndex);
      SetColor(GetRightIndex(siblingIndex), Black, RightOf(s.left, s.index, s.color, Beside(path, t)), s.right);
      ghost var s1 := s.(right := Recolored(s.right, Black));
      SetColor(parentIndex, siblingColor, up, Branch(path.index, path.color, t, s1));
      SetColor(siblingIndex, parentColor, RightOf(t, path.index, Black, up), s1);
      RotateLeft(parentIndex, up, Branch(path.index, Black, t, Recolored(s1, parentColor)));
    }

    method BorrowRightLeft(siblingIndex: DataIndex, parentIndex: DataIndex, ghost path: Path, ghost t: Tree)
      requires Consistent() && tree == Plug(path, t) && path.LeftOf?
      requires siblingIndex == RootIndex(path.right) && parentIndex == path.index
      requires path.right.Branch? && path.right.color.Black? && RootColor(path.right.left).Red? && RootColor(path.right.right).Black?
      modifies `root, `tree, data
      ensures Consistent() && tree == Plug(path.up, Borrowed(path, t)) && InOrder(tree) == InOrder(old(tree))
      ensures SameOutside(old(data[..]), data[..], InOrder(tree)) && SameValues(old(data[..]), data[..])
    {
      ghost var s, up := path.right, path.up;
      View(up, Above(path, t));
      View(Beside(path, t), s);
      var parentColor := GetColor(parentIndex);
      SetColor(GetLeftIndex(siblingIndex), parentColor, LeftOf(s.index, s.color, s.right, Beside(path, t)), s.left);
      ghost var s1 := s.(left := Recolored(s.left, parentColor));
      SetColor(parentIndex, Black, up, Branch(path.index, path.color, t, s1));
      SetColor(siblingIndex, Black, RightOf(t, path.index, Black, up), s1);
      RotateRightLeft(siblingIndex, parentIndex, up, Branch(path.index, Black, t, s1));
    }

    /** Case 3c: the sibling is red and moves above the parent. */
    method Lift(siblingIndex: DataIndex, parentIndex: DataIndex, ghost path: Path, ghost t: Tree)
      requires Consistent() && tree == Plug(path, t) && !path.Top?
      requires siblingIndex == RootIndex(Sibling(path)) && parentIndex == path.index
      requires Sibling(path).Branch? && Sibling(path).color.Red?
      modifies `root, `tree, data
      ensures Consistent() && tree == Plug(Lifted(path), t) && InOrder(tree) == InOrder(old(tree))
      ensures SameOutside(old(data[..]), data[..], InOrder(tree)) && SameValues(old(data[..]), data[..])
    {
      View(path.up, Above(path, t));
      View(Beside(path, t), Sibling(path));
      if IsLeftChild(siblingIndex) {
        LiftLeft(siblingIndex, parentIndex, path, t);
      } else if IsRightChild(siblingIndex) {
        LiftRight(siblingIndex, parentIndex, path, t);
      }
    }

    method LiftLeft(siblingIndex: DataIndex, parentIndex: DataIndex, ghost path: Path, ghost t: Tree)
      requires Consistent() && tree == Plug(path, t) && path.RightOf?
      requires siblingIndex == RootIndex(Sibling(path)) && parentIndex == path.index
      requires Sibling(path).Branch? && Sibling(path).color.Red?
      modifies `root, `tree, data
      ensures Consistent() && tree == Plug(Lifted(path), t) && InOrder(tree) == InOrder(old(tree))
      ensures SameOutside(old(data[..]), data[..], InOrder(tree)) && SameValues(old(data[..]), data[..])
    {
      ghost var s, up, p := Sibling(path), path.up, Above(path, t);
      RotateRight(parentIndex, up, p);
      ghost var r := RotatedRight(p);
      SetColor(parentIndex, Red, RightOf(s.left, s.index, Red, up), r.right);
      SetColor(siblingIndex, Black, up, r.(right := Recolored(r.right, Red)));
    }

    method LiftRight(siblingIndex: DataIndex, parentIndex: DataIndex, ghost path: Path, ghost t: Tree)
      requires Consistent() && tree == Plug(path, t) && path.LeftOf?
      requires siblingIndex == RootIndex(Sibling(path)) && parentIndex == path.index
      requires Sibling(path).Branch? && Sibling(path).color.Red?
      modifies `root, `tree, data
      ensures Consistent() && tree == Plug(Lifted(path), t) && InOrder(tree) == InOrder(old(tree))
      ensures SameOutside(old(data[..]), data[..], InOrder(tree)) && SameValues(old(data[..]), data[..])
    {
      ghost var s, up, p := Sibling(path), path.up, Above(path, t);
      RotateLeft(parentIndex, up, p);
      ghost var r := RotatedLeft(p);
      SetColor(parentIndex, Red, LeftOf(s.index, Red, s.right, up), r.left);
      SetColor(siblingIndex, Black, up, r.(left := Recolored(r.left, Red)));
    }

    // ---- walks ----

    method LookupMaxIndex() returns (max: DataIndex)
      requires Consistent()
      ensures max == Last(InOrder(tree))
    {
      var currentIndex := root;
      if currentIndex == NIL {
        Focus(data[..], Top, tree);
        return NIL;
      }
      ghost var path, v := Top, tree;
      while true
        invariant tree == Plug(path, v) && v.Branch? && v.index == currentIndex
        invariant |Before(path)| + |InOrder(v)| == |InOrder(tree)|
        decreases v
      {
        View(path, v);
        PlugOrder(path, v);
        var rightIndex := GetRightIndex(currentIndex);
        if rightIndex == NIL {
          return currentIndex;
        }
        currentIndex := rightIndex;
        path, v := RightOf(v.left, v.index, v.color, path), v.right;
      }
    }

    /** The walk to the last slot of a left subtree. */
    method LastBelow(index: DataIndex, ghost path: Path, ghost u: Tree) returns (lower: DataIndex)
      requires Consistent() && tree == Plug(path, u) && u.Branch? && u.left.Branch? && u.index == index
      ensures lower == Last(InOrder(u.left))
    {
      View(path, u);
      lower := GetLeftIndex(index);
      ghost var q, v := LeftOf(u.index, u.color, u.right, path), u.left;
      View(q, v);
      while GetRightIndex(lower) != NIL
        invariant tree == Plug(q, v) && v.Branch? && v.index == lower && lower < data.Length
        invariant Last(InOrder(v)) == Last(InOrder(u.left))
        invariant GetRightIndex(lower) != NIL <==> v.right.Branch?
        decreases v
      {
        View(q, v);
        lower := GetRightIndex(lower);
        q, v := RightOf(v.left, v.index, v.color, q), v.right;
        View(q, v);
      }
    }

    /** The climb to the nearest ancestor whose right subtree holds the slot. */
    method LastBefore(index: DataIndex, ghost path: Path, ghost u: Tree) returns (lower: DataIndex)
      requires Consistent() && tree == Plug(path, u) && u.Branch? && u.index == index
      ensures lower == Last(Before(path))
    {
      lower := index;
      ghost var q, v := path, u;
      View(q, v);
      while IsLeftChild(lower)
        invariant tree == Plug(q, v) && v.Branch? && v.index == lower && Before(q) == Before(path)
        invariant lower < data.Length && Readable(GetParentIndex(lower))
        invariant IsLeftChild(lower) <==> q.LeftOf?
        decreases Length(q)
      {
        View(q, v);
        lower := GetParentIndex(lower);
        q, v := q.up, Above(q, v);
        View(q, v);
      }
      View(q, v);
      lower := GetParentIndex(lower);
    }

    /** The previous slot in key order; NIL for the first one. */
    method GetNextLowerIndex(index: DataIndex) returns (lower: DataIndex)
      requires Consistent() && (index == NIL || index in InOrder(tree))
      ensures index == NIL ==> lower == NIL
      ensures Precedes(InOrder(tree), lower, index)
    {
      LinkedRange(data[..], tree, NIL);
      if index == NIL {
        return NIL;
      }
      ghost var path, u := Locate(Top, tree, index);
      View(path, u);
      PreviousSlot(path, u);
      if GetLeftIndex(index) != NIL {
        lower := LastBelow(index, path, u);
      } else {
        lower := LastBefore(index, path, u);
      }
    }

    /** The next slot in key order, for a node that has a right child. */
    method GetNextHigherIndex(index: DataIndex, ghost path: Path, ghost u: Tree) returns (higher: DataIndex)
      requires Consistent() && tree == Plug(path, u) && u.Branch? && u.right.Branch? && u.index == index
      ensures higher == InOrder(u.right)[0] && higher < data.Length && data[higher].left == NIL
    {
      View(path, u);
      higher := GetRightIndex(index);
      ghost var q, v := RightOf(u.left, u.index, u.color, path), u.right;
      View(q, v);
      while GetLeftIndex(higher) != NIL
        invariant tree == Plug(q, v) && v.Branch? && v.index == higher && higher < data.Length
        invariant InOrder(v)[0] == InOrder(u.right)[0]
        invariant GetLeftIndex(higher) != NIL <==> v.left.Branch?
        decreases v
      {
        View(q, v);
        higher := GetLeftIndex(higher);
        q, v := LeftOf(v.index, v.color, v.right, q), v.left;
        View(q, v);
      }
    }

    /** The iterator: from the maximum downwards. */
    method Iterate() returns (out: seq<DataIndex>)
      requires Consistent() && (maxIndex == NIL || maxIndex == Last(InOrder(tree)))
      ensures |out| == |InOrder(tree)|
      ensures forall k | 0 <= k < |out| :: out[k] == InOrder(tree)[|out| - 1 - k]
    {
      LinkedRange(data[..], tree, NIL);
      ghost var s := InOrder(tree);
      var index := maxIndex;
      if index == NIL {
        index := LookupMaxIndex();
      }
      out := [];
      while index != NIL
        invariant |out| <= |s|
        invariant index == if |out| == |s| then NIL else s[|s| - 1 - |out|]
        invariant forall k | 0 <= k < |out| :: out[k] == s[|s| - 1 - k]
        decreases |s| - |out|
      {
        ghost var k := |s| - 1 - |out|;
        var nextIndex := GetNextLowerIndex(index);
        out := out + [index];
        index := nextIndex;
        LowerAt(s, index, k);
      }
    }

    // ---- insert and remove ----

    /** The entry of the node at a position, and where it stands in key order. */
    lemma {:induction false} EntryAt(path: Path, v: Tree)
      requires Consistent() && tree == Plug(path, v) && v.Branch?
      ensures v.index < data.Length
      ensures
        var p := |Before(path)| + |InOrder(v.left)|;
        && p + 1 + |InOrder(v.right)| + |After(path)| == |Contents()|
        && Contents()[p] == Entry(v.index, data[v.index].value)
    {
      PlugPosition(path, v);
      LinkedRange(data[..], tree, NIL);
    }

    ghost predicate SmallerUpTo(p: nat, value: V)
      requires Consistent()
      reads this, data
    {
      p <= |Contents()| && forall j | 0 <= j < p :: cmp(Contents()[j].value, value) == Less
    }

    ghost predicate NotSmallerFrom(p: nat, value: V)
      requires Consistent()
      reads this, data
    {
      p <= |Contents()| && forall j | p <= j < |Contents()| :: cmp(Contents()[j].value, value) != Less
    }

    /** What one comparison of the descent decides. */
    lemma {:induction false} Decide(path: Path, v: Tree, value: V)
      requires Consistent() && tree == Plug(path, v) && v.Branch? && Sorted(cmp, Contents()) && TotalOrder(cmp)
      ensures v.index < data.Length
      ensures |Before(path)| + |InOrder(v)| + |After(path)| == |Contents()|
      ensures
        var p := |Before(path)| + |InOrder(v.left)|;
        if cmp(data[v.index].value, value) == Less then SmallerUpTo(p + 1, value) else NotSmallerFrom(p, value)
      ensures cmp(value, data[v.index].value) == Greater <==> cmp(data[v.index].value, value) == Less
    {
      EntryAt(path, v);
      Bisect(cmp, Contents(), |Before(path)| + |InOrder(v.left)|, value);
    }

    /** The new key belongs into the subtree at `path`. */
    ghost predicate Between(path: Path, value: V)
      requires Consistent()
      reads this, data
    {
      && SmallerUpTo(|Before(path)|, value) && |After(path)| <= |Contents()|
      && NotSmallerFrom(|Contents()| - |After(path)|, value)
    }

    /** One step of the descent: the child to go on with, or NIL where that child is missing. */
    method Descend(parent: DataIndex, value: V, ghost path: Path, ghost v: Tree) returns (next: DataIndex, ghost path': Path, ghost v': Tree)
      requires Consistent() && tree == Plug(path, v) && v.Branch? && v.index == parent && parent < data.Length
      requires Sorted(cmp, Contents()) && TotalOrder(cmp) && Between(path, value)
      ensures next == NIL ==> if cmp(data[parent].value, value) == Less then v.right.Leaf? else v.left.Leaf?
      ensures next != NIL ==> tree == Plug(path', v') && v'.Branch? && v'.index == next && next < data.Length && Between(path', value)
      ensures next != NIL ==> v' == v.left || v' == v.right
    {
      View(path, v);
      Decide(path, v, value);
      match cmp(value, data[parent].value) {
        case Greater =>
          next := data[parent].right;
          path', v' := RightOf(v.left, v.index, v.color, path), v.right;
        case Less =>
          next := data[parent].left;
          path', v' := LeftOf(v.index, v.color, v.right, path), v.left;
        case Equal =>
          // A new entry stands before all its equals; `FirstInFirstOut` rests on this branch.
          next := data[parent].left;
          path', v' := LeftOf(v.index, v.color, v.right, path), v.left;
      }
    }

    /** Walks down to the free place of the new key. */
    method FindPlace(value: V) returns (parent: DataIndex, ghost path: Path, ghost v: Tree)
      requires Consistent() && tree.Branch? && Sorted(cmp, Contents()) && TotalOrder(cmp)
      ensures tree == Plug(path, v) && v.Branch? && v.index == parent && parent < data.Length
      ensures if cmp(data[parent].value, value) == Less then v.right.Leaf? else v.left.Leaf?
      ensures
        var p := |Before(path)| + |InOrder(v.left)| + if cmp(data[parent].value, value) == Less then 1 else 0;
        SmallerUpTo(p, value) && NotSmallerFrom(p, value)
    {
      parent := root;
      path, v := Top, tree;
      View(path, v);
      while data[parent].left != NIL || data[parent].right != NIL
        invariant tree == Plug(path, v) && v.Branch? && v.index == parent && parent < data.Length && Between(path, value)
        decreases v
      {
        ghost var path', v';
        var next;
        next, path', v' := Descend(parent, value, path, v);
        if next == NIL {
          break;
        }
        parent, path, v := next, path', v';
      }
      View(path, v);
      Decide(path, v, value);
    }

    /** Hangs a red leaf at the free place of the new key. */
    method InsertNodeNoFix(value: V, index: DataIndex) returns (ghost path: Path)
      requires Consistent() && tree.Branch? && Sorted(cmp, Contents()) && TotalOrder(cmp)
      requires index < data.Length && index !in InOrder(tree)
      modifies `tree, data
      ensures Consistent() && old(tree) == Plug(path, Leaf) && tree == Plug(path, Branch(index, Red, Leaf, Leaf)) && !path.Top?
      ensures InOrder(old(tree)) == Before(path) + After(path) && InOrder(tree) == Before(path) + [index] + After(path)
      ensures SameOutside(old(data[..]), data[..], InOrder(tree))
      ensures data[index].value == value && forall i | 0 <= i < data.Length && i != index :: data[i].value == old(data[i].value)
      ensures forall j | 0 <= j < |Before(path)| :: cmp(old(Contents())[j].value, value) == Less
      ensures forall j | |Before(path)| <= j < |old(Contents())| :: cmp(old(Contents())[j].value, value) != Less
    {
      ghost var v;
      var parent;
      parent, path, v := FindPlace(value);
      var node := Node(NIL, NIL, parent, Red, value);
      if cmp(data[parent].value, value) == Less {
        path := RightOf(v.left, v.index, v.color, path);
        AttachOrder(path, index);
        AttachLinked(data[..], path, index, value);
        SetRightIndex(parent, index);
      } else {
        path := LeftOf(v.index, v.color, v.right, path);
        AttachOrder(path, index);
        AttachLinked(data[..], path, index, value);
        SetLeftIndex(parent, index);
      }
      data[index] := node;
      PlugRootSame(path, Leaf, Branch(index, Red, Leaf, Leaf));
      tree := Plug(path, Branch(index, Red, Leaf, Leaf));
    }

    /** The first node of a tree. */
    method InsertRoot(index: DataIndex, value: V)
      requires WellFormed() && root == NIL && index < data.Length
      modifies this, data
      ensures WellFormed() && maxIndex == index && InOrder(tree) == [index]
      ensures InOrder(old(tree)) == [] && old(Contents()) == [] && Contents() == [Entry(index, value)]
      ensures SameOutside(old(data[..]), data[..], [index])
    {
      Focus(data[..], Top, tree);
      root := index;
      maxIndex := index;
      data[index] := Node(NIL, NIL, NIL, Black, value);
      tree := Branch(index, Black, Leaf, Leaf);
      assert InOrder(tree) == [index];
    }

    /** The part of `insert` before the fix-up: the cached maximum and the new red leaf. */
    method InsertLeaf(index: DataIndex, value: V) returns (ghost path: Path)
      requires WellFormed() && TotalOrder(cmp) && tree.Branch?
      requires index < data.Length && index !in InOrder(tree)
      modifies `tree, `maxIndex, data
      ensures Consistent() && tree == Plug(path, Branch(index, Red, Leaf, Leaf)) && RedSpot(path, Branch(index, Red, Leaf, Leaf))
      ensures RootColor(tree).Black?
      ensures Contents() == Inserted(cmp, old(Contents()), Entry(index, value)) && Sorted(cmp, Contents())
      ensures SameOutside(old(data[..]), data[..], InOrder(tree))
      ensures forall i :: i in InOrder(tree) <==> i in InOrder(old(tree)) || i == index
      ensures InOrder(tree) != [] && maxIndex == if old(maxIndex) == NIL then NIL else Last(InOrder(tree))
    {
      ghost var m, es := data[..], Contents();
      LinkedRange(m, tree, NIL);
      RaiseMax(index, value);
      path := InsertNodeNoFix(value, index);
      LeafSpot(path, index);
      LinkedRange(data[..], tree, NIL);
      LeafInserted(cmp, m, data[..], Before(path), After(path), index, value);
      NewLast(cmp, es, Before(path), After(path), index, value);
      Joined(Before(path), After(path), index);
    }

    /** A new key above the cached maximum replaces it; an equal key does not. */
    method RaiseMax(index: DataIndex, value: V)
      requires WellFormed() && tree.Branch?
      modifies `maxIndex
      ensures Contents() != []
      ensures maxIndex == if old(maxIndex) == NIL then NIL
                          else if cmp(Contents()[|Contents()| - 1].value, value) == Less then index else old(maxIndex)
    {
      MaxEntry();
      LinkedRange(data[..], tree, NIL);
      if maxIndex != NIL && cmp(data[maxIndex].value, value) == Less {
        maxIndex := index;
      }
    }

    /** Adds the block `index` with `value` as a new entry. */
    method Insert(index: DataIndex, value: V)
      requires WellFormed() && TotalOrder(cmp)
      requires index < data.Length && index !in InOrder(tree)
      modifies this, data
      ensures WellFormed()
      ensures Contents() == Inserted(cmp, old(Contents()), Entry(index, value))
      ensures SameOutside(old(data[..]), data[..], InOrder(tree))
      ensures forall i :: i in InOrder(tree) <==> i in InOrder(old(tree)) || i == index
      ensures maxIndex == if old(root) == NIL then index else if old(maxIndex) == NIL then NIL else Last(InOrder(tree))
    {
      Focus(data[..], Top, tree);
      if root == NIL {
        InsertRoot(index, value);
        return;
      }
      ghost var path := InsertLeaf(index, value);
      ghost var m := data[..];
      LinkedRange(m, tree, NIL);
      FixInserted(index, path, Branch(index, Red, Leaf, Leaf));
      EntriesSame(m, data[..], InOrder(tree));
    }

    /** The loop of `insert`, climbing from the new leaf. */
    method FixInserted(index: DataIndex, ghost leafPath: Path, ghost leaf: Tree)
      requires Consistent() && tree == Plug(leafPath, leaf) && RedSpot(leafPath, leaf) && leaf.index == index
      requires RootColor(tree).Black?
      modifies `root, `tree, data
      ensures Consistent() && Balanced(tree) && RootColor(tree).Black?
      ensures InOrder(tree) == InOrder(old(tree))
      ensures SameOutside(old(data[..]), data[..], InOrder(tree)) && SameValues(old(data[..]), data[..])
    {
      ghost var m, s := data[..], InOrder(tree);
      ghost var path, n := leafPath, leaf;
      var nodeToFix := index;
      while true
        invariant Consistent() && tree == Plug(path, n) && RedSpot(path, n) && n.index == nodeToFix
        invariant RootColor(tree).Black? || path.Top?
        invariant InOrder(tree) == s && SameValues(m, data[..]) && SameOutside(m, data[..], s)
        decreases Length(path)
      {
        nodeToFix, path, n := InsertFix(nodeToFix, path, n);
        if nodeToFix == NIL {
          break;
        }
      }
    }

    /** The invariant read off the memory. */
    lemma Meaning()
      requires Consistent()
      ensures InRange(data[..], InOrder(tree)) && Contents() == Entries(data[..], InOrder(tree))
      ensures WellFormed() <==> WellFormedIn(data[..], cmp, root, maxIndex, tree)
    {
      LinkedRange(data[..], tree, NIL);
    }

    /** A change of memory elsewhere leaves this tree alone. */
    lemma Unaffected(m: seq<Node<V>>)
      requires |m| == data.Length && WellFormedIn(m, cmp, root, maxIndex, tree)
      requires forall i <- InOrder(tree) :: i < data.Length ==> data[i] == m[i]
      ensures WellFormed() && InRange(m, InOrder(tree)) && Contents() == Entries(m, InOrder(tree))
    {
      LinkedFrame(m, data[..], tree, NIL);
      LinkedRange(m, tree, NIL);
      EntriesSame(m, data[..], InOrder(tree));
    }

    lemma SlotsOfContents()
      requires Consistent()
      ensures |Contents()| == |InOrder(tree)|
      ensures forall k | 0 <= k < |InOrder(tree)| :: Contents()[k].index == InOrder(tree)[k] && InOrder(tree)[k] != NIL
      ensures root == NIL <==> Contents() == []
    {
      LinkedRange(data[..], tree, NIL);
      Focus(data[..], Top, tree);
    }

    lemma EmptyContents()
      requires Consistent() && root == NIL
      ensures Contents() == [] && InOrder(tree) == []
    {
      Focus(data[..], Top, tree);
    }

    /** What the cached maximum knows about the last entry. */
    lemma MaxEntry()
      requires WellFormed()
      ensures maxIndex != NIL ==>
                && maxIndex < data.Length && Contents() != []
                && Contents()[|Contents()| - 1] == Entry(maxIndex, data[maxIndex].value)
    {
      LinkedRange(data[..], tree, NIL);
    }

    predicate IsInternal(index: DataIndex)
      requires index < data.Length
      reads data
    {
      data[index].right != NIL && data[index].left != NIL
    }

    /** First step of a removal: a node with two children trades places with its successor. */
    method MakeExternal(index: DataIndex, ghost k: nat) returns (ghost path: Path, ghost u: Tree)
      requires Consistent() && Balanced(tree) && RootColor(tree).Black?
      requires k < |InOrder(tree)| && InOrder(tree)[k] == index
      modifies `root, `tree, data
      ensures Consistent() && Balanced(tree) && RootColor(tree).Black?
      ensures tree == Plug(path, u) && u.Branch? && u.index == index && (u.left.Leaf? || u.right.Leaf?)
      ensures Before(path) + InOrder(u.left) + InOrder(u.right) + After(path) == InOrder(old(tree))[..k] + InOrder(old(tree))[k + 1..]
      ensures forall i :: i in InOrder(tree) <==> i in InOrder(old(tree))
      ensures SameOutside(old(data[..]), data[..], InOrder(old(tree))) && SameValues(old(data[..]), data[..])
    {
      path, u := AtSlot(index, k);
      if IsInternal(index) {
        path, u := TradeAndFind(index, path, u, k);
      }
    }

    /** The trade, and where the node stands after it. */
    method TradeAndFind(index: DataIndex, ghost path: Path, ghost u: Tree, ghost k: nat) returns (ghost path': Path, ghost u': Tree)
      requires Consistent() && Balanced(tree) && RootColor(tree).Black?
      requires tree == Plug(path, u) && u.Branch? && u.index == index && u.right.Branch?
      requires k == |Before(path)| + |InOrder(u.left)| && k < |InOrder(tree)| && InOrder(tree)[k] == index
      modifies `root, `tree, data
      ensures Consistent() && Balanced(tree) && RootColor(tree).Black?
      ensures tree == Plug(path', u') && u'.Branch? && u'.index == index && u'.left.Leaf?
      ensures Before(path') + InOrder(u'.left) + InOrder(u'.right) + After(path') == InOrder(old(tree))[..k] + InOrder(old(tree))[k + 1..]
      ensures forall i :: i in InOrder(tree) <==> i in InOrder(old(tree))
      ensures SameOutside(old(data[..]), data[..], InOrder(old(tree))) && SameValues(old(data[..]), data[..])
    {
      TradePlaces(index, path, u, k);
      path', u' := AtSlot(index, k + 1);
    }

    /** The node at position `k` of the key order, and what stays when it goes. */
    lemma {:induction false} AtSlot(index: DataIndex, k: nat) returns (path: Path, u: Tree)
      requires Consistent() && k < |InOrder(tree)| && InOrder(tree)[k] == index
      ensures tree == Plug(path, u) && u.Branch? && u.index == index && index < data.Length
      ensures k == |Before(path)| + |InOrder(u.left)|
      ensures Before(path) + InOrder(u.left) + InOrder(u.right) + After(path) == InOrder(tree)[..k] + InOrder(tree)[k + 1..]
      ensures (data[index].left == NIL <==> u.left.Leaf?) && (data[index].right == NIL <==> u.right.Leaf?)
    {
      path, u := Locate(Top, tree, index);
      View(path, u);
      WithoutSlot(path, u, k);
    }

    method TradePlaces(index: DataIndex, ghost path: Path, ghost u: Tree, ghost k: nat)
      requires Consistent() && Balanced(tree) && RootColor(tree).Black?
      requires tree == Plug(path, u) && u.Branch? && u.index == index && u.right.Branch?
      requires k == |Before(path)| + |InOrder(u.left)| && k < |InOrder(tree)| && InOrder(tree)[k] == index
      modifies `root, `tree, data
      ensures Consistent() && Balanced(tree) && RootColor(tree).Black?
      ensures index < data.Length && data[index].left == NIL
      ensures
        var s, t := InOrder(old(tree)), InOrder(tree);
        && k + 1 < |s| && |t| == |s| && t[k + 1] == index && t[..k + 1] + t[k + 2..] == s[..k] + s[k + 1..]
        && forall i :: i in t <==> i in s
      ensures SameOutside(old(data[..]), data[..], InOrder(old(tree))) && SameValues(old(data[..]), data[..])
    {
      var successorIndex := GetNextHigherIndex(index, path, u);
      SuccessorPosition(path, u, k);
      ExchangedBalanced(tree, index, successorIndex);
      ExchangedAdjacent(tree, index, successorIndex, k);
      CutExchanged(InOrder(tree), k);
      SwapNodeWithSuccessor(index, successorIndex, path, u);
    }

    /** Second step: takes the node out and repairs the colours. */
    method Detach(index: DataIndex, ghost path: Path, ghost u: Tree)
      requires Consistent() && Balanced(tree) && RootColor(tree).Black?
      requires tree == Plug(path, u) && u.Branch? && u.index == index && (u.left.Leaf? || u.right.Leaf?)
      modifies `root, `tree, data
      ensures Consistent() && Balanced(tree) && RootColor(tree).Black?
      ensures InOrder(tree) == Before(path) + InOrder(u.left) + InOrder(u.right) + After(path)
      ensures SameOutside(old(data[..]), data[..], InOrder(old(tree))) && SameValues(old(data[..]), data[..])
    {
      View(path, u);
      SpliceOrder(path, u);
      ghost var m, s, rest := data[..], InOrder(tree), InOrder(Plug(path, OnlyChild(u)));
      assert forall i <- rest :: i in s;
      var toDeleteColor := GetColor(index);
      var childColor := if GetColor(GetLeftIndex(index)) == Red || GetColor(GetRightIndex(index)) == Red then Red else Black;
      var childIndex := GetChildIndex(index);
      var parentIndex := GetParentIndex(index);
      if childColor == Red || toDeleteColor == Red {
        SpliceRed(path, u);
        UpdateParentChild(index, path, u);
        SetColor(childIndex, Black, path, OnlyChild(u));
        return;
      }
      SpliceBlack(path, u);
      UpdateParentChild(index, path, u);

      var nodesToFix := (childIndex, parentIndex);
      ghost var q, t := path, OnlyChild(u);
      while true
        invariant Consistent() && tree == Plug(q, t) && DoubleBlack(q, t) && RootColor(tree).Black?
        invariant nodesToFix.0 == RootIndex(t) && nodesToFix.1 == Parent(q)
        invariant InOrder(tree) == rest && SameOutside(m, data[..], s) && SameValues(m, data[..])
        decreases FixMeasure(q)
      {
        var nextIndex, nextParent;
        nextIndex, nextParent, q, t := RemoveFix(nodesToFix.0, nodesToFix.1, q, t);
        nodesToFix := (nextIndex, nextParent);
        if nodesToFix.0 == NIL && nodesToFix.1 == NIL {
          break;
        }
      }
    }

    /** Takes the entry of block `index` out; there is none for NIL. */
    method RemoveByIndex(index: DataIndex)
      requires WellFormed() && (index == NIL || index in InOrder(tree))
      modifies this, data
      ensures WellFormed()
      ensures Contents() == if index == NIL then old(Contents()) else Removed(old(Contents()), index)
      ensures SameOutside(old(data[..]), data[..], InOrder(old(tree))) && SameValues(old(data[..]), data[..])
      ensures forall i :: i in InOrder(tree) <==> i in InOrder(old(tree)) && i != index
      ensures maxIndex == if old(maxIndex) == NIL then NIL else Last(InOrder(tree))
    {
      LinkedRange(data[..], tree, NIL);
      if index == NIL {
        return;
      }
      ghost var k :| 0 <= k < |InOrder(tree)| && InOrder(tree)[k] == index;
      SlotGone(InOrder(tree), k);
      RemoveNode(index, k);
    }

    method RemoveNode(index: DataIndex, ghost k: nat)
      requires WellFormed() && k < |InOrder(tree)| && InOrder(tree)[k] == index
      modifies this, data
      ensures WellFormed()
      ensures Contents() == Removed(old(Contents()), index)
      ensures SameOutside(old(data[..]), data[..], InOrder(old(tree))) && SameValues(old(data[..]), data[..])
      ensures InOrder(tree) == InOrder(old(tree))[..k] + InOrder(old(tree))[k + 1..]
      ensures maxIndex == if old(maxIndex) == NIL then NIL else Last(InOrder(tree))
    {
      ghost var m, s := data[..], InOrder(tree);
      LinkedRange(m, tree, NIL);
      SlotRemoved(cmp, m, s, k);
      DropMax(index, k);
      TakeOut(index, k);
      EntriesSame(m, data[..], InOrder(tree));
    }

    method TakeOut(index: DataIndex, ghost k: nat)
      requires Consistent() && Balanced(tree) && RootColor(tree).Black?
      requires k < |InOrder(tree)| && InOrder(tree)[k] == index
      modifies `root, `tree, data
      ensures Consistent() && Balanced(tree) && RootColor(tree).Black?
      ensures InOrder(tree) == InOrder(old(tree))[..k] + InOrder(old(tree))[k + 1..]
      ensures SameOutside(old(data[..]), data[..], InOrder(old(tree))) && SameValues(old(data[..]), data[..])
    {
      ghost var path, u := MakeExternal(index, k);
      Detach(index, path, u);
    }

    /** Removing the maximum moves the cache to its predecessor. */
    method DropMax(index: DataIndex, ghost k: nat)
      requires WellFormed() && k < |InOrder(tree)| && InOrder(tree)[k] == index
      modifies `maxIndex
      ensures maxIndex == if old(maxIndex) == NIL then NIL else Last(InOrder(tree)[..k] + InOrder(tree)[k + 1..])
    {
      LastWithout(InOrder(tree), k);
      LinkedRange(data[..], tree, NIL);
      if index == maxIndex {
        maxIndex := GetNextLowerIndex(maxIndex);
      }
    }

    // ---- lookup ----

    /** A slot of the tree whose payload the probe is looking for. */
    ghost predicate Hit(i: DataIndex, value: V)
      reads data
    {
      i < data.Length && Matches(cmp, same, data[i].value, value)
    }

    /** Equal in the key order, but another payload. */
    ghost predicate Near(i: DataIndex, value: V)
      reads data
    {
      i < data.Length && cmp(data[i].value, value) == Equal && !same(data[i].value, value)
    }

    /** The way down is to the right all along and passes near misses only. */
    ghost predicate RightSpine(path: Path, value: V)
      reads data
    {
      match path
      case Top => true
      case LeftOf(_, _, _, _) => false
      case RightOf(_, i, _, up) => Near(i, value) && RightSpine(up, value)
    }

    /** The rightmost way down has full height and consists of near misses. */
    ghost predicate FullSpine(t: Tree, value: V)
      reads data
    {
      t.Branch? ==> Near(t.index, value) && Height(t) == 1 + Height(t.right) && FullSpine(t.right, value)
    }

    /** Entry `k` of the work stack: the root of a subtree that lies deep enough below the root
        of the tree; one that uses up the whole height ends a right spine. */
    ghost predicate Placed(i: DataIndex, path: Path, t: Tree, k: nat, value: V)
      reads this, data
    {
      && Plug(path, t) == tree && i == RootIndex(t) && k + Height(t) <= Height(tree)
      && (k + Height(t) == Height(tree) ==> Length(path) == k && RightSpine(path, value))
    }

    ghost predicate Frontier(stack: seq<DataIndex>, ps: seq<Path>, ts: seq<Tree>, value: V)
      reads this, data
    {
      |stack| == |ps| == |ts| && forall k | 0 <= k < |ts| :: Placed(stack[k], ps[k], ts[k], k, value)
    }

    lemma {:induction false} PlugHeight(path: Path, t: Tree)
      ensures Height(Plug(path, t)) >= Length(path) + Height(t)
      decreases path
    {
      if !path.Top? {
        PlugHeight(path.up, Above(path, t));
      }
    }

    lemma {:induction false} SpineUp(path: Path, t: Tree, value: V)
      requires FullSpine(t, value) && RightSpine(path, value) && Height(Plug(path, t)) == Length(path) + Height(t)
      ensures FullSpine(Plug(path, t), value)
      decreases path
    {
      if !path.Top? {
        PlugHeight(path.up, Above(path, t));
        SpineUp(path.up, Above(path, t), value);
      }
    }

    lemma Push(stack: seq<DataIndex>, ps: seq<Path>, ts: seq<Tree>, path: Path, t: Tree, value: V)
      requires Frontier(stack, ps, ts, value) && Placed(RootIndex(t), path, t, |ts|, value)
      ensures Frontier(stack + [RootIndex(t)], ps + [path], ts + [t], value)
      ensures Pending(ts + [t]) == Pending(ts) + InOrder(t)
    {
      PendingPush(ts, t);
      var stack', ps', ts' := stack + [RootIndex(t)], ps + [path], ts + [t];
      forall k | 0 <= k < |ts'| ensures Placed(stack'[k], ps'[k], ts'[k], k, value) {
        if k < |ts| {
          assert Placed(stack[k], ps[k], ts[k], k, value);
        }
      }
    }

    lemma Pop(stack: seq<DataIndex>, ps: seq<Path>, ts: seq<Tree>, value: V) returns (path: Path, v: Tree)
      requires Consistent() && Frontier(stack, ps, ts, value) && stack != []
      ensures
        var n := |stack| - 1;
        && v == ts[n] && Frontier(stack[..n], ps[..n], ts[..n], value) && Placed(stack[n], path, v, n, value)
        && (if stack[n] == NIL then v.Leaf? else v.Branch? && v.index in InOrder(tree))
        && Pending(ts) == Pending(ts[..n]) + InOrder(v)
    {
      var n := |stack| - 1;
      path, v := ps[n], ts[n];
      assert Placed(stack[n], path, v, n, value);
      Focus(data[..], path, v);
    }

    /** Where the children of entry `n` may go; only the right child of a near miss can use up
        the whole height. */
    lemma PlaceChildren(path: Path, v: Tree, n: nat, value: V)
      requires v.Branch? && Placed(v.index, path, v, n, value)
      ensures Placed(RootIndex(v.left), LeftOf(v.index, v.color, v.right, path), v.left, n, value)
      ensures Placed(RootIndex(v.right), RightOf(v.left, v.index, v.color, path), v.right, n, value)
      ensures Near(v.index, value) ==> Placed(RootIndex(v.right), RightOf(v.left, v.index, v.color, path), v.right, n + 1, value)
    {
    }

    /** Every hit is among the slots `rest`. */
    ghost predicate Covered(rest: seq<DataIndex>, value: V)
      requires Consistent()
      reads this, data
    {
      forall i <- InOrder(tree) :: Hit(i, value) ==> i in rest
    }

    lemma VisitBoth(stack: seq<DataIndex>, ps: seq<Path>, ts: seq<Tree>, path: Path, v: Tree, value: V)
      requires Consistent() && v.Branch? && Placed(v.index, path, v, |ts|, value) && Near(v.index, value)
      requires Frontier(stack, ps, ts, value) && Covered(Pending(ts) + InOrder(v), value)
      ensures Frontier(stack + [RootIndex(v.left)] + [RootIndex(v.right)],
                       ps + [LeftOf(v.index, v.color, v.right, path)] + [RightOf(v.left, v.index, v.color, path)],
                       ts + [v.left] + [v.right], value)
      ensures Covered(Pending(ts + [v.left] + [v.right]), value)
      ensures |Pending(ts + [v.left] + [v.right])| < |Pending(ts) + InOrder(v)|
    {
      PlaceChildren(path, v, |ts|, value);
      Push(stack, ps, ts, LeftOf(v.index, v.color, v.right, path), v.left, value);
      Push(stack + [RootIndex(v.left)], ps + [LeftOf(v.index, v.color, v.right, path)], ts + [v.left],
           RightOf(v.left, v.index, v.color, path), v.right, value);
      CoveredBoth(Pending(ts), v, value);
    }

    /** A near miss is no hit, so its two subtrees cover what it covered. */
    lemma CoveredBoth(rest: seq<DataIndex>, v: Tree, value: V)
      requires Consistent() && v.Branch? && Near(v.index, value) && Covered(rest + InOrder(v), value)
      ensures Covered(rest + InOrder(v.left) + InOrder(v.right), value)
    {
      forall i <- InOrder(tree) | Hit(i, value) ensures i in rest + InOrder(v.left) + InOrder(v.right) {
        assert i in rest + InOrder(v) && i != v.index;
        assert i in rest || i in InOrder(v.left) || i in InOrder(v.right);
      }
    }

    lemma VisitLeft(stack: seq<DataIndex>, ps: seq<Path>, ts: seq<Tree>, path: Path, v: Tree, value: V)
      requires WellFormed() && TotalOrder(cmp) && v.Branch? && Placed(v.index, path, v, |ts|, value)
      requires v.index < data.Length && cmp(data[v.index].value, value) == Greater
      requires Frontier(stack, ps, ts, value) && Covered(Pending(ts) + InOrder(v), value)
      ensures Frontier(stack + [RootIndex(v.left)], ps + [LeftOf(v.index, v.color, v.right, path)], ts + [v.left], value)
      ensures Covered(Pending(ts + [v.left]), value)
      ensures |Pending(ts + [v.left])| < |Pending(ts) + InOrder(v)|
    {
      LinkedRange(data[..], tree, NIL);
      PruneRight(cmp, data[..], path, v, value);
      PlaceChildren(path, v, |ts|, value);
      Push(stack, ps, ts, LeftOf(v.index, v.color, v.right, path), v.left, value);
    }

    lemma VisitRight(stack: seq<DataIndex>, ps: seq<Path>, ts: seq<Tree>, path: Path, v: Tree, value: V)
      requires WellFormed() && TotalOrder(cmp) && v.Branch? && Placed(v.index, path, v, |ts|, value)
      requires v.index < data.Length && cmp(data[v.index].value, value) == Less
      requires Frontier(stack, ps, ts, value) && Covered(Pending(ts) + InOrder(v), value)
      ensures Frontier(stack + [RootIndex(v.right)], ps + [RightOf(v.left, v.index, v.color, path)], ts + [v.right], value)
      ensures Covered(Pending(ts + [v.right]), value)
      ensures |Pending(ts + [v.right])| < |Pending(ts) + InOrder(v)|
    {
      LinkedRange(data[..], tree, NIL);
      PruneLeft(cmp, data[..], path, v, value);
      PlaceChildren(path, v, |ts|, value);
      Push(stack, ps, ts, RightOf(v.left, v.index, v.color, path), v.right, value);
    }

    /** With a full spine of near misses the top of the stack is still on it. */
    ghost predicate OnSpine(ts: seq<Tree>, value: V)
      reads this, data
    {
      ts != [] && |ts| - 1 + Height(ts[|ts| - 1]) == Height(tree) && FullSpine(ts[|ts| - 1], value)
    }

    /** One visit of the search: report the node or put the subtrees that remain on the stack. */
    method Visit(currentIndex: DataIndex, value: V, stack: seq<DataIndex>, ghost ps: seq<Path>, ghost ts: seq<Tree>, ghost path: Path, ghost v: Tree)
      returns (found: bool, stack': seq<DataIndex>, ghost ps': seq<Path>, ghost ts': seq<Tree>)
      requires WellFormed() && TotalOrder(cmp) && v.Branch? && Placed(currentIndex, path, v, |ts|, value)
      requires Frontier(stack, ps, ts, value) && Covered(Pending(ts) + InOrder(v), value)
      ensures found ==> Hit(currentIndex, value)
      ensures Frontier(stack', ps', ts', value)
      ensures !found ==> Covered(Pending(ts'), value)
      ensures !found ==> |Pending(ts')| < |Pending(ts) + InOrder(v)| && |ts'| <= |ts| + 2
      ensures Near(currentIndex, value) ==> !found && ts' == ts + [v.left] + [v.right]
    {
      found, stack', ps', ts' := false, stack, ps, ts;
      View(path, v);
      ghost var toLeft, toRight := LeftOf(v.index, v.color, v.right, path), RightOf(v.left, v.index, v.color, path);
      match cmp(data[currentIndex].value, value) {
        case Equal =>
          // A near miss rules out neither subtree.
          if same(data[currentIndex].value, value) {
            found := true;
            return;
          }
          VisitBoth(stack, ps, ts, path, v, value);
          stack' := stack + [GetLeftIndex(currentIndex)];
          stack' := stack' + [GetRightIndex(currentIndex)];
          ps', ts' := ps + [toLeft] + [toRight], ts + [v.left] + [v.right];
        case Greater =>
          VisitLeft(stack, ps, ts, path, v, value);
          stack' := stack + [GetLeftIndex(currentIndex)];
          ps', ts' := ps + [toLeft], ts + [v.left];
        case Less =>
          VisitRight(stack, ps, ts, path, v, value);
          stack' := stack + [GetRightIndex(currentIndex)];
          ps', ts' := ps + [toRight], ts + [v.right];
      }
    }

    /** One round of the search: takes the top of the stack and, unless it is NIL, visits it. */
    method Round(value: V, stack: seq<DataIndex>, ghost ps: seq<Path>, ghost ts: seq<Tree>)
      returns (found: bool, currentIndex: DataIndex, stack': seq<DataIndex>, ghost ps': seq<Path>, ghost ts': seq<Tree>)
      requires WellFormed() && TotalOrder(cmp) && stack != []
      requires Frontier(stack, ps, ts, value) && Covered(Pending(ts), value)
      ensures found ==> currentIndex != NIL && currentIndex in InOrder(tree) && Hit(currentIndex, value)
      ensures Frontier(stack', ps', ts', value)
      ensures !found ==> Covered(Pending(ts'), value) && 2 * |Pending(ts')| + |ts'| < 2 * |Pending(ts)| + |ts|
      ensures OnSpine(ts, value) && |ts| <= Height(tree) ==> !found && OnSpine(ts', value)
    {
      var n := |stack| - 1;
      currentIndex := stack[n];
      ghost var path, v := Pop(stack, ps, ts, value);
      found, stack', ps', ts' := false, stack[..n], ps[..n], ts[..n];
      if currentIndex != NIL {
        found, stack', ps', ts' := Visit(currentIndex, value, stack', ps', ts', path, v);
      }
    }

    /** The search starts with the root alone. */
    lemma Start(value: V)
      requires Consistent() && tree.Branch?
      ensures Frontier([root], [Top], [tree], value) && Covered(Pending([tree]), value)
      ensures FullSpine(tree, value) ==> OnSpine([tree], value)
    {
      PendingPush([], tree);
      assert [] + InOrder(tree) == InOrder(tree);
      assert Placed(root, Top, tree, 0, value);
    }

    lemma StackHeight(stack: seq<DataIndex>, ps: seq<Path>, ts: seq<Tree>, value: V)
      requires Frontier(stack, ps, ts, value)
      ensures |stack| <= Height(tree) + 1
      ensures |stack| == Height(tree) + 1 ==> FullSpine(tree, value)
    {
      if stack != [] {
        var n := |stack| - 1;
        assert Placed(stack[n], ps[n], ts[n], n, value);
        if n == Height(tree) {
          SpineUp(ps[n], ts[n], value);
        }
      }
    }

    /** Finds a node equal to the probe in both senses. `peak` is the largest stack size: it
        exceeds the height of the tree, by one, exactly when the rightmost way down has full
        height and consists of near misses. */
    method LookupIndex(value: V) returns (index: DataIndex, ghost peak: nat)
      requires WellFormed() && TotalOrder(cmp)
      ensures index != NIL ==> index in InOrder(tree) && Hit(index, value)
      ensures index == NIL ==> forall i <- InOrder(tree) :: !Hit(i, value)
      ensures peak <= Height(tree) + 1
      ensures peak == Height(tree) + 1 <==> tree.Branch? && FullSpine(tree, value)
    {
      peak := 0;
      Focus(data[..], Top, tree);
      if root == NIL {
        return NIL, 0;
      }
      var stack := [root];
      ghost var ps, ts := [Top], [tree];
      peak := 1;
      Start(value);
      while stack != []
        invariant Frontier(stack, ps, ts, value) && Covered(Pending(ts), value)
        invariant peak <= Height(tree) + 1
        invariant peak == Height(tree) + 1 ==> FullSpine(tree, value)
        invariant FullSpine(tree, value) ==> peak == Height(tree) + 1 || OnSpine(ts, value)
        decreases 2 * |Pending(ts)| + |ts|
      {
        StackHeight(stack, ps, ts, value);
        peak := if |stack| > peak then |stack| else peak;
        var found, currentIndex;
        found, currentIndex, stack, ps, ts := Round(value, stack, ps, ts);
        if found {
          return currentIndex, peak;
        }
      }
      index := NIL;
    }
  }

  function ByFirst(a: (int, int), b: (int, int)): Ordering {
    if a.0 < b.0 then Less else if a.0 > b.0 then Greater else Equal
  }

  /** The smallest search that outgrows its tree: one node stores (7, 1), the probe (7, 2) equals it
      only in key order, and both missing children wait on the stack together. */
  method OneNearMiss() returns (index: DataIndex, ghost peak: nat, ghost height: nat)
    ensures index == NIL && peak == 2 && height == 1
  {
    var data := new Node<(int, int)>[1](_ => Node(NIL, NIL, NIL, Black, (0, 0)));
    var t := new RedBlackTree<(int, int)>(data, NIL, NIL, ByFirst, (a, b) => a == b, Leaf);
    t.Insert(0, (7, 1));
    assert t.Contents() == [Entry(0, (7, 1))];
    height := Height(t.tree);
    index, peak := t.LookupIndex((7, 2));
  }
}
