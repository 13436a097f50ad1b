/** `ts/src/accounts/trees.ts`: the client's own walk over the same memory. */
module Walkers {
  import opened Hypertree
  import opened Shape
  import opened Links
  import opened Swap
  import opened Order

  /** `dynamic` stores `tree` with its root in slot `root`. */
  ghost predicate Stores<V>(dynamic: seq<Node<V>>, root: DataIndex, tree: Tree) {
    |dynamic| <= NIL && root == RootIndex(tree) && Linked(dynamic, tree, NIL) && Distinct(tree)
  }

  /** What the walkers read at a position. */
  lemma {:induction false} Record<V>(dynamic: seq<Node<V>>, path: Path, t: Tree)
    requires |dynamic| <= NIL && Linked(dynamic, Plug(path, t), NIL) && Distinct(Plug(path, t)) && t.Branch?
    ensures t.index < |dynamic|
    ensures dynamic[t.index].parent == Parent(path)
    ensures dynamic[t.index].left == RootIndex(t.left) && (RootIndex(t.left) == NIL <==> t.left.Leaf?)
    ensures dynamic[t.index].right == RootIndex(t.right) && (RootIndex(t.right) == NIL <==> t.right.Leaf?)
    ensures Parent(path) == NIL <==> path.Top?
    ensures !path.Top? ==> Parent(path) < |dynamic|
    ensures !path.Top? ==> (dynamic[Parent(path)].left == t.index <==> path.LeftOf?)
    ensures !path.Top? ==> (dynamic[Parent(path)].right == t.index <==> path.RightOf?)
  {
    Focus(dynamic, path, t);
    assert Linked(dynamic, t.left, t.index) && Linked(dynamic, t.right, t.index);
  }

  /** The first slot of the subtree `t`, in key order. */
  method Leftmost<V>(dynamic: array<Node<V>>, start: DataIndex, ghost path: Path, ghost t: Tree)
    returns (cur: DataIndex)
    requires dynamic.Length <= NIL && Linked(dynamic[..], Plug(path, t), NIL) && Distinct(Plug(path, t)) && start == RootIndex(t)
    ensures cur == if InOrder(t) == [] then NIL else InOrder(t)[0]
  {
    Focus(dynamic[..], path, t);
    cur := start;
    ghost var q, v := path, t;
    while cur != NIL
      invariant Plug(q, v) == Plug(path, t) && cur == RootIndex(v) && (v.Leaf? ==> t.Leaf?)
      invariant v.Branch? ==> t.Branch? && InOrder(v)[0] == InOrder(t)[0]
      invariant cur == NIL <==> v.Leaf?
      decreases v
    {
      Record(dynamic[..], q, v);
      var left := dynamic[cur].left;
      if left == NIL {
        return;
      }
      cur := left;
      q, v := LeftOf(v.index, v.color, v.right, q), v.left;
    }
    cur := NIL;
  }

  /** The last slot of the subtree `t`, in key order. */
  method Rightmost<V>(dynamic: array<Node<V>>, start: DataIndex, ghost path: Path, ghost t: Tree)
    returns (cur: DataIndex)
    requires dynamic.Length <= NIL && Linked(dynamic[..], Plug(path, t), NIL) && Distinct(Plug(path, t)) && start == RootIndex(t)
    ensures cur == Last(InOrder(t))
  {
    Focus(dynamic[..], path, t);
    cur := start;
    ghost var q, v := path, t;
    while cur != NIL
      invariant Plug(q, v) == Plug(path, t) && cur == RootIndex(v) && (v.Leaf? ==> t.Leaf?)
      invariant v.Branch? ==> t.Branch? && Last(InOrder(v)) == Last(InOrder(t))
      invariant cur == NIL <==> v.Leaf?
      decreases v
    {
      Record(dynamic[..], q, v);
      var right := dynamic[cur].right;
      if right == NIL {
        return;
      }
      cur := right;
      q, v := RightOf(v.left, v.index, v.color, q), v.right;
    }
    cur := NIL;
  }

  method Predecessor<V>(dynamic: array<Node<V>>, index: DataIndex, ghost root: DataIndex, ghost tree: Tree) returns (lower: DataIndex)
    requires Stores(dynamic[..], root, tree) && (index == NIL || index in InOrder(tree))
    ensures index == NIL ==> lower == NIL
    ensures Precedes(InOrder(tree), lower, index)
  {
    LinkedRange(dynamic[..], tree, NIL);
    if index == NIL {
      return NIL;
    }
    ghost var path, u := Locate(Top, tree, index);
    ghost var k := |Before(path)| + |InOrder(u.left)|;
    Record(dynamic[..], path, u);
    PlugPosition(path, u);
    var left := dynamic[index].left;
    if left != NIL {
      PlugLeftAt(path, u, |InOrder(u.left)| - 1);
      lower := Rightmost(dynamic, left, LeftOf(u.index, u.color, u.right, path), u.left);
      return;
    }
    var cur := index;
    var parent := dynamic[cur].parent;
    while parent != NIL && dynamic[parent].left == cur
      invariant tree == Plug(path, u) && u.Branch? && u.index == cur && |Before(path)| == k
      invariant parent == Parent(path) && (parent == NIL <==> path.Top?)
      invariant parent != NIL ==> parent < dynamic.Length && (dynamic[parent].left == cur <==> path.LeftOf?)
      decreases Length(path)
    {
      Record(dynamic[..], path.up, Above(path, u));
      cur := parent;
      parent := dynamic[cur].parent;
      path, u := path.up, Above(path, u);
    }
    PlugOrder(path, u);
    return parent;
  }

  method Successor<V>(dynamic: array<Node<V>>, index: DataIndex, ghost root: DataIndex, ghost tree: Tree) returns (higher: DataIndex)
    requires Stores(dynamic[..], root, tree) && (index == NIL || index in InOrder(tree))
    ensures index == NIL ==> higher == NIL
    ensures Follows(InOrder(tree), higher, index)
  {
    LinkedRange(dynamic[..], tree, NIL);
    if index == NIL {
      return NIL;
    }
    ghost var path, u := Locate(Top, tree, index);
    ghost var k := |Before(path)| + |InOrder(u.left)|;
    Record(dynamic[..], path, u);
    PlugPosition(path, u);
    var right := dynamic[index].right;
    if right != NIL {
      PlugRightAt(path, u, 0);
      higher := Leftmost(dynamic, right, RightOf(u.left, u.index, u.color, path), u.right);
      return;
    }
    var cur := index;
    var parent := dynamic[cur].parent;
    while parent != NIL && dynamic[parent].right == cur
      invariant tree == Plug(path, u) && u.Branch? && u.index == cur && |InOrder(tree)| - |After(path)| == k + 1
      invariant parent == Parent(path) && (parent == NIL <==> path.Top?)
      invariant parent != NIL ==> parent < dynamic.Length && (dynamic[parent].right == cur <==> path.RightOf?)
      decreases Length(path)
    {
      Record(dynamic[..], path.up, Above(path, u));
      cur := parent;
      parent := dynamic[cur].parent;
      path, u := path.up, Above(path, u);
    }
    PlugOrder(path, u);
    return parent;
  }

  /** The values that the descending generator yields, in order. */
  method WalkDescending<V>(dynamic: array<Node<V>>, rootIndex: DataIndex, ghost tree: Tree) returns (out: seq<DataIndex>)
    requires Stores(dynamic[..], rootIndex, tree)
    ensures |out| == |InOrder(tree)|
    ensures forall k | 0 <= k < |out| :: out[k] == InOrder(tree)[|out| - 1 - k]
  {
    ghost var s := InOrder(tree);
    LinkedRange(dynamic[..], tree, NIL);
    Focus(dynamic[..], Top, tree);
    out := [];
    if rootIndex == NIL {
      return;
    }
    var cur := Rightmost(dynamic, rootIndex, Top, tree);
    while cur != NIL
      invariant |out| <= |s| && cur == if |out| == |s| then NIL else s[|s| - 1 - |out|]
      invariant forall k | 0 <= k < |out| :: out[k] == s[|s| - 1 - k]
      decreases |s| - |out|
    {
      ghost var k := |s| - 1 - |out|;
      out := out + [cur];
      cur := Predecessor(dynamic, cur, rootIndex, tree);
      LowerAt(s, cur, k);
    }
  }

  /** The values that the ascending generator yields, in order. */
  method WalkAscending<V>(dynamic: array<Node<V>>, rootIndex: DataIndex, ghost tree: Tree) returns (out: seq<DataIndex>)
    requires Stores(dynamic[..], rootIndex, tree)
    ensures out == InOrder(tree)
  {
    ghost var s := InOrder(tree);
    LinkedRange(dynamic[..], tree, NIL);
    Focus(dynamic[..], Top, tree);
    out := [];
    if rootIndex == NIL {
      return;
    }
    var cur := Leftmost(dynamic, rootIndex, Top, tree);
    while cur != NIL
      invariant |out| <= |s| && cur == if |out| == |s| then NIL else s[|out|]
      invariant out == s[..|out|]
      decreases |s| - |out|
    {
      ghost var k := |out|;
      out := out + [cur];
      cur := Successor(dynamic, cur, rootIndex, tree);
      HigherAt(s, cur, k);
    }
  }
}
