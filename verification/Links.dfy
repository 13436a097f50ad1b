/** The link surgery of `lib/src/red_black_tree.rs` as functions on the whole memory, and
    what each of them does to the stored tree. */
module Links {
  import opened Hypertree
  import opened Shape

  /** Memory changed at most inside `inside`. */
  ghost predicate SameOutside<V>(m: seq<Node<V>>, n: seq<Node<V>>, inside: seq<DataIndex>) {
    |m| == |n| && forall i | 0 <= i < |m| && i !in inside :: n[i] == m[i]
  }

  /** No payload changed. */
  ghost predicate SameValues<V>(m: seq<Node<V>>, n: seq<Node<V>>) {
    |m| == |n| && forall i | 0 <= i < |m| :: n[i].value == m[i].value
  }

  // The effect of one link write; writing to NIL does nothing.

  function WithLeft<V>(m: seq<Node<V>>, i: DataIndex, left: DataIndex): seq<Node<V>> {
    if i == NIL || i >= |m| then m else m[i := m[i].(left := left)]
  }

  function WithRight<V>(m: seq<Node<V>>, i: DataIndex, right: DataIndex): seq<Node<V>> {
    if i == NIL || i >= |m| then m else m[i := m[i].(right := right)]
  }

  function WithParent<V>(m: seq<Node<V>>, i: DataIndex, parent: DataIndex): seq<Node<V>> {
    if i == NIL || i >= |m| then m else m[i := m[i].(parent := parent)]
  }

  function WithColor<V>(m: seq<Node<V>>, i: DataIndex, color: Color): seq<Node<V>> {
    if i == NIL || i >= |m| then m else m[i := m[i].(color := color)]
  }

  function WithChild<V>(m: seq<Node<V>>, i: DataIndex, child: DataIndex, newChild: DataIndex): seq<Node<V>> {
    if i == NIL || i >= |m| then m
    else
      var n := if m[i].left == child then WithLeft(m, i, newChild) else m;
      if n[i].right == child then WithRight(n, i, newChild) else n
  }

  function RotatedLeft(g: Tree): Tree
    requires g.Branch? && g.right.Branch?
  {
    var p := g.right;
    Branch(p.index, p.color, Branch(g.index, g.color, g.left, p.left), p.right)
  }

  function RotatedRight(g: Tree): Tree
    requires g.Branch? && g.left.Branch?
  {
    var p := g.left;
    Branch(p.index, p.color, p.left, Branch(g.index, g.color, p.right, g.right))
  }

  lemma Reassociate(a: seq<DataIndex>, i: DataIndex, b: seq<DataIndex>, j: DataIndex, c: seq<DataIndex>)
    ensures a + [i] + (b + [j] + c) == a + [i] + b + [j] + c
  {
  }

  lemma {:induction false} RotatedLeftOrder(path: Path, g: Tree)
    requires g.Branch? && g.right.Branch?
    ensures InOrder(Plug(path, RotatedLeft(g))) == InOrder(Plug(path, g))
    ensures InOrder(g) == InOrder(g.left) + [g.index] + InOrder(g.right.left) + [g.right.index] + InOrder(g.right.right)
  {
    Reassociate(InOrder(g.left), g.index, InOrder(g.right.left), g.right.index, InOrder(g.right.right));
    assert InOrder(RotatedLeft(g)) == InOrder(g);
    PlugOrder(path, g);
    PlugOrder(path, RotatedLeft(g));
  }

  lemma {:induction false} RotatedRightOrder(path: Path, g: Tree)
    requires g.Branch? && g.left.Branch?
    ensures InOrder(Plug(path, RotatedRight(g))) == InOrder(Plug(path, g))
    ensures InOrder(g) == InOrder(g.left.left) + [g.left.index] + InOrder(g.left.right) + [g.index] + InOrder(g.right)
  {
    Reassociate(InOrder(g.left.left), g.left.index, InOrder(g.left.right), g.index, InOrder(g.right));
    assert InOrder(RotatedRight(g)) == InOrder(g);
    PlugOrder(path, g);
    PlugOrder(path, RotatedRight(g));
  }

  /** Five runs of slots, as around a rotation, share nothing. */
  lemma NoDupFive(a: seq<DataIndex>, i: DataIndex, b: seq<DataIndex>, j: DataIndex, c: seq<DataIndex>)
    requires NoDup(a + [i] + b + [j] + c)
    ensures NoDup(a) && NoDup(b) && NoDup(c) && i != j
    ensures i !in a && i !in b && i !in c && j !in a && j !in b && j !in c
    ensures Apart(a, b) && Apart(a, c) && Apart(b, c)
  {
    NoDupAround(a + [i] + b, j, c);
    NoDupAround(a, i, b);
    assert i in a + [i] + b;
  }

  lemma {:induction false} LinkedRange<V>(m: seq<Node<V>>, t: Tree, parent: DataIndex)
    requires Linked(m, t, parent)
    ensures forall i <- InOrder(t) :: i < |m| && i != NIL
    ensures forall k | 0 <= k < |InOrder(t)| :: InOrder(t)[k] < |m| && InOrder(t)[k] != NIL
  {
    if t.Branch? {
      LinkedRange(m, t.left, t.index);
      LinkedRange(m, t.right, t.index);
    }
  }

  // ---- rotations ----

  /** The link writes of `rotate_left`. */
  function RotateLeftWrites<V>(m: seq<Node<V>>, g: DataIndex, p: DataIndex, y: DataIndex, gg: DataIndex): seq<Node<V>> {
    WithChild(WithRight(WithParent(WithParent(WithLeft(WithParent(m, p, gg), p, g), y, g), g, p), g, y), gg, g, p)
  }

  /** The link writes of `rotate_right`. */
  function RotateRightWrites<V>(m: seq<Node<V>>, g: DataIndex, p: DataIndex, y: DataIndex, gg: DataIndex): seq<Node<V>> {
    WithChild(WithLeft(WithParent(WithParent(WithRight(WithParent(m, p, gg), p, g), y, g), g, p), g, y), gg, g, p)
  }

  /** Four slots, distinct where they exist: the two that swap, the moved child, the parent. */
  ghost predicate RotationSlots<V>(m: seq<Node<V>>, g: DataIndex, p: DataIndex, y: DataIndex, gg: DataIndex) {
    && g < |m| && p < |m| && g != NIL && p != NIL && (y == NIL || y < |m|) && (gg == NIL || gg < |m|)
    && g != p && g != y && p != y && gg != g && gg != p && (gg != NIL ==> gg != y)
  }

  /** The four records that `rotate_left` changes, and how. */
  ghost predicate RotateLeftDone<V>(m: seq<Node<V>>, n: seq<Node<V>>, g: DataIndex, p: DataIndex, y: DataIndex, gg: DataIndex)
    requires RotationSlots(m, g, p, y, gg)
  {
    && |n| == |m|
    && n[p] == m[p].(parent := gg, left := g)
    && n[g] == m[g].(parent := p, right := y)
    && (y != NIL ==> n[y] == m[y].(parent := g))
    && SameValues(m, n)
    && (gg != NIL ==> n[gg] == m[gg].(left := if m[gg].left == g then p else m[gg].left,
                                      right := if m[gg].right == g then p else m[gg].right))
    && forall i | 0 <= i < |m| && i != p && i != g && (y != NIL ==> i != y) && (gg != NIL ==> i != gg) :: n[i] == m[i]
  }

  lemma RotateLeftPointwise<V>(m: seq<Node<V>>, g: DataIndex, p: DataIndex, y: DataIndex, gg: DataIndex)
    requires RotationSlots(m, g, p, y, gg)
    ensures RotateLeftDone(m, RotateLeftWrites(m, g, p, y, gg), g, p, y, gg)
  {
    var n := WithRight(WithParent(WithParent(WithLeft(WithParent(m, p, gg), p, g), y, g), g, p), g, y);
    assert |n| == |m| && n[p] == m[p].(parent := gg, left := g) && n[g] == m[g].(parent := p, right := y);
    assert gg != NIL ==> n[gg] == m[gg];
  }

  /** The four records that `rotate_right` changes, and how. */
  ghost predicate RotateRightDone<V>(m: seq<Node<V>>, n: seq<Node<V>>, g: DataIndex, p: DataIndex, y: DataIndex, gg: DataIndex)
    requires RotationSlots(m, g, p, y, gg)
  {
    && |n| == |m|
    && n[p] == m[p].(parent := gg, right := g)
    && n[g] == m[g].(parent := p, left := y)
    && (y != NIL ==> n[y] == m[y].(parent := g))
    && SameValues(m, n)
    && (gg != NIL ==> n[gg] == m[gg].(left := if m[gg].left == g then p else m[gg].left,
                                      right := if m[gg].right == g then p else m[gg].right))
    && forall i | 0 <= i < |m| && i != p && i != g && (y != NIL ==> i != y) && (gg != NIL ==> i != gg) :: n[i] == m[i]
  }

  lemma RotateRightPointwise<V>(m: seq<Node<V>>, g: DataIndex, p: DataIndex, y: DataIndex, gg: DataIndex)
    requires RotationSlots(m, g, p, y, gg)
    ensures RotateRightDone(m, RotateRightWrites(m, g, p, y, gg), g, p, y, gg)
  {
    var n := WithLeft(WithParent(WithParent(WithRight(WithParent(m, p, gg), p, g), y, g), g, p), g, y);
    assert |n| == |m| && n[p] == m[p].(parent := gg, right := g) && n[g] == m[g].(parent := p, left := y);
    assert gg != NIL ==> n[gg] == m[gg];
  }

  /** What a rotation reads before it writes. */
  lemma {:induction false} RotateLeftView<V>(m: seq<Node<V>>, path: Path, g: Tree)
    requires g.Branch? && g.right.Branch?
    requires Linked(m, Plug(path, g), NIL) && Distinct(Plug(path, g))
    ensures RotationSlots(m, g.index, g.right.index, RootIndex(g.right.left), Parent(path))
    ensures m[g.index].right == g.right.index && m[g.right.index].left == RootIndex(g.right.left)
    ensures m[g.index].parent == Parent(path)
    ensures path.Top? <==> RootIndex(Plug(path, g)) == g.index
    ensures path.Top? ==> RootIndex(Plug(path, RotatedLeft(g))) == g.right.index
    ensures !path.Top? ==> RootIndex(Plug(path, RotatedLeft(g))) == RootIndex(Plug(path, g))
  {
    Focus(m, path, g);
    RotatedLeftOrder(path, g);
    PlugRootSame(path, g, RotatedLeft(g));
    var p := g.right;
    assert Linked(m, p, g.index) && Linked(m, p.left, p.index);
    NoDupFive(InOrder(g.left), g.index, InOrder(p.left), p.index, InOrder(p.right));
    assert p.left.Branch? ==> p.left.index in InOrder(p.left);
  }

  lemma {:induction false} RotateRightView<V>(m: seq<Node<V>>, path: Path, g: Tree)
    requires g.Branch? && g.left.Branch?
    requires Linked(m, Plug(path, g), NIL) && Distinct(Plug(path, g))
    ensures RotationSlots(m, g.index, g.left.index, RootIndex(g.left.right), Parent(path))
    ensures m[g.index].left == g.left.index && m[g.left.index].right == RootIndex(g.left.right)
    ensures m[g.index].parent == Parent(path)
    ensures path.Top? <==> RootIndex(Plug(path, g)) == g.index
    ensures path.Top? ==> RootIndex(Plug(path, RotatedRight(g))) == g.left.index
    ensures !path.Top? ==> RootIndex(Plug(path, RotatedRight(g))) == RootIndex(Plug(path, g))
  {
    Focus(m, path, g);
    RotatedRightOrder(path, g);
    PlugRootSame(path, g, RotatedRight(g));
    var p := g.left;
    assert Linked(m, p, g.index) && Linked(m, p.right, p.index);
    NoDupFive(InOrder(p.left), p.index, InOrder(p.right), g.index, InOrder(g.right));
    assert p.right.Branch? ==> p.right.index in InOrder(p.right);
  }

  /** The subtree alone. */
  lemma {:induction false} RotateLeftInside<V>(m: seq<Node<V>>, n: seq<Node<V>>, g: Tree, gg: DataIndex)
    requires g.Branch? && g.right.Branch?
    requires Linked(m, g, gg) && Distinct(g) && gg !in InOrder(g)
    requires RotationSlots(m, g.index, g.right.index, RootIndex(g.right.left), gg)
    requires RotateLeftDone(m, n, g.index, g.right.index, RootIndex(g.right.left), gg)
    ensures Linked(n, RotatedLeft(g), gg)
  {
    var p := g.right;
    RotatedLeftOrder(Top, g);
    assert p.left.Branch? ==> p.left.index in InOrder(p.left);
    NoDupFive(InOrder(g.left), g.index, InOrder(p.left), p.index, InOrder(p.right));
    LinkedFrame(m, n, g.left, g.index);
    LinkedFrame(m, n, p.right, p.index);
    Reparented(m, n, p.left, p.index, g.index);
  }

  lemma {:induction false} RotateLeftStored<V>(m: seq<Node<V>>, n: seq<Node<V>>, path: Path, g: Tree)
    requires g.Branch? && g.right.Branch?
    requires Linked(m, Plug(path, g), NIL) && Distinct(Plug(path, g))
    requires |m| <= NIL
    requires RotationSlots(m, g.index, g.right.index, RootIndex(g.right.left), Parent(path))
    requires RotateLeftDone(m, n, g.index, g.right.index, RootIndex(g.right.left), Parent(path))
    ensures Linked(n, Plug(path, RotatedLeft(g)), NIL)
    ensures SameOutside(m, n, InOrder(Plug(path, g)))
  {
    var p := g.right;
    Focus(m, path, g);
    assert p.index in InOrder(g) && (p.left.Branch? ==> p.left.index in InOrder(g)) by {
      RotatedLeftOrder(Top, g);
      assert p.left.Branch? ==> p.left.index in InOrder(p.left);
    }
    LinkedRange(m, g, Parent(path));
    RotateLeftInside(m, n, g, Parent(path));
    assert ChildSet(m, n, path, p.index, InOrder(g));
    Replace(m, n, path, g, RotatedLeft(g));
  }

  lemma {:induction false} RotateLeftLinked<V>(m: seq<Node<V>>, path: Path, g: Tree)
    requires g.Branch? && g.right.Branch?
    requires Linked(m, Plug(path, g), NIL) && Distinct(Plug(path, g)) && |m| <= NIL
    ensures
      var n := RotateLeftWrites(m, g.index, g.right.index, RootIndex(g.right.left), Parent(path));
      && Linked(n, Plug(path, RotatedLeft(g)), NIL)
      && SameOutside(m, n, InOrder(Plug(path, g))) && SameValues(m, n)
  {
    RotateLeftView(m, path, g);
    RotateLeftPointwise(m, g.index, g.right.index, RootIndex(g.right.left), Parent(path));
    RotateLeftStored(m, RotateLeftWrites(m, g.index, g.right.index, RootIndex(g.right.left), Parent(path)), path, g);
  }

  /** The subtree alone. */
  lemma {:induction false} RotateRightInside<V>(m: seq<Node<V>>, n: seq<Node<V>>, g: Tree, gg: DataIndex)
    requires g.Branch? && g.left.Branch?
    requires Linked(m, g, gg) && Distinct(g) && gg !in InOrder(g)
    requires RotationSlots(m, g.index, g.left.index, RootIndex(g.left.right), gg)
    requires RotateRightDone(m, n, g.index, g.left.index, RootIndex(g.left.right), gg)
    ensures Linked(n, RotatedRight(g), gg)
  {
    var p := g.left;
    RotatedRightOrder(Top, g);
    assert p.right.Branch? ==> p.right.index in InOrder(p.right);
    NoDupFive(InOrder(p.left), p.index, InOrder(p.right), g.index, InOrder(g.right));
    LinkedFrame(m, n, g.right, g.index);
    LinkedFrame(m, n, p.left, p.index);
    Reparented(m, n, p.right, p.index, g.index);
  }

  lemma {:induction false} RotateRightStored<V>(m: seq<Node<V>>, n: seq<Node<V>>, path: Path, g: Tree)
    requires g.Branch? && g.left.Branch?
    requires Linked(m, Plug(path, g), NIL) && Distinct(Plug(path, g))
    requires |m| <= NIL
    requires RotationSlots(m, g.index, g.left.index, RootIndex(g.left.right), Parent(path))
    requires RotateRightDone(m, n, g.index, g.left.index, RootIndex(g.left.right), Parent(path))
    ensures Linked(n, Plug(path, RotatedRight(g)), NIL)
    ensures SameOutside(m, n, InOrder(Plug(path, g)))
  {
    var p := g.left;
    Focus(m, path, g);
    assert p.index in InOrder(g) && (p.right.Branch? ==> p.right.index in InOrder(g)) by {
      RotatedRightOrder(Top, g);
      assert p.right.Branch? ==> p.right.index in InOrder(p.right);
    }
    LinkedRange(m, g, Parent(path));
    RotateRightInside(m, n, g, Parent(path));
    assert ChildSet(m, n, path, p.index, InOrder(g));
    Replace(m, n, path, g, RotatedRight(g));
  }

  lemma {:induction false} RotateRightLinked<V>(m: seq<Node<V>>, path: Path, g: Tree)
    requires g.Branch? && g.left.Branch?
    requires Linked(m, Plug(path, g), NIL) && Distinct(Plug(path, g)) && |m| <= NIL
    ensures
      var n := RotateRightWrites(m, g.index, g.left.index, RootIndex(g.left.right), Parent(path));
      && Linked(n, Plug(path, RotatedRight(g)), NIL)
      && SameOutside(m, n, InOrder(Plug(path, g))) && SameValues(m, n)
  {
    RotateRightView(m, path, g);
    RotateRightPointwise(m, g.index, g.left.index, RootIndex(g.left.right), Parent(path));
    RotateRightStored(m, RotateRightWrites(m, g.index, g.left.index, RootIndex(g.left.right), Parent(path)), path, g);
  }

  // ---- colours ----

  function Recolored(t: Tree, color: Color): Tree {
    if t.Leaf? then Leaf else t.(color := color)
  }

  lemma {:induction false} RecolorLinked<V>(m: seq<Node<V>>, path: Path, t: Tree, color: Color)
    requires Linked(m, Plug(path, t), NIL) && Distinct(Plug(path, t))
    ensures
      var n := WithColor(m, RootIndex(t), color);
      && Linked(n, Plug(path, Recolored(t, color)), NIL)
      && SameOutside(m, n, InOrder(Plug(path, t))) && SameValues(m, n)
    ensures InOrder(Plug(path, Recolored(t, color))) == InOrder(Plug(path, t))
    ensures RootIndex(Plug(path, Recolored(t, color))) == RootIndex(Plug(path, t))
  {
    var n := WithColor(m, RootIndex(t), color);
    Focus(m, path, t);
    PlugOrder(path, t);
    PlugOrder(path, Recolored(t, color));
    PlugRootSame(path, t, Recolored(t, color));
    if t.Branch? {
      NoDupAround(InOrder(t.left), t.index, InOrder(t.right));
      LinkedFrame(m, n, t.left, t.index);
      LinkedFrame(m, n, t.right, t.index);
      assert PathLinked(m, path, t.index);
      Replace(m, n, path, t, Recolored(t, color));
    }
  }

  // ---- taking a node out ----

  function OnlyChild(t: Tree): Tree
    requires t.Branch?
  {
    if t.left.Branch? then t.left else t.right
  }

  /** The link writes of `update_parent_child`. */
  function SpliceWrites<V>(m: seq<Node<V>>, isLeft: bool, parent: DataIndex, child: DataIndex): seq<Node<V>> {
    var n := WithParent(m, child, parent);
    if isLeft then WithLeft(n, parent, child) else WithRight(n, parent, child)
  }

  lemma {:induction false} SpliceOrder(path: Path, t: Tree)
    requires t.Branch? && (t.left.Leaf? || t.right.Leaf?)
    ensures InOrder(Plug(path, t)) == Before(path) + InOrder(t.left) + [t.index] + InOrder(t.right) + After(path)
    ensures InOrder(Plug(path, OnlyChild(t))) == Before(path) + InOrder(t.left) + InOrder(t.right) + After(path)
  {
    PlugOrder(path, t);
    PlugOrder(path, OnlyChild(t));
    assert InOrder(OnlyChild(t)) == InOrder(t.left) + InOrder(t.right);
  }

  lemma {:induction false} SpliceDistinct(path: Path, t: Tree)
    requires t.Branch? && (t.left.Leaf? || t.right.Leaf?) && Distinct(Plug(path, t))
    ensures Distinct(Plug(path, OnlyChild(t)))
    ensures t.index !in InOrder(Plug(path, OnlyChild(t)))
  {
    SpliceOrder(path, t);
    var a, b := Before(path) + InOrder(t.left), InOrder(t.right) + After(path);
    assert InOrder(Plug(path, t)) == a + [t.index] + b;
    NoDupAround(a, t.index, b);
    NoDupAppend(a, b);
    assert InOrder(Plug(path, OnlyChild(t))) == a + b;
  }

  lemma {:induction false} SpliceLinked<V>(m: seq<Node<V>>, path: Path, t: Tree)
    requires t.Branch? && (t.left.Leaf? || t.right.Leaf?)
    requires Linked(m, Plug(path, t), NIL) && Distinct(Plug(path, t))
    ensures
      var n := SpliceWrites(m, path.LeftOf?, Parent(path), RootIndex(OnlyChild(t)));
      && Linked(n, Plug(path, OnlyChild(t)), NIL)
      && SameOutside(m, n, InOrder(Plug(path, t))) && SameValues(m, n)
  {
    var u := OnlyChild(t);
    var n := SpliceWrites(m, path.LeftOf?, Parent(path), RootIndex(u));
    Focus(m, path, t);
    NoDupAround(InOrder(t.left), t.index, InOrder(t.right));
    assert u.Branch? ==> u.index in InOrder(t) && u.index in InOrder(u);
    assert Linked(m, u, t.index);
    assert u.Branch? ==> n[u.index] == m[u.index].(parent := Parent(path));
    Reparented(m, n, u, t.index, Parent(path));
    assert ChildSet(m, n, path, RootIndex(u), InOrder(t));
    Replace(m, n, path, t, u);
  }

  // ---- adding a leaf ----

  /** The writes at the end of `insert_node_no_fix`. */
  function AttachWrites<V>(m: seq<Node<V>>, isLeft: bool, parent: DataIndex, index: DataIndex, node: Node<V>): seq<Node<V>> {
    var n := if isLeft then WithLeft(m, parent, index) else WithRight(m, parent, index);
    if index < |n| then n[index := node] else n
  }

  lemma {:induction false} AttachOrder(path: Path, index: DataIndex)
    requires Distinct(Plug(path, Leaf)) && index !in InOrder(Plug(path, Leaf))
    ensures
      var w := Plug(path, Branch(index, Red, Leaf, Leaf));
      InOrder(w) == Before(path) + [index] + After(path) && Distinct(w)
    ensures InOrder(Plug(path, Leaf)) == Before(path) + After(path)
  {
    PlugOrder(path, Leaf);
    PlugOrder(path, Branch(index, Red, Leaf, Leaf));
    assert InOrder(Branch(index, Red, Leaf, Leaf)) == [index];
    assert Before(path) + [] + After(path) == Before(path) + After(path);
    NoDupAppend(Before(path), After(path));
    NoDupAround(Before(path), index, After(path));
  }

  lemma {:induction false} AttachLinked<V>(m: seq<Node<V>>, path: Path, index: DataIndex, value: V)
    requires Linked(m, Plug(path, Leaf), NIL) && Distinct(Plug(path, Leaf))
    requires !path.Top? && index < |m| && index != NIL && index !in InOrder(Plug(path, Leaf))
    ensures
      var n := AttachWrites(m, path.LeftOf?, Parent(path), index, Node(NIL, NIL, Parent(path), Red, value));
      && Linked(n, Plug(path, Branch(index, Red, Leaf, Leaf)), NIL)
      && |n| == |m| && n[index].value == value
      && (forall i | 0 <= i < |m| && i != index :: n[i].value == m[i].value)
      && SameOutside(m, n, InOrder(Plug(path, Leaf)) + [index])
  {
    var n := AttachWrites(m, path.LeftOf?, Parent(path), index, Node(NIL, NIL, Parent(path), Red, value));
    Focus(m, path, Leaf);
    AttachReplace(m, n, path, index);
  }

  lemma {:induction false} AttachReplace<V>(m: seq<Node<V>>, n: seq<Node<V>>, path: Path, index: DataIndex)
    requires Linked(m, Plug(path, Leaf), NIL) && Distinct(Plug(path, Leaf))
    requires index < |m| && index != NIL && index !in InOrder(Plug(path, Leaf))
    requires |n| == |m| && n[index].left == n[index].right == NIL && n[index].parent == Parent(path) && n[index].color == Red
    requires forall i | 0 <= i < |m| && i != index && i != Parent(path) :: n[i] == m[i]
    requires path.LeftOf? && path.index < |m| ==> n[path.index] == m[path.index].(left := index)
    requires path.RightOf? && path.index < |m| ==> n[path.index] == m[path.index].(right := index)
    ensures Linked(n, Plug(path, Branch(index, Red, Leaf, Leaf)), NIL)
  {
    var t := Branch(index, Red, Leaf, Leaf);
    PlugOrder(path, Leaf);
    PlugLinked(m, path, Leaf);
    PlugDistinct(path, Leaf);
    PlugLinked(n, path, t);
    match path
    case Top =>
    case LeftOf(i, c, r, up) =>
      LinkedFrame(m, n, r, i);
      PathLinkedFrame(m, n, up, i);
    case RightOf(l, i, c, up) =>
      LinkedFrame(m, n, l, i);
      PathLinkedFrame(m, n, up, i);
  }
}
