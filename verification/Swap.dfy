/** `swap_node_with_successor`: exchanging two slots of the stored tree is renaming them. */
module Swap {
  import opened Hypertree
  import opened Shape
  import opened Links

  function Exchange(a: DataIndex, b: DataIndex, i: DataIndex): DataIndex {
    if i == a then b else if i == b then a else i
  }

  /** The same shape and colours, with slots `a` and `b` exchanged. */
  function Exchanged(t: Tree, a: DataIndex, b: DataIndex): Tree {
    match t
    case Leaf => Leaf
    case Branch(i, c, l, r) => Branch(Exchange(a, b, i), c, Exchanged(l, a, b), Exchanged(r, a, b))
  }

  lemma {:induction false} ExchangedOrder(t: Tree, a: DataIndex, b: DataIndex)
    ensures |InOrder(Exchanged(t, a, b))| == |InOrder(t)|
    ensures forall k | 0 <= k < |InOrder(t)| :: InOrder(Exchanged(t, a, b))[k] == Exchange(a, b, InOrder(t)[k])
  {
    if t.Branch? {
      ExchangedOrder(t.left, a, b);
      ExchangedOrder(t.right, a, b);
    }
  }

  lemma {:induction false} ExchangedDistinct(t: Tree, a: DataIndex, b: DataIndex)
    requires Distinct(t)
    ensures Distinct(Exchanged(t, a, b))
  {
    ExchangedOrder(t, a, b);
  }

  /** Record `i` of `n` says about its new place what the record of that place said in `m`. */
  ghost predicate RecordExchanged<V>(m: seq<Node<V>>, n: seq<Node<V>>, a: DataIndex, b: DataIndex, i: DataIndex) {
    var j := Exchange(a, b, i);
    && i < |m| && j < |m| && |n| == |m|
    && n[j].left == Exchange(a, b, m[i].left)
    && n[j].right == Exchange(a, b, m[i].right)
    && n[j].parent == Exchange(a, b, m[i].parent)
    && n[j].color == m[i].color
  }

  lemma {:induction false} ExchangedLinked<V>(m: seq<Node<V>>, n: seq<Node<V>>, t: Tree, parent: DataIndex, a: DataIndex, b: DataIndex)
    requires Linked(m, t, parent) && a != NIL && b != NIL
    requires forall i <- InOrder(t) :: RecordExchanged(m, n, a, b, i)
    ensures Linked(n, Exchanged(t, a, b), Exchange(a, b, parent))
  {
    if t.Branch? {
      assert t.index in InOrder(t);
      ExchangedLinked(m, n, t.left, t.index, a, b);
      ExchangedLinked(m, n, t.right, t.index, a, b);
    }
  }

  // ---- neighbours ----

  /** The records around slot `i` of a stored tree with root `root` agree with one another. */
  ghost predicate Local<V>(m: seq<Node<V>>, root: DataIndex, i: DataIndex) {
    && i < |m| && i != NIL
    && (m[i].left != NIL ==> m[i].left < |m| && m[m[i].left].parent == i && m[i].left != m[i].right)
    && (m[i].right != NIL ==> m[i].right < |m| && m[m[i].right].parent == i)
    && (i == root <==> m[i].parent == NIL)
    && (i != root ==> m[i].parent < |m| && (m[m[i].parent].left == i || m[m[i].parent].right == i))
    && m[i].left != i && m[i].right != i && m[i].left != root && m[i].right != root && m[i].parent != i
  }

  /** Its neighbours belong to the tree as well. */
  ghost predicate Neighbours<V>(m: seq<Node<V>>, root: DataIndex, s: seq<DataIndex>, i: DataIndex) {
    && Local(m, root, i)
    && (m[i].left != NIL ==> m[i].left in s)
    && (m[i].right != NIL ==> m[i].right in s)
    && (i != root ==> m[i].parent in s)
  }

  lemma {:induction false} NeighboursOf<V>(m: seq<Node<V>>, path: Path, t: Tree)
    requires t.Branch? && Linked(m, Plug(path, t), NIL) && Distinct(Plug(path, t))
    ensures Neighbours(m, RootIndex(Plug(path, t)), InOrder(Plug(path, t)), t.index)
  {
    var w := Plug(path, t);
    var i := t.index;
    Focus(m, path, t);
    NoDupAround(InOrder(t.left), i, InOrder(t.right));
    if t.left.Branch? {
      Focus(m, LeftOf(i, t.color, t.right, path), t.left);
    }
    if t.right.Branch? {
      Focus(m, RightOf(t.left, i, t.color, path), t.right);
    }
  }

  /** Every slot of a tree is the root of the subtree at some position. */
  lemma {:induction false} Locate(path: Path, t: Tree, i: DataIndex) returns (p: Path, u: Tree)
    requires i in InOrder(t)
    ensures Plug(p, u) == Plug(path, t) && u.Branch? && u.index == i
    decreases t
  {
    if t.index == i {
      p, u := path, t;
    } else if i in InOrder(t.left) {
      p, u := Locate(LeftOf(t.index, t.color, t.right, path), t.left, i);
    } else {
      p, u := Locate(RightOf(t.left, t.index, t.color, path), t.right, i);
    }
  }

  lemma {:induction false} AllNeighbours<V>(m: seq<Node<V>>, w: Tree, i: DataIndex)
    requires Linked(m, w, NIL) && Distinct(w) && i in InOrder(w)
    ensures Neighbours(m, RootIndex(w), InOrder(w), i)
  {
    var p, u := Locate(Top, w, i);
    NeighboursOf(m, p, u);
  }

  // ---- the writes, in program order ----

  function WithSide<V>(m: seq<Node<V>>, isLeft: bool, i: DataIndex, child: DataIndex): seq<Node<V>> {
    if isLeft then WithLeft(m, i, child) else WithRight(m, i, child)
  }

  function WithLinks<V>(m: seq<Node<V>>, i: DataIndex, left: DataIndex, right: DataIndex, parent: DataIndex): seq<Node<V>> {
    WithParent(WithRight(WithLeft(m, i, left), i, right), i, parent)
  }

  // Four groups of writes; after each group, what the record at any slot has become.

  /** The parents of both slots look down at the other slot. */
  ghost predicate ParentsRedirected<V>(m: seq<Node<V>>, n: seq<Node<V>>, isLeftA: bool, isLeftB: bool, a: DataIndex, b: DataIndex, x: Node<V>, y: Node<V>) {
    |n| == |m| && forall k | 0 <= k < |m| && k != NIL ::
      n[k] == m[k].(left := if k == y.parent && isLeftB then a else if k == x.parent && isLeftA then b else m[k].left,
                    right := if k == y.parent && !isLeftB then a else if k == x.parent && !isLeftA then b else m[k].right)
  }

  lemma RedirectParents<V>(m: seq<Node<V>>, isLeftA: bool, isLeftB: bool, a: DataIndex, b: DataIndex, x: Node<V>, y: Node<V>)
    ensures ParentsRedirected(m, WithSide(WithSide(m, isLeftA, x.parent, b), isLeftB, y.parent, a), isLeftA, isLeftB, a, b, x, y)
  {
  }

  /** Both slots take over the links of the other. */
  ghost predicate LinksTraded<V>(m: seq<Node<V>>, n: seq<Node<V>>, a: DataIndex, b: DataIndex, x: Node<V>, y: Node<V>) {
    |n| == |m| && forall k | 0 <= k < |m| && k != NIL ::
      n[k] == if k == b then m[k].(left := x.left, right := x.right, parent := x.parent)
              else if k == a then m[k].(left := y.left, right := y.right, parent := y.parent)
              else m[k]
  }

  lemma TradeLinks<V>(m: seq<Node<V>>, a: DataIndex, b: DataIndex, x: Node<V>, y: Node<V>)
    requires a != b
    ensures LinksTraded(m, WithLinks(WithLinks(m, a, y.left, y.right, y.parent), b, x.left, x.right, x.parent), a, b, x, y)
  {
    var n := WithLinks(m, a, y.left, y.right, y.parent);
    assert |n| == |m| && forall k | 0 <= k < |m| && k != NIL ::
      n[k] == if k == a then m[k].(left := y.left, right := y.right, parent := y.parent) else m[k];
  }

  /** The four children look up at their new parent. */
  ghost predicate ChildrenRedirected<V>(m: seq<Node<V>>, n: seq<Node<V>>, a: DataIndex, b: DataIndex, x: Node<V>, y: Node<V>) {
    |n| == |m| && forall k | 0 <= k < |m| && k != NIL ::
      n[k] == m[k].(parent := if k == y.right then a else if k == x.right then b
                              else if k == y.left then a else if k == x.left then b else m[k].parent)
  }

  lemma RedirectChildren<V>(m: seq<Node<V>>, a: DataIndex, b: DataIndex, x: Node<V>, y: Node<V>)
    ensures ChildrenRedirected(m, WithParent(WithParent(WithParent(WithParent(m, x.left, b), y.left, a), x.right, b), y.right, a), a, b, x, y)
  {
    var n := WithParent(WithParent(m, x.left, b), y.left, a);
    assert |n| == |m| && forall k | 0 <= k < |m| && k != NIL ::
      n[k] == m[k].(parent := if k == y.left then a else if k == x.left then b else m[k].parent);
  }

  /** The repair for a successor that is the direct right child, then the colours. */
  ghost predicate Finished<V>(m: seq<Node<V>>, n: seq<Node<V>>, a: DataIndex, b: DataIndex, x: Node<V>, y: Node<V>) {
    |n| == |m| && forall k | 0 <= k < |m| && k != NIL ::
      && n[k].left == m[k].left && n[k].value == m[k].value
      && n[k].right == (if y.parent == a && k == b then a else m[k].right)
      && n[k].parent == (if y.parent == a && k == b then x.parent else if y.parent == a && k == a then b else m[k].parent)
      && n[k].color == (if k == b then x.color else if k == a then y.color else m[k].color)
  }

  lemma Finish<V>(m: seq<Node<V>>, a: DataIndex, b: DataIndex, x: Node<V>, y: Node<V>)
    requires a != b
    ensures
      var r := if y.parent == a then WithRight(WithParent(WithParent(m, a, b), b, x.parent), b, a) else m;
      Finished(m, WithColor(WithColor(r, a, y.color), b, x.color), a, b, x, y)
  {
  }

  /** All four groups together at slot `k`: the last write to each field decides. */
  ghost predicate SwapDoneAt<V>(m: seq<Node<V>>, n: seq<Node<V>>, isLeftA: bool, isLeftB: bool,
                                a: DataIndex, b: DataIndex, x: Node<V>, y: Node<V>, k: DataIndex) {
    && |n| == |m| && k < |m| && k != NIL
    && n[k].value == m[k].value
    && n[k].color == (if k == b then x.color else if k == a then y.color else m[k].color)
    && n[k].left == (if k == b then x.left else if k == a then y.left
                     else if k == y.parent && isLeftB then a else if k == x.parent && isLeftA then b else m[k].left)
    && n[k].right == (if y.parent == a && k == b then a
                      else if k == b then x.right else if k == a then y.right
                      else if k == y.parent && !isLeftB then a else if k == x.parent && !isLeftA then b else m[k].right)
    && n[k].parent == (if y.parent == a && k == b then x.parent else if y.parent == a && k == a then b
                       else if k == y.right then a else if k == x.right then b
                       else if k == y.left then a else if k == x.left then b
                       else if k == b then x.parent else if k == a then y.parent else m[k].parent)
  }

  lemma SwapCompose<V>(m: seq<Node<V>>, m1: seq<Node<V>>, m2: seq<Node<V>>, m3: seq<Node<V>>, n: seq<Node<V>>,
                       isLeftA: bool, isLeftB: bool, a: DataIndex, b: DataIndex, x: Node<V>, y: Node<V>, k: DataIndex)
    requires ParentsRedirected(m, m1, isLeftA, isLeftB, a, b, x, y)
    requires LinksTraded(m1, m2, a, b, x, y)
    requires ChildrenRedirected(m2, m3, a, b, x, y)
    requires Finished(m3, n, a, b, x, y)
    requires k < |m| && k != NIL
    ensures SwapDoneAt(m, n, isLeftA, isLeftB, a, b, x, y, k)
  {
  }

  /** What is known of the two slots before the exchange. */
  ghost predicate SwapSetting<V>(m: seq<Node<V>>, root: DataIndex, a: DataIndex, b: DataIndex, isLeftA: bool, isLeftB: bool) {
    && Local(m, root, a) && Local(m, root, b)
    && root != b && a != b && m[b].left == NIL && (m[b].parent == a ==> m[a].right == b)
    && m[a].parent != b && m[a].left != b
    && Sides(m, root, a, b, isLeftA, isLeftB)
  }

  /** Another slot of the tree, whose links to the two slots are answered. */
  ghost predicate Bystander<V>(m: seq<Node<V>>, root: DataIndex, a: DataIndex, b: DataIndex, i: DataIndex) {
    && i != a && i != b && a < |m| && b < |m| && Local(m, root, i)
    && (m[i].left == a || m[i].right == a ==> m[a].parent == i)
    && (m[i].left == b || m[i].right == b ==> m[b].parent == i)
  }

  lemma RecordOfFirst<V>(m: seq<Node<V>>, n: seq<Node<V>>, root: DataIndex, a: DataIndex, b: DataIndex, isLeftA: bool, isLeftB: bool)
    requires SwapSetting(m, root, a, b, isLeftA, isLeftB) && SwapDoneAt(m, n, isLeftA, isLeftB, a, b, m[a], m[b], b)
    ensures RecordExchanged(m, n, a, b, a)
  {
    assert n[b].parent == m[a].parent;
  }

  lemma RecordOfSecond<V>(m: seq<Node<V>>, n: seq<Node<V>>, root: DataIndex, a: DataIndex, b: DataIndex, isLeftA: bool, isLeftB: bool)
    requires SwapSetting(m, root, a, b, isLeftA, isLeftB) && SwapDoneAt(m, n, isLeftA, isLeftB, a, b, m[a], m[b], a)
    ensures RecordExchanged(m, n, a, b, b)
  {
    assert n[a].parent == Exchange(a, b, m[b].parent);
  }

  lemma BystanderLeft<V>(m: seq<Node<V>>, n: seq<Node<V>>, root: DataIndex, a: DataIndex, b: DataIndex, i: DataIndex, isLeftA: bool, isLeftB: bool)
    requires SwapSetting(m, root, a, b, isLeftA, isLeftB) && Bystander(m, root, a, b, i)
    requires SwapDoneAt(m, n, isLeftA, isLeftB, a, b, m[a], m[b], i)
    ensures n[i].left == Exchange(a, b, m[i].left)
  {
  }

  lemma BystanderRight<V>(m: seq<Node<V>>, n: seq<Node<V>>, root: DataIndex, a: DataIndex, b: DataIndex, i: DataIndex, isLeftA: bool, isLeftB: bool)
    requires SwapSetting(m, root, a, b, isLeftA, isLeftB) && Bystander(m, root, a, b, i)
    requires SwapDoneAt(m, n, isLeftA, isLeftB, a, b, m[a], m[b], i)
    ensures n[i].right == Exchange(a, b, m[i].right)
  {
  }

  lemma BystanderParent<V>(m: seq<Node<V>>, n: seq<Node<V>>, root: DataIndex, a: DataIndex, b: DataIndex, i: DataIndex, isLeftA: bool, isLeftB: bool)
    requires SwapSetting(m, root, a, b, isLeftA, isLeftB) && Bystander(m, root, a, b, i)
    requires SwapDoneAt(m, n, isLeftA, isLeftB, a, b, m[a], m[b], i)
    ensures n[i].parent == Exchange(a, b, m[i].parent)
  {
  }

  lemma SwapRecord<V>(m: seq<Node<V>>, n: seq<Node<V>>, root: DataIndex, a: DataIndex, b: DataIndex, i: DataIndex, isLeftA: bool, isLeftB: bool)
    requires SwapSetting(m, root, a, b, isLeftA, isLeftB) && (i == a || i == b || Bystander(m, root, a, b, i))
    requires SwapDoneAt(m, n, isLeftA, isLeftB, a, b, m[a], m[b], Exchange(a, b, i))
    ensures RecordExchanged(m, n, a, b, i)
  {
    if i == a {
      RecordOfFirst(m, n, root, a, b, isLeftA, isLeftB);
    } else if i == b {
      RecordOfSecond(m, n, root, a, b, isLeftA, isLeftB);
    } else {
      BystanderLeft(m, n, root, a, b, i, isLeftA, isLeftB);
      BystanderRight(m, n, root, a, b, i, isLeftA, isLeftB);
      BystanderParent(m, n, root, a, b, i, isLeftA, isLeftB);
    }
  }

  lemma {:induction false} SuccessorFacts<V>(m: seq<Node<V>>, path: Path, u: Tree, b: DataIndex)
    requires u.Branch? && u.right.Branch?
    requires Linked(m, Plug(path, u), NIL) && Distinct(Plug(path, u))
    requires b == InOrder(u.right)[0] && b < |m|
    ensures
      var w, a := Plug(path, u), u.index;
      && a < |m| && a in InOrder(w) && b in InOrder(w) && a != b && RootIndex(w) != b
      && Neighbours(m, RootIndex(w), InOrder(w), a) && Neighbours(m, RootIndex(w), InOrder(w), b)
      && (path.Top? <==> a == RootIndex(w))
      && m[a].parent != b && m[a].left != b && (m[b].parent == a ==> m[a].right == b)
  {
    var w, a := Plug(path, u), u.index;
    Focus(m, path, u);
    NeighboursOf(m, path, u);
    assert InOrder(u.right)[0] in InOrder(u.right);
    assert b in InOrder(u);
    NoDupAround(InOrder(u.left), a, InOrder(u.right));
    assert u.left.Branch? ==> u.left.index in InOrder(u.left);
    AllNeighbours(m, w, b);
    PlugDistinct(path, u);
    PlugRoot(path, u);
    if m[b].parent == a {
      assert m[a].left != b;
    }
  }

  /** Every slot has been written as intended. */
  ghost predicate SwapWritten<V>(m: seq<Node<V>>, n: seq<Node<V>>, isLeftA: bool, isLeftB: bool,
                                 a: DataIndex, b: DataIndex, x: Node<V>, y: Node<V>) {
    |n| == |m| && forall k | 0 <= k < |m| :: SwapDoneAt(m, n, isLeftA, isLeftB, a, b, x, y, k)
  }

  /** Which children the two slots are, as `is_left_child` reads it. */
  ghost predicate Sides<V>(m: seq<Node<V>>, root: DataIndex, a: DataIndex, b: DataIndex, isLeftA: bool, isLeftB: bool) {
    && a < |m| && b < |m| && m[b].parent < |m| && (a != root ==> m[a].parent < |m|)
    && isLeftA == (a != root && m[m[a].parent].left == a)
    && isLeftB == (m[m[b].parent].left == b)
  }

  lemma {:induction false} SwapStored<V>(m: seq<Node<V>>, n: seq<Node<V>>, path: Path, u: Tree, b: DataIndex, isLeftA: bool, isLeftB: bool)
    requires u.Branch? && u.right.Branch?
    requires Linked(m, Plug(path, u), NIL) && Distinct(Plug(path, u))
    requires b == InOrder(u.right)[0] && b < |m| && m[b].left == NIL
    requires Sides(m, RootIndex(Plug(path, u)), u.index, b, isLeftA, isLeftB)
    requires SwapWritten(m, n, isLeftA, isLeftB, u.index, b, m[u.index], m[b])
    ensures Linked(n, Exchanged(Plug(path, u), u.index, b), NIL)
  {
    var w, a := Plug(path, u), u.index;
    SuccessorFacts(m, path, u, b);
    forall i <- InOrder(w) ensures RecordExchanged(m, n, a, b, i) {
      AllNeighbours(m, w, i);
      assert SwapDoneAt(m, n, isLeftA, isLeftB, a, b, m[a], m[b], Exchange(a, b, i));
      SwapRecord(m, n, RootIndex(w), a, b, i, isLeftA, isLeftB);
    }
    ExchangedLinked(m, n, w, NIL, a, b);
  }

  lemma {:induction false} SwapFrame<V>(m: seq<Node<V>>, n: seq<Node<V>>, path: Path, u: Tree, b: DataIndex, isLeftA: bool, isLeftB: bool)
    requires u.Branch? && u.right.Branch?
    requires Linked(m, Plug(path, u), NIL) && Distinct(Plug(path, u))
    requires b == InOrder(u.right)[0] && b < |m| && m[b].left == NIL
    requires Sides(m, RootIndex(Plug(path, u)), u.index, b, isLeftA, isLeftB)
    requires SwapWritten(m, n, isLeftA, isLeftB, u.index, b, m[u.index], m[b])
    ensures SameOutside(m, n, InOrder(Plug(path, u))) && SameValues(m, n)
  {
    var w, a := Plug(path, u), u.index;
    SuccessorFacts(m, path, u, b);
    forall k | 0 <= k < |m| ensures n[k].value == m[k].value && (k !in InOrder(w) ==> n[k] == m[k]) {
      assert SwapDoneAt(m, n, isLeftA, isLeftB, a, b, m[a], m[b], k);
    }
  }

  lemma {:induction false} SwapAll<V>(m: seq<Node<V>>, m1: seq<Node<V>>, m2: seq<Node<V>>, m3: seq<Node<V>>, n: seq<Node<V>>,
                                      path: Path, u: Tree, b: DataIndex, isLeftA: bool, isLeftB: bool)
    requires u.Branch? && u.right.Branch? && |m| <= NIL
    requires Linked(m, Plug(path, u), NIL) && Distinct(Plug(path, u))
    requires b == InOrder(u.right)[0] && b < |m| && m[b].left == NIL
    requires Sides(m, RootIndex(Plug(path, u)), u.index, b, isLeftA, isLeftB)
    requires ParentsRedirected(m, m1, isLeftA, isLeftB, u.index, b, m[u.index], m[b])
    requires LinksTraded(m1, m2, u.index, b, m[u.index], m[b])
    requires ChildrenRedirected(m2, m3, u.index, b, m[u.index], m[b])
    requires Finished(m3, n, u.index, b, m[u.index], m[b])
    ensures Linked(n, Exchanged(Plug(path, u), u.index, b), NIL) && Distinct(Exchanged(Plug(path, u), u.index, b))
    ensures SameOutside(m, n, InOrder(Plug(path, u))) && SameValues(m, n)
    ensures u.index < |n| && n[u.index].left == NIL
  {
    var a := u.index;
    SuccessorFacts(m, path, u, b);
    forall k | 0 <= k < |m| ensures SwapDoneAt(m, n, isLeftA, isLeftB, a, b, m[a], m[b], k) {
      SwapCompose(m, m1, m2, m3, n, isLeftA, isLeftB, a, b, m[a], m[b], k);
    }
    SwapStored(m, n, path, u, b, isLeftA, isLeftB);
    SwapFrame(m, n, path, u, b, isLeftA, isLeftB);
    ExchangedDistinct(Plug(path, u), a, b);
  }

  lemma SwappedRoot(t: Tree, a: DataIndex, b: DataIndex)
    requires a != NIL && b != NIL && RootIndex(t) != b
    ensures RootIndex(Exchanged(t, a, b)) == if RootIndex(t) == a then b else RootIndex(t)
  {
  }

  /** Exchanging a slot with the one right after it, then dropping it, drops it. */
  lemma {:induction false} ExchangedAdjacent(t: Tree, a: DataIndex, b: DataIndex, k: nat)
    requires Distinct(t) && k + 1 < |InOrder(t)| && InOrder(t)[k] == a && InOrder(t)[k + 1] == b
    ensures InOrder(Exchanged(t, a, b)) == InOrder(t)[..k] + [b, a] + InOrder(t)[k + 2..]
  {
    ExchangedOrder(t, a, b);
  }
}
