/** The ghost picture of a tree that lives in the shared array: an inductive tree of slots,
    the zipper that names one position in it, and the predicate that ties both to memory. */
module Shape {
  import opened Hypertree

  datatype Tree =
    | Leaf
    | Branch(index: DataIndex, color: Color, left: Tree, right: Tree)

  /** The way from a position up to the root. `LeftOf` means the position is a left child. */
  datatype Path =
    | Top
    | LeftOf(index: DataIndex, color: Color, right: Tree, up: Path)
    | RightOf(left: Tree, index: DataIndex, color: Color, up: Path)

  function RootIndex(t: Tree): DataIndex {
    if t.Leaf? then NIL else t.index
  }

  function RootColor(t: Tree): Color {
    if t.Leaf? then Black else t.color
  }

  function Parent(path: Path): DataIndex {
    if path.Top? then NIL else path.index
  }

  function InOrder(t: Tree): seq<DataIndex> {
    match t
    case Leaf => []
    case Branch(i, _, l, r) => InOrder(l) + [i] + InOrder(r)
  }

  /** Memory `m` stores `t` below `parent`: child links, parent links and colours all agree. */
  ghost predicate Linked<V>(m: seq<Node<V>>, t: Tree, parent: DataIndex) {
    match t
    case Leaf => true
    case Branch(i, c, l, r) =>
      && i < |m| && i != NIL
      && m[i].left == RootIndex(l) && m[i].right == RootIndex(r)
      && m[i].parent == parent && m[i].color == c
      && Linked(m, l, i) && Linked(m, r, i)
  }

  /** No slot occurs twice. */
  ghost predicate Distinct(t: Tree) {
    NoDup(InOrder(t))
  }

  ghost predicate NoDup(s: seq<DataIndex>) {
    forall j, k | 0 <= j < k < |s| :: s[j] != s[k]
  }

  ghost predicate Apart(a: seq<DataIndex>, b: seq<DataIndex>) {
    forall i <- a :: i !in b
  }

  lemma NoDupAppend(a: seq<DataIndex>, b: seq<DataIndex>)
    ensures NoDup(a + b) <==> NoDup(a) && NoDup(b) && Apart(a, b)
  {
    var s := a + b;
    assert forall j | 0 <= j < |a| :: a[j] == s[j];
    assert forall j | 0 <= j < |b| :: b[j] == s[|a| + j];
    if NoDup(s) {
      forall j, k | 0 <= j < |a| && 0 <= k < |b| ensures a[j] != b[k] {
        assert s[j] != s[|a| + k];
      }
    }
    if NoDup(a) && NoDup(b) && Apart(a, b) {
      forall j, k | 0 <= j < k < |s| ensures s[j] != s[k] {
        if j < |a| <= k {
          assert a[j] in a && b[k - |a|] in b;
        }
      }
    }
  }

  lemma NoDupAround(a: seq<DataIndex>, i: DataIndex, b: seq<DataIndex>)
    ensures NoDup(a + [i] + b) <==> NoDup(a) && NoDup(b) && Apart(a, b) && i !in a && i !in b
  {
    NoDupAppend(a + [i], b);
    NoDupAppend(a, [i]);
  }

  /** The position of a slot is unique, and dropping it leaves what stands around it. */
  lemma CutAt(a: seq<DataIndex>, i: DataIndex, b: seq<DataIndex>, s: seq<DataIndex>, k: nat)
    requires s == a + [i] + b && NoDup(s) && k < |s| && s[k] == i
    ensures k == |a| && s[..k] == a && s[k + 1..] == b
  {
    assert s[|a|] == i;
  }

  /** Exchanging two neighbours and dropping the former first one drops it. */
  lemma CutExchanged(s: seq<DataIndex>, k: nat)
    requires k + 1 < |s|
    ensures
      var t := s[..k] + [s[k + 1], s[k]] + s[k + 2..];
      && |t| == |s| && t[k + 1] == s[k] && t[..k + 1] + t[k + 2..] == s[..k] + s[k + 1..]
      && forall i :: i in t <==> i in s
  {
    var t := s[..k] + [s[k + 1], s[k]] + s[k + 2..];
    assert s == s[..k] + [s[k], s[k + 1]] + s[k + 2..];
    assert t[..k + 1] == s[..k] + [s[k + 1]] && t[k + 2..] == s[k + 2..];
    assert s[k + 1..] == [s[k + 1]] + s[k + 2..];
  }

  // ---- zippers ----

  function Plug(path: Path, t: Tree): Tree {
    match path
    case Top => t
    case LeftOf(i, c, r, up) => Plug(up, Branch(i, c, t, r))
    case RightOf(l, i, c, up) => Plug(up, Branch(i, c, l, t))
  }

  /** The subtree one level above a position that holds `t`. */
  function Above(path: Path, t: Tree): Tree
    requires !path.Top?
  {
    if path.LeftOf? then Branch(path.index, path.color, t, path.right) else Branch(path.index, path.color, path.left, t)
  }

  function Sibling(path: Path): Tree
    requires !path.Top?
  {
    if path.LeftOf? then path.right else path.left
  }

  /** The way to the sibling of a position that holds `t`. */
  function Beside(path: Path, t: Tree): Path
    requires !path.Top?
  {
    if path.LeftOf? then RightOf(t, path.index, path.color, path.up) else LeftOf(path.index, path.color, t, path.up)
  }

  /** The slots that precede and follow the position in key order. */
  function Before(path: Path): seq<DataIndex> {
    match path
    case Top => []
    case LeftOf(_, _, _, up) => Before(up)
    case RightOf(l, i, _, up) => Before(up) + InOrder(l) + [i]
  }

  function After(path: Path): seq<DataIndex> {
    match path
    case Top => []
    case LeftOf(i, _, r, up) => [i] + InOrder(r) + After(up)
    case RightOf(_, _, _, up) => After(up)
  }

  function Length(path: Path): nat {
    if path.Top? then 0 else 1 + Length(path.up)
  }

  ghost predicate PathLinked<V>(m: seq<Node<V>>, path: Path, child: DataIndex) {
    match path
    case Top => true
    case LeftOf(i, c, r, up) =>
      && i < |m| && i != NIL
      && m[i].left == child && m[i].right == RootIndex(r)
      && m[i].parent == Parent(up) && m[i].color == c
      && Linked(m, r, i) && PathLinked(m, up, i)
    case RightOf(l, i, c, up) =>
      && i < |m| && i != NIL
      && m[i].left == RootIndex(l) && m[i].right == child
      && m[i].parent == Parent(up) && m[i].color == c
      && Linked(m, l, i) && PathLinked(m, up, i)
  }

  lemma {:induction false} PlugLinked<V>(m: seq<Node<V>>, path: Path, t: Tree)
    ensures Linked(m, Plug(path, t), NIL) <==> PathLinked(m, path, RootIndex(t)) && Linked(m, t, Parent(path))
    decreases path
  {
    match path
    case Top =>
    case LeftOf(i, c, r, up) => PlugLinked(m, up, Branch(i, c, t, r));
    case RightOf(l, i, c, up) => PlugLinked(m, up, Branch(i, c, l, t));
  }

  lemma {:induction false} PlugOrder(path: Path, t: Tree)
    ensures InOrder(Plug(path, t)) == Before(path) + InOrder(t) + After(path)
    decreases path
  {
    match path
    case Top =>
    case LeftOf(i, c, r, up) => PlugOrder(up, Branch(i, c, t, r));
    case RightOf(l, i, c, up) => PlugOrder(up, Branch(i, c, l, t));
  }

  /** Where the root of a subtree stands in the in-order sequence of the whole tree. */
  lemma {:induction false} PlugPosition(path: Path, t: Tree)
    requires t.Branch?
    ensures
      var s, p := InOrder(Plug(path, t)), |Before(path)| + |InOrder(t.left)|;
      |s| == p + 1 + |InOrder(t.right)| + |After(path)| && s[p] == t.index
  {
    PlugOrder(path, t);
    assert InOrder(t)[|InOrder(t.left)|] == t.index;
  }

  /** Where a slot of one of the two subtrees stands. */
  lemma {:induction false} PlugLeftAt(path: Path, t: Tree, q: nat)
    requires t.Branch? && q < |InOrder(t.left)|
    ensures |Before(path)| + q < |InOrder(Plug(path, t))| && InOrder(Plug(path, t))[|Before(path)| + q] == InOrder(t.left)[q]
  {
    PlugOrder(path, t);
    assert InOrder(t)[q] == InOrder(t.left)[q];
  }

  lemma {:induction false} PlugRightAt(path: Path, t: Tree, q: nat)
    requires t.Branch? && q < |InOrder(t.right)|
    ensures
      var p := |Before(path)| + |InOrder(t.left)| + 1 + q;
      p < |InOrder(Plug(path, t))| && InOrder(Plug(path, t))[p] == InOrder(t.right)[q]
  {
    PlugOrder(path, t);
    assert InOrder(t)[|InOrder(t.left)| + 1 + q] == InOrder(t.right)[q];
  }

  lemma {:induction false} PlugRoot(path: Path, t: Tree)
    ensures Plug(path, t).Leaf? <==> path.Top? && t.Leaf?
    ensures !path.Top? ==> RootIndex(Plug(path, t)) in Before(path) + After(path)
    decreases path
  {
    match path
    case Top =>
    case LeftOf(i, c, r, up) => PlugRoot(up, Branch(i, c, t, r));
    case RightOf(l, i, c, up) => PlugRoot(up, Branch(i, c, l, t));
  }

  lemma {:induction false} PlugRootSame(path: Path, t: Tree, u: Tree)
    ensures !path.Top? ==> RootIndex(Plug(path, t)) == RootIndex(Plug(path, u))
    decreases path
  {
    match path
    case Top =>
    case LeftOf(i, c, r, up) => if !up.Top? { PlugRootSame(up, Branch(i, c, t, r), Branch(i, c, u, r)); }
    case RightOf(l, i, c, up) => if !up.Top? { PlugRootSame(up, Branch(i, c, l, t), Branch(i, c, l, u)); }
  }

  lemma {:induction false} PlugDistinct(path: Path, t: Tree)
    requires Distinct(Plug(path, t))
    ensures NoDup(Before(path)) && Distinct(t) && NoDup(After(path))
    ensures Apart(Before(path), InOrder(t)) && Apart(Before(path), After(path)) && Apart(InOrder(t), After(path))
    ensures path.LeftOf? ==>
              && Distinct(path.right) && path.index !in InOrder(path.right)
              && path.index !in Before(path.up) && path.index !in After(path.up)
    ensures path.RightOf? ==>
              && Distinct(path.left) && path.index !in InOrder(path.left)
              && path.index !in Before(path.up) && path.index !in After(path.up)
  {
    PlugOrder(path, t);
    NoDupAppend(Before(path) + InOrder(t), After(path));
    NoDupAppend(Before(path), InOrder(t));
    match path
    case Top =>
    case LeftOf(i, c, r, up) =>
      NoDupAppend([i] + InOrder(r), After(up));
      NoDupAppend([i], InOrder(r));
      assert i in After(path);
    case RightOf(l, i, c, up) =>
      NoDupAppend(Before(up) + InOrder(l), [i]);
      NoDupAppend(Before(up), InOrder(l));
      assert i in Before(path);
  }

  /** Everything a reader of the memory can see around a position. */
  lemma {:induction false} Focus<V>(m: seq<Node<V>>, path: Path, t: Tree)
    requires Linked(m, Plug(path, t), NIL) && Distinct(Plug(path, t))
    ensures Linked(m, t, Parent(path)) && PathLinked(m, path, RootIndex(t)) && Distinct(t)
    ensures !path.Top? ==> Parent(path) !in InOrder(t) && Parent(path) in InOrder(Plug(path, t))
    ensures forall i <- InOrder(t) :: i in InOrder(Plug(path, t))
    ensures t.Branch? ==> t.index in InOrder(t)
    ensures t.Branch? ==> (RootIndex(Plug(path, t)) == t.index <==> path.Top?)
    ensures path.RightOf? && t.Branch? ==> RootIndex(path.left) != t.index
    ensures path.LeftOf? && t.Branch? ==> RootIndex(path.right) != t.index
  {
    PlugLinked(m, path, t);
    PlugDistinct(path, t);
    PlugRoot(path, t);
    PlugOrder(path, t);
    assert path.LeftOf? ==> path.index in After(path);
    assert path.RightOf? ==> path.index in Before(path);
    if t.Branch? {
      assert t.index in InOrder(t);
      if path.RightOf? && path.left.Branch? {
        assert path.left.index in InOrder(path.left);
      }
      if path.LeftOf? && path.right.Branch? {
        assert path.right.index in InOrder(path.right);
      }
    }
  }

  // ---- frames ----

  lemma {:induction false} LinkedFrame<V>(m: seq<Node<V>>, n: seq<Node<V>>, t: Tree, parent: DataIndex)
    requires Linked(m, t, parent) && |m| <= |n|
    requires forall i <- InOrder(t) :: i < |m| ==> n[i] == m[i]
    ensures Linked(n, t, parent)
  {
    if t.Branch? {
      assert t.index in InOrder(t);
      LinkedFrame(m, n, t.left, t.index);
      LinkedFrame(m, n, t.right, t.index);
    }
  }

  lemma {:induction false} PathLinkedFrame<V>(m: seq<Node<V>>, n: seq<Node<V>>, path: Path, child: DataIndex)
    requires PathLinked(m, path, child) && |m| <= |n|
    requires forall i <- Before(path) :: i < |m| ==> n[i] == m[i]
    requires forall i <- After(path) :: i < |m| ==> n[i] == m[i]
    ensures PathLinked(n, path, child)
  {
    match path
    case Top =>
    case LeftOf(i, c, r, up) =>
      assert i in After(path);
      LinkedFrame(m, n, r, i);
      PathLinkedFrame(m, n, up, i);
    case RightOf(l, i, c, up) =>
      assert i in Before(path);
      LinkedFrame(m, n, l, i);
      PathLinkedFrame(m, n, up, i);
  }

  /** Only the parent link of the root of `t` has changed. */
  lemma {:induction false} Reparented<V>(m: seq<Node<V>>, n: seq<Node<V>>, t: Tree, parent: DataIndex, newParent: DataIndex)
    requires Linked(m, t, parent) && Distinct(t) && |m| == |n|
    requires t.Branch? ==> n[t.index] == m[t.index].(parent := newParent)
    requires forall i <- InOrder(t) :: i < |m| && i != t.index ==> n[i] == m[i]
    ensures Linked(n, t, newParent)
  {
    if t.Branch? {
      NoDupAround(InOrder(t.left), t.index, InOrder(t.right));
      LinkedFrame(m, n, t.left, t.index);
      LinkedFrame(m, n, t.right, t.index);
    }
  }

  /** Memory `n` differs from `m` outside `inside` in one link only: the parent of the
      position now has `child` below it. */
  ghost predicate ChildSet<V>(m: seq<Node<V>>, n: seq<Node<V>>, path: Path, child: DataIndex, inside: seq<DataIndex>) {
    && |n| == |m|
    && (forall i | 0 <= i < |m| && i !in inside && i != Parent(path) :: n[i] == m[i])
    && (path.LeftOf? && path.index < |m| ==> n[path.index] == m[path.index].(left := child))
    && (path.RightOf? && path.index < |m| ==> n[path.index] == m[path.index].(right := child))
  }

  /** The workhorse: a local change of the subtree at a position is a change of the whole tree. */
  lemma {:induction false} Replace<V>(m: seq<Node<V>>, n: seq<Node<V>>, path: Path, t: Tree, u: Tree)
    requires Linked(m, Plug(path, t), NIL) && Distinct(Plug(path, t))
    requires Linked(n, u, Parent(path))
    requires ChildSet(m, n, path, RootIndex(u), InOrder(t))
    ensures Linked(n, Plug(path, u), NIL)
  {
    PlugLinked(m, path, t);
    PlugDistinct(path, t);
    PlugLinked(n, path, u);
    match path
    case Top =>
    case LeftOf(i, c, r, up) =>
      LinkedFrame(m, n, r, i);
      PathLinkedFrame(m, n, up, i);
    case RightOf(l, i, c, up) =>
      LinkedFrame(m, n, l, i);
      PathLinkedFrame(m, n, up, i);
  }

  lemma Regroup(p: seq<DataIndex>, l: seq<DataIndex>, i: DataIndex, r: seq<DataIndex>, q: seq<DataIndex>)
    ensures p + (l + [i] + r) + q == (p + l) + [i] + (r + q)
    ensures p + l + r + q == (p + l) + (r + q)
  {
  }

  lemma {:induction false} WithoutSlot(path: Path, u: Tree, k: nat)
    requires u.Branch? && Distinct(Plug(path, u))
    requires k < |InOrder(Plug(path, u))| && InOrder(Plug(path, u))[k] == u.index
    ensures k == |Before(path)| + |InOrder(u.left)|
    ensures Before(path) + InOrder(u.left) + InOrder(u.right) + After(path) == InOrder(Plug(path, u))[..k] + InOrder(Plug(path, u))[k + 1..]
  {
    var s, a, b := InOrder(Plug(path, u)), Before(path) + InOrder(u.left), InOrder(u.right) + After(path);
    PlugOrder(path, u);
    Regroup(Before(path), InOrder(u.left), u.index, InOrder(u.right), After(path));
    CutAt(a, u.index, b, s, k);
  }

  lemma {:induction false} SuccessorPosition(path: Path, u: Tree, k: nat)
    requires u.Branch? && u.right.Branch? && k == |Before(path)| + |InOrder(u.left)|
    ensures k + 1 < |InOrder(Plug(path, u))| && InOrder(Plug(path, u))[k + 1] == InOrder(u.right)[0]
  {
    PlugPosition(path, u);
    PlugOrder(path, u);
    assert InOrder(u)[|InOrder(u.left)| + 1] == InOrder(u.right)[0];
  }
}
