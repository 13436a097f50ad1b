/** The red-black rules on the ghost tree, and what they mean around one position. */
module Balance {
  import opened Hypertree
  import opened Shape

  /** Black nodes on the way to the leftmost leaf. */
  function BlackHeight(t: Tree): nat {
    match t
    case Leaf => 0
    case Branch(_, c, l, _) => BlackHeight(l) + if c.Black? then 1 else 0
  }

  /** Equal black heights and no red node below a red node. */
  ghost predicate Balanced(t: Tree) {
    match t
    case Leaf => true
    case Branch(_, c, l, r) =>
      && Balanced(l) && Balanced(r) && BlackHeight(l) == BlackHeight(r)
      && (c.Red? ==> RootColor(l).Black? && RootColor(r).Black?)
  }

  /** The tree's own self-check: red nodes have black children, and the way from the root to
      every missing child passes `count` black nodes, `above` of them above `t`. */
  ghost predicate Checked(t: Tree, above: nat, count: nat) {
    match t
    case Leaf => above == count
    case Branch(_, c, l, r) =>
      && (c.Red? ==> RootColor(l).Black? && RootColor(r).Black?)
      && Checked(l, above + if c.Black? then 1 else 0, count)
      && Checked(r, above + if c.Black? then 1 else 0, count)
  }

  /** The self-check passes exactly on the balanced trees. */
  lemma {:induction false} CheckedIsBalanced(t: Tree, above: nat, count: nat)
    ensures Checked(t, above, count) <==> Balanced(t) && above + BlackHeight(t) == count
    decreases t
  {
    if t.Branch? {
      var deeper := above + if t.color.Black? then 1 else 0;
      CheckedIsBalanced(t.left, deeper, count);
      CheckedIsBalanced(t.right, deeper, count);
    }
  }

  function ParentColor(path: Path): Color {
    if path.Top? then Black else path.color
  }

  /** The surroundings are balanced once the position holds a subtree of black height `h`,
      except perhaps for one red-red edge right above the position. */
  ghost predicate Surrounds(path: Path, h: nat) {
    match path
    case Top => true
    case LeftOf(_, c, s, up) =>
      && Balanced(s) && BlackHeight(s) == h && (c.Red? ==> RootColor(s).Black? && ParentColor(up).Black?)
      && Surrounds(up, h + if c.Black? then 1 else 0)
    case RightOf(s, _, c, up) =>
      && Balanced(s) && BlackHeight(s) == h && (c.Red? ==> RootColor(s).Black? && ParentColor(up).Black?)
      && Surrounds(up, h + if c.Black? then 1 else 0)
  }

  lemma {:induction false} PlugBalanced(path: Path, t: Tree)
    ensures Balanced(Plug(path, t)) <==>
            Balanced(t) && Surrounds(path, BlackHeight(t)) && (RootColor(t).Red? ==> ParentColor(path).Black?)
    decreases path
  {
    match path
    case Top =>
    case LeftOf(i, c, s, up) => PlugBalanced(up, Branch(i, c, t, s));
    case RightOf(s, i, c, up) => PlugBalanced(up, Branch(i, c, s, t));
  }

  /** The colour of the root survives a change below it. */
  lemma {:induction false} PlugRootColor(path: Path, t: Tree, u: Tree)
    requires RootColor(t) == RootColor(u) || !path.Top?
    ensures RootColor(Plug(path, t)) == RootColor(Plug(path, u))
    decreases path
  {
    match path
    case Top =>
    case LeftOf(i, c, s, up) => PlugRootColor(up, Branch(i, c, t, s), Branch(i, c, u, s));
    case RightOf(s, i, c, up) => PlugRootColor(up, Branch(i, c, s, t), Branch(i, c, s, u));
  }

  // ---- height ----

  function Height(t: Tree): nat {
    match t
    case Leaf => 0
    case Branch(_, _, l, r) => 1 + if Height(l) > Height(r) then Height(l) else Height(r)
  }

  function Pow2(n: nat): nat {
    if n == 0 then 1 else 2 * Pow2(n - 1)
  }

  lemma {:induction false} Pow2Add(a: nat, b: nat)
    ensures Pow2(a + b) == Pow2(a) * Pow2(b)
  {
    if a > 0 {
      Pow2Add(a - 1, b);
      assert Pow2(a + b) == 2 * Pow2(a - 1 + b);
    }
  }

  lemma {:induction false} Pow2Monotone(a: nat, b: nat)
    requires a <= b
    ensures 1 <= Pow2(a) <= Pow2(b)
    decreases b
  {
    if a < b {
      Pow2Monotone(a, b - 1);
    } else if a > 0 {
      Pow2Monotone(a - 1, b - 1);
    }
  }

  lemma {:induction false} HeightByBlackHeight(t: Tree)
    requires Balanced(t)
    ensures Height(t) <= 2 * BlackHeight(t) + if RootColor(t).Red? then 1 else 0
    ensures Pow2(BlackHeight(t)) <= |InOrder(t)| + 1
  {
    if t.Branch? {
      HeightByBlackHeight(t.left);
      HeightByBlackHeight(t.right);
    }
  }

  lemma SquareMonotone(a: nat, b: nat)
    requires a <= b
    ensures a * a <= b * b
  {
    assert a * a <= a * b <= b * b;
  }

  /** Height is at most twice the binary logarithm of size plus one. */
  lemma {:induction false} HeightBound(t: Tree)
    requires Balanced(t) && RootColor(t).Black?
    ensures Pow2(Height(t)) <= (|InOrder(t)| + 1) * (|InOrder(t)| + 1)
  {
    HeightByBlackHeight(t);
    var b, n := BlackHeight(t), |InOrder(t)| + 1;
    Pow2Monotone(Height(t), b + b);
    Pow2Add(b, b);
    SquareMonotone(Pow2(b), n);
  }
}
