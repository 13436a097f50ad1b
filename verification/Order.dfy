/** Key order: what insertion and removal mean for the in-order sequence of entries. */
module Order {
  import opened Hypertree
  import opened Shape

  /** A live slot and its payload. */
  datatype Entry<+V> = Entry(index: DataIndex, value: V)

  ghost predicate InRange<V>(m: seq<Node<V>>, s: seq<DataIndex>) {
    forall k | 0 <= k < |s| :: s[k] < |m|
  }

  ghost function Entries<V>(m: seq<Node<V>>, s: seq<DataIndex>): (es: seq<Entry<V>>)
    requires InRange(m, s)
    ensures |es| == |s| && forall k | 0 <= k < |s| :: es[k] == Entry(s[k], m[s[k]].value)
  {
    seq(|s|, k requires 0 <= k < |s| => Entry(s[k], m[s[k]].value))
  }

  ghost predicate Sorted<V>(cmp: (V, V) -> Ordering, es: seq<Entry<V>>) {
    forall j, k | 0 <= j < k < |es| :: cmp(es[j].value, es[k].value) != Greater
  }

  /** The new entry goes just before the first one that is not less. */
  ghost function Inserted<V>(cmp: (V, V) -> Ordering, es: seq<Entry<V>>, e: Entry<V>): seq<Entry<V>> {
    if es == [] || cmp(es[0].value, e.value) != Less then [e] + es
    else [es[0]] + Inserted(cmp, es[1..], e)
  }

  /** The entry of slot `i` is gone, the others keep their order. */
  ghost function Removed<V>(es: seq<Entry<V>>, i: DataIndex): seq<Entry<V>> {
    if es == [] then []
    else if es[0].index == i then es[1..]
    else [es[0]] + Removed(es[1..], i)
  }

  lemma {:induction false} InsertedAt<V(!new)>(cmp: (V, V) -> Ordering, es: seq<Entry<V>>, e: Entry<V>, k: nat)
    requires k <= |es|
    requires forall j | 0 <= j < k :: cmp(es[j].value, e.value) == Less
    requires k < |es| ==> cmp(es[k].value, e.value) != Less
    ensures Inserted(cmp, es, e) == es[..k] + [e] + es[k..]
  {
    if k > 0 {
      InsertedAt(cmp, es[1..], e, k - 1);
      assert es[..k] == [es[0]] + es[1..][..k - 1];
    }
  }

  lemma {:induction false} RemovedAt<V>(es: seq<Entry<V>>, k: nat)
    requires k < |es|
    requires forall j | 0 <= j < k :: es[j].index != es[k].index
    ensures Removed(es, es[k].index) == es[..k] + es[k + 1..]
  {
    if k > 0 {
      RemovedAt(es[1..], k - 1);
      assert es[..k] == [es[0]] + es[1..][..k - 1];
    }
  }

  lemma LessThrough<V(!new)>(cmp: (V, V) -> Ordering, a: V, b: V, c: V)
    requires TotalOrder(cmp) && cmp(a, b) != Greater && cmp(b, c) == Less
    ensures cmp(a, c) == Less
  {
    assert cmp(c, b) == Greater;
  }

  lemma NotLessThrough<V(!new)>(cmp: (V, V) -> Ordering, a: V, b: V, c: V)
    requires TotalOrder(cmp) && cmp(a, b) != Greater && cmp(a, c) != Less
    ensures cmp(b, c) != Less
  {
    if cmp(b, c) == Less {
      LessThrough(cmp, a, b, c);
    }
  }

  /** One comparison decides one side of a sorted sequence. */
  lemma Bisect<V(!new)>(cmp: (V, V) -> Ordering, es: seq<Entry<V>>, p: nat, value: V)
    requires TotalOrder(cmp) && Sorted(cmp, es) && p < |es|
    ensures cmp(es[p].value, value) == Less ==> forall j | 0 <= j <= p :: cmp(es[j].value, value) == Less
    ensures cmp(es[p].value, value) != Less ==> forall j | p <= j < |es| :: cmp(es[j].value, value) != Less
    ensures cmp(value, es[p].value) == Greater <==> cmp(es[p].value, value) == Less
  {
    forall j | 0 <= j < p && cmp(es[p].value, value) == Less ensures cmp(es[j].value, value) == Less {
      LessThrough(cmp, es[j].value, es[p].value, value);
    }
    forall j | p < j < |es| && cmp(es[p].value, value) != Less ensures cmp(es[j].value, value) != Less {
      NotLessThrough(cmp, es[p].value, es[j].value, value);
    }
  }

  lemma {:induction false} InsertedSorted<V(!new)>(cmp: (V, V) -> Ordering, es: seq<Entry<V>>, e: Entry<V>, k: nat)
    requires TotalOrder(cmp) && Sorted(cmp, es) && k <= |es|
    requires forall j | 0 <= j < k :: cmp(es[j].value, e.value) == Less
    requires forall j | k <= j < |es| :: cmp(es[j].value, e.value) != Less
    ensures Sorted(cmp, es[..k] + [e] + es[k..])
  {
    forall j | k <= j < |es| ensures cmp(e.value, es[j].value) != Greater {
    }
  }

  lemma RemovedSorted<V(!new)>(cmp: (V, V) -> Ordering, es: seq<Entry<V>>, k: nat)
    requires Sorted(cmp, es) && k < |es|
    ensures Sorted(cmp, es[..k] + es[k + 1..])
  {
  }

  /** Entries depend on the order of the slots and on the payloads only. */
  lemma EntriesSame<V>(m: seq<Node<V>>, n: seq<Node<V>>, s: seq<DataIndex>)
    requires InRange(m, s) && |m| == |n| && forall i <- s :: n[i].value == m[i].value
    ensures InRange(n, s) && Entries(n, s) == Entries(m, s)
  {
  }

  lemma InsertedEntries<V>(m: seq<Node<V>>, n: seq<Node<V>>, before: seq<DataIndex>, after: seq<DataIndex>, index: DataIndex, value: V)
    requires InRange(m, before + after) && InRange(n, before + [index] + after) && |m| == |n|
    requires index !in before + after && index < |n| && n[index].value == value
    requires forall i | 0 <= i < |m| && i != index :: n[i].value == m[i].value
    ensures
      var es := Entries(m, before + after);
      Entries(n, before + [index] + after) == es[..|before|] + [Entry(index, value)] + es[|before|..]
  {
    var s, t := before + after, before + [index] + after;
    var es, fs := Entries(m, s), Entries(n, t);
    forall k | 0 <= k < |fs| ensures fs[k] == (es[..|before|] + [Entry(index, value)] + es[|before|..])[k] {
      if k < |before| {
        assert t[k] == s[k] && s[k] in s;
      } else if k > |before| {
        assert t[k] == s[k - 1] && s[k - 1] in s;
      }
    }
  }

  /** The new leaf on the level of entries. */
  lemma {:induction false} LeafInserted<V(!new)>(cmp: (V, V) -> Ordering, m: seq<Node<V>>, n: seq<Node<V>>,
                                                 before: seq<DataIndex>, after: seq<DataIndex>, index: DataIndex, value: V)
    requires TotalOrder(cmp)
    requires InRange(m, before + after) && InRange(n, before + [index] + after) && |m| == |n|
    requires index !in before + after && index < |n| && n[index].value == value
    requires forall i | 0 <= i < |m| && i != index :: n[i].value == m[i].value
    requires Sorted(cmp, Entries(m, before + after))
    requires forall j | 0 <= j < |before| :: cmp(Entries(m, before + after)[j].value, value) == Less
    requires forall j | |before| <= j < |before + after| :: cmp(Entries(m, before + after)[j].value, value) != Less
    ensures Entries(n, before + [index] + after) == Inserted(cmp, Entries(m, before + after), Entry(index, value))
    ensures Sorted(cmp, Entries(n, before + [index] + after))
  {
    var es := Entries(m, before + after);
    InsertedEntries(m, n, before, after, index, value);
    InsertedAt(cmp, es, Entry(index, value), |before|);
    InsertedSorted(cmp, es, Entry(index, value), |before|);
  }

  lemma RemovedEntries<V>(m: seq<Node<V>>, before: seq<DataIndex>, after: seq<DataIndex>, index: DataIndex)
    requires InRange(m, before + [index] + after) && InRange(m, before + after)
    ensures
      var es := Entries(m, before + [index] + after);
      Entries(m, before + after) == es[..|before|] + es[|before| + 1..]
  {
    var s, t := before + after, before + [index] + after;
    assert forall k | 0 <= k < |before| :: t[k] == s[k];
    assert forall k | |before| <= k < |s| :: t[k + 1] == s[k];
  }

  /** Taking the slot at position `k` out, on the level of entries. */
  lemma {:induction false} SlotRemoved<V(!new)>(cmp: (V, V) -> Ordering, m: seq<Node<V>>, s: seq<DataIndex>, k: nat)
    requires InRange(m, s) && NoDup(s) && k < |s| && Sorted(cmp, Entries(m, s))
    ensures InRange(m, s[..k] + s[k + 1..])
    ensures Entries(m, s[..k] + s[k + 1..]) == Removed(Entries(m, s), s[k]) && Sorted(cmp, Entries(m, s[..k] + s[k + 1..]))
  {
    var es, before, after := Entries(m, s), s[..k], s[k + 1..];
    assert s == before + [s[k]] + after;
    assert InRange(m, before + after);
    RemovedEntries(m, before, after, s[k]);
    assert forall j | 0 <= j < k :: es[j].index == s[j] != s[k] == es[k].index;
    RemovedAt(es, k);
    RemovedSorted(cmp, es, k);
  }

  lemma SlotGone(s: seq<DataIndex>, k: nat)
    requires NoDup(s) && k < |s|
    ensures forall i :: i in s[..k] + s[k + 1..] <==> i in s && i != s[k]
  {
    assert s == s[..k] + [s[k]] + s[k + 1..];
    NoDupAround(s[..k], s[k], s[k + 1..]);
  }

  /** `lower` stands right before slot `index`; NIL before the first one. */
  ghost predicate Precedes(s: seq<DataIndex>, lower: DataIndex, index: DataIndex) {
    forall k | 0 <= k < |s| && s[k] == index :: lower == if k == 0 then NIL else s[k - 1]
  }

  /** `higher` stands right after slot `index`; NIL after the last one. */
  ghost predicate Follows(s: seq<DataIndex>, higher: DataIndex, index: DataIndex) {
    forall k | 0 <= k < |s| && s[k] == index :: higher == if k + 1 == |s| then NIL else s[k + 1]
  }

  lemma LowerAt(s: seq<DataIndex>, lower: DataIndex, k: nat)
    requires k < |s| && Precedes(s, lower, s[k])
    ensures lower == if k == 0 then NIL else s[k - 1]
  {
  }

  lemma HigherAt(s: seq<DataIndex>, higher: DataIndex, k: nat)
    requires k < |s| && Follows(s, higher, s[k])
    ensures higher == if k + 1 == |s| then NIL else s[k + 1]
  {
  }

  function Last(s: seq<DataIndex>): DataIndex {
    if s == [] then NIL else s[|s| - 1]
  }

  /** What stands right before the root of a subtree. */
  lemma {:induction false} PreviousSlot(path: Path, u: Tree)
    requires u.Branch? && Distinct(Plug(path, u))
    ensures Precedes(InOrder(Plug(path, u)), if u.left.Branch? then Last(InOrder(u.left)) else Last(Before(path)), u.index)
  {
    var s, a, b := InOrder(Plug(path, u)), Before(path) + InOrder(u.left), InOrder(u.right) + After(path);
    PlugOrder(path, u);
    Regroup(Before(path), InOrder(u.left), u.index, InOrder(u.right), After(path));
    assert Last(a) == if u.left.Branch? then Last(InOrder(u.left)) else Last(Before(path));
    forall k | 0 <= k < |s| && s[k] == u.index ensures Last(a) == if k == 0 then NIL else s[k - 1] {
      CutAt(a, u.index, b, s, k);
    }
    assert Precedes(s, Last(a), u.index);
  }

  lemma LastWithout(s: seq<DataIndex>, k: nat)
    requires k < |s| && NoDup(s)
    ensures
      var rest := s[..k] + s[k + 1..];
      Last(rest) == if s[k] != Last(s) then Last(s) else if k == 0 then NIL else s[k - 1]
  {
  }

  /** A new entry becomes the last one exactly when its key exceeds all others. */
  lemma NewLast<V(!new)>(cmp: (V, V) -> Ordering, es: seq<Entry<V>>, before: seq<DataIndex>, after: seq<DataIndex>, index: DataIndex, value: V)
    requires |es| == |before + after| && es != []
    requires forall j | 0 <= j < |before| :: cmp(es[j].value, value) == Less
    requires forall j | |before| <= j < |es| :: cmp(es[j].value, value) != Less
    ensures Last(before + [index] + after) == if cmp(es[|es| - 1].value, value) == Less then index else Last(before + after)
  {
    if after == [] {
      assert cmp(es[|before| - 1].value, value) == Less;
    } else {
      assert cmp(es[|es| - 1].value, value) != Less;
    }
  }

  lemma Joined(before: seq<DataIndex>, after: seq<DataIndex>, index: DataIndex)
    ensures forall i :: i in before + [index] + after <==> i in before + after || i == index
  {
  }

  // ---- search ----

  /** What `lookup_index` looks for: equal in the key order and equal as a payload. */
  predicate Matches<V>(cmp: (V, V) -> Ordering, same: (V, V) -> bool, candidate: V, probe: V) {
    cmp(candidate, probe) == Equal && same(candidate, probe)
  }

  lemma Prune<V(!new)>(cmp: (V, V) -> Ordering, es: seq<Entry<V>>, p: nat, j: nat, value: V)
    requires TotalOrder(cmp) && Sorted(cmp, es) && p < |es| && j < |es|
    requires (cmp(es[p].value, value) == Greater && p < j) || (cmp(es[p].value, value) == Less && j < p)
    ensures cmp(es[j].value, value) != Equal
  {
    if p < j {
      assert cmp(value, es[p].value) == Less;
    } else {
      LessThrough(cmp, es[j].value, es[p].value, value);
    }
  }

  /** The slots of the subtrees on a stack. */
  ghost function Pending(ts: seq<Tree>): seq<DataIndex> {
    if ts == [] then [] else Pending(ts[..|ts| - 1]) + InOrder(ts[|ts| - 1])
  }

  lemma {:induction false} PendingPush(ts: seq<Tree>, t: Tree)
    ensures Pending(ts + [t]) == Pending(ts) + InOrder(t)
  {
    assert (ts + [t])[..|ts|] == ts;
  }

  /** One comparison rules out one of the subtrees. */
  lemma {:induction false} PruneRight<V(!new)>(cmp: (V, V) -> Ordering, m: seq<Node<V>>, path: Path, v: Tree, value: V)
    requires TotalOrder(cmp) && v.Branch? && v.index < |m| && InRange(m, InOrder(Plug(path, v)))
    requires Sorted(cmp, Entries(m, InOrder(Plug(path, v)))) && cmp(m[v.index].value, value) == Greater
    ensures forall i <- InOrder(v.right) :: i < |m| && cmp(m[i].value, value) != Equal
  {
    var p, es := |Before(path)| + |InOrder(v.left)|, Entries(m, InOrder(Plug(path, v)));
    PlugPosition(path, v);
    forall i <- InOrder(v.right) ensures i < |m| && cmp(m[i].value, value) != Equal {
      var q :| 0 <= q < |InOrder(v.right)| && InOrder(v.right)[q] == i;
      PlugRightAt(path, v, q);
      Prune(cmp, es, p, p + 1 + q, value);
    }
  }

  lemma {:induction false} PruneLeft<V(!new)>(cmp: (V, V) -> Ordering, m: seq<Node<V>>, path: Path, v: Tree, value: V)
    requires TotalOrder(cmp) && v.Branch? && v.index < |m| && InRange(m, InOrder(Plug(path, v)))
    requires Sorted(cmp, Entries(m, InOrder(Plug(path, v)))) && cmp(m[v.index].value, value) == Less
    ensures forall i <- InOrder(v.left) :: i < |m| && cmp(m[i].value, value) != Equal
  {
    var p, es := |Before(path)| + |InOrder(v.left)|, Entries(m, InOrder(Plug(path, v)));
    PlugPosition(path, v);
    forall i <- InOrder(v.left) ensures i < |m| && cmp(m[i].value, value) != Equal {
      var q :| 0 <= q < |InOrder(v.left)| && InOrder(v.left)[q] == i;
      PlugLeftAt(path, v, q);
      Prune(cmp, es, p, |Before(path)| + q, value);
    }
  }
}
