/** Whole histories of one tree: what the in-order entries are after any run of insertions
    and removals from empty, and the first-in-first-out rule for equal keys. */
module History {
  import opened Hypertree
  import opened Shape
  import opened Order
  import opened RedBlackTrees

  datatype Op<+V> = Put(index: DataIndex, value: V) | Take(index: DataIndex)

  ghost function Step<V(!new)>(cmp: (V, V) -> Ordering, es: seq<Entry<V>>, op: Op<V>): seq<Entry<V>> {
    match op
    case Put(i, v) => Inserted(cmp, es, Entry(i, v))
    case Take(i) => Removed(es, i)
  }

  /** The entries after a history, as each single operation changes them. */
  ghost function Run<V(!new)>(cmp: (V, V) -> Ordering, ops: seq<Op<V>>): seq<Entry<V>> {
    if ops == [] then [] else Step(cmp, Run(cmp, ops[..|ops| - 1]), ops[|ops| - 1])
  }

  ghost function Slots<V>(es: seq<Entry<V>>): seq<DataIndex>
    ensures |Slots(es)| == |es| && forall k | 0 <= k < |es| :: Slots(es)[k] == es[k].index
  {
    seq(|es|, k requires 0 <= k < |es| => es[k].index)
  }

  /** What the callers promise: slots are real, a new slot is not in use, a removed one is. */
  ghost predicate Legal<V(!new)>(cmp: (V, V) -> Ordering, ops: seq<Op<V>>, capacity: nat) {
    forall t | 0 <= t < |ops| :: Allowed(Run(cmp, ops[..t]), ops[t], capacity)
  }

  ghost predicate Allowed<V>(es: seq<Entry<V>>, op: Op<V>, capacity: nat) {
    match op
    case Put(i, _) => i < capacity && i !in Slots(es)
    case Take(i) => i in Slots(es)
  }

  // ---- first in, first out ----

  /** An entry together with the time of the operation that put it in. */
  datatype Stamped<+V> = Stamped(entry: Entry<V>, time: nat)

  ghost function StampedInsert<V(!new)>(cmp: (V, V) -> Ordering, ss: seq<Stamped<V>>, s: Stamped<V>): seq<Stamped<V>> {
    if ss == [] || cmp(ss[0].entry.value, s.entry.value) != Less then [s] + ss
    else [ss[0]] + StampedInsert(cmp, ss[1..], s)
  }

  ghost function StampedRemove<V>(ss: seq<Stamped<V>>, i: DataIndex): seq<Stamped<V>> {
    if ss == [] then [] else if ss[0].entry.index == i then ss[1..] else [ss[0]] + StampedRemove(ss[1..], i)
  }

  ghost function StampedRun<V(!new)>(cmp: (V, V) -> Ordering, ops: seq<Op<V>>): seq<Stamped<V>> {
    if ops == [] then []
    else
      var t := |ops| - 1;
      var ss := StampedRun(cmp, ops[..t]);
      match ops[t]
      case Put(i, v) => StampedInsert(cmp, ss, Stamped(Entry(i, v), t))
      case Take(i) => StampedRemove(ss, i)
  }

  ghost function Forget<V>(ss: seq<Stamped<V>>): seq<Entry<V>>
    ensures |Forget(ss)| == |ss| && forall k | 0 <= k < |ss| :: Forget(ss)[k] == ss[k].entry
  {
    seq(|ss|, k requires 0 <= k < |ss| => ss[k].entry)
  }

  lemma {:induction false} ForgetInsert<V(!new)>(cmp: (V, V) -> Ordering, ss: seq<Stamped<V>>, s: Stamped<V>)
    ensures Forget(StampedInsert(cmp, ss, s)) == Inserted(cmp, Forget(ss), s.entry)
  {
    if ss == [] || cmp(ss[0].entry.value, s.entry.value) != Less {
      assert Forget([s] + ss) == [s.entry] + Forget(ss);
    } else {
      ForgetInsert(cmp, ss[1..], s);
      assert Forget(ss)[1..] == Forget(ss[1..]);
      assert Forget([ss[0]] + StampedInsert(cmp, ss[1..], s)) == [ss[0].entry] + Forget(StampedInsert(cmp, ss[1..], s));
    }
  }

  lemma {:induction false} ForgetRemove<V>(ss: seq<Stamped<V>>, i: DataIndex)
    ensures Forget(StampedRemove(ss, i)) == Removed(Forget(ss), i)
  {
    if ss != [] {
      assert Forget(ss)[1..] == Forget(ss[1..]);
      if ss[0].entry.index != i {
        ForgetRemove(ss[1..], i);
        assert Forget([ss[0]] + StampedRemove(ss[1..], i)) == [ss[0].entry] + Forget(StampedRemove(ss[1..], i));
      }
    }
  }

  /** Stamps are bookkeeping: without them the stamped run is the run. */
  lemma {:induction false} StampsForgotten<V(!new)>(cmp: (V, V) -> Ordering, ops: seq<Op<V>>)
    ensures Forget(StampedRun(cmp, ops)) == Run(cmp, ops)
  {
    if ops != [] {
      var t := |ops| - 1;
      StampsForgotten(cmp, ops[..t]);
      match ops[t]
      case Put(i, v) => ForgetInsert(cmp, StampedRun(cmp, ops[..t]), Stamped(Entry(i, v), t));
      case Take(i) => ForgetRemove(StampedRun(cmp, ops[..t]), i);
    }
  }

  /** Ascending keys; among equal keys the youngest first. */
  ghost predicate YoungestFirst<V(!new)>(cmp: (V, V) -> Ordering, ss: seq<Stamped<V>>) {
    forall j, k | 0 <= j < k < |ss| :: Ranked(cmp, ss[j], ss[k])
  }

  ghost predicate Ranked<V(!new)>(cmp: (V, V) -> Ordering, a: Stamped<V>, b: Stamped<V>) {
    var c := cmp(a.entry.value, b.entry.value);
    c == Less || (c == Equal && a.time > b.time)
  }

  lemma {:induction false} InsertYoungest<V(!new)>(cmp: (V, V) -> Ordering, ss: seq<Stamped<V>>, s: Stamped<V>)
    requires TotalOrder(cmp) && YoungestFirst(cmp, ss) && forall k | 0 <= k < |ss| :: ss[k].time < s.time
    ensures YoungestFirst(cmp, StampedInsert(cmp, ss, s))
    ensures forall x :: x in StampedInsert(cmp, ss, s) <==> x in ss || x == s
  {
    if ss == [] {
    } else if cmp(ss[0].entry.value, s.entry.value) != Less {
      forall k | 0 <= k < |ss| ensures cmp(ss[k].entry.value, s.entry.value) != Less {
        if k > 0 {
          NotLessThrough(cmp, ss[0].entry.value, ss[k].entry.value, s.entry.value);
        }
      }
    } else {
      var rest := StampedInsert(cmp, ss[1..], s);
      InsertYoungest(cmp, ss[1..], s);
      forall x <- rest ensures Ranked(cmp, ss[0], x) {
        if x != s {
          assert x in ss[1..];
        }
      }
    }
  }

  lemma {:induction false} RemoveYoungest<V(!new)>(cmp: (V, V) -> Ordering, ss: seq<Stamped<V>>, i: DataIndex)
    requires YoungestFirst(cmp, ss)
    ensures YoungestFirst(cmp, StampedRemove(ss, i))
    ensures forall x <- StampedRemove(ss, i) :: x in ss
  {
    if ss != [] && ss[0].entry.index != i {
      RemoveYoungest(cmp, ss[1..], i);
      forall x <- StampedRemove(ss[1..], i) ensures Ranked(cmp, ss[0], x) {
      }
    }
  }

  /** The FIFO rule over every history: keys ascend, equal keys stand youngest first, and each
      stamp names the operation that put the entry in. Read backwards, as the iterator does,
      equal keys come oldest first. */
  lemma {:induction false} FirstInFirstOut<V(!new)>(cmp: (V, V) -> Ordering, ops: seq<Op<V>>)
    requires TotalOrder(cmp)
    ensures YoungestFirst(cmp, StampedRun(cmp, ops))
    ensures forall s <- StampedRun(cmp, ops) :: s.time < |ops| && ops[s.time] == Put(s.entry.index, s.entry.value)
    ensures Forget(StampedRun(cmp, ops)) == Run(cmp, ops)
  {
    StampsForgotten(cmp, ops);
    if ops != [] {
      var t := |ops| - 1;
      var ss := StampedRun(cmp, ops[..t]);
      FirstInFirstOut(cmp, ops[..t]);
      assert forall s <- ss :: ops[..t][s.time] == ops[s.time];
      match ops[t]
      case Put(i, v) =>
        assert forall k | 0 <= k < |ss| :: ss[k] in ss;
        InsertYoungest(cmp, ss, Stamped(Entry(i, v), t));
      case Take(i) => RemoveYoungest(cmp, ss, i);
    }
  }

  // ---- live slots ----

  /** The last operation on slot `i` put it in. */
  predicate Live<V>(ops: seq<Op<V>>, i: DataIndex) {
    if ops == [] then false
    else if ops[|ops| - 1].index == i then ops[|ops| - 1].Put?
    else Live(ops[..|ops| - 1], i)
  }

  lemma {:induction false} InsertedSlots<V(!new)>(cmp: (V, V) -> Ordering, es: seq<Entry<V>>, e: Entry<V>)
    ensures forall i :: i in Slots(Inserted(cmp, es, e)) <==> i in Slots(es) || i == e.index
    ensures NoDup(Slots(es)) && e.index !in Slots(es) ==> NoDup(Slots(Inserted(cmp, es, e)))
  {
    if es == [] || cmp(es[0].value, e.value) != Less {
      assert Slots([e] + es) == [e.index] + Slots(es);
      NoDupAppend([e.index], Slots(es));
    } else {
      InsertedSlots(cmp, es[1..], e);
      assert Slots(es) == [es[0].index] + Slots(es[1..]);
      assert Slots([es[0]] + Inserted(cmp, es[1..], e)) == [es[0].index] + Slots(Inserted(cmp, es[1..], e));
      NoDupAppend([es[0].index], Slots(es[1..]));
      NoDupAppend([es[0].index], Slots(Inserted(cmp, es[1..], e)));
    }
  }

  lemma {:induction false} RemovedSlots<V>(es: seq<Entry<V>>, i: DataIndex)
    requires NoDup(Slots(es))
    ensures NoDup(Slots(Removed(es, i)))
    ensures forall j :: j in Slots(Removed(es, i)) <==> j in Slots(es) && j != i
  {
    if es != [] {
      assert Slots(es) == [es[0].index] + Slots(es[1..]);
      NoDupAppend([es[0].index], Slots(es[1..]));
      if es[0].index != i {
        RemovedSlots(es[1..], i);
        assert Slots([es[0]] + Removed(es[1..], i)) == [es[0].index] + Slots(Removed(es[1..], i));
        NoDupAppend([es[0].index], Slots(Removed(es[1..], i)));
      }
    }
  }

  /** After a legal history every live slot stands in the sequence exactly once and no other does. */
  lemma {:induction false} LiveExactlyOnce<V(!new)>(cmp: (V, V) -> Ordering, ops: seq<Op<V>>, capacity: nat)
    requires Legal(cmp, ops, capacity)
    ensures NoDup(Slots(Run(cmp, ops)))
    ensures forall i :: i in Slots(Run(cmp, ops)) <==> Live(ops, i)
  {
    if ops != [] {
      var before := ops[..|ops| - 1];
      assert forall t | 0 <= t < |before| :: before[..t] == ops[..t];
      LiveExactlyOnce(cmp, before, capacity);
      match ops[|ops| - 1]
      case Put(i, v) => InsertedSlots(cmp, Run(cmp, before), Entry(i, v));
      case Take(i) => RemovedSlots(Run(cmp, before), i);
    }
  }

  // ---- every history on the real structure ----

  method Apply<V(!new)>(t: RedBlackTree<V>, op: Op<V>)
    requires t.WellFormed() && TotalOrder(t.cmp) && Allowed(t.Contents(), op, t.data.Length)
    requires t.maxIndex == Last(InOrder(t.tree))
    modifies t, t.data
    ensures t.WellFormed() && t.Contents() == Step(t.cmp, old(t.Contents()), op)
    ensures t.maxIndex == Last(InOrder(t.tree))
  {
    t.SlotsOfContents();
    assert Slots(t.Contents()) == InOrder(t.tree);
    match op {
      case Put(i, v) => t.Insert(i, v);
      case Take(i) => t.RemoveByIndex(i);
    }
  }

  /** Replays a legal history on an empty tree and then iterates. In every state on the way
      the tree is well formed, holds what the history says, and the cached maximum is what
      the slow walk finds. */
  method Replay<V(!new)>(t: RedBlackTree<V>, ops: seq<Op<V>>) returns (out: seq<DataIndex>)
    requires t.WellFormed() && t.root == NIL && t.maxIndex == NIL && TotalOrder(t.cmp)
    requires Legal(t.cmp, ops, t.data.Length)
    modifies t, t.data
    ensures t.WellFormed() && t.Contents() == Run(t.cmp, ops)
    ensures t.maxIndex == Last(InOrder(t.tree)) && (t.maxIndex == NIL <==> Run(t.cmp, ops) == [])
    ensures |out| == |Run(t.cmp, ops)|
    ensures forall k | 0 <= k < |out| :: out[k] == Run(t.cmp, ops)[|out| - 1 - k].index
  {
    t.EmptyContents();
    var n := 0;
    while n < |ops|
      invariant n <= |ops|
      invariant t.WellFormed() && t.Contents() == Run(t.cmp, ops[..n])
      invariant t.maxIndex == Last(InOrder(t.tree))
    {
      assert ops[..n + 1][..n] == ops[..n];
      Apply(t, ops[n]);
      n := n + 1;
    }
    assert ops[..|ops|] == ops;
    t.SlotsOfContents();
    out := t.Iterate();
  }
}
