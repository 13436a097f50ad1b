/** Whole runs over an arena: every structure stays well formed and the blocks stay
    partitioned, whatever legal mixture of growth, insertion and release happens. */
module ArenaRuns {
  import opened Hypertree
  import opened Order
  import opened Arenas

  datatype Op<+V> = Grow | New(k: nat, value: V) | Drop(k: nat, index: DataIndex)

  /** What an arena holds: the free blocks, the entries of every tree, the allocated size. */
  datatype State<+V> = State(free: seq<DataIndex>, trees: seq<seq<Entry<V>>>, blocks: nat)

  ghost predicate Enabled<V>(st: State<V>, op: Op<V>, capacity: nat) {
    match op
    case Grow => st.blocks < capacity
    case New(k, _) => k < |st.trees|
    case Drop(k, i) => k < |st.trees| && exists e :: e in st.trees[k] && e.index == i
  }

  ghost function Step<V(!new)>(cmps: seq<(V, V) -> Ordering>, st: State<V>, op: Op<V>): State<V>
    requires |cmps| == |st.trees|
  {
    match op
    case Grow => st.(free := [st.blocks] + st.free, blocks := st.blocks + 1)
    case New(k, v) =>
      if k >= |st.trees| || st.free == [] then st
      else st.(free := st.free[1..], trees := st.trees[k := Inserted(cmps[k], st.trees[k], Entry(st.free[0], v))])
    case Drop(k, i) =>
      if k >= |st.trees| then st
      else st.(free := [i] + st.free, trees := st.trees[k := Removed(st.trees[k], i)])
  }

  ghost function Run<V(!new)>(cmps: seq<(V, V) -> Ordering>, st: State<V>, ops: seq<Op<V>>): (r: State<V>)
    requires |cmps| == |st.trees|
    ensures |r.trees| == |st.trees|
  {
    if ops == [] then st else Step(cmps, Run(cmps, st, ops[..|ops| - 1]), ops[|ops| - 1])
  }

  ghost predicate Legal<V(!new)>(cmps: seq<(V, V) -> Ordering>, st: State<V>, ops: seq<Op<V>>, capacity: nat)
    requires |cmps| == |st.trees|
  {
    forall t | 0 <= t < |ops| :: Enabled(Run(cmps, st, ops[..t]), ops[t], capacity)
  }

  ghost predicate Shows<V(!new)>(a: Arena<V>, cmps: seq<(V, V) -> Ordering>, st: State<V>)
    requires a.Valid()
    reads a, a.free, a.trees, a.data
  {
    && |st.trees| == |a.trees| == |cmps| && st.free == a.free.list && st.blocks == a.numAllocated
    && forall k | 0 <= k < |a.trees| :: cmps[k] == a.trees[k].cmp && st.trees[k] == a.trees[k].Contents()
  }

  method Perform<V(!new)>(a: Arena<V>, op: Op<V>, ghost cmps: seq<(V, V) -> Ordering>, ghost st: State<V>)
    requires a.Valid() && Shows(a, cmps, st) && Enabled(st, op, a.data.Length)
    modifies a, a.free, a.trees, a.data
    ensures a.Valid() && Shows(a, cmps, Step(cmps, st, op))
  {
    match op {
      case Grow => a.Expand();
      case New(k, v) =>
        var index := a.InsertNew(k, v);
      case Drop(k, i) =>
        a.trees[k].SlotsOfContents();
        a.Release(k, i);
    }
  }

  method PerformAll<V(!new)>(a: Arena<V>, ops: seq<Op<V>>, ghost cmps: seq<(V, V) -> Ordering>, ghost st: State<V>)
    requires a.Valid() && Shows(a, cmps, st) && Legal(cmps, st, ops, a.data.Length)
    modifies a, a.free, a.trees, a.data
    ensures a.Valid() && Shows(a, cmps, Run(cmps, st, ops))
  {
    var n := 0;
    while n < |ops|
      invariant n <= |ops| && a.Valid() && Shows(a, cmps, Run(cmps, st, ops[..n]))
    {
      assert ops[..n + 1][..n] == ops[..n];
      Perform(a, ops[n], cmps, Run(cmps, st, ops[..n]));
      n := n + 1;
    }
    assert ops[..|ops|] == ops;
  }
}
