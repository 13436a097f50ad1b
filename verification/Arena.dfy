/** Several trees and one free list in one array, as `programs/ydelta/src/state/user_account.rs`
    keeps them: blocks move between the free list and the trees, and nothing else changes. */
module Arenas {
  import opened Hypertree
  import opened Shape
  import opened Order
  import opened RedBlackTrees
  import opened FreeLists

  // ---- who owns which block ----

  ghost function Blocks(list: seq<DataIndex>): set<DataIndex> {
    set i | i in list
  }

  ghost predicate HasOwner(owned: seq<set<DataIndex>>, i: DataIndex) {
    exists k :: 0 <= k < |owned| && i in owned[k]
  }

  /** The owners share nothing and together have exactly the first `n` blocks. */
  ghost predicate Partition(owned: seq<set<DataIndex>>, n: nat) {
    && (forall j, k | 0 <= j < k < |owned| :: owned[j] !! owned[k])
    && (forall k, i | 0 <= k < |owned| && i in owned[k] :: i < n)
    && (forall i: DataIndex | i < n :: HasOwner(owned, i))
  }

  lemma MoveBlock(before: seq<set<DataIndex>>, after: seq<set<DataIndex>>, n: nat, from: nat, to: nat, i: DataIndex)
    requires Partition(before, n) && |after| == |before| && from < |before| && to < |before| && from != to
    requires i in before[from] && after[from] == before[from] - {i} && after[to] == before[to] + {i}
    requires forall k | 0 <= k < |before| && k != from && k != to :: after[k] == before[k]
    ensures Partition(after, n)
  {
    forall b: DataIndex | b < n ensures HasOwner(after, b) {
      assert HasOwner(before, b);
      var k :| 0 <= k < |before| && b in before[k];
      if b == i {
        assert b in after[to];
      } else {
        assert b in after[k];
      }
    }
  }

  lemma GrowBlocks(before: seq<set<DataIndex>>, after: seq<set<DataIndex>>, n: nat, to: nat)
    requires Partition(before, n) && |after| == |before| && to < |before|
    requires after[to] == before[to] + {n}
    requires forall k | 0 <= k < |before| && k != to :: after[k] == before[k]
    ensures Partition(after, n + 1)
  {
    forall b: DataIndex | b < n + 1 ensures HasOwner(after, b) {
      if b == n {
        assert b in after[to];
      } else {
        assert HasOwner(before, b);
        var k :| 0 <= k < |before| && b in before[k];
        assert b in after[k];
      }
    }
  }

  class Arena<V(!new)> {
    const data: array<Node<V>>
    const free: FreeList<V>
    const trees: seq<RedBlackTree<V>>
    var numAllocated: nat
    /** The blocks of the free list, then of each tree. */
    ghost var owned: seq<set<DataIndex>>

    /** Different objects over the same memory. */
    ghost predicate Separate() {
      && free.data == data && data.Length <= NIL
      && (forall j | 0 <= j < |trees| :: trees[j].data == data)
      && (forall j, k | 0 <= j < k < |trees| :: trees[j] != trees[k])
    }

    /** The free list and the trees, one by one. */
    ghost predicate Parts()
      requires Separate()
      reads free, trees, data
    {
      && free.Valid()
      && forall k | 0 <= k < |trees| :: trees[k].WellFormed() && TotalOrder(trees[k].cmp)
    }

    ghost predicate Tied()
      reads this, free, trees
    {
      && |owned| == |trees| + 1 && owned[0] == Blocks(free.list)
      && forall k | 0 <= k < |trees| :: owned[k + 1] == Blocks(InOrder(trees[k].tree))
    }

    ghost predicate Valid()
      reads this, free, trees, data
    {
      Separate() && numAllocated <= data.Length && Parts() && Tied() && Partition(owned, numAllocated)
    }

    /** An empty arena. */
    constructor (data: array<Node<V>>, free: FreeList<V>, trees: seq<RedBlackTree<V>>)
      requires free.data == data && data.Length <= NIL && free.Valid() && free.list == []
      requires forall j | 0 <= j < |trees| :: trees[j].data == data && trees[j].WellFormed() && trees[j].root == NIL && TotalOrder(trees[j].cmp)
      requires forall j, k | 0 <= j < k < |trees| :: trees[j] != trees[k]
      ensures this.data == data && this.free == free && this.trees == trees && numAllocated == 0 && Valid()
    {
      this.data, this.free, this.trees, this.numAllocated := data, free, trees, 0;
      owned := seq(|trees| + 1, k => {});
      new;
      forall k | 0 <= k < |trees| ensures InOrder(trees[k].tree) == [] {
        trees[k].EmptyContents();
      }
    }

    /** Tree `j` as it was over memory `m`. */
    ghost predicate WasWellFormed(m: seq<Node<V>>, j: nat)
      requires j < |trees|
      reads trees[j]
    {
      WellFormedIn(m, trees[j].cmp, trees[j].root, trees[j].maxIndex, trees[j].tree)
    }

    lemma Snapshot()
      requires Separate() && Parts()
      ensures forall j | 0 <= j < |trees| :: WasWellFormed(data[..], j)
      ensures forall j | 0 <= j < |trees| :: InRange(data[..], InOrder(trees[j].tree)) && trees[j].Contents() == Entries(data[..], InOrder(trees[j].tree))
    {
      forall j | 0 <= j < |trees|
        ensures WasWellFormed(data[..], j) && InRange(data[..], InOrder(trees[j].tree)) && trees[j].Contents() == Entries(data[..], InOrder(trees[j].tree))
      {
        trees[j].Meaning();
      }
    }

    /** Trees whose blocks were not touched are as they were. */
    lemma Untouched(m: seq<Node<V>>, k: int, touched: set<DataIndex>)
      requires Separate() && |m| == data.Length
      requires forall j | 0 <= j < |trees| && j != k :: WasWellFormed(m, j) && touched !! Blocks(InOrder(trees[j].tree))
      requires forall i | 0 <= i < data.Length && i !in touched :: data[i] == m[i]
      ensures forall j | 0 <= j < |trees| && j != k ::
                trees[j].WellFormed() && InRange(m, InOrder(trees[j].tree)) && trees[j].Contents() == Entries(m, InOrder(trees[j].tree))
    {
      forall j | 0 <= j < |trees| && j != k
        ensures trees[j].WellFormed() && InRange(m, InOrder(trees[j].tree)) && trees[j].Contents() == Entries(m, InOrder(trees[j].tree))
      {
        assert WasWellFormed(m, j);
        assert forall i <- InOrder(trees[j].tree) :: i in Blocks(InOrder(trees[j].tree));
        trees[j].Unaffected(m);
      }
    }

    /** After a change inside tree `k` the free list and the other trees are as they were. */
    lemma OnlyTree(m: seq<Node<V>>, k: nat, touched: set<DataIndex>, before: seq<set<DataIndex>>)
      requires Separate() && |m| == data.Length && k < |trees| && |before| == |trees| + 1
      requires before[0] == Blocks(free.list) && touched !! before[0] && Chained(m, free.zero, free.headIndex, free.list)
      requires forall j | 0 <= j < |trees| && j != k ::
                 WasWellFormed(m, j) && before[j + 1] == Blocks(InOrder(trees[j].tree)) && touched !! before[j + 1]
      requires forall i | 0 <= i < data.Length && i !in touched :: data[i] == m[i]
      ensures free.Valid()
      ensures forall j | 0 <= j < |trees| && j != k ::
                trees[j].WellFormed() && InRange(m, InOrder(trees[j].tree)) && trees[j].Contents() == Entries(m, InOrder(trees[j].tree))
    {
      forall j | 0 <= j < |trees| && j != k ensures touched !! Blocks(InOrder(trees[j].tree)) {
        assert before[j + 1] == Blocks(InOrder(trees[j].tree));
      }
      Untouched(m, k, touched);
      assert forall i <- free.list :: i in before[0];
      free.Unaffected(m);
    }

    /** `user_account_expand`: the next block joins the free list. */
    method Expand()
      requires Valid() && numAllocated < data.Length
      modifies this, free, data
      ensures Valid() && numAllocated == old(numAllocated) + 1 && free.list == [old(numAllocated)] + old(free.list)
      ensures forall j | 0 <= j < |trees| :: trees[j].Contents() == old(trees[j].Contents())
    {
      assert forall k | 0 <= k < |owned| :: numAllocated !in owned[k];
      GiveBlock(numAllocated);
      GrowBlocks(old(owned), owned, numAllocated, 0);
      numAllocated := numAllocated + 1;
    }

    /** `get_free_address_on_user_account_fixed`: the block belongs to nobody for a moment. */
    method TakeBlock() returns (index: DataIndex)
      requires Valid()
      modifies `owned, free, data
      ensures old(free.list) == [] ==> index == NIL && free.list == [] && owned == old(owned) && data[..] == old(data[..]) && Valid()
      ensures old(free.list) != [] ==>
                && index == old(free.list)[0] && free.list == old(free.list)[1..] && index < data.Length
                && owned == old(owned)[0 := old(owned)[0] - {index}] && Parts() && Tied()
      ensures forall j | 0 <= j < |trees| :: trees[j].Consistent() && trees[j].Contents() == old(trees[j].Contents())
    {
      ghost var m := data[..];
      Snapshot();
      index := free.Remove();
      if index == NIL {
        Untouched(m, -1, {});
        return;
      }
      assert index in old(owned)[0];
      Untouched(m, -1, {index});
      owned := owned[0 := owned[0] - {index}];
      assert Blocks(free.list) == owned[0];
    }

    /** The insertion of a block that belongs to nobody. */
    method Link(k: nat, index: DataIndex, value: V)
      requires Separate() && Parts() && Tied() && k < |trees| && index < data.Length
      requires forall j | 0 <= j < |owned| :: index !in owned[j]
      requires forall i, j | 0 <= i < j < |owned| :: owned[i] !! owned[j]
      modifies `owned, trees[k], data
      ensures Parts() && Tied() && owned == old(owned)[k + 1 := old(owned)[k + 1] + {index}]
      ensures trees[k].Contents() == Inserted(trees[k].cmp, old(trees[k].Contents()), Entry(index, value))
      ensures forall j | 0 <= j < |trees| && j != k :: trees[j].Contents() == old(trees[j].Contents())
    {
      ghost var m := data[..];
      Snapshot();
      trees[k].Insert(index, value);
      owned := owned[k + 1 := owned[k + 1] + {index}];
      assert owned[k + 1] == Blocks(InOrder(trees[k].tree));
      OnlyTree(m, k, owned[k + 1], owned);
    }

    /** A block leaves the free list for tree `k`. Without a free block nothing happens and
        the result is NIL. */
    method InsertNew(k: nat, value: V) returns (index: DataIndex)
      requires Valid() && k < |trees|
      modifies `owned, free, trees[k], data
      ensures Valid()
      ensures old(free.list) == [] ==> index == NIL && free.list == [] && trees[k].Contents() == old(trees[k].Contents())
      ensures old(free.list) != [] ==>
                && index == old(free.list)[0] && free.list == old(free.list)[1..]
                && trees[k].Contents() == Inserted(trees[k].cmp, old(trees[k].Contents()), Entry(index, value))
      ensures forall j | 0 <= j < |trees| && j != k :: trees[j].Contents() == old(trees[j].Contents())
    {
      index := TakeBlock();
      if index == NIL {
        return;
      }
      assert index in old(owned)[0];
      Link(k, index, value);
      MoveBlock(old(owned), owned, numAllocated, 0, k + 1, index);
    }

    /** The removal of a node; its block belongs to nobody for a moment. */
    method Unlink(k: nat, index: DataIndex)
      requires Valid() && k < |trees| && index in InOrder(trees[k].tree)
      modifies `owned, trees[k], data
      ensures Parts() && Tied() && owned == old(owned)[k + 1 := old(owned)[k + 1] - {index}]
      ensures trees[k].Contents() == Removed(old(trees[k].Contents()), index)
      ensures forall j | 0 <= j < |trees| && j != k :: trees[j].Contents() == old(trees[j].Contents())
    {
      TakeOut(k, index);
      owned := owned[k + 1 := owned[k + 1] - {index}];
    }

    method TakeOut(k: nat, index: DataIndex)
      requires Valid() && k < |trees| && index in InOrder(trees[k].tree)
      modifies trees[k], data
      ensures Parts() && Blocks(InOrder(trees[k].tree)) == owned[k + 1] - {index}
      ensures trees[k].Contents() == Removed(old(trees[k].Contents()), index)
      ensures forall j | 0 <= j < |trees| && j != k :: trees[j].Contents() == old(trees[j].Contents())
    {
      ghost var m := data[..];
      Snapshot();
      assert index in owned[k + 1];
      trees[k].RemoveByIndex(index);
      OnlyTree(m, k, owned[k + 1], owned);
    }

    /** `release_address_on_user_account_fixed`: a block that belongs to nobody joins the free list. */
    method GiveBlock(index: DataIndex)
      requires Separate() && Parts() && Tied() && index < data.Length
      requires forall j | 0 <= j < |owned| :: index !in owned[j]
      modifies `owned, free, data
      ensures Parts() && Tied() && owned == old(owned)[0 := old(owned)[0] + {index}]
      ensures free.list == [index] + old(free.list)
      ensures forall j | 0 <= j < |trees| :: trees[j].Contents() == old(trees[j].Contents())
    {
      ghost var m := data[..];
      Snapshot();
      assert index !in free.list by { assert index !in owned[0]; }
      var ok := free.Add(index);
      forall j | 0 <= j < |trees| ensures {index} !! Blocks(InOrder(trees[j].tree)) {
        assert index !in owned[j + 1];
      }
      Untouched(m, -1, {index});
      owned := owned[0 := owned[0] + {index}];
      assert Blocks(free.list) == owned[0];
    }

    /** A node leaves tree `k` and its block joins the free list. */
    method Release(k: nat, index: DataIndex)
      requires Valid() && k < |trees| && index in InOrder(trees[k].tree)
      modifies `owned, free, trees[k], data
      ensures Valid()
      ensures free.list == [index] + old(free.list)
      ensures trees[k].Contents() == Removed(old(trees[k].Contents()), index)
      ensures forall j | 0 <= j < |trees| && j != k :: trees[j].Contents() == old(trees[j].Contents())
    {
      assert index in owned[k + 1];
      Unlink(k, index);
      GiveBlock(index);
      MoveBlock(old(owned), owned, numAllocated, k + 1, 0, index);
    }
  }
}
