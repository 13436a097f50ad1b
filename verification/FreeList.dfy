/** `lib/src/free_list.rs`: the unused blocks of the shared array, linked through the word
    that a tree node uses for its left child. */
module FreeLists {
  import opened Hypertree
  import opened Shape

  const END: DataIndex := NIL
  const MAX_FREE_LIST_SCAN: nat := 0x10_0000

  /** A free block: every byte after the list link is zero. */
  function FreeNode<V>(next: DataIndex, zero: V): Node<V> {
    Node(next, 0, 0, Black, zero)
  }

  function Next(list: seq<DataIndex>, k: nat): DataIndex
    requires k < |list|
  {
    if k + 1 < |list| then list[k + 1] else END
  }

  /** Memory `m` holds exactly the blocks of `list`, in this order, behind `head`. */
  ghost predicate Chained<V>(m: seq<Node<V>>, zero: V, head: DataIndex, list: seq<DataIndex>) {
    && head == (if list == [] then END else list[0])
    && (forall k | 0 <= k < |list| :: list[k] < |m| && list[k] != END && m[list[k]] == FreeNode(Next(list, k), zero))
    && NoDup(list)
  }

  lemma ChainedFrame<V>(m: seq<Node<V>>, n: seq<Node<V>>, zero: V, head: DataIndex, list: seq<DataIndex>)
    requires Chained(m, zero, head, list) && |n| == |m|
    requires forall i <- list :: i < |m| ==> n[i] == m[i]
    ensures Chained(n, zero, head, list)
  {
    forall k | 0 <= k < |list| ensures n[list[k]] == FreeNode(Next(list, k), zero) {
      assert list[k] in list;
    }
  }

  /** Without the scan a second free of a listed block ties the list into a cycle: what the
      new head leads to is no free list any more. */
  lemma {:induction false} DoubleFree<V>(m: seq<Node<V>>, zero: V, head: DataIndex, list: seq<DataIndex>, j: nat, other: seq<DataIndex>)
    requires Chained(m, zero, head, list) && j < |list|
    ensures !Chained(m[list[j] := FreeNode(head, zero)], zero, list[j], other)
  {
    var n := m[list[j] := FreeNode(head, zero)];
    if Chained(n, zero, list[j], other) {
      Unroll(m, zero, head, list, j, other, j);
    }
  }

  lemma {:induction false} Unroll<V>(m: seq<Node<V>>, zero: V, head: DataIndex, list: seq<DataIndex>, j: nat, other: seq<DataIndex>, k: nat)
    requires Chained(m, zero, head, list) && k <= j < |list|
    requires Chained(m[list[j] := FreeNode(head, zero)], zero, list[j], other)
    ensures k + 1 < |other| && other[k + 1] == list[k]
  {
    var n := m[list[j] := FreeNode(head, zero)];
    if k == 0 {
      assert n[other[0]].left == Next(other, 0) == list[0];
    } else {
      Unroll(m, zero, head, list, j, other, k - 1);
      assert list[k - 1] != list[j];
      assert n[other[k]].left == Next(other, k) == Next(list, k - 1);
    }
  }

  class FreeList<V> {
    const data: array<Node<V>>
    const zero: V
    var headIndex: DataIndex
    /** The listed blocks, most recently freed first. */
    ghost var list: seq<DataIndex>

    ghost predicate Valid()
      reads this, data
    {
      Chained(data[..], zero, headIndex, list)
    }

    constructor (data: array<Node<V>>, zero: V, headIndex: DataIndex, ghost list: seq<DataIndex>)
      requires Chained(data[..], zero, headIndex, list)
      ensures this.data == data && this.zero == zero && this.headIndex == headIndex && this.list == list && Valid()
    {
      this.data, this.zero, this.headIndex, this.list := data, zero, headIndex, list;
    }

    /** A change of memory elsewhere leaves the list alone. */
    lemma Unaffected(m: seq<Node<V>>)
      requires |m| == data.Length && Chained(m, zero, headIndex, list)
      requires forall i <- list :: i < data.Length ==> data[i] == m[i]
      ensures Valid()
    {
      ChainedFrame(m, data[..], zero, headIndex, list);
    }

    /** The scan of debug builds: false stands for its panic. */
    method Scan(index: DataIndex) returns (ok: bool)
      requires Valid()
      ensures ok <==> index !in list[..if |list| < MAX_FREE_LIST_SCAN then |list| else MAX_FREE_LIST_SCAN]
      ensures |list| <= MAX_FREE_LIST_SCAN ==> (ok <==> index !in list)
    {
      var cursor := headIndex;
      var steps := 0;
      while cursor != END && steps < MAX_FREE_LIST_SCAN
        invariant steps <= |list| && steps <= MAX_FREE_LIST_SCAN
        invariant cursor == if steps < |list| then list[steps] else END
        invariant index !in list[..steps]
        decreases MAX_FREE_LIST_SCAN - steps
      {
        if cursor == index {
          return false;
        }
        cursor := data[cursor].left;
        steps := steps + 1;
      }
      assert |list| <= MAX_FREE_LIST_SCAN ==> list[..|list|] == list;
      ok := true;
    }

    /** A block joins the list unless the scan of debug builds finds it there. */
    method Add(index: DataIndex) returns (ok: bool)
      requires Valid() && index < data.Length && index != END
      modifies this, data
      ensures ok <==> index !in old(list)[..if |old(list)| < MAX_FREE_LIST_SCAN then |old(list)| else MAX_FREE_LIST_SCAN]
      ensures !ok ==> data[..] == old(data[..]) && headIndex == old(headIndex) && list == old(list)
      ensures ok ==> data[..] == old(data[..])[index := FreeNode(old(headIndex), zero)] && headIndex == index
      ensures ok ==> data[index] == Node(old(headIndex), 0, 0, Black, zero) && list == [index] + old(list)
      ensures !ok || index !in old(list) ==> Valid()
    {
      ok := Scan(index);
      if !ok {
        return;
      }
      data[index] := FreeNode(headIndex, zero);
      headIndex := index;
      list := [index] + list;
    }

    /** Hand out the most recently freed block, zeroed; END when there is none. */
    method Remove() returns (index: DataIndex)
      requires Valid()
      modifies this, data
      ensures Valid()
      ensures old(list) == [] ==> index == END && list == [] && data[..] == old(data[..])
      ensures old(list) != [] ==>
                && index == old(list)[0] && list == old(list)[1..] && index < data.Length && index != END
                && index !in list && data[index] == Node(0, 0, 0, Black, zero)
                && data[..] == old(data[..])[index := data[index]]
    {
      if headIndex == END {
        return END;
      }
      index := headIndex;
      headIndex := data[index].left;
      data[index] := data[index].(left := 0);
      list := list[1..];
    }
  }
}
