/** The memory shared by the index-addressed structures of `lib/`: an array of node records
    in which a child, a parent or a list successor is named by its slot. */
module Hypertree {

  /** A slot of the shared array; the source uses a 32-bit byte offset. */
  type DataIndex = nat

  const NIL: DataIndex := 0xFFFF_FFFF

  datatype Color = Black | Red

  datatype Ordering = Less | Equal | Greater

  /** One block. A free block keeps its list successor in `left`, the word that the byte
      layout of a free-list node shares with the left link of a tree node. */
  datatype Node<+V> = Node(left: DataIndex, right: DataIndex, parent: DataIndex, color: Color, value: V)

  /** What Rust demands of an `Ord` implementation. */
  ghost predicate TotalOrder<V(!new)>(cmp: (V, V) -> Ordering) {
    && (forall a, b :: cmp(a, b) == Less <==> cmp(b, a) == Greater)
    && (forall a, b, c :: cmp(a, b) != Greater && cmp(b, c) != Greater ==> cmp(a, c) != Greater)
  }
}
