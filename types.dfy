/** Values shared by both node kinds: locators, keys, the tuning constants
    and the persisted form of a node. */
module Types {

  /** Block locators. Locator 0 plays the role of NULL_PTR ("no node"). */
  type Ptr = nat
  const NULL_PTR: Ptr := 0

  predicate IsNull(p: Ptr) { p == NULL_PTR }

  /** Keys are integers (the source prints them with to_string). */
  type Key = int

  /** Placeholder for an unset separator slot. Its value is fixed in a header
      that is not part of this model; routing stops at the first separator
      equal to it, so any value no stored key or separator takes gives the
      same routing. */
  const DELETE_MARKER: Key := -1

  /** Capacity of a node and the number of entries or children a non-root
      node keeps; both come from a header that is not part of this model. */
  const FANOUT: nat := 4
  const MIN_OCCUPANCY: nat := 2

  predicate Overflows(size: int) { size > FANOUT }
  predicate Underflows(size: int) { size < MIN_OCCUPANCY }

  /** A node as it sits in memory: `size` is a separate counter, as in the
      source, next to the leaf's ordered entries or the internal node's
      child locators and separator keys. */
  datatype Node<R> =
    | Leaf(size: int, entries: seq<(Key, R)>, next: Ptr)
    | Internal(size: int, ptrs: seq<Ptr>, keys: seq<Key>)

  /** A node whose serialised form can be written: an internal node holds at
      least `size` child locators and `size - 1` keys. */
  predicate Persistable<R>(n: Node<R>)
  {
    n.Leaf? || (1 <= n.size <= |n.ptrs| && n.size - 1 <= |n.keys|)
  }

  /** What `dump` stores: an internal node is written as its first `size`
      locators and first `size - 1` keys, so vector entries beyond `size`
      are not persisted. */
  function Persist<R>(n: Node<R>): (r: Node<R>)
    requires Persistable(n)
    ensures r.size == n.size && r.Leaf? == n.Leaf?
    ensures r.Internal? ==> |r.ptrs| == r.size && |r.keys| == r.size - 1
    ensures r.Internal? ==> forall i :: 0 <= i < r.size ==> r.ptrs[i] == n.ptrs[i]
    ensures r.Internal? ==> forall i :: 0 <= i < r.size - 1 ==> r.keys[i] == n.keys[i]
    ensures n.Internal? && |n.ptrs| == n.size && |n.keys| == n.size - 1 ==> r == n
  {
    match n
    case Leaf(_, _, _) => n
    case Internal(size, ptrs, keys) => Internal(size, ptrs[..size], keys[..size - 1])
  }
}
