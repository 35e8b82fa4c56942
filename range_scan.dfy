/** Range queries: InternalNode::range descends to one leaf, and
    LeafNode::range scans that leaf and then follows the next-leaf links
    until a key above the upper bound or the end of the chain. The output
    stream is modelled as the sequence of entries whose records are
    written, and the BLOCK_ACCESSES counter as the number of nodes a query
    reads. */
module RangeScan {
  import opened Types
  import opened LeafEntries
  import opened InternalLogic
  import opened StoreState

  // ---------------------------------------------------------------------
  // The leaf chain (LeafNode.cpp:126-139)

  /** From p the next-leaf links pass through at most n stored leaves
      before they reach NULL_PTR. */
  ghost predicate ChainEnds<R>(nodes: map<Ptr, Node<R>>, p: Ptr, n: nat)
    decreases n
  {
    IsNull(p) || (0 < n && p in nodes && nodes[p].Leaf? && ChainEnds(nodes, nodes[p].next, n - 1))
  }

  /** Every stored leaf starts a chain that ends within n leaves. */
  ghost predicate LeavesChained<R>(nodes: map<Ptr, Node<R>>, n: nat)
  {
    forall q :: q in nodes && nodes[q].Leaf? ==> ChainEnds(nodes, q, n)
  }

  /** The entries of the chain from p, leaf after leaf. */
  ghost function ChainEntries<R>(nodes: map<Ptr, Node<R>>, p: Ptr, n: nat): seq<(Key, R)>
    requires ChainEnds(nodes, p, n)
    decreases n
  {
    if IsNull(p) then [] else nodes[p].entries + ChainEntries(nodes, nodes[p].next, n - 1)
  }

  /** LeafNode::range: scan this leaf's entries; unless the scan met a key
      above hi, continue with the next leaf, if there is one. */
  function LeafRange<R>(nodes: map<Ptr, Node<R>>, p: Ptr, lo: Key, hi: Key, ghost n: nat): seq<(Key, R)>
    requires !IsNull(p) && ChainEnds(nodes, p, n)
    decreases n
  {
    var scan := ScanEntries(nodes[p].entries, lo, hi);
    if scan.1 || IsNull(nodes[p].next) then scan.0
    else scan.0 + LeafRange(nodes, nodes[p].next, lo, hi, n - 1)
  }

  /** The leaves LeafNode::range reads (one BLOCK_ACCESSES increment each):
      at least this one, at most the length of the chain. */
  function LeafRangeVisits<R>(nodes: map<Ptr, Node<R>>, p: Ptr, lo: Key, hi: Key, ghost n: nat): (v: nat)
    requires !IsNull(p) && ChainEnds(nodes, p, n)
    ensures 1 <= v <= n
    decreases n
  {
    var scan := ScanEntries(nodes[p].entries, lo, hi);
    if scan.1 || IsNull(nodes[p].next) then 1
    else 1 + LeafRangeVisits(nodes, nodes[p].next, lo, hi, n - 1)
  }

  /** On an ordered chain the early exit loses nothing: a leaf range query
      yields exactly the chain's entries within [lo, hi], in order. */
  lemma {:induction false} LeafRangeIsFilter<R>(nodes: map<Ptr, Node<R>>, p: Ptr, lo: Key, hi: Key, n: nat)
    requires !IsNull(p) && ChainEnds(nodes, p, n) && Sorted(ChainEntries(nodes, p, n))
    ensures LeafRange(nodes, p, lo, hi, n) == Filter(ChainEntries(nodes, p, n), lo, hi)
    decreases n
  {
    var e := nodes[p].entries;
    var rest := ChainEntries(nodes, nodes[p].next, n - 1);
    assert ChainEntries(nodes, p, n) == e + rest;
    SortedAppend(e, rest);
    ScanEntriesIsFilter(e, lo, hi);
    FilterAppend(e, rest, lo, hi);
    var scan := ScanEntries(e, lo, hi);
    if scan.1 {
      var i :| 0 <= i < |e| && e[i].0 > hi;
      forall k | k in KeysOf(rest) ensures k > hi {
        KeysOfIndex(rest, k);
        var j :| 0 <= j < |rest| && rest[j].0 == k;
        assert (e + rest)[i].0 < (e + rest)[|e| + j].0;
      }
      FilterAbove(rest, lo, hi);
    } else if IsNull(nodes[p].next) {
      assert rest == [];
    } else {
      LeafRangeIsFilter(nodes, nodes[p].next, lo, hi, n - 1);
    }
  }

  lemma {:induction false} FilterAppend<R>(a: seq<(Key, R)>, b: seq<(Key, R)>, lo: Key, hi: Key)
    ensures Filter(a + b, lo, hi) == Filter(a, lo, hi) + Filter(b, lo, hi)
  {
    if a != [] {
      assert (a + b)[1..] == a[1..] + b;
      FilterAppend(a[1..], b, lo, hi);
    } else {
      assert a + b == b;
    }
  }

  lemma SortedAppend<R>(a: seq<(Key, R)>, b: seq<(Key, R)>)
    requires Sorted(a + b)
    ensures Sorted(a) && Sorted(b)
  {
    forall i, j | 0 <= i < j < |a| ensures a[i].0 < a[j].0 {
      assert (a + b)[i] == a[i] && (a + b)[j] == a[j];
    }
    forall i, j | 0 <= i < j < |b| ensures b[i].0 < b[j].0 {
      assert (a + b)[|a| + i] == b[i] && (a + b)[|a| + j] == b[j];
    }
  }

  // ---------------------------------------------------------------------
  // The descent (InternalNode.cpp:321-334)

  /** Every internal node on the range descent for lo has its exact shape
      and a stored child at the chosen position, one level lower. */
  ghost predicate RangePathOk<R>(nodes: map<Ptr, Node<R>>, height: map<Ptr, nat>, p: Ptr, lo: Key)
    decreases if p in height then height[p] else 0
  {
    && p in nodes && p in height
    && (nodes[p].Internal? ==>
          var nd := nodes[p];
          && 1 <= nd.size && |nd.ptrs| == nd.size && |nd.keys| == nd.size - 1
          && var c := nd.ptrs[RangeChild(nd.keys, nd.size, lo)];
          && c in nodes && c in height && height[c] < height[p]
          && RangePathOk(nodes, height, c, lo))
  }

  /** The leaf a range query with lower bound lo starts scanning from. */
  ghost function RangeLeaf<R>(nodes: map<Ptr, Node<R>>, height: map<Ptr, nat>, p: Ptr, lo: Key): (q: Ptr)
    requires RangePathOk(nodes, height, p, lo)
    ensures q in nodes && nodes[q].Leaf?
    decreases height[p]
  {
    match nodes[p]
    case Leaf(_, _, _) => p
    case Internal(size, ptrs, keys) => RangeLeaf(nodes, height, ptrs[RangeChild(keys, size, lo)], lo)
  }

  /** TreeNode range on the subtree rooted at p: internal nodes pass the
      query to one child, the leaf reached scans along the chain. */
  function Range<R>(nodes: map<Ptr, Node<R>>, ghost height: map<Ptr, nat>, p: Ptr, lo: Key, hi: Key, ghost n: nat)
    : seq<(Key, R)>
    requires NULL_PTR !in nodes && RangePathOk(nodes, height, p, lo) && LeavesChained(nodes, n)
    decreases height[p]
  {
    match nodes[p]
    case Leaf(_, _, _) => LeafRange(nodes, p, lo, hi, n)
    case Internal(size, ptrs, keys) => Range(nodes, height, ptrs[RangeChild(keys, size, lo)], lo, hi, n)
  }

  /** The nodes a range query reads: one per internal level, then the
      leaves of the scan. */
  function RangeVisits<R>(nodes: map<Ptr, Node<R>>, ghost height: map<Ptr, nat>, p: Ptr, lo: Key, hi: Key, ghost n: nat)
    : (v: nat)
    requires NULL_PTR !in nodes && RangePathOk(nodes, height, p, lo) && LeavesChained(nodes, n)
    ensures 1 <= v
    decreases height[p]
  {
    match nodes[p]
    case Leaf(_, _, _) => LeafRangeVisits(nodes, p, lo, hi, n)
    case Internal(size, ptrs, keys) => 1 + RangeVisits(nodes, height, ptrs[RangeChild(keys, size, lo)], lo, hi, n)
  }

  /** A range query on a subtree yields, in increasing key order, exactly
      the entries within [lo, hi] of the leaf chain that starts at the leaf
      its descent reaches. */
  lemma {:induction false} RangeIsFilter<R>(nodes: map<Ptr, Node<R>>, height: map<Ptr, nat>, p: Ptr, lo: Key, hi: Key, n: nat)
    requires NULL_PTR !in nodes && RangePathOk(nodes, height, p, lo) && LeavesChained(nodes, n)
    requires Sorted(ChainEntries(nodes, RangeLeaf(nodes, height, p, lo), n))
    ensures var out := Range(nodes, height, p, lo, hi, n);
      var chain := ChainEntries(nodes, RangeLeaf(nodes, height, p, lo), n);
      && out == Filter(chain, lo, hi)
      && Sorted(out)
      && forall i :: 0 <= i < |out| ==> lo <= out[i].0 <= hi && out[i].0 in KeysOf(chain)
    decreases height[p]
  {
    var q := RangeLeaf(nodes, height, p, lo);
    var chain := ChainEntries(nodes, q, n);
    match nodes[p] {
      case Leaf(_, _, _) =>
        LeafRangeIsFilter(nodes, p, lo, hi, n);
      case Internal(size, ptrs, keys) =>
        RangeIsFilter(nodes, height, ptrs[RangeChild(keys, size, lo)], lo, hi, n);
    }
    FilterSorted(chain, lo, hi);
    FilterBounds(chain, lo, hi);
  }

  /** In a store whose levels are consistent, a range query from p reads
      one node per level above the leaves plus the leaves it scans. */
  lemma {:induction false} RangeVisitsCount<R>(nodes: map<Ptr, Node<R>>, height: map<Ptr, nat>, p: Ptr, lo: Key, hi: Key, n: nat)
    requires NULL_PTR !in nodes && RangePathOk(nodes, height, p, lo) && LeavesChained(nodes, n)
    requires HeightsOk(nodes, height)
    ensures RangeVisits(nodes, height, p, lo, hi, n)
      == height[p] + LeafRangeVisits(nodes, RangeLeaf(nodes, height, p, lo), lo, hi, n)
    decreases height[p]
  {
    match nodes[p]
    case Leaf(_, _, _) =>
    case Internal(size, ptrs, keys) =>
      var c := ptrs[RangeChild(keys, size, lo)];
      RangeVisitsCount(nodes, height, c, lo, hi, n);
      assert height[c] + 1 == height[p];
  }
}
