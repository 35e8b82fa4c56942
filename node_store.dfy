/** The node engine over the block store: each node operation loads nodes
    by locator, changes them in memory and dumps them back, so it is a
    method on the store that reassigns the node map. Every method keeps the
    store invariant and states the new store exactly, by the functions of
    StoreState where the leaf operations are concerned. */
module NodeStore {
  import opened Types
  import opened LeafEntries
  import opened InternalLogic
  import opened StoreState
  import opened StoreContents

  class Store<R> {
    /** The persisted blocks, by locator. */
    var nodes: map<Ptr, Node<R>>
    /** The locator the next `new` node receives. */
    var nextFree: Ptr
    /** The level of every node ever stored (leaves 0). */
    ghost var height: map<Ptr, nat>

    ghost predicate Valid()
      reads this
    {
      StoreOk(nodes, height, nextFree)
    }

    constructor ()
      ensures Valid() && nodes == map[] && nextFree == NULL_PTR + 1
    {
      nodes := map[];
      nextFree := NULL_PTR + 1;
      height := map[];
    }

    /** `new LeafNode()` followed by a dump: an empty leaf with no next
        leaf, at a locator no node had. */
    method CreateLeaf() returns (p: Ptr)
      requires Valid()
      modifies this
      ensures Valid() && p == old(nextFree) && p !in old(nodes) && !IsNull(p)
      ensures nodes == old(nodes)[p := Leaf(0, [], NULL_PTR)] && height == old(height)[p := 0]
      ensures nextFree == old(nextFree) + 1
    {
      p := nextFree;
      AddLeafOk(nodes, height, nextFree, Leaf(0, [], NULL_PTR));
      nextFree := nextFree + 1;
      nodes := nodes[p := Leaf(0, [], NULL_PTR)];
      height := height[p := 0];
    }

    // -------------------------------------------------------------------
    // LeafNode

    /** LeafNode::insert_key: a present key changes nothing; otherwise the
        entry is added, and an overflowing leaf keeps its MIN_OCCUPANCY
        smallest entries and moves the rest to a new leaf linked after it,
        whose locator is returned. */
    method LeafInsert(p: Ptr, key: Key, rec: R) returns (split: Ptr)
      requires Valid() && p in nodes && nodes[p].Leaf?
      modifies this
      ensures Valid()
      ensures (nodes, split) == LeafInserted(old(nodes), old(nextFree), p, key, rec)
      ensures IsNull(split) ==> nextFree == old(nextFree) && height == old(height)
      ensures !IsNull(split) ==> split == old(nextFree) && nextFree == old(nextFree) + 1
                                 && height == old(height)[split := 0]
    {
      var n := nodes[p];
      ghost var r := LeafInserted(nodes, nextFree, p, key, rec);
      LeafInsertedOk(nodes, height, nextFree, p, key, rec);
      if key in KeysOf(n.entries) {
        assert r == (nodes, NULL_PTR);
        return NULL_PTR;
      }
      var e := InsertEntry(n.entries, key, rec);
      var size := n.size + 1;
      if !Overflows(size) {
        nodes := nodes[p := Leaf(size, e, n.next)];
        assert r == (nodes, NULL_PTR);
        return NULL_PTR;
      }
      // new LeafNode(): the next free locator
      split := nextFree;
      assert |e| >= MIN_OCCUPANCY by { InsertEntryGrows(n.entries, key, rec); }
      var keep, moved, count := SplitEntries(e, MIN_OCCUPANCY);
      assert keep == e[..MIN_OCCUPANCY] && moved == e[MIN_OCCUPANCY..];
      // new_leaf->dump(), then this->dump()
      nextFree, nodes, height := split + 1, nodes[split := Leaf(count, moved, n.next)][p := Leaf(MIN_OCCUPANCY, keep, split)], height[split := 0];
      assert r == (nodes, split);
    }

    /** LeafNode::delete_key: a present key is erased and the counter
        decremented; an absent key changes nothing. */
    method LeafDelete(p: Ptr, key: Key)
      requires Valid() && p in nodes && nodes[p].Leaf?
      modifies this
      ensures Valid() && nodes == LeafDeleted(old(nodes), p, key)
      ensures nextFree == old(nextFree) && height == old(height)
    {
      var n := nodes[p];
      if key in KeysOf(n.entries) {
        var after: map<Ptr, Node<R>> := nodes[p := Leaf(n.size - 1, RemoveEntry(n.entries, key), n.next)];
        assert StoreOk(after, height, nextFree) by {
          LeafDeleteEffect(nodes, p, key);
          ReplaceLeafOk(nodes, height, nextFree, p, Leaf(n.size - 1, RemoveEntry(n.entries, key), n.next));
        }
        assert after == LeafDeleted(nodes, p, key);
        nodes := after;
      }
    }

    /** LeafNode::merge_nodes: p takes s's entries, counter and next link,
        then s is deleted. Keys of the two leaves are disjoint, as for
        neighbouring leaves. */
    method LeafMerge(p: Ptr, s: Ptr)
      requires Valid() && p in nodes && s in nodes && p != s && nodes[p].Leaf? && nodes[s].Leaf?
      requires KeysOf(nodes[p].entries) !! KeysOf(nodes[s].entries)
      modifies this
      ensures Valid() && nodes == LeafMerged(old(nodes), p, s)
      ensures nextFree == old(nextFree) && height == old(height)
    {
      var a, b := nodes[p], nodes[s];
      var e := InsertAll(a.entries, b.entries);
      // sibling_node->delete_node(), then this->dump()
      var after: map<Ptr, Node<R>> := (nodes - {s})[p := Leaf(a.size + b.size, e, b.next)];
      assert after == LeafMerged(nodes, p, s);
      LeafMergedOk(nodes, height, nextFree, p, s);
      nodes := after;
    }

    /** LeafNode::redistributeData: from's last entry (fromIndex < toIndex)
        or first entry is inserted into `to` and then deleted from `from`. */
    method LeafRedistribute(from: Ptr, to: Ptr, fromIndex: int, toIndex: int)
      requires Valid() && from in nodes && to in nodes && from != to
      requires nodes[from].Leaf? && nodes[to].Leaf? && nodes[from].entries != []
      modifies this
      ensures Valid() && nodes == LeafRedistributed(old(nodes), old(nextFree), from, to, fromIndex, toIndex)
      ensures old(nextFree) <= nextFree && HeightsGrow(old(height), height)
      ensures forall q :: q in nodes && q !in old(nodes) ==> old(nextFree) <= q && q in height && height[q] == 0
    {
      var e := nodes[from].entries;
      var x := if fromIndex < toIndex then e[|e| - 1] else e[0];
      ghost var nodes0, nf0, h0 := nodes, nextFree, height;
      assert nf0 !in nodes0 && nf0 !in h0;
      var s := LeafInsert(to, x.0, x.1);
      assert from in nodes && nodes[from] == nodes0[from];
      ghost var nodes1 := nodes;
      assert nodes1 == LeafInserted(nodes0, nf0, to, x.0, x.1).0;
      LeafDelete(from, x.0);
      LeafRedistributedSteps(nodes0, nf0, from, to, fromIndex, toIndex, x, nodes1);
      assert nodes.Keys == nodes1.Keys;
      if IsNull(s) {
        assert height == h0 && nodes.Keys == nodes0.Keys;
      } else {
        assert height == h0[nf0 := 0] && nodes.Keys == nodes0.Keys + {nf0};
      }
    }
  
    // -------------------------------------------------------------------
    // InternalNode: redistribution and merging

    /** InternalNode::redistributeData: one locator and one key move from
        `from` to `to`, then both are dumped. */
    method InternalRedistribute(from: Ptr, to: Ptr, fromIndex: int, toIndex: int)
      requires Valid() && from in nodes && to in nodes && from != to
      requires nodes[from].Internal? && nodes[to].Internal? && height[from] == height[to]
      requires nodes[from].size >= 2
      modifies this
      ensures Valid() && nextFree == old(nextFree) && height == old(height)
      ensures var (f, t) := RedistributeInternal(old(nodes[from]), old(nodes[to]), fromIndex, toIndex);
        nodes == old(nodes)[from := f][to := t]
    {
      var (f, t) := RedistributeInternal(nodes[from], nodes[to], fromIndex, toIndex);
      // fromInternal->dump(), then toInternal->dump()
      var after: map<Ptr, Node<R>> := nodes[from := f][to := t];
      assert StoreOk(after, height, nextFree) by {
        RedistNodeOk(nodes[from], nodes[to], fromIndex, toIndex, nextFree);
        RedistOk(nodes, height, nextFree, from, to, f, t);
      }
      nodes := after;
    }

    /** InternalNode::merge_nodes: the max of p's last child becomes a key,
        s's locators and keys are appended, s is deleted and p dumped. */
    method InternalMerge(p: Ptr, s: Ptr)
      requires Valid() && p in nodes && s in nodes && p != s
      requires nodes[p].Internal? && nodes[s].Internal? && height[p] == height[s]
      modifies this
      ensures Valid() && nextFree == old(nextFree) && height == old(height)
      ensures var a := old(nodes[p]);
        nodes == (old(nodes) - {s})[p := MergeInternal(a, old(nodes[s]), MaxIn(old(nodes), old(height), a.ptrs[|a.ptrs| - 1]))]
    {
      var a, b := nodes[p], nodes[s];
      var lastMax := MaxIn(nodes, height, a.ptrs[|a.ptrs| - 1]);
      var m := MergeInternal(a, b, lastMax);
      // sibling_node->delete_node(), then this->dump()
      var after: map<Ptr, Node<R>> := (nodes - {s})[p := m];
      assert StoreOk(after, height, nextFree) by {
        MergeNodeOk(a, b, lastMax, nextFree);
        MergeOk(nodes, height, nextFree, p, s, m);
      }
      nodes := after;
    }

    /** TreeNode::redistributeData dispatched on the kind of `from`. */
    method Redistribute(from: Ptr, to: Ptr, fromIndex: int, toIndex: int)
      requires Valid() && RedistReady(nodes, nextFree, from, to) && height[from] == height[to]
      requires nodes[from].Internal? ==> nodes[from].size >= 2
      modifies this
      ensures Valid() && old(nextFree) <= nextFree && HeightsGrow(old(height), height)
      ensures old(nodes).Keys <= nodes.Keys
      ensures forall q :: q in old(nodes) && q != from && q != to ==> nodes[q] == old(nodes)[q]
      ensures forall q :: q in nodes && q !in old(nodes) ==> old(nextFree) <= q && q in height && height[q] == 0
      ensures nodes == Redistributed(old(nodes), old(nextFree), from, to, fromIndex, toIndex)
    {
      if nodes[from].Leaf? {
        LeafRedistribute(from, to, fromIndex, toIndex);
      } else {
        InternalRedistribute(from, to, fromIndex, toIndex);
      }
    }

    /** TreeNode::merge_nodes dispatched on the kind of p. */
    method MergeNodes(p: Ptr, s: Ptr)
      requires Valid() && MergeReady(nodes, p, s) && height[p] == height[s]
      requires nodes[p].Leaf? ==> KeysOf(nodes[p].entries) !! KeysOf(nodes[s].entries)
      modifies this
      ensures Valid() && nextFree == old(nextFree) && height == old(height)
      ensures nodes.Keys == old(nodes).Keys - {s}
      ensures forall q :: q in nodes && q != p ==> nodes[q] == old(nodes)[q]
      ensures nodes == Merged(old(nodes), old(height), p, s)
    {
      if nodes[p].Leaf? {
        LeafMerge(p, s);
      } else {
        InternalMerge(p, s);
      }
    }
  
    // -------------------------------------------------------------------
    // Insert

    /** TreeNode::insert_key dispatched on the kind of p: returns the
        locator of the node p split off, or NULL_PTR. */
    method Insert(p: Ptr, key: Key, rec: R) returns (split: Ptr)
      requires Valid() && InsertPathOk(nodes, height, p, key)
      modifies this
      ensures Valid() && InsertFrame(old(nodes), old(height), old(nextFree), nodes, height, nextFree, p, split)
      ensures old(nodes[p]).Leaf? ==> (nodes, split) == LeafInserted(old(nodes), old(nextFree), p, key, rec)
      ensures InsertedInto(old(nodes), nodes, key, rec)
      decreases height[p], 1
    {
      if nodes[p].Leaf? {
        ghost var nodes0, height0, nf0 := nodes, height, nextFree;
        assert nf0 !in nodes0 && nf0 !in height && NodeOk(nodes0[p], nf0);
        split := LeafInsert(p, key, rec);
        LeafInsertedInto(nodes0, nf0, p, key, rec);
        LeafInsertedFresh(nodes0, height0, nf0, p, key, rec);
      } else {
        ghost var childSplit, posn, absorbed, mid, midHeight, midFree;
        split, childSplit, posn, absorbed, mid, midHeight, midFree := InternalInsert(p, key, rec);
        InsertedIntoSameLeaves(old(nodes), mid, nodes, key, rec);
      }
    }

    /** InternalNode::insert_key: route to a child, insert there, and if the
        child split, add the new sibling right after it with the two maxes
        as separators (corrected for the last child); an overflowing node
        then keeps MIN_OCCUPANCY children and moves the rest to a new node,
        whose locator is returned. `posn` is the routed position, `mid`,
        `midHeight` and `midFree` the store right after the child's insert,
        `childSplit` what the child returned and `absorbed` p with the
        child's split spliced in. */
    method InternalInsert(p: Ptr, key: Key, rec: R)
      returns (split: Ptr, ghost childSplit: Ptr, ghost posn: int, ghost absorbed: Node<R>,
               ghost mid: map<Ptr, Node<R>>, ghost midHeight: map<Ptr, nat>, ghost midFree: Ptr)
      requires Valid() && p in nodes && nodes[p].Internal? && InsertPathOk(nodes, height, p, key)
      modifies this
      ensures Valid() && InsertFrame(old(nodes), old(height), old(nextFree), nodes, height, nextFree, p, split)
      ensures posn == Route(old(nodes[p]).keys, old(nodes[p]).size, key)
      ensures IsNull(childSplit) ==> IsNull(split) && nodes[p] == old(nodes[p])
      ensures !IsNull(childSplit) ==>
        && childSplit in nodes && childSplit !in old(nodes) && old(nodes[p]).ptrs[posn] in nodes
        && absorbed == AbsorbChildSplit(old(nodes[p]), posn, childSplit,
                         MaxIn(nodes, height, old(nodes[p]).ptrs[posn]), MaxIn(nodes, height, childSplit))
      ensures !IsNull(childSplit) && !Overflows(absorbed.size) ==> IsNull(split) && nodes[p] == absorbed
      ensures !IsNull(childSplit) && Overflows(absorbed.size) ==>
        && !IsNull(split)
        && nodes[p] == Persist(SplitLeftInMemory(absorbed, MIN_OCCUPANCY))
        && nodes[split] == SplitRight(absorbed, MIN_OCCUPANCY)
      ensures InsertFrame(old(nodes), old(height), old(nextFree), mid, midHeight, midFree, old(nodes[p]).ptrs[posn], childSplit)
      ensures InsertedInto(old(nodes), mid, key, rec)
      ensures IsNull(childSplit) ==> nodes == mid
      ensures !IsNull(childSplit) && !Overflows(absorbed.size) ==> nodes == mid[p := absorbed]
      ensures !IsNull(childSplit) && Overflows(absorbed.size) ==>
        nodes == mid[split := SplitRight(absorbed, MIN_OCCUPANCY)][p := Persist(SplitLeftInMemory(absorbed, MIN_OCCUPANCY))]
      ensures SameLeaves(mid, nodes)
      decreases height[p], 0
    {
      var n := nodes[p];
      ghost var k := height[p];
      var at := FindPosition(n.keys, n.size, key);
      posn := at;
      var c := n.ptrs[at];
      assert c in nodes && height[c] + 1 == k && InsertPathOk(nodes, height, c, key);
      ghost var nodes0, height0, nf0 := nodes, height, nextFree;
      var s := Insert(c, key, rec);
      childSplit := s;
      mid, midHeight, midFree := nodes, height, nextFree;
      assert nodes[p] == n;
      if IsNull(s) {
        return NULL_PTR, s, posn, n, mid, midHeight, midFree;
      }
      assert s !in Children(nodes[p]);
      split, absorbed := AbsorbSplitOf(p, at, s);
      assert InsertFrame(nodes0, height0, nf0, nodes, height, nextFree, p, split) by {
        InsertFrameCompose(nodes0, height0, nf0, mid, midHeight, midFree, nodes, height, nextFree, p, c, s, split);
      }
      AbsorbSameLeaves(mid, nodes, p, split, absorbed);
    }

    /** The rest of InternalNode::insert_key once child posn has split off
        s: splice s in after the child, set the two separators from the
        subtree maxes, then dump p, or, on overflow, split it with the new
        node at the next free locator. */
    method AbsorbSplitOf(p: Ptr, posn: int, s: Ptr) returns (split: Ptr, ghost absorbed: Node<R>)
      requires Valid() && p in nodes && nodes[p].Internal? && 0 <= posn < nodes[p].size
      requires nodes[p].ptrs[posn] in nodes && s in nodes && height[s] + 1 == height[p]
      requires forall q :: q in nodes ==> s !in Children(nodes[q])
      modifies this
      ensures Valid()
      ensures forall q :: q in old(nodes) && q != p ==> q in nodes && nodes[q] == old(nodes)[q]
      ensures IsNull(split) ==> nodes.Keys == old(nodes).Keys && height == old(height) && nextFree == old(nextFree)
      ensures !IsNull(split) ==> nodes.Keys == old(nodes).Keys + {split} && split == old(nextFree) && nextFree == split + 1
      ensures !IsNull(split) ==>
        && height == old(height)[split := old(height[p])]
        && forall q :: q in nodes ==> split !in Children(nodes[q])
      ensures MaxIn(nodes, height, old(nodes[p]).ptrs[posn]) == MaxIn(old(nodes), old(height), old(nodes[p]).ptrs[posn])
      ensures MaxIn(nodes, height, s) == MaxIn(old(nodes), old(height), s)
      ensures absorbed == AbsorbChildSplit(old(nodes[p]), posn, s,
        MaxIn(old(nodes), old(height), old(nodes[p]).ptrs[posn]), MaxIn(old(nodes), old(height), s))
      ensures !Overflows(absorbed.size) ==> IsNull(split) && nodes == old(nodes)[p := absorbed]
      ensures Overflows(absorbed.size) ==>
        && !IsNull(split)
        && nodes == old(nodes)[split := SplitRight(absorbed, MIN_OCCUPANCY)][p := Persist(SplitLeftInMemory(absorbed, MIN_OCCUPANCY))]
        && nodes[p] == Persist(SplitLeftInMemory(absorbed, MIN_OCCUPANCY))
        && nodes[split] == SplitRight(absorbed, MIN_OCCUPANCY)
      ensures HeightsGrow(old(height), height)
    {
      var n := nodes[p];
      ghost var k := height[p];
      var c := n.ptrs[posn];
      assert height[c] + 1 == k;
      var cm := MaxIn(nodes, height, c);
      var sm := MaxIn(nodes, height, s);
      var temp := SpliceAfter(n.ptrs, n.size, posn, s);
      var g := Internal(n.size + 1, temp, KeysAfterChildSplit(n.keys, posn, cm, sm));
      assert g == AbsorbChildSplit(n, posn, s, cm, sm);
      absorbed := g;
      assert StoreOk(nodes[p := g], height, nextFree) by {
        assert s !in Children(n);
        AbsorbNodeOk(n, posn, s, cm, sm, nextFree);
        ReplaceInternalOk(nodes, height, nextFree, p, g, s);
      }
      if !Overflows(g.size) {
        // this->dump()
        var after: map<Ptr, Node<R>> := nodes[p := g];
        assert MaxIn(after, height, c) == cm && MaxIn(after, height, s) == sm by {
          MaxUnchanged(nodes, height, after, height, c, k - 1);
          MaxUnchanged(nodes, height, after, height, s, k - 1);
        }
        nodes := after;
        return NULL_PTR, g;
      }
      split := SplitInternal(p, g);
    }

    /** The own split of InternalNode::insert_key: the overflowing node g,
        not yet dumped at p, keeps MIN_OCCUPANCY children (its in-memory
        vectors keep one more locator and key, which the dump drops) and a
        new node at the next free locator takes the rest. Nodes below p are
        untouched, so their maxes are too. */
    method SplitInternal(p: Ptr, g: Node<R>) returns (split: Ptr)
      requires Valid() && p in nodes && nodes[p].Internal? && StoreOk(nodes[p := g], height, nextFree)
      requires g.Internal? && Overflows(g.size)
      modifies this
      ensures Valid() && split == old(nextFree) && !IsNull(split) && nextFree == split + 1
      ensures split !in old(nodes) && split !in old(height) && split != p
      ensures nodes == old(nodes)[split := SplitRight(g, MIN_OCCUPANCY)][p := Persist(SplitLeftInMemory(g, MIN_OCCUPANCY))]
      ensures nodes.Keys == old(nodes).Keys + {split}
      ensures forall q :: q in old(nodes) && q != p ==> q in nodes && nodes[q] == old(nodes)[q]
      ensures height == old(height)[split := old(height[p])]
      ensures forall q :: q in nodes ==> split !in Children(nodes[q])
      ensures MaxesKept(old(nodes), old(height), nodes, height, old(height[p]))
    {
      assert NodeOk(g, nextFree);
      // new InternalNode(): the next free locator
      split := nextFree;
      var left, right := SplitNode(g, MIN_OCCUPANCY);
      // new_internal_node->dump(), then this->dump()
      ghost var nodes0, height0 := nodes, height;
      nextFree, nodes, height := split + 1, nodes[split := right][p := Persist(left)], height[split := height[p]];
      SplitStepTo(nodes0, height0, split, p, g, nodes, height);
    }
  
    // -------------------------------------------------------------------
    // Delete

    /** TreeNode::delete_key dispatched on the kind of p. */
    method Delete(p: Ptr, key: Key)
      requires Valid() && DeletePathOk(nodes, height, p, key)
      modifies this
      ensures Valid() && DeleteFrame(old(nodes), old(height), old(nextFree), nodes, height, nextFree, p)
      ensures nodes[p].Leaf? == old(nodes[p]).Leaf?
      ensures old(nodes[p]).Leaf? ==> nodes == LeafDeleted(old(nodes), p, key)
      ensures StoreKeys(nodes) == KeysAfterErase(old(nodes), RoutedLeaf(old(nodes), old(height), p, key), key)
      decreases height[p], 1
    {
      if nodes[p].Leaf? {
        LeafDeletedKeys(nodes, p, key);
        LeafDelete(p, key);
      } else {
        ghost var b, posn, m, mid, midHeight, midFree := InternalDelete(p, key);
      }
    }

    /** InternalNode::delete_key: route to a child and delete there; refresh
        the child's separator with its new max; if the child now underflows,
        rebalance it with a neighbour in the order left redistribution, left
        merge, right redistribution, right merge; then dump. `posn` is the routed
        position, `mid`, `midHeight` and `midFree` the store right after the
        child's delete, `refreshed` the parent with the refreshed separator
        and `branch` the rebalancing branch taken. */
    method InternalDelete(p: Ptr, key: Key)
      returns (ghost branch: Rebalance, ghost posn: int, ghost refreshed: Node<R>,
               ghost mid: map<Ptr, Node<R>>, ghost midHeight: map<Ptr, nat>, ghost midFree: Ptr)
      requires Valid() && p in nodes && nodes[p].Internal? && DeletePathOk(nodes, height, p, key)
      modifies this
      ensures Valid() && DeleteFrame(old(nodes), old(height), old(nextFree), nodes, height, nextFree, p)
      ensures nodes[p].Internal?
      ensures posn == Route(old(nodes[p]).keys, old(nodes[p]).size, key)
      ensures DeleteFrame(old(nodes), old(height), old(nextFree), mid, midHeight, midFree, old(nodes[p]).ptrs[posn])
      ensures HeightsOk(mid, midHeight) && old(nodes[p]).ptrs[posn] in mid
      ensures refreshed == Internal(old(nodes[p]).size, old(nodes[p]).ptrs,
        RefreshSeparator(old(nodes[p]).keys, old(nodes[p]).size, posn, MaxIn(mid, midHeight, old(nodes[p]).ptrs[posn])))
      ensures RebalanceStep(mid, midHeight, midFree, nodes, height, p, refreshed, posn, branch)
      ensures StoreKeys(mid) == KeysAfterErase(old(nodes), RoutedLeaf(old(nodes), old(height), p, key), key)
      ensures StoreKeys(nodes) == StoreKeys(mid)
      decreases height[p], 0
    {
      var n := nodes[p];
      ghost var k := height[p];
      var at := FindPosition(n.keys, n.size, key);
      var c := n.ptrs[at];
      assert c in nodes && height[c] + 1 == k && DeletePathOk(nodes, height, c, key);
      ghost var nodes0, height0, nf0 := nodes, height, nextFree;
      RoutedLeafStep(nodes0, height0, p, key);
      Delete(c, key);
      mid, midHeight, midFree := nodes, height, nextFree;
      DeleteChildReady(nodes0, height0, nf0, nodes, height, nextFree, p, key, at);
      assert StoreOk(mid, midHeight, midFree) && mid[p].Internal? && mid[p].ptrs == n.ptrs;
      var cmax := MaxIn(nodes, height, c);
      var m := Internal(n.size, n.ptrs, RefreshSeparator(n.keys, n.size, at, cmax));
      posn, refreshed := at, m;
      branch := RebalanceAt(p, m, at);
      RebalanceKeys(mid, midHeight, midFree, nodes, height, p, m, at, branch);
      DeleteFrameCompose(nodes0, height0, nf0, mid, midHeight, midFree, nodes, height, nextFree, p, c);
    }

    /** The rebalancing cascade of InternalNode::delete_key at parent p, whose
        in-memory form m has the routed child's separator refreshed. */
    method RebalanceAt(p: Ptr, m: Node<R>, posn: int) returns (ghost branch: Rebalance)
      requires Valid() && p in nodes && nodes[p].Internal?
      requires m.Internal? && m.ptrs == nodes[p].ptrs && m.size == nodes[p].size && |m.keys| == m.size - 1
      requires 2 <= m.size && 0 <= posn < m.size && forall c :: c in m.ptrs ==> c in nodes
      requires posn > 0 ==> PairDisjoint(nodes, m.ptrs[posn - 1], m.ptrs[posn])
      requires posn < m.size - 1 ==> PairDisjoint(nodes, m.ptrs[posn], m.ptrs[posn + 1])
      modifies this
      ensures Valid() && RebalanceStep(old(nodes), old(height), old(nextFree), nodes, height, p, m, posn, branch)
      ensures old(nextFree) <= nextFree && HeightsGrow(old(height), height)
      ensures forall q :: q in old(nodes) && q != p && q !in Children(m) ==> q in nodes && nodes[q] == old(nodes)[q]
      ensures forall q :: q in nodes && q !in old(nodes) ==> old(nextFree) <= q && q in height && height[q] == 0
    {
      var c := m.ptrs[posn];
      var l, r := LeftNeighbour(m, posn), RightNeighbour(m, posn);
      assert l in m.ptrs && r in m.ptrs;
      var b := RebalanceChoice(posn, m.size, nodes[c].size, nodes[l].size, nodes[r].size);
      branch := b;
      if b == NoUnderflow {
        // this->dump()
        NoUnderflowStep(nodes, height, nextFree, p, m, posn);
        nodes := nodes[p := m];
      } else if b == LeftRedistribute || b == RightRedistribute {
        RedistributeChild(p, m, posn, b);
      } else {
        MergeChild(p, m, posn, b);
      }
    }
  
    /** Left or right redistribution: the neighbour gives the child one
        entry (or one locator and key), then the parent's separator of the
        left one of the two nodes is set to that node's new max. */
    method RedistributeChild(p: Ptr, m: Node<R>, posn: int, b: Rebalance)
      requires Valid() && p in nodes && nodes[p].Internal?
      requires m.Internal? && m.ptrs == nodes[p].ptrs && m.size == nodes[p].size && |m.keys| == m.size - 1
      requires 2 <= m.size && 0 <= posn < m.size && forall c :: c in m.ptrs ==> c in nodes
      requires b == LeftRedistribute || b == RightRedistribute
      requires b == RebalanceChoice(posn, m.size, nodes[m.ptrs[posn]].size,
                                    nodes[LeftNeighbour(m, posn)].size, nodes[RightNeighbour(m, posn)].size)
      modifies this
      ensures Valid() && RebalanceStep(old(nodes), old(height), old(nextFree), nodes, height, p, m, posn, b)
      ensures old(nextFree) <= nextFree && HeightsGrow(old(height), height)
      ensures forall q :: q in old(nodes) && q != p && q !in Children(m) ==> q in nodes && nodes[q] == old(nodes)[q]
      ensures forall q :: q in nodes && q !in old(nodes) ==> old(nextFree) <= q && q in height && height[q] == 0
    {
      var c := m.ptrs[posn];
      ghost var n1, h1, nf1 := nodes, height, nextFree;
      var nb := RedistributeSiblings(p, m, posn, b);
      var x := if b == LeftRedistribute then nb else c;
      var g := RebalancedParent(m, posn, b, MaxIn(nodes, height, x));
      ghost var mid := nodes;
      // this->dump()
      nodes := nodes[p := g];
      RedistChildStep(n1, h1, nf1, mid, height, nextFree, nodes, p, m, posn, b);
    }

    /** The first half of a redistributing rebalance: the child's neighbour
        on the chosen side hands it one entry, or one locator and key. */
    method RedistributeSiblings(p: Ptr, m: Node<R>, posn: int, b: Rebalance) returns (nb: Ptr)
      requires Valid() && p in nodes && nodes[p].Internal?
      requires m.Internal? && m.ptrs == nodes[p].ptrs && m.size == nodes[p].size && |m.keys| == m.size - 1
      requires 2 <= m.size && 0 <= posn < m.size && forall c :: c in m.ptrs ==> c in nodes
      requires b == LeftRedistribute || b == RightRedistribute
      requires b == RebalanceChoice(posn, m.size, nodes[m.ptrs[posn]].size,
                                    nodes[LeftNeighbour(m, posn)].size, nodes[RightNeighbour(m, posn)].size)
      modifies this
      ensures nb == (if b == LeftRedistribute then m.ptrs[posn - 1] else m.ptrs[posn + 1])
      ensures var nbIndex := if b == LeftRedistribute then posn - 1 else posn + 1;
        RedistReady(old(nodes), old(nextFree), nb, m.ptrs[posn])
        && nodes == Redistributed(old(nodes), old(nextFree), nb, m.ptrs[posn], nbIndex, posn)
      ensures Valid() && old(nextFree) <= nextFree && HeightsGrow(old(height), height)
      ensures old(nodes).Keys <= nodes.Keys
      ensures forall q :: q in old(nodes) && q != m.ptrs[posn] && q != nb ==> nodes[q] == old(nodes)[q]
      ensures forall q :: q in nodes && q !in old(nodes) ==> old(nextFree) <= q && q in height && height[q] == 0
    {
      var c := m.ptrs[posn];
      var nbIndex;
      nb, nbIndex := if b == LeftRedistribute then m.ptrs[posn - 1] else m.ptrs[posn + 1],
                     if b == LeftRedistribute then posn - 1 else posn + 1;
      RedistChildReady(nodes, height, nextFree, p, m, posn, b);
      // neighbour->redistributeData(neighbour, child, nbIndex, posn)
      Redistribute(nb, c, nbIndex, posn);
    }

    /** Left or right merge: the left one of the two nodes absorbs the right
        one, which is deleted; the parent erases the absorbed node's locator
        and the left node's separator. */
    method MergeChild(p: Ptr, m: Node<R>, posn: int, b: Rebalance)
      requires Valid() && p in nodes && nodes[p].Internal?
      requires m.Internal? && m.ptrs == nodes[p].ptrs && m.size == nodes[p].size && |m.keys| == m.size - 1
      requires 2 <= m.size && 0 <= posn < m.size && forall c :: c in m.ptrs ==> c in nodes
      requires posn > 0 ==> PairDisjoint(nodes, m.ptrs[posn - 1], m.ptrs[posn])
      requires posn < m.size - 1 ==> PairDisjoint(nodes, m.ptrs[posn], m.ptrs[posn + 1])
      requires b == LeftMerge || b == RightMerge
      requires b == RebalanceChoice(posn, m.size, nodes[m.ptrs[posn]].size,
                                    nodes[LeftNeighbour(m, posn)].size, nodes[RightNeighbour(m, posn)].size)
      modifies this
      ensures Valid() && RebalanceStep(old(nodes), old(height), old(nextFree), nodes, height, p, m, posn, b)
      ensures old(nextFree) <= nextFree && HeightsGrow(old(height), height)
      ensures forall q :: q in old(nodes) && q != p && q !in Children(m) ==> q in nodes && nodes[q] == old(nodes)[q]
      ensures forall q :: q in nodes && q !in old(nodes) ==> old(nextFree) <= q && q in height && height[q] == 0
    {
      var c := m.ptrs[posn];
      var a, s := if b == LeftMerge then m.ptrs[posn - 1] else c,
                  if b == LeftMerge then c else m.ptrs[posn + 1];
      MergeChildReady(nodes, height, nextFree, p, m, posn, b);
      // the parent erases the absorbed locator and a separator, size--;
      // the max argument is read only by the redistributing branches
      var g := RebalancedParent(m, posn, b, DELETE_MARKER);
      ghost var n1 := nodes;
      // left->merge_nodes(child), or child->merge_nodes(right)
      MergeNodes(a, s);
      ghost var mid := nodes;
      // this->dump()
      nodes := nodes[p := g];
      MergeStep(n1, height, nextFree, mid, nodes, p, m, posn, b, a, s);
      MergeFrame(n1, mid, nodes, p, g, a, s, Children(m));
    }
  }
}
