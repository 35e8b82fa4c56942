/** What the store holds, key by key: the keys of all stored leaves, and
    how each node operation changes them. A recursive insert adds exactly
    its key; a recursive delete erases its key from the leaf its routing
    reaches, and the rebalancing that follows neither adds nor drops a key. */
module StoreContents {
  import opened Types
  import opened LeafEntries
  import opened InternalLogic
  import opened StoreState

  /** The keys a node holds: a leaf's entry keys; an internal node none. */
  function NodeKeys<R>(n: Node<R>): set<Key>
  {
    if n.Leaf? then KeysOf(n.entries) else {}
  }

  /** Every key some stored leaf holds. */
  ghost function StoreKeys<R>(nodes: map<Ptr, Node<R>>): set<Key>
  {
    set q, k | q in nodes && k in NodeKeys(nodes[q]) :: k
  }

  /** Some stored leaf maps key to rec. */
  ghost predicate Stores<R>(nodes: map<Ptr, Node<R>>, key: Key, rec: R)
  {
    exists q :: q in nodes && nodes[q].Leaf? && key in AsMap(nodes[q].entries) && AsMap(nodes[q].entries)[key] == rec
  }

  /** Every record a leaf of the first store holds, some leaf of the second
      holds too. */
  ghost predicate KeepsRecords<R>(n1: map<Ptr, Node<R>>, n2: map<Ptr, Node<R>>)
  {
    forall q, k :: q in n1 && n1[q].Leaf? && k in AsMap(n1[q].entries) ==> Stores(n2, k, AsMap(n1[q].entries)[k])
  }

  lemma KeepsRecordsTrans<R>(n1: map<Ptr, Node<R>>, n2: map<Ptr, Node<R>>, n3: map<Ptr, Node<R>>)
    requires KeepsRecords(n1, n2) && KeepsRecords(n2, n3)
    ensures KeepsRecords(n1, n3)
  {
    forall q, k | q in n1 && n1[q].Leaf? && k in AsMap(n1[q].entries)
      ensures Stores(n3, k, AsMap(n1[q].entries)[k])
    {
      var v := AsMap(n1[q].entries)[k];
      assert Stores(n2, k, v);
      var q2 :| q2 in n2 && n2[q2].Leaf? && k in AsMap(n2[q2].entries) && AsMap(n2[q2].entries)[k] == v;
    }
  }

  /** n2 is n1 with key |-> rec inserted: exactly key is added to the
      store's keys, a key no leaf held is stored with rec, and no record is
      lost. */
  ghost predicate InsertedInto<R>(n1: map<Ptr, Node<R>>, n2: map<Ptr, Node<R>>, key: Key, rec: R)
  {
    && StoreKeys(n2) == StoreKeys(n1) + {key}
    && (key !in StoreKeys(n1) ==> Stores(n2, key, rec))
    && KeepsRecords(n1, n2)
  }

  /** LeafNode::insert_key is an insert of key |-> rec into the store. */
  lemma LeafInsertedInto<R>(nodes: map<Ptr, Node<R>>, newPtr: Ptr, p: Ptr, key: Key, rec: R)
    requires p in nodes && nodes[p].Leaf? && nodes[p].size == |nodes[p].entries| && Sorted(nodes[p].entries)
    requires newPtr !in nodes
    ensures InsertedInto(nodes, LeafInserted(nodes, newPtr, p, key, rec).0, key, rec)
  {
    LeafInsertedKeys(nodes, newPtr, p, key, rec);
    LeafInsertedKeeps(nodes, newPtr, p, key, rec);
    StoreKeysSplit(nodes, p);
  }

  /** Rewriting internal nodes after an insert keeps it an insert. */
  lemma InsertedIntoSameLeaves<R>(n1: map<Ptr, Node<R>>, mid: map<Ptr, Node<R>>, n2: map<Ptr, Node<R>>, key: Key, rec: R)
    requires InsertedInto(n1, mid, key, rec) && SameLeaves(mid, n2)
    ensures InsertedInto(n1, n2, key, rec)
  {
    SameLeavesKeys(mid, n2);
    KeepsRecordsTrans(n1, mid, n2);
    if key !in StoreKeys(n1) {
      var q :| q in mid && mid[q].Leaf? && key in AsMap(mid[q].entries) && AsMap(mid[q].entries)[key] == rec;
      assert q in n2 && n2[q] == mid[q];
    }
  }

  /** The store's keys once key is erased from the leaf at q. */
  ghost function KeysAfterErase<R>(nodes: map<Ptr, Node<R>>, q: Ptr, key: Key): set<Key>
    requires q in nodes
  {
    StoreKeys(nodes - {q}) + (NodeKeys(nodes[q]) - {key})
  }

  /** Two stores with the same leaves at the same locators: they differ at
      most in internal nodes. */
  ghost predicate SameLeaves<R>(n1: map<Ptr, Node<R>>, n2: map<Ptr, Node<R>>)
  {
    && (forall q :: q in n1 && n1[q].Leaf? ==> q in n2 && n2[q] == n1[q])
    && (forall q :: q in n2 && n2[q].Leaf? ==> q in n1 && n1[q] == n2[q])
  }

  /** The leaf the routing of key reaches from p (InternalNode.cpp:226-240). */
  ghost function RoutedLeaf<R>(nodes: map<Ptr, Node<R>>, height: map<Ptr, nat>, p: Ptr, key: Key): (q: Ptr)
    requires DeletePathOk(nodes, height, p, key)
    ensures q in nodes && nodes[q].Leaf?
    decreases height[p]
  {
    if nodes[p].Leaf? then p
    else RoutedLeaf(nodes, height, nodes[p].ptrs[Route(nodes[p].keys, nodes[p].size, key)], key)
  }

  // ---------------------------------------------------------------------
  // The key set of a store, node by node

  /** A store's keys are those of the node at p plus those of the rest. */
  lemma StoreKeysSplit<R>(nodes: map<Ptr, Node<R>>, p: Ptr)
    ensures StoreKeys(nodes) == StoreKeys(nodes - {p}) + (if p in nodes then NodeKeys(nodes[p]) else {})
  {
    var rest := nodes - {p};
    forall k | k in StoreKeys(nodes)
      ensures k in StoreKeys(rest) + (if p in nodes then NodeKeys(nodes[p]) else {})
    {
      var q :| q in nodes && k in NodeKeys(nodes[q]);
      if q != p {
        assert q in rest && rest[q] == nodes[q];
      }
    }
    forall k | k in StoreKeys(rest) ensures k in StoreKeys(nodes) {
      var q :| q in rest && k in NodeKeys(rest[q]);
      assert q in nodes && nodes[q] == rest[q];
    }
    if p in nodes {
      forall k | k in NodeKeys(nodes[p]) ensures k in StoreKeys(nodes) {
        assert p in nodes;
      }
    }
  }

  /** Storing x at p: the keys of the other nodes plus x's. */
  lemma StoreKeysPut<R>(nodes: map<Ptr, Node<R>>, p: Ptr, x: Node<R>)
    ensures StoreKeys(nodes[p := x]) == StoreKeys(nodes - {p}) + NodeKeys(x)
  {
    StoreKeysSplit(nodes[p := x], p);
    assert nodes[p := x] - {p} == nodes - {p};
  }

  /** Stores with the same leaves hold the same keys and the same records. */
  lemma SameLeavesKeys<R>(n1: map<Ptr, Node<R>>, n2: map<Ptr, Node<R>>)
    requires SameLeaves(n1, n2)
    ensures StoreKeys(n1) == StoreKeys(n2)
    ensures KeepsRecords(n1, n2) && KeepsRecords(n2, n1)
  {
    forall k | k in StoreKeys(n1) ensures k in StoreKeys(n2) {
      var q :| q in n1 && k in NodeKeys(n1[q]);
      assert q in n2 && n2[q] == n1[q];
    }
    forall k | k in StoreKeys(n2) ensures k in StoreKeys(n1) {
      var q :| q in n2 && k in NodeKeys(n2[q]);
      assert q in n1 && n1[q] == n2[q];
    }
  }

  /** Replacing or adding internal nodes keeps the leaves. */
  lemma InternalPutSameLeaves<R>(nodes: map<Ptr, Node<R>>, p: Ptr, x: Node<R>)
    requires x.Internal? && (p in nodes ==> nodes[p].Internal?)
    ensures SameLeaves(nodes, nodes[p := x])
  {
  }

  /** InternalNode::insert_key's own rewrite after the child's insert:
      dumping the absorbed parent, or its two split halves, touches no leaf. */
  lemma AbsorbSameLeaves<R>(mid: map<Ptr, Node<R>>, n2: map<Ptr, Node<R>>, p: Ptr, split: Ptr, g: Node<R>)
    requires p in mid && mid[p].Internal? && split !in mid
    requires g.Internal? && |g.ptrs| == g.size && |g.keys| == g.size - 1
    requires !Overflows(g.size) ==> n2 == mid[p := g]
    requires Overflows(g.size) ==>
      n2 == mid[split := SplitRight(g, MIN_OCCUPANCY)][p := Persist(SplitLeftInMemory(g, MIN_OCCUPANCY))]
    ensures SameLeaves(mid, n2)
  {
    if Overflows(g.size) {
      var l, r := Persist(SplitLeftInMemory(g, MIN_OCCUPANCY)), SplitRight(g, MIN_OCCUPANCY);
      InternalPutSameLeaves(mid, split, r);
      InternalPutSameLeaves(mid[split := r], p, l);
    } else {
      InternalPutSameLeaves(mid, p, g);
    }
  }

  /** Removing an internal node keeps the leaves. */
  lemma InternalRemoveSameLeaves<R>(nodes: map<Ptr, Node<R>>, s: Ptr)
    requires s in nodes ==> nodes[s].Internal?
    ensures SameLeaves(nodes, nodes - {s})
  {
  }

  /** The erased key set: every other key stays, no key appears, and the
      key is gone exactly when no leaf other than q holds it. */
  lemma KeysAfterEraseMeaning<R>(nodes: map<Ptr, Node<R>>, q: Ptr, key: Key)
    requires q in nodes
    ensures KeysAfterErase(nodes, q, key) <= StoreKeys(nodes)
    ensures KeysAfterErase(nodes, q, key) - {key} == StoreKeys(nodes) - {key}
    ensures key !in KeysAfterErase(nodes, q, key) <==>
      forall r :: r in nodes && key in NodeKeys(nodes[r]) ==> r == q
  {
    StoreKeysSplit(nodes, q);
    if key in KeysAfterErase(nodes, q, key) {
      var r :| r in nodes - {q} && key in NodeKeys((nodes - {q})[r]);
      assert r in nodes && r != q && key in NodeKeys(nodes[r]);
    }
    forall r | r in nodes && key in NodeKeys(nodes[r]) && r != q
      ensures key in KeysAfterErase(nodes, q, key)
    {
      assert r in nodes - {q} && (nodes - {q})[r] == nodes[r];
    }
  }

  // ---------------------------------------------------------------------
  // LeafNode operations

  /** LeafNode::insert_key adds exactly its key to the store's keys; the
      key ends up in the leaf or the new leaf split off it; a key the leaf
      did not hold is stored with its record. */
  lemma LeafInsertedKeys<R>(nodes: map<Ptr, Node<R>>, newPtr: Ptr, p: Ptr, key: Key, rec: R)
    requires p in nodes && nodes[p].Leaf? && nodes[p].size == |nodes[p].entries| && Sorted(nodes[p].entries)
    requires newPtr !in nodes
    ensures var m := LeafInserted(nodes, newPtr, p, key, rec).0;
      && StoreKeys(m) == StoreKeys(nodes) + {key}
      && (key in NodeKeys(m[p]) || (newPtr in m && key in NodeKeys(m[newPtr])))
      && (key !in NodeKeys(nodes[p]) ==> Stores(m, key, rec))
  {
    var n := nodes[p];
    AsMapKeys(n.entries);
    if key in AsMap(n.entries) {
      LeafInsertPresent(nodes, newPtr, p, key, rec);
      StoreKeysSplit(nodes, p);
    } else if !Overflows(n.size + 1) {
      LeafInsertedKeysInPlace(nodes, newPtr, p, key, rec);
    } else {
      LeafInsertedKeysSplit(nodes, newPtr, p, key, rec);
    }
  }

  /** A new key without overflow lands in the leaf itself. */
  lemma LeafInsertedKeysInPlace<R>(nodes: map<Ptr, Node<R>>, newPtr: Ptr, p: Ptr, key: Key, rec: R)
    requires p in nodes && nodes[p].Leaf? && nodes[p].size == |nodes[p].entries| && Sorted(nodes[p].entries)
    requires key !in AsMap(nodes[p].entries) && !Overflows(nodes[p].size + 1)
    ensures var m := LeafInserted(nodes, newPtr, p, key, rec).0;
      && StoreKeys(m) == StoreKeys(nodes) + {key}
      && key in NodeKeys(m[p]) && Stores(m, key, rec)
  {
    var n := nodes[p];
    var m := LeafInserted(nodes, newPtr, p, key, rec).0;
    LeafInsertNoOverflow(nodes, newPtr, p, key, rec);
    AsMapKeys(n.entries);
    AsMapKeys(m[p].entries);
    assert m == nodes[p := m[p]];
    StoreKeysPut(nodes, p, m[p]);
    StoreKeysSplit(nodes, p);
    assert AsMap(m[p].entries)[key] == rec;
  }

  /** A new key with overflow lands in one of the two halves. */
  lemma LeafInsertedKeysSplit<R>(nodes: map<Ptr, Node<R>>, newPtr: Ptr, p: Ptr, key: Key, rec: R)
    requires p in nodes && nodes[p].Leaf? && nodes[p].size == |nodes[p].entries| && Sorted(nodes[p].entries)
    requires key !in AsMap(nodes[p].entries) && Overflows(nodes[p].size + 1) && newPtr !in nodes
    ensures var m := LeafInserted(nodes, newPtr, p, key, rec).0;
      && StoreKeys(m) == StoreKeys(nodes) + {key}
      && (key in NodeKeys(m[p]) || key in NodeKeys(m[newPtr])) && Stores(m, key, rec)
  {
    var n := nodes[p];
    var m := LeafInserted(nodes, newPtr, p, key, rec).0;
    assert newPtr in m by { LeafInsertSplit(nodes, newPtr, p, key, rec); }
    var l, r := m[p], m[newPtr];
    var u := AsMap(l.entries) + AsMap(r.entries);
    assert && m == nodes[newPtr := r][p := l] && l.Leaf? && r.Leaf?
                   && NodeKeys(l) + NodeKeys(r) == NodeKeys(n) + {key} && u[key] == rec by {
      LeafInsertSplit(nodes, newPtr, p, key, rec);
      AsMapKeys(n.entries);
      AsMapKeys(l.entries);
      AsMapKeys(r.entries);
      assert u.Keys == AsMap(n.entries).Keys + {key};
    }
    assert StoreKeys(m) == StoreKeys(nodes) + {key} by {
      StoreKeysTwoPut(nodes, p, newPtr, l, r);
      StoreKeysSplit(nodes, p);
    }
    AsMapKeys(l.entries);
    AsMapKeys(r.entries);
    if key in AsMap(r.entries) {
      assert u[key] == AsMap(r.entries)[key];
    } else {
      assert u[key] == AsMap(l.entries)[key];
    }
  }

  /** LeafNode::insert_key loses no record: a present key keeps its record
      (the insert changes nothing), every other binding moves at most into
      the new leaf. */
  lemma LeafInsertedKeeps<R>(nodes: map<Ptr, Node<R>>, newPtr: Ptr, p: Ptr, key: Key, rec: R)
    requires p in nodes && nodes[p].Leaf? && nodes[p].size == |nodes[p].entries| && Sorted(nodes[p].entries)
    requires newPtr !in nodes
    ensures KeepsRecords(nodes, LeafInserted(nodes, newPtr, p, key, rec).0)
  {
    var n := nodes[p];
    var m := LeafInserted(nodes, newPtr, p, key, rec).0;
    if key in AsMap(n.entries) {
      LeafInsertPresent(nodes, newPtr, p, key, rec);
      return;
    }
    forall q, k | q in nodes && nodes[q].Leaf? && k in AsMap(nodes[q].entries)
      ensures Stores(m, k, AsMap(nodes[q].entries)[k])
    {
      var v := AsMap(nodes[q].entries)[k];
      if q != p {
        assert q in m && m[q] == nodes[q];
      } else if !Overflows(n.size + 1) {
        LeafInsertNoOverflow(nodes, newPtr, p, key, rec);
        assert k in AsMap(m[p].entries) && AsMap(m[p].entries)[k] == v;
      } else {
        LeafInsertSplit(nodes, newPtr, p, key, rec);
        var u := AsMap(m[p].entries) + AsMap(m[newPtr].entries);
        assert k in u && u[k] == v;
        if k in AsMap(m[newPtr].entries) {
          assert AsMap(m[newPtr].entries)[k] == u[k];
        } else {
          assert AsMap(m[p].entries)[k] == u[k];
        }
      }
    }
  }

  /** Storing l at p and r at a fresh locator: the other nodes' keys plus
      both halves'. */
  lemma StoreKeysTwoPut<R>(nodes: map<Ptr, Node<R>>, p: Ptr, s: Ptr, l: Node<R>, r: Node<R>)
    requires p in nodes && s !in nodes
    ensures StoreKeys(nodes[s := r][p := l]) == StoreKeys(nodes - {p}) + NodeKeys(l) + NodeKeys(r)
  {
    var rest := nodes - {p};
    assert nodes[s := r][p := l] == rest[s := r][p := l];
    StoreKeysPut(rest[s := r], p, l);
    assert rest[s := r] - {p} == rest[s := r];
    StoreKeysPut(rest, s, r);
    assert rest - {s} == rest;
  }

  /** LeafNode::delete_key erases the key from that leaf and from nowhere
      else. */
  lemma LeafDeletedKeys<R>(nodes: map<Ptr, Node<R>>, p: Ptr, key: Key)
    requires p in nodes && nodes[p].Leaf?
    ensures StoreKeys(LeafDeleted(nodes, p, key)) == KeysAfterErase(nodes, p, key)
  {
    var n := nodes[p];
    if key in KeysOf(n.entries) {
      RemoveEntryKeys(n.entries, key);
      StoreKeysPut(nodes, p, Leaf(n.size - 1, RemoveEntry(n.entries, key), n.next));
    } else {
      StoreKeysSplit(nodes, p);
    }
  }

  /** LeafNode::merge_nodes: the union of the two leaves stays in the store. */
  lemma LeafMergedKeys<R>(nodes: map<Ptr, Node<R>>, p: Ptr, s: Ptr)
    requires p in nodes && s in nodes && p != s && nodes[p].Leaf? && nodes[s].Leaf?
    requires Sorted(nodes[p].entries) && Sorted(nodes[s].entries)
    ensures StoreKeys(LeafMerged(nodes, p, s)) == StoreKeys(nodes)
  {
    var a, b := nodes[p], nodes[s];
    var m := LeafMerged(nodes, p, s);
    LeafMergeEffect(nodes, p, s);
    AsMapKeys(a.entries);
    AsMapKeys(b.entries);
    AsMapKeys(m[p].entries);
    StoreKeysPut(nodes - {s}, p, m[p]);
    StoreKeysSplit(nodes, p);
    StoreKeysSplit(nodes - {p}, s);
    assert (nodes - {s}) - {p} == (nodes - {p}) - {s};
  }

  /** LeafNode::redistributeData: the moved entry is inserted into `to`
      before it is erased from `from`, so no key is lost or gained. */
  lemma LeafRedistributedKeys<R>(nodes: map<Ptr, Node<R>>, newPtr: Ptr, from: Ptr, to: Ptr, fromIndex: int, toIndex: int)
    requires from in nodes && to in nodes && from != to && newPtr !in nodes
    requires nodes[from].Leaf? && nodes[to].Leaf? && nodes[from].entries != []
    requires nodes[to].size == |nodes[to].entries| && Sorted(nodes[from].entries) && Sorted(nodes[to].entries)
    ensures StoreKeys(LeafRedistributed(nodes, newPtr, from, to, fromIndex, toIndex)) == StoreKeys(nodes)
  {
    var e := nodes[from].entries;
    var x := if fromIndex < toIndex then e[|e| - 1] else e[0];
    var m1: map<Ptr, Node<R>> := LeafInserted(nodes, newPtr, to, x.0, x.1).0;
    var rest := StoreKeys(m1 - {from});
    var own := NodeKeys(nodes[from]);
    assert x.0 in own by { ExtremeEntry(e, fromIndex, toIndex); }
    assert StoreKeys(m1) == StoreKeys(nodes) + {x.0} && x.0 in rest by {
      LeafInsertedKeys(nodes, newPtr, to, x.0, x.1);
      var h := if x.0 in NodeKeys(m1[to]) then to else newPtr;
      assert h in m1 - {from} && x.0 in NodeKeys((m1 - {from})[h]);
    }
    assert StoreKeys(m1) == rest + own by { StoreKeysSplit(m1, from); }
    assert StoreKeys(LeafRedistributed(nodes, newPtr, from, to, fromIndex, toIndex)) == rest + (own - {x.0}) by {
      LeafRedistributedSteps(nodes, newPtr, from, to, fromIndex, toIndex, x, m1);
      LeafDeletedKeys(m1, from, x.0);
    }
    assert rest + (own - {x.0}) == rest + own;
    assert StoreKeys(nodes) + {x.0} == StoreKeys(nodes) by { StoreKeysSplit(nodes, from); }
  }

  // ---------------------------------------------------------------------
  // Rebalancing (InternalNode.cpp:216-318)

  /** TreeNode::redistributeData keeps the store's keys, and every node other
      than the two it works on. */
  lemma RedistributedKeys<R>(nodes: map<Ptr, Node<R>>, height: map<Ptr, nat>, nf: Ptr,
                             from: Ptr, to: Ptr, fromIndex: int, toIndex: int)
    requires StoreOk(nodes, height, nf) && RedistReady(nodes, nf, from, to)
    ensures StoreKeys(Redistributed(nodes, nf, from, to, fromIndex, toIndex)) == StoreKeys(nodes)
    ensures var m := Redistributed(nodes, nf, from, to, fromIndex, toIndex);
      forall q :: q in nodes && q != from && q != to ==> q in m && m[q] == nodes[q]
  {
    if nodes[from].Leaf? {
      assert NodeOk(nodes[from], nf) && NodeOk(nodes[to], nf);
      LeafRedistributedKeys(nodes, nf, from, to, fromIndex, toIndex);
      var e := nodes[from].entries;
      var x := if fromIndex < toIndex then e[|e| - 1] else e[0];
      var m1 := LeafInserted(nodes, nf, to, x.0, x.1).0;
      LeafRedistributedSteps(nodes, nf, from, to, fromIndex, toIndex, x, m1);
    } else {
      var (f, t) := RedistributeInternal(nodes[from], nodes[to], fromIndex, toIndex);
      InternalPutSameLeaves(nodes, from, f);
      InternalPutSameLeaves(nodes[from := f], to, t);
      SameLeavesKeys(nodes, nodes[from := f]);
      SameLeavesKeys(nodes[from := f], nodes[from := f][to := t]);
    }
  }

  /** TreeNode::merge_nodes keeps the store's keys, and every node other
      than the two it works on. */
  lemma MergedKeys<R>(nodes: map<Ptr, Node<R>>, height: map<Ptr, nat>, nf: Ptr, p: Ptr, s: Ptr)
    requires StoreOk(nodes, height, nf) && MergeReady(nodes, p, s)
    ensures StoreKeys(Merged(nodes, height, p, s)) == StoreKeys(nodes)
    ensures var m := Merged(nodes, height, p, s);
      forall q :: q in nodes && q != p && q != s ==> q in m && m[q] == nodes[q]
  {
    if nodes[p].Leaf? {
      assert NodeOk(nodes[p], nf) && NodeOk(nodes[s], nf);
      LeafMergedKeys(nodes, p, s);
    } else {
      var a := nodes[p];
      var g := MergeInternal(a, nodes[s], MaxIn(nodes, height, a.ptrs[|a.ptrs| - 1]));
      InternalRemoveSameLeaves(nodes, s);
      InternalPutSameLeaves(nodes - {s}, p, g);
      SameLeavesKeys(nodes, nodes - {s});
      SameLeavesKeys(nodes - {s}, (nodes - {s})[p := g]);
    }
  }

  /** Every branch of the rebalancing at parent p keeps the store's keys:
      redistribution and merging move entries between leaves, and the
      parent's own rewrite touches no leaf. */
  lemma RebalanceKeys<R>(n1: map<Ptr, Node<R>>, h1: map<Ptr, nat>, nf1: Ptr,
                         n2: map<Ptr, Node<R>>, h2: map<Ptr, nat>,
                         p: Ptr, m: Node<R>, posn: int, b: Rebalance)
    requires StoreOk(n1, h1, nf1) && p in n1 && n1[p].Internal?
    requires RebalanceStep(n1, h1, nf1, n2, h2, p, m, posn, b) && m.ptrs == n1[p].ptrs
    ensures StoreKeys(n2) == StoreKeys(n1)
  {
    var c := m.ptrs[posn];
    var l, r := LeftNeighbour(m, posn), RightNeighbour(m, posn);
    assert l in n1[p].ptrs && c in n1[p].ptrs && r in n1[p].ptrs;
    assert l != p && c != p && r != p by {
      assert h1[l] + 1 == h1[p] && h1[c] + 1 == h1[p] && h1[r] + 1 == h1[p];
    }
    assert n2[p].Internal?;
    match b
    case NoUnderflow =>
      InternalPutSameLeaves(n1, p, m);
      SameLeavesKeys(n1, n2);
    case LeftRedistribute =>
      RedistributedKeys(n1, h1, nf1, l, c, posn - 1, posn);
      var mid := Redistributed(n1, nf1, l, c, posn - 1, posn);
      InternalPutSameLeaves(mid, p, n2[p]);
      SameLeavesKeys(mid, n2);
    case RightRedistribute =>
      RedistributedKeys(n1, h1, nf1, r, c, posn + 1, posn);
      var mid := Redistributed(n1, nf1, r, c, posn + 1, posn);
      InternalPutSameLeaves(mid, p, n2[p]);
      SameLeavesKeys(mid, n2);
    case LeftMerge =>
      MergedKeys(n1, h1, nf1, l, c);
      var mid := Merged(n1, h1, l, c);
      InternalPutSameLeaves(mid, p, n2[p]);
      SameLeavesKeys(mid, n2);
    case RightMerge =>
      MergedKeys(n1, h1, nf1, c, r);
      var mid := Merged(n1, h1, c, r);
      InternalPutSameLeaves(mid, p, n2[p]);
      SameLeavesKeys(mid, n2);
  }

  /** The routing from an internal node goes on from the child it picks. */
  lemma RoutedLeafStep<R>(nodes: map<Ptr, Node<R>>, height: map<Ptr, nat>, p: Ptr, key: Key)
    requires DeletePathOk(nodes, height, p, key) && nodes[p].Internal?
    ensures var c := nodes[p].ptrs[Route(nodes[p].keys, nodes[p].size, key)];
      DeletePathOk(nodes, height, c, key) && RoutedLeaf(nodes, height, p, key) == RoutedLeaf(nodes, height, c, key)
  {
  }
}
