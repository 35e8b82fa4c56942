/** The ordered key -> record map a leaf keeps, as a sequence of entries in
    strictly increasing key order, and the operations LeafNode performs on
    it: point insert and erase, range insert of a sibling's entries, the
    split into a kept prefix and a moved suffix, max and the local scan of a
    range query. */
module LeafEntries {
  import opened Types

  /** Keys strictly increase along the sequence (std::map order). */
  ghost predicate Sorted<R>(e: seq<(Key, R)>)
  {
    forall i, j :: 0 <= i < j < |e| ==> e[i].0 < e[j].0
  }

  function KeysOf<R>(e: seq<(Key, R)>): set<Key>
  {
    if e == [] then {} else {e[0].0} + KeysOf(e[1..])
  }

  /** The map the entries stand for. */
  function AsMap<R>(e: seq<(Key, R)>): map<Key, R>
  {
    if e == [] then map[] else AsMap(e[1..])[e[0].0 := e[0].1]
  }

  lemma {:induction false} KeysOfIndex<R>(e: seq<(Key, R)>, k: Key)
    ensures k in KeysOf(e) <==> exists i :: 0 <= i < |e| && e[i].0 == k
  {
    if e != [] {
      KeysOfIndex(e[1..], k);
      if k in KeysOf(e[1..]) {
        var i :| 0 <= i < |e[1..]| && e[1..][i].0 == k;
        assert e[i + 1].0 == k;
      }
      if exists i :: 0 <= i < |e| && e[i].0 == k {
        var i :| 0 <= i < |e| && e[i].0 == k;
        if i > 0 { assert e[1..][i - 1].0 == k; }
      }
    }
  }

  lemma {:induction false} AsMapKeys<R>(e: seq<(Key, R)>)
    ensures AsMap(e).Keys == KeysOf(e)
  {
    if e != [] { AsMapKeys(e[1..]); }
  }

  lemma {:induction false} SortedTail<R>(e: seq<(Key, R)>)
    requires Sorted(e) && e != []
    ensures Sorted(e[1..]) && e[0].0 !in KeysOf(e[1..])
    ensures forall k :: k in KeysOf(e[1..]) ==> e[0].0 < k
  {
    forall k | k in KeysOf(e[1..]) ensures e[0].0 < k {
      KeysOfIndex(e[1..], k);
      var i :| 0 <= i < |e[1..]| && e[1..][i].0 == k;
      assert e[i + 1].0 == k;
    }
  }

  /** The number of distinct keys equals the number of entries. */
  lemma {:induction false} SortedCount<R>(e: seq<(Key, R)>)
    requires Sorted(e)
    ensures |KeysOf(e)| == |e| && |AsMap(e)| == |e|
  {
    AsMapKeys(e);
    if e != [] {
      SortedTail(e);
      SortedCount(e[1..]);
    }
  }

  /** `data_pointers[key] = record_ptr`: the entry goes to its ordered
      place, replacing an entry with the same key. */
  function InsertEntry<R>(e: seq<(Key, R)>, k: Key, r: R): seq<(Key, R)>
  {
    if e == [] then [(k, r)]
    else if k < e[0].0 then [(k, r)] + e
    else if k == e[0].0 then [(k, r)] + e[1..]
    else [e[0]] + InsertEntry(e[1..], k, r)
  }

  lemma {:induction false} InsertEntryKeys<R>(e: seq<(Key, R)>, k: Key, r: R)
    ensures KeysOf(InsertEntry(e, k, r)) == KeysOf(e) + {k}
  {
    if e != [] && k > e[0].0 {
      InsertEntryKeys(e[1..], k, r);
      assert InsertEntry(e, k, r)[1..] == InsertEntry(e[1..], k, r);
    } else if e != [] && k < e[0].0 {
      assert ([(k, r)] + e)[1..] == e;
    } else if e != [] {
      assert ([(k, r)] + e[1..])[1..] == e[1..];
    }
  }

  /** Prepending an entry below every key keeps the order. */
  lemma SortedCons<R>(x: (Key, R), t: seq<(Key, R)>)
    requires Sorted(t) && forall k :: k in KeysOf(t) ==> x.0 < k
    ensures Sorted([x] + t)
  {
    var s := [x] + t;
    forall i, j | 0 <= i < j < |s| ensures s[i].0 < s[j].0 {
      assert s[j] == t[j - 1];
      if i == 0 {
        KeysOfIndex(t, t[j - 1].0);
      } else {
        assert s[i] == t[i - 1];
      }
    }
  }

  lemma {:induction false} InsertEntrySorted<R>(e: seq<(Key, R)>, k: Key, r: R)
    requires Sorted(e)
    ensures Sorted(InsertEntry(e, k, r))
  {
    if e != [] {
      SortedTail(e);
      if k < e[0].0 {
        SortedCons((k, r), e);
      } else if k == e[0].0 {
        SortedCons((k, r), e[1..]);
      } else {
        InsertEntrySorted(e[1..], k, r);
        InsertEntryKeys(e[1..], k, r);
        SortedCons(e[0], InsertEntry(e[1..], k, r));
      }
    }
  }

  lemma {:induction false} InsertEntryMap<R>(e: seq<(Key, R)>, k: Key, r: R)
    ensures AsMap(InsertEntry(e, k, r)) == AsMap(e)[k := r]
  {
    if e == [] {
    } else if k < e[0].0 {
      assert ([(k, r)] + e)[1..] == e;
    } else if k == e[0].0 {
      assert ([(k, r)] + e[1..])[1..] == e[1..];
    } else {
      InsertEntryMap(e[1..], k, r);
      assert ([e[0]] + InsertEntry(e[1..], k, r))[1..] == InsertEntry(e[1..], k, r);
    }
  }

  lemma {:induction false} InsertEntryLength<R>(e: seq<(Key, R)>, k: Key, r: R)
    requires Sorted(e)
    ensures |InsertEntry(e, k, r)| == if k in KeysOf(e) then |e| else |e| + 1
  {
    if e != [] {
      SortedTail(e);
      if k > e[0].0 {
        InsertEntryLength(e[1..], k, r);
      }
    }
  }

  /** Inserting keeps the order, stores key |-> rec, and adds one entry
      exactly when the key was absent. */
  lemma InsertEntryCorrect<R>(e: seq<(Key, R)>, k: Key, r: R)
    requires Sorted(e)
    ensures Sorted(InsertEntry(e, k, r))
    ensures AsMap(InsertEntry(e, k, r)) == AsMap(e)[k := r]
    ensures |InsertEntry(e, k, r)| == if k in KeysOf(e) then |e| else |e| + 1
  {
    InsertEntrySorted(e, k, r);
    InsertEntryMap(e, k, r);
    InsertEntryLength(e, k, r);
  }

  /** `data_pointers.erase(key)`. */
  function RemoveEntry<R>(e: seq<(Key, R)>, k: Key): seq<(Key, R)>
  {
    if e == [] then []
    else if e[0].0 == k then RemoveEntry(e[1..], k)
    else [e[0]] + RemoveEntry(e[1..], k)
  }

  lemma {:induction false} RemoveEntryKeys<R>(e: seq<(Key, R)>, k: Key)
    ensures KeysOf(RemoveEntry(e, k)) == KeysOf(e) - {k}
  {
    if e != [] {
      RemoveEntryKeys(e[1..], k);
      if e[0].0 != k {
        assert RemoveEntry(e, k)[1..] == RemoveEntry(e[1..], k);
      }
    }
  }

  /** Erasing keeps the order, drops exactly the key, and removes one entry
      exactly when the key was present. */
  lemma {:induction false} RemoveEntryCorrect<R>(e: seq<(Key, R)>, k: Key)
    requires Sorted(e)
    ensures Sorted(RemoveEntry(e, k))
    ensures AsMap(RemoveEntry(e, k)) == AsMap(e) - {k}
    ensures |RemoveEntry(e, k)| == if k in KeysOf(e) then |e| - 1 else |e|
  {
    if e != [] {
      SortedTail(e);
      RemoveEntryCorrect(e[1..], k);
      RemoveEntryKeys(e[1..], k);
      AsMapKeys(e[1..]);
      var t := RemoveEntry(e[1..], k);
      if e[0].0 == k {
        assert k !in KeysOf(e[1..]);
        assert AsMap(e[1..]) - {k} == AsMap(e[1..]);
      } else {
        SortedCons(e[0], t);
        assert ([e[0]] + t)[1..] == t;
      }
    }
  }

  /** std::map::insert(first, last): each of `b`'s entries is added unless
      its key is already present, in which case `a`'s record is kept. */
  function InsertAll<R>(a: seq<(Key, R)>, b: seq<(Key, R)>): seq<(Key, R)>
    decreases |b|
  {
    if b == [] then a
    else
      var a' := if b[0].0 in KeysOf(a) then a else InsertEntry(a, b[0].0, b[0].1);
      InsertAll(a', b[1..])
  }

  /** The range insert yields the union of the two maps, `a` winning on a
      shared key; with disjoint keys its length is the sum. */
  lemma {:induction false} InsertAllCorrect<R>(a: seq<(Key, R)>, b: seq<(Key, R)>)
    requires Sorted(a) && Sorted(b)
    ensures Sorted(InsertAll(a, b))
    ensures AsMap(InsertAll(a, b)) == AsMap(b) + AsMap(a)
    ensures KeysOf(a) !! KeysOf(b) ==> |InsertAll(a, b)| == |a| + |b|
    decreases |b|
  {
    if b != [] {
      SortedTail(b);
      var k, v := b[0].0, b[0].1;
      var a' := if k in KeysOf(a) then a else InsertEntry(a, k, v);
      InsertEntryCorrect(a, k, v);
      InsertEntryKeys(a, k, v);
      InsertAllCorrect(a', b[1..]);
      AsMapKeys(a);
      AsMapKeys(b);
      AsMapKeys(b[1..]);
      UnionStep(AsMap(a), AsMap(a'), AsMap(b[1..]), k, v);
      if KeysOf(a) !! KeysOf(b) {
        assert KeysOf(a') == KeysOf(a) + {k};
        assert KeysOf(a') !! KeysOf(b[1..]);
      }
    }
  }

  /** One step of the range insert on the maps: adding k |-> v unless k is
      present, then the rest, is the union with `a` winning. */
  lemma UnionStep<R>(ma: map<Key, R>, ma': map<Key, R>, mb: map<Key, R>, k: Key, v: R)
    requires k in ma ==> ma' == ma
    requires k !in ma ==> ma' == ma[k := v]
    ensures mb + ma' == mb[k := v] + ma
  {
  }

  /** Every key of `a` below every key of `b`: `b` lies to the right. */
  ghost predicate AllBelow<R>(a: seq<(Key, R)>, b: seq<(Key, R)>)
  {
    forall i, j :: 0 <= i < |a| && 0 <= j < |b| ==> a[i].0 < b[j].0
  }

  lemma {:induction false} InsertEntryAtEnd<R>(a: seq<(Key, R)>, k: Key, r: R)
    requires forall i :: 0 <= i < |a| ==> a[i].0 < k
    ensures InsertEntry(a, k, r) == a + [(k, r)]
  {
    if a != [] {
      InsertEntryAtEnd(a[1..], k, r);
      assert [a[0]] + (a[1..] + [(k, r)]) == a + [(k, r)];
    }
  }

  lemma SortedSnoc<R>(a: seq<(Key, R)>, x: (Key, R))
    requires Sorted(a) && forall i :: 0 <= i < |a| ==> a[i].0 < x.0
    ensures Sorted(a + [x])
  {
    var s := a + [x];
    forall i, j | 0 <= i < j < |s| ensures s[i].0 < s[j].0 {
      assert s[i] == a[i];
      if j < |a| { assert s[j] == a[j]; }
    }
  }

  /** The sibling's first key is above every key of `a`, so `a` lacks it. */
  lemma AllBelowHead<R>(a: seq<(Key, R)>, b: seq<(Key, R)>)
    requires AllBelow(a, b) && b != []
    ensures forall i :: 0 <= i < |a| ==> a[i].0 < b[0].0
    ensures b[0].0 !in KeysOf(a)
  {
    assert forall i :: 0 <= i < |a| ==> a[i].0 < b[0].0;
    KeysOfIndex(a, b[0].0);
  }

  /** Moving the sibling's first entry across keeps the two sides apart. */
  lemma AllBelowShift<R>(a: seq<(Key, R)>, b: seq<(Key, R)>)
    requires Sorted(b) && AllBelow(a, b) && b != []
    ensures AllBelow(a + [b[0]], b[1..])
  {
    var a' := a + [b[0]];
    forall i, j | 0 <= i < |a'| && 0 <= j < |b[1..]| ensures a'[i].0 < b[1..][j].0 {
      assert b[1..][j] == b[j + 1];
      if i < |a| { assert a'[i] == a[i]; } else { assert a'[i] == b[0]; }
    }
  }

  lemma ShiftAppend<T>(a: seq<T>, b: seq<T>)
    requires b != []
    ensures a + [b[0]] + b[1..] == a + b
  {
    assert b == [b[0]] + b[1..];
  }

  /** Merging a right sibling appends its entries. */
  lemma {:induction false} InsertAllRightSibling<R>(a: seq<(Key, R)>, b: seq<(Key, R)>)
    requires Sorted(a) && Sorted(b) && AllBelow(a, b)
    ensures InsertAll(a, b) == a + b
    decreases |b|
  {
    if b != [] {
      AllBelowHead(a, b);
      InsertEntryAtEnd(a, b[0].0, b[0].1);
      SortedSnoc(a, b[0]);
      AllBelowShift(a, b);
      InsertAllRightSibling(a + [b[0]], b[1..]);
      ShiftAppend(a, b);
    }
  }

  /** LeafNode::max: the last entry's key. On an empty leaf the source
      dereferences rbegin() of an empty map; the model yields DELETE_MARKER
      there. */
  function LeafMax<R>(e: seq<(Key, R)>): (m: Key)
    ensures e != [] ==> m in KeysOf(e)
    ensures Sorted(e) ==> forall k :: k in KeysOf(e) ==> k <= m
    ensures e == [] ==> m == DELETE_MARKER
  {
    if e == [] then DELETE_MARKER
    else
      assert e[|e| - 1].0 in KeysOf(e) by { KeysOfIndex(e, e[|e| - 1].0); }
      assert Sorted(e) ==> forall k :: k in KeysOf(e) ==> k <= e[|e| - 1].0 by {
        forall k | k in KeysOf(e) { KeysOfIndex(e, k); }
      }
      e[|e| - 1].0
  }

  /** The split loop of LeafNode::insert_key: step past the first `mid`
      entries, then copy the rest into the new leaf one at a time, counting
      them. The original keeps the prefix. */
  method SplitEntries<R>(e: seq<(Key, R)>, mid: nat) returns (keep: seq<(Key, R)>, moved: seq<(Key, R)>, count: nat)
    requires mid <= |e|
    ensures keep + moved == e && |keep| == mid && count == |moved|
  {
    moved := [];
    count := 0;
    var i := mid;
    while i < |e|
      invariant mid <= i <= |e|
      invariant moved == e[mid..i] && count == i - mid
    {
      moved := moved + [e[i]];
      count := count + 1;
      i := i + 1;
    }
    keep := e[..mid];
    assert e[..mid] + e[mid..] == e;
  }

  /** Both halves of a split are ordered, their key sets are disjoint and
      cover the original, and every kept key is below every moved key. */
  lemma {:induction false} SplitPartition<R>(e: seq<(Key, R)>, mid: nat)
    requires Sorted(e) && mid <= |e|
    ensures Sorted(e[..mid]) && Sorted(e[mid..]) && AllBelow(e[..mid], e[mid..])
    ensures KeysOf(e[..mid]) !! KeysOf(e[mid..])
    ensures KeysOf(e[..mid]) + KeysOf(e[mid..]) == KeysOf(e)
    ensures AsMap(e[..mid]) + AsMap(e[mid..]) == AsMap(e)
  {
    var lo, hi := e[..mid], e[mid..];
    assert AllBelow(lo, hi) by {
      forall i, j | 0 <= i < |lo| && 0 <= j < |hi| ensures lo[i].0 < hi[j].0 {
        assert lo[i] == e[i] && hi[j] == e[mid + j];
      }
    }
    assert Sorted(hi) by {
      forall i, j | 0 <= i < j < |hi| ensures hi[i].0 < hi[j].0 {
        assert hi[i] == e[mid + i] && hi[j] == e[mid + j];
      }
    }
    forall k | k in KeysOf(lo) ensures k !in KeysOf(hi) {
      KeysOfIndex(lo, k);
      KeysOfIndex(hi, k);
    }
    InsertAllCorrect(lo, hi);
    InsertAllRightSibling(lo, hi);
    assert lo + hi == e;
    AsMapKeys(lo);
    AsMapKeys(hi);
    AsMapKeys(e);
    assert AsMap(hi) + AsMap(lo) == AsMap(lo) + AsMap(hi);
  }

  /** Reference for a range query over one leaf: every entry with
      lo <= key <= hi, in order. */
  function Filter<R>(e: seq<(Key, R)>, lo: Key, hi: Key): seq<(Key, R)>
  {
    if e == [] then []
    else (if lo <= e[0].0 <= hi then [e[0]] else []) + Filter(e[1..], lo, hi)
  }

  /** The entry loop of LeafNode::range: emit entries within [lo, hi] and
      stop at the first key above hi, reporting whether it stopped. */
  function ScanEntries<R>(e: seq<(Key, R)>, lo: Key, hi: Key): (seq<(Key, R)>, bool)
  {
    if e == [] then ([], false)
    else
      var emit := if lo <= e[0].0 <= hi then [e[0]] else [];
      if e[0].0 > hi then (emit, true)
      else
        var rest := ScanEntries(e[1..], lo, hi);
        (emit + rest.0, rest.1)
  }

  /** On ordered entries the early exit loses nothing: the scan emits
      exactly the filtered entries, and stops exactly when some key
      exceeds hi. */
  lemma {:induction false} ScanEntriesIsFilter<R>(e: seq<(Key, R)>, lo: Key, hi: Key)
    requires Sorted(e)
    ensures ScanEntries(e, lo, hi).0 == Filter(e, lo, hi)
    ensures ScanEntries(e, lo, hi).1 <==> exists i :: 0 <= i < |e| && e[i].0 > hi
  {
    if e != [] {
      SortedTail(e);
      if e[0].0 > hi {
        FilterAbove(e[1..], lo, hi);
      } else {
        ScanEntriesIsFilter(e[1..], lo, hi);
        if exists i :: 0 <= i < |e| && e[i].0 > hi {
          var i :| 0 <= i < |e| && e[i].0 > hi;
          assert e[1..][i - 1].0 > hi;
        }
        if exists i :: 0 <= i < |e[1..]| && e[1..][i].0 > hi {
          var i :| 0 <= i < |e[1..]| && e[1..][i].0 > hi;
          assert e[i + 1].0 > hi;
        }
      }
    }
  }

  lemma {:induction false} FilterAbove<R>(e: seq<(Key, R)>, lo: Key, hi: Key)
    requires forall k :: k in KeysOf(e) ==> k > hi
    ensures Filter(e, lo, hi) == []
  {
    if e != [] {
      assert KeysOf(e) == {e[0].0} + KeysOf(e[1..]);
      FilterAbove(e[1..], lo, hi);
    }
  }

  /** Filtered entries lie in [lo, hi] and are drawn from the leaf. */
  lemma {:induction false} FilterBounds<R>(e: seq<(Key, R)>, lo: Key, hi: Key)
    ensures forall i :: 0 <= i < |Filter(e, lo, hi)| ==>
      lo <= Filter(e, lo, hi)[i].0 <= hi && Filter(e, lo, hi)[i].0 in KeysOf(e)
  {
    if e != [] {
      FilterBounds(e[1..], lo, hi);
      var f := Filter(e, lo, hi);
      var t := Filter(e[1..], lo, hi);
      forall i | 0 <= i < |f| ensures lo <= f[i].0 <= hi && f[i].0 in KeysOf(e) {
        if lo <= e[0].0 <= hi && i > 0 { assert f[i] == t[i - 1]; }
        else if !(lo <= e[0].0 <= hi) { assert f[i] == t[i]; }
      }
    }
  }

  /** Filtering ordered entries keeps them ordered. */
  lemma {:induction false} FilterSorted<R>(e: seq<(Key, R)>, lo: Key, hi: Key)
    requires Sorted(e)
    ensures Sorted(Filter(e, lo, hi))
  {
    if e != [] {
      SortedTail(e);
      FilterSorted(e[1..], lo, hi);
      FilterBounds(e[1..], lo, hi);
      var f := Filter(e, lo, hi);
      var t := Filter(e[1..], lo, hi);
      if lo <= e[0].0 <= hi {
        forall i, j | 0 <= i < j < |f| ensures f[i].0 < f[j].0 {
          assert f[j] == t[j - 1];
          if i > 0 { assert f[i] == t[i - 1]; }
        }
      } else {
        assert f == t;
      }
    }
  }
}
