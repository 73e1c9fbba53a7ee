/**
 * What the operations of LRUSpec guarantee: how `updateElement` and
 * `getElement` reorder the recency list and keep the totals, which entry a
 * round of `cleanup` picks, and what a whole pass leaves behind. The last
 * section models one step of Challenge-1/Task-2/LRUCache.hpp exactly as
 * written and shows the input on which it breaks the invariant.
 */
module LRUProperties {
  import opened Wrappers
  import opened LRUSpec

  // ---------------------------------------------------------------------------
  // Moving a key to the back of the list

  lemma {:induction false} WithoutSnoc<T>(s: seq<T>, x: T)
    ensures Without(s + [x], x) == Without(s, x)
  {
    if s == [] {
      assert [x][1..] == [];
    } else {
      assert (s + [x])[1..] == s[1..] + [x];
      WithoutSnoc(s[1..], x);
    }
  }

  lemma WithoutTwice<T>(s: seq<T>, x: T)
    ensures Without(Without(s, x), x) == Without(s, x)
  {
    WithoutAbsent(Without(s, x), x);
  }

  // ---------------------------------------------------------------------------
  // updateElement and getElement

  /**
   * After `updateElement` the key is the most recently used one, every
   * other key keeps its place relative to the rest and its entry, and the
   * key's entry and last size record carry the new size and time.
   */
  lemma RefreshMovesToBack<K, H>(ix: Indices<K, H>, element: H, key: K, size: nat, now: int)
    ensures var r := Refresh(ix, element, key, size, now);
            && r.order != [] && r.order[|r.order| - 1] == key
            && Without(r.order, key) == Without(ix.order, key)
            && key in r.entries && r.entries[key].size == size && r.entries[key].lastAccess == now
            && (forall k :: k in ix.entries && k != key ==> k in r.entries && r.entries[k] == ix.entries[k])
            && r.bySize != [] && r.bySize[|r.bySize| - 1] == SizeRecord(size, key)
  {
    if key in ix.entries {
      WithoutSnoc(Without(ix.order, key), key);
      WithoutTwice(ix.order, key);
    } else {
      WithoutSnoc(ix.order, key);
    }
  }

  /** A new key adds one entry holding `element`, and its size to the total. */
  lemma RefreshNewKey<K, H>(ix: Indices<K, H>, element: H, key: K, size: nat, now: int)
    requires Coherent(ix) && key !in ix.entries
    ensures var r := Refresh(ix, element, key, size, now);
            && r.entries.Keys == ix.entries.Keys + {key}
            && |r.entries| == |ix.entries| + 1
            && r.entries[key].element == element
            && r.total == ix.total + size
            && (Accounted(ix) ==> Accounted(r))
  {
    RecordSumAppend(ix.bySize, SizeRecord(size, key));
  }

  /**
   * An existing key keeps the number of entries and the element it was
   * first registered with (the reference passed in is not stored); its old
   * size leaves the total and the new one enters it, and it has exactly one
   * size record, the last one.
   */
  lemma RefreshExistingKey<K, H>(ix: Indices<K, H>, element: H, key: K, size: nat, now: int)
    requires Coherent(ix) && key in ix.entries
    ensures var r := Refresh(ix, element, key, size, now);
            && r.entries.Keys == ix.entries.Keys
            && |r.entries| == |ix.entries|
            && r.entries[key].element == ix.entries[key].element
            && r.total == ix.total - ix.entries[key].size + size
            && (Accounted(ix) ==> Accounted(r))
            && (forall i :: 0 <= i < |r.bySize| ==> (r.bySize[i].key == key <==> i == |r.bySize| - 1))
  {
    var r := Refresh(ix, element, key, size, now);
    assert ix.entries.Keys == r.entries.Keys;
    assert Accounted(ix) ==> Accounted(r) by {
      RecordSumWithoutKey(ix.bySize, key, ix.entries[key].size);
      RecordSumAppend(WithoutKey(ix.bySize, key), SizeRecord(size, key));
    }
    RefreshLastRecordOnly(ix, element, key, size, now);
  }

  /** After `Refresh`, the only size record of the key is the last one. */
  lemma RefreshLastRecordOnly<K, H>(ix: Indices<K, H>, element: H, key: K, size: nat, now: int)
    requires Coherent(ix)
    ensures var r := Refresh(ix, element, key, size, now);
            forall i :: 0 <= i < |r.bySize| ==> (r.bySize[i].key == key <==> i == |r.bySize| - 1)
  {
    var r := Refresh(ix, element, key, size, now);
    RefreshCoherent(ix, element, key, size, now);
    var ks := RecordKeys(r.bySize);
    forall i | 0 <= i < |r.bySize| && r.bySize[i].key == key
      ensures i == |r.bySize| - 1
    {
      assert ks[i] == ks[|r.bySize| - 1];
    }
  }

  /**
   * `getElement` on a hit moves the key to the back and refreshes its time;
   * the keys, sizes, size index and total are untouched.
   */
  lemma TouchMovesToBack<K, H>(ix: Indices<K, H>, key: K, now: int)
    requires Coherent(ix) && key in ix.entries
    ensures var r := Touch(ix, key, now);
            && Coherent(r)
            && r.entries.Keys == ix.entries.Keys && r.bySize == ix.bySize && r.total == ix.total
            && |r.order| == |ix.order| && r.order[|r.order| - 1] == key
            && Without(r.order, key) == Without(ix.order, key)
            && r.entries[key] == ix.entries[key].(lastAccess := now)
  ensures forall k :: k in ix.entries && k != key ==> Touch(ix, key, now).entries[k] == ix.entries[k]
  {
    TouchCoherent(ix, key, now);
    WithoutLength(ix.order, key);
    WithoutSnoc(Without(ix.order, key), key);
    WithoutTwice(ix.order, key);
  }

  // ---------------------------------------------------------------------------
  // cleanup

  /**
   * The victim of a round is an entry: the least recently used one while
   * that one is not stale, otherwise one of the largest entries.
   */
  lemma VictimChoice<K, H>(ix: Indices<K, H>, now: int, threshold: int)
    requires Coherent(ix) && ix.order != []
    ensures ChooseVictim(ix, now, threshold) in ix.entries
    ensures !IsStale(ix.entries[ix.order[0]], now, threshold) ==> ChooseVictim(ix, now, threshold) == ix.order[0]
    ensures IsStale(ix.entries[ix.order[0]], now, threshold) ==>
              forall k :: k in ix.entries ==> ix.entries[k].size <= ix.entries[ChooseVictim(ix, now, threshold)].size
  {
    if IsStale(ix.entries[ix.order[0]], now, threshold) {
      StaleHasRecords(ix);
      StaleVictim(ix, now, threshold);
      var j := FirstLargest(ix.bySize);
      var ks := RecordKeys(ix.bySize);
      forall k | k in ix.entries
        ensures ix.entries[k].size <= ix.entries[ix.bySize[j].key].size
      {
        assert k in ks;
        var i :| 0 <= i < |ks| && ks[i] == k;
        assert ix.bySize[i].size <= ix.bySize[j].size;
      }
    }
  }

  /**
   * A pass only removes entries, never changes the ones it keeps, and only
   * hands live elements to their cleanup call, at most one per eviction.
   */
  lemma {:induction false} PassOnlyRemoves<K, H>(ix: Indices<K, H>, softLimit: int, threshold: int, now: int,
                                                  protected: Option<K>, live: set<H>)
    requires Coherent(ix)
    ensures var r := Pass(ix, softLimit, threshold, now, protected, live);
            && (forall k :: k in r.0.entries ==> k in ix.entries && r.0.entries[k] == ix.entries[k])
            && (forall h :: h in r.1 ==> h in live)
            && |r.1| + |r.0.order| <= |ix.order|
    decreases |ix.order|
  {
    if ix.order != [] && ix.total > softLimit {
      PassUnfold(ix, softLimit, threshold, now, protected, live);
      var step := Evict(ix, ChooseVictim(ix, now, threshold), protected, live);
      PassOnlyRemoves(step.0, softLimit, threshold, now, protected, live);
    }
  }

  /** The size of the protected entry when the pass evicted it, otherwise 0. */
  function ProtectedLoss<K, H>(ix: Indices<K, H>, after: Indices<K, H>, protected: Option<K>): nat
  {
    if protected.Some? && protected.value in ix.entries && protected.value !in after.entries
    then ix.entries[protected.value].size else 0
  }

  /** A pass keeps the list, the map and the size index in step. */
  lemma {:induction false} PassCoherent<K, H>(ix: Indices<K, H>, softLimit: int, threshold: int, now: int,
                                               protected: Option<K>, live: set<H>)
    requires Coherent(ix)
    ensures Coherent(Pass(ix, softLimit, threshold, now, protected, live).0)
    decreases |ix.order|
  {
    if ix.order != [] && ix.total > softLimit {
      PassUnfold(ix, softLimit, threshold, now, protected, live);
      var step := Evict(ix, ChooseVictim(ix, now, threshold), protected, live);
      PassCoherent(step.0, softLimit, threshold, now, protected, live);
    }
  }

  /**
   * The running total drifts above the sum of the remaining sizes by
   * exactly the size of the protected entry when the pass evicts it (that
   * size is never subtracted).
   */
  lemma {:induction false} PassDrift<K, H>(ix: Indices<K, H>, softLimit: int, threshold: int, now: int,
                                            protected: Option<K>, live: set<H>)
    requires Coherent(ix)
    ensures var r := Pass(ix, softLimit, threshold, now, protected, live).0;
            Drift(r) == Drift(ix) + ProtectedLoss(ix, r, protected)
    decreases |ix.order|
  {
    if ix.order != [] && ix.total > softLimit {
      var v := ChooseVictim(ix, now, threshold);
      PassUnfold(ix, softLimit, threshold, now, protected, live);
      EvictCoherent(ix, v, protected, live);
      var step := Evict(ix, v, protected, live);
      PassDrift(step.0, softLimit, threshold, now, protected, live);
      PassOnlyRemoves(step.0, softLimit, threshold, now, protected, live);
      var r := Pass(step.0, softLimit, threshold, now, protected, live).0;
      assert Pass(ix, softLimit, threshold, now, protected, live).0 == r;
      assert ProtectedLoss(ix, r, protected)
             == ProtectedLoss(step.0, r, protected) + (if protected == Some(v) then ix.entries[v].size else 0) by {
        assert step.0.entries == ix.entries - {v};
      }
    }
  }

  /** Without a protected entry, a pass keeps the total equal to the sum of the sizes. */
  lemma PassKeepsAccounted<K, H>(ix: Indices<K, H>, softLimit: int, threshold: int, now: int, live: set<H>)
    requires Coherent(ix) && Accounted(ix)
    ensures Accounted(Pass(ix, softLimit, threshold, now, None, live).0)
  {
    PassDrift(ix, softLimit, threshold, now, None, live);
  }

  /** `a` is a suffix of `b`. */
  ghost predicate IsSuffix<T>(a: seq<T>, b: seq<T>)
  {
    |a| <= |b| && a == b[|b| - |a|..]
  }

  lemma SuffixOfSelf<T>(s: seq<T>)
    ensures IsSuffix(s, s)
  {
    assert s[0..] == s;
  }

  lemma SuffixOfTail<T>(a: seq<T>, b: seq<T>)
    requires b != [] && IsSuffix(a, b[1..])
    ensures IsSuffix(a, b)
  {
    assert b[1..][|b| - 1 - |a|..] == b[|b| - |a|..];
  }

  /**
   * While no entry is stale, a pass is plain LRU: it evicts a prefix of the
   * recency list, oldest first.
   */
  lemma {:induction false} FreshPassEvictsOldest<K, H>(ix: Indices<K, H>, softLimit: int, threshold: int, now: int,
                                                        protected: Option<K>, live: set<H>)
    requires Coherent(ix)
    requires forall k :: k in ix.entries ==> !IsStale(ix.entries[k], now, threshold)
    ensures IsSuffix(Pass(ix, softLimit, threshold, now, protected, live).0.order, ix.order)
    decreases |ix.order|
  {
    if ix.order != [] && ix.total > softLimit {
      PassUnfold(ix, softLimit, threshold, now, protected, live);
      var v := ChooseVictim(ix, now, threshold);
      var step := Evict(ix, v, protected, live);
      assert v == ix.order[0] && step.0.order == ix.order[1..] by {
        assert ix.order[0] in ix.entries;
        WithoutFront(ix.order);
      }
      assert forall k :: k in step.0.entries ==> !IsStale(step.0.entries[k], now, threshold) by {
        assert step.0.entries == ix.entries - {v};
      }
      FreshPassEvictsOldest(step.0, softLimit, threshold, now, protected, live);
      SuffixOfTail(Pass(step.0, softLimit, threshold, now, protected, live).0.order, ix.order);
    } else {
      SuffixOfSelf(ix.order);
    }
  }

  /** A pass whose first eviction empties the cache or brings the total down to the soft limit stops after it. */
  lemma PassOneRound<K, H>(ix: Indices<K, H>, softLimit: int, threshold: int, now: int, protected: Option<K>,
                           live: set<H>, v: K, left: Indices<K, H>, cleaned: seq<H>)
    requires Coherent(ix) && ix.order != [] && ix.total > softLimit
    requires ChooseVictim(ix, now, threshold) == v
    requires Evict(ix, v, protected, live) == (left, cleaned)
    requires left.order == [] || left.total <= softLimit
    ensures Pass(ix, softLimit, threshold, now, protected, live) == (left, cleaned)
  {
    PassUnfold(ix, softLimit, threshold, now, protected, live);
    assert cleaned + [] == cleaned;
  }

  /**
   * The indices after inserting the elements `a`, `b` and `c` with sizes 20,
   * 20 and 25 under keys 1, 2 and 3 at time 0.
   */
  function ThreeEntries<H>(a: H, b: H, c: H): Indices<int, H>
  {
    Indices([1, 2, 3], map[1 := Entry(a, 20, 0), 2 := Entry(b, 20, 0), 3 := Entry(c, 25, 0)],
            [SizeRecord(20, 1), SizeRecord(20, 2), SizeRecord(25, 3)], 65)
  }

  lemma ThreeEntriesCoherent<H>(a: H, b: H, c: H)
    ensures Coherent(ThreeEntries(a, b, c))
  {
    var e: Indices<int, H> := EmptyIndices();
    RefreshCoherent(e, a, 1, 20, 0);
    var x := Refresh(e, a, 1, 20, 0);
    RefreshCoherent(x, b, 2, 20, 0);
    var y := Refresh(x, b, 2, 20, 0);
    RefreshCoherent(y, c, 3, 25, 0);
    ThreeInsertions(a, b, c);
  }

  /** The first insertion of the three, into the empty cache. */
  lemma FirstOfThree<H>(a: H)
    ensures Refresh(EmptyIndices(), a, 1, 20, 0) == Indices([1], map[1 := Entry(a, 20, 0)], [SizeRecord(20, 1)], 20)
  {
    assert [] + [1] == [1];
    assert [] + [SizeRecord(20, 1)] == [SizeRecord(20, 1)];
  }

  /** The second insertion of the three. */
  lemma SecondOfThree<H>(a: H, b: H)
    ensures Refresh(Indices([1], map[1 := Entry(a, 20, 0)], [SizeRecord(20, 1)], 20), b, 2, 20, 0)
            == Indices([1, 2], map[1 := Entry(a, 20, 0), 2 := Entry(b, 20, 0)], [SizeRecord(20, 1), SizeRecord(20, 2)], 40)
  {
    assert [1] + [2] == [1, 2];
    assert [SizeRecord(20, 1)] + [SizeRecord(20, 2)] == [SizeRecord(20, 1), SizeRecord(20, 2)];
  }

  /** The third insertion of the three. */
  lemma ThirdOfThree<H>(a: H, b: H, c: H)
    ensures Refresh(Indices([1, 2], map[1 := Entry(a, 20, 0), 2 := Entry(b, 20, 0)],
                            [SizeRecord(20, 1), SizeRecord(20, 2)], 40), c, 3, 25, 0)
            == ThreeEntries(a, b, c)
  {
    assert [1, 2] + [3] == [1, 2, 3];
    assert [SizeRecord(20, 1), SizeRecord(20, 2)] + [SizeRecord(25, 3)]
           == [SizeRecord(20, 1), SizeRecord(20, 2), SizeRecord(25, 3)];
  }

  lemma ThreeInsertions<H>(a: H, b: H, c: H)
    ensures Refresh(Refresh(Refresh(EmptyIndices(), a, 1, 20, 0), b, 2, 20, 0), c, 3, 25, 0) == ThreeEntries(a, b, c)
  {
    FirstOfThree(a);
    SecondOfThree(a, b);
    ThirdOfThree(a, b, c);
  }

  /** `ThreeEntries` without key 1. */
  function TwoEntries<H>(b: H, c: H): Indices<int, H>
  {
    Indices([2, 3], map[2 := Entry(b, 20, 0), 3 := Entry(c, 25, 0)], [SizeRecord(20, 2), SizeRecord(25, 3)], 45)
  }

  /** Within the threshold of the insertions nothing is stale, so the first round picks key 1. */
  lemma ThreeEntriesFirstVictim<H>(a: H, b: H, c: H, now: int)
    requires now <= 5
    ensures Coherent(ThreeEntries(a, b, c)) && ChooseVictim(ThreeEntries(a, b, c), now, 5) == 1
  {
    ThreeEntriesCoherent(a, b, c);
  }

  /** Evicting key 1 leaves keys 2 and 3 and a total of 45, and calls back `a` when it is alive. */
  lemma ThreeEntriesFirstEviction<H>(a: H, b: H, c: H, live: set<H>)
    ensures Evict(ThreeEntries(a, b, c), 1, None, live) == (TwoEntries(b, c), if a in live then [a] else [])
  {
    var ix := ThreeEntries(a, b, c);
    assert Without(ix.order, 1) == [2, 3];
    assert WithoutKey(ix.bySize, 1) == [SizeRecord(20, 2), SizeRecord(25, 3)];
    assert ix.entries - {1} == TwoEntries(b, c).entries;
  }

  /**
   * Soft limit 60, threshold 5 s: three entries of sizes 20, 20 and 25
   * inserted at time 0 total 65; a pass at most five seconds later evicts
   * only the oldest, calls its cleanup when it is alive, and leaves 45.
   */
  lemma ThreeEntriesScenario<H>(a: H, b: H, c: H, now: int, live: set<H>)
    requires now <= 5
    ensures Coherent(ThreeEntries(a, b, c))
    ensures Pass(ThreeEntries(a, b, c), 60, 5, now, None, live)
            == (TwoEntries(b, c), if a in live then [a] else [])
  {
    ThreeEntriesFirstVictim(a, b, c, now);
    ThreeEntriesFirstEviction(a, b, c, live);
    PassOneRound(ThreeEntries(a, b, c), 60, 5, now, None, live, 1, TwoEntries(b, c), if a in live then [a] else []);
  }

  /**
   * Soft limit 10, hard limit 15: inserting a single entry of size 20 into
   * an empty cache makes the pass evict that very entry, which is protected,
   * so the cache ends up empty with a running total of 20.
   */
  lemma ProtectedEvictionScenario()
    ensures var ix := Refresh(EmptyIndices(), 10, 1, 20, 0);
            && ix.total > 15
            && Pass(ix, 10, 5, 0, Some(1), {10}) == (Indices([], map[], [], 20), [])
  {
    var ix: Indices<int, int> := Indices([1], map[1 := Entry(10, 20, 0)], [SizeRecord(20, 1)], 20);
    assert Refresh(EmptyIndices(), 10, 1, 20, 0) == ix;
    RefreshCoherent(EmptyIndices(), 10, 1, 20, 0);
    var gone: Indices<int, int> := Indices([], map[], [], 20);
    assert ChooseVictim(ix, 0, 5) == 1;
    assert Evict(ix, 1, Some(1), {10}) == (gone, []) by {
      assert ix.entries - {1} == map[];
    }
    PassOneRound(ix, 10, 5, 0, Some(1), {10}, 1, gone, []);
  }

  // ---------------------------------------------------------------------------
  // The non-stale branch of cleanup as written

  /**
   * `mElementSizeMap.find(size)` followed by `erase`: removes the first
   * record of that size, whichever key it was inserted for.
   */
  function EraseFirstOfSize<K>(rs: seq<SizeRecord<K>>, size: nat): (r: seq<SizeRecord<K>>)
    ensures (forall i :: 0 <= i < |rs| ==> rs[i].size != size) ==> r == rs
    ensures (exists i :: 0 <= i < |rs| && rs[i].size == size) ==> |r| == |rs| - 1
  {
    if rs == [] then []
    else if rs[0].size == size then rs[1..]
    else [rs[0]] + EraseFirstOfSize(rs[1..], size)
  }

  /** A round of `cleanup` that evicts the front entry, erasing its size record as written. */
  function EvictFrontAsWritten<K, H>(ix: Indices<K, H>, protected: Option<K>, live: set<H>): (r: (Indices<K, H>, seq<H>))
    requires ix.order != [] && ix.order[0] in ix.entries
    ensures r.0.order == ix.order[1..] && r.0.entries.Keys == ix.entries.Keys - {ix.order[0]}
  {
    var v := ix.order[0];
    var e := ix.entries[v];
    var charged := protected != Some(v);
    (Indices(ix.order[1..], ix.entries - {v}, EraseFirstOfSize(ix.bySize, e.size),
             if charged then ix.total - e.size else ix.total),
     if charged && e.element in live then [e.element] else [])
  }

  /**
   * Two entries of size 5 under keys 1 and 2, holding `a` and `b`, inserted
   * in that order, then key 1 read again: the list is [2, 1] while the size
   * records are still (5, 1), (5, 2).
   */
  function EqualSizes<H>(a: H, b: H): Indices<int, H>
  {
    Indices([2, 1], map[1 := Entry(a, 5, 0), 2 := Entry(b, 5, 0)], [SizeRecord(5, 1), SizeRecord(5, 2)], 10)
  }

  /** The same two entries before key 1 is read again. */
  function EqualSizesInserted<H>(a: H, b: H): Indices<int, H>
  {
    Indices([1, 2], map[1 := Entry(a, 5, 0), 2 := Entry(b, 5, 0)], [SizeRecord(5, 1), SizeRecord(5, 2)], 10)
  }

  /** The first of the two size-5 insertions, into the empty cache. */
  lemma FirstOfTwo<H>(a: H)
    ensures Refresh(EmptyIndices(), a, 1, 5, 0) == Indices([1], map[1 := Entry(a, 5, 0)], [SizeRecord(5, 1)], 5)
  {
    assert [] + [1] == [1];
    assert [] + [SizeRecord(5, 1)] == [SizeRecord(5, 1)];
  }

  /** The second of the two size-5 insertions. */
  lemma SecondOfTwo<H>(a: H, b: H)
    ensures Refresh(Indices([1], map[1 := Entry(a, 5, 0)], [SizeRecord(5, 1)], 5), b, 2, 5, 0) == EqualSizesInserted(a, b)
  {
    assert [1] + [2] == [1, 2];
    assert [SizeRecord(5, 1)] + [SizeRecord(5, 2)] == [SizeRecord(5, 1), SizeRecord(5, 2)];
  }

  lemma EqualSizesInsertions<H>(a: H, b: H)
    ensures Refresh(Refresh(EmptyIndices(), a, 1, 5, 0), b, 2, 5, 0) == EqualSizesInserted(a, b)
  {
    FirstOfTwo(a);
    SecondOfTwo(a, b);
  }

  lemma EqualSizesTouched<H>(a: H, b: H)
    ensures 1 in EqualSizesInserted(a, b).entries
    ensures Touch(EqualSizesInserted(a, b), 1, 0) == EqualSizes(a, b)
  {
    var ix := EqualSizesInserted(a, b);
    WithoutFront(ix.order);
    assert ix.order[1..] == [2];
    assert ix.entries[1 := Entry(a, 5, 0)] == ix.entries;
  }

  lemma EqualSizesReached<H>(a: H, b: H)
    ensures Touch(Refresh(Refresh(EmptyIndices(), a, 1, 5, 0), b, 2, 5, 0), 1, 0) == EqualSizes(a, b)
  {
    EqualSizesInsertions(a, b);
    EqualSizesTouched(a, b);
  }

  lemma EqualSizesCoherent<H>(a: H, b: H)
    ensures Coherent(EqualSizes(a, b))
  {
    var e: Indices<int, H> := EmptyIndices();
    RefreshCoherent(e, a, 1, 5, 0);
    var x := Refresh(e, a, 1, 5, 0);
    RefreshCoherent(x, b, 2, 5, 0);
    EqualSizesInsertions(a, b);
    EqualSizesTouched(a, b);
    TouchCoherent(EqualSizesInserted(a, b), 1, 0);
  }

  /**
   * On `EqualSizes`, evicting the front key 2 as written erases the record
   * of key 1: the size index then names the gone key 2 and no longer names
   * the present key 1, and the next stale round would pick key 2, which is
   * not in the map.
   */
  lemma AsWrittenEraseLosesRecord<H>(a: H, b: H, live: set<H>)
    ensures !IsStale(EqualSizes(a, b).entries[2], 0, 5)
    ensures var after := EvictFrontAsWritten(EqualSizes(a, b), None, live).0;
            && after.bySize == [SizeRecord(5, 2)] && after.entries.Keys == {1}
            && !Coherent(after)
            && after.bySize[FirstLargest(after.bySize)].key !in after.entries
  {
    var after := EvictFrontAsWritten(EqualSizes(a, b), None, live).0;
    assert after.bySize == [SizeRecord(5, 2)];
    assert RecordKeys(after.bySize) == [2];
    assert 2 in RecordKeys(after.bySize) && 2 !in after.entries;
  }

  /** The same round with the (size, key) erase keeps the record of key 1 and the indices coherent. */
  lemma CorrectedEraseKeepsRecord<H>(a: H, b: H, live: set<H>)
    ensures Coherent(EqualSizes(a, b))
    ensures var after := Evict(EqualSizes(a, b), ChooseVictim(EqualSizes(a, b), 0, 5), None, live).0;
            && after.bySize == [SizeRecord(5, 1)] && after.entries.Keys == {1}
            && Coherent(after)
  {
    EqualSizesCoherent(a, b);
    var ix := EqualSizes(a, b);
    assert ChooseVictim(ix, 0, 5) == 2;
    assert WithoutKey(ix.bySize, 2) == [SizeRecord(5, 1)];
    EvictCoherent(ix, 2, None, live);
  }
}
