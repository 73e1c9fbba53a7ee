/**
 * The index structures of the LRU cache in Challenge-1/Task-2/LRUCache.hpp
 * and the pure specification of the operations on them.
 *
 * The cache keeps four things in step: the recency list (oldest key first),
 * the key-to-entry map, the size index (a multimap from size to key, kept
 * here as a sequence of records in insertion order, which is the order the
 * multimap keeps among records of equal size) and the running total.
 * `Indices` is a snapshot of those four; the functions below say what each
 * operation does to a snapshot, and the lemmas say what that means.
 */
module LRUSpec {
  import opened Wrappers

  /** `LRUCacheElement`: the non-owning reference, the size and the last access time. */
  datatype Entry<H> = Entry(element: H, size: nat, lastAccess: int)

  /** One record of the size index: a size and the key it was inserted for. */
  datatype SizeRecord<K> = SizeRecord(size: nat, key: K)

  /** `mElementList`, `mElementMap`, `mElementSizeMap` and `mTotalSize`. */
  datatype Indices<K, H> = Indices(order: seq<K>, entries: map<K, Entry<H>>, bySize: seq<SizeRecord<K>>, total: int)

  // ---------------------------------------------------------------------------
  // Sequences without repetition, and removal of one value

  ghost predicate Distinct<T>(s: seq<T>)
  {
    forall i, j :: 0 <= i < j < |s| ==> s[i] != s[j]
  }

  /** `s` with every occurrence of `x` taken out, the rest in the same order. */
  function Without<T(==)>(s: seq<T>, x: T): (r: seq<T>)
    ensures forall y :: y in r ==> y in s && y != x
    ensures forall y :: y in s && y != x ==> y in r
    ensures |r| <= |s|
  {
    if s == [] then []
    else if s[0] == x then Without(s[1..], x)
    else [s[0]] + Without(s[1..], x)
  }

  lemma {:induction false} WithoutDistinct<T>(s: seq<T>, x: T)
    requires Distinct(s)
    ensures Distinct(Without(s, x))
  {
    if s != [] {
      assert Distinct(s[1..]);
      WithoutDistinct(s[1..], x);
      if s[0] != x {
        var w := Without(s[1..], x);
        assert s[0] !in w;
        forall i, j | 0 <= i < j < |[s[0]] + w|
          ensures ([s[0]] + w)[i] != ([s[0]] + w)[j]
        {
          if i == 0 {
            assert ([s[0]] + w)[j] in w;
          }
        }
      }
    }
  }

  lemma {:induction false} WithoutAbsent<T>(s: seq<T>, x: T)
    requires x !in s
    ensures Without(s, x) == s
  {
    if s != [] {
      WithoutAbsent(s[1..], x);
      assert [s[0]] + s[1..] == s;
    }
  }

  /** Removing a value present once shortens the sequence by exactly one. */
  lemma {:induction false} WithoutLength<T>(s: seq<T>, x: T)
    requires Distinct(s) && x in s
    ensures |Without(s, x)| == |s| - 1
  {
    assert Distinct(s[1..]);
    if s[0] == x {
      assert x !in s[1..];
      WithoutAbsent(s[1..], x);
    } else {
      WithoutLength(s[1..], x);
    }
  }

  /** Removing the first value of a sequence without repetition is popping the front. */
  lemma WithoutFront<T>(s: seq<T>)
    requires Distinct(s) && s != []
    ensures Without(s, s[0]) == s[1..]
  {
    assert s[0] !in s[1..];
    WithoutAbsent(s[1..], s[0]);
  }

  // ---------------------------------------------------------------------------
  // The size index

  function RecordKeys<K>(rs: seq<SizeRecord<K>>): (ks: seq<K>)
    ensures |ks| == |rs|
    ensures forall i :: 0 <= i < |rs| ==> ks[i] == rs[i].key
  {
    if rs == [] then [] else [rs[0].key] + RecordKeys(rs[1..])
  }

  /** Sum of the sizes recorded in the size index. */
  function RecordSum<K>(rs: seq<SizeRecord<K>>): (n: nat)
  {
    if rs == [] then 0 else rs[0].size + RecordSum(rs[1..])
  }

  /** The size index without the records of key `k`: the (size, key) erase. */
  function WithoutKey<K(==)>(rs: seq<SizeRecord<K>>, k: K): seq<SizeRecord<K>>
  {
    if rs == [] then []
    else if rs[0].key == k then WithoutKey(rs[1..], k)
    else [rs[0]] + WithoutKey(rs[1..], k)
  }

  lemma {:induction false} WithoutKeyKeeps<K>(rs: seq<SizeRecord<K>>, k: K, x: SizeRecord<K>)
    requires x in WithoutKey(rs, k)
    ensures x in rs && x.key != k
  {
    if rs != [] && !(rs[0].key != k && x == rs[0]) {
      WithoutKeyKeeps(rs[1..], k, x);
    }
  }

  lemma {:induction false} RecordKeysWithoutKey<K>(rs: seq<SizeRecord<K>>, k: K)
    ensures RecordKeys(WithoutKey(rs, k)) == Without(RecordKeys(rs), k)
  {
    if rs != [] {
      RecordKeysWithoutKey(rs[1..], k);
      assert RecordKeys(rs)[1..] == RecordKeys(rs[1..]);
      if rs[0].key != k {
        assert RecordKeys([rs[0]] + WithoutKey(rs[1..], k)) == [rs[0].key] + RecordKeys(WithoutKey(rs[1..], k));
      }
    }
  }

  lemma {:induction false} RecordKeysAppend<K>(rs: seq<SizeRecord<K>>, r: SizeRecord<K>)
    ensures RecordKeys(rs + [r]) == RecordKeys(rs) + [r.key]
  {
  }

  lemma {:induction false} RecordSumAppend<K>(rs: seq<SizeRecord<K>>, r: SizeRecord<K>)
    ensures RecordSum(rs + [r]) == RecordSum(rs) + r.size
  {
    if rs != [] {
      assert (rs + [r])[1..] == rs[1..] + [r];
      RecordSumAppend(rs[1..], r);
    }
  }

  /** Erasing the one record of key `k` lowers the recorded sum by that record's size. */
  lemma {:induction false} RecordSumWithoutKey<K>(rs: seq<SizeRecord<K>>, k: K, size: nat)
    requires Distinct(RecordKeys(rs))
    requires forall i :: 0 <= i < |rs| && rs[i].key == k ==> rs[i].size == size
    requires k in RecordKeys(rs)
    ensures RecordSum(WithoutKey(rs, k)) == RecordSum(rs) - size
  {
    assert Distinct(RecordKeys(rs[1..])) && rs[0].key !in RecordKeys(rs[1..]) by {
      assert RecordKeys(rs)[1..] == RecordKeys(rs[1..]);
      DistinctTail(RecordKeys(rs));
    }
    if rs[0].key == k {
      WithoutKeyAbsent(rs[1..], k);
    } else {
      assert k in RecordKeys(rs[1..]) by {
        assert RecordKeys(rs) == [rs[0].key] + RecordKeys(rs[1..]);
      }
      RecordSumWithoutKey(rs[1..], k, size);
    }
  }

  lemma {:induction false} WithoutKeyAbsent<K>(rs: seq<SizeRecord<K>>, k: K)
    requires k !in RecordKeys(rs)
    ensures WithoutKey(rs, k) == rs
  {
    if rs != [] {
      assert RecordKeys(rs)[1..] == RecordKeys(rs[1..]);
      WithoutKeyAbsent(rs[1..], k);
      assert [rs[0]] + rs[1..] == rs;
    }
  }

  lemma DistinctTail<T>(s: seq<T>)
    requires Distinct(s) && s != []
    ensures Distinct(s[1..]) && s[0] !in s[1..]
  {
  }

  lemma SpliceCons<T>(s: seq<T>, j: nat)
    requires 0 < j < |s|
    ensures [s[0]] + (s[1..][..j - 1] + s[1..][j..]) == s[..j] + s[j + 1..]
  {
    assert s[1..][..j - 1] == s[1..j];
    assert s[1..][j..] == s[j + 1..];
    assert [s[0]] + s[1..j] == s[..j];
  }

  lemma WithoutKeyCons<K>(rs: seq<SizeRecord<K>>, k: K)
    requires rs != [] && rs[0].key != k
    ensures WithoutKey(rs, k) == [rs[0]] + WithoutKey(rs[1..], k)
  {
  }

  /** Erasing the record found at position `j` is erasing the records of its key. */
  lemma {:induction false} WithoutKeyAt<K>(rs: seq<SizeRecord<K>>, j: nat)
    requires Distinct(RecordKeys(rs)) && j < |rs|
    ensures WithoutKey(rs, rs[j].key) == rs[..j] + rs[j + 1..]
  {
    var ks := RecordKeys(rs);
    assert Distinct(RecordKeys(rs[1..])) && rs[0].key !in RecordKeys(rs[1..]) by {
      assert ks[1..] == RecordKeys(rs[1..]);
      DistinctTail(ks);
    }
    if j == 0 {
      WithoutKeyAbsent(rs[1..], rs[0].key);
      assert rs[..0] + rs[1..] == rs[1..];
    } else {
      var k := rs[j].key;
      assert rs[0].key != k by {
        assert ks[0] != ks[j];
      }
      assert rs[1..][j - 1] == rs[j];
      WithoutKeyAt(rs[1..], j - 1);
      WithoutKeyCons(rs, k);
      SpliceCons(rs, j);
    }
  }

  /** In a coherent cache, each entry's own record is in the size index. */
  lemma RecordFound<K, H>(ix: Indices<K, H>, key: K)
    requires Coherent(ix) && key in ix.entries
    ensures exists i :: 0 <= i < |ix.bySize| && ix.bySize[i] == SizeRecord(ix.entries[key].size, key)
  {
    var ks := RecordKeys(ix.bySize);
    assert key in ks;
    var i :| 0 <= i < |ks| && ks[i] == key;
    assert ix.bySize[i] == SizeRecord(ix.entries[key].size, key);
  }

  /** The position of the first record of the largest size: `equal_range(rbegin()->first).first`. */
  function FirstLargest<K>(rs: seq<SizeRecord<K>>): (j: nat)
    requires rs != []
    ensures j < |rs|
    ensures forall i :: 0 <= i < |rs| ==> rs[i].size <= rs[j].size
    ensures forall i :: 0 <= i < j ==> rs[i].size < rs[j].size
  {
    if |rs| == 1 then 0
    else
      var j := FirstLargest(rs[1..]);
      if rs[0].size >= rs[j + 1].size then 0 else j + 1
  }

  // ---------------------------------------------------------------------------
  // The invariant that ties the structures together

  /** `s` names every key of `m` exactly once and nothing else. */
  ghost predicate ListsKeys<K, V>(s: seq<K>, m: map<K, V>)
  {
    && Distinct(s)
    && (forall k :: k in s ==> k in m)
    && (forall k :: k in m ==> k in s)
  }

  /** The size index holds exactly one record per entry, carrying that entry's size. */
  ghost predicate RecordsMatch<K, H>(rs: seq<SizeRecord<K>>, entries: map<K, Entry<H>>)
  {
    && ListsKeys(RecordKeys(rs), entries)
    && (forall i :: 0 <= i < |rs| ==> rs[i].key in entries && entries[rs[i].key].size == rs[i].size)
  }

  /**
   * The recency list and the size index each name every entry exactly once,
   * each size record carries its entry's size, and the running total is at
   * least the sum of the recorded sizes (it exceeds it only after the
   * eviction of a protected key, see `Evict`).
   */
  ghost predicate Coherent<K, H>(ix: Indices<K, H>)
  {
    && ListsKeys(ix.order, ix.entries)
    && RecordsMatch(ix.bySize, ix.entries)
    && RecordSum(ix.bySize) <= ix.total
  }

  /** The running total equals the sum of the sizes of the entries. */
  ghost predicate Accounted<K, H>(ix: Indices<K, H>)
  {
    ix.total == RecordSum(ix.bySize)
  }

  /** How far the running total is above the sum of the entries' sizes. */
  function Drift<K, H>(ix: Indices<K, H>): int
  {
    ix.total - RecordSum(ix.bySize)
  }

  function EmptyIndices<K, H>(): (ix: Indices<K, H>)
    ensures Coherent(ix) && Accounted(ix)
  {
    Indices([], map[], [], 0)
  }

  /** Every entry is on the recency list once, so the list length is the entry count. */
  lemma {:induction false} OrderLengthIsCount<K, H>(ix: Indices<K, H>)
    requires Coherent(ix)
    ensures |ix.order| == |ix.entries|
  {
    DistinctCardinality(ix.order);
    assert (set k | k in ix.order) == ix.entries.Keys;
  }

  lemma {:induction false} DistinctCardinality<T>(s: seq<T>)
    requires Distinct(s)
    ensures |set x | x in s| == |s|
  {
    if s != [] {
      assert Distinct(s[1..]);
      DistinctCardinality(s[1..]);
      assert (set x | x in s) == (set x | x in s[1..]) + {s[0]};
      assert s[0] !in s[1..];
    }
  }

  // ---------------------------------------------------------------------------
  // updateElement and getElement

  /**
   * `updateElement` up to its hard-limit check: a new key gets a fresh entry
   * for `element`; an existing key keeps its entry, and with it the
   * reference it was first registered with, and loses its place in the list,
   * its size record and its size in the total. Either way the entry then
   * gets `size` and the access time `now` and goes to the back of the list.
   */
  function Refresh<K, H>(ix: Indices<K, H>, element: H, key: K, size: nat, now: int): (r: Indices<K, H>)
    ensures r.entries.Keys == ix.entries.Keys + {key}
    ensures r.entries[key].size == size && r.entries[key].lastAccess == now
    ensures r.order != [] && r.order[|r.order| - 1] == key
  {
    if key in ix.entries then
      var e := ix.entries[key];
      Indices(Without(ix.order, key) + [key], ix.entries[key := Entry(e.element, size, now)],
              WithoutKey(ix.bySize, key) + [SizeRecord(size, key)], ix.total - e.size + size)
    else
      Indices(ix.order + [key], ix.entries[key := Entry(element, size, now)],
              ix.bySize + [SizeRecord(size, key)], ix.total + size)
  }

  /** `getElement` on a hit: the key's access time becomes `now` and it moves to the back. */
  function Touch<K, H>(ix: Indices<K, H>, key: K, now: int): (r: Indices<K, H>)
    requires key in ix.entries
    ensures r.entries.Keys == ix.entries.Keys && r.bySize == ix.bySize && r.total == ix.total
    ensures r.order != [] && r.order[|r.order| - 1] == key && r.entries[key].lastAccess == now
  {
    var e := ix.entries[key];
    ix.(order := Without(ix.order, key) + [key], entries := ix.entries[key := e.(lastAccess := now)])
  }

  lemma RemoveThenSet<K, V>(m: map<K, V>, k: K, x: V)
    ensures (m - {k})[k := x] == m[k := x]
  {
  }

  lemma ListsKeysWithout<K, V>(s: seq<K>, m: map<K, V>, v: K)
    requires ListsKeys(s, m)
    ensures ListsKeys(Without(s, v), m - {v})
  {
    WithoutDistinct(s, v);
  }

  lemma ListsKeysAppend<K, V>(s: seq<K>, m: map<K, V>, k: K, x: V)
    requires ListsKeys(s, m) && k !in m
    ensures ListsKeys(s + [k], m[k := x])
  {
  }

  lemma ListsKeysToBack<K, V>(s: seq<K>, m: map<K, V>, k: K, x: V)
    requires ListsKeys(s, m) && k in m
    ensures ListsKeys(Without(s, k) + [k], m[k := x])
  {
    RemoveThenSet(m, k, x);
    ListsKeysWithout(s, m, k);
    ListsKeysAppend(Without(s, k), m - {k}, k, x);
  }

  lemma RecordsMatchWithout<K, H>(rs: seq<SizeRecord<K>>, entries: map<K, Entry<H>>, v: K)
    requires RecordsMatch(rs, entries)
    ensures RecordsMatch(WithoutKey(rs, v), entries - {v})
  {
    var r := WithoutKey(rs, v);
    RecordKeysWithoutKey(rs, v);
    ListsKeysWithout(RecordKeys(rs), entries, v);
    forall i | 0 <= i < |r|
      ensures r[i].key in entries - {v} && (entries - {v})[r[i].key].size == r[i].size
    {
      assert r[i] in r;
      WithoutKeyKeeps(rs, v, r[i]);
      var j :| 0 <= j < |rs| && rs[j] == r[i];
    }
  }

  lemma RecordsMatchAppend<K, H>(rs: seq<SizeRecord<K>>, entries: map<K, Entry<H>>, k: K, e: Entry<H>)
    requires RecordsMatch(rs, entries) && k !in entries
    ensures RecordsMatch(rs + [SizeRecord(e.size, k)], entries[k := e])
  {
    RecordKeysAppend(rs, SizeRecord(e.size, k));
    ListsKeysAppend(RecordKeys(rs), entries, k, e);
  }

  lemma RecordsMatchReplace<K, H>(rs: seq<SizeRecord<K>>, entries: map<K, Entry<H>>, k: K, e: Entry<H>)
    requires RecordsMatch(rs, entries) && k in entries
    ensures RecordsMatch(WithoutKey(rs, k) + [SizeRecord(e.size, k)], entries[k := e])
  {
    RemoveThenSet(entries, k, e);
    RecordsMatchWithout(rs, entries, k);
    RecordsMatchAppend(WithoutKey(rs, k), entries - {k}, k, e);
  }

  lemma RecordsMatchSameSize<K, H>(rs: seq<SizeRecord<K>>, entries: map<K, Entry<H>>, k: K, e: Entry<H>)
    requires RecordsMatch(rs, entries) && k in entries && entries[k].size == e.size
    ensures RecordsMatch(rs, entries[k := e])
  {
  }

  lemma RefreshCoherent<K, H>(ix: Indices<K, H>, element: H, key: K, size: nat, now: int)
    requires Coherent(ix)
    ensures Coherent(Refresh(ix, element, key, size, now))
    ensures Drift(Refresh(ix, element, key, size, now)) == Drift(ix)
  {
    var rec := SizeRecord(size, key);
    if key in ix.entries {
      var e := ix.entries[key];
      var e' := Entry(e.element, size, now);
      ListsKeysToBack(ix.order, ix.entries, key, e');
      RecordsMatchReplace(ix.bySize, ix.entries, key, e');
      RecordSumAppend(WithoutKey(ix.bySize, key), rec);
      RecordSumWithoutKey(ix.bySize, key, e.size);
    } else {
      var e' := Entry(element, size, now);
      ListsKeysAppend(ix.order, ix.entries, key, e');
      RecordsMatchAppend(ix.bySize, ix.entries, key, e');
      RecordSumAppend(ix.bySize, rec);
    }
  }

  lemma TouchCoherent<K, H>(ix: Indices<K, H>, key: K, now: int)
    requires Coherent(ix) && key in ix.entries
    ensures Coherent(Touch(ix, key, now))
    ensures Drift(Touch(ix, key, now)) == Drift(ix)
  {
    var e := ix.entries[key].(lastAccess := now);
    ListsKeysToBack(ix.order, ix.entries, key, e);
    RecordsMatchSameSize(ix.bySize, ix.entries, key, e);
  }

  // ---------------------------------------------------------------------------
  // cleanup

  predicate IsStale<H>(e: Entry<H>, now: int, threshold: int)
  {
    now - e.lastAccess > threshold
  }

  /**
   * The key one round of `cleanup` evicts: the oldest entry, unless that
   * entry is stale, in which case the first-recorded entry of the largest size.
   */
  function ChooseVictim<K, H>(ix: Indices<K, H>, now: int, threshold: int): (v: K)
    requires Coherent(ix) && ix.order != []
    ensures v in ix.entries
  {
    var front := ix.order[0];
    if IsStale(ix.entries[front], now, threshold) then
      assert front in RecordKeys(ix.bySize);
      ix.bySize[FirstLargest(ix.bySize)].key
    else front
  }

  /**
   * Evicting `v`: it leaves the list, the map and the size index. Unless it
   * is the protected key, its size comes off the total and, when its element
   * is still alive, the element is queued for its cleanup call. A protected
   * victim is removed just the same but its size stays in the total.
   */
  function Evict<K, H>(ix: Indices<K, H>, v: K, protected: Option<K>, live: set<H>): (r: (Indices<K, H>, seq<H>))
    requires v in ix.entries
    ensures r.0.entries.Keys == ix.entries.Keys - {v}
    ensures r.1 == [] || (r.1 == [ix.entries[v].element] && protected != Some(v) && ix.entries[v].element in live)
    ensures protected != Some(v) && ix.entries[v].element in live ==> r.1 == [ix.entries[v].element]
    ensures r.0.total == ix.total - (if protected != Some(v) then ix.entries[v].size else 0)
  {
    var e := ix.entries[v];
    var charged := protected != Some(v);
    (Indices(Without(ix.order, v), ix.entries - {v}, WithoutKey(ix.bySize, v),
             if charged then ix.total - e.size else ix.total),
     if charged && e.element in live then [e.element] else [])
  }

  lemma EvictCoherent<K, H>(ix: Indices<K, H>, v: K, protected: Option<K>, live: set<H>)
    requires Coherent(ix) && v in ix.entries
    ensures Coherent(Evict(ix, v, protected, live).0)
    ensures |Evict(ix, v, protected, live).0.order| == |ix.order| - 1
    ensures Drift(Evict(ix, v, protected, live).0) ==
            Drift(ix) + (if protected == Some(v) then ix.entries[v].size else 0)
  ensures v !in Evict(ix, v, protected, live).0.order && v !in RecordKeys(Evict(ix, v, protected, live).0.bySize)
  {
    ListsKeysWithout(ix.order, ix.entries, v);
    WithoutLength(ix.order, v);
    RecordsMatchWithout(ix.bySize, ix.entries, v);
    RecordSumWithoutKey(ix.bySize, v, ix.entries[v].size);
  }

  /** The result of evicting `v`, written out component by component. */
  function Evicted<K, H>(ix: Indices<K, H>, v: K, order: seq<K>, bySize: seq<SizeRecord<K>>,
                         protected: Option<K>, live: set<H>): (Indices<K, H>, seq<H>)
    requires v in ix.entries
  {
    var e := ix.entries[v];
    if protected != Some(v) then
      (Indices(order, ix.entries - {v}, bySize, ix.total - e.size), if e.element in live then [e.element] else [])
    else (Indices(order, ix.entries - {v}, bySize, ix.total), [])
  }

  lemma EvictUnfold<K, H>(ix: Indices<K, H>, v: K, protected: Option<K>, live: set<H>)
    requires v in ix.entries
    ensures Evict(ix, v, protected, live)
            == Evicted(ix, v, Without(ix.order, v), WithoutKey(ix.bySize, v), protected, live)
  {
  }

  /** A round whose front entry is not stale evicts the front, and its record is the one found at `j`. */
  lemma FreshEvictionStep<K, H>(ix: Indices<K, H>, now: int, threshold: int, j: nat)
    requires Coherent(ix) && ix.order != [] && !IsStale(ix.entries[ix.order[0]], now, threshold)
    requires j <= |ix.bySize|
    requires forall i :: 0 <= i < j ==> ix.bySize[i] != SizeRecord(ix.entries[ix.order[0]].size, ix.order[0])
    requires j < |ix.bySize| ==> ix.bySize[j] == SizeRecord(ix.entries[ix.order[0]].size, ix.order[0])
    ensures ChooseVictim(ix, now, threshold) == ix.order[0]
    ensures j < |ix.bySize|
    ensures Without(ix.order, ix.order[0]) == ix.order[1..]
    ensures WithoutKey(ix.bySize, ix.order[0]) == ix.bySize[..j] + ix.bySize[j + 1..]
  {
    RecordFound(ix, ix.order[0]);
    WithoutFront(ix.order);
    WithoutKeyAt(ix.bySize, j);
  }

  lemma FreshRound<K, H>(ix: Indices<K, H>, now: int, threshold: int, protected: Option<K>, live: set<H>, j: nat)
    requires Coherent(ix) && ix.order != [] && !IsStale(ix.entries[ix.order[0]], now, threshold)
    requires j <= |ix.bySize|
    requires forall i :: 0 <= i < j ==> ix.bySize[i] != SizeRecord(ix.entries[ix.order[0]].size, ix.order[0])
    requires j < |ix.bySize| ==> ix.bySize[j] == SizeRecord(ix.entries[ix.order[0]].size, ix.order[0])
    ensures j < |ix.bySize|
    ensures Evict(ix, ChooseVictim(ix, now, threshold), protected, live)
            == Evicted(ix, ix.order[0], ix.order[1..], ix.bySize[..j] + ix.bySize[j + 1..], protected, live)
  {
    FreshEvictionStep(ix, now, threshold, j);
    EvictUnfold(ix, ix.order[0], protected, live);
  }

  /** A stale front entry has its record, so the size index is not empty. */
  lemma StaleHasRecords<K, H>(ix: Indices<K, H>)
    requires Coherent(ix) && ix.order != []
    ensures ix.bySize != []
  {
    assert ix.order[0] in RecordKeys(ix.bySize);
  }

  /** A round whose front entry is stale evicts the owner of the first largest record. */
  lemma StaleVictim<K, H>(ix: Indices<K, H>, now: int, threshold: int)
    requires Coherent(ix) && ix.order != [] && IsStale(ix.entries[ix.order[0]], now, threshold)
    requires ix.bySize != []
    ensures ChooseVictim(ix, now, threshold) == ix.bySize[FirstLargest(ix.bySize)].key
    ensures ix.bySize[FirstLargest(ix.bySize)].key in ix.entries
  {
  }

  /** Evicting the owner of the record at `j` splices that record out of the size index. */
  lemma EvictAt<K, H>(ix: Indices<K, H>, j: nat, protected: Option<K>, live: set<H>)
    requires Distinct(RecordKeys(ix.bySize)) && j < |ix.bySize| && ix.bySize[j].key in ix.entries
    ensures Evict(ix, ix.bySize[j].key, protected, live)
            == Evicted(ix, ix.bySize[j].key, Without(ix.order, ix.bySize[j].key),
                       ix.bySize[..j] + ix.bySize[j + 1..], protected, live)
  {
    WithoutKeyAt(ix.bySize, j);
    EvictUnfold(ix, ix.bySize[j].key, protected, live);
  }

  /** An existing key's record, found at `j`, is the one `Refresh` splices out. */
  lemma RefreshFound<K, H>(ix: Indices<K, H>, element: H, key: K, size: nat, now: int, j: nat)
    requires Coherent(ix) && key in ix.entries
    requires j <= |ix.bySize|
    requires forall i :: 0 <= i < j ==> ix.bySize[i] != SizeRecord(ix.entries[key].size, key)
    requires j < |ix.bySize| ==> ix.bySize[j] == SizeRecord(ix.entries[key].size, key)
    ensures j < |ix.bySize|
    ensures Refresh(ix, element, key, size, now)
            == Indices(Without(ix.order, key) + [key],
                       ix.entries[key := Entry(ix.entries[key].element, size, now)],
                       ix.bySize[..j] + ix.bySize[j + 1..] + [SizeRecord(size, key)],
                       ix.total - ix.entries[key].size + size)
  {
    RecordFound(ix, key);
    WithoutKeyAt(ix.bySize, j);
  }

  /**
   * One `cleanup` pass: while there are entries and the total is above the
   * soft limit, evict `ChooseVictim`. The result is the final indices and the
   * elements whose cleanup is called, in eviction order.
   */
  function Pass<K, H>(ix: Indices<K, H>, softLimit: int, threshold: int, now: int,
                      protected: Option<K>, live: set<H>): (r: (Indices<K, H>, seq<H>))
    requires Coherent(ix)
    ensures r.0.order == [] || r.0.total <= softLimit
    ensures r.0.entries.Keys <= ix.entries.Keys && |r.1| <= |ix.order| - |r.0.order|
    decreases |ix.order|
  {
    if ix.order == [] || ix.total <= softLimit then (ix, [])
    else
      var v := ChooseVictim(ix, now, threshold);
      EvictCoherent(ix, v, protected, live);
      var step := Evict(ix, v, protected, live);
      var rest := Pass(step.0, softLimit, threshold, now, protected, live);
      (rest.0, step.1 + rest.1)
  }

  /** One unfolding of `Pass` when there is something to evict. */
  lemma PassUnfold<K, H>(ix: Indices<K, H>, softLimit: int, threshold: int, now: int,
                         protected: Option<K>, live: set<H>)
    requires Coherent(ix) && ix.order != [] && ix.total > softLimit
    ensures Coherent(Evict(ix, ChooseVictim(ix, now, threshold), protected, live).0)
    ensures |Evict(ix, ChooseVictim(ix, now, threshold), protected, live).0.order| < |ix.order|
    ensures var step := Evict(ix, ChooseVictim(ix, now, threshold), protected, live);
            Pass(ix, softLimit, threshold, now, protected, live)
            == (Pass(step.0, softLimit, threshold, now, protected, live).0,
                step.1 + Pass(step.0, softLimit, threshold, now, protected, live).1)
  {
    EvictCoherent(ix, ChooseVictim(ix, now, threshold), protected, live);
  }
}
