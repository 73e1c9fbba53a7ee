/**
 * The class `LRUCache` of Challenge-1/Task-2/LRUCache.hpp with every method
 * taken as one atomic step (the mutex, the background cleaner thread and
 * its condition variable are not modelled).
 *
 * The clock is the parameter `now`; whether a weakly referenced element is
 * still alive is the parameter `live`; the cleanup callbacks a method would
 * run are returned, in order, as the sequence `cleaned`.
 */
module LRU {
  import opened Wrappers
  import opened LRUSpec

  /**
   * The walk over the records of one size that looks for the record of
   * `key`: its position in the size index, or |rs| when there is none.
   */
  method FindRecord<K(==)>(rs: seq<SizeRecord<K>>, size: nat, key: K) returns (j: nat)
    ensures j <= |rs|
    ensures j < |rs| ==> rs[j] == SizeRecord(size, key)
    ensures forall i :: 0 <= i < j ==> rs[i] != SizeRecord(size, key)
  {
    j := 0;
    while j < |rs| && rs[j] != SizeRecord(size, key)
      invariant j <= |rs|
      invariant forall i :: 0 <= i < j ==> rs[i] != SizeRecord(size, key)
    {
      j := j + 1;
    }
  }

  /**
   * The insert-or-refresh step of `updateElement` on the values of the four
   * structures: a new key is appended everywhere; an existing key is
   * unlinked, its own size record is found and erased, and it is appended
   * again with the new size, keeping the element it was registered with.
   */
  method RefreshIndices<K(==), H>(ix: Indices<K, H>, element: H, key: K, size: nat, now: int)
    returns (next: Indices<K, H>)
    requires Coherent(ix)
    ensures next == Refresh(ix, element, key, size, now)
  {
    if key !in ix.entries {
      var ents := ix.entries[key := Entry(element, 0, 0)];
      next := Indices(ix.order + [key], ents[key := Entry(element, size, now)],
                      ix.bySize + [SizeRecord(size, key)], ix.total + size);
      assert ents[key := Entry(element, size, now)] == ix.entries[key := Entry(element, size, now)];
    } else {
      var e := ix.entries[key];
      var j := FindRecord(ix.bySize, e.size, key);
      RefreshFound(ix, element, key, size, now, j);
      next := Indices(Without(ix.order, key) + [key], ix.entries[key := Entry(e.element, size, now)],
                      ix.bySize[..j] + ix.bySize[j + 1..] + [SizeRecord(size, key)], ix.total - e.size + size);
    }
  }

  lemma AppendAssoc<T>(a: seq<T>, b: seq<T>, c: seq<T>)
    ensures a + (b + c) == (a + b) + c
  {
  }

  lemma AppendEmpty<T>(a: seq<T>)
    ensures [] + a == a && a + [] == a
  {
  }

  class LRUCache<K(==), H(==)> {
    var order: seq<K>                    // mElementList, oldest first
    var entries: map<K, Entry<H>>        // mElementMap
    var bySize: seq<SizeRecord<K>>       // mElementSizeMap
    var total: int                       // mTotalSize
    const softLimit: int
    const hardLimit: int
    const timeThreshold: int
    const cleaningInterval: int

    function State(): Indices<K, H>
      reads this
    {
      Indices(order, entries, bySize, total)
    }

    ghost predicate Valid()
      reads this
    {
      Coherent(State())
    }

    constructor (softSizeLimit: int, hardSizeLimit: int, timeThresholdSec: int, cleaningIntervalMs: int)
      ensures Valid() && State() == EmptyIndices()
      ensures softLimit == softSizeLimit && hardLimit == hardSizeLimit
      ensures timeThreshold == timeThresholdSec && cleaningInterval == cleaningIntervalMs
    {
      order, entries, bySize, total := [], map[], [], 0;
      softLimit, hardLimit := softSizeLimit, hardSizeLimit;
      timeThreshold, cleaningInterval := timeThresholdSec, cleaningIntervalMs;
    }

    /**
     * `updateElement`: `Refresh`, then, when the total is above the hard
     * limit, a cleanup pass that protects `key`.
     */
    method UpdateElement(element: H, key: K, size: nat, now: int, live: set<H>) returns (cleaned: seq<H>)
      requires Valid()
      modifies this
      ensures Valid()
      ensures Coherent(Refresh(old(State()), element, key, size, now))
      ensures Refresh(old(State()), element, key, size, now).total > hardLimit ==>
                (State(), cleaned) == Pass(Refresh(old(State()), element, key, size, now),
                                           softLimit, timeThreshold, now, Some(key), live)
      ensures Refresh(old(State()), element, key, size, now).total <= hardLimit ==>
                State() == Refresh(old(State()), element, key, size, now) && cleaned == []
    {
      RefreshCoherent(State(), element, key, size, now);
      Place(element, key, size, now);
      if total > hardLimit {
        cleaned := Cleanup(now, Some(key), live);
      } else {
        cleaned := [];
      }
    }

    /** The part of `updateElement` before the size check: the four indices after `Refresh`. */
    method Place(element: H, key: K, size: nat, now: int)
      requires Valid()
      modifies this
      ensures State() == Refresh(old(State()), element, key, size, now)
    {
      var next := RefreshIndices(State(), element, key, size, now);
      order, entries, bySize, total := next.order, next.entries, next.bySize, next.total;
    }

    /**
     * `cleanup`: evicts one victim at a time while there are entries and the
     * total is above the soft limit.
     */
    method Cleanup(now: int, protected: Option<K>, live: set<H>) returns (cleaned: seq<H>)
      requires Valid()
      modifies this
      ensures Valid()
      ensures (State(), cleaned) == Pass(old(State()), softLimit, timeThreshold, now, protected, live)
      ensures order == [] || total <= softLimit
    {
      cleaned := [];
      ghost var start := State();
      AppendEmpty(Pass(start, softLimit, timeThreshold, now, protected, live).1);
      while order != [] && total > softLimit
        invariant Valid()
        invariant Pass(start, softLimit, timeThreshold, now, protected, live).0
                  == Pass(State(), softLimit, timeThreshold, now, protected, live).0
        invariant Pass(start, softLimit, timeThreshold, now, protected, live).1
                  == cleaned + Pass(State(), softLimit, timeThreshold, now, protected, live).1
        decreases |order|
      {
        PassUnfold(State(), softLimit, timeThreshold, now, protected, live);
        var queued := EvictOne(now, protected, live);
        ghost var rest := Pass(State(), softLimit, timeThreshold, now, protected, live).1;
        AppendAssoc(cleaned, queued, rest);
        cleaned := cleaned + queued;
      }
      assert Pass(State(), softLimit, timeThreshold, now, protected, live) == (State(), []);
      AppendEmpty(cleaned);
    }

    /**
     * One round of the `cleanup` loop: picks the victim (the front of the
     * list, or the first largest entry when the front is stale) and removes
     * it from all three indices.
     */
    method EvictOne(now: int, protected: Option<K>, live: set<H>) returns (queued: seq<H>)
      requires Valid() && order != []
      modifies this
      ensures (State(), queued) == Evict(old(State()), ChooseVictim(old(State()), now, timeThreshold), protected, live)
    {
      var ix := State();
      var front := ix.order[0];
      if now - ix.entries[front].lastAccess > timeThreshold {
        StaleHasRecords(ix);
        StaleVictim(ix, now, timeThreshold);
        var j := FirstLargest(ix.bySize);
        var victim := ix.bySize[j].key;
        EvictAt(ix, j, protected, live);
        queued := Drop(victim, Without(ix.order, victim), ix.bySize[..j] + ix.bySize[j + 1..], protected, live);
      } else {
        var j := FindRecord(ix.bySize, ix.entries[front].size, front);
        FreshRound(ix, now, timeThreshold, protected, live, j);
        queued := Drop(front, ix.order[1..], ix.bySize[..j] + ix.bySize[j + 1..], protected, live);
      }
    }

    /**
     * The common tail of a `cleanup` round: the victim leaves the map and
     * the already spliced list and size index are stored; unless the victim
     * is protected, its size comes off the total and its element, when
     * alive, is queued for its cleanup call.
     */
    method Drop(victim: K, ord: seq<K>, recs: seq<SizeRecord<K>>, protected: Option<K>, live: set<H>)
      returns (queued: seq<H>)
      requires victim in entries
      modifies this
      ensures (State(), queued) == Evicted(old(State()), victim, ord, recs, protected, live)
    {
      var e := entries[victim];
      queued := [];
      var tot := total;
      if protected != Some(victim) {
        if e.element in live {
          queued := [e.element];
        }
        tot := tot - e.size;
      }
      order, entries, bySize, total := ord, entries - {victim}, recs, tot;
    }

    /**
     * `getElement`: on a hit the key's access time becomes `now`, it moves to
     * the back of the list, and its element is returned if still alive.
     */
    method GetElement(key: K, now: int, live: set<H>) returns (r: Option<H>)
      requires Valid()
      modifies this
      ensures Valid()
      ensures key !in old(entries) ==> r == None && State() == old(State())
      ensures key in old(entries) ==> State() == Touch(old(State()), key, now)
      ensures key in old(entries) ==>
                r == if old(entries)[key].element in live then Some(old(entries)[key].element) else None
    {
      if key in entries {
        var e := entries[key];
        TouchCoherent(State(), key, now);
        entries := entries[key := e.(lastAccess := now)];
        order := Without(order, key) + [key];
        r := if e.element in live then Some(e.element) else None;
      } else {
        r := None;
      }
    }

    /** `getNumberOfElements`: the length of the recency list, which is the number of entries. */
    function NumberOfElements(): (n: nat)
      reads this
      requires Valid()
      ensures n == |entries|
    {
      OrderLengthIsCount(State());
      |order|
    }
  }
}
