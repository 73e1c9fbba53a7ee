# Verified model of three components of CodingChallenges

This project models three parts of the C++ repository:

- **The size-aware LRU cache** (`Challenge-1/Task-2/LRUCache.hpp`). The cache keeps four things in step:
  - a recency list of keys, oldest first;
  - a map from key to entry (weak element reference, size, last access time);
  - a size multimap from size to key;
  - a running total of sizes.

  `updateElement` inserts or refreshes an entry. When the total then exceeds the hard limit, it runs a cleanup pass that protects the key just written. `cleanup` evicts one victim at a time while the total exceeds the soft limit. The victim is the oldest entry, unless that entry is stale; then it is the first-recorded entry of the largest size. `getElement` refreshes recency on a hit.
- **The bracket-repeat decompressor** (`Challenge-2/DecompressAlgo.cpp`, `Decompress`). It is a single pass over the input with:
  - escapes `\\`, `\[` and `\]`;
  - single-digit repeat groups `d[...]`;
  - failure on a bad escape, a stray bracket or an unclosed group.
- **The string value type** `UserDefined::String` (`Challenge-1/Task-1/String.hpp`). It is a length plus a NUL-terminated character buffer, with:
  - constructors, copy and move assignment;
  - `+`, `==` and `length`;
  - the line reader `>>`, which grows its buffer by doubling.

Files:

| file | module | contents |
|---|---|---|
| `wrappers.dfy` | `Wrappers` | `Option` |
| `lru_indices.dfy` | `LRUSpec` | The `Indices` snapshot of the four cache structures and the invariant `Coherent` that ties them together. `Refresh`, `Touch`, `ChooseVictim`, `Evict` and `Pass` say what each operation does to a snapshot, with the lemmas that show each one keeps `Coherent`. |
| `lru_cache.dfy` | `LRU` | The class `LRUCache`, whose fields are the four structures. Its methods change those fields in place and are proved against `LRUSpec`. |
| `lru_properties.dfy` | `LRUProperties` | What updates, lookups and cleanup passes guarantee; the concrete scenarios; the as-written size-index erase and its counterexample. |
| `decompress.dfy` | `Decompression` | The loop `Decompress`, proved equal to the recursive reference definition `Expand`/`ExpandGroup`. Also general lemmas, and one lemma per case of the in-file test table. |
| `string.dfy` | `UserDefined` | The class `String` over a `char` array. |

Modelling choices:
- The clock, `std::time(nullptr)`, is the parameter `now`. The model assumes it does not change during one cleanup pass.
- Whether a weakly referenced element is still alive is the parameter `live`, a set of elements.
- The cleanup callbacks a pass would run are returned in order as a sequence of elements, `cleaned`.
- The size multimap is a sequence of `(size, key)` records in insertion order. Among records of equal size, this is the order `std::multimap` keeps. So "the first record of the largest size" picks the same record as `equal_range(rbegin()->first).first`.
- The stream of `>>` is a sequence of characters. `ReadLine` returns what is left of it after the line and its newline.

## Model

| member | source | states |
|---|---|---|
| LRU.LRUCache.constructor | Challenge-1/Task-2/LRUCache.hpp:229-243 | The cache starts empty and coherent. The four limits hold the constructor arguments, which is what `getSoftMaxSize`, `getMaxSize`, `getTimeThreshold` and `getCleaningInterval` (lines 444-477) return. |
| LRU.LRUCache.UpdateElement | Challenge-1/Task-2/LRUCache.hpp:268-315 | The new state is `Refresh` of the old one. Exactly when the refreshed total exceeds the hard limit, it is followed by a cleanup pass protecting `key`, and the pass's callbacks are returned. Otherwise nothing is evicted and no callback runs. The cache stays coherent. |
| LRU.RefreshIndices | Challenge-1/Task-2/LRUCache.hpp:275-307 | Computes the four structures after the insert-or-refresh step. A new key is appended to the list and the size index, gets a fresh entry and adds its size to the total. An existing key is unlinked, its own size record is found and erased, and it is appended again with the new size. The result equals `Refresh` of the input. |
| LRU.LRUCache.Place | Challenge-1/Task-2/LRUCache.hpp:275-307 | The insert-or-refresh part of `updateElement`: the new-key branch inserts a fresh entry; the existing-key branch unlinks the key, takes its size off the total and erases its own size record, found by the `equal_range` walk. The resulting state equals `Refresh` of the old one. |
| LRU.FindRecord | Challenge-1/Task-2/LRUCache.hpp:288-295 | The walk over the records of one size returns the first position holding `(size, key)`, or the end when there is none. |
| LRU.LRUCache.Cleanup | Challenge-1/Task-2/LRUCache.hpp:322-394 | The loop ends with the list empty or the total at or under the soft limit. Its final state and callback list are those of `Pass`, and the cache stays coherent. |
| LRU.LRUCache.EvictOne | Challenge-1/Task-2/LRUCache.hpp:333-371 | One loop round removes exactly `ChooseVictim` from the list, the map and the size index. The stale branch unlinks the first record of the largest size and its key. The fresh branch pops the front and erases the front key's own record. |
| LRU.LRUCache.Drop | Challenge-1/Task-2/LRUCache.hpp:373-386 | The victim leaves the map. Unless it is the protected key, its size is subtracted and its element, when alive, is queued for cleanup. A protected victim is removed without either. |
| LRU.LRUCache.GetElement | Challenge-1/Task-2/LRUCache.hpp:407-427 | On a miss: returns None and changes nothing. On a hit: the state becomes `Touch` (new access time, key moved to the back), and the element is returned when alive, None otherwise. |
| LRU.LRUCache.NumberOfElements | Challenge-1/Task-2/LRUCache.hpp:434-437 | The list length equals the number of entries in the map. |
| LRUSpec.Refresh | Challenge-1/Task-2/LRUCache.hpp:275-307 | What `updateElement` does before its hard-limit check. A new key gets an entry for `element`. An existing key keeps its entry's element but loses its list position, its size record and its size in the total. Either way the key ends up in the map with `size` and time `now`, last in the list, and no other key is added. |
| LRUSpec.Touch | Challenge-1/Task-2/LRUCache.hpp:414-417 | `getElement` on a hit: the key's access time becomes `now` and the key goes last in the list. The key set, the size index and the total are unchanged. |
| LRUSpec.ChooseVictim | Challenge-1/Task-2/LRUCache.hpp:335-363 | The victim of one `cleanup` round. It is the front of the list unless the front entry is stale (`IsStale`: more than `threshold` seconds since its last access, line 335); then it is the owner of the first record of the largest size. Either way the victim is a key in the map. |
| LRUSpec.Evict | Challenge-1/Task-2/LRUCache.hpp:373-386 | The victim's key leaves the map, and no other key does. The returned callback list holds exactly the victim's element if and only if the victim is not protected and its element is alive; otherwise it is empty. The total drops by the victim's size unless the victim is protected, in which case it is unchanged. |
| LRUSpec.Pass | Challenge-1/Task-2/LRUCache.hpp:322-394 | The `cleanup` loop: evict `ChooseVictim` while there are entries and the total exceeds the soft limit. It ends with an empty list or the total at or under the soft limit. It keeps only keys it started with, and makes at most one callback per key it removed. |
| LRUSpec.EmptyIndices | Challenge-1/Task-2/LRUCache.hpp:160-163 | The empty cache is coherent, and its total is the sum of its sizes. |
| LRUSpec.OrderLengthIsCount | Challenge-1/Task-2/LRUCache.hpp:434-437 | In a coherent cache, the recency list has exactly as many keys as the map has entries. |
| LRUSpec.RecordFound | Challenge-1/Task-2/LRUCache.hpp:288-295 | In a coherent cache, every entry's own `(size, key)` record is in the size index, so the walk always finds it. |
| LRUSpec.FirstLargest | Challenge-1/Task-2/LRUCache.hpp:340-346 | Returns the position of a record of maximal size that no earlier record of that size precedes. |
| LRUSpec.RefreshCoherent | Challenge-1/Task-2/LRUCache.hpp:275-307 | `updateElement` keeps the list, the map and the size index in step. It leaves unchanged how far the total lies above the sum of the sizes. |
| LRUSpec.TouchCoherent | Challenge-1/Task-2/LRUCache.hpp:414-416 | The splice of `getElement` keeps the cache coherent and the total unchanged. |
| LRUSpec.EvictCoherent | Challenge-1/Task-2/LRUCache.hpp:373-386 | Evicting an entry keeps the cache coherent and shortens the list by one. The victim's key is left in neither the list nor the size index. The total drifts above the sum of the sizes by exactly the victim's size when the victim is protected. |
| LRUSpec.StaleHasRecords | Challenge-1/Task-2/LRUCache.hpp:340-343 | Whenever the list is not empty, the size index is not empty either, so the `equal_range` on its largest size is never empty. |
| LRUSpec.StaleVictim | Challenge-1/Task-2/LRUCache.hpp:336-351 | When the front entry is stale, the victim is the owner of the first record of the largest size. That owner is in the map, so `mElementMap[...]` at line 345 never default-inserts. |
| LRUSpec.FreshEvictionStep | Challenge-1/Task-2/LRUCache.hpp:353-365 | When the front entry is not stale, the victim is the front. Popping the front removes exactly that key. The front key's own record is found and erased. |
| LRUSpec.FreshRound | Challenge-1/Task-2/LRUCache.hpp:353-386 | A non-stale round equals `Evict` of the front, with the list popped and the found record spliced out. |
| LRUSpec.EvictAt | Challenge-1/Task-2/LRUCache.hpp:343-351 | Erasing the record at position `j` is erasing every record of its key. Doing so and unlinking the key equals `Evict` of that key. |
| LRUSpec.PassUnfold | Challenge-1/Task-2/LRUCache.hpp:331-388 | One round of the loop: when there are entries and the total exceeds the soft limit, the pass is the eviction of `ChooseVictim` followed by the pass on the result. The list shrinks, and coherence holds after the round. |
| LRUProperties.RefreshMovesToBack | Challenge-1/Task-2/LRUCache.hpp:298-307 | After `updateElement(key)`:<br>- `key` is last in the list;<br>- the other keys keep their relative order and their entries;<br>- the key's entry holds the new size and time;<br>- the last size record is `(size, key)`. |
| LRUProperties.RefreshNewKey | Challenge-1/Task-2/LRUCache.hpp:275-307 | A new key adds exactly one entry, holding the given element. The total rises by `size`, and a total equal to the sum of the sizes stays equal to it. |
| LRUProperties.RefreshExistingKey | Challenge-1/Task-2/LRUCache.hpp:281-307 | For an existing key:<br>- the key set and the entry count are unchanged;<br>- the total becomes old total − old size + new size;<br>- the key keeps the element it was first registered with;<br>- the key has exactly one size record, the last one. |
| LRUProperties.RefreshLastRecordOnly | Challenge-1/Task-2/LRUCache.hpp:288-303 | After `updateElement(key)` on a coherent cache, the last size record is the only one that belongs to `key`. |
| LRUProperties.TouchMovesToBack | Challenge-1/Task-2/LRUCache.hpp:407-427 | A hit moves the key to the back and leaves the others in order. It keeps the key set, the size index, the total and the list length, and changes only the key's access time: every other key keeps its entry. |
| LRUProperties.VictimChoice | Challenge-1/Task-2/LRUCache.hpp:336-371 | The victim is an entry. While the oldest entry is not stale, the victim is that oldest entry. When it is stale, the victim is an entry of maximal size. |
| LRUProperties.PassOnlyRemoves | Challenge-1/Task-2/LRUCache.hpp:373-393 | A pass only removes entries and leaves the kept ones unchanged. It calls back only live elements, at most one per evicted entry. |
| LRUProperties.PassCoherent | Challenge-1/Task-2/LRUCache.hpp:331-388 | A whole pass keeps the list, the map and the size index in step. |
| LRUProperties.PassDrift | Challenge-1/Task-2/LRUCache.hpp:373-385 | After a pass, the total exceeds the sum of the remaining sizes by the old excess, plus the protected entry's size when the pass evicted it. |
| LRUProperties.PassKeepsAccounted | Challenge-1/Task-2/LRUCache.hpp:322-394 | With no protected key, a pass keeps the total equal to the sum of the sizes. |
| LRUProperties.FreshPassEvictsOldest | Challenge-1/Task-2/LRUCache.hpp:353-365 | While no entry is stale, a pass is plain LRU: what it leaves is a suffix of the recency list. |
| LRUProperties.PassOneRound | Challenge-1/Task-2/LRUCache.hpp:331-388 | When the first round's eviction already leaves the list empty or the total at or under the soft limit, the pass is exactly that one eviction. |
| LRUProperties.ThreeInsertions | Challenge-1/Task-2/TestLRUCache.cpp:117-120 | Inserting any elements a, b and c with sizes 20, 20 and 25 under keys 1, 2 and 3 at time 0 gives these structures: the list [1, 2, 3], the records (20, 1), (20, 2), (25, 3), and a total of 65. |
| LRUProperties.ThreeEntriesCoherent | Challenge-1/Task-2/TestLRUCache.cpp:117-120 | The cache after those three insertions is coherent. |
| LRUProperties.ThreeEntriesFirstVictim | Challenge-1/Task-2/LRUCache.hpp:336-353 | Up to 5 s after those insertions nothing is stale, so the first victim is key 1, the oldest. |
| LRUProperties.ThreeEntriesFirstEviction | Challenge-1/Task-2/LRUCache.hpp:373-386 | Evicting key 1 with no protected key leaves [2, 3] with records (20, 2), (25, 3) and a total of 45. It calls back `a` exactly when `a` is alive. |
| LRUProperties.ThreeEntriesScenario | Challenge-1/Task-2/TestLRUCache.cpp:108-120 | With soft limit 60 and threshold 5 s, a pass at any time up to 5 s after the three insertions evicts only key 1. It leaves [2, 3] with total 45, and calls back `[a]` when `a` is alive and nothing otherwise. |
| LRUProperties.ProtectedEvictionScenario | Challenge-1/Task-2/LRUCache.hpp:311-314 | With soft limit 10 and hard limit 15, inserting one entry of size 20 into an empty cache makes the pass evict that protected entry. The cache is left empty with a total of 20, and no callback runs. |
| LRUProperties.EqualSizesInsertions | Challenge-1/Task-2/LRUCache.hpp:275-307 | Inserting any elements a and b under keys 1 and 2, both of size 5, gives the list [1, 2] with records (5, 1), (5, 2) and a total of 10. |
| LRUProperties.EqualSizesTouched | Challenge-1/Task-2/LRUCache.hpp:407-427 | Reading key 1 of that cache at time 0 moves it to the back, giving the list [2, 1] with the records unchanged. |
| LRUProperties.EqualSizesReached | Challenge-1/Task-2/LRUCache.hpp:275-307 | For any elements a and b, inserting keys 1 and 2, both of size 5, and then reading key 1 gives the list [2, 1] with size records (5, 1), (5, 2). |
| LRUProperties.EqualSizesCoherent | Challenge-1/Task-2/LRUCache.hpp:275-307 | That state is coherent. |
| LRUProperties.EraseFirstOfSize | Challenge-1/Task-2/LRUCache.hpp:361-366 | `find(size)` then `erase`, with libstdc++'s choice of the first record. With no record of that size, nothing changes. Otherwise exactly one record goes. |
| LRUProperties.EvictFrontAsWritten | Challenge-1/Task-2/LRUCache.hpp:356-386 | The non-stale round as written pops the front of the list and removes the front key, and only it, from the map. |
| LRUProperties.AsWrittenEraseLosesRecord | Challenge-1/Task-2/LRUCache.hpp:356-363 | For any elements and any live set, as written, evicting the fresh front key 2 of that state erases key 1's record. The size index then names the gone key 2 and no longer names key 1. The indices are no longer coherent, and the next stale round would pick a key not in the map. |
| LRUProperties.CorrectedEraseKeepsRecord | Challenge-1/Task-2/LRUCache.hpp:356-363 | For any elements and any live set, with the `(size, key)` erase, the same round keeps key 1's record, and the indices stay coherent. |
| Decompression.Decompress | Challenge-2/DecompressAlgo.cpp:17-118 | Returns true exactly when the input is well formed by `Expand`. On success the result is the expansion. On every failure `outStr` is left as it was. |
| Decompression.Expand | Challenge-2/DecompressAlgo.cpp:17-118 | The meaning of text read outside a group, or failure. An escape gives its character. A digit followed by `[` opens a group with that count. A stray `]` or `[` fails. Any other character stands for itself. |
| Decompression.ExpandGroup | Challenge-2/DecompressAlgo.cpp:27-104 | The meaning of text read inside an open group. An escape or a plain character joins the body. A digit followed by `[` replaces the count and keeps the body collected so far. A `]` writes the body count times, and reading continues outside the group. A `[` fails. The group succeeds only if a `]` follows. |
| Decompression.PlainIsIdentity | Challenge-2/DecompressAlgo.cpp:94-104 | Text without `\`, `[` and `]` decompresses to itself. |
| Decompression.PlainPrefix | Challenge-2/DecompressAlgo.cpp:94-104 | Plain text in front of the rest is copied through unchanged, unless its last character is a digit that opens a group. |
| Decompression.GroupOfPlainBody | Challenge-2/DecompressAlgo.cpp:66-83 | Inside a group, plain text up to `]` is collected and then written `count` times. |
| Decompression.GroupPlainPrefix | Challenge-2/DecompressAlgo.cpp:94-104 | Inside a group, plain text in front of the rest is appended to the group's body, unless its last character is a digit that opens a group. |
| Decompression.EscapeEmits | Challenge-2/DecompressAlgo.cpp:29-45 | Outside a group, after plain text, `\\`, `\[` and `\]` produce the escaped character and the expansion continues after it. |
| Decompression.BadEscapeFails | Challenge-2/DecompressAlgo.cpp:29-50 | Outside a group, after plain text, a backslash that ends the input or precedes any other character fails. |
| Decompression.GroupEscapeCollects | Challenge-2/DecompressAlgo.cpp:29-41 | Inside a group, after plain text, an escaped character is appended to the group's body. |
| Decompression.GroupBadEscapeFails | Challenge-2/DecompressAlgo.cpp:29-50 | Inside a group, after plain text, a backslash that ends the input or precedes any other character fails. |
| Decompression.RepeatGroup | Challenge-2/DecompressAlgo.cpp:54-83 | `d[body]` with a plain body expands to `body` written `d` times, followed by the expansion of the rest. |
| Decompression.UnclosedGroupFails | Challenge-2/DecompressAlgo.cpp:108-112 | A group with no `]` after it fails. |
| Decompression.StrayCloseFails | Challenge-2/DecompressAlgo.cpp:84-87 | A `]` after plain text, outside a group, fails. |
| Decompression.OpenWithoutCountFails | Challenge-2/DecompressAlgo.cpp:89-93 | A `[` after plain text that does not end in a digit fails. |
| Decompression.ExampleHello | Challenge-2/DecompressAlgo.cpp:136-137 | "" gives "", and "Hello" gives "Hello". |
| Decompression.ExampleSimpleGroup | Challenge-2/DecompressAlgo.cpp:138 | "5[x]" gives "xxxxx". |
| Decompression.ExampleOnlyLastDigitCounts | Challenge-2/DecompressAlgo.cpp:139 | "15[x]" gives "1xxxxx". |
| Decompression.ExampleZeroCount | Challenge-2/DecompressAlgo.cpp:140-145 | "0[x]0" gives "0" (line 140), and "0[hello]" gives "" (line 145). |
| Decompression.ExampleEmptyGroup | Challenge-2/DecompressAlgo.cpp:141 | "!9[]01" gives "!01". |
| Decompression.ExampleEscapedBackslash | Challenge-2/DecompressAlgo.cpp:142 | "\\\\a" gives "\\a". |
| Decompression.ExampleEscapedBrackets | Challenge-2/DecompressAlgo.cpp:143 | "\\[3[-]\\]" gives "[---]". |
| Decompression.ExampleGroupBeforeDigits | Challenge-2/DecompressAlgo.cpp:144 | The tail "2[l]o321" of line 144 gives "llo321". |
| Decompression.ExampleDigitsAroundGroup | Challenge-2/DecompressAlgo.cpp:144 | "123He2[l]o321" gives "123Hello321". |
| Decompression.ExampleSecondGroup | Challenge-2/DecompressAlgo.cpp:146 | The tail "3[ef]g" of line 146 gives "efefefg". |
| Decompression.ExampleFirstGroup | Challenge-2/DecompressAlgo.cpp:146 | The tail "2[cd]3[ef]g" of line 146 gives "cdcdefefefg". |
| Decompression.ExampleTwoGroups | Challenge-2/DecompressAlgo.cpp:146 | "a5b2[cd]3[ef]g" gives "a5bcdcdefefefg". |
| Decompression.ExampleEscapedGroupBody | Challenge-2/DecompressAlgo.cpp:147 | The tail "2[\\[X\\]]" of line 147 gives "[X][X]". |
| Decompression.ExampleEscapesInGroup | Challenge-2/DecompressAlgo.cpp:147 | "1[12]2[\\[X\\]]" gives "12[X][X]". |
| Decompression.ExampleBadEscapes | Challenge-2/DecompressAlgo.cpp:148-150 | "\\", "\\a" and "he\\llo" fail. |
| Decompression.ExampleUnclosed | Challenge-2/DecompressAlgo.cpp:151 | "hel1234567[lo" fails. |
| Decompression.ExampleStrayBrackets | Challenge-2/DecompressAlgo.cpp:152-155 | "hello]", "[hello]", "[" and "]" fail. |
| Decompression.ExampleNestedGroup | Challenge-2/DecompressAlgo.cpp:156 | "0[1[x]]" fails. |
| UserDefined.StrLen | Challenge-1/Task-1/String.hpp:56 | `strlen` is the index of the first NUL. |
| UserDefined.StrLenOfTerminated | Challenge-1/Task-1/String.hpp:56 | Characters without a NUL, followed by a NUL, measure their own length. |
| UserDefined.CStringRoundTrip | Challenge-1/Task-1/String.hpp:55-62 | A C-string built from NUL-free characters reads back as exactly those characters. |
| UserDefined.CopyChars | Challenge-1/Task-1/String.hpp:59 | `std::copy` writes the source into the destination from the given index and leaves every other cell as it was. |
| UserDefined.Terminated | Challenge-1/Task-1/String.hpp:55-62 | Returns a fresh buffer one cell longer than the characters, holding them followed by a NUL. |
| UserDefined.JoinTerminated | Challenge-1/Task-1/String.hpp:167-179 | Returns a fresh buffer of `|a| + |b| + 1` cells, holding `a`'s characters, then `b`'s, then a NUL. |
| UserDefined.String.constructor | Challenge-1/Task-1/String.hpp:41-46 | The default string has length 0 and a one-cell buffer holding NUL. |
| UserDefined.String.FromCString | Challenge-1/Task-1/String.hpp:55-62 | The length is `strlen(input)`, and the characters are the input's up to its first NUL. The fresh buffer is one cell longer, with a NUL at index `length`. |
| UserDefined.String.FromVector | Challenge-1/Task-1/String.hpp:71-77 | The length is the vector's size, and the characters are the vector's, NULs included, in a fresh NUL-terminated buffer. |
| UserDefined.String.Copy | Challenge-1/Task-1/String.hpp:87-94 | The copy has the source's length and characters, in a fresh NUL-terminated buffer. |
| UserDefined.String.Move | Challenge-1/Task-1/String.hpp:103-108 | The new string takes the source's length and buffer. The source is left with length 0 and no buffer. |
| UserDefined.String.CopyAssign | Challenge-1/Task-1/String.hpp:123-134 | The target gets the source's characters in a fresh buffer, and the source is unchanged. Self-assignment changes nothing. |
| UserDefined.String.MoveAssign | Challenge-1/Task-1/String.hpp:144-153 | The target takes the source's buffer and length, and the source is left with length 0 and no buffer. Self-move changes nothing. |
| UserDefined.String.Concat | Challenge-1/Task-1/String.hpp:167-179 | `a + b` is a fresh NUL-terminated string of length `a.length + b.length`: `a`'s characters followed by `b`'s. `a` and `b` are not modified. |
| UserDefined.String.Equals | Challenge-1/Task-1/String.hpp:189-192 | `==` is true if and only if the two strings have the same characters. |
| UserDefined.String.Length | Challenge-1/Task-1/String.hpp:203-206 | `length()` is the number of characters. |
| UserDefined.LineEnd | Challenge-1/Task-1/String.hpp:258 | The number of characters before the first newline: all of them if there is none. |
| UserDefined.LineEndOfLine | Challenge-1/Task-1/String.hpp:258 | A newline-free line followed by a newline measures its own length. |
| UserDefined.Grow | Challenge-1/Task-1/String.hpp:260-267 | The growth step returns a fresh buffer twice as large that keeps the `len` characters already read. |
| UserDefined.ReadBuffer | Challenge-1/Task-1/String.hpp:251-271 | The loop reads exactly the characters before the first newline, or all of them. A NUL cell is always left free. The buffer holds 16·2^k cells, and once it has grown it is at most twice the length. |
| UserDefined.String.ReadLine | Challenge-1/Task-1/String.hpp:251-278 | The string becomes the input up to, not including, the first newline, in a fresh NUL-terminated buffer, and the rest of the input is returned. The buffer holds 16·2^k cells, and it is at most twice the length once it has grown. |

## Left out

- Threads and locks are not modelled: the background cleaner thread, its condition variable and `mCleanerMutex`, the destructor's join, and `mCacheMutex`. Every method is one atomic step, and the scheduled `cleanup()` is an ordinary call of `Cleanup` with no protected key. The constructor's default `cleaningIntervalMs = 0` (LRUCache.hpp:229), which only decides whether the cleaner thread starts, is therefore not modelled either; the interval is stored as given.
- The clock is not modelled. `std::time(nullptr)` is the parameter `now`, taken to be the same for every round of one pass.
- `std::weak_ptr` and the virtual `LRUCacheCleanable::cleanup` are not modelled. Liveness is membership in `live`, and the callbacks are the returned sequence `cleaned`, in the order the vector `elementsToClean` is filled.
- `LOG`, `getCurrentTime`, `dumpCache` and `Utility.hpp` are left out; they only print.
- `LRUCacheElement`'s list iterator is not modelled. Unlinking a key from the list is `Without(order, key)` on the key sequence.
- Sizes and totals are unbounded integers, and sizes are `nat`. Negative sizes and `int64_t` overflow of `mTotalSize` are not modelled.
- LRU.LRUCache.UpdateElement: with `live` as a parameter, the model does not capture that the element passed in may expire between calls. For an existing key, the stored reference stays the one first registered, as in the source.
- `operator<<` and `c_str` of `String.hpp` (lines 213-216 and 245-249) are left out. They only hand out the buffer, which is null for a moved-from string.
- `unique_ptr` ownership, `new[]` and `delete[]` are not modelled. Buffers are Dafny arrays, and freeing is left to the garbage collector.
- UserDefined.String.ReadLine: the stream is a sequence of characters, so stream errors are not modelled. A read stops at the first newline or at the end of the sequence.
- LRU.LRUCache.EvictOne: the non-stale round erases the victim's own `(size, key)` record, not the record `find(size)` returns at line 362. The same goes for `LRUSpec.FreshEvictionStep`, `LRUSpec.FreshRound`, `LRUSpec.Pass` and every member built on them, including `LRU.LRUCache.Cleanup` and `LRU.LRUCache.UpdateElement`, whose cleanup passes run that round. The as-written erase is modelled separately by `LRUProperties.EvictFrontAsWritten` (see Findings).
- Lengths and indices in `Decompress` and `String` are unbounded. DecompressAlgo.cpp:19 keeps `inStr.size()` in an `int`, and String.hpp:57, 171 and 262 compute with `std::size_t`. Inputs long enough to overflow those are not modelled.
- `DecompressTest`, `main` and the two test programs are not modelled. Their cases appear only as the `Example*` and scenario lemmas.

Where the source's own doc comments suggest otherwise, the model follows the code:
- The doc comment of `updateElement` calls `element` "The element to be updated" (LRUCache.hpp:264). On an existing key, though, the method keeps the weak reference the key was first registered with (line 283). It does not store the element passed in, so a later `getElement` returns the old element. `LRUProperties.RefreshExistingKey` states this.
- The doc comment of `cleanup` calls its argument "The key of the element to be saved from purging" (LRUCache.hpp:320). Yet a protected victim is still removed from the list, the map and the size index (lines 373-385). Only its size subtraction and its callback are skipped, so the running total drifts above the sum of the sizes. `LRUProperties.PassDrift` measures this drift exactly, and `LRUProperties.ProtectedEvictionScenario` shows it. The class invariant therefore asks only that the total is at least that sum.

## Findings

| source | as written | input that shows it | evidently intended | confidence | as-written member | corrected member |
|---|---|---|---|---|---|---|
| Challenge-1/Task-2/LRUCache.hpp:356-363 | The non-stale branch of `cleanup` erases `mElementSizeMap.find(size)`. `std::multimap::find` returns some record of that size; in libstdc++ it is the first one, whichever key it belongs to. | Two entries of size 5 under keys 1 and 2, inserted in that order, then `getElement(1)`. The list is [2, 1], and the records are (5, 1), (5, 2). In libstdc++, evicting the front key 2 erases (5, 1). Key 1 loses its record while the gone key 2 keeps one. A later stale round then picks key 2, and `mElementMap[2]` at line 345 default-inserts a null entry, which is then dereferenced. | Erase the victim's own `(size, key)` record, as `updateElement` does at lines 288-295. | not executed | LRUProperties.AsWrittenEraseLosesRecord | LRUSpec.EvictCoherent |

The class `LRU.LRUCache` uses the corrected erase (`LRU.FindRecord` in `EvictOne`). With it, `LRUSpec.StaleVictim` shows that the victim of a stale round is always in the map, so the default-insert at line 345 cannot happen. `LRUProperties.CorrectedEraseKeepsRecord` shows the corrected round on the same input.
