# Task lists: the singly linked list and the separate-chaining hash table

This project models the two containers at the core of the task-list program, and proves properties of those models:

- `utils/singly_linked_list.c`: a generic singly linked list. It has `head`/`tail` pointers, a size counter and a one-cursor iterator. Element equality and the element transformations are caller callbacks.
- `utils/open_hash_table.c`: a hash table with separate chaining. It is an array of `size` bucket lists of `(key, value)` items plus an element counter. The `hash` and `key_equal` policies are injected by the caller. The default size is `DEFAULT_SIZE` = 100 (`utils/hash_table.h:7`).

Both containers are modelled imperatively, the way the C code is written.

- **`SinglyLinkedList.List`** is a class whose `elems: seq<T>` is the sequence of payloads reachable from `head`. `size` is the counter and `cursor` is the iterator's position.
  - Walking to node `i` is indexing `elems[i]`.
  - The in-place unlinking loops of `list_remove_all` and `list_remove_duplicates` are `while` loops. They rewrite `elems` node by node, with a `previous`/`node` position.
  - Each walk is specified by a function on sequences: `FirstIndex`, `Occurrences`, `Without`, `KeepingFirst`, `Mapped`, `Filtered`. The lemmas beside those functions prove what the walks promise.
- **`OpenHashTable.Table`** is a class over `buckets: array<seq<Entry>>`, with `size`, `count` and the two policies.
  - Its invariant (`TableInv`) covers four things:
    - the table has at least one bucket;
    - the policies are sound (`PolicyOk`);
    - every entry sits in the bucket `hash(key, size) % size`;
    - no bucket holds two equal keys.
  - Further invariants: `count` is the total chain length, and `size` is the array length.
  - There are two abstractions:
    - `Contents()`, all entries with bucket 0 first, each chain in order. `hash_table_entries` returns these entries in this order, though as copies rather than the table's own items (see Left out).
    - `Lookup(k)`, what a search for `k` finds.
  - `key_equal` is an equivalence supplied by the caller, not Dafny's `==`. So the abstraction is the lookup function rather than a `map`.
  - `LookupMeaning` proves that `Lookup(k)` is the value of the unique stored entry whose key equals `k`, or `None` when no such entry exists.

The policies the table relies on are stated once, as `PolicyOk`:

- `key_equal` is an equivalence;
- `hash` is never negative for a positive size;
- equal keys hash alike.

Each of the three has its own reason:

- The search in a bucket stops at the first item whose key equals the probe. Key equality must be an equivalence for equal keys to be looked up alike (`EqualKeysSameIndex`, `EqualKeysLookupAlike`). It is also needed for a lookup to mean "the stored entry with an equal key" (`LookupMeaning`, `SameEntriesSameLookup`).
- The hash must be non-negative because `%` in C truncates toward zero, so a negative hash would give a negative index. For non-negative values, C's `%` and Dafny's Euclidean `%` agree.
- Equal keys must hash alike so that they land in the same bucket.

## Model

| member | source | states |
|---|---|---|
| SinglyLinkedList.FirstIndex | utils/singly_linked_list.c:86-95 | the position of the first element that `equal` relates to the probe, every earlier element failing; -1 exactly when no element matches |
| SinglyLinkedList.Occurrences | utils/singly_linked_list.c:212-222 | the number of matching elements, at most the length, and zero exactly when no element matches |
| SinglyLinkedList.Without | utils/singly_linked_list.c:224-252 | what remains after unlinking every match: its length is the old length minus the number of matches |
| SinglyLinkedList.KeepingFirst | utils/singly_linked_list.c:254-286 | what remains after unlinking the later matches: length drops by the matches beyond the first |
| SinglyLinkedList.Filtered | utils/singly_linked_list.c:363-376 | the accepted elements in order, never longer than the list |
| SinglyLinkedList.Mapped | utils/singly_linked_list.c:349-361 | same length, element i is `func` of element i |
| SinglyLinkedList.FirstIndexSnoc | utils/singly_linked_list.c:107-116 | appending behind the tail leaves an existing first match in place and otherwise makes the new tail the first match exactly when it matches |
| SinglyLinkedList.FirstIndexSameView | utils/singly_linked_list.c:86-95 | the search result depends only on what `equal` answers for each node |
| SinglyLinkedList.FirstIndexAfterUnlink | utils/singly_linked_list.c:171-190 | unlinking a non-matching node keeps whether a match exists and which element the first match is |
| SinglyLinkedList.WithoutIsFiltered | utils/singly_linked_list.c:224-252 | removing every match equals filtering with the negated predicate |
| SinglyLinkedList.FilteredKeepsExactly | utils/singly_linked_list.c:363-376 | the filtered list holds only accepted elements of the list, each accepted element exactly as often as in the list |
| SinglyLinkedList.WithoutLeavesNoMatch | utils/singly_linked_list.c:224-252 | after removing all matches no element matches, and every remaining element was there before |
| SinglyLinkedList.KeepingFirstKeepsFirstMatch | utils/singly_linked_list.c:254-286 | removing duplicates keeps the list up to and including the first match unchanged and unlinks every later match; with no match the list is unchanged |
| SinglyLinkedList.KeepingFirstNoMatch | utils/singly_linked_list.c:254-286 | a list without a match is left unchanged |
| SinglyLinkedList.KeepingFirstBehindMatch | utils/singly_linked_list.c:254-286 | behind a prefix holding a match, every further match is unlinked and the rest kept in order |
| SinglyLinkedList.RemoveAllStep | utils/singly_linked_list.c:229-249 | one step of the `previous`/`node` walk: unlinking a match or stepping past a non-match keeps the visited/rest decomposition |
| SinglyLinkedList.RemoveDuplicatesStep | utils/singly_linked_list.c:259-283 | the same for the duplicate walk, which unlinks a match only when one was met before |
| SinglyLinkedList.FindInChain | utils/singly_linked_list.c:86-95 | the linear walk returns the first matching position or -1 |
| SinglyLinkedList.List.constructor | utils/singly_linked_list.c:34-41 | a new list is empty with the cursor at the head |
| SinglyLinkedList.List.IsEmpty | utils/singly_linked_list.c:53-55 | true exactly when the list has no element |
| SinglyLinkedList.List.Size | utils/singly_linked_list.c:57-59 | the number of elements |
| SinglyLinkedList.List.GetFirst | utils/singly_linked_list.c:61-66 | the head element, NULL exactly when empty |
| SinglyLinkedList.List.GetLast | utils/singly_linked_list.c:68-73 | the tail element, NULL exactly when empty |
| SinglyLinkedList.List.Get | utils/singly_linked_list.c:75-84 | element `position` when it is in range, NULL exactly when it is not (negative positions included) |
| SinglyLinkedList.List.Find | utils/singly_linked_list.c:86-95 | the least matching index or -1, list unchanged |
| SinglyLinkedList.List.InsertFirst | utils/singly_linked_list.c:97-105 | the element is prepended, the rest keep their order |
| SinglyLinkedList.List.InsertLast | utils/singly_linked_list.c:107-116 | the element is appended, the rest keep their order |
| SinglyLinkedList.List.Insert | utils/singly_linked_list.c:118-136 | for 0 <= position <= size the element lands at `position` with later elements shifted right; otherwise nothing changes |
| SinglyLinkedList.List.RemoveFirst | utils/singly_linked_list.c:138-151 | returns and unlinks the head; NULL and no change when empty |
| SinglyLinkedList.List.RemoveLast | utils/singly_linked_list.c:153-169 | returns and unlinks the tail; NULL and no change when empty |
| SinglyLinkedList.List.Remove | utils/singly_linked_list.c:171-190 | for an in-range position returns that element and deletes only it; otherwise NULL and no change |
| SinglyLinkedList.List.MakeEmpty | utils/singly_linked_list.c:192-202 | the list becomes empty |
| SinglyLinkedList.List.ToArray | utils/singly_linked_list.c:204-210 | the first `size` slots hold the elements in order, the other slots are untouched |
| SinglyLinkedList.List.CountAll | utils/singly_linked_list.c:212-222 | the number of matching elements |
| SinglyLinkedList.List.RemoveAll | utils/singly_linked_list.c:224-252 | every match is unlinked, the others kept in order; returns the count CountAll gives beforehand, which is also how much the size drops |
| SinglyLinkedList.List.RemoveDuplicates | utils/singly_linked_list.c:254-286 | the first match is kept and later matches unlinked; returns the number of matches including the kept one |
| SinglyLinkedList.Join | utils/singly_linked_list.c:288-301 | a fresh list holding `list1` followed by `list2` |
| SinglyLinkedList.Between | utils/singly_linked_list.c:317-327 | the elements at positions `start_idx` to `end_idx` inclusive, a negative start counting as the head: its length is the number of those positions and element t is the chain's element at the first position plus t |
| SinglyLinkedList.List.SublistBetween | utils/singly_linked_list.c:312-329 | NULL when `end_idx < start_idx`; otherwise a fresh list of the elements from `start_idx` (the head when negative) to `end_idx` inclusive, empty when `end_idx` is negative |
| SinglyLinkedList.List.Sublist | utils/singly_linked_list.c:331-347 | a fresh list whose element t is the element at `indexes[t]`; NULL for a non-positive count |
| SinglyLinkedList.List.Map | utils/singly_linked_list.c:349-361 | a fresh list of `func` applied in order; NULL for a NULL `func` |
| SinglyLinkedList.List.Filter | utils/singly_linked_list.c:363-376 | a fresh list of the accepted elements in order; NULL for a NULL `func` |
| SinglyLinkedList.List.IteratorStart | utils/singly_linked_list.c:378-380 | the cursor is set to the head |
| SinglyLinkedList.List.IteratorHasNext | utils/singly_linked_list.c:382-384 | true exactly when the cursor designates a node |
| SinglyLinkedList.List.IteratorGetNext | utils/singly_linked_list.c:386-393 | yields the element under the cursor and advances it; NULL and no move past the end |
| SinglyLinkedList.RemoveLastAsWritten | utils/singly_linked_list.c:153-169 | the C removal returns the old tail and moves the counter back by one. With one element the list is emptied; with two or more the reachable chain is kept as it was |
| SinglyLinkedList.CountAllAsWritten | utils/singly_linked_list.c:212-222 | `list_count_all` chases `next` until NULL: it counts at least the matches among the first `size` nodes, and exactly those when no stale node trails the tail |
| SinglyLinkedList.OccurrencesConcat | utils/singly_linked_list.c:212-222 | counting over a chain split in two is the sum of the counts of the two parts |
| SinglyLinkedList.StaleTailStillCounted | utils/singly_linked_list.c:161-166 | after that removal the `next`-chasing count still includes the removed element |
| SinglyLinkedList.StaleTailExample | utils/singly_linked_list.c:212-222 | for [1, 2] the C count of 2 after removing the tail is 1 while the list holds no 2 |
| OpenHashTable.EqualItemByKey | utils/open_hash_table.c:41-45 | `_equal_item` compares items by their keys alone. Under an equivalence, items with equal keys answer alike for every probe, and each such item matches the other's key |
| OpenHashTable.BucketOf | utils/open_hash_table.c:113 | the bucket index `hash(key, size) % size` lies in 0..size-1 |
| OpenHashTable.Flatten | utils/open_hash_table.c:199-210 | the entries bucket by bucket; its length is the sum of the chain lengths |
| OpenHashTable.FlattenAppend | utils/open_hash_table.c:118-120 | appending one item to a chain adds exactly that entry and one to the total |
| OpenHashTable.FlattenUnlink | utils/open_hash_table.c:130-131 | unlinking one item removes exactly that entry and one from the total |
| OpenHashTable.FlattenUpdate | utils/open_hash_table.c:161 | replacing a chain swaps its entries in the table's contents |
| OpenHashTable.FlattenSetEntry | utils/open_hash_table.c:161 | replacing one item swaps exactly that entry in the table's contents and keeps the total |
| OpenHashTable.EmptyBuckets | utils/open_hash_table.c:71-77 | a table of empty buckets has no entries |
| OpenHashTable.EntriesKeysUnique | utils/open_hash_table.c:112-121 | a valid table never holds two entries with equal keys, across all buckets |
| OpenHashTable.LookupMeaning | utils/open_hash_table.c:137-148 | a lookup finds the value of the stored entry with an equal key, and finds nothing exactly when no stored key is equal |
| OpenHashTable.EqualKeysLookupAlike | utils/open_hash_table.c:138-141 | equal keys are looked up alike |
| OpenHashTable.AbsentEqualKeys | utils/open_hash_table.c:126-129 | when a key is not found, no key equal to it is found |
| OpenHashTable.SameEntriesSameLookup | utils/open_hash_table.c:212-230 | two valid tables with the same entries answer every lookup alike, whatever their sizes |
| OpenHashTable.AbsentKey | utils/open_hash_table.c:115 | a key equal to no held entry is not found |
| OpenHashTable.NotMetBefore | utils/open_hash_table.c:217-223 | each entry's key equals none of the keys met before it in bucket and chain order |
| OpenHashTable.InsertKeepsInv | utils/open_hash_table.c:112-121 | appending an absent key to its bucket keeps the invariant |
| OpenHashTable.InsertLookup | utils/open_hash_table.c:112-121 | after the append, equal keys find the new value and other lookups are unchanged |
| OpenHashTable.InsertStep | utils/open_hash_table.c:112-121 | invariant kept, one more entry, exactly the new entry added, lookups as above |
| OpenHashTable.UnlinkKeepsInv | utils/open_hash_table.c:130 | unlinking any item keeps the invariant |
| OpenHashTable.UnlinkLookup | utils/open_hash_table.c:123-135 | after unlinking the found item, equal keys are not found and other lookups are unchanged |
| OpenHashTable.RemoveStep | utils/open_hash_table.c:123-135 | invariant kept, one entry fewer, exactly the found entry gone, lookups as above |
| OpenHashTable.SetValueKeepsInv | utils/open_hash_table.c:161 | replacing an item's value keeps the invariant |
| OpenHashTable.SetValueLookup | utils/open_hash_table.c:150-163 | after the replacement equal keys find the new value and other lookups are unchanged |
| OpenHashTable.UpdateStep | utils/open_hash_table.c:150-163 | invariant and total kept; the entry multiset changes only in that the found entry is replaced by one with the same key and the new value; lookups as above |
| OpenHashTable.FindAsWritten | utils/open_hash_table.c:115 | the search as written, with the raw policy applied to an item, still yields -1 or a chain position |
| OpenHashTable.BucketInsertAsWritten | utils/open_hash_table.c:112-121 | insertion as written grows the chain by at most one |
| OpenHashTable.InsertAsWrittenDuplicates | utils/open_hash_table.c:112-135 | with the raw policy the stored equal key is not found, so insert appends a duplicate key and remove reports the key absent |
| OpenHashTable.AppendChain | utils/open_hash_table.c:176-181 | the cursor walk of one chain appends the mapped entries in chain order |
| OpenHashTable.Table.constructor | utils/open_hash_table.c:56-81 | `size` is DEFAULT_SIZE for a non-positive request and the request otherwise; count 0; every bucket empty |
| OpenHashTable.Table.Insert | utils/open_hash_table.c:112-121 | an absent key is appended at the tail of its bucket and count grows by one; a present key changes nothing; exactly that entry is added; equal keys then find the value, other lookups are unchanged |
| OpenHashTable.Table.Remove | utils/open_hash_table.c:123-135 | a present key's entry is unlinked from its bucket alone, count drops by one and its value is returned; an absent key returns NULL and changes nothing; equal keys then find nothing, other lookups unchanged |
| OpenHashTable.Table.UnlinkFromBucket | utils/open_hash_table.c:130 | only the one item of the one bucket is unlinked |
| OpenHashTable.Table.Get | utils/open_hash_table.c:137-148 | the value stored under the key, or NULL, with the table unchanged |
| OpenHashTable.Table.Update | utils/open_hash_table.c:150-163 | a present key gets the new value in place and the old one is returned, count and other entries unchanged; an absent key returns NULL with no change |
| OpenHashTable.Table.Size | utils/open_hash_table.c:165-167 | the number of stored entries |
| OpenHashTable.Table.IsEmpty | utils/open_hash_table.c:169-171 | true exactly when no entry is stored |
| OpenHashTable.Table.Keys | utils/open_hash_table.c:173-184 | a fresh list of the keys, bucket 0 first and each chain in order; its length is count |
| OpenHashTable.Table.Values | utils/open_hash_table.c:186-197 | the values in the same order, so element i belongs to the same entry as key i |
| OpenHashTable.Table.Entries | utils/open_hash_table.c:199-210 | the entries in the same order |
| OpenHashTable.Table.InsertChain | utils/open_hash_table.c:218-223 | re-inserting one chain of distinct keys adds all of its entries |
| OpenHashTable.Table.Rehash | utils/open_hash_table.c:212-230 | a non-positive size is a no-op; otherwise the table gets `new_size` fresh buckets with the same entries, the same count and the same answer to every lookup |

## Left out

- Memory management is not modelled: `malloc`/`free`, `list_destroy`, `hash_table_destroy`, `_destroy_item` and the `key_destroy`/`value_destroy`/`free_element` hooks. The release defects therefore have no counterpart in this model:
  - `hash_table_destroy` releases every key twice (`utils/open_hash_table.c:97-99` and `:86`).
  - `hash_table_get` releases the caller's probe key (`:142`).
  - `hash_table_rehash` writes to the table header after releasing it (`:225-229`).
  - `hash_table_rehash` calls `hash_table_destroy` (`:225`). That passes every key just moved into the new buckets to `key_destroy` twice, so the rehashed table holds released keys.
- The default string policies `_default_hash` and `_default_key_equal` (`utils/open_hash_table.c:25-39`) are not modelled, because they depend on C strings and signed `char`/`int` overflow. The table takes its policies as parameters that satisfy `PolicyOk`, so a NULL policy has no counterpart.
- `list_print` is console output and is not modelled. `controllers/task_list.c` is not part of this model.
- Sizes and counters are unbounded integers. `size_t`/`int` overflow is not modelled. The one signed/unsigned comparison that matters, a negative `position` compared with `size`, is modelled: such a position is out of range.
- The list cursor is a position rather than a node pointer, and this loses part of the C behaviour:
  - A new list's cursor is position 0. In C, `list_create` sets the iterator to NULL (`utils/singly_linked_list.c:39`), and insertions leave it there. So in the model, after `list_create` and `list_insert_last`, `IteratorHasNext` is true before any `IteratorStart`; in C it is false.
  - After an insertion or removal before the cursor, the model's cursor designates a different element than the node the C iterator still points to.
  - The hash table starts every walk with `list_iterator_start` and never changes a list during a walk, so the table's behaviour is not affected.
- `OpenHashTable.Table` keeps its buckets as values, so the bucket cursors that `keys`/`values`/`entries`/`rehash` move are not modelled.
- Aliasing of stored items is not modelled. `hash_table_entries` returns the table's own `Item` pointers (`utils/open_hash_table.c:206`). A later `hash_table_update` (`:161`) therefore shows through a list of entries obtained earlier. `OpenHashTable.Table.Entries` returns copies.
- OpenHashTable.Table.Rehash: the contract gives the new contents only as a multiset, together with the lookups. The re-insertion at `utils/open_hash_table.c:217-223` also fixes the order within each new bucket (old bucket order, then chain order), which a later `hash_table_keys` exposes; that order is not stated.
- `get` and `update` wrap the probe key in an `Item` before searching (`utils/open_hash_table.c:140-141`, `:153-154`). The model compares the probe key with each entry's key directly, which is what `_equal_item` computes.
- SinglyLinkedList.List.SublistBetween: the C function does no bounds check. The model requires `end_idx` below the size whenever `start_idx <= end_idx`; those are the inputs on which C follows a NULL `next`. Negative starts and ends are modelled.
- SinglyLinkedList.List.Sublist: the C function does no bounds check. The model requires every listed index to be a position of the list; any other index makes the C walk follow a NULL `next` or never stop.
- The doc comments in `utils/hash_table.h:86-115` are attached one function too low. The model follows the code, not those comments.

## Findings

| source | as written | input that shows it | evidently intended | confidence | as-written member | corrected member |
|---|---|---|---|---|---|---|
| utils/singly_linked_list.c:161-166 | `list_remove_last` moves `tail` back and decrements `size`, but the new tail's `next` still points at the removed node | list [1, 2]: `list_remove_last`, then `list_count_all` for 2 returns 1. The same holds for the iterator, `list_remove_all`, `list_join`, `list_map` and `list_filter` | the new tail's `next` becomes NULL and the removed element is gone for every walk | not executed | SinglyLinkedList.StaleTailStillCounted | SinglyLinkedList.List.RemoveLast |
| utils/open_hash_table.c:115-126 | `hash_table_insert` and `hash_table_remove` pass the raw `key_equal` to `list_find`, which applies it to a stored item instead of its key | a bucket holding key k, when the item record read as a key is not equal to k: inserting k again appends a duplicate; removing k returns NULL | compare the probe with each item's key, as `_equal_item` does for `get` and `update` | not executed | OpenHashTable.InsertAsWrittenDuplicates | OpenHashTable.Table.Insert |

`hash_table_remove` unlinks through `list_remove`, which calls `list_remove_last` for the last item of a chain. So the first defect also affects the table: after such a removal, `hash_table_keys`, `hash_table_values`, `hash_table_entries` and `hash_table_rehash` still visit the released item. The model uses the corrected removal throughout. `OpenHashTable.Table.Remove` is likewise the corrected form of the second defect's removal.
