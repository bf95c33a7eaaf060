# Page cache: LRU list, inode hashmap and per-file radix trees

A model of the page-cache engine of the C prototype in `vm_subsystem/` and
its earlier top-level drafts. One global `VM_LIST` owns three structures:

- an intrusive doubly-linked **LRU list** of cached pages, with the most
  recently used page at the head;
- a 256-bucket **inode hashmap** whose collision chains map each cached
  file (inode) to its radix tree;
- a 16-way **radix tree** per file, which maps a page index to the cached
  page, four bits a level, and splits a leaf into a branch when a second
  index reaches it.

A hit moves the page to the head of the list. A miss evicts the least
recently used page when the list holds `LRU_LIST_MAX_CAPACITY` (128) pages,
then caches the new page at the head and in its file's tree. An eviction
removes the page from its file's tree, and a file whose tree empties loses
its hashmap entry.

The model is split into modules that follow that structure:

- `Types` holds the keys, handles and the constants of the headers.
- `Hashing` holds the bucket function. `RadixKey` holds the nibble
  addressing.
- `RadixTree` holds the trie as a datatype. Insertion, split and removal are
  recursive functions, and `get_node`'s loop is a method.
- `Directory` holds the hashmap as a class over `array<seq<Entry>>`, with a
  ghost map from each inode to its tree.
- `LruList` holds the list as a class over an arena of page records with
  `prev`/`next` links, plus `head`, `tail`, `size` and a ghost order of
  handles.
- `LruPolicy` states the replacement policy on plain sequences: touch, and
  access under a capacity.
- `PageCache` couples the list and the hashmap. Its invariant `Resident`
  says that every record on the list is found in its file's tree under its
  own key, and every page a tree holds is a record with that key. Every
  operation is proved against the policy on the sequence of resident keys.

The drafts disagree with one another and some bodies do not compile. The
model follows the evident intent. Most defects that can be shown on an
input are kept as an "as written" member beside the corrected one (see
Findings). The departures below are modelled only in corrected form:

- `radix_descend` passes `(inode, page_index)` to `get_radix_byte`,
  advances the level with a postfix `level++` that the callee never sees,
  and never stores a new node in its slot. The model descends by the page
  index's nibble at the next level and stores the new leaf.
- `get_node` returns its node through a by-value pointer. The model returns
  the page's handle.
- `radix_node_free` has an unreachable `else` branch and no final return.
  The model removes the page's leaf, prunes branches that become empty, and
  reports "emptied" exactly when the file's tree is now empty.
- `vm_list_push` leaves a page's stale links on an empty list. The model
  clears them.
- `radix_manage_level` repeats `radix_descend`'s faults: it passes
  `(inode, page_index)` to `get_radix_byte` and advances the level with a
  postfix `level++` (vm_subsystem/vm_lru_hash_radix.c:114, :117). The model
  looks up the page index's nibble at the current level and recurses one
  level down.
- Each insertion path creates its own `vm_page_t` record
  (vm_subsystem/vm_lru_hash_radix.c:59, :99, :129), and none of them is ever
  pushed on the list (the note at line 3 says this is still to do). In the
  model, one record is created and pushed at the head of the list, and the
  tree stores that record's handle (`PageCache.PageCache.Admit`).
- When a leaf splits, the drafts build a new record for the displaced page
  (vm_subsystem/vm_lru_hash_radix.c:108, calling :99) and drop the old one
  (:112). In the model, `RadixTree.SplitLeaf` moves the existing handle one
  level down, so the page keeps its record and its place on the list.
- No draft checks the capacity or calls `vm_list_pop` on insertion. The
  evict-then-push of `PageCache.PageCache.Insert` follows the workflow the
  header describes (vm_lru_hash_radix.h:18-24).

## Model

| member | source | states |
|---|---|---|
| Hashing.Bucket | vm_subsystem/vm_lru_hash_radix.c:55 | the reduction of a 64-bit hash is a valid bucket index, below `HASH_BUCKETS_CAPACITY` |
| Hashing.HashPageAsWritten | vm_subsystem/vm_lru_hash_radix.c:52-56 | the drafts' `hash_page`, with 64-bit wrap-around and the page index mixed in, always yields a bucket below 256 |
| Hashing.HashPageSplitsOneFile | vm_subsystem/vm_lru_hash_radix.c:52-56 | pages 0 and 1 of inode 1 hash to different buckets, so the drafts' hash cannot locate a file's entry by its inode |
| Hashing.HashInode | vm_lru_hash_radix.h:6-7 | the directory hash is a bucket below 256 that depends on the inode alone, the same for every page of a file |
| RadixKey.Nibble | vm_lru_hash_radix.h:141-145 | the slot a page index takes at a level is always within the node's `RADIX_SIZE` slots (at most `RADIX_MAX`) |
| RadixKey.PrefixStep | vm_lru_hash_radix.h:141-145 | descending one level appends that level's nibble to the part of the index already consumed, most significant first |
| RadixKey.NibblesDetermineKey | vm_subsystem/vm_lru_hash_radix.h:54-60 | two page indices that take the same slot at all 16 levels are equal, so 16 levels tell every pair of 64-bit indices apart |
| RadixKey.DistinctKeysDiverge | vm_subsystem/vm_lru_hash_radix.h:54-60 | two different page indices take different slots at some level, which is what lets a leaf split |
| RadixKey.UnmaskedByteOverrunsSlots | vm_subsystem/vm_lru_hash_radix.c:81-85 | without the mask, index 0x10 at level 0 asks for slot 16 of a 16-slot node |
| RadixKey.ShiftedLeftIsZeroBelowRoot | vm_lru_hash_radix.c:90-94 | with the left shift, every index takes slot 0 at every level below the root |
| RadixKey.ShiftedLeftConfusesKeys | vm_lru_hash_radix.c:90-94 | with the left shift, indices 0x01 and 0x11 follow one path at every level |
| RadixKey.ThirteenLevelsMissTopNibbles | vm_lru_hash_radix.h:141-145 | with shifts starting at 48, indices 0 and 2^60 take slot 0 at all 13 levels |
| RadixTree.EmptySlots | vm_subsystem/vm_lru_hash_radix.c:62 | a freshly allocated node has exactly `RADIX_SIZE` slots, all empty |
| RadixTree.BranchKeys | vm_subsystem/vm_lru_hash_radix.h:54-60 | in a well-formed branch an index is stored only under the slot its nibble at that level names |
| RadixTree.GetFindsKeys | vm_subsystem/vm_lru_hash_radix.c:165-186 | lookup succeeds for an index if and only if the tree stores that index |
| RadixTree.EmptyIffNoKeys | vm_subsystem/vm_lru_hash_radix.c:188-199 | a well-formed tree is empty if and only if it stores no index, so "the tree no longer points to anything" means "the file has no cached page" |
| RadixTree.Descend | vm_subsystem/vm_lru_hash_radix.c:87-102 | sending an index one level down keeps the slots well formed, changes only the slot of its nibble, adds exactly that index, and makes lookup return the new page for it and the old result for every other index |
| RadixTree.ManageLevel | vm_subsystem/vm_lru_hash_radix.c:104-142 | insertion keeps the tree well formed, stores exactly one more index, and afterwards lookup returns the new page for that index and is unchanged for every other index |
| RadixTree.SplitLeaf | vm_subsystem/vm_lru_hash_radix.c:105-112 | a leaf met by a different index becomes a branch without a page that stores both indices, each retrievable with its own page |
| RadixTree.SplitKeepsBoth | vm_subsystem/vm_lru_hash_radix.c:104-112 | inserting into a leaf holding another index yields a branch in which both the old and the new index are found |
| RadixTree.Remove | vm_subsystem/vm_lru_hash_radix.c:188-209 | removal keeps the tree well formed, drops exactly that index, makes its lookup fail, leaves every other lookup unchanged, and prunes branches left with no pages |
| RadixTree.GetNode | vm_subsystem/vm_lru_hash_radix.c:165-186 | the iterative descent (stop at an empty slot; at a leaf, succeed only on an exact key match) returns exactly the recursive lookup's result |
| RadixTree.FirstOccupied | vm_subsystem/vm_lru_hash_radix.c:119-126 | the draft's scan stops at the first occupied slot at or after its start, with every slot before it empty, or at the end |
| RadixTree.MisplacedLeafLosesPage | vm_subsystem/vm_lru_hash_radix.c:131-134 | placing the new leaf at the last scanned slot overwrites a stored page, which lookup no longer finds |
| Directory.EntryCreate | vm_subsystem/vm_lru_hash_radix.c:58-75 | a new entry is keyed by the inode, its file has the same inode, and its tree is well formed, stores only the new index, and finds the new page |
| Directory.IndexOf | vm_subsystem/vm_lru_hash_radix.c:153-154 | the chain walk's stopping point is the first entry keyed by the inode, or the chain's end when none is |
| Directory.IndexOfFinds | vm_lru_hash_radix.c:66-84 | the walk stops inside the chain if and only if some entry of the chain is keyed by the inode |
| Directory.FindInChain | vm_subsystem/vm_lru_hash_radix.c:308-311 | the `while` walk over `next` stops at the first entry keyed by the inode, with no earlier entry keyed by it, or at the end |
| Directory.Unlink | vm_subsystem/vm_lru_hash_radix.c:224-227 | splicing out entry `i` removes exactly that entry and keeps every other entry in its original order |
| Directory.ChainKeysUnlink | vm_subsystem/vm_lru_hash_radix.c:224-227 | in a chain without repeated keys, splicing out an entry removes exactly its inode from the chain's inodes |
| Directory.ChainKeysAppend | vm_subsystem/vm_lru_hash_radix.c:156-158 | linking a new entry at the chain's end adds exactly its inode to the chain's inodes |
| Directory.DirValidUpdate | vm_subsystem/vm_lru_hash_radix.h:75-88 | replacing one bucket's chain keeps the hashmap invariant (each entry in its inode's bucket, once, carrying that inode's tree) when the content changes only for that bucket's inodes |
| Directory.TreesAfterDelete | vm_subsystem/vm_lru_hash_radix.c:211-238 | after a deletion the page's own file's tree is that tree without the page (a file with no entry reads as the empty tree), and every other file's tree is unchanged |
| Directory.AfterRemove | vm_subsystem/vm_lru_hash_radix.c:216-232 | after a page leaves an entry's tree the chain is one shorter when the tree emptied and keeps its length otherwise |
| Directory.Hashmap.constructor | vm_subsystem/vm_lru_hash_radix.c:32 | the hashmap starts with 256 empty buckets and records no file |
| Directory.Hashmap.FindFile | vm_subsystem/vm_lru_hash_radix.c:299-316 | the file's tree is found exactly when the inode has an entry, and it is that inode's tree |
| Directory.Hashmap.Lookup | vm_subsystem/vm_lru_hash_radix.c:299-320 | a page is found exactly when its file's tree holds it, with the handle the tree holds |
| Directory.Hashmap.InsertPage | vm_subsystem/vm_lru_hash_radix.c:144-163 | the invariant is kept; the inode's tree becomes its old tree (empty when it had no entry) with the page inserted; the inode's chain gets the entry's new tree in place, or a new entry at its end; no other bucket changes |
| Directory.Hashmap.AddEntry | vm_subsystem/vm_lru_hash_radix.c:148-158 | a file's first page is recorded as a new single-leaf entry at the end of its chain, the empty chain included, and the invariant is kept |
| Directory.Hashmap.DeletePage | vm_subsystem/vm_lru_hash_radix.c:211-238 | the invariant is kept; an inode without an entry changes nothing; otherwise the page leaves the file's tree, and the entry is unlinked exactly when the tree became empty, with the rest of the chain in order |
| Directory.Hashmap.RemoveFromEntry | vm_subsystem/vm_lru_hash_radix.c:216-233 | reports "emptied" exactly when the file's tree without the page is empty, unlinks the entry in that case, and otherwise keeps the entry in place with the reduced tree |
| Directory.Hashmap.DetachEntry | vm_subsystem/vm_lru_hash_radix.c:219-229 | the emptied file's entry is spliced out of its chain, the inode leaves the directory, and the invariant is kept |
| Directory.Hashmap.ReplaceTree | vm_subsystem/vm_lru_hash_radix.c:161 | the entry keeps its place in its chain with the new tree, which becomes the inode's tree, and the invariant is kept |
| Directory.Hashmap.StoreChain | vm_subsystem/vm_lru_hash_radix.c:224-227 | writing one bucket's chain keeps the invariant and changes only that bucket |
| Directory.FirstEntryAsWrittenIsLost | vm_subsystem/vm_lru_hash_radix.c:148-150 | as written, the first page of a file whose bucket is empty leaves no entry for the inode |
| Directory.EntryDeleteAsWrittenKeepsEntry | vm_lru_hash_radix.c:66-84 | as written, the inode's entry is still in its chain after `hashmap_entry_delete` |
| Directory.DeleteAsWrittenDropsFile | vm_subsystem/vm_lru_hash_radix.c:188-199 | as written, deleting any page of a file whose tree is a branch (two or more cached pages) unlinks the file's whole entry, although its tree still holds every other page |
| LruPolicy.Without | vm_subsystem/vm_lru_hash_radix.c:265-272 | taking a page out of the list removes it and only it |
| LruPolicy.WithoutAt | vm_subsystem/vm_lru_hash_radix.c:265-272 | in a list without repeats, unlinking an element is slicing it out at its position |
| LruPolicy.WithoutDistinct | vm_subsystem/vm_lru_hash_radix.c:265-272 | unlinking keeps the list free of repeats and shortens it by one exactly when the element was on it |
| LruPolicy.Touch | vm_lru_hash_radix.h:14-19 | after a use the page is at the head, no element is lost, and only that page can be new |
| LruPolicy.TouchKeepsOthersInOrder | vm_subsystem/vm_lru_hash_radix.c:260-278 | moving a page to the head keeps every other page in its relative order |
| LruPolicy.TouchIdempotent | vm_subsystem/vm_lru_hash_radix.c:260-263 | moving the same page to the head twice is the same as once |
| LruPolicy.TouchHead | vm_subsystem/vm_lru_hash_radix.c:262-263 | moving the page already at the head changes nothing |
| LruPolicy.TouchDistinct | vm_subsystem/vm_lru_hash_radix.c:260-278 | a use keeps the list free of repeats, keeps its length on a hit, and adds one on a miss |
| LruPolicy.AccessBounded | vm_lru_hash_radix.h:21-24 | an access keeps the list within its capacity and free of repeats, and leaves the accessed page at the head |
| LruPolicy.AccessHit | vm_lru_hash_radix.h:14-17 | a hit only moves the page to the head, with the same pages and length |
| LruPolicy.AccessEvictsLeastRecent | vm_lru_hash_radix.h:21-24 | a miss on a full list evicts exactly the tail page, keeps all others and adds the new one |
| LruPolicy.AccessAdmits | vm_lru_hash_radix.h:18-19 | a miss below capacity only adds the page at the head |
| LruPolicy.AccessMiss | vm_lru_hash_radix.h:18-24 | a miss adds the page at the head of the list, with the tail page dropped exactly when the list was full |
| LruPolicy.AccessAgesByOne | vm_lru_hash_radix.h:21-24 | one access moves any other page at most one place towards the tail and does not evict it unless it was the last of a full list |
| LruPolicy.RecentSurvives | vm_lru_hash_radix.h:21-24 | a page at distance `i` from the head survives any run of fewer than `capacity - i` further accesses |
| LruList.LinkedAt | vm_subsystem/vm_lru_hash_radix.h:49-50 | on a linked list, each page's `prev` is the page before it and its `next` the page after it, NULL at the ends |
| LruList.LinkedDistinct | vm_subsystem/vm_lru_hash_radix.h:90-98 | a linked list holds no page twice |
| LruList.LinkedKeys | vm_subsystem/vm_lru_hash_radix.h:43-52 | every linked page carries its key, so the list's key view is as long as the list |
| LruList.PushLinks | vm_subsystem/vm_lru_hash_radix.c:250-253 | pointing the new page forward to the old head and the old head back to it yields a linked list with the new page first and the same tail |
| LruList.DetachLinks | vm_subsystem/vm_lru_hash_radix.c:265-272 | joining a page's neighbours, and moving `tail` back when the page was the tail, yields a linked list without the page |
| LruList.LinkedOffList | vm_subsystem/vm_lru_hash_radix.c:39-45 | creating or rewriting a page record that is not on the list leaves the list linked |
| LruList.PopLinks | vm_subsystem/vm_lru_hash_radix.c:282-286 | making the tail's predecessor the tail with no `next`, and retiring the old tail's record, yields a linked list of all but the last page, whose key view is the old one without its last key |
| LruList.KeysOf | vm_subsystem/vm_lru_hash_radix.h:43-45 | the key view of a list whose pages all have records has one key per page |
| LruList.KeysOfHas | vm_subsystem/vm_lru_hash_radix.h:43-45 | every listed page's key appears in the list's key view |
| LruList.KeysOfFrom | vm_subsystem/vm_lru_hash_radix.h:43-45 | every key in the key view belongs to some listed page |
| LruList.KeysOfPush | vm_subsystem/vm_lru_hash_radix.c:245-257 | pushing a new page pushes its key on the key view |
| LruList.KeysOfTouch | vm_subsystem/vm_lru_hash_radix.c:260-278 | when keys are distinct, moving a page to the head moves its key to the head of the key view |
| LruList.KeysOfPop | vm_subsystem/vm_lru_hash_radix.c:281-293 | dropping the tail page and its record drops the last key of the key view |
| LruList.KeysOfDistinct | vm_subsystem/vm_lru_hash_radix.h:43-52 | distinct pages with distinct keys give a key view without repeats |
| LruList.LruList.KeysLength | vm_subsystem/vm_lru_hash_radix.h:90-98 | the list's key view has one key per listed page |
| LruList.LruList.constructor | vm_subsystem/vm_lru_hash_radix.c:29-31 | the list starts empty, with no head, no tail and size 0 |
| LruList.LruList.LinkAtHead | vm_subsystem/vm_lru_hash_radix.c:245-257 | the page becomes the head; into an empty list it is also the tail, and otherwise the tail does not move; no key changes |
| LruList.LruList.Detach | vm_subsystem/vm_lru_hash_radix.c:265-272 | the page leaves the list, the others stay linked in their order, and no key changes |
| LruList.LruList.MoveToHead | vm_subsystem/vm_lru_hash_radix.c:260-278 | no page, or the head, changes nothing; otherwise the page is moved to the head, the others keep their order, `tail` is repaired, and the same pages stay linked with the same size |
| LruList.LruList.Push | vm_subsystem/vm_lru_hash_radix.c:245-257 | a new page under a fresh handle becomes the head, is counted in `size`, and its key is pushed on the key view |
| LruList.LruList.PopTail | vm_subsystem/vm_lru_hash_radix.c:281-293 | on two or more pages the tail page is removed, its key returned and its record retired, the key view loses its last key, and `size` (tied by `Valid` to the list's length) drops by one; a list of fewer than two pages is left alone |
| LruList.MoveTailAsWrittenBreaksList | vm_lru_hash_radix.h:170-193 | as written, moving the tail of a two-page list to the head leaves `tail` naming the head, and no order of the pages is linked any more |
| LruList.PushAllAsWrittenLinks | vm_subsystem/vm_lru_hash_radix.c:245-257 | as written, pushing fresh records one at a time keeps the list linked with each new page in front, while `size` keeps its starting value |
| LruList.PushAsWrittenNeverCounts | vm_subsystem/vm_lru_hash_radix.c:245-257 | as written, after n fresh pages are pushed onto an empty list, all n are linked while `size` is still 0 |
| LruList.PopAsWrittenMiscounts | vm_subsystem/vm_lru_hash_radix.c:281-293 | as written, popping a list of two or more pages whose `size` was right unlinks the tail but leaves `size` one above the number of linked pages |
| PageCache.ResidentInjective | vm_subsystem/vm_lru_hash_radix.h:43-52 | while the list and the trees agree, no two cached pages carry the same key |
| PageCache.PageCache.constructor | vm_subsystem/vm_lru_hash_radix.c:29-33 | the cache starts with no resident page and no file entry |
| PageCache.PageCache.ResidentIff | vm_lru_hash_radix.h:11-17 | a key is on the LRU list exactly when its file's tree holds it |
| PageCache.PageCache.EntryIffResident | vm_lru_hash_radix.h:25-26 | a file has a hashmap entry exactly when one of its pages is resident |
| PageCache.PageCache.Bounded | vm_subsystem/vm_lru_hash_radix.h:90-98 | the list never exceeds `LRU_LIST_MAX_CAPACITY` and never holds a key twice |
| PageCache.PageCache.IsInMemory | vm_subsystem/vm_lru_hash_radix.c:299-325 | reports a hit exactly when the page is resident; a hit moves it to the head of the list, a miss changes nothing, and the directory is unchanged |
| PageCache.PageCache.Evict | vm_subsystem/vm_lru_hash_radix.c:281-293 | the least recently used page leaves the list and its file's tree, and the file's entry if it was its last page; a list of fewer than two pages is left alone |
| PageCache.PageCache.Forget | vm_subsystem/vm_lru_hash_radix.c:290 | deleting the evicted page's key from its file's tree keeps the trees in step with the list once the page's record is gone |
| PageCache.PageCache.Insert | vm_lru_hash_radix.h:18-24 | on a miss the list becomes the policy's access result: the tail page is evicted when the list is full, then the new page is cached at the head |
| PageCache.PageCache.Admit | vm_lru_hash_radix.h:18-19 | below capacity, a page not yet cached is added at the head of the list and into its file's tree |
| PageCache.PageCache.Record | vm_subsystem/vm_lru_hash_radix.c:144-163 | inserting the new page's handle under its key keeps the trees in step with the list once the record has joined it |
| PageCache.PageCache.AccessPage | vm_lru_hash_radix.h:11-27 | one access follows the LRU policy: hit exactly when resident, and the list afterwards is the policy's access result under capacity 128 |
| PageCache.EvictKeepsResident | vm_lru_hash_radix.h:22-27 | removing the evicted page from the list and from its file's tree keeps the two structures describing the same pages |
| PageCache.InsertKeepsResident | vm_lru_hash_radix.h:18-19 | adding the new page to the list and to its file's tree keeps the two structures describing the same pages |
| PageCache.InsertKeepsRecords | vm_lru_hash_radix.h:18-19 | after an insertion every cached page, old or new, is found in its file's tree under its own key |
| PageCache.InsertKeepsTrees | vm_lru_hash_radix.h:18-19 | after an insertion every page a tree holds is a cached page with the key it is stored under |

## Left out

- `main.c` is not part of this model. It holds the socket server, process handling and the interactive shell, with no data-structure logic.
- Locks and concurrency: they are planned but never written; every operation is sequential.
- `malloc`, `calloc` and `free`: pages live in an arena addressed by handles from a counter, and a page is retired by dropping its record. Out-of-memory paths are not modelled.
- The hashmap's bucket array, allocated by `malloc` and not cleared, is modelled as 256 empty buckets.
- Loading page bytes from disk, mapping them into memory, and the audio buffering workflow are not modelled.
- The `dirty` and `referenced` flags are not modelled, since they are unused.
- The `vm_page_t` records of the earlier header, which lack `prev`/`next`, are not modelled. The list follows the canonical header's records.
- `vm_list_pop` declines a list of one page, and `LruList.LruList.PopTail` and `PageCache.PageCache.Evict` keep that behaviour. Eviction only runs on a full list of 128 pages, so the cache never hits that case.
- PageCache.PageCache.Insert: requires the page not to be resident. The workflow inserts only on a miss, and the drafts' insertion applied to a stored index would split a leaf against itself.
- RadixTree.ManageLevel: a leaf holding the same index gets the new page. The drafts never reach this case from the cache.
- LruList.KeysOf: skips a handle without a record. Under the list's invariant every listed handle has one, so the view has one key per page.

## Findings

| source | as written | input that shows it | evidently intended | confidence | as-written member | corrected member |
|---|---|---|---|---|---|---|
| vm_subsystem/vm_lru_hash_radix.c:81-85 | `get_radix_byte` shifts right by `level * RADIX_BITS` and never masks, although its comment says to keep the low bits | page index 0x10 at level 0 gives slot 16 of a 16-slot node | mask with `0xF`, so the slot is below `RADIX_SIZE` | not executed | RadixKey.UnmaskedByteOverrunsSlots | RadixKey.Nibble |
| vm_lru_hash_radix.c:90-94 | `get_radix_byte` shifts left, then masks | indices 0x01 and 0x11 take the same slot at every level | shift right, so distinct indices part ways | not executed | RadixKey.ShiftedLeftConfusesKeys | RadixKey.DistinctKeysDiverge |
| vm_lru_hash_radix.h:141-145 | shifts start at `(12 - level) * 4` and cover only 13 levels | indices 0 and 2^60 take slot 0 at all 13 levels | 16 levels over all 64 bits, most significant nibble first | not executed | RadixKey.ThirteenLevelsMissTopNibbles | RadixKey.NibblesDetermineKey |
| vm_subsystem/vm_lru_hash_radix.c:52-56 | `hash_page` mixes the page index into the directory hash | pages 0 and 1 of inode 1 fall in different buckets | hash by inode alone, so all of a file's pages share its entry | not executed | Hashing.HashPageSplitsOneFile | Hashing.HashInode |
| vm_subsystem/vm_lru_hash_radix.c:131-134 | the new leaf goes to slot `--i`, the last slot scanned, which is the first occupied one | a last-level branch holding index 0 in slot 0 receives index 1 | put the leaf in the slot of its own nibble | not executed | RadixTree.MisplacedLeafLosesPage | RadixTree.ManageLevel |
| vm_subsystem/vm_lru_hash_radix.c:148-150 | in an empty bucket the new entry is only assigned to the local `cur` | the first page of any file whose bucket is empty | store the entry as the bucket's head | not executed | Directory.FirstEntryAsWrittenIsLost | Directory.Hashmap.AddEntry |
| vm_lru_hash_radix.c:66-84 | `hashmap_entry_delete` only moves its local cursor | any chain holding the inode | unlink the inode's entry | not executed | Directory.EntryDeleteAsWrittenKeepsEntry | Directory.ChainKeysUnlink |
| vm_subsystem/vm_lru_hash_radix.c:188-199 | `radix_node_free` returns -1 for every root without a page, that is every branch | a file caching pages 0 and 1, then page 0 deleted | return -1 only when the tree becomes empty | not executed | Directory.DeleteAsWrittenDropsFile | Directory.Hashmap.RemoveFromEntry |
| vm_lru_hash_radix.h:170-193 | `move_to_head` never updates `tail` | list of pages 0 then 1, with page 1 moved to the head | move `tail` back to the predecessor when the page was the tail | not executed | LruList.MoveTailAsWrittenBreaksList | LruList.LruList.MoveToHead |
| vm_subsystem/vm_lru_hash_radix.c:245-257 | `vm_list_push` never increments `size` | any run of pushes onto an empty list | count each pushed page, so eviction starts at capacity | not executed | LruList.PushAsWrittenNeverCounts | LruList.LruList.Push |
| vm_subsystem/vm_lru_hash_radix.c:281-293 | `vm_list_pop` never decrements `size` | a list of two pages with `size` 2, popped once | count the page that leaves, so `size` stays the number of linked pages | not executed | LruList.PopAsWrittenMiscounts | LruList.LruList.PopTail |
