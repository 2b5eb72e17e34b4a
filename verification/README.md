# crafttask document store, modelled in Dafny

crafttask keeps one outline-style document in memory: a tree of blocks, each with an id, a text
content and an ordered map of child blocks. Next to the tree it keeps a parent cache from every
block id to the id of the block's parent, or to `root` (0) for a block at the top level. Every
lookup goes through that cache. `pathToNode` walks a block's ancestors up to `root`,
`findMapByParent` follows that path down the tree to a block's child map, and `findBlockById`
returns a block, its index and the map that holds it. On top of these lookups sit the store's
operations:

- `insert`: a batch of new blocks, each with a fresh id from a process-wide counter.
- `delete`: removes blocks and unlinks all of their descendants from the cache.
- `fetch`: returns blocks by id, skipping ids it cannot find (as intended; see "## Findings").
- `duplicate`: copies a subtree with fresh ids and places the copy right after the original (as intended; see "## Findings").
- `move`: moves a subtree to another parent, at an index.

The model works on values, not pointers:

- A block is `Block(id, content, children)`.
- The children are an `OMap` of blocks: the ordered map of `orderedmap.go`, with a key sequence and a map.
- The store is `Store(doc, parents, counter)`.
- Go code that mutates a nested map through a pointer becomes `ReplaceAt(doc, path, map')`. The
  path is the one `pathToNode` produced, and it plays the role of the pointer.

Every operation is a pure function from a store to a new store (and a result or an error). The
central invariant is `StoreState.Inv`:

- Every ordered map is valid.
- Every block is stored under its own id, and no id occurs twice in the tree.
- The cache names the true parent of every block and holds nothing else.
- No cached id is above the counter.

The model proves that insert, delete, duplicate and move preserve it, and that under it the
lookups never reach the source's "inconsistent internal state" panics.

Where `store.go` does something other than what it evidently intends, the main model follows the
intention. Module `AsWritten` models the code as written, one discrepancy at a time, and proves the difference (see
"## Findings"). Module `Scenarios` restates the repository's unit tests as lemmas about the model.

Where the code and its design description disagree, the model follows the code. The two places:

- A batch insert whose parent cannot be resolved fails with `errBlockDoesNotExist`, the error
  `findMapByParent` returns. No separate parent-not-found error is used.
- `insert` returns only an error, not the created blocks.

Files (every module is declared once and imported by name):

| file | module | what |
|---|---|---|
| wrappers.dfy | Wrappers | `Option`, `Result` |
| orderedmap.dfy | OrderedMap | the ordered map of blocks |
| ids.dfy | IdCounter | the id counter |
| models.dfy | Models | blocks, forests, errors, well-formedness, cache agreement |
| paths.dfy | Paths | the ancestor walk, descent along a path, replacement at a path |
| store.dfy | StoreState | the store, its invariant, `findMapByParent`, `findBlockById` |
| clone.dfy | Cloning | the deep copy `duplicate` intends |
| storeops.dfy | StoreOps | `insert`, `delete`, `fetch`, `duplicate`, `move` |
| frames.dfy | Frames | what each operation leaves unchanged |
| aswritten.dfy | AsWritten | the operations as written where they differ, and the differences |
| scenarios.dfy | Scenarios | the unit tests' situations |

## Model

| member | source | states |
|---|---|---|
| OrderedMap.Empty | crafttask/orderedmap.go:8-14 | A new ordered map has no keys and no values, and is valid. |
| OrderedMap.Get | crafttask/orderedmap.go:16-19 | Get finds a value exactly when the key is present, and then it is the stored value. |
| OrderedMap.LastIndex | crafttask/orderedmap.go:26-31 | The index loop yields the last position holding the key, or 0 when no position does. |
| OrderedMap.GetAndIndex | crafttask/orderedmap.go:21-33 | The lookup succeeds exactly for present keys, with the stored value; in a valid map the index is a position holding the key. |
| OrderedMap.Set | crafttask/orderedmap.go:35-41 | Set is an upsert. A new key is appended to the keys, an existing key keeps its place, and validity is kept. |
| OrderedMap.InsertAt | crafttask/orderedmap.go:51-58 | The slice helper grows the sequence by one, with the value at the index clamped to the length, the prefix unchanged, the suffix shifted and no element lost. |
| OrderedMap.Insert | crafttask/orderedmap.go:43-49 | A new key is placed at the clamped index. An existing key only has its value replaced and keeps its place. Validity is kept. |
| OrderedMap.RemoveFirst | crafttask/orderedmap.go:65-70 | Removing the first occurrence shortens the keys by one when the key occurs, and changes nothing when it does not. |
| OrderedMap.Delete | crafttask/orderedmap.go:60-72 | Deleting an absent key is a no-op. Otherwise the key leaves the values, and in a valid map the keys become the other keys in their old order. |
| OrderedMap.OrderedValues | crafttask/orderedmap.go:82-88 | The result has one value per key, the i-th being the value stored under the i-th key, or the zero value for a key without one. |
| OrderedMap.InsertAtNoDuplicates | crafttask/orderedmap.go:51-58 | Inserting an absent key into a duplicate-free key sequence keeps it duplicate-free. |
| OrderedMap.WithoutProperties | crafttask/orderedmap.go:60-72 | Dropping a key from a duplicate-free sequence keeps it duplicate-free and leaves exactly the other keys. |
| OrderedMap.RemoveFirstIsWithout | crafttask/orderedmap.go:65-70 | In a duplicate-free sequence, removing the first occurrence, as the loop with `break` does, removes every occurrence. |
| OrderedMap.WithoutAbsent | crafttask/orderedmap.go:60-64 | Dropping a key that does not occur changes nothing. |
| OrderedMap.RemoveFirstAfterPrefix | crafttask/orderedmap.go:65-70 | Removing the first occurrence of a key that does not occur in a prefix happens in the rest only. |
| OrderedMap.GetAfterSet | crafttask/orderedmap.go:35-41 | After Set the key maps to the new value, and every other key to what it mapped to before. |
| OrderedMap.GetAfterDelete | crafttask/orderedmap.go:60-72 | After Delete the key is absent, and every other key maps to what it mapped to before. |
| OrderedMap.SetIsInsertAtEnd | crafttask/orderedmap.go:35-49 | Set is Insert at the end of the keys. |
| OrderedMap.InsertPastEndAppends | crafttask/orderedmap.go:51-54 | Inserting a new key at or past the end appends it instead of failing. |
| OrderedMap.InsertInside | crafttask/orderedmap.go:55-57 | Inserting a new key before the end gives `keys[..index] + [key] + keys[index..]`. |
| OrderedMap.GetAndIndexUnique | crafttask/orderedmap.go:21-33 | In a valid map the index GetAndIndex reports is the only position holding the key. |
| OrderedMap.InsertFront | crafttask/orderedmap.go:43-58 | A new key inserted at index 0 comes before all the others. |
| OrderedMap.InsertThenFind | crafttask/orderedmap.go:43-58 | A new key inserted at an index is then found with its value at that index, clamped to the old length. |
| OrderedMap.InsertKeepsBefore | crafttask/orderedmap.go:43-58 | Keys in front of the insertion point keep their values and their indexes. |
| OrderedMap.DeleteUndoesInsert | crafttask/orderedmap.go:43-72 | Round trip: deleting a key just inserted into a valid map restores the map exactly. |
| OrderedMap.RemoveInserted | crafttask/orderedmap.go:51-70 | Removing the first occurrence of a key just inserted into a sequence without it restores the sequence. |
| OrderedMap.KeysRoundTrip | crafttask/orderedmap.go:51-70 | Removing a key from a duplicate-free sequence and inserting it back at its old index restores the sequence. |
| OrderedMap.ValuesRoundTrip | crafttask/orderedmap.go:60-72 | Removing a key from the values and storing its value again restores the values. |
| OrderedMap.InsertUndoesDelete | crafttask/orderedmap.go:43-72 | Round trip: re-inserting a deleted key at its old index with its old value restores a valid map exactly. |
| IdCounter.Next | crafttask/id.go:7-9 | getNewId returns the previous counter value plus one, never `root`, and leaves the counter at the id it returned. |
| IdCounter.TakeIncreasing | crafttask/id.go:5-9 | Successive ids are consecutive and strictly increasing, and none is `root`, so no id is issued twice, even after a delete. |
| IdCounter.FirstIds | crafttask/id.go:5-9 | In a fresh process the first two ids are 1 and 2. |
| Models.IdsSplit | crafttask/models.go:5-9 | The ids of a forest are the subtree under a key together with the ids outside it. |
| Models.OtherIdsUpdate | crafttask/orderedmap.go:35-49 | Replacing or adding the block under a key leaves the ids outside its subtree alone and brings in the new block's subtree. |
| Models.OtherIdsRemove | crafttask/orderedmap.go:60-72 | After removing the block under a key, exactly the ids outside its subtree remain. |
| Models.OtherIdsDisjoint | crafttask/models.go:5-9 | In a well-formed forest a block's subtree shares no id with the rest of the forest. |
| Models.AgreesCovers | crafttask/store.go:5-8 | A cache that describes a forest has an entry for each id in it. |
| Models.AgreesFrame | crafttask/store.go:5-8 | Whether the cache describes a forest depends only on the entries for that forest's ids. |
| Models.WFInsert | crafttask/orderedmap.go:43-49 | Adding a well-formed subtree with fresh ids under a new key keeps the forest well formed, and adds exactly that subtree's ids. |
| Models.WFDelete | crafttask/orderedmap.go:60-72 | Deleting a key keeps the forest well formed and removes exactly that key's subtree. |
| Models.WFUpdate | crafttask/orderedmap.go:35-41 | Replacing the block under a key with one whose subtree is new to the rest keeps the forest well formed. |
| Models.AgreesInsert | crafttask/store.go:84-85 | A new block whose subtree the cache describes, with its entry naming the parent, can be added to the parent's map. |
| Models.AgreesDelete | crafttask/store.go:97-99 | Removing a block and the cache entries of its subtree leaves a cache that still describes the rest. |
| Models.AgreesSibling | crafttask/store.go:103-108 | Unlinking one subtree leaves the cache entries of its siblings' subtrees intact. |
| Models.ShapesOfFrame | crafttask/models.go:5-9 | The contents listed along a key sequence depend only on the blocks under those keys. |
| Models.AmongSilent | crafttask/models.go:5-9 | The tree search finds nothing among keys none of which is the id or holds it below. |
| Models.AmongFinds | crafttask/models.go:5-9 | When only one key of the list is the id or holds it below, the search ends at that key. |
| Models.LookupNone | crafttask/models.go:5-9 | An id nowhere in the forest is not found. |
| Models.LookupTop | crafttask/models.go:5-9 | In a well-formed forest a top-level key is found with its own block. |
| Models.LookupBelow | crafttask/models.go:5-9 | In a well-formed forest an id below a top-level key is found by searching below that key. |
| Models.LookupFound | crafttask/models.go:5-9 | In a well-formed forest the search finds exactly the forest's ids, each as the block with that id. |
| Models.InsertLookup | crafttask/orderedmap.go:43-49 | Adding a new key keeps what the search finds for every id already in the forest. |
| Models.InsertedLookup | crafttask/orderedmap.go:43-49 | An added block and its subtree are found as they are in the added block. |
| Models.DeleteLookup | crafttask/orderedmap.go:60-72 | Removing a key keeps what the search finds for every id that stays. |
| Models.UpdateLookup | crafttask/orderedmap.go:35-49 | Changing the block under one key keeps what the search finds for every id outside its subtree. |
| Models.SameTop | crafttask/models.go:5-9 | An unchanged top-level block is found the same in both forests. |
| Models.SameBelow | crafttask/models.go:5-9 | An id below an unchanged top-level block is found the same in both forests. |
| Paths.Walk | crafttask/store.go:26-35 | The walk fails with errBlockDoesNotExist on a missing cache entry. On success it starts at the block, each id's cached parent is the next id (`root` after the last), and no id is repeated. |
| Paths.PathToNode | crafttask/store.go:20-37 | `root` has the empty path, an uncached block fails with errBlockDoesNotExist, and any other path starts at the block and follows the cache up to `root`. |
| Paths.WalkSeenIrrelevant | crafttask/store.go:26-35 | The cycle guard does not change a walk that never meets the ids it guards against. |
| Paths.WalkFrame | crafttask/store.go:26-35 | The walk reads only the cache entries of the ids it passes. |
| Paths.PathStep | crafttask/store.go:26-35 | A block's path is the block followed by its parent's path. |
| Paths.PathParents | crafttask/store.go:31-34 | On a resolved path, a block's cached parent is the next id, or `root` for a path of one. |
| Paths.ChainIsPath | crafttask/store.go:20-37 | Any duplicate-free chain of cache links from a block up to `root` is exactly the path returned for that block. |
| Paths.ReplaceAt | crafttask/store.go:85 | Changing a nested map leaves the top-level keys alone, unless the nested map is the top level. What else it keeps is `Paths.ReplaceFrame`. |
| Paths.ReplaceFrame | crafttask/store.go:85 | Changing the map at a path in place leaves every block outside that map findable with its content. A block off the path is unchanged. A block on the path keeps its children's keys, except the path's owner, whose children become the new map. |
| Paths.OtherOffPath | crafttask/store.go:46-52 | An id outside the subtree of the path's top-level block is not on the path. |
| Paths.OutsideBelow | crafttask/store.go:46-52 | An id outside the reached map that is below the path's top-level block is outside the map reached one level down. |
| Paths.PathInside | crafttask/store.go:46-52 | Every id of a path that descends successfully is in the tree. |
| Paths.LookupDescend | crafttask/store.go:46-52 | The tree search finds an id of a reached map as searching that map does. |
| Paths.ReplaceInside | crafttask/store.go:85 | After a map is changed in place, its ids are found in the tree as the new map has them. |
| Paths.WalkCycle | crafttask/store.go:26-35 | A walk that enters a cycle of cache entries meets an id twice and reports the inconsistent state. |
| Paths.CycleFromChain | crafttask/store.go:153-154 | Pointing a block's cache entry at an id whose chain up to `root` passes through the block closes a cycle: the walk from that id fails, and its entry no longer leads to `root`. |
| Paths.Descend | crafttask/store.go:46-52 | The descent from the top fails only for a non-empty path: the empty path reaches the top-level map. DescendCons, DescendIds and DescendReplace state where a longer path leads. |
| Paths.DescendCons | crafttask/store.go:46-52 | Descending one more level finds the children map of the block reached so far. |
| Paths.DescendWF | crafttask/store.go:46-52 | Every map reached in a well-formed tree is well formed. |
| Paths.DescendAgrees | crafttask/store.go:46-52 | The cache describes the map reached along a path with the path's owner as parent. |
| Paths.DescendIds | crafttask/store.go:46-52 | The tree's ids are those outside the reached map together with those inside it. |
| Paths.OutsideDisjoint | crafttask/store.go:46-52 | In a well-formed tree no id outside the reached map reappears inside it. |
| Paths.DescendReplace | crafttask/store.go:46-52 | After a map is changed through its path, the same descent reaches the changed map. |
| Paths.ReplaceIds | crafttask/store.go:85 | Changing the map at a path keeps the ids outside it and brings in the new map's ids. |
| Paths.ReplaceWF | crafttask/store.go:85 | A well-formed map whose ids are new to the rest can replace the map at a path without breaking well-formedness. |
| Paths.ReplaceAgrees | crafttask/store.go:84-85 | The cache describes the changed tree when it describes the new map and keeps the entries outside it. |
| StoreState.IssueNext | crafttask/store.go:78-84 | The next id is not cached yet, and caching it keeps every cached id at most the counter. |
| StoreState.NewStore | crafttask/store.go:10-17 | A new store has an empty document and an empty cache, and satisfies the invariant. It keeps the process-wide counter where earlier stores left it (crafttask/id.go:5). |
| StoreState.FindMapByParent | crafttask/store.go:40-54 | `root` gives the top-level map and an uncached id fails with errBlockDoesNotExist. Any map returned is what descending its path finds, and that path is the one `pathToNode` gives. |
| StoreState.FindBlockById | crafttask/store.go:56-70 | An uncached id fails with errBlockDoesNotExist. A found block is in the map of its cached parent, under its id, at the reported index. |
| StoreState.FindInserted | crafttask/store.go:56-70 | A new block inserted into the resolved map of its cached parent is found there, at the clamped index. |
| StoreState.FindBeforeInserted | crafttask/store.go:56-70 | A block in front of an insertion point keeps its index. |
| StoreState.PathOutside | crafttask/store.go:46-52 | Every id on a path lies outside the map the path reaches. |
| StoreState.PathAvoids | crafttask/store.go:46-52 | No block of a map reached along a path is on that path, so the cache cannot loop. |
| StoreState.ResolvesChild | crafttask/store.go:20-54 | A block in a map reached along its owner's path has the path `[block] + path`, and its children map is reached next. |
| StoreState.ResolvesBelow | crafttask/store.go:20-54 | Every block below a reached map resolves. |
| StoreState.PathThrough | crafttask/store.go:20-54 | Every block below a reached map has the ids of the map's path among its ancestors. |
| StoreState.SubtreePath | crafttask/store.go:20-37 | The walk up from any block of a cached block's subtree passes through that block. |
| StoreState.ResolvesAll | crafttask/store.go:20-54 | When the cache describes the tree, every cached block resolves: its path exists and the descent reaches it. |
| StoreState.FindBlockByIdSpec | crafttask/store.go:56-70 | In a consistent store findBlockById fails exactly for uncached ids, always with errBlockDoesNotExist and never with a panic. On success the block is under its own id at the reported index. |
| StoreState.FindIsLookup | crafttask/store.go:56-70 | In a consistent store findBlockById finds each cached block as the tree search does, so cache lookups and the tree agree. |
| StoreState.FindResolved | crafttask/store.go:56-70 | A block that resolves into a well-formed map is found there under its own id, at a position that holds it. |
| StoreState.FindMapByParentSpec | crafttask/store.go:40-54 | In a consistent store findMapByParent succeeds exactly for `root` and cached ids, with no panic and only errBlockDoesNotExist. A block's map is the children of the block findBlockById finds. |
| StoreState.FoundFacts | crafttask/store.go:40-54 | A resolved map is well formed, is described with its owner as parent, and its ids and those outside it partition the tree. |
| StoreState.FindMapFrame | crafttask/store.go:40-54 | Adding cache entries does not change what an id resolves to. |
| StoreState.FindAfterReplace | crafttask/store.go:40-54 | After the map at a parent's path is changed, with the cache kept along the path, the parent resolves to the changed map. |
| StoreState.FindAfterGrow | crafttask/store.go:40-54 | The same, for a cache that only gains entries. |
| StoreState.DetachWF | crafttask/store.go:97 | Deleting a block from a reached map keeps the tree well formed, and removes exactly the block's subtree. |
| StoreState.DetachAgrees | crafttask/store.go:97-99 | After the subtree's cache entries are removed, the cache describes what remains. |
| StoreState.DetachPreserves | crafttask/store.go:97-108 | Delete plus recursive unlinking keeps the store consistent, and removes exactly the block's subtree from the tree. |
| StoreState.AttachWF | crafttask/store.go:85 | A subtree new to the tree, added to a reached map, keeps the tree well formed and adds exactly its ids. |
| StoreState.AttachIds | crafttask/store.go:85 | The ids of a reached map after a subtree is added, and those of the whole tree. |
| StoreState.AttachAgrees | crafttask/store.go:84-85 | A cache that keeps every old entry and describes the added subtree describes the new tree. |
| StoreState.AttachPreserves | crafttask/store.go:84-85 | Adding a fresh subtree to a reached map, with matching new cache entries, keeps the store consistent. |
| StoreState.AttachLeaf | crafttask/store.go:79-85 | Inserting a new empty block with its one cache entry keeps the store consistent and adds exactly its id. |
| Cloning.CloneBlock | crafttask/store.go:137-145 | The copy's root takes the next id, keeps the original's content and is linked to the given parent, and the counter ends at or above that id. CloneBlockFresh and CloneBlockShape state the rest of the copy. |
| Cloning.CloneKids | crafttask/store.go:141-143 | Copying children never moves the counter back, and it moves forward exactly when some child was copied, i.e. exactly when the copy has cache entries. CloneKidsFresh and CloneKidsShape state the rest. |
| Cloning.CloneBlockFresh | crafttask/store.go:137-145 | The copy's root takes the next id, every copied id is above the old counter, the copy is well formed, and its cache entries describe it, with the root linked to the given parent. |
| Cloning.CloneKidsFresh | crafttask/store.go:141-143 | Copied children get fresh ids and form a well-formed map, and their cache entries describe them under the copied parent. |
| Cloning.CloneBlockShape | crafttask/store.go:137-145 | A copy has the contents of the original, with children in the same order, at every level. |
| Cloning.CloneKidsShape | crafttask/store.go:141-143 | The copied children list the same contents in the same order as the originals. |
| Cloning.JoinIds | crafttask/store.go:141-143 | A copied child and its later siblings' copies have disjoint ids, all fresh, and form a well-formed map. |
| Cloning.JoinLinks | crafttask/store.go:140-143 | The cache entries of a copied child and of its siblings' copies describe them together. |
| StoreOps.InsertOne | crafttask/store.go:73-86 | One insert operation succeeds exactly when the parent's map resolves. It then advances the counter once and links the new id to the given parent. |
| StoreOps.InsertOneInv | crafttask/store.go:73-86 | In a consistent store an insert fails exactly when the parent is neither `root` nor cached, with errBlockDoesNotExist. Otherwise the invariant holds and the tree gains exactly the fresh id. |
| StoreOps.InsertOneOk | crafttask/store.go:78-85 | A successful insert keeps the invariant and adds exactly the next id. |
| StoreOps.InsertOneFind | crafttask/store.go:78-85 | After an insert, findBlockById finds the new block, with the given content and no children, at the clamped index of the parent's map. |
| StoreOps.InsertOneLocates | crafttask/store.go:78-85 | The new block is found in the grown map of its parent. |
| StoreOps.InsertBlocks | crafttask/store.go:72-88 | A batch takes at most one id per operation, and it takes exactly one per operation iff it stops on no error. The cache only gains entries. InsertBlocksInv and InsertBlocksSplit state the rest. |
| StoreOps.InsertBlocksInv | crafttask/store.go:72-88 | Every batch keeps the invariant, whether or not it stops early, and the only error it stops with is errBlockDoesNotExist. |
| StoreOps.InsertBlocksSplit | crafttask/store.go:72-88 | A batch runs in request order: the rest runs on the first part's store unless the first part stopped, in which case the whole batch stops there with the earlier inserts kept. |
| StoreOps.DeleteOne | crafttask/store.go:91-100 | Deleting an uncached id changes nothing. Deleting never touches the counter and never adds cache entries. |
| StoreOps.DeleteOneSpec | crafttask/store.go:90-108 | Deleting keeps the invariant. A cached block and exactly its descendants leave both the tree and the cache, its parent's map loses exactly it, and looking it up afterwards fails with errBlockDoesNotExist. |
| StoreOps.DeleteOneDetaches | crafttask/store.go:97-99 | Deleting a cached block removes exactly its subtree from both the tree and the cache. |
| StoreOps.DeleteBlocks | crafttask/store.go:90-101 | A batch of deletes takes no ids and only removes cache entries. A batch of uncached ids leaves the store as it was. DeleteBlocksSpec and DeleteBlocksIdempotent state the rest. |
| StoreOps.DeleteBlocksAbsent | crafttask/store.go:92-96 | A batch of uncached ids changes nothing. |
| StoreOps.DeleteBlocksSpec | crafttask/store.go:90-101 | After a batch of deletes the invariant holds, the counter is unchanged, no cache entry is added, and none of the listed ids is cached. |
| StoreOps.DeleteBlocksIdempotent | crafttask/store.go:90-101 | Deleting the same ids a second time gives the same state as deleting them once. |
| StoreOps.Fetch | crafttask/store.go:110-121 | fetch never returns more blocks than were requested. |
| StoreOps.FetchSpec | crafttask/store.go:110-121 | In a consistent store fetch returns, in request order, one block per cached id, each the block stored in the tree under that id. Uncached ids contribute nothing. |
| StoreOps.FetchAppend | crafttask/store.go:112-119 | Fetching a concatenation of requests is fetching each; no id's result depends on another. |
| StoreOps.PresentAll | crafttask/store.go:112-119 | When every requested id is cached, none is skipped. |
| StoreOps.Duplicate | crafttask/store.go:123-135 | duplicate succeeds exactly when findBlockById does, and otherwise fails with its error. The copy takes the next id. |
| StoreOps.MergeFresh | crafttask/store.go:140 | Cache entries for ids above every cached id add to the cache without overwriting any entry. |
| StoreOps.DuplicateInv | crafttask/store.go:123-145 | In a consistent store duplicate fails exactly for uncached ids, with errBlockDoesNotExist. Otherwise: the invariant holds; the copy has the original's shape and a fresh id linked to the original's parent; the tree gains exactly the copy's ids; no old cache entry changes. |
| StoreOps.DuplicatePlaced | crafttask/store.go:132-133 | The copy is inserted right after the original (index + 1) in the original's map, and both are linked to the original's parent. |
| StoreOps.DuplicateLinks | crafttask/store.go:137-145 | After a duplicate every old cache entry is kept and the copy is linked to the original's parent. |
| StoreOps.ResolvesAfterInsert | crafttask/store.go:133 | After the copy is inserted, the original's parent resolves to the grown map. |
| StoreOps.PlacedBeside | crafttask/store.go:133 | With the copy inserted at index + 1, findBlockById finds the copy there and the original unchanged at its old index. |
| StoreOps.Move | crafttask/store.go:147-161 | A failed move leaves the store unchanged. A successful move keeps the counter, and its only cache change points the block at the new parent. |
| StoreOps.MoveDetached | crafttask/store.go:152-154 | Once the block is detached, the new parent still resolves, to its map without the block. |
| StoreOps.MoveStore | crafttask/store.go:152-159 | A successful move is a delete of the block followed by an insert of the same block into the new parent's map. |
| StoreOps.MoveOk | crafttask/store.go:147-161 | A successful move keeps the invariant and the set of ids in the tree. |
| StoreOps.FoundBlockFacts | crafttask/store.go:148 | A found block brings along a well-formed subtree that the cache describes. |
| StoreOps.MoveAttach | crafttask/store.go:159 | Inserting the detached block into the new parent's map restores a consistent store with the same ids. |
| StoreOps.Reattach | crafttask/store.go:152-159 | A subtree taken out with its cache entries and put back anywhere in what remains, with its entry naming the new owner, gives a consistent store with the same ids. |
| StoreOps.MoveErrors | crafttask/store.go:147-161 | In a consistent store move fails exactly when a check fails: errBlockDoesNotExist for an uncached block, errParentBlockDoesNotExist for an unresolvable parent, errBlockMovedToItsChild for a parent inside the block's subtree. It never panics. |
| StoreOps.MoveFind | crafttask/store.go:152-159 | After a move the block is found, unchanged, at the clamped index of the map the new parent had once the block was deleted. |
| Frames.ReplacedWF | crafttask/store.go:85 | A map put in place without breaking well-formedness is itself well formed. |
| Frames.ChangeInside | crafttask/store.go:85 | An id of the changed map that the new map finds as the old one did is found unchanged, and is not on the path. |
| Frames.ChangeKeeps | crafttask/store.go:85 | Changing the map at a path so that its old ids are found as before keeps every block of the tree as `Keeps` states. |
| Frames.InsertKeeps | crafttask/store.go:85 | Adding a new block to a reached map keeps every block already in the tree. |
| Frames.DeleteKeeps | crafttask/store.go:97 | Removing a block from a reached map keeps every block outside its subtree. |
| Frames.KeepsKept | crafttask/store.go:56-70 | In consistent stores, what the tree keeps of a block is what findBlockById keeps. |
| Frames.InsertKept | crafttask/store.go:84-85 | A new block added to a reached map keeps every cached block. |
| Frames.DeleteKept | crafttask/store.go:97-99 | Removing a block keeps every cached block outside its subtree. |
| Frames.InsertOneFrame | crafttask/store.go:72-88 | An insert changes only the parent's map. Every cached block keeps its content, blocks off the path to the parent are unchanged, and only the parent's children gain a key. |
| Frames.DeleteOneFrame | crafttask/store.go:90-108 | A delete changes only the map that held the block. Every block that stays cached keeps its content, blocks off that map's path are unchanged, and only the deleted block's parent loses a child. |
| Frames.DuplicateFrame | crafttask/store.go:123-135 | A duplicate changes only the original's map. Every cached block keeps its content, blocks off that map's path are unchanged, and only the original's parent gains a child. |
| Frames.StaysCached | crafttask/store.go:97-99 | A cached block outside the deleted subtree keeps its cache entry. |
| Frames.MoveFrame | crafttask/store.go:147-161 | For every block outside the moved subtree, the delete step and the insert step of a move each keep what their own frame promises, for the old and the new parent's map. |
| Frames.MoveInsertKept | crafttask/store.go:159 | The insert step of a move keeps every block that the delete step left. |
| Frames.MovedBefore | crafttask/store.go:148 | Before a move, the moved block and its descendants are found below the moved block. |
| Frames.MovedAfter | crafttask/store.go:159 | After a block is inserted into a map, it and its descendants are found as in the inserted block. |
| Frames.MoveSubtree | crafttask/store.go:147-161 | The moved block and every block below it are found after the move exactly as before. |
| AsWritten.PathToNodeAsWritten | crafttask/store.go:20-37 | The loop as written returns the empty path for `root`. |
| AsWritten.PathLoop | crafttask/store.go:26-35 | When the loop as written returns a path, the walked id's cache entry is `root` and the path is the one it started with. When it returns an error, the id is uncached and the error is errBlockDoesNotExist. PathLoopDiverges and PathToNodeAsWrittenEnds state when it never returns. |
| AsWritten.PathLoopDiverges | crafttask/store.go:26-35 | The loop as written never ends once the block's parent is not `root`, however many iterations it runs. |
| AsWritten.PathToNodeAsWrittenHangs | crafttask/store.go:20-37 | For a block below the top level, pathToNode as written never returns. |
| AsWritten.PathToNodeAsWrittenExample | crafttask/store.go:20-37 | With block 2 under block 1, pathToNode(2) as written does not return, while the intended walk gives [2, 1]. |
| AsWritten.PathToNodeAsWrittenShallow | crafttask/store.go:20-37 | Where the loop as written does end (at `root`, for an uncached id, one level down), it agrees with the intended walk. |
| AsWritten.PathToNodeAsWrittenEnds | crafttask/store.go:20-37 | pathToNode as written returns exactly for `root`, an uncached id and a top-level block, and whenever it returns it agrees with the intended walk. |
| AsWritten.FindMapByParentAsWritten | crafttask/store.go:40-54 | `root` gives the top-level map. Given fuel, an uncached id fails with errBlockDoesNotExist. A returned map is the one the path reaches, and for an id other than `root` that path is the id alone, with its cache entry `root`. FindMapAsWrittenEnds states when it returns. |
| AsWritten.FindMapAsWrittenEnds | crafttask/store.go:40-54 | findMapByParent on top of pathToNode as written returns exactly where pathToNode does, with the intended result. |
| AsWritten.FindBlockByIdAsWritten | crafttask/store.go:56-70 | findBlockById as written fails with errBlockDoesNotExist for an uncached id, and finds only cached ids. |
| AsWritten.FindAsWrittenEnds | crafttask/store.go:56-70 | findBlockById as written returns exactly when the block is uncached or its parent's lookup ends, and then with the intended result. |
| AsWritten.FindEndsDepth | crafttask/store.go:56-70 | In a consistent store, findBlockById as written returns for a cached block exactly when the block is at the top level or one level below it. |
| AsWritten.FetchLoopAsWritten | crafttask/store.go:112-119 | The loop appends at most one block per requested id, and nothing when no requested id is cached. FetchLoopEnds states when it returns and what it appends. |
| AsWritten.FetchAsWritten | crafttask/store.go:110-121 | A returned result starts with one zero block per requested id and holds at most twice as many blocks as ids. With no cached id it is exactly the zero blocks. FetchAsWrittenLonger and FetchAsWrittenDoubles state the rest. |
| AsWritten.FetchLoopEnds | crafttask/store.go:112-119 | fetch's loop as written never returns when one requested block's lookup does not; otherwise it appends exactly what the intended fetch returns. |
| AsWritten.FetchAsWrittenLonger | crafttask/store.go:110-121 | In a consistent store, fetch as written never returns when a requested block lies two levels or more below the top. Otherwise it returns one zero block per requested id, followed by the intended fetch's blocks: never fewer blocks than ids requested, and more as soon as one requested id exists. |
| AsWritten.PresentNonEmpty | crafttask/store.go:112-119 | A request with a cached id has at least one id that fetch does not skip. |
| AsWritten.FetchAsWrittenDoubles | crafttask/store.go:110-121 | When every requested id exists, fetch as written returns exactly when every requested block is at the top level or one below it, and then returns twice as many blocks as requested. |
| AsWritten.DuplicateAsWritten | crafttask/store.go:123-135 | duplicate as written, its lookup through pathToNode as written, fails with errBlockDoesNotExist for an uncached id. |
| AsWritten.OriginalInserted | crafttask/store.go:128-133 | Once the block is found, duplicate as written hands back the original block. It advances the counter, keeps every cache entry, and links the next id to the original's parent. DuplicateAsWrittenBreaksInv states what breaks. |
| AsWritten.DuplicateAsWrittenBreaksInv | crafttask/store.go:123-145 | duplicate as written never returns for a block two levels or more below the top. For any other existing block it returns the original block with its old id and leaves the store inconsistent. |
| AsWritten.DuplicateCorrectedCopies | crafttask/store.go:123-145 | The intended duplicate returns a copy with a new id and keeps the store consistent. |
| AsWritten.MoveWalkFixed | crafttask/store.go:147-161 | With pathToNode corrected, move fails on an uncached block with errBlockDoesNotExist and changes nothing. It takes no ids. Its cache is either unchanged or has the block's entry re-pointed at the new parent, and on success it is re-pointed. MoveWalkFixedKeepsDetached states what a failure on an unknown parent keeps, and MoveAsWrittenUnknownParent that such a store is no longer consistent. |
| AsWritten.MoveAsWritten | crafttask/store.go:147-161 | move as written fails on an uncached block with errBlockDoesNotExist and changes nothing. When it returns it takes no ids, and its cache is unchanged or has the block re-pointed at the new parent, re-pointed on success. MoveAsWrittenEnds, MoveAsWrittenUnknownParent and MoveAsWrittenCycle state the rest. |
| AsWritten.MoveAsWrittenEnds | crafttask/store.go:147-161 | move as written never returns when the block's lookup does not, or when the new parent's lookup, made after the block's entry is re-pointed, does not. Whenever it returns it does what move does with pathToNode corrected. |
| AsWritten.MoveAsWrittenUnknownParent | crafttask/store.go:147-161 | move as written, to a parent that does not exist, never returns for a block two levels or more below the top. Otherwise it reports errParentBlockDoesNotExist but leaves the block out of the tree with its cache entry present, so the store is inconsistent. The intended move reports the same error and changes nothing. |
| AsWritten.CachedButMissing | crafttask/store.go:5-8 | A cache entry for an id missing from the tree breaks the invariant. |
| AsWritten.MoveAsWrittenCycle | crafttask/store.go:147-161 | Moving a block under itself or any block of its subtree closes a cycle in the cache. pathToNode as written never returns for the new parent, so move itself hangs. With pathToNode corrected, move reports the inconsistent state with the block detached and the store inconsistent. The intended move refuses with errBlockMovedToItsChild and changes nothing. |
| AsWritten.MoveAsWrittenAgrees | crafttask/store.go:147-161 | When the intended checks pass, move with pathToNode corrected gives the intended move's result, and so does move as written whenever it returns. |
| Scenarios.InsertInFront | crafttask/orderedmap_test.go:19-33 | After Set of one key and Insert of another at 0, the keys read [second, first] and the second key is at index 0. |
| Scenarios.SetInOrder | crafttask/orderedmap_test.go:46-57 | Two keys set one after the other keep that order, so the ordered values follow it. |
| Scenarios.SetThenDelete | crafttask/orderedmap_test.go:35-44 | A key set and then deleted is gone. |
| Scenarios.InsertTwo | crafttask/store.go:72-88 | Two inserts at the top level of an empty document, at indexes 0 and 1, succeed. They take the next two ids and are found with their contents, in that order. |
| Scenarios.InsertTest | crafttask/store_test.go:10-34 | In the process's first store, whose counter has issued nothing, the two inserted blocks get ids 1 and 2 and keep their contents. |
| Scenarios.DeleteTest | crafttask/store_test.go:36-59 | Run first in its process, once block 1 is deleted, looking it up fails with errBlockDoesNotExist. |
| Scenarios.DeleteTestInSuite | crafttask/store_test.go:36-59 | Run after the insert test, the delete test's blocks are 3 and 4: deleting block 1 is skipped and leaves the store as it was, and the lookup of block 1 fails although nothing was deleted. |
| Scenarios.FetchTest | crafttask/store_test.go:122-145 | Run first in its process, fetching [1, 2] returns the two blocks in order with their contents, while fetch as written, whose lookups return for top-level blocks, returns four blocks. |
| Scenarios.FetchTestAsWritten | crafttask/store_test.go:139-142 | In the fetch test's store, fetch as written returns four blocks for [1, 2]. |
| Scenarios.FetchTopTwo | crafttask/store.go:110-121 | For two top-level blocks 1 and 2, fetch as written returns, with four blocks. |
| Scenarios.DuplicateTest | crafttask/store_test.go:61-93 | Run first in its process, duplicating block 1, which has one child, gives a copy with block 1's content and one child with the child's content. |
| Scenarios.TwoTaken | crafttask/store_test.go:16-23 | The tests' two top-level inserts take two ids from the shared counter. |
| Scenarios.ParentOneMissing | crafttask/store_test.go:61-93 | In a store created after ids were issued, there is no block 1: the insert under parent 1 and the duplicate of block 1 both fail with errBlockDoesNotExist. |
| Scenarios.DuplicateTestInSuite | crafttask/store_test.go:61-93 | With the tests run in file order in one process, the duplicate test's first block is block 5, and its insert under parent 1 and its duplicate of block 1 fail. |

## Left out

- HTTP, routing and wire types (`api.go`, `server.go`, `main.go`, `viewmodels.go`) are request plumbing. Insert operations appear only as the plain record `InsertOp(parent, content, index)`.
- `export` is an empty stub (crafttask/store.go:163-165), so there is nothing to model.
- `Keys` and `Values` (crafttask/orderedmap.go:74-80) only return the fields `keys` and `values` of `OMap`.
- Concurrency: the counter is a `sync/atomic` value in Go. Here it is explicit sequential state in the store, threaded through each operation and handed from one store to the next by `NewStore`.
- uint64 overflow of ids is not modelled; ids are `nat`.
- Negative indexes are not modelled; indexes are `nat`. A negative index makes Go's slice helper panic.
- Go's map iteration order is unspecified:
  - recursive unlinking is modelled set-wise, dropping the whole subtree's ids at once;
  - the deep copy visits children in key order.
- The panics "inconsistent internal state" (store.go:49, 67, 130) become the error `Error.InconsistentState` in the functions that return a `Result`: findMapByParent, findBlockById, insert, duplicate and move. The model proves that it cannot occur under the invariant.
- StoreOps.DeleteOne: it skips an id whose lookup fails for any reason, the inconsistent state included, where Go would panic. Under the invariant a lookup only fails with errBlockDoesNotExist (`StoreState.FindBlockByIdSpec`), so the two agree on every consistent store.
- StoreOps.Fetch: like delete, it skips an id whose lookup fails for any reason, the inconsistent state included, where Go would panic. On consistent stores the two agree.
- A cache cycle, on which the source would loop forever, also becomes `Error.InconsistentState` in the model.
- The zero `block{}` that findBlockById returns with an error, whose `subblocks` pointer is nil, is modelled as an `Err` with no block.
- DuplicateAsWritten: it inserts the original block under the new id but keeps the model's value semantics. The shared `*orderedMapOfBlocks` between the original and the inserted block is therefore two equal values, not one aliased map.
- FetchAsWritten, DuplicateAsWritten and MoveAsWritten look blocks up through pathToNode as written with a `fuel` bound on its loop; `None` stands for a call that never returns, and the lemmas show `None` for every fuel where Go hangs. `MoveWalkFixed` is move with only pathToNode corrected, so that the remaining bugs of move show on their own. Insert and delete in the main model use the corrected walk; the hang they share with the others is the pathToNode finding.
- OrderedMap.GetAndIndex: its index is only constrained for valid maps. For an invalid map with duplicate keys, `LastIndex` states which index the loop reports.
- The commented-out move test (crafttask/store_test.go:95-120) is not restated. Its expectation compares the moved block with block 2. `StoreOps.MoveFind` states where the moved block ends up.

## Findings

| source | as written | input that shows it | evidently intended | confidence | as-written member | corrected member |
|---|---|---|---|---|---|---|
| crafttask/store.go:26-35 | The loop looks up `parentsCache[parentId]` but never assigns the parent to `parentId`. | Cache {1→root, 2→1}; `pathToNode(2)` never returns, and its slice grows without bound (store.go:34). | Walk up one link per iteration, returning [2, 1]. | high, not executed | AsWritten.PathToNodeAsWrittenExample | Paths.ChainIsPath |
| crafttask/store.go:111 | `make([]block, len(idsToFetch))` creates `len` zero blocks, and found blocks are appended after them. | Two blocks inserted at the top level, then `fetch([1, 2])`: four blocks, the first two zero; the test expects two (store_test.go:142). The fix alone does not make the test pass: its `assert.Contains` (store_test.go:143-144) looks for a `blockRequest` in a `[]block`, which never matches. | `make([]block, 0, len(idsToFetch))`. | high, not executed | AsWritten.FetchAsWrittenDoubles | StoreOps.FetchSpec |
| crafttask/store.go:132-133 | `recursiveSetNewIds` changes a by-value copy, so the original block, with its old id and shared children, goes into the map under the new id and is returned. | `duplicate(1)` on a store with block 1: the map holds block 1 under key 2, and the caller gets id 1 back. | Insert and return a deep copy carrying the fresh ids. | high, not executed | AsWritten.DuplicateAsWrittenBreaksInv | StoreOps.DuplicateInv |
| crafttask/store.go:152-158 | The block is deleted and its cache entry re-pointed before the new parent is resolved, and the error return keeps both changes. | `move(1, NewParentId: 99)` with no block 99: errParentBlockDoesNotExist, block 1 is gone from the tree, and its cache entry names 99. | Check first, change nothing on failure. | high, not executed | AsWritten.MoveAsWrittenUnknownParent | StoreOps.Move |
| crafttask/store.go:147-161 | No check that the new parent lies outside the moved block, although errors.go:7 declares errBlockMovedToItsChild. | Block 2 under block 1; `move(1, NewParentId: 2)`: the cache gets 1→2 and 2→1, and move's own `findMapByParent(2)` (store.go:154) never returns. Even with the walk fixed, it meets block 2 twice, and block 1 stays detached. | Fail with errBlockMovedToItsChild and change nothing. | high, not executed | AsWritten.MoveAsWrittenCycle | StoreOps.MoveErrors |
| crafttask/store_test.go:77 | The duplicate test inserts its child under the hard-coded parent 1. But ids come from one process-wide counter (id.go:5) that `NewInMemoryStore` does not reset. | The three store tests in file order in one process: the insert test takes ids 1 and 2 and the delete test takes 3 and 4. The duplicate test's block is then 5, and its insert under parent 1 fails with errBlockDoesNotExist. Its `duplicate(1)` fails too and returns the zero block, whose `subblocks` pointer is nil. Reading `duplicatedBlock.subblocks.values` (store_test.go:91) then dereferences nil, the test binary panics, and in that order the fetch test (store_test.go:122-145) never runs. | Insert the child under the id the first insert produced, or start each store with its own counter. | high, not executed | Scenarios.DuplicateTestInSuite | Scenarios.DuplicateTest |
