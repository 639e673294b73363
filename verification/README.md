# walgit: a verified model of its algorithms and protocols

walgit is a Git server whose commit point is a manifest in an object store. This project models its
graph algorithms, its caches and its crash-tolerant protocols in Dafny, and proves what they promise.
`dafny verify dfyconfig.toml` checks everything.

| part | files |
|---|---|
| Shared definitions: reachability, Git objects as a graph, sorted id lists, sequence facts | `Reachability`, `Objects`, `SortedOids`, `Seqs`, `Basics`, `Lex` |
| The import map plugin: strongly connected components and renaming, dependencies first | `Tarjan`, `ImportMap`, `BareSpecifiers` |
| Refs: sorted vector, overlay, map merge, packed text, prefix selection, the cache under concurrency | `RefNames`, `RefStore`, `PackedRefs`, `LsRefs`, `RefsCache` |
| What the store holds: accepting a push, and maintenance's link check | `Connectivity`, `ObjectLinks` |
| What a fetch sends: tree comparison with absent objects, the retry loop, depth limits | `Enumerate`, `FetchCompleteness`, `Shallow` |
| Packs: groups, conserving cuts that survive crashes, classification by counting | `PackGroups`, `Inventories`, `PackSegments`, `PackClasses` |
| Publishing: direct import into a bucket, the events bridge | `Manifests`, `DirectImport`, `Bridge` |
| Codecs and matching: log frames, pkt-lines, URI splicing, globs | `Frames`, `PktLines`, `PackfileUris`, `Glob` |

How things are modelled:

- Git objects are opaque ordered ids with contents in a finite map. `Objects.Contents` gives what an id
  stands for; which ids a store holds is a separate set. Gitlinks are not references.
- Code that updates variables in loops or through recursion is a method with those variables, and a
  class where fields outlive a call (`Tarjan.Run`, `RefStore.RefView`, `PktLines.Sideband`,
  `PktLines.ByteStream`, `Connectivity.Repository`). Its contract is a specification function or
  predicate, about which the lemmas prove what the code promises.
- Concurrency and crashes are state machines over single steps: `RefsCache`, `DirectImport` and `Bridge`
  each have a `Step` type, a `Next` function and theorems over every run. A failed operation that only
  returns an error is a crash of that process at that point.
- Git commands are their effect on sets: `update-ref` an atomic map update, `rev-list` and the revision
  walk a parameter bound by what it may list, `pack-objects` a parameter that indexes exactly its input,
  `sort` and `comm` operations on sorted lists. The bucket is a map plus manifest versions that are never
  reused.

Seven results say that something does not hold in general, and exactly where it does:

- Import specifiers are distinct if and only if no chunk is named like a numbered specifier
  (`BareSpecifiers.BareDistinctExactly`), and when final names differ the import map is right if and only
  if they are (`ImportMap.ImportsRightExactly`).
- Comparing trees over several generations can lose an object (`FetchCompleteness.SeveralGenerationsCanLose`).
  In any order of the walk, a fetch is complete whatever the trees are if and only if every commit that has
  parents has one that the haves reach or that was visited before it (`FetchCompleteness.CompleteExactly`).
- The events bridge reads the log with a newer manifest than the one it started from. A checkpoint in
  between loses entries (`Bridge.FoldDuringCatchUp`); without failures nothing is lost if and only if
  min_seq is at most the start plus one at every log read (`Bridge.LostExactly`).
- A pushed tree may name another tree under a blob's mode, and the push check does not look below it
  (`Connectivity.AcceptsWronglyNamedTree`). Accepting gives whole closures if and only if those of such
  objects are whole (`Connectivity.CheckConnectivity`).
- The packed-refs reader trims White_Space that ref names may end with (`PackedRefs.NameThatIsTrimmed`).
  Text reads back if and only if nothing starts or ends with it (`PackedRefs.WrittenReadsBack`).
- Repeating a completed import is recognised if and only if its history pack was not already committed as
  another kind of pack (`DirectImport.RepeatChangesNothing`).
- The pkt-line buffer encoder writes what reads back if and only if the data is shorter than 65532 bytes
  (`PktLines.BufferEncoderExact`).

## Model

| member | source | states |
|---|---|---|
| Tarjan.StronglyConnectedComponents | web/plugins/importmap.ts:157-191 | For any finite graph whose edges stay within the nodes the recursion ends, and the result is whole strongly connected components, no vertex twice, every vertex once, each component after every component it has an edge into |
| Tarjan.Run.Visit | web/plugins/importmap.ts:164-188 | One recursive visit keeps the relation between the numbers, the stack and the chain of open visits, and leaves in `low` the number of the lowest stack vertex an edge from the visited part leads to |
| Tarjan.Run.FollowEdge | web/plugins/importmap.ts:170-177 | One edge: a new target is visited, a target on the stack lowers `low` by its number, a finished one changes nothing |
| Tarjan.Run.PopComponent | web/plugins/importmap.ts:178-187 | What is popped down to a root is emitted sorted, as one whole component, and the rest of the stack stays as it was |
| Tarjan.TopIsMutual | web/plugins/importmap.ts:178-187 | Everything from a root upwards on the stack reaches the root and is reached from it |
| Tarjan.TopIsClosed | web/plugins/importmap.ts:178-187 | When `low` equals the number, no edge leaves the popped vertices except to finished components |
| Tarjan.NoGrayMeansEmitted | web/plugins/importmap.ts:189-190 | When no visit is open the stack is empty: every numbered vertex has been emitted |
| Tarjan.Partition | web/plugins/importmap.ts:156-191 | Every vertex lies in exactly one emitted component, which is its class of mutual reachability |
| Tarjan.DependencyComesFirst | web/plugins/importmap.ts:156-156 | Whatever a member reaches was emitted with it or earlier |
| ImportMap.StaticClosure | web/plugins/importmap.ts:61-74 | With any exact memo the recursive closure adds exactly what a chunk's static imports lead to, on cyclic imports too |
| ImportMap.ClosureMemo | web/plugins/importmap.ts:75-75 | The memo loop ends with every entry equal to true reachability |
| ImportMap.HashDeps | web/plugins/importmap.ts:76-85 | Exactly the dynamic imports and what is fetched statically with them, each once, without the chunk itself |
| ImportMap.RenameComponent | web/plugins/importmap.ts:94-133 | One component: its hash is taken over the members in order, each with its specifier and a list in which a member stands under its specifier and any other chunk under the final name it got before; every member is stamped with it, and each preload list has exactly the member's hash dependencies, a member as the final name of the first member with its specifier, others by the names recorded before |
| ImportMap.DependencyRenamed | web/plugins/importmap.ts:112-115 | When a component's turn comes, every hash dependency outside it already has its final name |
| ImportMap.RenameChunks | web/plugins/importmap.ts:42-133 | Every chunk is renamed; each preload list has exactly the chunk's hash dependencies, one of another component by its final name, one of the same component by that of the first chunk there with its specifier; the import map has exactly the specifiers, each with the final name of a chunk that has it; each final name is the stamp of the hash of the component's code in which dependencies stand under their own final names |
| ImportMap.ListRightExactly | web/plugins/importmap.ts:116-126 | When final names differ, a preload list has every dependency under its own final name if and only if each one in the chunk's component comes first there among the chunks with its specifier |
| ImportMap.DistinctListsRight | web/plugins/importmap.ts:116-126 | With distinct specifiers every preload list has every dependency under its own final name |
| ImportMap.ImportsRightExactly | web/plugins/importmap.ts:93-132 | The import map is right for every chunk if and only if chunks with one specifier have one final name; when final names differ, if and only if specifiers are distinct |
| ImportMap.SameCodes | web/plugins/importmap.ts:112-118 | Names given to later components leave what an earlier one was hashed over as it was |
| BareSpecifiers.Assign | web/plugins/importmap.ts:42-49 | A chunk that no earlier one shares its name with gets its name, any other its name, a tilde and the number of earlier ones in decimal digits |
| BareSpecifiers.BareDistinctExactly | web/plugins/importmap.ts:42-49 | Specifiers are pairwise distinct if and only if no chunk is literally named like the numbered specifier of a repeated name |
| BareSpecifiers.ClashExample | web/plugins/importmap.ts:42-49 | Chunks a, a and a~1 collide: the numbering alone does not keep specifiers apart |
| RefStore.BinarySearch | crates/walgit-git/src/lib.rs:534-541 | Finds the name, or the place between smaller and larger names where it would go |
| RefStore.PatchSnapshot | crates/walgit-git/src/lib.rs:1377-1435 | The vector edited update by update is sorted, without duplicates, and holds what the updates say: a name whose last update carries only zeros is gone, one whose last update carries anything else has exactly that id and the recorded peel, or for a tag the one looked up; names without an update stay as they were; HEAD points where its last symbolic update says |
| RefStore.VectorUnique | crates/walgit-git/src/lib.rs:1377-1435 | A set of refs has only one such vector, so two ways of building it agree |
| RefStore.RefView.GetRef | crates/walgit-git/src/lib.rs:530-543 | Overlay first, then binary search: the id of any name but HEAD in the state the view stands for |
| RefStore.RefView.Get | crates/walgit-git/src/lib.rs:530-566 | The same with HEAD resolved through its target, or answered by the overlay when an update named HEAD itself |
| RefStore.BuildView | crates/walgit-git/src/lib.rs:1138-1172 | A view over a cached snapshot and its pending transactions shows, name by name, what the last update of the name says, and otherwise the snapshot: what folding them in would give |
| RefStore.AllPatch | crates/walgit-git/src/lib.rs:1377-1435 | Applying any list of transactions leaves, for each name, exactly what its last update that is not symbolic says, and HEAD where its last symbolic update says |
| PackedRefs.MergeTxns | crates/walgit-git/src/lib.rs:1494-1535 | The map merge accepts exactly updates with well-formed names and ids, or of HEAD's target, and then gives what the last update of each name says |
| PackedRefs.UpdateSpelled | crates/walgit-git/src/lib.rs:77-129 | Which updates validation accepts, character by character: ref names, 40 or 64 hexadecimal digits or zeros, and symbolic updates of HEAD alone |
| PackedRefs.MergeAgreesWithPatch | crates/walgit-git/src/lib.rs:1504-1548 | The map's records in name order are the patched vector |
| PackedRefs.WritePackedRefs | crates/walgit-git/src/lib.rs:1439-1464 | The text is the header and each ref's lines, a peel line where there is one |
| PackedRefs.ReadPackedRefs | crates/walgit-git/src/lib.rs:3027-3051 | Whatever a text holds: a ref is found when some line that is no comment and no peel names it behind its first space; it has the trimmed id of the last such line and the last peel that follows that line before the next ref, or none |
| PackedRefs.LinesSay | crates/walgit-git/src/lib.rs:3031-3032 | Lines end at a newline, with or without a carriage return before it, and the last one may lack both |
| PackedRefs.NamesWhatIsParsed | crates/walgit-git/src/lib.rs:3043-3049 | What the reader makes of a line is what the line names: the text before and behind its first space, each without the White_Space around it |
| PackedRefs.ReadFromDisk | crates/walgit-git/src/lib.rs:3009-3086 | A read of any repository directory: a loose file with something in it wins over the packed text and has no recorded peel, other refs are the packed ones; a tag without a peel is peeled, and only a tag; HEAD is symbolic exactly when its trimmed text starts with ref and a colon |
| PackedRefs.TrimKeepsExactly | crates/walgit-git/src/lib.rs:3035-3044 | Trimming leaves alone exactly the text that neither starts nor ends with Unicode White_Space |
| PackedRefs.ValidIsWritable | crates/walgit-git/src/lib.rs:77-114 | Every valid ref can be written as lines, and survives trimming exactly when its name does not end with White_Space |
| PackedRefs.WrittenReadsBack | crates/walgit-git/src/lib.rs:3027-3051 | The text of a sorted vector reads back as exactly its records if and only if no name or id starts or ends with White_Space |
| PackedRefs.NameThatIsTrimmed | crates/walgit-git/src/lib.rs:77-104 | A valid name, refs/heads/x followed by U+00A0, that is read back as refs/heads/x |
| PackedRefs.HeadReadsBack | crates/walgit-git/src/lib.rs:3009-3023 | HEAD's target reads back if and only if it neither starts nor ends with White_Space |
| PackedRefs.OfflineReadsBack | crates/walgit-git/src/lib.rs:1494-1548 | End to end: what the next read finds, HEAD included and tags peeled again, is the state with all transactions applied, if and only if nothing in it starts or ends with White_Space |
| LsRefs.PartitionPoint | crates/walgit-git/src/lib.rs:1876-1876 | The first index whose name is not below the prefix |
| LsRefs.PrefixRange | crates/walgit-git/src/lib.rs:1875-1886 | Search and scan find exactly the indices of the refs with the prefix |
| LsRefs.MergeRanges | crates/walgit-git/src/lib.rs:1888-1903 | Sorted ranges and a cursor list exactly the covered refs, in order and once each |
| LsRefs.SelectPrefixes | crates/walgit-git/src/lib.rs:1870-1906 | Exactly the refs that match at least one prefix, once each and in name order, for duplicate and nested prefixes |
| LsRefs.ListHead | crates/walgit-git/src/lib.rs:1919-1946 | HEAD is listed last exactly when a prefix of HEAD was asked for, with its target's id, or as unborn on request |
| LsRefs.LsRefs | crates/walgit-git/src/lib.rs:1845-1947 | The answer up to the HEAD line has, in name order, exactly one line for each ref that is asked for and not literally named HEAD, with that ref's id and peel and no target; the HEAD line comes last exactly when HEAD is asked for and can be resolved, or is reported unborn on request |
| LsRefs.AdvertisedAreRefLines | crates/walgit-git/src/lib.rs:1907-1918 | The lines listed for a selected vector say of each ref its name, id and peel |
| RefsCache.StepKeepsInv | crates/walgit-git/src/lib.rs:1084-1209 | Every step of writers, readers and refreshes, with the generation, the file times, the cache and the disk read one after another, keeps the cache's relation to the disk |
| RefsCache.CacheCoherent | crates/walgit-git/src/lib.rs:1084-1209 | In every interleaving: when the cached key is the current one and no writer is between its disk commit and its bump, the snapshot with its pending transactions folded in has the names, ids and HEAD target on disk |
| RefsCache.StaleStaysStale | crates/walgit-git/src/lib.rs:1100-1124 | A parse stored under an old key never becomes current again |
| RefsCache.ReadsAreFresh | crates/walgit-git/src/lib.rs:1084-1124 | What any read returns was on disk at or after the generation in which the read started |
| RefsCache.OfflineAppliesAll | crates/walgit-git/src/lib.rs:1494-1548 | What an offline writer sets out to write, after reading through the cache while others read, store and refresh, is the disk with all transactions applied |
| RefsCache.DiskEndsAsApplied | crates/walgit-git/src/lib.rs:1345-1355 | Writing ids first and HEAD afterwards ends where applying the updates in order ends |
| RefsCache.OidsOfAll | crates/walgit-git/src/lib.rs:1138-1172 | Folding transactions into a snapshot and reading its ids is applying the ids |
| RefsCache.Read | crates/walgit-git/src/lib.rs:1084-1172 | A read by itself returns what is on disk, parses if and only if the cache is not current, and leaves it current; a view leaves a current entry as it is, another read folds in what is pending |
| RefsCache.WriteTxn | crates/walgit-git/src/lib.rs:1211-1371 | A push by itself applies its transaction to the disk and parses nothing; a cache that was current is current again with the transaction pending and agrees with the disk, one that was not stays as it was |
| Connectivity.CheckConnectivity | crates/walgit-git/src/lib.rs:1609-1772 | When it accepts, given the closures of the refs it stopped at, the closures of all tips are present if and only if those of the objects that blob-mode entries wrongly name are; a reported object is absent and was looked at; otherwise something opened was of the wrong kind, a tag chain was too long or the revision walk failed. Nothing is assumed about the kinds of pushed objects |
| Connectivity.NoneMisnamed | crates/walgit-git/src/lib.rs:3303-3316 | With no blob-mode entry that names another kind of object, accepting is enough |
| Connectivity.AcceptsWronglyNamedTree | crates/walgit-git/src/lib.rs:3303-3316 | A commit whose tree names another tree under a blob's mode: the check accepts it although an object below is absent |
| Connectivity.WalkTrees | crates/walgit-git/src/lib.rs:3285-3316 | The breadth-first tree walk with a seen set ends with the entries seen of every seen tree that was not only seen under a wrong name, or names an absent object, or met something of the wrong kind |
| Connectivity.PeelTip | crates/walgit-git/src/lib.rs:3242-3268 | Following a tag chain ends at an object that is there and no tag, at an absent one, or, exactly for chains of at least 64 tags, in a refusal |
| Connectivity.HiddenTips | crates/walgit-git/src/lib.rs:1682-1717 | Every commit that hides is reachable from a recorded ref |
| Connectivity.EverythingClosed | crates/walgit-git/src/lib.rs:1609-1772 | What was seen, what tags led to, and everything below existing refs and wrongly named objects form one closed set |
| Connectivity.Repository.Push | crates/walgit-server/src/smart.rs:1071-1130 | Objects are ingested first; a refused push changes no ref and keeps every ref's closure; an accepted one sets and deletes the refs, and every ref's closure is then present if and only if those of wrongly named objects are |
| Connectivity.Repository.Ingest | crates/walgit-git/src/lib.rs:778-940 | Objects are only added, which keeps every ref's closure |
| Connectivity.Repository.Delete | crates/walgit-server/src/smart.rs:1091-1096 | Deleted refs need no check: the others keep their closures |
| ObjectLinks.VisitReferences | crates/walgit-git/src/object_links.rs:13-65 | Succeeds exactly when the object is a blob, or fits the budget and each direct reference names an object of the expected kind; the cache stays true and bounded |
| ObjectLinks.VerifyIndexedLinks | crates/walgit-git/src/object_links.rs:67-120 | Succeeds exactly when every indexed object and every ref checks out, however often the kind cache was cleared |
| ObjectLinks.VerifiedIsClosed | crates/walgit-git/src/object_links.rs:67-120 | In a store of exactly the indexed objects, checking direct edges closes the graph: no walk from any object leaves it or meets an unexpected kind |
| Shallow.ComputeShallow | crates/walgit-git/src/lib.rs:3534-3571 | `shallow` is exactly the commits at the depth that have parents, `exclude` exactly their parents not within the depth, each once; refused exactly when a commit within the depth cannot be read; the levels looked at are bounded by the commits there are |
| Shallow.NextLevel | crates/walgit-git/src/lib.rs:3546-3566 | The next level follows from the commits met for the first time: whatever else is one step further was already within the depth |
| Shallow.HistoryExhausted | crates/walgit-git/src/lib.rs:3547-3549 | Once a level is empty no walk of any length meets a new commit |
| Enumerate.DiffTree | crates/walgit-git/src/upload_gix.rs:872-954 | What is recorded as missing is known and absent, and when nothing is, the set is the one a fully local store gives |
| Enumerate.VisitCommit | crates/walgit-git/src/upload_gix.rs:713-799 | The same for one commit, with a missing commit, missing parents and missing trees put off |
| Enumerate.Enumerate | crates/walgit-git/src/upload_gix.rs:601-831 | Done means the set of a fully local store under the filter asked for: with blob:none no blob, and without haves exactly the commits walked and their trees, with every entry of them but gitlinks unless blobs are filtered; Need names, in order and once each, absent objects, and at least one; with everything local the answer is Done |
| Enumerate.ProducePack | crates/walgit-git/src/upload_gix.rs:235-291 | The retry loop ends: what is produced is the fully local set under the filter asked for, with blob:none no blob, and without haves exactly the commits walked and their trees, with every entry of them but gitlinks unless blobs are filtered; a missing object reported is absent, and giving up needs more than 64 absent objects; with everything remotely available it produces or gives up |
| Enumerate.ComputeObjectSet | crates/walgit-git/src/lib.rs:3349-3470 | The classic walk over a fully local store succeeds and gives exactly the commits walked and their whole trees, without blobs when blob:none was asked for, or the commits alone for a request without haves that names no filter at all |
| Enumerate.WalkTree | crates/walgit-git/src/lib.rs:3477-3526 | The recursive tree walk adds what comparing with nothing adds |
| Enumerate.SentIsWhole | crates/walgit-git/src/upload_gix.rs:750-769 | Comparing with nothing sends exactly the commits walked, every tree reachable through tree entries, and unless blobs are filtered every other entry but gitlinks |
| Enumerate.SentHasNoBlobs | crates/walgit-git/src/upload_gix.rs:935-945 | Under blob:none no blob is sent, with or without haves |
| Enumerate.DiffCloses | crates/walgit-git/src/upload_gix.rs:872-954 | After a comparison every tree added has its entries in the set or among what the other side holds, and everything added is content below the compared tree |
| Enumerate.NoHavesSendsWholeTrees | crates/walgit-git/src/upload_gix.rs:750-769 | Without haves the set is the commits and all content below their trees that the filter lets through, whatever the order and the sharing of subtrees |
| Enumerate.CloneSendsTheClosure | crates/walgit-git/src/upload_gix.rs:601-831 | For an unfiltered request without haves the set is exactly what the wants reach |
| Enumerate.HeldParentsSuffice | crates/walgit-git/src/upload_gix.rs:692-954 | When every visited commit that has parents has one the haves reach, the set and what the haves reach contain everything the wants reach |
| Enumerate.MetParentsSuffice | crates/walgit-git/src/upload_gix.rs:692-954 | In whatever order commits are visited: when each that has parents has one that the haves reach or that was visited before it, the set and what the haves reach contain everything the wants reach |
| FetchCompleteness.CompleteExactly | crates/walgit-git/src/upload_gix.rs:692-954 | For every order of the walk: the fetch is complete for every assignment of trees to the commits if and only if every commit that has parents has one that the haves reach or that was visited before the commit's first visit |
| FetchCompleteness.CompleteChildrenFirst | crates/walgit-git/src/upload_gix.rs:692-954 | Its special case: when children are visited first, the condition is a parent that the haves reach |
| FetchCompleteness.OrderMatters | crates/walgit-git/src/upload_gix.rs:706-711 | Two stacked branches, both wanted: complete when the lower one is visited first, and not otherwise |
| FetchCompleteness.LosesWithoutHeldParent | crates/walgit-git/src/upload_gix.rs:785-928 | A commit none of whose parents is held, visited before them, loses an object for some assignment of trees |
| FetchCompleteness.SeveralGenerationsCanLose | crates/walgit-git/src/upload_gix.rs:785-928 | A concrete, complete history of three commits, in which a directory is added, changed and restored, with the revision walk of the want, where the set misses an object that is reachable and not held |
| Inventories.Intersect | crates/walgit-git/src/pack_segments.rs:592-615 | Keeps exactly the lines whose ids are selected, in order and with their hints |
| Inventories.IntersectionCount | crates/walgit-git/src/pack_segments.rs:869-891 | The number of ids two sorted lists share |
| Inventories.SplitTypes | crates/walgit-git/src/pack_segments.rs:687-721 | Divides a list by object type and fails exactly on a missing object |
| PackSegments.PlanCut | crates/walgit-git/src/pack_segments.rs:98-253 | With resolved groups and their walks: refuses exactly when the sort budget is zero, links do not check out, the selection is not of distinct committed packs, or a walk leaves the committed inventory; otherwise the families hold exactly their planned objects and nothing is complete |
| PackSegments.PlanFromConfig | crates/walgit-git/src/pack_segments.rs:82-253 | The whole planning step from policy and recorded refs: refused exactly when the policy, a ref, the budget, a link or the selection is not valid or a group's walk leaves the committed packs; otherwise each group's families hold exactly the selected objects its walk lists, none for a group without roots, under its kind and transitive dependencies, the retained family exactly the selected objects no walk lists, and blobs lie apart |
| PackSegments.PlanIsGroups | crates/walgit-git/src/pack_segments.rs:154-253 | Any plan over the resolved groups and their walks has each group's families hold exactly the selected objects that the walk of its roots lists |
| PackSegments.ResolvedOnce | crates/walgit-git/src/pack_segments.rs:97-97 | A policy and a set of refs resolve to one set of groups only |
| PackSegments.RetainedIsDisjoint | crates/walgit-git/src/pack_segments.rs:201-213 | The retained family shares no object with any group |
| PackSegments.FamiliesAreInventory | crates/walgit-git/src/pack_segments.rs:82-253 | All families together are the selected inventory |
| PackSegments.CheckedWalksStayInside | crates/walgit-git/src/pack_segments.rs:203-212 | In an isolated repository checked links keep every group walk inside the committed inventory |
| PackSegments.Step | crates/walgit-git/src/pack_segments.rs:267-364 | Completing one family, in any order, appends outputs that hold exactly its planned objects and keeps the invariant; a completed family is left alone |
| PackSegments.ApplyReceipt | crates/walgit-git/src/pack_segments.rs:433-531 | A receipt is accepted exactly when its outputs hold exactly what is planned for an incomplete family, in its scope, with distinct checksums |
| PackSegments.ApplyReceipts | crates/walgit-git/src/pack_segments.rs:433-531 | Exactly distinct, correct receipts are accepted, and then exactly their families are complete |
| PackSegments.Resume | crates/walgit-git/src/pack_segments.rs:422-538 | Receipts taken from an earlier plan over the same input are never refused after a crash, and lead to a plan in which exactly their families are complete |
| PackSegments.ResumeFromConfig | crates/walgit-git/src/pack_segments.rs:422-440 | The same on resuming, where policy and refs are resolved and walked again: the families are planned as before, receipts taken from the earlier plan are accepted, and exactly their families are complete |
| PackSegments.Finish | crates/walgit-git/src/pack_segments.rs:367-410 | Accepts exactly complete cuts whose outputs index exactly the selected objects |
| PackSegments.FullyStepped | crates/walgit-git/src/pack_segments.rs:367-410 | A plan with every family completed conserves the inventory, so it is never refused |
| PackSegments.Segment | crates/walgit-git/src/pack_segments.rs:576-588 | A whole cut is refused exactly when its plan is, and what it returns conserves the selected inventory |
| PackClasses.ClassifyPack | crates/walgit-git/src/pack_segments.rs:742-801 | From summed counts: the groups are exactly those that hold every object of the non-empty pack, with the pack's type, its audience and whether it is mixed |
| PackClasses.CountMeansInside | crates/walgit-git/src/pack_segments.rs:768-772 | A count over a group's disjoint families reaches the pack's size exactly when the pack lies inside the group |
| PackClasses.KindsAreDisjoint | crates/walgit-git/src/pack_segments.rs:224-243 | The families of one group share no object, so counts add up |
| PackClasses.GroupMembers | crates/walgit-git/src/pack_segments.rs:742-867 | A group's families list exactly the inventory objects its walk listed |
| PackClasses.Classify | crates/walgit-git/src/pack_segments.rs:802-867 | A group is complete exactly when as many packs were selected as are committed, it is not the retained family, and the packs wholly inside it cover it |
| PackClasses.AllSelected | crates/walgit-git/src/pack_segments.rs:802-802 | With distinct committed packs the numbers agree exactly when all were selected |
| PackGroups.VisitGroup | crates/walgit-config/src/refs.rs:129-153 | The search succeeds with every finished name off all cycles, and fails only when there is a cycle |
| PackGroups.CheckAcyclic | crates/walgit-config/src/refs.rs:189-192 | The search over all groups succeeds exactly on configurations without a cycle |
| PackGroups.Validate | crates/walgit-config/src/refs.rs:73-194 | Accepts exactly the policies within all bounds, with well-formed selectors, allowed names and dependencies, at most 16 KiB, and without cycles |
| RefNames.ValidateSelectors | crates/walgit-config/src/refs.rs:80-96 | Accepts exactly lists of at most 256 selectors that each are, with or without an exclamation mark, HEAD, a name spelled by Git's rules, or a prefix before a star that a name can continue |
| RefNames.SelectorSpelledExactly | crates/walgit-config/src/refs.rs:65-77 | Which names a selector may spell out, position by position |
| RefNames.NameSpelledExactly | crates/walgit-git/src/lib.rs:77-104 | Which ref names are valid, position by position |
| PackGroups.TransitiveDependencies | crates/walgit-git/src/pack_groups.rs:59-70 | The worklist finds exactly the transitive dependencies |
| PackGroups.ResolveGroups | crates/walgit-git/src/pack_groups.rs:28-90 | Succeeds exactly for valid groups and refs; each group's roots are exactly the ids of the refs its last matching selector includes, of metadata refs for a metadata group and of the others for any other; with the roots of its direct dependencies and the names of all transitive ones |
| PackGroups.RootsAreDecided | crates/walgit-git/src/pack_groups.rs:44-58 | An id is a root of a group if and only if some ref has it that the group's selectors, read in plain text, decide to take |
| PackGroups.DependenciesCover | crates/walgit-git/src/pack_groups.rs:71-78 | Everything below a group's roots is in its own physical set or in that of a listed dependency, although only direct dependencies are subtracted |
| PackGroups.CyclesLoseObjects | crates/walgit-config/src/refs.rs:138-141 | When exactly the groups of a dependency cycle select an object's ref, the sets the walks may list can all be without it: coverage rests on the cycle search |
| RefNames.SelectorsMatch | crates/walgit-config/src/refs.rs:107-118 | The last selector that covers a name decides: a prefix before a star covers every continuation, HEAD the non-empty target of HEAD, anything else its own text alone, and an exclamation mark excludes |
| RefNames.LastSelector | crates/walgit-config/src/refs.rs:97-118 | What a list does by its last selector: a prefix and a star includes, or with an exclamation mark excludes, every continuation of the prefix, a literal its own name, HEAD the target of HEAD; for every other name the rest of the list decides |
| Manifests.RetirePacksAt | crates/walgit-proto/src/inventory.rs:17-33 | The manifest with the requested live members recorded as retired |
| Manifests.RetireIsExact | crates/walgit-proto/src/inventory.rs:17-33 | Retiring forgets nothing, records exactly the requested live members, each once |
| DirectImport.DecideResume | crates/walgit-cli/src/import_direct.rs:221-245 | Resumes exactly a marker of the same intent that started at the current version; refuses only without force and when the version moved |
| DirectImport.StepKeepsInv | crates/walgit-cli/src/import_direct.rs:268-832 | Every step of the import, a crash anywhere and every step of other writers keep the invariant of bucket, marker, run and uploads |
| DirectImport.NothingMissingNothingTwice | crates/walgit-cli/src/import_direct.rs:575-701 | In every state of every run, every manifest version names only stored objects, its packs' files, side files and checkpoint among them, and no key was uploaded twice |
| DirectImport.PublicationsAreDerived | crates/walgit-cli/src/import_direct.rs:712-832 | A publication replaces exactly the version it was derived from and still serves every pack that was served. It is one number and one revision after it, with an empty log window and a forge counter at zero; its checkpoint key holds the checkpoint body of its packs and its refs key the snapshot of the imported tips; each pack entry has the sizes, side files, kind and origin of its local pack, or those of the committed entry with added side files; packs it drops are recorded as retired, once each |
| DirectImport.Import | crates/walgit-cli/src/import_direct.rs:268-832 | Undisturbed, and with nothing that makes it refuse, the import runs from wherever an earlier one stopped to a publication as above at the next number, with every file stored in its size or recorded by the earlier run, and leaves no marker |
| DirectImport.UploadAll | crates/walgit-cli/src/import_direct.rs:575-701 | The upload loop over all packs and files ends with every file stored in its size, or recorded in the marker it started from, and the base as it was |
| DirectImport.StillServes | crates/walgit-cli/src/import_direct.rs:752-764 | The next manifest serves every pack the base did |
| DirectImport.PublishedIsStored | crates/walgit-cli/src/import_direct.rs:700-801 | What the next manifest names is in the store when it is written |
| DirectImport.HeadFindsUploads | crates/walgit-cli/src/import_direct.rs:617-637 | The size checks of a pack find every file of it that was ever uploaded |
| DirectImport.UploadIsRecorded | crates/walgit-cli/src/import_direct.rs:619-675 | A file that was not found is put in its size, and its key is on disk before the next file, so a resumed run counts it as present |
| DirectImport.PhasesAdvance | crates/walgit-cli/src/import_direct.rs:441-545 | Each local phase is entered once and on disk before the next one; a resumed run passes the phases its marker names and leaves the marker alone |
| DirectImport.NothingUnverifiedIsPublished | crates/walgit-cli/src/import_direct.rs:441-471 | Whatever crashes and resumes in between, a manifest is published only after the closure check passed, counted from the start or from any clean-up |
| DirectImport.HeldStartsNothing | crates/walgit-cli/src/import_direct.rs:360-385 | An import that is already held does not start and only removes the marker |
| DirectImport.RepeatChangesNothing | crates/walgit-cli/src/import_direct.rs:360-387 | Repeating a completed import is recognised, and then changes nothing, if and only if its history pack is recognised |
| DirectImport.PublishedIsHeld | crates/walgit-cli/src/import_direct.rs:684-718 | A published pack set is recognised exactly when no wanted history pack was already committed as something else |
| DirectImport.FirstImportIsRecognised | crates/walgit-cli/src/import_direct.rs:360-387 | With none of its packs committed before, an import is recognised if and only if no history pack is wanted, it builds its own, or one it scanned belongs to a pack it imports |
| DirectImport.CommittedKindWins | crates/walgit-cli/src/import_direct.rs:703-718 | A concrete pack set that is not recognised: a pack committed as an ordinary one keeps that kind |
| Bridge.StepKeepsInv | crates/walgit-server/src/bridge.rs:98-176 | Growth, folding, replacement, log reads, deliveries, failures, crashes and lost swaps, by any number of bridges, keep every entry up to the cursor accounted for or left out by a log read |
| Bridge.LogStep | crates/walgit-wal/src/checkpoint.rs:254-270 | Every step keeps the segments whole between heads and listing exactly the entries from min_seq on |
| Bridge.ReadOmits | crates/walgit-wal/src/log_reader.rs:11-76 | A log read uses the newest manifest: it leaves out exactly the entries of its range that were folded by then |
| Bridge.EveryEntryIsMet | crates/walgit-server/src/bridge.rs:98-176 | In every run each entry at or below the durable cursor was delivered to every sink, lies in a reported gap, was folded at a cold start, or was left out by a log read |
| Bridge.LeftOutExactly | crates/walgit-server/src/bridge.rs:145-145 | What log reads left out is exactly what lay above a read's start and below min_seq at that read |
| Bridge.NothingIsLost | crates/walgit-server/src/bridge.rs:98-176 | In every run in which min_seq is at most the start plus one at each log read, each entry at or below the durable cursor was delivered to every sink, lies in a reported gap, or was folded at a cold start |
| Bridge.FoldDuringCatchUp | crates/walgit-server/src/bridge.rs:101-145 | A run of one bridge without failures in which a checkpoint between the manifest read and the log read makes the cursor pass two entries that nothing accounts for |
| Bridge.LostExactly | crates/walgit-server/src/bridge.rs:98-176 | When nothing fails: an entry up to the cursor is lost if and only if it lay above a start and below min_seq at the log read, and none is lost if and only if every log read had min_seq at most the start plus one |
| Bridge.CursorAdvances | crates/walgit-server/src/bridge.rs:98-176 | With one bridge the cursor never decreases and never passes the head |
| Bridge.SaveReplacesWhatItRead | crates/walgit-server/src/bridge.rs:151-168 | With any number of bridges, saving replaces the cursor if and only if the stored one is the one that was read and there is something new, and then under a version no cursor had before |
| Bridge.DeliveredExactly | crates/walgit-server/src/bridge.rs:98-176 | When nothing fails, one bridge gives each sink, in order and once each, exactly the entries up to the cursor that are not in a gap, folded at the cold start or left out by a log read |
| Bridge.ExactlyOnce | crates/walgit-server/src/bridge.rs:98-176 | With that guard at each log read as well: every entry up to the cursor exactly once and in order, except gaps and what was folded at the cold start, and nothing beyond |
| Bridge.CatchUp | crates/walgit-server/src/bridge.rs:98-176 | One catch-up: on success every sink has exactly the entries after the start appended, numbered up to the head, where the start is the larger of the cursor and the number below min_seq; the cursor is saved at the head under a new version, or left alone when it was there; it fails exactly when there is something to publish and a sink fails, and then leaves the cursor alone; the gap reported is exactly what lies between the cursor and min_seq |
| Bridge.Publish | crates/walgit-server/src/bridge.rs:239-259 | Sinks take the batch in order; when one fails, those before it have the whole batch, it has a part from the front, those after it have nothing, and the cursor stays |
| Frames.EncodeEntries | crates/walgit-proto/src/lib.rs:120-126 | The log is the entries' frames in order |
| Frames.ReadVarintExactly | crates/walgit-proto/src/lib.rs:130-137 | A length is read if and only if it ends within ten bytes and its value in base 128, lowest digit first, fits 64 bits |
| Frames.VarintSpelled | crates/walgit-proto/src/lib.rs:117-119 | A written length has the top bit on all bytes but the last and its value in base 128 |
| Frames.DecodeEntries | crates/walgit-proto/src/lib.rs:130-147 | Decodes every complete frame, leaves a partial one, and fails on a malformed message |
| Frames.DecodeCutLog | crates/walgit-proto/src/lib.rs:130-147 | Decoding the first k bytes gives exactly the entries whose frames end at or before k and consumes exactly up to there, for cuts inside a length and for empty entries |
| Frames.RoundTrip | crates/walgit-proto/src/lib.rs:112-147 | A whole log decodes to what was encoded |
| Frames.AppendResumes | crates/walgit-proto/src/lib.rs:130-147 | Appending to any buffer never changes what was already decoded: decoding resumes at the consumed position |
| PktLines.ReadExactOrEof | crates/walgit-git/src/pkt.rs:99-116 | Fills the buffer across short reads and is short only at the end of the stream |
| PktLines.ReadPktLine | crates/walgit-git/src/pkt.rs:72-97 | The packet a stream starts with, its end, or the error, and exactly what follows is left |
| PktLines.WritePktLine | crates/walgit-git/src/pkt.rs:137-152 | Data of any length as one packet or as many as it takes |
| PktLines.WrittenReadsBack | crates/walgit-git/src/pkt.rs:72-152 | Any data is read back as packets that join to it |
| PktLines.BufferEncoderExact | crates/walgit-git/src/pkt.rs:384-393 | The buffer encoder writes a packet that reads back if and only if the data is shorter than 65532 bytes |
| PktLines.Sideband.WriteChannel | crates/walgit-git/src/pkt.rs:202-225 | Appends the frames for one call |
| PktLines.ChannelDelivers | crates/walgit-git/src/pkt.rs:202-225 | Each call's bytes arrive whole on its channel and on no other, in frames that fit |
| PackfileUris.Splice | crates/walgit-git/src/packfile_uri.rs:144-216 | The read loop succeeds and writes exactly as the stream's packets say |
| PackfileUris.SpliceDelivers | crates/walgit-git/src/packfile_uri.rs:144-216 | Decoding the output gives the native packets minus synthetic acknowledgements, the inserted sections, the packfile heading, and the remaining bytes untouched, in both framings. The inserted packets are a heading, for each pack in order a line whose text before its first space is the checksum and behind it the URL, and a delimiter; then, when any pack has an index, the same with the three fields of each index line |
| PackfileUris.InsertedSay | crates/walgit-git/src/packfile_uri.rs:165-186 | Reading the inserted packets back gives the packs' checksums and URLs, and those of their indexes, in order |
| PackfileUris.ActionSpelled | crates/walgit-git/src/packfile_uri.rs:148-214 | What happens to each packet before the heading: refused exactly when it is a flush, an end, an empty frame or one of an unknown channel, dropped exactly when it acknowledges, white space at the end aside, a synthetic id, taken for the heading exactly when it spells it; all others pass |
| PackfileUris.SucceedsExactly | crates/walgit-git/src/packfile_uri.rs:144-216 | Splicing succeeds if and only if the response reaches a packfile heading through packets that are passed on or dropped |
| PackfileUris.Headings | crates/walgit-git/src/packfile_uri.rs:165-186 | The byte constants spell the prefix and the headings |
| PackfileUris.AllowedUrisFit | crates/walgit-git/src/packfile_uri.rs:55-93 | The caller's length checks keep every inserted line in one packet |
| PackfileUris.OnlySyntheticAcksDropped | crates/walgit-git/src/packfile_uri.rs:97-168 | For object ids in hex: exactly the acknowledgements of roots the client does not have itself are removed |
| Glob.GlobMatch | crates/walgit-cli/src/import.rs:48-72 | True exactly when the string splits into the pattern's literal pieces in order with any text at each star |
| Glob.SplitKeepsMeaning | crates/walgit-cli/src/import.rs:49-52 | Splitting at stars keeps a pattern's meaning |
| Glob.GreedyStep | crates/walgit-cli/src/import.rs:62-68 | Taking the leftmost occurrence of a middle piece loses no match |
| Glob.Keep | crates/walgit-cli/src/import.rs:36-44 | HEAD's target is always kept; without globs branches and tags; otherwise what some glob matches |

## Left out

- `Enumerate` models wants that are local commits, filters `none` and `blob:none`, no deepening and no
  include-tag: for tag wants the peeled commit is inserted before the walk and then skipped there, deepening
  also hides ancestors within the depth, and `tree:<n>` results depend on the order of the walk.
- FetchCompleteness.CompleteExactly: is for unfiltered fetches of commits with haves; no commit is its own parent. The
  order in which the revision walk visits commits is a parameter, since the walk asks for none.
- Enumerate.CloneSendsTheClosure: is about the walk with an object source behind it; a fully local
  unfiltered clone sends the commits and leaves their contents to the pack writer.
- `Enumerate.Enumerate` takes the revision walk from the commit graph as a parameter, and every id a reference names has some content and
  the kind the reference expects; ids of gitlinks are those of no tree or blob.
- Connectivity.CheckConnectivity: takes the revision walk as a parameter that lists exactly the commits it should or fails.
  The check may be switched off by configuration, and then only the tips are looked up; that mode is not modelled.
- Connectivity.Repository.Push: comparing old values and publishing the transaction are not part of it.
- `ImportMap.RenameChunks` keeps the names each preload list carries as map entries instead of textual substitution in chunk code,
  so a specifier that happens to occur inside other text is not modelled; hashing is a parameter, and JavaScript string order
  is lexicographic order of characters.
- The import map's rewriting of HTML files, source maps and static import specifiers.
- RefStore.RefView.Get: a HEAD whose target is HEAD itself recurses without end in the code and is excluded.
- PackedRefs.OfflineReadsBack: loose refs that are symbolic are left out; the offline writer removes loose refs.
- PackedRefs.ReadFromDisk: loose refs that are symbolic, and files that cannot be read, are left out.
- RefsCache.WriteTxn: a transaction whose old values do not match is refused in the machine's own step; the comparison itself
  is not modelled.
- `RefsCache`: a key's file times are whatever the reads found, so the results rest on the generation alone. Packed and
  loose refs are read in one step, and an I/O failure between `update-ref` and the HEAD file write, which skips the generation
  bump, is not modelled.
- `PackGroups.Validate`: the characters of a string stand for its bytes.
- PackSegments.PlanFromConfig: the listing of a revision walk from a group's roots is a parameter, and one that fails is left out.
- `PackSegments`: pack bytes, index verification and paths; a receipt's outputs are the objects their indexes list. Pack
  size targets, tuning beyond being valid or not, and cleaning up old work directories.
- PackSegments.Segment: the pack writer is a parameter that writes exactly what it is given.
- `PackClasses`: a pack's recorded object count is the number of objects its index lists, as its verification ensures.
- `DirectImport`: ref filtering, closure verification itself, building side files and the history pack (local files do
  not change during an import), timestamps, and validation of the manifest's identity and format. Other writers may
  publish any manifest that names stored objects, delete the manifest and add objects, and never remove or replace objects.
- `Bridge`: the conversion of entries to ref events, and notifications; an entry stands for its events. A manifest or log
  read that returns an error is a crash.
- `Frames`: the message encoding of an entry is a parameter that decodes what it encodes.
- `PackfileUris`: URL characters are bytes, and protocol negotiation is left out. White space after an acknowledged id is
  recognised in its UTF-8 encoding; since ids are ASCII, the UTF-8 check decides nothing more.
- Subprocess, file and network effects, hashing, compression, delta encoding, commit-graph and multi-pack-index formats,
  tracing and metrics.
- The front end, HTTP routing, authentication, access, configuration defaults, command line, LFS and the synthetic
  repository generator.
