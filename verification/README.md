# Verified models of OpenHarmony components

This project models five groups of code and proves properties of the models with Dafny's verifier:

- **The LRU hash list of hiperf.** A data ring, a free chain and a key index over one block of nodes
  (`HashList.dfy`, `HashListIterator.dfy`). Every operation is proved to act on the list of entries as a
  function says. About those functions `LruSpec.dfy` proves what a whole access trace leaves, and
  `HashListRuns.dfy` what runs of all operations keep.
- **The file formats of the resource compiler.** The resource index is predicted position by position,
  written and read back (`ResourceTable.dfy`, `ResourceTableLoad.dfy`, `ResourceTableOffsets.dfy`,
  `ResourceTableWords.dfy`, `ResourceTableRoundTrip.dfy`, `ResourceTableItems.dfy`, `ResourceTableCreate.dfy`,
  `ResourceTableCases.dfy`), and laid out in bytes (`ResourceTableLayout.dfy`). Beside it stand the record files of
  the append mode (`AppendFormat.dfy`), the string-array codec and the references inside it (`StringCodec.dfy`,
  `ReferenceParser.dfy`), and the limit key parser and printer (`KeyParser.dfy`, `LimitKey.dfy`): what every folder's
  name means is said character by character (`FolderNames.dfy`), and for which names the printed key means the same
  (`FolderRoundTrip.dfy`).
- **Ids and merging.** The id allocator with its definition files, its replayed table and its gaps
  (`IdDefinitions.dfy`, `IdWorker.dfy`, `IncrementManager.dfy`) and the room its range has (`IdRoom.dfy`), the
  compilers that put names under ids (`ResourceCompiler.dfy`), the merge of modules by table (`Merge.dfy`) and by
  record (`AppendMerge.dfy`), the record files of modules and their combination (`AppendFiles.dfy`,
  `AppendCombine.dfy`), and the order modules are merged in (`ModuleOrder.dfy`). `WholeBuild.dfy` goes from the names
  compilers collect to what a reader of the index file gets.
- **The circular cache of hiview_lite**, sequentially (`HiviewCache.dfy`) and with writers between the reader's
  steps (`HiviewInterleaving.dfy`).
- **Smaller cores**: the intrusive ring list (`UtilsList.dfy`) and the UTF-8 recogniser (`Utf8.dfy`).

`Bytes.dfy`, `Sequences.dfy`, `TextOrder.dfy`, `ResourceData.dfy` and `Decimal.dfy` hold what several of them use. Objects the
source updates in place are classes here, its loops are loops, and each such method is tied by its `ensures` to a
function on values; the main theorems are lemmas about those functions. Verify the project with
`dafny verify dfyconfig.toml`.

## What turned out conditional

Some expectations hold only under a condition the source does not test. Each is stated as an equivalence; where a
lemma is about an input that fails, it is named last.

- A compiler's commit loses no name exactly if no two of its names are defined with one id (`PostCommit`); the
  definition files see to that exactly if they number disjoint ranges (`DefinedOneToOne`). Two inputs with the same
  start id are read without complaint, and one of two resources is dropped (`SameStartLoses`). An application's
  commit loses nothing.
- A module's scan leaves every compiler's items exactly if, besides, no two compilers differ on a name
  (`ScanResource`, `WholeIf`): of such a name the second one's items are dropped without a word (`SecondDropped`).
  The compilers for animation, graphic and layout all collect names of type ID, so they could; but of their
  directories the scan refuses every one, as only element, media and profile are let through.
- An application takes new names exactly if there are not more of them than gaps and ids left, and none once
  `appId_` has passed the range, gaps or not (`AllGetIds`).
- Replaying a saved id table goes through exactly if it rises from the start id on (`ReplayGoesThrough`). The saved
  JSON lists its members in string order; a table some build saved goes through in that order exactly if the ids'
  counts of digits never fall along it (`MemberOrderReplays`). A build of 257 resources from start id 99999744
  saves a table that does not (`MemberOrderCanFail`).
- A limit key parse that finds the name cached gives what a fresh one gives exactly if its list is the one the
  first call with that name was given: a hit replaces the list, a miss adds to it (`CachedEqualsFresh`,
  `CacheDiffers`). The resource compiler's calls pass lists that have just been declared.
- A limit key parse indexes past a two-element list exactly if, of the parts between dashes, the first are empty or
  mcc codes with or without an mnc code, the next empty or locales, and then one is a locale of three parts such as
  `LsrOutOfBounds` describes (`FreshOutOfBounds`). A resource directory named en_US_x does it (`EnUsX`).
- The next call carries `appId_` beyond int32 exactly if it caches a new name with the id 0x7fffffff, or takes that
  id for a new name with no gap left (`AppIdOverflow`), and a run does exactly if one of its calls does
  (`RunOverflows`). A saved table with that id does it (`LastIdOverflows`).
- The limit key printed from the params of a folder's name parses to these params again exactly if the name has no
  script, no pointing device, no country code below 100 and no network code below 10; else it does not parse at all
  (`KeyComesBack`). The folder zh_Hans is printed as a language and a number (`ZhHans`). Items read back from an
  index file bear such printed keys.
- A row whose value and id name together exceed the 16-bit lengths is written without either, and no error is
  reported; the file comes back as its rows exactly if no row is such (`ComesBackIfFits`). A string resource of
  65535 bytes gets there (`LongValueLost`).
- In the index file the size, and below 4 GiB the record positions, are right exactly if no limit key has two rows
  of one id, and the position in a KEYS entry exactly if no earlier limit key has (`SizeStored`, `IdOffsetStored`,
  `KeysOffsetStored`, `RepeatedIdMisplaces`). `CreatedRows` says when the merged items meet this,
  and those that compilers collected and modules merged do (`BuildUnconflicting`).
- A table merge keeps the first declaration of every limit key exactly if the first module with the id does not
  itself repeat a limit key: that list is taken over untested (`EarliestWins`, `RepeatedFirst`). The tables of
  compilers have no such list (`EntriesTidy`, `MergedIsFirsts`).
- Composing what was decomposed gives the same bytes exactly if every entry ended in a NUL: the decoder does not
  look at that byte (`ComposeDecompose`, `EndByteLost`). What the program itself composes has the NULs.

Two more facts of the code differ from what its names suggest: `push_back` of a key already present ends at the
head, because it writes through the index operator; and a zero-length read or write of the cache fails, because
the bounded copy refuses a zero size.

## Model

| member | source | states |
|---|---|---|
| LruSpec.RunIsRecency | developtools/hiperf/include/hashlist.hpp:686-737 | After any trace of accesses and front pushes, the keys held are the first `capacity` keys of the move-to-front order of the whole trace. |
| LruSpec.HoldsMostRecent | developtools/hiperf/include/hashlist.hpp:686-737 | After any such trace on an empty list, the keys held, head to tail, are exactly the min(capacity, distinct keys) most recently used ones, most recent first. |
| LruSpec.EvictsLeastRecent | developtools/hiperf/include/hashlist.hpp:776-785 | A key disappears only from a full list, when another key comes in, and then it is a least recently used one. |
| LruSpec.SmallerIsPrefix | developtools/hiperf/include/hashlist.hpp:686-737 | On one trace, the keys held at a smaller capacity are a prefix of those held at a larger one. |
| LruSpec.OldestIsLast | developtools/hiperf/include/hashlist.hpp:776-785 | The tail holds the least recently used of the keys held, so popping the tail evicts it. |
| LruSpec.RecencyOrdered | developtools/hiperf/include/hashlist.hpp:856-869 | The move-to-front order of a trace is ordered by last use. |
| LruSpec.WithoutCutsOne | developtools/hiperf/include/hashlist.hpp:787-800 | With distinct keys, removing a key removes exactly its one entry and keeps the order of the others. |
| HashLists.Replay | developtools/hiperf/include/hashlist.hpp:686-737 | A whole trace run on a list of any capacity from the empty state ends in the state LruSpec.Run gives, with the representation invariant intact. |
| HashLists.HashList.constructor | developtools/hiperf/include/hashlist.hpp:496-518 | The list starts empty, with every node of its block on the free chain and the invariant established. |
| HashLists.HashList.Reserve | developtools/hiperf/include/hashlist.hpp:520-547 | Refuses a list that has a capacity; otherwise gives it one, keeping the invariant, and returns it as an int. |
| HashLists.HashList.ThreadFree | developtools/hiperf/include/hashlist.hpp:532-537 | The loop links the whole block into one free chain. |
| HashLists.HashList.At | developtools/hiperf/include/hashlist.hpp:686-700 | The index operator moves the entry to the head or creates it there with the default value, evicting the tail of a full list; it returns the head node. |
| HashLists.HashList.PushFront | developtools/hiperf/include/hashlist.hpp:713-737 | The new entries are those PushedFront gives; invariant kept. |
| HashLists.HashList.PushBack | developtools/hiperf/include/hashlist.hpp:739-763 | A new key goes to the tail, after an eviction if the list is full; a key already present ends at the head with the new value; invariant kept. `CallPlaces` and `CallKeepsOrder` say where everything then stands. |
| HashLists.HashList.PopFront | developtools/hiperf/include/hashlist.hpp:765-774 | Takes away the head entry, or nothing from an empty list; its node goes back to the free chain. |
| HashLists.HashList.PopBack | developtools/hiperf/include/hashlist.hpp:776-785 | Takes away the tail entry, or nothing from an empty list. |
| HashLists.HashList.Erase | developtools/hiperf/include/hashlist.hpp:787-800 | Removes exactly the entry of the key, if there is one. |
| HashLists.HashList.Back | developtools/hiperf/include/hashlist.hpp:676-684 | Returns the tail entry, and moves it to the head when asked to. |
| HashLists.HashList.Front | developtools/hiperf/include/hashlist.hpp:663-668 | Returns the head entry. |
| HashLists.HashList.MoveToHead | developtools/hiperf/include/hashlist.hpp:856-869 | The node leaves its place, if it has one, and becomes the first of the data ring. |
| HashLists.HashList.MoveToTail | developtools/hiperf/include/hashlist.hpp:871-884 | The node leaves its place, if it has one, and becomes the last of the data ring. |
| HashLists.HashList.AllocateNode | developtools/hiperf/include/hashlist.hpp:886-932 | Delivers a node outside both rings with key and value set, popping the tail first exactly if the list is full. |
| HashLists.HashList.ReclaimNode | developtools/hiperf/include/hashlist.hpp:934-945 | The node leaves the data ring for the head of the free chain; the two still share out the block. |
| HashLists.HashList.Counts | developtools/hiperf/include/hashlist.h:158-177 | size is the number of entries, empty means none, full means size equals a positive capacity, count tells whether the key is held. |
| HashLists.HashList.HeadFacts | developtools/hiperf/include/hashlist.h:162-173 | The tests on the ring heads agree with the rings, and data ring, free chain and spare nodes add up to the capacity. |
| HashLists.HashList.KeysIndexed | developtools/hiperf/include/hashlist.h:170-177 | The index holds exactly the keys of the entries, each key once. |
| HashLists.MoveIndex | developtools/hiperf/include/hashlist.hpp:856-884 | Moving an entry to either end leaves the key index correct. |
| HashLists.CutIndex | developtools/hiperf/include/hashlist.hpp:934-945 | Taking an entry out together with its key leaves the key index correct. |
| HashListIterators.Iterator.Next | developtools/hiperf/include/hashlist.hpp:144-161 | Moves a live iterator one position on, past the last entry to the end position; stepping off the end makes it dangle. |
| HashListIterators.Iterator.Prev | developtools/hiperf/include/hashlist.hpp:181-201 | Moves a live iterator one position back; stepping before the first makes it dangle. |
| HashListIterators.Iterator.Less | developtools/hiperf/include/hashlist.hpp:226-246 | Ends, and holds exactly if both belong to one list and the left position, the end counted as size, is strictly before the right one. |
| HashListIterators.Iterator.Equals | developtools/hiperf/include/hashlist.hpp:248-258 | Holds exactly for the same position of the same list. |
| HashListIterators.Begin | developtools/hiperf/include/hashlist.hpp:595-604 | Stands at position 0, which is the end of an empty list. |
| HashListIterators.End | developtools/hiperf/include/hashlist.hpp:615-621 | Stands at position size. |
| HashListIterators.Find | developtools/hiperf/include/hashlist.hpp:702-711 | Stands at the key's entry, or at the end if the key is not held; changes nothing. |
| HashListIterators.EraseAt | developtools/hiperf/include/hashlist.hpp:802-813 | Removes exactly the entry at the position and returns an iterator to what followed it. |
| HashListIterators.EraseKey | developtools/hiperf/include/hashlist.hpp:787-800 | Removes exactly the entry of the key; the iterator returned stands on what followed it, at the end if the key is not held, and on no entry if it was the last. |
| HashListRuns.Replay | developtools/hiperf/include/hashlist.hpp:676-813 | Any run of index accesses, pushes and pops at both ends, erasures by key and by position and raisings of the tail keeps the representation invariant of the linked list, and ends in the entries the call functions give. |
| HashListRuns.RunSound | developtools/hiperf/include/hashlist.hpp:676-813 | After any such run the keys are distinct and the entries within the capacity. |
| HashListRuns.CallExplained | developtools/hiperf/include/hashlist.hpp:676-813 | After any call an entry is held exactly if the call brought its key, with the value it wrote or the one held before, or it was held and the call did not take it away; only a new key coming into a full list takes away a key the call does not point at, and that is the tail. |
| HashListRuns.CallPlaces | developtools/hiperf/include/hashlist.hpp:676-763 | After an access or a push to the front the key stands at the head, and a raised tail does; after a push to the back it stands at the head if it was held and last if it is new. |
| HashListRuns.CallKeepsOrder | developtools/hiperf/include/hashlist.hpp:676-813 | Two entries a call does not move stand in the order they had. |
| HashListRuns.PushedBackStaysLast | developtools/hiperf/include/hashlist.hpp:739-763 | A new key pushed to the back after any run stays last while other keys are accessed or pushed to the front, for as long as it is held. |
| HashListRuns.PushedBackGoesNext | developtools/hiperf/include/hashlist.hpp:739-785 | It is then exactly the key that goes when the next new key comes into the full list; all others stay. |
| HashListRuns.LastWritten | developtools/hiperf/include/hashlist.hpp:686-763 | After any run a held key has the value of the last call that wrote it, and has been held ever since that call. |
| HashListRuns.ErasePosition | developtools/hiperf/include/hashlist.hpp:802-813 | Walking an iterator from the start and erasing there takes out the entry of that position and no other. |
| HiviewCaches.WriteAppends | base/hiviewdfx/hiview_lite/hiview_cache.c:58-107 | A write appends its bytes to the unread ones, across the wrap-around and with the cursor equal to the size. |
| HiviewCaches.WriteSparesUnread | base/hiviewdfx/hiview_lite/hiview_cache.c:73-98 | A write changes no unread byte and does not move the read cursor. |
| HiviewCaches.ReadTakesOldest | base/hiviewdfx/hiview_lite/hiview_cache.c:137-147 | Lowering the used size drops exactly the oldest bytes. |
| HiviewCaches.ReadCopies | base/hiviewdfx/hiview_lite/hiview_cache.c:118-142 | One or two copies from the read cursor deliver the oldest bytes in order. |
| HiviewCaches.WriteCopies | base/hiviewdfx/hiview_lite/hiview_cache.c:73-101 | One or two copies, the first possibly empty and left out, build the buffer a write is to leave. |
| HiviewCaches.HiviewCache.Static | base/hiviewdfx/hiview_lite/hiview_cache.c:23-36 | The cache starts empty on the given buffer. |
| HiviewCaches.HiviewCache.WriteToCache | base/hiviewdfx/hiview_lite/hiview_cache.c:58-107 | Fails exactly without data, buffer, room or length, leaving the cache alone; otherwise the contents are the old ones followed by the data. |
| HiviewCaches.HiviewCache.ReadFromCache | base/hiviewdfx/hiview_lite/hiview_cache.c:109-147 | Fails exactly without data, buffer, enough bytes or length; otherwise what is delivered followed by what is left is what was held. |
| HiviewCaches.HiviewCache.PrereadFromCache | base/hiviewdfx/hiview_lite/hiview_cache.c:149-182 | Delivers what the next read would and leaves the cache as it is. |
| HiviewCaches.HiviewCache.DiscardCacheData | base/hiviewdfx/hiview_lite/hiview_cache.c:184-191 | Leaves the cache empty. |
| HiviewInterleavings.RunKeepsInv | base/hiviewdfx/hiview_lite/hiview_cache.c:58-182 | Over every run of writes, reader steps and discards: bytes delivered followed by bytes held are all bytes written since the last discard, and a reader under way holds a copy of the oldest bytes. |
| HiviewInterleavings.ReadReturnsOldest | base/hiviewdfx/hiview_lite/hiview_cache.c:109-147 | At every point of a read split into check, cursor, single byte copies and locked decrement, what is copied, the next byte and what its end hands over are the oldest bytes as of its start, whatever writes come in between. |
| HiviewInterleavings.ReadAdvances | base/hiviewdfx/hiview_lite/hiview_cache.c:109-147 | Through any steps a read is exactly as far as its own steps have brought it: nowhere before the cursor is taken, then one byte for each copying step, up to those it asked for. |
| HiviewInterleavings.ReadDelivers | base/hiviewdfx/hiview_lite/hiview_cache.c:109-182 | A read ends exactly if the cursor is taken and then at least n bytes are copied, whatever writes fall anywhere between; what is delivered has then grown by exactly the n bytes oldest when it began, by nothing for a preread, and else by nothing. |
| HiviewInterleavings.WriteAdds | base/hiviewdfx/hiview_lite/hiview_cache.c:58-107 | In every reachable state a write puts its bytes behind the unread ones if they fit the buffer together, and changes nothing if not; a discard between reads leaves nothing unread. |
| HiviewInterleavings.BeginsIf | base/hiviewdfx/hiview_lite/hiview_cache.c:109-122 | A read begins exactly if none is under way and it asks for at least one byte and no more than are unread. |
| HiviewInterleavings.ReadingStays | base/hiviewdfx/hiview_lite/hiview_cache.c:109-147 | No step but its end ends a read under way or changes what it is to deliver. |
| HiviewInterleavings.WriteTouchesNoUnread | base/hiviewdfx/hiview_lite/hiview_cache.c:58-107 | In every reachable state a write leaves every unread byte in its cell. |
| IdWorkers.MaxIdFits | developtools/global_resource_tool/src/id_worker.cpp:339-346 | For every positive int32 start the last id of the range is computed within int32. |
| IdWorkers.RangeIsBlock | developtools/global_resource_tool/src/id_worker.cpp:339-346 | The range of a start is the aligned block of its lowest set bit that the start lies in. |
| IdWorkers.RunKeepsInv | developtools/global_resource_tool/src/id_worker.cpp:97-151 | Through every run of successful cache pushes and generations, [start, appId_) is the disjoint union of cached ids, gaps and non-cached ids handed out, the gaps rise, and names and ids are one to one. |
| IdWorkers.GenerateReturns | developtools/global_resource_tool/src/id_worker.cpp:124-151 | After any run, what a generation returns: the id the name has, or its cached one, or a fresh id of the range that no other name has; it fails on a new name exactly if appId_ has passed maxId_, gaps or not. |
| IdWorkers.LeastFree | developtools/global_resource_tool/src/id_worker.cpp:124-151 | After any run, the id a new name gets is the least of the range used so far and the next one that is neither cached nor handed out: the first gap, or the next id without any. |
| IdRooms.AllGetIds | developtools/global_resource_tool/src/id_worker.cpp:124-151 | Generated one after the other from any valid state, names all get ids exactly if no more of them are new than gaps and ids are left within the range, whatever their order. |
| IdRooms.GenerateTakes | developtools/global_resource_tool/src/id_worker.cpp:124-151 | A generation fails exactly on a new name without room, and takes room for a new name alone. |
| IdWorkers.AppIdOverflow | developtools/global_resource_tool/src/id_worker.cpp:97-149 | From any state a run reaches within int32, the next call carries appId_ beyond it exactly if it caches a new name with the id 0x7fffffff, or generates an id for a new name with no gap left when appId_ is 0x7fffffff and the range reaches it. |
| IdWorkers.RunOverflows | developtools/global_resource_tool/src/id_worker.cpp:97-149 | A whole run leaves int32 exactly if one of its calls, met by a counter within int32, does. |
| IdWorkers.LastIdOverflows | developtools/global_resource_tool/src/id_worker.cpp:97-117 | Caching the id 0x7fffffff succeeds and leaves the counter beyond int32. |
| IdWorkers.IdWorker.Init | developtools/global_resource_tool/src/id_worker.cpp:27-39 | Fails exactly on a definition file that is not acceptable or a name defined twice; otherwise every name is defined with its number, and an application starts with an empty range at the start id. |
| IdWorkers.IdWorker.InitIdDefined | developtools/global_resource_tool/src/id_worker.cpp:168-237 | The loops over files and records define every name as its place in its file counts from the start id, or stop at the first file or name refused. |
| IdDefinitions.DefinedAre | developtools/global_resource_tool/src/id_worker.cpp:168-237 | Defined are exactly the names of the files, each with its file's start id plus its place. |
| IdDefinitions.SystemStartIs | developtools/global_resource_tool/src/id_worker.cpp:276-276 | The names of system ids are checked exactly for ids in the top sixteenth of a block of 2^27. |
| IdDefinitions.SystemNameIs | developtools/global_resource_tool/src/id_worker.cpp:313-320 | A system name is "ohos" and one line of something, in bytes. |
| IdDefinitions.PlainNameIs | developtools/global_resource_tool/src/id_worker.cpp:85-95 | A name is valid if it is of bytes from 65 to 122 or from 48 to 57, one at least. |
| IdDefinitions.DefinedOneToOne | developtools/global_resource_tool/src/id_worker.cpp:168-237 | Files that are read define every name with an id of its own exactly if no two number the same ids. |
| IdDefinitions.SameStart | developtools/global_resource_tool/src/id_worker.cpp:174-182 | Two files with the same start id are both accepted and give two names one id. |
| IdWorkers.IdWorker.GetMaxId | developtools/global_resource_tool/src/id_worker.cpp:339-346 | The bit scan finds the lowest set bit. |
| IdWorkers.IdWorker.PushCache | developtools/global_resource_tool/src/id_worker.cpp:97-117 | Ties the loop that records gaps to the function the runs are made of, failure and the entry it leaves included. |
| IdWorkers.IdWorker.GenerateAppId | developtools/global_resource_tool/src/id_worker.cpp:124-151 | Ties the method to the function the runs are made of; what that hands out say `GenerateReturns` and `LeastFree`. |
| IdWorkers.IdWorker.GenerateSysId | developtools/global_resource_tool/src/id_worker.cpp:153-166 | Gives a name the id it has or the one defined for it, or -1. |
| IdWorkers.IdWorker.GenerateId | developtools/global_resource_tool/src/id_worker.cpp:41-47 | An application keeps names and ids one to one; a system build succeeds exactly on a defined name; ids given stay, and a failure changes nothing. |
| IdWorkers.IdWorker.GetId | developtools/global_resource_tool/src/id_worker.cpp:67-74 | Between calls -1 is answered exactly for a name without an id, and in an application no other name has the id answered. |
| IncrementManagers.ReplayGoesThrough | developtools/global_resource_tool/src/increment_manager.cpp:168-215 | Pushing a saved table succeeds exactly if its ids rise from the start on and no name comes twice; then every name is cached with its id and the gaps are exactly the ids left out. |
| IncrementManagers.IdsSurvive | developtools/global_resource_tool/src/increment_manager.cpp:140-215 | After a replay and any generations, every saved name gets its old id back and a new name gets an id no saved name has, or none. |
| IncrementManagers.RebuildFillsGaps | developtools/global_resource_tool/src/id_worker.cpp:97-151 | After any table is replayed, distinct new names, while the range lasts, get the ids the table leaves out, lowest first, and then those above it: their ids rise in the order of the names and leave out only ids of the table. |
| IncrementManagers.SavedTableReplays | developtools/global_resource_tool/src/increment_manager.cpp:150-166 | The table saved by any run, by ascending id, can be replayed from the same start. |
| IncrementManagers.MemberOrderReplays | developtools/global_resource_tool/src/increment_manager.cpp:150-213 | A table saved by any run, its members in string order, replays exactly if the counts of digits never fall along it. |
| IncrementManagers.MemberOrderCanFail | developtools/global_resource_tool/src/increment_manager.cpp:150-213 | From start id 99999744, 257 generations reach 100000000, and the whole table saved, in string order, does not replay. |
| IncrementManagers.FreshIds | developtools/global_resource_tool/src/id_worker.cpp:124-151 | Generating ids for new names takes the ids from the start on, one after the other. |
| IncrementManagers.LoadIdJson | developtools/global_resource_tool/src/increment_manager.cpp:168-215 | Succeeds exactly on rising tables and then leaves the state of the replay. |
| IncrementManagers.FlushId | developtools/global_resource_tool/src/increment_manager.cpp:140-148 | Generating the ids of the items kept gives each its own id and moves neither appId_ nor the gaps. |
| Decimal.StringOrder | developtools/global_resource_tool/src/increment_manager.cpp:150-166 | For numbers with equally many digits, string order is number order. |
| Decimal.AtoiToString | developtools/global_resource_tool/src/key_parser.cpp:250-256 | Reading a printed number gives the number. |
| ResourceCompilers.ResourceCompiler.MergeResourceItem | developtools/global_resource_tool/src/i_resource_compiler.cpp:174-201 | Refuses exactly an invalid name or a limit key already there under the name; otherwise adds the item under its name. |
| ResourceCompilers.ResourceCompiler.PostCommit | developtools/global_resource_tool/src/i_resource_compiler.cpp:159-172 | From an empty result, success loses nothing exactly if no two names are defined with one id, which an application need not fear: every name's own items stand under its id, with one entry for each name. Names are taken by type and name ascending: new ones of an application get rising ids, and of names that share an id the first is kept. A system build succeeds exactly if all names are defined, an application exactly if it had room for the new ones. |
| ResourceCompilers.EmplacedIsCommitted | developtools/global_resource_tool/src/i_resource_compiler.cpp:170-170 | What emplace leaves is every name's own items exactly if no two names have one id. |
| ResourceCompilers.SameStartLoses | developtools/global_resource_tool/src/i_resource_compiler.cpp:159-172 | With two definition files of one start id, committing a resource of each loses one. |
| ResourceCompilers.EntriesTidy | developtools/global_resource_tool/src/i_resource_compiler.cpp:174-201 | No committed entry has a limit key twice or items of two names. |
| ResourceCompilers.Push | developtools/global_resource_tool/src/resource_module.cpp:112-121 | The owner keeps its entries and gets those whose id is new; nothing happens in preview mode. |
| ResourceCompilers.PushEmplaces | developtools/global_resource_tool/src/resource_module.cpp:112-121 | Pushing another compiler's result keeps the owner's items of a name both have; without a common name or colliding ids the two have no entry in common. |
| ResourceCompilers.ScanResource | developtools/global_resource_tool/src/resource_module.cpp:40-68 | A run of commits and pushes over any compilers succeeds exactly if all names are defined or, in an application, there was room for the new ones; the owner then has every compiler's items under their ids exactly if no two names are defined with one id and no two compilers differ on a name. |
| ResourceCompilers.WholeIf | developtools/global_resource_tool/src/resource_module.cpp:53-68 | An owner put together by first come, first kept has every compiler's items exactly if ids do not collide and compilers agree on the names they share. |
| ResourceCompilers.SecondDropped | developtools/global_resource_tool/src/resource_module.cpp:112-121 | Of a name that two compilers collect differently only the first one's items are kept. |
| WholeBuilds.MergedIsFirsts | developtools/global_resource_tool/src/file_manager.cpp:33-44 | Merging the owners compilers leave keeps, of every id and limit key, the earliest declaration, with no limit key twice. |
| WholeBuilds.BuiltStep | developtools/global_resource_tool/src/file_manager.cpp:33-44 | Scanning one more module, ids being kept, adds its owner to a build whose owners are each what their compilers' names give. |
| WholeBuilds.BuildUnconflicting | developtools/global_resource_tool/src/resource_table.cpp:38-59 | The merged items of a build have no id with two items of one limit key, so the index file is laid out as predicted. |
| WholeBuilds.BuildComesBack | developtools/global_resource_tool/src/resource_table.cpp:38-163 | From the names compilers collected, through merge, index file and loader: under every id come back exactly the items declared first for their limit keys, up to the first of type ID, by ascending limit key. |
| Merging.MergeResourceItem | developtools/global_resource_tool/src/resource_module.cpp:81-110 | Fails, when told to, exactly if a limit key of an id comes up again; otherwise gives the merged table. |
| Merging.AppendItems | developtools/global_resource_tool/src/resource_module.cpp:90-106 | The inner loop appends the items whose limit key is new, and stops exactly at a conflict that is to be an error. |
| Merging.FirstsAre | developtools/global_resource_tool/src/resource_module.cpp:90-98 | The list the limit key test leaves has no limit key twice and holds exactly the items before which none has their limit key. |
| Merging.FirstsInOrder | developtools/global_resource_tool/src/resource_module.cpp:90-98 | The items it holds stand in the order they came in. |
| Merging.EarliestWins | developtools/global_resource_tool/src/resource_module.cpp:81-110 | Folding modules in order keeps, for every id and limit key, the item of the earliest declaration, without duplicates, exactly if the first module with the id does not repeat a limit key itself. |
| Merging.KeptIsEarliest | developtools/global_resource_tool/src/resource_module.cpp:81-110 | Module by module: an item is in the merged list exactly if no earlier module, and nothing before it in its own, declares its id and limit key; provided the first module with the id repeats none. |
| Merging.RepeatedFirst | developtools/global_resource_tool/src/resource_module.cpp:84-88 | A first module that repeats a limit key keeps both items. |
| AppendCombining.ResourceAppend.CheckModuleResourceItem | developtools/global_resource_tool/src/resource_append.cpp:595-616 | Fails exactly if the module already has the limit key under the id; otherwise records the item. |
| AppendCombining.ResourceAppend.Push | developtools/global_resource_tool/src/resource_append.cpp:459-487 | Generates the id of the item; fails exactly without one or on a conflict within the module; otherwise adds the item unless another module declared its limit key, and records it if it holds references. |
| AppendCombining.ResourceAppend.AddRef | developtools/global_resource_tool/src/resource_append.cpp:489-509 | Records a base profile that is a JSON file, or an item of another kind, media apart, whose one line has a dollar sign and further on a colon. |
| AppendMerging.RefsAre | developtools/global_resource_tool/src/resource_append.cpp:459-509 | After any records, recorded are exactly the items held that have references to resolve. |
| AppendMerging.NeedsRefIs | developtools/global_resource_tool/src/resource_append.cpp:489-509 | In bytes: never media; a profile exactly if its limit key is "base" and its path ends in ".json", one separator behind it not counted; anything else exactly if it is one line with a "$" and, not right behind it, a ":". |
| AppendMerging.RefsInOrder | developtools/global_resource_tool/src/resource_append.cpp:459-509 | They are recorded in the order of their records. |
| AppendCombining.ResourceAppend.PushAll | developtools/global_resource_tool/src/resource_append.cpp:511-560 | A list of items is taken exactly if, as shows before the first push, there is room for its new names and no name and limit key of the module repeat, or all names are defined without conflict. |
| AppendCombining.ResourceAppend.LoadResourceItem | developtools/global_resource_tool/src/resource_append.cpp:379-402 | A file is taken exactly if its length, as an int32, is positive and its items can be taken. |
| AppendCombining.ResourceAppend.Combine | developtools/global_resource_tool/src/resource_append.cpp:73-92 | A module is taken exactly if none of its files is refused and its items can be taken, which shows beforehand; its records are then added to the table. |
| AppendMerging.ConsistentByName | developtools/global_resource_tool/src/resource_append.cpp:595-616 | With ids one to one, a module has no conflict exactly if no two of its items have one name and one limit key. |
| AppendMerging.AccumulatedIs | developtools/global_resource_tool/src/resource_append.cpp:471-486 | Under every id, pushing records one by one appends its items, limit keys tested. |
| AppendMerging.OfInOrder | developtools/global_resource_tool/src/resource_append.cpp:471-486 | The items of one id stand in the order of their records. |
| AppendMerging.SameAsMerge | developtools/global_resource_tool/src/resource_append.cpp:459-487 | With no module in conflict with itself, pushing all records gives the table that folding the modules' tables gives. |
| AppendCombining.CombineAll | developtools/global_resource_tool/src/resource_append.cpp:53-92 | On any files: succeeds exactly if no file of any module is refused and, as shows beforehand, all modules can be taken; the items are then those of the folding merge, and recorded are exactly those of them with references, in the order of the records. |
| AppendFiles.LoadableIs | developtools/global_resource_tool/src/resource_append.cpp:388-396 | Below 2 GiB exactly the empty file is refused, and others are read whole; from there to 4 GiB all are refused. |
| AppendFiles.EmptyRefused | developtools/global_resource_tool/src/resource_append.cpp:393-396 | A module of one empty file is refused, where reading it would have made up a record of empty fields. |
| AppendFiles.FilesBack | developtools/global_resource_tool/src/resource_append.cpp:349-560 | The files of a module, each below 2 GiB, are not refused and hold exactly the items written to them, file after file. |
| AppendFiles.FileItemsFlat | developtools/global_resource_tool/src/resource_append.cpp:73-92 | What a module's files hold is read file after file, in their order. |
| AppendCombining.WrittenCombine | developtools/global_resource_tool/src/resource_append.cpp:53-92 | From items to files and back: the files written are not refused, and combining them gives, of every id and limit key, the item written first. |
| ModuleOrder.OrderTakesAll | developtools/global_resource_tool/src/resource_merge.cpp:40-73 | The order takes every input exactly once, kind by kind (none, entry, feature, shared, har) and within a kind the last one first. |
| ModuleOrder.KindsInOrder | developtools/global_resource_tool/src/resource_merge.cpp:40-73 | In terms of what configurations say: an input without one, or of no kind, comes before every entry, feature, shared module and archive, and these in that order; of two inputs that say the same the later one comes first. |
| ModuleOrder.Init | developtools/global_resource_tool/src/resource_merge.cpp:40-73 | Fails exactly on an unreadable configuration; a file list is kept as it is; otherwise the directories come in that order. |
| StringCodec.ComposeStrings | developtools/global_resource_tool/src/resource_util.cpp:151-172 | Gives, for a non-empty list, the empty text exactly if the list takes more than 65535 bytes, three more than each string; otherwise all entries. |
| StringCodec.EntryBytes | developtools/global_resource_tool/src/resource_util.cpp:151-172 | Every string stands behind those before it: a length, low byte first, counting the NUL if one is to be counted, the string, and a NUL. |
| StringCodec.DecomposeStrings | developtools/global_resource_tool/src/resource_util.cpp:174-197 | Gives the strings of the scan, or none if an entry does not fit. |
| StringCodec.DecomposeCompose | developtools/global_resource_tool/src/resource_util.cpp:151-197 | Decomposing undoes composing for every list that can be composed. |
| StringCodec.ComposeDecompose | developtools/global_resource_tool/src/resource_util.cpp:151-197 | Composing undoes decomposing exactly on texts whose entries all end in a NUL. |
| StringCodec.EndByteLost | developtools/global_resource_tool/src/resource_util.cpp:174-197 | An empty string ending in a 1 is decomposed and composed with a NUL. |
| ReferenceParsers.ParseRefResourceItemData | developtools/global_resource_tool/src/reference_parser.cpp:207-237 | When it fails, exactly; on success the array has the same length, every element that is a reference gives way to the resolver's text and every other one stays, and the data are left alone if there are none. |
| ReferenceParsers.ResolveAll | developtools/global_resource_tool/src/reference_parser.cpp:217-229 | The loop puts the resolver's text for every reference, leaves all else, and fails exactly on an undefined one. |
| ResourceData.GetIdNameIs | developtools/global_resource_tool/src/resource_util.cpp:137-149 | The name of another kind than animation, layout, media, profile and graphic, or one without a dot, is kept; of these kinds it ends before its last dot. |
| KeyParsers.Split | developtools/global_resource_tool/src/resource_util.cpp:42-60 | The loop gives the parts of the text. |
| KeyParsers.SplitJoin | developtools/global_resource_tool/src/resource_util.cpp:42-60 | Splitting undoes joining of parts free of the separator, the last one not empty. |
| KeyParsers.SplitTrailing | developtools/global_resource_tool/src/resource_util.cpp:42-60 | One separator at the end adds no part, and lets the last one be empty. |
| KeyParsers.PartsSpell | developtools/global_resource_tool/src/resource_util.cpp:42-60 | The parts of any text are free of the separator and, joined, are the text, up to one separator at its end. |
| KeyParsers.ParseMatch | developtools/global_resource_tool/src/key_parser.cpp:55-74 | The nested loops with a moving first parser give what the recursive reading of the stages gives. |
| KeyParsers.ParseMatchBySeq | developtools/global_resource_tool/src/key_parser.cpp:76-85 | Matches leaf by leaf, keeping what matched before a failure, or runs off the leaves. |
| KeyParsers.ParseLSR | developtools/global_resource_tool/src/key_parser.cpp:124-146 | The first of the three locale shapes that matches counts. |
| KeyParsers.LsrOutOfBounds | developtools/global_resource_tool/src/key_parser.cpp:76-146 | A locale indexes past its leaves exactly if it has three parts, starts with a language, and goes on with a region, or with a script and no region. |
| KeyParsers.FreshOutOfBounds | developtools/global_resource_tool/src/key_parser.cpp:25-146 | A whole parse does so exactly if, of the parts between dashes, the first are empty or mcc codes with or without an mnc code, the next empty or locales, and then one overruns: before a later stage is reached. |
| KeyParsers.PartsMatch | developtools/global_resource_tool/src/key_parser.cpp:76-146 | The mcc and mnc stage takes exactly nothing, an mcc code, or an mcc and an mnc code; the locale stage nothing, or a language alone, with a script, with a region, or with both. |
| KeyParsers.EnUsX | developtools/global_resource_tool/src/key_parser.cpp:76-146 | The name en_US_x indexes past the leaves. |
| KeyParsers.PushLSR | developtools/global_resource_tool/src/key_parser.cpp:258-267 | Packs the characters into a number, eight bits each. |
| KeyParsers.MatchShift | developtools/global_resource_tool/src/key_parser.cpp:55-74 | Params already in the caller's list stay in front and change nothing of the parse. |
| KeyParsers.CachedEqualsFresh | developtools/global_resource_tool/src/key_parser.cpp:25-53 | After any run of calls from an empty cache, a parse gives what a fresh one gives exactly if the name is base, does not parse, comes up for the first time, or is given the list its first call was given. |
| KeyParsers.CacheDiffers | developtools/global_resource_tool/src/key_parser.cpp:31-34 | Filled with a list that was not empty, the cache answers a call with the empty list differently, and a second call with the same list alike. |
| KeyParsers.CachedIs | developtools/global_resource_tool/src/key_parser.cpp:31-51 | The cache holds, for every name that has been parsed, what its first call left in its list. |
| KeyParsers.KeyParser.Parse | developtools/global_resource_tool/src/key_parser.cpp:25-53 | What a hit and a miss return and what is cached, over all calls so far, and when the answer is that of a fresh parse, of which `FolderMeans` says what it is. |
| FolderNames.FolderReads | developtools/global_resource_tool/src/key_parser.cpp:25-256 | A folder's name parses exactly if it is base, or what stands between its dashes are nothing, country codes of three digits with or without a network code of two or three, locales of the four shapes, or the fixed words, in the order of these kinds. |
| FolderNames.FolderMeans | developtools/global_resource_tool/src/key_parser.cpp:25-276 | Such a name gives the params of its parts, one after the other: for every code its number, for every piece of a locale its letters as bytes, under language, script or region, and for every word the type and value of a table. |
| FolderNames.LocaleFolder | developtools/global_resource_tool/src/key_parser.cpp:124-201 | Names of a language, with a script, with a region, and with both give exactly one param for each piece, of type language, script and region in this order, the value made of the piece's bytes. |
| FolderNames.WordFolder | developtools/global_resource_tool/src/key_parser.cpp:203-248 | A fixed word gives exactly its one param. |
| FolderNames.PointingDevice | developtools/global_resource_tool/src/key_parser.cpp:229-237 | pointingdevice gives the input device param 0. |
| LimitKeys.PaserKeyParam | developtools/global_resource_tool/src/resource_util.cpp:339-366 | The printing loop gives the printed form. |
| LimitKeys.LocaleRoundTrip | developtools/global_resource_tool/src/resource_util.cpp:283-288 | A packed locale code of up to four letters is printed as it was. |
| LimitKeys.GroupTaken | developtools/global_resource_tool/src/key_parser.cpp:55-74 | The text of a group is taken by the group's own stage and by none before it. |
| LimitKeys.PiecesJoin | developtools/global_resource_tool/src/resource_util.cpp:339-366 | What is printed is the groups' texts joined by dashes. |
| LimitKeys.ParsePrinted | developtools/global_resource_tool/src/key_parser.cpp:25-146 | Parsing the printed form of any canonical list of key params, the empty one included, gives the list back. |
| LimitKeys.PrintedInjective | developtools/global_resource_tool/src/resource_util.cpp:339-366 | Different canonical lists print differently. |
| FolderRoundTrips.KeyComesBack | developtools/global_resource_tool/src/resource_util.cpp:314-366 | For every folder's name: the key printed from its params parses exactly if no part holds a script, a pointing device, a country code below 100 or a network code below 10, and then to the same params. |
| FolderRoundTrips.ZhHans | developtools/global_resource_tool/src/resource_util.cpp:314-366 | The name zh_Hans parses, the key printed from its params does not. |
| AppendFormat.WriteResourceItem | developtools/global_resource_tool/src/resource_append.cpp:349-377 | The writer, loop over key params included, appends one record. |
| AppendFormat.RecordBytes | developtools/global_resource_tool/src/resource_append.cpp:349-377 | A record word by word: name, limit key and file path, each behind its length, the type, the number of key params, type and value of each, the data behind its length. |
| AppendFormat.ParseInt32 | developtools/global_resource_tool/src/resource_append.cpp:579-593 | Reads the word at the cursor, or gives -1 with the cursor at the end if there are not four bytes; never outside the buffer. |
| AppendFormat.ParseString | developtools/global_resource_tool/src/resource_append.cpp:562-577 | Reads a length and as many bytes exactly if the length is not negative and they are there; otherwise the text is empty and the cursor at the end. |
| AppendFormat.ParamsAre | developtools/global_resource_tool/src/resource_append.cpp:523-532 | On any buffer as many key params are read as the count says, none for a negative one, and those within the buffer as they stand. |
| AppendFormat.LoadResourceItemFromMem | developtools/global_resource_tool/src/resource_append.cpp:511-560 | On any buffer the loop ends and gives the records read one after the other, raw ones not pushed. |
| AppendFormat.PushedIs | developtools/global_resource_tool/src/resource_append.cpp:535-549 | Records of type 6, raw, are left out; all others stay in their order. |
| AppendFormat.RecordAdvances | developtools/global_resource_tool/src/resource_append.cpp:511-593 | Whatever the buffer holds, reading a record keeps the cursor within it and moves it on. |
| AppendFormat.ReadRecord | developtools/global_resource_tool/src/resource_append.cpp:511-560 | A record standing in a buffer is read as the item it was written from, with the cursor behind it. |
| AppendFormat.LoadWritten | developtools/global_resource_tool/src/resource_append.cpp:349-593 | Loading any written items, at least one and none raw, gives exactly those items. |
| ResourceTables.Prepare | developtools/global_resource_tool/src/resource_table.cpp:175-210 | The first pass gives each limit key the predicted position of its id set, modulo 2^32, and zeroed id sets. |
| ResourceTables.SaveRecordItem | developtools/global_resource_tool/src/resource_table.cpp:212-249 | The second pass writes all records and leaves each id set with the positions its records were counted at. |
| ResourceTables.SaveLimitKeyConfigs | developtools/global_resource_tool/src/resource_table.cpp:258-268 | The KEYS entries' bytes. |
| ResourceTables.SaveIdSets | developtools/global_resource_tool/src/resource_table.cpp:270-280 | The IDSS entries' bytes, ids ascending. |
| ResourceTables.SaveToResouorceIndex | developtools/global_resource_tool/src/resource_table.cpp:129-163 | The file written is the image defined from the rows alone. |
| ResourceTables.GroupDone | developtools/global_resource_tool/src/resource_table.cpp:216-247 | A limit key's id set is filled by its own records and by no others. |
| ResourceTableWords.SizeStored | developtools/global_resource_tool/src/resource_table.cpp:129-163 | The size word in the header is the number of bytes written exactly if no limit key has two rows of one id and the file is below 4 GiB. |
| ResourceTableOffsets.PredictedSize | developtools/global_resource_tool/src/resource_table.cpp:129-163 | The sum the size word is taken from is the number of bytes written exactly if no limit key has two rows of one id; it is never less. |
| ResourceTableOffsets.HeaderStands | developtools/global_resource_tool/src/resource_table.cpp:154-156 | The header holds the predicted size and the number of limit keys, modulo 2^32. |
| ResourceTableWords.KeysOffsetStored | developtools/global_resource_tool/src/resource_table.cpp:191-208 | The word in a KEYS entry is the position of its own id set, tag first: in a file below 4 GiB exactly if no earlier limit key has two rows of one id, and without such exactly if that position is below 4 GiB. |
| ResourceTableWords.IdOffsetStored | developtools/global_resource_tool/src/resource_table.cpp:212-249 | The word beside a row's id is the first byte of the row's record: in a file below 4 GiB exactly if no limit key has two rows of one id, and without such exactly if the record starts below 4 GiB. |
| ResourceTableWords.EveryRecordStands | developtools/global_resource_tool/src/resource_table.cpp:212-249 | Every record stands behind the id sets as written, in the order of the rows, whatever ids they have. |
| ResourceTableLayout.HeaderBytes | developtools/global_resource_tool/src/resource_table.cpp:251-256 | The file begins with "Restool 2.010", NULs up to byte 128, the size, the number of limit keys at 132 and, if there is one, the bytes of the tag KEYS at 136. |
| Bytes.WordBytes | developtools/global_resource_tool/src/resource_table.cpp:258-280 | A word that stands in a file is made of its four bytes, the lowest first. |
| ResourceTableLayout.KeysPlaces | developtools/global_resource_tool/src/resource_table.cpp:178-189 | The KEYS entries stand one after the other from byte 136 on, twelve bytes and eight for each param. |
| ResourceTableLayout.KeysEntryBytes | developtools/global_resource_tool/src/resource_table.cpp:258-268 | Each is the tag's four bytes, a position, the number of params, and type and value of each. |
| ResourceTableLayout.IdsPlaces | developtools/global_resource_tool/src/resource_table.cpp:191-208 | The id sets stand one after the other behind them, eight bytes and eight for each id. |
| ResourceTableLayout.IdsTag | developtools/global_resource_tool/src/resource_table.cpp:270-280 | Each begins with the tag IDSS and the number of rows. |
| ResourceTableLayout.IdsEntryBytes | developtools/global_resource_tool/src/resource_table.cpp:270-280 | Behind that stand its ids, each once and ascending, eight bytes apart. |
| ResourceTableLayout.RecordPlaces | developtools/global_resource_tool/src/resource_table.cpp:212-249 | The records stand one after the other behind the id sets, twelve bytes and what the value and the id name take, or nothing if they do not fit. |
| ResourceTableLayout.RecordBytes | developtools/global_resource_tool/src/resource_table.cpp:227-247 | Each is its size, type and id, and, if they fit, value and id name, each between its length, NUL included, and a NUL. |
| ResourceTableCases.RepeatedIdMisplaces | developtools/global_resource_tool/src/resource_table.cpp:129-249 | Two rows of one id under the first of two limit keys make the size, the second id set position and its record position wrong. |
| ResourceTableOffsets.RecordStands | developtools/global_resource_tool/src/resource_table.cpp:212-249 | Without two rows of one id in a limit key, every record stands in the file where it was predicted. |
| ResourceTableLoads.Passed | developtools/global_resource_tool/src/resource_table.cpp:284-288 | A read that is let through ends within the announced length. |
| ResourceTableLoads.ReadLimitKeys | developtools/global_resource_tool/src/resource_table.cpp:295-329 | The loop over KEYS entries, on any bytes. |
| ResourceTableLoads.ReadIdTables | developtools/global_resource_tool/src/resource_table.cpp:331-363 | The loop over IDSS entries, on any bytes. |
| ResourceTableLoads.KeysEntryRead | developtools/global_resource_tool/src/resource_table.cpp:295-329 | On any bytes: a KEYS entry is let through exactly if it begins with the tag's bytes and lies within the length with as many params as it says; it adds exactly those params under the position it gives. |
| ResourceTableLoads.IdsEntryRead | developtools/global_resource_tool/src/resource_table.cpp:331-363 | On any bytes: an IDSS entry is let through exactly if it begins with the tag's bytes and lies within the length with as many pairs as it says; from every place a pair names it then leads to the id of the last such pair and to itself. |
| ResourceTableLoads.RecordRead | developtools/global_resource_tool/src/resource_table.cpp:365-430 | On any bytes, a record that is let through gives an item whose id, type, value and name stand in the file at its place in the form they are written in, and whose key params are those its place leads to. |
| ResourceTableLoads.LoadResTable | developtools/global_resource_tool/src/resource_table.cpp:82-127 | On any bytes the loader ends, with the items, a failure, or at a point where the source leaves what C++ defines. |
| ResourceTableRoundTrip.ReadKeys | developtools/global_resource_tool/src/resource_table.cpp:295-329 | The KEYS entries written are read back as the table from id set positions to key params. |
| ResourceTableRoundTrip.ReadIds | developtools/global_resource_tool/src/resource_table.cpp:331-363 | The id sets written are read back as the table from record positions to ids and id set positions. |
| ResourceTableRoundTrip.TablesLead | developtools/global_resource_tool/src/resource_table.cpp:407-425 | Through both tables every record's position leads to its own id and its own limit key's params. |
| ResourceTableRoundTrip.ReadRecordAt | developtools/global_resource_tool/src/resource_table.cpp:365-430 | A record written is read back as its row. |
| ResourceTableRoundTrip.RoundTrip | developtools/global_resource_tool/src/resource_table.cpp:82-163 | Loading a saved file gives every row back under its id, in the order written, and nothing else. |
| ResourceTableItems.EveryItemBack | developtools/global_resource_tool/src/resource_table.cpp:82-163 | Under every id come back exactly its rows, each with its type, its own key params, its id name and its value with one NUL behind. |
| ResourceTableItems.ComesBackIfFits | developtools/global_resource_tool/src/resource_table.cpp:228-240 | A file comes back as its rows exactly if every row's value and id name fit the 16-bit lengths together. |
| ResourceTableCases.LongValueLost | developtools/global_resource_tool/src/resource_table.cpp:228-240 | A string of 65535 bytes does not come back. |
| ResourceTableItems.RecordsExtend | developtools/global_resource_tool/src/resource_table.cpp:117-124 | On any bytes, reading on only adds to the items read so far. |
| ResourceTableItems.CreatedComesBack | developtools/global_resource_tool/src/resource_table.cpp:38-163 | From merged items to the file and back: under every id come back exactly the items up to the first of type ID, each as often as it was taken, by ascending limit key. |
| ResourceTableItems.WrittenAscends | developtools/global_resource_tool/src/resource_table.cpp:38-59 | The rows of one id stand in the file in the order of their limit keys. |
| ResourceTableCreation.CreateResourceTable | developtools/global_resource_tool/src/resource_table.cpp:38-80 | The loops sort the items' rows into their limit keys, none empty and ascending in the order of std::string, and the file is that of those rows. |
| ResourceTableCreation.TakeItems | developtools/global_resource_tool/src/resource_table.cpp:43-51 | The inner loop adds a row for each item before the first of type ID and stops there. |
| ResourceTableCreation.TakenPrefix | developtools/global_resource_tool/src/resource_table.cpp:43-46 | Taken of a list are the first items, up to one of type 15, which is there if any is left out. |
| ResourceTableCreation.SameRows | developtools/global_resource_tool/src/resource_table.cpp:42-52 | Sorting into limit keys loses no row and adds none. |
| ResourceTableCreation.FileOrder | developtools/global_resource_tool/src/resource_table.cpp:38-59 | From the items alone, where rows stand in the file: by ascending limit key, under one limit key by ascending id, and rows of one id and limit key in the order of their items. |
| TextOrder.BeforeIs | developtools/global_resource_tool/src/resource_table.cpp:42-42 | The order of limit keys: at the first byte that differs, bytes unsigned, the smaller one is first, and a text is before every longer one it begins. |
| TextOrder.Enumerate | developtools/global_resource_tool/src/resource_table.cpp:178-178 | Running through a set of texts from the first on gives each once, ascending. |
| ResourceTableCreation.CreatedRows | developtools/global_resource_tool/src/resource_table.cpp:38-59 | The file's rows are exactly the items taken, and ids are distinct within every limit key exactly if no id has two taken items of one limit key. |
| UtilsLists.Rotate | commonlibrary/utils_lite/include/utils_list.h:199-202 | A ring read from another of its nodes on is the same ring, as when inserting behind the last node inserts before the first. |
| UtilsLists.Ends | commonlibrary/utils_lite/include/utils_list.h:300-311 | First and last node of a ring are linked both ways. |
| UtilsLists.UtilsListInit | commonlibrary/utils_lite/include/utils_list.h:59-63 | Makes a ring of one node. |
| UtilsLists.UtilsListAdd | commonlibrary/utils_lite/include/utils_list.h:172-178 | The node stands right behind the list head; the others follow in their order. |
| UtilsLists.UtilsListTailInsert | commonlibrary/utils_lite/include/utils_list.h:199-202 | The node stands last. |
| UtilsLists.UtilsListDelete | commonlibrary/utils_lite/include/utils_list.h:247-253 | Exactly the node leaves the ring, with its links cleared. |
| UtilsLists.UtilsListDelInit | commonlibrary/utils_lite/include/utils_list.h:503-508 | The node leaves the ring and makes one of its own. |
| UtilsLists.UtilsListEmpty | commonlibrary/utils_lite/include/utils_list.h:276-279 | Holds exactly for a ring of the head alone. |
| UtilsLists.UtilsListAddList | commonlibrary/utils_lite/include/utils_list.h:300-311 | Two disjoint rings become one: oldList, newList and the rest of the new ring, the rest of the old ring. |
| UtilsLists.Joined | commonlibrary/utils_lite/include/utils_list.h:300-311 | The four links set by the splice and those left alone make one ring, linked both ways everywhere. |
| UtilsLists.UtilsListTailInsertList | commonlibrary/utils_lite/include/utils_list.h:332-335 | The old ring, then the new one. |
| UtilsLists.ForEachSafe | commonlibrary/utils_lite/include/utils_list.h:554-557 | The safe loop, its body deleting any chosen nodes as they come up, visits every node once in order and keeps exactly the others. |
| UtilsLists.LeftWithin | commonlibrary/utils_lite/include/utils_list.h:554-557 | What is left of the list at any point of the loop holds none of the nodes deleted before. |
| Utf8.IsUtf8Data | tools_previewer/util/StringHelper.h:25-68 | The loop accepts exactly what the byte automaton accepts and not all of which is ASCII. |
| Utf8.RecognisesCharacters | tools_previewer/util/StringHelper.h:25-68 | The automaton accepts exactly the data that split into ASCII bytes and leading bytes with the continuation bytes they announce, 0xFE and 0xFF announcing four. |
| Utf8.CharacterIs | tools_previewer/util/StringHelper.h:25-68 | By ranges of bytes: which byte may lead a group of which length, from one to six. |
| Utf8.EncodedRecognised | tools_previewer/util/StringHelper.h:25-68 | Every encoding by section 3 of RFC 3629 is accepted, and is all ASCII exactly if its text is. |
| Utf8.OctetsDecode | tools_previewer/util/StringHelper.h:25-68 | The octets encoding takes for a code point are as many as its range in section 3 of RFC 3629 says, and give it back, six bits from each continuation. |
| Utf8.DetectEncode | tools_previewer/util/StringHelper.h:70-86 | FF FE with something behind says UTF-16 little-endian, FE FF big-endian, EF BB BF UTF-8 with a mark, each exactly; what has none of these goes to the recogniser. |
| Utf8.EncodedDetected | tools_previewer/util/StringHelper.h:70-86 | Encoded text with a character outside ASCII is never guessed to be UTF-16; it is guessed to carry a mark exactly if it starts with one and goes on. |

## Left out

- Hash list: move construction and assignment (the ring ends stay with the source list), the constant `front` (it calls itself), erasing a range (its comparison is not defined), assignment of nodes (no return), and reverse iterators.
- Hash list: node allocation that fails; a capacity of zero in operations that allocate a node (`At`, `PushFront`, `PushBack` ask for a positive one).
- HashListRuns.Replay: a position past the end is not erased and the tail of an empty list not raised; the source leaves both undefined.
- Hash list: finding a node from its link by address arithmetic; nodes are objects here and the two ring heads are nodes of their own.
- HiviewCaches.HiviewCache.Static: only the statically provided buffer; allocating and destroying a buffer are not modelled. The source and target of a copy are different arrays.
- Hiview cache: `DiscardCacheData` is a step of the interleaving only while no read is under way.
- IdWorkers.IdWorker.Init: a definition file comes with its JSON read: start id as an int32, types and orders checked, one that is missing left out of the list. `PushDelId`, which nothing calls, and the texts of the generated headers are left out.
- IdDefinitions.DefinedOneToOne: a start id plus a place in the record is not reduced to int32.
- IdWorkers.IdWorker.GenerateAppId: the counter is an unbounded integer; `AppIdOverflow` says when that differs from int32.
- IdWorkers.IdWorker.PushCache: a failing push ends a run, as it does in the loader.
- IncrementManagers.LoadIdJson: the JSON file is a list of names and ids in member order; parsing it, and resource type names, are left out.
- Limit keys: regular expressions are character tests. Script and input device params, and MCC or MNC with leading zeros, do not come back from printing (`KeyComesBack`) and are not in the canonical lists.
- KeyParsers.ParseLSR: an access past the leaves ends the parse in an outcome of its own; what the program does then is not modelled.
- ReferenceParsers.ParseRefResourceItemData: how a single reference is looked up is a parameter, and JSON and XML references are left out.
- ResourceCompilers.ResourceCompiler.MergeResourceItem: the preview database is left out.
- AppendCombining.ResourceAppend.Push: the list of references holds values; that its items are the ones in the table, so that resolving one changes the other, is not modelled, nor is the resolving.
- AppendCombining.CombineAll: finding and opening the files, and copying raw files.
- AppendFiles.FilesBack: files of 2 GiB and more, which the source refuses or reads in part (`LoadableIs`).
- WholeBuilds.BuildComesBack: what resolving references changes in the values between merge and file; ids are within int32.
- AppendFormat.LoadResourceItemFromMem: the records are read here and pushed by `PushAll`, where pushes fail; raw files are skipped, not copied; a position plus a length is not reduced to int32.
- ModuleOrder.Init: what a configuration file says is part of the input.
- ResourceTables.SaveToResouorceIndex: a limit key without rows is not given to it; a missing entry in its maps does not occur and is not modelled; the byte order is little-endian.
- ResourceTableLoads.LoadResTable: opening and closing the file. Where the source goes on with bytes it could not read, or leaves what C++ defines (a name without NUL, an unknown type number, a position beyond int32), the outcome is `Undefined`.
- UTF-8 recogniser: the loop counter is an int; blocks of 2^31 bytes and more are not modelled as overflowing it.
- Directory scanning, sockets, the previewer's commands, SQLite, libxml, JSON, JPEG, logging and the command lines.
- Byte swapping, hex printing and timers stand apart from the components modelled.
