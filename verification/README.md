# FluxCache, verified

A Dafny model of the core of FluxCache, a key-value cache written in Go: its ordered indexes, its lock-free store,
its expiry and eviction layer, its wire protocol, its log and snapshot files and its replicated store. The model follows
the Go code branch by branch. Where a promise of the code turns out not to hold for every input, the model keeps the
code as it is, shows a failing input and proves exactly when the promise holds.

`dafny verify dfyconfig.toml` checks everything.

## What is proved

**Ordered stores** (`BPlus*`, `Skip*`, `Art*`, `MapSpec`, `OrderedRuns`). The B+ tree, the skip list and the adaptive
radix tree are nodes on the heap that are rewritten in place. Each is proved to be a map with ordered scans: for every
run of Set, Del, Get, PrefixKeys and RangeKeys from an empty store, every reply is the one a plain map gives. For the
radix tree this has exceptions, which are stated exactly.

* B+ tree: split chains up to a new root keep the keys sorted, the separators between the subtrees, all leaves on one
  level, at most 31 keys in a node and the leaf chain in order. Before any Del a tree with h inner levels holds at
  least 2 · 16^h keys.
* Skip list: for all coin flips, a node of height h is linked on exactly the levels below h, and the search finds the
  true predecessor on every level.
* Radix tree: the four kinds of node are one map from a byte to a child, through all growth steps and with the stale
  slots a removal leaves in a 48-node. The tree is a flat table from paths to nodes, with one condition between any two
  of them, and a key as a search reads it ends in bytes 0 without end. What becomes of a Set is decided, for every tree
  and key, at the one node where the way of the key ends:
  - *stuck*, waiting for the lock it holds: the node's prefix is longer than what is left of the key;
  - *panicked*: an inner node lies where its leaf should be;
  - *lost*: it gets into one child with the leaf of another key. Exactly one key is then no longer found;
  - *strayed*: it meets a leaf that lies past the end of its own key and leaves it one byte 0 further on. All keys are
    still found and all ranges are right, but a prefix search lists one key too many;
  - *stored* otherwise, which is map update.

  So after a Set every Get is the map's if and only if it is stored or strayed, and in a tree never strayed in every
  prefix search is right if and only if it is stored. One run through the code is given for each of the other four.
  A Set panics, loses a key or strays only if one key of the run is another one with a byte 0 behind it and perhaps
  more, which keys free of the byte 0 never are; none gets stuck when no key is shorter than what two keys of the run
  share. Keys of one length meet both conditions.

**Lock-free store** (`LockFree*`). Threads are a step system: call, load, copy, swap, look, return. In every schedule
all calls take effect once, between call and return, in the order of one sequential map history; published buckets
never change; and of T threads at most T − 1 swaps fail for each one that succeeds. What a call answers is read off the
events alone: a Get finds a value if and only if the last Set or Del of its key that took effect before it set that
value, and so for every field of every hash.

**Expiry and eviction** (`Eviction`, `Ttl*`, `LruInclusion`). The bookkeeping agrees with the inner store after every
step of every run. Under every policy a step keeps the key count within the limit if and only if it need not evict, or
the policy chooses somebody: none, volatile-ttl without deadlines, and a choice of the empty key let the store grow. A
sweep cannot be noticed by any later read, and no value is read past its deadline. A string or field just set is found
if and only if the store did not evict its key to make room for it and no earlier deadline of the key has passed; every
read of any other key gets the reply it got before, unless that key was the victim. After every run from empty, what is
found under a key, how long it lasts and when it was last used are decided by the last step of the run to touch it, and
LRU and LFU evict a key that was used no later, or no more often, than any other. LRU has no Belady anomaly: a smaller
cache's keys are always among a larger one's.

**Wire protocol** (`Decimal`, `Resp*`). The wire form of a value is written down from the protocol's description, with
its characters and its numbers as sums over powers of ten. What is written is such a form, and every such form is read
as its value. Reading what was written gives the value back and leaves the rest of the stream; a value survives if and
only if its simple strings and errors hold no carriage return. A bulk string of which only a part is buffered survives
if and only if the rest is zeros.

**Logs and snapshots** (`Wire`, `Wal*`, `Bitcask*`, `Tables`, `LastWrites`, `Rdb*`). What each of them brings back is
read off what was written: for every key and every field, the last record or command to touch it decides. The bytes of
each file are described by a relation of their own, which the code is proved to meet.

* Write-ahead log: over all interleavings of writes, flushes and restarts, every startup replays exactly the commands
  written before it, unchanged if their names are in capitals. On arbitrary bytes the replay comes back if and only if
  they are a log of whole records.
* Bitcask log: however often it is reopened, the store has the maps the operations say. Recovery ignores what follows
  the last whole record if and only if no byte there names an operation, so no cut-off record is ignored. A record
  survives a restart behind every log if and only if its strings fit their length fields.
* RDB snapshot: starting up from a snapshot and from the log of the same commands gives the same store if and only if
  no empty value is left under the empty key. A restart fills the store from the snapshot but not the snapshotter: the
  next snapshot keeps a store if and only if the commands of the session cover all of it and leave no such pair.

**Replicas** (`Crdt`). Without deletions the data of a replica is the latest-write fold of what it absorbed. Replicas
that absorbed the same writes agree, in whatever order, grouping and number they came, if and only if the latest
writes to each key agree.
Grouping merges never matters; their direction does not if and only if equal timestamps on a key mean equal values. A
deletion leaves no trace: the key is back after any merges if and only if one of the other replicas has it.

Two notes on the source's own documentation. It describes the B+ tree as locked per node (README.md:36), but the code
takes one lock for the whole tree, and the model treats each operation as atomic. The radix tree comes with no remark
that some keys are refused; the model states which.

## Model

| member | source | states |
|---|---|---|
| `Bytes.PrefixContiguous` | store/bptree.go:216-233 | Keys that share a prefix are contiguous in byte order, so a scan may stop at the first key past the prefix. |
| `MapSpec.RunDetermined` | store/store.go:15-19 | Two stores that keep the ordered store contract give the same replies to every run. |
| `OrderedRuns.RunBPTree` | store/bptree.go:37-252 | On every run from empty, every reply of the B+ tree is the plain map's. |
| `OrderedRuns.GrowBPTree` | store/bptree.go:78-177 | After every run without Del, a B+ tree of h >= 1 inner levels holds at least 2 · 16^h keys. |
| `OrderedRuns.RunSkipList` | store/skiplist.go:30-196 | On every run from empty and for all random heights, every reply of the skip list is the plain map's. |
| `OrderedRuns.RunBoth` | store/store.go:15-19 | The B+ tree and the skip list cannot be told apart by any run. |
| `OrderedRuns.ApplyArt` | store/art.go:112-542 | One operation on the radix tree: a Set has the outcome its tree decides, every reply is the map's, except a prefix search below which a key has strayed, and that one still lists all it should, in order. |
| `OrderedRuns.StepArt` | store/art.go:112-542 | The same within a run: none but a stuck Set fails when the keys of the run can be told apart, and none is stuck when no key is shorter than what two of them share. |
| `OrderedRuns.RunArt` | store/art.go:112-542 | On every run, with any keys, the radix tree replies as the map does up to the first Set that is stuck, panics or loses a key, except that after a stray Set prefix searches may list other stored keys too; with the conditions on keys that exclude each of these. |
| `OrderedRuns.RunAll` | store/store.go:15-19 | With keys that can be told apart and are no shorter than what two of them share, all three ordered stores answer every run alike. |
| `BPlusTree.BPTreeStore.SearchLeaf` | store/bptree.go:44-51 | The leaf found is the one place for the key: all entries left of it are below the key, all right of it above. |
| `BPlusTree.BPTreeStore.Get` | store/bptree.go:66-76 | Get is map lookup. |
| `BPlusTree.BPTreeStore.Set` | store/bptree.go:78-97 | Set is map update and keeps the whole tree invariant, through all the splits it causes. |
| `BPlusTree.BPTreeStore.Del` | store/bptree.go:53-64 | Del is map removal; no node goes away, and empty leaves stay in the chain. |
| `BPlusTree.BPTreeStore.Split` | store/bptree.go:99-112 | Cutting an overfull leaf restores the invariant and changes no contents. |
| `BPlusTree.BPTreeStore.InsertIntoParent` | store/bptree.go:114-133 | A half-attached sibling is attached to its parent, or to a new root; the invariant is restored and the contents unchanged. |
| `BPlusTree.BPTreeStore.SplitInternal` | store/bptree.go:152-177 | Cutting an overfull inner node around its middle key restores the invariant and changes no contents. |
| `BPlusTree.BPTreeStore.FindParent` | store/bptree.go:135-150 | Returns the parent and the place in it, and nothing only if no node has the target as a child. |
| `BPlusTree.BPTreeStore.PrefixKeys` | store/bptree.go:216-233 | Exactly the stored keys with the prefix, ascending. |
| `BPlusTree.BPTreeStore.RangeKeys` | store/bptree.go:235-252 | Exactly the stored keys in the range, ascending. |
| `BPlusTree.BPTreeStore.HeightBounded` | store/bptree.go:92-177 | Before any Del, h >= 1 inner levels mean at least 2 · 16^h keys. |
| `BPlusHeap.SplitLeafStep` | store/bptree.go:99-112 | The two halves read as the one leaf did, hang in the leaf chain in order and are half full. |
| `BPlusHeap.SplitInternalStep` | store/bptree.go:152-160 | The two halves and the key between them read as the one node did; both are balanced and half full. |
| `BPlusHeap.AttachStep` | store/bptree.go:125-126 | A sibling attached right of a child keeps order, balance, sharing-freedom and the leaf chain. |
| `BPlusHeap.RootStep` | store/bptree.go:115-121 | A new root over two halves adds one level everywhere and keeps the invariant. |
| `BPlusLeaf.InsertStep` | store/bptree.go:89-90 | A new key at its place in its leaf is one new entry of the map. |
| `BPlusLeaf.UpdateStep` | store/bptree.go:84-87 | A new value for a key in its leaf is one changed entry of the map. |
| `BPlusLeaf.DeleteStep` | store/bptree.go:53-64 | A key removed from its leaf is one entry less in the map. |
| `BPlusLeaf.LookupStep` | store/bptree.go:66-76 | A key is in the map if and only if it is in the leaf its search leads to, with the same value. |
| `BPlusScan.ChainLists` | store/bptree.go:99-112 | Along the leaf chain the keys ascend and are exactly the keys of the map. |
| `BPlusScan.HeightBound` | store/bptree.go:92-177 | The key count bound from the fill of the nodes. |
| `SkipList.SkipLevel` | store/skiplist.go:38-44 | Every height from 1 to 32, whatever the coin shows. |
| `SkipList.SkipListStore.FindPrev` | store/skiplist.go:50-57 | On every level, the last node below the key. |
| `SkipList.SkipListStore.Seek` | store/skiplist.go:50-58 | The first node at or past the key. |
| `SkipList.SkipListStore.Get` | store/skiplist.go:101-117 | Get is map lookup. |
| `SkipList.SkipListStore.Set` | store/skiplist.go:46-78 | Set is map update and keeps the list invariant. |
| `SkipList.SkipListStore.RaiseLevel` | store/skiplist.go:66-71 | On levels not yet in use the head is the predecessor. |
| `SkipList.SkipListStore.InsertNode` | store/skiplist.go:73-77 | A node spliced in on its levels is linked on exactly those. |
| `SkipList.SkipListStore.Del` | store/skiplist.go:80-99 | Del is map removal and keeps the list invariant. |
| `SkipList.SkipListStore.RemoveNode` | store/skiplist.go:93-97 | A node is unlinked on all its levels, and nothing else changes. |
| `SkipList.SkipListStore.PrefixKeys` | store/skiplist.go:156-174 | Exactly the stored keys with the prefix, ascending. |
| `SkipList.SkipListStore.RangeKeys` | store/skiplist.go:176-196 | Exactly the stored keys in the range, ascending. |
| `SkipRows.InsertStep` | store/skiplist.go:73-77 | The invariant after a node is linked in behind the predecessors found. |
| `SkipRows.RemoveStep` | store/skiplist.go:93-97 | The invariant after a node is unlinked behind the predecessors found. |
| `SkipRows.BottomLists` | store/skiplist.go:156-196 | Level 0 lists the keys of the map, ascending. |
| `ArtNode.Node.FindChild` | store/art.go:304-320 | All four kinds of node look up one map from byte to child. |
| `ArtNode.Node.AddChild` | store/art.go:322-353 | Under any byte, taken or not: the child is put in front of those under its byte, and the node grows exactly when it is full. |
| `ArtNode.JoinedSingle` | store/art.go:365-377 | Where a byte has a child already, the new one is found from then on, except when the node grows from 16 to 48 slots: then the old one is. |
| `ArtNode.Node.RemoveChild` | store/art.go:45-62 | Removes one entry from that map, whatever stale slot stays behind. |
| `ArtNode.Node.Grow16To48` | store/art.go:365-377 | The index leads to the last child under each byte, each byte with its own slot. |
| `ArtNode.Node.Grow48To256` | store/art.go:379-392 | The first byte with a slot is the only one; no live child is lost and no stale one comes back. |
| `ArtNode.Inserted` | store/art.go:324-334 | Insertion before the first byte that is not smaller keeps the bytes sorted; that byte now leads to the new child and all others where they did. |
| `ArtNode.Removed` | store/art.go:48-54 | Removal at a place keeps the bytes sorted and removes one pair. |
| `ArtPaths.Toward` | store/art.go:123-158 | A stored key lies below every inner node on its way. |
| `ArtPaths.LeafOnWay` | store/art.go:154-157 | A leaf met on the way of a stored key is its own. |
| `ArtPaths.AddLeafStep` | store/art.go:193-219 | A leaf under a new byte on the way of its key adds that key and keeps the invariant. |
| `ArtPaths.SplitStep` | store/art.go:228-302 | An inner node put above a leaf or in the middle of a prefix keeps the invariant and the contents. |
| `ArtPaths.SetValueStep` | store/art.go:223-226 | A new value in a leaf changes that key only. |
| `ArtPaths.OustStep` | store/art.go:190-199 | A leaf put in the place of another adds its key and removes that of the other, and nothing else. |
| `ArtPaths.DropStep` | store/art.go:68-73 | Taking out a node without children removes its key only and leaves one hole. |
| `ArtPaths.ForgetStep` | store/art.go:102-104 | The parent forgetting the child closes the hole. |
| `ArtWalk.DecidedAtEnd` | store/art.go:170-242 | Each outcome of a Set is decided at the one node where its descent ends. |
| `ArtWalk.ClashesExactly` | store/art.go:187-242 | A key meets one it cannot be told apart from, or an inner node in its place, if and only if the Set panics, loses a key or strays. |
| `ArtWalk.SeparableFree` | store/art.go:184-242 | No Set panics, loses a key or strays if no key ever stored is another one followed by a byte 0. |
| `ArtWalk.NulFreeSeparable` | store/art.go:184-242 | Keys without the byte 0 are never so related. |
| `ArtWalk.RoomyFree` | store/art.go:170-176 | No Set gets stuck if no key ever stored is shorter than what two of them share. |
| `ArtWalk.OneLengthFree` | store/art.go:170-242 | Keys of one length meet both conditions. |
| `ArtWalk.WayLess` | store/art.go:489-514 | Keys part ways in the order of the bytes, the end of a key before every byte, also past the end of a key. |
| `ArtWalk.GatherStep` | store/art.go:489-514 | Children collected in byte order give ascending keys. |
| `ArtWalk.PrefixInside` | store/art.go:451-464 | Where a prefix ends at or inside a node, the keys below the node are those with the prefix and, at the node itself, any that are shorter than the prefix. |
| `ArtWalk.PrefixOutside` | store/art.go:451-469 | Where a prefix leaves the tree, no key has it. |
| `ArtSteps.Lcp` | store/art.go:394-404 | The longest run of bytes two keys share from a position on. |
| `ArtSteps.PartsExactly` | store/art.go:228-242 | A leaf, wherever it lies, and a key that splits it get different child bytes if and only if they do not double: within the key of the leaf neither is the other with a byte 0 behind it, and past its end the new key goes on with another byte. |
| `ArtSteps.PartAt` | store/art.go:217-242 | The shared bytes and the two child bytes, from the loop of the source. |
| `ArtSteps.OnTrack` | store/art.go:123-158 | The way of a stored key goes on at every inner node on it: the prefix is the key's and there is a child. |
| `ArtLimits.ShortKeyStuck` | store/art.go:245-265 | Through the code: after Sets of "ab1" and "ab2", a Set of "a" is stuck. |
| `ArtLimits.SetShows` | store/art.go:160-243 | After a Set every Get is the map's if and only if it is stored or strayed; prefix searches in a tree never strayed in are all right if it is stored, and one is wrong if it is lost or strayed. |
| `ArtLimits.NulLosesKey` | store/art.go:228-242 | Through the code: after Sets of "a" and "a\0", exactly one of the two is found. |
| `ArtLimits.NulStrays` | store/art.go:217-242 | Through the code: after Sets of "a", "ab" and "a\0x" all three are found, but a search for the prefix "a\0" lists too many. |
| `ArtLimits.NulPanics` | store/art.go:190-191 | Through the code: after Sets of "a\0b", "ab" and "a\0c", a Set of "a" panics. |
| `ArtLimits.ForkOf` | store/art.go:228-242 | Any two stored keys part ways at an inner node, on different child bytes. |
| `ArtTree.ARTStore.Get` | store/art.go:123-158 | Get is map lookup, for every key, also after a key was lost. |
| `ArtTree.ARTStore.Set` | store/art.go:160-243 | For every tree and key the outcome is the one the tree decides. Stored: map update, all searches as right as before. Strayed: map update, one prefix search wrong. Lost: one key, new or old, no longer found. Stuck or panicked: nothing changes. |
| `ArtTree.ARTStore.Step` | store/art.go:169-221 | One node of the descent: the outcome, or one child further on the way of the key. |
| `ArtTree.ARTStore.PassPrefix` | store/art.go:170-183 | At a prefix: stuck, split where key and prefix part, or passed. |
| `ArtTree.ARTStore.SplitPrefixAt` | store/art.go:267-302 | Splitting a prefix where the key parts from it stores the key and keeps all others. |
| `ArtTree.ARTStore.SplitLeaf` | store/art.go:217-242 | A leaf reached by another key gives way to a node with both: stored, strayed or lost as the place of the leaf and the child bytes decide. |
| `ArtTree.ARTStore.NewChild` | store/art.go:193-219 | A new leaf adds its key, or, where its place is that of another leaf, exactly one of the two keys is no longer found and some prefix search is wrong. |
| `ArtTree.ARTStore.DelNode` | store/art.go:64-110 | Below a node the key is removed and nothing else; a node left without children is to be forgotten. |
| `ArtTree.ARTStore.DelChild` | store/art.go:96-109 | The child's deletion is completed by forgetting it, and the node itself if it has become empty. |
| `ArtTree.ARTStore.Del` | store/art.go:112-121 | Del is map removal, for every key. |
| `ArtTree.ARTStore.Collect` | store/art.go:489-542 | The wanted keys below a node, all of them, ascending without sorting. |
| `ArtTree.ARTStore.PrefixKeys` | store/art.go:440-477 | Exactly the stored keys with the prefix, ascending, if and only if no shorter key lies below the node at the prefix; never fewer than those. |
| `ArtTree.ARTStore.RangeKeys` | store/art.go:479-487 | Exactly the stored keys in the range, ascending. |
| `LockFree.EveryRun` | store/lockfree.go:59-127 | In every schedule from an empty store, every reply is that of one sequential map history in which each call takes effect between its call and its return. |
| `LockFree.Linearizable` | store/lockfree.go:59-127 | The same from any state that keeps the invariant; buckets once published never change. |
| `LockFree.NextKeeps` | store/lockfree.go:59-127 | Every step of every thread keeps the invariant. |
| `LockFree.EffectAgrees` | store/lockfree.go:62-67 | A successful swap applies one command to the current bucket and to the sequential map alike. |
| `LockFree.RetryBound` | store/lockfree.go:59-104 | With T threads, at most T − 1 swaps on a bucket fail for each that succeeds. |
| `LockFree.AndAtMost` | store/lockfree.go:41 | A masked number is at most the mask. |
| `LockFree.StoreFits` | store/lockfree.go:21-42 | The masked hash is in range for every bucket count, a power of two or not. |
| `LockFree.AndBits` | store/lockfree.go:41 | A bit of the masked number is set if and only if it is set in the hash and in the mask. |
| `LockFreeAnswers.EveryCall` | store/lockfree.go:59-127 | In every schedule, every call that returns took effect exactly once between its call and its return, losing races before; it answers a Get with Found(v) if and only if the last Set or Del of the key in effect by then set v, and HGet and HGetAll likewise over HSet and Del. |
| `LockFreeAnswers.EveryAnswer` | store/lockfree.go:84-127 | The same answer for every command that took effect, returned or not. |
| `LockFreeAnswers.SoloWrite` | store/lockfree.go:59-82 | From every reachable state a write that runs alone takes effect and returns. |
| `LockFreeAnswers.SoloRead` | store/lockfree.go:84-127 | A read takes effect and returns by its own steps alone. |
| `LockFreeCopy.CloneBucket` | store/lockfree.go:50-57 | The copy is deep: equal in value, with no object in common. |
| `LockFreeCopy.Edit` | store/lockfree.go:59-104 | The edit of a private copy is the command's effect. |
| `LockFreeCopy.Prepare` | store/lockfree.go:62-64 | Between load and swap nothing others can see changes, and what is about to be published is the command's effect on what was loaded. |
| `Eviction.MinPickIsLeast` | evict/lru.go:33-51 | The victim has the least score of all candidates, in whatever order they come. |
| `Eviction.MinPickUnique` | evict/lru.go:33-51 | When no two scores are equal the order of the candidates does not matter. |
| `Eviction.Policy.Record` | evict/lfu.go:21-25 | An access is recorded as the policy does: a time, a count, or nothing. |
| `Eviction.Policy.Delete` | evict/lru.go:27-31 | A deleted key is forgotten. |
| `Eviction.Policy.EvictLru` | evict/lru.go:33-51 | The loop picks the first candidate of least access time. |
| `Eviction.Policy.EvictLfu` | evict/lfu.go:33-51 | The loop picks the first candidate of least count. |
| `Eviction.Policy.EvictTtl` | evict/ttlpolicy.go:17-41 | The loop picks the first candidate of least remaining time, where a first candidate without a deadline counts as 0 and later ones without a deadline never win. |
| `Eviction.Policy.Evict` | evict/lru.go:33-51 | Each policy's choice, and nobody when there is no candidate. |
| `TtlSpec.RunKeeps` | store/ttl.go:42-218 | Over every run the tracked keys are those of the inner store, deadlines are on tracked keys, and the policy knows every tracked key. |
| `TtlSpec.StepKeeps` | store/ttl.go:42-218 | The same for one operation or sweep. |
| `TtlSpec.VictimIsLeast` | store/ttl.go:75-96 | The victim is tracked; under LRU or LFU nobody tracked was used longer ago or less often. |
| `TtlSpec.VolatileVictim` | evict/ttlpolicy.go:17-41 | Under volatile-ttl the victim has a deadline, and no other key has an earlier one. |
| `TtlSpec.CapacityExactly` | store/ttl.go:75-96 | Under every policy a step keeps the key count within the limit if and only if it need not evict, or the policy chooses somebody other than the empty key. |
| `TtlSpec.VolatileOverflows` | store/ttl.go:57-86 | From empty, under volatile-ttl and a limit of one, two keys without deadlines are both kept. |
| `TtlSpec.EmptyKeyOverflows` | store/ttl.go:88-95 | A store limited to one key that holds the empty key overflows. |
| `TtlSpec.RunWithin` | store/ttl.go:75-96 | Over every run with non-empty keys the key count never exceeds the limit. |
| `TtlReads.SweepInvisible` | store/ttl.go:123-139 | All later reads get the same replies with and without a sweep. |
| `TtlReads.DeadlineHolds` | store/ttl.go:98-108 | After its deadline a key is not found by any read, until it is stored again or gets a new deadline. |
| `TtlReads.SetThenGet` | store/ttl.go:141-145 | From any state, a value just set is found if and only if the store did not evict its key to make room for it and no earlier deadline of the key has passed: Set does not clear deadlines. |
| `TtlReads.LateSetLost` | store/ttl.go:141-162 | From empty, a Set after the deadline of an earlier one is lost at once. |
| `TtlReads.LfuEvictsNewcomer` | evict/lfu.go:33-51 | From empty, under LFU and a limit of one, a second key is evicted by its own Set once the first was set twice. |
| `TtlLaws.StoreLeavesOthers` | store/ttl.go:141-200 | After Set, SetWithTTL or HSet, every read of every other key, at any time, gets the reply it got before; if that key was evicted it finds nothing. |
| `TtlLaws.StoreEvictsItself` | store/ttl.go:75-96 | A key evicted by its own command is gone as a whole: string, hash and deadline. |
| `TtlLaws.HSetThenHGet` | store/ttl.go:196-209 | A field just set is found if and only if its hash was not evicted by that very command and no deadline of the hash has passed. |
| `TtlLaws.HSetLeaves` | store/ttl.go:196-218 | HSet leaves the string, the deadline and every other field of its key as they were, and HGetAll lists the old fields with the one changed. |
| `TtlLaws.SetLeaves` | store/ttl.go:141-145 | Set leaves the hash and the deadline of its key as they were. |
| `TtlLaws.SetWithTtlThenGet` | store/ttl.go:148-162 | A value set with a lifetime is found if and only if its key was not evicted at once and the lifetime, counted from the Set, is not exceeded; TTL tells what is left of it. |
| `TtlLaws.SetWithTtlLeaves` | store/ttl.go:148-218 | A hash under the same key is read as before until the new deadline, and not at all after it. |
| `TtlLaws.DelErases` | store/ttl.go:164-167 | Del takes away string, hash and deadline of its key and changes no read of another. |
| `TtlLaws.ExpireDates` | store/ttl.go:170-194 | Expire answers whether the key holds a string; only then it has an effect, and what the key holds is found until the new deadline. |
| `TtlLaws.ExpireLeavesOthers` | store/ttl.go:170-179 | Expire changes no read of another key. |
| `TtlLaws.ReadInvisible` | store/ttl.go:155-218 | A read changes no reply to a later read, though it may remove its key. |
| `TtlLaws.EmptyAbsent` | store/ttl.go:22-32 | A new store replies nothing to every read. |
| `TtlTraces.GetExactly` | store/ttl.go:141-162 | After every run from empty, Get finds a value if and only if the last step to touch the string put it, where a step drops the key that deletes or evicts it or comes upon it past its deadline, and the last deadline given to the key is not over. |
| `TtlTraces.HGetExactly` | store/ttl.go:196-209 | The same for every field of every hash. |
| `TtlTraces.TtlExactly` | store/ttl.go:170-194 | TTL tells the time to the last deadline given to the key by a Set with a lifetime or an Expire that found a string. |
| `TtlTraces.AccessLast` | evict/lru.go:21-31 | Under LRU, after every run, the time kept for a key is that of its last use since it last went. |
| `TtlTraces.CountLast` | evict/lfu.go:21-31 | Under LFU, after every run, the count of a key is the number of its uses since it last went. |
| `TtlTraces.LruVictim` | evict/lru.go:33-51 | In every run, LRU evicts a key last used no later than any other key held, the one just stored included. |
| `TtlTraces.LfuVictim` | evict/lfu.go:33-51 | In every run, LFU evicts a key used no more often than any other key held, the one just stored included. |
| `TtlStore.TTLStore.DoTrack` | store/ttl.go:42-47 | Refines the state machine: a key is tracked and its access recorded. |
| `TtlStore.TTLStore.DoRemove` | store/ttl.go:105-108 | Refines the state machine: a key is forgotten everywhere. |
| `TtlStore.TTLStore.ListCandidates` | store/ttl.go:57-73 | The candidates, each once, in no particular order. |
| `TtlStore.TTLStore.DoEvictIfNeeded` | store/ttl.go:75-96 | Refines the state machine: one victim at most, only above the limit. |
| `TtlStore.TTLStore.Visit` | store/ttl.go:155-161 | What every read does first: remove an expired key, or record the access. |
| `TtlStore.TTLStore.DoSet` | store/ttl.go:141-145 | Refines the state machine's Set. |
| `TtlStore.TTLStore.DoSetWithTtl` | store/ttl.go:148-153 | Refines the state machine's Set with a deadline. |
| `TtlStore.TTLStore.DoGet` | store/ttl.go:155-162 | Refines the state machine's Get, reply and state. |
| `TtlStore.TTLStore.DoDel` | store/ttl.go:164-167 | Refines the state machine's Del. |
| `TtlStore.TTLStore.DoExpire` | store/ttl.go:170-179 | Refines the state machine's Expire, reply and state. |
| `TtlStore.TTLStore.DoTtl` | store/ttl.go:182-194 | Refines the state machine's TTL. |
| `TtlStore.TTLStore.DoHSet` | store/ttl.go:196-200 | Refines the state machine's HSet. |
| `TtlStore.TTLStore.DoHGet` | store/ttl.go:202-209 | Refines the state machine's HGet. |
| `TtlStore.TTLStore.DoHGetAll` | store/ttl.go:211-218 | Refines the state machine's HGetAll. |
| `TtlStore.TTLStore.DoSweep` | store/ttl.go:123-139 | Exactly the keys past their deadline go. |
| `TtlStore.TTLStore.KeyCount` | store/ttl.go:226-230 | The number of tracked keys. |
| `LruInclusion.NoBeladyAnomaly` | store/ttl.go:75-96 | On every run without deadlines, with non-empty keys and an advancing clock, the keys kept under a limit are among those kept under a larger one. |
| `LruInclusion.TrimInside` | evict/lru.go:33-51 | If the larger store must evict, so must the smaller, and the larger one's victim is not among the keys the smaller one keeps. |
| `Decimal.PrintParse` | resp/value.go:94-100 | Every 64-bit number is parsed back from what is printed. |
| `Resp.RoundTrip` | resp/value.go:34-100 | Parsing what was written, followed by anything, gives the value and leaves the rest. |
| `Resp.SurvivesExactly` | resp/reader.go:19-32 | A value survives the wire if and only if its simple strings and errors hold no carriage return. |
| `Resp.UniquelyDecodable` | resp/value.go:34-100 | Values written one after the other can be read in one way only. |
| `Resp.BulkSurvivesExactly` | resp/reader.go:104-108 | A bulk string of which only so many bytes are buffered when it is read survives if and only if the others are zeros. |
| `RespReader.Reader.ReadLine` | resp/reader.go:19-32 | A line ends one byte after the first carriage return, whatever that byte is. |
| `RespReader.Reader.ReadNumber` | resp/reader.go:34-44 | A line that is a 64-bit decimal number, or an error, and what is left of the stream in each case. |
| `RespReader.Reader.ReadBulk` | resp/reader.go:90-111 | A counted string, as far as it is buffered, or null; missing bytes read as zeros. |
| `RespReader.Reader.ReadArray` | resp/reader.go:69-88 | As many values as announced, or the first error among them, and what is left of the stream in each case. |
| `RespReader.Reader.Read` | resp/reader.go:47-67 | The stateful reader computes the parse of its input and stops where the parse does, on errors too. |
| `RespReader.ReadBack` | resp/reader.go:47-135 | Everything written to a stream is read back from it, in order. |
| `RespWire.WrittenForm` | resp/value.go:34-100 | What is written for a value of one of the six types is a wire form of it as the protocol describes it: the type character, numbers in decimal, CR LF. |
| `RespWire.ReadForm` | resp/reader.go:47-135 | Every wire form of a value whose simple strings and errors hold no carriage return, also with signs or leading zeros the writer never uses, is read as that value and leaves the rest. |
| `RespWire.ParsedExactly` | resp/reader.go:34-44 | A text is parsed as a 64-bit number if and only if it is decimal digits after an optional sign whose sum over powers of ten is that number. |
| `Wire.Back32` | persistence/wal.go:43-47 | A 32-bit length field holds the length modulo 2^32. |
| `Wire.CountedExactly` | persistence/wal.go:43-47 | A counted string is four bytes, highest first, that sum to its length, and the string. |
| `WalCodec.RoundTrip` | persistence/wal.go:38-81 | Decoding inverts encoding, up to the case of the name, and leaves the rest. |
| `WalCodec.SurvivesExactly` | persistence/wal.go:38-81 | A command survives if and only if its lengths fit their 16- and 32-bit fields. |
| `WalCodec.RecordAgain` | persistence/wal.go:51-81 | Any bytes from which decoding takes something start with the record of a command whose lengths fit, and the rest follows it. |
| `WalCodec.TornRecord` | persistence/wal.go:51-81 | Every strict prefix of a record decodes to nothing and is returned unchanged. |
| `WalCodec.UpperExactly` | persistence/wal.go:80 | A small letter becomes the capital at its place of the alphabet, every other byte stays. |
| `WalCodec.CapitalsStay` | persistence/wal.go:80 | Names without small letters are left as they are. |
| `WalLaws.EncodedExactly` | persistence/wal.go:38-49 | The bytes of a record: the length of the name in two bytes, the name, the number of arguments in two bytes, each argument behind its length in four; a command has such bytes if and only if its lengths fit, and they are the ones written. |
| `WalLaws.ReplayedAsWritten` | persistence/wal.go:124-151 | Commands with names in capitals are replayed exactly as written. |
| `WalLaws.RunAsWritten` | persistence/wal.go:84-163 | Through the code: over every interleaving of writes, flushes and restarts, each startup is given the very commands written before it. |
| `Wal.Encode` | persistence/wal.go:38-49 | The encoding loop computes the record. |
| `Wal.Decode` | persistence/wal.go:51-81 | The decoding loop computes the command and the rest. |
| `Wal.ReplayWhole` | persistence/wal.go:141-147 | A log of whole records replays all commands in order and ends. |
| `Wal.ReplayEndsExactly` | persistence/wal.go:141-147 | On arbitrary bytes the replay ends if and only if they are a log of whole records. |
| `Wal.ReplayTorn` | persistence/wal.go:141-147 | With a torn last record the replay passes on all whole ones and does not end. |
| `Wal.AppendsExactly` | persistence/wal.go:104 | A write appends if and only if the file position is at the end. |
| `Wal.WAL.Flush` | persistence/wal.go:98-107 | The buffer goes to the file position; what is logged in all does not change. |
| `Wal.WAL.Write` | persistence/wal.go:84-95 | One record more is logged, in the buffer or, from the batch size on, in the file. |
| `Wal.WAL.Close` | persistence/wal.go:154-163 | What is left in the buffer goes to the file: nothing logged is lost. |
| `Wal.WAL.Replay` | persistence/wal.go:124-151 | Flushes, replays the whole file, and leaves the position at its end. |
| `Wal.Reopened` | persistence/wal.go:124-163 | Closing a log, opening its file and replaying gives the commands logged, and a log that goes on where it was. |
| `Wal.LogAndReplay` | persistence/wal.go:84-163 | Over every interleaving of writes, flushes and restarts, each startup replays exactly the commands written before it, in order. |
| `Bitcask.StringAt` | store/bitcask.go:96-112 | The position never moves back nor past the end. |
| `Bitcask.EntryAt` | store/bitcask.go:64-88 | On arbitrary bytes the position moves forward with every record and never past the end. |
| `Bitcask.Resume` | store/bitcask.go:61-89 | Whole records are applied in order, whatever follows them. |
| `Bitcask.OpenRebuilds` | store/bitcask.go:44-94 | Opening a log of whole records rebuilds exactly what they say. |
| `BitcaskTails.OpenTail` | store/bitcask.go:44-94 | A log of whole records followed by any bytes recovers to what the log says and then what is found in those bytes. |
| `BitcaskTails.TailIgnoredExactly` | store/bitcask.go:64-88 | Recovery ignores a tail, behind every log, if and only if no byte of it names an operation. |
| `BitcaskTails.TornRecord` | store/bitcask.go:96-112 | No cut-off record is ignored. |
| `BitcaskTails.TornSet` | store/bitcask.go:96-112 | Behind any log, a lone operation byte of a Set stores an empty value under the empty key. |
| `BitcaskTails.WriteSurvivesExactly` | store/bitcask.go:96-131 | Behind any log, a Set or HSet survives a restart if and only if its strings fit their 32-bit length fields. |
| `BitcaskTails.RecordSurvivesExactly` | store/bitcask.go:96-158 | Every record, a Del too, survives behind all logs if and only if its strings fit. |
| `Bitcask.BitcaskStore.Recover` | store/bitcask.go:44-94 | The recovery loop, for every file: refuses a bad magic, ends on any other, and computes what opening means. |
| `Bitcask.BitcaskStore.WriteOp` | store/bitcask.go:114-124 | Appends the operation and its counted parts. |
| `Bitcask.BitcaskStore.DoSet` | store/bitcask.go:126-131 | One string changes, all other strings and all hashes stay, and the log grows by the record, for strings of any length. |
| `Bitcask.BitcaskStore.DoDel` | store/bitcask.go:140-146 | The string and the hash of the key go, all others stay, and the log grows by the record. |
| `Bitcask.BitcaskStore.DoHSet` | store/bitcask.go:148-158 | One field of one hash changes, everything else stays, and the log grows by the record. |
| `Bitcask.BitcaskStore.Reopen` | store/bitcask.go:23-42 | A store on the file another one left behind has its maps. |
| `Bitcask.RunWithRestarts` | store/bitcask.go:23-158 | However often a store is closed and reopened in a run, it ends with what the operations say. |
| `BitcaskLaws.RecoveredExactly` | store/bitcask.go:44-94 | Of every log of whole records: a string is recovered if and only if the last Set or Del of its key set it, a field if and only if the last HSet of it or Del of its hash set it, and a hash is there if one of its fields was set since the last Del. |
| `BitcaskLaws.StoreHolds` | store/bitcask.go:23-158 | A valid store holds what the last records of its log say. |
| `BitcaskLaws.RunHolds` | store/bitcask.go:23-158 | Through the code: after any operations and restarts the maps are what the last operation on each key and field says. |
| `BitcaskLaws.EncodedExactly` | store/bitcask.go:114-124 | The bytes of a record: the letter S, D or H and the counted parts; and the file starts with FCBT01. |
| `RdbCodec.SnapshotBack` | persistence/rdb.go:134-217 | Reading a snapshot passes on one command for each pair in it, except a pair of empty strings. |
| `Rdb.RDB.Write` | persistence/rdb.go:47-66 | A command changes the tables as it does at startup. |
| `Rdb.RDB.WriteSnapshot` | persistence/rdb.go:75-117 | The file lists each entry of the tables once, in an arbitrary order. |
| `Rdb.RDB.Replay` | persistence/rdb.go:134-201 | The replay loops compute what the file says, for every file, with the error and the commands passed on before it. |
| `Rdb.SnapshotLoads` | persistence/rdb.go:134-217 | A snapshot of any commands in any order starts up with everything but a pair of empty strings. |
| `Rdb.SnapshotEqualsLog` | main.go:60-71 | Snapshot and write-ahead log of the same commands start up alike if and only if no empty value is left under the empty key. |
| `Rdb.SaveAndLoad` | persistence/rdb.go:47-201 | The same through the code: write, snapshot, replay, load. |
| `RdbLaws.LoadedExactly` | main.go:60-71 | What commands leave in a store: for every key the last SET with its value, for every field the last HSET. |
| `RdbLaws.LogHolds` | main.go:60-71 | Starting from the log of commands in capitals leaves what the last of them say. |
| `RdbLaws.SnapshotHolds` | persistence/rdb.go:134-201 | So does starting from a snapshot of them, except for an empty value under the empty key. |
| `RdbLaws.SnapshotForm` | persistence/rdb.go:75-117 | The bytes of a snapshot: the header, and each table as counts and counted strings. |
| `RdbRestarts.SessionKeepsExactly` | persistence/rdb.go:24-35 | A snapshot taken after a restart brings the store back if and only if the commands of that session cover everything in it and leave no empty value under the empty key. |
| `RdbRestarts.IdleSessionLoses` | persistence/rdb.go:24-35 | A session without commands loses everything at its snapshot. |
| `RdbRestarts.Session` | main.go:60-71 | One session through the code: fill the store from the file, execute, write the snapshot. |
| `RdbRestarts.TwoSessions` | persistence/rdb.go:75-201 | After two sessions a start finds what the second one wrote, and the live store if and only if that covers it. |
| `Crdt.HistoryFolds` | store/crdt.go:28-83 | In every history without deletions and clock wrap, a replica's data is the latest-write fold of the writes it absorbed, and its clock bounds it. |
| `Crdt.ConvergesExactly` | store/crdt.go:58-83 | Replicas that absorbed the same writes hold the same data, in any order, grouping and repetition, if and only if the latest writes to each key agree. |
| `Crdt.LocalWins` | store/crdt.go:28-38 | A local write is the latest of its key, except when the 64-bit clock wraps. |
| `Crdt.ClockWraps` | store/crdt.go:28-38 | A replica that has seen the last timestamp starts again at 0: its next Set loses to what it replaced wherever the two meet. |
| `Crdt.MergeCommutes` | store/crdt.go:71-83 | Merging in either direction gives the same data if and only if equal timestamps on a common key mean equal values. |
| `Crdt.MergeAssociates` | store/crdt.go:71-83 | The grouping of merges never matters. |
| `Crdt.JoinAgain` | store/crdt.go:71-83 | Merging again changes nothing. |
| `Crdt.DelReturnsExactly` | store/crdt.go:40-45 | A deleted key is back after any merges if and only if one of the other replicas has it. |
| `Crdt.DelComesBack` | store/crdt.go:40-45 | A replica gets its own deleted write back from one that had merged it. |
| `Crdt.DelDiverges` | store/crdt.go:40-45 | Replicas that saw the same writes and deletions in different order disagree. |
| `Crdt.HashesCommuteExactly` | store/crdt.go:85-93 | Hashes have no timestamps: merging them commutes if and only if common fields are equal. |
| `Crdt.CRDTStore.NextTS` | store/crdt.go:28-31 | The clock counts on 64 bits. |
| `Crdt.CRDTStore.Set` | store/crdt.go:33-38 | Extends the history by a local write. |
| `Crdt.CRDTStore.Del` | store/crdt.go:40-45 | Extends the history by a deletion. |
| `Crdt.CRDTStore.SetWithTS` | store/crdt.go:58-68 | Extends the history by a timestamped write. |
| `Crdt.CRDTStore.MergeData` | store/crdt.go:71-83 | In any order of the keys, the data is the join and the clock is raised to the latest timestamp seen. |
| `Crdt.CRDTStore.Merge` | store/crdt.go:71-95 | Extends the history by a merge. |

## Left out

- Network, gRPC, health, telemetry, logging and configuration: no property beyond plumbing.
- The command handlers (handler/handler.go): argument counting in front of the expiry layer.
- Map, sharded and sync-map stores: direct wrappers of a map, which is the specification here.
- Hash maps inside the ordered stores (HSet, HGet, HGetAll): plain nested maps that add only easy members.
- AOF, dual and null persistence: AOF follows from the RESP round trip, the others forward or do nothing.
- I/O failures, fsync, tickers and background goroutines; every write of the model succeeds, and a file is its bytes.
- Mutexes and goroutine scheduling outside the lock-free store: each operation is one atomic step. This includes the expiry layer, whose operations release the lock between their steps (store/ttl.go:134-145).
- The FNV-1a hash of the lock-free store is an arbitrary function.
- Clocks and random choices are parameters or nondeterministic.
- Crdt.CRDTStore.Merge: not a store merged into itself, which waits for its own lock; the read lock Merge does not release is not modelled.
- ArtTree.ARTStore.Set: after a lost key the store is not followed through further Sets and Dels; what Get and PrefixKeys reply then is stated.
- ArtTree.ARTStore.Set: a stuck Set holds the lock for ever, so the rearrangement it makes before it waits can never be seen and is not modelled.
- ArtTree.ARTStore.RangeKeys: the final sort is left out, because the collected keys are proved to be ascending; collectKeys and collectRange are one recursion with a test on the leaf.
- BPlusTree.BPTreeStore.SplitInternal: attaches its new sibling through InsertIntoParent, where the source repeats that code inline.
- WalCodec.RoundTrip: upper case is modelled for ASCII letters only; Go also maps other letters.
- Wal.WAL.Replay: a replay that does not end is reported by a flag.
- RespReader.Reader.Read: inside a whole value all of the input is taken to be buffered; how much is, is a parameter of ReadBulk alone. A negative length other than -1, on which the source panics, is the outcome `Crash`.
- Rdb.SnapshotEqualsLog: counts and lengths below 2^32, the range of their fields.
- Rdb.SnapshotLoads: the same range.
- Rdb.SaveAndLoad: the same range.
- RdbLaws.SnapshotHolds: the same range.
- RdbLaws.SnapshotForm: the same range.
- RdbRestarts.SessionKeepsExactly: the same range.
- RdbRestarts.TwoSessions: the same range.
