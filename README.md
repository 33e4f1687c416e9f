# Javelin write buffer, modelled in Dafny

This project models the in-memory write buffer of Javelin, a log-structured storage engine. It covers three parts:

- the records it stores (`LogEntry`, holding an `Entry` that is `Put`, `Del` or `Empty`, and a log sequence number);
- the multi-version skip list that orders them (`SkipList::insert`, `SkipList::get`, `random_level`);
- the memtable layers above the list (`Memtable`, `ImmutableMemtable`, `MemtableHandler`).

Files and modules:

- `entry.dfy` (module `Entries`): the records, `LogEntry::new`, `Default`, and key extraction.
- `key_order.dfy` (module `KeyOrder`): lexicographic comparison of byte strings, with its laws.
- `versions.dfy` (module `Versions`): the abstract view of the index, one sequence of records per level. It holds:
  - the index order: ascending key, and newest first within a key;
  - sorted insertion (`Place`);
  - the lookup reference functions (`FirstVisible` within a level, `TopDown` across levels);
  - the insertion reference (`InsertSpec`);
  - the lemmas about all of these.
- `skiplist.dfy` (module `SkipLists`): the skip list as a class over an arena of nodes.
  - `entries[m]` is the record of node `m`.
  - `links[m]` holds the node's optional successor indices, one per level it is on. Node 0 is the head, with one link per level.
  - The ghost `chains[i]` lists the nodes that level `i` links, in order.
  - `Valid()` is the invariant: every level is a chain followed by the links, sorted, and made of exactly the nodes tall enough for it.
  - `Insert` and `Get` are the source's cursor loops. Each is proved against the reference functions of `Versions`.
- `memtable.dfy` (module `Memtables`): the memtable classes. Each memtable is its skip list, with the locks dropped. The handler's lookup is proved equal to a pure first-hit rule.

The random level is drawn from a coin oracle `coin: nat -> bool`, where `coin(j)` is the outcome of the j-th flip. The number of levels is a constructor parameter.

## Model

| member | source | states |
|---|---|---|
| Entries.NewLogEntry | src/core/entry.rs:8-10 | the record keeps the given mutation and sequence number unchanged |
| Entries.Default | src/core/entry.rs:13-19 | the default record is `Empty` at sequence 0 and carries no key; the head sentinel holds it (`SkipLists.SkipList.constructor`) |
| Entries.KeyOf | src/core/skiplist.rs:78-82 | a key is extracted exactly from `Put` and `Del`, and it is the key they carry |
| KeyOrder.CmpEqual | src/core/skiplist.rs:102 | byte strings compare `Equal` if and only if they are identical |
| KeyOrder.CmpFlip | src/core/skiplist.rs:102 | `a < b` if and only if `b > a` |
| KeyOrder.CmpLessTrans | src/core/skiplist.rs:102 | `Less` is transitive |
| Versions.BeforeStrict | src/core/skiplist.rs:102-121 | the index order is asymmetric, and it never relates two records of the same version |
| Versions.BeforeTrans | src/core/skiplist.rs:102-121 | the index order is transitive |
| Versions.BeforeTotal | src/core/skiplist.rs:102-121 | any two keyed records are ordered one way or the other, unless they are the same version |
| Versions.SortedDistinct | src/core/skiplist.rs:102-121 | a sorted level holds no two records of the same version |
| Versions.PlaceContents | src/core/skiplist.rs:136-140 | sorted insertion adds exactly the new record to a level's multiset of records |
| Versions.PlaceAt | src/core/skiplist.rs:136-140 | the new record lands right after the records that precede it and before the others |
| Versions.PlaceSorted | src/core/skiplist.rs:102-121 | inserting a version not yet stored keeps a level sorted |
| Versions.FirstVisible | src/core/skiplist.rs:157-176 | the first visible version of a level is a stored record with the query key and a sequence at most the bound; it is none if and only if no such record exists |
| Versions.FirstVisibleIsNewest | src/core/skiplist.rs:163-174 | on a sorted level, the first visible version has the largest sequence among the visible versions of the key |
| Versions.TopDownSound | src/core/skiplist.rs:143-181 | on well-ordered levels the top-down lookup returns a stored visible version, returns none exactly when level 0 has no visible version, and with one level returns the newest |
| Versions.TopDownLevelZero | src/core/skiplist.rs:146-180 | when every level above 0 misses, the top-down lookup answers with level 0's first visible version |
| Versions.InsertKeepsOrder | src/core/skiplist.rs:84-140 | insertion keeps every level sorted and a subset of level 0; it fails exactly on a stored version; on success level 0 gains exactly the new record; otherwise nothing changes |
| Versions.GetAfterInsertFreshKey | src/core/test_skiplist.rs:70-82 | after inserting a record for a key not yet stored, a lookup at its own sequence returns that record, whatever its height |
| Versions.NewestAfterInsert | src/core/skiplist.rs:107-119 | after insertion, the newest visible version of the key at the record's own sequence is the record itself |
| SkipLists.SpliceChain | src/core/skiplist.rs:136-140 | the two link writes of one splice round turn the level's chain into the old chain with the new node inserted at the split position |
| SkipLists.SpliceLevel | src/core/skiplist.rs:136-140 | a spliced level reads as the sorted insertion of the record; an unspliced level is unchanged |
| SkipLists.SpliceWellFormed | src/core/skiplist.rs:129-140 | after the splice loop the list is well formed again; its levels are the old ones with the record placed below its height |
| SkipLists.ViewsWellOrdered | src/core/skiplist.rs:87-140 | in a well-formed list every level is sorted and holds only records of level 0 |
| SkipLists.Climb | src/core/skiplist.rs:70-73 | the climb stops below the level count only on a failed flip, passes only successful flips, and never exceeds the level count |
| SkipLists.Height | src/core/skiplist.rs:69-75 | the drawn level lies in `[1, max(1, num_levels)]` whatever the coin; it is one more than the number of leading successful flips |
| SkipLists.SkipList.constructor | src/core/skiplist.rs:54-60 | the head holds the default record and `num_levels` empty links; every level is empty |
| SkipLists.SkipList.RandomLevel | src/core/skiplist.rs:69-75 | the loop returns the level `Height` defines for the same coin outcomes |
| SkipLists.SkipList.FindPredecessors | src/core/skiplist.rs:84-127 | it reports a duplicate if and only if the version is stored; otherwise, for each level below the drawn one, it gives the node the new record follows, with every earlier record before it and every later one after it |
| SkipLists.SkipList.SeekLevel | src/core/skiplist.rs:92-125 | the walk of one level either meets the same version (which is then stored) or stops at the split position of the record |
| SkipLists.SkipList.Splice | src/core/skiplist.rs:129-140 | the new node is appended, the invariant holds again, and the levels become `InsertViews` of the old levels |
| SkipLists.SkipList.Insert | src/core/skiplist.rs:77-141 | outcome and new levels are `InsertSpec` of the old levels at the drawn height: `Empty` changes nothing, a stored version fails with nothing changed, any other record is placed in the levels below its height |
| SkipLists.SkipList.ScanLevel | src/core/skiplist.rs:147-177 | the walk of one level returns that level's first visible version of the key |
| SkipLists.SkipList.Get | src/core/skiplist.rs:143-181 | the lookup as written equals `TopDown` of the levels; a hit is a stored visible version; it is none exactly when nothing is visible; whenever every level above 0 misses (in particular with one level) it is level 0's first visible version, which `Versions.FirstVisibleIsNewest` shows is the newest |
| SkipLists.SkipList.LookupSound | src/core/skiplist.rs:143-181 | what the top-down lookup can answer on a valid list: a stored visible version, none exactly when nothing is visible, level 0's first visible version when every higher level misses |
| SkipLists.SkipList.GetNewest | src/core/skiplist.rs:143-181 | the corrected lookup returns the newest stored version of the key with sequence at most the bound, and none exactly when no such version exists |
| SkipLists.StaleLevels | src/core/test_skiplist.rs:34-41 | a reduced form of the test without its put of key 2: the levels after a put of key 1 at sequence 1 drawn to height 2, then a delete of key 1 at sequence 3 drawn to height 1 |
| SkipLists.StaleLookupWitness | src/core/skiplist.rs:169-170 | on that list, a lookup of key 1 at snapshot 3 returns the put at sequence 1 as written, while the corrected lookup returns the delete at sequence 3 |
| Memtables.FirstHit | src/core/memtable.rs:74-82 | the first hit is the answer of the earliest memtable that has one, with all earlier ones missing; it is none if and only if all miss |
| Memtables.FirstHitSkip | src/core/memtable.rs:75-80 | leading misses do not change the first hit |
| Memtables.FrozenGet | src/core/memtable.rs:74-82 | the loop over the frozen memtables returns `FirstHit` of their answers, and a hit is visible |
| Memtables.Memtable.constructor | src/core/memtable.rs:120-128 | a fresh skip list with the given number of levels, all empty |
| Memtables.Memtable.Insert | src/core/memtable.rs:130-134 | exactly the skip list's insertion on the wrapped list |
| Memtables.Memtable.Get | src/core/memtable.rs:136-139 | the wrapped list's lookup (corrected form): the newest visible version, none exactly when nothing is visible |
| Memtables.ImmutableMemtable.constructor | src/core/memtable.rs:176-179 | takes over the memtable's list, so for every key and bound it answers as the memtable did just before |
| Memtables.ImmutableMemtable.Get | src/core/memtable.rs:181-183 | the lookup of its fixed levels: the newest visible version, none exactly when nothing is visible; it changes nothing |
| Memtables.MemtableHandler.constructor | src/core/memtable.rs:53-58 | a fresh active memtable with empty levels and no frozen memtables |
| Memtables.MemtableHandler.Insert | src/core/memtable.rs:60-62 | insertion into the active memtable only; the frozen list is untouched |
| Memtables.MemtableHandler.Get | src/core/memtable.rs:64-83 | the active memtable's hit when there is one; otherwise the hit of the lowest-index frozen memtable that has one; none when all miss |

## Left out

- `rand_bool` (src/core/skiplist.rs:185-193) reads the clock and compares floating point. It is replaced by the coin oracle. The flip probability is not modelled.
- The level count of `SkipList::new` (src/core/skiplist.rs:50-52) comes from a floating-point logarithm. The model takes the count as a parameter and requires it to be at least 1. In the source a count of 0 makes `insert` index an empty link vector and crash.
- Mutexes, `Arc`, `Rc`/`RefCell` borrows, lock poisoning, and the error enums with their `Display`/`Error`/`From` impls are left out. Each memtable is its skip list, and no operation fails on a lock.
- `SkipLists.SkipList.Insert`: where the source panics on a version already stored, the model returns `Fail(DuplicateVersion)` with the list unchanged. The panic fires before any link is rewritten, so the state matches.
- The `Entry::Empty => break` arms inside the walks (src/core/skiplist.rs:100, 160) are not modelled. Only the head holds an `Empty` record, and no link points to the head, so they cannot fire.
- Nodes are `Rc<RefCell<Node>>` in the source. Here they are indices into `seq` fields, so sharing between nodes is by index.
- `ImmutableMemtable::new` moves the skip list out of the memtable. The model shares the same list object and fixes its levels as a ghost constant. The handler's `Valid()` requires that no frozen memtable shares the active one's list, which is what the move guarantees.
- The source has no operation that adds to the frozen list. The model takes that list as a field and invents no freeze or rotation.
- `Memtables.Memtable.Get`, `Memtables.ImmutableMemtable.Get` and `Memtables.MemtableHandler.Get` use the corrected lookup `SkipLists.SkipList.GetNewest`, not the as-written `SkipList::get` (see Findings). Where the as-written lookup is the one meant, its answer is `Versions.TopDown`, and `SkipLists.SkipList.Get` models it.
- `DBConfig` is not part of this model; the memtable constructors take the level count directly. `db.rs`, `db_config.rs`, `main.rs` and `mod.rs` are not part of this model.
- Integers are unbounded. Sequence numbers are bounded to `u64` by type, and no arithmetic on them can wrap.

## Findings

| source | as written | input that shows it | evidently intended | confidence | as-written member | corrected member |
|---|---|---|---|---|---|---|
| src/core/skiplist.rs:169-170 | `get` returns the first visible version met in the top-down walk, even on a level above 0 | a three-level list (as in src/core/test_skiplist.rs:29; the test's put of key 2 is left out) with `Put(key 1)` at sequence 1 drawn to level 2, then `Del(key 1)` at sequence 3 drawn to level 1; then `get(key 1, 3)` returns the put at sequence 1 | the newest visible version, the delete at sequence 3, as src/core/test_skiplist.rs:46-47 expects | not executed | SkipLists.StaleLookupWitness | SkipLists.SkipList.GetNewest |
