# j7f in Dafny

A model of the four stateful cores of the j7f micro-service toolkit, with proofs that they do what
they are for: over every run, every interleaving, every map order and every input. `dafny verify
dfyconfig.toml` checks everything.

## The lock (`Redlock*.dfy`)

`Redlock` is the quorum lock as a state machine: any number of Mutexes over any number of Redis
pools, one pool command, clock reading or change of program point per step, interleaved with time and
key expiry. A command may run and lose its reply, or not run at all. A pool may drop a key up to
`skew` before its expiry and any time after it. `RedlockSafety` proves the invariants of every step
and mutual exclusion over every run. `RedlockTightness` proves the condition exact: the deadline that
`Lock` computes *adds* two milliseconds to what is left of the expiry, so exclusion holds in every
run if and only if every Mutex that can ever succeed has a drift allowance of at least 2ms plus the
part of its expiry below a millisecond plus the skew. Otherwise a concrete run with two holders is
constructed. `RedlockMutex` is the Mutex as the program callers run, on a cluster that everybody else
changes between any two of its commands; its methods are tied step by step to the state machine.
`RedlockTrace` reads off a run what the steps of one Mutex did. With it the results of the calls are exact:
`Lock` succeeds if and only if one of its rounds won more than half of the pools in time, `Extend` if and
only if more than half of the pools renewed the key, `Unlock` if and only if more than half of the pools ran
the script and were heard.

The result of `release` compares the integer reply of a script, held in an interface, with the
untyped constant 0 (mutex.go:129). They are never equal, so `Unlock` counts every script that ran,
whether it deleted the key or not. The model follows the code: `Unlock`'s result says nothing about
deletions by this call, only that fewer than a quorum of pools missed the release.
`UnlockCountsFreePools` constructs a run in which it counts every pool although all keys are long gone.

## The trie (`Keywords.dfy`, `Whitelist.dfy`, `TrieHeap.dfy`)

`Keywords` says on values what a query over a set of keywords finds: the scan, a reference
leftmost-longest matching, and exactly when the two agree. They do not always: when the text ends
halfway along a longer keyword, the scan forgets the shorter match it has seen. What it computes in
every case is the leftmost-longest matching over the other starts, and whether the masked text is free of
keywords is decided by that reference matching alone. `UncleanEnd` gives a text where the query misses a
keyword that a second query of the masked text then finds. Two sufficient conditions (no keyword is a
proper prefix of another; the last rune is in no keyword) are derived from the exact one. `Whitelist`
adds nested whitelists. `TrieHeap` is the heap structure: `Add`, `Del`, `ReadAll` and `Query` update and
read linked nodes, and are proved against the set of stored keywords. `Del` is not set difference: once
any non-empty prefix of its argument is stored, it drops every keyword with the same first rune.
`DeletesSibling` shows it on two keywords, and `DeletesOneIff` says when it makes no difference.

## The service-discovery listener (`Etcd*.dfy`)

`EtcdMirror` models one watch: a snapshot of a prefix at a revision, then the replay of every later
event, and proves exactly when the mirror equals the store after every event. The exact condition
excludes two things the code does: a key overwritten with an undecodable value keeps its old node,
and a node left over from an earlier watch is only removed when the prefix is empty. `HiddenNode` and
`StaleNode` are runs of the listener's own operations that end so. A name that is watched for the first
time and whose events can all be read is never wrong. `EtcdTables`
holds the four tables on values. `EtcdListen` is the listener with its tables updated in place, for
every order in which Go may visit a map. Its invariant `Valid` covers the inverse index, the exports,
the running watches and the mirrors; every operation, every callback and every write to the store
keeps it, and so does every run, up to the two calls before `Start` that panic. At the end of every run
each populated export whose name is watched for the first time, with readable events, shows the store.

`EmptyGroupWatchs` drops a whole prefix of a list for each watch (etcd_listen.go:112). The proof shows
that all lists of the group are gone at the end all the same, for every order of the watches. The call
uses the etcd watcher when a name has no group left (etcd_listen.go:124), so before a `Start` that connects
it panics: for every order exactly when the group is the last one to list some name. `ReloadExport` uses
`lsio` (etcd_listen.go:293), which is nil until `Start`, whether that connects or not, so before it panics
exactly when some group has a watch. `EmptyBeforeStart` and `ExportBeforeStart` are such calls, and
`FailedStart` tells them apart.

## Round robin and sharding (`Divisors.dfy`, `Balancer.dfy`, `Shard.dfy`)

`Divisors` defines the greatest common divisor by subtraction, apart from the search that `Gcd` makes.
`Balancer` proves the search correct, the queue balanced for every shuffle, no shorter queue possible,
and every window of calls fair. `InitBalancer` panics for a node without slaves and for a least weight
of zero; its contract gives the exact condition. `Shard` proves how keys combine, and that the range
tables route every key to its quotient if and only if `Locations * TableRowLimit` is below the
greatest int64.

## Model

| member | source | states |
|---|---|---|
| RedlockSafety.KeptStep | lib/gopkg.in/redsync.v1/mutex.go:110-145 | no pool command, clock tick or program step of anyone takes a stored value away or shortens its expiry before its time, except a release of that same value; a touch never shortens an expiry |
| RedlockSafety.GoneStep | lib/gopkg.in/redsync.v1/mutex.go:110-130 | a value that is off a pool stays off it under every step but an acquire of that value |
| RedlockSafety.InvStep | lib/gopkg.in/redsync.v1/mutex.go:33-99 | every step of every Mutex and of the environment keeps the invariant tying program points, pools, claims and failures together |
| RedlockSafety.LeaseStep | lib/gopkg.in/redsync.v1/mutex.go:42-61 | with enough drift allowance every step keeps each unexpired claim backed by its quorum of pools up to its deadline |
| RedlockSafety.QuorumIsMajority | lib/gopkg.in/redsync.v1/redsync.go:25 | a count reaches the quorum if and only if it is more than half of the pools |
| RedlockSafety.QuorumsMeet | lib/gopkg.in/redsync.v1/redsync.go:25 | any two sets of more than half of the pools share a pool |
| RedlockSafety.DecideIff | lib/gopkg.in/redsync.v1/mutex.go:58-62 | at every reachable verdict Lock returns nil, with exactly this claim, if and only if more than half of the pools are won and the deadline is ahead |
| RedlockSafety.EndExtendIff | lib/gopkg.in/redsync.v1/mutex.go:91-98 | at every reachable end of Extend it returns true, with exactly this claim, if and only if more than half of the pools were renewed |
| RedlockSafety.MutualExclusion | lib/gopkg.in/redsync.v1/mutex.go:42-61 | in every reachable state two hold intervals that overlap belong to one value of one Mutex, and no value is ever granted by two Locks |
| RedlockSafety.HolderIsBacked | lib/gopkg.in/redsync.v1/mutex.go:47-61 | while a claim has not ended, more than half of the pools store its value with an expiry no earlier than its deadline plus the skew |
| RedlockSafety.ExtendProtects | lib/gopkg.in/redsync.v1/mutex.go:87-99 | after Extend returned true no Lock with another value returns nil before Extend's start plus the lease (less the skew), unless the holder started to unlock |
| RedlockSafety.FailedLockLeavesNothing | lib/gopkg.in/redsync.v1/mutex.go:42-68 | when Lock returned ErrFailed, and ever after, its value is on no pool that ran its last release |
| RedlockSafety.NoInterference | lib/gopkg.in/redsync.v1/mutex.go:110-145 | an action changes a live key only if it stores the value the Mutex is trying to lock with or, outside Lock, the value it holds, both generated by itself; while locking no key of the held value changes, and only success replaces value and deadline |
| RedlockSafety.RunOrdered | lib/gopkg.in/redsync.v1/mutex.go:42-99 | along every sequence of steps all claims stay backed and each claim of another value starts after the earlier ones have ended |
| RedlockTightness.SecondHolder | lib/gopkg.in/redsync.v1/mutex.go:57-61 | whenever a Mutex that can succeed has too small a drift allowance, a run exists in which another Lock succeeds while it holds |
| RedlockTightness.ExclusionIffDriftCovers | lib/gopkg.in/redsync.v1/mutex.go:57 | for every number of pools, skew and settings: all reachable states are exclusive if and only if the drift allowance of each Mutex that can succeed is at least 2ms, plus the sub-millisecond part of the expiry, plus the skew |
| RedlockTightness.ExclusionIffAllowed | lib/gopkg.in/redsync.v1/mutex.go:57 | the same in numbers: all reachable states are exclusive if and only if, for every Mutex, it can never succeed or expiry times factor is at least 2ms plus the sub-millisecond part of the expiry plus the skew |
| RedlockTightness.DriftTruncates | lib/gopkg.in/redsync.v1/mutex.go:57 | the drift allowance is expiry times factor truncated toward zero |
| RedlockTightness.UnlockCountsFreePools | lib/gopkg.in/redsync.v1/mutex.go:72-130 | for every Mutex that can lock, a run in which no pool holds its value any more and Unlock still counts all pools, a quorum |
| RedlockTightness.DefaultsAreSound | lib/gopkg.in/redsync.v1/redsync.go:18-27 | the defaults are 8s, factor 0.01 and 32 tries, and Mutexes with them exclude each other if and only if the skew is at most 78ms |
| RedlockTightness.WrapperClamps | components/lock/redis.go:44-65 | the wrapper waits at most a second and tries at most three times, keeps settings within these bounds, and a zero factor is the default |
| RedlockTightness.WrapperIsSoundIff | components/lock/redis.go:39-76 | for every configuration of the wrapper, with its clamped expiry and tries, the exact bound on the drift factor that makes its lock sound |
| RedlockMutex.Cluster.Perform | lib/gopkg.in/redsync.v1/mutex.go:110-145 | a step of the program is exactly the next step of the run |
| RedlockTrace.DidQuiet | lib/gopkg.in/redsync.v1/mutex.go:110-145 | what others do adds nothing to what one Mutex did |
| RedlockMutex.Cluster.Others | lib/gopkg.in/redsync.v1/mutex.go:33-99 | any interference leaves the fields and program point of a Mutex alone and makes neither a step nor a claim of it |
| RedlockMutex.Mutex.AcquireAll | lib/gopkg.in/redsync.v1/mutex.go:47-55 | the first loop, with arbitrary interference between two commands, wins exactly the pools that set the free key and whose OK was heard |
| RedlockMutex.Mutex.Deadline | lib/gopkg.in/redsync.v1/mutex.go:57 | the deadline is the first reading of the clock, plus the expiry, less the time from the start to the second reading, less the drift, plus 2ms |
| RedlockMutex.Mutex.Conclude | lib/gopkg.in/redsync.v1/mutex.go:58-62 | true if and only if more than half of the pools were won and the deadline is ahead at the verdict; then value and deadline are stored and the claim recorded, otherwise both fields stay and the round is released |
| RedlockMutex.Mutex.ReleaseAll | lib/gopkg.in/redsync.v1/mutex.go:63-65 | the second loop misses exactly the pools on which the delete script did not run |
| RedlockMutex.Mutex.Round | lib/gopkg.in/redsync.v1/mutex.go:47-65 | one round succeeds if and only if it won more than half of the pools before its deadline |
| RedlockMutex.Mutex.Lock | lib/gopkg.in/redsync.v1/mutex.go:33-69 | its rounds are listed without exception: true if and only if the value is claimed, and then the last round and no other won more than half of the pools in time; false after exactly `tries` rounds that all failed, with the fields unchanged, the failure recorded and the value only on pools that did not run the last release; without a generated value nothing happens; with sound settings no claim of another value holds on success |
| RedlockMutex.Mutex.UnlockAll | lib/gopkg.in/redsync.v1/mutex.go:76-82 | the loop counts exactly the pools that ran the delete script and were heard, whatever they deleted, and misses exactly those that did not run it |
| RedlockMutex.Mutex.Unlock | lib/gopkg.in/redsync.v1/mutex.go:72-84 | true if and only if more than half of the pools ran the script and were heard; every claim of the value ends at the start of the call and the value is on no pool that ran it |
| RedlockMutex.Mutex.Extend | lib/gopkg.in/redsync.v1/mutex.go:87-99 | true if and only if more than half of the pools ran the script while they stored the value, and were heard; then and only then a claim from the start of the call for a whole lease is recorded; value and until are unchanged either way |
| Keywords.WalkFinds | components/trie/trie.go:111-145 | the inner loop reports the longest stored keyword of two or more runes at a position, or nothing when there is none or the text ends on the way to a longer keyword |
| Keywords.MatchAtIsLongest | components/trie/trie.go:111-145 | the scan's match at a position is the longest one, except exactly when the rest of the text leads into the trie without being a keyword |
| Keywords.LeftmostLongestIsUnique | components/trie/trie.go:97-147 | the reference leftmost-longest matching is unique |
| Keywords.GreedyIsLeftmostLongest | components/trie/trie.go:97-147 | the reference leftmost-longest matching exists for every text and keyword set |
| Keywords.ScanIsLeftmostLongestIff | components/trie/trie.go:97-147 | a query's spans are the leftmost-longest matching if and only if none of its matches starts where the text ends halfway along a longer keyword |
| Keywords.CleanLeftmostLongestIsUnique | components/trie/trie.go:97-147 | the leftmost-longest matching over the starts that do not dangle is unique |
| Keywords.ScanIsCleanLeftmostLongest | components/trie/trie.go:97-147 | for every keyword set and text, without any condition, a query's spans are the leftmost-longest matching over the starts where the text does not end halfway along a longer keyword |
| Keywords.SufficientForCleanEnd | components/trie/trie.go:113-145 | that condition holds when no keyword of two or more runes is a proper prefix of another, or the last rune is in no keyword |
| Keywords.ScanIsSound | components/trie/trie.go:101-154 | for every trie and text the visited spans are ordered, disjoint, of two or more runes, and each spells a stored keyword of the original text |
| Keywords.ScanVisits | components/trie/trie.go:102-147 | at every position that no span covers the inner loop has been started and found nothing |
| Keywords.MaskedIsKeywordFreeIff | components/trie/trie.go:89-155 | with keywords without asterisks, the masked text is keyword-free if and only if every match that starts where the text dangles is hit by the leftmost-longest matching over the other starts, a condition on keywords and text alone |
| Keywords.MaskedIsKeywordFree | components/trie/trie.go:89-155 | under the clean-end condition the masked text contains no keyword and a second query finds nothing |
| Keywords.UncleanEnd | components/trie/trie.go:113-145 | over {ab, abcde, cd} the query of "abcd" masks only "cd", and a second query then finds "ab" |
| Keywords.DeletedIs | components/trie/trie.go:65-84 | exactly the words with the first rune of the argument go, and only when a non-empty prefix of it is stored |
| Keywords.DeletedLeavesNoPrefix | components/trie/trie.go:56-84 | after Del(w) no non-empty prefix of w is stored |
| Keywords.DeletedKeepsPaths | components/trie/trie.go:65-84 | every path that does not share the deleted first rune still leads to a keyword after Del |
| Keywords.DeletesOneIff | components/trie/trie.go:56-84 | Del removes just its argument if and only if, when a prefix of it is stored, no other keyword starts with the same rune |
| Keywords.DeletesSibling | components/trie/trie.go:65-84 | of the keywords "ab" and "ac", deleting "ab" leaves none |
| Whitelist.KeepFilters | components/trie/trie.go:116-122 | the masked spans are a subsequence of the visited spans, whatever the nested whitelists answer |
| Whitelist.PlainKeepsAll | components/trie/trie.go:116-122 | without whitelists every visited span is masked |
| Whitelist.WhitelistsOnlyFilter | components/trie/trie.go:113-204 | checking whitelists, nested to any depth, leaves found a subsequence and the masked positions a subset of what the query does without them |
| Whitelist.KeptIff | components/trie/trie.go:113-204 | whatever the nesting, a candidate is left if and only if the prefix whitelist masks the last of the up to five runes that end with its first rune, unless it starts the text, or the suffix whitelist masks the first of the up to five runes that start with its last rune, unless it ends the text, both on the text as masked when the candidate is reached |
| Whitelist.EmptyWhitelistsSpareNothing | components/trie/trie.go:113-122 | whitelists without a keyword of two or more runes change nothing |
| Whitelist.QueryIsSound | components/trie/trie.go:89-155 | exist, found and the text agree: found is what the masked spans spell in the original text, all stored keywords of two or more runes, and every other rune is unchanged |
| TrieHeap.ShapeStore | components/trie/trie.go:46 | storing a new child keeps the nodes a tree in which no two paths share a node |
| TrieHeap.ShapeRemove | components/trie/trie.go:74-78 | cutting an edge, with everything below it, keeps the nodes a tree |
| TrieHeap.Trie.constructor | components/trie/trie.go:20-32 | a new trie stores nothing and checks no whitelist |
| TrieHeap.Trie.ChildIff | components/trie/trie.go:103-128 | in a valid trie a node has a child for a rune if and only if some stored keyword continues its path with that rune |
| TrieHeap.Trie.LoadOrStore | components/trie/trie.go:46 | the child for the rune exists afterwards, all other nodes are the same objects, and no keyword is added or lost |
| TrieHeap.Trie.Add | components/trie/trie.go:35-53 | the stored words become the old ones plus a non-empty keyword, and every node still leads to the end of a keyword |
| TrieHeap.Trie.CycleDel | components/trie/trie.go:65-84 | it reports whether a prefix longer than the index is stored, and if so exactly the nodes under the next rune are gone |
| TrieHeap.Trie.Del | components/trie/trie.go:56-63 | a word stays if and only if it was stored and does not start with the first rune of the argument while a prefix of that is stored; every node still leads to the end of a keyword |
| TrieHeap.Trie.AddStep | components/trie/trie.go:45-51 | one LoadOrStore, or the setting of End, of one call advances that call and keeps every node of the others |
| TrieHeap.Trie.AddConcurrently | components/trie/trie.go:35-53 | any number of Add calls interleaved in any order at each LoadOrStore end with the old words plus all non-empty keywords, in a valid trie |
| TrieHeap.Trie.CycleRead | components/trie/trie.go:223-234 | for every order of Range it appends each keyword below the node exactly once and keeps what was there |
| TrieHeap.Trie.ReadAll | components/trie/trie.go:217-221 | each stored word is returned exactly once, and nothing else |
| TrieHeap.Trie.SetWhitelists | components/trie/trie.go:6-11 | a trie given two whitelists that do not contain it checks them, nested one level deeper |
| TrieHeap.Trie.ViewIs | components/trie/trie.go:6-11 | a query consults both whitelists, each in its place, exactly when the trie checks them |
| TrieHeap.Trie.IsInWhitePrefixList | components/trie/trie.go:166-183 | true if and only if the prefix whitelist masks the last of up to five runes ending at the start of the match |
| TrieHeap.Trie.IsInWhiteSuffixList | components/trie/trie.go:186-204 | true if and only if the suffix whitelist masks the first of up to five runes from the end of the match |
| TrieHeap.Trie.IsInWhiteList | components/trie/trie.go:157-163 | true if and only if either whitelist spares the match |
| TrieHeap.Trie.ReplaceToAsterisk | components/trie/trie.go:207-214 | the runes i to j, and no others, become asterisks in place, and the word they spelled is appended |
| TrieHeap.Trie.FindMatch | components/trie/trie.go:103-146 | walking the linked nodes finds the match that the keyword set determines |
| TrieHeap.Trie.Query | components/trie/trie.go:89-155 | the in-place scan over the heap, with nested whitelist queries, answers what the specification on keyword sets says, and terminates |
| EtcdMirror.UpdatedIs | util/etcd_listen/etcd_listen.go:204-237 | an empty key clears the nodes, an empty value deletes one, a decodable value sets it and an undecodable one changes nothing |
| EtcdMirror.OverlayOneMore | util/etcd_listen/etcd_listen.go:204-237 | calling Set for the keys of a snapshot one after the other, in any order, amounts to the overlay of the snapshot |
| EtcdMirror.SnapshotIsExactIff | util/etcd_listen/etcd_watcher.go:114-131 | after the snapshot the mirror shows the store if and only if the prefix is empty or every node left from before is in the store and not overwritten by an unreadable value |
| EtcdMirror.EventIsExactIff | util/etcd_listen/etcd_watcher.go:148-157 | an event keeps the mirror equal to the store if and only if it does not overwrite a shown node with an unreadable value |
| EtcdMirror.MirrorTracksStoreIff | util/etcd_listen/etcd_watcher.go:114-158 | for every event history the mirror equals the store under the prefix at every revision from the snapshot on if and only if the watch started fresh and no event hides a node |
| EtcdMirror.MirrorIsStable | util/etcd_listen/etcd_watcher.go:133-158 | the mirror depends only on the part of the history that was delivered |
| EtcdTables.SameLists | util/etcd_listen/etcd_listen.go:43-45 | an index without empty entries is determined by its lists |
| EtcdTables.WithListLists | util/etcd_listen/etcd_listen.go:64-67 | appending a watch key changes one list of the index and no other |
| EtcdTables.DropThroughShrinks | util/etcd_listen/etcd_listen.go:108-114 | dropping a whole prefix through the key leaves a duplicate-free part of the list without the key |
| EtcdTables.DroppedLists | util/etcd_listen/etcd_listen.go:108-128 | what is done for one watch changes only the list of its name and group, and leaves no empty entry behind |
| EtcdTables.DropKeepsRemaining | util/etcd_listen/etcd_listen.go:107-129 | although watches not yet visited may already be dropped, the group's lists hold only watches still to be visited, whichever comes next |
| EtcdTables.NothingRemains | util/etcd_listen/etcd_listen.go:107-129 | when all watches have been visited the index is the inverse of the remaining groups |
| EtcdTables.NameIffWatched | util/etcd_listen/etcd_listen.go:43-45 | a name is in the index if and only if some group has a watch of it |
| EtcdTables.AddThenEmptyRestores | util/etcd_listen/etcd_listen.go:51-141 | adding a new group and emptying it leaves the index exactly as it was |
| EtcdTables.ChangeKeepsCoherent | util/etcd_listen/etcd_listen.go:204-237 | a change of the nodes of one name makes no export of another name stale |
| EtcdTables.RefreshRestoresCoherent | util/etcd_listen/etcd_listen.go:240-301 | refreshing the exports of a name makes all of them exact again |
| EtcdTables.RemovalKeepsCoherent | util/etcd_listen/etcd_listen.go:84-129 | removing a group leaves the exports of all others coherent, even when it ends the batch of a name |
| EtcdTables.NeededIs | util/etcd_listen/etcd_listen.go:123-128 | exactly the watches of names still in the index go on, as they were |
| EtcdTables.AddedIs | util/etcd_listen/etcd_listen.go:170-178 | every name has a watch afterwards, those that ran go on, the new ones are about to start, and names watched before are noted |
| EtcdTables.ExportShowsMirror | util/etcd_listen/etcd_listen.go:265-288 | outside a Set to SetOk batch a populated export has exactly one entry for each node in range, with the node's key, ip and port, and nothing else |
| EtcdTables.ExportShowsStore | util/etcd_listen/etcd_listen.go:240-301 | end to end: a populated export whose watch follows from a fresh start, no event having hidden a node, holds exactly one entry for each node in range that the store shows at the revision reached |
| EtcdTables.NoNameIffNoWatch | util/etcd_listen/etcd_listen.go:40-45 | the index is empty if and only if no group has a watch |
| EtcdTables.AddKeepsFirst | util/etcd_listen/etcd_watcher.go:54-67 | a name that gets its first watch has an empty mirror |
| EtcdTables.FirstWatchShowsStore | util/etcd_listen/etcd_listen.go:240-301 | end to end without a condition on the mirror: a populated export of a first watch, none of whose events wrote an unreadable value, holds exactly one entry for each node in range that the store shows |
| EtcdListen.Listener.InsertGroup | util/etcd_listen/etcd_listen.go:51-81 | for every map order a new group's watches are listed exactly once, other groups keep their lists, and an existing group is refused with nothing changed |
| EtcdListen.Listener.RemoveGroup | util/etcd_listen/etcd_listen.go:84-141 | for every map order the lists of the group are gone, the others are kept, and exactly the watches of names that no group wants any more are removed; it panics, whatever the order, exactly without a watcher when some name loses its last group |
| EtcdListen.Listener.DropKey | util/etcd_listen/etcd_listen.go:107-129 | one watch's list is cut through its key, empty entries are deleted, and the name's etcd watch is removed exactly when the name leaves the index, which panics without a watcher |
| EtcdListen.Listener.AddGroupWatchs | util/etcd_listen/etcd_listen.go:51-81 | keeps the whole invariant; a new group has its watches listed and no exports yet |
| EtcdListen.Listener.EmptyGroupWatchs | util/etcd_listen/etcd_listen.go:84-141 | it panics if and only if there is no watcher yet and the group is the last to list some name; otherwise it keeps the whole invariant, group and exports are gone, and the running watches are those of names still in the index |
| EtcdListen.Listener.EmptyBeforeStart | util/etcd_listen/etcd_listen.go:123-128 | a new listener with one group of one watch: emptying the group before Start panics |
| EtcdListen.Listener.ExportBeforeStart | util/etcd_listen/etcd_listen.go:293 | a new listener with one group of one watch: exporting before Start panics |
| EtcdListen.Listener.FailedStart | util/etcd_listen/etcd_listen.go:147-168 | after a Start that did not connect, exporting a group with a watch is safe and emptying it still panics |
| EtcdListen.Listener.AddThenEmpty | util/etcd_listen/etcd_listen.go:51-141 | before or after Start, adding a new group and emptying it restores every table and every watch, or panics exactly when EmptyGroupWatchs does |
| EtcdListen.Listener.AddWatch | util/etcd_listen/etcd_watcher.go:54-67 | a name that is watched is refused; otherwise its goroutine is about to start, and a name watched before is noted as watched again |
| EtcdListen.Listener.RemoveWatch | util/etcd_listen/etcd_watcher.go:70-81 | the watch of the key, if any, and no other is removed |
| EtcdListen.Listener.Start | util/etcd_listen/etcd_listen.go:147-168 | from then on exports have somewhere to go, connected or not; when the client connects exactly the names of the index are watched, each about to start, otherwise no watch changes |
| EtcdListen.Listener.WatchAll | util/etcd_listen/etcd_listen.go:170-178 | for every map order the names without a watch get one, the others go on where they were, and first watches start from an empty mirror |
| EtcdListen.Listener.ReloadEtcdWatch | util/etcd_listen/etcd_listen.go:170-178 | keeps the whole invariant; afterwards the watched names are exactly those of the index |
| EtcdListen.Listener.RefreshAll | util/etcd_listen/etcd_listen.go:180-184 | for every map order every export becomes exact, or the first one panics when exports have nowhere to go |
| EtcdListen.Listener.ReloadExport | util/etcd_listen/etcd_listen.go:180-184 | it panics if and only if Start was never called and some group has a watch; otherwise it keeps the whole invariant and every watch of every group is populated with exactly its nodes |
| EtcdListen.Listener.TiggerChangeWatchKeyValue | util/etcd_listen/etcd_listen.go:204-237 | an empty key clears the nodes of the watch key, an empty value deletes one, a decodable value sets it, an undecodable one changes nothing; no other watch key changes |
| EtcdListen.Listener.Entries | util/etcd_listen/etcd_listen.go:265-288 | for every map order, exactly one entry for each node whose version is in range, with its key, ip and port, and nothing else |
| EtcdListen.Listener.TiggerChangesWatchKey | util/etcd_listen/etcd_listen.go:240-301 | for every map order all exports of the name become exact and no other export changes; it panics exactly when exports have nowhere to go and the name is in the index |
| EtcdListen.Listener.Change | util/etcd_listen/etcd_listen.go:315-322 | Create and Modify set one node and bring all exports of the name up to date, or panic like tiggerChangesWatchKey |
| EtcdListen.Listener.Delete | util/etcd_listen/etcd_listen.go:323-326 | Delete removes one node and brings all exports of the name up to date, or panics like tiggerChangesWatchKey |
| EtcdListen.Listener.Empty | util/etcd_listen/etcd_listen.go:327-330 | Empty removes all nodes of the name and brings its exports up to date, or panics like tiggerChangesWatchKey |
| EtcdListen.Listener.ReadStore | util/etcd_listen/etcd_watcher.go:114-131 | reading the store keeps the invariant; it opens a batch of exactly the keys under the prefix, or empties the mirror when there is none |
| EtcdListen.Listener.SetNext | util/etcd_listen/etcd_watcher.go:125-127 | each Set of a batch, in any order, keeps the invariant and leaves fewer keys to set |
| EtcdListen.Listener.SetOk | util/etcd_listen/etcd_listen.go:311-313 | SetOk closes the batch with the exports exact again |
| EtcdListen.Listener.Deliver | util/etcd_listen/etcd_watcher.go:148-157 | delivering the next event keeps the invariant, advances the watch by one revision and replays the event if it is under the prefix |
| EtcdListen.Listener.Copy | util/etcd_listen/etcd_watcher.go:114-131 | the first part of watch, with the keys set in any order, leaves the mirror the snapshot specification |
| EtcdListen.Listener.StaleNode | util/etcd_listen/etcd_listen.go:84-141 | for every name and two keys under it: watched, emptied and watched again, the mirror keeps the key that was deleted in between |
| EtcdListen.Listener.HiddenNode | util/etcd_listen/etcd_listen.go:230-236 | for every name and key under it: overwritten with an undecodable value the mirror keeps the old node |
| EtcdListen.ScheduleIs | util/etcd_listen/etcd_listen.go:51-141 | what each call makes of the store and of the groups |
| EtcdListen.Listener.Proceed | util/etcd_listen/etcd_watcher.go:105-160 | the goroutine of a watch makes its next move, if there is one, and keeps the invariant |
| EtcdListen.Listener.Step | util/etcd_listen/etcd_listen.go:51-330 | every call of a public operation, write to the store and goroutine move has its effect and keeps the invariant, or panics; only EmptyGroupWatchs and ReloadExport before Start panic, under their exact conditions |
| EtcdListen.Listener.ValidShowsStore | util/etcd_listen/etcd_listen.go:240-301 | in every valid state each populated export of a following first watch with readable events shows the store at the revision reached |
| EtcdListen.Listener.Run | util/etcd_listen/etcd_listen.go:51-330 | every schedule of calls, before or after Start, runs to its end or to such a panic; in the end the store and the groups are what the schedule made them, the index is inverse to the groups, exports are exact outside batches, no watch is orphaned, every mirror stands at its revision, and each populated export of a following first watch with readable events shows the store |
| Divisors.GcdTwoIs | components/dao/balancer.go:11-38 | the common divisors of two numbers are exactly the divisors of their greatest common divisor |
| Divisors.GcdOfIs | components/dao/balancer.go:11-38 | a number divides all weights if and only if it divides their greatest common divisor |
| Divisors.GreatestIsGcd | components/dao/balancer.go:21-36 | a common divisor with no greater one up to some weight is the greatest common divisor, so counting down finds it |
| Balancer.Gcd | components/dao/balancer.go:11-38 | panics exactly for no number or a least number of zero; for positive numbers it returns the greatest common divisor |
| Balancer.GoDivTruncates | components/dao/balancer.go:24-46 | division and remainder truncate toward zero |
| Balancer.ExpandedCounts | components/dao/balancer.go:49-54 | the queue holds each index as often as its quotient says, and no other index |
| Balancer.ExpandedIsBalanced | components/dao/balancer.go:49-54 | count times gcd is the weight for every slave, and every index is a slave |
| Balancer.CountIsAtLeastShare | components/dao/balancer.go:43-54 | positive counts in the ratios of the weights give each slave at least weight/gcd |
| Balancer.QueueIsShortest | components/dao/balancer.go:43-54 | any positive counts in the same ratios as the weights sum to at least the length of the queue |
| Balancer.QueueHasRatios | components/dao/balancer.go:49-54 | the counts of a balanced queue are in the ratios of the weights |
| Balancer.Node.Expand | components/dao/balancer.go:45-54 | the two loops build the queue with each slave in turn, and its length hint |
| Balancer.Node.Shuffle | components/dao/balancer.go:57-66 | for all random numbers, each round exchanges place x with place sum mod (x+1), every index stays in range, and the multiset of the queue is kept |
| Balancer.SwapKeeps | components/dao/balancer.go:61-64 | one exchange moves two places, leaves the others and loses nothing |
| Balancer.Node.InitBalancer | components/dao/balancer.go:40-67 | the exact panic condition and the count of every slave for all weights; with more than one weight the queue is the expanded one after a shuffle; for positive weights it always succeeds with a balanced queue |
| Balancer.RoundIsFair | components/dao/balancer.go:80-88 | one round of the queue from any position takes each slave as often as the queue holds it |
| Balancer.Node.GetNextSlave | components/dao/balancer.go:69-89 | the slave at the index modulo the queue length, after which the index stands one further; exactly when there is no queue or no such slave it fails, and the index stays |
| Balancer.Node.Serve | components/dao/balancer.go:69-89 | from any index, over any number of calls, no call fails and every window of as many calls as the queue is long takes slave i exactly weight/gcd times |
| Shard.ItoaIsParsed | components/dao/shard/shard.go:68-72 | printing an int64 and parsing it gives it back, including the least one |
| Shard.ValueOfConcat | components/dao/shard/shard.go:98-106 | the value of two digit strings one after the other |
| Shard.ModFindForKey | components/dao/shard/shard.go:92-109 | the remainder of the combined value, written out for either sign of the divisor, the error of a single key, or a panic for zero shards |
| Shard.ConversionsWrap | components/dao/shard/shard.go:34-41 | conversions between int64 and uint64 keep the value modulo 2^64 |
| Shard.SingleKeyIs | components/dao/shard/shard.go:34-57 | the combined value of a single key of every type: integers modulo 2^64, a text that is a number below 2^64 that number and any other its checksum, bytes their checksum |
| Shard.KeysArePrinted | components/dao/shard/shard.go:97-106 | in a list a key without value is skipped wherever it stands and an int prints its decimal there |
| Shard.IntAndTextAgreeIff | components/dao/shard/shard.go:36-47 | an int and its decimal string have the same value if and only if the int is not negative |
| Shard.TypesAgree | components/dao/shard/shard.go:34-49 | a number that is not negative has one value as int, int64, uint64 and decimal string; as bytes it has the checksum of its digits |
| Shard.NumTypesAgree | components/dao/shard/shard.go:59-78 | for the ranges every int64 has one value as int, int64, the uint64 that wraps to it, and printed as text or bytes |
| Shard.SameValuesSameRoute | components/dao/shard/shard.go:92-109 | lists of keys with the same values are routed alike |
| Shard.ListIsRoutedBy | components/dao/shard/shard.go:92-109 | every list of no or several keys of any types is routed by the number its values spell together, skipping keys without value, if there is a value, none exceeds the greatest int64 and the number fits 64 bits; otherwise by the checksum of what they print |
| Shard.RemainderIsAShard | components/dao/shard/shard.go:108 | with a positive number of shards the result is the remainder, one of the shards, and no conversion wraps |
| Shard.ParseNumSharding | components/dao/shard/numkey.go:31-40 | panics exactly for a negative count; otherwise range i goes from i times limit to (i+1) times limit, wrapped to 64 bits |
| Shard.SingleNumKeyIs | components/dao/shard/shard.go:59-86 | the value of a single key of every type for the ranges: a text or bytes the number with an optional sign that it spells within int64, and a panic otherwise |
| Shard.NumSkips | components/dao/shard/shard.go:121-131 | a key without value is skipped wherever it stands |
| Shard.RangeFindForKey | components/dao/shard/shard.go:115-143 | the first range that contains the combined value, where a range ending at the greatest int64 has no end, and out of range exactly when none does; the errors and panics of its parsing |
| Shard.SpelledIsParsed | components/dao/shard/shard.go:121-133 | printed one after the other, ints parse as the number they spell with the sign of the first, if and only if there is one, none later is negative and the number fits int64 |
| Shard.ListIsScannedFor | components/dao/shard/shard.go:115-133 | every list of no or several keys of any types is scanned for the number its values spell together if every text is a number, there is a value, none after the first is negative and it fits int64; otherwise the call panics |
| Shard.SmallTablesRoute | components/dao/shard/shard.go:137-142 | when the last bound is below the greatest int64, v goes to v/limit inside the tables and is out of range outside, for every v |
| Shard.TablesRouteIff | components/dao/shard/numkey.go:23-40 | the tables route every int64 so if and only if Locations times TableRowLimit is below the greatest int64 |

## Left out

- Redis connections, Lua, TCP and the delay between tries: a command runs atomically, if at all, before its call returns. `genValue` gives no value, or a fresh one chosen by the environment.
- Time is one global clock; what differs between pools is the bounded early expiry `skew`. All Mutexes use the same pools and name. The drift is computed over `real`, not float64, and durations do not overflow int64.
- RedlockMutex.Mutex.Extend: the claim ends the skew earlier than the lease, because a pool may drop the key that early; with a skew of zero it is the whole lease.
- RedlockMutex.Mutex.Lock: the hold counts from the check at mutex.go:58, which succeeded before the call returns; what the caller does between check and return is not modelled.
- `RedisLock.Lock` and `Unlock` of components/lock: the wrapper's own concurrency. Only its settings are used.
- Conversion between UTF-8 and runes: texts and keywords are sequences of code points.
- TrieHeap.Trie.AddConcurrently: `Del` or `Query` racing with `Add`, and the memory model of the unsynchronised `End` flag, are not modelled.
- TrieHeap.Trie.Query: a trie that checks whitelists has both of them, and they do not contain it; the source would dereference nil or recurse without end.
- TrieHeap.Trie.FindMatch: the inner loop of Query is a method of its own, and moving `i` is left to its caller.
- EtcdListen.Listener.EmptyGroupWatchs: a goroutine whose watch was removed stops at once; in the source it may still deliver events or finish its batch before it sees the cancellation.
- EtcdListen.Listener.Start: the listener passed to it is not nil. A second `Start` after one that connected; the source would replace the watcher while the old goroutines go on.
- EtcdListen.Listener.Step: what a caller that recovers from a panic finds; the source leaves the tables half changed and a lock held.
- EtcdListen.Listener.Run: the operations and callbacks are atomic. `AddWatch` finds the store reachable; goroutines that end with an error, `ClearWatch` and `Close` are not modelled.
- EtcdListen.Listener.AddGroupWatchs: the group keeps a copy of the configuration; the source keeps the caller's map, which the caller could still change. Backing arrays of Go slices are not shared in the model.
- EtcdMirror.MirrorTracksStoreIff: an event is one revision; the several events of one transaction are consecutive revisions.
- JSON decoding and semver ranges are arbitrary functions given to the listener; `lsio.Export` output and debug prints are left out.
- Balancer.Node.InitBalancer: the queue fits in memory, where Go's `make` would panic for a sum too large to allocate; int does not overflow; after a panic the fields are unspecified. `rand.Intn` is any number in range.
- `int` has 64 bits. The CRC-32 checksum is an arbitrary function with 32-bit results.
- Shard.ParseNumSharding: the tables fit in memory, where Go's `make` would panic for a count too large to allocate.
- Shard.TablesRouteIff: for `TableRowLimit` of at least 1, as the configuration demands; `EqualStart`, `EqualStop`, `MapKey` and `String` only compare or print.
- Date shards: the time library and fixed slicing of date strings.
- Opening, pinging and transactions of databases, GetTable, and all servers, clients, queues, logging, configuration and generated code around these cores.
