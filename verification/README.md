# A verified model of the Fernglas looking glass

Fernglas collects BGP routes from routers, keeps them in memory and answers queries about them.
This project models its hard parts in Dafny and proves what they promise:

- **The prefix trie** (`Bits`, `Trie`, `TrieUpdate`, `TrieRemoval`, `Nodes`, `TrieQuery`). A Tree-Bitmap
  trie with 5-bit strides: one 64-bit bitmap per node and two packed vectors indexed by rank. `Nodes.Node`
  is the mutable node with its mutually recursive insert, child creation and conversion; it is proved
  against a plain map from bit strings. All lookups are proved against the same map. The tree is a function
  of the map, bit for bit, as long as every removal spares its key; which keys those are is read off the key
  set.
- **Network keys** (`NetKey`). The encoding of networks as bit strings turns CIDR containment, said of
  address ranges as numbers (section 3.1 of RFC 4632), into the prefix order.
- **Tables, caches and the store** (`Tables`, `Interning`, `TableMaps`, `Stores`, `StoreQueries`,
  `BgpUpdates`). A table keeps vectors sorted by path id in the trie. Route attributes are hash-consed
  through weak sets with reference counts. The store owns tables and caches; its meaning is a map from
  table, network and path id to attributes, through all layers: store, tables, vectors, trie, map, and
  handles followed through the caches. `InsertBgpUpdate` and `GetRoutes` are proved against that meaning.
- **The BMP collector** (`BmpCollector`, `BmpDispatch`, `BmpCleanUp`, `BmpQuiescence`). One reader, one task for each
  peer, bounded channels and a shared store, as a system of interleaved steps. Every lock section of the
  store is its own step, tables are shared by reference, and the reader may be cancelled at any await.
  Invariants are proved of every run. `BmpDispatch` says which messages of the stream each task is given and
  applies. `BmpCleanUp` says exactly which devices, as sets of messages they may
  send, always leave a clean store; `BmpQuiescence` says that the tasks always come to an end.
- **The range-to-regex generator** (`Decimal`, `Stops`, `RangePattern`, `RangeRegex`). The text that is
  printed is read back as a regular expression and matches exactly the decimal strings of the range.
- **The merge in the result view** (`ResultsView`). Shared route objects are changed in place and merged
  again after every streamed item; the states shown are those of one merge of the routes as they arrived.

`Prelude`, `Arithmetic` and `Text` hold shared datatypes, number facts, and joining and splitting of strings. `dafny verify dfyconfig.toml` checks
everything.

In `BmpCollector` the store is kept at a finer grain than in `Stores`, whose methods run without
interruption; the lemmas of `BmpCleanUp` on calls, starting, removals and clean-up tie the steps to the methods.

Conventions. Bit slices are sequences of booleans, least significant bit first where the program says
`Lsb0`. A vector that is allocated on first use is a `Vec`. Ghost fields `view`, `contents`, `rib`, `ribs`,
`handles` and `held` say what an object stands for; every method states their new value. What the
environment decides (the order in which parallel lookups finish, the texts that the regular expression on AS
paths matches) is a parameter.

Where code and documents differ, the code is modelled: an update that both announces and withdraws a path
leaves it withdrawn (src/store.rs:263-271), while section 4.3 of RFC 4271 advises to ignore the withdrawal;
in the theorems on attribute order a withdrawn path is gone whatever announces it.

## Model

| member | source | states |
|---|---|---|
| Bits.IndexOfKey | nibbletree/src/node.rs:106-118 | `from_index` undoes `to_index`, and the keys that fit a node's capacity are exactly those with an index inside its result bits |
| Bits.KeyOfIndex | nibbletree/src/node.rs:106-118 | `to_index` undoes `from_index`, with the same bounds from the side of the index |
| Bits.IterOnesNames | nibbletree/src/node.rs:121-129 | the n-th one bit belongs to the n-th element of the packed vector, so zipping names every element by its bit |
| Bits.SlotInserted | nibbletree/src/node.rs:181-189 | setting a bit and inserting at its rank keeps the vector packed, gives that bit its element and moves no other |
| Bits.SlotReplaced | nibbletree/src/node.rs:182-184 | replacing at the rank of a set bit changes that bit's element only |
| Bits.SlotRemoved | nibbletree/src/node.rs:199-205 | clearing a bit and removing at its rank keeps the vector packed and moves no other element |
| Bits.PackedUnique | nibbletree/src/node.rs:126-129 | bits and packed vector are determined by which element each bit has |
| Trie.SetBits | nibbletree/src/node.rs:31-64 | result and child bits of the 64-bit layout do not overlap each other or the kind bit |
| Trie.IndexInBounds | nibbletree/src/node.rs:14-64 | in both node kinds exactly the keys up to the capacity have a result bit, and every 5-bit key has a child bit in a normal node |
| Trie.DefaultTreeIsEmpty | nibbletree/src/node.rs:85-95 | the default node is well formed and binds nothing |
| Trie.ResultsNames | nibbletree/src/node.rs:126-129 | each listed result is bound under its listed key and no key is listed twice |
| Trie.ResultsComplete | nibbletree/src/node.rs:126-129 | every key stored in the node itself is listed |
| Trie.ChildrenNames | nibbletree/src/node.rs:121-124 | each listed child is the one found under its listed nibble and no nibble is listed twice |
| Trie.ChildrenComplete | nibbletree/src/node.rs:121-138 | every child that lookup finds is listed |
| TrieUpdate.PutResultBinds | nibbletree/src/node.rs:177-189 | storing in the node binds that key and keeps all others |
| TrieUpdate.DropResultUnbinds | nibbletree/src/node.rs:198-205 | removing from the node unbinds that key and keeps all others |
| TrieUpdate.AddChildBinds | nibbletree/src/node.rs:164-172 | a new default child changes no binding |
| TrieUpdate.SetChildBinds | nibbletree/src/node.rs:190-195 | changing one child changes exactly the bindings below its nibble |
| TrieUpdate.CanonicalUnique | nibbletree/src/node.rs:148-196 | two canonical trees with the same bindings are the same tree: bitmaps, vectors and nesting |
| TrieUpdate.InsertedKeepsCanonical | nibbletree/src/node.rs:176-196 | insertion keeps a canonical tree canonical |
| TrieRemoval.RemovedUnbinds | nibbletree/src/node.rs:197-210 | the tree with one node reduced lacks that key and keeps all others |
| TrieRemoval.RemovedIsCanonical | nibbletree/src/node.rs:197-210 | removal keeps a canonical tree canonical exactly if another result remains in the node that stores the key and, on the way there, below each node a key that is too long for an end node |
| Nodes.Node.GetChildMut | nibbletree/src/node.rs:139-146 | the child found is the one of the node's value, at the rank of its nibble |
| Nodes.Node.ConvertToNormal | nibbletree/src/node.rs:148-160 | re-inserting an end node's contents leaves a normal node with the same map; a normal node is untouched |
| Nodes.Node.GetOrInsertChild | nibbletree/src/node.rs:161-174 | the child for a nibble exists afterwards and the map is unchanged |
| Nodes.Node.Insert | nibbletree/src/node.rs:176-196 | returns the old binding, binds the key and keeps every other binding, through conversion and recursion, with a termination measure |
| Nodes.Node.Remove | nibbletree/src/node.rs:197-210 | returns the old binding, unbinds exactly the key, and changes only the node that stores it |
| Nodes.Node.SetExisting | nibbletree/src/node.rs:301-312 | a write through `exact_mut` finds the key exactly when it is bound and changes that binding only; a canonical tree stays canonical |
| Nodes.Node.ExactMatch | nibbletree/src/node.rs:289-300 | the result is the map's binding of the key, and that of the node's value |
| Nodes.EndNodeIsItsResults | nibbletree/src/node.rs:151-152 | an end node's listed results are its whole map, which is why conversion loses nothing |
| Nodes.Replay | nibbletree/src/node.rs:176-210 | after any history of inserts, writes through `exact_mut` and removals from the default node all lookups and all returned values are those of the plain map, every vector is as long as its bits have ones, and normal nodes keep a child; the trees along the history are all canonical exactly if each removal of a bound key spares it at its point |
| Nodes.OneTreePerMap | nibbletree/src/node.rs:148-196 | canonical trees for one map are equal, and the root is normal exactly when the map has a key of six or more bits |
| Nodes.OrderOfInsertsIsForgotten | nibbletree/src/node.rs:148-210 | two histories whose removals spare their keys and that leave one map leave one tree, bit for bit |
| Nodes.RemovalLeavesATrace | nibbletree/src/node.rs:197-210 | for every such history and bound key: after its removal the tree is that of the histories that leave the remaining map exactly if the key is spared |
| Nodes.RemovalKeepsCanonical | nibbletree/src/node.rs:197-210 | the same of one removal, as a condition on the keys of the map |
| TrieQuery.OrLongerLists | nibbletree/src/node.rs:341-380 | `or_longer` lists exactly the stored extensions of the key, each once, with its value |
| TrieQuery.IterLists | nibbletree/src/node.rs:212-251 | `iter` lists every binding once |
| TrieQuery.IterIsOrLonger | nibbletree/src/node.rs:212-251 | `or_longer` of the empty key is `iter`, in the same order |
| TrieQuery.IterZipsKeysAndValues | nibbletree/src/node.rs:256-287 | the n-th pair of `iter` is the n-th of `keys` with the n-th of `values`, though the three traverse on their own |
| TrieQuery.LongestMatch | nibbletree/src/node.rs:314-339 | descending first and then shrinking finds the stored binding whose key is the longest prefix |
| TrieQuery.LongestStored | nibbletree/src/node.rs:314-339 | the specification: a stored prefix of the key at least as long as every stored prefix, and none only if there is none |
| TrieQuery.OnlyOnePasses | nibbletree/src/node.rs:396-409 | at most one child passes the filter of `matches`, so the captured key is split at most once |
| TrieQuery.MatchesLists | nibbletree/src/node.rs:382-416 | `matches` lists exactly the stored prefixes of the key, each once |
| TrieQuery.MatchesLengthen | nibbletree/src/node.rs:382-416 | `matches` lists them in strictly increasing length |
| TrieQuery.MatchesEndInLongest | nibbletree/src/node.rs:314-416 | the last element of `matches` is the longest match, and there is none exactly when there is no longest match |
| NetKey.FromKey | nibbletree/src/node_with_key.rs:18-69 | the octet buffer filled bit by bit is the network of the key, with the bits past the key clear |
| NetKey.KeyRoundTrip | nibbletree/src/node_with_key.rs:113-126 | `to_key` after `from_key` is the identity on well-formed keys |
| NetKey.NetRoundTrip | nibbletree/src/node_with_key.rs:113-126 | `from_key` after `to_key` keeps family and length and gives the first address of the network: host bits are cleared |
| NetKey.AddressesOf | nibbletree/src/node_with_key.rs:71-81 | the addresses in the range of a network are exactly those that share its leading bits (section 3.1 of RFC 4632) |
| NetKey.ContainsIsPrefix | nibbletree/src/node_with_key.rs:71-81 | a key is a prefix of another exactly when the families agree and the first network's address range contains the second's |
| NetKey.ToKeyIsNetKey | nibbletree/src/node_with_key.rs:71-81 | keys of networks are well formed and one bit longer than the prefix |
| Tables.Search | src/table_impl.rs:62-65 | binary search finds the position of the id, or the one where it keeps the vector sorted |
| Tables.PutPathPuts | src/table_impl.rs:62-65 | the updated vector is sorted, not empty, and differs as a map in the given id only |
| Tables.DropPathDrops | src/table_impl.rs:75-81 | the shortened vector is sorted and lacks the given id only |
| Tables.InMemoryTable.UpdateRoute | src/table_impl.rs:51-70 | the table's map from truncated prefix and path id changes at that path only, a new announcement replacing the old (section 9 of RFC 4271); every stored vector stays non-empty and strictly sorted; the replaced route is handed back |
| Tables.InMemoryTable.WithdrawRoute | src/table_impl.rs:72-87 | the path is gone, no empty vector stays behind, and an unknown path changes nothing |
| Tables.InMemoryTable.GetRoutes | src/table_impl.rs:21-41 | exactly the routes that the query selects, each once: containing, most specific, equal or contained networks, or all |
| Tables.LongestIsMostSpecific | src/table_impl.rs:32 | the trie's longest match is the stored network that contains the given one and has the longest prefix of those that do |
| Tables.ChosenContains | src/table_impl.rs:33 | `matches` on keys is the list of stored networks that contain the given one |
| Tables.ChosenOrLonger | src/table_impl.rs:34 | `or_longer` on keys is the list of stored networks inside the given one |
| Interning.Find | src/compressed_attrs.rs:36-37 | a live entry with the key is found if there is one, a dead one never |
| Interning.GetOrInsertKeeps | src/compressed_attrs.rs:36-42 | one more handle, to a live allocation with the value; still one live allocation per value and exact counts |
| Interning.ReleaseKeeps | src/compressed_attrs.rs:32-43 | dropping a handle keeps the cache canonical and its counts exact |
| Interning.RemoveExpiredKeeps | src/compressed_attrs.rs:71-77 | exactly the dead entries leave, the cache stays canonical and its counts exact |
| Interning.RouteKept | src/compressed_attrs.rs:80-93 | a live route decompresses to the same attributes whatever else was interned or dropped |
| Interning.KeysKept | src/compressed_attrs.rs:9-27 | lists and routes, compared by the values behind their handles, stay canonical while those caches change |
| Interning.Caches.InternLargeList | src/compressed_attrs.rs:54-62 | the list's handle stands for the list; if the value was known, the handles of the new list are released again |
| Interning.Caches.DropLargeList | src/compressed_attrs.rs:22-24 | the last handle to a list releases the handles in it, one by one |
| Interning.Caches.DropFields | src/compressed_attrs.rs:9-18 | dropping a route value releases each of its handles once, cascading through the list of large communities |
| Interning.Caches.CompressRouteAttrs | src/compressed_attrs.rs:46-69 | the new handle decompresses to exactly the given attributes, in every cache state, and all handles that are out keep their meaning |
| Interning.Caches.DropHandle | src/compressed_attrs.rs:9-18 | the handle is gone, cascading to what only it kept alive, and all others keep their meaning |
| Interning.Caches.CloneHandle | src/table_impl.rs:36-38 | one more handle to the same route, and all handles keep their meaning |
| Interning.Caches.RemoveAllExpired | src/compressed_attrs.rs:71-77 | from each of the five sets exactly the entries leave that were dead before the call, no allocation changes and no handle changes its meaning |
| Interning.SameHandleIffSameRoute | src/compressed_attrs.rs:36-42 | live handles to routes are the same exactly when the routes are equal |
| Interning.SameArcIffSameValue | src/compressed_attrs.rs:20-27 | the same for AS paths, community lists, large communities and lists of them, the last compared by value |
| Interning.NothingLeaks | src/compressed_attrs.rs:20-27 | when no handle is out, nothing is live in any of the five caches |
| BgpUpdates.AllHalves | src/store.rs:216-225 | each community is split into the halves that make it up again |
| BgpUpdates.AddrsToNetsAre | src/store.rs:275-326 | for each of the four families: the networks are those of the entries whose length fits the address, in the order of the list, with the path id of the entry or 0 |
| BgpUpdates.NetIsListed | src/store.rs:275-326 | the same as membership, in terms of the message |
| BgpUpdates.NextHopIs | src/store.rs:199-203 | exactly IPv4 and IPv6 next hops are kept, as they are |
| BgpUpdates.GatheredFields | src/store.rs:196-255 | after the loop each field has the value of its last attribute, and none if it has no attribute |
| BgpUpdates.GatheredPaths | src/store.rs:198-212 | the paths gathered are exactly those in some reach or unreach attribute, each with that attribute's next hop |
| BgpUpdates.AfterUpdateAt | src/store.rs:256-272 | for every message and path: a withdrawn path is gone, a plain one takes the next hop of the message, any other announced one that of the last attribute that lists it, each with the attributes of the message, and all others stay |
| BgpUpdates.AttributeOrderIsForgotten | src/store.rs:186-272 | for every message and table: the result is the same for every order of the attributes exactly if no field that a remaining path takes is given two values and no remaining path outside the plain list is given two next hops by attributes |
| BgpUpdates.MpPrefixKeepsNextHop | src/store.rs:198-207 | a path of `MP_REACH_NLRI` keeps the next hop of the last such attribute that lists it and gets every other field, listed before or after (section 3 of RFC 4760) |
| BgpUpdates.PlainPrefixTakesNextHop | src/store.rs:256-258 | a path of the plain list takes the `NEXT_HOP` attribute and every other field, wherever they are listed and even if an `MP_REACH_NLRI` lists the path too |
| BgpUpdates.LastNextHopWins | src/store.rs:263-268 | in every message the attribute moved to the end gives its next hop to each remaining path that only attributes announce |
| BgpUpdates.LastValueWins | src/store.rs:213-255 | in every message the attribute moved to the end gives its value to each remaining path that takes its field |
| StoreQueries.FilteredTable | src/store_impl.rs:167-173 | filtering the routes of a table leaves exactly the stored routes that the query and the AS-path expression select, each once |
| StoreQueries.PathTextIs | src/store_impl.rs:133-144 | the text of an AS path, split at blanks, is the list of its numbers in path order, that of the empty path is empty, and no other text has this property |
| StoreQueries.AcceptsWanted | src/store_impl.rs:130-147 | with an expression a route passes exactly if it has a path and the expression matches that text |
| StoreQueries.AnswerCount | src/store_impl.rs:167-173 | their number is the number of matching paths in the table |
| StoreQueries.ConnectedAnyOrder | src/store_impl.rs:184-195 | which results pass the check for connected clients does not depend on the order of arrival |
| StoreQueries.SentCount | src/store_impl.rs:162-179 | how many results of connected clients are sent, as a sum over tables of matches up to the limit per table |
| StoreQueries.StreamIsPartOfAnswer | src/store_impl.rs:118-211 | for every order of arrival the stream is a sub-multiset of the full answer and has as many elements as limits and matches allow, 0 meaning no limit |
| TableMaps.TableMap.GetTable | src/store_impl.rs:55-62 | the table of a selector, made empty on first use; no other table changes |
| TableMaps.TableMap.UpdateRoute | src/store_impl.rs:101-110 | one path of one table changes; no other table does, though tables live in one heap |
| TableMaps.TableMap.WithdrawRoute | src/store_impl.rs:113-116 | one path of one table is gone |
| Stores.AccountsPut | src/table_impl.rs:51-70 | replacing a handle in a table keeps the caches' handles equal to those in the tables, as a multiset |
| Stores.LinkedPut | src/store_impl.rs:101-110 | the routes that the store means change at one path, all others keep the meaning of their handles |
| Stores.LeftStep | src/store_impl.rs:234-237 | each route of a dropped table is dropped once |
| Stores.FollowedLists | src/store_impl.rs:199-206 | following the handles of a table's answer gives the answer of the routes they stand for |
| Stores.NoRoutesNothingAlive | src/store_impl.rs:228-258 | when the store has no routes, nothing is alive in its caches |
| Stores.InMemoryStore.constructor | src/store_impl.rs:21-27 | the store starts empty |
| Stores.InMemoryStore.UpdateRoute | src/store_impl.rs:101-110 | the routes of one table change at one path to exactly the given attributes, through caches, table, vector and trie |
| Stores.InMemoryStore.WithdrawRoute | src/store_impl.rs:113-116 | the path is gone from its table, and with it its handle |
| Stores.InMemoryStore.InsertBgpUpdate | src/store.rs:186-272 | the table becomes the message's effect on it, and no other table changes |
| Stores.InMemoryStore.ClientUp | src/store_impl.rs:217-227 | the client is known, nothing else changes |
| Stores.InMemoryStore.ClientDown | src/store_impl.rs:228-239 | the client, its sessions and all its tables are gone, and nothing else; no dead entry is left in the caches |
| Stores.InMemoryStore.SessionUp | src/store_impl.rs:241-243 | the session is known, nothing else changes |
| Stores.InMemoryStore.SessionDown | src/store_impl.rs:244-258 | the session is gone or replaced, its two Adj-RIB-In tables are gone, and nothing else; no dead entry is left in the caches |
| Stores.InMemoryStore.TablesFor | src/store_impl.rs:42-96 | exactly the tables that the query names, each once: one table, the two of a session, those of a client, those of clients with the router id, or all; a query for one table may make it |
| Stores.InMemoryStore.GetRoutes | src/store_impl.rs:118-211 | for every order of arrival: part of the full answer, of the size that limits (200 and 500 if none are given) and matches determine, each result with state, table, network, attributes, client and session |
| BmpCollector.SessionForPeer | src/bmp_collector.rs:18-37 | exactly peers of type 0 have a session, the same before and after the inbound policy |
| BmpCollector.TableOfPeer | src/bmp_collector.rs:18-37 | type 0 has the pre-policy table or, with the flag of weight 64, the post-policy table of its session, type 3 the LocRib table, and no other type has one |
| BmpCollector.TransportKept | src/bmp_collector.rs:59-98 | every step keeps: senders have receivers, queues are bounded, messages are in order, `Down` comes last |
| BmpCollector.SendsSucceed | src/bmp_collector.rs:167-181 | on every run each sender that the reader holds or uses has a task that still receives, so no send fails |
| BmpCollector.LookedUpKept | src/store_impl.rs:55-62 | every step keeps: a table that a task has looked up exists, and the task has a call to make on it |
| BmpCollector.BlockedReaderHasRunningTask | src/bmp_collector.rs:64-89 | on every run of any device a reader that waits for room waits for a task with 16 messages in its queue that can make a step |
| BmpCollector.TasksApplyInOrder | src/bmp_collector.rs:64-97 | on every run queues hold at most 16 messages, and a task takes messages and makes their calls in order and once; when done it has made all of them unless the reader was stopped in a send to it |
| BmpCollector.OpsAreTheUpdate | src/bmp_collector.rs:39-57 | the single calls a task makes for a message add up to the whole update |
| BmpDispatch.TasksAreSentWhatIsRead | src/bmp_collector.rs:161-185 | on every run and for every address: the tasks for the address are those that the messages read say, begun by peer-up or by an update without a channel, each sent exactly its updates and its peer-down message, in order |
| BmpDispatch.StreamIsApplied | src/bmp_collector.rs:59-185 | on every run a task that is done has made the calls for exactly the messages that the stream has for it, in order and once, unless the reader was stopped in a send to it |
| BmpDispatch.ReaderEndsWithTheStream | src/bmp_collector.rs:129-185 | unless it is cancelled, the reader ends exactly if the stream does not start with an initiation and a peer-up message, or after a termination message or the end of the stream |
| BmpDispatch.ReaderCanStep | src/bmp_collector.rs:161-185 | on every run, until it has ended, the reader takes any message next or waits only while the queue it sends to holds 16 messages |
| BmpCollector.WritesKept | src/bmp_collector.rs:75-89 | every step keeps: what a task has written and has still to write are the calls for what it has taken |
| BmpCleanUp.CleanKept | src/bmp_collector.rs:59-98 | every step keeps: sessions of the client, and routes in tables that the device is harmless to, belong to a task that will still remove them |
| BmpCleanUp.FetchAndWriteIsOneCall | src/store_impl.rs:101-116 | looking up a table and writing it, without interruption, changes the meaning of the shared store as one call of the store class does |
| BmpCleanUp.FirstPeerUpIsClientUp | src/bmp_collector.rs:135-154 | the first peer-up message adds the client and changes nothing else in the store; no other message changes it |
| BmpCleanUp.TaskAddsItsSession | src/bmp_collector.rs:69-73 | a task for a peer of type 0 adds its session when it starts, one for another type nothing |
| BmpCleanUp.TaskRemovesItsSession | src/store_impl.rs:244-258 | the two removals of a peer task are those of `SessionDown`: the session and its two tables, for type 0 only |
| BmpCleanUp.CleanUpRemovesTheClient | src/store_impl.rs:228-239 | the three parts of the clean-up remove the client, its sessions and its tables, and nothing else, as `ClientDown` does |
| BmpCleanUp.OthersMayWrite | src/store_impl.rs:101-116 | the steps allowed to other clients include writing and dropping any of their own tables |
| BmpCleanUp.OthersMayMake | src/store_impl.rs:55-62 | and making any table on first use |
| BmpCleanUp.OthersMayCome | src/store_impl.rs:217-258 | and coming and going of clients and of sessions of other clients |
| BmpCleanUp.NothingIsLeft | src/bmp_collector.rs:59-185 | on every run of a harmless device: when the reader has ended and all tasks are done, no session of the client and no route in its Adj-RIB-In tables is left; likewise for its LocRib tables |
| BmpCleanUp.MixedTypesLeaveARoute | src/bmp_collector.rs:90-94 | a device that starts a task for any peer type but 0 and sends an update for type 0 of the same address, one that leaves something in an empty table, has a run that leaves a route |
| BmpCleanUp.ExactlyHarmlessDevicesEndClean | src/bmp_collector.rs:59-185 | all runs of a device end clean exactly if it is harmless, or sends no peer-up and so never gets started |
| BmpCleanUp.LateTaskLeavesALocRibRoute | src/store_impl.rs:228-239 | a device that sends a LocRib update with a lasting effect has a run that leaves a LocRib route although the whole clean-up has run |
| BmpCleanUp.ExactlyTheseLeaveNoLocRib | src/bmp_collector.rs:18-98 | after the clean-up no run of a device leaves a LocRib route exactly if none of its LocRib updates leaves anything in an empty table, or it never gets started |
| BmpQuiescence.StepsAreBounded | src/bmp_collector.rs:67-95 | once the reader has ended, the tasks and the clean-up make no more steps than there is work, in any interleaving with other clients |
| BmpQuiescence.TaskCanStep | src/bmp_collector.rs:67-95 | once the reader has ended, a task that is not done can make a step |
| BmpQuiescence.EveryScheduleEndsClean | src/bmp_collector.rs:67-185 | after a bounded number of own steps nothing can move on, then all tasks and the clean-up are done, and a harmless device has left nothing, in Adj-RIB-In or LocRib tables as the case may be |
| BmpQuiescence.SomeScheduleEnds | src/bmp_collector.rs:67-95 | such an end is reached by steps of the client alone |
| Decimal.DecAppend | contrib/print_communities.py:77-78 | digits appended to a decimal string are the digits of the shifted number |
| RangeRegex.FillByNinesIsNines | contrib/print_communities.py:77-78 | replacing the last digits by nines is the next number that ends in nines |
| RangeRegex.SplitToRanges | contrib/print_communities.py:52-74 | the loops end, and the sorted stops are exactly the largest number, the nines stops and the zeros stops inside the range |
| RangeRegex.StopsAreIntervals | contrib/print_communities.py:41-49 | neighbouring stops cut the range into intervals without gap or overlap, the last ending at the largest number |
| Stops.IntervalIsBox | contrib/print_communities.py:52-74 | every interval between neighbouring stops is a digit box: a common head, one digit that varies, then full digits |
| RangePattern.IntervalIsDigitBox | contrib/print_communities.py:85-103 | the ends of a box agree in length and head, differ in one digit and run from zeros to nines, and its numbers are exactly the strings in the box |
| RangePattern.RangeToPattern | contrib/print_communities.py:85-103 | the loop over digit pairs prints the fixed part and moves all full digits to the end |
| RangePattern.PatternIsExact | contrib/print_communities.py:85-103 | the printed pattern, read as a regular expression, matches exactly the numbers of the interval |
| RangeRegex.SplitToPatterns | contrib/print_communities.py:41-49 | the patterns together match exactly the decimal strings of the range, and no string matches two of them |
| RangeRegex.RegexForRange | contrib/print_communities.py:13-38 | the printed alternation matches exactly the strings of the integers from min to max, for negative bounds too |
| ResultsView.AdjInAre | frontend/src/resultsView.js:93-111 | a key is represented by its last post-policy route, or by its first pre-policy route if it has no other |
| ResultsView.AdjInOrder | frontend/src/resultsView.js:93-116 | the keys of stage 1 are in the order in which they are met: those with a post-policy route by their first, then the others by their first pre-policy route |
| ResultsView.AdjRepsAre | frontend/src/resultsView.js:114-119 | a key of the second stage has an entry exactly if some representative has the key, and the entry is the one whose key of stage 1 is met last |
| ResultsView.MetOnce | frontend/src/resultsView.js:114-119 | of two keys at most one is met before the other, so only one representative is the last |
| ResultsView.CombineAdjIn | frontend/src/resultsView.js:93-111 | stage 1 collects the representatives and marks exactly the pre-policy ones as filtered |
| ResultsView.Overlay | frontend/src/resultsView.js:120-128 | one LocRib loop adds the missing keys and raises exactly the entries whose key has a route in that state |
| ResultsView.RunMerges | frontend/src/resultsView.js:114-146 | after the three loops an entry has the highest LocRib state there is for its key, or else the state of its representative |
| ResultsView.RunIsStable | frontend/src/resultsView.js:93-147 | the states a run leaves behind rank as before, though routes were changed in place |
| ResultsView.StableMore | frontend/src/resultsView.js:193-199 | a further route does not tell the changed states from the ones that arrived |
| ResultsView.ProcessResults | frontend/src/resultsView.js:80-147 | the states shown are the merge of the states given, and the routes are left in states that merge alike |
| ResultsView.ShowStream | frontend/src/resultsView.js:190-199 | after every streamed item the states shown are those of one merge over the routes as they arrived |

## Left out

- Sockets, codecs, keepalives and the parsing of BGP and BMP messages; tokio, rayon, HTTP, DNS, metrics, configuration and rendering.
- The internals of `bitvec`, `thin_vec` and `weak_table`: bit slices and vectors are sequences; a weak set has entries that are found only while alive, and stale entries stay until they are removed.
- TrieQuery.LongestMatch: the lookups that only borrow a node (`longest_match`, `or_longer`, `matches`, `iter`, `keys`, `values`) are stated on the value of the node, which `Nodes.Node.AsTree` reads from its fields.
- `iter_mut` and `values_mut`, which repeat `iter` and `values` with mutable references and are not used by the store.
- Nodes.Replay: once a removal has left a trace, an empty child or vector or a normal node that need not be one, later insertions may fill it again; when they do is not stated.
- The key conversions for `ip_network` types, which repeat those for `ipnet` with another library.
- Interning.Caches.DropHandle: addresses of freed allocations are not used again in the model, so that a stale entry never meets a new allocation at its address.
- Stores.InMemoryStore.GetRoutes: a query runs without concurrent changes; the handles of its results are followed at once and not held while the stream is read. A limit above the size of the machine word is not told from none.
- Stores.InMemoryStore.TablesFor: a query by router requires that the clients of all tables are connected, since the program stops otherwise (src/store_impl.rs:50).
- Stores.InMemoryStore.ClientDown: the three locks are taken in one step here; `BmpCollector` takes them in three.
- The order of tables and of routes within a limit: which of the matches a limit keeps is left open, as hash order leaves it open in the program.
- The clamp on limits in src/api.rs:231-237, which takes a minimum where 0 means no limit.
- Tables.PathId: path ids are natural numbers; the program's 32-bit ids are only compared.
- BmpCleanUp.NothingIsLeft: other clients and queries may do anything to the shared store at any time but change sessions and routes of this client (`Foreign`); one connection per client address; a later connection from the same address and port is a new run. An empty table made by a query is not a route.
- BmpCleanUp.ExactlyHarmlessDevicesEndClean: a device is the set of messages about peers that it may send, in any order and number; conditions on the order of messages are not looked at; this holds of `BmpCleanUp.ExactlyTheseLeaveNoLocRib` too. Peers of types other than 0 and 3 have no table, as in the program.
- BmpQuiescence.EveryScheduleEndsClean: that a step which can be made will be made is left to the scheduler, and a reader whose device never closes the connection does not end.
- RangeRegex.RegexForRange: the expression is read with the constructs that are printed (digits, classes, `\d`, a count, `-?`, alternation); `\d` stands for the ten ASCII digits. Bounds with min above max are not modelled; the loop that would pass them does not end (contrib/print_communities.py:182-188).
- The rest of contrib/print_communities.py, which splices the alternation into a larger expression without grouping it.
- ResultsView.ProcessResults: which object stands for a key, the final sort and the rendering; only states by key are stable from run to run. Lookup tables for names are left out.
