# lrn-redis: a verified model

lrn-redis is a small key-value server written in Python: five data types, deadlines on keys, a
memory limit with eviction, an append-only log and a snapshot, and RESP2 framing on the wire and
in the files. This project models the parts where it keeps its own data structures and the parts
that promise durability, and proves what they promise.

Four cores, each with the files that hold it:

1. **Sorted sets** (`Ordering`, `SkipListShape`, `SkipList`, `Ranges`, `ZSet`). A skiplist of
   mutable nodes with forward links, spans, back links, a tail and a level, beside a dictionary of
   scores. A ghost sequence of the nodes and of their heights says what every link and every span
   must be; from that, insertion, deletion, rank, selection by rank and both range queries are
   proved against the plain sorted sequence of (score, member) pairs, for any level draws.
2. **Hash tables** (`Bits`, `ProbeSequence`, `OpenAddressing`, `Chaining`, `Hash`). A table with
   double hashing and tombstones, a table of chains, and the hash value that starts as a list and
   becomes a table once. All three refine one finite map, under any hash function into 32 bits.
3. **RESP2 framing** (`Numbers`, `Utf8`, `Resp`, `Stream`). RESP2 is the Redis serialization protocol,
   sections "Arrays" and "Bulk strings". The parser undoes the encoder whatever follows in the
   buffer, the reading loop gives the same commands however the bytes are cut into chunks, and
   decoding text with surrogate escapes loses no byte.
4. **Keyspace and durability** (`Commands`, `Aof`, `Outcomes`, `Handlers`, `Survival`, `LateReplay`,
   `Fidelity`, `Snapshot`, `Wire`, `Accounting`, `Marks`, `Recency`, `Sweeps`, `WriteSteps`, `MSetSteps`,
   `Evictions`, `DataStore`, `Recovery`).
   `Commands.Apply`, `Aof.Handle` and `Aof.Record` say what handlers and log records do when memory is
   unlimited, and `Outcomes.Outcome` how a command may end when keys had to be deleted for it.
   `LateReplay` and `Fidelity` prove what replaying the log rebuilds, at any clock, before or after
   its deadlines, and exactly where it does not rebuild what is left. `DataStore` is the mutable store
   with sizes, access stamps, eviction and rollback, proved against those functions; `Evictions` says
   what an MSET makes of such a store. `Wire` and `Recovery` take the log down to the bytes of its file
   and back, up to `Recovery.RestartOfRun`: from the requests of a run to the store after a restart.

What a function computes is also said without it, of what a client or the file can show:
`Ordering.Rises` of numbers and letters, `Numbers.Decimal` and `Numbers.ReadsAs` of digits,
`Resp.IsCommand` and `Wire.IsFile` of bytes, `Commands.EffectDoes` of what is looked up in a value before
and after, `Handlers.Makes` of keys, values and deadlines, `Survival.BroughtBack` of what is there after a
restart, `Recency.Used` of access stamps and `Sweeps.SweepTakes` of numbers of keys. The main results end
in these.

Conventions. A key, a member and a hash field is a sequence of code points; a string value is a
sequence of bytes. Scores are a total order with both infinities; times are reals, in seconds. A
client command is dispatched at one clock reading and recorded at a later one, so a key may fall
due in between. `Stale(db, key, clock)`: the key has a deadline and, rounded to milliseconds as the
log has it, that is past at `clock`. `Late(db, clock)`: the keyspace without its stale keys, the other
deadlines rounded. `LateFaithful(db, log, clock)`: replaying `log` from an empty keyspace at the clock
`clock` meets no error and gives `Late(db, clock)`. `Faithful(db, log, clock)`: the same, and no key is
stale, so that all of `db` is rebuilt. `Before(log, clock)`: no logged deadline has passed at that clock.

What turned out not to hold, with the exact condition:

- A log replayed after one of its deadlines. A command keeps the log right at a clock if and only if
  it does not break there (`Fidelity.HandledLateIff`), where `LateReplay.Breaks` can be read off the
  keyspace before the command: a write to a stale key that stays, when on an absent key it would make
  a value or be refused; PERSIST of a stale key; EXPIRE or PEXPIREAT that moves a stale deadline
  past the clock. SET, MSET, DEL, FLUSHALL and reads never break. `Fidelity.LateReplayRevives` is a
  run whose replay brings a key back as another value, `Fidelity.LateReplayAborts` one whose replay
  stops with an error, so that the server does not start.
- EXPIRE with no time left deletes its key and leaves no record: it breaks if and only if the key is
  there and not stale (the same lemma; on time, `Fidelity.StepFaithfulIff`). `Fidelity.ExpireUnrecorded`
  is a run after which every replay has a key that is gone for clients.
- A failed MSET under a limit puts back keys whose deletion is already in the log
  (`Fidelity.PutBackFaithfulIff`). With LRU or noeviction, while no key is due or there are at most 20
  deadlines, what happens can be read off the store before the call (`Evictions.MSetLateIff`,
  `DataStores.DataStore.Client`). It fails if and only if some pair does not fit even alone, or with
  noeviction not beside the rest (`Evictions.Fails`); and then the log is right at a clock if and only if
  no key that it names is there, not stale, and `Evictions.Displaced`: due and swept, or crowded out,
  after some pair before the first that is refused, because the key and those used since do not fit
  together. `DataStores.FailedMSetBreaks` is one that breaks.
- SET and MSET over a key whose deadline is past, under a limit. The new value is stored beside the old
  deadline, and the sweep for room takes it. With at most 20 deadlines SET loses its value if and only if
  the key is due and the value fits (`WriteSteps.SetSweeps`); the reply is OK, and a new deadline is then
  left without a key, so that the log is wrong, if and only if one is asked for (`WriteSteps.SetTidyIff`,
  `WriteSteps.SetHandledIff`). `DataStores.SetLosesValue` is such a SET. With noeviction, if what is not
  due leaves no room, the reply is an error, and the old value is put back when the log has its deletion.
  An MSET that succeeds with noeviction loses a value if and only if its first key is due and not named
  again (`Evictions.LosesIff`); `DataStores.MSetLosesValue` is one that loses all it stored.
- A load from a snapshot, the log being empty. What it brings does not enter the log, so that the log
  is right afterwards if and only if none of it is left (`Fidelity.EmptyLogIff`, `DataStores.Load`); after
  the next command the log is no longer empty, and a restart reads it alone
  (`DataStores.SnapshotForgotten`).
- Text that was not read from bytes is not always read back: two escapes that together are a letter, or
  a lone surrogate (`Utf8.NotReadBack`). A text is, if and only if it was read from bytes
  (`Utf8.ReadsBackIff`), as all texts of clients are.
- A restart under a memory limit evicts while the log is suspended. The log stays right if and only
  if none of the keys that went would be left by then (`Fidelity.UnrecordedIff`): if all that was
  replayed fits it does, and only if all that is left by then fits (`DataStores.Restart`).
  `DataStores.RestartBreaks` is a restart after which the log still has the evicted key.
- A snapshot keeps a score only if the score survives its text format (`Snapshot.SnapshotRoundTrip`),
  which it does if and only if it has at most six significant digits (`Snapshot.SixDigitsIff`); 1234567
  does not (`Snapshot.SixDigitsLose`).

README.md of the repository (line 30) says evicted final states survive a restart; that is what
`DataStores.DataStore.Client` and `DataStores.Restart` state, with these exceptions.

## Model

| member | source | states |
|---|---|---|
| Ordering.LessTransitive | store/skiplist.py:45-46 | comparing (score, member) pairs is transitive |
| Ordering.LessTotal | store/skiplist.py:45-46 | two different pairs are always ordered one way or the other |
| Ordering.SortedListingUnique | store/skiplist.py:190-191 | a set of pairs has only one sorted listing |
| Ordering.TextLessIs | store/skiplist.py:45-46 | a member comes before another exactly when at the first place where they differ it has the smaller code point, or it ends there |
| Ordering.SortedRises | store/skiplist.py:45-46 | a sequence is sorted exactly when finite scores rise as numbers, minus infinity comes before and plus infinity after all others, and equal scores are ordered by member |
| SkipListShape.NextBeforeGrown | store/skiplist.py:69-78 | where a link before the inserted node leads, at every level, given the heights alone |
| SkipListShape.NextOfGrown | store/skiplist.py:69-75 | the new node takes over its predecessor's old link at each of its levels |
| SkipListShape.NextAfterShrunk | store/skiplist.py:101-106 | removing a node leaves the links after it on the same nodes, one position earlier |
| SkipLists.SkipList.Insert | store/skiplist.py:48-86 | a new pair goes to its place in the sorted sequence, which then has that pair and the others, scores rising and members rising on equal scores; chains, spans, back links, tail, level and length are right again, for any drawn height |
| SkipLists.SkipList.FindPredecessors | store/skiplist.py:53-58 | at each level the last node before the pair, and its position counted through the spans |
| SkipLists.SkipList.RaiseLevel | store/skiplist.py:60-66 | a drawn height above the level opens header levels whose span is the whole length |
| SkipLists.SkipList.RandomLevel | store/skiplist.py:38-42 | any height from 1 to 16 may be drawn |
| SkipLists.ThreadedIsLinked | store/skiplist.py:68-78 | once all levels are threaded, every link and every span of the longer list is the one its heights call for |
| SkipLists.SkipList.Delete | store/skiplist.py:88-117 | true exactly when the pair is present; then just that pair is gone and the whole invariant holds again, else nothing changed |
| SkipLists.UnthreadedIsLinked | store/skiplist.py:101-106 | the same for the shorter list after unthreading |
| SkipLists.SkipList.LowerLevel | store/skiplist.py:113-114 | the level comes down to the tallest node left, or 1 |
| SkipLists.SkipList.Rank | store/skiplist.py:119-134 | i exactly when entry i of the rising sequence is the pair, None exactly when it is absent |
| SkipLists.SkipList.NodeByRank | store/skiplist.py:136-151 | the node of entry i for every valid i, null for every other integer |
| SkipLists.SkipList.RangeEntries | store/skiplist.py:153-175 | for all integers start and stop, the entries between the two places, both included, places below zero counted from the end, of the sequence that rises by score and member |
| SkipLists.SkipList.RangeByScore | store/skiplist.py:177-188 | exactly the entries whose score is, as a number or an infinity, at least the minimum and at most the maximum, scores rising |
| SkipLists.SkipList.Items | store/skiplist.py:190-191 | the whole sequence, scores rising and members rising on equal scores |
| Ordering.WithScoresIsSlice | store/skiplist.py:177-188 | filtering a sorted sequence by score is taking a slice of it |
| Ordering.WithScoresRises | store/skiplist.py:177-188 | what is selected by score rises, and an entry is in it exactly when its score is between the bounds, said of numbers and infinities |
| Ranges.SelectedIsCovered | store/datastore.py:383-404 | an index is in the normalized range exactly when the resolved bounds cover it |
| Ranges.SelectedAt | store/datastore.py:383-404 | element k of a selection is element start + k of the sequence |
| Ranges.SelectedIsCut | store/datastore.py:383-404 | a selection has as many elements as there are places between the two ends, clipped to the sequence, and they are those of the sequence from there on |
| Ranges.SelectedReversed | store/skiplist.py:247-266 | selecting from the reversed sequence is reversing the mirrored selection |
| Ranges.NormalizeRangeSteps | store/datastore.py:383-404 | the skiplist's way to normalize a range and the store's agree |
| ZSets.ZSet.Set | store/skiplist.py:214-226 | the dictionary gets the score and the index holds exactly the dictionary's pairs; an insert is only made for an absent pair |
| ZSets.ZSet.Remove | store/skiplist.py:228-233 | the member leaves both, and 1 is returned exactly when it was there |
| ZSets.ZSet.Rank | store/skiplist.py:238-242 | the member's place in any listing of the dictionary that rises by score and member |
| ZSets.ZSet.Items | store/skiplist.py:271-272 | the pairs of the dictionary, finite scores rising as numbers, infinities at the ends, members rising on equal scores |
| ZSets.ZSet.RangeEntries | store/skiplist.py:244-245 | the entries between the two places of any rising listing of the dictionary |
| ZSets.ZSet.RevrangeEntries | store/skiplist.py:247-266 | the entries between the two places of any falling listing of the dictionary |
| ZSets.ZSet.RangeByScore | store/skiplist.py:268-269 | a member with its score is in the result exactly when the dictionary has it and the score is between the bounds, both included; the result rises |
| ZSets.ZSet.Len | store/skiplist.py:211-212 | the number of members |
| ZSets.ListingUnique | store/skiplist.py:271-272 | sorting a dictionary of scores has one outcome |
| ZSets.FallsIsReversed | store/skiplist.py:247-266 | the falling listing of a dictionary is the rising one turned around |
| Bits.AndMask | store/hash_table.py:149 | masking with a power of two minus one is the remainder |
| Bits.PowerOfTwoTest | store/hash_table.py:137-138 | `c & (c - 1)` is zero exactly for the powers of two, for every positive c |
| Bits.OddFactor | store/hash_table.py:152-155 | an odd factor cancels modulo a power of two |
| ProbeSequence.ProbeStepOdd | store/hash_table.py:151-155 | the step is odd and smaller than the capacity |
| ProbeSequence.ProbeDistinct | store/hash_table.py:162-163 | two probes of one round never look at the same slot |
| ProbeSequence.ProbePermutation | store/hash_table.py:151-165 | `capacity` probes look at every slot exactly once |
| OpenAddressing.EmptyIsMet | store/hash_table.py:162-167 | a table that is not full has an empty slot on every probe path |
| OpenAddressing.NotStored | store/hash_table.py:166-177 | a clear path up to an empty slot, or a whole clear round, proves the key absent |
| OpenAddressing.EraseKeepsSound | store/hash_table.py:262-266 | a tombstone keeps every other key reachable |
| OpenAddressing.OpenAddressHashTable.Create | store/hash_table.py:134-143 | an empty table of the asked capacity, at least 8; refused exactly when the capacity is at least 8 and not a power of two |
| OpenAddressing.OpenAddressHashTable.FindSlot | store/hash_table.py:157-177 | the key's slot if stored; else a free slot on its path, which exists while the table is not full |
| OpenAddressing.OpenAddressHashTable.FindEmpty | store/hash_table.py:188-204 | rehashing always finds a slot: the error at line 204 cannot occur |
| OpenAddressing.OpenAddressHashTable.Resize | store/hash_table.py:206-220 | the same contents, the new capacity, no tombstones |
| OpenAddressing.OpenAddressHashTable.Set | store/hash_table.py:222-247 | updates the map and says whether the key was new; at most 7 slots in 10 are used afterwards, the space bound is kept, and the retry branch is never taken |
| OpenAddressing.OpenAddressHashTable.Get | store/hash_table.py:249-254 | the map's value, or None |
| OpenAddressing.OpenAddressHashTable.Contains | store/hash_table.py:274-275 | membership in the map |
| OpenAddressing.OpenAddressHashTable.Delete | store/hash_table.py:256-272 | removes the key from the map and says whether it was there; the table stays within 16 slots or ten for every key |
| OpenAddressing.OpenAddressHashTable.Items | store/hash_table.py:277-282 | lists every pair of the map exactly once |
| OpenAddressing.OpenAddressHashTable.Len | store/hash_table.py:306-307 | the size of the map |
| OpenAddressing.PairsListContents | store/hash_table.py:277-282 | the occupied slots list the contents exactly once, and their count is the map's size |
| Chaining.ChainedHashTable.Create | store/hash_table.py:328-332 | refused exactly when the capacity is at least 8 and not a power of two |
| Chaining.ChainedHashTable.Set | store/hash_table.py:376-398 | updates the map and says whether the key was new; there are at most 7 keys for 10 buckets afterwards, and the space bound is kept |
| Chaining.ChainedHashTable.Get | store/hash_table.py:400-409 | the map's value, or None |
| Chaining.ChainedHashTable.Delete | store/hash_table.py:411-432 | unlinks the node from its chain; the map loses the key |
| Chaining.ChainedHashTable.Resize | store/hash_table.py:359-374 | the same contents in the new number of buckets |
| Chaining.ChainedHashTable.RehashBucket | store/hash_table.py:370-374 | moving one old chain adds exactly its pairs |
| Chaining.ChainedHashTable.Items | store/hash_table.py:437-444 | lists every pair of the map exactly once |
| Chaining.ChainedHashTable.Len | store/hash_table.py:474-475 | the size of the map |
| Chaining.AllKeysDistinct | store/hash_table.py:376-393 | no key is in two chains or twice in one |
| Hashes.Hash.Set | store/hash_table.py:520-539 | updates the map; the list becomes a table exactly when a key or value has more than 64 bytes or there are more than 32 fields, and never goes back |
| Hashes.ByteLengthIs | store/hash_table.py:497-498 | the length that decides is the number of bytes of the text in UTF-8 |
| Hashes.Hash.Promote | store/hash_table.py:511-518 | the table gets the list's pairs |
| Hashes.TableOf | store/hash_table.py:513-516 | inserting the pairs of a list one by one gives a table of exactly those pairs |
| Hashes.Hash.Get | store/hash_table.py:541-548 | the map's value, or None |
| Hashes.Hash.Delete | store/hash_table.py:550-558 | removes the key and says whether it was there |
| Hashes.Hash.Items | store/hash_table.py:563-566 | lists every pair exactly once |
| Hashes.Hash.Len | store/hash_table.py:588-591 | the size of the map |
| Numbers.ReadPrintedInt | protocol/parser.py:33 | reading back a printed integer gives the integer |
| Numbers.PrintIntDecimal | protocol/encoder.py:54-55 | an integer is printed in ASCII digits, each worth its distance from "0" times a power of ten, with a minus sign if it is negative and no needless zero |
| Numbers.ReadNumeral | protocol/parser.py:33 | any string of ASCII digits is read as what its digits are worth, after a sign too |
| Numbers.ReadIntIff | protocol/parser.py:33 | bytes are read as an integer exactly when they are blanks, a sign or none, digits with single underscores between them, and blanks, and then as what the digits are worth |
| Utf8.Reencodes | protocol/parser.py:66 | whatever bytes are decoded with surrogate escapes are encoded again |
| Utf8.ReadsBackIff | protocol/encoder.py:65 | a text is read back if and only if it was read from bytes |
| Utf8.NotReadBack | store/persistence.py:20-21 | two texts that are not |
| Utf8.EncodedBytewise | protocol/encoder.py:65 | a code point is written with six of its bits in every byte but the first and no byte more than it needs, and an escape as its byte |
| Utf8.FrontBytewise | protocol/parser.py:66 | a code point is read where its bytes stand, and an escape exactly where those of no code point do |
| Resp.BuildArray | protocol/encoder.py:70-82 | the loop, through itself for nested arrays, writes "*", the number of items in digits, CR LF, and the items one after another: "$" with the length for a bulk string, "$-1" for null, ":" with the number for an integer, arrays in the same form |
| Resp.CommandIsArray | protocol/encoder.py:70-82 | a command is written as an array of its bulk strings, in the form of a command |
| Resp.CommandFramed | protocol/encoder.py:57-82 | an encoded command is "*", digits worth the number of strings, bytes 13 and 10, and for each string "$", digits worth its length, 13, 10, the string, 13, 10 |
| Resp.ParseCommand | protocol/parser.py:17-67 | all bytes of that form, whoever wrote them and whatever follows, are parsed as their strings, and exactly those bytes are taken |
| Resp.ParseArray | protocol/parser.py:28-49 | the loop computes the recursive reading of the items, for every byte string, and from bytes that begin with the form of a command it gives its strings |
| Resp.RoundTrip | protocol/parser.py:17-67 | an encoded command has the form of a command, and parsing it followed by anything gives the command and exactly its encoded length, also with CR LF inside the strings |
| Resp.PrefixIncomplete | protocol/parser.py:17-67 | every strict prefix of an encoded command asks for more bytes |
| Stream.DrainBuffer | server.py:252-258 | the inner loop of a connection takes every whole command off the front and hands it on, whatever its reply |
| Stream.DrainExact | server.py:252-258 | from any cut of an encoded stream exactly the whole commands are taken |
| Stream.FeedExact | server.py:239-258 | chunk boundaries do not matter: the same commands in the same order, and the same rest |
| Stream.ConcatSnoc | store/persistence.py:222-227 | chunks are taken in their order, each after those before it |
| Stream.TornIsSeen | store/persistence.py:238-239 | a command cut short is never mistaken for blank space |
| Stream.ReadExact | store/persistence.py:219-239 | a log file is read as the commands written, and a torn one is noticed |
| Commands.PartStep | commands/hash_cmds.py:49-52 | applying HSET, ZADD or ZREM argument by argument does what the whole command does |
| Commands.DoneAll | commands/zset_cmds.py:57-58 | after the last part the value is that of the whole command |
| Commands.ApplyDoes | store/datastore.py:413-651 | what every operation does to what can be looked up: INCRBY stores decimal digits worth the old number, or zero, plus the increment; APPEND keeps the front and adds the end; pushes and pops say which end and which order; LSET changes the one element at its place; HDEL, SREM and ZREM take the named ones and no others; in HSET and ZADD the last pair that names a key wins; wrong types and values are refused, and a collection left empty goes |
| Commands.PushLeft | store/datastore.py:463-469 | pushing values one by one on the left puts them in reverse order before the list |
| Commands.PushRight | store/datastore.py:471-477 | pushing values one by one on the right appends them in order |
| Commands.DeleteFields | store/datastore.py:427-443 | the named fields go, and the number returned is how many were there |
| Commands.AddMembers | store/datastore.py:555-564 | the members join, and the number returned is how many are new |
| Commands.RemoveMembers | store/datastore.py:566-582 | the members go, and the number returned is how many were there |
| Commands.PutPairs | commands/hash_cmds.py:49-52 | setting fields one by one is the whole HSET: the last pair that names a field wins, others are as before |
| Commands.PutScores | commands/zset_cmds.py:57-58 | setting scores one by one is the whole ZADD: the last pair that names a member wins, others are as before |
| Commands.DeleteScores | store/datastore.py:637-651 | the members go, the number returned is how many were there, and it is 0 exactly when nothing changed |
| Commands.OnString | commands/string_cmds.py:153-194 | INCRBY, INCR and DECR, step by step, store the decimal digits of the old number, or of zero, plus the increment, and refuse what is not read as an integer; APPEND keeps the front and adds the end |
| Commands.OnHash | store/datastore.py:413-443 | HSET and HDEL, step by step: the last pair wins and others stay; the named fields go and no others, and an emptied hash is removed |
| Commands.OnList | store/datastore.py:463-549 | LPUSH, RPUSH, LPOP, RPOP and LSET, step by step: which end, in which order, and that the other elements stay as they are |
| Commands.OnSet | store/datastore.py:555-582 | SADD and SREM, step by step, element by element; an emptied set is removed |
| Commands.OnZSet | store/datastore.py:630-651 | ZADD and ZREM, step by step: the last score wins and other members keep theirs; the named members go and no others |
| Commands.Perform | store/datastore.py:413-651 | every typed operation, carried out by its own steps, does to the value what it is for, and what `Commands.Apply` computes |
| Outcomes.HandleIsOutcome | store/datastore.py:188-190 | without a limit every command ends in one of the ways `Outcome` allows, with nothing deleted |
| Outcomes.StoredWhole | commands/string_cmds.py:122-127 | an MSET none of whose keys was deleted on the way leaves what it leaves without a limit |
| Outcomes.FirstTimesInOrder | commands/string_cmds.py:115-120 | the keys of an MSET are taken once each, in the order in which the pairs first name them |
| Handlers.TtlAsked | commands/string_cmds.py:61-88 | SET's options: a bad one spoils it; else the last one counts, EX in seconds, PX in thousandths |
| Handlers.OutcomeMakes | commands/dispatcher.py:155-176 | in whichever of these ways a command ends it does what it is for, said key by key of values, deadlines and clock readings: the keys it names, and every other key, which is as before or among the deleted |
| Handlers.HandleMakes | commands/generic_cmds.py:32-130 | without a limit every command does, and only a write that cannot be done, an MSET without pairs and a SET with a bad option are refused |
| LateReplay.ReplayPurged | store/datastore.py:216-220 | an expired key found on the way is deleted, and its record replays to what is left then, at any clock |
| LateReplay.ReplayDels | store/persistence.py:174-179 | the records of automatic deletions replay to the same deletions, at any clock |
| LateReplay.ReplayWrite | store/persistence.py:332-353 | the record of a write, or the DEL in its place, replays to what is left if and only if the write is not one that misses its key |
| LateReplay.ReplaySet | store/persistence.py:298-307 | SET and its deadline, recorded as two commands, replay to what is left, at any clock |
| LateReplay.ReplayMSet | store/persistence.py:321-330 | MSET recorded as final values replays to what is left, at any clock and whatever was evicted meanwhile |
| LateReplay.ReplayDeadline | store/persistence.py:309-316 | a deadline is recorded in milliseconds, less than one from its own, and replays to what is left if and only if it does not prolong a stale key |
| LateReplay.ReplayPersist | store/persistence.py:318-319 | PERSIST replays to what is left if and only if its key is not stale |
| LateReplay.ReplayRead | store/expiry.py:73-100 | reads, and passes of active expiry over any sample, replay to what is left, at any clock |
| LateReplay.StepWrite | commands/hash_cmds.py:33-56 | the purge, the deletions for room and the record of a typed write, refused or not, with the exact condition |
| LateReplay.StepSet | commands/string_cmds.py:54-94 | the deletions and the records of SET, at any clock |
| LateReplay.StepMSet | commands/string_cmds.py:110-138 | the deletions and the records of MSET, at any clock |
| LateReplay.StepExpire | commands/generic_cmds.py:53-69 | EXPIRE, with the exact condition, which has a part for the unrecorded deletion |
| LateReplay.StepPExpireAt | commands/generic_cmds.py:92-111 | PEXPIREAT with a past or a future deadline, with the exact condition |
| LateReplay.StepPersist | commands/generic_cmds.py:79-89 | PERSIST, with the exact condition |
| LateReplay.StepReplay | store/persistence.py:181-191 | any command: what it appends, replayed on what is left of the old keyspace, gives what is left of the new one if and only if it was refused or does not break |
| LateReplay.PurgeAllIsAlive | store/datastore.py:78-81 | looking at every key leaves exactly the keys that are not due |
| Fidelity.StepLateIff | store/persistence.py:181-191 | a command, with whatever deletions it brought about, keeps the log right at a clock, however late, if and only if it was refused or does not break there |
| Fidelity.HandledLateIff | store/persistence.py:219-236 | without a limit the condition is on the command and the keyspace it finds |
| Survival.DeadlineWithinMs | store/persistence.py:36-37 | the milliseconds written for a deadline differ from it by less than one, toward zero |
| Survival.RecordedWithinMs | store/persistence.py:298-316 | every deadline that a command records is that of its key, to the millisecond |
| Fidelity.LateFaithfulBack | store/persistence.py:181-191 | a log that is right at a clock brings back, with its value, every key without a deadline or with one that is a millisecond ahead, none whose deadline has come, and nothing else; each deadline to the millisecond |
| Fidelity.RunLate | store/persistence.py:219-239 | after every run in which no command breaks, replaying the log at any later time rebuilds what is left by then: every key without a deadline or with one at least 0.001 seconds ahead comes back with its value and its deadline d as some d' <= d < d' + 0.001, no key whose deadline has come does, and nothing else |
| Fidelity.StepFaithfulIff | commands/generic_cmds.py:66-69 | while no logged deadline is past, a command keeps a faithful log faithful if and only if it is not an EXPIRE that deletes its key |
| Fidelity.UnrecordedIff | store/persistence.py:118-123 | deletions made while the log is suspended leave it right if and only if none of the keys would be left by now anyway |
| Fidelity.EmptyLogIff | store/persistence.py:102-116 | an empty log is right if and only if nothing is left by then |
| Fidelity.RunFaithful | store/persistence.py:209-239 | after every run without a memory limit, replaying the log rebuilds all values, and all deadlines to the millisecond, if no EXPIRE deleted its key and no logged deadline has passed |
| Fidelity.DeletionsFaithful | store/datastore.py:210-214 | automatic deletions alone keep the log right, on time and late |
| Fidelity.RunTidy | store/expiry.py:70-71 | without a limit a deadline always belongs to a key that is there |
| Fidelity.PutBackFaithfulIff | commands/string_cmds.py:128-136 | a failed MSET keeps the log right, at any clock, if and only if each key it puts back whose deletion was recorded is stale |
| Fidelity.LateReplayRevives | commands/generic_cmds.py:105-108 | RPUSH, PEXPIREAT, RPUSH: replayed after the deadline, the key is back with the last value alone, without a deadline |
| Fidelity.LateReplayAborts | store/persistence.py:234-236 | RPUSH, PEXPIREAT, LSET: replayed after the deadline, LSET is answered with an error and the replay stops |
| Fidelity.ExpireUnrecorded | commands/generic_cmds.py:66-69 | SET, EXPIRE 0: the key is gone for clients, and replaying the log at any clock has it |
| Snapshot.SnapshotRoundTrip | store/persistence.py:241-289 | a snapshot, replayed at any clock, brings back, with values reformatted, the keys without a deadline and those whose deadline was ahead when it was taken and is a millisecond ahead now, none that was due then or is now, and nothing else, deadlines to the millisecond; the values are the same if and only if every score survives its format |
| Snapshot.ObjectMade | store/persistence.py:250-287 | the one command written for a collection makes the collection, from any listing of it |
| Snapshot.ReplayItems | store/persistence.py:241-248 | replaying the commands for any listing of a store, empty collections left out |
| Snapshot.ApplyFull | store/datastore.py:439-442 | no write leaves an empty collection behind |
| Snapshot.RunFull | store/datastore.py:486-489 | so no run does |
| Snapshot.SnapshotOfRun | store/persistence.py:126-135 | the same of whatever a run leaves, and exactly which keys come back |
| Snapshot.Six | store/persistence.py:32-33 | the rounded number is off by at most one part in 200,000 |
| Snapshot.SixDigitsIff | store/persistence.py:32-33 | a score survives the text format if and only if it is an infinity or has at most six significant digits; what the format makes of a score always has |
| Snapshot.ExactWhenShort | store/persistence.py:282-287 | a snapshot keeps all values if and only if all scores have at most six digits; what it brings back a second snapshot keeps |
| Snapshot.SixDigitsLose | store/persistence.py:32-33 | a score of 1234567 comes back as 1234570 |
| Wire.CommandReads | store/persistence.py:193-197 | every command the log is written in is written as its name in ASCII, its key and its arguments in their order, and if its texts and scores are read back so is the command |
| Wire.FileFramed | store/persistence.py:193-197 | the file is one frame after another, each with the words of its command |
| Wire.Utf8ReadsBack | store/persistence.py:20-29 | with UTF-8 and surrogate escapes every text that was read from bytes is read back; a whole score is written in decimal digits |
| Wire.StepLoggable | store/persistence.py:291-355 | whatever a command appends can be written and read back |
| Wire.RunLoggable | store/persistence.py:181-191 | so can the log of every run |
| Wire.RunSpelled | store/persistence.py:291-355 | if the texts and scores of all requests are read back, so are those of the log |
| Accounting.TotalWithout | store/datastore.py:94 | the sum of the sizes without one key |
| Accounting.VictimsUnique | store/datastore.py:204-208 | with distinct access stamps there is one way to evict oldest first and stop as soon as memory fits |
| Evictions.EvictedIff | store/datastore.py:199-208 | evicting oldest first and no more than needed takes a key if and only if it and those used since do not fit |
| Evictions.FreshestStep | store/datastore.py:140-149 | a pair stored under a limit: what is left are the keys used last of those there would be without eviction, the due ones swept |
| Evictions.MSetFails | commands/string_cmds.py:122-136 | a failing MSET has deleted a key that was there if and only if the key is displaced, which is said of the store before the call |
| Evictions.MSetSucceeds | commands/string_cmds.py:122-127 | what an MSET that succeeds leaves, all of it, by the store before the call |
| Evictions.NoEvictionLeaves | commands/string_cmds.py:122-127 | without eviction that is the due keys swept and all pairs stored, but for the first if its key was due |
| Evictions.LosesIff | commands/string_cmds.py:126-127 | so it loses a value if and only if its first key is due and not named again |
| Evictions.MSetLateIff | commands/string_cmds.py:110-138 | an MSET under a limit keeps the log right at a clock if and only if it does not break there, by the store before the call |
| Evictions.RoomForAll | commands/string_cmds.py:122-127 | where there is room for all pairs that fit, only due keys go, also when one pair is too big |
| WriteSteps.SetTidyIff | commands/string_cmds.py:54-94 | SET leaves a deadline without a key if and only if it swept its own value away and asks for a deadline |
| WriteSteps.SetHandledIff | commands/string_cmds.py:54-94 | under a limit SET keeps the log right if and only if it does not break, by the store before the call |
| WriteSteps.MutateMakes | store/datastore.py:413-425 | one typed operation, applied, refused or undone, said of the key and of all others |
| Recency.UsedMore | store/datastore.py:222-231 | uses one after another: the stamps of the keys used are in the order of their last uses, all others are as before |
| Recency.WrittenOldestWent | store/datastore.py:160-186 | under LRU a write evicts a key that is not due only when every key used less recently is gone, but for the one it writes |
| Recency.OldestWentMore | store/datastore.py:204-208 | the same of several writes one after another, by the stamps before the first |
| Recency.UsesDecide | store/datastore.py:167-171 | so a key that goes was not used after any key that stays, by the history of uses alone |
| Sweeps.SweepingPass | store/expiry.py:80-98 | one pass of a sweep over a sample of twenty, and when the passes stop |
| DataStores.DataStore.constructor | store/datastore.py:44-56 | an empty store with its books in order |
| DataStores.DataStore.SyncMemory | store/datastore.py:129-138 | one key's size and the sum are current again; the clamp at zero never bites |
| DataStores.DataStore.RestoreKey | store/datastore.py:110-123 | the key's value and stamp are those of the backup, everything else is untouched, the books are in order |
| DataStores.DataStore.Delete | store/datastore.py:242-256 | the key, its stamp, its size and its deadline go; expiry and eviction leave a record |
| DataStores.DataStore.Flush | store/datastore.py:302-314 | nothing is left, not even in the books |
| DataStores.DataStore.EvictExpiredSamples | store/expiry.py:73-100 | only due keys go, each recorded, at most 80; with at most 20 deadlines all that are due; with more, at least 20 less the number of deadlines that are ahead, and if these are at most 15, all that are due or at least 80 less four times that number |
| DataStores.DataStore.SweepPass | store/expiry.py:80-98 | one pass: all keys of the sample whose time has come go, and it is the last if there are none or fewer than a quarter |
| DataStores.DataStore.SelectCandidate | store/datastore.py:160-186 | the candidate of each policy, for volatile-ttl the nearest deadline, where one of exactly zero counts as the farthest, and exactly when there is none |
| DataStores.DataStore.Evict | store/datastore.py:204-208 | under LRU it always succeeds, takes keys oldest first and none too many, and spares the key just written; with volatile-ttl it takes keys by deadline, and fails only when no deadline is left; at random it always succeeds |
| DataStores.DataStore.EnforceMaxMemory | store/datastore.py:188-208 | success means memory within the limit; each deletion was due or needed; there is a sweep first, unless the key is too large on its own; under LRU and at random it fails only for such a key, with volatile-ttl also when no deadline is left, and with noeviction exactly when memory stays over the limit; with at most 20 deadlines the key just written goes if it is due, and without one every key that is not due is spared if and only if those fit |
| DataStores.DataStore.FinalizeMutation | store/datastore.py:140-149 | the write stands and memory fits, or the key is as in its backup; the books are in order either way |
| DataStores.DataStore.StoreSet | store/datastore.py:233-240 | the same for a whole-value write |
| DataStores.DataStore.Mutate | store/datastore.py:413-425 | one typed operation, applied, refused or undone, said of what can be looked up under its key and all others, and never refused when memory fits and the value does not grow; the stamp of its key is new or as it was, others stay, and under LRU the least recently used went |
| DataStores.DataStore.SetExpiryAt | store/expiry.py:39-41 | the deadline is set and the books are in order |
| DataStores.DataStore.RemoveExpiry | store/expiry.py:66-68 | the deadline is gone and the books are in order |
| DataStores.DataStore.GetTtl | store/expiry.py:43-53 | missing, without deadline, or the time left, over two clock readings; the key is the newest, others keep their stamps |
| DataStores.DataStore.Exists | store/datastore.py:268-276 | looks, after deleting the key if it is due, and gives the key the next stamp if it is there |
| DataStores.DataStore.ReadOptions | commands/string_cmds.py:61-88 | the loop over SET's options: a bad one spoils it, else the last one counts, EX in seconds and PX in thousandths |
| DataStores.DataStore.CmdSet | commands/string_cmds.py:54-94 | SET ends as `Outcome` allows, and if its own key was deleted on the way as `WriteSteps.SetEnds` says; under LRU or noeviction, while no key is due or with at most 20 deadlines, `WriteSteps.SetSweeps` says when it is refused and that it loses its value if and only if the key is due and the value fits, and the store then has a deadline without a key if and only if a new one was asked for; the key of a SET that succeeds is the newest, all other stamps are as before, and under LRU a key that was not due went only when every key used less recently was gone |
| DataStores.DataStore.CmdMSet | commands/string_cmds.py:110-138 | success stores every key with its last value, without a deadline, unless the key was among those deleted on the way: if nothing was deleted, it is the MSET of a store without a limit; failure puts back all keys with stamps and deadlines, and if nothing was deleted, data, stamps, deadlines, sizes and used memory are what they were. Under LRU or noeviction, while no key is due or with at most 20 deadlines, `Evictions.MSetEnds` says when it fails, what it leaves and which keys went, by the store before the call; with noeviction it leaves the due keys swept and all pairs stored but perhaps the first. Its keys get stamps in the order of the pairs if it succeeds, other stamps stay, and under LRU the least recently used went |
| DataStores.DataStore.StorePairs | commands/string_cmds.py:122-127 | the loop over the pairs, up to the first that is refused: every key holds its last value or was deleted, and nothing else changed but for the deletions |
| DataStores.DataStore.StorePair | commands/string_cmds.py:123-127 | one pair stored and its deadline dropped, or the key put back; if nothing was deleted the value is there |
| DataStores.DataStore.RollBack | commands/string_cmds.py:128-136 | the rollback loop puts back every snapshotted key and nothing else |
| DataStores.DataStore.CmdWrite | commands/hash_cmds.py:33-56 | a typed write, also one that goes part by part, is applied whole or not at all, and what it does to the value seen is what its operation is for; a ZREM stopped by the limit has removed the members before the one it stopped at; off its key nothing happens but the deletions, whatever the policy; its key is the newest, other stamps stay, and under LRU the least recently used went |
| DataStores.DataStore.WriteParts | commands/hash_cmds.py:49-56 | the calls of a typed write up to the first that fails, and the key put back |
| DataStores.DataStore.CmdDel | commands/generic_cmds.py:32-39 | the named keys are gone, value and deadline; every other key and every other stamp is as before; refused exactly without keys |
| DataStores.DataStore.CmdExpire | commands/generic_cmds.py:53-69 | a key that is there gets the deadline now plus the seconds, or goes, unrecorded, if there is no time left; one that is not, or is due, is gone, and the reply is 0; its stamp is new, others stay |
| DataStores.DataStore.CmdPersist | commands/generic_cmds.py:79-89 | a key that is there loses its deadline and keeps its value; the reply is 1 exactly when it had one; its stamp is new, others stay |
| DataStores.DataStore.CmdPExpireAt | commands/generic_cmds.py:92-111 | a key that is there gets the deadline of so many milliseconds, or goes, recorded, if that has come; its stamp is new, others stay |
| DataStores.DataStore.CmdFlushAll | commands/generic_cmds.py:126-130 | no value, deadline, stamp or size is left, and no memory in use |
| DataStores.DataStore.CmdRead | commands/generic_cmds.py:42-50 | the keys looked at whose deadline has come are gone, each recorded, every other key is as before; the keys looked at that are there have the newest stamps, in the order of their last looks, and every other stamp is as before |
| DataStores.DataStore.RecordCommand | store/persistence.py:291-355 | appends exactly the records of `Aof.Record`, with its own purges; each deadline among them is that of its key to the millisecond; the keys it looks at get new stamps, in order |
| DataStores.DataStore.Dispatch | commands/dispatcher.py:155-176 | without a limit every command does what `Aof.Handle` says; with one, an orderly command ends as `Outcome` allows; either way it does what it is for, said key by key (`Handlers.Makes`); the keys used get the newest stamps, in order, others keep theirs, and under LRU the least recently used went |
| DataStores.DataStore.Client | server.py:257-259 | dispatch and record: an orderly command ends in one of the ways `Outcome` allows; at every clock, however late, it keeps the log right if and only if it was refused or does not break, under a limit with noeviction or LRU too; on time it keeps a faithful log faithful unless it is an EXPIRE that deletes its key; MSET and SET have an if and only if of their own, by the store before the call, also when they are not orderly; the stamps are those of the keys used to carry it out and to record it, in order |
| DataStores.MSetLosesValue | commands/string_cmds.py:126-127 | an MSET over a key past its deadline is answered OK, and nothing is there |
| DataStores.SetLosesValue | commands/string_cmds.py:88-94 | a SET over a key past its deadline is answered OK; its value is gone and its deadline has no key |
| DataStores.DataStore.ActiveExpiry | store/expiry.py:102-105 | a pass of active expiry keeps every log right, on time and late; how many keys it takes at least and at most; no stamp changes |
| DataStores.DataStore.IterItems | store/datastore.py:78-81 | the items of a snapshot are those of the keys whose deadline has not come; the others go, recorded; no stamp changes |
| DataStores.DataStore.ReplayStream | store/persistence.py:209-217 | replay computes the keyspace of `Aof.ReplayFrom`, or stops at the first error |
| DataStores.DataStore.Serve | server.py:239-268 | a whole run: without a limit it is `Fidelity.Run`; with one, replaying the log rebuilds what is left at any clock at which every command keeps it right, on the store it found: an orderly one that does not break, or an MSET or SET that does not; and everything before all its deadlines, if all were orderly; commands without deadlines that are modest are always orderly; and under LRU, by the history of uses alone, a key that was not due went only when every other key there, that the command gives no value to, was gone or had been used after each of its uses |
| DataStores.Restart | store/persistence.py:118-124 | a new store replays a log and then makes room: it has what is left by then less what was evicted, within the limit; if all that was replayed fits the log stays right, and only if all that is left by then fits; with at most 20 deadlines the latter is exact |
| DataStores.RestartBreaks | store/persistence.py:118-123 | a restart that evicts a key its log still has |
| DataStores.MakeRoom | store/persistence.py:118-123 | the limit is put back and room is made, unrecorded: which keys are spared, and when |
| DataStores.Load | store/persistence.py:102-116 | from the log if there is anything in it, else from the snapshot, after which the log is right if and only if nothing of it is left |
| DataStores.SnapshotForgotten | store/persistence.py:102-116 | a server that loads a snapshot, stores a key and starts again has that key alone |
| DataStores.FailedMSetBreaks | commands/string_cmds.py:122-136 | two pairs under LRU: the first evicts the key of the second, the second is too big, the rollback puts the key back, and the log is wrong |
| Recovery.ReadStream | store/persistence.py:219-239 | chunk after chunk, every whole command dispatched at once: true if and only if all are commands answered without an error and nothing but blanks is left, and then the store is what replaying them makes of it |
| Recovery.TakeCommands | store/persistence.py:229-236 | the inner loop, which stops at the first error |
| Recovery.LogReads | store/persistence.py:193-197 | the file of a log has its commands as frames of words, and those words are read as its commands |
| Recovery.RestartFromFile | store/persistence.py:118-124 | from the bytes of the file of a right log, its texts and scores read back, however they are cut into chunks, to a store with what is left by then; a torn file is refused |
| Recovery.RestartOfRun | store/persistence.py:209-239 | from the requests of a run that does not break at a clock, through the bytes of its log, to a new store: every key of the old one without a deadline or with one at least 0.001 seconds ahead, with value and deadline to the millisecond, none whose deadline has come, nothing else |

## Left out

- DataStores.DataStore: one class for the store, the expiry dictionary and the log; the hooks between them are direct calls.
- DataStores.DataStore.Overwrite: values are immutable here, so a backup is a copy by itself; `copy.deepcopy`, sharing of a mutable value between a snapshot and the store, and the place where a collection object is created empty before it is filled are not part of the model.
- Accounting.Sizes: the size of a key is any function of the key, its value and whether it has a deadline, so a recorded size is always current; sizes that depend on the history of a container are not modelled, nor is `store/memory.py`.
- DataStores.DataStore.TouchKey: access stamps are all different, as if `time.monotonic` never returned the same value twice; that they stay so is part of `Accounted`.
- DataStores.DataStore.Client: states nothing about the log for allkeys-random and volatile-ttl, where a command can evict its own key and write or restore it again; under LRU or noeviction, nothing for SET and MSET that are not orderly when some key is due and there are more than 20 deadlines, which are only sampled: there `Fidelity.PutBackFaithfulIff` has the condition, on the keys that were deleted.
- DataStores.DataStore.Dispatch: the same commands are left out under a limit.
- DataStores.DataStore.Serve: says nothing of a run in which some command is of that kind.
- DataStores.DataStore.CmdWrite: ZREM with several members under a limit is whole or nothing only if removing a member never makes a set larger, because its handler takes no backup of its own; otherwise `WriteSteps.StoppedAt` says which members are gone. Nothing is said of the key itself when it is evicted, which only allkeys-random and volatile-ttl do.
- DataStores.DataStore.EnforceMaxMemory: the limit holds when a write ends, not after every command, because a deadline changes a size without enforcement.
- DataStores.Restart: a replay uses one clock reading for all its commands and a later one for the enforcement. With more than 20 deadlines, which are only sampled, sizes between the two bounds decide nothing; there `Fidelity.UnrecordedIff` has the condition on the keys that went.
- Recovery.ReadStream: knows the commands the log is written in and refuses others, which `dispatch` would answer.
- Wire.CommandReads: names are upper-case; HMSET is written as HSET, INCR and DECR as INCRBY; a score is spelled in one way that reads back, where a client may have used several, and `Wire.Utf8ReadsBack` spells out only whole scores and infinities.
- Stream.DrainExact: says nothing of bulk lengths below -1, nulls on input or other bytes no client encodes; `Stream.Drain` stops at a command that would not shorten the buffer.
- Resp.RoundTrip: works on bytes; that decoding them to text and back loses nothing is `Utf8.Reencodes`.
- Numbers.ReadPrintedInt: Python's limit on the digits of an integer is not modelled.
- Snapshot.SnapshotRoundTrip: formatting a score and reading it back is any function on scores, of which `Snapshot.SixDigits` is the one the code uses; keys are written in any order, of which sorted is one.
- Snapshot.SixDigitsIff: scores are exact reals; that the digits read back are rounded to the nearest float is left out.
- DataStores.DataStore.IterItems: a snapshot is a step of its own; that `maybe_save_rdb` may take one while a command is being recorded is left out.
- Hashes.Hash.Set: hash fields and values are valid text, so their UTF-8 length exists.
- Fidelity.RunFaithful: deadlines are exact reals; float rounding in `deadline * 1000` and NaN scores are left out.
- Reading the words of a client command (names, integers, floats) from its arguments; commands come parsed, with SET options that may be wrong.
- Replies: only errors and the numbers of EXPIRE, PEXPIREAT and PERSIST; the log depends on no other.
- Read-only handlers, key patterns and set algebra: a read is the list of keys it looks at.
- Sockets, tasks, timeouts and buffer limits; files, fsync and renaming; random number generators, which are any choice here; the body of the hash function, which is any function into 32 bits.
- `from_items`, `flat_items`, `keys` and `values` of the containers, which only repeat `set` and `items`.
