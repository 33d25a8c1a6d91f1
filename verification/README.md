# Verified models of the login service and of the protobuf runtime it ships

The repository is a single-login service (a gRPC server that allows one online session for each user, and
its client) together with its generated message code and the protobuf headers it is compiled against. This
project models the parts with the most state and proves what they promise.

* **The hash table behind protobuf's map.** `Bits`, `Load`, `Cells`, `InnerMap`, `MapOrder`, `MapIterator`,
  `MapClear`, `MapRuns`, `MapLoad`. Nodes and trees are objects on the heap and a table slot is compared by reference, as in the
  code; `Wf` and `Points` say what a table means, `InnerMap.Valid` is the invariant that every operation keeps.
  The hash function, the seed and the strict order of keys are arbitrary.
* **The parsers of map entries.** `MapEntry`: the entry message's loop, and the parser that inserts into the map before it
  has seen the whole entry. The types of key and value enter as arbitrary reading functions; what the stream answers to
  `ExpectTag`, to the peek and to `ExpectAtEnd` may be "no" at any time, because buffering is not known.
* **The codec of the generated messages.** `Wire`, `CodedStreams`, `Codec`, `Sizes`, `CodecMessage`: bytes, tags, unknown fields with
  nested groups, and messages with `n` string fields (five for `ClientRequestParams`, one for `ServerResponse`). `WireFormat` is
  the wire format as a grammar, in numbers, with the proof that readers and writers agree with it; `CodecFormat` shows which inputs the parsers accept and
  reject and which bytes the serializers write in terms of it.
* **The session protocol.** `Session` is the state and the atomic steps: single calls of the database, single operations on
  the stream map, sending a signal. `Protocol` is the transition system of all threads: each has a point in its code, calls and
  sweeps hold the lock from their first database call to their last step, stream handlers run beside it; every run of it is
  proved to consist of legal steps, from which safety follows. `SessionServer` gives every call of the service as the moves of
  one thread, with any run of the other threads in between, on top of the facts about states and points in `SessionFacts`.
  `SessionClient` is the client's two loops, on top of the server's calls. `SessionStreams` says over lists of steps whom the
  stream map names, `ProtocolStreams` over the runs of the protocol; `SessionTwice` shows where single login fails.
* **The text of search replies.** `Hits`, `HitList`, `Replies`: the printer of login records, the parsers that search replies
  with `strstr`, and what the parsers make of any reply of the database.
* **Companions.** `StringOrder`, the order of strings by which sweeps select and symbols are sorted, `SymbolIndex`, the lookup of symbols by prefix, and `ArenaString`, `StringState` and `StringFields`, the
  ownership of string fields.

Methods carry the code's loops and updates in place and are proved against functions and invariants; the lemmas
are about those.

## What the proofs found

* Shrinking keeps the load bound `5 * elements < 6 * buckets` but not a load below 3/4. After a reduction the very next insertion
  grows the table again, which the comment at `map.h:745-747` says is avoided, exactly if the number of elements is at least 4
  and no value `3 * 2^j` lies above it plus one and up to the code's estimate (`Load.GrowsAgainExactly`). 64 buckets with 11 elements
  are a table that is reached and does so (`MapLoad.ShrinkAndGrowAgain`).
* A handler whose stream keeps to one key, as the client's does, leaves no entry in the stream map that names it, whatever other
  threads do. A handler that registered other keys as well leaves none exactly if each of those was since registered or erased by
  another handler, in every run of the protocol (`ProtocolStreams.GoneLeavesNothingIff`). Two messages with different keys leave a
  dangling entry (`ProtocolStreams.ChangedKeyDangles`).
* Of two streams with one key the first to end erases the entry of the other, which no signal reaches any more
  (`ProtocolStreams.FirstToEndTakesTheEntry`). A kick reaches the stream of the kicked session if nobody touched its key since it
  was registered (`SessionFacts.KickedIsReached`).
* `kickOffOldUser` and a dying stream copy a record only up to the first closing brace, so they cannot write back a record with a
  `}` in its name, address or time; the new session is added all the same. A user can thus be online twice
  (`SessionTwice.TwiceOnline`). With quote-free values, which the whole session model assumes, single login holds in every
  reachable state for every user whose records have no brace in a value (`Protocol.EveryReachableStateIsSafe`), and a login leaves its session the user's only one online exactly if the one that was
  online, if any, has none (`SessionServer.Server.DealUserLogin`).
* Unknown fields survive a round trip exactly when they are configured to be preserved, or there are none (`Codec.RoundTrip`).
* The two builds of `ArenaStringPtr::Swap` show the same values after every run, in the fields and in what callers are handed, where
  null counts as the default; after swapping a set and an unset field they differ in which of the two is set
  (`StringState.BuildsShowTheSame`, `StringState.BuildsSetTheSame`). With a default that is not empty, clearing to empty tells them
  apart (`StringState.ClearToEmptyTellsBuildsApart`).
* Looking at one key is enough to find a parent symbol only because '.' sorts before every other character of a symbol name
  (`SymbolIndex.OtherCharactersHideParents`).

## Model

| member | source | states |
|---|---|---|
| Bits.MaskIsModulo | bazel_exp/include/google/protobuf/map.h:882-886 | masking with `2^k - 1`, bit by bit, is reduction modulo `2^k` |
| Bits.XorOneIsBuddy | bazel_exp/include/google/protobuf/map.h:825-831 | `b ^ 1` is the other bucket of the pair, below the same even bound, and the buddy's buddy is `b` |
| Bits.WrapKeepsLowBits | bazel_exp/include/google/protobuf/map.h:882-886 | the wrap-around of `h + seed_` in 64 bits does not change the bucket |
| Load.GrowKeepsLoad | bazel_exp/include/google/protobuf/map.h:737-741 | doubling a table that was in bounds makes room for one element more within the bound |
| Load.ShrinkKeepsLoad | bazel_exp/include/google/protobuf/map.h:742-758 | the shift the loop stops at gives a table for which the bound holds again |
| Load.GrowsAgainExactly | bazel_exp/include/google/protobuf/map.h:742-758 | after a reduction for a given number of elements the next element makes the table double iff the number is at least 4 and no cutoff `3 * 2^j` lies above the next size and up to the estimate; otherwise the table stays |
| Load.EstimateOfReduced | bazel_exp/include/google/protobuf/map.h:742-758 | the estimate lies between the cutoff of the reduced table and twice that cutoff, unless the minimum size is what limits the reduction |
| Load.ShrinkCanReachTheCutoff | bazel_exp/include/google/protobuf/map.h:742-758 | 64 buckets shrink to 16 for the twelfth element, which is their cutoff, and the thirteenth doubles them |
| MapLoad.InsertTwice | bazel_exp/include/google/protobuf/map.h:557-573 | on any valid table: if the first insertion shrinks it, the second grows it again iff the number of elements satisfies that condition |
| MapLoad.ShrinkAndGrowAgain | bazel_exp/include/google/protobuf/map.h:742-758 | from an empty table, 24 insertions, 13 erasures and two more insertions go through 64, 16 and 32 buckets |
| Load.NoOverflow | bazel_exp/include/google/protobuf/map.h:732-751 | none of the products and shifts of the load test leaves 64 bits |
| Load.ReducedBuckets | bazel_exp/include/google/protobuf/map.h:743-754 | the loop terminates; the new number of buckets is a power of two, at least 8, less than before and within the load bound, and what the next insertion does to it is as `GrowsAgain` says |
| Cells.KindOf | bazel_exp/include/google/protobuf/map.h:313-316 | comparing a slot with its buddy tells empty, list and shared tree apart exactly: two slots hold the same non-null value iff they share a tree |
| Cells.OnlyAtHome | bazel_exp/include/google/protobuf/map.h:300-325 | a node found in any slot belongs to that slot's pair, to that very slot if it is a list, and is the node the map has for its key |
| Cells.PairsApart | bazel_exp/include/google/protobuf/map.h:313-325 | different pairs of buckets have no node in common |
| Cells.WfPushChain | bazel_exp/include/google/protobuf/map.h:702-708 | a new node at the head of a list that is not too long keeps the invariant, for the map with that node |
| Cells.WfInsertShared | bazel_exp/include/google/protobuf/map.h:710-720 | a new node in a shared tree keeps the invariant, for the map with that node |
| Cells.WfTreeConvert | bazel_exp/include/google/protobuf/map.h:836-850 | replacing both lists of a pair by one sorted tree keeps the invariant for the same map |
| Cells.WfRemoveChain | bazel_exp/include/google/protobuf/map.h:600-622 | taking a node out of its list keeps the invariant, for the map without its key |
| Cells.WfRemoveShared | bazel_exp/include/google/protobuf/map.h:611-622 | taking a node out of a tree, and clearing both slots when it was the last, keeps the invariant, for the map without its key |
| Cells.SetInsertAllSorted | bazel_exp/include/google/protobuf/map.h:852-865 | inserting the nodes of a list one by one gives a strictly sorted set with exactly the old and the new nodes |
| Cells.LowerBoundFinds | bazel_exp/include/google/protobuf/map.h:652-662 | searching the sorted set finds the key at its one place exactly if it is there |
| InnerMaps.InnerMap.constructor | bazel_exp/include/google/protobuf/map.h:333-342 | a new table for a size below 8 or a power of two has that size, or 8, satisfies the invariant and stands for the empty map |
| InnerMaps.InnerMap.BucketNumber | bazel_exp/include/google/protobuf/map.h:882-886 | the bucket of a key is its hash plus the seed modulo the number of buckets, and in range |
| InnerMaps.InnerMap.FindHelper | bazel_exp/include/google/protobuf/map.h:640-664 | finds the map's node for the key, or null iff the key is absent, with the bucket (even for trees) in which it is or would go |
| InnerMaps.InnerMap.InsertUniqueInList | bazel_exp/include/google/protobuf/map.h:702-708 | links the node in as the new head; the table stands for the map with the node |
| InnerMaps.InnerMap.InsertUniqueInTree | bazel_exp/include/google/protobuf/map.h:710-720 | inserts into the tree that both slots share, with a null link; the table stands for the map with the node |
| InnerMaps.InnerMap.TableEntryIsTooLong | bazel_exp/include/google/protobuf/map.h:867-880 | answers true iff the list has at least 8 nodes, by walking it |
| InnerMaps.InnerMap.ListsAreShort | bazel_exp/include/google/protobuf/map.h:867-880 | in every valid table each list has 1 to 8 nodes |
| InnerMaps.InnerMap.LoadInNumbers | bazel_exp/include/google/protobuf/map.h:722-761 | a valid table has from 8 to 2^60 buckets, and below 2^59 at the most less than 6 elements for 5 buckets |
| InnerMaps.InnerMap.CopyListToTree | bazel_exp/include/google/protobuf/map.h:852-865 | adds exactly the nodes of the list to the tree, cuts their links, and returns their number |
| InnerMaps.InnerMap.TreeConvert | bazel_exp/include/google/protobuf/map.h:836-850 | the two slots share one tree with the nodes of both lists; every other slot and the map are unchanged |
| InnerMaps.InnerMap.InsertUnique | bazel_exp/include/google/protobuf/map.h:666-700 | inserts a node with a new key into its bucket, through conversion where needed, and keeps the first non-empty slot exact; into an empty slot or a list of fewer than 8 it goes as the head of a list that is one longer, a list of 8 and its partner become one shared tree with the nodes of both and the new one, and a tree grows by it; the other pairs stay |
| InnerMaps.InnerMap.TransferList | bazel_exp/include/google/protobuf/map.h:782-789 | moves exactly the nodes of the list into the new table although their links are overwritten on the way |
| InnerMaps.InnerMap.TransferTree | bazel_exp/include/google/protobuf/map.h:791-799 | moves exactly the nodes of the tree into the new table while iterating over the tree |
| InnerMaps.InnerMap.Resize | bazel_exp/include/google/protobuf/map.h:763-780 | the map, node by node, is the same before and after; the invariant holds for the new table |
| InnerMaps.InnerMap.ResizeIfLoadIsOutOfRange | bazel_exp/include/google/protobuf/map.h:722-761 | the number of buckets becomes what the cutoffs prescribe, one more element fits within the load bound, and the map is unchanged |
| InnerMaps.InnerMap.Insert | bazel_exp/include/google/protobuf/map.h:557-593 | inserts iff the key is absent, never overwrites, returns the node of the key |
| InnerMaps.InnerMap.At | bazel_exp/include/google/protobuf/map.h:595-598 | returns the node of the key, creating it with the default value iff the key is absent |
| InnerMaps.InnerMap.Find | bazel_exp/include/google/protobuf/map.h:554-555 | succeeds iff the key is present |
| InnerMaps.InnerMap.Revalidate | bazel_exp/include/google/protobuf/map.h:471-499 | whatever the stale bucket index was, finds the node's true slot, its place there, and whether it is in a list or a tree |
| InnerMaps.InnerMap.EraseFromLinkedList | bazel_exp/include/google/protobuf/map.h:801-808 | the recursion relinks the list to one without exactly that node |
| InnerMaps.InnerMap.Erase | bazel_exp/include/google/protobuf/map.h:600-631 | with any stale iterator: removes exactly that node, and the first non-empty slot is exact again |
| InnerMaps.InnerMap.AdvanceFirst | bazel_exp/include/google/protobuf/map.h:625-630 | after a removal the loop stops at the least non-empty slot, or at the end |
| MapOrder.OrderIsExact | bazel_exp/include/google/protobuf/map.h:414-463 | the iteration order, by one over lists and by two over trees, has every node of the map exactly once |
| MapOrder.OrderRemoved | bazel_exp/include/google/protobuf/map.h:600-631 | erasing a node takes it out of the order and leaves the order of the others |
| MapIterators.Iterator.SearchFrom | bazel_exp/include/google/protobuf/map.h:414-432 | the iterator stands at the first node from that slot on |
| MapIterators.Iterator.Advance | bazel_exp/include/google/protobuf/map.h:444-463 | `++` goes on to exactly the next node of the order, even if the bucket index is stale |
| MapIterators.VisitAll | bazel_exp/include/google/protobuf/map.h:414-463 | from `begin()` to `end()` the loop terminates and visits each node of the map once |
| MapIterators.EraseAt | bazel_exp/include/google/protobuf/map.h:1129-1134 | `erase(pos)` removes that node, returns the old successor and keeps the order of the rest |
| MapIterators.EraseRange | bazel_exp/include/google/protobuf/map.h:1135-1139 | `erase(first, last)` leaves exactly the order before `first` and from `last` on |
| MapClear.KindWhileEmptied | bazel_exp/include/google/protobuf/map.h:515-541 | slots are still told apart rightly although those before them have been set to null |
| MapClear.ClearSlots | bazel_exp/include/google/protobuf/map.h:515-541 | the loop destroys the nodes in iteration order, by one over lists and by two over trees, and leaves every slot null |
| MapClear.Clear | bazel_exp/include/google/protobuf/map.h:515-544 | every node is destroyed exactly once and the table is a valid empty one |
| MapRuns.ClearAll | bazel_exp/include/google/protobuf/map.h:1140 | `Map::clear`, which erases from `begin()` to `end()`, leaves the empty map |
| MapRuns.EraseKey | bazel_exp/include/google/protobuf/map.h:1120-1128 | erases the key if present and returns how many elements went |
| MapRuns.Perform | bazel_exp/include/google/protobuf/map.h:1042-1140 | each operation of a client, erasing through iterators it held on to included, answers and changes the contents as a finite map does; iterators whose element is still there stay good |
| MapRuns.Run | bazel_exp/include/google/protobuf/map.h:515-720 | over every run from construction on, for any hash and order, the answers are those of a finite map, also to bare `operator[]` and to erasing through iterators of any age |
| MapEntry.LastOccurrenceWins | bazel_exp/include/google/protobuf/map_entry_lite.h:186-225 | for values that do not merge: the result is the last key and the last value in the input, defaults for missing ones |
| MapEntry.EntryIff | bazel_exp/include/google/protobuf/map_entry_lite.h:186-225 | for all values, those that merge included: an entry is parsed iff the input goes through fields, each a key, a value read into the one so far, or complete and skipped, to a tag of 0 or the end of a group, and it is the one made there |
| MapEntry.EntryImpl.MergePartialFromCodedStream | bazel_exp/include/google/protobuf/map_entry_lite.h:186-225 | the loop of the entry message computes `EntrySpec`: key, value, rest of the input and whether it ended there; false iff malformed |
| MapEntry.Parser.MergePartialFromCodedStream | bazel_exp/include/google/protobuf/map_entry_lite.h:333-377 | for every input and map: on success the map is the old one with the reference's key and value; on failure it is unchanged |
| MapEntry.Parser.ReadNewValue | bazel_exp/include/google/protobuf/map_entry_lite.h:353-365 | the speculative insertion is undone on failure and completed on success |
| MapEntry.Parser.ReadBeyondKeyValuePair | bazel_exp/include/google/protobuf/map_entry_lite.h:397-420 | taking the pair out again and letting the reference go on gives what the reference gives for the whole input |
| Wire.VarintRoundTrip | bazel_exp/lib/CSLibs.pb.cc:243-251 | a varint of the section "Base 128 Varints" reads back as the number, with the rest of the input |
| Wire.TagRoundTrip | bazel_exp/lib/CSLibs.pb.cc:249-252 | a written tag reads back, and gives back its number and wire type |
| Wire.StringRoundTrip | bazel_exp/lib/CSLibs.pb.cc:257-258 | a length-delimited string reads back, with the rest of the input |
| Wire.FieldRoundTrip | bazel_exp/lib/CSLibs.pb.cc:333-340 | any unknown field in range, with groups nested to the limit, reads back as itself |
| Wire.GroupRoundTrip | bazel_exp/lib/CSLibs.pb.cc:333-340 | the fields of a group read back up to its own end tag |
| Wire.ReadValueIsOk | bazel_exp/lib/CSLibs.pb.cc:333-340 | every unknown value that was read can be written: numbers, sizes and nesting are in range |
| WireFormat.VarintReads | bazel_exp/lib/CSLibs.pb.cc:243-251 | at most ten bytes of which all but the last have their high bit set are read as their seven-bit digits, lowest first |
| WireFormat.BodyReads | bazel_exp/lib/CSLibs.pb.cc:333-340 | a complete value of kind 0, 1, 2, 3 or 5 (varint, 64 bits, delimited, group up to its end tag of kind 4, 32 bits) is read as what it means |
| WireFormat.BodyWasRead | bazel_exp/lib/CSLibs.pb.cc:333-340 | and nothing else is read |
| WireFormat.FieldIsWritten | bazel_exp/lib/CSLibs.pb.cc:405-408 | the bytes of an unknown field are the shortest complete field that means it, with the kinds in these numbers |
| Codec.StringsAppend | bazel_exp/lib/CSLibs.pb.cc:353-407 | parsing the written string fields, followed by anything, merges them and goes on with the rest |
| Codec.ParseEncoded | bazel_exp/lib/CSLibs.pb.cc:243-414 | parsing a written message, followed by anything, merges it and goes on with the rest |
| Codec.RoundTrip | bazel_exp/lib/CSLibs.pb.cc:243-414 | parsing what was written gives what was kept of the message, and the message itself iff unknown fields are preserved or there are none |
| Codec.Concatenation | bazel_exp/lib/CSLibs.pb.cc:550-577 | parsing two written messages one after the other is merging them, unknown fields in order |
| Codec.ParsedIsOk | bazel_exp/lib/CSLibs.pb.cc:243-351 | every message the parser accepts can be written |
| Codec.ReparseIsIdentity | bazel_exp/lib/CSLibs.pb.cc:243-414 | for every accepted input, writing the result and parsing it gives what was kept of it |
| CodecFormat.ParsesIff | bazel_exp/lib/CSLibs.pb.cc:243-351 | the meaning of the loop on the grammar: which inputs are accepted and what is made of them, for every input |
| CodecFormat.CutStringIsRejected | bazel_exp/lib/CSLibs.pb.cc:257-258 | after complete fields, a string of which fewer bytes are there than its length says |
| CodecFormat.InvalidTextIsRejected | bazel_exp/lib/CSLibs.pb.cc:259-262 | after complete fields, a declared string that is not valid UTF-8 |
| CodecFormat.CutFixedIsRejected | bazel_exp/lib/CSLibs.pb.cc:333-340 | after complete fields, 32 or 64 bits that are cut off |
| CodecFormat.EndlessNumberIsRejected | bazel_exp/lib/CSLibs.pb.cc:333-340 | after complete fields, a varint that does not end |
| CodecFormat.OpenGroupIsRejected | bazel_exp/lib/CSLibs.pb.cc:333-340 | after complete fields, a group that the input stops in |
| CodecFormat.BadTagIsRejected | bazel_exp/lib/CSLibs.pb.cc:333-340 | after complete fields, a tag of kind 6 or 7, an end tag, or field number 0 |
| CodecFormat.EncodeIsWritten | bazel_exp/lib/CSLibs.pb.cc:353-414 | the written bytes are the shortest complete fields that mean the message |
| CodecFormat.OneString | bazel_exp/lib/CSLibs.pb.cc:353-407 | a message with one short string is written as the byte `10 + 8 * i`, its length and its bytes |
| CodecFormat.OneLetter | bazel_exp/lib/CSLibs.pb.cc:243-414 | `[10, 1, 97]` is what "a" is written as and is read from, and `[10, 5, 97]` is rejected |
| CodedStreams.CodedInputStream.ReadTagWithCutoff | bazel_exp/lib/CSLibs.pb.cc:249-251 | the tag and whether it is from 1 to 127; whether the input ended there is recorded for tag 0 |
| CodecMessage.Message.MergePartialFromCodedStream | bazel_exp/lib/CSLibs.pb.cc:243-351 | the tag loop, which compares the low byte of the tag: true iff the input splits into complete fields whose declared strings are valid, up to where no tag but 0 can be read; each string is then the last one for its number, the other fields are appended in order, and the end is legitimate iff nothing was left |
| CodecMessage.Message.SerializeWithCachedSizes | bazel_exp/lib/CSLibs.pb.cc:353-414 | appends exactly `Encode` of the message, and that is the shortest text of complete fields that means its non-empty strings, in the order of their numbers, and the unknown fields that are preserved |
| CodecMessage.Message.SerializeToArray | bazel_exp/lib/CSLibs.pb.cc:416-484 | writes exactly the same bytes at the target, nothing else, and returns the position behind them |
| CodecMessage.Message.ByteSizeLong | bazel_exp/lib/CSLibs.pb.cc:486-533 | is the exact number of bytes that both serializers write |
| CodecMessage.Message.MergeFrom | bazel_exp/lib/CSLibs.pb.cc:550-577 | non-empty strings of the other message replace, its unknown fields are appended |
| CodecMessage.Message.CopyFrom | bazel_exp/lib/CSLibs.pb.cc:586-591 | takes over the value of the other message, or stays the same if it is this one |
| CodecMessage.Message.Clear | bazel_exp/lib/CSLibs.pb.cc:229-241 | leaves the empty message |
| Sizes.VarintSizeIsExact | bazel_exp/lib/CSLibs.pb.cc:495-500 | the size formula by the position of the highest bit is the length of the varint, for all 64-bit numbers |
| Sizes.FieldsSizeIsExact | bazel_exp/lib/CSLibs.pb.cc:490-494 | the computed size of unknown fields is the number of bytes written for them |
| Session.WritableIsOverwritten | bazel_exp/server_main/server.cc:536-553 | the text of a record is overwritten to that of the record offline iff none of its values has a closing brace, and to nothing otherwise |
| Session.StepIsSafe | bazel_exp/server_main/server.cc:366-398 | a legal step keeps safety: one online record for each user whose records are all writable, one record for each triple, every record's user has a password, the stream map names no finished handler that kept to one key; records only go from online to offline, non-empty passwords stay; that the moves of the code are such steps is `Protocol.OwnStepIsLegal` |
| Session.EveryRunIsSafe | bazel_exp/server_main/server.cc:366-398 | the same in every state of every legal run from the empty service; that the code's runs are legal is `Protocol.RunIsLegal` |
| Session.OfflineIsFinal | bazel_exp/server_main/server.cc:366-430 | an offline record stays offline, unchanged and the only one of its triple, in every continuation |
| SessionStreams.EntryIff | bazel_exp/server_main/server.cc:176-202 | an entry names a handler iff its registration was the last step to touch the key, over every run |
| SessionStreams.SignalReaches | bazel_exp/server_main/server.cc:667-679 | a signal is written to the handler that registered the key last, and to nobody if the key was erased since |
| SessionStreams.RegisteredIsReached | bazel_exp/server_main/server.cc:667-679 | a registered handler is reached as long as nobody registers or erases its key |
| SessionStreams.FirstOfTwoTakesTheEntry | bazel_exp/server_main/server.cc:198-201 | on a list of steps: of two streams with one key the first to end takes the other's entry along, and a signal then reaches nobody; the run is `ProtocolStreams.FirstToEndTakesTheEntry` |
| SessionStreams.NothingLeftIff | bazel_exp/server_main/server.cc:176-202 | in any run nothing names a handler iff every key it registered was later registered by another handler or erased |
| SessionStreams.NothingLeftIffOthersTookTheRest | bazel_exp/server_main/server.cc:176-202 | on a list of steps: a handler that erases one key at its end leaves nothing behind iff every other key it registered was since registered or erased by another handler; that the runs of the protocol have this order of steps is `ProtocolStreams.ErasedOnce` |
| SessionStreams.NoDanglingIffOneKey | bazel_exp/server_main/server.cc:176-202 | on a list of steps: a handler that nobody disturbs leaves nothing behind iff every key it registered is its last one; over runs it is `ProtocolStreams.AloneLeavesNothingIff` |
| Protocol.OwnStepIsLegal | bazel_exp/server_main/server.cc:366-398 | from what is known at its point, every move that the code can make is a legal step |
| Protocol.OthersKeepPoint | bazel_exp/server_main/server.cc:84-105 | what is known at a thread's point survives the moves of the others: of those outside the lock when it is inside, of all when it is outside |
| Protocol.MoveKeepsInv | bazel_exp/server_main/server.cc:84-105 | every move keeps the invariant: safety, what is known at each thread's point, and that exactly the holder of the lock is between taking and releasing it |
| Protocol.RunIsLegal | bazel_exp/server_main/server.cc:84-105 | every interleaving of calls, sweeps and stream handlers from the empty service is, step by step, a legal run |
| Protocol.EveryReachableStateIsSafe | bazel_exp/server_main/server.cc:366-398 | in every reachable state: single login for users whose values have no closing brace, unique triples, the live stream map, no signal to a finished stream that kept to one key, one thread at most inside the lock |
| Protocol.SingleLoginWithoutBraces | bazel_exp/server_main/server.cc:366-398 | if no record has a closing brace in a value, no user is ever online twice |
| Protocol.OthersLeaveUndisturbed | bazel_exp/server_main/server.cc:84-105 | over any run of the others a thread's point and keys stay; if it holds the lock, nothing is added and only writable records go offline |
| ProtocolStreams.ErasedOnce | bazel_exp/server_main/server.cc:176-202 | in every run of the protocol a handler that has erased its key or returned erased exactly one, at one step, erased nothing before it and registered nothing after it |
| ProtocolStreams.ErasedIsLast | bazel_exp/server_main/server.cc:189-200 | the key it erases is the last one it registered |
| ProtocolStreams.GoneLeavesNothingIff | bazel_exp/server_main/server.cc:176-202 | in every run of the protocol, nothing names a handler that has returned iff every key it registered, other than the one it erased, was since registered or erased by another handler |
| ProtocolStreams.AloneLeavesNothingIff | bazel_exp/server_main/server.cc:176-202 | in every run in which no other handler touches its keys, nothing names it afterwards iff all its keys are the same |
| ProtocolStreams.UntouchedIsNamed | bazel_exp/server_main/server.cc:189-195 | in every run, from a registration on and as long as nobody registers or erases the key, the key names that handler |
| ProtocolStreams.UntouchedIsReached | bazel_exp/server_main/server.cc:667-679 | if the key is signalled meanwhile, that handler's stream is written to after the state from which the signal is looked for |
| ProtocolStreams.ChangedKeyDangles | bazel_exp/server_main/server.cc:176-202 | for any two messages with different keys, a run of the protocol after which an entry names a handler that has returned |
| ProtocolStreams.FirstToEndTakesTheEntry | bazel_exp/server_main/server.cc:198-201 | for any message, a run of two streams that send it: when the first has ended the second still waits, and a signal reaches nobody |
| SessionTwice.TwiceOnline | bazel_exp/server_main/server.cc:519-556 | a run of the protocol, a sign-up and two logins, after which a user with a closing brace in a value is online twice |
| Replies.KickReply | bazel_exp/server_main/server.cc:519-613 | on any reply kickOffOldUser reads the first record offline and its stream's key iff that record is writable, and nothing otherwise |
| Replies.LeaveReply | bazel_exp/server_main/server.cc:681-738 | the same cut for a dying stream |
| Replies.SweepReply | bazel_exp/server_main/server.cc:929-964 | on any reply a sweep reads every record's key and its offline text, whatever its values |
| SessionFacts.KickedIsReached | bazel_exp/server_main/server.cc:608-612 | the stream of a kicked session is written to by the kick if nobody touched its key since it was registered |
| SessionServer.Server.DealUserSignUp | bazel_exp/server_main/server.cc:351-364 | 2 and nothing stored iff the stored password is there and not empty, otherwise 1 and the password is stored |
| SessionServer.Server.DealUserLogin | bazel_exp/server_main/server.cc:366-398 | 3 iff the stored password is missing, empty or not the given one, and then nothing is done; a triple that is offline gets 0 and one still online at the end 4, both without a change of the login's own; an unseen one gets 4 and is added after at most one kick, and, if at most one session of the user was online, is the only one online afterwards iff that one was writable; the handler that the kicked session's key names when it is signalled is written to |
| SessionServer.Server.DealGetUserLoginStatus | bazel_exp/server_main/server.cc:400-430 | changes nothing; 3 iff the stored password is missing, empty or not the given one; 4 only if the session is stored as online, 0 only if it is not any more |
| SessionServer.Server.DealUserLoginOut | bazel_exp/server_main/server.cc:432-451 | 3 iff the stored password is missing, empty or not the given one; otherwise at most one session is kicked, which was the user's and online, and, if at most one was online, none is afterwards iff that one was writable |
| SessionServer.Server.KickOffOldUser | bazel_exp/server_main/server.cc:519-617 | reads the reply with `ReadKick`; no session of the user stays online only if all that were could be written back, and then if there was at most one; its own steps are the offline write and the signal under the same record's key, or none; the handler that this key names at the signal is appended to those written to |
| SessionServer.Server.AddNewLoginInfo | bazel_exp/server_main/server.cc:619-640 | appends exactly this online record |
| SessionServer.Server.KickAll | bazel_exp/server_main/server.cc:929-964 | holding the lock: every session that is selected is offline afterwards, whatever its values, and exactly those that were selected and online were written and signalled, each to the handler its key named at its signal; by time: every session whose time is the given one or sorts before it is offline and none that sorts after it was written; by user: the user's and no other; without a condition: all |
| SessionServer.Server.KickEach | bazel_exp/server_main/server.cc:1155-1187 | the loop over the hits, with stream handlers between its steps |
| SessionServer.Server.KickoffUserWithoutSendSignal | bazel_exp/server_main/server.cc:681-738 | writes the session of the triple offline iff it is online and writable when searched for; a writable one that was there before is offline afterwards; no signal is sent; it is written iff the record of the triple is stored as online and has no closing brace |
| SessionServer.Server.WaitForOffLine | bazel_exp/server_main/server.cc:176-202 | outside the lock, among any moves of the others: the registrations in order, at the erase the key is absent, at return no entry names the handler if its keys were all the same, and a writable session of the last message that exists at the end of the stream is offline |
| SessionServer.Server.Others | bazel_exp/server_main/server.cc:84-105 | any run of the other threads that the protocol allows, and what is certain about the thread afterwards |
| SessionClient.WaitForOffLineSignal | bazel_exp/client_main/client.cc:155-183 | one message and then one for each reply; user, password and time never change, the mode becomes -1 with the first off-line signal for good; the last reply, or "RPC failed" if the stream ended badly |
| SessionClient.KeysOfClientStream | bazel_exp/client_main/client.cc:155-183 | any part of such messages from the first on registers the key of the request and no other |
| SessionClient.RunStream | bazel_exp/client_main/client.cc:155-183 | the client's messages keep to one key: afterwards nothing names the stream, whatever the others did, and a writable session is offline |
| SessionClient.UserLogin | bazel_exp/client_main/client.cc:27-57 | with calls that may get lost: which answers are possible when, and what they say of the server's records |
| SessionClient.UserSignUp | bazel_exp/client_main/client.cc:59-89 | an answer of 1 means that a non-empty password is now accepted, 2 that the user was signed up |
| SessionClient.Connect | bazel_exp/client_main/client.cc:288-338 | the reply loop ends after at most one login; after a sign-up a login is refused only for an empty password; logged in only if accepted and recorded |
| StringOrder.AtMostIff | bazel_exp/server_main/server.cc:904-925 | a string is at most another iff it is the same, a beginning of it, or has the smaller character where they first differ; otherwise the other sorts before it |
| StringOrder.DecimalsInOrder | bazel_exp/server_main/server.cc:904-925 | decimal times of one length sort as their numbers |
| Hits.Found | bazel_exp/server_main/server.cc:826-832 | `strstr` returns the first occurrence |
| Hits.SkipPair | bazel_exp/server_main/server.cc:852-878 | a key is not found inside another pair with quote-free parts, wherever it is looked for |
| Hits.LtimeValue | bazel_exp/server_main/server.cc:870-879 | the time of a record is read back whatever the other values and the rest are |
| Hits.SourceText | bazel_exp/server_main/server.cc:619-640 | the text of a record, character by character |
| HitList.GetAllUser | bazel_exp/server_main/server.cc:826-897 | the loop over positions terminates and computes `Docs`, with false only for the empty text |
| HitList.ParsePrinted | bazel_exp/server_main/server.cc:826-897 | on any list of printed hits with quote-free values and gaps that do not contain what is looked for, the records come back exactly, in order |
| HitList.HitText | bazel_exp/server_main/server.cc:826-897 | the text of a reply, character by character |
| HitList.HeadWithOfflineTail | bazel_exp/server_main/server.cc:946-953 | the copied source with the offline tail is the record printed with status 0 |
| HitList.OverwrittenIffBraceless | bazel_exp/server_main/server.cc:536-553 | copying to the first brace and overwriting the status gives the record printed with status 0 iff no value has a closing brace, and nothing otherwise |
| HitList.KickIffBraceless | bazel_exp/server_main/server.cc:519-613 | the user's record is found, written back and its stream's key computed iff no value has a closing brace; otherwise nobody is kicked |
| HitList.LeaveIffBraceless | bazel_exp/server_main/server.cc:681-738 | a dying stream finds its session's record and what to write back iff no value has a closing brace |
| SymbolIndex.BetweenIsSubSymbol | bazel_exp/include/google/protobuf/descriptor_database.h:229-240 | only symbols of a parent sort between it and a symbol of it |
| SymbolIndex.LookupIsExact | bazel_exp/include/google/protobuf/descriptor_database.h:197-246 | a key is the name or a parent of it iff it is the last key at most the name and passes that one test; so there is at most one |
| SymbolIndex.OtherCharactersHideParents | bazel_exp/include/google/protobuf/descriptor_database.h:258-260 | with '-' in a key the lookup misses a parent |
| SymbolIndex.DescriptorIndex.FindLastLessOrEqual | bazel_exp/include/google/protobuf/descriptor_database.h:248-251 | the position of the last key at most the name, or -1 |
| SymbolIndex.DescriptorIndex.FindSymbol | bazel_exp/include/google/protobuf/descriptor_database.h:205-209 | the value of the one key that is the name or, with a dot behind it, a beginning of it, or none if there is no such key |
| SymbolIndex.DescriptorIndex.AddSymbol | bazel_exp/include/google/protobuf/descriptor_database.h:197-203 | adds iff the name consists of letters, digits, underscores and dots and neither contains nor is contained in a key, and keeps the invariant |
| SymbolIndex.NeighboursSuffice | bazel_exp/include/google/protobuf/descriptor_database.h:197-203 | a name that is unrelated to its two neighbours is unrelated to every key |
| ArenaString.ArenaStringPtr.SetNoArena | bazel_exp/include/google/protobuf/arenastring.h:261-268 | the field has its own string with the value, a new one iff it was unset; the default is not written |
| ArenaString.ArenaStringPtr.MutableNoArena | bazel_exp/include/google/protobuf/arenastring.h:284-289 | returns the field's own string, a new copy of the default iff it was unset |
| ArenaString.ArenaStringPtr.ReleaseNoArena | bazel_exp/include/google/protobuf/arenastring.h:291-305 | hands out the string the field had, null iff it was unset, and unsets it |
| ArenaString.ArenaStringPtr.SetAllocatedNoArena | bazel_exp/include/google/protobuf/arenastring.h:308-318 | frees the string the field had, if any, and takes over the given one |
| ArenaString.ArenaStringPtr.DestroyNoArena | bazel_exp/include/google/protobuf/arenastring.h:320-324 | frees the field's string iff it is set, and frees it once |
| ArenaString.ArenaStringPtr.AssignWithDefault | bazel_exp/include/google/protobuf/arenastring.h:389-397 | the field shows the other's value and still owns its own string; it stays unset iff both were |
| ArenaString.ArenaStringPtr.SwapDebug | bazel_exp/include/google/protobuf/arenastring.h:174-192 | texts are exchanged while strings stay where they are; an unset field gets a string iff the other is set |
| ArenaString.ArenaStringPtr.SwapRelease | bazel_exp/include/google/protobuf/arenastring.h:193-196 | the strings are exchanged |
| StringFields.Strings.Perform | bazel_exp/include/google/protobuf/arenastring.h:261-397 | each operation on one of many fields keeps the ownership invariant: one owner for each string on the heap, none lost, the default not among them and unchanged; every other field is unchanged |
| StringFields.Strings.Run | bazel_exp/include/google/protobuf/arenastring.h:254-397 | the same for every run, whose visible result is that of the value-level specification |
| StringState.BuildsShowTheSame | bazel_exp/include/google/protobuf/arenastring.h:174-196 | over every run, strings that are handed out, given back or deleted included, both builds accept the same operations and show the same values in the fields and in the callers' hands; for the empty default, and for any other without ClearToEmpty |
| StringState.ClearToEmptyTellsBuildsApart | bazel_exp/include/google/protobuf/arenastring.h:174-196 | with any default that is not empty, a set, a swap and a ClearToEmpty show different values in the two builds |
| StringState.BuildsSetTheSame | bazel_exp/include/google/protobuf/arenastring.h:174-196 | after one swap the two builds agree on the whole state iff both fields were set or neither was |
| StringState.ReleaseAndGiveBack | bazel_exp/include/google/protobuf/arenastring.h:291-318 | what a release hands out, null included, leaves everything as it was when it is given back |

## Left out

* Map: memory that is freed (`DestroyNode`, `DestroyTree`, deallocation of tables) is not modelled except for the list of destroyed nodes in `MapClear.Clear`; a removed node is just no longer in the map. Arena allocation, `swap`, copying, `at` on a missing key and `equal_range` are left out.
* Map: `Seed()` with its clock reading is an arbitrary constant, hash functions and key orders are parameters, and keys are compared by value equality, with which the order agrees.
* MapRuns.Run: references into values that a client keeps across later operations are not modelled; iterators it keeps are.
* MapEntry.Parser.MergePartialFromCodedStream: the map is a finite map, which `MapRuns.Run` shows the table to be; the reading functions of key and value types are arbitrary, so enum and message handlers with their pointers are not modelled.
* MapEntry.LastOccurrenceWins: only for values that are replaced when read again; message values merge, which `EntrySpec` covers.
* Codec: the bodies of `CodedInputStream`, `CodedOutputStream`, `WireFormatLite` and `UnknownFieldSet` are not part of the repository; `Wire` follows the Protocol Buffers Encoding specification, sections "Base 128 Varints", "Length-Delimited Records" and "Groups", rejects field number 0, and limits nesting to 100. UTF-8 validity is a parameter. Total-size limits of the stream are not modelled.
* Codec: cached sizes, reflection, `InternalSwap` and arena construction are easy accessors.
* CodecMessage.Message.ByteSizeLong: the sum is unbounded, so its 32-bit cached copy is not modelled.
* Session: every database call succeeds, is atomic and immediately visible, a search finds exactly the matching records and is not cut off after ten hits, and the first hit may be any of them. Values contain no double quotes, apostrophes or backslashes, which would change the shell commands and JSON texts that the service puts together from them, and fit the fixed 64-byte buffers; the type `Text` states the part about double quotes. Passwords are stored as text instead of Base64 and DES.
* Session: the key of a stream is the concatenation of user, address and time without separators, as in the code; distinct triples may have the same key, and nothing is claimed to the contrary. Each operation on the stream map, and finding a stream and writing to it, is one step: races inside the map are left out.
* Session: `deal` and `dealPostString`, which no call reaches and which add a record without a kick, are not steps.
* Session.StepIsSafe: ranges over guarded steps; `Protocol.OwnStepIsLegal` shows that the moves of the code are such steps.
* Session.EveryRunIsSafe: ranges over runs of guarded steps; `Protocol.RunIsLegal` and `Protocol.EveryReachableStateIsSafe` are about the runs of the code.
* SessionStreams.FirstOfTwoTakesTheEntry: a list of steps; the run of two streams is `ProtocolStreams.FirstToEndTakesTheEntry`.
* SessionStreams.NothingLeftIffOthersTookTheRest: the order of the handler's steps is a hypothesis; for the runs of the protocol it is proved and discharged in `ProtocolStreams.GoneLeavesNothingIff`.
* SessionStreams.NoDanglingIffOneKey: one handler from the empty service; any run is `ProtocolStreams.AloneLeavesNothingIff`.
* SessionServer.Server.KickAll: the configuration of the background thread, listing and printing are left out; for one user, the wildcard search and the comparison that follows it (server.cc:1123-1127) are one selection.
* SessionServer.Server.DealUserLogin: the exact condition is stated for at most one session online before; with more, at most one of them is kicked, as the code does.
* Protocol.EveryReachableStateIsSafe: safety only; a call that never gets the lock is not answered, and fairness is not modelled.
* SessionClient.WaitForOffLineSignal: what the library does with a message written after `WritesDone` is not modelled; such messages count as written.
* HitList: embedded zero characters, at which C strings end, are assumed away. The layout of a reply outside its records is the database's: a hit prints its id, anything that does not contain the start of a record, and the record.
* SymbolIndex.DescriptorIndex.AddSymbol: its body is not part of the repository; the model is the test of the two neighbours that keeps the invariant stated in the header. Files and extensions, which use plain maps, are left out.
* ArenaString: the variants that allocate on an arena and the raw-pointer accessors are left out; all fields share one default.
* TLS, gRPC stubs, option parsing, console printing and `createESIndex` are input and output.
