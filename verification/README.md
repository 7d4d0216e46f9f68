# A verified model of the Sol MQTT broker

Sol is a small MQTT 3.1.1 broker written in C. This project models its four working parts in Dafny and
proves what they promise, and where the code promises less than it seems to, exactly when it holds:

- the **topic trie** over sorted child lists (`trie.c`, `list.c`): `Lists.dfy`, `LinkedLists.dfy`,
  `TrieSpec.dfy`, `Trie.dfy`;
- the **open-addressing hashtable** (`hashtable.c`): `HashSpec.dfy`, `HashTable.dfy`;
- the **wire codec** (`mqtt.c`, `pack.c`): `Wire.dfy` (formats and what a reader gets back), `Codec.dfy` (the cursors);
- the **broker** (`server.c`, `core.c`, `util.c`): `BrokerSpec.dfy`, `Packets.dfy`, `Wildcards.dfy`, `Strings.dfy`,
  `Broker.dfy` for SUBSCRIBE and PUBLISH, `Connections.dfy` for the connection counters;
- memory sizes in the configuration (`config.c`): `Config.dfy`.

`Bytes.dfy` holds the shared vocabulary, and `Examples.dfy` fixes packets, names and sizes in their concrete bytes.

Each part has the same shape. Code that updates state in place is a class whose methods carry the loops and the
recursion of the source; their contracts tie the new state to a specification function of the old one. What the
source promises is then proved about the specification, over every input and every run. Each specification function
is also tied to the outside: to the byte layouts of MQTT Version 3.1.1, or to bytes and numbers written out. `dafny
verify dfyconfig.toml` checks the whole project.

The main results:

- **Trie.** Over a run of insertions, deletions and prefix deletions the trie stores what a plain finite map would, if
  and only if none of them deletes the empty key while it is stored (`TrieSpec.RunRefinesMapIff`). Two histories of
  insertions and deletions that leave the same map leave the same trie, node for node (`TrieSpec.HistoriesConverge`
  with `Tries.NodesDetermineLists`). Inserting and deleting a fresh key restores the trie exactly when its path met no
  dead end (`TrieSpec.InsertDeleteRestores`). The prefix map visits every node below the prefix once, in the one
  possible post-order.
- **Hashtable.** Over any run each key sits in one slot of its eight-slot window, with the table at most half full, if
  and only if no put falls into a gap before its own key (`HashSpec.RunKeepsInvIff`); the table is then a finite map
  for as long as no put fails. Puts of absent keys never fall into such a gap, whatever was deleted; one that does
  hides the old entry, which the next deletion brings back. Growth keeps the contents through any nesting; it ends
  when the hashes of the keys then stored differ modulo some size the allocator can supply, and a ninth key of one
  hash never fits.
- **Codec.** Remaining Length, PUBLISH, CONNECT, UNSUBSCRIBE and the acknowledgements round-trip, with the cursor at
  the end of the frame, although the payload length is computed in 16 bits. CONNECT does so if and only if its
  Remaining Length takes one byte, SUBSCRIBE if and only if it holds no filter. Allocated size, bytes written and length
  sent agree exactly when topic and payload hold no zero byte.
- **Broker.** In every reachable state, wildcards included, everything sent so far is what the history of events calls
  for (`BrokerSpec.EndToEnd`, `Brokers.Broker.SentIsDue`). Without wildcards that is, for each PUBLISH, one frame per
  earlier subscription to its slash-normalised name, newest first, each decoding to the published topic and payload
  with that subscriber's QoS. A wildcard adds its subscriber to a stored topic as often as the unbroken run of stored
  topics that ends there is long. The filters of one SUBSCRIBE act as in packets of their own if and only if no plain
  filter behind a wildcard names a topic stored when its turn comes (`Packets.FiltersIndependentIff`). The reply to a
  PUBLISH follows the publisher's QoS although the fan-out loop leaves another one in the packet.
- **Connections.** Over any proper run the client counter is the number of entries in the closure table as long as no
  put has failed; accepting a client keeps it so if and only if its put succeeds.

## Modelling decisions

- A byte is a number below 256; characters are compared as signed `char`s. A C string is its bytes before the NUL.
- A trie node is named by the string that leads to it. The class holds the children list and the data of every node
  in two maps that its methods update. A released node stays as an empty leaf until its parent unlinks it.
- The content of a linked list is the sequence of its elements, and the trie stores that. Sorting, ordered insertion and
  removal are proved on chains of heap cells that they relink in place; the trie lays a children list out as cells
  to run them and reads it back.
- The hash of a key before reduction is a fixed function. Keys are compared as the source does, by case-insensitive
  prefix; results assume a family of keys in which none passes for another, such as printed UUIDs. `calloc` fails
  exactly above a given number of slots, so that every put ends; a run goes on with the table a failed put leaves.
- Sending appends to a trace. A frame with zero bytes in its topic or payload ends in uninitialised memory, so the
  trace says of each frame its length and how it begins, which without zero bytes is the whole frame. Packet framing,
  sockets and the event loop are outside the model; handlers are steps.
- Unsigned 16-bit arithmetic is written out. The Remaining Length multiplier is proved to fit a 32-bit `int`.

Where the code and its comments disagree, the model follows the code, and a lemma says exactly when they agree:

- `nconnections` is documented as the total number of connections since the start, but goes down with every dropped
  client (`Connections.Server.ConnectionsTotalIff`);
- prefix deletion is documented to remove all matching keys, but never removes the empty key
  (`TrieSpec.PrefixDeleteIsMapRemoval`);
- the printer of memory sizes is documented to reserve room for the unit, but cuts it when the number is zero
  (`Config.UnitPrintedIff`);
- a SUBSCRIBE is documented to spread the filters that end with `/#`, but spreads those behind them as well when their
  topics are stored (`Packets.FiltersIndependentIff`, `Packets.PlainFilterLeaks`).

## Model

| member | source | states |
|---|---|---|
| `LinkedLists.Bisect` | sol/src/list.c:196-208 | a chain of two or more cells is cut in place, in the middle, so the sort terminates; a shorter one stays as it is |
| `LinkedLists.Merge` | sol/src/trie.c:7-23 | two chains of distinct cells become one, in place, which links exactly their cells in merge order |
| `LinkedLists.MergeBehind` | sol/src/trie.c:9-22 | the relinking loop: behind the dummy head hang the merged cells, ties from the first list, and nothing else |
| `LinkedLists.SortCells` | sol/src/trie.c:25-32 | merge sort relinks the very same cells into the order that insertion sort gives them, and touches no other cell |
| `LinkedLists.MergeSort` | sol/src/trie.c:25-32 | on the contents of a list, merge sort computes exactly what insertion sort computes |
| `Lists.MergeOfSorts` | sol/src/trie.c:25-32 | merging two sorted halves sorts their concatenation |
| `Lists.InsertionSortStable` | sol/src/trie.c:25-32 | the result is a sorted permutation that keeps the order of equal elements |
| `Lists.StableSortUnique` | sol/src/trie.c:25-32 | there is only one sorted list with the same elements, per key in the same order |
| `LinkedLists.SortInsertCell` | sol/src/list.c:176-190 | ordered insertion in place: the new cell is linked in before the first that is not smaller |
| `LinkedLists.LinkBehind` | sol/src/list.c:186-187 | the two assignments that link the cell in keep the whole chain and add just that cell |
| `Lists.PushThenSort` | sol/src/trie.c:149-150 | pushing in front of a sorted list and sorting is ordered insertion |
| `Lists.PushThenSortStrict` | sol/src/trie.c:147-151 | adding a new character keeps the children strictly sorted and adds nothing else |
| `Lists.LinearSearch` | sol/src/trie.c:37-47 | the early exit misses no element of a strictly sorted list |
| `LinkedLists.RemoveCell` | sol/src/list.c:128-144 | the recursive removal leaves every cell but the first match linked, in order, and counts what it removed |
| `LinkedLists.RemoveFirst` | sol/src/list.c:120-144 | on the contents of a list, removal takes out the first match and `len` stays the number of elements |
| `Lists.WithoutAscending` | sol/src/list.c:120-144 | on sorted distinct children, removal by character keeps the order and every other child |
| `Lists.WithoutFirstIs` | sol/src/list.c:128-144 | removal takes the first match only: what stands before and behind it stays |
| `Bytes.SignedOrder` | sol/src/trie.c:13-16 | ASCII characters compare by their codes, and bytes from 128 on come before them |
| `Tries.NodesDetermineLists` | sol/src/trie.c:144-156 | the set of nodes determines every children list, so equal states are equal structures |
| `Tries.Trie.constructor` | sol/src/trie.c:97-106 | a new trie has a root and stores nothing |
| `Tries.Trie.HasChild` | sol/src/trie.c:37-47 | a child is found exactly when its node exists |
| `Tries.Trie.EnsureChild` | sol/src/trie.c:144-155 | one step of insertion adds at most the one missing child, sorted in |
| `Tries.Trie.GrowTo` | sol/src/trie.c:120-156 | the walk creates exactly the missing nodes on the way to the key |
| `Tries.Trie.SetData` | sol/src/trie.c:158-166 | storing data counts the node only when it had none |
| `Tries.Trie.Insert` | sol/src/trie.c:120-167 | insertion is a map update and adds the way to the key; the size is the number of stored keys |
| `Tries.Trie.FindNode` | sol/src/trie.c:67-83 | the walk ends at a node exactly when the path exists |
| `Tries.Trie.Find` | sol/src/trie.c:226-258 | lookup answers as the map does |
| `Tries.Trie.DeleteHere` | sol/src/trie.c:178-197 | at the end of the key the data goes, and the node is free exactly when nothing lies below it |
| `Tries.Trie.PruneChild` | sol/src/trie.c:205-217 | after the child is dropped its parent is free exactly when nothing but the key lived below it |
| `Tries.Trie.DeleteFrom` | sol/src/trie.c:173-220 | recursive deletion removes the key and exactly the nodes that only led to it |
| `Tries.Trie.Delete` | sol/src/trie.c:247-253 | deletion as specified, reporting whether the key was stored; the empty key is ignored |
| `Tries.Trie.NodeFree` | sol/src/trie.c:335-363 | releasing a subtree removes all of it and nothing else, and the size follows |
| `Tries.Trie.FreeChildren` | sol/src/trie.c:283-288 | the children's subtrees are emptied in list order while the list itself stays |
| `Tries.Trie.ClearList` | sol/src/list.c:60-78 | the loop over the list releases every child and leaves the rest of the trie alone |
| `Tries.Trie.ReleaseHead` | sol/src/list.c:67-74 | one round: the first cell and the childless node in it go |
| `Tries.Trie.PrefixDelete` | sol/src/trie.c:268-294 | prefix deletion as specified, through its three paths |
| `Tries.Trie.PrefixMap` | sol/src/trie.c:315-332 | the mapped function is applied to every node below the prefix once, children before parents, in character order |
| `Tries.Trie.MapFrom` | sol/src/trie.c:298-308 | the same for the recursion from a node |
| `TrieSpec.ParentGoesToo` | sol/src/trie.c:215-217 | when deletion climbs one node further |
| `TrieSpec.DeleteIsMapRemoval` | sol/src/trie.c:247-253 | deletion is map removal exactly when the key is not the empty key of a stored entry |
| `TrieSpec.PrefixDeleteIsMapRemoval` | sol/src/trie.c:268-294 | prefix deletion removes exactly the keys with that prefix, unless the prefix is empty and the empty key stored |
| `TrieSpec.DeleteWithChild` | sol/src/trie.c:290-293 | deleting the prefix key while its list is still full prunes nothing |
| `TrieSpec.RunRefinesMap` | sol/src/trie.c:120-294 | after any run of the three operations that never deletes the stored empty key, the trie stores what a plain map would |
| `TrieSpec.RunRefinesMapIff` | sol/src/trie.c:120-294 | the condition is exact: agreement all along the run if and only if the run meets it |
| `TrieSpec.StepIsMapStep` | sol/src/trie.c:120-294 | one operation agrees with the map exactly unless it deletes the stored empty key |
| `TrieSpec.InsertNodes` | sol/src/trie.c:120-156 | insertion adds exactly the nodes on the way to the key |
| `TrieSpec.DeleteNodes` | sol/src/trie.c:173-220 | deletion takes a node away if and only if it is not the root, lies on the way to the key, and nothing at or below it leads elsewhere or holds other data |
| `TrieSpec.PrefixDeleteNodes` | sol/src/trie.c:268-294 | prefix deletion takes away exactly the nodes below the prefix, or deletes the prefix as a key when it has no children |
| `TrieSpec.InsertCanonical` | sol/src/trie.c:120-167 | insertion keeps every node on the way to a stored key |
| `TrieSpec.DeleteCanonical` | sol/src/trie.c:173-220 | deletion leaves no dead ends |
| `TrieSpec.CanonicalUnique` | sol/src/trie.c:173-220 | a canonical trie is determined by what it stores |
| `TrieSpec.HistoriesConverge` | sol/src/trie.c:120-220 | two histories of insertions and deletions with the same final map give the same trie |
| `TrieSpec.InsertDeleteRestores` | sol/src/trie.c:120-220 | inserting and deleting a fresh key restores the trie if and only if its path met no dead end |
| `TrieSpec.CanonicalHasNoDeadEnd` | sol/src/trie.c:120-220 | so it always does in a canonical trie |
| `TrieSpec.PrefixDeleteCanonical` | sol/src/trie.c:278-293 | prefix deletion keeps the canonical shape exactly when no inner node was emptied |
| `TrieSpec.Corners` | sol/src/trie.c:247-294 | concrete inputs: the empty key that stays, and the dead end left by a prefix deletion |
| `TrieSpec.PostOrderUnique` | sol/src/trie.c:298-308 | the visited set determines the order of visits |
| `TrieSpec.PostBeforeIff` | sol/src/trie.c:298-308 | a path is visited before those above it and those that branch off to a later character, and before no others |
| `HashSpec.EqualLengthLowerCaseDistinct` | sol/src/hashtable.c:63 | lower-case keys of one length never pass for one another |
| `HashSpec.UuidsDistinct` | sol/src/util.c:96-104 | strings of the form in which UUIDs are printed are such a family |
| `HashSpec.LocateCorrect` | sol/src/hashtable.c:177-193 | a stored key is located at its slot in spite of gaps; an absent key is not located |
| `HashSpec.GetIsLookup` | sol/src/hashtable.c:177-193 | lookup answers as the map does |
| `HashSpec.PutSlotIff` | sol/src/hashtable.c:46-68 | for any keys at all, a put takes a slot if and only if the table is less than half full and it is the first of the eight from the hash on that is free or holds a key that begins the new one |
| `HashSpec.GetFindsIff` | sol/src/hashtable.c:177-223 | a lookup reads, and a deletion frees, the first of the eight whose key begins with the one asked for, and otherwise neither does anything |
| `HashSpec.PosIs` | sol/src/hashtable.c:65 | the slots probed follow one another modulo the table size |
| `HashSpec.ShorterKeyPasses` | sol/src/hashtable.c:63-185 | concrete keys `a` and `ab` of one hash: a put of `ab` overwrites `a`, a put of `a` leaves `ab`, and `a` finds and deletes `ab` |
| `HashSpec.ThirdEntryGrows` | sol/src/hashtable.c:73-104 | concrete table: the third entry of four slots moves everything to eight |
| `HashSpec.GrowthKeepsOrder` | sol/src/hashtable.c:88-99 | concrete table: keys of one hash keep their order when it grows |
| `Bytes.SameLetterIff` | sol/src/util.h:32 | bytes match without case when equal or the two cases of a letter A to Z |
| `HashSpec.DelIsRemoval` | sol/src/hashtable.c:198-223 | deletion is map removal and keeps the invariant |
| `HashSpec.StoreCorrect` | sol/src/hashtable.c:162-171 | a put that finds a slot and no gap in front of the key is a map update |
| `HashSpec.PutCorrect` | sol/src/hashtable.c:152-172 | so is any successful put, through every nesting of growth; a failed one keeps the invariant and adds or changes nothing |
| `HashSpec.ReinsertCorrect` | sol/src/hashtable.c:73-104 | growing keeps exactly the same contents even when reinsertion grows the table again; a failed reinsertion adds nothing |
| `HashSpec.ReinsertNeverHalfFull` | sol/src/hashtable.c:48-50 | nested growth never comes from the load test, only from a full window |
| `HashSpec.PutKeepsInvIff` | sol/src/hashtable.c:56-66 | a put keeps the invariant if and only if it does not fall into a gap before the key's own slot |
| `HashSpec.PutIntoGapDuplicates` | sol/src/hashtable.c:56-66 | concrete run: a put after a deletion stores its key twice |
| `HashSpec.PutIntoGapThenDelete` | sol/src/hashtable.c:152-223 | after a put into a gap lookups see the new value, and deleting the key brings the old table back, old value included |
| `HashSpec.CompactLands` | sol/src/hashtable.c:56-66 | while nothing has been deleted no put falls into a gap |
| `HashSpec.PutSucceeds` | sol/src/hashtable.c:152-172 | a put ends well when the hashes differ modulo some doubled size that can be allocated |
| `HashSpec.AtMostEightPerHash` | sol/src/hashtable.c:57-66 | a window holds at most eight keys of one hash |
| `HashSpec.NinthCollisionFails` | sol/src/hashtable.c:152-172 | the ninth key of one hash is refused whatever the table may grow to |
| `HashSpec.RunRefinesMap` | sol/src/hashtable.c:152-223 | over any run whose puts all land the table equals a finite map, at most half full; after a failed put it may lack keys but never gains one |
| `HashSpec.RunKeepsInvIff` | sol/src/hashtable.c:152-223 | the condition is exact: the invariant holds all along a run if and only if every put lands |
| `HashSpec.AdmissibleLands` | sol/src/hashtable.c:152-223 | puts of absent keys land whatever was deleted, and all puts land as long as nothing was |
| `HashSpec.RunSucceeds` | sol/src/hashtable.c:73-172 | no put fails when at each put the hashes of the keys then stored differ modulo a size that can be allocated, however many keys have come and gone |
| `HashTables.HashTable.constructor` | sol/src/hashtable.c:126-139 | a new table has four free slots |
| `HashTables.HashTable.FindIndex` | sol/src/hashtable.c:46-68 | the probing loop finds the slot of the specification, or reports a full table |
| `HashTables.HashTable.FindEntry` | sol/src/hashtable.c:177-193 | the lookup loop finds the slot of the specification |
| `HashTables.HashTable.Get` | sol/src/hashtable.c:177-193 | the value at that slot |
| `HashTables.HashTable.Del` | sol/src/hashtable.c:198-223 | the slot is freed, the size follows, and the status tells whether the key was there |
| `HashTables.HashTable.Put` | sol/src/hashtable.c:152-172 | the put of the specification, growing as long as no slot is found |
| `HashTables.HashTable.Rehash` | sol/src/hashtable.c:73-104 | doubling and reinsertion as specified; without memory the table is left alone |
| `Wire.LengthRoundTrip` | sol/src/mqtt.c:25-56 | decoding inverts encoding if and only if the length fits the budget of bytes; otherwise the field does not end within it |
| `Wire.LengthSize` | sol/src/mqtt.c:414-420 | the byte count follows the thresholds 0x80, 0x4000 and 0x200000 |
| `Wire.LengthMinimal` | sol/src/mqtt.c:25-39 | no other encoding of a value is shorter, and one of the same length is the same |
| `Wire.LengthPrefixFree` | sol/src/mqtt.c:25-39 | no encoding begins another one |
| `Wire.LengthDigits` | sol/src/mqtt.c:43-56 | the value of a field of one to four bytes: seven bits each, least significant first |
| `Wire.LengthTable` | sol/src/mqtt.c:25-39 | the bounds of each size in their bytes, as section 2.2.3 of MQTT Version 3.1.1 lists them |
| `Wire.U16Bytes` | sol/src/pack.c:53-57 | the high byte comes first |
| `Wire.StringBytes` | sol/src/pack.c:36-41 | a string is its length in two bytes, then its bytes |
| `Wire.HeaderParts` | sol/src/mqtt.h:52-60 | the header byte is type, DUP, QoS and RETAIN in four, one, two and one bits |
| `Wire.MessageLengthWraps` | sol/src/mqtt.c:99-109 | the 16-bit message length is right although the Remaining Length may not fit it |
| `Wire.PublishRoundTrip` | sol/src/mqtt.c:94-113 | unpacking a packed PUBLISH recovers it and stops at the end of the frame |
| `Wire.PublishBodyLayout` | sol/src/mqtt.c:428-436 | topic with its length, packet id exactly when there is a QoS, payload |
| `Wire.PublishLayout` | sol/src/mqtt.c:421-437 | the frame is the header and the body behind its own length |
| `Wire.AckRoundTrip` | sol/src/mqtt.c:197-203 | acknowledgements recover header and packet id |
| `Wire.AckBytes` | sol/src/mqtt.c:372-381 | an acknowledgement is one packet of two bytes by its own length field, and they are the packet id |
| `Wire.ConnackBytes` | sol/src/mqtt.c:384-393 | a CONNACK is 0x20, length two, session flags and return code |
| `Wire.SubackRoundTrip` | sol/src/mqtt.c:395-407 | a SUBACK is one packet by its own length field; the packet id comes back first, then the codes |
| `Wire.SubackFitsIff` | sol/src/mqtt.c:395-407 | the SUBACK buffer is large enough exactly for up to 125 return codes |
| `Wire.FiltersRoundTrip` | sol/src/mqtt.c:179-190 | the counter of the UNSUBSCRIBE loop reaches zero at the payload end, with the filters in order |
| `Wire.UnsubscribeRoundTrip` | sol/src/mqtt.c:167-195 | UNSUBSCRIBE is recovered, the count exactly for fewer than 65536 filters |
| `Wire.SubscribeCounterLeftOver` | sol/src/mqtt.c:134-146 | the SUBSCRIBE loop, run by its own counter, reads the payload and goes on behind it with the number of filters left to count |
| `Wire.SubscribeDecodesIff` | sol/src/mqtt.c:134-146 | so a payload is decoded, to its end and no further, if and only if it holds no filter |
| `Wire.SubscribeFrameDecodesIff` | sol/src/mqtt.c:120-153 | the same for the whole SUBSCRIBE packet; one that ends the buffer is overrun |
| `Wire.ConnectRoundTrip` | sol/src/mqtt.c:61-91 | with a one-byte length CONNECT is recovered for every combination of optional fields |
| `Wire.FlagBits` | sol/src/mqtt.h:66-73 | user name in bit 7, password in bit 6, will in bit 2 of the flags |
| `Wire.ShortConnect` | sol/src/mqtt.c:61-91 | header, one byte of length and the body decode to the packet |
| `Wire.ConnectDecodesIff` | sol/src/mqtt.c:61-91 | CONNECT comes back with the cursor at its end if and only if the Remaining Length takes one byte; otherwise the flags are read from the protocol prefix, and the fields come back exactly when the packet repeats the bytes found there |
| `Wire.ConnectReads` | sol/src/mqtt.c:66-88 | the decoder returns a packet exactly when the bytes from the tenth on are its flags and its fields |
| `Wire.ConnectPayloadRead` | sol/src/mqtt.c:72-88 | what the decoder returns, written out again, is what it read |
| `Wire.LongConnectFails` | sol/src/mqtt.c:64-69 | concrete CONNECT of 130 bytes that sends the decoder past the end of the packet |
| `Wire.PacketRoundTrip` | sol/src/mqtt.c:242-253 | every packet that its decoder recovers survives the wire through the dispatch on its type |
| `Wire.DispatchByFirstByte` | sol/src/mqtt.c:213-253 | which decoder runs goes by the upper half of the first byte |
| `Codec.Reader.U8` | sol/src/pack.c:8-12 | reads one byte and moves the cursor |
| `Codec.Reader.TakeU16` | sol/src/pack.c:14-19 | reads a big-endian number and moves the cursor past it |
| `Codec.Reader.TakeBytes` | sol/src/pack.c:28-33 | reads the given number of bytes |
| `Codec.Reader.TakeString` | sol/src/pack.c:36-41 | reads a string with its length in front |
| `Codec.Reader.TakeLength` | sol/src/mqtt.c:43-56 | the accumulating loop decodes the Remaining Length without leaving a 32-bit int |
| `Codec.Accumulate` | sol/src/mqtt.c:47-54 | one digit of the loop: products below 2^31, value below the next power |
| `Codec.MultiplierFitsIff` | sol/src/mqtt.c:45-53 | the multiplier fits a 32-bit `int` exactly for fields of up to four bytes |
| `Codec.UnpackPublish` | sol/src/mqtt.c:94-113 | the PUBLISH reader with its 16-bit subtractions |
| `Codec.UnpackAck` | sol/src/mqtt.c:197-203 | the acknowledgement reader |
| `Codec.UnpackUnsubscribe` | sol/src/mqtt.c:167-195 | the UNSUBSCRIBE reader |
| `Codec.UnpackFilters` | sol/src/mqtt.c:180-190 | its payload loop |
| `Codec.UnpackSubscribe` | sol/src/mqtt.c:120-153 | the SUBSCRIBE reader |
| `Codec.UnpackTuples` | sol/src/mqtt.c:134-146 | its payload loop, run by the unsigned counter |
| `Codec.UnpackTuple` | sol/src/mqtt.c:136-145 | one round: the counter is charged for the filter, not for the QoS byte |
| `Codec.UnpackConnect` | sol/src/mqtt.c:61-72 | the CONNECT reader with its fixed skip |
| `Codec.UnpackConnectPayload` | sol/src/mqtt.c:72-88 | the optional fields in the order of the flags |
| `Codec.UnpackPacket` | sol/src/mqtt.c:242-253 | dispatch on the packet type |
| `Codec.Writer.PackU8` | sol/src/pack.c:46-49 | writes one byte |
| `Codec.Writer.PackU16` | sol/src/pack.c:53-57 | writes a big-endian number |
| `Codec.Writer.PackBytes` | sol/src/pack.c:65-69 | copies a string up to its NUL |
| `Codec.Writer.PackLength` | sol/src/mqtt.c:25-39 | the encoding loop with its cap of four bytes |
| `Codec.AllocatedLength` | sol/src/mqtt.c:410-421 | the size computed from the thresholds is that of header, length field and body |
| `Codec.FilledIffZeroFree` | sol/src/mqtt.c:424-437 | the packer fills its buffer, and with the frame, if and only if topic and payload hold no zero byte |
| `Codec.PackPublish` | sol/src/mqtt.c:409-438 | allocated size, bytes written and, without zero bytes, the exact frame |
| `Codec.PackAck` | sol/src/mqtt.c:372-381 | the four bytes of an acknowledgement |
| `Codec.PackConnack` | sol/src/mqtt.c:384-393 | the four bytes of a CONNACK |
| `Codec.PackSuback` | sol/src/mqtt.c:395-407 | the SUBACK frame |
| `Strings.RemoveOccur` | sol/src/util.c:76-85 | the in-place compaction removes every occurrence of the character and nothing else |
| `Strings.WithoutParts` | sol/src/util.c:76-85 | what is left of a string is what is left of its parts |
| `Strings.AppendString` | sol/src/util.c:87-94 | concatenation in a fresh buffer |
| `BrokerSpec.SameTopicIff` | sol/src/server.c:630-637 | two names mean the same topic exactly when they differ by at most one final slash |
| `BrokerSpec.PublishKeyBytes` | sol/src/server.c:634-637 | a name is looked up as it is or with one slash behind it |
| `BrokerSpec.WildcardIff` | sol/src/server.c:556-557 | the wildcards are the filters that end with the bytes of `/#` and no others |
| `BrokerSpec.SubscribeKeyBytes` | sol/src/server.c:556-563 | a plain filter is named like a topic, a wildcard by what stands before its hash |
| `BrokerSpec.PublishStoresTopic` | sol/src/server.c:643-647 | a PUBLISH stores its name and adds nobody to a list |
| `BrokerSpec.WildcardName` | sol/src/server.c:556-559 | the wildcard below a name subscribes to that name |
| `BrokerSpec.WildcardStaysInside` | sol/src/server.c:574-575 | a wildcard touches no topic outside its prefix |
| `BrokerSpec.WildcardOnceIff` | sol/src/server.c:524-533 | it reaches a stored topic exactly once unless the topic one character shorter is stored too |
| `BrokerSpec.WildcardSubscribesItsTopicTwice` | sol/src/server.c:570-579 | a wildcard whose topic is stored subscribes to that topic twice |
| `BrokerSpec.ReplyDecodes` | sol/src/server.c:694-721 | QoS 1 stages a PUBACK, QoS 2 a PUBREC, each exactly one packet by its own length field, with the publisher's packet id; other levels nothing |
| `BrokerSpec.LeftHeader` | sol/src/server.c:661-662 | after the loop the packet carries the last subscriber's QoS |
| `BrokerSpec.SavedQoSNeededIff` | sol/src/server.c:628 | replying by that header instead of the saved QoS is right exactly without subscribers, with equal levels or with no reply due |
| `BrokerSpec.FrameDecodes` | sol/src/server.c:655-673 | a frame decodes to the published packet with the subscriber's QoS |
| `BrokerSpec.FanOutDecodes` | sol/src/server.c:654-691 | packet by packet, to the subscribers' sockets in list order, with frames that decode |
| `BrokerSpec.RunRecordsSubscriptions` | sol/src/core.c:21-34 | over any run, wildcards included, subscriber lists are those that the history tells, newest first |
| `BrokerSpec.StepAdds` | sol/src/server.c:564-579 | what one event adds to the list of any name, given the names stored |
| `BrokerSpec.RunStoresNames` | sol/src/server.c:567-569 | the names stored are those at the start and those of the events |
| `BrokerSpec.RecordedWithoutWildcards` | sol/src/core.c:21-34 | without wildcards a list holds exactly the earlier subscriptions to its name |
| `BrokerSpec.EndToEnd` | sol/src/server.c:535-691 | over any run, the packets due to each socket are those the history calls for, in order |
| `BrokerSpec.DueWithoutWildcards` | sol/src/server.c:535-691 | without wildcards these are one per earlier subscription to the name of each PUBLISH |
| `BrokerSpec.OnlyAskedFor` | sol/src/server.c:535-579 | over any run, whoever is on a list subscribed to the name, or to one above it that spread |
| `Packets.FiltersIndependentIff` | sol/src/server.c:537-579 | the topics after a packet are those after its filters in packets of their own if and only if no plain filter behind a wildcard names a topic stored when its turn comes; otherwise some list is longer and none shorter |
| `Packets.SpreadAddsMore` | sol/src/server.c:567-576 | the leaked flag changes what a filter does exactly when its topic is stored |
| `Packets.PlainFilterLeaks` | sol/src/server.c:537-579 | concrete packet: `a/#` and `b` subscribe to `b/c/` as well |
| `Packets.PlainPacketAdds` | sol/src/server.c:545-579 | a packet in which no filter ends with the bytes of `/#` adds its subscribers, newest first, to the lists of its own names and to no others |
| `Packets.PlainRunAdds` | sol/src/server.c:545-579 | the same over any run without wildcards and any topics |
| `Packets.PacketEventAt` | sol/src/server.c:537-563 | a filter spreads exactly when it or one before it in the packet is a wildcard |
| `BrokerSpec.NobodyForgotten` | sol/src/core.c:21-34 | subscribers are never lost |
| `BrokerSpec.WildcardReachesForGood` | sol/src/server.c:564-576 | a filter that spreads and whose topic is stored reaches, for good, every topic stored below it |
| `Wildcards.RecursiveSubscription` | sol/src/server.c:524-533 | one call pushes once to every topic chained to the node through stored topics |
| `Wildcards.PushersAreCopies` | sol/src/server.c:570-576 | over the subtree the pushes to a topic number the unbroken run of topics that ends at it |
| `Wildcards.SubscribeBelow` | sol/src/server.c:570-576 | the whole wildcard map step |
| `Brokers.PublishName` | sol/src/server.c:630-637 | the name under which a PUBLISH is looked up |
| `BrokerSpec.PublishKey` | sol/src/server.c:630-637 | it ends with a slash, except when a zero byte cuts off the slash that the packet ends with |
| `Brokers.FilterName` | sol/src/server.c:555-563 | the name of a filter, and whether it is a wildcard |
| `Brokers.SendAll` | sol/src/server.c:652-691 | one frame per subscriber, made from the packet with that subscriber's QoS although the loop keeps overwriting the packet; the packet is left with the last one |
| `Brokers.SendOne` | sol/src/server.c:655-673 | the length sent is the length of the frame, which begins with what the packer wrote |
| `Brokers.FrameForZeroFree` | sol/src/server.c:672-674 | without zero bytes the bytes sent are the frame |
| `Brokers.CreateTopics` | sol/src/server.c:315-317 | the statistics topics exist from the start, without subscribers |
| `BrokerSpec.InitialNames` | sol/src/server.c:316-317 | exactly the listed names exist at the start |
| `Brokers.Broker.Reach` | sol/src/server.c:564-576 | find or create the topic, and let a wildcard reach below a stored one |
| `Brokers.Broker.AddSubscriber` | sol/src/server.c:553-579 | one filter of a SUBSCRIBE, with the flag left by those before it |
| `Brokers.Broker.AddFilter` | sol/src/server.c:545-583 | the same as a step of the history |
| `Brokers.Broker.AddFilters` | sol/src/server.c:545-584 | the loop over the filters; one return code each, in order |
| `Brokers.Broker.OnSubscribe` | sol/src/server.c:535-599 | SUBSCRIBE extends the history by its filters in order, sends nothing and stages a SUBACK with their codes |
| `Brokers.Broker.Deliver` | sol/src/server.c:626-691 | find or create the topic and send to its subscribers, leaving the last QoS in the packet |
| `Brokers.Broker.StageReply` | sol/src/server.c:694-721 | PUBACK, PUBREC or nothing, by the given QoS |
| `Brokers.Broker.OnPublish` | sol/src/server.c:615-722 | PUBLISH extends the history and sends the fan-out; the packet ends up with the last subscriber's QoS, and the reply follows the publisher's |
| `Brokers.Broker.SentIsDue` | sol/src/server.c:535-722 | in every reachable state the bytes sent carry the packets told by the history, without wildcards by the earlier subscriptions alone |
| `Brokers.Broker.SentDecodes` | sol/src/server.c:654-691 | each of them, where no zero byte occurs, is the frame of its packet and decodes to it |
| `Connections.ClientsCountEntries` | sol/src/server.c:117-125 | accepted minus dropped clients is the number of live ids |
| `Connections.CounterMatchesTable` | sol/src/server.c:103-127 | over any proper run the table never holds more entries than the counter says, as many exactly when every live client is stored, and so in particular while no put has failed |
| `Connections.NoClientLost` | sol/src/server.c:118 | no put fails while the hashes of the live ids differ modulo a size that can be allocated |
| `Connections.AcceptKeepsCountIff` | sol/src/server.c:118-125 | accepting a client keeps the counter right if and only if the put succeeds |
| `Connections.ThirdClientLost` | sol/src/server.c:118-125 | concrete run: with memory for four slots the third client is counted but not stored |
| `Connections.Server.OnAccept` | sol/src/server.c:103-127 | accepting counts the client whatever the put returned |
| `Connections.Server.OnConnect` | sol/src/server.c:437-502 | a CONNECT under a stored client id drops the connection; any other stores the client, stages a CONNACK and changes neither closures nor counter |
| `Connections.Server.Drop` | sol/src/server.c:507-520 | a dropped client leaves both tables and the counters |
| `Connections.Server.CounterIsTableSize` | sol/src/server.c:217-226 | in every reachable state of a proper history the counter is the number of entries unless a put has failed, and never less |
| `Connections.Server.ConnectionsTotalIff` | sol/src/server.c:124-125 | `nconnections` is the total number of connections if and only if nobody was dropped |
| `Config.NumberLen` | sol/src/util.c:56-63 | one more than the number of digits, but one for zero |
| `Config.ParseInt` | sol/src/util.c:66-73 | the value of the leading digits |
| `Config.MemoryToString` | sol/src/config.c:75-105 | the printed size of any `size_t`, through its conversion to `int` and the buffer sized by `number_len` |
| `Config.UnitRanges` | sol/src/config.c:79-103 | the unit and its letters by the four ranges of the size |
| `Config.ReadMemory` | sol/src/config.c:28-46 | number times unit, within 64 bits |
| `Config.MultiplierIff` | sol/src/config.c:37-43 | the unit goes by the two bytes behind the number: `kb`, `mb` or `gb` in either case, else one |
| `Config.DefaultSizes` | sol/src/config.c:237-238 | the defaults `2GB` and `2MB` are read as 2147483648 and 2097152 |
| `Config.ValueSteps` | sol/src/util.c:66-73 | decimal notation: another digit multiplies by ten |
| `Config.PrintedSizeRoundsDownIff` | sol/src/config.c:28-105 | reading a printed size rounds it down to the printed unit if and only if it is below 2^61 |
| `Config.HugeSizeIsLost` | sol/src/config.c:97-103 | concrete input: 2^61 is printed as a negative number |
| `Config.UnitPrintedIff` | sol/src/config.c:75-105 | the unit is printed whole unless the size is zero or within the first gigabyte from a positive multiple of 2^62 on |
| `Examples.PublishWithId` | sol/src/mqtt.c:409-438 | a QoS 1 PUBLISH in its bytes |
| `Examples.PublishWithoutId` | sol/src/mqtt.c:94-113 | a QoS 0 PUBLISH in its bytes |
| `Examples.ZeroByteInTopic` | sol/src/mqtt.c:430-436 | what the packer writes when the topic holds a zero byte |
| `Examples.Replies` | sol/src/mqtt.c:368-407 | PUBACK, PUBREC, SUBACK and CONNACK in their bytes |
| `Examples.UnsubscribeTwo` | sol/src/mqtt.c:167-195 | an UNSUBSCRIBE with two filters in its bytes |
| `Examples.SubscribeOne` | sol/src/mqtt.c:120-153 | a SUBSCRIBE with one filter in its bytes, which the decoder overruns |
| `Examples.SubscribeOneShort` | sol/src/mqtt.c:134-146 | the loop with a counter that is one short |
| `Examples.ConnectUsernameOnly` | sol/src/mqtt.c:61-91 | a CONNECT with a user name and no password, decoded from its bytes |
| `Examples.ConnectAllFields` | sol/src/mqtt.c:61-91 | a CONNECT with every field, in its bytes and decoded from them |
| `Examples.TwoSubscribers` | sol/src/server.c:652-691 | two subscribers of one topic: the later one is served first, each with its QoS |
| `Examples.SolTopic` | sol/src/server.c:254-269 | the first of the fourteen names at start, in its bytes |
| `Examples.HashesGo` | sol/src/util.c:76-85 | the names of `a/#` and `a#c/#` |
| `Examples.PrintedSizes` | sol/src/config.c:75-105 | five sizes as they are printed |

## Left out

- Trie nodes as heap objects: nodes are named by their paths and hold the contents of their children lists, so the
  allocation, freeing and aliasing of nodes and the stale `tail` pointer of a sorted list are not captured.
- Tries.Trie.NodeFree: the released node stays as an empty leaf until its parent's list is cleared, where the source
  keeps a pointer to freed memory.
- LinkedLists.RemoveCell: the release of the removed cell is not modelled.
- CRC-32 and the mixing steps of the hash: any fixed function stands for them, because no result depends on which.
- The UUID library: that it prints lower-case digits is taken from its documentation.
- Connections.Server.OnConnect: says what becomes of the `clients` table but not that it is a map, because client ids
  of any length can pass for one another by prefix (`HashSpec.ShorterKeyPasses`). Sessions are not modelled.
- From a SUBSCRIBE packet to its handler: the decoder overruns every payload with a filter in it
  (`Wire.SubscribeFrameDecodesIff`), so subscribe steps start from decoded filters, and among SUBSCRIBE packets only
  the one without filters is in `Wire.PacketRoundTrip`.
- Brokers.Broker.OnSubscribe: the flag that remembers an allocated name leaks as well, and frees a name twice when a
  filter that ends with a slash or with `/#` follows one that needs a slash; memory is not modelled. Asks for at most
  125 filters, because more overrun the SUBACK buffer.
- Brokers.FilterName: the filter `#` alone, for which the source reads the byte before its buffer, is taken as a plain
  name.
- Wildcards.PushersAreCopies: nothing is claimed for topics created after the wildcard or when its own topic is not
  stored, because the code does not provide it.
- Codec.Reader.TakeLength: asks for a length field of at most four bytes; on a longer one the multiplier overflows
  (`Codec.MultiplierFitsIff`), which is undefined.
- Packets that run past their buffer: the source reads out of bounds, the readers ask for complete packets.
- Codec.PackSuback: asks for at most 125 return codes, because more overrun the buffer (`Wire.SubackFitsIff`).
- Removal of subscriptions and sessions of dropped clients, `topic_del_subscriber`, `list_remove_node`: unused or to do.
- Dispatch table, packet framing, rearming, sockets, epoll, timers, statistics messages, logging, configuration files.
- Time sizes, whose printer and parser disagree on the unit for hours.
