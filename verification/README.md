# bprd: threaded AVL tree, RFC 5444 codec and backpressure protocol

This project models the three cores of the BackPressure Routing Daemon and proves properties of the
model.

**The tree** (`lib/common/avl.c`, `lib/common/list.h`). Nodes are heap objects with the fields of the C
struct. The methods of `AvlTree` rewire them with the control flow of the C functions. Ghost arguments
name the shape that the heap holds: a context, which is the path from the place of work up to the root,
and the subtree in its hole. The invariant `Valid` ties together the ring of all nodes, the leader flags,
the count, and the tree of leaders; `Meaning` and `Mirror` spell out what it says. The operations are
proved against plain sequence operations: stable insertion, removal, and linear scans.

`Basics` holds what several parts share.

- `AvlShape`: trees, contexts, heights, in-order walks, rotations of shapes
- `AvlOrder`: the sorted list, its leaders, and the reference operations
- `AvlPlace`: what an insertion or a removal does to list and leaders
- `AvlHeap`, `AvlRotate`, `AvlReplace`: pointers as maps, and what pointer updates do to a shape
- `AvlBalance`, `AvlSearch`: height bookkeeping of the climbs, and the knowledge of a descent
- `AvlTree`: the operations themselves

**The codec** (`lib/packetbb`; sections 5.1 to 5.4 of RFC 5444). Bytes are integers from 0 to 255, flags
are tested by division. For each structure there is a function for the bytes that the writer lays out and
a function for what the reader makes of bytes, error codes and sticky read errors included, and a round
trip between the two. The buffers, counters and loops are methods over arrays and classes, proved against
these functions.

- `PbbBytes`: bytes, result codes, the read cursor, writing into a buffer
- `PbbTlv`, `PbbTlvBlock`: TLVs, TLV blocks, and the order of delivery
- `PbbTlvReader`: parsing into the AVL tree above, and handing TLVs to a consumer
- `PbbTlvWriter`: the accounting of added, reserved and set TLVs
- `PbbAddr`, `PbbAddrWriter`, `PbbAddresses`: address blocks, the loops that write them, the address list
- `PbbMessage`, `PbbFragment`: messages, and the fragment taken out of the message buffer
- `PbbPacket`, `PbbInterface`, `PbbReader`: packets, packing under an MTU, and the loops of the reader

**The protocol** (`src/`). Neighbours, commodities and queues are objects; what a hello does to the
neighbour table is a function on values that the callbacks are proved to compute. Runs of several nodes
and of three threads are sequences of events.

- `BprdFifo`: packet queues, and every interleaving of arrival, release and a question for the length
- `BprdList`, `BprdExpiry`: the linked list and its conditional removal, and the expiry test
- `BprdTables`, `BprdHello`: the records, and the meaning of a hello
- `BprdWire`, `BprdHelloWriter`, `BprdHelloReader`: hellos as messages, announced and heard
- `BprdRun`: whole runs over an unreliable network
- `BprdSend`: one round of the hello writer from the tables to the packets, and from the packets to the runs
- `BprdRouter`, `BprdTies`: differentials, next hops, and the fairness of the tie test
- `BprdRelease`, `BprdGradient`: the release of packets, and one step of update and release down the gradient

Every lemma turns automatic induction off and makes its recursive calls itself.

Where the code and its comments differ, the model follows the code:

- `avl_insert` overwrites the fields of a node that it then refuses; the tree is unchanged, the node is not.
- `_parse_tlvblock` bounds its TLVs by the end of the message or packet around the block, not by the end of the block.
- `_finalize_message_fragment` writes address blocks behind the TLVs that are set but copies them from
  behind the room that is reserved; `GapMatters` says exactly when that is the same.
- `cond_n_expired` computes modulo 2^32 although its neighbours may be older; `ExpiredExactly` says when
  the answer is right.
- `pbb_writer_add_messagetlv` can refuse a TLV, and the hello writer ignores that; `AnnouncedPrefix` says
  what is then announced.

Inputs of the model that the code takes from outside: clock readings, random draws, the choice of the
packet sequence numbers, the decisions of the packet handlers, and the encoding of the commodity struct:
any encoding of fixed size that tells commodities apart whose address has the length it has room for and
whose backlog is a 32-bit number. `StructIsValid` gives such an encoding.

## Model

| member | source | states |
|---|---|---|
| AvlTree.AvlTree.constructor | lib/common/avl.c:73-81 | an empty valid tree over an empty ring, with the given comparator and duplicate policy; the comparator must be a total preorder |
| AvlTree.AvlTree.Insert | lib/common/avl.c:195-275 | keeps the whole invariant; returns -1 exactly if duplicates are not allowed and a scan of the list finds an equal key, and then tree, list and every old node are unchanged; otherwise the list becomes the stable insertion of the new node, with at most one single or one double rotation |
| AvlTree.AvlTree.Remove | lib/common/avl.c:282-327 | keeps the whole invariant; the list loses exactly the given member and every other node keeps its place, whether the member is a follower, a leader whose duplicate is promoted, or a leader that leaves the tree; the member's list pointers are cleared |
| AvlTree.AvlTree.Find | lib/common/avl.c:90-102 | returns what a scan of the list for the first equal key returns |
| AvlTree.AvlTree.FindLessEqual | lib/common/avl.c:112-144 | returns the last list node whose key is not greater, or nothing |
| AvlTree.AvlTree.FindGreaterEqual | lib/common/avl.c:154-186 | returns the first list node whose key is not less, or nothing |
| AvlTree.AvlTree.FindRec | lib/common/avl.c:339-362 | ends at a leader that has the key or has no child on the key's side, every leader outside it on its proper side of the key, after a descent shorter than the height of the tree |
| AvlTree.AvlTree.Search | lib/common/avl.c:154-186 | the shared start of the queries: the node found is the first equal node of the list exactly if the comparison gave 0 |
| AvlTree.AvlTree.Place | lib/common/avl.c:219-233 | the leader where the search for a key ends and the last node of its run cut the list: all before is less than the key, all behind greater, and the leaders of the two parts are the parts of the walk |
| AvlTree.AvlTree.Meaning | lib/common/avl.c:220-274 | in every valid state: the list is sorted, leader flags mark exactly the run starts, the leaders in list order are the strictly ascending in-order walk of the tree, there are at least Fib(h + 2) - 1 of them, and count is the list length modulo 2^32 |
| AvlTree.AvlTree.Mirror | lib/common/avl.c:369-453 | in every valid state and around every tree node: parent links mirror child links, and the stored balance is height(right) - height(left), one of -1, 0 and 1 |
| AvlTree.AvlTree.InsertFirst | lib/common/avl.c:211-216 | inserting into an empty tree gives the valid tree of one leader |
| AvlTree.AvlTree.InsertDuplicate | lib/common/avl.c:237-244 | a node with a key that is present joins the end of its run as a follower: stable insertion, tree untouched, invariant kept |
| AvlTree.AvlTree.InsertNew | lib/common/avl.c:246-274 | a node with a new key becomes a leader: stable insertion, invariant kept |
| AvlTree.AvlTree.InsertLeader | lib/common/avl.c:246-274 | before a left hang or behind a right hang the new node enters list and walk at the same place, and the tree is a balanced search tree again |
| AvlTree.AvlTree.InsertBefore | lib/common/avl.c:515-520 | the ring gains the new node just before the given one; count follows modulo 2^32 |
| AvlTree.AvlTree.InsertAfter | lib/common/avl.c:529-534 | the ring gains the new node just behind the given one; count follows modulo 2^32 |
| AvlTree.AvlTree.Unlist | lib/common/avl.c:542-547 | the ring loses exactly the given node and clears its pointers; count follows modulo 2^32 |
| AvlTree.AvlTree.RunEnd | lib/common/avl.c:220-231 | the loop over the list ends at the last node of the leader's run of equal keys |
| AvlTree.AvlTree.RotateRight | lib/common/avl.c:369-408 | the pointer and balance updates of a right rotation are exactly the rotation of the shape, in any context |
| AvlTree.AvlTree.RotateLeft | lib/common/avl.c:415-453 | the pointer and balance updates of a left rotation are exactly the rotation of the shape, in any context |
| AvlTree.AvlTree.PostInsert | lib/common/avl.c:460-506 | the climb after an insertion ends with a balanced tree of the same walk and the same nodes, each call strictly nearer the root; the record of rotations grows by nothing, by one single rotation, or by one double rotation, at a child and then to the other side at its parent |
| AvlTree.AvlTree.PostRemove | lib/common/avl.c:554-614 | the climb after a removal ends with a balanced tree of the same walk and the same nodes, each call strictly nearer the root |
| AvlTree.AvlTree.RemoveWorker | lib/common/avl.c:646-782 | a leaf, a node with one child, and a node with two children leave a balanced tree whose walk has lost exactly that node |
| AvlTree.AvlTree.RemoveLeaf | lib/common/avl.c:653-716 | a tree node without children leaves; the walk loses exactly that node and the tree is balanced again |
| AvlTree.AvlTree.RemoveSingle | lib/common/avl.c:718-754 | the only child of a tree node takes its place; the walk loses exactly that node and the tree is balanced again |
| AvlTree.AvlTree.RemoveInner | lib/common/avl.c:756-782 | the minimum of the right subtree leaves its place and takes over the place of a node with two children; the walk loses exactly that node |
| AvlTree.AvlTree.LocalMin | lib/common/avl.c:621-628 | the descent to the left ends at the first node of the subtree's walk |
| AvlTree.AvlTree.Promote | lib/common/avl.c:289-319 | the next node of a run takes the leader's place in the tree and becomes the leader; flags and walk are those of the list without the old leader |
| AvlTree.AvlTree.RemoveAlone | lib/common/avl.c:321-323 | a leader that is its whole run leaves the tree; flags and walk are those of the list without it |
| AvlTree.AvlTree.TakeOver | lib/common/avl.c:292-318 | a node that is not in the tree gets all links and the balance of a tree node, and the neighbours point to it instead |
| AvlHeap.ListAdd | lib/common/list.h:92-98 | linking a node between two neighbours of the ring inserts it at that position and nowhere else |
| AvlHeap.ListRemove | lib/common/list.h:155-159 | unlinking takes exactly that node out of the ring and clears its pointers |
| AvlShape.RotRightExact | lib/common/avl.c:392-407 | if the stored balances equal the height differences, the balances computed by a right rotation do so again, for all values that occur in single and double rotations |
| AvlShape.RotLeftExact | lib/common/avl.c:438-452 | the mirror image for a left rotation |
| AvlShape.FixLeftAvl | lib/common/avl.c:482-492 | one single or double rotation repairs a left overhang of two and lowers the subtree by one level, unless the higher child was balanced |
| AvlShape.FixRightAvl | lib/common/avl.c:494-505 | the mirror image for a right overhang |
| AvlShape.AvlSize | lib/common/avl.c:339-362 | an AVL tree of height h has at least Fib(h + 2) - 1 nodes |
| AvlShape.LookupLogarithmic | lib/common/avl.c:339-362 | a node at depth d needs a tree of at least Fib(d + 3) - 1 leaders, so lookups are logarithmic |
| AvlOrder.StableInsertSorted | lib/common/avl.c:220-274 | the reference insertion keeps a sorted list sorted, keeps the old nodes in order, and puts the new node behind all of an equal key |
| AvlPlace.SpotLeaders | lib/common/avl.c:246-274 | the leaders of the list after a new key was inserted, in terms of the leaders around the spot where the search ended |
| AvlPlace.RemovedPromotes | lib/common/avl.c:289-319 | the leaders of the list after a leader with duplicates was removed: the next node of its run stands in its place |
| PbbTlv.TlvRoundTrip | lib/packetbb/pbb_tlv_writer.c:185-226 | a written TLV, with any type, extension and indices, is parsed back with the same fields and value, consuming exactly its bytes, if and only if the value length fits 16 bits |
| PbbTlv.SizeExact | lib/packetbb/pbb_tlv_writer.c:158-172 | the size that the writer counts is the number of bytes that it writes |
| PbbTlv.TlvProgress | lib/packetbb/pbb_reader.c:468-559 | a TLV that parses moves the cursor forward by two bytes at least and stays inside the buffer |
| PbbTlvBlock.TlvBlockRoundTrip | lib/packetbb/pbb_reader.c:570-620 | a TLV block is parsed back as its TLVs in order, and the cursor ends behind it |
| PbbTlvBlock.ArrangedFacts | lib/packetbb/pbb_reader.c:609-612 | the delivery order holds every TLV once, ascends by type and extension, and keeps the wire order among equal ones |
| PbbTlvBlock.EachOnce | lib/packetbb/pbb_reader.c:633-764 | a consumer sees each written TLV exactly once with its type, extension and value, sorted by type and extension, equal ones in written order |
| PbbTlvBlock.ParsedWellCut | lib/packetbb/pbb_reader.c:540-558 | a parsed multivalue TLV holds one value of its length for every index that it covers |
| PbbTlvReader.ParseBlock | lib/packetbb/pbb_reader.c:570-620 | the loop that inserts each TLV into the AVL tree: same result code and cursor as the parse function, and on success a valid tree whose list is the delivery order |
| PbbTlvReader.ScheduleBlock | lib/packetbb/pbb_reader.c:633-764 | the walk over the tree's list calls back for exactly the TLVs that cover the index, in delivery order, each with its value for that index, which is there in full |
| PbbTlvWriter.TlvWriter.Init | lib/packetbb/pbb_tlv_writer.c:59-71 | all counters start at zero with the given maximum |
| PbbTlvWriter.TlvWriter.Add | lib/packetbb/pbb_tlv_writer.c:84-99 | succeeds exactly if the TLV fits; then it stands behind the TLVs added before and header + added + allocated <= max; otherwise nothing changes |
| PbbTlvWriter.TlvWriter.Allocate | lib/packetbb/pbb_tlv_writer.c:110-122 | succeeds exactly if the TLV would fit, and then only the reserved room grows, with header + added + allocated <= max |
| PbbTlvWriter.TlvWriter.Set | lib/packetbb/pbb_tlv_writer.c:136-150 | succeeds exactly if set stays within allocated; then the TLV stands behind all TLVs added and set before; otherwise nothing changes |
| PbbTlvWriter.TlvWriter.ReadBack | lib/packetbb/pbb_tlv_writer.c:84-150 | after any sequence of additions, reservations and settings the TLV area parses back as the TLVs added and then set, in order |
| PbbAddr.BlockRoundTrip | lib/packetbb/pbb_msg_generator.c:921-1009 | what is written for any valid block is parsed and put together to the same addresses and prefix lengths in the same order, consuming exactly the bytes written |
| PbbAddr.ElisionShortens | lib/packetbb/pbb_msg_generator.c:921-1009 | cutting head and tail never makes an address block longer than the plain form |
| PbbAddr.LongestTailIsLongest | lib/packetbb/pbb_msg_generator.c:940-954 | the tail that is cut is shared by all addresses and no longer one within the limit is |
| PbbAddr.AddrBlockProgress | lib/packetbb/pbb_reader.c:810-895 | an address block that parses moves the cursor forward by two bytes at least, stays inside the buffer, and has all of its middles and prefix lengths |
| PbbAddrWriter.FindTail | lib/packetbb/pbb_msg_generator.c:937-954 | the two nested loops compute the longest shared tail |
| PbbAddrWriter.IsZeroTail | lib/packetbb/pbb_msg_generator.c:956-961 | the loop says exactly whether a nonempty tail is all zeros |
| PbbAddrWriter.WriteBlock | lib/packetbb/pbb_msg_generator.c:921-1009 | one round of the loop writes exactly the bytes of the block and the length of its empty TLV block, and nothing else in the buffer |
| PbbAddrWriter.WriteBlocks | lib/packetbb/pbb_msg_generator.c:902-1009 | the loop writes the blocks in a row and returns their size |
| PbbAddresses.AddressBook.Add | lib/packetbb/pbb_writer.c:218-272 | an address that is there is found with its first prefix length and nothing changes; another one goes to the end of the list; list and tree hold the same distinct addresses |
| PbbAddresses.AddressOrder | lib/packetbb/pbb_writer.c:581-585 | the byte comparison is a total order on addresses, as the tree demands |
| PbbMessage.MessageRoundTrip | lib/packetbb/pbb_msg_generator.c:1108-1149 | a message that fits 16 bits is parsed back as the same header fields, TLVs and address blocks, consuming exactly its bytes |
| PbbMessage.HeadRoundTrip | lib/packetbb/pbb_msg_generator.c:1108-1149 | every combination of header fields is parsed back, with the cursor on the TLV block |
| PbbMessage.MessageBytesSize | lib/packetbb/pbb_msg_generator.c:559-587 | the header size counted in advance is the number of header bytes written, and the size field is the message length |
| PbbMessage.MessageProgress | lib/packetbb/pbb_reader.c:1045-1148 | a message that parses moves the cursor forward by six bytes at least and stays inside the packet |
| PbbFragment.MessageWriter.SetHeader | lib/packetbb/pbb_msg_generator.c:559-587 | the counted header length is that of the header that will be written |
| PbbFragment.MessageWriter.SetAddrLen | lib/packetbb/pbb_msg_generator.c:528-546 | changing the address length, before or after the header was set up, keeps the counted header length right |
| PbbFragment.MessageWriter.WriteHeader | lib/packetbb/pbb_msg_generator.c:1108-1149 | writes exactly the header bytes into the room counted for them |
| PbbFragment.MessageWriter.SetLate | lib/packetbb/pbb_msg_generator.c:1174-1179 | the callbacks at the end set the TLVs that fit the reserved room, in order |
| PbbFragment.MessageWriter.Finalize | lib/packetbb/pbb_msg_generator.c:1161-1251 | says exactly which bytes are copied out for every earlier content of the buffer; they are the message if the reserved room is full or there is no address; late TLVs and address size are reset |
| PbbFragment.GapMatters | lib/packetbb/pbb_msg_generator.c:1204-1238 | the fragment that Finalize hands on is the message for every earlier content of the buffer if and only if no reserved room is unused or there is no address block |
| PbbPacket.PacketRoundTrip | lib/packetbb/pbb_pkt_generator.c:93-158 | a packet is parsed back as the same sequence number, TLVs and messages, and every byte of it is consumed |
| PbbPacket.AllSeen | lib/packetbb/pbb_reader.c:211-215 | in a packet without error the messages seen by the consumers are all messages of the packet |
| PbbInterface.Interface.Begin | lib/packetbb/pbb_pkt_generator.c:55-85 | opens an empty packet that holds those TLVs of the handlers that fit, each behind those accepted before it; what was sent is unchanged |
| PbbInterface.Interface.Open | lib/packetbb/pbb_msg_generator.c:145-167 | opens a packet if there is none, and reports how long a fragment may be |
| PbbInterface.Interface.WriteHeader | lib/packetbb/pbb_pkt_generator.c:277-297 | writes exactly the packet header, with a TLV block length only if there is a TLV |
| PbbInterface.Interface.Assemble | lib/packetbb/pbb_pkt_generator.c:124-152 | after header and memmove the buffer holds exactly the packet of header, TLVs and pending fragments, no longer than the MTU |
| PbbInterface.Interface.Flush | lib/packetbb/pbb_pkt_generator.c:93-168 | sends the pending fragments as one packet, or nothing if the buffer is flushed and no packet is forced; no fragment is lost, repeated or reordered |
| PbbInterface.Interface.Append | lib/packetbb/pbb_msg_generator.c:1207-1239 | a fragment that does not fit any more sends the packet first; sent and pending fragments together grow by exactly this fragment, at the end; packets sent before stay as they are |
| PbbInterface.Interface.Delivered | lib/packetbb/pbb_msg_generator.c:1207-1239 | over any history of fragments and flushes, a reader of the packets sent finds exactly the messages that are not pending, in order |
| PbbInterface.Interface.DeliveredSince | lib/packetbb/pbb_pkt_generator.c:93-168 | with nothing pending, a reader of the packets sent since some moment finds exactly the messages appended since, in order, and no packet exceeds the MTU |
| PbbReader.HandleMessage | lib/packetbb/pbb_reader.c:1045-1243 | the loops of the message parser and the calls to the consumers give the events that the parse function describes, with the same result code and cursor |
| PbbReader.ReadBlocks | lib/packetbb/pbb_reader.c:1120-1148 | the loop over address blocks parses them all or fails with the code of the parse function |
| PbbReader.ScheduleBlocks | lib/packetbb/pbb_reader.c:936-1004 | every address is put together in place and handed over once, in order, with its own TLVs |
| PbbReader.Block.Assemble | lib/packetbb/pbb_reader.c:946-966 | copying the middle of address i between head and tail gives that address, and head and tail stay |
| PbbReader.HandleMessages | lib/packetbb/pbb_reader.c:211-215 | the loop terminates because the bytes that remain shrink; with or without an error the events are those of all messages in front of the first one that does not parse, and success means that all of them parsed |
| PbbReader.HandlePacket | lib/packetbb/pbb_reader.c:119-237 | the code is that of the first error; with or without one, packet TLVs and message events are those of everything in front of it |
| BprdFifo.Fifo.Add | src/fifo_queue.c:67-81 | tail grows by one modulo 2^32; below that one more packet waits |
| BprdFifo.Fifo.Send | src/fifo_queue.c:91-98 | the oldest waiting packet is accepted, or nothing changes, also when tail has wrapped around behind head |
| BprdFifo.Fifo.DropOne | src/fifo_queue.c:108-115 | the oldest waiting packet is dropped, or nothing changes, also when tail has wrapped around behind head |
| BprdFifo.Fifo.Length | src/fifo_queue.c:125-134 | the number of packets that wait, as the two counters tell it |
| BprdFifo.Fifo.Delete | src/fifo_queue.c:142-149 | without arrivals in between, exactly the packets that the counters take to wait are dropped, each once and in order |
| BprdFifo.EveryRunGood | src/fifo_queue.c:67-115 | in every interleaving of the accesses of the arriving thread, the releasing thread and the one that asks for the length, however many packets arrive: tail is the number of arrivals modulo 2^32, head does not wrap, and the ids ruled on are 1 to head, each once and in order, but for the one verdict that is due |
| BprdFifo.HeadBehindTail | src/fifo_queue.c:67-115 | in every interleaving with fewer than 2^32 arrivals head <= tail, also while a release is under way |
| BprdFifo.CountersInEveryRun | src/fifo_queue.c:125-134 | in every interleaving of the three threads the two counters, looked at in one moment, tell arrivals minus verdicts, but for the one verdict that is due, if and only if fewer than 2^32 packets have arrived |
| BprdFifo.LengthReturned | src/fifo_queue.c:125-134 | below 2^32 arrivals and beside both other threads, with reads in either order: fifo_length returns tail - head as read for the difference if and only if head <= tail, else 2^32 more; that takes an arrival stored between reading tail and reading head; and it returns the number that waits at that moment if and only if the counter read first has not been moved since |
| BprdFifo.NothingReturned | src/fifo_queue.c:125-134 | below 2^32 arrivals, when the test of fifo_length fails it returns 0, which is the number that waits if the counter read first has not been moved since, or if head was read first |
| BprdFifo.LengthUnderflows | src/fifo_queue.c:125-134 | a run that goes wrong with two arrivals and two releases: fifo_length returns 2^32 - 1 while nothing waits |
| BprdFifo.WrapsAround | src/fifo_queue.c:76 | a run that goes wrong: 2^32 arrivals without a release make a queue in which every packet waits look empty, and a release then does nothing |
| BprdList.List.Insert | src/list.c:51-58 | the new data becomes the first of the list |
| BprdList.List.Find | src/list.c:89-104 | the first matching element, or nothing |
| BprdList.List.RemoveCond | src/list.c:115-139 | one pass tests every element once, in order, and removes exactly those that meet the condition, which may change from test to test |
| BprdExpiry.ElapsedIsPassed | src/ntable.c:55-56 | the 32-bit arithmetic computes the passed time modulo 2^32 |
| BprdExpiry.ExpiredExactly | src/ntable.c:43-58 | the expiry test is right if and only if the passed time fits 32 bits or wraps to the right answer |
| BprdExpiry.StaleLooksFresh | src/ntable.c:43-58 | a failure for every receipt: 2^32 microseconds later, at a normalised clock reading, the neighbour counts as fresh for every timeout |
| BprdRelease.Choose | src/backlogger.c:51-58 | the first commodity of the largest positive differential, or none |
| BprdRelease.Release | src/backlogger.c:43-66 | the oldest packets of one commodity of maximal differential are accepted, as many as half the differential rounded up, the count and the queue allow; other queues are unchanged |
| BprdRelease.ReleaseLowersPotential | src/backlogger.c:60-65 | for every exact 32-bit differential: it turns over by one at most, and the sum of the squared backlogs of all nodes never rises; it falls if and only if the differential is two or more, not the largest of 32 bits, and the caller asks for packets |
| BprdRelease.AsksForHalf | src/backlogger.c:62 | half of a differential, rounded up, is asked for if and only if the differential is not the largest of 32 bits or nothing is wanted; nothing is asked for exactly at 0, at the largest, or if nothing is wanted |
| BprdGradient.Update | src/router.c:235-357 | an update keeps exact records exact, and every commodity with a positive differential has a next hop whose backlog is that much smaller than mine |
| BprdGradient.Step | src/router.c:235-357 | a whole update, a release, and the released packets in the queue of the chosen next hop: with exact records of the neighbours the differential is exact and largest, the sum of the squared backlogs never rises, and it falls if and only if the differential is two or more, not the largest of 32 bits, and packets are asked for |
| BprdRouter.UpdateBacklogs | src/router.c:249-255 | every backlog is the length of its queue |
| BprdRouter.UpdateDifferentials | src/router.c:259-277 | aborts exactly if a neighbour announced a commodity that is not mine; otherwise every differential is max(0, mine - theirs) and nothing else changes |
| BprdRouter.ChooseHop | src/router.c:291-335 | for all random draws: abort exactly if a neighbour that the scan reaches lacks the commodity, else the destination if it is a bidirectional neighbour, else a bidirectional neighbour of the largest differential, else none; without a destination the choice is the single-pass tie test |
| BprdRouter.ChooseHops | src/router.c:281-353 | every commodity is settled: mine get 0 and no route, the others a right choice whose differential is stored, or 0 and no route |
| BprdRouter.RouterUpdate | src/router.c:235-357 | backlogs, differentials, choices and route calls of one whole update; it aborts exactly if a neighbour announced a commodity that is not mine, or the scan for a commodity that is not destined to me reaches a neighbour that lacks it |
| BprdRouter.BestHop | src/router.c:281-353 | in terms of backlogs: after an update a commodity goes to its destination if that is a bidirectional neighbour, else to one for which max(0, mine - theirs) is largest, and that value is stored |
| BprdTies.ScanFinds | src/router.c:310-334 | whatever is drawn, the single pass ends with the largest weight, the number of its ties, and a position that has it |
| BprdTies.TakenExactly | src/router.c:329-334 | a candidate is taken on exactly the draws from (num-1)/num up to 1 |
| BprdTies.ChosenExactly | src/router.c:310-334 | position j is the choice of the scan if and only if every draw lies in its side of a box: that of j at or above its threshold, that of every later position that draws below its own |
| BprdTies.OwnDraw | src/router.c:329-334 | positions that draw use calls of rand() of their own, one after the other |
| BprdTies.Fair | src/router.c:310-334 | with independent draws uniform on [0,1) every position of the largest weight is the choice with chance exactly 1/num, any other with chance 0; the chance is the volume of the box of ChosenExactly |
| BprdHello.Table.MessageStart | src/hello_reader.c:51-78 | the sender's record is found in the linked list or put in front of it, and gets the current time |
| BprdHello.Table.MessageTlv | src/hello_reader.c:81-107 | a commodity's backlog is noted, in a new record if needed; anything else ends the process |
| BprdHello.Table.AddressStart | src/hello_reader.c:110-129 | the sender becomes bidirectional if the address is mine |
| BprdHello.Table.Refresh | src/ntable.c:68-73 | the neighbours that pass their expiry test stay in the linked list, in order, each tested once with its own clock reading |
| BprdHello.Table.Sweep | src/list.c:115-139 | the pass over the linked list of neighbours, with the clock read anew for every test, removes exactly those that expired |
| BprdHello.Table.Receive | src/hello_reader.c:51-129 | the callbacks of one hello change the table as the meaning of the hello says, or end the process exactly if a TLV is not recognised |
| BprdHello.HandledFacts | src/hello_reader.c:51-129 | handling a hello keeps neighbours and their commodities unique, touches no neighbour but the sender, leaves the sender fresh, with the announced backlogs over the old ones, and bidirectional exactly if it was already or my address is listed |
| BprdHello.AnnouncedOnce | src/hello_writer.c:80-92 | in a hello without repeated commodities each announced backlog is the one that counts |
| BprdHelloWriter.AddMessageTlvs | src/hello_writer.c:72-94 | the TLVs of my commodities are added in list order as long as they fit; the others are silently left out |
| BprdHelloWriter.AnnouncedPrefix | src/hello_writer.c:80-92 | as all commodity TLVs have one size, exactly the longest prefix of the list that fits is announced |
| BprdHelloWriter.AddAddresses | src/hello_writer.c:96-113 | after the refresh every neighbour that is left is announced, in table order, each once, with the prefix length of its own address |
| BprdHelloWriter.FinishHeader | src/hello_writer.c:62-69 | the message carries the current number, and the next one is one more modulo 2^16 |
| BprdWire.HelloRoundTrip | src/hello_writer.c:72-113 | for commodities whose addresses fit the struct, the reader hears the originator, every commodity once and in order, and every address once and in order, as the writer announced them |
| BprdWire.StructIsValid | src/commodity.h:22-25 | address bytes followed by the four bytes of the backlog are a struct that can be told back |
| BprdHelloReader.HelloRecv | src/hello_reader.c:34-46 | the table after a packet is that of its messages handled one after the other, those in front of the first error if there is one, or the process has ended |
| BprdHelloReader.HelloArrives | src/hello_reader.c:34-46 | a packet with one written hello changes the receiver's table exactly as that hello means |
| BprdSend.Compose | lib/packetbb/pbb_msg_generator.c:168-192 | a message of type hello with originator and sequence number and the longest prefix of my commodities that fits |
| BprdSend.SendHello | src/hello_writer.c:170-185 | one round of the writer's thread, for any way of cutting the address list into one message or more: the table is refreshed, the commodities that fit are announced, and whoever reads the packets of the round finds exactly the messages of this hello, consecutively numbered, with nothing pending and no packet above the MTU |
| BprdSend.WireRefinesRun | src/hello_writer.c:72-113 | a round of the writer is a Send of the runs that is enabled, and handling message k of that round does to any node what delivering packet k of that Send does |
| BprdRun.EveryRunKeeps | src/hello_reader.c:51-129 | in every run with loss, delay, duplication and reordering: table records are backed by receipts, bidirectional ones by echoes, and packets list only neighbours heard in time |
| BprdRun.Bidirectional | src/hello_reader.c:121-125 | if a holds b as bidirectional, b had handled a hello of a before it sent some hello that lists a and that a handled |
| BprdRun.ListedInTime | src/hello_writer.c:96-113 | every neighbour listed in a hello stood in the sender's table with the time of a receipt, and at the clock reading of the test of its own position no more than the timeout had passed, if that time fits 32 bits |

## Left out

- The cost-driven choice of address block boundaries and the decision to fragment a message: blocks are any valid tiling, and a hello may come in any fragments.
- Address TLVs in the writer: the daemon adds none, and the model's messages carry none.
- Forwarding of messages (`pbb_writer_forward_msg`): it reads another layout than the writer writes.
- Consumer entries, mandatory TLVs and drop levels of the reader: the daemon registers no entries and drops nothing.
- Memory safety of the reader on malformed input: where the C code would divide by zero or copy outside an address, the model ends with the code `Undefined`.
- Allocation failure, and the order in which memory is freed; `list_merge`, autobuf, string helpers, netaddr texts, MAC helpers: easy members or library code.
- Sockets, netlink, iptables and nfqueue, thread creation, daemon, pidfile, procfile, logging and options: calls into the system. An error log that ends the process is an outcome of the modelled operation.
- PbbReader.HandlePacket: callbacks do not influence parsing; start and end callbacks without an effect are not events.
- PbbInterface.Interface.Append: packet TLV space is never reserved, because the fit test counts the room that is set and not the room that is reserved; the packet handlers try to add the same TLVs to every packet.
- PbbInterface.Interface.Flush: the packet handlers set no late TLVs, for the same reason.
- PbbTlvReader.ParseBlock: on an error the tree is discarded by the caller instead of being emptied node by node.
- PbbTlvWriter.TlvWriter.Add: promised only until the first reserved TLV is set, which is the order that the writer's state machine enforces.
- PbbAddrWriter.WriteBlock: the flag byte is written once with all its bits instead of bit by bit.
- BprdRouter.UpdateBacklogs: no arrivals and releases during the loop; what fifo_length returns beside them is LengthReturned. The lists of commodities are sequences.
- BprdRelease.Release: one releasing thread without arrivals in between; the interleavings are modelled in BprdFifo.
- BprdGradient.Step: the packets reach the next hop's queue at once, and a packet for the next hop itself counts there as well.
- BprdSend.SendHello: the message buffer has the size of the packet buffer, and each fragment fits an empty packet; the daemon registers no packet handlers and numbers no packets.
- BprdTies.Fair: draws are ideal reals from [0,1); rand() over RAND_MAX is discrete and can be 1.
- BprdRun.ListedInTime: beyond 2^32 microseconds the expiry test gives no such guarantee, as StaleLooksFresh shows.
