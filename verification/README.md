# OpenFlow controller: containers, codec, validator, checksum

A Dafny model of three cores of a C controller for OpenFlow 1.0.0, with proofs.

* **Containers.** The doubly linked list (`DoubleLink.dfy`), the singly linked
  list (`SingleLink.dfy`), the chained hash table whose live buckets are indexed
  by a second list (`HashSpec.dfy` as values, `HashTable.dfy` over the heap,
  `HashWalk.dfy` for the iterator and foreach), and the transaction-id table that
  keeps a hash and a list in agreement (`XidSpec.dfy`, `XidTable.dfy`).
  `Options.dfy` holds the optional value that the iterator and the codec return.
* **Codec and validator.** Bytes in host (little-endian) and wire order
  (`Bytes.dfy`), regions of elements that carry their own length (`Tlv.dfy`), the
  record layouts and their meaning (`Records.dfy`, `Regions.dfy`; byte by byte, in
  literal positions and numbers, `Layout.dfy`), the in-memory
  converters (`ByteOrder.dfy`, and `InPlace.dfy` for conversions onto their own
  source), the validators (`Validator.dfy`, `Messages.dfy`; which code a message
  gets, in literal numbers, `Verdicts.dfy`), action lists
  (`ActionList.dfy`), the message builders (`MsgPrep.dfy`) and the agreement of
  builders, validators and converters (`Agreement.dfy`).
* **Utilities.** The Internet checksum (`Checksum.dfy`) and the action printer
  (`ActionString.dfy`).

Code that changes memory in place is modelled by methods on classes, linked nodes
and byte arrays; each is proved against functions on values, and the laws are
proved about those functions. Ghost parameters name the part of the heap a method
works on: a list's nodes in order, a table's picture, the bytes at a pointer.

A region is called *tiled* when its elements are at least as long as their
header and their lengths add up to the region's length exactly.

Where the code and its evident intent differ, the code is kept:

* `cc_generate_xid` re-tests its first candidate and does not store it when the
  last id was `UINT32_MAX` (`src/cc_xid.c:30-32`). Both the intended loop and the
  written one are modelled; the written one is refuted, and exactly when it meets
  its purpose is proved.
* The action and property walkers accept a last element that overruns the region
  (`src/cc_of_err.c:1533`, `1369`), and the declared length of a packet out's
  actions is not compared with the message (`src/cc_of_err.c:508`). Concrete
  overruns are given, and what is accepted, with overrun and without, is
  characterised exactly, in the bytes of a features reply, a packet out, a flow
  mod, a flow statistics reply and a queue configuration reply.
* The converters of fixed-size actions write the type's own length, so a longer
  action keeps the destination's bytes beyond it; through separate memory such
  an action comes back exactly if those bytes agreed, and a flow record exactly if
  they agreed for each of its actions.
* `hton_packet_queue` reads the length back after writing it
  (`lib/cc_byte_order.c:551`), in reverse when it works in place. Its loop then
  runs on another count: exactly when the result is right all the same is proved,
  with a queue on which it is not. `hton_queue_property` reads the type back
  likewise; `hton_action_vendor` reads the length back too, but its body is then
  copied onto itself, which is harmless as long as the reversed length is at least
  8 and that much memory is there.
* `get_checksum` adds in 32 bits: the result is the Internet checksum exactly if
  the plain sum of the words fits, which is certain up to 131074 bytes.
* `cc_create_header` does not compile as it stands; its evident effect is modelled.
* The hash field of the transaction-id table goes by two names in the source and
  is one field here.

## Model

| member | source | states |
|---|---|---|
| DoubleLink.InsertBeforeDlist | lib/cc_double_link.c:71-94 | from any element of the list, a fresh element carrying the data stands right before it; prev and next stay symmetric over the whole list |
| DoubleLink.InsertAfterDlist | lib/cc_double_link.c:105-128 | the same with the new element right after |
| DoubleLink.GetFirstElement | lib/cc_double_link.c:138-152 | from any element, the first of the list |
| DoubleLink.GetLastElement | lib/cc_double_link.c:162-176 | from any element, the last of the list |
| DoubleLink.FindElement | lib/cc_double_link.c:187-211 | the first match at or after the start, else the nearest before it; NULL if and only if no element of the whole list matches |
| DoubleLink.DeleteDlistElement | lib/cc_double_link.c:223-242 | the remaining elements are linked symmetrically in their old order |
| HashSpec.DeleteInv | lib/cc_hash_table.c:234-267 | deleting keeps the table invariant: the index lists exactly the non-empty buckets once each, entries sit where their key hashes, no bucket holds two equal keys |
| HashSpec.DeleteClears | lib/cc_hash_table.c:158-166 | after the delete inside insert no entry compares equal to the key |
| HashSpec.InsertInv | lib/cc_hash_table.c:145-180 | inserting keeps the invariant although it deletes first and may drop and rebuild the bucket |
| HashSpec.InsertPlaces | lib/cc_hash_table.c:145-180 | the new entry stands first in the bucket of its key's hash modulo the number of buckets, before that bucket's entries with other keys, and the bucket stands first in the index if it held no other entry; other buckets stay |
| HashSpec.LookupAnswers | lib/cc_hash_table.c:191-211 | lookup returns what the finite map holds for the key, NULL if and only if no key compares equal (or NULL was stored) |
| HashSpec.DeleteModels | lib/cc_hash_table.c:234-267 | delete removes exactly the keys that compare equal, nothing else |
| HashSpec.InsertModels | lib/cc_hash_table.c:145-180 | insert replaces the entry with an equal key by the new one and keeps all others |
| HashSpec.StepRefinesMap | lib/cc_hash_table.c:145-267 | each operation keeps the invariant, simulates the map operation and returns the map's previous value for the key |
| HashSpec.RunRefinesMap | lib/cc_hash_table.c:145-267 | any run of inserts, lookups and deletes keeps the invariant and ends in a table for the finite map the same run leaves, for every equivalence and every hash that respects it |
| HashSpec.ResultsAnswer | lib/cc_hash_table.c:145-267 | every single result of a run is the map's answer at that point |
| HashTable.Hash.constructor | lib/cc_hash_table.c:93-111 | an empty table that satisfies the pointer and the table invariant |
| HashTable.Hash.LookupHashEntry | lib/cc_hash_table.c:191-211 | the pointer structure yields the value of the first equal key of the bucket |
| HashTable.DeleteBucket | lib/cc_hash_table.c:215-223 | the bucket's index node leaves the index, its slot becomes NULL, every other chain and node stays as it was |
| HashTable.NewBucket | lib/cc_hash_table.c:124-127 | a bare sentinel that knows its fresh index node, which stands first in the index |
| HashTable.Hash.DeleteHashEntry | lib/cc_hash_table.c:234-267 | the pointer structure is, node by node, the old one without the deleted entry's node, and without the bucket and its index node if that was its last entry; the old value is returned; length stays the number of entries |
| HashTable.Hash.InsertHashEntry | lib/cc_hash_table.c:145-180 | the new pointer structure holds the new table, the old value is returned, length stays the number of entries |
| HashWalk.ContentsExact | lib/cc_hash_table.c:280-301 | walking the index and its chains meets every stored entry, nothing else, and no key twice |
| HashWalk.LengthIsMapSize | lib/cc_hash_table.c:174-175 | the length field is the number of keys of the map |
| HashWalk.HashIterator.constructor | lib/cc_hash_table.c:313-328 | on a table that satisfies the invariant, everything the table holds is still to come |
| HashWalk.HashIterator.Advance | lib/cc_hash_table.c:340-366 | the loop ends, since each turn without an entry moves on in the index, and moves on at most once, since live buckets are not empty |
| HashWalk.HashIterator.IterateHashNext | lib/cc_hash_table.c:340-366 | each call returns the first of the entries still to come and leaves the others; NULL, for good, if and only if nothing is to come |
| HashWalk.IterateAll | src/cc_xid.c:179-189 | init and repeated next return each entry exactly once, `length` of them |
| HashWalk.VisitBucket | lib/cc_hash_table.c:286-298 | the inner loop of foreach visits each entry of a bucket once although the callback may delete it, down to freeing the bucket and its index node |
| HashWalk.ForeachHash | lib/cc_hash_table.c:280-301 | every entry present at the start is visited exactly once in order; the final table is the initial one swept by the callback's deletions |
| HashWalk.SweepRefinesMap | lib/cc_hash_table.c:280-301 | what the sweep leaves is the initial map minus exactly the entries the callback deleted |
| HashWalk.DeleteHash | lib/cc_hash_table.c:375-404 | every entry is freed exactly once, and because the index lists every live bucket, neither a bucket nor an index node is left |
| SingleLink.AppendToTail | lib/cc_single_link.c:98-116 | the new node is last and all others stay |
| SingleLink.ListLengthOf | lib/cc_single_link.c:126-133 | the number of nodes |
| SingleLink.FindListCustom | lib/cc_single_link.c:168-184 | the data of the first node that satisfies the function, NULL if and only if none does |
| SingleLink.DeleteElement | lib/cc_single_link.c:197-220 | true if and only if some node carries the data; only the first such node goes |
| XidSpec.LookupAgrees | src/cc_xid.c:159-166 | an id is found if and only if an entry of the list has it, and it is found as that entry |
| XidSpec.XidPlace | src/cc_xid.c:114-118 | every outstanding entry stands in the bucket of its id modulo UINT_MAX, modulo 65521 |
| XidSpec.SameNumber | src/cc_xid.c:97-155 | hash and list hold equally many entries |
| XidSpec.GeneratedUnique | src/cc_xid.c:29-47 | the id to generate is determined: the first free one counting up cyclically from the last one plus one |
| XidSpec.GeneratedIs | src/cc_xid.c:29-47 | the id to generate is the last one plus 1 plus d modulo 2^32 for the least d for which that id is free, and 0 if there is none |
| XidSpec.FullWhen | src/cc_xid.c:29-47 | every id is taken if and only if 2^32 entries are outstanding, so a smaller table always has a free id |
| XidSpec.WrittenIsGenerated | src/cc_xid.c:29-47 | the loop as written issues the id it should if and only if the last id is not UINT32_MAX and either its successor is free or 0 is the first free id |
| XidSpec.WrittenIsFree | src/cc_xid.c:29-47 | exactly when the id that the loop as written issues is not outstanding |
| XidSpec.WrittenReissues | src/cc_xid.c:29-47 | a table with one entry in which the loop as written issues that entry's id again |
| XidSpec.EnterAgrees | src/cc_xid.c:97-121 | adding an entry keeps hash and list in agreement if and only if its id was not outstanding |
| XidSpec.LeaveFindsSame | src/cc_xid.c:137-155 | the entry the hash gives up is in the list, so the list is not empty when delete_element is reached, and the search by id finds that very entry |
| XidSpec.LeaveAgrees | src/cc_xid.c:137-155 | deleting keeps the agreement |
| XidSpec.RunAgrees | src/cc_xid.c:97-155 | over any run that never exhausts the ids, hash and list hold the same entries, each under its own id once |
| XidTable.Probe | src/cc_xid.c:29-47 | the intended loop returns the first free id at or after the last one plus one, or 0 when all 2^32 are taken, in at most 2^32 lookups |
| XidTable.ProbeAsWritten | src/cc_xid.c:29-47 | the exact result of the loop as written |
| XidTable.XidTable.GenerateXid | src/cc_xid.c:29-47 | the generated id is stored as the last one; hash and list are untouched |
| XidTable.XidTable.GenerateXidAsWritten | src/cc_xid.c:29-47 | the same for the loop as written |
| XidTable.XidTable.InsertXidEntry | src/cc_xid.c:97-121 | one fresh entry under the generated id is last in the list and in the hash |
| XidTable.XidTable.DeleteXidEntry | src/cc_xid.c:137-155 | CC_SUCCESS if and only if the id was in the hash; then the entry with that id is gone from both, otherwise nothing changes in the list |
| XidTable.XidTable.LookupXidEntry | src/cc_xid.c:159-166 | CC_SUCCESS if and only if the id is taken |
| Checksum.Fold | lib/cc_utility.c:591-593 | one fold makes the sum smaller and keeps its value modulo 65535 and its 16-bit one's complement form |
| Checksum.GetChecksum | lib/cc_utility.c:581-596 | for every size the loops compute the complement of the folded sum, the accumulator being 32 bits wide |
| Checksum.NoOverflow | lib/cc_utility.c:584-590 | up to 131074 bytes the accumulator cannot overflow |
| Checksum.OverflowBeyond | lib/cc_utility.c:584-590 | with one byte more it can: for all bytes 0xff the sum wraps and the result is no longer the checksum |
| Checksum.ExactWhen | lib/cc_utility.c:584-593 | for every size the result folds the plain sum of the words if and only if that sum fits 32 bits |
| Checksum.NormIsOnesSum | lib/cc_utility.c:591-593 | the folded sum is the end-around-carry sum of the words |
| Checksum.IsInternetChecksum | lib/cc_utility.c:581-596 | the result is the complement of the one's complement sum of RFC 1071, section 1, if and only if the plain sum fits 32 bits, which it does up to 131074 bytes |
| Checksum.PadOdd | lib/cc_utility.c:588-590 | an odd buffer is summed as if a zero byte followed |
| Checksum.StoredVerifies | lib/cc_utility.c:581-596 | with an aligned 16-bit field zeroed before, a buffer carrying w there sums to 0 if and only if w is the computed checksum, or 0xffff where that is 0 |
| Checksum.Reordered | lib/cc_utility.c:585-587 | RFC 1071, section 2 (A): the order of the words does not matter |
| Checksum.ByteSwapped | lib/cc_utility.c:585-587 | RFC 1071, section 2 (B): swapping the bytes of every word swaps the bytes of the result |
| Tlv.FlattenSplit | src/cc_of_err.c:1521-1538 | splitting a tiled region at its length fields loses nothing |
| Tlv.SplitFlatten | src/cc_of_msg_prep.c:504-515 | elements laid end to end tile the region, and splitting finds the same elements again |
| Tlv.MapUndone | lib/cc_byte_order.c:335-340 | a conversion undone element by element is undone on the whole region, element boundaries included |
| Records.MirrorTwice | lib/cc_byte_order.c:30-69 | converting a fixed-size record twice gives it back with its padding zeroed |
| Records.MatchMeans | lib/cc_byte_order.c:30-49 | every field of the match means the same after the conversion |
| Records.PhyPortMeans | lib/cc_byte_order.c:53-69 | every field of a port description means the same after the conversion |
| Records.FlowStatsMeans | lib/cc_byte_order.c:315-327 | every field of a flow record's fixed part means the same after the conversion |
| Records.FlipMeans | lib/cc_byte_order.c:217-305 | for each of the 13 action types, the action means the same after the conversion |
| Records.FlipTwice | lib/cc_byte_order.c:217-305 | converting an action there and back gives it back with padding zeroed, over the destination's old bytes beyond the type's own length |
| Layout.MatchLayout | lib/cc_byte_order.c:30-49 | the converted match byte by byte: which byte of the source stands at each of the 40 places, and where the padding is zeroed |
| Layout.PhyPortLayout | lib/cc_byte_order.c:53-69 | the same for the 48 bytes of a port description |
| Layout.FlowStatsLayout | lib/cc_byte_order.c:315-327 | the same for the 88 bytes of a flow record, around its match |
| Layout.ActionLayout | lib/cc_byte_order.c:73-205 | the converted action byte by byte, by the number of its type: what is reversed, copied and zeroed, and from where on the destination's bytes stay |
| Layout.PropertyLayout | lib/cc_byte_order.c:449-493 | a converted property byte by byte: header, the rate of a minimum rate, unwritten padding |
| Layout.QueueLayout | lib/cc_byte_order.c:497-510 | a converted queue: id, length, zeroed padding, converted properties |
| Layout.Boundary | lib/cc_byte_order.c:335-340 | actions and properties have their length at byte 2, queues at 4, flow records at 0, and are at least 8, 8, 8 and 88 bytes long; each element ends where its length says |
| Layout.MatchOnWire | src/openflow.h:520-541 | each field of a match on the wire is the number that the bytes at its place spell, most significant first |
| Layout.PhyPortOnWire | src/openflow.h:238-256 | the same for a port description |
| Layout.FlowStatsOnWire | src/openflow.h:782-800 | the same for a flow record |
| Layout.ActionMeaning | src/openflow.h:336-430 | which bytes are an action and which action they are, by the number of the type, source and destination told apart |
| Layout.PropertyMeaning | src/openflow.h:891-912 | which bytes are a property, with its rate if its type is 1 |
| Layout.QueueMeaning | src/openflow.h:915-922 | which bytes are a packet queue: id, length, padding, then its properties in order |
| Regions.ActionsKept | lib/cc_byte_order.c:335-340 | converting an action list keeps its boundaries and the list of actions it means |
| Regions.ActionsTwice | lib/cc_byte_order.c:217-305 | converting an action list twice restores it with its padding zeroed |
| Regions.SettlesWhen | lib/cc_byte_order.c:73-176 | an action longer than its type comes back through other memory if and only if that memory already agreed beyond the type's length |
| Regions.FlowKept | lib/cc_byte_order.c:309-381 | a converted flow record keeps every field and every action |
| Regions.FlowTwice | lib/cc_byte_order.c:309-381 | ntoh_flow_stats and hton_flow_stats undo each other, in either order, up to zeroed padding and bytes beyond an action's own length |
| Regions.FlowInPlace | lib/cc_byte_order.c:309-381 | in place both ways, every tiled record of known types comes back with only padding zeroed |
| Regions.FlowElsewhere | lib/cc_byte_order.c:309-381 | through separate memory the same holds if and only if the last destination held the record's own bytes wherever an action is longer than its type; so it does if none is |
| Regions.ActionsSettleWhen | lib/cc_byte_order.c:335-340 | the same condition for an action list of any length |
| Regions.OverlongLost | lib/cc_byte_order.c:309-381 | a record with an output action that declares 16 bytes does not come back through zeroed memory |
| Regions.QueueKept | lib/cc_byte_order.c:497-563 | queue id, length and every property's type, length and rate survive a conversion, for any tiled property list |
| Regions.QueueTwice | lib/cc_byte_order.c:497-563 | hton_packet_queue and ntoh_packet_queue undo each other up to the queue's zeroed padding and the properties' unwritten padding |
| ByteOrder.NtohMatch | lib/cc_byte_order.c:30-49 | writes exactly the converted record and nothing else, in other memory, in a disjoint part of the same or in place |
| ByteOrder.NtohPhyPort | lib/cc_byte_order.c:53-69 | the same for a port description |
| ByteOrder.NtohActionOutput | lib/cc_byte_order.c:73-81 | writes exactly the converted structure of that type and nothing else, in other memory, in a disjoint part of the same or in place |
| ByteOrder.NtohActionVlanVid | lib/cc_byte_order.c:85-93 | writes exactly the converted structure of that type and nothing else, in other memory, in a disjoint part of the same or in place |
| ByteOrder.NtohActionVlanPcp | lib/cc_byte_order.c:97-105 | writes exactly the converted structure of that type and nothing else, in other memory, in a disjoint part of the same or in place |
| ByteOrder.NtohActionStripVlan | lib/cc_byte_order.c:109-116 | writes exactly the converted structure of that type and nothing else, in other memory, in a disjoint part of the same or in place |
| ByteOrder.NtohActionDlAddr | lib/cc_byte_order.c:120-128 | writes exactly the converted structure of that type and nothing else, in other memory, in a disjoint part of the same or in place |
| ByteOrder.NtohActionNwAddr | lib/cc_byte_order.c:132-139 | writes exactly the converted structure of that type and nothing else, in other memory, in a disjoint part of the same or in place |
| ByteOrder.NtohActionNwTos | lib/cc_byte_order.c:143-151 | writes exactly the converted structure of that type and nothing else, in other memory, in a disjoint part of the same or in place |
| ByteOrder.NtohActionTpPort | lib/cc_byte_order.c:155-163 | writes exactly the converted structure of that type and nothing else, in other memory, in a disjoint part of the same or in place |
| ByteOrder.NtohActionEnqueue | lib/cc_byte_order.c:167-176 | writes exactly the converted structure of that type and nothing else, in other memory, in a disjoint part of the same or in place |
| ByteOrder.NtohActionVendor | lib/cc_byte_order.c:193-201 | converts the header and copies a body of any length |
| ByteOrder.HtonActionVendor | lib/cc_byte_order.c:205-213 | the same; in place the length is read back in reverse, yet the body is copied onto itself, so the result is right whenever the reversed length covers a header and memory that is there |
| ByteOrder.NtohAction | lib/cc_byte_order.c:217-259 | for every defined type the memory becomes the converted action over what was there, and nothing else changes; for an undefined type nothing changes at all |
| ByteOrder.HtonAction | lib/cc_byte_order.c:263-305 | the same in the other direction |
| ByteOrder.NtohFlowStats | lib/cc_byte_order.c:309-343 | for every tiled record of known types the memory becomes the converted record, whatever the overlap of source and destination; the loop consumes exactly the action bytes |
| ByteOrder.HtonFlowStats | lib/cc_byte_order.c:347-381 | the same in the other direction |
| ByteOrder.NtohQueueProperty | lib/cc_byte_order.c:449-469 | type, length and, for MIN_RATE, the rate are converted; padding is not written |
| ByteOrder.HtonQueueProperty | lib/cc_byte_order.c:473-493 | converted by the type that the source holds once the header is written, whatever the overlap; for separate pieces that is the property's own type, in place the reversed one |
| ByteOrder.NtohPacketQueue | lib/cc_byte_order.c:497-528 | for every tiled property list the memory becomes the converted queue, whatever the overlap |
| ByteOrder.HtonPacketQueue | lib/cc_byte_order.c:532-563 | for separate pieces the memory becomes the converted queue; with any overlap the loop runs on the length that the source holds once the head is written, in place the reversed one, and converts what it comes to |
| InPlace.PropertyInPlaceWhen | lib/cc_byte_order.c:473-493 | hton_queue_property is right in place if and only if the type is neither MIN_RATE nor 256, or the rate reads the same from either end |
| InPlace.RateLost | lib/cc_byte_order.c:484-489 | a MIN_RATE property whose rate of 5 stays unconverted in place |
| InPlace.LengthBack | lib/cc_byte_order.c:545-551 | what hton_packet_queue reads back in place is the length in reverse, which is the length if and only if its two bytes are equal |
| InPlace.OwnLength | lib/cc_byte_order.c:551-560 | with the queue's own length the loop comes to every property and converts it |
| InPlace.InPlaceWhen | lib/cc_byte_order.c:532-563 | hton_packet_queue is right in place, for any known queue, if and only if the loop stays within the copied queue and the properties it does not come to are their own conversion |
| InPlace.RegularInPlace | lib/cc_byte_order.c:532-563 | for queues whose properties have the lengths required for NONE and MIN_RATE, in place works if and only if the two length bytes are equal |
| InPlace.InPlaceRunsOver | lib/cc_byte_order.c:551-560 | a queue of 24 bytes on which the loop runs past the copied queue in place |
| InPlace.InPlaceLeavesOut | lib/cc_byte_order.c:551-560 | a queue of 513 bytes whose second property stays unconverted in place |
| Validator.MatchAccepted | src/cc_of_err.c:389-413 | a match passes if and only if no undefined wildcard bit is set and vlan id, vlan priority and tos are in range |
| Validator.PhyPortAccepted | src/cc_of_err.c:168-195 | a port passes if and only if its number is valid and only defined bits are set |
| Validator.ActionAccepted | src/cc_of_err.c:1480-1826 | an element passes if and only if it decodes to an action of its type's own length whose fields are in range |
| Validator.WalkTiled | src/cc_of_err.c:1521-1538 | on a tiled region a walker is a fold: the first failing element's code, an offset that never wraps, and on success a stop exactly at the end |
| Validator.WalkAcceptsWhen | src/cc_of_err.c:1356-1374 | a walk returns 0 if and only if elements that pass lead up to the end, or up to one more that passes its check and declares more than is left, also where the region's length goes beyond the bytes there are |
| Validator.WalkAccepts | src/cc_of_err.c:1356-1374 | a walk accepts and stops exactly at the end if and only if the region is tiled and no element fails |
| Validator.ValidateActions | src/cc_of_err.c:1521-1538 | the 16-bit loop returns the result of the walk on every region it can walk, tiled or not |
| Validator.ActionsFold | src/cc_of_err.c:1521-1538 | for tiled bytes the code of the first action that fails, 0 if none does, ending exactly at the length |
| Validator.ActionsAccepted | src/cc_of_err.c:1521-1538 | 0 if and only if well-formed actions lead up to the end, or up to eight bytes that start like a well-formed action longer than what is left, whatever length is declared for the list; without overrun if and only if the bytes are a tiled list of well-formed actions |
| Validator.WellFormedBytes | src/cc_of_err.c:1480-1826 | what a well-formed action is in bytes, by the number of its type: its length and the range of its field |
| Validator.OverrunAccepted | src/cc_of_err.c:1533-1534 | a last action longer than what is left is accepted |
| Validator.BeyondAccepted | src/cc_of_err.c:1521-1538 | eight bytes pass as a list of sixteen |
| Validator.PropertyAccepted | src/cc_of_err.c:1323-1352 | a property passes if and only if it is a NONE of 8 bytes or a MIN_RATE of 16 |
| Validator.ValidateQueueProperties | src/cc_of_err.c:1356-1374 | the 16-bit loop returns the result of the walk |
| Validator.PropertiesAccepted | src/cc_of_err.c:1356-1374 | 0 if and only if properties of the lengths required for NONE and MIN_RATE lead up to the end, or up to a header that declares NONE of 8 or MIN_RATE of 16 where fewer bytes are left; without overrun if and only if such properties tile the region |
| Validator.PropertyOverrunAccepted | src/cc_of_err.c:1369-1370 | a MIN_RATE property of 16 bytes is accepted in a queue with room for 8 |
| Validator.ValidatePacketQueue | src/cc_of_err.c:1378-1403 | too short below 16 bytes, else the result for the properties |
| Validator.CountQueues | src/cc_of_err.c:1457-1467 | on any tiled region the counting pass finds exactly the queues, except that it stops in front of a last queue of 8 bytes |
| Messages.HeaderAccepted | src/cc_of_err.c:24-61 | the header passes if and only if version and type are right and the declared length is the buffer's and within the bounds |
| Messages.ValidatePhyPorts | src/cc_of_err.c:199-217 | the code of the first port that fails |
| Messages.ValidateFeaturesReply | src/cc_of_err.c:221-261 | the first failing check in order: header, tables, length, ports |
| Messages.ValidatePacketOut | src/cc_of_err.c:487-523 | the first failing check in order: header, port, actions |
| Messages.ValidateFlowMod | src/cc_of_err.c:527-591 | the first failing check in order: header, match, command, priority, out port, flags, actions |
| Messages.ValidateFlows | src/cc_of_err.c:965-1011 | for tiled records the code of the first record that fails |
| Messages.ValidateFlowStatsReply | src/cc_of_err.c:944-1014 | the first failing check in order: header, flags, records |
| Messages.ValidatePacketQueues | src/cc_of_err.c:1407-1424 | the second pass walks the same boundaries and returns the code of the first queue that fails |
| Messages.ValidateQueueGetConfigReply | src/cc_of_err.c:1428-1476 | the first failing check in order: header, port, count, queues |
| Messages.QueuesAccepted | src/cc_of_err.c:1322-1476 | 0 on accepted headers and ports if and only if every queue has at least 16 bytes, and properties of the lengths required for NONE and MIN_RATE up to its end or up to a header that declares more than is left |
| Messages.QueueConfigReplyAccepted | src/cc_of_err.c:1428-1476 | the message validates if and only if header and port are in order and every queue is like that |
| Messages.FeaturesReplyAccepted | src/cc_of_err.c:221-261 | the message validates if and only if header, table count and length are in order and every port is in range, in the 48 bytes at 32, 80 and so on: number, configuration below 0x80, state within 0x301, features below 0x1000 |
| Messages.PacketOutAccepted | src/cc_of_err.c:487-523 | the message validates if and only if header and port are in order and the actions are well-formed up to their declared end, or up to one that overruns it or the message, since the declared length is not compared with the message |
| Messages.OverrunPacketOutAccepted | src/cc_of_err.c:508-520 | a packet out of 24 bytes that declares 16 bytes of actions after its first 16 and validates |
| Messages.FlowStatsReplyAccepted | src/cc_of_err.c:944-1014 | the message validates if and only if header and flags are in order and every record has a match in range in its bytes, the highest priority if no wildcard is set, and actions that are well-formed up to the record's end or up to one that overruns it |
| Messages.FlowModAccepted | src/cc_of_err.c:527-591 | the message validates if and only if header, match, command, priority, out port and flags are in range in the bytes of the message, a match without wildcards has the highest priority, and the actions are well-formed up to the end or up to one that overruns it |
| Messages.OverrunMessageAccepted | src/cc_of_err.c:1362-1371 | a queue configuration reply with an overrunning property that validates |
| Messages.ValidateStatsReply | src/cc_of_err.c:1252-1282 | flow statistics are validated, undefined kinds are refused, the other kinds go to their validators, a parameter |
| Messages.ValidateOpenflowMessage | src/cc_of_err.c:1830-1916 | dispatch by type: the five types modelled, undefined types and kinds of statistics, and every other defined type, what its validator returns being a parameter |
| Verdicts.MatchVerdict | src/cc_of_err.c:389-413 | which of -45, -44, -43, -42 or 0 the 40 bytes of a match get |
| Verdicts.PortVerdict | src/cc_of_err.c:168-195 | which of -52, -51, -50, -49 or 0 the 48 bytes of a port description get |
| Verdicts.ActionVerdict | src/cc_of_err.c:1480-1826 | which code the bytes of an action get: -36 for a length below 8, -35 for an undefined type, else by the number of the type for a wrong length or a field out of range |
| Verdicts.PropertyVerdict | src/cc_of_err.c:1323-1352 | which of -39, -38, -37 or 0 a property gets, by its type and length |
| Verdicts.ActionsVerdict | src/cc_of_err.c:1521-1538 | a tiled list gets the code of its first action that fails |
| Verdicts.PropertiesVerdict | src/cc_of_err.c:1356-1374 | tiled properties get the code of the first that fails |
| Verdicts.HeaderVerdict | src/cc_of_err.c:24-61 | which of -60, -58, -57, -56, -55 or 0 a header gets, for every expected type and bounds |
| Verdicts.MessageHeaderVerdict | src/cc_of_err.c:1830-1916 | the code of a message whose type is undefined, whose version is another or whose declared length is below its type's least or not the buffer's |
| Verdicts.FlowModVerdict | src/cc_of_err.c:527-591 | the code of a flow mod with its header in order: -45, -44, -43, -42, -1, -6, -52, -5 by the bytes in this order, else its actions' |
| Verdicts.PacketOutVerdict | src/cc_of_err.c:487-523 | the code of a packet out with its header in order: -52, else its actions' |
| Verdicts.FeaturesReplyVerdict | src/cc_of_err.c:221-261 | the code of a features reply with its header in order: -53, -59, else that of its first port out of range |
| Verdicts.FlowVerdict | src/cc_of_err.c:965-1011 | the code of a flow record: -45, -44, -43, -42, -6 by the bytes in this order, else its actions' |
| Verdicts.FlowStatsReplyVerdict | src/cc_of_err.c:944-1014 | the code of a flow statistics reply with its header in order: -7, else that of its first record that fails |
| Verdicts.QueueVerdict | src/cc_of_err.c:1378-1403 | the code of a queue: -40 below 16 bytes, else its properties' |
| Verdicts.QueueConfigReplyVerdict | src/cc_of_err.c:1428-1476 | the code of a queue configuration reply with its header in order: -52, -59 where its last queue has no properties, else that of its first queue that fails |
| ActionList.OpenflowActions.AppendActionOutput | src/cc_of_action.c:65-85 | the list is the old one followed by a well-formed structure that decodes to this action, whatever its padding holds |
| ActionList.OpenflowActions.AppendActionSetVlanVid | src/cc_of_action.c:89-109 | the list is the old one followed by a well-formed structure that decodes to this action, whatever its padding holds |
| ActionList.OpenflowActions.AppendActionSetVlanPcp | src/cc_of_action.c:113-133 | the list is the old one followed by a well-formed structure that decodes to this action, whatever its padding holds |
| ActionList.OpenflowActions.AppendActionStripVlan | src/cc_of_action.c:137-155 | the list is the old one followed by a well-formed structure that decodes to this action, whatever its padding holds |
| ActionList.OpenflowActions.AppendActionSetDlAddr | src/cc_of_action.c:159-199 | the list is the old one followed by a well-formed structure that decodes to this action, whatever its padding holds |
| ActionList.OpenflowActions.AppendActionSetNwAddr | src/cc_of_action.c:203-257 | the list is the old one followed by a well-formed structure that decodes to this action, whatever its padding holds |
| ActionList.OpenflowActions.AppendActionSetNwTos | src/cc_of_action.c:261-281 | the list is the old one followed by a well-formed structure that decodes to this action, whatever its padding holds |
| ActionList.OpenflowActions.AppendActionSetTpPort | src/cc_of_action.c:285-322 | the list is the old one followed by a well-formed structure that decodes to this action, whatever its padding holds |
| ActionList.OpenflowActions.AppendActionEnqueue | src/cc_of_action.c:326-346 | the list is the old one followed by a well-formed structure that decodes to this action, whatever its padding holds |
| ActionList.OpenflowActions.AppendActionVendor | src/cc_of_action.c:350-379 | for a body of at most 65527 bytes, taken modulo 65536, a well-formed vendor action with that body; otherwise a structure that is no action |
| ActionList.OpenflowActions.GetActionsLength | src/cc_of_action.c:382-419 | the sum of the length fields; 65535 if a type is undefined or the sum does not fit 16 bits |
| Layout.ActionStored | src/cc_of_action.c:65-379 | the bytes of the structure that each append stores: the number of its type, source and destination told apart, its length, its fields least significant byte first, a body |
| MsgPrep.CreateHeader | src/cc_of_msg_prep.c:23-49 | a fresh buffer of the given length with version, type, length and transaction id, zero elsewhere |
| MsgPrep.ActionsLength | src/cc_of_action.c:382-419 | for well-formed actions the measured length is the size of the region that is then written |
| MsgPrep.WriteActions | src/cc_of_msg_prep.c:504-515 | the loop of flow mod and packet out writes the wire forms of the actions end to end and nothing else |
| MsgPrep.CreateFlowMod | src/cc_of_msg_prep.c:453-518 | a flow mod of exactly 72 bytes plus the actions, with the given header, match, fields and action region |
| MsgPrep.CreatePacketOut | src/cc_of_msg_prep.c:383-449 | error if and only if nothing is buffered and the frame is missing or too short; otherwise a packet out with the given fields, actions and frame |
| MsgPrep.CreateFeaturesReply | src/cc_of_msg_prep.c:170-230 | a features reply with the given fields and every port converted |
| MsgPrep.CreateFlowStatsReply | src/cc_of_msg_prep.c:795-843 | a flow statistics reply with the given flags and every record converted |
| MsgPrep.CreateQueueGetConfigReply | src/cc_of_msg_prep.c:1096-1151 | a queue configuration reply with the given port and every queue converted |
| Layout.FlowModOnWire | src/cc_of_msg_prep.c:453-518 | the built flow mod byte by byte: type 14, length, id, the converted match at 8, cookie at 48, command at 56, idle and hard timeout at 58 and 60, priority at 62, buffer id at 64, out port at 68, flags at 70, actions from 72 |
| Layout.PacketOutOnWire | src/cc_of_msg_prep.c:383-449 | the built packet out: type 13, length, id, buffer id at 8, in port at 12, length of the actions at 14, actions from 16, then the frame |
| Layout.FeaturesReplyOnWire | src/cc_of_msg_prep.c:170-230 | the built features reply: type 6, length, id, datapath id at 8, buffers at 16, tables at 20, capabilities at 24, actions at 28, ports from 32 |
| Layout.FlowStatsReplyOnWire | src/cc_of_msg_prep.c:795-843 | the built flow statistics reply: type 17, length, id, kind 1 at 8, flags at 10, records from 12 |
| Layout.QueueConfigReplyOnWire | src/cc_of_msg_prep.c:1096-1151 | the built queue configuration reply: type 21, length, id, port at 8, padding, queues from 16 |
| Agreement.ActionRegion | src/cc_of_msg_prep.c:429-440 | the region the loops write is as long as measured, tiled by the listed actions, each of its type's length, with the same meanings in the same order |
| Agreement.ActionsRoundTrip | lib/cc_byte_order.c:217-305 | walking the written region with ntoh_action yields the same list with padding zeroed, for all 13 types and any vendor bodies |
| Agreement.FlowModAgrees | src/cc_of_msg_prep.c:453-518 | the built flow mod validates if and only if the bytes of the given match, the fields and the actions are in range, with the highest priority if no wildcard is set |
| Agreement.PacketOutAgrees | src/cc_of_msg_prep.c:383-449 | the built packet out validates if and only if the port and the actions are in range |
| Agreement.FeaturesReplyAgrees | src/cc_of_msg_prep.c:170-230 | the built features reply validates if and only if it has a table and the bytes of every given port are in range |
| Agreement.FlowStatsReplyAgrees | src/cc_of_msg_prep.c:795-843 | the built flow statistics reply validates if and only if the flags and every given record are in range, with the highest priority where no wildcard is set |
| Agreement.QueueConfigReplyAgrees | src/cc_of_msg_prep.c:1096-1151 | with at least one queue, the built reply validates if and only if the port is valid and every queue has properties, all of the lengths required |
| ActionString.PrintAction | lib/cc_utility.c:512-571 | one turn of the loop appends the separator and the rendering if both fit, and otherwise reports failure |
| ActionString.ActionsToString | lib/cc_utility.c:503-577 | the loop ends, the string is terminated within the buffer, the result is true if and only if the joined renderings fit, and then the string is exactly their join |

## Left out

- Sockets, threads, timers, logging, applications, message handlers, `lib/queue.c` and `lib/cc_buffer.c`: input and output plumbing, or code that is disabled in the source.
- Mutexes and freeing: each operation is atomic, memory is not reclaimed; a removed node merely leaves the structure. `delete_dlist`, `delete_list` and `cc_finalize_xid_table` only free and are not modelled; of `delete_hash` it is modelled which entries it frees.
- Allocation failure: `malloc` always succeeds.
- Keys and values of the hash table: values that do not change while stored, in place of pointers to memory a caller could change; a value is NULL or something else.
- The width of `length`, of list lengths and of hash results: unbounded numbers.
- HashWalk.ForeachHash: the callback is a function of the entries seen so far and decides only whether to delete the entry it is given; other changes to the table from within the callback are not modelled.
- hash_core, the string, address and datapath-id comparisons and hashes: any lawful pair is covered; only the pair for 32-bit ids is instantiated.
- XidTable.Probe: the last id is passed in and returned rather than updated in the loop; nothing else reads it meanwhile. The time stamp of an entry is not modelled.
- ActionList.OpenflowActions.GetActionsLength: the counter of actions that the source keeps beside the list, which nothing modelled reads, is not part of the state.
- ByteOrder.NtohAction: actions of a defined type that are shorter than its structure are outside the precondition, since the source would write past the action. Source and destination are other memory, the same place or disjoint; a partial overlap is modelled only for the converters that copy their source first.
- ByteOrder.NtohFlowStats: records that are not tiled, on which the source's loop runs past the record or does not end, are outside the precondition; likewise for queues.
- Validator.ValidateActions: the region must be one the walker can read and cross without wrapping its 16-bit offset; copies of a too short action into a local structure, which read past it without effect, are not modelled.
- ByteOrder.HtonPacketQueue: where the source overlaps the destination and the length read back sends the loop past the copied queue, as in `InPlace.InPlaceRunsOver`, what it then does to memory is not modelled; likewise for a type read back as MIN_RATE in a property too short to hold a rate.
- Messages.QueuesAccepted: the header of every property that is looked at must lie in its queue, and that of every action of a flow record in its record, of a flow mod or packet out in the message; one that straddles the end is read from the bytes that follow, which is not modelled.
- Messages.ValidateOpenflowMessage: what the validators of the types other than features reply, packet out, flow mod, flow statistics reply and queue configuration reply return is a parameter; their messages have fixed-size bodies.
- Messages.ValidateFlowStatsReply: records must be tiled, and so must queues for the queue configuration reply, since the source follows their length fields unchecked.
- MsgPrep.CreateFlowMod: lists whose total exceeds 65535 bytes are outside the precondition, as the source then truncates the length and writes past the buffer; likewise for the other builders.
- MsgPrep.CreateHeader: the buffer object is a byte array.
- ActionString.ActionsToString: how one action is rendered is a parameter; what is joined when an action of an undefined type is truncated is not stated.
- Fixed-size statistics records, other builders and validators of fixed-size messages, and the table that translates validation codes: easy members.
